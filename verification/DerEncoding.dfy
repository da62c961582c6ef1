/**
 An abstract certificate and revocation list, their DER encoding (sections 8.1.3 and 10.1 of ITU-T X.690,
 sections 4.1, 4.2.1.1, 4.2.1.6 and 5.1 of RFC 5280), and the proof that the reader of `Der` undoes it.
 */
module DerEncoding {
  import opened Wrappers
  import opened Bytes
  import opened Der
  import Utf8

  /** The largest size four length octets can say, plus one. */
  const SIZE_LIMIT: nat := 0x1_0000_0000

  // ---- One element ------------------------------------------------------------------------------

  function Octets(n: nat, width: nat): (r: bytes)
    ensures |r| == width
  {
    if width == 0 then [] else Octets(n / 256, width - 1) + [n % 256]
  }

  function Width(n: nat): nat {
    if n < 0x100 then 1 else if n < 0x1_0000 then 2 else if n < 0x100_0000 then 3 else 4
  }

  /** The shortest definite length form. */
  function Length(n: nat): bytes {
    if n < 0x80 then [n] else [0x80 + Width(n)] + Octets(n, Width(n))
  }

  function Enc(tag: byte, value: bytes): (r: bytes)
    ensures |r| >= |value| + 2 && r[0] == tag
  {
    [tag] + Length(|value|) + value
  }

  lemma BigEndianStep(s: bytes, b: byte)
    ensures BigEndian(s + [b]) == 256 * BigEndian(s) + b
  {
    assert (s + [b])[..|s|] == s;
  }

  lemma LengthFormed(n: nat)
    requires n < SIZE_LIMIT
    ensures LengthForm(Length(n), n)
  {
    if n >= 0x80 {
      var w := Width(n);
      assert Length(n)[1..] == Octets(n, w);
      assert Span(1) == 0x100 && Span(2) == 0x1_0000 && Span(3) == 0x100_0000 && Span(4) == SIZE_LIMIT;
      BigEndianOctets(n, w);
    }
  }

  function Span(width: nat): nat {
    if width == 0 then 1 else 256 * Span(width - 1)
  }

  lemma {:induction false} BigEndianOctets(n: nat, width: nat)
    requires n < Span(width)
    ensures BigEndian(Octets(n, width)) == n
    decreases width
  {
    if width > 0 {
      BigEndianOctets(n / 256, width - 1);
      BigEndianStep(Octets(n / 256, width - 1), n % 256);
    }
  }

  /** An encoded element is read back, whatever follows. */
  lemma ReadEnc(tag: byte, value: bytes, rest: bytes)
    requires |value| < SIZE_LIMIT
    ensures Read(Enc(tag, value) + rest) == Ok(Tlv(tag, value, Enc(tag, value), rest))
  {
    LengthFormed(|value|);
    ReadForm(tag, Length(|value|), value, rest);
  }

  lemma ExpectEnc(tag: byte, value: bytes, rest: bytes)
    requires |value| < SIZE_LIMIT
    ensures Expect(Enc(tag, value) + rest, tag) == Ok(Tlv(tag, value, Enc(tag, value), rest))
  {
    ReadEnc(tag, value, rest);
    hide Read, Enc;
  }

  lemma ExpectEncAlone(tag: byte, value: bytes)
    requires |value| < SIZE_LIMIT
    ensures Expect(Enc(tag, value), tag) == Ok(Tlv(tag, value, Enc(tag, value), []))
  {
    ExpectEnc(tag, value, []);
    hide Enc, Expect;
    assert Enc(tag, value) + [] == Enc(tag, value);
  }

  lemma EncInjective(t1: byte, v1: bytes, r1: bytes, t2: byte, v2: bytes, r2: bytes)
    requires |v1| < SIZE_LIMIT && |v2| < SIZE_LIMIT
    requires Enc(t1, v1) + r1 == Enc(t2, v2) + r2
    ensures t1 == t2 && v1 == v2 && r1 == r2
  {
    hide Enc, Read;
    ReadEnc(t1, v1, r1);
    ReadEnc(t2, v2, r2);
  }

  // ---- Object identifiers -----------------------------------------------------------------------

  /** The octets of an object identifier whose arcs are below 128 (section 8.19 of ITU-T X.690). */
  function OidOctets(arcs: seq<nat>): (r: bytes)
    requires |arcs| >= 2 && arcs[0] <= 2 && arcs[1] < 40 && forall i :: 2 <= i < |arcs| ==> arcs[i] < 128
  {
    [40 * arcs[0] + arcs[1]] + seq(|arcs| - 2, i requires 0 <= i < |arcs| - 2 => arcs[i + 2])
  }

  /** The identifiers looked for are those RFC 5280 assigns: 2.5.29.35, 2.5.29.17 and 2.5.4.3. */
  lemma AssignedOids()
    ensures AKI_OID == OidOctets([2, 5, 29, 35]) && SAN_OID == OidOctets([2, 5, 29, 17]) && CN_OID == OidOctets([2, 5, 4, 3])
  {
    assert OidOctets([2, 5, 29, 35]) == [0x55, 29, 35];
  }

  // ---- Identifier octets ------------------------------------------------------------------------

  /** The identifier octet of a universal type (section 8.1.2 of ITU-T X.690). */
  function Universal(number: nat, constructed: bool): byte
    requires number < 31
  {
    number + if constructed then 0x20 else 0
  }

  /** That of a context-specific tag. */
  function Context(number: nat, constructed: bool): byte
    requires number < 31
  {
    0x80 + number + if constructed then 0x20 else 0
  }

  /** The identifiers looked for are those of the types in ITU-T X.680 and the fields in RFC 5280. */
  lemma AssignedTags()
    ensures SEQUENCE == Universal(16, true) && SET == Universal(17, true)
    ensures BOOLEAN == Universal(1, false) && INTEGER == Universal(2, false) && OCTET_STRING == Universal(4, false) && OID == Universal(6, false)
    ensures UTF8_STRING == Universal(12, false) && PRINTABLE_STRING == Universal(19, false) && IA5_STRING == Universal(22, false)
    ensures UTC_TIME == Universal(23, false) && GENERALIZED_TIME == Universal(24, false)
    ensures EXPLICIT_0 == Context(0, true) && EXPLICIT_3 == Context(3, true) && IMPLICIT_0 == Context(0, false)
    ensures forall tag :: UniqueId(tag) <==> exists number, constructed :: 1 <= number <= 2 && tag == Context(number, constructed)
  {
    forall tag ensures UniqueId(tag) <==> exists number, constructed :: 1 <= number <= 2 && tag == Context(number, constructed) {
      if UniqueId(tag) {
        assert tag == Context(if tag % 16 == 1 then 1 else 2, tag >= 0xa0);
      }
    }
  }

  // ---- The abstract certificate -----------------------------------------------------------------

  datatype Attribute = Attribute(kind: bytes, tag: byte, value: bytes)

  /** A relative distinguished name, and a distinguished name. */
  type Rdn = seq<Attribute>

  type Name = seq<Rdn>

  datatype Field = Field(tag: byte, value: bytes)

  /** The choices of a GeneralName. */
  datatype Choice = Email | Dns | Uri | OtherName(tag: byte)

  datatype General = General(choice: Choice, value: bytes)

  /** Their identifiers, by the numbers of section 4.2.1.6 of RFC 5280. */
  function TagOf(choice: Choice): byte {
    match choice
    case Email => Context(1, false)
    case Dns => Context(2, false)
    case Uri => Context(6, false)
    case OtherName(tag) => tag
  }

  function FieldsOf(names: seq<General>): seq<Field> {
    seq(|names|, i requires 0 <= i < |names| => Field(TagOf(names[i].choice), names[i].value))
  }

  datatype Payload = Aki(keyId: Option<bytes>, tail: bytes) | San(names: seq<General>) | Other(oid: bytes, octets: bytes)

  datatype Ext = Ext(critical: Option<bytes>, payload: Payload)

  datatype Stamp = Stamp(tag: byte, digits: bytes)

  datatype Cert = Cert(
    version: Option<bytes>, serial: bytes, algorithm: bytes, issuer: Name, notBefore: Stamp, notAfter: Stamp,
    subject: Name, keyInfo: bytes, uniqueIds: seq<Field>, extensions: Option<seq<Ext>>, signature: bytes)

  /** What RFC 5280 says of the optional parts, so that a field cannot be taken for its neighbour. */
  predicate WellFormed(c: Cert) {
    && (forall i :: 0 <= i < |c.uniqueIds| ==> UniqueId(c.uniqueIds[i].tag))
    && (c.extensions.Some? ==> WellFormedExts(c.extensions.value))
  }

  predicate WellFormedExts(exts: seq<Ext>) {
    forall i :: 0 <= i < |exts| ==> WellFormedPayload(exts[i].payload)
  }

  predicate WellFormedPayload(p: Payload) {
    match p
    case Aki(keyId, tail) => keyId == None ==> !Starts(tail, IMPLICIT_0)
    case San(names) => forall i :: 0 <= i < |names| && names[i].choice.OtherName? ==> names[i].choice.tag !in {0x81, 0x82, 0x86}
    case Other(oid, _) => oid != AKI_OID && oid != SAN_OID
  }

  // ---- Its encoding -----------------------------------------------------------------------------

  function EncOption(tag: byte, field: Option<bytes>): bytes {
    match field
    case None => []
    case Some(value) => Enc(tag, value)
  }

  function EncAttribute(a: Attribute): bytes {
    Enc(SEQUENCE, Enc(OID, a.kind) + Enc(a.tag, a.value))
  }

  function EncRdn(rdn: Rdn): bytes {
    if rdn == [] then [] else EncAttribute(rdn[0]) + EncRdn(rdn[1..])
  }

  function EncName(name: Name): bytes {
    if name == [] then [] else Enc(SET, EncRdn(name[0])) + EncName(name[1..])
  }

  function EncFields(fields: seq<Field>): bytes {
    if fields == [] then [] else Enc(fields[0].tag, fields[0].value) + EncFields(fields[1..])
  }

  function PayloadOid(p: Payload): bytes {
    match p
    case Aki(_, _) => AKI_OID
    case San(_) => SAN_OID
    case Other(oid, _) => oid
  }

  function PayloadOctets(p: Payload): bytes {
    match p
    case Aki(keyId, tail) => Enc(SEQUENCE, EncOption(IMPLICIT_0, keyId) + tail)
    case San(names) => Enc(SEQUENCE, EncFields(FieldsOf(names)))
    case Other(_, octets) => octets
  }

  function ExtBody(e: Ext): bytes {
    Enc(OID, PayloadOid(e.payload)) + (EncOption(BOOLEAN, e.critical) + Enc(OCTET_STRING, PayloadOctets(e.payload)))
  }

  function EncExts(exts: seq<Ext>): bytes {
    if exts == [] then [] else Enc(SEQUENCE, ExtBody(exts[0])) + EncExts(exts[1..])
  }

  function ExtField(exts: Option<seq<Ext>>): bytes {
    match exts
    case None => []
    case Some(list) => Enc(EXPLICIT_3, Enc(SEQUENCE, EncExts(list)))
  }

  function AfterSubject(c: Cert): bytes {
    Enc(SEQUENCE, c.keyInfo) + (EncFields(c.uniqueIds) + ExtField(c.extensions))
  }

  function Validity(c: Cert): bytes {
    Enc(c.notBefore.tag, c.notBefore.digits) + Enc(c.notAfter.tag, c.notAfter.digits)
  }

  function FromIssuer(c: Cert): bytes {
    Enc(SEQUENCE, EncName(c.issuer)) + (Enc(SEQUENCE, Validity(c)) + (Enc(SEQUENCE, EncName(c.subject)) + AfterSubject(c)))
  }

  function FromSerial(c: Cert): bytes {
    Enc(INTEGER, c.serial) + (Enc(SEQUENCE, c.algorithm) + FromIssuer(c))
  }

  function EncCert(c: Cert): bytes {
    Enc(SEQUENCE, Enc(SEQUENCE, EncOption(EXPLICIT_0, c.version) + FromSerial(c)) + c.signature)
  }

  // ---- What a reader should find in it ----------------------------------------------------------

  /** The key identifier of the first authority key identifier extension. */
  function KeyIdOf(exts: seq<Ext>): Option<bytes> {
    if exts == [] then None
    else if exts[0].payload.Aki? then exts[0].payload.keyId
    else KeyIdOf(exts[1..])
  }

  /** The names of the first subject alternative name extension. */
  function AltNamesOf(exts: seq<Ext>): Option<seq<General>> {
    if exts == [] then None
    else if exts[0].payload.San? then Some(exts[0].payload.names)
    else AltNamesOf(exts[1..])
  }

  /** A UTF8String, PrintableString or IA5String with some UTF-8 text in it. */
  predicate Textual(a: Attribute) {
    (a.tag == Universal(12, false) || a.tag == Universal(19, false) || a.tag == Universal(22, false)) && a.value != [] && Utf8.Valid(a.value)
  }

  function CommonNameIn(rdn: Rdn): Option<bytes> {
    if rdn == [] then None
    else if rdn[0].kind == CN_OID && Textual(rdn[0]) then Some(rdn[0].value)
    else CommonNameIn(rdn[1..])
  }

  /** The first textual common name of a subject. */
  function CommonNameOf(name: Name): Option<bytes> {
    if name == [] then None
    else if CommonNameIn(name[0]).Some? then CommonNameIn(name[0])
    else CommonNameOf(name[1..])
  }

  predicate Ia5(value: bytes) {
    |value| > 0 && forall i :: 0 <= i < |value| ==> value[i] <= 127
  }

  /** The names of one choice that are text, in order. */
  function NamesAs(names: seq<General>, choice: Choice): seq<bytes> {
    if names == [] then []
    else (if names[0].choice == choice && Ia5(names[0].value) then [names[0].value] else []) + NamesAs(names[1..], choice)
  }

  /** The ASCII fields with this tag, in order. */
  function Tagged(fields: seq<Field>, tag: byte): seq<bytes> {
    if fields == [] then []
    else (if fields[0].tag == tag && AsciiName(fields[0].value) then [fields[0].value] else []) + Tagged(fields[1..], tag)
  }

  lemma {:induction false} TaggedChoice(names: seq<General>, choice: Choice)
    requires WellFormedPayload(San(names)) && !choice.OtherName?
    ensures Tagged(FieldsOf(names), TagOf(choice)) == NamesAs(names, choice)
    decreases |names|
  {
    if names != [] {
      assert FieldsOf(names)[0] == Field(TagOf(names[0].choice), names[0].value);
      assert FieldsOf(names)[1..] == FieldsOf(names[1..]);
      assert WellFormedPayload(San(names[1..]));
      assert Ia5(names[0].value) <==> AsciiName(names[0].value);
      assert TagOf(names[0].choice) == TagOf(choice) <==> names[0].choice == choice;
      TaggedChoice(names[1..], choice);
    }
  }

  function LowerAll(names: seq<bytes>): seq<bytes> {
    seq(|names|, i requires 0 <= i < |names| => Lower(names[i]))
  }

  function ExtsOf(c: Cert): seq<Ext> {
    match c.extensions
    case None => []
    case Some(list) => list
  }

  function GeneralsOf(c: Cert): seq<General> {
    match AltNamesOf(ExtsOf(c))
    case None => []
    case Some(names) => names
  }

  // ---- Reading it back --------------------------------------------------------------------------

  lemma SkipEnc(tag: byte, field: Option<bytes>, rest: bytes)
    requires |EncOption(tag, field)| < SIZE_LIMIT && !Starts(rest, tag)
    ensures SkipOptional(EncOption(tag, field) + rest, tag) == Ok(rest)
  {
    match field
    case None =>
      assert [] + rest == rest;
    case Some(value) =>
      ReadEnc(tag, value, rest);
      hide Read, Enc;
  }

  lemma WalkEnc(c: Cert, more: bytes)
    requires |EncCert(c)| < SIZE_LIMIT
    ensures Walk(EncCert(c) + more)
            == Ok(Fields(c.serial, Enc(SEQUENCE, EncName(c.issuer)), Validity(c),
                         Tlv(SEQUENCE, EncName(c.subject), Enc(SEQUENCE, EncName(c.subject)), AfterSubject(c))))
  {
    var tbs := EncOption(EXPLICIT_0, c.version) + FromSerial(c);
    ExpectEnc(SEQUENCE, Enc(SEQUENCE, tbs) + c.signature, more);
    ExpectEnc(SEQUENCE, tbs, c.signature);
    assert !Starts(FromSerial(c), EXPLICIT_0);
    SkipEnc(EXPLICIT_0, c.version, FromSerial(c));
    hide Enc, Expect, SkipOptional, Length, EncName, AfterSubject, Validity, EncOption;
    ExpectEnc(INTEGER, c.serial, Enc(SEQUENCE, c.algorithm) + FromIssuer(c));
    ExpectEnc(SEQUENCE, c.algorithm, FromIssuer(c));
    WalkEncIssuer(c);
  }

  lemma WalkEncIssuer(c: Cert)
    requires |FromIssuer(c)| < SIZE_LIMIT
    ensures var issuer := Expect(FromIssuer(c), SEQUENCE);
            && issuer.Ok? && issuer.value.whole == Enc(SEQUENCE, EncName(c.issuer))
            && var validity := Expect(issuer.value.rest, SEQUENCE);
            && validity.Ok? && validity.value.value == Validity(c)
            && Expect(validity.value.rest, SEQUENCE)
               == Ok(Tlv(SEQUENCE, EncName(c.subject), Enc(SEQUENCE, EncName(c.subject)), AfterSubject(c)))
  {
    hide Enc, Expect, EncName, AfterSubject, Validity;
    var subject := Enc(SEQUENCE, EncName(c.subject)) + AfterSubject(c);
    ExpectEnc(SEQUENCE, EncName(c.issuer), Enc(SEQUENCE, Validity(c)) + subject);
    ExpectEnc(SEQUENCE, Validity(c), subject);
    ExpectEnc(SEQUENCE, EncName(c.subject), AfterSubject(c));
  }

  lemma {:induction false} SkipUniqueIdsEnc(ids: seq<Field>, rest: bytes)
    requires forall i :: 0 <= i < |ids| ==> UniqueId(ids[i].tag)
    requires |EncFields(ids)| < SIZE_LIMIT && (rest == [] || !UniqueId(rest[0]))
    ensures SkipUniqueIds(EncFields(ids) + rest) == Ok(rest)
    decreases |ids|
  {
    hide Enc, Read;
    if ids == [] {
      assert [] + rest == rest;
    } else {
      var tail := EncFields(ids[1..]) + rest;
      var input := Enc(ids[0].tag, ids[0].value) + tail;
      assert EncFields(ids) + rest == input;
      assert ids[0] == ids[..][0] && input[0] == ids[0].tag;
      ReadEnc(ids[0].tag, ids[0].value, tail);
      SkipUniqueIdsEnc(ids[1..], rest);
    }
  }

  /** The octets of the first extension with this identifier. */
  function OctetsOf(exts: seq<Ext>, oid: bytes): Option<bytes> {
    if exts == [] then None
    else if PayloadOid(exts[0].payload) == oid then Some(PayloadOctets(exts[0].payload))
    else OctetsOf(exts[1..], oid)
  }

  lemma {:induction false} FindExtensionEnc(exts: seq<Ext>, oid: bytes)
    requires |EncExts(exts)| < SIZE_LIMIT
    ensures FindExtension(EncExts(exts), oid) == Ok(OctetsOf(exts, oid))
    decreases |exts|
  {
    hide Enc, Expect, PayloadOid, PayloadOctets, SkipOptional, EncOption;
    if exts != [] {
      var e := exts[0];
      ExpectEnc(SEQUENCE, ExtBody(e), EncExts(exts[1..]));
      var after := EncOption(BOOLEAN, e.critical) + Enc(OCTET_STRING, PayloadOctets(e.payload));
      ExpectEnc(OID, PayloadOid(e.payload), after);
      assert Enc(OCTET_STRING, PayloadOctets(e.payload))[0] == OCTET_STRING;
      SkipEnc(BOOLEAN, e.critical, Enc(OCTET_STRING, PayloadOctets(e.payload)));
      ExpectEncAlone(OCTET_STRING, PayloadOctets(e.payload));
      FindExtensionEnc(exts[1..], oid);
    }
  }

  lemma ExtensionOfEnc(c: Cert, oid: bytes)
    requires WellFormed(c) && |AfterSubject(c)| < SIZE_LIMIT
    ensures ExtensionOf(AfterSubject(c), oid) == Ok(OctetsOf(ExtsOf(c), oid))
  {
    var field := ExtField(c.extensions);
    ExpectEnc(SEQUENCE, c.keyInfo, EncFields(c.uniqueIds) + field);
    SkipUniqueIdsEnc(c.uniqueIds, field);
    hide Enc, Expect, SkipUniqueIds, FindExtension, EncFields, EncExts, WellFormedExts;
    if c.extensions.Some? {
      var list := c.extensions.value;
      ReadEnc(EXPLICIT_3, Enc(SEQUENCE, EncExts(list)), []);
      assert field + [] == field;
      hide Read;
      ExpectEncAlone(SEQUENCE, EncExts(list));
      FindExtensionEnc(list, oid);
    }
  }

  lemma {:induction false} AkiOctets(exts: seq<Ext>)
    requires WellFormedExts(exts)
    ensures KeyIdOf(exts).Some? ==> OctetsOf(exts, AKI_OID).Some?
    ensures match OctetsOf(exts, AKI_OID)
            case None => KeyIdOf(exts) == None
            case Some(octets) =>
              exists tail :: octets == Enc(SEQUENCE, EncOption(IMPLICIT_0, KeyIdOf(exts)) + tail)
                             && (KeyIdOf(exts) == None ==> !Starts(tail, IMPLICIT_0))
  {
    hide Enc, EncOption, EncFields;
    if exts != [] {
      assert WellFormedPayload(exts[0].payload);
      assert WellFormedExts(exts[1..]);
      AkiOctets(exts[1..]);
    }
  }

  lemma {:induction false} SanOctets(exts: seq<Ext>)
    requires WellFormedExts(exts)
    ensures match AltNamesOf(exts)
            case None => OctetsOf(exts, SAN_OID) == None
            case Some(names) => OctetsOf(exts, SAN_OID) == Some(Enc(SEQUENCE, EncFields(FieldsOf(names))))
  {
    hide Enc, EncOption, EncFields;
    if exts != [] {
      assert WellFormedPayload(exts[0].payload);
      assert WellFormedExts(exts[1..]);
      SanOctets(exts[1..]);
    }
  }

  lemma {:induction false} OctetsFit(exts: seq<Ext>, oid: bytes)
    ensures OctetsOf(exts, oid).Some? ==> |OctetsOf(exts, oid).value| <= |EncExts(exts)|
  {
    hide Enc, PayloadOid, PayloadOctets, EncOption;
    if exts != [] {
      OctetsFit(exts[1..], oid);
    }
  }

  lemma AuthorityKeyIdEnc(c: Cert)
    requires WellFormed(c) && |AfterSubject(c)| < SIZE_LIMIT
    ensures AuthorityKeyId(AfterSubject(c)) == Ok(KeyIdOf(ExtsOf(c)))
  {
    var exts := ExtsOf(c);
    ExtensionOfEnc(c, AKI_OID);
    AkiOctets(exts);
    OctetsFit(exts, AKI_OID);
    hide ExtensionOf, OctetsOf, EncExts, Enc, Expect, EncFields, Read, WellFormedExts;
    var keyId := KeyIdOf(exts);
    hide KeyIdOf;
    if OctetsOf(exts, AKI_OID).Some? {
      var octets := OctetsOf(exts, AKI_OID).value;
      var tail :| octets == Enc(SEQUENCE, EncOption(IMPLICIT_0, keyId) + tail)
                  && (keyId == None ==> !Starts(tail, IMPLICIT_0));
      ExpectEncAlone(SEQUENCE, EncOption(IMPLICIT_0, keyId) + tail);
      if keyId.Some? {
        ReadEnc(IMPLICIT_0, keyId.value, tail);
      } else {
        assert [] + tail == tail;
      }
    }
  }

  // ---- Distinguished names ----------------------------------------------------------------------

  lemma {:induction false} RdnInjective(a: Rdn, b: Rdn)
    requires |EncRdn(a)| < SIZE_LIMIT && EncRdn(a) == EncRdn(b)
    ensures a == b
    decreases |a|
  {
    hide Enc;
    if a == [] || b == [] {
      assert a == [] && b == [];
    } else {
      var x, y := a[0], b[0];
      EncInjective(SEQUENCE, Enc(OID, x.kind) + Enc(x.tag, x.value), EncRdn(a[1..]),
                   SEQUENCE, Enc(OID, y.kind) + Enc(y.tag, y.value), EncRdn(b[1..]));
      EncInjective(OID, x.kind, Enc(x.tag, x.value), OID, y.kind, Enc(y.tag, y.value));
      assert Enc(x.tag, x.value) + [] == Enc(y.tag, y.value) + [];
      EncInjective(x.tag, x.value, [], y.tag, y.value, []);
      RdnInjective(a[1..], b[1..]);
      assert a == [x] + a[1..] && b == [y] + b[1..];
    }
  }

  lemma {:induction false} NameInjective(a: Name, b: Name)
    requires |EncName(a)| < SIZE_LIMIT && EncName(a) == EncName(b)
    ensures a == b
    decreases |a|
  {
    hide Enc, EncRdn;
    if a == [] || b == [] {
      assert a == [] && b == [];
    } else {
      EncInjective(SET, EncRdn(a[0]), EncName(a[1..]), SET, EncRdn(b[0]), EncName(b[1..]));
      RdnInjective(a[0], b[0]);
      NameInjective(a[1..], b[1..]);
      assert a == [a[0]] + a[1..] && b == [b[0]] + b[1..];
    }
  }

  lemma {:induction false} FindInRdnEnc(rdn: Rdn)
    requires |EncRdn(rdn)| < SIZE_LIMIT
    ensures FindInRdn(EncRdn(rdn)) == Ok(CommonNameIn(rdn))
    decreases |rdn|
  {
    if rdn != [] {
      var a := rdn[0];
      ReadEnc(a.tag, a.value, []);
      hide Enc, Expect, Text, Read, Textual;
      ExpectEnc(SEQUENCE, Enc(OID, a.kind) + Enc(a.tag, a.value), EncRdn(rdn[1..]));
      ExpectEnc(OID, a.kind, Enc(a.tag, a.value));
      assert Enc(a.tag, a.value) + [] == Enc(a.tag, a.value);
      FindInRdnEnc(rdn[1..]);
      TextIsValue(a);
    }
  }

  lemma TextIsValue(a: Attribute)
    ensures Text(a.tag, a.value) == if Textual(a) then Some(a.value) else None
  {
    hide Utf8.Valid;
  }

  lemma {:induction false} FindCommonNameEnc(name: Name)
    requires |EncName(name)| < SIZE_LIMIT
    ensures FindCommonName(EncName(name)) == Ok(CommonNameOf(name))
    decreases |name|
  {
    hide Enc, Expect, EncRdn, FindInRdn, CommonNameIn;
    if name != [] {
      ExpectEnc(SET, EncRdn(name[0]), EncName(name[1..]));
      FindInRdnEnc(name[0]);
      FindCommonNameEnc(name[1..]);
    }
  }

  // ---- Alternative names ------------------------------------------------------------------------

  /** `names` with the fields of each kind added at the end. */
  function Extended(names: CertNames, fields: seq<Field>): CertNames {
    CertNames(names.commonName, names.dns + LowerAll(Tagged(fields, DNS_NAME)), names.uris + Tagged(fields, URI),
              names.emails + LowerAll(Tagged(fields, RFC822_NAME)))
  }

  lemma LowerAllCons(x: bytes, t: seq<bytes>)
    ensures LowerAll([x] + t) == [Lower(x)] + LowerAll(t)
  {
    hide Lower;
    var a, b := LowerAll([x] + t), [Lower(x)] + LowerAll(t);
    assert forall i :: 0 <= i < |a| ==> a[i] == b[i];
  }

  lemma TaggedStep(g: Field, rest: seq<Field>, tag: byte)
    ensures var first := if g.tag == tag && AsciiName(g.value) then [g.value] else [];
            Tagged([g] + rest, tag) == first + Tagged(rest, tag)
    ensures var first := if g.tag == tag && AsciiName(g.value) then [Lower(g.value)] else [];
            LowerAll(Tagged([g] + rest, tag)) == first + LowerAll(Tagged(rest, tag))
  {
    hide AsciiName, Lower, LowerAll;
    assert ([g] + rest)[0] == g && ([g] + rest)[1..] == rest;
    var t := Tagged(rest, tag);
    LowerAllCons(g.value, t);
    assert [] + t == t && [] + LowerAll(t) == LowerAll(t);
  }

  lemma ExtendedStep(names: CertNames, g: Field, rest: seq<Field>)
    ensures Extended(Add(names, g.tag, g.value), rest) == Extended(names, [g] + rest)
  {
    hide Tagged, AsciiName, Lower, LowerAll;
    var added := Add(names, g.tag, g.value);
    TaggedStep(g, rest, DNS_NAME);
    TaggedStep(g, rest, URI);
    TaggedStep(g, rest, RFC822_NAME);
    assert added.dns + LowerAll(Tagged(rest, DNS_NAME)) == names.dns + LowerAll(Tagged([g] + rest, DNS_NAME));
    assert added.uris + Tagged(rest, URI) == names.uris + Tagged([g] + rest, URI);
    assert added.emails + LowerAll(Tagged(rest, RFC822_NAME)) == names.emails + LowerAll(Tagged([g] + rest, RFC822_NAME));
  }

  lemma {:induction false} AddAllEnc(names: CertNames, fields: seq<Field>)
    requires |EncFields(fields)| < SIZE_LIMIT
    ensures AddAll(names, EncFields(fields)) == Ok(Extended(names, fields))
    decreases |fields|
  {
    if fields == [] {
      assert LowerAll([]) == [];
      assert names.dns + [] == names.dns && names.uris + [] == names.uris && names.emails + [] == names.emails;
    } else {
      hide Enc, Read, Add, Extended;
      var g := fields[0];
      ReadEnc(g.tag, g.value, EncFields(fields[1..]));
      AddAllEnc(Add(names, g.tag, g.value), fields[1..]);
      ExtendedStep(names, g, fields[1..]);
      assert [g] + fields[1..] == fields;
    }
  }

  // ---- Decoding undoes encoding -----------------------------------------------------------------

  lemma PartsFit(c: Cert)
    ensures |AfterSubject(c)| < |EncCert(c)| && |EncName(c.subject)| < |EncCert(c)| && |EncName(c.issuer)| < |EncCert(c)|
    ensures |Validity(c)| < |EncCert(c)| && |EncExts(ExtsOf(c))| <= |AfterSubject(c)|
  {
    assert EncExts([]) == [];
    hide Enc, EncName, EncExts, Validity, EncFields, EncOption;
  }

  lemma ValidityEnc(c: Cert)
    requires |Validity(c)| < SIZE_LIMIT
    ensures Read(Validity(c)).Ok?
    ensures var t := Read(Validity(c)).value;
            && t.tag == c.notBefore.tag && t.value == c.notBefore.digits && Read(t.rest).Ok?
            && Read(t.rest).value.tag == c.notAfter.tag && Read(t.rest).value.value == c.notAfter.digits
  {
    hide Enc, Read;
    var a, b := c.notBefore, c.notAfter;
    ReadEnc(a.tag, a.digits, Enc(b.tag, b.digits));
    ReadEnc(b.tag, b.digits, []);
    assert Enc(b.tag, b.digits) + [] == Enc(b.tag, b.digits);
  }

  lemma SelfIssued(c: Cert)
    requires |EncCert(c)| < SIZE_LIMIT
    ensures Enc(SEQUENCE, EncName(c.issuer)) == Enc(SEQUENCE, EncName(c.subject)) <==> c.issuer == c.subject
  {
    PartsFit(c);
    hide Enc, EncName, EncCert;
    if Enc(SEQUENCE, EncName(c.issuer)) == Enc(SEQUENCE, EncName(c.subject)) {
      EncInjective(SEQUENCE, EncName(c.issuer), [], SEQUENCE, EncName(c.subject), []);
      NameInjective(c.issuer, c.subject);
    }
  }

  /** Reading an encoded certificate gives its serial number, dates, issuer test and key identifier. */
  lemma ParseUndoesEncode(c: Cert, clock: Clock, more: bytes)
    requires WellFormed(c) && |EncCert(c)| < SIZE_LIMIT
    ensures Parse(EncCert(c) + more, clock)
            == match (clock(c.notBefore.tag, c.notBefore.digits), clock(c.notAfter.tag, c.notAfter.digits))
               case (Ok(from), Ok(until)) =>
                 Ok(CertInfo(from, until, Hex(c.serial), c.issuer == c.subject,
                             match KeyIdOf(ExtsOf(c)) case None => None case Some(aki) => Some(AriId(aki, c.serial))))
               case _ => Err
  {
    PartsFit(c);
    WalkEnc(c, more);
    ValidityEnc(c);
    SelfIssued(c);
    AuthorityKeyIdEnc(c);
    hide Walk, Read, AuthorityKeyId, Enc, EncCert, EncName, WellFormed, KeyIdOf, ExtsOf, Hex, AfterSubject, Validity;
  }

  /** Its names are the first textual common name and the alternative names of each choice, in order. */
  lemma NamesUndoEncode(c: Cert, more: bytes)
    requires WellFormed(c) && |EncCert(c)| < SIZE_LIMIT
    ensures NamesOf(EncCert(c) + more)
            == Ok(CertNames(CommonNameOf(c.subject), LowerAll(NamesAs(GeneralsOf(c), Dns)), NamesAs(GeneralsOf(c), Uri),
                            LowerAll(NamesAs(GeneralsOf(c), Email))))
  {
    PartsFit(c);
    WalkEnc(c, more);
    FindCommonNameEnc(c.subject);
    ExtensionOfEnc(c, SAN_OID);
    var exts := ExtsOf(c);
    SanOctets(exts);
    OctetsFit(exts, SAN_OID);
    var empty := CertNames(CommonNameOf(c.subject), [], [], []);
    GeneralsEnc(empty, exts);
    AltNamesFormed(exts);
    hide Walk, Enc, EncCert, EncName, WellFormed, FindCommonName, ExtensionOf, AddAll, Expect, OctetsOf, EncFields, AltNamesOf,
      EncExts, AfterSubject, Validity, LowerAll, CommonNameOf, ExtsOf, Extended, FieldsOf, WellFormedPayload;
    assert NamesOf(EncCert(c) + more) == Ok(Extended(empty, FieldsOf(GeneralsOf(c))));
    ExtendedChoices(empty, GeneralsOf(c));
  }

  lemma {:induction false} AltNamesFormed(exts: seq<Ext>)
    requires WellFormedExts(exts)
    ensures WellFormedPayload(San([])) && FieldsOf([]) == []
    ensures AltNamesOf(exts).Some? ==> WellFormedPayload(San(AltNamesOf(exts).value))
  {
    if exts != [] {
      assert WellFormedPayload(exts[0].payload);
      assert WellFormedExts(exts[1..]);
      AltNamesFormed(exts[1..]);
    }
  }

  lemma ExtendedChoices(empty: CertNames, names: seq<General>)
    requires WellFormedPayload(San(names)) && empty.dns == [] && empty.uris == [] && empty.emails == []
    ensures Extended(empty, FieldsOf(names))
            == CertNames(empty.commonName, LowerAll(NamesAs(names, Dns)), NamesAs(names, Uri), LowerAll(NamesAs(names, Email)))
  {
    TaggedChoice(names, Dns);
    TaggedChoice(names, Uri);
    TaggedChoice(names, Email);
    assert TagOf(Dns) == DNS_NAME && TagOf(Uri) == URI && TagOf(Email) == RFC822_NAME;
    hide Tagged, NamesAs, LowerAll, FieldsOf, WellFormedPayload;
    var f := FieldsOf(names);
    assert [] + Tagged(f, URI) == Tagged(f, URI);
    assert [] + LowerAll(Tagged(f, DNS_NAME)) == LowerAll(Tagged(f, DNS_NAME));
    assert [] + LowerAll(Tagged(f, RFC822_NAME)) == LowerAll(Tagged(f, RFC822_NAME));
  }

  lemma GeneralsEnc(empty: CertNames, exts: seq<Ext>)
    requires |EncExts(exts)| < SIZE_LIMIT && WellFormedExts(exts)
    ensures AltNamesOf(exts).Some? ==>
              && var fields := FieldsOf(AltNamesOf(exts).value);
              var list := Expect(Enc(SEQUENCE, EncFields(fields)), SEQUENCE);
              && list.Ok? && AddAll(empty, list.value.value) == Ok(Extended(empty, fields))
    ensures Extended(empty, []) == empty
  {
    assert LowerAll([]) == [];
    SanOctets(exts);
    OctetsFit(exts, SAN_OID);
    hide Enc, Expect, AddAll, Extended, EncFields, AltNamesOf, OctetsOf, EncExts;
    if AltNamesOf(exts).Some? {
      var fields := FieldsOf(AltNamesOf(exts).value);
      ExpectEncAlone(SEQUENCE, EncFields(fields));
      AddAllEnc(empty, fields);
    }
  }

  // ---- Revocation lists -------------------------------------------------------------------------

  datatype RevocationList = RevocationList(
    version: Option<bytes>, algorithm: bytes, issuer: Name, thisUpdate: Stamp, nextUpdate: Option<Stamp>, after: bytes,
    signature: bytes)

  predicate TimeTag(tag: byte) {
    tag == Universal(23, false) || tag == Universal(24, false)
  }

  predicate WellFormedList(l: RevocationList) {
    match l.nextUpdate
    case None => l.after == [] || !TimeTag(l.after[0])
    case Some(next) => TimeTag(next.tag)
  }

  function FromNext(l: RevocationList): bytes {
    match l.nextUpdate
    case None => l.after
    case Some(next) => Enc(next.tag, next.digits) + l.after
  }

  function FromAlgorithm(l: RevocationList): bytes {
    Enc(SEQUENCE, l.algorithm) + (Enc(SEQUENCE, EncName(l.issuer)) + (Enc(l.thisUpdate.tag, l.thisUpdate.digits) + FromNext(l)))
  }

  function EncList(l: RevocationList): bytes {
    Enc(SEQUENCE, Enc(SEQUENCE, EncOption(INTEGER, l.version) + FromAlgorithm(l)) + l.signature)
  }

  lemma ReadTag(s: bytes)
    ensures Read(s).Ok? ==> Read(s).value.tag == s[0]
  {
    hide BigEndian;
  }

  /** Reading an encoded revocation list gives its two dates, the second only when it is there. */
  lemma CrlUndoesEncode(l: RevocationList, clock: Clock, more: bytes)
    requires WellFormedList(l) && |EncList(l)| < SIZE_LIMIT
    ensures Crl(EncList(l) + more, clock)
            == match (clock(l.thisUpdate.tag, l.thisUpdate.digits), l.nextUpdate)
               case (Ok(from), None) => Ok(CrlInfo(from, None))
               case (Ok(from), Some(next)) =>
                 (match clock(next.tag, next.digits) case Ok(until) => Ok(CrlInfo(from, Some(until))) case Err => Err)
               case (Err, _) => Err
  {
    var tbs := EncOption(INTEGER, l.version) + FromAlgorithm(l);
    ExpectEnc(SEQUENCE, Enc(SEQUENCE, tbs) + l.signature, more);
    ExpectEnc(SEQUENCE, tbs, l.signature);
    assert !Starts(FromAlgorithm(l), INTEGER);
    SkipEnc(INTEGER, l.version, FromAlgorithm(l));
    hide Enc, Expect, SkipOptional, Length, EncName, EncOption, Read, FromNext, WellFormedList;
    DatesEnc(l);
    hide FromAlgorithm;
    NextUpdateEnc(l);
  }

  /** From the algorithm on: the issuer is passed over, and the first date is next. */
  lemma DatesEnc(l: RevocationList)
    requires |FromAlgorithm(l)| < SIZE_LIMIT
    ensures |FromNext(l)| < |FromAlgorithm(l)|
    ensures var sig := Expect(FromAlgorithm(l), SEQUENCE);
            && sig.Ok? && var issuer := Expect(sig.value.rest, SEQUENCE);
            && issuer.Ok? && var current := Read(issuer.value.rest);
            && current.Ok? && current.value.tag == l.thisUpdate.tag && current.value.value == l.thisUpdate.digits
            && current.value.rest == FromNext(l)
  {
    hide Enc, Expect, EncName, Read, FromNext;
    var dates := Enc(l.thisUpdate.tag, l.thisUpdate.digits) + FromNext(l);
    ExpectEnc(SEQUENCE, l.algorithm, Enc(SEQUENCE, EncName(l.issuer)) + dates);
    ExpectEnc(SEQUENCE, EncName(l.issuer), dates);
    ReadEnc(l.thisUpdate.tag, l.thisUpdate.digits, FromNext(l));
  }

  lemma NextUpdateEnc(l: RevocationList)
    requires WellFormedList(l) && |FromNext(l)| < SIZE_LIMIT
    ensures var next := Read(FromNext(l));
            match l.nextUpdate
            case None => !(next.Ok? && TimeTag(next.value.tag))
            case Some(stamp) => next.Ok? && next.value.tag == stamp.tag && next.value.value == stamp.digits && TimeTag(stamp.tag)
  {
    hide Enc, Read;
    if l.nextUpdate.Some? {
      ReadEnc(l.nextUpdate.value.tag, l.nextUpdate.value.digits, l.after);
    } else {
      ReadTag(l.after);
    }
  }
}
