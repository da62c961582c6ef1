/**
 The DER reader of `src/certstore.rs`: one tag-length-value at a time over a byte slice, and the walks over
 a certificate and a revocation list built from it. Conversion of a time to seconds is a parameter, and the
 ARI identifier keeps raw octets where the source stores their base64url text.
 */
module Der {
  import opened Wrappers
  import opened Bytes
  import Utf8

  const SEQUENCE: byte := 0x30
  const SET: byte := 0x31
  const INTEGER: byte := 0x02
  const BOOLEAN: byte := 0x01
  const OCTET_STRING: byte := 0x04
  const OID: byte := 0x06
  const UTC_TIME: byte := 0x17
  const GENERALIZED_TIME: byte := 0x18
  const EXPLICIT_0: byte := 0xa0
  const EXPLICIT_3: byte := 0xa3
  const IMPLICIT_0: byte := 0x80
  const RFC822_NAME: byte := 0x81
  const DNS_NAME: byte := 0x82
  const URI: byte := 0x86
  const UTF8_STRING: byte := 0x0c
  const PRINTABLE_STRING: byte := 0x13
  const IA5_STRING: byte := 0x16

  const AKI_OID: bytes := [0x55, 0x1d, 0x23]
  const SAN_OID: bytes := [0x55, 0x1d, 0x11]
  const CN_OID: bytes := [0x55, 0x04, 0x03]

  // ---- One element ------------------------------------------------------------------------------

  datatype Tlv = Tlv(tag: byte, value: bytes, whole: bytes, rest: bytes)

  function BigEndian(s: bytes): nat {
    if s == [] then 0 else 256 * BigEndian(s[..|s| - 1]) + s[|s| - 1]
  }

  function Read(input: bytes): (r: Result<Tlv>)
    ensures r.Ok? ==> r.value.whole + r.value.rest == input && |r.value.rest| + |r.value.value| + 2 <= |input|
  {
    if |input| < 2 then Err
    else
      var first := input[1] as int;
      var n := if first < 0x80 then 0 else first - 0x80;
      if first >= 0x80 && (n < 1 || n > 4 || |input| < 2 + n) then Err
      else
        var len := if first < 0x80 then first else BigEndian(input[2..2 + n]);
        var end := 2 + n + len;
        if |input| < end then Err
        else Ok(Tlv(input[0], input[2 + n..end], input[..end], input[end..]))
  }

  /** The definite length forms of section 8.1.3 of ITU-T X.690 that fit four octets. */
  predicate LengthForm(l: bytes, n: nat) {
    && |l| >= 1
    && if l[0] < 0x80 then |l| == 1 && l[0] as int == n
       else 2 <= |l| <= 5 && l[0] as int == 0x80 + |l| - 1 && BigEndian(l[1..]) == n
  }

  function LengthOctets(input: bytes): (l: bytes) {
    if |input| < 2 then []
    else if input[1] < 0x80 then input[1..2]
    else if |input| < 2 + (input[1] - 0x80) then []
    else input[1..2 + (input[1] - 0x80)]
  }

  /** Reading succeeds exactly on a tag, a definite length and that many octets, and returns just those. */
  lemma ReadExact(input: bytes, t: Tlv)
    ensures Read(input) == Ok(t)
            <==> && LengthForm(LengthOctets(input), |t.value|)
                 && t.whole == [t.tag] + LengthOctets(input) + t.value
                 && input == t.whole + t.rest
  {
    hide BigEndian;
    var l := LengthOctets(input);
    if Read(input) == Ok(t) {
      assert l[1..] == input[2..2 + (|l| - 1)];
      assert t.whole == [t.tag] + l + t.value;
    } else if LengthForm(l, |t.value|) && t.whole == [t.tag] + l + t.value && input == t.whole + t.rest {
      ReadForm(t.tag, l, t.value, t.rest);
    }
  }

  lemma ReadForm(tag: byte, l: bytes, value: bytes, rest: bytes)
    requires LengthForm(l, |value|)
    ensures Read([tag] + l + value + rest) == Ok(Tlv(tag, value, [tag] + l + value, rest))
  {
    var input := [tag] + l + value + rest;
    assert input[1] == l[0];
    if l[0] >= 0x80 {
      assert input[2..1 + |l|] == l[1..];
    }
    assert input[1 + |l|..1 + |l| + |value|] == value;
    assert input[..1 + |l| + |value|] == [tag] + l + value;
    assert input[1 + |l| + |value|..] == rest;
  }

  function Expect(input: bytes, tag: byte): (r: Result<Tlv>) {
    var t :- Read(input);
    if t.tag == tag then Ok(t) else Err
  }

  predicate Starts(s: bytes, tag: byte) {
    s != [] && s[0] == tag
  }

  /** The cursor after an optional element with this tag. */
  function SkipOptional(s: bytes, tag: byte): Result<bytes> {
    if Starts(s, tag) then
      var t :- Read(s);
      Ok(t.rest)
    else Ok(s)
  }

  // ---- Extensions -------------------------------------------------------------------------------

  predicate UniqueId(tag: byte) {
    tag == 0x81 || tag == 0x82 || tag == 0xa1 || tag == 0xa2
  }

  function SkipUniqueIds(cur: bytes): Result<bytes>
    decreases |cur|
  {
    if cur != [] && UniqueId(cur[0]) then
      var t :- Read(cur);
      SkipUniqueIds(t.rest)
    else Ok(cur)
  }

  function FindExtension(exts: bytes, oid: bytes): Result<Option<bytes>>
    decreases |exts|
  {
    if exts == [] then Ok(None)
    else
      var ext :- Expect(exts, SEQUENCE);
      var id :- Expect(ext.value, OID);
      if id.value != oid then FindExtension(ext.rest, oid)
      else
        var rest :- SkipOptional(id.rest, BOOLEAN);
        var value :- Expect(rest, OCTET_STRING);
        Ok(Some(value.value))
  }

  function ExtensionOf(afterSubject: bytes, oid: bytes): Result<Option<bytes>> {
    var spki :- Expect(afterSubject, SEQUENCE);
    var cur :- SkipUniqueIds(spki.rest);
    if !Starts(cur, EXPLICIT_3) then Ok(None)
    else
      var wrapper :- Read(cur);
      var exts :- Expect(wrapper.value, SEQUENCE);
      FindExtension(exts.value, oid)
  }

  method Extension(afterSubject: bytes, oid: bytes) returns (r: Result<Option<bytes>>)
    ensures r == ExtensionOf(afterSubject, oid)
  {
    hide Read, Expect;
    var spki :- Expect(afterSubject, SEQUENCE);
    var cur := spki.rest;
    while cur != [] && UniqueId(cur[0])
      invariant SkipUniqueIds(cur) == SkipUniqueIds(spki.rest)
      decreases |cur|
    {
      var t :- Read(cur);
      cur := t.rest;
    }
    if !Starts(cur, EXPLICIT_3) {
      return Ok(None);
    }
    var wrapper :- Read(cur);
    var list :- Expect(wrapper.value, SEQUENCE);
    var exts := list.value;
    while exts != []
      invariant FindExtension(exts, oid) == FindExtension(list.value, oid)
      decreases |exts|
    {
      var ext :- Expect(exts, SEQUENCE);
      ExpectShrinks(exts, SEQUENCE);
      exts := ext.rest;
      var id :- Expect(ext.value, OID);
      if id.value != oid {
        continue;
      }
      var rest := id.rest;
      if Starts(rest, BOOLEAN) {
        var t :- Read(rest);
        rest := t.rest;
      }
      var value :- Expect(rest, OCTET_STRING);
      return Ok(Some(value.value));
    }
    return Ok(None);
  }

  lemma ExpectShrinks(input: bytes, tag: byte)
    ensures var r := Expect(input, tag);
            r.Ok? ==> Read(input) == r && |r.value.rest| < |input|
  {
    hide Read;
  }

  function AuthorityKeyId(afterSubject: bytes): Result<Option<bytes>> {
    var found :- ExtensionOf(afterSubject, AKI_OID);
    match found
    case None => Ok(None)
    case Some(value) =>
      var aki :- Expect(value, SEQUENCE);
      if Starts(aki.value, IMPLICIT_0) then
        var key :- Read(aki.value);
        Ok(Some(key.value))
      else Ok(None)
  }

  // ---- Certificates and revocation lists --------------------------------------------------------

  /** Seconds of a time element: its tag and its contents. */
  type Clock = (byte, bytes) -> Result<int>

  /** The fields of a certificate up to its subject. */
  datatype Fields = Fields(serial: bytes, issuer: bytes, validity: bytes, subject: Tlv)

  function Walk(der: bytes): Result<Fields> {
    var cert :- Expect(der, SEQUENCE);
    WalkCertificate(cert.value)
  }

  function WalkCertificate(contents: bytes): Result<Fields> {
    var tbs :- Expect(contents, SEQUENCE);
    var cur :- SkipOptional(tbs.value, EXPLICIT_0);
    var serial :- Expect(cur, INTEGER);
    var sig :- Expect(serial.rest, SEQUENCE);
    var issuer :- Expect(sig.rest, SEQUENCE);
    var validity :- Expect(issuer.rest, SEQUENCE);
    var subject :- Expect(validity.rest, SEQUENCE);
    Ok(Fields(serial.value, issuer.whole, validity.value, subject))
  }

  datatype AriId = AriId(aki: bytes, serial: bytes)

  datatype CertInfo = CertInfo(notBefore: int, notAfter: int, serial: string, selfIssued: bool, ariId: Option<AriId>)

  function HexDigit(n: nat): char
    requires n < 16
  {
    "0123456789abcdef"[n]
  }

  /** Two lower-case digits an octet. */
  function Hex(s: bytes): string {
    if s == [] then "" else [HexDigit(s[0] / 16), HexDigit(s[0] % 16)] + Hex(s[1..])
  }

  function Parse(der: bytes, clock: Clock): Result<CertInfo> {
    var f :- Walk(der);
    var notBefore :- Read(f.validity);
    var notAfter :- Read(notBefore.rest);
    var from :- clock(notBefore.tag, notBefore.value);
    var until :- clock(notAfter.tag, notAfter.value);
    var ariId := match AuthorityKeyId(f.subject.rest)
      case Ok(Some(aki)) => Some(AriId(aki, f.serial))
      case _ => None;
    Ok(CertInfo(from, until, Hex(f.serial), f.issuer == f.subject.whole, ariId))
  }

  datatype CrlInfo = CrlInfo(thisUpdate: int, nextUpdate: Option<int>)

  function Crl(der: bytes, clock: Clock): Result<CrlInfo> {
    var list :- Expect(der, SEQUENCE);
    var tbs :- Expect(list.value, SEQUENCE);
    var cur :- SkipOptional(tbs.value, INTEGER);
    var sig :- Expect(cur, SEQUENCE);
    var issuer :- Expect(sig.rest, SEQUENCE);
    var current :- Read(issuer.rest);
    var next := Read(current.rest);
    var until :-
      if next.Ok? && (next.value.tag == UTC_TIME || next.value.tag == GENERALIZED_TIME) then
        var at :- clock(next.value.tag, next.value.value);
        Ok(Some(at))
      else Ok(None);
    var from :- clock(current.tag, current.value);
    Ok(CrlInfo(from, until))
  }

  // ---- Names ------------------------------------------------------------------------------------

  datatype CertNames = CertNames(commonName: Option<bytes>, dns: seq<bytes>, uris: seq<bytes>, emails: seq<bytes>)

  /** A directory string read as text. */
  function Text(tag: byte, value: bytes): Option<bytes> {
    if (tag == UTF8_STRING || tag == PRINTABLE_STRING || tag == IA5_STRING) && Utf8.Valid(value) && value != []
    then Some(value) else None
  }

  predicate AsciiName(v: bytes) {
    v != [] && forall i :: 0 <= i < |v| ==> v[i] < 0x80
  }

  /** The first textual common name of one relative distinguished name. */
  function FindInRdn(atvs: bytes): Result<Option<bytes>>
    decreases |atvs|
  {
    if atvs == [] then Ok(None)
    else
      var atv :- Expect(atvs, SEQUENCE);
      var kind :- Expect(atv.value, OID);
      if kind.value == CN_OID then
        var value :- Read(kind.rest);
        var text := Text(value.tag, value.value);
        if text.Some? then Ok(text) else FindInRdn(atv.rest)
      else FindInRdn(atv.rest)
  }

  function FindCommonName(rdns: bytes): Result<Option<bytes>>
    decreases |rdns|
  {
    if rdns == [] then Ok(None)
    else
      var rdn :- Expect(rdns, SET);
      var found :- FindInRdn(rdn.value);
      if found.Some? then Ok(found) else FindCommonName(rdn.rest)
  }

  /** `names` with one general name added, if it is of a kind that is kept. */
  function Add(names: CertNames, tag: byte, value: bytes): CertNames {
    if !AsciiName(value) then names
    else if tag == DNS_NAME then names.(dns := names.dns + [Lower(value)])
    else if tag == URI then names.(uris := names.uris + [value])
    else if tag == RFC822_NAME then names.(emails := names.emails + [Lower(value)])
    else names
  }

  function AddAll(names: CertNames, generals: bytes): Result<CertNames>
    decreases |generals|
  {
    if generals == [] then Ok(names)
    else
      var name :- Read(generals);
      AddAll(Add(names, name.tag, name.value), name.rest)
  }

  function NamesOf(der: bytes): Result<CertNames> {
    var f :- Walk(der);
    var commonName :- FindCommonName(f.subject.value);
    var names := CertNames(commonName, [], [], []);
    var san :- ExtensionOf(f.subject.rest, SAN_OID);
    if san == None then Ok(names)
    else
      var generals :- Expect(san.value, SEQUENCE);
      AddAll(names, generals.value)
  }

  method CommonName(subject: bytes) returns (r: Result<Option<bytes>>)
    ensures r == FindCommonName(subject)
  {
    hide Read, Expect, Text;
    var rdns := subject;
    while rdns != []
      invariant FindCommonName(rdns) == FindCommonName(subject)
      decreases |rdns|
    {
      var rdn :- Expect(rdns, SET);
      ExpectShrinks(rdns, SET);
      var atvs := rdn.value;
      while atvs != []
        invariant FindInRdn(atvs) == FindInRdn(rdn.value)
        decreases |atvs|
      {
        var atv :- Expect(atvs, SEQUENCE);
        ExpectShrinks(atvs, SEQUENCE);
        var kind :- Expect(atv.value, OID);
        if kind.value == CN_OID {
          var value :- Read(kind.rest);
          var text := Text(value.tag, value.value);
          if text.Some? {
            return Ok(text);
          }
        }
        atvs := atv.rest;
      }
      rdns := rdn.rest;
    }
    return Ok(None);
  }

  method Names(der: bytes) returns (r: Result<CertNames>)
    ensures r == NamesOf(der)
  {
    hide Read, Expect, Walk, Add, FindCommonName, ExtensionOf;
    var f :- Walk(der);
    var commonName :- CommonName(f.subject.value);
    var names := CertNames(commonName, [], [], []);
    var san :- Extension(f.subject.rest, SAN_OID);
    if san.Some? {
      var list :- Expect(san.value, SEQUENCE);
      var generals := list.value;
      while generals != []
        invariant AddAll(names, generals) == AddAll(CertNames(commonName, [], [], []), list.value)
        decreases |generals|
      {
        var name :- Read(generals);
        generals := name.rest;
        names := Add(names, name.tag, name.value);
      }
    }
    return Ok(names);
  }

  /** Whatever the bytes: a name is non-empty ASCII, and DNS and e-mail names are in lower case. */
  predicate Clean(names: CertNames) {
    && (forall i :: 0 <= i < |names.uris| ==> AsciiName(names.uris[i]))
    && (forall i :: 0 <= i < |names.dns| ==> AsciiName(names.dns[i]) && Lower(names.dns[i]) == names.dns[i])
    && (forall i :: 0 <= i < |names.emails| ==> AsciiName(names.emails[i]) && Lower(names.emails[i]) == names.emails[i])
  }

  lemma AddKeepsClean(names: CertNames, tag: byte, value: bytes)
    requires Clean(names)
    ensures Clean(Add(names, tag, value))
  {
    assert Lower(Lower(value)) == Lower(value);
  }

  lemma {:induction false} AddAllKeepsClean(names: CertNames, generals: bytes)
    requires Clean(names)
    ensures AddAll(names, generals).Ok? ==> Clean(AddAll(names, generals).value)
    decreases |generals|
  {
    hide Read, Clean, Add;
    if generals != [] && Read(generals).Ok? {
      var name := Read(generals).value;
      AddKeepsClean(names, name.tag, name.value);
      AddAllKeepsClean(Add(names, name.tag, name.value), name.rest);
    }
  }

  lemma NamesAreClean(der: bytes)
    ensures NamesOf(der).Ok? ==> Clean(NamesOf(der).value)
  {
    hide Walk, FindCommonName, ExtensionOf, Expect, AddAll;
    if NamesOf(der).Ok? {
      var f := Walk(der).value;
      var names := CertNames(FindCommonName(f.subject.value).value, [], [], []);
      var san := ExtensionOf(f.subject.rest, SAN_OID).value;
      if san.Some? {
        AddAllKeepsClean(names, Expect(san.value, SEQUENCE).value.value);
      }
    }
  }

  lemma ReadMore(input: bytes, more: bytes)
    requires Read(input).Ok?
    ensures var t := Read(input).value;
            Read(input + more) == Ok(t.(rest := t.rest + more))
  {
    var t := Read(input).value;
    ReadExact(input, t);
    hide Read, LengthForm;
    var l := LengthOctets(input);
    assert input + more == [t.tag] + l + t.value + (t.rest + more);
    ReadForm(t.tag, l, t.value, t.rest + more);
  }

  /** What follows the certificate is not looked at. */
  lemma TrailingIgnored(der: bytes, more: bytes, clock: Clock)
    requires Read(der).Ok?
    ensures Parse(der + more, clock) == Parse(der, clock) && NamesOf(der + more) == NamesOf(der)
  {
    ReadMore(der, more);
    hide Parse, NamesOf, Read, WalkCertificate;
    SameWalk(der, der + more, clock);
  }

  lemma SameWalk(a: bytes, b: bytes, clock: Clock)
    requires Walk(a) == Walk(b)
    ensures Parse(a, clock) == Parse(b, clock) && NamesOf(a) == NamesOf(b)
  {
    hide Walk, Read, Expect, AuthorityKeyId, FindCommonName, ExtensionOf, AddAll, Hex;
  }
}
