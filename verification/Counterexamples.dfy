/**
 Where the proxy does not do what its documentation suggests: one concrete input each. The exact condition
 is proved for all inputs beside the code concerned.
 */
module Counterexamples {
  import opened Wrappers
  import opened Bytes
  import opened Findings
  import opened Masking
  import opened Streaming
  import opened RoundTrip
  import opened BudgetKeys
  import opened BudgetProtocol
  import opened BudgetEngine
  import AccessLog
  import Der
  import DerEncoding
  import Forwarding
  import StreamingBytes
  import Decimal
  import Utf8

  // ---- A placeholder inside an open token -------------------------------------------------------

  lemma {:induction false} AsciiIsValid(s: bytes)
    requires forall i :: 0 <= i < |s| ==> s[i] < 0x80
    ensures Utf8.Valid(s)
    decreases |s|
  {
    if s == [] {
      Utf8.ValidEmpty();
    } else {
      AsciiIsValid(s[1..]);
      Utf8.ValidStepAscii(s[..1]);
      hide Utf8.Valid;
      Utf8.ValidConcat(s[..1], s[1..]);
      assert s[..1] + s[1..] == s;
    }
  }

  lemma PrefixThenKeyScan(key: bytes)
    requires Shaped(key)
    ensures var t := MASK_PREFIX + key;
            Find(t, MASK_PREFIX) == 0 && Close(t, 0) == |t| - 1 && t[11..] == key
  {
    var t := MASK_PREFIX + key;
    assert At(t, MASK_PREFIX, 0);
    assert t[|t| - 1] == GT && forall i :: 0 <= i < |t| - 1 ==> t[i] != GT;
    CloseIsFindByte(t, 0);
    hide FindByte;
  }

  /** Any placeholder with a prefix before it is unsafe. */
  lemma PrefixThenKey(orig: map<bytes, bytes>, key: bytes)
    requires Shaped(key) && Live(orig, key)
    ensures !Safe(orig, MASK_PREFIX + key)
  {
    PrefixThenKeyScan(key);
    assert |key| > 0;
    hide Safe, Find, FindByte, Shaped, Close;
    var t := MASK_PREFIX + key;
    ScanToken(orig, t, 0, |t| - 1);
    assert t[11..|t| - 1 + 1] == t[11..];
    assert LiveAt(orig, t, 11, |t| - 1);
  }

  lemma EmailIsCategory()
    ensures Category(Ascii("email"))
  {
    assert CATEGORIES[0] == "email";
  }

  lemma NestedIsAscii(n: nat)
    ensures Utf8.Valid(MASK_PREFIX + Placeholder(Ascii("email"), n))
  {
    var t := MASK_PREFIX + Placeholder(Ascii("email"), n);
    assert forall i :: 0 <= i < |t| ==> t[i] < 0x80;
    hide Utf8.Valid;
    AsciiIsValid(t);
  }

  /** One masked value, and a reply that writes an open prefix before its placeholder: some cutting differs. */
  lemma StreamingCanDiffer()
    ensures var m := Mint(NO_MASKS, Ascii("email"), [0x78]);
            !CutsAgree(m.toOriginal, MASK_PREFIX + Placeholder(Ascii("email"), 0))
  {
    var cat := Ascii("email");
    var key := Placeholder(cat, 0);
    assert Inverse(NO_MASKS);
    EmailIsCategory();
    NestedIsAscii(0);
    PlaceholderShaped(cat, 0);
    hide Ascii, Inverse, Placeholder, Safe, CutsAgree, Utf8.Valid, CATEGORIES, Category;
    MintKeepsInverse(NO_MASKS, cat, [0x78]);
    var m := Mint(NO_MASKS, cat, [0x78]);
    assert |key| > 1 && m.toOriginal[key] == [0x78];
    PrefixThenKey(m.toOriginal, key);
    StreamingExact(m, MASK_PREFIX + key);
  }

  /** One ill-formed byte, and everything after it is carried to the end of the reply: no bound is kept. */
  lemma CarryCanGrow(orig: map<bytes, bytes>, n: nat)
    requires orig != map[] && n >= MAX_PLACEHOLDER_BYTES + 3
    ensures !StreamingBytes.CarriesAtMost(orig, [0xff] + Zeros(n), n)
  {
    var reply := [0xff] + Zeros(n);
    assert reply[0] == 0xff && Utf8.CharLen(reply) == 0;
    assert StreamingBytes.ValidPart(reply) == [];
    assert StreamingBytes.FlushFrom(reply) == 0;
    hide StreamingBytes.CarriesAtMost, StreamingBytes.FlushFrom;
    StreamingBytes.CarryLimitExact(orig, reply, n);
  }

  // ---- A prefix before a finding ----------------------------------------------------------------

  /** An open prefix just before a masked value: with an empty map already, the text does not come back. */
  lemma RoundTripCanFail()
    ensures !Restored(NO_MASKS, MASK_PREFIX + [0x78], [Finding(Ascii("email"), 11, 12, 1.0)])
  {
    var text, f := MASK_PREFIX + [0x78], Finding(Ascii("email"), 11, 12, 1.0);
    var p := Placeholder(f.category, 0);
    var m := Mint(NO_MASKS, f.category, [0x78]);
    EmailIsCategory();
    PlaceholderShaped(f.category, 0);
    assert Inverse(NO_MASKS);
    MintKeepsInverse(NO_MASKS, f.category, [0x78]);
    InverseMintable(m);
    assert text[0..11] == MASK_PREFIX && text[11..12] == [0x78] && text[12..] == [];
    assert [f][1..] == [];
    hide Ascii, Placeholder, Category, CATEGORIES, Inverse;
    assert Masked(m, text, [], 12) == ([], m);
    assert Masked(NO_MASKS, text, [f], 0) == (MASK_PREFIX + p + [], m);
    hide Masked, Mint;
    OpenPrefixFault();
    DanglingShows(m.toOriginal, MASK_PREFIX, p, []);
    hide Unmasked, FaultIn, AllMintable;
    assert |MASK_PREFIX + p| > |text|;
  }

  lemma OpenPrefixFault()
    ensures FaultIn(MASK_PREFIX, false) == Dangling
  {
    assert At(MASK_PREFIX, MASK_PREFIX, 0);
    assert Find(MASK_PREFIX, MASK_PREFIX) == 0;
    CloseIsFindByte(MASK_PREFIX, 0);
  }

  // ---- Shared counters --------------------------------------------------------------------------

  /** Two budgets of one name, one in tokens and one in money: every request charges them to one counter. */
  lemma OneNameCollides(dims: Dims, now: nat)
    ensures BudgetKeys.Key(Budget("t", Global, "", Tokens, 10, 60), "p", dims, now)
            == BudgetKeys.Key(Budget("t", Global, "", UsdMicros, 10, 60), "p", dims, now)
  {
  }

  /** A per-caller budget named `a` and any budget named `a:b` can be given one counter. */
  lemma NamesCanCollide()
    ensures CanCollide("p", Budget("a", PerKey, "", Tokens, 10, 60), Budget("a:b", Global, "", Tokens, 10, 60))
  {
    hide CanCollide;
    assert "a" + ":" <= "a:b";
    CollisionExact("p", Budget("a", PerKey, "", Tokens, 10, 60), Budget("a:b", Global, "", Tokens, 10, 60));
  }

  /** An anonymous request and a caller named `_anon` are charged to one counter. */
  lemma AnonymousCanShare()
    ensures var b := Budget("b", PerKey, "", Tokens, 20, 60);
            BudgetKeys.Key(b, "p", Dims(None, "m", None, map[]), 0) == BudgetKeys.Key(b, "p", Dims(Some("_anon"), "m", None, map[]), 0)
  {
    hide BudgetKeys.Key;
    CallersApart(Budget("b", PerKey, "", Tokens, 20, 60), "p", Dims(None, "m", None, map[]), Dims(Some("_anon"), "m", None, map[]), 0);
  }

  /** A request without a team and one of the team `_none`. */
  lemma TeamlessCanShare()
    ensures var b := Budget("b", PerTeam, "", Tokens, 20, 60);
            BudgetKeys.Key(b, "p", Dims(None, "m", None, map[]), 0) == BudgetKeys.Key(b, "p", Dims(None, "m", Some("_none"), map[]), 0)
  {
    hide BudgetKeys.Key;
    TeamsApart(Budget("b", PerTeam, "", Tokens, 20, 60), "p", Dims(None, "m", None, map[]), Dims(None, "m", Some("_none"), map[]), 0);
  }

  function WithClaim(value: string): Dims {
    Dims(None, "m", None, map["c" := value])
  }

  /** A missing claim and `_none`, `a:b` and `a_b`, and any two values with the same first 200 characters. */
  lemma ClaimsCanShare(start: string, x: string, y: string)
    requires |start| == 200
    ensures var b := Budget("b", PerClaim, "c", Tokens, 20, 60);
            && BudgetKeys.Key(b, "p", Dims(None, "m", None, map[]), 0) == BudgetKeys.Key(b, "p", WithClaim("_none"), 0)
            && BudgetKeys.Key(b, "p", WithClaim("a:b"), 0) == BudgetKeys.Key(b, "p", WithClaim("a_b"), 0)
            && BudgetKeys.Key(b, "p", WithClaim(start + x), 0) == BudgetKeys.Key(b, "p", WithClaim(start + y), 0)
  {
    hide BudgetKeys.Key;
    var b := Budget("b", PerClaim, "c", Tokens, 20, 60);
    ClaimsApart(b, "p", Dims(None, "m", None, map[]), WithClaim("_none"), 0);
    ClaimsApart(b, "p", WithClaim("a:b"), WithClaim("a_b"), 0);
    ClaimsApart(b, "p", WithClaim(start + x), WithClaim(start + y), 0);
  }

  // ---- Losses and settles -----------------------------------------------------------------------

  const ID := "01234567-89ab-4cde-8f01-23456789abcd"

  lemma IdIsUuid()
    ensures Uuid(ID)
  {
  }

  const TOKENS := Budget("a", Global, "", Tokens, 20, 60)

  /** One reserve whose reply is lost: the hold stays, and nothing reports it. */
  lemma LostReplyLeaks()
    ensures var w := World(Books(map[], {}), [LostAfter]);
            var lines := [Line("k", 5, 0)];
            LeakedBy(w, [TOKENS], [], lines) == lines && ReportedBy(w, [TOKENS], [], lines) == []
  {
    assert Leaked([], []) == [];
    assert Unanswered([], []) == [];
    assert [LostAfter][1..] == [];
    assert [] + [Line("k", 5, 0)] == [Line("k", 5, 0)];
  }

  lemma ThreeLost()
    ensures var net := [LostAfter, LostAfter, LostAfter];
            Reached(net, RECONCILE_ATTEMPTS) && !Answered(net, RECONCILE_ATTEMPTS) && Spending(net, RECONCILE_ATTEMPTS) == []
  {
    var net := [LostAfter, LostAfter, LostAfter];
    assert net[1..] == [LostAfter, LostAfter] && net[1..][1..] == [LostAfter] && net[1..][1..][1..] == [];
    assert !Answered([LostAfter], 1) && Spending([LostAfter], 1) == [];
    assert !Answered([LostAfter, LostAfter], 2) && Spending([LostAfter, LostAfter], 2) == [];
  }

  /** A reserve and a rollback both applied unanswered: the numbers agree, though the holds are not the same. */
  lemma CountsCanAgree()
    ensures var w := World(Books(map[], {}), [Arrives, LostAfter, LostAfter, LostAfter, LostAfter]);
            var lines := [Line("j", 5, 0), Line("k", 5, 0)];
            LeakedBy(w, [TOKENS], [], lines) == [lines[1]] && ReportedBy(w, [TOKENS], [], lines) == [lines[0]]
  {
    var x, y := Line("j", 5, 0), Line("k", 5, 0);
    var net := [Arrives, LostAfter, LostAfter, LostAfter, LostAfter];
    var three := [LostAfter, LostAfter, LostAfter];
    assert net[1..] == [LostAfter] + three && ([LostAfter] + three)[1..] == three;
    assert [x, y][1..] == [y] && [] + [x] == [x] && [x][1..] == [];
    ThreeLost();
    hide Reached, Answered, Spending;
    var none: seq<Line> := [];
    assert Leaked([], none) == none && Unanswered([], none) == none && [x] + none == [x];
    assert Leaked(three, [x]) == none && Unanswered(three, [x]) == [x];
    var w := World(Books(map[], {}), net);
    var w1 := TryReserve(w, "j", 5, 20).0;
    assert w1 == World(Charge(w.books, "j", 5), [LostAfter] + three);
    assert Orphaned(w1, y, 20) && TryReserve(w1, "k", 5, 20).0.net == three;
    hide Leaked, Unanswered, TryReserve, Orphaned;
    assert LeakedBy(w1, [TOKENS], [x], [y]) == [] + [y];
    assert ReportedBy(w1, [TOKENS], [x], [y]) == [x];
  }

  /** Settled at the estimate, which writes no marker, and then at another amount: the second one moves the counter. */
  lemma SecondSettleCanMove()
    ensures var w := World(Books(map["k" := 5], {}), []);
            var held := [Line("k", 5, 0)];
            var w1 := SettleLines(w, [TOKENS], ID, held, Spend(5, 0)).0;
            Uuid(ID) && SettleLines(w1, [TOKENS], ID, held, Spend(7, 0)).0.books != w1.books
  {
    hide ID, SettleMarker, TrySettle, Uuid;
    IdIsUuid();
    var w, held := World(Books(map["k" := 5], {}), []), [Line("k", 5, 0)];
    var w1 := SettleLines(w, [TOKENS], ID, held, Spend(5, 0)).0;
    assert held[1..] == [];
    assert w1 == w;
    assert Reached([], RECONCILE_ATTEMPTS);
    hide Reached, SettleMarker, TrySettle;
    assert LandsAt(w1.net, [TOKENS], held, Spend(7, 0), 0) && !LandsAt(w.net, [TOKENS], held, Spend(5, 0), 0);
    hide SettleLines, LandsAt, ID;
    SecondSettleDistinct(w, [TOKENS], ID, held, Spend(5, 0), Spend(7, 0));
  }

  /** Settled at one amount twice, the first time out of reach of the store: so does the second one. */
  lemma LostSettleCanMove()
    ensures var w := World(Books(map["k" := 5], {}), [LostBefore, LostBefore, LostBefore]);
            var held := [Line("k", 5, 0)];
            var w1 := SettleLines(w, [TOKENS], ID, held, Spend(7, 0)).0;
            Uuid(ID) && SettleLines(w1, [TOKENS], ID, held, Spend(7, 0)).0.books != w1.books
  {
    hide ID, Uuid;
    IdIsUuid();
    var net := [LostBefore, LostBefore, LostBefore];
    var w, held := World(Books(map["k" := 5], {}), net), [Line("k", 5, 0)];
    assert net[1..] == [LostBefore, LostBefore] && net[1..][1..] == [LostBefore] && net[1..][1..][1..] == [];
    assert !Reached([LostBefore], 1) && Spending([LostBefore], 1) == [];
    assert !Reached([LostBefore, LostBefore], 2) && Spending([LostBefore, LostBefore], 2) == [];
    assert !Reached(net, RECONCILE_ATTEMPTS) && Spending(net, RECONCILE_ATTEMPTS) == [];
    assert Reached([], RECONCILE_ATTEMPTS);
    SettledFirstExact(w, [TOKENS], ID, held[0], Spend(7, 0));
    SettleLinesStep(w, [TOKENS], ID, held, Spend(7, 0));
    assert held[1..] == [];
    var w1 := SettleLines(w, [TOKENS], ID, held, Spend(7, 0)).0;
    hide Reached, Spending, SettleMarker, SettledFirst;
    assert w1.net == [];
    assert LandsAt([], [TOKENS], held, Spend(7, 0), 0) && !LandsAt(net, [TOKENS], held, Spend(7, 0), 0);
    hide SettleLines, LandsAt;
    SecondSettleDistinct(w, [TOKENS], ID, held, Spend(7, 0), Spend(7, 0));
  }

  /** Two lines of five on one counter, settled at seven each: the counter is moved by two, not by four. */
  lemma SharedCounterCanDrop()
    ensures var w := World(Books(map["k" := 10], {}), []);
            var lines := [Line("k", 5, 0), Line("k", 5, 0)];
            Used(SettleLines(w, [TOKENS], ID, lines, Spend(7, 0)).0.books, "k") == 12
  {
    var w := World(Books(map["k" := 10], {}), []);
    var lines := [Line("k", 5, 0), Line("k", 5, 0)];
    assert lines[1..] == [Line("k", 5, 0)] && lines[1..][1..] == [];
    assert Reached([], RECONCILE_ATTEMPTS) && Spending([], RECONCILE_ATTEMPTS) == [];
    hide Reached, Spending;
    assert Delta([TOKENS], lines[0], Spend(7, 0)) == 2;
    assert Moved([], [TOKENS], lines[1..], Spend(7, 0), "k") == 2 && Moved([], [TOKENS], lines, Spend(7, 0), "k") == 4;
    assert Dropped([], [TOKENS], lines[1..], Spend(7, 0), "k", true) == 2;
    assert Dropped([], [TOKENS], lines, Spend(7, 0), "k", false) == 2;
    hide SettleLines, SettleMarker, Moved, Dropped;
    SettleEffect(w, [TOKENS], ID, lines, Spend(7, 0), "k");
  }

  // ---- The access log ---------------------------------------------------------------------------

  /** A `%`, a letter and a two-byte character: the slice after the `%` ends inside the character. */
  lemma DecodeCanPanic()
    ensures Utf8.Valid([0x25, 0x61, 0xc3, 0xa9]) && AccessLog.Decoded([0x25, 0x61, 0xc3, 0xa9]) == Err
  {
    var s: bytes := [0x25, 0x61, 0xc3, 0xa9];
    assert Utf8.CharLen([0xc3, 0xa9]) == 2 && [0xc3, 0xa9][2..] == [];
    assert s[1..] == [0x61, 0xc3, 0xa9] && s[1..][1..] == [0xc3, 0xa9];
    assert Utf8.ValidUpTo([0xc3, 0xa9]) == 2;
    assert Utf8.ValidUpTo(s[1..]) == 3;
    assert Utf8.Valid(s);
    hide Utf8.Valid, AccessLog.Decoded;
    assert s[0] == AccessLog.PERCENT && Utf8.Continuation(s[0 + 3]);
    AccessLog.DecodePanics(s);
  }

  lemma ShortNameIsPlain(key: bytes)
    requires |key| < 3
    ensures !AccessLog.RawKeySensitive(key, [])
  {
    forall i | 0 <= i < |AccessLog.SENSITIVE_KEYS| ensures !AccessLog.Contains(Lower(key), Ascii(AccessLog.SENSITIVE_KEYS[i])) {
      LongKeys(i);
      hide AccessLog.SENSITIVE_KEYS;
    }
  }

  lemma LongKeys(i: nat)
    requires i < |AccessLog.SENSITIVE_KEYS|
    ensures |AccessLog.SENSITIVE_KEYS[i]| >= 3
  {
  }

  lemma ShortValueIsPlain(value: bytes)
    requires |value| < 8
    ensures !AccessLog.RawValueLooksSecret(value)
  {
    var i := FindByte(value, AccessLog.DOT);
    hide AccessLog.TokenAlphabet;
  }

  /** The same four bytes as the value of a plain parameter: the target makes the access log panic. */
  lemma TargetCanPanic()
    ensures AccessLog.Sanitized([0x3f, 0x61, 0x3d, 0x25, 0x61, 0xc3, 0xa9], AccessLog.Redact, []) == Err
  {
    var pair: bytes := [0x61, 0x3d, 0x25, 0x61, 0xc3, 0xa9];
    var target: bytes := [0x3f, 0x61, 0x3d, 0x25, 0x61, 0xc3, 0xa9];
    assert FindByte(target, AccessLog.QUESTION) == 0 && target[1..] == pair;
    assert FindByte(pair, AccessLog.AMPERSAND) < 0;
    hide FindByte;
    assert AccessLog.PairsOf(target) == [pair] && AccessLog.PairsOf(target)[0] == pair;
    hide AccessLog.Sanitized, AccessLog.PairPanics, AccessLog.PairsOf;
    PairCanPanic();
    AccessLog.SanitizePanics(target, AccessLog.Redact, []);
  }

  lemma PairCanPanic()
    ensures AccessLog.PairPanics([0x61, 0x3d, 0x25, 0x61, 0xc3, 0xa9], [])
  {
    hide FindByte, AccessLog.RawKeySensitive, AccessLog.NameSensitive, AccessLog.RawValueLooksSecret, AccessLog.Broken;
    PairParts();
    PlainName();
    BrokenValue();
    ShortValueIsPlain([0x25, 0x61, 0xc3, 0xa9]);
  }

  lemma PairParts()
    ensures var pair: bytes := [0x61, 0x3d, 0x25, 0x61, 0xc3, 0xa9];
            FindByte(pair, AccessLog.EQUALS) == 1 && pair[..1] == [0x61] && pair[2..] == [0x25, 0x61, 0xc3, 0xa9]
  {
  }

  lemma BrokenValue()
    ensures AccessLog.Broken([0x25, 0x61, 0xc3, 0xa9])
  {
    hide *;
    DecodeCanPanic();
    AccessLog.DecodedFails([0x25, 0x61, 0xc3, 0xa9]);
  }

  lemma PlainName()
    ensures !AccessLog.NameSensitive([0x61], [])
  {
    hide AccessLog.RawKeySensitive, AccessLog.DecodedText;
    ShortNameIsPlain([0x61]);
    PlainNameDecodes();
  }

  lemma PlainNameDecodes()
    ensures AccessLog.DecodedText([0x61]) == [0x61]
  {
  }

  // ---- The forwarded header ---------------------------------------------------------------------

  /** A certificate whose one alternative name is a URI holding a newline. */
  function NewlineCert(): DerEncoding.Cert {
    DerEncoding.Cert(None, [1], [], [], DerEncoding.Stamp(0x17, []), DerEncoding.Stamp(0x17, []), [], [], [],
                     Some([DerEncoding.Ext(None, DerEncoding.San([DerEncoding.General(DerEncoding.Uri, [0x0a])]))]), [])
  }

  lemma EncSmall(tag: byte, value: bytes)
    ensures |DerEncoding.Enc(tag, value)| <= |value| + 6
  {
  }

  lemma NewlineCertFits()
    ensures DerEncoding.WellFormed(NewlineCert()) && |DerEncoding.EncCert(NewlineCert())| < DerEncoding.SIZE_LIMIT
  {
    var c := NewlineCert();
    var g := DerEncoding.General(DerEncoding.Uri, [0x0a]);
    var e := DerEncoding.Ext(None, DerEncoding.San([g]));
    var f := DerEncoding.Field(0x86, [0x0a]);
    assert [f][1..] == [] && [e][1..] == [] && DerEncoding.FieldsOf([g]) == [f];
    assert DerEncoding.EncFields([f]) == DerEncoding.Enc(0x86, [0x0a]) + [];
    EncSmall(0x86, [0x0a]);
    var octets := DerEncoding.PayloadOctets(e.payload);
    EncSmall(Der.SEQUENCE, DerEncoding.EncFields([f]));
    EncSmall(Der.OCTET_STRING, octets);
    EncSmall(Der.OID, Der.SAN_OID);
    EncSmall(Der.SEQUENCE, DerEncoding.ExtBody(e));
    assert DerEncoding.EncExts([e]) == DerEncoding.Enc(Der.SEQUENCE, DerEncoding.ExtBody(e)) + [];
    EncSmall(Der.SEQUENCE, DerEncoding.EncExts([e]));
    EncSmall(Der.EXPLICIT_3, DerEncoding.Enc(Der.SEQUENCE, DerEncoding.EncExts([e])));
    assert |DerEncoding.ExtField(c.extensions)| < 100;
    hide DerEncoding.ExtField;
    EncSmall(Der.SEQUENCE, []);
    EncSmall(0x17, []);
    EncSmall(Der.INTEGER, [1]);
    EncSmall(Der.SEQUENCE, DerEncoding.Validity(c));
    assert |DerEncoding.FromSerial(c)| < 200;
    EncSmall(Der.SEQUENCE, DerEncoding.EncOption(Der.EXPLICIT_0, c.version) + DerEncoding.FromSerial(c));
    EncSmall(Der.SEQUENCE, DerEncoding.Enc(Der.SEQUENCE, DerEncoding.EncOption(Der.EXPLICIT_0, c.version) + DerEncoding.FromSerial(c)) + c.signature);
  }

  /** The next hop gets no header for it, so not even its hash. */
  lemma NewlineSendsNothing(inbound: Option<string>, digest: bytes)
    ensures Forwarding.Received(Forwarding.SetHeader(inbound, Forwarding.Policy(true, true), Some(DerEncoding.EncCert(NewlineCert())), digest)) == None
  {
    NewlineCertFits();
    NewlineName();
    hide *;
    Forwarding.CertificateArrives(inbound, NewlineCert(), digest);
  }

  lemma NewlineName()
    ensures !Forwarding.AllSendable(Forwarding.Texts(Forwarding.NamesIn(NewlineCert()).uris))
  {
    var g := DerEncoding.General(DerEncoding.Uri, [0x0a]);
    var none: seq<DerEncoding.General> := [];
    assert [g][1..] == none;
    assert DerEncoding.GeneralsOf(NewlineCert()) == [g];
    assert DerEncoding.NamesAs(none, DerEncoding.Uri) == [];
    assert DerEncoding.NamesAs([g], DerEncoding.Uri) == [[0x0a]];
    hide DerEncoding.NamesAs, DerEncoding.GeneralsOf, DerEncoding.LowerAll;
    var uris := Forwarding.NamesIn(NewlineCert()).uris;
    assert uris == [[0x0a]];
    assert Forwarding.Texts(uris)[0] == Forwarding.Chars([0x0a]) && Forwarding.Chars([0x0a])[0] == '\n';
    assert !Forwarding.Sendable(Forwarding.Texts(uris)[0]);
  }
}
