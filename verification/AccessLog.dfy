/**
 The access-log sanitiser of `src/accesslog.rs`: query values are kept or replaced according to the name and
 the shape of each, both read raw and decoded. An error here stands for a panic of the source.
 */
module AccessLog {
  import opened Wrappers
  import opened Bytes
  import Utf8

  const PERCENT: byte := 0x25
  const PLUS: byte := 0x2b
  const SPACE: byte := 0x20
  const AMPERSAND: byte := 0x26
  const EQUALS: byte := 0x3d
  const QUESTION: byte := 0x3f
  const DOT: byte := 0x2e

  const REDACTED: bytes := Ascii("<redacted>")
  const DROPPED: bytes := Ascii("<dropped>")

  const SENSITIVE_KEYS: seq<string> := [
    "key", "token", "secret", "password", "passwd", "pwd", "auth", "credential", "session", "sig", "signature", "code",
    "state", "nonce", "assertion", "email", "phone", "ssn"
  ]

  // ---- Splitting --------------------------------------------------------------------------------

  /** `str::split` on one byte. */
  function Split(s: bytes, sep: byte): (r: seq<bytes>)
    ensures r != []
    decreases |s|
  {
    var i := FindByte(s, sep);
    if i < 0 then [s] else [s[..i]] + Split(s[i + 1..], sep)
  }

  function Join(parts: seq<bytes>, sep: byte): bytes
    requires parts != []
  {
    if |parts| == 1 then parts[0] else parts[0] + [sep] + Join(parts[1..], sep)
  }

  lemma {:induction false} JoinSplit(s: bytes, sep: byte)
    ensures Join(Split(s, sep), sep) == s
    ensures forall p :: p in Split(s, sep) ==> sep !in p
    decreases |s|
  {
    hide FindByte;
    var i := FindByte(s, sep);
    if i >= 0 {
      JoinSplit(s[i + 1..], sep);
      assert Split(s, sep)[1..] == Split(s[i + 1..], sep);
      assert s == s[..i] + [sep] + s[i + 1..];
    }
  }

  lemma {:induction false} SplitJoin(parts: seq<bytes>, sep: byte)
    requires parts != [] && forall p :: p in parts ==> sep !in p
    ensures Split(Join(parts, sep), sep) == parts
    decreases |parts|
  {
    hide FindByte;
    var s := Join(parts, sep);
    assert parts[0] in parts;
    if |parts| > 1 {
      var later := Join(parts[1..], sep);
      assert s[|parts[0]|] == sep && s[..|parts[0]|] == parts[0] && s[|parts[0]| + 1..] == later;
      assert forall k :: 0 <= k < |parts[0]| ==> s[k] == parts[0][k];
      assert FindByte(s, sep) == |parts[0]|;
      assert forall p :: p in parts[1..] ==> p in parts;
      SplitJoin(parts[1..], sep);
    }
  }

  // ---- Decoding a component ---------------------------------------------------------------------

  function HexValue(b: byte): (r: int)
    ensures -1 <= r < 16
  {
    if 0x30 <= b <= 0x39 then b - 0x30
    else if 0x41 <= b <= 0x46 then b - 0x37
    else if 0x61 <= b <= 0x66 then b - 0x57
    else -1
  }

  /** `u8::from_str_radix` of two characters, which may begin with a plus sign; -1 for an error. */
  function RadixValue(a: byte, b: byte): (r: int)
    ensures -1 <= r < 256
  {
    if HexValue(b) < 0 then -1
    else if a == PLUS then HexValue(b)
    else if HexValue(a) < 0 then -1
    else 16 * HexValue(a) + HexValue(b)
  }

  /** Whether the slice taken at the `%` at `i` cuts a character, which panics. */
  predicate Cuts(s: bytes, i: nat) {
    i + 2 < |s| && s[i] == PERCENT && !(Utf8.IsBoundary(s, i + 1) && Utf8.IsBoundary(s, i + 3))
  }

  /** The octets that `s` stands for, from offset `i`. */
  function Unescape(s: bytes, i: nat): Result<bytes>
    requires i <= |s|
    decreases |s| - i
  {
    if i == |s| then Ok([])
    else if Cuts(s, i) then Err
    else if s[i] == PERCENT && i + 2 < |s| && RadixValue(s[i + 1], s[i + 2]) >= 0 then
      var later :- Unescape(s, i + 3);
      Ok([RadixValue(s[i + 1], s[i + 2])] + later)
    else
      var later :- Unescape(s, i + 1);
      Ok([if s[i] == PLUS then SPACE else s[i]] + later)
  }

  function Decoded(s: bytes): Result<bytes> {
    if PERCENT !in s && PLUS !in s then Ok(s)
    else
      var octets :- Unescape(s, 0);
      Ok(Utf8.Lossy(octets))
  }

  method DecodeComponent(s: bytes) returns (r: Result<bytes>)
    ensures r == Decoded(s)
  {
    hide Utf8.Lossy, RadixValue;
    if PERCENT !in s && PLUS !in s {
      return Ok(s);
    }
    var out: bytes := [];
    var i := 0;
    assert Unescape(s, 0).Ok? ==> out + Unescape(s, 0).value == Unescape(s, 0).value;
    while i < |s|
      invariant i <= |s|
      invariant Unescape(s, 0) == (match Unescape(s, i) case Ok(later) => Ok(out + later) case Err => Err)
    {
      if Cuts(s, i) {
        return Err;
      }
      ghost var before := out;
      if s[i] == PERCENT && i + 2 < |s| {
        var b := RadixValue(s[i + 1], s[i + 2]);
        if b >= 0 {
          out := out + [b];
          OneMore(before, b, Unescape(s, i + 3));
          i := i + 3;
        } else {
          out := out + [PERCENT];
          OneMore(before, PERCENT, Unescape(s, i + 1));
          i := i + 1;
        }
      } else if s[i] == PLUS {
        out := out + [SPACE];
        OneMore(before, SPACE, Unescape(s, i + 1));
        i := i + 1;
      } else {
        out := out + [s[i]];
        OneMore(before, s[i], Unescape(s, i + 1));
        i := i + 1;
      }
    }
    assert out + [] == out;
    return Ok(Utf8.Lossy(out));
  }

  lemma OneMore(out: bytes, b: byte, later: Result<bytes>)
    ensures later.Ok? ==> out + ([b] + later.value) == (out + [b]) + later.value
  {
    if later.Ok? {
      Associate(out, [b], later.value);
    }
  }

  /** An escape is two digits or a sign and a digit, so no `%` is ever skipped. */
  lemma {:induction false} UnescapeFails(s: bytes, i: nat)
    requires i <= |s|
    ensures Unescape(s, i) == Err <==> exists k :: i <= k < |s| && Cuts(s, k)
    decreases |s| - i
  {
    hide Cuts;
    if i < |s| && !Cuts(s, i) {
      if s[i] == PERCENT && i + 2 < |s| && RadixValue(s[i + 1], s[i + 2]) >= 0 {
        UnescapeFails(s, i + 3);
        CutsAtPercent(s, i + 1);
        CutsAtPercent(s, i + 2);
      } else {
        UnescapeFails(s, i + 1);
      }
    }
  }

  lemma CutsAtPercent(s: bytes, k: nat)
    ensures Cuts(s, k) ==> s[k] == PERCENT
  {
  }

  /** The slice taken at some `%` of this component cuts a character. */
  ghost predicate Broken(s: bytes) {
    exists k :: 0 <= k < |s| && Cuts(s, k)
  }

  lemma DecodedFails(s: bytes)
    ensures Decoded(s) == Err <==> Broken(s)
  {
    UnescapeFails(s, 0);
    hide Unescape, Utf8.Lossy;
    if Broken(s) {
      var k :| 0 <= k < |s| && Cuts(s, k);
      assert s[k] == PERCENT;
    }
  }

  /** Decoding panics exactly when the two bytes after some `%` end inside a character. */
  lemma DecodePanics(s: bytes)
    requires Utf8.Valid(s)
    ensures Decoded(s) == Err <==> exists k :: 0 <= k && k + 3 < |s| && s[k] == PERCENT && Utf8.Continuation(s[k + 3])
  {
    DecodedFails(s);
    hide Decoded;
    if Broken(s) {
      var k :| 0 <= k < |s| && Cuts(s, k);
      AfterPercent(s, k);
      assert Utf8.Continuation(s[k + 3]);
    }
    if exists k :: 0 <= k && k + 3 < |s| && s[k] == PERCENT && Utf8.Continuation(s[k + 3]) {
      var k :| 0 <= k && k + 3 < |s| && s[k] == PERCENT && Utf8.Continuation(s[k + 3]);
      assert Cuts(s, k);
    }
  }

  lemma AfterPercent(s: bytes, k: nat)
    requires Utf8.Valid(s) && k + 1 < |s| && s[k] == PERCENT
    ensures !Utf8.Continuation(s[k + 1])
  {
    hide Utf8.Valid;
    Utf8.ValidAfterAscii(s, k);
    BoundaryStart(s, k + 1);
  }

  lemma BoundaryStart(s: bytes, k: nat)
    requires Utf8.Valid(s) && k < |s| && Utf8.Valid(s[..k])
    ensures !Utf8.Continuation(s[k])
  {
    assert s == s[..k] + s[k..];
    Utf8.ValidDrop(s[..k], s[k..]);
    var t := s[k..];
    Utf8.ValidUpToStep(t);
    assert t[0] == s[k];
  }

  // ---- Sensitive names and values ---------------------------------------------------------------

  predicate Contains(s: bytes, p: bytes) {
    Find(s, p) >= 0
  }

  predicate RawKeySensitive(key: bytes, extra: seq<bytes>) {
    var lower := Lower(key);
    || (exists i :: 0 <= i < |SENSITIVE_KEYS| && Contains(lower, Ascii(SENSITIVE_KEYS[i])))
    || (exists i :: 0 <= i < |extra| && extra[i] != [] && Contains(lower, Lower(extra[i])))
  }

  function KeySensitive(key: bytes, extra: seq<bytes>): Result<bool> {
    if RawKeySensitive(key, extra) then Ok(true)
    else
      var decoded :- Decoded(key);
      Ok(RawKeySensitive(decoded, extra))
  }

  predicate TokenByte(b: byte) {
    0x30 <= b <= 0x39 || 0x41 <= b <= 0x5a || 0x61 <= b <= 0x7a || b == 0x2d || b == 0x5f
  }

  predicate TokenAlphabet(s: bytes) {
    forall i :: 0 <= i < |s| ==> TokenByte(s[i])
  }

  predicate LooksLikeJwt(value: bytes) {
    var parts := Split(value, DOT);
    && |parts| == 3 && Ascii("eyJ") <= parts[0] && |parts[0]| >= 8 && parts[1] != [] && parts[2] != []
    && TokenAlphabet(parts[0]) && TokenAlphabet(parts[1]) && TokenAlphabet(parts[2])
  }

  predicate RawValueLooksSecret(value: bytes) {
    || LooksLikeJwt(value)
    || (|value| >= 24 && TokenAlphabet(value) && exists i :: 0 <= i < |value| && 0x30 <= value[i] <= 0x39)
  }

  function ValueLooksSecret(value: bytes): Result<bool> {
    if RawValueLooksSecret(value) then Ok(true)
    else
      var decoded :- Decoded(value);
      Ok(RawValueLooksSecret(decoded))
  }

  function Hidden(key: bytes, value: bytes, extra: seq<bytes>): Result<bool> {
    var byName :- KeySensitive(key, extra);
    if byName then Ok(true) else ValueLooksSecret(value)
  }

  // ---- Encoding cannot hide a name --------------------------------------------------------------

  /** How one octet of a component may be written. */
  datatype Form = Literal | UpperHex | LowerHex | AsPlus

  function Digit(n: nat, upper: bool): (b: byte)
    requires n < 16
    ensures HexValue(b) == n && b < 0x80 && b != PERCENT && b != PLUS
  {
    if n < 10 then 0x30 + n else if upper then 0x37 + n else 0x57 + n
  }

  predicate Allowed(b: byte, f: Form) {
    match f
    case Literal => b != PERCENT && b != PLUS
    case AsPlus => b == SPACE
    case _ => true
  }

  function EncodeByte(b: byte, f: Form): bytes
    requires Allowed(b, f)
  {
    match f
    case Literal => [b]
    case AsPlus => [PLUS]
    case UpperHex => [PERCENT, Digit(b / 16, true), Digit(b % 16, true)]
    case LowerHex => [PERCENT, Digit(b / 16, false), Digit(b % 16, false)]
  }

  predicate AllowedAll(s: bytes, forms: seq<Form>) {
    |s| == |forms| && forall i :: 0 <= i < |s| ==> Allowed(s[i], forms[i])
  }

  function Encode(s: bytes, forms: seq<Form>): (r: bytes)
    requires AllowedAll(s, forms)
  {
    if s == [] then [] else EncodeByte(s[0], forms[0]) + Encode(s[1..], forms[1..])
  }

  /** In UTF-8 text no slice of two digits after a `%` ends inside a character. */
  lemma DigitsDoNotCut(e: bytes, i: nat)
    requires Utf8.Valid(e) && i + 2 < |e| && e[i + 1] < 0x80 && e[i + 2] < 0x80
    ensures !Cuts(e, i)
  {
    hide Utf8.Valid;
    if i + 3 < |e| {
      Utf8.ValidAfterAscii(e, i + 2);
      BoundaryStart(e, i + 3);
    }
  }

  lemma {:induction false} UnescapeEncoded(before: bytes, s: bytes, forms: seq<Form>)
    requires AllowedAll(s, forms) && Utf8.Valid(before + Encode(s, forms))
    ensures Unescape(before + Encode(s, forms), |before|) == Ok(s)
    decreases |s|
  {
    hide Utf8.Valid;
    var e := before + Encode(s, forms);
    if s == [] {
      assert e == before;
    } else {
      var first, later := EncodeByte(s[0], forms[0]), Encode(s[1..], forms[1..]);
      assert e == (before + first) + later;
      UnescapeEncoded(before + first, s[1..], forms[1..]);
      UnescapeFirst(before, s[0], forms[0], later);
      hide Unescape, Encode;
      assert [s[0]] + s[1..] == s;
    }
  }

  lemma UnescapeFirst(before: bytes, b: byte, f: Form, later: bytes)
    requires Allowed(b, f) && Utf8.Valid((before + EncodeByte(b, f)) + later)
    ensures var first := EncodeByte(b, f);
            var rest := Unescape((before + first) + later, |before + first|);
            rest.Ok? ==> Unescape((before + first) + later, |before|) == Ok([b] + rest.value)
  {
    hide Utf8.Valid, Digit;
    var first := EncodeByte(b, f);
    var e, i := (before + first) + later, |before|;
    assert forall k :: 0 <= k < |first| ==> e[i + k] == first[k];
    if f == Literal || f == AsPlus {
      assert |before + first| == i + 1 && e[i] == first[0] != PERCENT;
    } else {
      assert |before + first| == i + 3 && e[i] == PERCENT;
      assert e[i + 1] == first[1] && e[i + 2] == first[2];
      DigitsDoNotCut(e, i);
      assert RadixValue(e[i + 1], e[i + 2]) == b;
    }
  }

  lemma {:induction false} EncodePlain(s: bytes, forms: seq<Form>)
    requires AllowedAll(s, forms)
    ensures PERCENT in Encode(s, forms) || PLUS in Encode(s, forms) || Encode(s, forms) == s
    decreases |s|
  {
    if s != [] {
      EncodePlain(s[1..], forms[1..]);
      var first, later := EncodeByte(s[0], forms[0]), Encode(s[1..], forms[1..]);
      assert first[0] == PERCENT || first[0] == PLUS || first == [s[0]];
      assert Encode(s, forms) == first + later;
      assert s == [s[0]] + s[1..];
    }
  }

  /** However its characters are written, as long as the component is UTF-8, it decodes to the text it stands for. */
  lemma DecodeUndoesEncode(text: bytes, forms: seq<Form>)
    requires Utf8.Valid(text) && AllowedAll(text, forms) && Utf8.Valid(Encode(text, forms))
    ensures Decoded(Encode(text, forms)) == Ok(text)
  {
    hide Utf8.Valid;
    var e := Encode(text, forms);
    EncodePlain(text, forms);
    assert [] + e == e;
    UnescapeEncoded([], text, forms);
    Utf8.LossyOfValid(text);
  }

  /** So no way of writing a sensitive name, or a value that looks secret, keeps it from being hidden. */
  lemma EncodingCannotHide(key: bytes, keyForms: seq<Form>, value: bytes, valueForms: seq<Form>, extra: seq<bytes>)
    requires Utf8.Valid(key) && AllowedAll(key, keyForms) && Utf8.Valid(Encode(key, keyForms))
    requires Utf8.Valid(value) && AllowedAll(value, valueForms) && Utf8.Valid(Encode(value, valueForms))
    ensures RawKeySensitive(key, extra) || RawValueLooksSecret(value) ==>
              Hidden(Encode(key, keyForms), Encode(value, valueForms), extra) == Ok(true)
  {
    DecodeUndoesEncode(key, keyForms);
    DecodeUndoesEncode(value, valueForms);
    hide Decoded, Encode, RawKeySensitive, RawValueLooksSecret, AllowedAll, Utf8.Valid;
  }

  // ---- Sanitising a target ----------------------------------------------------------------------

  datatype Mode = Redact | Drop | Full

  /** What the log shows of one `name=value` pair or flag. */
  function Shown(pair: bytes, extra: seq<bytes>): Result<bytes> {
    var i := FindByte(pair, EQUALS);
    if i < 0 || i + 1 == |pair| then Ok(pair)
    else
      var hidden :- Hidden(pair[..i], pair[i + 1..], extra);
      Ok(if hidden then pair[..i + 1] + REDACTED else pair)
  }

  function ShownAll(pairs: seq<bytes>, extra: seq<bytes>): (r: Result<seq<bytes>>)
    ensures r.Ok? ==> |r.value| == |pairs|
  {
    if pairs == [] then Ok([])
    else
      var first :- Shown(pairs[0], extra);
      var later :- ShownAll(pairs[1..], extra);
      Ok([first] + later)
  }

  function Sanitized(target: bytes, mode: Mode, extra: seq<bytes>): Result<bytes> {
    var i := FindByte(target, QUESTION);
    if mode == Full || i < 0 then Ok(target)
    else if mode == Drop then Ok(target[..i + 1] + DROPPED)
    else
      var shown :- ShownAll(Split(target[i + 1..], AMPERSAND), extra);
      Ok(target[..i + 1] + Pushed(shown))
  }

  /** The parts joined so far, with the separator before each but the first. */
  function Pushed(parts: seq<bytes>): bytes {
    if parts == [] then [] else Join(parts, AMPERSAND)
  }

  lemma {:induction false} JoinAppend(parts: seq<bytes>, p: bytes)
    ensures Join(parts + [p], AMPERSAND) == if parts == [] then p else Pushed(parts) + [AMPERSAND] + p
    decreases |parts|
  {
    if parts == [] {
      assert parts + [p] == [p];
    } else {
      JoinAppend(parts[1..], p);
      assert (parts + [p])[1..] == parts[1..] + [p];
      if |parts| > 1 {
        assert parts[0] + [AMPERSAND] + (Pushed(parts[1..]) + [AMPERSAND] + p)
            == parts[0] + [AMPERSAND] + Pushed(parts[1..]) + [AMPERSAND] + p;
      }
    }
  }

  lemma {:induction false} ShownConcat(a: seq<bytes>, b: seq<bytes>, extra: seq<bytes>)
    ensures ShownAll(a + b, extra)
            == match (ShownAll(a, extra), ShownAll(b, extra))
               case (Ok(x), Ok(y)) => Ok(x + y)
               case _ => Err
    decreases |a|
  {
    hide Shown;
    if a == [] {
      assert a + b == b;
      if ShownAll(b, extra).Ok? {
        assert [] + ShownAll(b, extra).value == ShownAll(b, extra).value;
      }
    } else {
      ShownConcat(a[1..], b, extra);
      assert (a + b)[1..] == a[1..] + b;
      if Shown(a[0], extra).Ok? && ShownAll(a[1..], extra).Ok? && ShownAll(b, extra).Ok? {
        var x, y, z := Shown(a[0], extra).value, ShownAll(a[1..], extra).value, ShownAll(b, extra).value;
        assert [x] + (y + z) == [x] + y + z;
      }
    }
  }

  lemma ShownOne(pair: bytes, extra: seq<bytes>)
    ensures ShownAll([pair], extra) == match Shown(pair, extra) case Ok(p) => Ok([p]) case Err => Err
  {
    hide Shown;
    var one: seq<bytes> := [pair];
    assert one[0] == pair && one[1..] == [];
    ShownNone(extra);
    if Shown(pair, extra).Ok? {
      var p := Shown(pair, extra).value;
      assert [p] + [] == [p];
    }
  }

  /** Showing pairs one at a time shows them all, or stops at the first that panics. */
  lemma ShownNext(pairs: seq<bytes>, j: nat, done: seq<bytes>, extra: seq<bytes>)
    requires j < |pairs| && ShownAll(pairs[..j], extra) == Ok(done)
    ensures match Shown(pairs[j], extra)
            case Ok(p) => ShownAll(pairs[..j + 1], extra) == Ok(done + [p])
            case Err => ShownAll(pairs, extra) == Err
  {
    hide Shown;
    var last: seq<bytes> := [pairs[j]];
    assert pairs[..j + 1] == pairs[..j] + last && |last[1..]| == 0;
    ShownConcat(pairs[..j], last, extra);
    ShownOne(pairs[j], extra);
    assert pairs == pairs[..j + 1] + pairs[j + 1..];
    ShownConcat(pairs[..j + 1], pairs[j + 1..], extra);
  }

  function Separator(done: seq<bytes>): bytes {
    if done == [] then [] else [AMPERSAND]
  }

  lemma PushNext(head: bytes, done: seq<bytes>, p: bytes)
    ensures head + Pushed(done + [p]) == head + Pushed(done) + Separator(done) + p
  {
    hide Join;
    JoinAppend(done, p);
  }

  method SanitizeTarget(target: bytes, mode: Mode, extra: seq<bytes>) returns (r: Result<bytes>)
    ensures r == Sanitized(target, mode, extra)
  {
    hide Hidden, Join, Split, ShownAll, Ascii;
    var q := FindByte(target, QUESTION);
    if mode == Full || q < 0 {
      return Ok(target);
    }
    if mode == Drop {
      return Ok(target[..q + 1] + DROPPED);
    }
    var head := target[..q + 1];
    var out := head;
    var pairs := Split(target[q + 1..], AMPERSAND);
    ghost var done: seq<bytes> := [];
    ShownNone(extra);
    for j := 0 to |pairs|
      invariant ShownAll(pairs[..j], extra) == Ok(done) && out == head + Pushed(done)
    {
      var pair := pairs[j];
      ShownNext(pairs, j, done, extra);
      hide Pushed;
      if j > 0 {
        out := out + [AMPERSAND];
      }
      ghost var before := out;
      var i := FindByte(pair, EQUALS);
      if i < 0 {
        out := out + pair;
      } else {
        out := out + pair[..i + 1];
        var value := pair[i + 1..];
        assert before + pair[..i + 1] + value == before + pair;
        if value == [] {
        } else {
          var hidden :- Hidden(pair[..i], value, extra);
          if hidden {
            assert before + pair[..i + 1] + REDACTED == before + (pair[..i + 1] + REDACTED);
            out := out + REDACTED;
          } else {
            out := out + value;
          }
        }
      }
      ghost var p := Shown(pair, extra).value;
      assert out == before + p;
      PushNext(head, done, p);
      done := done + [p];
    }
    assert pairs[..|pairs|] == pairs;
    return Ok(out);
  }

  lemma ShownNone(extra: seq<bytes>)
    ensures ShownAll([], extra) == Ok([])
  {
  }

  // ---- When it panics ---------------------------------------------------------------------------

  /** Before the question mark, and the pairs after it. */
  function PathOf(target: bytes): bytes {
    var i := FindByte(target, QUESTION);
    if i < 0 then target else target[..i]
  }

  function PairsOf(target: bytes): seq<bytes> {
    var i := FindByte(target, QUESTION);
    if i < 0 then [] else Split(target[i + 1..], AMPERSAND)
  }

  function DecodedText(s: bytes): bytes {
    match Decoded(s)
    case Ok(text) => text
    case Err => []
  }

  /** The name is sensitive as it stands, or decoded when that can be done. */
  ghost predicate NameSensitive(key: bytes, extra: seq<bytes>) {
    RawKeySensitive(key, extra) || (!Broken(key) && RawKeySensitive(DecodedText(key), extra))
  }

  /**
   A value is looked at, and before it is settled that it is hidden a component has to be decoded that
   cannot be: the name, unless it is sensitive as it stands, or the value, unless the name is sensitive or
   the value looks secret as it stands.
   */
  ghost predicate PairPanics(pair: bytes, extra: seq<bytes>) {
    var i := FindByte(pair, EQUALS);
    && i >= 0 && i + 1 < |pair|
    && var key, value := pair[..i], pair[i + 1..];
    || (!RawKeySensitive(key, extra) && Broken(key))
    || (!NameSensitive(key, extra) && !RawValueLooksSecret(value) && Broken(value))
  }

  ghost predicate TargetPanics(target: bytes, extra: seq<bytes>) {
    exists i :: 0 <= i < |PairsOf(target)| && PairPanics(PairsOf(target)[i], extra)
  }

  lemma ShownPanics(pair: bytes, extra: seq<bytes>)
    ensures Shown(pair, extra) == Err <==> PairPanics(pair, extra)
  {
    hide Hidden, Broken, RawKeySensitive, RawValueLooksSecret, NameSensitive, FindByte, Ascii;
    var i := FindByte(pair, EQUALS);
    if i >= 0 && i + 1 < |pair| {
      HiddenPanics(pair[..i], pair[i + 1..], extra);
    }
  }

  lemma HiddenPanics(key: bytes, value: bytes, extra: seq<bytes>)
    ensures Hidden(key, value, extra) == Err
            <==> (!RawKeySensitive(key, extra) && Broken(key))
                 || (!NameSensitive(key, extra) && !RawValueLooksSecret(value) && Broken(value))
  {
    hide Decoded, Broken, RawKeySensitive, RawValueLooksSecret;
    DecodedFails(key);
    DecodedFails(value);
  }

  lemma {:induction false} ShownAllPanics(pairs: seq<bytes>, extra: seq<bytes>)
    ensures ShownAll(pairs, extra) == Err <==> exists i :: 0 <= i < |pairs| && PairPanics(pairs[i], extra)
  {
    hide Shown, PairPanics;
    if pairs != [] {
      ShownPanics(pairs[0], extra);
      ShownAllPanics(pairs[1..], extra);
      if exists i :: 0 <= i < |pairs| && PairPanics(pairs[i], extra) {
        var i :| 0 <= i < |pairs| && PairPanics(pairs[i], extra);
        assert i > 0 ==> pairs[1..][i - 1] == pairs[i];
      }
      if exists i :: 0 <= i < |pairs[1..]| && PairPanics(pairs[1..][i], extra) {
        var i :| 0 <= i < |pairs[1..]| && PairPanics(pairs[1..][i], extra);
        assert pairs[i + 1] == pairs[1..][i];
      }
    }
  }

  /** Exactly these targets make the access log panic, and only when it redacts. */
  lemma SanitizePanics(target: bytes, mode: Mode, extra: seq<bytes>)
    ensures Sanitized(target, mode, extra) == Err <==> mode == Redact && TargetPanics(target, extra)
  {
    ShownAllPanics(PairsOf(target), extra);
    hide ShownAll, PairPanics, Split, FindByte;
  }

  lemma {:induction false} SplitValid(s: bytes, sep: byte)
    requires Utf8.Valid(s) && sep < 0x80
    ensures forall p :: p in Split(s, sep) ==> Utf8.Valid(p)
    decreases |s|
  {
    hide Utf8.Valid, FindByte;
    var i := FindByte(s, sep);
    if i >= 0 {
      AroundAscii(s, i);
      SplitValid(s[i + 1..], sep);
    }
  }

  lemma AroundAscii(s: bytes, i: nat)
    requires Utf8.Valid(s) && i < |s| && s[i] < 0x80
    ensures Utf8.Valid(s[..i]) && Utf8.Valid(s[i + 1..])
  {
    hide Utf8.Valid;
    Utf8.ValidSplit(s, i);
    Utf8.ValidAfterAscii(s, i);
  }

  /** The names and values of a UTF-8 target are UTF-8, so a broken one is as `DecodePanics` says. */
  lemma ComponentsValid(target: bytes, j: nat)
    requires Utf8.Valid(target) && j < |PairsOf(target)|
    ensures var pair := PairsOf(target)[j];
            var i := FindByte(pair, EQUALS);
            Utf8.Valid(pair) && (i >= 0 ==> Utf8.Valid(pair[..i]) && Utf8.Valid(pair[i + 1..]))
  {
    hide Utf8.Valid, Split, FindByte;
    var q := FindByte(target, QUESTION);
    AroundAscii(target, q);
    SplitValid(target[q + 1..], AMPERSAND);
    var pair := PairsOf(target)[j];
    assert pair in Split(target[q + 1..], AMPERSAND);
    if FindByte(pair, EQUALS) >= 0 {
      AroundAscii(pair, FindByte(pair, EQUALS));
    }
  }

  // ---- What the log keeps -----------------------------------------------------------------------

  lemma Redactions()
    ensures REDACTED == [0x3c, 0x72, 0x65, 0x64, 0x61, 0x63, 0x74, 0x65, 0x64, 0x3e]
  {
  }

  /** The mark itself does not look like a secret. */
  lemma MarkIsPlain()
    ensures ValueLooksSecret(REDACTED) == Ok(false)
    ensures AMPERSAND !in REDACTED && EQUALS !in REDACTED && QUESTION !in REDACTED
  {
    Redactions();
    hide Ascii, TokenAlphabet;
    assert PERCENT !in REDACTED && PLUS !in REDACTED && DOT !in REDACTED;
    assert FindByte(REDACTED, DOT) < 0;
    assert Split(REDACTED, DOT) == [REDACTED];
    assert !RawValueLooksSecret(REDACTED);
  }

  /** A shown pair splits where the pair did, and shows as itself. */
  lemma ShownTwice(pair: bytes, extra: seq<bytes>)
    requires Shown(pair, extra).Ok?
    ensures Shown(Shown(pair, extra).value, extra) == Shown(pair, extra)
    ensures AMPERSAND !in pair ==> AMPERSAND !in Shown(pair, extra).value
  {
    var i := FindByte(pair, EQUALS);
    MarkIsPlain();
    hide KeySensitive, ValueLooksSecret, Ascii;
    var p := Shown(pair, extra).value;
    if p != pair {
      assert p == pair[..i + 1] + REDACTED;
      assert forall k :: 0 <= k < i ==> p[k] == pair[k];
      assert p[i] == EQUALS && FindByte(p, EQUALS) == i by {
        hide FindByte;
      }
      assert p[..i] == pair[..i] && p[i + 1..] == REDACTED && p[..i + 1] == pair[..i + 1];
    }
  }

  lemma {:induction false} ShownAllTwice(pairs: seq<bytes>, extra: seq<bytes>)
    requires ShownAll(pairs, extra).Ok?
    ensures ShownAll(ShownAll(pairs, extra).value, extra) == ShownAll(pairs, extra)
    ensures (forall p :: p in pairs ==> AMPERSAND !in p) ==> forall p :: p in ShownAll(pairs, extra).value ==> AMPERSAND !in p
  {
    hide Shown;
    if pairs != [] {
      ShownTwice(pairs[0], extra);
      ShownAllTwice(pairs[1..], extra);
      var x, y := Shown(pairs[0], extra).value, ShownAll(pairs[1..], extra).value;
      assert ([x] + y)[1..] == y;
      assert forall p :: p in pairs[1..] ==> p in pairs;
    }
  }

  /** The line has the target's path and, in order, what is shown of each of its pairs: nothing else. */
  lemma LineExact(target: bytes, extra: seq<bytes>)
    requires !TargetPanics(target, extra)
    ensures Sanitized(target, Redact, extra).Ok?
    ensures var line := Sanitized(target, Redact, extra).value;
            && PathOf(line) == PathOf(target)
            && Ok(PairsOf(line)) == ShownAll(PairsOf(target), extra)
  {
    SanitizePanics(target, Redact, extra);
    hide TargetPanics;
    var q := FindByte(target, QUESTION);
    if q < 0 {
      ShownNone(extra);
    } else {
      var pairs := PairsOf(target);
      var shown := ShownAll(pairs, extra).value;
      JoinSplit(target[q + 1..], AMPERSAND);
      ShownAllTwice(pairs, extra);
      hide ShownAll, Split, FindByte;
      SplitJoin(shown, AMPERSAND);
      var line := target[..q + 1] + Join(shown, AMPERSAND);
      hide Join;
      assert line[..q + 1] == target[..q + 1] && line[q + 1..] == Join(shown, AMPERSAND);
      SameHead(target, line, q);
    }
  }

  lemma SameHead(target: bytes, line: bytes, q: nat)
    requires q == FindByte(target, QUESTION) && q < |line| && line[..q + 1] == target[..q + 1]
    ensures FindByte(line, QUESTION) == q && PathOf(line) == PathOf(target)
  {
    assert forall k :: 0 <= k <= q ==> line[..q + 1][k] == line[k] && target[..q + 1][k] == target[k];
    assert FindByte(line, QUESTION) == q by {
      hide FindByte;
    }
    assert line[..q] == line[..q + 1][..q] && target[..q] == target[..q + 1][..q];
  }

  /** Sanitising a line leaves it as it is, in every mode. */
  lemma SanitizeTwice(target: bytes, mode: Mode, extra: seq<bytes>)
    requires mode == Redact ==> !TargetPanics(target, extra)
    ensures Sanitized(target, mode, extra).Ok?
    ensures Sanitized(Sanitized(target, mode, extra).value, mode, extra) == Sanitized(target, mode, extra)
  {
    SanitizePanics(target, mode, extra);
    hide TargetPanics;
    var q := FindByte(target, QUESTION);
    var line := Sanitized(target, mode, extra).value;
    if mode != Full && q >= 0 {
      if mode == Drop {
        SameHead(target, line, q);
      } else {
        LineExact(target, extra);
        ShownAllTwice(PairsOf(target), extra);
        hide ShownAll, Split;
        SameHead(target, line, q);
      }
    }
  }

  /** Two targets give one line exactly when they share the path and show each pair alike. */
  lemma LinesEqual(a: bytes, b: bytes, extra: seq<bytes>)
    requires !TargetPanics(a, extra) && !TargetPanics(b, extra)
    ensures Sanitized(a, Redact, extra) == Sanitized(b, Redact, extra)
            <==> PathOf(a) == PathOf(b) && (QUESTION in a <==> QUESTION in b)
                 && ShownAll(PairsOf(a), extra) == ShownAll(PairsOf(b), extra)
  {
    hide TargetPanics;
    LineExact(a, extra);
    LineExact(b, extra);
    KeepsQuestion(a, extra);
    KeepsQuestion(b, extra);
    if QUESTION in a {
      HeadOf(a);
    }
    if QUESTION in b {
      HeadOf(b);
    }
    hide ShownAll, Split;
  }

  lemma HeadOf(target: bytes)
    requires QUESTION in target
    ensures FindByte(target, QUESTION) >= 0 && target[..FindByte(target, QUESTION) + 1] == PathOf(target) + [QUESTION]
  {
  }

  lemma KeepsQuestion(target: bytes, extra: seq<bytes>)
    requires Sanitized(target, Redact, extra).Ok?
    ensures QUESTION in Sanitized(target, Redact, extra).value <==> QUESTION in target
  {
    hide ShownAll, Split, Join;
    var q := FindByte(target, QUESTION);
    if q >= 0 {
      var line := Sanitized(target, Redact, extra).value;
      assert line[q] == QUESTION;
    }
  }

  /** The pair has a value, and the log hides it. */
  predicate IsHidden(pair: bytes, extra: seq<bytes>) {
    var i := FindByte(pair, EQUALS);
    i >= 0 && i + 1 < |pair| && Hidden(pair[..i], pair[i + 1..], extra) == Ok(true)
  }

  /** Two pairs that differ at most in a value that is hidden in both. */
  predicate Alike(a: bytes, b: bytes, extra: seq<bytes>) {
    || a == b
    || (IsHidden(a, extra) && IsHidden(b, extra) && a[..FindByte(a, EQUALS)] == b[..FindByte(b, EQUALS)])
  }

  lemma AlikeShown(a: bytes, b: bytes, extra: seq<bytes>)
    requires Alike(a, b, extra)
    ensures Shown(a, extra) == Shown(b, extra)
  {
    hide Hidden, Ascii;
    if a != b {
      var i, j := FindByte(a, EQUALS), FindByte(b, EQUALS);
      assert a[..i + 1] == a[..i] + [EQUALS] && b[..j + 1] == b[..j] + [EQUALS];
    }
  }

  lemma {:induction false} AlikeAllShown(a: seq<bytes>, b: seq<bytes>, extra: seq<bytes>)
    requires |a| == |b| && forall i :: 0 <= i < |a| ==> Alike(a[i], b[i], extra)
    ensures ShownAll(a, extra) == ShownAll(b, extra)
    decreases |a|
  {
    hide Alike, Shown;
    if a != [] {
      AlikeShown(a[0], b[0], extra);
      AlikeAllShown(a[1..], b[1..], extra);
    }
  }

  /** Non-interference: targets that differ only in hidden values leave the same line. */
  lemma HiddenValuesDoNotShow(a: bytes, b: bytes, extra: seq<bytes>)
    requires PathOf(a) == PathOf(b) && (QUESTION in a <==> QUESTION in b)
    requires |PairsOf(a)| == |PairsOf(b)|
    requires forall i :: 0 <= i < |PairsOf(a)| ==> Alike(PairsOf(a)[i], PairsOf(b)[i], extra)
    ensures Sanitized(a, Redact, extra) == Sanitized(b, Redact, extra)
  {
    AlikeAllShown(PairsOf(a), PairsOf(b), extra);
    hide ShownAll, Split, Alike;
    if QUESTION in a {
      HeadOf(a);
      HeadOf(b);
    }
  }

  /** The pair with the mark for its value. */
  function Mask(pair: bytes): bytes {
    pair[..FindByte(pair, EQUALS) + 1] + REDACTED
  }

  lemma ShownIsMask(pair: bytes, extra: seq<bytes>)
    requires Shown(pair, extra).Ok?
    ensures Shown(pair, extra).value == if IsHidden(pair, extra) then Mask(pair) else pair
  {
    hide Hidden, Ascii;
  }

  lemma MaskSplits(pair: bytes)
    requires FindByte(pair, EQUALS) >= 0
    ensures FindByte(Mask(pair), EQUALS) == FindByte(pair, EQUALS)
    ensures Mask(pair)[..FindByte(pair, EQUALS)] == pair[..FindByte(pair, EQUALS)]
  {
    var i, p := FindByte(pair, EQUALS), Mask(pair);
    assert forall k :: 0 <= k <= i ==> p[k] == pair[k];
    hide FindByte;
  }

  /** And a value that is not hidden does show: pairs shown alike are alike, or one holds the mark itself. */
  lemma ShownApart(a: bytes, b: bytes, extra: seq<bytes>)
    requires !PairPanics(a, extra) && !PairPanics(b, extra)
    ensures Shown(a, extra) == Shown(b, extra)
            <==> || Alike(a, b, extra)
                 || (IsHidden(a, extra) && b == Mask(a))
                 || (IsHidden(b, extra) && a == Mask(b))
  {
    ShownPanics(a, extra);
    ShownPanics(b, extra);
    hide PairPanics;
    ShownIsMask(a, extra);
    ShownIsMask(b, extra);
    ShownTwice(a, extra);
    ShownTwice(b, extra);
    if Alike(a, b, extra) {
      AlikeShown(a, b, extra);
    }
    if IsHidden(a, extra) { MaskSplits(a); }
    if IsHidden(b, extra) { MaskSplits(b); }
    hide Shown, Hidden, Mask;
  }
}
