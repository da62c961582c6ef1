/**
 What the access log of `src/accesslog.rs` hides, said without its own tests: which names are credentials, which
 values have the shape of a secret, and what is then written in their place.
 */
module LogPrivacy {
  import opened Wrappers
  import opened Bytes
  import opened AccessLog
  import Utf8

  // ---- Names ------------------------------------------------------------------------------------

  /** The same byte, or the same letter in the other case. */
  predicate SameLetter(a: byte, b: byte) {
    a == b || (0x41 <= a <= 0x5a && b == a + 32) || (0x41 <= b <= 0x5a && a == b + 32)
  }

  predicate MentionsAt(key: bytes, name: bytes, i: int) {
    0 <= i && i + |name| <= |key| && forall j :: 0 <= j < |name| ==> SameLetter(key[i + j], name[j])
  }

  /** The name occurs in the key, in any mix of upper and lower case. */
  ghost predicate Mentions(key: bytes, name: bytes) {
    exists i :: MentionsAt(key, name, i)
  }

  /** A name that is treated as one of a credential or of personal data. */
  ghost predicate NamesCredential(key: bytes) {
    || Mentions(key, Ascii("key")) || Mentions(key, Ascii("token")) || Mentions(key, Ascii("secret"))
    || Mentions(key, Ascii("password")) || Mentions(key, Ascii("passwd")) || Mentions(key, Ascii("pwd"))
    || Mentions(key, Ascii("auth")) || Mentions(key, Ascii("credential")) || Mentions(key, Ascii("session"))
    || Mentions(key, Ascii("sig")) || Mentions(key, Ascii("signature")) || Mentions(key, Ascii("code"))
    || Mentions(key, Ascii("state")) || Mentions(key, Ascii("nonce")) || Mentions(key, Ascii("assertion"))
    || Mentions(key, Ascii("email")) || Mentions(key, Ascii("phone")) || Mentions(key, Ascii("ssn"))
  }

  /** Or one that the operator added. */
  ghost predicate NamesExtra(key: bytes, extra: seq<bytes>) {
    exists i :: 0 <= i < |extra| && extra[i] != [] && Mentions(key, extra[i])
  }

  lemma LowerSame(a: byte, b: byte)
    ensures LowerByte(a) == LowerByte(b) <==> SameLetter(a, b)
  {
  }

  lemma MentionsAtExact(key: bytes, name: bytes, i: int)
    ensures At(Lower(key), Lower(name), i) <==> MentionsAt(key, name, i)
  {
    var k, n := Lower(key), Lower(name);
    if 0 <= i && i + |name| <= |key| {
      forall j | 0 <= j < |name| ensures k[i..i + |n|][j] == n[j] <==> SameLetter(key[i + j], name[j]) {
        LowerSame(key[i + j], name[j]);
      }
      hide SameLetter, Lower;
      if k[i..i + |n|] == n {
        assert MentionsAt(key, name, i);
      }
      if MentionsAt(key, name, i) {
        assert k[i..i + |n|] == n;
      }
    }
  }

  lemma MentionsExact(key: bytes, name: bytes)
    ensures Contains(Lower(key), Lower(name)) <==> Mentions(key, name)
  {
    hide MentionsAt, Lower, At;
    var at := Find(Lower(key), Lower(name));
    hide Find;
    forall i ensures At(Lower(key), Lower(name), i) <==> MentionsAt(key, name, i) {
      MentionsAtExact(key, name, i);
    }
    if Mentions(key, name) {
      var i :| MentionsAt(key, name, i);
      NotNegative(key, name, i);
    }
  }

  lemma NotNegative(key: bytes, name: bytes, i: int)
    requires MentionsAt(key, name, i)
    ensures i >= 0
  {
  }

  /** The names looked for are written in lower case. */
  lemma KeysAreLower(i: nat)
    requires i < |SENSITIVE_KEYS|
    ensures Lower(Ascii(SENSITIVE_KEYS[i])) == Ascii(SENSITIVE_KEYS[i])
  {
    var k := SENSITIVE_KEYS[i];
    KeysAreLetters(i);
    hide SENSITIVE_KEYS;
    assert forall j :: 0 <= j < |k| ==> Ascii(k)[j] == k[j] as int && LowerByte(Ascii(k)[j]) == Ascii(k)[j];
  }

  lemma KeysAreLetters(i: nat)
    requires i < |SENSITIVE_KEYS|
    ensures forall j :: 0 <= j < |SENSITIVE_KEYS[i]| ==> 'a' <= SENSITIVE_KEYS[i][j] <= 'z'
  {
  }

  lemma ListedMentioned(key: bytes, i: nat)
    requires i < |SENSITIVE_KEYS|
    ensures Contains(Lower(key), Ascii(SENSITIVE_KEYS[i])) <==> Mentions(key, Ascii(SENSITIVE_KEYS[i]))
  {
    hide *;
    KeysAreLower(i);
    MentionsExact(key, Ascii(SENSITIVE_KEYS[i]));
  }

  /** The list in the program is the list above. */
  lemma ListExact(key: bytes)
    ensures (exists i :: 0 <= i < |SENSITIVE_KEYS| && Mentions(key, Ascii(SENSITIVE_KEYS[i]))) <==> NamesCredential(key)
  {
    hide Mentions, Ascii;
    var keys := SENSITIVE_KEYS;
    assert |keys| == 18;
    assert keys[0] == "key" && keys[1] == "token" && keys[2] == "secret" && keys[3] == "password" && keys[4] == "passwd" && keys[5] == "pwd";
    assert keys[6] == "auth" && keys[7] == "credential" && keys[8] == "session" && keys[9] == "sig" && keys[10] == "signature" && keys[11] == "code";
    assert keys[12] == "state" && keys[13] == "nonce" && keys[14] == "assertion" && keys[15] == "email" && keys[16] == "phone" && keys[17] == "ssn";
  }

  /** A name is sensitive exactly when it mentions one of the eighteen, or one the operator added. */
  lemma NameExact(key: bytes, extra: seq<bytes>)
    ensures RawKeySensitive(key, extra) <==> NamesCredential(key) || NamesExtra(key, extra)
  {
    hide Contains, Mentions, Lower, Ascii, NamesCredential, SENSITIVE_KEYS;
    forall i | 0 <= i < |SENSITIVE_KEYS|
      ensures Contains(Lower(key), Ascii(SENSITIVE_KEYS[i])) <==> Mentions(key, Ascii(SENSITIVE_KEYS[i]))
    {
      ListedMentioned(key, i);
    }
    forall i | 0 <= i < |extra| ensures Contains(Lower(key), Lower(extra[i])) <==> Mentions(key, extra[i]) {
      MentionsExact(key, extra[i]);
    }
    ListExact(key);
  }

  // ---- Values -----------------------------------------------------------------------------------

  /** A letter or digit of ASCII, a hyphen or an underscore. */
  predicate TokenChar(b: byte) {
    var c := b as char;
    'a' <= c <= 'z' || 'A' <= c <= 'Z' || '0' <= c <= '9' || c == '-' || c == '_'
  }

  predicate TokenChars(s: bytes, from: nat, to: nat) {
    forall i :: from <= i < to && i < |s| ==> TokenChar(s[i])
  }

  /** Three segments of token characters between dots `a` and `b`, the first of eight or more and beginning `eyJ`. */
  predicate JwtAt(value: bytes, a: nat, b: nat) {
    && 8 <= a && a + 1 < b && b + 1 < |value| && value[a] == '.' as int && value[b] == '.' as int
    && value[0] == 'e' as int && value[1] == 'y' as int && value[2] == 'J' as int
    && TokenChars(value, 0, a) && TokenChars(value, a + 1, b) && TokenChars(value, b + 1, |value|)
  }

  ghost predicate IsJwt(value: bytes) {
    exists a: nat, b: nat :: JwtAt(value, a, b)
  }

  /** Twenty-four token characters or more, and nothing else, with a digit among them. */
  predicate IsLongToken(value: bytes) {
    |value| >= 24 && TokenChars(value, 0, |value|) && exists i :: 0 <= i < |value| && '0' as int <= value[i] <= '9' as int
  }

  lemma SameChars(b: byte)
    ensures TokenByte(b) <==> TokenChar(b)
    ensures TokenChar(b) ==> b != DOT
  {
  }

  lemma TokenSegment(value: bytes, from: nat, to: nat)
    requires from <= to <= |value|
    ensures TokenAlphabet(value[from..to]) <==> TokenChars(value, from, to)
  {
    forall b: byte ensures TokenByte(b) <==> TokenChar(b) {
      SameChars(b);
    }
    hide TokenByte, TokenChar;
    if TokenAlphabet(value[from..to]) {
      forall i | from <= i < to ensures TokenChar(value[i]) {
        assert value[from..to][i - from] == value[i];
      }
    }
  }

  lemma JoinThree(p: bytes, q: bytes, t: bytes)
    ensures Join([p, q, t], DOT) == p + [DOT] + (q + [DOT] + t)
  {
    assert [p, q, t][1..] == [q, t] && [q, t][1..] == [t];
    assert Join([t], DOT) == t && Join([q, t], DOT) == q + [DOT] + t;
  }

  lemma Tiled(value: bytes, a: nat, b: nat)
    requires a < b < |value| && value[a] == DOT && value[b] == DOT
    ensures value[..a] + [DOT] + (value[a + 1..b] + [DOT] + value[b + 1..]) == value
  {
  }

  /** Two dots and no more, at `a` and `b`, make three segments. */
  lemma ThreeSegments(value: bytes, a: nat, b: nat)
    requires a < b < |value| && value[a] == DOT && value[b] == DOT
    requires forall i :: 0 <= i < |value| && i != a && i != b ==> value[i] != DOT
    ensures Split(value, DOT) == [value[..a], value[a + 1..b], value[b + 1..]]
  {
    var p, q, t := value[..a], value[a + 1..b], value[b + 1..];
    assert DOT !in p && DOT !in q && DOT !in t;
    JoinThree(p, q, t);
    Tiled(value, a, b);
    hide *;
    assert forall x :: x in [p, q, t] ==> x == p || x == q || x == t;
    SplitJoin([p, q, t], DOT);
  }

  lemma JwtSegments(value: bytes, a: nat, b: nat)
    requires JwtAt(value, a, b)
    ensures LooksLikeJwt(value)
  {
    forall i | 0 <= i < |value| && i != a && i != b ensures value[i] != DOT {
      SameChars(value[i]);
    }
    ThreeSegments(value, a, b);
    TokenSegment(value, 0, a);
    TokenSegment(value, a + 1, b);
    TokenSegment(value, b + 1, |value|);
    assert value[..a] == value[0..a] && value[b + 1..] == value[b + 1..|value|];
    hide Split, TokenAlphabet, TokenChars;
    assert Ascii("eyJ") == [0x65, 0x79, 0x4a];
    assert value[..a][..3] == Ascii("eyJ");
  }

  lemma JwtDots(value: bytes)
    requires LooksLikeJwt(value)
    ensures IsJwt(value)
  {
    var parts := Split(value, DOT);
    JoinSplit(value, DOT);
    var p, q, t := parts[0], parts[1], parts[2];
    assert parts == [p, q, t];
    JoinThree(p, q, t);
    assert p[..3] == Ascii("eyJ") && Ascii("eyJ") == [0x65, 0x79, 0x4a];
    hide *;
    JwtFrom(value, p, q, t);
  }

  lemma JwtFrom(value: bytes, p: bytes, q: bytes, t: bytes)
    requires value == p + [DOT] + (q + [DOT] + t) && |p| >= 8 && q != [] && t != [] && p[..3] == [0x65, 0x79, 0x4a]
    requires TokenAlphabet(p) && TokenAlphabet(q) && TokenAlphabet(t)
    ensures IsJwt(value)
  {
    var a, b := |p|, |p| + 1 + |q|;
    assert value[0..a] == p && value[a + 1..b] == q && value[b + 1..|value|] == t;
    TokenSegment(value, 0, a);
    TokenSegment(value, a + 1, b);
    TokenSegment(value, b + 1, |value|);
    hide TokenAlphabet, TokenChars;
    assert p[..3][0] == value[0] && p[..3][1] == value[1] && p[..3][2] == value[2];
    assert JwtAt(value, a, b);
  }

  /** A value looks like a secret exactly when it is a token of three segments or a long one. */
  lemma ValueExact(value: bytes)
    ensures RawValueLooksSecret(value) <==> IsJwt(value) || IsLongToken(value)
  {
    assert value[0..|value|] == value;
    TokenSegment(value, 0, |value|);
    hide LooksLikeJwt, TokenAlphabet, TokenChars, JwtAt;
    if LooksLikeJwt(value) {
      JwtDots(value);
    }
    if IsJwt(value) {
      var a: nat, b: nat :| JwtAt(value, a, b);
      JwtSegments(value, a, b);
    }
  }

  // ---- Pairs ------------------------------------------------------------------------------------

  /** As it stands or decoded, the name or the value gives the pair away. */
  ghost predicate Telltale(key: bytes, value: bytes, extra: seq<bytes>) {
    || NamesCredential(key) || NamesExtra(key, extra)
    || (!Broken(key) && (NamesCredential(DecodedText(key)) || NamesExtra(DecodedText(key), extra)))
    || IsJwt(value) || IsLongToken(value)
    || (!Broken(value) && (IsJwt(DecodedText(value)) || IsLongToken(DecodedText(value))))
  }

  lemma PairParts(key: bytes, value: bytes)
    requires EQUALS !in key
    ensures var pair := key + [EQUALS] + value;
            FindByte(pair, EQUALS) == |key| && pair[..|key|] == key && pair[|key| + 1..] == value && pair[..|key| + 1] == key + [EQUALS]
  {
    hide FindByte;
    var pair := key + [EQUALS] + value;
    assert pair[|key|] == EQUALS && forall i :: 0 <= i < |key| ==> pair[i] == key[i];
  }

  lemma Marks(key: bytes)
    ensures key + [EQUALS] + REDACTED == key + Ascii("=<redacted>")
  {
    assert Ascii("=<redacted>") == [EQUALS] + Ascii("<redacted>");
  }

  /** A name that is a credential as it stands hides its value, whatever the value is. */
  lemma CredentialHidden(key: bytes, value: bytes, extra: seq<bytes>)
    requires EQUALS !in key && value != [] && (NamesCredential(key) || NamesExtra(key, extra))
    ensures Shown(key + [EQUALS] + value, extra) == Ok(key + Ascii("=<redacted>"))
  {
    PairParts(key, value);
    NameExact(key, extra);
    Marks(key);
    hide FindByte, RawKeySensitive, NamesCredential, NamesExtra, Ascii, Decoded;
  }

  /**
   What is shown of a pair that does not panic: the name and a mark in place of the value exactly when one of
   them gives it away, and else the pair as it is.
   */
  lemma PairExact(key: bytes, value: bytes, extra: seq<bytes>)
    requires EQUALS !in key && value != [] && !PairPanics(key + [EQUALS] + value, extra)
    ensures Shown(key + [EQUALS] + value, extra)
            == Ok(if Telltale(key, value, extra) then key + Ascii("=<redacted>") else key + [EQUALS] + value)
  {
    PairParts(key, value);
    NameExact(key, extra);
    NameExact(DecodedText(key), extra);
    ValueExact(value);
    ValueExact(DecodedText(value));
    DecodedFails(key);
    DecodedFails(value);
    Marks(key);
    hide FindByte, RawKeySensitive, RawValueLooksSecret, NamesCredential, NamesExtra, Ascii, Decoded, Broken, IsJwt, IsLongToken;
  }

  // ---- Targets ----------------------------------------------------------------------------------

  lemma {:induction false} ShownEach(pairs: seq<bytes>, extra: seq<bytes>, j: nat)
    requires j < |pairs| && ShownAll(pairs, extra).Ok?
    ensures Shown(pairs[j], extra) == Ok(ShownAll(pairs, extra).value[j])
    decreases |pairs|
  {
    hide Shown;
    if j > 0 {
      ShownEach(pairs[1..], extra, j - 1);
    }
  }

  /** Every pair of a target that does not panic is shown in the line at its place, hidden exactly when it is given away. */
  lemma PairInLine(target: bytes, extra: seq<bytes>, j: nat, key: bytes, value: bytes)
    requires !TargetPanics(target, extra) && j < |PairsOf(target)| && PairsOf(target)[j] == key + [EQUALS] + value
    requires EQUALS !in key && value != []
    ensures Sanitized(target, Redact, extra).Ok?
    ensures var line := Sanitized(target, Redact, extra).value;
            && PathOf(line) == PathOf(target) && |PairsOf(line)| == |PairsOf(target)|
            && PairsOf(line)[j] == if Telltale(key, value, extra) then key + Ascii("=<redacted>") else key + [EQUALS] + value
  {
    LineExact(target, extra);
    assert !PairPanics(PairsOf(target)[j], extra);
    hide Sanitized, PairsOf, PairPanics, Shown, ShownAll, Telltale, TargetPanics, Ascii;
    ShownEach(PairsOf(target), extra, j);
    PairExact(key, value, extra);
  }

  /** The other two modes: nothing of the query, or all of it; and without a query the target as it is. */
  lemma ModesExact(path: bytes, query: bytes, mode: Mode, extra: seq<bytes>)
    requires QUESTION !in path
    ensures Sanitized(path + [QUESTION] + query, Drop, extra) == Ok(path + Ascii("?<dropped>"))
    ensures Sanitized(path + [QUESTION] + query, Full, extra) == Ok(path + [QUESTION] + query)
    ensures Sanitized(path, mode, extra) == Ok(path)
  {
    var target := path + [QUESTION] + query;
    assert target[|path|] == QUESTION && forall i :: 0 <= i < |path| ==> target[i] == path[i];
    assert target[..|path| + 1] == path + [QUESTION];
    assert Ascii("?<dropped>") == [QUESTION] + Ascii("<dropped>");
    Associate(path, [QUESTION], DROPPED);
    hide FindByte, ShownAll, Split, Ascii;
    assert FindByte(target, QUESTION) == |path| && FindByte(path, QUESTION) < 0;
  }

  // ---- Decoding what is no escape ---------------------------------------------------------------

  predicate HexChar(b: byte) {
    var c := b as char;
    '0' <= c <= '9' || 'a' <= c <= 'f' || 'A' <= c <= 'F'
  }

  /** An escape at `i`: a percent sign and two hexadecimal digits, of which the first may be a plus sign. */
  predicate EscapeAt(s: bytes, i: int) {
    0 <= i && i + 2 < |s| && s[i] == '%' as int && (HexChar(s[i + 1]) || s[i + 1] == '+' as int) && HexChar(s[i + 2])
  }

  lemma {:induction false} NothingToUnescape(s: bytes, i: nat)
    requires i <= |s| && PLUS !in s && !Broken(s) && forall k :: 0 <= k < |s| ==> !EscapeAt(s, k)
    ensures Unescape(s, i) == Ok(s[i..])
    decreases |s| - i
  {
    hide Cuts;
    if i < |s| {
      assert !EscapeAt(s, i) && !Cuts(s, i) && s[i] != PLUS;
      NothingToUnescape(s, i + 1);
      assert [s[i]] + s[i + 1..] == s[i..];
    }
  }

  /** Text without a plus sign or an escape stands for itself, stray percent signs and all. */
  lemma StrayPercentsKept(s: bytes)
    requires Utf8.Valid(s) && PLUS !in s && !Broken(s) && forall k :: 0 <= k < |s| ==> !EscapeAt(s, k)
    ensures Decoded(s) == Ok(s)
  {
    hide Utf8.Valid, Broken, EscapeAt;
    NothingToUnescape(s, 0);
    Utf8.LossyOfValid(s);
    assert s[0..] == s;
  }
}
