/**
 What the byte tables of `Utf8` mean: the characters are the encodings of the Unicode scalar values, and a
 replacement character stands for as many bytes as some character could still have begun with.
 */
module Utf8Characters {
  import opened Bytes
  import opened Utf8

  /** A code point that is not a surrogate. */
  predicate Scalar(c: nat) {
    c < 0xD800 || 0xE000 <= c <= 0x10FFFF
  }

  /** Its bits, six to a continuation byte (section 3 of RFC 3629). */
  function Encode(c: nat): (s: bytes)
    requires Scalar(c)
  {
    if c < 0x80 then [c]
    else if c < 0x800 then [0xC0 + c / 64, 0x80 + c % 64]
    else if c < 0x1_0000 then [0xE0 + c / 4096, 0x80 + c / 64 % 64, 0x80 + c % 64]
    else [0xF0 + c / 262144, 0x80 + c / 4096 % 64, 0x80 + c / 64 % 64, 0x80 + c % 64]
  }

  lemma EncodedIsCharacter(c: nat, rest: bytes)
    requires Scalar(c)
    ensures CharLen(Encode(c) + rest) == |Encode(c)|
  {
    var e := Encode(c);
    EncodedAlone(c);
    hide Encode, CharLen;
    CharLenConcat(e, rest);
  }

  lemma EncodedAlone(c: nat)
    requires Scalar(c)
    ensures CharLen(Encode(c)) == |Encode(c)| > 0
  {
    if c >= 0x1_0000 {
      FourAlone(c, c / 262144, c / 4096 % 64, c / 64 % 64, c % 64);
    } else if c >= 0x800 {
      ThreeAlone(c, c / 4096, c / 64 % 64, c % 64);
    }
  }

  lemma ThreeAlone(c: nat, x: nat, y: nat, z: nat)
    requires 0x800 <= c < 0x1_0000 && Scalar(c) && x == c / 4096 && y == c / 64 % 64 && z == c % 64
    ensures x < 16 && Second3(0xE0 + x, 0x80 + y)
  {
    assert c / 64 == 64 * x + y;
  }

  lemma FourAlone(c: nat, w: nat, x: nat, y: nat, z: nat)
    requires 0x1_0000 <= c && Scalar(c) && w == c / 262144 && x == c / 4096 % 64 && y == c / 64 % 64 && z == c % 64
    ensures w < 8 && Second4(0xF0 + w, 0x80 + x)
  {
    assert c / 4096 == 64 * w + x;
  }

  lemma CharacterIsEncoded(s: bytes) returns (c: nat)
    requires CharLen(s) > 0
    ensures Scalar(c) && s[..CharLen(s)] == Encode(c)
  {
    var n := CharLen(s);
    if n == 1 {
      c := s[0];
    } else if n == 2 {
      c := Decode2(s[0], s[1]);
    } else if n == 3 {
      c := Decode3(s[0], s[1], s[2]);
      assert s[..3] == [s[0], s[1], s[2]];
    } else {
      c := Decode4(s[0], s[1], s[2], s[3]);
      assert s[..4] == [s[0], s[1], s[2], s[3]];
    }
  }

  lemma Decode2(a: int, b: int) returns (c: nat)
    requires 0xC2 <= a <= 0xDF && 0x80 <= b <= 0xBF
    ensures Scalar(c) && Encode(c) == [a, b]
  {
    c := 64 * (a - 0xC0) + (b - 0x80);
  }

  lemma Decode3(a: byte, b: byte, d: byte) returns (c: nat)
    requires Second3(a, b) && Continuation(d)
    ensures Scalar(c) && Encode(c) == [a, b, d]
  {
    var x: int, y: int, z: int := a, b, d;
    c := 4096 * (x - 0xE0) + 64 * (y - 0x80) + (z - 0x80);
    Three(x - 0xE0, y - 0x80, z - 0x80);
  }

  lemma Decode4(a: byte, b: byte, d: byte, e: byte) returns (c: nat)
    requires Second4(a, b) && Continuation(d) && Continuation(e)
    ensures Scalar(c) && Encode(c) == [a, b, d, e]
  {
    var w: int, x: int, y: int, z: int := a, b, d, e;
    c := 262144 * (w - 0xF0) + 4096 * (x - 0x80) + 64 * (y - 0x80) + (z - 0x80);
    Four(w - 0xF0, x - 0x80, y - 0x80, z - 0x80);
  }

  lemma Three(x: nat, y: nat, z: nat)
    requires x < 16 && y < 64 && z < 64
    ensures var c := 4096 * x + 64 * y + z;
            c / 4096 == x && c / 64 % 64 == y && c % 64 == z
  {
  }

  lemma Four(w: nat, x: nat, y: nat, z: nat)
    requires w < 8 && x < 64 && y < 64 && z < 64
    ensures var c := 262144 * w + 4096 * x + 64 * y + z;
            c / 262144 == w && c / 4096 % 64 == x && c / 64 % 64 == y && c % 64 == z
  {
    var c := 262144 * w + 4096 * x + 64 * y + z;
    assert c / 64 == 4096 * w + 64 * x + y;
    assert c / 4096 == 64 * w + x;
  }

  /** Bytes begin with a character exactly when they begin with the encoding of a scalar value, and with that. */
  lemma CharacterExact(s: bytes, n: nat)
    requires 0 < n <= |s|
    ensures CharLen(s) == n <==> exists c: nat :: Scalar(c) && s[..n] == Encode(c)
  {
    if CharLen(s) == n {
      var c := CharacterIsEncoded(s);
    }
    if c: nat :| Scalar(c) && s[..n] == Encode(c) {
      EncodedIsCharacter(c, s[n..]);
      assert s == Encode(c) + s[n..];
    }
  }

  // ---- What a replacement character stands for --------------------------------------------------

  /** More bytes could make a character of these. */
  ghost predicate Unfinished(x: bytes) {
    exists more: bytes :: more != [] && CharLen(x + more) == |x| + |more|
  }

  /** Ill-formed bytes are replaced as far as they could have been a character's beginning, and one at least. */
  lemma ReplacedExact(s: bytes, n: nat)
    requires s != [] && CharLen(s) == 0 && 0 < n <= |s|
    ensures Unfinished(s[..n]) ==> n <= BadLen(s)
    ensures n <= BadLen(s) && BadLen(s) > 1 ==> Unfinished(s[..n])
  {
    if Unfinished(s[..n]) {
      var more: bytes :| more != [] && CharLen(s[..n] + more) == n + |more|;
      var t := s[..n] + more;
      assert forall i :: 0 <= i < n ==> t[i] == s[i];
    }
    if n <= BadLen(s) && BadLen(s) > 1 {
      var all := Finish(s);
      assert CharLen(all) == |all| && all[..n] == s[..n];
      assert all == s[..n] + all[n..];
    }
  }

  /** A character that begins with what one replacement stands for. */
  function Finish(s: bytes): (all: bytes)
    requires s != [] && CharLen(s) == 0 && BadLen(s) > 1
    ensures CharLen(all) == |all| > BadLen(s) && all[..BadLen(s)] == s[..BadLen(s)]
  {
    if Second3(s[0], s[1]) then [s[0], s[1], 0x80]
    else if BadLen(s) == 3 then [s[0], s[1], s[2], 0x80]
    else [s[0], s[1], 0x80, 0x80]
  }

  /** Whatever the bytes, decoding them gives valid text. */
  lemma {:induction false} LossyIsValid(s: bytes)
    ensures Valid(Lossy(s))
    decreases |s|
  {
    if s != [] {
      var n := CharLen(s);
      if n > 0 {
        LossyIsValid(s[n..]);
        var later := Lossy(s[n..]);
        OneCharacter(s);
        hide *;
        LossyStep(s);
        ValidJoin(s[..n], later);
      } else {
        var later := Lossy(s[BadLen(s)..]);
        LossyIsValid(s[BadLen(s)..]);
        assert Lossy(s) == REPLACEMENT + later;
        assert CharLen(REPLACEMENT) == 3 && REPLACEMENT[3..] == [];
        assert Valid(REPLACEMENT);
        hide *;
        ValidJoin(REPLACEMENT, later);
      }
    }
  }

  lemma OneCharacter(s: bytes)
    requires CharLen(s) > 0
    ensures Valid(s[..CharLen(s)])
  {
    var c := s[..CharLen(s)];
    assert CharLen(c) == |c| && c[|c|..] == [];
    ValidEmpty();
  }

  lemma ValidJoin(x: bytes, y: bytes)
    requires Valid(x) && Valid(y)
    ensures Valid(x + y)
  {
    ValidConcat(x, y);
  }
}
