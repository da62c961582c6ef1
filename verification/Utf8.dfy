/**
 UTF-8 as the Rust standard library reads it: which byte sequences are characters (table 3-7 of the
 Unicode Standard), how far a buffer is valid, and what lossy decoding puts in place of the rest.
 */
module Utf8 {
  import opened Bytes

  predicate Continuation(b: byte) {
    0x80 <= b <= 0xBF
  }

  /** The second byte of a three-byte character: no surrogates, no overlong forms. */
  predicate Second3(lead: byte, b: byte) {
    if lead == 0xE0 then 0xA0 <= b <= 0xBF
    else if lead == 0xED then 0x80 <= b <= 0x9F
    else 0xE1 <= lead <= 0xEF && Continuation(b)
  }

  /** The second byte of a four-byte character: nothing past U+10FFFF, no overlong forms. */
  predicate Second4(lead: byte, b: byte) {
    if lead == 0xF0 then 0x90 <= b <= 0xBF
    else if lead == 0xF4 then 0x80 <= b <= 0x8F
    else 0xF1 <= lead <= 0xF3 && Continuation(b)
  }

  /** The length of the character `s` begins with, or 0 when it begins with none. */
  function CharLen(s: bytes): (n: nat)
    ensures n <= 4 && n <= |s|
  {
    if |s| >= 1 && s[0] < 0x80 then 1
    else if |s| >= 2 && 0xC2 <= s[0] <= 0xDF && Continuation(s[1]) then 2
    else if |s| >= 3 && Second3(s[0], s[1]) && Continuation(s[2]) then 3
    else if |s| >= 4 && Second4(s[0], s[1]) && Continuation(s[2]) && Continuation(s[3]) then 4
    else 0
  }

  /** The length of the ill-formed run that one replacement character stands for. */
  function BadLen(s: bytes): (n: nat)
    requires |s| > 0
    ensures 1 <= n <= |s|
  {
    if |s| >= 2 && Second3(s[0], s[1]) then 2
    else if |s| >= 2 && Second4(s[0], s[1]) then
      if |s| >= 3 && Continuation(s[2]) then 3 else 2
    else 1
  }

  /** `Utf8Error::valid_up_to`, or the length when all of `s` is valid. */
  function ValidUpTo(s: bytes): (v: nat)
    ensures v <= |s|
  {
    var n := CharLen(s);
    if n == 0 then 0 else n + ValidUpTo(s[n..])
  }

  predicate Valid(s: bytes) {
    ValidUpTo(s) == |s|
  }

  const REPLACEMENT: bytes := [0xEF, 0xBF, 0xBD]

  /** `String::from_utf8_lossy`. */
  function Lossy(s: bytes): bytes {
    if s == [] then []
    else if CharLen(s) > 0 then s[..CharLen(s)] + Lossy(s[CharLen(s)..])
    else REPLACEMENT + Lossy(s[BadLen(s)..])
  }

  /** `str::is_char_boundary`. */
  predicate IsBoundary(s: bytes, i: nat) {
    i == 0 || i == |s| || (i < |s| && !Continuation(s[i]))
  }

  lemma CharLenConcat(x: bytes, y: bytes)
    requires CharLen(x) > 0
    ensures CharLen(x + y) == CharLen(x)
  {}

  /** Valid text starts with a character, and is valid after it. */
  lemma ValidStep(s: bytes)
    requires Valid(s) && s != []
    ensures CharLen(s) > 0 && Valid(s[CharLen(s)..])
  {}

  lemma LossyStep(s: bytes)
    requires CharLen(s) > 0
    ensures Lossy(s) == s[..CharLen(s)] + Lossy(s[CharLen(s)..])
  {}

  /** Decoding goes left to right: a valid prefix decodes to itself, whatever follows it. */
  lemma {:induction false} LossyAfterValid(x: bytes, y: bytes)
    requires Valid(x)
    ensures Lossy(x + y) == x + Lossy(y)
  {
    hide *;
    if x == [] {
      assert x + y == y;
    } else {
      ValidStep(x);
      var n := CharLen(x);
      CharLenConcat(x, y);
      assert (x + y)[n..] == x[n..] + y;
      assert (x + y)[..n] == x[..n];
      LossyStep(x + y);
      LossyAfterValid(x[n..], y);
      assert x[..n] + (x[n..] + Lossy(y)) == x + Lossy(y);
    }
  }

  lemma ValidEmpty()
    ensures Valid([])
  {}

  lemma ValidUpToStep(s: bytes)
    requires CharLen(s) > 0
    ensures ValidUpTo(s) == CharLen(s) + ValidUpTo(s[CharLen(s)..])
  {}

  lemma ValidUpToNone(s: bytes)
    ensures CharLen(s) == 0 ==> ValidUpTo(s) == 0
  {}

  /** A character is its own bytes: the rest may be cut off, and its inner bytes are continuations. */
  lemma CharLenTake(s: bytes, h: nat)
    requires CharLen(s) > 0 && h <= |s|
    ensures CharLen(s) <= h ==> CharLen(s[..h]) == CharLen(s)
    ensures 0 < h < CharLen(s) ==> Continuation(s[h])
  {}

  lemma {:induction false} ValidConcat(x: bytes, y: bytes)
    requires Valid(x)
    ensures ValidUpTo(x + y) == |x| + ValidUpTo(y)
  {
    hide *;
    if x == [] {
      assert x + y == y;
    } else {
      ValidStep(x);
      var n := CharLen(x);
      CharLenConcat(x, y);
      assert (x + y)[n..] == x[n..] + y;
      ValidUpToStep(x + y);
      ValidConcat(x[n..], y);
    }
  }

  /** The valid prefix is valid. */
  lemma {:induction false} ValidPrefix(s: bytes)
    ensures Valid(s[..ValidUpTo(s)])
  {
    ValidEmpty();
    ValidUpToNone(s);
    hide CharLen, ValidUpTo;
    var n := CharLen(s);
    var v := ValidUpTo(s);
    if n > 0 {
      ValidUpToStep(s);
      ValidPrefix(s[n..]);
      assert s[..v][n..] == s[n..][..v - n];
      CharLenTake(s, v);
      ValidUpToStep(s[..v]);
    } else {
      assert s[..v] == [];
    }
  }

  /** Valid text may be cut before any byte that is not a continuation. */
  lemma {:induction false} ValidSplit(s: bytes, h: nat)
    requires Valid(s) && h <= |s|
    requires h == |s| || !Continuation(s[h])
    ensures Valid(s[..h]) && Valid(s[h..])
  {
    ValidEmpty();
    hide CharLen, ValidUpTo;
    if h == 0 {
      assert s[..0] == [] && s[0..] == s;
    } else if h == |s| {
      assert s[..|s|] == s && s[|s|..] == [];
    } else {
      ValidStep(s);
      var n := CharLen(s);
      CharLenTake(s, h);
      assert s[n..][h - n] == s[h];
      ValidSplit(s[n..], h - n);
      assert s[..h][n..] == s[n..][..h - n];
      assert s[h..] == s[n..][h - n..];
      ValidUpToStep(s[..h]);
    }
  }

  /** A cut through valid text leaves at most three bytes of an unfinished character. */
  lemma {:induction false} CutLeavesAtMostThree(x: bytes, y: bytes)
    requires Valid(x + y)
    ensures |x| <= ValidUpTo(x) + 3
    ensures Valid(x[ValidUpTo(x)..] + y)
    decreases |x|
  {
    var n := CharLen(x);
    if x == [] {
      assert x[0..] + y == x + y;
    } else if n == 0 {
      var m := CharLen(x + y);
      assert |x| < m;
      assert x[0..] + y == x + y;
    } else {
      CharLenConcat(x, y);
      assert (x + y)[n..] == x[n..] + y;
      CutLeavesAtMostThree(x[n..], y);
      assert x[n..][ValidUpTo(x[n..])..] == x[ValidUpTo(x)..];
    }
  }

  /** Lossy decoding leaves valid text alone. */
  lemma LossyOfValid(x: bytes)
    requires Valid(x)
    ensures Lossy(x) == x
  {
    LossyAfterValid(x, []);
    assert x + [] == x;
  }

  /** Valid text may be cut after an ASCII byte. */
  lemma ValidAfterAscii(s: bytes, k: nat)
    requires Valid(s) && k < |s| && s[k] < 0x80
    ensures Valid(s[..k + 1]) && Valid(s[k + 1..])
  {
    hide ValidUpTo;
    ValidSplit(s, k);
    ValidStep(s[k..]);
    assert s[k..][1..] == s[k + 1..];
    var c := [s[k]];
    ValidStepAscii(c);
    ValidConcat(s[..k], c);
    assert s[..k] + c == s[..k + 1];
  }

  lemma ValidStepAscii(c: bytes)
    requires |c| == 1 && c[0] < 0x80
    ensures Valid(c)
  {}

  /** What follows a valid prefix of valid text is valid. */
  lemma ValidDrop(x: bytes, y: bytes)
    requires Valid(x) && Valid(x + y)
    ensures Valid(y)
  {
    hide ValidUpTo;
    ValidConcat(x, y);
  }
}
