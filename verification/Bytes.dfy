/**
 Byte strings and the searches the proxy runs over them. A Rust `str` is its UTF-8 bytes, and every
 offset in the source is a byte offset, so text is a sequence of bytes here too.
 */
module Bytes {

  type byte = b: int | 0 <= b < 256

  type bytes = seq<byte>

  /** An ASCII literal as bytes. */
  function Ascii(s: string): (r: bytes)
    ensures |r| == |s|
    ensures forall i :: 0 <= i < |s| ==> r[i] == s[i] as int % 128
  {
    seq(|s|, i requires 0 <= i < |s| => s[i] as int % 128)
  }

  function LowerByte(b: byte): byte {
    if 0x41 <= b <= 0x5a then b + 0x20 else b
  }

  /** `to_ascii_lowercase`. */
  function Lower(v: bytes): (r: bytes)
    ensures |r| == |v| && forall i :: 0 <= i < |v| ==> r[i] == LowerByte(v[i])
  {
    seq(|v|, i requires 0 <= i < |v| => LowerByte(v[i]))
  }

  /** Whether `p` occurs in `s` at offset `i`. */
  predicate At(s: bytes, p: bytes, i: int) {
    0 <= i && i + |p| <= |s| && s[i..i + |p|] == p
  }

  /** `str::find` from offset `from`: the first occurrence of `p`, or -1. */
  function Find(s: bytes, p: bytes, from: nat := 0): (r: int)
    ensures r == -1 || (from <= r && At(s, p, r))
    ensures forall k :: from <= k && (r < 0 || k < r) ==> !At(s, p, k)
    decreases |s| - from
  {
    if from + |p| > |s| then -1
    else if s[from..from + |p|] == p then from
    else if from == |s| then -1
    else Find(s, p, from + 1)
  }

  /** `str::rfind`: the last occurrence of `p` starting before `before`, or -1. */
  function RFind(s: bytes, p: bytes, before: nat): (r: int)
    ensures r == -1 || (0 <= r < before && At(s, p, r))
    ensures forall k :: r < k < before ==> !At(s, p, k)
  {
    if before == 0 then -1
    else if At(s, p, before - 1) then before - 1
    else RFind(s, p, before - 1)
  }

  /** `str::find` of one byte, from offset `from`. */
  function FindByte(s: bytes, b: byte, from: nat := 0): (r: int)
    ensures r == -1 || (from <= r < |s| && s[r] == b)
    ensures forall k :: from <= k < (if r < 0 then |s| else r) ==> s[k] != b
    decreases |s| - from
  {
    if from >= |s| then -1
    else if s[from] == b then from
    else FindByte(s, b, from + 1)
  }

  /** The concatenation of a sequence of frames. */
  function Flatten(frames: seq<bytes>): bytes {
    if frames == [] then [] else frames[0] + Flatten(frames[1..])
  }

  lemma FlattenCons(f: bytes, later: seq<bytes>)
    ensures Flatten([f] + later) == f + Flatten(later)
  {
    assert ([f] + later)[1..] == later;
  }

  /** Concatenation is associative; stated so that a long proof need not look inside the parts. */
  lemma Associate(a: bytes, b: bytes, c: bytes)
    ensures a + b + c == a + (b + c)
  {
  }

  lemma Regroup(a: bytes, b: bytes, c: bytes, d: bytes)
    ensures a + (b + c + d) == (a + b + c) + d
    ensures a + b + (c + d) == (a + b + c) + d
  {
  }

  /** An occurrence inside a part is an occurrence in the whole, shifted, and conversely. */
  lemma AtConcat(x: bytes, y: bytes, p: bytes, i: int)
    requires |x| <= i
    ensures At(x + y, p, i) <==> At(y, p, i - |x|)
  {
    if i + |p| <= |x + y| {
      assert (x + y)[i..i + |p|] == y[i - |x|..i - |x| + |p|];
    }
  }

  lemma AtPrefix(x: bytes, y: bytes, p: bytes, i: int)
    requires i + |p| <= |x|
    ensures At(x + y, p, i) <==> At(x, p, i)
  {
    if 0 <= i {
      assert (x + y)[i..i + |p|] == x[i..i + |p|];
    }
  }

  /** Occurrences after offset `c` are the occurrences in what is left when `c` bytes are dropped. */
  lemma DropAt(t: bytes, p: bytes, c: nat)
    requires c <= |t|
    ensures forall j :: 0 <= j && At(t[c..], p, j) ==> At(t, p, j + c)
    ensures forall i :: c <= i && At(t, p, i) ==> At(t[c..], p, i - c)
  {
    assert t[..c] + t[c..] == t;
    forall j | 0 <= j && At(t[c..], p, j) ensures At(t, p, j + c) {
      AtConcat(t[..c], t[c..], p, j + c);
    }
    forall i | c <= i && At(t, p, i) ensures At(t[c..], p, i - c) {
      AtConcat(t[..c], t[c..], p, i);
    }
  }

  /** Dropping text in which nothing starts only shifts the first occurrence. */
  lemma FindAfterDrop(t: bytes, p: bytes, c: nat)
    requires c <= |t|
    requires forall k :: 0 <= k < c ==> !At(t, p, k)
    ensures var i, j := Find(t, p), Find(t[c..], p);
            if j < 0 then i < 0 else i == c + j
  {
    hide Find;
    DropAt(t, p, c);
  }

  /** The first occurrence is found just the same when the text after it is cut off. */
  lemma FindBeforeCut(t: bytes, p: bytes, h: nat)
    requires h <= |t|
    ensures var i, j := Find(t, p), Find(t[..h], p);
            if 0 <= i && i + |p| <= h then j == i else j < 0
  {
    hide Find;
    var x := t[..h];
    assert x + t[h..] == t;
    forall n | At(x, p, n) ensures At(t, p, n) {
      AtPrefix(x, t[h..], p, n);
    }
    var i := Find(t, p);
    if 0 <= i && i + |p| <= h {
      AtPrefix(x, t[h..], p, i);
    }
  }

  lemma FindByteAfterDrop(t: bytes, b: byte, c: nat, j: nat)
    requires c + j <= |t|
    ensures var k, l := FindByte(t, b, c + j), FindByte(t[c..], b, j);
            if l < 0 then k < 0 else k == c + l
  {
    hide FindByte;
    var y := t[c..];
    assert forall n :: 0 <= n < |y| ==> y[n] == t[n + c];
    assert forall n :: c <= n < |t| ==> t[n] == y[n - c];
  }

  lemma FindByteBeforeCut(t: bytes, b: byte, i: nat, h: nat)
    requires i <= h <= |t|
    ensures var k, l := FindByte(t, b, i), FindByte(t[..h], b, i);
            if 0 <= k < h then l == k else l < 0
  {
    hide FindByte;
    assert forall n :: 0 <= n < h ==> t[..h][n] == t[n];
  }
}
