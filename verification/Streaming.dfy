/**
 Streaming unmask of `src/dlp.rs`, against the buffered one.

 The proxy restores a buffered reply with `unmask(from_utf8_lossy(body))` and a streamed one frame by
 frame, holding back whatever might be the start of a placeholder or of a character. The two must
 agree however the upstream cuts its reply. A UTF-8 reply does so unless a placeholder that stands for
 something else ends a longer token (an earlier `<edgeguard-` that was still open): that condition,
 `Safe`, is exact. For arbitrary bytes it is enough, and the exact law is in `StreamingBytes`.
 */
module Streaming {
  import opened Bytes
  import opened Masking
  import Utf8

  // ---- What is held back ----------------------------------------------------------------------

  /** The last `c` bytes of `text` could grow into `<edgeguard-`. */
  predicate Partial(text: bytes, c: int) {
    0 < c < |MASK_PREFIX| && c <= |text| && text[|text| - c..] == MASK_PREFIX[..c]
  }

  /** Where the longest such suffix of at most `cut` bytes starts; the text's end when there is none. */
  function PartialTail(text: bytes, cut: nat): (h: nat)
    requires cut < |MASK_PREFIX|
    ensures h <= |text|
    ensures h < |text| ==> |text| - h <= cut && Partial(text, |text| - h)
    ensures forall c :: Partial(text, c) && c <= cut ==> h <= |text| - c
  {
    if cut == 0 then |text|
    else if cut <= |text| && Utf8.IsBoundary(text, |text| - cut) && text[|text| - cut..] == MASK_PREFIX[..cut]
    then |text| - cut
    else
      PartialOnBoundary(text, cut);
      PartialTail(text, cut - 1)
  }

  /** A partial prefix opens with `<`, so it starts a character. */
  lemma PartialOnBoundary(text: bytes, c: nat)
    ensures Partial(text, c) ==> Utf8.IsBoundary(text, |text| - c)
  {
    if Partial(text, c) {
      assert text[|text| - c..][0] == MASK_PREFIX[..c][0];
    }
  }

  /** Where the last `<edgeguard-` opens, when nothing has closed it and it is short enough to wait for; else -1. */
  function OpenTail(text: bytes): int {
    var pos := RFind(text, MASK_PREFIX, |text|);
    if pos >= 0 && Close(text, pos) < 0 && |text| - pos <= MAX_PLACEHOLDER_BYTES then pos else -1
  }

  /** `incomplete_tail(text).unwrap_or(text.len())`: everything from here on is held back. */
  function Hold(text: bytes): (h: nat)
    ensures h <= |text|
  {
    if OpenTail(text) >= 0 then OpenTail(text) else PartialTail(text, |MASK_PREFIX| - 1)
  }

  /** From `h` on stands the last `<edgeguard-`, nothing has closed it, and it is short enough to wait for. */
  predicate OpensAt(text: bytes, h: int) {
    && At(text, Ascii("<edgeguard-"), h) && |text| - h <= 96
    && (forall k :: h < k < |text| ==> !At(text, Ascii("<edgeguard-"), k))
    && (forall k :: h <= k < |text| ==> text[k] != '>' as int)
  }

  /** From `h` on stands a beginning of `<edgeguard-`, and nothing else. */
  predicate BeginsAt(text: bytes, h: int) {
    0 <= h < |text| && |text| - h < 11 && text[h..] == Ascii("<edgeguard-")[..|text| - h]
  }

  /** Held back is an open token, else a prefix that has begun, and else nothing. */
  lemma HoldExact(text: bytes, h: nat)
    ensures Hold(text) == h
            <==> if exists k :: OpensAt(text, k) then OpensAt(text, h)
                 else if exists k :: BeginsAt(text, k) then BeginsAt(text, h)
                 else h == |text|
  {
    OpenTailExact(text);
    BeginsExact(text);
    assert |MASK_PREFIX| == 11;
    var open, begun := OpenTail(text), PartialTail(text, 10);
    assert Hold(text) == if open >= 0 then open else begun;
    hide OpenTail, PartialTail, OpensAt, BeginsAt, Hold;
    if open >= 0 {
      assert OpensAt(text, open);
    } else if begun < |text| {
      assert BeginsAt(text, begun);
    }
  }

  lemma OpenTailExact(text: bytes)
    ensures forall k :: OpensAt(text, k) <==> k >= 0 && k == OpenTail(text)
  {
    assert Ascii("<edgeguard-") == MASK_PREFIX;
    hide RFind, FindByte, Ascii;
    forall k ensures OpensAt(text, k) <==> k >= 0 && k == OpenTail(text) {
      var pos := RFind(text, MASK_PREFIX, |text|);
      if OpensAt(text, k) {
        assert 0 <= k < |text| && pos == k;
      }
    }
  }

  lemma BeginsExact(text: bytes)
    ensures forall k :: BeginsAt(text, k) <==> k < |text| && k == PartialTail(text, 10)
  {
    assert Ascii("<edgeguard-") == MASK_PREFIX;
    var h := PartialTail(text, 10);
    hide PartialTail, Ascii;
    forall k ensures BeginsAt(text, k) <==> k < |text| && k == h {
      if BeginsAt(text, k) {
        assert Partial(text, |text| - k);
        OneBeginning(text, |text| - k, |text| - h);
      }
      if k < |text| && k == h {
        assert Partial(text, |text| - h);
      }
    }
  }

  /** The prefix has one `<`, so only one suffix is a beginning of it. */
  lemma OneBeginning(text: bytes, c: int, d: int)
    requires Partial(text, c) && Partial(text, d) && c <= d
    ensures c == d
  {
    assert text[|text| - c] == text[|text| - c..][0] == MASK_PREFIX[..c][0] == LT;
    assert text[|text| - d..][d - c] == text[|text| - c];
    assert MASK_PREFIX[..d][d - c] == MASK_PREFIX[d - c];
  }

  // ---- A stream of frames ---------------------------------------------------------------------

  /** What one frame adds to the output, and what is carried into the next. */
  function StreamStep(orig: map<bytes, bytes>, carry: bytes, data: bytes): (r: (bytes, bytes)) {
    var buf := carry + data;
    if orig == map[] then (buf, [])
    else
      var hold := Hold(buf[..Utf8.ValidUpTo(buf)]);
      (Unmasked(orig, buf[..hold]), buf[hold..])
  }

  /** Everything a stream emits, its flush included. */
  function StreamOut(orig: map<bytes, bytes>, carry: bytes, frames: seq<bytes>): bytes
    decreases |frames|
  {
    if frames == [] then Unmasked(orig, Utf8.Lossy(carry))
    else
      var (out, held) := StreamStep(orig, carry, frames[0]);
      out + StreamOut(orig, held, frames[1..])
  }

  /** What the stream carries after all of `frames`. */
  function StreamCarry(orig: map<bytes, bytes>, carry: bytes, frames: seq<bytes>): bytes
    decreases |frames|
  {
    if frames == [] then carry
    else StreamCarry(orig, StreamStep(orig, carry, frames[0]).1, frames[1..])
  }

  method IncompleteTail(text: bytes) returns (held: bool, at: nat)
    ensures held <==> Hold(text) < |text|
    ensures held ==> at == Hold(text)
  {
    var pos := RFind(text, MASK_PREFIX, |text|);
    if pos >= 0 {
      if Close(text, pos) < 0 && |text| - pos <= MAX_PLACEHOLDER_BYTES {
        return true, pos;
      }
    }
    var cut := |MASK_PREFIX| - 1;
    while cut > 0
      invariant 0 <= cut < |MASK_PREFIX|
      invariant Hold(text) == PartialTail(text, cut)
    {
      if |text| >= cut && Utf8.IsBoundary(text, |text| - cut) {
        if text[|text| - cut..] <= MASK_PREFIX {
          return true, |text| - cut;
        }
      }
      cut := cut - 1;
    }
    return false, 0;
  }

  method UnmaskStream(masks: MaskMap, carry: bytes, data: bytes) returns (out: bytes, carry': bytes)
    ensures (out, carry') == StreamStep(masks.toOriginal, carry, data)
  {
    var buf := carry + data;
    if masks.toOriginal == map[] {
      return buf, [];
    }
    var text := buf[..Utf8.ValidUpTo(buf)];
    var held, at := IncompleteTail(text);
    var hold := if held then at else |text|;
    assert text[..hold] == buf[..hold];
    out := masks.Unmask(text[..hold]);
    carry' := buf[hold..];
  }

  method FlushUnmask(masks: MaskMap, carry: bytes) returns (out: bytes)
    ensures out == StreamOut(masks.toOriginal, carry, [])
  {
    if carry == [] {
      return [];
    }
    out := masks.Unmask(Utf8.Lossy(carry));
  }

  // ---- When buffered and streamed replies agree -----------------------------------------------

  /** Every key has the shape `placeholder_for` gives it. */
  ghost predicate Keys(orig: map<bytes, bytes>) {
    forall p :: p in orig ==> Shaped(p) && |p| <= MAX_PLACEHOLDER_BYTES
  }

  /** A placeholder that stands for something other than itself. */
  predicate Live(orig: map<bytes, bytes>, key: bytes) {
    key in orig && orig[key] != key
  }

  /** `text[j..=last]` is a live placeholder. */
  predicate LiveAt(orig: map<bytes, bytes>, text: bytes, j: int, last: int) {
    0 <= j <= last < |text| && Live(orig, text[j..last + 1])
  }

  /** No token of the buffered scan ends in a live placeholder that opens later than the token does. */
  predicate Safe(orig: map<bytes, bytes>, text: bytes)
    decreases |text|
  {
    var i := Find(text, MASK_PREFIX);
    if i < 0 then true
    else
      var k := Close(text, i);
      if k < 0 then true
      else
        && (forall j :: i < j <= k ==> !LiveAt(orig, text, j, k))
        && Safe(orig, text[k + 1..])
  }

  // One step of the scan, for proofs that need no more than that.

  lemma ScanPlain(orig: map<bytes, bytes>, t: bytes)
    requires Find(t, MASK_PREFIX) < 0 || Close(t, Find(t, MASK_PREFIX)) < 0
    ensures Unmasked(orig, t) == t && Safe(orig, t)
  {
    hide Find, FindByte;
  }

  lemma ScanToken(orig: map<bytes, bytes>, t: bytes, i: nat, k: nat)
    requires Find(t, MASK_PREFIX) == i <= |t| && Close(t, i) == k
    ensures Unmasked(orig, t) == t[..i] + Lookup(orig, t[i..k + 1]) + Unmasked(orig, t[k + 1..])
    ensures Safe(orig, t) <==> (forall j :: i < j <= k ==> !LiveAt(orig, t, j, k)) && Safe(orig, t[k + 1..])
  {
    hide Find, FindByte;
  }

  /** Text before the first place a prefix starts passes through. */
  lemma PlainPrefix(orig: map<bytes, bytes>, t: bytes, c: nat)
    requires c <= |t|
    requires forall k :: 0 <= k < c ==> !At(t, MASK_PREFIX, k)
    ensures Unmasked(orig, t) == t[..c] + Unmasked(orig, t[c..])
    ensures Safe(orig, t) <==> Safe(orig, t[c..])
  {
    FindAfterDrop(t, MASK_PREFIX, c);
    hide *;
    var y := t[c..];
    var j := Find(y, MASK_PREFIX);
    assert t[..c] + y == t;
    if j < 0 {
      ScanPlain(orig, t);
      ScanPlain(orig, y);
    } else {
      FindByteAfterDrop(t, GT, c, j);
      CloseIsFindByte(t, c + j);
      CloseIsFindByte(y, j);
      var l := Close(y, j);
      if l < 0 {
        ScanPlain(orig, t);
        ScanPlain(orig, y);
      } else {
        PlainPrefixToken(orig, t, c, j, l);
      }
    }
  }

  lemma CloseIsFindByte(t: bytes, i: nat)
    requires i <= |t|
    ensures Close(t, i) == FindByte(t, GT, i)
  {}

  lemma PlainPrefixToken(orig: map<bytes, bytes>, t: bytes, c: nat, j: nat, l: nat)
    requires c <= |t| && j <= l < |t| - c
    requires Find(t, MASK_PREFIX) == c + j && Close(t, c + j) == c + l
    requires Find(t[c..], MASK_PREFIX) == j && Close(t[c..], j) == l
    ensures Unmasked(orig, t) == t[..c] + Unmasked(orig, t[c..])
    ensures Safe(orig, t) <==> Safe(orig, t[c..])
  {
    hide *;
    var y := t[c..];
    var last := c + l;
    ScanToken(orig, t, c + j, last);
    ScanToken(orig, y, j, l);
    assert t[last + 1..] == y[l + 1..];
    assert t[c + j..last + 1] == y[j..l + 1];
    assert t[..c + j] == t[..c] + y[..j];
    var e, f := Lookup(orig, y[j..l + 1]), Unmasked(orig, y[l + 1..]);
    assert t[..c] + y[..j] + e + f == t[..c] + (y[..j] + e + f);
    LiveAfterDrop(orig, t, c, j, l);
  }

  lemma LiveAfterDrop(orig: map<bytes, bytes>, t: bytes, c: nat, j: nat, l: nat)
    requires c <= |t| && j <= l < |t| - c
    ensures var y, last := t[c..], c + l;
            (forall n :: c + j < n <= last ==> !LiveAt(orig, t, n, last))
            <==> (forall n :: j < n <= l ==> !LiveAt(orig, y, n, l))
  {
    var y, last := t[c..], c + l;
    forall n | j < n <= l ensures LiveAt(orig, y, n, l) <==> LiveAt(orig, t, n + c, last) {
      assert y[n..l + 1] == t[n + c..last + 1];
    }
    forall n | c + j < n <= last ensures LiveAt(orig, t, n, last) <==> LiveAt(orig, y, n - c, l) {
      assert y[n - c..l + 1] == t[n..last + 1];
    }
  }

  /** Without a `>` there is no token. */
  lemma NoToken(orig: map<bytes, bytes>, t: bytes)
    requires GT !in t
    ensures Unmasked(orig, t) == t && Safe(orig, t)
  {
    ScanPlain(orig, t);
  }

  /** A text whose first `>` closes nothing live passes through up to and including that `>`. */
  lemma InertToken(orig: map<bytes, bytes>, t: bytes, k: nat)
    requires FindByte(t, GT) == k
    requires forall j :: 0 <= j <= k ==> !LiveAt(orig, t, j, k)
    ensures Unmasked(orig, t) == t[..k + 1] + Unmasked(orig, t[k + 1..])
    ensures Safe(orig, t) <==> Safe(orig, t[k + 1..])
  {
    hide Unmasked, Safe, Find, FindByte;
    var i := Find(t, MASK_PREFIX);
    if 0 <= i <= k {
      assert Close(t, i) == k;
      ScanToken(orig, t, i, k);
      assert !LiveAt(orig, t, i, k);
      assert t[..i] + t[i..k + 1] == t[..k + 1];
    } else {
      PlainPrefix(orig, t, k + 1);
    }
  }

  /** Whether the last `n` bytes look like a partial prefix does not depend on what comes before them. */
  lemma PartialAfterDrop(t: bytes, c: nat, n: int)
    requires c <= |t| && n <= |t| - c
    ensures Partial(t, n) <==> Partial(t[c..], n)
  {
    if 0 < n {
      assert t[c..][|t| - c - n..] == t[|t| - n..];
    }
  }

  lemma PartialBytes(t: bytes, n: nat)
    requires Partial(t, n)
    ensures t[|t| - n] == LT
    ensures forall i :: |t| - n <= i < |t| ==> t[i] != GT
  {
    assert forall i :: |t| - n <= i < |t| ==> t[i] == t[|t| - n..][i - (|t| - n)] == MASK_PREFIX[i - (|t| - n)];
  }

  /** Where something is held back, a `<` stands, and no `>` comes after a partial prefix. */
  lemma HoldsAtLt(x: bytes)
    ensures Hold(x) < |x| ==> x[Hold(x)] == LT
    ensures forall n :: PartialTail(x, |MASK_PREFIX| - 1) <= n < |x| ==> x[n] != GT
  {
    hide PartialTail, RFind, FindByte, Partial;
    if OpenTail(x) >= 0 {
      OneLt(x, OpenTail(x));
    }
    var h := PartialTail(x, |MASK_PREFIX| - 1);
    if h < |x| {
      PartialBytes(x, |x| - h);
    }
  }

  /** Dropping text that ends in `>` does not move what is held back. */
  lemma HoldAfterClose(t: bytes, c: nat)
    requires 0 < c <= |t| && t[c - 1] == GT
    ensures Hold(t) == c + Hold(t[c..])
  {
    hide PartialTail;
    SameTail(t, c);
    OpenTailAfterClose(t, c);
  }

  lemma OpenTailAfterClose(t: bytes, c: nat)
    requires 0 < c <= |t| && t[c - 1] == GT
    ensures var p, q := OpenTail(t), OpenTail(t[c..]);
            if q < 0 then p < 0 else p == c + q
  {
    hide RFind, FindByte, At;
    var y := t[c..];
    DropAt(t, MASK_PREFIX, c);
    var p := RFind(t, MASK_PREFIX, |t|);
    var q := RFind(y, MASK_PREFIX, |y|);
    if p >= c {
      assert At(y, MASK_PREFIX, p - c);
      assert At(t, MASK_PREFIX, q + c);
      FindByteAfterDrop(t, GT, c, q);
    }
  }

  lemma SameTail(t: bytes, c: nat)
    requires 0 < c <= |t| && t[c - 1] == GT
    ensures PartialTail(t, |MASK_PREFIX| - 1) == c + PartialTail(t[c..], |MASK_PREFIX| - 1)
  {
    hide PartialTail, Partial, Hold;
    var y := t[c..];
    var h := PartialTail(t, |MASK_PREFIX| - 1);
    var g := PartialTail(y, |MASK_PREFIX| - 1);
    HoldsAtLt(t);
    PartialAfterDrop(t, c, |t| - h);
    PartialAfterDrop(t, c, |y| - g);
  }

  /** `<` opens a prefix and occurs nowhere else in it. */
  lemma OneLt(t: bytes, i: nat)
    requires At(t, MASK_PREFIX, i)
    ensures t[i] == LT
    ensures forall n :: i < n < i + |MASK_PREFIX| ==> t[n] != LT
    ensures forall n :: i <= n < i + |MASK_PREFIX| ==> t[n] != GT
  {
    assert forall n :: i <= n < i + |MASK_PREFIX| ==> t[n] == t[i..i + |MASK_PREFIX|][n - i] == MASK_PREFIX[n - i];
  }

  /** No prefix straddles the point held back from. */
  lemma HoldNotInsidePrefix(t: bytes, v: nat, i: nat)
    requires v <= |t| && At(t, MASK_PREFIX, i)
    ensures var h := Hold(t[..v]); h <= i || i + |MASK_PREFIX| <= h
  {
    var x := t[..v];
    HoldsAtLt(x);
    OneLt(t, i);
    if i < v < i + |MASK_PREFIX| {
      var n := v - i;
      assert x[|x| - n..] == t[i..i + |MASK_PREFIX|][..n];
      assert Partial(x, n);
      assert PartialTail(x, |MASK_PREFIX| - 1) <= i;
    }
  }

  /** A token open across the point held back from is not in the map. */
  lemma StraddlingTokenUnknown(orig: map<bytes, bytes>, t: bytes, v: nat, i: nat, k: nat)
    requires Keys(orig) && v <= |t|
    requires At(t, MASK_PREFIX, i) && Close(t, i) == k
    requires i + |MASK_PREFIX| <= Hold(t[..v]) <= k
    ensures t[i..k + 1] !in orig
  {
    var x := t[..v];
    var h := Hold(x);
    var token := t[i..k + 1];
    HoldsAtLt(x);
    if OpenTail(x) >= 0 {
      assert token[h - i] == LT;
      assert !Shaped(token);
    } else {
      assert x[i..i + |MASK_PREFIX|] == t[i..i + |MASK_PREFIX|];
      assert At(x, MASK_PREFIX, i);
      OpenTooLong(x, i);
      assert |token| > MAX_PLACEHOLDER_BYTES;
    }
  }

  /** A prefix that is open at the end and not waited for has run past the bound. */
  lemma OpenTooLong(x: bytes, i: nat)
    requires At(x, MASK_PREFIX, i) && OpenTail(x) < 0
    requires forall n :: i <= n < Hold(x) ==> x[n] != GT
    ensures |x| - i > MAX_PLACEHOLDER_BYTES
    ensures forall n :: i <= n < |x| ==> x[n] != GT
  {
    HoldsAtLt(x);
    var pos := RFind(x, MASK_PREFIX, |x|);
    assert i <= pos;
    assert Close(x, pos) < 0;
  }

  /** Safe text may be unmasked in two pieces, cut where the streaming unmasker holds back. */
  lemma {:induction false} SplitAtHold(orig: map<bytes, bytes>, t: bytes, v: nat)
    requires Keys(orig) && Safe(orig, t) && v <= |t|
    ensures var h := Hold(t[..v]);
            && Unmasked(orig, t) == Unmasked(orig, t[..h]) + Unmasked(orig, t[h..])
            && Safe(orig, t[h..])
    decreases |t|
  {
    hide Unmasked, Safe, Find, FindByte, Hold;
    var h := Hold(t[..v]);
    var x, y := t[..h], t[h..];
    var i := Find(t, MASK_PREFIX);
    if i < 0 || h <= i {
      PlainPrefix(orig, t, h);
      FindBeforeCut(t, MASK_PREFIX, h);
      ScanPlain(orig, x);
    } else {
      HoldNotInsidePrefix(t, v, i);
      FindBeforeCut(t, MASK_PREFIX, h);
      var k := Close(t, i);
      if k < 0 {
        assert GT !in y;
        NoToken(orig, y);
        ScanPlain(orig, t);
        assert Close(x, i) < 0;
        ScanPlain(orig, x);
        assert x + y == t;
      } else if k < h {
        SplitAfterToken(orig, t, v, i, k);
      } else {
        StraddlingTokenUnknown(orig, t, v, i, k);
        SplitInsideToken(orig, t, h, i, k);
      }
    }
  }

  /** The first token lies wholly before the cut: take it off both sides. */
  lemma {:induction false} SplitAfterToken(orig: map<bytes, bytes>, t: bytes, v: nat, i: nat, k: nat)
    requires Keys(orig) && Safe(orig, t) && v <= |t|
    requires Find(t, MASK_PREFIX) == i && Close(t, i) == k && k < Hold(t[..v])
    requires Find(t[..Hold(t[..v])], MASK_PREFIX) == i
    ensures var h := Hold(t[..v]);
            && Unmasked(orig, t) == Unmasked(orig, t[..h]) + Unmasked(orig, t[h..])
            && Safe(orig, t[h..])
    decreases |t|, 0
  {
    hide Unmasked, Safe, Find, FindByte, Hold;
    var h := Hold(t[..v]);
    var r := t[k + 1..];
    ScanToken(orig, t, i, k);
    HoldAfterClose(t[..v], k + 1);
    assert t[..v][k + 1..] == r[..v - k - 1];
    SplitAtHold(orig, r, v - k - 1);
    assert t[h..] == r[h - k - 1..];
    UnmaskedBeforeCut(orig, t, h, i, k);
    Regroup(t[..i], Lookup(orig, t[i..k + 1]), Unmasked(orig, r[..h - k - 1]), Unmasked(orig, t[h..]));
  }

  lemma UnmaskedBeforeCut(orig: map<bytes, bytes>, t: bytes, h: nat, i: nat, k: nat)
    requires i <= k < h <= |t|
    requires Find(t[..h], MASK_PREFIX) == i && Close(t, i) == k
    ensures Unmasked(orig, t[..h]) == t[..i] + Lookup(orig, t[i..k + 1]) + Unmasked(orig, t[k + 1..][..h - k - 1])
  {
    hide Unmasked, Safe, Find, FindByte, Lookup;
    FindByteBeforeCut(t, GT, i, h);
    ScanToken(orig, t[..h], i, k);
    assert t[..h][k + 1..] == t[k + 1..][..h - k - 1];
    assert t[..h][..i] == t[..i];
    assert t[..h][i..k + 1] == t[i..k + 1];
  }

  /** What follows a cut inside an unknown token begins with the rest of it, which is inert. */
  lemma TailInsideToken(orig: map<bytes, bytes>, t: bytes, h: nat, i: nat, k: nat)
    requires Safe(orig, t) && i < h <= k < |t|
    requires Find(t, MASK_PREFIX) == i && Close(t, i) == k && t[i..k + 1] !in orig
    ensures Unmasked(orig, t[h..]) == t[h..][..k - h + 1] + Unmasked(orig, t[k + 1..])
    ensures Safe(orig, t[h..])
  {
    hide Unmasked, Safe, Find, FindByte, LiveAt, At;
    ScanToken(orig, t, i, k);
    assert Close(t, h) == k;
    FindByteAfterDrop(t, GT, h, 0);
    NotLiveAfterDrop(orig, t, h, k);
    InertToken(orig, t[h..], k - h);
    assert t[h..][k - h + 1..] == t[k + 1..];
  }

  /** The first token is open at the cut, and unknown. */
  lemma SplitInsideToken(orig: map<bytes, bytes>, t: bytes, h: nat, i: nat, k: nat)
    requires Safe(orig, t) && i < h <= k < |t|
    requires Find(t, MASK_PREFIX) == i && Close(t, i) == k && t[i..k + 1] !in orig
    requires Find(t[..h], MASK_PREFIX) == i
    ensures Unmasked(orig, t) == Unmasked(orig, t[..h]) + Unmasked(orig, t[h..])
    ensures Safe(orig, t[h..])
  {
    hide Unmasked, Safe, Find, FindByte, LiveAt, At;
    TailInsideToken(orig, t, h, i, k);
    FindByteBeforeCut(t, GT, i, h);
    ScanPlain(orig, t[..h]);
    UnknownToken(orig, t, i, k);
    Glue(t, h, k, Unmasked(orig, t[k + 1..]));
  }

  /** An unknown token stays. */
  lemma UnknownToken(orig: map<bytes, bytes>, t: bytes, i: nat, k: nat)
    requires Find(t, MASK_PREFIX) == i <= |t| && Close(t, i) == k && t[i..k + 1] !in orig
    ensures Unmasked(orig, t) == t[..k + 1] + Unmasked(orig, t[k + 1..])
  {
    hide Unmasked, Safe, Find, FindByte;
    ScanToken(orig, t, i, k);
    assert t[..i] + t[i..k + 1] == t[..k + 1];
  }

  lemma Glue(t: bytes, h: nat, k: nat, r: bytes)
    requires h <= k < |t|
    ensures t[..k + 1] + r == t[..h] + (t[h..][..k - h + 1] + r)
    ensures t[..k + 1] + r == t[..h] + (t[h..k + 1] + r)
  {
    assert t[h..][..k - h + 1] == t[h..k + 1];
    assert t[..h] + t[h..k + 1] == t[..k + 1];
  }

  lemma NotLiveAfterDrop(orig: map<bytes, bytes>, t: bytes, h: nat, k: nat)
    requires h <= k < |t|
    requires forall j :: h <= j <= k ==> !LiveAt(orig, t, j, k)
    ensures var e := k - h; forall j :: 0 <= j <= e ==> !LiveAt(orig, t[h..], j, e)
  {
    var e := k - h;
    forall j | 0 <= j <= e ensures !LiveAt(orig, t[h..], j, e) {
      assert !LiveAt(orig, t, j + h, k);
      assert t[h..][j..e + 1] == t[j + h..k + 1];
    }
  }

  /**
   The stream refines the buffer: whatever the bytes and however they are cut into frames, the frames'
   output followed by the flush is the buffered unmask of the lossily decoded reply.
   */
  lemma {:induction false} StreamRefinesBuffer(orig: map<bytes, bytes>, carry: bytes, frames: seq<bytes>)
    requires Keys(orig) && orig != map[]
    requires Safe(orig, Utf8.Lossy(carry + Flatten(frames)))
    ensures StreamOut(orig, carry, frames) == Unmasked(orig, Utf8.Lossy(carry + Flatten(frames)))
    decreases |frames|
  {
    hide Unmasked, Safe, Hold, Utf8.Lossy, Utf8.ValidUpTo;
    if frames == [] {
      assert carry + Flatten(frames) == carry;
    } else {
      var buf := carry + frames[0];
      var later := Flatten(frames[1..]);
      assert carry + Flatten(frames) == buf + later;
      var h := Hold(buf[..Utf8.ValidUpTo(buf)]);
      assert StreamStep(orig, carry, frames[0]) == (Unmasked(orig, buf[..h]), buf[h..]);
      FrameSplits(orig, buf, later);
      StreamRefinesBuffer(orig, buf[h..], frames[1..]);
    }
  }

  lemma FrameSplits(orig: map<bytes, bytes>, buf: bytes, later: bytes)
    requires Keys(orig)
    requires Safe(orig, Utf8.Lossy(buf + later))
    ensures var h := Hold(buf[..Utf8.ValidUpTo(buf)]);
            && Unmasked(orig, Utf8.Lossy(buf + later))
               == Unmasked(orig, buf[..h]) + Unmasked(orig, Utf8.Lossy(buf[h..] + later))
            && Safe(orig, Utf8.Lossy(buf[h..] + later))
  {
    hide Unmasked, Safe, Hold, Utf8.Lossy, Utf8.ValidUpTo;
    var t := Utf8.Lossy(buf + later);
    var v := Utf8.ValidUpTo(buf);
    var h := Hold(buf[..v]);
    DecodeFromHold(buf, later);
    assert t[..h] == t[..v][..h] == buf[..v][..h] == buf[..h];
    SplitAtHold(orig, t, v);
  }

  /** What is held back starts on a character boundary, so decoding may start over from there. */
  lemma DecodeFromHold(buf: bytes, later: bytes)
    ensures var v := Utf8.ValidUpTo(buf);
            var h := Hold(buf[..v]);
            var t := Utf8.Lossy(buf + later);
            && v <= |t| && t[..v] == buf[..v]
            && t[h..] == Utf8.Lossy(buf[h..] + later)
            && Utf8.Valid(buf[..h])
  {
    hide Hold, Utf8.Lossy, Utf8.ValidUpTo, Utf8.Valid;
    var v := Utf8.ValidUpTo(buf);
    Utf8.ValidPrefix(buf);
    DecodeAfter(buf, later, v);
    var x := buf[..v];
    var h := Hold(x);
    HoldsAtLt(x);
    Utf8.ValidSplit(x, h);
    assert x[..h] == buf[..h];
    DecodeAfter(buf, later, h);
  }

  lemma DecodeAfter(buf: bytes, later: bytes, c: nat)
    requires c <= |buf| && Utf8.Valid(buf[..c])
    ensures var t := Utf8.Lossy(buf + later);
            c <= |t| && t[..c] == buf[..c] && t[c..] == Utf8.Lossy(buf[c..] + later)
  {
    hide Utf8.Lossy, Utf8.Valid;
    assert buf + later == buf[..c] + (buf[c..] + later);
    Utf8.LossyAfterValid(buf[..c], buf[c..] + later);
  }

  // ---- The condition is exact -----------------------------------------------------------------

  /** One frame of a stream, taken off the front. */
  lemma StreamOutStep(orig: map<bytes, bytes>, carry: bytes, data: bytes, later: seq<bytes>, h: nat)
    requires orig != map[]
    requires var buf := carry + data; Utf8.Valid(buf) && Hold(buf) == h
    ensures var buf := carry + data;
            StreamOut(orig, carry, [data] + later)
            == Unmasked(orig, buf[..h]) + StreamOut(orig, buf[h..], later)
  {
    hide Unmasked, Hold;
    var buf := carry + data;
    assert buf[..Utf8.ValidUpTo(buf)] == buf;
    assert ([data] + later)[1..] == later;
  }

  lemma LastFrame(g: bytes)
    ensures Flatten([g]) == g
  {
    var none: seq<bytes> := [];
    assert [g][1..] == none && Flatten(none) == [];
  }

  lemma CancelPrefix(a: bytes, x: bytes, y: bytes)
    requires x != y
    ensures a + x != a + y
  {
    assert (a + x)[|a|..] == x && (a + y)[|a|..] == y;
  }

  lemma CancelSuffix(x: bytes, y: bytes, b: bytes)
    requires x != y
    ensures x + b != y + b
  {
    if |x| == |y| {
      assert (x + b)[..|x|] == x && (y + b)[..|y|] == y;
    }
  }

  /** A frame that ends with a whole token leaves nothing behind. */
  lemma WholeTokenFrame(orig: map<bytes, bytes>, t: bytes, i: nat, k: nat, later: seq<bytes>)
    requires orig != map[]
    requires Find(t, MASK_PREFIX) == i <= |t| && Close(t, i) == k && Utf8.Valid(t[..k + 1])
    requires StreamOut(orig, [], later) != Unmasked(orig, t[k + 1..])
    ensures StreamOut(orig, [], [t[..k + 1]] + later) != Unmasked(orig, t)
  {
    hide Unmasked, Safe, Find, FindByte, Hold, StreamOut, Utf8.Valid, LiveAt, At, Lookup;
    var f := t[..k + 1];
    var head := t[..i] + Lookup(orig, t[i..k + 1]);
    ScanToken(orig, t, i, k);
    UnmaskedWholeToken(orig, t, i, k);
    HoldAfterClose(f, k + 1);
    assert f[k + 1..] == [];
    HoldEmpty();
    assert [] + f == f;
    StreamOutStep(orig, [], f, later, k + 1);
    assert f[..k + 1] == f;
    CancelPrefix(head, StreamOut(orig, [], later), Unmasked(orig, t[k + 1..]));
  }

  lemma HoldEmpty()
    ensures Hold([]) == 0
  {}

  lemma UnmaskedWholeToken(orig: map<bytes, bytes>, t: bytes, i: nat, k: nat)
    requires Find(t, MASK_PREFIX) == i <= |t| && Close(t, i) == k
    ensures Unmasked(orig, t[..k + 1]) == t[..i] + Lookup(orig, t[i..k + 1])
  {
    hide Unmasked, Safe, Find, FindByte, Lookup;
    OneLtAndAfter(t, i);
    FindBeforeCut(t, MASK_PREFIX, k + 1);
    UnmaskedBeforeCut(orig, t, k + 1, i, k);
    assert t[k + 1..][..0] == [];
    NoToken(orig, []);
  }

  /** The `>` that closes a prefix comes after it. */
  lemma OneLtAndAfter(t: bytes, i: nat)
    requires At(t, MASK_PREFIX, i)
    ensures Close(t, i) >= 0 ==> Close(t, i) >= i + |MASK_PREFIX|
  {
    hide FindByte;
    OneLt(t, i);
  }

  lemma ShapedOpens(key: bytes)
    ensures Shaped(key) ==> key[0] == LT
  {
    if Shaped(key) {
      assert key[0] == key[..|MASK_PREFIX|][0];
    }
  }

  /** A live placeholder opens with a prefix, holds no other `<`, and is the only placeholder ending there. */
  lemma LiveToken(orig: map<bytes, bytes>, t: bytes, i: nat, k: nat, j: nat)
    requires Keys(orig) && i < j <= k < |t| && LiveAt(orig, t, j, k)
    ensures At(t, MASK_PREFIX, j) && j + |MASK_PREFIX| <= k
    ensures t[i..k + 1] !in orig
    ensures forall n :: j < n <= k ==> !LiveAt(orig, t, n, k)
  {
    var key := t[j..k + 1];
    assert Shaped(key);
    assert t[j..j + |MASK_PREFIX|] == key[..|MASK_PREFIX|];
    assert key[0] == MASK_PREFIX[0] == LT;
    assert t[i..k + 1][j - i] == LT;
    assert !Shaped(t[i..k + 1]);
    forall n | j < n <= k ensures !LiveAt(orig, t, n, k) {
      assert t[n..k + 1][0] == key[n - j] != LT;
      ShapedOpens(t[n..k + 1]);
    }
  }

  /** Everything up to the inner prefix's end is held back from that prefix on. */
  lemma HoldAtInnerPrefix(t: bytes, j: nat)
    requires At(t, MASK_PREFIX, j)
    ensures Hold(t[..j + |MASK_PREFIX|]) == j
  {
    hide RFind, FindByte, PartialTail;
    var f := t[..j + |MASK_PREFIX|];
    OneLt(t, j);
    assert f[j..j + |MASK_PREFIX|] == t[j..j + |MASK_PREFIX|];
    assert At(f, MASK_PREFIX, j);
  }

  lemma InnerPrefixFrame(orig: map<bytes, bytes>, t: bytes, i: nat, k: nat, j: nat)
    requires Keys(orig) && orig != map[] && Utf8.Valid(t)
    requires Find(t, MASK_PREFIX) == i <= |t| && Close(t, i) == k
    requires i < j <= k && LiveAt(orig, t, j, k) && Safe(orig, t[k + 1..])
    ensures j + |MASK_PREFIX| <= |t|
    ensures StreamOut(orig, [], [t[..j + |MASK_PREFIX|], t[j + |MASK_PREFIX|..]]) != Unmasked(orig, t)
  {
    LiveToken(orig, t, i, k, j);
    assert Live(orig, t[j..k + 1]);
    hide *;
    var r := Unmasked(orig, t[k + 1..]);
    var key := t[j..k + 1];
    UnmaskedOpenPart(orig, t, i, k, j);
    TailFromInnerPrefix(orig, t, k, j);
    TwoFrames(orig, t, j);
    UnknownToken(orig, t, i, k);
    Glue(t, j, k, r);
    CancelSuffix(orig[key], key, r);
    CancelPrefix(t[..j], orig[key] + r, key + r);
  }

  /** Cut just after an inner prefix, a reply streams to what its two parts unmask to. */
  lemma TwoFrames(orig: map<bytes, bytes>, t: bytes, j: nat)
    requires Keys(orig) && orig != map[] && Utf8.Valid(t)
    requires At(t, MASK_PREFIX, j) && Safe(orig, t[j..])
    ensures StreamOut(orig, [], [t[..j + |MASK_PREFIX|], t[j + |MASK_PREFIX|..]])
            == Unmasked(orig, t[..j]) + Unmasked(orig, t[j..])
  {
    hide Unmasked, Safe, StreamOut, Utf8.Valid, Hold;
    var c := j + |MASK_PREFIX|;
    var f, g := t[..c], t[c..];
    OneLt(t, j);
    assert t[c - 1] == t[j..c][|MASK_PREFIX| - 1] == DASH;
    Utf8.ValidAfterAscii(t, c - 1);
    HoldAtInnerPrefix(t, j);
    assert [] + f == f && [f] + [g] == [f, g];
    StreamOutStep(orig, [], f, [g], j);
    assert f[..j] == t[..j];
    Utf8.ValidSplit(t, j);
    assert f[j..] + g == t[j..];
    LastFrame(g);
    Utf8.LossyOfValid(t[j..]);
    StreamRefinesBuffer(orig, f[j..], [g]);
  }

  lemma UnmaskedOpenPart(orig: map<bytes, bytes>, t: bytes, i: nat, k: nat, j: nat)
    requires Find(t, MASK_PREFIX) == i <= |t| && Close(t, i) == k && i < j <= k
    ensures Unmasked(orig, t[..j]) == t[..j]
  {
    hide Unmasked, Safe, Find, FindByte;
    FindBeforeCut(t, MASK_PREFIX, j);
    FindByteBeforeCut(t, GT, i, j);
    ScanPlain(orig, t[..j]);
  }

  lemma TailFromInnerPrefix(orig: map<bytes, bytes>, t: bytes, k: nat, j: nat)
    requires At(t, MASK_PREFIX, j) && FindByte(t, GT, j) == k
    requires LiveAt(orig, t, j, k) && Safe(orig, t[k + 1..])
    requires forall n :: j < n <= k ==> !LiveAt(orig, t, n, k)
    ensures Safe(orig, t[j..])
    ensures Unmasked(orig, t[j..]) == orig[t[j..k + 1]] + Unmasked(orig, t[k + 1..])
  {
    hide Unmasked, Safe, Find, FindByte;
    var y := t[j..];
    DropAt(t, MASK_PREFIX, j);
    assert At(y, MASK_PREFIX, 0);
    assert Find(y, MASK_PREFIX) == 0;
    FindByteAfterDrop(t, GT, j, 0);
    var e := k - j;
    ScanToken(orig, y, 0, e);
    assert y[0..e + 1] == t[j..k + 1];
    assert y[e + 1..] == t[k + 1..];
    forall n | 0 < n <= e ensures !LiveAt(orig, y, n, e) {
      assert !LiveAt(orig, t, n + j, k);
      assert y[n..e + 1] == t[n + j..k + 1];
    }
  }

  /**
   An unsafe reply has a cutting that gives it away: end a frame just after the inner prefix, so that
   the outer one has already been emitted when the placeholder completes.
   */
  lemma {:induction false} UnsafeIsObservable(orig: map<bytes, bytes>, t: bytes) returns (frames: seq<bytes>)
    requires Keys(orig) && orig != map[] && Utf8.Valid(t) && !Safe(orig, t)
    ensures Flatten(frames) == t
    ensures StreamOut(orig, [], frames) != Unmasked(orig, t)
    decreases |t|
  {
    hide *;
    var i, k := UnsafeToken(orig, t);
    var r := t[k + 1..];
    Utf8.ValidAfterAscii(t, k);
    if !Safe(orig, r) {
      var later := UnsafeIsObservable(orig, r);
      frames := [t[..k + 1]] + later;
      FlattenCons(t[..k + 1], later);
      assert t[..k + 1] + r == t;
      WholeTokenFrame(orig, t, i, k, later);
    } else {
      var j :| i < j <= k && LiveAt(orig, t, j, k);
      InnerPrefixFrame(orig, t, i, k, j);
      var c := j + |MASK_PREFIX|;
      frames := [t[..c]] + [t[c..]];
      assert frames == [t[..c], t[c..]];
      LastFrame(t[c..]);
      FlattenCons(t[..c], [t[c..]]);
      assert t[..c] + t[c..] == t;
    }
  }

  /** Unsafe text has a first token, with a live placeholder at its end or unsafe text after it. */
  lemma UnsafeToken(orig: map<bytes, bytes>, t: bytes) returns (i: nat, k: nat)
    requires !Safe(orig, t)
    ensures i <= k < |t| && t[k] < 0x80
    ensures Find(t, MASK_PREFIX) == i && Close(t, i) == k
    ensures !Safe(orig, t[k + 1..]) || exists j :: i < j <= k && LiveAt(orig, t, j, k)
  {
    hide Unmasked, Find, FindByte, LiveAt;
    i := Find(t, MASK_PREFIX);
    k := Close(t, i);
  }

  /** Every cutting of `reply` streams to what buffering it gives. */
  ghost predicate CutsAgree(orig: map<bytes, bytes>, reply: bytes) {
    forall frames: seq<bytes> :: Flatten(frames) == reply ==> StreamOut(orig, [], frames) == Unmasked(orig, Utf8.Lossy(reply))
  }

  /**
   The exact law: a UTF-8 reply streams to the buffered result under every cutting if and only if it
   is `Safe`. The map is any that `placeholder_for` can build.
   */
  lemma StreamingExact(m: Masks, reply: bytes)
    requires Inverse(m) && m.nextId <= USIZE_SPAN && m.toOriginal != map[] && Utf8.Valid(reply)
    ensures CutsAgree(m.toOriginal, reply) <==> Safe(m.toOriginal, reply)
  {
    hide Unmasked, Safe, StreamOut, Utf8.Lossy, Utf8.Valid;
    KeysShaped(m);
    Utf8.LossyOfValid(reply);
    if Safe(m.toOriginal, reply) {
      SafeMeansCutsAgree(m, reply);
    } else {
      var frames := UnsafeIsObservable(m.toOriginal, reply);
      assert !CutsAgree(m.toOriginal, reply);
    }
  }

  /** For arbitrary bytes, valid UTF-8 or not, safety of the decoded reply is enough. */
  lemma SafeMeansCutsAgree(m: Masks, reply: bytes)
    requires Inverse(m) && m.nextId <= USIZE_SPAN && m.toOriginal != map[] && Safe(m.toOriginal, Utf8.Lossy(reply))
    ensures CutsAgree(m.toOriginal, reply)
  {
    hide Unmasked, Safe, StreamOut, Utf8.Lossy;
    KeysShaped(m);
    forall frames: seq<bytes> | Flatten(frames) == reply
      ensures StreamOut(m.toOriginal, [], frames) == Unmasked(m.toOriginal, Utf8.Lossy(reply))
    {
      assert [] + Flatten(frames) == reply;
      StreamRefinesBuffer(m.toOriginal, [], frames);
    }
  }

  /** An empty map passes the bytes through, whatever they are. */
  lemma {:induction false} EmptyMapStreams(frames: seq<bytes>)
    ensures StreamCarry(map[], [], frames) == []
    ensures frames != [] ==> StreamOut(map[], [], frames) == Flatten(frames)
  {
    if frames != [] {
      EmptyMapStreams(frames[1..]);
      assert [] + frames[0] == frames[0];
      if frames[1..] == [] {
        UnmaskedByEmptyMap([]);
        assert Flatten(frames[1..]) == [];
      }
    }
  }

  /** No prefix opens before the `>` that closes an earlier one. */
  ghost predicate NoNesting(t: bytes) {
    forall i: nat, j: nat :: i < j && At(t, MASK_PREFIX, i) && At(t, MASK_PREFIX, j) ==> Close(t, i) <= j
  }

  /** Text without nested prefixes is safe under every map. */
  lemma {:induction false} NoNestingIsSafe(orig: map<bytes, bytes>, t: bytes)
    requires Keys(orig) && NoNesting(t)
    ensures Safe(orig, t)
    decreases |t|
  {
    hide Safe, Find, FindByte;
    var i := Find(t, MASK_PREFIX);
    if i < 0 || Close(t, i) < 0 {
      ScanPlain(orig, t);
    } else {
      var k := Close(t, i);
      ScanToken(orig, t, i, k);
      forall j | i < j <= k ensures !LiveAt(orig, t, j, k) {
        if LiveAt(orig, t, j, k) {
          LiveToken(orig, t, i, k, j);
          assert false;
        }
      }
      NoNestingAfterDrop(t, k + 1);
      NoNestingIsSafe(orig, t[k + 1..]);
    }
  }

  lemma NoNestingAfterDrop(t: bytes, c: nat)
    requires c <= |t| && NoNesting(t)
    ensures NoNesting(t[c..])
  {
    hide FindByte;
    var y := t[c..];
    DropAt(t, MASK_PREFIX, c);
    forall i: nat, j: nat | i < j && At(y, MASK_PREFIX, i) && At(y, MASK_PREFIX, j) ensures i <= |y| && Close(y, i) <= j {
      assert At(t, MASK_PREFIX, i + c) && At(t, MASK_PREFIX, j + c);
      FindByteAfterDrop(t, GT, c, i);
    }
  }

  // ---- How much is held back ------------------------------------------------------------------

  lemma DecodeLength(buf: bytes, later: bytes)
    ensures var h := Hold(buf[..Utf8.ValidUpTo(buf)]);
            Utf8.ValidUpTo(buf + later) == h + Utf8.ValidUpTo(buf[h..] + later)
  {
    hide Hold, Utf8.ValidUpTo, Utf8.Lossy, Utf8.Valid;
    var h := Hold(buf[..Utf8.ValidUpTo(buf)]);
    DecodeFromHold(buf, later);
    Utf8.ValidConcat(buf[..h], buf[h..] + later);
    assert buf[..h] + (buf[h..] + later) == buf + later;
  }

  lemma HoldBounded(x: bytes)
    ensures |x| - Hold(x) <= MAX_PLACEHOLDER_BYTES
  {
    hide PartialTail, RFind;
  }
}
