/**
 The streaming unmasker of `src/dlp.rs` on replies that need not be UTF-8. Everything from the first
 ill-formed byte on is carried to the flush, so the frames decide only how the valid part before it is
 unmasked, and the flush starts over from the point held back from.
 */
module StreamingBytes {
  import opened Bytes
  import opened Masking
  import opened Streaming
  import Utf8

  // ---- What is held back ------------------------------------------------------------------------

  /** Nothing closes after the point held back from. */
  lemma NothingCloses(z: bytes)
    ensures forall n :: Hold(z) <= n < |z| ==> z[n] != GT
  {
    HoldsAtLt(z);
    if OpenTail(z) >= 0 {
      CloseIsFindByte(z, OpenTail(z));
    }
  }

  /** Dropping what comes before it does not move that point. */
  lemma HoldAfterDrop(z: bytes, c: nat)
    requires c <= Hold(z)
    ensures Hold(z[c..]) == Hold(z) - c
  {
    OpenTailAfterDrop(z, c);
    hide OpenTail, Partial;
    if OpenTail(z) < 0 {
      PartialTailAfterDrop(z, c);
    }
  }

  lemma OpenTailAfterDrop(z: bytes, c: nat)
    requires c <= |z| && (OpenTail(z) >= 0 ==> c <= OpenTail(z))
    ensures var p, q := OpenTail(z), OpenTail(z[c..]);
            if p < 0 then q < 0 else q == p - c
  {
    hide RFind, FindByte, At;
    var y := z[c..];
    DropAt(z, MASK_PREFIX, c);
    var p := RFind(z, MASK_PREFIX, |z|);
    var q := RFind(y, MASK_PREFIX, |y|);
    if p >= c {
      assert At(y, MASK_PREFIX, p - c);
      assert At(z, MASK_PREFIX, q + c);
      FindByteAfterDrop(z, GT, c, q);
    }
  }

  lemma PartialTailAfterDrop(z: bytes, c: nat)
    requires c <= PartialTail(z, |MASK_PREFIX| - 1)
    ensures PartialTail(z[c..], |MASK_PREFIX| - 1) == PartialTail(z, |MASK_PREFIX| - 1) - c
  {
    hide PartialTail, Partial;
    var y := z[c..];
    var h, g := PartialTail(z, |MASK_PREFIX| - 1), PartialTail(y, |MASK_PREFIX| - 1);
    PartialAfterDrop(z, c, |z| - h);
    PartialAfterDrop(z, c, |y| - g);
  }

  /** The point held back from only moves forward. */
  lemma HoldGrows(z: bytes, v: nat)
    requires v <= |z|
    ensures Hold(z[..v]) <= Hold(z)
  {
    var x, p := z[..v], Hold(z);
    HoldsAtLt(z);
    if p < v {
      if OpenTail(z) >= 0 {
        OpenEarlier(z, v, p);
      } else {
        PartialEarlier(z, v, p);
      }
    }
  }

  lemma AtTake(z: bytes, v: nat, n: int)
    requires v <= |z|
    ensures At(z[..v], MASK_PREFIX, n) <==> At(z, MASK_PREFIX, n) && n + |MASK_PREFIX| <= v
  {
    if n + |MASK_PREFIX| <= v {
      assert z[..v] + z[v..] == z;
      AtPrefix(z[..v], z[v..], MASK_PREFIX, n);
    }
  }

  lemma OpenEarlier(z: bytes, v: nat, p: nat)
    requires p < v <= |z| && OpenTail(z) == p
    ensures Hold(z[..v]) <= p
  {
    hide RFind, PartialTail, FindByte, At, Partial;
    var x := z[..v];
    var r := RFind(x, MASK_PREFIX, |x|);
    assert r <= p by {
      if r >= 0 {
        AtTake(z, v, r);
      }
    }
    AtTake(z, v, p);
    if p + |MASK_PREFIX| <= v {
      AtBound(x, p);
      assert r == p;
      CloseIsFindByte(x, p);
      CloseIsFindByte(z, p);
      assert Close(x, p) < 0;
    } else {
      OpensPartial(z, v, p);
    }
  }

  lemma AtBound(x: bytes, p: int)
    requires At(x, MASK_PREFIX, p)
    ensures 0 <= p < |x|
  {
  }

  lemma OpensPartial(z: bytes, v: nat, p: nat)
    requires p < v <= |z| && v < p + |MASK_PREFIX| && At(z, MASK_PREFIX, p)
    ensures Partial(z[..v], v - p)
  {
    assert z[..v][p..] == z[p..p + |MASK_PREFIX|][..v - p];
  }

  lemma PartialEarlier(z: bytes, v: nat, p: nat)
    requires p < v <= |z| && Partial(z, |z| - p)
    ensures Hold(z[..v]) <= p
  {
    var x := z[..v];
    hide RFind, PartialTail, FindByte;
    assert x[p..] == z[p..][..v - p];
    assert Partial(x, v - p);
    OnlyFirstLt(z, p);
    hide Partial, At;
    var r := RFind(x, MASK_PREFIX, |x|);
    if r >= 0 {
      OneLt(x, r);
      assert x[r] == z[r];
    }
  }

  lemma OnlyFirstLt(z: bytes, p: nat)
    requires p < |z| && Partial(z, |z| - p)
    ensures forall n :: p < n < |z| ==> z[n] != LT
  {
    assert forall n :: p < n < |z| ==> z[n] == z[p..][n - p] == MASK_PREFIX[n - p] && MASK_PREFIX[n - p] != LT;
  }

  /** The held-back end of a text is passed through as it is. */
  lemma {:induction false} TailVerbatim(orig: map<bytes, bytes>, z: bytes)
    ensures Unmasked(orig, z) == Unmasked(orig, z[..Hold(z)]) + z[Hold(z)..]
    decreases |z|
  {
    NothingCloses(z);
    hide Unmasked, Find, FindByte, Hold, Safe, Lookup;
    var h := Hold(z);
    var i := Find(z, MASK_PREFIX);
    FindBeforeCut(z, MASK_PREFIX, h);
    assert z[..h] + z[h..] == z;
    if i < 0 || Close(z, i) < 0 {
      UnmaskedPlain(orig, z);
      if i >= 0 && i + |MASK_PREFIX| <= h {
        FindByteBeforeCut(z, GT, i, h);
      }
      UnmaskedPlain(orig, z[..h]);
    } else {
      var k := Close(z, i);
      assert k < h;
      OneLtAndAfter(z, i);
      HoldAfterClose(z, k + 1);
      TailVerbatim(orig, z[k + 1..]);
      UnmaskedToken(orig, z, i, k);
      UnmaskedBeforeCut(orig, z, h, i, k);
      assert z[k + 1..][h - (k + 1)..] == z[h..];
      Regroup(z[..i], Lookup(orig, z[i..k + 1]), Unmasked(orig, z[k + 1..][..h - k - 1]), z[h..]);
    }
  }

  // ---- What every cutting of a reply gives ------------------------------------------------------

  /** The part of a reply before its first ill-formed byte. */
  function ValidPart(reply: bytes): bytes {
    reply[..Utf8.ValidUpTo(reply)]
  }

  /** Where the flush starts over. */
  function FlushFrom(reply: bytes): (h: nat)
    ensures h <= |reply|
  {
    Hold(ValidPart(reply))
  }

  /** What the frames put out and the flush adds, when the valid part is safe. */
  function Parts(orig: map<bytes, bytes>, reply: bytes): bytes {
    Unmasked(orig, reply[..FlushFrom(reply)]) + Unmasked(orig, Utf8.Lossy(reply[FlushFrom(reply)..]))
  }

  /** The parts of a reply and of what is left of it after the frame that `buf` completes. */
  lemma FrameParts(orig: map<bytes, bytes>, buf: bytes, later: bytes)
    requires Keys(orig) && Safe(orig, ValidPart(buf + later))
    ensures var h := FlushFrom(buf);
            && Safe(orig, ValidPart(buf[h..] + later))
            && Parts(orig, buf + later) == Unmasked(orig, buf[..h]) + Parts(orig, buf[h..] + later)
            && FlushFrom(buf[h..]) == 0
  {
    hide *;
    var h, v := FlushFrom(buf), Utf8.ValidUpTo(buf);
    var whole, rest := buf + later, buf[h..] + later;
    var z, c := ValidPart(whole), FlushFrom(whole);
    FrameGeometry(buf, later);
    FrameSlices(buf, later, z, h, c);
    SplitBeforeHold(orig, z, h, v);
    PartsOf(orig, whole, c);
    PartsOf(orig, rest, c - h);
    Associate(Unmasked(orig, buf[..h]), Unmasked(orig, rest[..c - h]), Unmasked(orig, Utf8.Lossy(whole[c..])));
  }

  lemma PartsOf(orig: map<bytes, bytes>, reply: bytes, c: nat)
    requires c == FlushFrom(reply)
    ensures c <= |reply| && Parts(orig, reply) == Unmasked(orig, reply[..c]) + Unmasked(orig, Utf8.Lossy(reply[c..]))
  {
    hide Unmasked, Utf8.Lossy, FlushFrom;
  }

  lemma FrameSlices(buf: bytes, later: bytes, z: bytes, h: nat, c: nat)
    requires h <= |buf| && h <= c <= |z| <= |buf + later| && z == (buf + later)[..|z|]
    ensures z[..h] == buf[..h] && z[..c] == (buf + later)[..c]
    ensures z[h..][..c - h] == (buf[h..] + later)[..c - h] && (buf + later)[c..] == (buf[h..] + later)[c - h..]
  {
    var whole, left := buf + later, buf[h..] + later;
    assert left == whole[h..];
    assert z[..h] == whole[..h] == buf[..h];
    assert z[h..][..c - h] == whole[h..c] && left[..c - h] == whole[h..c];
    DropDrop(whole, h, c);
  }

  /** A safe text up to the point held back from, cut where an earlier part of it was held back. */
  lemma SplitBeforeHold(orig: map<bytes, bytes>, z: bytes, h: nat, v: nat)
    requires Keys(orig) && Safe(orig, z) && v <= |z| && Hold(z[..v]) == h <= Hold(z)
    requires Hold(z[h..]) == Hold(z) - h
    ensures Safe(orig, z[h..])
    ensures Unmasked(orig, z[..Hold(z)]) == Unmasked(orig, z[..h]) + Unmasked(orig, z[h..][..Hold(z) - h])
  {
    hide Hold, Unmasked, Safe;
    var c := Hold(z);
    SplitAtHold(orig, z, v);
    TailVerbatim(orig, z);
    TailVerbatim(orig, z[h..]);
    assert z[h..][c - h..] == z[c..];
    CutInTwo(Unmasked(orig, z[..c]), Unmasked(orig, z[..h]), Unmasked(orig, z[h..][..c - h]), z[c..]);
  }

  lemma CutInTwo(a: bytes, b: bytes, c: bytes, t: bytes)
    requires a + t == b + (c + t)
    ensures a == b + c
  {
    assert b + (c + t) == (b + c) + t;
    if a != b + c {
      CancelSuffix(a, b + c, t);
    }
  }

  /** Where the pieces of a frame lie. */
  lemma FrameGeometry(buf: bytes, later: bytes)
    ensures var h, v := FlushFrom(buf), Utf8.ValidUpTo(buf);
            var whole, rest := buf + later, buf[h..] + later;
            var z := ValidPart(whole);
            && h <= v <= |z| <= |whole| && z[..v] == buf[..v] && Hold(z[..v]) == h && z == whole[..|z|]
            && ValidPart(rest) == z[h..] && h <= FlushFrom(whole) == Hold(z) && FlushFrom(rest) == Hold(z[h..]) == Hold(z) - h
            && FlushFrom(buf[h..]) == 0
  {
    var h, v := FlushFrom(buf), Utf8.ValidUpTo(buf);
    var whole := buf + later;
    var z := ValidPart(whole);
    DecodeLength(buf, later);
    DecodeLength(buf, []);
    ValidUpToGrows(buf, later);
    hide Hold, Utf8.ValidUpTo;
    assert z[..v] == buf[..v];
    HoldGrows(z, v);
    HoldAfterDrop(z, h);
    HoldAfterDrop(buf[..v], h);
    assert buf[h..] + [] == buf[h..] && buf + [] == buf;
    assert ValidPart(buf[h..]) == buf[..v][h..];
    assert ValidPart(buf[h..] + later) == z[h..];
  }

  lemma ValidUpToGrows(x: bytes, y: bytes)
    ensures Utf8.ValidUpTo(x) <= Utf8.ValidUpTo(x + y)
  {
    hide Utf8.ValidUpTo, Utf8.Valid;
    var v := Utf8.ValidUpTo(x);
    Utf8.ValidPrefix(x);
    Utf8.ValidConcat(x[..v], x[v..] + y);
    assert x[..v] + (x[v..] + y) == x + y;
  }

  /** Every cutting of a reply whose valid part is safe gives the same parts. */
  lemma {:induction false} CuttingGivesParts(orig: map<bytes, bytes>, carry: bytes, frames: seq<bytes>)
    requires Keys(orig) && orig != map[] && FlushFrom(carry) == 0
    requires Safe(orig, ValidPart(carry + Flatten(frames)))
    ensures StreamOut(orig, carry, frames) == Parts(orig, carry + Flatten(frames))
    decreases |frames|
  {
    hide Unmasked, Safe, Hold, Utf8.Lossy, Utf8.ValidUpTo;
    if frames == [] {
      assert carry + Flatten(frames) == carry;
      assert carry[..0] == [] && carry[0..] == carry;
      NoToken(orig, []);
    } else {
      var buf, later := carry + frames[0], Flatten(frames[1..]);
      assert carry + Flatten(frames) == buf + later;
      FrameParts(orig, buf, later);
      var h := FlushFrom(buf);
      assert StreamStep(orig, carry, frames[0]) == (Unmasked(orig, buf[..h]), buf[h..]);
      CuttingGivesParts(orig, buf[h..], frames[1..]);
    }
  }

  // ---- When the flush agrees --------------------------------------------------------------------

  /** The scan of this text ends inside a token it has not seen the end of. */
  predicate EndsOpen(x: bytes)
    decreases |x|
  {
    var i := Find(x, MASK_PREFIX);
    i >= 0 && (Close(x, i) < 0 || EndsOpen(x[Close(x, i) + 1..]))
  }

  /** The first closing bracket of this text closes a live placeholder that is its first token. */
  predicate LiveFirst(orig: map<bytes, bytes>, y: bytes) {
    var i, e := Find(y, MASK_PREFIX), FindByte(y, GT);
    0 <= i <= e && LiveAt(orig, y, i, e)
  }

  /** Cut where nothing is cut apart: the two pieces unmask to the whole, unless an open token hides a live placeholder. */
  lemma {:induction false} CutExact(orig: map<bytes, bytes>, t: bytes, c: nat)
    requires c <= |t| && (forall n :: At(t, MASK_PREFIX, n) ==> c <= n || n + |MASK_PREFIX| <= c)
    requires forall i, k :: CutToken(t, c, i, k) ==> t[i..k + 1] !in orig
    ensures Unmasked(orig, t) == Unmasked(orig, t[..c]) + Unmasked(orig, t[c..])
            <==> !(EndsOpen(t[..c]) && LiveFirst(orig, t[c..]))
    decreases |t|
  {
    hide Unmasked, Safe, Find, FindByte, At, LiveFirst, EndsOpen, Lookup;
    var x, y := t[..c], t[c..];
    var i := Find(t, MASK_PREFIX);
    FindBeforeCut(t, MASK_PREFIX, c);
    EndsOpenStep(x);
    if i < 0 || c <= i {
      PlainPrefix(orig, t, c);
      ScanPlain(orig, x);
    } else {
      FindByteBeforeCut(t, GT, i, c);
      CloseIsFindByte(t, i);
      CloseIsFindByte(x, i);
      var k := Close(t, i);
      if 0 <= k < c {
        CutAfterToken(orig, t, c, i, k);
      } else {
        ScanPlain(orig, x);
        CutOpenToken(orig, t, c, i);
      }
    }
  }

  /** A token that opens before `c` and closes at or after it. */
  predicate CutToken(t: bytes, c: nat, i: int, k: int) {
    0 <= i < c <= k < |t| && At(t, MASK_PREFIX, i) && Close(t, i) == k
  }

  lemma EndsOpenStep(x: bytes)
    ensures var i := Find(x, MASK_PREFIX);
            EndsOpen(x) <==> i >= 0 && (Close(x, i) < 0 || EndsOpen(x[Close(x, i) + 1..]))
  {
  }

  lemma {:induction false} CutAfterToken(orig: map<bytes, bytes>, t: bytes, c: nat, i: nat, k: nat)
    requires c <= |t| && (forall n :: At(t, MASK_PREFIX, n) ==> c <= n || n + |MASK_PREFIX| <= c)
    requires forall i, k :: CutToken(t, c, i, k) ==> t[i..k + 1] !in orig
    requires Find(t, MASK_PREFIX) == i && Find(t[..c], MASK_PREFIX) == i && Close(t, i) == Close(t[..c], i) == k && k < c
    ensures Unmasked(orig, t) == Unmasked(orig, t[..c]) + Unmasked(orig, t[c..])
            <==> !(EndsOpen(t[..c]) && LiveFirst(orig, t[c..]))
    decreases |t|, 0
  {
    hide Unmasked, Safe, Find, FindByte, LiveFirst, EndsOpen, Lookup, At, CutToken;
    var r, d := t[k + 1..], c - (k + 1);
    CutsAfterDrop(orig, t, c, k + 1, r, d);
    CutExact(orig, r, d);
    EndsOpenStep(t[..c]);
    assert t[..c][k + 1..] == r[..d] && r[d..] == t[c..];
    UnmaskedToken(orig, t, i, k);
    UnmaskedBeforeCut(orig, t, c, i, k);
    var head := t[..i] + Lookup(orig, t[i..k + 1]);
    Associate(head, Unmasked(orig, r[..d]), Unmasked(orig, t[c..]));
    if Unmasked(orig, r) != Unmasked(orig, r[..d]) + Unmasked(orig, r[d..]) {
      CancelPrefix(head, Unmasked(orig, r), Unmasked(orig, r[..d]) + Unmasked(orig, r[d..]));
    }
  }

  lemma CutsAfterDrop(orig: map<bytes, bytes>, t: bytes, c: nat, b: nat, r: bytes, d: nat)
    requires b <= c <= |t| && (forall n :: At(t, MASK_PREFIX, n) ==> c <= n || n + |MASK_PREFIX| <= c)
    requires forall i, k :: CutToken(t, c, i, k) ==> t[i..k + 1] !in orig
    requires r == t[b..] && d == c - b
    ensures forall n :: At(r, MASK_PREFIX, n) ==> d <= n || n + |MASK_PREFIX| <= d
    ensures forall i, k :: CutToken(r, d, i, k) ==> r[i..k + 1] !in orig
  {
    hide FindByte, At;
    DropAt(t, MASK_PREFIX, b);
    forall n | At(r, MASK_PREFIX, n) ensures d <= n || n + |MASK_PREFIX| <= d {
      AtBound(r, n);
      assert At(t, MASK_PREFIX, n + b);
    }
    forall i, k | CutToken(r, d, i, k) ensures r[i..k + 1] !in orig {
      FindByteAfterDrop(t, GT, b, i);
      CloseIsFindByte(t, i + b);
      CloseIsFindByte(r, i);
      assert At(t, MASK_PREFIX, i + b);
      assert CutToken(t, c, i + b, k + b);
      assert t[i + b..k + b + 1] == r[i..k + 1];
    }
  }

  /** The first token is open at the cut: it stays, and the second piece has to leave its end alone. */
  lemma CutOpenToken(orig: map<bytes, bytes>, t: bytes, c: nat, i: nat)
    requires i < c <= |t| && Find(t, MASK_PREFIX) == i && (Close(t, i) < 0 || c <= Close(t, i))
    requires forall i, k :: CutToken(t, c, i, k) ==> t[i..k + 1] !in orig
    requires Unmasked(orig, t[..c]) == t[..c]
    ensures Unmasked(orig, t) == t[..c] + Unmasked(orig, t[c..]) <==> !LiveFirst(orig, t[c..])
  {
    hide Unmasked, Safe, Find, FindByte, At, LiveAt;
    var y, k := t[c..], Close(t, i);
    CloseIsFindByte(t, i);
    assert t[..c] + y == t;
    assert FindByte(t, GT, c) == k;
    FindByteAfterDrop(t, GT, c, 0);
    if k < 0 {
      ScanPlain(orig, t);
      NoToken(orig, y);
    } else {
      var e := k - c;
      assert CutToken(t, c, i, k);
      UnknownToken(orig, t, i, k);
      Glue(t, c, k, Unmasked(orig, t[k + 1..]));
      assert y[e + 1..] == t[k + 1..];
      FirstOfTail(orig, y, e);
      var want := y[..e + 1] + Unmasked(orig, y[e + 1..]);
      if Unmasked(orig, y) != want {
        CancelPrefix(t[..c], Unmasked(orig, y), want);
      }
    }
  }

  /** A text passes through up to its first closing bracket exactly when that closes nothing live. */
  lemma FirstOfTail(orig: map<bytes, bytes>, y: bytes, e: nat)
    requires FindByte(y, GT) == e
    ensures Unmasked(orig, y) == y[..e + 1] + Unmasked(orig, y[e + 1..]) <==> !LiveFirst(orig, y)
  {
    hide Unmasked, Safe, Find, FindByte, At;
    var i := Find(y, MASK_PREFIX);
    if 0 <= i <= e {
      CloseIsFindByte(y, i);
      assert Close(y, i) == e;
      UnmaskedToken(orig, y, i, e);
      var key, rest := y[i..e + 1], Unmasked(orig, y[e + 1..]);
      assert y[..e + 1] == y[..i] + key;
      if LiveAt(orig, y, i, e) {
        CancelSuffix(orig[key], key, rest);
        CancelPrefix(y[..i], orig[key] + rest, key + rest);
        Associate(y[..i], orig[key], rest);
        Associate(y[..i], key, rest);
      }
    } else {
      PlainPrefix(orig, y, e + 1);
    }
  }

  // ---- The exact law ----------------------------------------------------------------------------

  /** The frames leave an open token behind, and the flush finds a live placeholder at its end. */
  predicate FlushReveals(orig: map<bytes, bytes>, reply: bytes) {
    EndsOpen(reply[..FlushFrom(reply)]) && LiveFirst(orig, Utf8.Lossy(reply[FlushFrom(reply)..]))
  }

  lemma PartsExact(orig: map<bytes, bytes>, reply: bytes)
    requires Keys(orig)
    ensures Parts(orig, reply) == Unmasked(orig, Utf8.Lossy(reply)) <==> !FlushReveals(orig, reply)
  {
    hide *;
    var t, h := Utf8.Lossy(reply), FlushFrom(reply);
    DecodedParts(reply);
    CutFits(orig, reply);
    CutExact(orig, t, h);
    PartsAre(orig, reply, t, h);
  }

  lemma PartsAre(orig: map<bytes, bytes>, reply: bytes, t: bytes, h: nat)
    requires t == Utf8.Lossy(reply) && h == FlushFrom(reply) <= |t|
    requires t[..h] == reply[..h] && t[h..] == Utf8.Lossy(reply[h..])
    ensures Parts(orig, reply) == Unmasked(orig, t[..h]) + Unmasked(orig, t[h..])
    ensures FlushReveals(orig, reply) <==> EndsOpen(t[..h]) && LiveFirst(orig, t[h..])
  {
    hide Unmasked, EndsOpen, LiveFirst, Utf8.Lossy, FlushFrom;
  }

  lemma DecodedParts(reply: bytes)
    ensures var t, v, h := Utf8.Lossy(reply), Utf8.ValidUpTo(reply), FlushFrom(reply);
            && h <= v <= |t| && t[..v] == ValidPart(reply) && Hold(t[..v]) == h
            && t[..h] == reply[..h] && t[h..] == Utf8.Lossy(reply[h..])
  {
    hide Utf8.Lossy, Utf8.ValidUpTo, Hold;
    var t, v, h := Utf8.Lossy(reply), Utf8.ValidUpTo(reply), FlushFrom(reply);
    assert reply + [] == reply && reply[h..] + [] == reply[h..];
    DecodeFromHold(reply, []);
    assert t[..v][..h] == t[..h] && reply[..v][..h] == reply[..h];
  }

  /** The flush starts at no place inside a prefix, and a token open there is in no map. */
  lemma CutFits(orig: map<bytes, bytes>, reply: bytes)
    requires Keys(orig)
    ensures var t, h := Utf8.Lossy(reply), FlushFrom(reply);
            && h <= |t|
            && (forall n :: At(t, MASK_PREFIX, n) ==> h <= n || n + |MASK_PREFIX| <= h)
            && (forall i, k :: CutToken(t, h, i, k) ==> t[i..k + 1] !in orig)
  {
    hide Utf8.Lossy, Utf8.ValidUpTo, Hold, FlushFrom, ValidPart, FindByte, At, Keys;
    DecodedParts(reply);
    var t, v, h := Utf8.Lossy(reply), Utf8.ValidUpTo(reply), FlushFrom(reply);
    forall n | At(t, MASK_PREFIX, n) ensures h <= n || n + |MASK_PREFIX| <= h {
      AtBound(t, n);
      HoldNotInsidePrefix(t, v, n);
    }
    forall i, k | CutToken(t, h, i, k) ensures t[i..k + 1] !in orig {
      HoldNotInsidePrefix(t, v, i);
      StraddlingTokenUnknown(orig, t, v, i, k);
    }
  }

  lemma WholeIsValid(x: bytes)
    requires Utf8.Valid(x)
    ensures ValidPart(x) == x && FlushFrom(x) == Hold(x)
  {
    hide Hold;
  }

  /** A frame with the ill-formed rest of the reply changes only what is flushed. */
  lemma {:induction false} ThenTheRest(orig: map<bytes, bytes>, carry: bytes, frames: seq<bytes>, rest: bytes) returns (out: bytes)
    requires orig != map[] && Utf8.Valid(carry + Flatten(frames)) && FlushFrom(carry) == 0
    requires Utf8.ValidUpTo(rest) == 0
    ensures var all := carry + Flatten(frames);
            && StreamOut(orig, carry, frames) == out + Unmasked(orig, all[Hold(all)..])
            && StreamOut(orig, carry, frames + [rest]) == out + Unmasked(orig, Utf8.Lossy(all[Hold(all)..] + rest))
    decreases |frames|
  {
    hide FlushFrom, Hold, Unmasked, Utf8.ValidUpTo, Utf8.Lossy, Utf8.Valid, StreamOut;
    if frames == [] {
      out := [];
      assert carry + Flatten(frames) == carry;
      OnlyTheRest(orig, carry, rest);
      assert frames + [rest] == [rest];
    } else {
      var buf, later := carry + frames[0], Flatten(frames[1..]);
      var h := FlushFrom(buf);
      assert carry + Flatten(frames) == buf + later;
      assert (frames + [rest])[0] == frames[0] && (frames + [rest])[1..] == frames[1..] + [rest];
      hide Flatten;
      HeldLeft(buf, later);
      var more := ThenTheRest(orig, buf[h..], frames[1..], rest);
      StreamOutFrame(orig, carry, frames);
      StreamOutFrame(orig, carry, frames + [rest]);
      var all := buf + later;
      out := Unmasked(orig, buf[..h]) + more;
      Associate(Unmasked(orig, buf[..h]), more, Unmasked(orig, all[Hold(all)..]));
      Associate(Unmasked(orig, buf[..h]), more, Unmasked(orig, Utf8.Lossy(all[Hold(all)..] + rest)));
    }
  }

  /** What a valid reply holds back at the end is the same after a frame has been put out. */
  lemma HeldLeft(buf: bytes, later: bytes)
    requires Utf8.Valid(buf + later)
    ensures var h := FlushFrom(buf);
            var all, left := buf + later, buf[h..] + later;
            && Utf8.Valid(left) && FlushFrom(buf[h..]) == 0 && left[Hold(left)..] == all[Hold(all)..]
  {
    hide *;
    var h := FlushFrom(buf);
    var all, left := buf + later, buf[h..] + later;
    FrameGeometry(buf, later);
    WholeIsValid(all);
    FrontIsValid(buf);
    assert all == buf[..h] + left;
    Utf8.ValidDrop(buf[..h], left);
    assert left == all[h..];
    DropDrop(all, h, Hold(all));
  }

  lemma DropDrop(s: bytes, a: nat, b: nat)
    requires a <= b <= |s|
    ensures s[a..][b - a..] == s[b..]
  {
  }

  lemma FrontIsValid(buf: bytes)
    ensures Utf8.Valid(buf[..FlushFrom(buf)])
  {
    hide Hold, Utf8.ValidUpTo, Utf8.Lossy, Utf8.Valid;
    DecodeFromHold(buf, []);
  }

  lemma StreamOutFrame(orig: map<bytes, bytes>, carry: bytes, frames: seq<bytes>)
    requires orig != map[] && frames != []
    ensures var buf := carry + frames[0];
            StreamOut(orig, carry, frames) == Unmasked(orig, buf[..FlushFrom(buf)]) + StreamOut(orig, buf[FlushFrom(buf)..], frames[1..])
  {
    hide Hold, Unmasked, Utf8.ValidUpTo, Utf8.Lossy;
  }

  lemma OnlyTheRest(orig: map<bytes, bytes>, carry: bytes, rest: bytes)
    requires orig != map[] && Utf8.Valid(carry) && FlushFrom(carry) == 0 && Utf8.ValidUpTo(rest) == 0
    ensures Hold(carry) == 0
    ensures StreamOut(orig, carry, []) == Unmasked(orig, carry[0..])
    ensures StreamOut(orig, carry, [rest]) == Unmasked(orig, Utf8.Lossy(carry[0..] + rest))
  {
    WholeIsValid(carry);
    Utf8.LossyOfValid(carry);
    assert carry[0..] == carry;
    var buf := carry + rest;
    Utf8.ValidConcat(carry, rest);
    assert ValidPart(buf) == carry;
    assert buf[..0] == [] && buf[0..] == buf && [rest][1..] == [];
    NoToken(orig, []);
    hide Hold, Unmasked, Utf8.ValidUpTo, Utf8.Lossy, Utf8.Valid;
    StreamOutFrame(orig, carry, [rest]);
  }

  lemma {:induction false} NothingValidAfter(s: bytes)
    ensures Utf8.ValidUpTo(s[Utf8.ValidUpTo(s)..]) == 0
    decreases |s|
  {
    var n := Utf8.CharLen(s);
    if n == 0 {
      assert s[0..] == s;
    } else {
      NothingValidAfter(s[n..]);
      assert s[Utf8.ValidUpTo(s)..] == s[n..][Utf8.ValidUpTo(s[n..])..];
    }
  }

  /** Sent in one frame, UTF-8 text comes out as the buffered unmask has it, safe or not. */
  lemma OneFrame(orig: map<bytes, bytes>, z: bytes)
    requires orig != map[] && Utf8.Valid(z)
    ensures StreamOut(orig, [], [z]) == Unmasked(orig, z)
  {
    var h := Hold(z);
    WholeIsValid(z);
    DecodeFromHold(z, []);
    NothingCloses(z);
    TailVerbatim(orig, z);
    NoToken(orig, z[h..]);
    hide FlushFrom, Hold, Unmasked, Utf8.ValidUpTo, Utf8.Lossy, Utf8.Valid;
    assert z + [] == z && z[h..] + [] == z[h..] && [] + z == z && [z][1..] == [];
    Utf8.LossyOfValid(z);
    StreamOutFrame(orig, [], [z]);
  }

  /** If the valid part is not safe, two cuttings of the reply differ. */
  lemma UnsafePartShows(orig: map<bytes, bytes>, reply: bytes)
    requires Keys(orig) && orig != map[] && !Safe(orig, ValidPart(reply))
    ensures !CutsAgree(orig, reply)
  {
    hide Utf8.ValidUpTo, Utf8.Valid, Safe, StreamOut, Unmasked, Utf8.Lossy, Flatten;
    var z, rest := ValidPart(reply), reply[Utf8.ValidUpTo(reply)..];
    NothingValidAfter(reply);
    Utf8.ValidPrefix(reply);
    assert z + rest == reply;
    var f, g := TwoCuttingsDiffer(orig, z, rest);
  }

  lemma TwoCuttingsDiffer(orig: map<bytes, bytes>, z: bytes, rest: bytes) returns (f: seq<bytes>, g: seq<bytes>)
    requires Keys(orig) && orig != map[] && Utf8.Valid(z) && !Safe(orig, z) && Utf8.ValidUpTo(rest) == 0
    ensures Flatten(f) == Flatten(g) == z + rest && StreamOut(orig, [], f) != StreamOut(orig, [], g)
  {
    hide *;
    NothingHeld();
    var frames := UnsafeIsObservable(orig, z);
    OneFrame(orig, z);
    LastFrame(z);
    assert [] + z == z;
    var a := ThenTheRest(orig, [], frames, rest);
    var b := ThenTheRest(orig, [], [z], rest);
    assert a != b;
    CancelSuffix(a, b, Unmasked(orig, Utf8.Lossy(z[Hold(z)..] + rest)));
    FlattenLast(frames, rest);
    FlattenLast([z], rest);
    f, g := frames + [rest], [z] + [rest];
  }

  lemma NothingHeld()
    ensures FlushFrom([]) == 0
  {
  }

  lemma {:induction false} FlattenLast(frames: seq<bytes>, rest: bytes)
    ensures Flatten(frames + [rest]) == Flatten(frames) + rest
    decreases |frames|
  {
    if frames == [] {
      assert frames + [rest] == [rest];
      LastFrame(rest);
    } else {
      FlattenLast(frames[1..], rest);
      assert (frames + [rest])[1..] == frames[1..] + [rest];
    }
  }

  /**
   The exact law for arbitrary bytes: every cutting of a reply streams to what buffering it gives if and
   only if the part before its first ill-formed byte is safe and the flush reveals nothing.
   */
  lemma StreamingExactBytes(m: Masks, reply: bytes)
    requires Inverse(m) && m.nextId <= USIZE_SPAN && m.toOriginal != map[]
    ensures CutsAgree(m.toOriginal, reply)
            <==> Safe(m.toOriginal, ValidPart(reply)) && !FlushReveals(m.toOriginal, reply)
  {
    hide Safe, ValidPart, FlushFrom, Hold, Unmasked, Utf8.ValidUpTo, Utf8.Lossy, StreamOut, FlushReveals, Parts, Inverse, Shaped;
    var orig := m.toOriginal;
    KeysShaped(m);
    NothingHeld();
    assert [] + reply == reply;
    if !Safe(orig, ValidPart(reply)) {
      UnsafePartShows(orig, reply);
    } else {
      PartsExact(orig, reply);
      forall frames: seq<bytes> | Flatten(frames) == reply ensures StreamOut(orig, [], frames) == Parts(orig, reply) {
        CuttingGivesParts(orig, [], frames);
      }
      LastFrame(reply);
    }
  }

  // ---- What is carried --------------------------------------------------------------------------

  /** However the bytes received so far were cut, the stream carries them from the point held back from. */
  lemma {:induction false} CarryExact(orig: map<bytes, bytes>, carry: bytes, frames: seq<bytes>)
    requires orig != map[] && FlushFrom(carry) == 0
    ensures var received := carry + Flatten(frames);
            StreamCarry(orig, carry, frames) == received[FlushFrom(received)..]
    decreases |frames|
  {
    hide FlushFrom, Hold, Unmasked, Utf8.ValidUpTo, Utf8.Lossy;
    if frames == [] {
      assert carry + Flatten(frames) == carry && carry[0..] == carry;
    } else {
      var buf, later := carry + frames[0], Flatten(frames[1..]);
      var h, whole := FlushFrom(buf), buf + later;
      assert carry + Flatten(frames) == whole;
      FrameGeometry(buf, later);
      CarryStep(orig, carry, frames);
      CarryExact(orig, buf[h..], frames[1..]);
      assert buf[h..] + later == whole[h..];
      DropDrop(whole, h, FlushFrom(whole));
    }
  }

  lemma CarryStep(orig: map<bytes, bytes>, carry: bytes, frames: seq<bytes>)
    requires orig != map[] && frames != []
    ensures var buf := carry + frames[0];
            StreamCarry(orig, carry, frames) == StreamCarry(orig, buf[FlushFrom(buf)..], frames[1..])
  {
    hide Hold, Unmasked, Utf8.ValidUpTo;
  }

  /** While this reply streams, cut in any way and at any moment, at most `n` bytes are carried. */
  ghost predicate CarriesAtMost(orig: map<bytes, bytes>, reply: bytes, n: nat) {
    forall frames: seq<bytes> :: Flatten(frames) <= reply ==> |StreamCarry(orig, [], frames)| <= n
  }

  /** No beginning of the reply is held back by more than `n` bytes. */
  ghost predicate HoldsAtMost(reply: bytes, n: nat) {
    forall k :: 0 <= k <= |reply| ==> |reply[..k]| - FlushFrom(reply[..k]) <= n
  }

  lemma CarryFollowsHold(orig: map<bytes, bytes>, reply: bytes, n: nat)
    requires orig != map[]
    ensures CarriesAtMost(orig, reply, n) <==> HoldsAtMost(reply, n)
  {
    NothingHeld();
    hide FlushFrom, StreamCarry;
    if CarriesAtMost(orig, reply, n) {
      forall k | 0 <= k <= |reply| ensures |reply[..k]| - FlushFrom(reply[..k]) <= n {
        LastFrame(reply[..k]);
        assert [] + reply[..k] == reply[..k];
        CarryExact(orig, [], [reply[..k]]);
      }
    }
    if HoldsAtMost(reply, n) {
      forall frames: seq<bytes> | Flatten(frames) <= reply ensures |StreamCarry(orig, [], frames)| <= n {
        var received := Flatten(frames);
        assert [] + received == received && reply[..|received|] == received;
        CarryExact(orig, [], frames);
      }
    }
  }

  /** A bound is kept exactly when nothing is masked or no beginning of the reply is held back by more. */
  lemma CarryBoundExact(orig: map<bytes, bytes>, reply: bytes, n: nat)
    ensures CarriesAtMost(orig, reply, n) <==> orig == map[] || HoldsAtMost(reply, n)
  {
    if orig == map[] {
      forall frames: seq<bytes> | Flatten(frames) <= reply ensures |StreamCarry(orig, [], frames)| <= n {
        EmptyMapStreams(frames);
      }
    } else {
      hide *;
      CarryFollowsHold(orig, reply, n);
    }
  }

  /** Once four bytes in a row decode to nothing, no more bytes make them decode. */
  lemma NeverDecodes(x: bytes, y: bytes)
    requires |x| > Utf8.ValidUpTo(x) + 3
    ensures ValidPart(x + y) == ValidPart(x)
  {
    hide Utf8.ValidUpTo;
    var v := Utf8.ValidUpTo(x);
    NothingValidAfter(x);
    StuckStays(x[v..], y);
    ValidThenStuck(x, y, v);
    assert (x + y)[..v] == x[..v];
  }

  lemma ValidThenStuck(x: bytes, y: bytes, v: nat)
    requires v == Utf8.ValidUpTo(x) && v <= |x| && Utf8.ValidUpTo(x[v..] + y) == 0
    ensures Utf8.ValidUpTo(x + y) == v
  {
    hide *;
    Utf8.ValidPrefix(x);
    Utf8.ValidConcat(x[..v], x[v..] + y);
    assert x[..v] + (x[v..] + y) == x + y;
  }

  lemma StuckStays(x: bytes, y: bytes)
    requires |x| >= 4 && Utf8.ValidUpTo(x) == 0
    ensures Utf8.ValidUpTo(x + y) == 0
  {
    assert forall i :: 0 <= i < 4 ==> (x + y)[i] == x[i];
  }

  lemma HeldAtMost(x: bytes)
    ensures |x| - FlushFrom(x) <= |x| - Utf8.ValidUpTo(x) + MAX_PLACEHOLDER_BYTES
  {
    hide Hold, Utf8.ValidUpTo;
    HoldBounded(ValidPart(x));
  }

  /**
   From a placeholder and an unfinished character up, only the end of the reply counts: such a bound is kept
   at every moment exactly when nothing is masked or the whole reply is held back by no more than it.
   */
  lemma CarryLimitExact(orig: map<bytes, bytes>, reply: bytes, n: nat)
    requires n >= MAX_PLACEHOLDER_BYTES + 3
    ensures CarriesAtMost(orig, reply, n) <==> orig == map[] || |reply| - FlushFrom(reply) <= n
  {
    hide Utf8.ValidUpTo, CarriesAtMost;
    CarryBoundExact(orig, reply, n);
    assert reply[..|reply|] == reply;
    if |reply| - FlushFrom(reply) <= n {
      forall k | 0 <= k <= |reply| ensures |reply[..k]| - FlushFrom(reply[..k]) <= n {
        var x := reply[..k];
        if |x| > Utf8.ValidUpTo(x) + 3 {
          NeverDecodes(x, reply[k..]);
          assert x + reply[k..] == reply;
        } else {
          HeldAtMost(x);
        }
      }
    }
  }

  /** A UTF-8 reply keeps it. */
  lemma CarryBounded(orig: map<bytes, bytes>, reply: bytes)
    requires Utf8.Valid(reply)
    ensures CarriesAtMost(orig, reply, MAX_PLACEHOLDER_BYTES + 3)
  {
    hide CarriesAtMost, FlushFrom;
    HeldAtMost(reply);
    CarryLimitExact(orig, reply, MAX_PLACEHOLDER_BYTES + 3);
  }
}
