/**
 Reversible redaction of `src/dlp.rs` and its inverse: `redact_reversible` puts a placeholder in place
 of each finding, and the buffered unmask puts the values back.

 Masking then unmasking gives the text back whatever the map already held, exactly when the parts of
 the text outside the findings hold nothing an unmasker would take for a placeholder (`Fault`).
 */
module RoundTrip {
  import opened Bytes
  import opened Findings
  import opened Masking
  import Streaming
  import Decimal

  ghost predicate Categorised(fs: seq<Finding>) {
    forall i :: 0 <= i < |fs| ==> Category(fs[i].category)
  }

  /** The text from `cursor` on with each finding in order masked, and the map afterwards. */
  function Masked(m: Masks, text: bytes, fs: seq<Finding>, cursor: nat): (r: (bytes, Masks))
    requires Spans(fs) && cursor <= |text|
    decreases |fs|
  {
    if fs == [] then (text[cursor..], m)
    else
      var f := fs[0];
      if f.start < cursor || f.end > |text| then Masked(m, text, fs[1..], cursor)
      else
        var value := text[f.start..f.end];
        var m1 := Mint(m, f.category, value);
        var (out, m2) := Masked(m1, text, fs[1..], f.end);
        (text[cursor..f.start] + m1.toPlaceholder[value] + out, m2)
  }

  method RedactReversible(masks: MaskMap, text: bytes, findings: seq<Finding>) returns (out: bytes)
    requires masks.Valid() && masks.nextId + |findings| <= USIZE_SPAN
    requires Spans(findings) && Categorised(findings)
    modifies masks
    ensures masks.Valid()
    ensures (out, masks.Value()) == Masked(old(masks.Value()), text, findings, 0)
  {
    if findings == [] {
      return text;
    }
    out := [];
    var cursor := 0;
    ghost var whole := Masked(masks.Value(), text, findings, 0);
    assert findings[0..] == findings && [] + whole.0 == whole.0;
    for i := 0 to |findings|
      invariant 0 <= cursor <= |text|
      invariant masks.Valid() && masks.nextId + (|findings| - i) <= USIZE_SPAN
      invariant var rest := Masked(masks.Value(), text, findings[i..], cursor);
                whole == (out + rest.0, rest.1)
    {
      var f := findings[i];
      assert findings[i..][0] == f && findings[i..][1..] == findings[i + 1..];
      if f.start < cursor || f.end > |text| {
        continue;
      }
      ghost var rest := Masked(masks.Value(), text, findings[i..], cursor);
      ghost var before := out;
      var placeholder := masks.PlaceholderFor(f.category, text[f.start..f.end]);
      out := out + text[cursor..f.start] + placeholder;
      ghost var after := Masked(masks.Value(), text, findings[i + 1..], f.end);
      assert rest == (text[cursor..f.start] + placeholder + after.0, after.1);
      Regroup(before, text[cursor..f.start], placeholder, after.0);
      cursor := f.end;
    }
    out := out + text[cursor..];
  }

  // ---- What an unmasker could mistake for a placeholder ---------------------------------------

  /** Some map hands out `key` before its counter of ids overflows. */
  ghost predicate Mintable(key: bytes) {
    exists cat: bytes, n: nat :: Category(cat) && n + 1 < USIZE_SPAN && key == Placeholder(cat, n)
  }

  /** The first thing in a part left as it was that would not come back as it was. */
  datatype Fault = NoFault | Dangling | Key(key: bytes)

  /** Scan one part: a token that could have been minted, or a prefix still open where a placeholder follows. */
  ghost function FaultIn(gap: bytes, last: bool): Fault
    decreases |gap|
  {
    var i := Find(gap, MASK_PREFIX);
    if i < 0 then NoFault
    else
      var k := Close(gap, i);
      if k < 0 then (if last then NoFault else Dangling)
      else if Mintable(gap[i..k + 1]) then Key(gap[i..k + 1])
      else FaultIn(gap[k + 1..], last)
  }

  /** The first fault in the parts outside the findings. */
  ghost function FaultOf(text: bytes, fs: seq<Finding>, cursor: nat): Fault
    requires Spans(fs) && cursor <= |text|
    decreases |fs|
  {
    if fs == [] then FaultIn(text[cursor..], true)
    else
      var f := fs[0];
      if f.start < cursor || f.end > |text| then FaultOf(text, fs[1..], cursor)
      else if FaultIn(text[cursor..f.start], false) != NoFault then FaultIn(text[cursor..f.start], false)
      else FaultOf(text, fs[1..], f.end)
  }

  /** A map that calls of `placeholder_for` build from an empty one. */
  ghost predicate Reachable(m: Masks) {
    exists asks: seq<Mask> :: Asked(asks) && m == MintAll(NO_MASKS, asks)
  }

  ghost predicate Asked(asks: seq<Mask>) {
    forall i :: 0 <= i < |asks| ==> Category(asks[i].cat)
  }

  /** Masking with this map leaves its counter of ids within a `usize`. */
  predicate Fits(m: Masks, text: bytes, fs: seq<Finding>)
    requires Spans(fs)
  {
    Masked(m, text, fs, 0).1.nextId < USIZE_SPAN
  }

  /** Whatever the map holds already, masking then unmasking gives the text back. */
  ghost predicate RoundTrips(text: bytes, fs: seq<Finding>)
    requires Spans(fs)
  {
    forall m: Masks :: Reachable(m) && Fits(m, text, fs) ==> Restored(m, text, fs)
  }

  ghost predicate Restored(m: Masks, text: bytes, fs: seq<Finding>)
    requires Spans(fs)
  {
    var (out, m') := Masked(m, text, fs, 0);
    Unmasked(m'.toOriginal, out) == text
  }

  ghost predicate AllMintable(orig: map<bytes, bytes>) {
    forall p :: p in orig ==> Mintable(p)
  }

  lemma MintableShaped(key: bytes)
    requires Mintable(key)
    ensures Shaped(key)
  {
    hide Category, Placeholder, Shaped;
    var cat: bytes, n: nat :| Category(cat) && key == Placeholder(cat, n);
    PlaceholderShaped(cat, n);
  }

  // ---- Scanning one part and the placeholder after it -----------------------------------------

  lemma FindInConcat(x: bytes, y: bytes)
    ensures Find(x, MASK_PREFIX) >= 0 ==> Find(x + y, MASK_PREFIX) == Find(x, MASK_PREFIX)
  {
    hide Find;
    FindBeforeCut(x + y, MASK_PREFIX, |x|);
    assert (x + y)[..|x|] == x;
  }

  lemma CloseInConcat(x: bytes, y: bytes, i: nat)
    requires i <= |x| && Close(x, i) >= 0
    ensures Close(x + y, i) == Close(x, i)
  {
    hide FindByte;
    FindByteBeforeCut(x + y, GT, i, |x|);
    assert (x + y)[..|x|] == x;
  }

  /** No prefix runs from one part into something that opens with `<`. */
  lemma NoPrefixAcross(x: bytes, y: bytes)
    requires Find(x, MASK_PREFIX) < 0
    requires y != [] && y[0] == LT
    ensures forall n :: 0 <= n < |x| ==> !At(x + y, MASK_PREFIX, n)
  {
    hide Find;
    forall n | 0 <= n < |x| ensures !At(x + y, MASK_PREFIX, n) {
      if At(x + y, MASK_PREFIX, n) {
        Streaming.OneLt(x + y, n);
        assert (x + y)[|x|] == LT;
        AtPrefix(x, y, MASK_PREFIX, n);
        assert false;
      }
    }
  }

  /** A first token of a part is the first token of the whole. */
  lemma TokenOfPart(orig: map<bytes, bytes>, g: bytes, y: bytes, i: nat, k: nat)
    requires Find(g, MASK_PREFIX) == i && i <= |g| && Close(g, i) == k
    ensures Unmasked(orig, g + y) == g[..i] + Lookup(orig, g[i..k + 1]) + Unmasked(orig, g[k + 1..] + y)
  {
    hide Unmasked, Find, FindByte, Lookup;
    FindInConcat(g, y);
    CloseInConcat(g, y, i);
    UnmaskedToken(orig, g + y, i, k);
    assert (g + y)[..i] == g[..i] && (g + y)[i..k + 1] == g[i..k + 1] && (g + y)[k + 1..] == g[k + 1..] + y;
  }

  /** A part without a fault passes through, and what follows is unmasked on its own. */
  lemma {:induction false} CleanPart(orig: map<bytes, bytes>, g: bytes, y: bytes)
    requires AllMintable(orig) && FaultIn(g, false) == NoFault
    requires y != [] && y[0] == LT
    ensures Unmasked(orig, g + y) == g + Unmasked(orig, y)
    decreases |g|
  {
    hide Unmasked, Find, FindByte, Mintable, At, Streaming.Safe;
    var i := Find(g, MASK_PREFIX);
    if i < 0 {
      NoPrefixAcross(g, y);
      Streaming.PlainPrefix(orig, g + y, |g|);
      assert (g + y)[..|g|] == g && (g + y)[|g|..] == y;
    } else {
      var k := Close(g, i);
      TokenOfPart(orig, g, y, i, k);
      CleanPart(orig, g[k + 1..], y);
      Regroup(g[..i], g[i..k + 1], g[k + 1..], Unmasked(orig, y));
      Tiles(g, i, k + 1);
    }
  }

  lemma {:induction false} CleanLastPart(orig: map<bytes, bytes>, g: bytes)
    requires AllMintable(orig) && FaultIn(g, true) == NoFault
    ensures Unmasked(orig, g) == g
    decreases |g|
  {
    hide Unmasked, Find, FindByte, Mintable;
    var i := Find(g, MASK_PREFIX);
    if i < 0 || Close(g, i) < 0 {
      UnmaskedPlain(orig, g);
    } else {
      var k := Close(g, i);
      UnmaskedToken(orig, g, i, k);
      CleanLastPart(orig, g[k + 1..]);
      Tiles(g, i, k + 1);
    }
  }

  lemma Tiles(g: bytes, a: nat, b: nat)
    requires a <= b <= |g|
    ensures g[..a] + g[a..b] + g[b..] == g
  {}

  /** A placeholder at the front is a token of its own. */
  lemma PlaceholderFirst(orig: map<bytes, bytes>, p: bytes, y: bytes)
    requires Shaped(p)
    ensures Unmasked(orig, p + y) == Lookup(orig, p) + Unmasked(orig, y)
  {
    hide Unmasked, Find, FindByte, Lookup;
    var t := p + y;
    assert At(t, MASK_PREFIX, 0) by { assert t[0..|MASK_PREFIX|] == p[..|MASK_PREFIX|]; }
    assert Find(t, MASK_PREFIX) == 0;
    var k := |p| - 1;
    assert t[k] == GT && forall n :: 0 <= n < k ==> t[n] == p[n];
    assert Close(t, 0) == k;
    UnmaskedToken(orig, t, 0, k);
    assert t[0..k + 1] == p && t[k + 1..] == y;
  }

  /** One masked finding, seen from the unmasker. */
  lemma CleanStep(orig: map<bytes, bytes>, g: bytes, p: bytes, y: bytes)
    requires AllMintable(orig) && FaultIn(g, false) == NoFault
    requires p in orig
    ensures Unmasked(orig, g + p + y) == g + orig[p] + Unmasked(orig, y)
  {
    hide Unmasked, FaultIn, Mintable;
    MintableShaped(p);
    Streaming.ShapedOpens(p);
    assert g + p + y == g + (p + y);
    CleanPart(orig, g, p + y);
    PlaceholderFirst(orig, p, y);
  }

  // ---- Enough -----------------------------------------------------------------------------------

  /** Masking only adds to the map, and keeps it inverse. */
  lemma {:induction false} MaskedExtends(m: Masks, text: bytes, fs: seq<Finding>, cursor: nat)
    requires Inverse(m) && Spans(fs) && Categorised(fs) && cursor <= |text|
    ensures var m' := Masked(m, text, fs, cursor).1;
            Inverse(m') && forall p :: p in m.toOriginal ==> p in m'.toOriginal && m'.toOriginal[p] == m.toOriginal[p]
    decreases |fs|
  {
    hide Inverse, Category, Mint;
    if fs != [] {
      var f := fs[0];
      if f.start < cursor || f.end > |text| {
        MaskedExtends(m, text, fs[1..], cursor);
      } else {
        var value := text[f.start..f.end];
        MintKeepsInverse(m, f.category, value);
        MaskedExtends(Mint(m, f.category, value), text, fs[1..], f.end);
      }
    }
  }

  lemma InverseMintable(m: Masks)
    requires Inverse(m) && m.nextId < USIZE_SPAN
    ensures AllMintable(m.toOriginal)
  {
    forall p | p in m.toOriginal ensures Mintable(p) {
      var cat: bytes, n: nat :| Category(cat) && n < m.nextId && p == Placeholder(cat, n);
    }
  }

  /** `orig` knows everything `m` does. */
  ghost predicate Knows(orig: map<bytes, bytes>, m: Masks) {
    forall p :: p in m.toOriginal ==> p in orig && orig[p] == m.toOriginal[p]
  }

  lemma {:induction false} CleanRestored(m: Masks, text: bytes, fs: seq<Finding>, cursor: nat, orig: map<bytes, bytes>)
    requires Inverse(m) && Spans(fs) && Categorised(fs) && cursor <= |text|
    requires FaultOf(text, fs, cursor) == NoFault
    requires AllMintable(orig) && Knows(orig, Masked(m, text, fs, cursor).1)
    ensures Unmasked(orig, Masked(m, text, fs, cursor).0) == text[cursor..]
    decreases |fs|
  {
    hide Inverse, Category, Mint, FaultIn, Unmasked, AllMintable;
    if fs == [] {
      CleanLastPart(orig, text[cursor..]);
    } else {
      var f := fs[0];
      if f.start < cursor || f.end > |text| {
        CleanRestored(m, text, fs[1..], cursor, orig);
      } else {
        var value := text[f.start..f.end];
        var m1 := Mint(m, f.category, value);
        MintKeepsInverse(m, f.category, value);
        MintFinds(m, f.category, value);
        MaskedExtends(m1, text, fs[1..], f.end);
        CleanRestored(m1, text, fs[1..], f.end, orig);
        var p := m1.toPlaceholder[value];
        CleanStep(orig, text[cursor..f.start], p, Masked(m1, text, fs[1..], f.end).0);
        assert text[cursor..f.start] + value + text[f.end..] == text[cursor..];
      }
    }
  }

  // ---- And needed -------------------------------------------------------------------------------

  /** A token that is in the map shows up as its value. */
  lemma {:induction false} KeyShows(orig: map<bytes, bytes>, g: bytes, y: bytes, last: bool, key: bytes)
    requires AllMintable(orig) && key in orig && FaultIn(g, last) == Key(key)
    ensures |Unmasked(orig, g + y)| >= |orig[key]|
    decreases |g|
  {
    hide Unmasked, Find, FindByte, Mintable, AllMintable;
    var i := Find(g, MASK_PREFIX);
    var k := Close(g, i);
    TokenOfPart(orig, g, y, i, k);
    if !Mintable(g[i..k + 1]) {
      KeyShows(orig, g[k + 1..], y, last, key);
    }
  }

  /** An open prefix swallows the placeholder after it, which then stays as it is. */
  lemma {:induction false} DanglingShows(orig: map<bytes, bytes>, g: bytes, p: bytes, y: bytes)
    requires AllMintable(orig) && Shaped(p) && FaultIn(g, false) == Dangling
    ensures Unmasked(orig, g + p + y) == g + p + Unmasked(orig, y)
    decreases |g|
  {
    hide Unmasked, Find, FindByte, Mintable, Shaped;
    var i := Find(g, MASK_PREFIX);
    var k := Close(g, i);
    assert g + p + y == g + (p + y);
    if k >= 0 {
      TokenOfPart(orig, g, p + y, i, k);
      DanglingShows(orig, g[k + 1..], p, y);
      assert g[k + 1..] + p + y == g[k + 1..] + (p + y);
      Tiles(g, i, k + 1);
      Regroup(g[..i] + g[i..k + 1], g[k + 1..], p, Unmasked(orig, y));
    } else {
      Swallowed(orig, g, p, y, i);
    }
  }

  lemma Swallowed(orig: map<bytes, bytes>, g: bytes, p: bytes, y: bytes, i: nat)
    requires AllMintable(orig) && Shaped(p)
    requires Find(g, MASK_PREFIX) == i && i <= |g| && Close(g, i) < 0
    ensures Unmasked(orig, g + p + y) == g + p + Unmasked(orig, y)
  {
    hide Unmasked, Find, FindByte, Mintable, At;
    var t := g + p + y;
    var k := |g| + |p| - 1;
    assert t == g + (p + y);
    FindInConcat(g, p + y);
    Streaming.ShapedOpens(p);
    assert i < |g| by { Streaming.OneLtAndAfter(g, i); AtEnds(g, i); }
    forall n | i <= n < k ensures t[n] != GT {
      if n < |g| {
        assert t[n] == g[n];
      } else {
        assert t[n] == p[n - |g|];
      }
    }
    assert t[k] == p[|p| - 1] == GT;
    assert Close(t, i) == k;
    var token := t[i..k + 1];
    assert token[|g| - i] == LT;
    assert !Shaped(token);
    if token in orig { MintableShaped(token); assert false; }
    Streaming.UnknownToken(orig, t, i, k);
    assert t[..k + 1] == g + p && t[k + 1..] == y;
  }

  lemma AtEnds(g: bytes, i: nat)
    requires At(g, MASK_PREFIX, i)
    ensures i < |g|
  {}

  /** One valid finding, masked: what `m` becomes and what the result starts with. */
  lemma MaskedFirst(m: Masks, text: bytes, fs: seq<Finding>, cursor: nat)
    requires Inverse(m) && Spans(fs) && Categorised(fs) && cursor <= |text|
    requires fs != [] && cursor <= fs[0].start && fs[0].end <= |text|
    ensures var value := text[fs[0].start..fs[0].end];
            var m1 := Mint(m, fs[0].category, value);
            var m' := Masked(m, text, fs, cursor).1;
            && Inverse(m1) && Inverse(m')
            && value in m1.toPlaceholder && value in m'.toPlaceholder && m'.toPlaceholder[value] == m1.toPlaceholder[value]
            && m1.toPlaceholder[value] in m'.toOriginal && m'.toOriginal[m1.toPlaceholder[value]] == value
  {
    var f := fs[0];
    var value := text[f.start..f.end];
    var m1 := Mint(m, f.category, value);
    MintKeepsInverse(m, f.category, value);
    MintFinds(m, f.category, value);
    MaskedExtends(m1, text, fs[1..], f.end);
    hide Mint, Category;
  }

  /** The key of a fault shows up as its value, which is longer than `bound`. */
  lemma {:induction false} FaultShows(
    m: Masks, text: bytes, fs: seq<Finding>, cursor: nat, orig: map<bytes, bytes>, bound: nat)
    requires Inverse(m) && Spans(fs) && Categorised(fs) && cursor <= |text|
    requires AllMintable(orig) && Knows(orig, Masked(m, text, fs, cursor).1)
    requires FaultOf(text, fs, cursor).Key?
    requires var key := FaultOf(text, fs, cursor).key; key in orig && |orig[key]| > bound
    ensures |Unmasked(orig, Masked(m, text, fs, cursor).0)| > bound
    decreases |fs|
  {
    hide Inverse, Category, Mint, FaultIn, Unmasked, AllMintable;
    if fs == [] {
      assert text[cursor..] + [] == text[cursor..];
      KeyShows(orig, text[cursor..], [], true, FaultOf(text, fs, cursor).key);
    } else {
      var f := fs[0];
      if f.start < cursor || f.end > |text| {
        FaultShows(m, text, fs[1..], cursor, orig, bound);
      } else {
        MaskedFirst(m, text, fs, cursor);
        var m1 := Mint(m, f.category, text[f.start..f.end]);
        var p := m1.toPlaceholder[text[f.start..f.end]];
        var g, out := text[cursor..f.start], Masked(m1, text, fs[1..], f.end).0;
        if FaultIn(g, false) == NoFault {
          FaultShows(m1, text, fs[1..], f.end, orig, bound);
          CleanStep(orig, g, p, out);
        } else {
          KeyShows(orig, g, p + out, false, FaultOf(text, fs, cursor).key);
          assert g + (p + out) == g + p + out;
        }
      }
    }
  }

  lemma {:induction false} FaultInLast(g: bytes)
    ensures FaultIn(g, true) != Dangling
    decreases |g|
  {
    hide Find, FindByte, Mintable;
    var i := Find(g, MASK_PREFIX);
    if i >= 0 && Close(g, i) >= 0 {
      FaultInLast(g[Close(g, i) + 1..]);
    }
  }

  /** The finding whose placeholder an open prefix swallows. */
  ghost function SwallowedFinding(text: bytes, fs: seq<Finding>, cursor: nat): (f: Finding)
    requires Spans(fs) && cursor <= |text| && FaultOf(text, fs, cursor) == Dangling
    ensures f in fs && cursor <= f.start <= f.end <= |text|
    decreases |fs|
  {
    FaultInLast(text[cursor..]);
    var f := fs[0];
    if f.start < cursor || f.end > |text| then SwallowedFinding(text, fs[1..], cursor)
    else if FaultIn(text[cursor..f.start], false) != NoFault then f
    else SwallowedFinding(text, fs[1..], f.end)
  }

  /** Up to the swallowed placeholder, and with it, the result is the masked text as it stands. */
  lemma {:induction false} SwallowedShows(m: Masks, text: bytes, fs: seq<Finding>, cursor: nat, orig: map<bytes, bytes>)
    requires Inverse(m) && Spans(fs) && Categorised(fs) && cursor <= |text|
    requires AllMintable(orig) && Knows(orig, Masked(m, text, fs, cursor).1)
    requires FaultOf(text, fs, cursor) == Dangling
    ensures var f, m' := SwallowedFinding(text, fs, cursor), Masked(m, text, fs, cursor).1;
            && text[f.start..f.end] in m'.toPlaceholder
            && text[cursor..f.start] + m'.toPlaceholder[text[f.start..f.end]] <= Unmasked(orig, Masked(m, text, fs, cursor).0)
    decreases |fs|
  {
    FaultInLast(text[cursor..]);
    hide Inverse, Category, Mint, FaultIn, Unmasked, AllMintable, Knows;
    var f := fs[0];
    if f.start < cursor || f.end > |text| {
      SwallowedShows(m, text, fs[1..], cursor, orig);
    } else {
      MaskedFirst(m, text, fs, cursor);
      var m1 := Mint(m, f.category, text[f.start..f.end]);
      assert Masked(m, text, fs, cursor).1 == Masked(m1, text, fs[1..], f.end).1;
      hide Masked;
      if FaultIn(text[cursor..f.start], false) == NoFault {
        SwallowedShows(m1, text, fs[1..], f.end, orig);
        SwallowedLater(m, text, fs, cursor, orig, SwallowedFinding(text, fs[1..], f.end));
      } else {
        SwallowedHere(m, text, fs, cursor, orig);
      }
    }
  }

  lemma SwallowedHere(m: Masks, text: bytes, fs: seq<Finding>, cursor: nat, orig: map<bytes, bytes>)
    requires Inverse(m) && Spans(fs) && Categorised(fs) && cursor <= |text|
    requires AllMintable(orig) && Knows(orig, Masked(m, text, fs, cursor).1)
    requires fs != [] && cursor <= fs[0].start && fs[0].end <= |text|
    requires FaultIn(text[cursor..fs[0].start], false) == Dangling
    ensures var (out, m') := Masked(m, text, fs, cursor);
            && text[fs[0].start..fs[0].end] in m'.toPlaceholder
            && text[cursor..fs[0].start] + m'.toPlaceholder[text[fs[0].start..fs[0].end]] <= Unmasked(orig, out)
  {
    hide Inverse, Category, Mint, FaultIn, Unmasked, AllMintable;
    MaskedFirst(m, text, fs, cursor);
    var f := fs[0];
    var m1 := Mint(m, f.category, text[f.start..f.end]);
    var p, out := m1.toPlaceholder[text[f.start..f.end]], Masked(m1, text, fs[1..], f.end).0;
    ShapedKey(orig, p);
    DanglingShows(orig, text[cursor..f.start], p, out);
    assert text[cursor..f.start] + p + Unmasked(orig, out) == (text[cursor..f.start] + p) + Unmasked(orig, out);
  }

  /** A finding behind a faultless part: what comes back starts as the text does, up to a later placeholder. */
  lemma SwallowedLater(m: Masks, text: bytes, fs: seq<Finding>, cursor: nat, orig: map<bytes, bytes>, later: Finding)
    requires Inverse(m) && Spans(fs) && Categorised(fs) && cursor <= |text|
    requires AllMintable(orig) && Knows(orig, Masked(m, text, fs, cursor).1)
    requires fs != [] && cursor <= fs[0].start && fs[0].end <= later.start <= later.end <= |text|
    requires FaultIn(text[cursor..fs[0].start], false) == NoFault
    requires var m1 := Mint(m, fs[0].category, text[fs[0].start..fs[0].end]);
             var (out, m') := Masked(m1, text, fs[1..], fs[0].end);
             && text[later.start..later.end] in m'.toPlaceholder
             && text[fs[0].end..later.start] + m'.toPlaceholder[text[later.start..later.end]] <= Unmasked(orig, out)
    ensures var (out, m') := Masked(m, text, fs, cursor);
            && text[later.start..later.end] in m'.toPlaceholder
            && text[cursor..later.start] + m'.toPlaceholder[text[later.start..later.end]] <= Unmasked(orig, out)
  {
    hide Inverse, Category, Mint, FaultIn, Unmasked, AllMintable;
    MaskedFirst(m, text, fs, cursor);
    var f := fs[0];
    var m1 := Mint(m, f.category, text[f.start..f.end]);
    var p, out := m1.toPlaceholder[text[f.start..f.end]], Masked(m1, text, fs[1..], f.end).0;
    CleanStep(orig, text[cursor..f.start], p, out);
    var q := Masked(m, text, fs, cursor).1.toPlaceholder[text[later.start..later.end]];
    LongerPrefix(text, cursor, f.start, f.end, later.start, q, Unmasked(orig, out));
  }

  lemma ShapedKey(orig: map<bytes, bytes>, p: bytes)
    requires AllMintable(orig) && p in orig
    ensures Shaped(p)
  {
    hide Mintable, Shaped;
    MintableShaped(p);
  }

  lemma LongerPrefix(text: bytes, a: nat, b: nat, c: nat, d: nat, p: bytes, u: bytes)
    requires a <= b <= c <= d <= |text| && text[c..d] + p <= u
    ensures text[a..d] + p <= text[a..b] + text[b..c] + u
  {
    assert text[a..d] == text[a..b] + text[b..c] + text[c..d];
    assert u == text[c..d] + p + u[|text[c..d] + p|..];
  }

  // ---- Maps that give a fault away --------------------------------------------------------------

  lemma {:induction false} MintAllConcat(m: Masks, a: seq<Mask>, b: seq<Mask>)
    ensures MintAll(m, a + b) == MintAll(MintAll(m, a), b)
    decreases |a|
  {
    hide Mint;
    if a == [] {
      assert a + b == b;
    } else {
      assert (a + b)[0] == a[0] && (a + b)[1..] == a[1..] + b;
      MintAllConcat(Mint(m, a[0].cat, a[0].value), a[1..], b);
    }
  }

  lemma ReachableMore(m: Masks, asks: seq<Mask>)
    requires Reachable(m) && Asked(asks)
    ensures Reachable(MintAll(m, asks))
  {
    var before: seq<Mask> :| Asked(before) && m == MintAll(NO_MASKS, before);
    MintAllConcat(NO_MASKS, before, asks);
    assert Asked(before + asks);
  }

  lemma ReachableInverse(m: Masks)
    requires Reachable(m)
    ensures Inverse(m)
  {
    hide Category;
    var asks: seq<Mask> :| Asked(asks) && m == MintAll(NO_MASKS, asks);
    hide MintAll;
    MintsKeepInverse(NO_MASKS, asks);
  }

  lemma NothingReachable()
    ensures Reachable(NO_MASKS)
  {
    assert MintAll(NO_MASKS, []) == NO_MASKS;
    assert Asked([]);
  }

  /** Every value of the map is at most this long. */
  predicate Short(m: Masks, bound: nat) {
    forall v :: v in m.toPlaceholder ==> |v| <= bound
  }

  function Zeros(n: nat): (r: bytes)
    ensures |r| == n
  {
    seq(n, _ => 0)
  }

  /** Values longer than `bound`, all different. */
  function Padding(cat: bytes, bound: nat, count: nat): (r: seq<Mask>)
    ensures forall i :: 0 <= i < |r| ==> r[i].cat == cat
  {
    if count == 0 then [] else Padding(cat, bound, count - 1) + [Mask(cat, Zeros(bound + count))]
  }

  /** New values take the next ids, one by one. */
  lemma {:induction false} PaddingMints(m: Masks, cat: bytes, bound: nat, count: nat)
    requires Short(m, bound)
    ensures var m' := MintAll(m, Padding(cat, bound, count));
            m'.nextId == m.nextId + count && Short(m', bound + count)
    decreases count
  {
    if count > 0 {
      PaddingMints(m, cat, bound, count - 1);
      var last := Mask(cat, Zeros(bound + count));
      MintAllConcat(m, Padding(cat, bound, count - 1), [last]);
      var before := MintAll(m, Padding(cat, bound, count - 1));
      hide MintAll, Padding, Placeholder;
      MintOne(before, last);
    }
  }

  lemma MintOne(m: Masks, ask: Mask)
    ensures MintAll(m, [ask]) == Mint(m, ask.cat, ask.value)
  {
    hide Mint;
    var asks := [ask];
    assert asks[0] == ask && asks[1..] == [];
  }

  /** From any short map: pad up to id `n`, then mint the key numbered `n` for a long value. */
  lemma KeyAfter(m: Masks, cat: bytes, n: nat, bound: nat) returns (m': Masks)
    requires Reachable(m) && Short(m, bound) && Category(cat) && m.nextId <= n
    ensures Reachable(m') && m'.nextId == n + 1
    ensures Placeholder(cat, n) in m'.toOriginal && |m'.toOriginal[Placeholder(cat, n)]| > bound
    ensures forall v :: v in m.toPlaceholder ==> v in m'.toPlaceholder
  {
    hide Category, Placeholder;
    var count := n - m.nextId;
    var pad := Padding(cat, bound, count);
    PaddingMints(m, cat, bound, count);
    ReachableMore(m, pad);
    ValuesSurvive(m, pad);
    hide MintAll, Padding, Reachable;
    m' := MintLong(MintAll(m, pad), cat, bound + count);
  }

  /** Mint a value longer than any in the map. */
  lemma MintLong(m: Masks, cat: bytes, bound: nat) returns (m': Masks)
    requires Reachable(m) && Short(m, bound) && Category(cat)
    ensures Reachable(m') && m'.nextId == m.nextId + 1
    ensures Placeholder(cat, m.nextId) in m'.toOriginal && |m'.toOriginal[Placeholder(cat, m.nextId)]| > bound
    ensures forall v :: v in m.toPlaceholder ==> v in m'.toPlaceholder
  {
    hide Category, Placeholder;
    var ask := Mask(cat, Zeros(bound + 1));
    MintOne(m, ask);
    assert Asked([ask]);
    hide MintAll, Reachable;
    ReachableMore(m, [ask]);
    m' := Mint(m, cat, ask.value);
  }

  lemma {:induction false} ValuesSurvive(m: Masks, asks: seq<Mask>)
    ensures var m' := MintAll(m, asks);
            forall v :: v in m.toPlaceholder ==> v in m'.toPlaceholder && m'.toPlaceholder[v] == m.toPlaceholder[v]
    decreases |asks|
  {
    hide *;
    MintAllStep(m, asks);
    if asks != [] {
      MintSpares(m, asks[0].cat, asks[0].value);
      ValuesSurvive(Mint(m, asks[0].cat, asks[0].value), asks[1..]);
    }
  }

  lemma MintSpares(m: Masks, cat: bytes, value: bytes)
    ensures var m' := Mint(m, cat, value);
            forall v :: v in m.toPlaceholder ==> v in m'.toPlaceholder && m'.toPlaceholder[v] == m.toPlaceholder[v]
  {
    hide Placeholder;
  }

  /** The values that masking will ask for. */
  function AsksOf(text: bytes, fs: seq<Finding>): seq<Mask>
    requires Spans(fs)
  {
    if fs == [] then []
    else
      (if fs[0].end <= |text| then [Mask(fs[0].category, text[fs[0].start..fs[0].end])] else []) + AsksOf(text, fs[1..])
  }

  /** A map that knows every value is not changed by masking. */
  lemma {:induction false} MaskedKnown(m: Masks, text: bytes, fs: seq<Finding>, cursor: nat)
    requires Spans(fs) && cursor <= |text|
    requires forall i :: 0 <= i < |fs| && fs[i].end <= |text| ==> text[fs[i].start..fs[i].end] in m.toPlaceholder
    ensures Masked(m, text, fs, cursor).1 == m
    decreases |fs|
  {
    if fs != [] {
      var f := fs[0];
      MaskedKnown(m, text, fs[1..], if f.start < cursor || f.end > |text| then cursor else f.end);
    }
  }

  lemma {:induction false} AsksMint(m: Masks, text: bytes, fs: seq<Finding>)
    requires Spans(fs) && Categorised(fs) && Inverse(m) && Short(m, |text|)
    ensures Asked(AsksOf(text, fs)) && |AsksOf(text, fs)| <= |fs|
    ensures var m' := MintAll(m, AsksOf(text, fs));
            && m'.nextId <= m.nextId + |fs| && Short(m', |text|)
            && forall i :: 0 <= i < |fs| && fs[i].end <= |text| ==> text[fs[i].start..fs[i].end] in m'.toPlaceholder
    decreases |fs|
  {
    hide Category, Mint, Inverse, Short;
    if fs != [] {
      var f, later := fs[0], AsksOf(text, fs[1..]);
      if f.end > |text| {
        assert [] + later == later;
        AsksMint(m, text, fs[1..]);
      } else {
        var ask := Mask(f.category, text[f.start..f.end]);
        var m1 := Mint(m, ask.cat, ask.value);
        MintKeepsInverse(m, ask.cat, ask.value);
        MintShort(m, ask.cat, ask.value, |text|);
        AsksMint(m1, text, fs[1..]);
        assert ([ask] + later)[0] == ask && ([ask] + later)[1..] == later;
        ValuesSurvive(m1, later);
      }
      assert forall i :: 1 <= i < |fs| ==> fs[i] == fs[1..][i - 1];
    }
  }

  lemma MintShort(m: Masks, cat: bytes, value: bytes, bound: nat)
    requires Short(m, bound) && |value| <= bound
    ensures Short(Mint(m, cat, value), bound) && Mint(m, cat, value).nextId <= m.nextId + 1
  {
    hide Placeholder;
  }

  lemma {:induction false} MaskedGrows(m: Masks, text: bytes, fs: seq<Finding>, cursor: nat)
    requires Spans(fs) && cursor <= |text|
    ensures Masked(m, text, fs, cursor).1.nextId <= m.nextId + |fs|
    decreases |fs|
  {
    hide Placeholder;
    if fs != [] {
      var f := fs[0];
      if f.start < cursor || f.end > |text| {
        MaskedGrows(m, text, fs[1..], cursor);
      } else {
        MaskedGrows(Mint(m, f.category, text[f.start..f.end]), text, fs[1..], f.end);
      }
    }
  }

  /** A map, within a `usize`, that knows the key of a fault. */
  lemma KeyWitness(text: bytes, fs: seq<Finding>, key: bytes) returns (m: Masks)
    requires Spans(fs) && Categorised(fs) && Mintable(key) && 2 * |fs| < USIZE_SPAN
    ensures Reachable(m) && Fits(m, text, fs) && key in m.toOriginal && |m.toOriginal[key]| > |text|
  {
    var cat: bytes, n: nat :| Category(cat) && n + 1 < USIZE_SPAN && key == Placeholder(cat, n);
    NothingReachable();
    hide Category, Placeholder, Mintable, Reachable, Masked;
    if n < |fs| {
      m := KeyAfter(NO_MASKS, cat, n, |text|);
      MaskedGrows(m, text, fs, 0);
    } else {
      ReachableInverse(NO_MASKS);
      AsksMint(NO_MASKS, text, fs);
      var asks := AsksOf(text, fs);
      ReachableMore(NO_MASKS, asks);
      hide MintAll, AsksOf;
      m := KeyAfter(MintAll(NO_MASKS, asks), cat, n, |text|);
      MaskedKnown(m, text, fs, 0);
    }
  }

  /** Two maps that give one value two placeholders. */
  lemma TwoMaps(cat: bytes, value: bytes) returns (a: Masks, b: Masks)
    requires Category(cat)
    ensures Reachable(a) && Reachable(b) && a.nextId <= 2 && b.nextId <= 2
    ensures value in a.toPlaceholder && a.toPlaceholder[value] == Placeholder(cat, 0)
    ensures value in b.toPlaceholder && b.toPlaceholder[value] == Placeholder(cat, 1)
  {
    hide Category, Placeholder;
    NothingReachable();
    var ask, other := Mask(cat, value), Mask(cat, value + [0]);
    a, b := Mint(NO_MASKS, cat, value), Mint(Mint(NO_MASKS, cat, value + [0]), cat, value);
    MintOne(NO_MASKS, ask);
    MintOne(NO_MASKS, other);
    MintOne(Mint(NO_MASKS, cat, value + [0]), ask);
    assert Asked([ask]) && Asked([other]);
    hide Mint, Reachable;
    ReachableMore(NO_MASKS, [ask]);
    ReachableMore(NO_MASKS, [other]);
    ReachableMore(Mint(NO_MASKS, cat, value + [0]), [ask]);
  }

  /** A text cannot go on with two placeholders. */
  lemma OnePlaceholder(p: bytes, q: bytes, t: bytes)
    requires Shaped(p) && Shaped(q) && p <= t && q <= t
    ensures p == q
  {
    FirstClose(p, t);
    FirstClose(q, t);
    hide FindByte, Shaped;
    assert p == t[..|p|] && q == t[..|q|];
  }

  lemma FirstClose(p: bytes, t: bytes)
    requires Shaped(p) && p <= t
    ensures FindByte(t, GT) == |p| - 1
  {
    hide FindByte;
    assert t[|p| - 1] == GT && forall k :: 0 <= k < |p| - 1 ==> t[k] == p[k];
  }

  lemma PlaceholderSurvives(m: Masks, text: bytes, fs: seq<Finding>, value: bytes)
    requires Inverse(m) && Spans(fs) && Categorised(fs) && value in m.toPlaceholder
    ensures var m' := Masked(m, text, fs, 0).1;
            value in m'.toPlaceholder && m'.toPlaceholder[value] == m.toPlaceholder[value]
  {
    MaskedExtends(m, text, fs, 0);
    hide Masked, Category;
  }

  /** If `m` restores the text, the text goes on with the placeholder that was swallowed. */
  lemma RestoredMeans(m: Masks, text: bytes, fs: seq<Finding>)
    requires Reachable(m) && Spans(fs) && Categorised(fs) && Fits(m, text, fs) && FaultOf(text, fs, 0) == Dangling
    requires Restored(m, text, fs)
    ensures var f := SwallowedFinding(text, fs, 0);
            text[f.start..f.end] in m.toPlaceholder ==> m.toPlaceholder[text[f.start..f.end]] <= text[f.start..]
  {
    ReachableInverse(m);
    var f, m' := SwallowedFinding(text, fs, 0), Masked(m, text, fs, 0).1;
    var value := text[f.start..f.end];
    MaskedExtends(m, text, fs, 0);
    InverseMintable(m');
    SwallowedShows(m, text, fs, 0, m'.toOriginal);
    if value in m.toPlaceholder {
      PlaceholderSurvives(m, text, fs, value);
      hide Masked, SwallowedFinding, Inverse, FaultOf, Unmasked, Reachable;
      var p := m.toPlaceholder[value];
      assert text[0..f.start] + p <= text;
      assert (text[0..f.start] + p)[f.start..] == p;
    }
  }

  lemma DanglingWitness(text: bytes, fs: seq<Finding>) returns (m: Masks)
    requires Spans(fs) && Categorised(fs) && 2 * |fs| < USIZE_SPAN && FaultOf(text, fs, 0) == Dangling
    ensures Reachable(m) && Fits(m, text, fs) && !Restored(m, text, fs)
  {
    var f := SwallowedFinding(text, fs, 0);
    var i :| 0 <= i < |fs| && fs[i] == f;
    assert Category(f.category);
    var a, b := TwoMaps(f.category, text[f.start..f.end]);
    MaskedGrows(a, text, fs, 0);
    MaskedGrows(b, text, fs, 0);
    hide Masked, Restored, SwallowedFinding, Reachable, FaultOf, Placeholder, Category;
    if Restored(a, text, fs) && Restored(b, text, fs) {
      RestoredMeans(a, text, fs);
      RestoredMeans(b, text, fs);
      PlaceholderShaped(f.category, 0);
      PlaceholderShaped(f.category, 1);
      OnePlaceholder(Placeholder(f.category, 0), Placeholder(f.category, 1), text[f.start..]);
      PlaceholderInjective(f.category, 0, f.category, 1);
      assert false;
    }
    m := if Restored(a, text, fs) then b else a;
  }

  lemma {:induction false} FaultKeyMintable(text: bytes, fs: seq<Finding>, cursor: nat)
    requires Spans(fs) && cursor <= |text|
    ensures FaultOf(text, fs, cursor).Key? ==> Mintable(FaultOf(text, fs, cursor).key)
    decreases |fs|
  {
    hide FaultIn, Mintable;
    if fs == [] {
      KeyMintable(text[cursor..], true);
    } else {
      var f := fs[0];
      if f.start < cursor || f.end > |text| {
        FaultKeyMintable(text, fs[1..], cursor);
      } else {
        KeyMintable(text[cursor..f.start], false);
        FaultKeyMintable(text, fs[1..], f.end);
      }
    }
  }

  lemma {:induction false} KeyMintable(g: bytes, last: bool)
    ensures FaultIn(g, last).Key? ==> Mintable(FaultIn(g, last).key)
    decreases |g|
  {
    hide Find, FindByte, Mintable;
    var i := Find(g, MASK_PREFIX);
    if i >= 0 && Close(g, i) >= 0 {
      KeyMintable(g[Close(g, i) + 1..], last);
    }
  }

  /**
   The exact law: masking the findings of a text and unmasking the result gives the text back, for every
   map that `placeholder_for` can have built before and whatever the masked values contain, if and only if
   the parts outside the findings are free of faults. A slice holds fewer than half of `USIZE_SPAN` items.
   */
  lemma RoundTripExact(text: bytes, fs: seq<Finding>)
    requires Spans(fs) && Categorised(fs) && 2 * |fs| < USIZE_SPAN
    ensures RoundTrips(text, fs) <==> FaultOf(text, fs, 0) == NoFault
  {
    hide Inverse, Category, FaultOf, Unmasked, Masked, Mintable, Reachable;
    match FaultOf(text, fs, 0)
    case NoFault =>
      forall m: Masks | Reachable(m) && Fits(m, text, fs) ensures Restored(m, text, fs) {
        ReachableInverse(m);
        MaskedExtends(m, text, fs, 0);
        var m' := Masked(m, text, fs, 0).1;
        InverseMintable(m');
        CleanRestored(m, text, fs, 0, m'.toOriginal);
        assert text[0..] == text;
      }
    case Dangling =>
      var m := DanglingWitness(text, fs);
    case Key(key) =>
      FaultKeyMintable(text, fs, 0);
      var m := KeyWitness(text, fs, key);
      ReachableInverse(m);
      MaskedExtends(m, text, fs, 0);
      var m' := Masked(m, text, fs, 0).1;
      InverseMintable(m');
      FaultShows(m, text, fs, 0, m'.toOriginal, |text|);
      assert !Restored(m, text, fs);
  }

  /** In particular it does when no part outside the findings holds a prefix. */
  lemma {:induction false} PlainPartsRoundTrip(text: bytes, fs: seq<Finding>, cursor: nat)
    requires Spans(fs) && cursor <= |text|
    requires PlainParts(text, fs, cursor)
    ensures FaultOf(text, fs, cursor) == NoFault
    decreases |fs|
  {
    if fs != [] {
      var f := fs[0];
      if f.start < cursor || f.end > |text| {
        PlainPartsRoundTrip(text, fs[1..], cursor);
      } else {
        PlainPartsRoundTrip(text, fs[1..], f.end);
      }
    }
  }

  /** No part outside the findings holds `<edgeguard-`. */
  predicate PlainParts(text: bytes, fs: seq<Finding>, cursor: nat)
    requires Spans(fs) && cursor <= |text|
    decreases |fs|
  {
    if fs == [] then Find(text[cursor..], MASK_PREFIX) < 0
    else
      var f := fs[0];
      if f.start < cursor || f.end > |text| then PlainParts(text, fs[1..], cursor)
      else Find(text[cursor..f.start], MASK_PREFIX) < 0 && PlainParts(text, fs[1..], f.end)
  }
}
