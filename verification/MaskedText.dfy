/**
 What the provider gets to see: `redact_reversible` of `src/dlp.rs` leaves the parts outside the findings as
 they were, with a placeholder for each finding between them, and shows of the values found only which of
 them are equal.
 */
module MaskedText {
  import opened Bytes
  import opened Findings
  import opened Masking
  import opened RoundTrip
  import Decimal

  /** The mints that spans in order ask for. */
  function AsksFor(text: bytes, taken: seq<Finding>): (asks: seq<Mask>)
    requires InOrder(taken, 0, |text|)
    ensures |asks| == |taken|
  {
    seq(|taken|, j requires 0 <= j < |taken| => Mask(taken[j].category, text[taken[j].start..taken[j].end]))
  }

  ghost predicate AllKnown(m: Masks, values: seq<bytes>) {
    forall j :: 0 <= j < |values| ==> values[j] in m.toPlaceholder
  }

  function Fills(m: Masks, values: seq<bytes>): (fills: seq<bytes>)
    requires AllKnown(m, values)
    ensures |fills| == |values|
  {
    seq(|values|, j requires 0 <= j < |values| => m.toPlaceholder[values[j]])
  }

  lemma FirstAsk(text: bytes, taken: seq<Finding>)
    requires taken != [] && InOrder(taken, 0, |text|)
    ensures var f := taken[0];
            && InOrder(taken[1..], 0, |text|)
            && AsksFor(text, taken)[0] == Mask(f.category, text[f.start..f.end])
            && AsksFor(text, taken)[1..] == AsksFor(text, taken[1..])
            && Values(text, taken) == [text[f.start..f.end]] + Values(text, taken[1..])
  {
    assert forall i :: 0 <= i < |taken[1..]| ==> taken[1..][i] == taken[i + 1];
  }

  lemma FirstFill(m: Masks, v: bytes, values: seq<bytes>)
    requires v in m.toPlaceholder && AllKnown(m, values)
    ensures AllKnown(m, [v] + values) && Fills(m, [v] + values) == [m.toPlaceholder[v]] + Fills(m, values)
  {
  }

  lemma MintKnows(m: Masks, cat: bytes, value: bytes)
    ensures value in Mint(m, cat, value).toPlaceholder
  {
  }

  lemma {:induction false} MaskedLayout(m: Masks, text: bytes, fs: seq<Finding>, from: nat, cursor: nat)
    requires Spans(fs) && from <= |fs| && cursor <= |text|
    ensures var taken := Taken(|text|, fs, from, cursor);
            var (out, m') := Masked(m, text, fs[from..], cursor);
            && m' == MintAll(m, AsksFor(text, taken)) && AllKnown(m', Values(text, taken))
            && out == Woven(Parts(text, taken, cursor), Fills(m', Values(text, taken)))
    decreases |fs| - from
  {
    hide Taken, Parts, Woven, Mint, AsksFor, Values, Fills, AllKnown;
    TakenStep(|text|, fs, from, cursor);
    var taken := Taken(|text|, fs, from, cursor);
    PartsStep(text, taken, cursor);
    if from == |fs| {
      assert fs[from..] == [];
      NothingAsked(m, text);
      WovenOne(text[cursor..]);
    } else {
      var f := fs[from];
      assert fs[from..][0] == f && fs[from..][1..] == fs[from + 1..];
      if f.start < cursor || f.end > |text| {
        MaskedLayout(m, text, fs, from + 1, cursor);
      } else {
        var value, later := text[f.start..f.end], Taken(|text|, fs, from + 1, f.end);
        var m1 := Mint(m, f.category, value);
        MaskedLayout(m1, text, fs, from + 1, f.end);
        assert taken[1..] == later;
        FirstAsk(text, taken);
        var m' := MintAll(m1, AsksFor(text, later));
        MintKnows(m, f.category, value);
        ValuesSurvive(m1, AsksFor(text, later));
        FirstFill(m', value, Values(text, later));
        WovenCons(text[cursor..f.start], Parts(text, later, f.end), m'.toPlaceholder[value], Fills(m', Values(text, later)));
      }
    }
  }

  lemma NothingAsked(m: Masks, text: bytes)
    ensures AsksFor(text, []) == [] && Values(text, []) == [] && AllKnown(m, []) && Fills(m, []) == []
  {
  }

  /**
   Masking replaces: the output is the parts of the text outside the findings that are in order and in bounds,
   unchanged, with between them, where the values were, placeholders that stand for just those values in the
   map afterwards. The map has been given those values and no others.
   */
  lemma MaskedReplaces(m: Masks, text: bytes, fs: seq<Finding>)
    requires Inverse(m) && Spans(fs) && Categorised(fs)
    ensures var taken := Taken(|text|, fs, 0, 0);
            var values, parts := Values(text, taken), Parts(text, taken, 0);
            var (out, m') := Masked(m, text, fs, 0);
            && text == Woven(parts, values)
            && AllKnown(m', values) && out == Woven(parts, Fills(m', values))
            && (forall j :: 0 <= j < |values| ==>
                  && Shaped(Fills(m', values)[j]) && Fills(m', values)[j] in m'.toOriginal
                  && m'.toOriginal[Fills(m', values)[j]] == values[j])
            && m'.toPlaceholder.Keys == m.toPlaceholder.Keys + set j | 0 <= j < |values| :: values[j]
  {
    var taken := Taken(|text|, fs, 0, 0);
    var values := Values(text, taken);
    var m' := Masked(m, text, fs, 0).1;
    assert fs[0..] == fs && text[0..] == text;
    MaskedLayout(m, text, fs, 0, 0);
    TextIsWoven(text, taken, 0);
    MaskedExtends(m, text, fs, 0);
    KeysShaped(m');
    MintAllExact(m, AsksFor(text, taken));
    hide Masked, Taken, Inverse, Shaped, Woven, Parts, Category;
    WantedValues(text, taken);
    InverseFills(m', values);
  }

  lemma WantedValues(text: bytes, taken: seq<Finding>)
    requires InOrder(taken, 0, |text|)
    ensures Wanted(AsksFor(text, taken)) == set j | 0 <= j < |taken| :: Values(text, taken)[j]
  {
    var asks, values := AsksFor(text, taken), Values(text, taken);
    assert forall j :: 0 <= j < |taken| ==> asks[j].value == values[j];
  }

  lemma InverseFills(m: Masks, values: seq<bytes>)
    requires Inverse(m) && AllKnown(m, values)
    ensures forall j :: 0 <= j < |values| ==>
              Fills(m, values)[j] in m.toOriginal && m.toOriginal[Fills(m, values)[j]] == values[j]
  {
  }

  // ---- How a placeholder is named ---------------------------------------------------------------

  /** A value that is new after `a` gets the category it is asked with and the next number. */
  lemma FirstAskNames(m: Masks, a: seq<Mask>, b: seq<Mask>)
    requires b != [] && b[0].value !in MintAll(m, a).toPlaceholder
    ensures var m' := MintAll(m, a + b);
            b[0].value in m'.toPlaceholder && m'.toPlaceholder[b[0].value] == Placeholder(b[0].cat, MintAll(m, a).nextId)
  {
    hide *;
    MintAllConcat(m, a, b);
    NextNames(MintAll(m, a), b);
  }

  /** The map when the turn of finding `i` comes. */
  lemma MapBefore(m: Masks, text: bytes, taken: seq<Finding>, i: nat)
    requires InOrder(taken, 0, |text|) && i < |taken|
    ensures var values, m1 := Values(text, taken), MintAll(m, AsksFor(text, taken)[..i]);
            && (values[i] in m1.toPlaceholder <==> values[i] in m.toPlaceholder || exists j :: 0 <= j < i && values[j] == values[i])
            && m1.nextId == m.nextId + |(set j | 0 <= j < i :: values[j]) - m.toPlaceholder.Keys|
  {
    hide *;
    var values := Values(text, taken);
    WantedBefore(text, taken, i);
    MintAllExact(m, AsksFor(text, taken)[..i]);
    var before := set j | 0 <= j < i :: values[j];
    assert values[i] in before <==> exists j :: 0 <= j < i && values[j] == values[i];
  }

  lemma NextNames(m: Masks, asks: seq<Mask>)
    requires asks != [] && asks[0].value !in m.toPlaceholder
    ensures var m' := MintAll(m, asks);
            asks[0].value in m'.toPlaceholder && m'.toPlaceholder[asks[0].value] == Placeholder(asks[0].cat, m.nextId)
  {
    hide *;
    MintAllStep(m, asks);
    MintNames(m, asks[0].cat, asks[0].value);
    ValuesSurvive(Mint(m, asks[0].cat, asks[0].value), asks[1..]);
  }

  lemma MintNames(m: Masks, cat: bytes, value: bytes)
    requires value !in m.toPlaceholder
    ensures var m' := Mint(m, cat, value);
            value in m'.toPlaceholder && m'.toPlaceholder[value] == Placeholder(cat, m.nextId)
  {
    hide Placeholder;
  }

  /**
   The placeholder of a value the map did not know is spelled with the category of the first finding of that
   value and the number after those of the new values found before it.
   */
  lemma MaskedNames(m: Masks, text: bytes, fs: seq<Finding>, i: nat)
    requires Spans(fs) && i < |Taken(|text|, fs, 0, 0)|
    requires var values := Values(text, Taken(|text|, fs, 0, 0));
             values[i] !in m.toPlaceholder && forall j :: 0 <= j < i ==> values[j] != values[i]
    ensures var taken := Taken(|text|, fs, 0, 0);
            var values, m' := Values(text, taken), Masked(m, text, fs, 0).1;
            var before := (set j | 0 <= j < i :: values[j]) - m.toPlaceholder.Keys;
            && values[i] in m'.toPlaceholder
            && m'.toPlaceholder[values[i]]
               == Ascii("<edgeguard-") + taken[i].category + Ascii("-") + Decimal.Print(m.nextId + |before|) + Ascii(">")
  {
    hide *;
    var taken := Taken(|text|, fs, 0, 0);
    assert fs[0..] == fs;
    MaskedLayout(m, text, fs, 0, 0);
    MapBefore(m, text, taken, i);
    NamedAt(m, text, taken, i);
  }

  lemma NamedAt(m: Masks, text: bytes, taken: seq<Finding>, i: nat)
    requires InOrder(taken, 0, |text|) && i < |taken|
    requires Values(text, taken)[i] !in MintAll(m, AsksFor(text, taken)[..i]).toPlaceholder
    ensures var value, m' := Values(text, taken)[i], MintAll(m, AsksFor(text, taken));
            && value in m'.toPlaceholder
            && m'.toPlaceholder[value]
               == Ascii("<edgeguard-") + taken[i].category + Ascii("-")
                  + Decimal.Print(MintAll(m, AsksFor(text, taken)[..i]).nextId) + Ascii(">")
  {
    var asks := AsksFor(text, taken);
    assert asks[i] == Mask(taken[i].category, Values(text, taken)[i]);
    hide *;
    assert asks == asks[..i] + asks[i..] && asks[i..][0] == asks[i];
    FirstAskNames(m, asks[..i], asks[i..]);
    PlaceholderSpelled(taken[i].category, MintAll(m, asks[..i]).nextId);
  }

  lemma WantedBefore(text: bytes, taken: seq<Finding>, i: nat)
    requires InOrder(taken, 0, |text|) && i < |taken|
    ensures var asks, values := AsksFor(text, taken), Values(text, taken);
            && asks[i].value == values[i] && asks[i].cat == taken[i].category
            && Wanted(asks[..i]) == set j | 0 <= j < i :: values[j]
  {
    var asks, values := AsksFor(text, taken), Values(text, taken);
    assert forall j :: 0 <= j < i ==> asks[..i][j].value == values[j];
  }

  // ---- What the output tells --------------------------------------------------------------------

  /** Values known to the map are the same in both, and the others are equal where the others are. */
  ghost predicate SamePattern(m: Masks, u: seq<bytes>, v: seq<bytes>) {
    && |u| == |v|
    && (forall i :: 0 <= i < |u| ==> (u[i] in m.toPlaceholder || v[i] in m.toPlaceholder ==> u[i] == v[i]))
    && (forall i, j :: 0 <= i < |u| && 0 <= j < |u| ==> (u[i] == u[j] <==> v[i] == v[j]))
  }

  predicate Twins(a: Masks, b: Masks, u: bytes, v: bytes) {
    if u in a.toPlaceholder then v in b.toPlaceholder && a.toPlaceholder[u] == b.toPlaceholder[v] else v !in b.toPlaceholder
  }

  /** Two lists of mints that go the same way. */
  ghost predicate Parallel(a: Masks, b: Masks, p: seq<Mask>, q: seq<Mask>) {
    && a.nextId == b.nextId && |p| == |q|
    && (forall i :: 0 <= i < |p| ==> p[i].cat == q[i].cat && Twins(a, b, p[i].value, q[i].value))
    && (forall i, j :: 0 <= i < |p| && 0 <= j < |p| ==> (p[i].value == p[j].value <==> q[i].value == q[j].value))
  }

  lemma ParallelStep(a: Masks, b: Masks, p: seq<Mask>, q: seq<Mask>)
    requires p != [] && Parallel(a, b, p, q)
    ensures var a', b' := Mint(a, p[0].cat, p[0].value), Mint(b, q[0].cat, q[0].value);
            Parallel(a', b', p[1..], q[1..]) && Twins(a', b', p[0].value, q[0].value) && p[0].value in a'.toPlaceholder
  {
    hide Placeholder;
    var a', b' := Mint(a, p[0].cat, p[0].value), Mint(b, q[0].cat, q[0].value);
    assert Twins(a, b, p[0].value, q[0].value);
    var p', q' := p[1..], q[1..];
    forall i | 0 <= i < |p'| ensures p'[i].cat == q'[i].cat && Twins(a', b', p'[i].value, q'[i].value) {
      assert p'[i] == p[i + 1] && q'[i] == q[i + 1];
      assert Twins(a, b, p[i + 1].value, q[i + 1].value);
      assert p[i + 1].value == p[0].value <==> q[i + 1].value == q[0].value;
    }
  }

  lemma {:induction false} ParallelMints(a: Masks, b: Masks, p: seq<Mask>, q: seq<Mask>)
    requires Parallel(a, b, p, q)
    ensures var a', b' := MintAll(a, p), MintAll(b, q);
            forall i :: 0 <= i < |p| ==> p[i].value in a'.toPlaceholder && Twins(a', b', p[i].value, q[i].value)
    decreases |p|
  {
    if p != [] {
      ParallelStep(a, b, p, q);
      hide Parallel, Mint;
      var a1, b1 := Mint(a, p[0].cat, p[0].value), Mint(b, q[0].cat, q[0].value);
      ParallelMints(a1, b1, p[1..], q[1..]);
      ValuesSurvive(a1, p[1..]);
      ValuesSurvive(b1, q[1..]);
      var a', b' := MintAll(a, p), MintAll(b, q);
      forall i | 0 <= i < |p| ensures p[i].value in a'.toPlaceholder && Twins(a', b', p[i].value, q[i].value) {
        if i > 0 {
          assert p[1..][i - 1] == p[i] && q[1..][i - 1] == q[i];
        }
      }
    }
  }

  predicate AllShaped(fills: seq<bytes>) {
    forall i :: 0 <= i < |fills| ==> Shaped(fills[i])
  }

  /** The same parts with placeholders between them: the placeholders can be read off. */
  lemma {:induction false} WovenInjective(parts: seq<bytes>, f: seq<bytes>, g: seq<bytes>)
    requires |parts| == |f| + 1 == |g| + 1 && Woven(parts, f) == Woven(parts, g) && AllShaped(f) && AllShaped(g)
    ensures f == g
    decreases |f|
  {
    hide Shaped;
    if f != [] {
      var x, y := Woven(parts[1..], f[1..]), Woven(parts[1..], g[1..]);
      Associate(parts[0], f[0], x);
      Associate(parts[0], g[0], y);
      var t := f[0] + x;
      assert (parts[0] + t)[|parts[0]|..] == t && (parts[0] + (g[0] + y))[|parts[0]|..] == g[0] + y;
      assert t == g[0] + y;
      OnePlaceholder(f[0], g[0], t);
      assert t[|f[0]|..] == x && (g[0] + y)[|g[0]|..] == y;
      WovenInjective(parts[1..], f[1..], g[1..]);
      assert f == [f[0]] + f[1..] && g == [g[0]] + g[1..];
    }
  }

  /** Two texts with the same parts outside the findings, and findings of the same categories there. */
  ghost predicate SameOutside(a: bytes, fa: seq<Finding>, b: bytes, fb: seq<Finding>)
    requires Spans(fa) && Spans(fb)
  {
    var ta, tb := Taken(|a|, fa, 0, 0), Taken(|b|, fb, 0, 0);
    && |ta| == |tb| && Parts(a, ta, 0) == Parts(b, tb, 0)
    && forall i :: 0 <= i < |ta| ==> ta[i].category == tb[i].category
  }

  /**
   The output tells which values are equal, and which the map knew, and nothing else about them: two texts that
   agree outside the findings are masked to the same bytes if and only if their values have the same pattern.
   */
  lemma MaskedReveals(m: Masks, a: bytes, fa: seq<Finding>, b: bytes, fb: seq<Finding>)
    requires Inverse(m) && Spans(fa) && Spans(fb) && Categorised(fa) && Categorised(fb) && SameOutside(a, fa, b, fb)
    ensures Masked(m, a, fa, 0).0 == Masked(m, b, fb, 0).0
            <==> SamePattern(m, Values(a, Taken(|a|, fa, 0, 0)), Values(b, Taken(|b|, fb, 0, 0)))
  {
    hide *;
    var ta, tb := Taken(|a|, fa, 0, 0), Taken(|b|, fb, 0, 0);
    var u, v := Values(a, ta), Values(b, tb);
    SameOutsideMeans(a, fa, b, fb);
    var ma := MaskedParts(m, a, fa);
    var mb := MaskedParts(m, b, fb);
    if Masked(m, a, fa, 0).0 == Masked(m, b, fb, 0).0 {
      WovenTells(m, ma, mb, Parts(a, ta, 0), u, v);
    }
    if SamePattern(m, u, v) {
      SameFills(m, a, ta, b, tb);
    }
  }

  lemma WovenTells(m: Masks, ma: Masks, mb: Masks, parts: seq<bytes>, u: seq<bytes>, v: seq<bytes>)
    requires Inverse(m) && Inverse(ma) && Inverse(mb) && AllKnown(ma, u) && AllKnown(mb, v) && |u| == |v| == |parts| - 1
    requires Knows(ma.toOriginal, m) && Knows(mb.toOriginal, m) && AllShaped(Fills(ma, u)) && AllShaped(Fills(mb, v))
    requires Woven(parts, Fills(ma, u)) == Woven(parts, Fills(mb, v))
    ensures SamePattern(m, u, v)
  {
    hide *;
    WovenInjective(parts, Fills(ma, u), Fills(mb, v));
    FillsTell(m, ma, mb, u, v);
  }

  lemma SameOutsideMeans(a: bytes, fa: seq<Finding>, b: bytes, fb: seq<Finding>)
    requires Spans(fa) && Spans(fb) && SameOutside(a, fa, b, fb)
    ensures var ta, tb := Taken(|a|, fa, 0, 0), Taken(|b|, fb, 0, 0);
            && |ta| == |tb| && Parts(a, ta, 0) == Parts(b, tb, 0) && |Parts(a, ta, 0)| == |ta| + 1
            && InOrder(ta, 0, |a|) && InOrder(tb, 0, |b|) && |Values(a, ta)| == |Values(b, tb)| == |ta|
            && forall i :: 0 <= i < |ta| ==> ta[i].category == tb[i].category
  {
    hide Taken, Parts;
  }

  /** What is needed of one masking below. */
  lemma MaskedParts(m: Masks, text: bytes, fs: seq<Finding>) returns (m': Masks)
    requires Inverse(m) && Spans(fs) && Categorised(fs)
    ensures var taken := Taken(|text|, fs, 0, 0);
            var values := Values(text, taken);
            && m' == MintAll(m, AsksFor(text, taken)) && Inverse(m') && Knows(m'.toOriginal, m) && AllKnown(m', values)
            && |Fills(m', values)| == |taken| && Masked(m, text, fs, 0).0 == Woven(Parts(text, taken, 0), Fills(m', values))
            && AllShaped(Fills(m', values))
  {
    m' := Masked(m, text, fs, 0).1;
    assert fs[0..] == fs;
    MaskedLayout(m, text, fs, 0, 0);
    MaskedReplaces(m, text, fs);
    MaskedExtends(m, text, fs, 0);
    hide Masked, Taken, Parts, Woven, Shaped, Inverse, Category, Categorised, MintAll;
  }

  lemma SameFills(m: Masks, a: bytes, ta: seq<Finding>, b: bytes, tb: seq<Finding>)
    requires InOrder(ta, 0, |a|) && InOrder(tb, 0, |b|) && |ta| == |tb|
    requires forall i :: 0 <= i < |ta| ==> ta[i].category == tb[i].category
    requires SamePattern(m, Values(a, ta), Values(b, tb))
    requires AllKnown(MintAll(m, AsksFor(a, ta)), Values(a, ta)) && AllKnown(MintAll(m, AsksFor(b, tb)), Values(b, tb))
    ensures Fills(MintAll(m, AsksFor(a, ta)), Values(a, ta)) == Fills(MintAll(m, AsksFor(b, tb)), Values(b, tb))
  {
    var p, q, u, v := AsksFor(a, ta), AsksFor(b, tb), Values(a, ta), Values(b, tb);
    PatternParallel(m, a, ta, b, tb);
    ParallelMints(m, m, p, q);
    hide Parallel, MintAll, SamePattern;
    var fa, fb := Fills(MintAll(m, p), u), Fills(MintAll(m, q), v);
    forall i | 0 <= i < |u| ensures fa[i] == fb[i] {
      assert p[i].value == u[i] && q[i].value == v[i];
    }
  }

  lemma PatternParallel(m: Masks, a: bytes, ta: seq<Finding>, b: bytes, tb: seq<Finding>)
    requires InOrder(ta, 0, |a|) && InOrder(tb, 0, |b|) && |ta| == |tb|
    requires forall i :: 0 <= i < |ta| ==> ta[i].category == tb[i].category
    requires SamePattern(m, Values(a, ta), Values(b, tb))
    ensures Parallel(m, m, AsksFor(a, ta), AsksFor(b, tb))
  {
    var p, q, u, v := AsksFor(a, ta), AsksFor(b, tb), Values(a, ta), Values(b, tb);
    assert forall i :: 0 <= i < |p| ==> p[i].value == u[i] && q[i].value == v[i];
  }

  lemma FillsTell(m: Masks, ma: Masks, mb: Masks, u: seq<bytes>, v: seq<bytes>)
    requires Inverse(m) && Inverse(ma) && Inverse(mb) && AllKnown(ma, u) && AllKnown(mb, v) && |u| == |v|
    requires Knows(ma.toOriginal, m) && Knows(mb.toOriginal, m) && Fills(ma, u) == Fills(mb, v)
    ensures SamePattern(m, u, v)
  {
    InverseFills(ma, u);
    InverseFills(mb, v);
    forall i | 0 <= i < |u| ensures u[i] in m.toPlaceholder || v[i] in m.toPlaceholder ==> u[i] == v[i] {
      assert Fills(ma, u)[i] == Fills(mb, v)[i];
      if u[i] in m.toPlaceholder {
        KnownBefore(m, ma, u[i]);
      }
      if v[i] in m.toPlaceholder {
        KnownBefore(m, mb, v[i]);
      }
    }
    forall i, j | 0 <= i < |u| && 0 <= j < |u| ensures u[i] == u[j] <==> v[i] == v[j] {
      assert Fills(ma, u)[i] == Fills(mb, v)[i] && Fills(ma, u)[j] == Fills(mb, v)[j];
    }
  }

  lemma KnownBefore(m: Masks, m': Masks, value: bytes)
    requires Inverse(m) && Inverse(m') && Knows(m'.toOriginal, m) && value in m.toPlaceholder
    ensures value in m'.toPlaceholder && m'.toPlaceholder[value] == m.toPlaceholder[value]
    ensures m.toPlaceholder[value] in m.toOriginal && m.toOriginal[m.toPlaceholder[value]] == value
  {
    hide Category;
  }
}
