/**
 Which finding names a merged span of `src/dlp.rs`: of those in the span, one of the highest score; and of
 several with that score the one that starts first, or ends first, or was found first.
 */
module MergeNames {
  import opened Bytes
  import opened Findings
  import opened Redaction

  /** Finding `i` comes before finding `j`: by start, then by end, then by place in the list. */
  predicate Precedes(fs: seq<Finding>, i: nat, j: nat)
    requires i < |fs| && j < |fs|
  {
    || fs[i].start < fs[j].start
    || (fs[i].start == fs[j].start && (fs[i].end < fs[j].end || (fs[i].end == fs[j].end && i < j)))
  }

  // ---- The order of the list --------------------------------------------------------------------

  predicate Within(order: seq<nat>, n: nat) {
    forall k :: 0 <= k < |order| ==> order[k] < n
  }

  /** Put finding `i` behind every one it does not come before. */
  function Place(fs: seq<Finding>, order: seq<nat>, i: nat): (r: seq<nat>)
    requires Within(order, |fs|) && i < |fs|
    ensures |r| == |order| + 1 && Within(r, |fs|)
  {
    if order == [] || Before(fs[order[|order| - 1]], fs[i]) then order + [i]
    else Place(fs, order[..|order| - 1], i) + [order[|order| - 1]]
  }

  /** The first `n` findings in order. */
  function Order(fs: seq<Finding>, n: nat): (r: seq<nat>)
    requires n <= |fs|
    ensures |r| == n && Within(r, |fs|)
  {
    if n == 0 then [] else Place(fs, Order(fs, n - 1), n - 1)
  }

  lemma {:induction false} PlaceInserts(fs: seq<Finding>, order: seq<nat>, i: nat)
    requires Within(order, |fs|) && i < |fs|
    ensures Insert(Chosen(fs, order), fs[i]) == Chosen(fs, Place(fs, order, i))
    decreases |order|
  {
    if order != [] && !Before(fs[order[|order| - 1]], fs[i]) {
      PlaceInserts(fs, order[..|order| - 1], i);
      assert Chosen(fs, order)[..|order| - 1] == Chosen(fs, order[..|order| - 1]);
    }
  }

  lemma {:induction false} OrderSorts(fs: seq<Finding>, n: nat)
    requires n <= |fs|
    ensures Sort(fs[..n]) == Chosen(fs, Order(fs, n))
  {
    if n > 0 {
      OrderSorts(fs, n - 1);
      assert fs[..n][..n - 1] == fs[..n - 1];
      PlaceInserts(fs, Order(fs, n - 1), n - 1);
    }
  }

  /** Each of the first `n` findings is there, in order. */
  ghost predicate InTurn(fs: seq<Finding>, order: seq<nat>, n: nat) {
    && n <= |fs| && Within(order, n)
    && (forall i :: 0 <= i < n ==> i in order)
    && Rising(fs, order)
  }

  predicate Rising(fs: seq<Finding>, order: seq<nat>) {
    Within(order, |fs|) && forall k, q :: 0 <= k < q < |order| ==> Precedes(fs, order[k], order[q])
  }

  predicate AllBefore(fs: seq<Finding>, order: seq<nat>, x: nat) {
    Within(order, |fs|) && x < |fs| && forall k :: 0 <= k < |order| ==> Precedes(fs, order[k], x)
  }

  lemma RisingAppend(fs: seq<Finding>, order: seq<nat>, x: nat)
    requires Rising(fs, order) && AllBefore(fs, order, x)
    ensures Rising(fs, order + [x])
  {
    hide Precedes;
    var all := order + [x];
    forall k, q | 0 <= k < q < |all| ensures Precedes(fs, all[k], all[q]) {
      assert all[k] == order[k];
      assert all[q] == if q < |order| then order[q] else x;
    }
  }

  lemma RisingFront(fs: seq<Finding>, order: seq<nat>)
    requires Rising(fs, order) && order != []
    ensures Rising(fs, order[..|order| - 1]) && AllBefore(fs, order[..|order| - 1], order[|order| - 1])
  {
    hide Precedes;
  }

  /** A place in order for one more finding, in a list of earlier ones that is in order. */
  lemma {:induction false} PlaceInTurn(fs: seq<Finding>, order: seq<nat>, n: nat)
    requires n < |fs| && Within(order, n) && Rising(fs, order)
    ensures Rising(fs, Place(fs, order, n))
    decreases |order|
  {
    if order == [] || Before(fs[order[|order| - 1]], fs[n]) {
      AllPrecede(fs, order, n);
      hide *;
      RisingAppend(fs, order, n);
    } else {
      var front, last := order[..|order| - 1], order[|order| - 1];
      assert Precedes(fs, n, last);
      assert Within(front, n) && Place(fs, order, n) == Place(fs, front, n) + [last];
      hide Place, Precedes;
      RisingFront(fs, order);
      PlaceInTurn(fs, front, n);
      PlacedBefore(fs, front, n, last);
      RisingAppend(fs, Place(fs, front, n), last);
    }
  }

  lemma PlacedBefore(fs: seq<Finding>, front: seq<nat>, n: nat, last: nat)
    requires n < |fs| && AllBefore(fs, front, last) && Precedes(fs, n, last)
    ensures AllBefore(fs, Place(fs, front, n), last)
  {
    hide Place, Precedes;
    var r := Place(fs, front, n);
    forall k | 0 <= k < |r| ensures Precedes(fs, r[k], last) {
      PlaceMembers(fs, front, n, r[k]);
      assert r[k] in r;
      if r[k] != n {
        var j :| 0 <= j < |front| && front[j] == r[k];
      }
    }
  }

  lemma AllPrecede(fs: seq<Finding>, order: seq<nat>, n: nat)
    requires n < |fs| && Within(order, n) && Rising(fs, order)
    requires order == [] || Before(fs[order[|order| - 1]], fs[n])
    ensures AllBefore(fs, order, n)
  {
  }

  lemma {:induction false} OrderInTurn(fs: seq<Finding>, n: nat)
    requires n <= |fs|
    ensures InTurn(fs, Order(fs, n), n)
  {
    hide *;
    if n == 0 {
      NoneInTurn(fs);
    } else {
      OrderInTurn(fs, n - 1);
      OrderStep(fs, n);
      OneMoreInTurn(fs, Order(fs, n - 1), n - 1);
    }
  }

  lemma NoneInTurn(fs: seq<Finding>)
    ensures InTurn(fs, Order(fs, 0), 0)
  {
  }

  lemma OneMoreInTurn(fs: seq<Finding>, before: seq<nat>, n: nat)
    requires n < |fs| && InTurn(fs, before, n) && Within(before, |fs|)
    ensures InTurn(fs, Place(fs, before, n), n + 1)
  {
    PlaceInTurn(fs, before, n);
    var order := Place(fs, before, n);
    hide Precedes, Place;
    forall k | 0 <= k < |order| ensures order[k] < n + 1 {
      PlaceMembers(fs, before, n, order[k]);
      assert order[k] in order;
      Members(before, n);
    }
    forall i | 0 <= i < n + 1 ensures i in order {
      PlaceMembers(fs, before, n, i);
      assert i < n ==> i in before;
    }
  }

  lemma {:induction false} PlaceMembers(fs: seq<Finding>, order: seq<nat>, n: nat, x: nat)
    requires Within(order, |fs|) && n < |fs|
    ensures x in Place(fs, order, n) <==> x in order || x == n
    decreases |order|
  {
    if order != [] && !Before(fs[order[|order| - 1]], fs[n]) {
      var front, last := order[..|order| - 1], order[|order| - 1];
      PlaceMembers(fs, front, n, x);
      assert order == front + [last];
    }
  }

  lemma Members(order: seq<nat>, n: nat)
    requires Within(order, n)
    ensures forall i :: i in order ==> i < n
  {
  }

  lemma OrderStep(fs: seq<Finding>, n: nat)
    requires 0 < n <= |fs|
    ensures Order(fs, n) == Place(fs, Order(fs, n - 1), n - 1)
  {
    hide Place;
  }

  // ---- Who names a span -------------------------------------------------------------------------

  /** Finding `k` names the span: nothing in it beats it, and nothing before it equals it. */
  predicate Names(fs: seq<Finding>, m: Finding, k: nat) {
    && k < |fs| && Inside(fs[k], m) && fs[k].category == m.category && fs[k].score == m.score
    && (forall j :: 0 <= j < k && Inside(fs[j], m) ==> fs[j].score < m.score)
    && (forall j :: k < j < |fs| && Inside(fs[j], m) ==> fs[j].score <= m.score)
  }

  ghost predicate Named(fs: seq<Finding>, m: Finding) {
    exists k :: Names(fs, m, k)
  }

  ghost predicate Contained(f: Finding, ms: seq<Finding>) {
    exists i :: 0 <= i < |ms| && Inside(f, ms[i])
  }

  /** What has been merged so far, of findings in order. */
  ghost predicate Progress(done: seq<Finding>, ms: seq<Finding>) {
    && Spans(done) && Separated(ms)
    && (forall j :: 0 <= j < |done| ==> Contained(done[j], ms))
    && (forall i :: 0 <= i < |ms| ==> Named(done, ms[i]))
  }

  lemma HasPlace(done: seq<Finding>, ms: seq<Finding>, j: nat) returns (i: nat)
    requires Progress(done, ms) && j < |done|
    ensures i < |ms| && Inside(done[j], ms[i]) && done[j].start <= done[j].end && Separated(ms)
  {
    hide Named, Separated, Inside;
    assert Contained(done[j], ms);
    i :| 0 <= i < |ms| && Inside(done[j], ms[i]);
  }

  lemma HasName(done: seq<Finding>, ms: seq<Finding>, i: nat) returns (k: nat)
    requires Progress(done, ms) && i < |ms|
    ensures Names(done, ms[i], k) && Separated(ms)
  {
    hide Names, Contained, Separated;
    assert Named(done, ms[i]);
    k :| Names(done, ms[i], k);
  }

  /** The next finding starts after everything so far has started. */
  predicate ComesNext(done: seq<Finding>, f: Finding) {
    f.start <= f.end && forall j :: 0 <= j < |done| ==> done[j].start <= f.start
  }

  lemma LastStarts(done: seq<Finding>, ms: seq<Finding>, f: Finding, i: nat)
    requires Progress(done, ms) && ComesNext(done, f) && i < |ms|
    ensures ms[i].start <= f.start <= f.end && Separated(ms)
  {
    hide Progress, Separated;
    var k := HasName(done, ms, i);
  }

  /** One more finding that is not in the span does not rename it. */
  lemma NameStays(done: seq<Finding>, m: Finding, k: nat, f: Finding)
    requires Names(done, m, k) && !Inside(f, m)
    ensures Named(done + [f], m)
  {
    hide Inside;
    var all := done + [f];
    assert forall j :: 0 <= j < |done| ==> all[j] == done[j];
    assert Names(all, m, k);
  }

  /** Of a span before the last nothing changes: the next finding is not in it. */
  lemma NotInEarlier(done: seq<Finding>, ms: seq<Finding>, f: Finding, i: nat)
    requires Progress(done, ms) && ComesNext(done, f) && i < |ms|
    requires i < |ms| - 1 || f.start > ms[i].end
    ensures Named(done + [f], ms[i])
  {
    hide Progress, Names, Named, ComesNext;
    LastStarts(done, ms, f, |ms| - 1);
    var k := HasName(done, ms, i);
    NameStays(done, ms[i], k, f);
  }

  /** What is in the widened last span was in the last. */
  lemma InLast(done: seq<Finding>, ms: seq<Finding>, j: nat, wide: Finding)
    requires Progress(done, ms) && j < |done| && ms != [] && Inside(done[j], wide) && wide.start == ms[|ms| - 1].start
    ensures Inside(done[j], ms[|ms| - 1])
  {
    hide Progress;
    var i := HasPlace(done, ms, j);
  }

  function Widened(last: Finding, f: Finding): Finding {
    var wider := if f.end > last.end then last.(end := f.end) else last;
    if f.score > last.score then wider.(category := f.category, score := f.score) else wider
  }

  lemma AbsorbMeans(ms: seq<Finding>, f: Finding)
    ensures ms != [] && f.start <= ms[|ms| - 1].end ==> Absorb(ms, f) == ms[..|ms| - 1] + [Widened(ms[|ms| - 1], f)]
    ensures !(ms != [] && f.start <= ms[|ms| - 1].end) ==> Absorb(ms, f) == ms + [f]
  {
  }

  /** The wider span has no more of these findings in it. */
  predicate NoneAdded(done: seq<Finding>, last: Finding, wide: Finding) {
    forall j :: 0 <= j < |done| && Inside(done[j], wide) ==> Inside(done[j], last)
  }

  /** The stronger of the name so far and the next finding names the widened span. */
  lemma NamesWider(done: seq<Finding>, last: Finding, k: nat, f: Finding)
    requires Names(done, last, k) && last.start <= f.start <= f.end && f.start <= last.end
    requires NoneAdded(done, last, Widened(last, f))
    ensures Named(done + [f], Widened(last, f))
  {
    var wide, all := Widened(last, f), done + [f];
    assert forall j :: 0 <= j < |done| ==> all[j] == done[j];
    assert all[|done|] == f;
    if f.score > last.score {
      assert Names(all, wide, |done|);
    } else {
      assert Names(all, wide, k);
    }
  }

  lemma WidenedNamed(done: seq<Finding>, ms: seq<Finding>, f: Finding, last: Finding, wide: Finding)
    requires Progress(done, ms) && ComesNext(done, f) && ms != [] && last == ms[|ms| - 1]
    requires f.start <= last.end && wide == Widened(last, f) && wide.start == last.start
    ensures Named(done + [f], wide)
  {
    hide *;
    LastStarts(done, ms, f, |ms| - 1);
    WideHasNoMore(done, ms, wide);
    var k := HasName(done, ms, |ms| - 1);
    NamesWider(done, last, k, f);
  }

  lemma WidenedStart(last: Finding, f: Finding)
    ensures Widened(last, f).start == last.start
  {
  }

  lemma WideHasNoMore(done: seq<Finding>, ms: seq<Finding>, wide: Finding)
    requires Progress(done, ms) && ms != [] && wide.start == ms[|ms| - 1].start
    ensures NoneAdded(done, ms[|ms| - 1], wide)
  {
    hide Progress, Inside;
    forall j | 0 <= j < |done| && Inside(done[j], wide) ensures Inside(done[j], ms[|ms| - 1]) {
      InLast(done, ms, j, wide);
    }
  }

  lemma AbsorbSeparated(done: seq<Finding>, ms: seq<Finding>, f: Finding)
    requires Progress(done, ms) && ComesNext(done, f)
    ensures Separated(Absorb(ms, f))
  {
    assert f.start <= f.end;
    hide Progress, ComesNext, Absorb, Separated;
    AbsorbMeans(ms, f);
    if ms == [] {
      OneSpan(f);
    } else {
      LastStarts(done, ms, f, |ms| - 1);
      if f.start <= ms[|ms| - 1].end {
        WidenedSeparated(ms, f);
      } else {
        MoreSeparated(ms, f);
      }
    }
  }

  lemma OneSpan(f: Finding)
    requires f.start <= f.end
    ensures Separated([f])
  {
  }

  lemma MoreSeparated(ms: seq<Finding>, f: Finding)
    requires Separated(ms) && ms != [] && ms[|ms| - 1].end < f.start <= f.end
    ensures Separated(ms + [f])
  {
    var all := ms + [f];
    forall a, b | 0 <= a < b < |all| ensures all[a].end < all[b].start {
      if b == |ms| && a < |ms| - 1 {
        assert ms[a].end < ms[|ms| - 1].start <= ms[|ms| - 1].end;
      }
    }
  }

  lemma WidenedSeparated(ms: seq<Finding>, f: Finding)
    requires Separated(ms) && ms != []
    ensures Separated(ms[..|ms| - 1] + [Widened(ms[|ms| - 1], f)])
  {
    var w := Widened(ms[|ms| - 1], f);
    assert w.start == ms[|ms| - 1].start && w.end >= ms[|ms| - 1].end;
    hide Widened;
  }

  lemma InWidened(x: Finding, last: Finding, f: Finding)
    requires last.start <= f.start <= last.end
    ensures Inside(f, Widened(last, f)) && (Inside(x, last) ==> Inside(x, Widened(last, f)))
  {
  }

  lemma AbsorbContains(done: seq<Finding>, ms: seq<Finding>, f: Finding, j: nat)
    requires Progress(done, ms) && ComesNext(done, f) && j <= |done|
    ensures Contained((done + [f])[j], Absorb(ms, f))
  {
    var x, i := f, |ms|;
    hide Progress, Absorb, Widened, ComesNext, Separated;
    AbsorbMeans(ms, f);
    if j < |done| {
      x := done[j];
      i := HasPlace(done, ms, j);
    }
    if ms != [] && f.start <= ms[|ms| - 1].end {
      LastStarts(done, ms, f, |ms| - 1);
      InWidened(x, ms[|ms| - 1], f);
      i := if i < |ms| - 1 then i else |ms| - 1;
    }
    assert Inside(x, Absorb(ms, f)[i]);
  }

  /** A finding after the last span is named by itself. */
  lemma NewNamed(done: seq<Finding>, ms: seq<Finding>, f: Finding)
    requires Progress(done, ms) && f.start <= f.end && (ms == [] || f.start > ms[|ms| - 1].end)
    ensures Named(done + [f], f)
  {
    hide Progress;
    forall j | 0 <= j < |done| ensures !Inside(done[j], f) {
      var n := HasPlace(done, ms, j);
    }
    var all := done + [f];
    assert forall j :: 0 <= j < |done| ==> all[j] == done[j];
    assert Names(all, f, |done|);
  }

  lemma AbsorbNames(done: seq<Finding>, ms: seq<Finding>, f: Finding, i: nat)
    requires Progress(done, ms) && ComesNext(done, f) && i < |Absorb(ms, f)|
    ensures Named(done + [f], Absorb(ms, f)[i])
  {
    assert f.start <= f.end;
    hide *;
    AbsorbMeans(ms, f);
    if ms != [] && f.start <= ms[|ms| - 1].end {
      if i == |ms| - 1 {
        WidenedStart(ms[|ms| - 1], f);
        WidenedNamed(done, ms, f, ms[|ms| - 1], Widened(ms[|ms| - 1], f));
      } else {
        NotInEarlier(done, ms, f, i);
      }
    } else if i < |ms| {
      SpanBefore(done, ms, f, i);
      NotInEarlier(done, ms, f, i);
    } else {
      NewNamed(done, ms, f);
    }
  }

  lemma SpanBefore(done: seq<Finding>, ms: seq<Finding>, f: Finding, i: nat)
    requires Progress(done, ms) && i < |ms| && f.start > ms[|ms| - 1].end
    ensures f.start > ms[i].end
  {
    hide Named, Contained;
  }

  lemma AbsorbProgress(done: seq<Finding>, ms: seq<Finding>, f: Finding)
    requires Progress(done, ms) && ComesNext(done, f)
    ensures Progress(done + [f], Absorb(ms, f))
  {
    hide Absorb, Named, Contained, Separated;
    var all, ms' := done + [f], Absorb(ms, f);
    assert Spans(all);
    AbsorbSeparated(done, ms, f);
    forall j | 0 <= j < |all| ensures Contained(all[j], ms') {
      AbsorbContains(done, ms, f, j);
    }
    forall i | 0 <= i < |ms'| ensures Named(all, ms'[i]) {
      AbsorbNames(done, ms, f, i);
    }
  }

  lemma {:induction false} AbsorbAllProgress(done: seq<Finding>, ms: seq<Finding>, later: seq<Finding>)
    requires Progress(done, ms) && Spans(later) && Ordered(done + later)
    ensures Progress(done + later, AbsorbAll(ms, later))
    decreases |later|
  {
    if later == [] {
      assert done + later == done;
    } else {
      hide Progress, Absorb;
      var f, all := later[0], done + later;
      forall j | 0 <= j < |done| ensures done[j].start <= f.start {
        assert all[j] == done[j] && all[|done|] == f;
        assert Before(all[j], all[|done|]);
      }
      assert ComesNext(done, f) && Spans(later[1..]);
      hide Before;
      AbsorbProgress(done, ms, f);
      assert done + [f] + later[1..] == all;
      AbsorbAllProgress(done + [f], Absorb(ms, f), later[1..]);
    }
  }

  /**
   Each merged span has the category and the score of one finding in it: every other in it has a lower score, or
   the same and comes later.
   */
  lemma MergeNamesFirst(fs: seq<Finding>, i: nat) returns (k: nat)
    requires Spans(fs) && i < |Merged(fs)|
    ensures var m := Merged(fs)[i];
            && k < |fs| && Inside(fs[k], m) && fs[k].category == m.category && fs[k].score == m.score
            && forall j :: 0 <= j < |fs| && j != k && Inside(fs[j], m) ==>
                 fs[j].score < m.score || (fs[j].score == m.score && Precedes(fs, k, j))
  {
    hide *;
    var sorted, order, m := Sort(fs), Order(fs, |fs|), Merged(fs)[i];
    assert fs[..|fs|] == fs;
    OrderSorts(fs, |fs|);
    OrderInTurn(fs, |fs|);
    SortCorrect(fs);
    SortedSpans(fs, sorted);
    assert [] + sorted == sorted;
    NothingMerged();
    AbsorbAllProgress([], [], sorted);
    MergedMeans(fs);
    var q := HasName(sorted, Merged(fs), i);
    k := FirstOfAll(fs, sorted, order, m, q);
  }

  lemma MergedMeans(fs: seq<Finding>)
    ensures Merged(fs) == AbsorbAll([], Sort(fs))
  {
    hide AbsorbAll, Sort;
  }

  lemma FirstOfAll(fs: seq<Finding>, sorted: seq<Finding>, order: seq<nat>, m: Finding, q: nat) returns (k: nat)
    requires Within(order, |fs|) && sorted == Chosen(fs, order) && InTurn(fs, order, |fs|) && Names(sorted, m, q)
    ensures && k < |fs| && Inside(fs[k], m) && fs[k].category == m.category && fs[k].score == m.score
            && forall j :: 0 <= j < |fs| && j != k && Inside(fs[j], m) ==>
                 fs[j].score < m.score || (fs[j].score == m.score && Precedes(fs, k, j))
  {
    hide Precedes, Inside;
    k := order[q];
    forall j | 0 <= j < |fs| && j != k && Inside(fs[j], m)
      ensures fs[j].score < m.score || (fs[j].score == m.score && Precedes(fs, k, j))
    {
      assert j in order;
      var p :| 0 <= p < |order| && order[p] == j;
      assert sorted[p] == fs[j];
    }
  }

  lemma SortedSpans(fs: seq<Finding>, sorted: seq<Finding>)
    requires Spans(fs) && forall x :: x in sorted <==> x in fs
    ensures Spans(sorted)
  {
    forall i | 0 <= i < |sorted| ensures sorted[i].start <= sorted[i].end {
      assert sorted[i] in fs;
    }
  }

  lemma NothingMerged()
    ensures Progress([], [])
  {
  }
}
