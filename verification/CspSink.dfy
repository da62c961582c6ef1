/**
 The report sink of `src/csp_sink.rs`: reports fold into counted pairs until they are taken for sending. The
 per-client limiter in front of it is not part of this model.
 */
module CspSink {
  import opened Wrappers

  const MAX_PENDING: nat := 64
  const MAX_COUNT_PER_PAIR: nat := 10000

  datatype Violation = Violation(directive: string, blockedUri: string, documentUri: string)

  type Key = (string, string)

  /** The document a pair was first seen on, and how many reports it stands for. */
  datatype Folded = Folded(documentUri: string, count: nat)

  type Pending = map<Key, Folded>

  datatype Fold = Added | Counted | Overflow

  function KeyOf(v: Violation): Key {
    (v.directive, v.blockedUri)
  }

  function Queued(p: Pending, v: Violation): (Pending, Fold) {
    var k := KeyOf(v);
    if k in p then
      if p[k].count >= MAX_COUNT_PER_PAIR then (p, Overflow)
      else (p[k := Folded(p[k].documentUri, p[k].count + 1)], Counted)
    else if |p| >= MAX_PENDING then (p, Overflow)
    else (p[k := Folded(v.documentUri, 1)], Added)
  }

  /** Never more than 64 pairs, each standing for one to ten thousand reports. */
  predicate Bounded(p: Pending) {
    |p| <= 64 && forall k :: k in p ==> 1 <= p[k].count <= 10_000
  }

  /** The taken list holds each pending pair once, as a violation and its count. */
  predicate Lists(taken: seq<(Violation, nat)>, p: Pending) {
    && (forall i :: 0 <= i < |taken| ==> KeyOf(taken[i].0) in p
                                         && p[KeyOf(taken[i].0)] == Folded(taken[i].0.documentUri, taken[i].1))
    && (forall i, j :: 0 <= i < j < |taken| ==> KeyOf(taken[i].0) != KeyOf(taken[j].0))
    && |taken| == |p|
  }

  class Sink {
    var pending: Pending

    constructor ()
      ensures pending == map[]
    {
      pending := map[];
    }

    method Queue(v: Violation) returns (fold: Fold)
      modifies this
      ensures (pending, fold) == Queued(old(pending), v)
    {
      var k := KeyOf(v);
      if k in pending {
        if pending[k].count >= MAX_COUNT_PER_PAIR {
          return Overflow;
        }
        pending := pending[k := Folded(pending[k].documentUri, pending[k].count + 1)];
        return Counted;
      }
      if |pending| >= MAX_PENDING {
        return Overflow;
      }
      pending := pending[k := Folded(v.documentUri, 1)];
      fold := Added;
    }

    method Take() returns (taken: seq<(Violation, nat)>)
      modifies this
      ensures pending == map[] && Lists(taken, old(pending))
      ensures SumOf(taken) == Total(old(pending))
    {
      hide Listing, Total, SumOf;
      var left := pending;
      ListingStart(left);
      pending := map[];
      taken := [];
      while left != map[]
        invariant pending == map[]
        invariant Listing(taken, left, old(pending)) && SumOf(taken) + Total(left) == Total(old(pending))
        decreases |left|
      {
        var k :| k in left;
        var entry := (Violation(k.0, k.1, left[k].documentUri), left[k].count);
        TotalAt(left, k);
        ListingStep(taken, left, old(pending), k);
        SumAppend(taken, entry);
        taken := taken + [entry];
        left := left - {k};
      }
      ListingEnd(taken, old(pending));
    }
  }

  lemma ListingStart(all: Pending)
    ensures Listing([], all, all) && SumOf([]) == 0
  {
  }

  lemma ListingEnd(taken: seq<(Violation, nat)>, all: Pending)
    requires Listing(taken, map[], all)
    ensures Lists(taken, all) && Total(map[]) == 0
  {
  }

  /** Part of the way through: what is taken and what is left make up the whole. */
  predicate Listing(taken: seq<(Violation, nat)>, left: Pending, all: Pending) {
    && (forall i :: 0 <= i < |taken| ==> var k := KeyOf(taken[i].0);
                                         k in all && k !in left && all[k] == Folded(taken[i].0.documentUri, taken[i].1))
    && (forall i, j :: 0 <= i < j < |taken| ==> KeyOf(taken[i].0) != KeyOf(taken[j].0))
    && (forall k :: k in left ==> k in all && all[k] == left[k])
    && |taken| + |left| == |all|
  }

  lemma ListingStep(taken: seq<(Violation, nat)>, left: Pending, all: Pending, k: Key)
    requires Listing(taken, left, all) && k in left
    ensures Listing(taken + [(Violation(k.0, k.1, left[k].documentUri), left[k].count)], left - {k}, all)
    ensures |left - {k}| == |left| - 1
  {
    assert left == (left - {k})[k := left[k]];
    var t := taken + [(Violation(k.0, k.1, left[k].documentUri), left[k].count)];
    assert KeyOf(t[|taken|].0) == k;
    forall i, j | 0 <= i < j < |t| ensures KeyOf(t[i].0) != KeyOf(t[j].0) {
      if j == |taken| {
        assert KeyOf(taken[i].0) !in left;
      }
    }
  }

  // ---- Sums -------------------------------------------------------------------------------------

  /** All reports that are pending. */
  ghost function Total(p: Pending): nat {
    if p == map[] then 0
    else
      var k :| k in p;
      p[k].count + Total(p - {k})
  }

  lemma {:induction false} TotalAt(p: Pending, k: Key)
    requires k in p
    ensures Total(p) == p[k].count + Total(p - {k})
    decreases |p|
  {
    var first :| first in p && Total(p) == p[first].count + Total(p - {first});
    if first != k {
      Smaller(p, first);
      Smaller(p, k);
      TotalAt(p - {first}, k);
      TotalAt(p - {k}, first);
      assert p - {first} - {k} == p - {k} - {first};
    }
  }

  lemma Smaller(p: Pending, k: Key)
    requires k in p
    ensures |p - {k}| == |p| - 1
  {
    assert p == (p - {k})[k := p[k]];
  }

  lemma TotalPut(p: Pending, k: Key, f: Folded)
    ensures Total(p[k := f]) == Total(p - {k}) + f.count
  {
    TotalAt(p[k := f], k);
    assert p[k := f] - {k} == p - {k};
  }

  function SumOf(taken: seq<(Violation, nat)>): nat {
    if taken == [] then 0 else taken[0].1 + SumOf(taken[1..])
  }

  lemma {:induction false} SumAppend(taken: seq<(Violation, nat)>, e: (Violation, nat))
    ensures SumOf(taken + [e]) == SumOf(taken) + e.1
    decreases |taken|
  {
    if taken == [] {
      assert taken + [e] == [e] && [e][1..] == [];
    } else {
      SumAppend(taken[1..], e);
      assert (taken + [e])[1..] == taken[1..] + [e];
    }
  }

  /** One report moves exactly one of the two counts by one. */
  lemma QueuedTotal(p: Pending, v: Violation)
    ensures var (p', fold) := Queued(p, v);
            Total(p') + (if fold == Overflow then 1 else 0) == Total(p) + 1
  {
    hide Total;
    var k := KeyOf(v);
    if k in p {
      TotalAt(p, k);
      TotalPut(p, k, Folded(p[k].documentUri, p[k].count + 1));
    } else {
      assert p - {k} == p;
      TotalPut(p, k, Folded(v.documentUri, 1));
    }
  }

  lemma QueuedBounded(p: Pending, v: Violation)
    requires Bounded(p)
    ensures Bounded(Queued(p, v).0)
  {
    var k := KeyOf(v);
    if k in p {
      assert |p[k := Folded(p[k].documentUri, p[k].count + 1)]| == |p|;
    }
  }

  // ---- Runs -------------------------------------------------------------------------------------

  datatype Event = Report(v: Violation) | Flush

  /** The sink and three counts kept beside it: reports queued, reports taken, reports that overflowed. */
  datatype Run = Run(pending: Pending, queued: nat, taken: nat, overflowed: nat)

  ghost function Step(r: Run, e: Event): Run {
    match e
    case Flush => r.(pending := map[], taken := r.taken + Total(r.pending))
    case Report(v) =>
      var (p, fold) := Queued(r.pending, v);
      r.(pending := p, queued := r.queued + 1, overflowed := r.overflowed + if fold == Overflow then 1 else 0)
  }

  ghost function RunOf(r: Run, events: seq<Event>): Run
    decreases |events|
  {
    if events == [] then r else RunOf(Step(r, events[0]), events[1..])
  }

  ghost predicate Balanced(r: Run) {
    Bounded(r.pending) && r.queued == r.taken + Total(r.pending) + r.overflowed
  }

  lemma StepBalanced(r: Run, e: Event)
    requires Balanced(r)
    ensures Balanced(Step(r, e))
  {
    match e
    case Flush =>
    case Report(v) =>
      QueuedTotal(r.pending, v);
      QueuedBounded(r.pending, v);
      hide Total, Queued, Bounded;
  }

  lemma {:induction false} RunKeepsBalance(r: Run, events: seq<Event>)
    requires Balanced(r)
    ensures Balanced(RunOf(r, events))
    decreases |events|
  {
    hide Balanced, Step;
    if events != [] {
      StepBalanced(r, events[0]);
      RunKeepsBalance(Step(r, events[0]), events[1..]);
    }
  }

  /** Over every run of a new sink: queued is taken plus pending plus overflowed, and the bounds hold. */
  lemma RunBalanced(events: seq<Event>)
    ensures var r := RunOf(Run(map[], 0, 0, 0), events);
            Bounded(r.pending) && r.queued == r.taken + Total(r.pending) + r.overflowed
  {
    hide *;
    EmptyBalanced();
    RunKeepsBalance(Run(map[], 0, 0, 0), events);
    BalancedMeans(RunOf(Run(map[], 0, 0, 0), events));
  }

  lemma EmptyBalanced()
    ensures Balanced(Run(map[], 0, 0, 0))
  {
  }

  lemma BalancedMeans(r: Run)
    requires Balanced(r)
    ensures Bounded(r.pending) && r.queued == r.taken + Total(r.pending) + r.overflowed
  {
    hide Bounded, Total;
  }

  // ---- One interval -----------------------------------------------------------------------------

  /** What is pending after these reports, from an empty sink. */
  function Filled(vs: seq<Violation>): Pending {
    if vs == [] then map[] else Queued(Filled(vs[..|vs| - 1]), vs[|vs| - 1]).0
  }

  /** The first 64 distinct pairs, in order of arrival. */
  function Kept(vs: seq<Violation>): seq<Key> {
    if vs == [] then []
    else
      var before := Kept(vs[..|vs| - 1]);
      var k := KeyOf(vs[|vs| - 1]);
      if k in before || |before| == 64 then before else before + [k]
  }

  function Occurrences(vs: seq<Violation>, k: Key): nat {
    if vs == [] then 0 else Occurrences(vs[..|vs| - 1], k) + if KeyOf(vs[|vs| - 1]) == k then 1 else 0
  }

  function Capped(n: nat): nat {
    if n < 10_000 then n else 10_000
  }

  lemma {:induction false} KeptOccurs(vs: seq<Violation>, k: Key)
    ensures Occurrences(vs, k) == 0 ==> k !in Kept(vs)
    ensures k !in Kept(vs) && |Kept(vs)| < 64 ==> Occurrences(vs, k) == 0
    ensures |Kept(vs)| <= 64
    decreases |vs|
  {
    if vs != [] {
      KeptOccurs(vs[..|vs| - 1], k);
    }
  }

  /** What an interval keeps. */
  ghost predicate Summarises(p: Pending, vs: seq<Violation>) {
    Tallies(p, vs) && Documents(p, vs)
  }

  ghost predicate Tallies(p: Pending, vs: seq<Violation>) {
    && |p| == |Kept(vs)|
    && (forall k :: k in p <==> k in Kept(vs))
    && (forall k :: k in p ==> p[k].count == Capped(Occurrences(vs, k)))
  }

  predicate Documents(p: Pending, vs: seq<Violation>) {
    forall k :: k in p ==> FirstDocument(vs, k) == Some(p[k].documentUri)
  }

  /** The document of the first report of a pair. */
  function FirstDocument(vs: seq<Violation>, k: Key): Option<string> {
    if vs == [] then None
    else
      var before := FirstDocument(vs[..|vs| - 1], k);
      if before == None && KeyOf(vs[|vs| - 1]) == k then Some(vs[|vs| - 1].documentUri) else before
  }

  lemma {:induction false} FirstDocumentOccurs(vs: seq<Violation>, k: Key)
    ensures FirstDocument(vs, k) == None <==> Occurrences(vs, k) == 0
  {
    if vs != [] {
      FirstDocumentOccurs(vs[..|vs| - 1], k);
    }
  }

  /** What becomes of one more report: it is counted, added or dropped by what has been kept so far. */
  lemma FoldExact(vs: seq<Violation>, v: Violation)
    ensures var k, fold := KeyOf(v), Queued(Filled(vs), v).1;
            && (fold == Counted <==> k in Kept(vs) && Occurrences(vs, k) < 10_000)
            && (fold == Added <==> k !in Kept(vs) && |Kept(vs)| < 64)
            && (fold == Overflow <==> if k in Kept(vs) then Occurrences(vs, k) >= 10_000 else |Kept(vs)| == 64)
  {
    IntervalExact(vs);
    KeptOccurs(vs, KeyOf(v));
    hide Filled, Kept, Occurrences;
  }

  /** The first 64 distinct pairs are kept, each with the number of its reports up to the cap and the document of its first. */
  lemma {:induction false} IntervalExact(vs: seq<Violation>)
    ensures Summarises(Filled(vs), vs)
    decreases |vs|
  {
    if vs != [] {
      var before, v := vs[..|vs| - 1], vs[|vs| - 1];
      IntervalExact(before);
      KeptOccurs(before, KeyOf(v));
      SummaryStep(Filled(before), before, v);
      assert before + [v] == vs;
      hide Summarises, Queued, Kept, Occurrences;
    }
  }

  lemma DocumentsStep(p: Pending, vs: seq<Violation>, v: Violation)
    requires Documents(p, vs) && (KeyOf(v) !in p && |p| < 64 ==> Occurrences(vs, KeyOf(v)) == 0)
    ensures Documents(Queued(p, v).0, vs + [v])
  {
    var all, key, p' := vs + [v], KeyOf(v), Queued(p, v).0;
    assert all[..|vs|] == vs && all[|vs|] == v;
    FirstDocumentOccurs(vs, key);
    hide Occurrences;
    forall k | k in p' ensures FirstDocument(all, k) == Some(p'[k].documentUri) {
      assert FirstDocument(all, k) == if FirstDocument(vs, k) == None && key == k then Some(v.documentUri) else FirstDocument(vs, k);
    }
  }

  lemma KeptAppend(vs: seq<Violation>, v: Violation)
    ensures var key := KeyOf(v);
            Kept(vs + [v]) == (if key in Kept(vs) || |Kept(vs)| == 64 then Kept(vs) else Kept(vs) + [key])
  {
    assert (vs + [v])[..|vs|] == vs;
  }

  lemma OccurrencesAppend(vs: seq<Violation>, v: Violation, k: Key)
    ensures Occurrences(vs + [v], k) == Occurrences(vs, k) + if KeyOf(v) == k then 1 else 0
  {
    assert (vs + [v])[..|vs|] == vs;
  }

  lemma TalliesStep(p: Pending, vs: seq<Violation>, v: Violation)
    requires Tallies(p, vs)
    ensures Tallies(Queued(p, v).0, vs + [v])
  {
    hide Kept, Occurrences;
    var key, p' := KeyOf(v), Queued(p, v).0;
    KeptOccurs(vs, key);
    KeptAppend(vs, v);
    if key in p {
      assert |p[key := Folded(p[key].documentUri, p[key].count + 1)]| == |p|;
    }
    forall k | k in p' ensures p'[k].count == Capped(Occurrences(vs + [v], k)) {
      OccurrencesAppend(vs, v, k);
    }
  }

  lemma SummaryStep(p: Pending, vs: seq<Violation>, v: Violation)
    requires Summarises(p, vs)
    ensures Summarises(Queued(p, v).0, vs + [v])
  {
    KeptOccurs(vs, KeyOf(v));
    hide Kept, Occurrences, Documents, Queued;
    TalliesStep(p, vs, v);
    DocumentsStep(p, vs, v);
  }
}
