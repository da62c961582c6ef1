/**
 The engine refines the protocol. `BudgetEngine` is taken apart into single attempts at the store, and any
 number of calls of any number of engines over one store are interleaved attempt by attempt, each attempt
 lost or not. The account of a history is read off its acts: a hold for each reserve the store admitted,
 closed by the first rollback or settle that reached the store. The history is a run of `BudgetProtocol` with
 this account for its ledger, so the protocol's laws hold of the engines. The attempts of one call, taken alone, are the call as `BudgetEngine` has it.
 */
module BudgetRefinement {
  import opened Wrappers
  import opened BudgetKeys
  import opened BudgetStore
  import opened BudgetProtocol
  import opened BudgetEngine

  // ---- Runs -------------------------------------------------------------------------------------

  lemma {:induction false} RunConcat(limits: string -> nat, s: Sys, a: seq<Step>, t: Sys, b: seq<Step>, u: Sys)
    requires Run(limits, s, a, t) && Run(limits, t, b, u)
    ensures Run(limits, s, a + b, u)
    decreases |a|
  {
    if a == [] {
      assert a + b == b;
    } else {
      assert (a + b)[0] == a[0] && (a + b)[1..] == a[1..] + b;
      RunConcat(limits, After(s, a[0]), a[1..], t, b, u);
    }
  }

  lemma RunOne(limits: string -> nat, s: Sys, step: Step)
    requires Enabled(limits, s, step)
    ensures Run(limits, s, [step], After(s, step))
  {
    assert [step][0] == step && [step][1..] == [];
  }

  /** A run and one more step. */
  lemma RunThen(limits: string -> nat, s: Sys, a: seq<Step>, t: Sys, step: Step)
    requires Run(limits, s, a, t) && Enabled(limits, t, step)
    ensures Run(limits, s, a + [step], After(t, step))
  {
    RunOne(limits, t, step);
    hide Run;
    RunConcat(limits, s, a, t, [step], After(t, step));
  }

  // ---- One settle -------------------------------------------------------------------------------

  predicate SameButStatus(a: Hold, b: Hold) {
    a == b.(status := a.status)
  }

  /** `t` differs from `s` at most in the books, in the status of line `n`, and not in what `n` is. */
  ghost predicate OnlyLine(s: Sys, t: Sys, n: nat) {
    && t.phases == s.phases && t.ids == s.ids && |t.ledger| == |s.ledger|
    && (forall i :: 0 <= i < |s.ledger| && i != n ==> t.ledger[i] == s.ledger[i])
    && (n < |s.ledger| ==> SameButStatus(t.ledger[n], s.ledger[n]))
  }

  /** A settle of a tagged line, as the script applies it, is a run. */
  lemma SettleIsRun(limits: string -> nat, s: Sys, n: nat, actual: nat) returns (steps: seq<Step>, t: Sys)
    requires Inv(limits, s) && Enabled(limits, s, Mark(n, actual)) && actual != s.ledger[n].amount
    ensures Run(limits, s, steps, t) && Inv(limits, t)
    ensures t.books == Settle(s.books, s.ledger[n].key, actual as int - s.ledger[n].amount, MarkerOf(s.ledger[n]))
    ensures OnlyLine(s, t, n)
    ensures t.ledger[n].status == if s.ledger[n].status == Open then Closed(actual) else s.ledger[n].status
  {
    hide Inv, MarkerOf, Sum;
    SettleIsMarkThenMove(limits, s, n, actual);
    LineMarker(limits, s, n);
    RunOne(limits, s, Mark(n, actual));
    var marked := After(s, Mark(n, actual));
    if s.ledger[n].status == Open {
      assert Enabled(limits, marked, Move(n));
      RunThen(limits, s, [Mark(n, actual)], marked, Move(n));
      steps, t := [Mark(n, actual), Move(n)], After(marked, Move(n));
      assert [Mark(n, actual)] + [Move(n)] == steps;
    } else {
      steps, t := [Mark(n, actual)], marked;
    }
    RunKeepsInv(limits, s, steps, t);
  }

  lemma LineMarker(limits: string -> nat, s: Sys, n: nat)
    requires Inv(limits, s) && n < |s.ledger| && s.ledger[n].tag != Untagged
    ensures MarkerOf(s.ledger[n]) in s.books.settled <==> s.ledger[n].status != Open
  {
    hide Balanced, Capped, Tidy, MarkersKnown, MarkerOf;
  }

  // ---- The setup --------------------------------------------------------------------------------

  datatype Setup = Setup(budgets: seq<Budget>, prefix: string)

  /** Windows are not empty, and names are colon-free and differ. */
  predicate Configured(c: Setup) {
    && (forall i :: 0 <= i < |c.budgets| ==> c.budgets[i].windowSecs > 0 && ':' !in c.budgets[i].name)
    && (forall i, j :: 0 <= i < j < |c.budgets| ==> c.budgets[i].name != c.budgets[j].name)
  }

  ghost predicate BelongsTo(c: Setup, key: string, i: nat) {
    && i < |c.budgets| && c.budgets[i].windowSecs > 0
    && exists dims: Dims, now: nat :: key == Key(c.budgets[i], c.prefix, dims, now)
  }

  /** The limit of the budget a counter belongs to. */
  ghost function LimitOf(c: Setup, key: string): nat {
    if exists i: nat :: BelongsTo(c, key, i) then
      var i: nat :| BelongsTo(c, key, i);
      c.budgets[i].limit
    else 0
  }

  ghost function Limits(c: Setup): string -> nat {
    k => LimitOf(c, k)
  }

  lemma OneOwner(c: Setup, key: string, i: nat, j: nat)
    requires Configured(c) && BelongsTo(c, key, i) && BelongsTo(c, key, j)
    ensures i == j
  {
    var d1: Dims, t1: nat :| key == Key(c.budgets[i], c.prefix, d1, t1);
    var d2: Dims, t2: nat :| key == Key(c.budgets[j], c.prefix, d2, t2);
    var a, b := c.budgets[i], c.budgets[j];
    ColonFreeNamesSeparate(c.prefix, a.name, Dimension(a, d1), t1 / a.windowSecs, b.name, Dimension(b, d2), t2 / b.windowSecs);
  }

  lemma LimitOfLine(c: Setup, i: nat, dims: Dims, now: nat)
    requires Configured(c) && i < |c.budgets|
    ensures Limits(c)(Key(c.budgets[i], c.prefix, dims, now)) == c.budgets[i].limit
  {
    var key := Key(c.budgets[i], c.prefix, dims, now);
    hide Key;
    assert BelongsTo(c, key, i);
    forall j: nat | BelongsTo(c, key, j) ensures j == i {
      OneOwner(c, key, i, j);
    }
  }

  lemma {:induction false} LinesPositive(c: Setup, dims: Dims, est: Spend, now: nat, from: nat)
    requires Configured(c) && from <= |c.budgets|
    ensures forall l :: l in Lines(c.budgets, c.prefix, dims, est, now, from) ==> l.amount > 0
    decreases |c.budgets| - from
  {
    hide Key, Amount;
    if from < |c.budgets| {
      LinesPositive(c, dims, est, now, from + 1);
    }
  }

  /** The lines of a request: charged against the limit of their counter, and no counter twice. */
  predicate Chargeable(limits: string -> nat, budgets: seq<Budget>, lines: seq<Line>) {
    && (forall i :: 0 <= i < |lines| ==> lines[i].index < |budgets| && lines[i].amount > 0
                                         && limits(lines[i].key) == budgets[lines[i].index].limit)
    && DistinctKeys(lines)
  }

  lemma LinesChargeable(c: Setup, dims: Dims, est: Spend, now: nat)
    requires Configured(c)
    ensures Chargeable(Limits(c), c.budgets, Lines(c.budgets, c.prefix, dims, est, now, 0))
  {
    var lines := Lines(c.budgets, c.prefix, dims, est, now, 0);
    LinesDistinct(c.budgets, c.prefix, dims, est, now, 0);
    LinesPositive(c, dims, est, now, 0);
    hide Lines, Key, Limits;
    forall i | 0 <= i < |lines|
      ensures lines[i].amount > 0 && Limits(c)(lines[i].key) == c.budgets[lines[i].index].limit
    {
      assert lines[i] in lines;
      LimitOfLine(c, lines[i].index, dims, now);
    }
  }

  function LimitAt(c: Setup, line: Line): nat {
    if line.index < |c.budgets| then c.budgets[line.index].limit else 0
  }

  function SpentAt(c: Setup, line: Line, actual: Spend): nat {
    if line.index < |c.budgets| then Amount(c.budgets[line.index], actual.tokens, actual.costMicros) else line.amount
  }

  // ---- Calls in progress ------------------------------------------------------------------------

  /** Where a call stands. A settle works through the lines of a reservation, which stays as it is. */
  datatype Task =
    | Asking(held: seq<Line>, todo: seq<Line>, ids: seq<string>)
    | Retracting(left: seq<Line>, ids: seq<string>, tries: nat, why: Why, failures: nat)
    | Holding(id: string, held: seq<Line>)
    | Settling(grant: nat, next: nat, actual: Spend, tries: nat, failures: nat)

  /** Why a reserve gave up: the answer it got and the budget it asked. */
  datatype Why = Why(reply: Reply, index: nat)

  /** The store, the calls, and every id drawn. */
  datatype Engines = Engines(books: Books, tasks: map<nat, Task>, drawn: set<string>)

  datatype Act =
    | Start(t: nat, dims: Dims, estimate: Spend, now: nat, ids: seq<string>)
    | Ask(t: nat, fate: Fate)
    | Keep(t: nat)
    | Retract(t: nat, fate: Fate)
    | StartSettle(t: nat, grant: nat, actual: Spend)
    | Send(t: nat, fate: Fate)
    | Skip(t: nat)

  function IdSet(ids: seq<string>): set<string> {
    set i | 0 <= i < |ids| :: ids[i]
  }

  predicate Distinct(ids: seq<string>) {
    forall i, j :: 0 <= i < j < |ids| ==> ids[i] != ids[j]
  }

  /** The line a settle is at. */
  predicate AtLine(e: Engines, t: nat) {
    && t in e.tasks && e.tasks[t].Settling? && e.tasks[t].tries > 0
    && e.tasks[t].grant in e.tasks && e.tasks[e.tasks[t].grant].Holding?
    && e.tasks[t].next < |e.tasks[e.tasks[t].grant].held|
  }

  function LineOf(e: Engines, t: nat): Line
    requires AtLine(e, t)
  {
    e.tasks[e.tasks[t].grant].held[e.tasks[t].next]
  }

  /** A reserve draws UUIDs nobody drew before; a settle is of a reservation that was handed out. */
  ghost predicate Can(c: Setup, e: Engines, a: Act) {
    match a
    case Start(t, _, _, _, ids) =>
      && t !in e.tasks && |c.budgets| < |ids| && Distinct(ids) && IdSet(ids) !! e.drawn
      && forall i :: 0 <= i < |ids| ==> Uuid(ids[i])
    case Ask(t, _) => t in e.tasks && e.tasks[t].Asking? && e.tasks[t].todo != []
    case Keep(t) => t in e.tasks && e.tasks[t].Asking? && e.tasks[t].todo == [] && e.tasks[t].ids != []
    case Retract(t, _) =>
      t in e.tasks && e.tasks[t].Retracting? && e.tasks[t].left != [] && e.tasks[t].ids != [] && e.tasks[t].tries > 0
    case StartSettle(t, grant, _) => t !in e.tasks && grant in e.tasks && e.tasks[grant].Holding?
    case Send(t, _) => AtLine(e, t) && SpentAt(c, LineOf(e, t), e.tasks[t].actual) != LineOf(e, t).amount
    case Skip(t) => AtLine(e, t) && SpentAt(c, LineOf(e, t), e.tasks[t].actual) == LineOf(e, t).amount
  }

  function Set(e: Engines, t: nat, task: Task): Engines {
    e.(tasks := e.tasks[t := task])
  }

  /** The books after one attempt to settle. */
  function Attempt(b: Books, fate: Fate, key: string, delta: int, marker: string): Books {
    if fate == LostBefore then b else Settle(b, key, delta, marker)
  }

  /** An attempt that was the last and not answered is a failure. */
  function GivenUp(fate: Fate, tries: nat): nat {
    if fate != Arrives && tries == 1 then 1 else 0
  }

  function Do(c: Setup, e: Engines, a: Act): Engines
    requires Configured(c) && Can(c, e, a)
  {
    match a
    case Start(t, dims, estimate, now, ids) =>
      Set(e, t, Asking([], Lines(c.budgets, c.prefix, dims, estimate, now, 0), ids)).(drawn := e.drawn + IdSet(ids))
    case Ask(t, fate) =>
      var task := e.tasks[t];
      var line := task.todo[0];
      var (w, reply) := TryReserve(World(e.books, [fate]), line.key, line.amount, LimitAt(c, line));
      Set(e, t, if reply == Admitted then Asking(task.held + [line], task.todo[1..], task.ids)
                else Retracting(task.held, task.ids, RECONCILE_ATTEMPTS, Why(reply, line.index), 0)).(books := w.books)
    case Keep(t) => Set(e, t, Holding(e.tasks[t].ids[0], e.tasks[t].held))
    case Retract(t, fate) =>
      var task := e.tasks[t];
      var line, id := task.left[0], task.ids[0];
      var failures := task.failures + GivenUp(fate, task.tries);
      Set(e, t, if fate == Arrives || task.tries == 1 then Retracting(task.left[1..], task.ids[1..], RECONCILE_ATTEMPTS, task.why, failures)
                else Retracting(task.left, task.ids, task.tries - 1, task.why, failures))
      .(books := Attempt(e.books, fate, line.key, -(line.amount as int), RollbackMarker(line.key, id)))
    case StartSettle(t, grant, actual) => Set(e, t, Settling(grant, 0, actual, RECONCILE_ATTEMPTS, 0))
    case Send(t, fate) =>
      var task, line := e.tasks[t], LineOf(e, t);
      var id := e.tasks[task.grant].id;
      var failures := task.failures + GivenUp(fate, task.tries);
      Set(e, t, if fate == Arrives || task.tries == 1 then Settling(task.grant, task.next + 1, task.actual, RECONCILE_ATTEMPTS, failures)
                else Settling(task.grant, task.next, task.actual, task.tries - 1, failures))
      .(books := Attempt(e.books, fate, line.key, SpentAt(c, line, task.actual) as int - line.amount, SettleMarker(line.key, id)))
    case Skip(t) => Set(e, t, e.tasks[t].(next := e.tasks[t].next + 1))
  }

  ghost predicate Happens(c: Setup, e: Engines, acts: seq<Act>, last: Engines)
    requires Configured(c)
    decreases |acts|
  {
    if acts == [] then last == e else Can(c, e, acts[0]) && Happens(c, Do(c, e, acts[0]), acts[1..], last)
  }

  // ---- What the calls did -----------------------------------------------------------------------

  /** The open hold of call `r` on counter `key`, if there is one, is closed at `actual`. */
  function Closing(l: seq<Hold>, r: nat, key: string, actual: nat): seq<Hold> {
    seq(|l|, i requires 0 <= i < |l| =>
      if l[i].owner == Some(r) && l[i].key == key && l[i].status == Open then l[i].(status := Closed(actual)) else l[i])
  }

  function Landed(l: seq<Hold>, fate: Fate, r: nat, key: string, actual: nat): seq<Hold> {
    if fate == LostBefore then l else Closing(l, r, key, actual)
  }

  /**
   What an act adds to the account: a reserve that was admitted is a hold, owned if it was answered, and a
   rollback or settle that reaches the store closes the hold it is for, at nothing or at what was spent.
   */
  function Recorded(c: Setup, e: Engines, l: seq<Hold>, a: Act): seq<Hold>
    requires Can(c, e, a)
  {
    match a
    case Ask(t, fate) =>
      var line := e.tasks[t].todo[0];
      if fate == LostBefore || !Admits(e.books, line.key, line.amount, LimitAt(c, line)) then l
      else l + [Hold(if fate == Arrives then Some(t) else None, line.key, line.amount, Untagged, Open)]
    case Retract(t, fate) => Landed(l, fate, t, e.tasks[t].left[0].key, 0)
    case Send(t, fate) => Landed(l, fate, e.tasks[t].grant, LineOf(e, t).key, SpentAt(c, LineOf(e, t), e.tasks[t].actual))
    case _ => l
  }

  /** The account of a history: `l` and then what each act adds. */
  ghost function Account(c: Setup, e: Engines, l: seq<Hold>, acts: seq<Act>, last: Engines): seq<Hold>
    requires Configured(c) && Happens(c, e, acts, last)
    decreases |acts|
  {
    if acts == [] then l else Account(c, Do(c, e, acts[0]), Recorded(c, e, l, acts[0]), acts[1..], last)
  }

  /** A ledger without its markers, which the account has no need of. */
  function Bare(l: seq<Hold>): seq<Hold> {
    seq(|l|, i requires 0 <= i < |l| => l[i].(tag := Untagged))
  }

  lemma SameBare(a: seq<Hold>, b: seq<Hold>)
    requires |a| == |b| && forall i :: 0 <= i < |a| ==> b[i] == a[i].(tag := b[i].tag)
    ensures Bare(b) == Bare(a)
  {
  }

  lemma BareAppend(l: seq<Hold>, h: Hold)
    requires h.tag == Untagged
    ensures Bare(l + [h]) == Bare(l) + [h]
  {
  }

  lemma BareSum(column: Column, l: seq<Hold>, k: string)
    ensures Sum(column, Bare(l), k) == Sum(column, l, k)
  {
    SumSame(column, Bare(l), l, k);
  }

  /** A call has one hold on a counter, so closing that line of the ledger is closing it in the account. */
  lemma ClosedLine(limits: string -> nat, s: Sys, u: Sys, n: nat, r: nat, actual: nat)
    requires Inv(limits, s) && n < |s.ledger| && s.ledger[n].owner == Some(r) && OnlyLine(s, u, n)
    requires u.ledger[n].status == if s.ledger[n].status == Open then Closed(actual) else s.ledger[n].status
    ensures Bare(u.ledger) == Closing(Bare(s.ledger), r, s.ledger[n].key, actual)
  {
    hide Balanced, Capped, MarkersKnown, MarkersMatch, TidyHold;
    var was, now := Bare(s.ledger), Bare(u.ledger);
    forall i | 0 <= i < |was| ensures now[i] == Closing(was, r, s.ledger[n].key, actual)[i] {
      if i != n {
        assert u.ledger[i] == s.ledger[i];
      }
    }
  }

  // ---- Calls and the ledger ---------------------------------------------------------------------

  predicate IsLine(h: Hold, r: nat, line: Line, tag: Tag) {
    h.owner == Some(r) && h.key == line.key && h.amount == line.amount && h.tag == tag
  }

  /** The lines of call `r` stand in the ledger at the places `at`, tagged as `tag` says. */
  ghost predicate Stand(s: Sys, r: nat, at: seq<nat>, lines: seq<Line>, tag: Tag) {
    && |at| == |lines|
    && forall i :: 0 <= i < |at| ==> at[i] < |s.ledger| && IsLine(s.ledger[at[i]], r, lines[i], tag)
  }

  /** Ids a call will still draw from: UUIDs the protocol has not used. */
  ghost predicate NewIds(s: Sys, ids: seq<string>) {
    Distinct(ids) && forall i :: 0 <= i < |ids| ==> Uuid(ids[i]) && ids[i] !in s.ids
  }

  /** The ids a call has not used yet. The first of a rollback is in use as soon as it begins. */
  function Unused(task: Task): seq<string> {
    match task
    case Asking(_, _, ids) => ids
    case Retracting(left, ids, _, _, _) => if left == [] || ids == [] then [] else ids[1..]
    case _ => []
  }

  /** Call `r` and the ledger agree. */
  ghost predicate Agrees(c: Setup, e: Engines, s: Sys, r: nat, at: seq<nat>)
    requires r in e.tasks
  {
    match e.tasks[r]
    case Asking(held, todo, ids) =>
      && r in s.phases && s.phases[r] == Reserving && |held| + |todo| < |ids|
      && Chargeable(Limits(c), c.budgets, held + todo) && Stand(s, r, at, held, Untagged)
      && forall n :: 0 <= n < |s.ledger| && Owns(s.ledger[n], r) ==> n in at
    case Retracting(left, ids, tries, _, _) =>
      && r in s.phases && s.phases[r] == Aborted && |left| <= |ids| && tries > 0
      && DistinctKeys(left) && (forall i :: 0 <= i < |left| ==> left[i].amount > 0)
      && (if left == [] then at == []
          else |at| == |left| && Stand(s, r, at[..1], left[..1], ToRollBack(ids[0])) && Stand(s, r, at[1..], left[1..], Untagged))
    case Holding(id, held) =>
      r in s.phases && s.phases[r] == Committed && Stand(s, r, at, held, ToSettle(id))
    case Settling(grant, _, _, tries, _) =>
      r !in s.phases && grant in e.tasks && e.tasks[grant].Holding? && tries > 0
  }

  type Places = map<nat, seq<nat>>

  ghost predicate Matches(c: Setup, e: Engines, s: Sys, at: Places) {
    && Inv(Limits(c), s) && s.books == e.books && s.ids <= e.drawn
    && (forall p :: p in s.phases ==> p in e.tasks)
    && (forall r :: r in e.tasks ==> r in at && Agrees(c, e, s, r, at[r]))
    && (forall r :: r in e.tasks ==> NewIds(s, Unused(e.tasks[r])) && IdSet(Unused(e.tasks[r])) <= e.drawn)
    && (forall r, q :: r in e.tasks && q in e.tasks && r != q ==> IdSet(Unused(e.tasks[r])) !! IdSet(Unused(e.tasks[q])))
  }

  predicate SameHold(a: Hold, b: Hold) {
    a.owner == b.owner && a.key == b.key && a.amount == b.amount
  }

  /** What a step of call `t` leaves alone: who holds what, the tags of other calls' lines, and their phases. */
  ghost predicate Spares(s: Sys, u: Sys, t: nat) {
    && |s.ledger| <= |u.ledger|
    && (forall n :: 0 <= n < |s.ledger| ==> SameHold(u.ledger[n], s.ledger[n])
                                            && (s.ledger[n].owner != Some(t) ==> u.ledger[n].tag == s.ledger[n].tag))
    && (forall n :: |s.ledger| <= n < |u.ledger| ==> u.ledger[n].owner == None || u.ledger[n].owner == Some(t))
    && (forall p :: p != t ==> (p in u.phases <==> p in s.phases))
    && (forall p :: p != t && p in s.phases ==> u.phases[p] == s.phases[p])
  }

  lemma SparesTwice(s: Sys, u: Sys, v: Sys, t: nat)
    requires Spares(s, u, t) && Spares(u, v, t)
    ensures Spares(s, v, t)
  {
  }

  lemma StandStays(s: Sys, u: Sys, t: nat, r: nat, at: seq<nat>, lines: seq<Line>, tag: Tag)
    requires Spares(s, u, t) && r != t && Stand(s, r, at, lines, tag)
    ensures Stand(u, r, at, lines, tag)
  {
    forall i | 0 <= i < |at| ensures at[i] < |u.ledger| && IsLine(u.ledger[at[i]], r, lines[i], tag) {
      assert IsLine(s.ledger[at[i]], r, lines[i], tag);
    }
  }

  /** A call that does not move stays in agreement. */
  lemma AgreesStays(c: Setup, e: Engines, e': Engines, s: Sys, u: Sys, t: nat, r: nat, at: seq<nat>)
    requires Spares(s, u, t) && r != t && r in e.tasks && r in e'.tasks && e'.tasks[r] == e.tasks[r]
    requires Agrees(c, e, s, r, at)
    requires forall q :: q in e.tasks && e.tasks[q].Holding? ==> q in e'.tasks && e'.tasks[q].Holding?
    ensures Agrees(c, e', u, r, at)
  {
    match e.tasks[r] {
      case Asking(held, todo, ids) =>
        StandStays(s, u, t, r, at, held, Untagged);
        hide Stand, Chargeable;
        forall n | 0 <= n < |u.ledger| && Owns(u.ledger[n], r) ensures n in at {
          assert n < |s.ledger|;
          assert Owns(s.ledger[n], r);
        }
      case Retracting(left, ids, _, _, _) =>
        if left != [] {
          StandStays(s, u, t, r, at[..1], left[..1], ToRollBack(ids[0]));
          StandStays(s, u, t, r, at[1..], left[1..], Untagged);
          hide Stand;
        }
      case Holding(id, held) =>
        StandStays(s, u, t, r, at, held, ToSettle(id));
        hide Stand;
      case Settling(_, _, _, _, _) =>
    }
  }

  /** A step of call `t`: what it does to the ledger and the ids is all there is to show. */
  lemma StepMatches(c: Setup, e: Engines, e': Engines, s: Sys, u: Sys, at: Places, t: nat, here: seq<nat>)
    requires Matches(c, e, s, at) && Inv(Limits(c), u) && u.books == e'.books && Spares(s, u, t)
    requires t in e'.tasks && e'.tasks == e.tasks[t := e'.tasks[t]] && (t in e.tasks && e.tasks[t].Holding? ==> e'.tasks[t].Holding?)
    requires Agrees(c, e', u, t, here)
    requires e.drawn <= e'.drawn && IdSet(Unused(e'.tasks[t])) <= e'.drawn && NewIds(u, Unused(e'.tasks[t]))
    requires s.ids <= u.ids <= e'.drawn
    requires forall r :: r in e.tasks && r != t ==>
               IdSet(Unused(e.tasks[r])) !! IdSet(Unused(e'.tasks[t])) && IdSet(Unused(e.tasks[r])) !! (u.ids - s.ids)
    ensures Matches(c, e', u, at[t := here])
  {
    hide Inv, Agrees, Spares, IdSet, Unused;
    forall r | r in e'.tasks ensures r in at[t := here] && Agrees(c, e', u, r, at[t := here][r]) {
      if r != t {
        AgreesStays(c, e, e', s, u, t, r, at[r]);
      }
    }
    forall r | r in e'.tasks ensures NewIds(u, Unused(e'.tasks[r])) && IdSet(Unused(e'.tasks[r])) <= e'.drawn {
      if r != t {
        StillNew(s, u, Unused(e.tasks[r]));
      }
    }
    assert forall p :: p in u.phases ==> p in e'.tasks by {
      PhasesKnown(s, u, t);
    }
    hide NewIds;
    forall r, q | r in e'.tasks && q in e'.tasks && r != q
      ensures IdSet(Unused(e'.tasks[r])) !! IdSet(Unused(e'.tasks[q]))
    {
      if r != t && q != t {
        assert IdSet(Unused(e.tasks[r])) !! IdSet(Unused(e.tasks[q]));
      }
    }
  }

  lemma PhasesKnown(s: Sys, u: Sys, t: nat)
    requires Spares(s, u, t)
    ensures forall p :: p in u.phases ==> p in s.phases || p == t
  {
  }

  lemma StillNew(s: Sys, u: Sys, ids: seq<string>)
    requires NewIds(s, ids) && IdSet(ids) !! (u.ids - s.ids)
    ensures NewIds(u, ids)
  {
    hide Uuid;
    forall i | 0 <= i < |ids| ensures ids[i] !in u.ids {
      assert ids[i] in IdSet(ids);
    }
  }

  /** What agreement says of one call. */
  lemma MatchesOne(c: Setup, e: Engines, s: Sys, at: Places, t: nat)
    requires Matches(c, e, s, at) && t in e.tasks
    ensures t in at && Agrees(c, e, s, t, at[t]) && NewIds(s, Unused(e.tasks[t])) && IdSet(Unused(e.tasks[t])) <= e.drawn
    ensures Inv(Limits(c), s) && s.books == e.books && s.ids <= e.drawn
  {
    hide Inv, Agrees, NewIds, IdSet, Unused;
  }

  /** Nothing settled so far was settled above what was reserved. */
  predicate NoLineOver(ledger: seq<Hold>) {
    forall i :: 0 <= i < |ledger| && ledger[i].status.Closed? ==> ledger[i].status.actual <= ledger[i].amount
  }

  /** A protocol run that follows one act, call `t`'s. */
  ghost predicate Follows(c: Setup, s: Sys, steps: seq<Step>, u: Sys, t: nat) {
    Run(Limits(c), s, steps, u) && Inv(Limits(c), u) && Spares(s, u, t)
  }

  lemma FollowsNone(c: Setup, s: Sys, t: nat)
    requires Inv(Limits(c), s)
    ensures Follows(c, s, [], s, t)
  {
    hide Inv;
  }

  lemma FollowsTwice(c: Setup, s: Sys, a: seq<Step>, u: Sys, b: seq<Step>, v: Sys, t: nat)
    requires Follows(c, s, a, u, t) && Follows(c, u, b, v, t)
    ensures Follows(c, s, a + b, v, t)
  {
    hide Run, Inv, Spares;
    RunConcat(Limits(c), s, a, u, b, v);
    SparesTwice(s, u, v, t);
  }

  lemma FollowsStep(c: Setup, s: Sys, step: Step, t: nat)
    requires Inv(Limits(c), s) && Enabled(Limits(c), s, step) && Spares(s, After(s, step), t)
    ensures Follows(c, s, [step], After(s, step), t)
  {
    RunOne(Limits(c), s, step);
    StepKeepsInv(Limits(c), s, step);
    hide Run, Inv, Spares;
  }

  // ---- Reserving --------------------------------------------------------------------------------

  lemma NoneOwned(limits: string -> nat, s: Sys, r: nat)
    requires Inv(limits, s) && r !in s.phases
    ensures forall n :: 0 <= n < |s.ledger| ==> s.ledger[n].owner != Some(r)
  {
    hide Sum;
    forall n | 0 <= n < |s.ledger| ensures s.ledger[n].owner != Some(r) {
      assert TidyHold(s, s.ledger[n]);
    }
  }

  lemma StartFollows(c: Setup, e: Engines, s: Sys, at: Places, a: Act) returns (steps: seq<Step>, u: Sys, at': Places)
    requires Configured(c) && Can(c, e, a) && a.Start? && Matches(c, e, s, at)
    ensures Follows(c, s, steps, u, a.t) && Matches(c, Do(c, e, a), u, at') && u.ledger == s.ledger
    ensures Bare(u.ledger) == Recorded(c, e, Bare(s.ledger), a)
  {
    hide *;
    var t := a.t;
    var e' := StartedTask(c, e, a);
    MatchesInv(c, e, s, at);
    NotAPhase(c, e, s, at, t);
    NoneOwned(Limits(c), s, t);
    u := BeginRuns(c, s, t);
    steps := [Begin(t)];
    FollowsMeans(c, s, steps, u, t);
    StartedAgrees(c, e', u, t);
    DrawnIds(c, e, s, at);
    StartIds(c, e, s, a);
    NewIdsSame(s, u, a.ids);
    OthersDisjoint(c, e, s, at, IdSet(a.ids));
    StepMatches(c, e, e', s, u, at, t, []);
    at' := at[t := []];
    RecordedIdle(c, e, Bare(s.ledger), a);
  }

  lemma RecordedIdle(c: Setup, e: Engines, l: seq<Hold>, a: Act)
    requires Can(c, e, a) && (a.Start? || a.Keep? || a.StartSettle? || a.Skip?)
    ensures Recorded(c, e, l, a) == l
  {
  }

  lemma DrawnIds(c: Setup, e: Engines, s: Sys, at: Places)
    requires Matches(c, e, s, at)
    ensures s.ids <= e.drawn
  {
    hide Inv, Agrees, NewIds, IdSet, Unused;
  }

  lemma OthersDisjoint(c: Setup, e: Engines, s: Sys, at: Places, ids: set<string>)
    requires Matches(c, e, s, at) && forall x :: x in ids ==> x !in e.drawn
    ensures forall r :: r in e.tasks ==> IdSet(Unused(e.tasks[r])) !! ids
  {
    hide Inv, Agrees, NewIds, IdSet, Unused;
  }

  /** The call that has begun. */
  lemma StartedTask(c: Setup, e: Engines, a: Act) returns (e': Engines)
    requires Configured(c) && Can(c, e, a) && a.Start?
    ensures var lines := Lines(c.budgets, c.prefix, a.dims, a.estimate, a.now, 0);
            && e' == Do(c, e, a) && a.t !in e.tasks && a.t in e'.tasks && e'.tasks == e.tasks[a.t := e'.tasks[a.t]]
            && e'.drawn == e.drawn + IdSet(a.ids) && e'.books == e.books
            && e'.tasks[a.t] == Asking([], lines, a.ids) && Unused(e'.tasks[a.t]) == a.ids
            && |lines| < |a.ids| && Chargeable(Limits(c), c.budgets, [] + lines)
  {
    var lines := Lines(c.budgets, c.prefix, a.dims, a.estimate, a.now, 0);
    LinesChargeable(c, a.dims, a.estimate, a.now);
    LinesShort(c.budgets, c.prefix, a.dims, a.estimate, a.now, 0);
    hide Configured, Lines, IdSet, Chargeable, Limits;
    assert [] + lines == lines;
    e' := Do(c, e, a);
  }

  lemma BeginRuns(c: Setup, s: Sys, t: nat) returns (u: Sys)
    requires Inv(Limits(c), s) && t !in s.phases
    ensures Follows(c, s, [Begin(t)], u, t) && u == s.(phases := s.phases[t := Reserving])
  {
    hide Inv, Run, Limits;
    u := After(s, Begin(t));
    FollowsStep(c, s, Begin(t), t);
  }

  lemma StartedAgrees(c: Setup, e: Engines, u: Sys, t: nat)
    requires t in e.tasks && e.tasks[t].Asking? && e.tasks[t].held == [] && |e.tasks[t].todo| < |e.tasks[t].ids|
    requires Chargeable(Limits(c), c.budgets, [] + e.tasks[t].todo) && t in u.phases && u.phases[t] == Reserving
    requires forall n :: 0 <= n < |u.ledger| ==> u.ledger[n].owner != Some(t)
    ensures Agrees(c, e, u, t, [])
  {
    hide Chargeable, Limits;
  }

  lemma StartIds(c: Setup, e: Engines, s: Sys, a: Act)
    requires a.Start? && Can(c, e, a) && s.ids <= e.drawn
    ensures NewIds(s, a.ids) && forall x :: x in IdSet(a.ids) ==> x !in e.drawn
  {
    hide Uuid;
    forall i | 0 <= i < |a.ids| ensures a.ids[i] !in s.ids {
      assert a.ids[i] in IdSet(a.ids);
    }
  }

  /** A step that draws no new ids: what it uses it had. */
  lemma OwnStepMatches(c: Setup, e: Engines, e': Engines, s: Sys, u: Sys, at: Places, t: nat, here: seq<nat>)
    requires Matches(c, e, s, at) && Inv(Limits(c), u) && u.books == e'.books && Spares(s, u, t)
    requires t in e.tasks && t in e'.tasks && e'.tasks == e.tasks[t := e'.tasks[t]] && (e.tasks[t].Holding? ==> e'.tasks[t].Holding?)
    requires Agrees(c, e', u, t, here) && e'.drawn == e.drawn && s.ids <= u.ids && NewIds(u, Unused(e'.tasks[t]))
    requires IdSet(Unused(e'.tasks[t])) <= IdSet(Unused(e.tasks[t])) && u.ids - s.ids <= IdSet(Unused(e.tasks[t]))
    ensures Matches(c, e', u, at[t := here])
  {
    MatchesOne(c, e, s, at, t);
    forall r | r in e.tasks && r != t
      ensures IdSet(Unused(e.tasks[r])) !! IdSet(Unused(e'.tasks[t])) && IdSet(Unused(e.tasks[r])) !! (u.ids - s.ids)
    {
      assert IdSet(Unused(e.tasks[r])) !! IdSet(Unused(e.tasks[t])) by { hide Inv, Agrees, NewIds, IdSet, Unused; }
    }
    hide Inv, Agrees, Spares, IdSet, Unused, NewIds, Matches;
    forall x | x in u.ids ensures x in e'.drawn {
      assert x in s.ids || x in u.ids - s.ids;
    }
    StepMatches(c, e, e', s, u, at, t, here);
  }

  lemma NewIdsSame(s: Sys, u: Sys, ids: seq<string>)
    requires NewIds(s, ids) && u.ids == s.ids
    ensures NewIds(u, ids)
  {
  }

  lemma AdmitEnabled(c: Setup, e: Engines, s: Sys, t: nat, at: seq<nat>)
    requires t in e.tasks && e.tasks[t].Asking? && e.tasks[t].todo != [] && Agrees(c, e, s, t, at)
    requires Admits(s.books, e.tasks[t].todo[0].key, e.tasks[t].todo[0].amount, LimitAt(c, e.tasks[t].todo[0]))
    ensures var line := e.tasks[t].todo[0];
            LimitAt(c, line) == Limits(c)(line.key) && Enabled(Limits(c), s, Admit(t, line.key, line.amount, LimitAt(c, line)))
  {
    hide Limits;
    var held, todo := e.tasks[t].held, e.tasks[t].todo;
    var all := held + todo;
    assert all[|held|] == todo[0];
    forall n | 0 <= n < |s.ledger| && Owns(s.ledger[n], t) ensures s.ledger[n].key != todo[0].key {
      var i :| 0 <= i < |at| && at[i] == n;
      assert IsLine(s.ledger[at[i]], t, held[i], Untagged);
      assert all[i] == held[i];
    }
  }

  /** The places of a call that has one more line. */
  lemma StandMore(s: Sys, u: Sys, t: nat, at: seq<nat>, held: seq<Line>, line: Line)
    requires Stand(s, t, at, held, Untagged)
    requires u.ledger == s.ledger + [Hold(Some(t), line.key, line.amount, Untagged, Open)]
    requires forall n :: 0 <= n < |s.ledger| && Owns(s.ledger[n], t) ==> n in at
    ensures Stand(u, t, at + [|s.ledger|], held + [line], Untagged)
    ensures forall n :: 0 <= n < |u.ledger| && Owns(u.ledger[n], t) ==> n in at + [|s.ledger|]
  {
    var at', held' := at + [|s.ledger|], held + [line];
    forall i | 0 <= i < |at'| ensures at'[i] < |u.ledger| && IsLine(u.ledger[at'[i]], t, held'[i], Untagged) {
      if i < |at| {
        assert IsLine(s.ledger[at[i]], t, held[i], Untagged);
      }
    }
    forall n | 0 <= n < |u.ledger| && Owns(u.ledger[n], t) ensures n in at' {
      if n < |s.ledger| {
        assert Owns(s.ledger[n], t);
        assert n in at;
      } else {
        assert at'[|at|] == n;
      }
    }
  }

  lemma AdmitFollows(c: Setup, e: Engines, s: Sys, at: Places, t: nat) returns (steps: seq<Step>, u: Sys, at': Places)
    requires Configured(c) && Can(c, e, Ask(t, Arrives)) && Matches(c, e, s, at)
    requires Admits(e.books, e.tasks[t].todo[0].key, e.tasks[t].todo[0].amount, LimitAt(c, e.tasks[t].todo[0]))
    ensures Follows(c, s, steps, u, t) && Matches(c, Do(c, e, Ask(t, Arrives)), u, at')
    ensures Bare(u.ledger) == Recorded(c, e, Bare(s.ledger), Ask(t, Arrives))
    ensures NoLineOver(s.ledger) ==> NoLineOver(u.ledger)
  {
    hide *;
    var e' := AdmittedTask(c, e, t);
    MatchesOne(c, e, s, at, t);
    AdmitEnabled(c, e, s, t, at[t]);
    steps, u := AdmitRuns(c, s, t, e.tasks[t].todo[0], LimitAt(c, e.tasks[t].todo[0]));
    var here := at[t] + [|s.ledger|];
    AdmittedAgrees(c, e, e', s, u, t, at[t]);
    UnusedAsking(e, e', t);
    NewIdsSame(s, u, e.tasks[t].ids);
    FollowsMeans(c, s, steps, u, t);
    OwnStepMatches(c, e, e', s, u, at, t, here);
    at' := at[t := here];
    BareAppend(s.ledger, Hold(Some(t), e.tasks[t].todo[0].key, e.tasks[t].todo[0].amount, Untagged, Open));
    RecordedAdmit(c, e, Bare(s.ledger), t);
  }

  lemma RecordedAdmit(c: Setup, e: Engines, l: seq<Hold>, t: nat)
    requires Can(c, e, Ask(t, Arrives))
    requires Admits(e.books, e.tasks[t].todo[0].key, e.tasks[t].todo[0].amount, LimitAt(c, e.tasks[t].todo[0]))
    ensures var line := e.tasks[t].todo[0];
            Recorded(c, e, l, Ask(t, Arrives)) == l + [Hold(Some(t), line.key, line.amount, Untagged, Open)]
  {
  }

  lemma FollowsMeans(c: Setup, s: Sys, steps: seq<Step>, u: Sys, t: nat)
    requires Follows(c, s, steps, u, t)
    ensures Inv(Limits(c), u) && Spares(s, u, t)
  {
  }

  lemma UnusedAsking(e: Engines, e': Engines, t: nat)
    requires t in e.tasks && t in e'.tasks && e.tasks[t].Asking? && e'.tasks[t].Asking? && e'.tasks[t].ids == e.tasks[t].ids
    ensures Unused(e.tasks[t]) == Unused(e'.tasks[t]) == e.tasks[t].ids
  {
  }

  /** The call after its next line was admitted. */
  lemma AdmittedTask(c: Setup, e: Engines, t: nat) returns (e': Engines)
    requires Configured(c) && Can(c, e, Ask(t, Arrives))
    requires Admits(e.books, e.tasks[t].todo[0].key, e.tasks[t].todo[0].amount, LimitAt(c, e.tasks[t].todo[0]))
    ensures var task := e.tasks[t];
            var line := task.todo[0];
            && e' == Do(c, e, Ask(t, Arrives)) && t in e'.tasks && e'.tasks == e.tasks[t := e'.tasks[t]] && e'.drawn == e.drawn
            && e'.tasks[t] == Asking(task.held + [line], task.todo[1..], task.ids)
            && e'.books == Charge(e.books, line.key, line.amount)
            && t in e.tasks && task.Asking? && task.todo != []
  {
    hide Configured, LimitAt, Charge;
    e' := Do(c, e, Ask(t, Arrives));
  }

  lemma AdmitRuns(c: Setup, s: Sys, t: nat, line: Line, limit: nat) returns (steps: seq<Step>, u: Sys)
    requires Inv(Limits(c), s) && Enabled(Limits(c), s, Admit(t, line.key, line.amount, limit))
    ensures Follows(c, s, steps, u, t) && u.books == Charge(s.books, line.key, line.amount)
    ensures u.ledger == s.ledger + [Hold(Some(t), line.key, line.amount, Untagged, Open)]
    ensures u.phases == s.phases && u.ids == s.ids && (NoLineOver(s.ledger) ==> NoLineOver(u.ledger))
  {
    hide Inv, Run, Limits, Enabled, Charge;
    var step := Admit(t, line.key, line.amount, limit);
    steps, u := [step], After(s, step);
    FollowsStep(c, s, step, t);
  }

  lemma AdmittedAgrees(c: Setup, e: Engines, e': Engines, s: Sys, u: Sys, t: nat, at: seq<nat>)
    requires t in e.tasks && e.tasks[t].Asking? && e.tasks[t].todo != [] && Agrees(c, e, s, t, at)
    requires t in e'.tasks && e'.tasks[t] == Asking(e.tasks[t].held + [e.tasks[t].todo[0]], e.tasks[t].todo[1..], e.tasks[t].ids)
    requires var line := e.tasks[t].todo[0];
             u.ledger == s.ledger + [Hold(Some(t), line.key, line.amount, Untagged, Open)] && u.phases == s.phases
    ensures Agrees(c, e', u, t, at + [|s.ledger|])
  {
    hide Chargeable, Stand, Limits;
    var task := e.tasks[t];
    StandMore(s, u, t, at, task.held, task.todo[0]);
    assert task.held + [task.todo[0]] + task.todo[1..] == task.held + task.todo;
  }

  // ---- Giving up --------------------------------------------------------------------------------

  /** The hold an unanswered reserve may leave behind. */
  function OrphanOf(w: World, line: Line, limit: nat): (l: seq<Hold>)
    ensures l == [] || l == [Hold(None, line.key, line.amount, Untagged, Open)]
  {
    if Orphaned(w, line, limit) then [Hold(None, line.key, line.amount, Untagged, Open)] else []
  }

  lemma BareOrphan(l: seq<Hold>, w: World, line: Line, limit: nat)
    ensures Bare(l + OrphanOf(w, line, limit)) == Bare(l) + OrphanOf(w, line, limit)
  {
  }

  lemma RecordedRefusal(c: Setup, e: Engines, l: seq<Hold>, t: nat, fate: Fate)
    requires Can(c, e, Ask(t, fate))
    requires var line := e.tasks[t].todo[0];
             TryReserve(World(e.books, [fate]), line.key, line.amount, LimitAt(c, line)).1 != Admitted
    ensures var line := e.tasks[t].todo[0];
            Recorded(c, e, l, Ask(t, fate)) == l + OrphanOf(World(e.books, [fate]), line, LimitAt(c, line))
  {
    hide LimitAt, Charge;
  }

  lemma OrphanFollows(c: Setup, s: Sys, t: nat, w: World, line: Line, limit: nat) returns (steps: seq<Step>, u: Sys)
    requires Inv(Limits(c), s) && s.books == w.books && Limits(c)(line.key) == limit
    requires TryReserve(w, line.key, line.amount, limit).1 != Admitted
    ensures Follows(c, s, steps, u, t) && u.books == TryReserve(w, line.key, line.amount, limit).0.books
    ensures u.phases == s.phases && u.ids == s.ids
    ensures u.ledger == s.ledger + OrphanOf(w, line, limit)
  {
    hide Inv, Run, Limits;
    var step := AdmitUnheard(line.key, line.amount, limit);
    if Orphaned(w, line, limit) {
      steps, u := [step], After(s, step);
      FollowsStep(c, s, step, t);
    } else {
      FollowsNone(c, s, t);
      steps, u := [], s;
    }
  }

  lemma StandLonger(s: Sys, u: Sys, t: nat, at: seq<nat>, lines: seq<Line>, tag: Tag)
    requires Stand(s, t, at, lines, tag) && s.ledger <= u.ledger
    ensures Stand(u, t, at, lines, tag)
  {
    forall i | 0 <= i < |at| ensures at[i] < |u.ledger| && IsLine(u.ledger[at[i]], t, lines[i], tag) {
      assert IsLine(s.ledger[at[i]], t, lines[i], tag);
    }
  }

  lemma AbortFollows(c: Setup, s: Sys, t: nat) returns (u: Sys)
    requires Inv(Limits(c), s) && t in s.phases && s.phases[t] == Reserving
    ensures Follows(c, s, [Abort(t)], u, t) && u == s.(phases := s.phases[t := Aborted])
  {
    hide Inv, Run, Limits;
    u := After(s, Abort(t));
    FollowsStep(c, s, Abort(t), t);
  }

  /** The first line of a rollback gets its marker's id. */
  lemma TagFollows(c: Setup, s: Sys, t: nat, at: seq<nat>, left: seq<Line>, ids: seq<string>) returns (steps: seq<Step>, u: Sys)
    requires Inv(Limits(c), s) && t in s.phases && s.phases[t] == Aborted && left != [] && ids != [] && NewIds(s, ids)
    requires Stand(s, t, at, left, Untagged) && DistinctKeys(left)
    ensures Follows(c, s, steps, u, t) && u.books == s.books && u.phases == s.phases && u.ids == s.ids + {ids[0]}
    ensures Bare(u.ledger) == Bare(s.ledger) && NewIds(u, ids[1..])
    ensures Stand(u, t, at[..1], left[..1], ToRollBack(ids[0])) && Stand(u, t, at[1..], left[1..], Untagged)
    ensures NoLineOver(s.ledger) ==> NoLineOver(u.ledger)
  {
    var step := TakeBack(at[0], ids[0]);
    assert IsLine(s.ledger[at[0]], t, left[0], Untagged);
    assert Enabled(Limits(c), s, step) by { hide Inv; }
    steps, u := [step], After(s, step);
    hide Inv, Run, Limits;
    assert Spares(s, u, t);
    FollowsStep(c, s, step, t);
    SameBare(s.ledger, u.ledger);
    hide Enabled, Follows, Spares;
    forall i | 0 <= i < |at[1..]| ensures at[1..][i] < |u.ledger| && IsLine(u.ledger[at[1..][i]], t, left[1..][i], Untagged) {
      assert at[1..][i] == at[i + 1] && left[1..][i] == left[i + 1];
      assert IsLine(s.ledger[at[i + 1]], t, left[i + 1], Untagged);
      assert left[0].key != left[i + 1].key;
    }
    NewIdsRest(s, u, ids);
  }

  lemma NewIdsRest(s: Sys, u: Sys, ids: seq<string>)
    requires ids != [] && NewIds(s, ids) && u.ids == s.ids + {ids[0]}
    ensures NewIds(u, ids[1..]) && ids[0] in IdSet(ids) && IdSet(ids[1..]) <= IdSet(ids)
  {
    hide Uuid;
    assert forall i :: 0 <= i < |ids[1..]| ==> ids[1..][i] == ids[i + 1];
  }

  lemma HeldChargeable(limits: string -> nat, budgets: seq<Budget>, held: seq<Line>, todo: seq<Line>)
    requires Chargeable(limits, budgets, held + todo)
    ensures DistinctKeys(held) && (forall i :: 0 <= i < |held| ==> held[i].amount > 0)
    ensures todo != [] ==> todo[0].index < |budgets| && limits(todo[0].key) == budgets[todo[0].index].limit
  {
    var all := held + todo;
    assert forall i :: 0 <= i < |held| ==> all[i] == held[i];
    assert todo != [] ==> all[|held|] == todo[0];
  }

  lemma LimitAtLine(c: Setup, line: Line)
    requires line.index < |c.budgets|
    ensures LimitAt(c, line) == c.budgets[line.index].limit
  {
  }

  lemma LongerIsFine(a: seq<Hold>, b: seq<Hold>)
    requires b == a || (|b| == |a| + 1 && b[..|a|] == a && b[|a|].status == Open)
    ensures a <= b && (NoLineOver(a) ==> NoLineOver(b))
  {
    if b != a {
      assert forall i :: 0 <= i < |a| ==> b[i] == b[..|a|][i];
    }
  }

  /** A reserve that is refused or unanswered: the orphan it may leave, the abort, and the first rollback marker. */
  lemma GiveUpRuns(c: Setup, s: Sys, t: nat, w: World, at: seq<nat>, held: seq<Line>, todo: seq<Line>, ids: seq<string>)
    returns (steps: seq<Step>, u: Sys)
    requires Inv(Limits(c), s) && s.books == w.books && t in s.phases && s.phases[t] == Reserving
    requires todo != [] && |held| < |ids| && NewIds(s, ids)
    requires Chargeable(Limits(c), c.budgets, held + todo) && Stand(s, t, at, held, Untagged)
    requires TryReserve(w, todo[0].key, todo[0].amount, LimitAt(c, todo[0])).1 != Admitted
    ensures Follows(c, s, steps, u, t) && u.books == TryReserve(w, todo[0].key, todo[0].amount, LimitAt(c, todo[0])).0.books
    ensures t in u.phases && u.phases[t] == Aborted && u.ids == s.ids + (if held == [] then {} else {ids[0]})
    ensures Bare(u.ledger) == Bare(s.ledger) + OrphanOf(w, todo[0], LimitAt(c, todo[0]))
    ensures held == [] ==> at == []
    ensures held != [] ==> |at| == |held| && NewIds(u, ids[1..]) && Stand(u, t, at[..1], held[..1], ToRollBack(ids[0]))
                           && Stand(u, t, at[1..], held[1..], Untagged)
    ensures NoLineOver(s.ledger) ==> NoLineOver(u.ledger)
  {
    hide *;
    HeldChargeable(Limits(c), c.budgets, held, todo);
    LimitAtLine(c, todo[0]);
    StandSize(s, t, at, held, Untagged);
    var a, s1 := OrphanFollows(c, s, t, w, todo[0], LimitAt(c, todo[0]));
    FollowsMeans(c, s, a, s1, t);
    var s2 := AbortFollows(c, s1, t);
    FollowsMeans(c, s1, [Abort(t)], s2, t);
    FollowsTwice(c, s, a, s1, [Abort(t)], s2, t);
    StandLonger(s, s2, t, at, held, Untagged);
    NewIdsSame(s, s2, ids);
    LongerIsFine(s.ledger, s2.ledger);
    BareOrphan(s.ledger, w, todo[0], LimitAt(c, todo[0]));
    if held == [] {
      steps, u := a + [Abort(t)], s2;
    } else {
      var b;
      b, u := TagFollows(c, s2, t, at, held, ids);
      steps := a + [Abort(t)] + b;
      FollowsTwice(c, s, a + [Abort(t)], s2, b, u, t);
    }
  }

  /** The call after a reserve that was not admitted, or not answered. */
  lemma RefusedTask(c: Setup, e: Engines, t: nat, fate: Fate) returns (e': Engines)
    requires Configured(c) && Can(c, e, Ask(t, fate))
    requires var line := e.tasks[t].todo[0];
             TryReserve(World(e.books, [fate]), line.key, line.amount, LimitAt(c, line)).1 != Admitted
    ensures var task := e.tasks[t];
            var line := task.todo[0];
            && e' == Do(c, e, Ask(t, fate)) && t in e'.tasks && e'.tasks == e.tasks[t := e'.tasks[t]] && e'.drawn == e.drawn
            && e'.tasks[t].Retracting? && e'.tasks[t].left == task.held && e'.tasks[t].ids == task.ids && e'.tasks[t].tries == RECONCILE_ATTEMPTS
            && e'.books == TryReserve(World(e.books, [fate]), line.key, line.amount, LimitAt(c, line)).0.books
            && t in e.tasks && task.Asking? && task.todo != []
  {
    hide Configured, LimitAt, TryReserve;
    e' := Do(c, e, Ask(t, fate));
  }

  lemma AgreesAsking(c: Setup, e: Engines, s: Sys, t: nat, at: seq<nat>)
    requires t in e.tasks && e.tasks[t].Asking? && Agrees(c, e, s, t, at)
    ensures var task := e.tasks[t];
            && t in s.phases && s.phases[t] == Reserving && |task.held| + |task.todo| < |task.ids|
            && Chargeable(Limits(c), c.budgets, task.held + task.todo) && Stand(s, t, at, task.held, Untagged)
            && (forall n :: 0 <= n < |s.ledger| && Owns(s.ledger[n], t) ==> n in at)
            && Unused(task) == task.ids
  {
    hide Chargeable, Stand, Limits;
  }

  lemma RetractingAgrees(c: Setup, e: Engines, u: Sys, t: nat, at: seq<nat>)
    requires t in e.tasks && e.tasks[t].Retracting? && t in u.phases && u.phases[t] == Aborted && e.tasks[t].tries > 0
    requires var task := e.tasks[t];
             && |task.left| <= |task.ids| && DistinctKeys(task.left) && |at| == |task.left|
             && (forall i :: 0 <= i < |task.left| ==> task.left[i].amount > 0)
             && (task.left != [] ==> Stand(u, t, at[..1], task.left[..1], ToRollBack(task.ids[0])) && Stand(u, t, at[1..], task.left[1..], Untagged))
    ensures Agrees(c, e, u, t, at)
  {
    hide Stand;
  }

  /** The ids of a rollback: the first is in use, the rest are not. */
  lemma RetractingIds(e: Engines, s: Sys, u: Sys, t: nat)
    requires t in e.tasks && e.tasks[t].Retracting?
    requires var task := e.tasks[t];
             && |task.left| <= |task.ids| && NewIds(s, task.ids) && u.ids == s.ids + (if task.left == [] then {} else {task.ids[0]})
             && (task.left != [] ==> NewIds(u, task.ids[1..]))
    ensures NewIds(u, Unused(e.tasks[t])) && IdSet(Unused(e.tasks[t])) <= IdSet(e.tasks[t].ids) && u.ids - s.ids <= IdSet(e.tasks[t].ids)
  {
    var ids := e.tasks[t].ids;
    hide Uuid;
    if e.tasks[t].left != [] {
      NewIdsRest(s, u, ids);
    }
  }

  lemma RefuseFollows(c: Setup, e: Engines, s: Sys, at: Places, t: nat, fate: Fate) returns (steps: seq<Step>, u: Sys, at': Places)
    requires Configured(c) && Can(c, e, Ask(t, fate)) && Matches(c, e, s, at)
    requires var line := e.tasks[t].todo[0];
             TryReserve(World(e.books, [fate]), line.key, line.amount, LimitAt(c, line)).1 != Admitted
    ensures Follows(c, s, steps, u, t) && Matches(c, Do(c, e, Ask(t, fate)), u, at')
    ensures Bare(u.ledger) == Recorded(c, e, Bare(s.ledger), Ask(t, fate))
    ensures NoLineOver(s.ledger) ==> NoLineOver(u.ledger)
  {
    assert RECONCILE_ATTEMPTS > 0;
    hide *;
    var e' := RefusedTask(c, e, t, fate);
    MatchesOne(c, e, s, at, t);
    AgreesAsking(c, e, s, t, at[t]);
    var task := e.tasks[t];
    steps, u := GiveUpRuns(c, s, t, World(e.books, [fate]), at[t], task.held, task.todo, task.ids);
    FollowsMeans(c, s, steps, u, t);
    HeldChargeable(Limits(c), c.budgets, task.held, task.todo);
    StandSize(s, t, at[t], task.held, Untagged);
    RetractingAgrees(c, e', u, t, at[t]);
    RetractingIds(e', s, u, t);
    OwnStepMatches(c, e, e', s, u, at, t, at[t]);
    at' := at[t := at[t]];
    RecordedRefusal(c, e, Bare(s.ledger), t, fate);
  }

  lemma StandSize(s: Sys, r: nat, at: seq<nat>, lines: seq<Line>, tag: Tag)
    requires Stand(s, r, at, lines, tag)
    ensures |at| == |lines|
  {
  }

  // ---- Keeping ----------------------------------------------------------------------------------

  lemma CommitRuns(c: Setup, s: Sys, t: nat, at: seq<nat>, held: seq<Line>, ids: seq<string>) returns (steps: seq<Step>, u: Sys)
    requires Inv(Limits(c), s) && t in s.phases && s.phases[t] == Reserving && ids != [] && NewIds(s, ids)
    requires Stand(s, t, at, held, Untagged)
    ensures Follows(c, s, steps, u, t) && u.books == s.books && u.ids == s.ids + {ids[0]} && Bare(u.ledger) == Bare(s.ledger)
    ensures t in u.phases && u.phases[t] == Committed && Stand(u, t, at, held, ToSettle(ids[0]))
    ensures NoLineOver(s.ledger) ==> NoLineOver(u.ledger)
  {
    var step := Commit(t, ids[0]);
    assert Enabled(Limits(c), s, step) by { hide Inv, Stand; }
    hide Inv, Run, Limits, Uuid;
    steps, u := [step], After(s, step);
    assert Spares(s, u, t);
    FollowsStep(c, s, step, t);
    SameBare(s.ledger, u.ledger);
    hide Follows, Spares, Enabled;
    forall i | 0 <= i < |at| ensures IsLine(u.ledger[at[i]], t, held[i], ToSettle(ids[0])) {
      assert IsLine(s.ledger[at[i]], t, held[i], Untagged);
    }
  }

  lemma KeepFollows(c: Setup, e: Engines, s: Sys, at: Places, t: nat) returns (steps: seq<Step>, u: Sys, at': Places)
    requires Configured(c) && Can(c, e, Keep(t)) && Matches(c, e, s, at)
    ensures Follows(c, s, steps, u, t) && Matches(c, Do(c, e, Keep(t)), u, at')
    ensures Bare(u.ledger) == Recorded(c, e, Bare(s.ledger), Keep(t))
    ensures NoLineOver(s.ledger) ==> NoLineOver(u.ledger)
  {
    var e' := Do(c, e, Keep(t));
    var task := e.tasks[t];
    assert t in e.tasks && task.Asking? && task.ids != [] && e'.tasks[t] == Holding(task.ids[0], task.held);
    assert e'.tasks == e.tasks[t := e'.tasks[t]] && e'.books == e.books && e'.drawn == e.drawn;
    hide *;
    MatchesOne(c, e, s, at, t);
    AgreesAsking(c, e, s, t, at[t]);
    steps, u := CommitRuns(c, s, t, at[t], task.held, task.ids);
    FollowsMeans(c, s, steps, u, t);
    HoldingAgrees(c, e', u, t, at[t]);
    KeepIds(e', s, u, t, task.ids);
    OwnStepMatches(c, e, e', s, u, at, t, at[t]);
    at' := at[t := at[t]];
    RecordedIdle(c, e, Bare(s.ledger), Keep(t));
  }

  lemma HoldingAgrees(c: Setup, e: Engines, u: Sys, t: nat, at: seq<nat>)
    requires t in e.tasks && e.tasks[t].Holding? && t in u.phases && u.phases[t] == Committed
    requires Stand(u, t, at, e.tasks[t].held, ToSettle(e.tasks[t].id))
    ensures Agrees(c, e, u, t, at)
  {
    hide Stand;
  }

  lemma KeepIds(e: Engines, s: Sys, u: Sys, t: nat, ids: seq<string>)
    requires t in e.tasks && e.tasks[t].Holding? && ids != [] && u.ids == s.ids + {ids[0]}
    ensures NewIds(u, Unused(e.tasks[t])) && IdSet(Unused(e.tasks[t])) <= IdSet(ids) && u.ids - s.ids <= IdSet(ids)
  {
    assert ids[0] in IdSet(ids);
  }

  // ---- Attempts to settle -----------------------------------------------------------------------

  lemma OnlyLineSpares(s: Sys, u: Sys, n: nat, t: nat)
    requires OnlyLine(s, u, n)
    ensures Spares(s, u, t)
  {
  }

  /** One attempt to settle a tagged line, lost or not. */
  lemma AttemptFollows(c: Setup, s: Sys, t: nat, n: nat, r: nat, actual: nat, fate: Fate) returns (steps: seq<Step>, u: Sys)
    requires Inv(Limits(c), s) && Enabled(Limits(c), s, Mark(n, actual)) && actual != s.ledger[n].amount && s.ledger[n].owner == Some(r)
    ensures Follows(c, s, steps, u, t) && OnlyLine(s, u, n)
    ensures Bare(u.ledger) == Landed(Bare(s.ledger), fate, r, s.ledger[n].key, actual)
    ensures u.books == Attempt(s.books, fate, s.ledger[n].key, actual as int - s.ledger[n].amount, MarkerOf(s.ledger[n]))
    ensures NoLineOver(s.ledger) && actual <= s.ledger[n].amount ==> NoLineOver(u.ledger)
  {
    hide Inv, Run, Limits, MarkerOf, Settle;
    if fate == LostBefore {
      FollowsNone(c, s, t);
      steps, u := [], s;
    } else {
      steps, u := SettleIsRun(Limits(c), s, n, actual);
      OnlyLineSpares(s, u, n, t);
      ClosedLine(Limits(c), s, u, n, r, actual);
      hide Spares;
    }
  }

  lemma StandsOn(s: Sys, u: Sys, n: nat, r: nat, at: seq<nat>, lines: seq<Line>, tag: Tag)
    requires Stand(s, r, at, lines, tag) && OnlyLine(s, u, n)
    ensures Stand(u, r, at, lines, tag)
  {
    forall i | 0 <= i < |at| ensures at[i] < |u.ledger| && IsLine(u.ledger[at[i]], r, lines[i], tag) {
      assert IsLine(s.ledger[at[i]], r, lines[i], tag);
    }
  }

  lemma AgreesRetracting(c: Setup, e: Engines, s: Sys, t: nat, at: seq<nat>)
    requires t in e.tasks && e.tasks[t].Retracting? && e.tasks[t].left != [] && Agrees(c, e, s, t, at)
    ensures var task := e.tasks[t];
            && t in s.phases && s.phases[t] == Aborted && |task.left| <= |task.ids| && task.tries > 0 && |at| == |task.left|
            && DistinctKeys(task.left) && (forall i :: 0 <= i < |task.left| ==> task.left[i].amount > 0)
            && Stand(s, t, at[..1], task.left[..1], ToRollBack(task.ids[0])) && Stand(s, t, at[1..], task.left[1..], Untagged)
            && Unused(task) == task.ids[1..]
  {
    hide Stand;
  }

  /** One attempt at the first rollback, on the ledger. */
  lemma RetractRuns(c: Setup, s: Sys, t: nat, at: seq<nat>, left: seq<Line>, id: string, fate: Fate) returns (steps: seq<Step>, u: Sys)
    requires Inv(Limits(c), s) && |at| == |left| > 0 && left[0].amount > 0
    requires Stand(s, t, at[..1], left[..1], ToRollBack(id)) && Stand(s, t, at[1..], left[1..], Untagged)
    ensures Follows(c, s, steps, u, t) && u.phases == s.phases && u.ids == s.ids
    ensures Bare(u.ledger) == Landed(Bare(s.ledger), fate, t, left[0].key, 0)
    ensures Stand(u, t, at[..1], left[..1], ToRollBack(id)) && Stand(u, t, at[1..], left[1..], Untagged)
    ensures u.books == Attempt(s.books, fate, left[0].key, -(left[0].amount as int), RollbackMarker(left[0].key, id))
    ensures NoLineOver(s.ledger) ==> NoLineOver(u.ledger)
  {
    hide *;
    var n := at[0];
    FirstLine(Limits(c), s, t, at, left, id);
    steps, u := AttemptFollows(c, s, t, n, t, 0, fate);
    StandsOn(s, u, n, t, at[..1], left[..1], ToRollBack(id));
    StandsOn(s, u, n, t, at[1..], left[1..], Untagged);
    OnlyLineKeeps(s, u, n);
  }

  lemma OnlyLineKeeps(s: Sys, u: Sys, n: nat)
    requires OnlyLine(s, u, n)
    ensures u.phases == s.phases && u.ids == s.ids
  {
  }

  lemma FirstLine(limits: string -> nat, s: Sys, t: nat, at: seq<nat>, left: seq<Line>, id: string)
    requires |at| == |left| > 0 && Stand(s, t, at[..1], left[..1], ToRollBack(id))
    ensures at[0] < |s.ledger| && Enabled(limits, s, Mark(at[0], 0)) && s.ledger[at[0]].owner == Some(t)
    ensures s.ledger[at[0]].key == left[0].key && s.ledger[at[0]].amount == left[0].amount && s.ledger[at[0]].tag != Untagged
    ensures MarkerOf(s.ledger[at[0]]) == RollbackMarker(left[0].key, id)
  {
    assert at[..1][0] == at[0] && left[..1][0] == left[0];
    assert IsLine(s.ledger[at[..1][0]], t, left[..1][0], ToRollBack(id));
  }

  predicate RetractedTo(task: Task, left: seq<Line>, ids: seq<string>, tries: nat) {
    task.Retracting? && task.left == left && task.ids == ids && task.tries == tries
  }

  lemma RetractedMeans(task: Task, left: seq<Line>, ids: seq<string>, tries: nat)
    requires RetractedTo(task, left, ids, tries)
    ensures task.Retracting? && task.left == left && task.ids == ids && task.tries == tries
  {
  }

  lemma RecordedRetract(c: Setup, e: Engines, l: seq<Hold>, t: nat, fate: Fate)
    requires Can(c, e, Retract(t, fate))
    ensures Recorded(c, e, l, Retract(t, fate)) == Landed(l, fate, t, e.tasks[t].left[0].key, 0)
  {
  }

  /** The same call, one attempt further. */
  lemma RetriedTask(c: Setup, e: Engines, t: nat, fate: Fate) returns (e': Engines)
    requires Configured(c) && Can(c, e, Retract(t, fate))
    ensures var task := e.tasks[t];
            && e' == Do(c, e, Retract(t, fate)) && t in e'.tasks && e'.tasks == e.tasks[t := e'.tasks[t]] && e'.drawn == e.drawn
            && t in e.tasks && task.Retracting? && task.left != [] && task.ids != [] && task.tries > 0
            && e'.books == Attempt(e.books, fate, task.left[0].key, -(task.left[0].amount as int), RollbackMarker(task.left[0].key, task.ids[0]))
            && e'.tasks[t].Retracting?
            && (if fate == Arrives || task.tries == 1 then RetractedTo(e'.tasks[t], task.left[1..], task.ids[1..], RECONCILE_ATTEMPTS)
                else RetractedTo(e'.tasks[t], task.left, task.ids, task.tries - 1))
  {
    hide Configured, Attempt, RollbackMarker;
    e' := Do(c, e, Retract(t, fate));
  }

  /** The attempt, and the marker of the next line when there is one and its turn has come. */
  lemma RetractNext(c: Setup, s: Sys, t: nat, at: seq<nat>, left: seq<Line>, ids: seq<string>) returns (steps: seq<Step>, u: Sys)
    requires Inv(Limits(c), s) && t in s.phases && s.phases[t] == Aborted && |left| <= |ids| && NewIds(s, ids)
    requires Stand(s, t, at, left, Untagged) && DistinctKeys(left)
    ensures Follows(c, s, steps, u, t) && u.books == s.books && t in u.phases && u.phases[t] == Aborted && Bare(u.ledger) == Bare(s.ledger)
    ensures u.ids == s.ids + (if left == [] then {} else {ids[0]})
    ensures left != [] ==> NewIds(u, ids[1..]) && |at| == |left| && Stand(u, t, at[..1], left[..1], ToRollBack(ids[0]))
                           && Stand(u, t, at[1..], left[1..], Untagged)
    ensures NoLineOver(s.ledger) ==> NoLineOver(u.ledger)
  {
    StandSize(s, t, at, left, Untagged);
    hide *;
    if left == [] {
      FollowsNone(c, s, t);
      steps, u := [], s;
    } else {
      steps, u := TagFollows(c, s, t, at, left, ids);
    }
  }

  lemma SameUnused(e: Engines, e': Engines, t: nat)
    requires t in e.tasks && t in e'.tasks && e.tasks[t].Retracting? && e'.tasks[t].Retracting?
    requires e'.tasks[t].left == e.tasks[t].left && e'.tasks[t].ids == e.tasks[t].ids
    ensures Unused(e'.tasks[t]) == Unused(e.tasks[t])
  {
  }

  lemma RetractFollows(c: Setup, e: Engines, s: Sys, at: Places, t: nat, fate: Fate) returns (steps: seq<Step>, u: Sys, at': Places)
    requires Configured(c) && Can(c, e, Retract(t, fate)) && Matches(c, e, s, at)
    ensures Follows(c, s, steps, u, t) && Matches(c, Do(c, e, Retract(t, fate)), u, at')
    ensures Bare(u.ledger) == Recorded(c, e, Bare(s.ledger), Retract(t, fate))
    ensures NoLineOver(s.ledger) ==> NoLineOver(u.ledger)
  {
    hide *;
    var e' := RetriedTask(c, e, t, fate);
    MatchesOne(c, e, s, at, t);
    AgreesRetracting(c, e, s, t, at[t]);
    var task := e.tasks[t];
    RecordedRetract(c, e, Bare(s.ledger), t, fate);
    var a, s1 := RetractRuns(c, s, t, at[t], task.left, task.ids[0], fate);
    if fate == Arrives || task.tries == 1 {
      var b;
      b, u, at' := RetractAdvances(c, e, e', s, s1, at, t, a);
      steps := a + b;
    } else {
      steps, u := a, s1;
      at' := RetractRepeats(c, e, e', s, u, at, t, a);
    }
  }

  lemma RetractRepeats(c: Setup, e: Engines, e': Engines, s: Sys, u: Sys, at: Places, t: nat, steps: seq<Step>) returns (at': Places)
    requires Matches(c, e, s, at) && Follows(c, s, steps, u, t) && u.books == e'.books && u.ids == s.ids
    requires t in e.tasks && e.tasks[t].Retracting? && e.tasks[t].left != [] && e.tasks[t].tries > 1
    requires t in e'.tasks && e'.tasks == e.tasks[t := e'.tasks[t]] && e'.drawn == e.drawn
    requires RetractedTo(e'.tasks[t], e.tasks[t].left, e.tasks[t].ids, e.tasks[t].tries - 1)
    requires t in at && t in u.phases && u.phases[t] == Aborted && |at[t]| == |e.tasks[t].left| && e.tasks[t].ids != []
    requires Stand(u, t, at[t][..1], e.tasks[t].left[..1], ToRollBack(e.tasks[t].ids[0])) && Stand(u, t, at[t][1..], e.tasks[t].left[1..], Untagged)
    ensures Matches(c, e', u, at')
  {
    hide *;
    RetractedMeans(e'.tasks[t], e.tasks[t].left, e.tasks[t].ids, e.tasks[t].tries - 1);
    MatchesOne(c, e, s, at, t);
    AgreesRetracting(c, e, s, t, at[t]);
    FollowsMeans(c, s, steps, u, t);
    SameUnused(e, e', t);
    NewIdsSame(s, u, e.tasks[t].ids[1..]);
    RetractingAgrees(c, e', u, t, at[t]);
    OwnStepMatches(c, e, e', s, u, at, t, at[t]);
    at' := at[t := at[t]];
  }

  lemma RetractAdvances(c: Setup, e: Engines, e': Engines, s: Sys, s1: Sys, at: Places, t: nat, a: seq<Step>)
    returns (b: seq<Step>, u: Sys, at': Places)
    requires Matches(c, e, s, at) && Follows(c, s, a, s1, t) && s1.books == e'.books && s1.ids == s.ids && s1.phases == s.phases
    requires t in e.tasks && e.tasks[t].Retracting? && e.tasks[t].left != []
    requires t in e'.tasks && e'.tasks == e.tasks[t := e'.tasks[t]] && e'.drawn == e.drawn && e.tasks[t].ids != []
    requires RetractedTo(e'.tasks[t], e.tasks[t].left[1..], e.tasks[t].ids[1..], RECONCILE_ATTEMPTS)
    requires t in at && |at[t]| == |e.tasks[t].left| && Stand(s1, t, at[t][1..], e.tasks[t].left[1..], Untagged)
    ensures Follows(c, s, a + b, u, t) && Matches(c, e', u, at') && Bare(u.ledger) == Bare(s1.ledger)
    ensures NoLineOver(s1.ledger) ==> NoLineOver(u.ledger)
  {
    hide *;
    SomeAttempts();
    RetractedMeans(e'.tasks[t], e.tasks[t].left[1..], e.tasks[t].ids[1..], RECONCILE_ATTEMPTS);
    MatchesOne(c, e, s, at, t);
    AgreesRetracting(c, e, s, t, at[t]);
    FollowsMeans(c, s, a, s1, t);
    var task, here := e.tasks[t], at[t][1..];
    NewIdsSame(s, s1, task.ids[1..]);
    DistinctRest(task.left);
    b, u := RetractNext(c, s1, t, here, task.left[1..], task.ids[1..]);
    FollowsTwice(c, s, a, s1, b, u, t);
    FollowsMeans(c, s, a + b, u, t);
    RetractingAgrees(c, e', u, t, here);
    RetractingIds(e', s1, u, t);
    OwnStepMatches(c, e, e', s, u, at, t, here);
    at' := at[t := here];
  }

  lemma DistinctRest(left: seq<Line>)
    requires left != [] && DistinctKeys(left)
    ensures DistinctKeys(left[1..])
  {
  }

  // ---- Settling ---------------------------------------------------------------------------------

  /** Every settle in progress is for no more than was reserved. */
  ghost predicate Modest(c: Setup, e: Engines) {
    forall t, i :: t in e.tasks && e.tasks[t].Settling? && e.tasks[t].grant in e.tasks && e.tasks[e.tasks[t].grant].Holding?
                   && 0 <= i < |e.tasks[e.tasks[t].grant].held| ==>
                     Covers(c, e.tasks[e.tasks[t].grant].held[i], e.tasks[t].actual)
  }

  predicate Covers(c: Setup, line: Line, actual: Spend) {
    SpentAt(c, line, actual) <= line.amount
  }

  /** A settle call moves on without touching the ids: nothing of the ledger is its own. */
  lemma SettleStepMatches(c: Setup, e: Engines, e': Engines, s: Sys, u: Sys, at: Places, t: nat)
    requires Matches(c, e, s, at) && Inv(Limits(c), u) && u.books == e'.books && Spares(s, u, t) && u.ids == s.ids && u.phases == s.phases
    requires t in e'.tasks && e'.tasks == e.tasks[t := e'.tasks[t]] && e'.tasks[t].Settling? && e'.drawn == e.drawn
    requires t in e.tasks ==> e.tasks[t].Settling?
    requires e'.tasks[t].grant in e.tasks && e.tasks[e'.tasks[t].grant].Holding? && e'.tasks[t].tries > 0
    ensures Matches(c, e', u, at[t := []])
  {
    hide *;
    NotAPhase(c, e, s, at, t);
    DrawnIds(c, e, s, at);
    SettlingAgrees(c, e', u, t);
    StepMatches(c, e, e', s, u, at, t, []);
  }

  lemma SettlingAgrees(c: Setup, e: Engines, u: Sys, t: nat)
    requires t in e.tasks && e.tasks[t].Settling? && t !in u.phases && e.tasks[t].tries > 0
    requires e.tasks[t].grant in e.tasks && e.tasks[e.tasks[t].grant].Holding?
    ensures Agrees(c, e, u, t, []) && Unused(e.tasks[t]) == [] && IdSet(Unused(e.tasks[t])) == {} && NewIds(u, Unused(e.tasks[t]))
  {
  }

  lemma NotAPhase(c: Setup, e: Engines, s: Sys, at: Places, t: nat)
    requires Matches(c, e, s, at) && (t in e.tasks ==> e.tasks[t].Settling?)
    ensures t !in s.phases
  {
    hide Inv, Stand, Chargeable, IdSet;
    if t in e.tasks {
      assert Agrees(c, e, s, t, at[t]);
    }
  }

  lemma IdleFollows(c: Setup, e: Engines, s: Sys, at: Places, a: Act) returns (at': Places)
    requires Configured(c) && Can(c, e, a) && (a.StartSettle? || a.Skip?) && Matches(c, e, s, at)
    ensures Follows(c, s, [], s, a.t) && Matches(c, Do(c, e, a), s, at') && Bare(s.ledger) == Recorded(c, e, Bare(s.ledger), a)
  {
    MatchesInv(c, e, s, at);
    FollowsNone(c, s, a.t);
    FollowsMeans(c, s, [], s, a.t);
    hide Matches, Follows, Inv, Spares;
    RecordedIdle(c, e, Bare(s.ledger), a);
    SettleStepMatches(c, e, Do(c, e, a), s, s, at, a.t);
    at' := at[a.t := []];
  }

  lemma MatchesInv(c: Setup, e: Engines, s: Sys, at: Places)
    requires Matches(c, e, s, at)
    ensures Inv(Limits(c), s) && s.books == e.books
  {
    hide Inv, Agrees, NewIds, IdSet, Unused;
  }

  /** The line a settle is at, in the ledger. */
  lemma LineInLedger(c: Setup, e: Engines, s: Sys, at: Places, t: nat) returns (n: nat)
    requires Matches(c, e, s, at) && AtLine(e, t)
    ensures n < |s.ledger| && IsLine(s.ledger[n], e.tasks[t].grant, LineOf(e, t), ToSettle(e.tasks[e.tasks[t].grant].id))
  {
    var g := e.tasks[t].grant;
    MatchesOne(c, e, s, at, g);
    hide Matches, Inv;
    n := at[g][e.tasks[t].next];
    assert IsLine(s.ledger[at[g][e.tasks[t].next]], g, e.tasks[g].held[e.tasks[t].next], ToSettle(e.tasks[g].id));
  }

  lemma SendFollows(c: Setup, e: Engines, s: Sys, at: Places, t: nat, fate: Fate) returns (steps: seq<Step>, u: Sys, at': Places)
    requires Configured(c) && Can(c, e, Send(t, fate)) && Matches(c, e, s, at)
    ensures Follows(c, s, steps, u, t) && Matches(c, Do(c, e, Send(t, fate)), u, at')
    ensures Bare(u.ledger) == Recorded(c, e, Bare(s.ledger), Send(t, fate))
    ensures NoLineOver(s.ledger) && Modest(c, e) ==> NoLineOver(u.ledger)
  {
    hide *;
    var e' := SentTask(c, e, t, fate);
    var spent := SpentAt(c, LineOf(e, t), e.tasks[t].actual);
    if Modest(c, e) {
      ModestLine(c, e, t);
    }
    var n := LineInLedger(c, e, s, at, t);
    MatchesInv(c, e, s, at);
    TaggedLine(Limits(c), s, n, e.tasks[t].grant, LineOf(e, t), e.tasks[e.tasks[t].grant].id, spent);
    steps, u := AttemptFollows(c, s, t, n, e.tasks[t].grant, spent, fate);
    RecordedSend(c, e, Bare(s.ledger), t, fate);
    FollowsMeans(c, s, steps, u, t);
    OnlyLineKeeps(s, u, n);
    SettleStepMatches(c, e, e', s, u, at, t);
    at' := at[t := []];
  }

  lemma ModestLine(c: Setup, e: Engines, t: nat)
    requires AtLine(e, t) && Modest(c, e)
    ensures SpentAt(c, LineOf(e, t), e.tasks[t].actual) <= LineOf(e, t).amount
  {
    assert Covers(c, e.tasks[e.tasks[t].grant].held[e.tasks[t].next], e.tasks[t].actual);
  }

  lemma TaggedLine(limits: string -> nat, s: Sys, n: nat, r: nat, line: Line, id: string, spent: nat)
    requires n < |s.ledger| && IsLine(s.ledger[n], r, line, ToSettle(id))
    ensures Enabled(limits, s, Mark(n, spent)) && s.ledger[n].tag != Untagged && s.ledger[n].owner == Some(r)
    ensures s.ledger[n].key == line.key && s.ledger[n].amount == line.amount && MarkerOf(s.ledger[n]) == SettleMarker(line.key, id)
  {
  }

  lemma RecordedSend(c: Setup, e: Engines, l: seq<Hold>, t: nat, fate: Fate)
    requires Can(c, e, Send(t, fate))
    ensures AtLine(e, t)
    ensures Recorded(c, e, l, Send(t, fate))
            == Landed(l, fate, e.tasks[t].grant, LineOf(e, t).key, SpentAt(c, LineOf(e, t), e.tasks[t].actual))
  {
  }

  lemma SentTask(c: Setup, e: Engines, t: nat, fate: Fate) returns (e': Engines)
    requires Configured(c) && Can(c, e, Send(t, fate))
    ensures e' == Do(c, e, Send(t, fate)) && AtLine(e, t) && t in e.tasks && e.tasks[t].Settling?
    ensures e.tasks[t].grant in e.tasks && e.tasks[e.tasks[t].grant].Holding?
    ensures t in e'.tasks && e'.tasks == e.tasks[t := e'.tasks[t]] && e'.drawn == e.drawn && e'.tasks[t].Settling?
    ensures e'.tasks[t].grant == e.tasks[t].grant && e'.tasks[t].tries > 0
    ensures var line, spent := LineOf(e, t), SpentAt(c, LineOf(e, t), e.tasks[t].actual);
            && spent != line.amount
            && e'.books == Attempt(e.books, fate, line.key, spent as int - line.amount, SettleMarker(line.key, e.tasks[e.tasks[t].grant].id))
  {
    hide Configured, Attempt, SettleMarker, SpentAt;
    e' := Do(c, e, Send(t, fate));
  }

  // ---- Every interleaving -----------------------------------------------------------------------

  /** One act of one call is a run of the protocol, and does to the ledger what it adds to the account. */
  lemma ActFollows(c: Setup, e: Engines, s: Sys, at: Places, a: Act) returns (steps: seq<Step>, u: Sys, at': Places)
    requires Configured(c) && Can(c, e, a) && Matches(c, e, s, at)
    ensures Follows(c, s, steps, u, a.t) && Matches(c, Do(c, e, a), u, at')
    ensures Bare(u.ledger) == Recorded(c, e, Bare(s.ledger), a)
    ensures NoLineOver(s.ledger) && Modest(c, e) ==> NoLineOver(u.ledger)
  {
    match a
    case Start(_, _, _, _, _) =>
      hide *;
      steps, u, at' := StartFollows(c, e, s, at, a);
    case Ask(t, fate) =>
      var line := e.tasks[t].todo[0];
      if TryReserve(World(e.books, [fate]), line.key, line.amount, LimitAt(c, line)).1 == Admitted {
        assert fate == Arrives && Admits(e.books, line.key, line.amount, LimitAt(c, line));
        hide *;
        steps, u, at' := AdmitFollows(c, e, s, at, t);
      } else {
        hide *;
        steps, u, at' := RefuseFollows(c, e, s, at, t, fate);
      }
    case Keep(t) =>
      hide *;
      steps, u, at' := KeepFollows(c, e, s, at, t);
    case Retract(t, fate) =>
      hide *;
      steps, u, at' := RetractFollows(c, e, s, at, t, fate);
    case StartSettle(_, _, _) =>
      hide *;
      at' := IdleFollows(c, e, s, at, a);
      steps, u := [], s;
    case Send(t, fate) =>
      hide *;
      steps, u, at' := SendFollows(c, e, s, at, t, fate);
    case Skip(_) =>
      hide *;
      at' := IdleFollows(c, e, s, at, a);
      steps, u := [], s;
  }

  /** A settle begun for no more than was reserved. */
  predicate Covered(c: Setup, e: Engines, a: Act) {
    a.StartSettle? && a.grant in e.tasks && e.tasks[a.grant].Holding? ==>
      forall i :: 0 <= i < |e.tasks[a.grant].held| ==> Covers(c, e.tasks[a.grant].held[i], a.actual)
  }

  ghost predicate CoveredIn(c: Setup, e: Engines, acts: seq<Act>, last: Engines)
    requires Configured(c) && Happens(c, e, acts, last)
    decreases |acts|
  {
    acts == [] || (Covered(c, e, acts[0]) && CoveredIn(c, Do(c, e, acts[0]), acts[1..], last))
  }

  /** A settle is always of a reservation that is held. */
  predicate GrantsHold(e: Engines) {
    forall t :: t in e.tasks && e.tasks[t].Settling? ==> e.tasks[t].grant in e.tasks && e.tasks[e.tasks[t].grant].Holding?
  }

  lemma MatchesGrants(c: Setup, e: Engines, s: Sys, at: Places)
    requires Matches(c, e, s, at)
    ensures GrantsHold(e)
  {
    hide Inv, Stand, Chargeable, IdSet, NewIds, Unused;
    forall t | t in e.tasks && e.tasks[t].Settling? ensures e.tasks[t].grant in e.tasks && e.tasks[e.tasks[t].grant].Holding? {
      assert Agrees(c, e, s, t, at[t]);
    }
  }

  lemma StaysModest(c: Setup, e: Engines, a: Act)
    requires Configured(c) && Can(c, e, a) && Modest(c, e) && Covered(c, e, a) && GrantsHold(e)
    ensures Modest(c, Do(c, e, a))
  {
    var e' := Do(c, e, a);
    hide Configured, Covers, TryReserve, Lines, SpentAt, Attempt;
    forall t, i | t in e'.tasks && e'.tasks[t].Settling? && e'.tasks[t].grant in e'.tasks && e'.tasks[e'.tasks[t].grant].Holding?
                  && 0 <= i < |e'.tasks[e'.tasks[t].grant].held|
      ensures Covers(c, e'.tasks[e'.tasks[t].grant].held[i], e'.tasks[t].actual)
    {
      var g := e'.tasks[t].grant;
      if a.StartSettle? && t == a.t {
        assert e.tasks[g] == e'.tasks[g];
      } else {
        assert t in e.tasks && e.tasks[t].Settling? && e.tasks[t].grant == g && e.tasks[t].actual == e'.tasks[t].actual;
        assert e.tasks[g] == e'.tasks[g];
        assert Covers(c, e.tasks[e.tasks[t].grant].held[i], e.tasks[t].actual);
      }
    }
  }

  /**
   Any number of calls, interleaved attempt by attempt, under any losses, are a run of the protocol, whose
   ledger is the account of what the calls did and where each call finds its own lines.
   */
  lemma {:induction false} EnginesAreRun(c: Setup, e: Engines, acts: seq<Act>, last: Engines, s: Sys, at: Places)
    returns (steps: seq<Step>, u: Sys, at': Places)
    requires Configured(c) && Happens(c, e, acts, last) && Matches(c, e, s, at)
    ensures Run(Limits(c), s, steps, u) && Matches(c, last, u, at')
    ensures Bare(u.ledger) == Account(c, e, Bare(s.ledger), acts, last)
    ensures NoLineOver(s.ledger) && Modest(c, e) && CoveredIn(c, e, acts, last) ==> NoLineOver(u.ledger)
    decreases |acts|
  {
    hide Inv, Run, Limits, Do, Can, Matches, Follows, Modest, Covered, NoLineOver, Configured, GrantsHold, Bare, Recorded;
    if acts == [] {
      MatchesInv(c, e, s, at);
      FollowsNone(c, s, 0);
      steps, u, at' := [], s, at;
      FollowsRun(c, s, steps, u, 0);
    } else {
      var a, s1, at1 := ActFollows(c, e, s, at, acts[0]);
      FollowsRun(c, s, a, s1, acts[0].t);
      var later;
      later, u, at' := EnginesAreRun(c, Do(c, e, acts[0]), acts[1..], last, s1, at1);
      steps := a + later;
      RunConcat(Limits(c), s, a, s1, later, u);
      MatchesGrants(c, e, s, at);
      if Modest(c, e) && Covered(c, e, acts[0]) {
        StaysModest(c, e, acts[0]);
      }
    }
  }

  lemma FollowsRun(c: Setup, s: Sys, steps: seq<Step>, u: Sys, t: nat)
    requires Follows(c, s, steps, u, t)
    ensures Run(Limits(c), s, steps, u)
  {
  }

  const IDLE := Engines(Books(map[], {}), map[], {})

  lemma IdleMatches(c: Setup)
    ensures Matches(c, IDLE, NOTHING, map[]) && Modest(c, IDLE) && NoLineOver(NOTHING.ledger)
  {
    NothingInv(Limits(c));
    hide Inv;
  }

  /**
   Conservation and the ceiling, of the engines: whatever calls are made over one store, however their attempts
   interleave and whichever are lost, each counter is the open holds of the account plus what its closed holds
   were closed at, and passes its budget's limit by no more than closed holds outran their reservations.
   */
  lemma EngineLaws(c: Setup, acts: seq<Act>, last: Engines, k: string)
    requires Configured(c) && Happens(c, IDLE, acts, last)
    ensures var account := Account(c, IDLE, [], acts, last);
            && Used(last.books, k) == Sum(Held, account, k) + Sum(Spent, account, k)
            && Used(last.books, k) <= LimitOf(c, k) + Sum(Overrun, account, k)
  {
    IdleMatches(c);
    hide Happens, CoveredIn, Matches, Modest, NoLineOver, Run, Sum, Account;
    var steps, s, at := EnginesAreRun(c, IDLE, acts, last, NOTHING, map[]);
    MatchesInv(c, last, s, at);
    assert Bare(NOTHING.ledger) == [];
    assert Balanced(s) && Capped(Limits(c), s) && Limits(c)(k) == LimitOf(c, k);
    BareSum(Held, s.ledger, k);
    BareSum(Spent, s.ledger, k);
    BareSum(Overrun, s.ledger, k);
  }

  /** While no settle is for more than was reserved, no counter ever passes its budget's limit. */
  lemma EngineCeiling(c: Setup, acts: seq<Act>, last: Engines, k: string)
    requires Configured(c) && Happens(c, IDLE, acts, last) && CoveredIn(c, IDLE, acts, last)
    ensures Used(last.books, k) <= LimitOf(c, k)
  {
    IdleMatches(c);
    hide Happens, CoveredIn, Matches, Modest, Run, Inv, Account;
    var steps, s, at := EnginesAreRun(c, IDLE, acts, last, NOTHING, map[]);
    MatchesInv(c, last, s, at);
    Ceiling(Limits(c), steps, s, k);
  }

  // ---- What the account says of a call ----------------------------------------------------------

  /** Settle call `t` was for what this hold was closed at, on line `j` of the reservation it settles. */
  predicate SettledBy(c: Setup, e: Engines, h: Hold, t: nat, j: nat) {
    && h.status.Closed? && t in e.tasks && e.tasks[t].Settling? && h.owner == Some(e.tasks[t].grant)
    && e.tasks[t].grant in e.tasks && e.tasks[e.tasks[t].grant].Holding? && j < |e.tasks[e.tasks[t].grant].held|
    && var line := e.tasks[e.tasks[t].grant].held[j];
    line.key == h.key && SpentAt(c, line, e.tasks[t].actual) == h.status.actual
  }

  predicate RolledBack(e: Engines, h: Hold) {
    h.status == Closed(0) && h.owner.Some? && h.owner.value in e.tasks && e.tasks[h.owner.value].Retracting?
  }

  /** A hold is open, or a rollback closed it, or a settle that some caller made of it. */
  ghost predicate Explained(c: Setup, e: Engines, h: Hold) {
    h.status == Open || RolledBack(e, h) || exists t, j :: SettledBy(c, e, h, t, j)
  }

  lemma StaysExplained(c: Setup, e: Engines, a: Act, h: Hold)
    requires Configured(c) && Can(c, e, a) && Explained(c, e, h)
    ensures Explained(c, Do(c, e, a), h)
  {
    hide Configured, TryReserve, Lines, SpentAt, Attempt;
    var e' := Do(c, e, a);
    if t, j :| SettledBy(c, e, h, t, j) {
      assert SettledBy(c, e', h, t, j);
    } else if RolledBack(e, h) {
      assert RolledBack(e', h);
    }
  }

  lemma RecordedExplained(c: Setup, e: Engines, l: seq<Hold>, a: Act, i: nat)
    requires Configured(c) && Can(c, e, a) && i < |Recorded(c, e, l, a)| && (i < |l| ==> Explained(c, e, l[i]))
    ensures Explained(c, Do(c, e, a), Recorded(c, e, l, a)[i])
  {
    var h := Recorded(c, e, l, a)[i];
    if i < |l| && h == l[i] {
      hide *;
      StaysExplained(c, e, a, l[i]);
    } else {
      match a
      case Ask(_, _) => assert h.status == Open;
      case Retract(_, _) => RetractExplained(c, e, l, a, i);
      case Send(_, _) => SendExplained(c, e, l, a, i);
    }
  }

  lemma RetractExplained(c: Setup, e: Engines, l: seq<Hold>, a: Act, i: nat)
    requires Configured(c) && a.Retract? && Can(c, e, a) && i < |l| && Recorded(c, e, l, a)[i] != l[i]
    ensures RolledBack(Do(c, e, a), Recorded(c, e, l, a)[i])
  {
    hide Configured, Attempt;
  }

  lemma SendExplained(c: Setup, e: Engines, l: seq<Hold>, a: Act, i: nat)
    requires Configured(c) && a.Send? && Can(c, e, a) && i < |l| && Recorded(c, e, l, a)[i] != l[i]
    ensures Explained(c, Do(c, e, a), Recorded(c, e, l, a)[i])
  {
    hide Configured, Attempt, SpentAt;
    assert SettledBy(c, Do(c, e, a), Recorded(c, e, l, a)[i], a.t, e.tasks[a.t].next);
  }

  /**
   Nothing else closes a hold: after every history each hold of the account is open, or rolled back at nothing
   by the reserve that made it, or closed at what some settle of its reservation was for.
   */
  lemma {:induction false} AccountExplained(c: Setup, e: Engines, l: seq<Hold>, acts: seq<Act>, last: Engines)
    requires Configured(c) && Happens(c, e, acts, last) && (forall i :: 0 <= i < |l| ==> Explained(c, e, l[i]))
    ensures var account := Account(c, e, l, acts, last);
            forall i :: 0 <= i < |account| ==> Explained(c, last, account[i])
    decreases |acts|
  {
    hide Configured, Can, Do, Recorded, Explained;
    if acts != [] {
      var l', e' := Recorded(c, e, l, acts[0]), Do(c, e, acts[0]);
      forall i | 0 <= i < |l'| ensures Explained(c, e', l'[i]) {
        RecordedExplained(c, e, l, acts[0], i);
      }
      AccountExplained(c, e', l', acts[1..], last);
      assert Account(c, e, l, acts, last) == Account(c, e', l', acts[1..], last);
    }
  }

  /** And every line of a reservation that was handed out is a hold of the account, its caller's own. */
  lemma GrantInAccount(c: Setup, acts: seq<Act>, last: Engines, g: nat, i: nat) returns (n: nat)
    requires Configured(c) && Happens(c, IDLE, acts, last) && g in last.tasks && last.tasks[g].Holding? && i < |last.tasks[g].held|
    ensures var account, line := Account(c, IDLE, [], acts, last), last.tasks[g].held[i];
            n < |account| && account[n].owner == Some(g) && account[n].key == line.key && account[n].amount == line.amount
  {
    IdleMatches(c);
    hide Happens, CoveredIn, Matches, Modest, NoLineOver, Run, Inv, Account;
    var steps, s, at := EnginesAreRun(c, IDLE, acts, last, NOTHING, map[]);
    MatchesOne(c, last, s, at, g);
    assert Bare(NOTHING.ledger) == [];
    n := at[g][i];
    assert IsLine(s.ledger[at[g][i]], g, last.tasks[g].held[i], ToSettle(last.tasks[g].id));
  }

  // ---- One call alone ---------------------------------------------------------------------------

  /** The acts meet the fates of `net`, in order, and leave `rest`. */
  predicate Meets(net: seq<Fate>, acts: seq<Act>, rest: seq<Fate>)
    decreases |acts|
  {
    if acts == [] then rest == net
    else if acts[0].Ask? || acts[0].Retract? || acts[0].Send? then acts[0].fate == Fated(net) && Meets(Rest(net), acts[1..], rest)
    else Meets(net, acts[1..], rest)
  }

  /** The acts are one call's, from here to there. */
  ghost predicate Alone(c: Setup, e: Engines, acts: seq<Act>, last: Engines, t: nat, net: seq<Fate>, rest: seq<Fate>)
    requires Configured(c)
  {
    Happens(c, e, acts, last) && Meets(net, acts, rest) && forall i :: 0 <= i < |acts| ==> acts[i].t == t
  }

  lemma AloneNone(c: Setup, e: Engines, t: nat, net: seq<Fate>)
    requires Configured(c)
    ensures Alone(c, e, [], e, t, net, net)
  {
    hide Configured;
  }

  lemma AloneThen(c: Setup, e: Engines, a: Act, acts: seq<Act>, last: Engines, net: seq<Fate>, rest: seq<Fate>)
    requires Configured(c) && Can(c, e, a)
    requires (a.Ask? || a.Retract? || a.Send?) ==> a.fate == Fated(net)
    requires Alone(c, Do(c, e, a), acts, last, a.t, if a.Ask? || a.Retract? || a.Send? then Rest(net) else net, rest)
    ensures Alone(c, e, [a] + acts, last, a.t, net, rest)
  {
    hide Configured, Can, Do;
    assert ([a] + acts)[0] == a && ([a] + acts)[1..] == acts;
  }

  lemma RollbackStep(w: World, left: seq<Line>, ids: seq<string>)
    requires |left| <= |ids|
    ensures left == [] ==> Rollback(w, left, ids) == (w, 0)
    ensures left != [] ==>
              var (w1, ok) := TrySettle(w, left[0].key, -(left[0].amount as int), RollbackMarker(left[0].key, ids[0]), RECONCILE_ATTEMPTS);
              var (w2, failures) := Rollback(w1, left[1..], ids[1..]);
              Rollback(w, left, ids) == (w2, failures + if ok then 0 else 1)
  {
    hide TrySettle, RollbackMarker;
  }

  lemma {:induction false} RollbackAlone(c: Setup, e: Engines, t: nat, w: World, left: seq<Line>, ids: seq<string>, why: Why, failures: nat)
    returns (acts: seq<Act>, last: Engines)
    requires Configured(c) && t in e.tasks && e.tasks[t] == Retracting(left, ids, RECONCILE_ATTEMPTS, why, failures)
    requires e.books == w.books && |left| <= |ids|
    ensures var (w', more) := Rollback(w, left, ids);
            && Alone(c, e, acts, last, t, w.net, w'.net) && last.books == w'.books
            && t in last.tasks && last.tasks[t] == Retracting([], ids[|left|..], RECONCILE_ATTEMPTS, why, failures + more)
    decreases |left|
  {
    hide *;
    RollbackStep(w, left, ids);
    if left == [] {
      AloneNone(c, e, t, w.net);
      acts, last := [], e;
    } else {
      var (w1, ok) := TrySettle(w, left[0].key, -(left[0].amount as int), RollbackMarker(left[0].key, ids[0]), RECONCILE_ATTEMPTS);
      SomeAttempts();
      var first, e1 := RetractAlone(c, e, t, w, left, ids, RECONCILE_ATTEMPTS, why, failures);
      var later;
      later, last := RollbackAlone(c, e1, t, w1, left[1..], ids[1..], why, failures + if ok then 0 else 1);
      assert ids[1..][|left[1..]|..] == ids[|left|..];
      acts := first + later;
      var rest := Rollback(w1, left[1..], ids[1..]).0.net;
      AloneConcat(c, e, first, e1, later, last, t, w.net, w1.net, rest);
    }
  }

  lemma SomeAttempts()
    ensures RECONCILE_ATTEMPTS > 0
  {
  }

  lemma {:induction false} AloneConcat(
    c: Setup, e: Engines, a: seq<Act>, e1: Engines, b: seq<Act>, last: Engines, t: nat, net: seq<Fate>, mid: seq<Fate>, rest: seq<Fate>)
    requires Configured(c) && Alone(c, e, a, e1, t, net, mid) && Alone(c, e1, b, last, t, mid, rest)
    ensures Alone(c, e, a + b, last, t, net, rest)
    decreases |a|
  {
    hide Configured, Can, Do;
    if a == [] {
      assert a + b == b;
    } else {
      assert (a + b)[0] == a[0] && (a + b)[1..] == a[1..] + b;
      var net' := if a[0].Ask? || a[0].Retract? || a[0].Send? then Rest(net) else net;
      assert Alone(c, Do(c, e, a[0]), a[1..], e1, t, net', mid);
      AloneConcat(c, Do(c, e, a[0]), a[1..], e1, b, last, t, net', mid, rest);
    }
  }

  /** All attempts at one rollback. */
  lemma {:induction false} RetractAlone(
    c: Setup, e: Engines, t: nat, w: World, left: seq<Line>, ids: seq<string>, tries: nat, why: Why, failures: nat)
    returns (acts: seq<Act>, last: Engines)
    requires Configured(c) && t in e.tasks && e.tasks[t] == Retracting(left, ids, tries, why, failures)
    requires e.books == w.books && left != [] && ids != [] && tries > 0
    ensures var (w', ok) := TrySettle(w, left[0].key, -(left[0].amount as int), RollbackMarker(left[0].key, ids[0]), tries);
            && Alone(c, e, acts, last, t, w.net, w'.net) && last.books == w'.books && t in last.tasks
            && last.tasks[t] == Retracting(left[1..], ids[1..], RECONCILE_ATTEMPTS, why, failures + if ok then 0 else 1)
    decreases tries
  {
    hide Configured, RollbackMarker, Settle, Alone;
    var a := Retract(t, Fated(w.net));
    var e1 := Do(c, e, a);
    var later;
    if Fated(w.net) == Arrives || tries == 1 {
      AloneNone(c, e1, t, Rest(w.net));
      later, last := [], e1;
    } else {
      later, last := RetractAlone(c, e1, t, World(e1.books, Rest(w.net)), left, ids, tries - 1, why, failures);
    }
    acts := [a] + later;
    AloneThen(c, e, a, later, last, w.net,
              TrySettle(w, left[0].key, -(left[0].amount as int), RollbackMarker(left[0].key, ids[0]), tries).0.net);
  }

  /** A reserve is over when its lines are held, or all rolled back. */
  predicate Over(task: Task) {
    task.Holding? || (task.Retracting? && task.left == [])
  }

  /** What a reserve that is over answers. */
  function Told(task: Task, failOpen: bool): Reserved
    requires Over(task)
  {
    if task.Holding? then Reserved.Ok(Reservation(task.id, task.held, 0))
    else if task.why.reply == Refused then Denied(task.why.index, task.failures)
    else if failOpen then Reserved.Ok(Reservation("", [], task.failures))
    else Error(task.failures)
  }

  lemma {:induction false} AskAlone(c: Setup, e: Engines, t: nat, w: World, failOpen: bool) returns (acts: seq<Act>, last: Engines)
    requires Configured(c) && t in e.tasks && e.tasks[t].Asking? && e.books == w.books
    requires |e.tasks[t].held| + |e.tasks[t].todo| < |e.tasks[t].ids|
    requires forall i :: 0 <= i < |e.tasks[t].todo| ==> e.tasks[t].todo[i].index < |c.budgets|
    ensures var task := e.tasks[t];
            var (w', r) := ReserveLines(w, c.budgets, task.held, task.todo, task.ids, failOpen);
            && Alone(c, e, acts, last, t, w.net, w'.net) && last.books == w'.books
            && t in last.tasks && Over(last.tasks[t]) && r == Told(last.tasks[t], failOpen)
    decreases |e.tasks[t].todo|
  {
    hide Configured, Alone, Rollback;
    var task := e.tasks[t];
    if task.todo == [] {
      var e1 := Do(c, e, Keep(t));
      AloneNone(c, e1, t, w.net);
      AloneThen(c, e, Keep(t), [], e1, w.net, w.net);
      acts, last := [Keep(t)] + [], e1;
    } else {
      var line, a := task.todo[0], Ask(t, Fated(w.net));
      var (w1, reply) := TryReserve(w, line.key, line.amount, c.budgets[line.index].limit);
      OneFate(w, line, c.budgets[line.index].limit);
      var e1 := Do(c, e, a);
      hide TryReserve;
      var later;
      if reply == Admitted {
        later, last := AskAlone(c, e1, t, w1, failOpen);
      } else {
        later, last := RollbackAlone(c, e1, t, w1, task.held, task.ids, Why(reply, line.index), 0);
      }
      acts := [a] + later;
      AloneThen(c, e, a, later, last, w.net, ReserveLines(w, c.budgets, task.held, task.todo, task.ids, failOpen).0.net);
    }
  }

  /** One attempt needs one fate. */
  lemma OneFate(w: World, line: Line, limit: nat)
    ensures var (w1, r1) := TryReserve(w, line.key, line.amount, limit);
            var (w2, r2) := TryReserve(World(w.books, [Fated(w.net)]), line.key, line.amount, limit);
            w1.books == w2.books && r1 == r2 && w1.net == Rest(w.net)
  {
    hide Charge;
  }

  /** A reserve taken alone, attempt by attempt, does what `BudgetEngine` has it do: same books, same fates, same answer. */
  lemma ReserveAlone(c: Setup, e: Engines, a: Act, net: seq<Fate>, failOpen: bool) returns (acts: seq<Act>, last: Engines)
    requires Configured(c) && a.Start? && Can(c, e, a)
    ensures |Lines(c.budgets, c.prefix, a.dims, a.estimate, a.now, 0)| < |a.ids|
    ensures var lines := Lines(c.budgets, c.prefix, a.dims, a.estimate, a.now, 0);
            var (w', r) := ReserveLines(World(e.books, net), c.budgets, [], lines, a.ids, failOpen);
            && Alone(c, e, [a] + acts, last, a.t, net, w'.net) && last.books == w'.books
            && a.t in last.tasks && Over(last.tasks[a.t]) && r == Told(last.tasks[a.t], failOpen)
  {
    LinesShort(c.budgets, c.prefix, a.dims, a.estimate, a.now, 0);
    var e1 := Do(c, e, a);
    hide Configured, Alone, ReserveLines, Lines, Can;
    acts, last := AskAlone(c, e1, a.t, World(e1.books, net), failOpen);
    var w' := ReserveLines(World(e1.books, net), c.budgets, [], Lines(c.budgets, c.prefix, a.dims, a.estimate, a.now, 0), a.ids, failOpen).0;
    AloneThen(c, e, a, acts, last, net, w'.net);
  }

  /** The line a settle is at, as `BudgetEngine` settles it: skipped, or sent until answered or out of tries. */
  lemma {:induction false} SendAlone(c: Setup, e: Engines, t: nat, w: World) returns (acts: seq<Act>, last: Engines)
    requires Configured(c) && AtLine(e, t) && e.books == w.books
    requires SpentAt(c, LineOf(e, t), e.tasks[t].actual) != LineOf(e, t).amount
    ensures var task, line := e.tasks[t], LineOf(e, t);
            var delta := SpentAt(c, line, task.actual) as int - line.amount;
            var (w', ok) := TrySettle(w, line.key, delta, SettleMarker(line.key, e.tasks[task.grant].id), task.tries);
            var failures := task.failures + if ok then 0 else 1;
            && Alone(c, e, acts, last, t, w.net, w'.net) && last.books == w'.books && last.drawn == e.drawn
            && last.tasks == e.tasks[t := Settling(task.grant, task.next + 1, task.actual, RECONCILE_ATTEMPTS, failures)]
    decreases e.tasks[t].tries
  {
    hide Configured, SettleMarker, Settle, Alone, SpentAt;
    var task, fate, line := e.tasks[t], Fated(w.net), LineOf(e, t);
    var a := Send(t, fate);
    var e1 := Do(c, e, a);
    var later;
    if fate == Arrives || task.tries == 1 {
      AloneNone(c, e1, t, Rest(w.net));
      later, last := [], e1;
    } else {
      later, last := SendAlone(c, e1, t, World(e1.books, Rest(w.net)));
    }
    acts := [a] + later;
    var delta := SpentAt(c, line, task.actual) as int - line.amount;
    AloneThen(c, e, a, later, last, w.net,
              TrySettle(w, line.key, delta, SettleMarker(line.key, e.tasks[task.grant].id), task.tries).0.net);
  }

  /** How `BudgetEngine` settles the line at `next` and the later ones. */
  lemma SettleStep(c: Setup, w: World, id: string, held: seq<Line>, next: nat, actual: Spend)
    requires next < |held| && forall i :: 0 <= i < |held| ==> held[i].index < |c.budgets|
    ensures var line := held[next];
            var spent := SpentAt(c, line, actual);
            var (w1, ok) := TrySettle(w, line.key, spent as int - line.amount, SettleMarker(line.key, id), RECONCILE_ATTEMPTS);
            var (w2, failures) := SettleLines(w1, c.budgets, id, held[next + 1..], actual);
            SettleLines(w, c.budgets, id, held[next..], actual)
            == if spent == line.amount then SettleLines(w, c.budgets, id, held[next + 1..], actual)
               else (w2, failures + if ok then 0 else 1)
  {
    hide TrySettle, SettleMarker, Amount;
    assert held[next..][0] == held[next] && held[next..][1..] == held[next + 1..];
  }

  lemma SettleDone(c: Setup, w: World, id: string, actual: Spend)
    ensures SettleLines(w, c.budgets, id, [], actual) == (w, 0)
  {
  }

  lemma SkippedTask(c: Setup, e: Engines, t: nat) returns (e': Engines)
    requires Configured(c) && Can(c, e, Skip(t))
    ensures e' == Do(c, e, Skip(t)) && e'.books == e.books && AtLine(e, t)
    ensures var task := e.tasks[t];
            e'.tasks == e.tasks[t := Settling(task.grant, task.next + 1, task.actual, task.tries, task.failures)]
  {
    hide Configured, SpentAt;
    e' := Do(c, e, Skip(t));
  }

  lemma StandsAt(c: Setup, e: Engines, t: nat)
    requires t in e.tasks && e.tasks[t].Settling? && e.tasks[t].tries == RECONCILE_ATTEMPTS
    requires e.tasks[t].grant in e.tasks && e.tasks[e.tasks[t].grant].Holding? && e.tasks[t].next < |e.tasks[e.tasks[t].grant].held|
    ensures AtLine(e, t) && LineOf(e, t) == e.tasks[e.tasks[t].grant].held[e.tasks[t].next]
    ensures SpentAt(c, LineOf(e, t), e.tasks[t].actual) == LineOf(e, t).amount ==> Can(c, e, Skip(t))
  {
    hide SpentAt;
  }

  lemma {:induction false} SettlesAlone(c: Setup, e: Engines, t: nat, w: World) returns (acts: seq<Act>, last: Engines)
    requires Configured(c) && t in e.tasks && e.tasks[t].Settling? && e.tasks[t].tries == RECONCILE_ATTEMPTS && e.books == w.books
    requires e.tasks[t].grant in e.tasks && e.tasks[e.tasks[t].grant].Holding? && e.tasks[t].next <= |e.tasks[e.tasks[t].grant].held|
    requires forall i :: 0 <= i < |e.tasks[e.tasks[t].grant].held| ==> e.tasks[e.tasks[t].grant].held[i].index < |c.budgets|
    ensures var task, grant := e.tasks[t], e.tasks[e.tasks[t].grant];
            var (w', failures) := SettleLines(w, c.budgets, grant.id, grant.held[task.next..], task.actual);
            && Alone(c, e, acts, last, t, w.net, w'.net) && last.books == w'.books && t in last.tasks
            && last.tasks[t] == Settling(task.grant, |grant.held|, task.actual, RECONCILE_ATTEMPTS, task.failures + failures)
    decreases |e.tasks[e.tasks[t].grant].held| - e.tasks[t].next
  {
    hide *;
    var task, grant := e.tasks[t], e.tasks[e.tasks[t].grant];
    if task.next == |grant.held| {
      assert grant.held[task.next..] == [];
      SettleDone(c, w, grant.id, task.actual);
      AloneNone(c, e, t, w.net);
      acts, last := [], e;
    } else {
      StandsAt(c, e, t);
      SettleStep(c, w, grant.id, grant.held, task.next, task.actual);
      var line := LineOf(e, t);
      var spent, rest := SpentAt(c, line, task.actual), grant.held[task.next + 1..];
      var later;
      if spent == line.amount {
        var e1 := SkippedTask(c, e, t);
        later, last := SettlesAlone(c, e1, t, w);
        acts := [Skip(t)] + later;
        AloneThen(c, e, Skip(t), later, last, w.net, SettleLines(w, c.budgets, grant.id, rest, task.actual).0.net);
      } else {
        var first, e1 := SendAlone(c, e, t, w);
        var w1 := TrySettle(w, line.key, spent as int - line.amount, SettleMarker(line.key, grant.id), RECONCILE_ATTEMPTS).0;
        later, last := SettlesAlone(c, e1, t, w1);
        acts := first + later;
        AloneConcat(c, e, first, e1, later, last, t, w.net, w1.net, SettleLines(w1, c.budgets, grant.id, rest, task.actual).0.net);
      }
    }
  }

  predicate AllIndexed(c: Setup, lines: seq<Line>) {
    forall i :: 0 <= i < |lines| ==> lines[i].index < |c.budgets|
  }

  /** The lines of a reservation that was handed out name budgets. */
  ghost predicate Indexed(c: Setup, e: Engines) {
    forall t :: t in e.tasks ==>
      && (e.tasks[t].Asking? ==> AllIndexed(c, e.tasks[t].held) && AllIndexed(c, e.tasks[t].todo))
      && (e.tasks[t].Holding? ==> AllIndexed(c, e.tasks[t].held))
  }

  lemma StaysIndexed(c: Setup, e: Engines, a: Act)
    requires Configured(c) && Can(c, e, a) && Indexed(c, e)
    ensures Indexed(c, Do(c, e, a))
  {
    hide Configured, Lines, TryReserve, Attempt, SpentAt;
  }

  lemma {:induction false} GrantsIndexed(c: Setup, e: Engines, acts: seq<Act>, last: Engines)
    requires Configured(c) && Happens(c, e, acts, last) && Indexed(c, e)
    ensures Indexed(c, last)
    decreases |acts|
  {
    hide Configured, Can, Do, Indexed;
    if acts != [] {
      StaysIndexed(c, e, acts[0]);
      GrantsIndexed(c, Do(c, e, acts[0]), acts[1..], last);
    }
  }

  /** And so does a settle: it goes through all its lines and counts the same failures. */
  lemma SettleAlone(c: Setup, before: seq<Act>, e: Engines, a: Act, net: seq<Fate>) returns (acts: seq<Act>, last: Engines)
    requires Configured(c) && Happens(c, IDLE, before, e) && a.StartSettle? && Can(c, e, a)
    ensures AllIndexed(c, e.tasks[a.grant].held)
    ensures var grant := e.tasks[a.grant];
            var (w', failures) := SettleLines(World(e.books, net), c.budgets, grant.id, grant.held, a.actual);
            && Alone(c, e, [a] + acts, last, a.t, net, w'.net) && last.books == w'.books && a.t in last.tasks
            && last.tasks[a.t] == Settling(a.grant, |grant.held|, a.actual, RECONCILE_ATTEMPTS, failures)
  {
    GrantsIndexed(c, IDLE, before, e);
    var e1, grant := Do(c, e, a), e.tasks[a.grant];
    assert grant.held[0..] == grant.held;
    hide Configured, Alone, SettleLines;
    acts, last := SettlesAlone(c, e1, a.t, World(e1.books, net));
    AloneThen(c, e, a, acts, last, net, SettleLines(World(e1.books, net), c.budgets, grant.id, grant.held, a.actual).0.net);
  }
}
