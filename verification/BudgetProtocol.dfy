/**
 The reserve, settle and roll back protocol of `src/budget.rs`, as a state machine over every
 interleaving of requests.

 The books are what the shared store holds: a counter per key and the set of settle markers. The ledger
 is what the proxies did, one line per admitted hold. A settle is two steps, setting the marker and moving
 the counter: the in-process store takes them under two locks, and the script takes them together. Any
 settle may be delivered again at any time, in any order, and need not be delivered at all.
 */
module BudgetProtocol {
  import opened Wrappers
  import opened BudgetKeys
  import opened BudgetStore

  // ---- The books --------------------------------------------------------------------------------

  datatype Books = Books(used: map<string, nat>, settled: set<string>)

  function Used(b: Books, key: string): nat {
    if key in b.used then b.used[key] else 0
  }

  function Put(b: Books, key: string, value: int): Books {
    b.(used := b.used[key := Max(value, 0)])
  }

  /** An admitted reserve. */
  function Charge(b: Books, key: string, amount: nat): Books {
    Put(b, key, Used(b, key) + amount)
  }

  /** A settle, marker and counter together. */
  function Settle(b: Books, key: string, delta: int, marker: string): Books {
    if marker in b.settled then b
    else Put(b.(settled := b.settled + {marker}), key, Used(b, key) + delta)
  }

  /** What a store that nothing has expired from holds. */
  function BooksOf(s: Memory): Books {
    Books(map k | k in s.used :: s.used[k].value, set m | m in s.settled)
  }

  ghost predicate NothingExpired(s: Memory, now: int) {
    && (forall k :: k in s.used ==> s.used[k].expires > now)
    && (forall m :: m in s.settled ==> s.settled[m] > now)
  }

  /** While nothing expires, the store's two calls are the two moves of the protocol. */
  lemma StoreMoves(s: Memory, c: Call, now: int)
    requires NothingExpired(s, now) && InRange(c, s, now)
    ensures var (s', o) := MemoryCall(s, c, now);
            match c
            case ReserveCall(key, amount, limit, _) =>
              && o == Some(Outcome(Used(BooksOf(s), key) + amount <= limit, Used(BooksOf(s'), key)))
              && BooksOf(s') == if Used(BooksOf(s), key) + amount <= limit then Charge(BooksOf(s), key, amount) else BooksOf(s)
            case ReconcileCall(key, delta, _, marker) =>
              BooksOf(s') == Settle(BooksOf(s), key, delta, marker)
  {
    hide IsMarker, WrapI64;
    assert LiveCounters(s.used, now) == s.used;
    assert LiveMarkers(s.settled, now) == s.settled;
    match c
    case ReserveCall(key, amount, limit, ttl) =>
    case ReconcileCall(key, delta, ttl, marker) =>
      var used := ValueOf(s.used, key);
      WrapInRange(used);
      WrapInRange(used + delta);
  }

  // ---- The ledger -------------------------------------------------------------------------------

  /** Where a hold stands: reserved, its marker set, or its counter moved to what was spent. */
  datatype Status = Open | Marked(actual: nat) | Closed(actual: nat)

  /** Which marker settles a hold; none until its request commits or rolls it back. */
  datatype Tag = Untagged | ToSettle(id: string) | ToRollBack(id: string)

  /** One admitted reserve. `owner` is none when the reply was lost and no request knows of it. */
  datatype Hold = Hold(owner: Option<nat>, key: string, amount: nat, tag: Tag, status: Status)

  datatype Phase = Reserving | Committed | Aborted

  datatype Sys = Sys(books: Books, ledger: seq<Hold>, phases: map<nat, Phase>, ids: set<string>)

  const NOTHING := Sys(Books(map[], {}), [], map[], {})

  function MarkerOf(h: Hold): string
    requires h.tag != Untagged
  {
    match h.tag
    case ToSettle(id) => SettleMarker(h.key, id)
    case ToRollBack(id) => RollbackMarker(h.key, id)
  }

  /** What a column of the ledger adds up. */
  datatype Column = Held | Spent | Overrun

  function Part(c: Column, h: Hold, k: string): nat {
    if h.key != k then 0
    else match c
      case Held => if h.status.Closed? then 0 else h.amount
      case Spent => if h.status.Closed? then h.status.actual else 0
      case Overrun => if h.status.Closed? && h.status.actual > h.amount then h.status.actual - h.amount else 0
  }

  function Sum(c: Column, ledger: seq<Hold>, k: string): nat {
    if ledger == [] then 0 else Part(c, ledger[0], k) + Sum(c, ledger[1..], k)
  }

  // ---- Steps ------------------------------------------------------------------------------------

  datatype Step =
    | Begin(r: nat)
    | Admit(r: nat, key: string, amount: nat, limit: nat)
    | AdmitUnheard(key: string, amount: nat, limit: nat)
    | Commit(r: nat, id: string)
    | Abort(r: nat)
    | TakeBack(i: nat, id: string)
    | Mark(i: nat, actual: nat)
    | Move(i: nat)

  ghost predicate Owns(h: Hold, r: nat) {
    h.owner == Some(r)
  }

  /** `limits` gives each counter its budget's limit: a key names one budget. */
  ghost predicate Enabled(limits: string -> nat, s: Sys, step: Step) {
    match step
    case Begin(r) => r !in s.phases
    case Admit(r, key, amount, limit) =>
      && r in s.phases && s.phases[r] == Reserving
      && limit == limits(key) && Used(s.books, key) + amount <= limit
      && (forall i :: 0 <= i < |s.ledger| && Owns(s.ledger[i], r) ==> s.ledger[i].key != key)
    case AdmitUnheard(key, amount, limit) =>
      limit == limits(key) && Used(s.books, key) + amount <= limit
    case Commit(r, id) => r in s.phases && s.phases[r] == Reserving && Uuid(id) && id !in s.ids
    case Abort(r) => r in s.phases && s.phases[r] == Reserving
    case TakeBack(i, id) =>
      && i < |s.ledger| && s.ledger[i].tag == Untagged && Uuid(id) && id !in s.ids
      && s.ledger[i].owner.Some? && s.ledger[i].owner.value in s.phases
      && s.phases[s.ledger[i].owner.value] == Aborted
    case Mark(i, actual) =>
      && i < |s.ledger| && s.ledger[i].tag != Untagged
      && (s.ledger[i].tag.ToRollBack? ==> actual == 0)
    case Move(i) => i < |s.ledger| && s.ledger[i].status.Marked?
  }

  function Tagged(ledger: seq<Hold>, r: nat, id: string): seq<Hold> {
    seq(|ledger|, i requires 0 <= i < |ledger| =>
      if ledger[i].owner == Some(r) then ledger[i].(tag := ToSettle(id)) else ledger[i])
  }

  function After(s: Sys, step: Step): Sys
    requires step.TakeBack? || step.Mark? || step.Move? ==> step.i < |s.ledger|
    requires step.Mark? ==> s.ledger[step.i].tag != Untagged
    requires step.Move? ==> s.ledger[step.i].status.Marked?
  {
    match step
    case Begin(r) => s.(phases := s.phases[r := Reserving])
    case Admit(r, key, amount, _) =>
      s.(books := Charge(s.books, key, amount),
         ledger := s.ledger + [Hold(Some(r), key, amount, Untagged, Open)])
    case AdmitUnheard(key, amount, _) =>
      s.(books := Charge(s.books, key, amount),
         ledger := s.ledger + [Hold(None, key, amount, Untagged, Open)])
    case Commit(r, id) =>
      s.(phases := s.phases[r := Committed], ledger := Tagged(s.ledger, r, id), ids := s.ids + {id})
    case Abort(r) => s.(phases := s.phases[r := Aborted])
    case TakeBack(i, id) =>
      s.(ledger := s.ledger[i := s.ledger[i].(tag := ToRollBack(id))], ids := s.ids + {id})
    case Mark(i, actual) =>
      var h := s.ledger[i];
      // A settle that changes nothing is not sent, and one whose marker is set is not applied again.
      if actual == h.amount || MarkerOf(h) in s.books.settled then s
      else s.(books := s.books.(settled := s.books.settled + {MarkerOf(h)}),
              ledger := s.ledger[i := h.(status := Marked(actual))])
    case Move(i) =>
      var h := s.ledger[i];
      s.(books := Put(s.books, h.key, Used(s.books, h.key) + h.status.actual - h.amount),
         ledger := s.ledger[i := h.(status := Closed(h.status.actual))])
  }

  // ---- What every step keeps --------------------------------------------------------------------

  /** Each counter is its unsettled holds plus its settled spends. */
  ghost predicate Balanced(s: Sys) {
    forall k :: Used(s.books, k) == Sum(Held, s.ledger, k) + Sum(Spent, s.ledger, k)
  }

  /** No counter is above its limit by more than settled spends outran their reservations. */
  ghost predicate Capped(limits: string -> nat, s: Sys) {
    forall k :: Used(s.books, k) <= limits(k) + Sum(Overrun, s.ledger, k)
  }

  /** A request holds a counter at most once, and its holds are tagged as its phase says. */
  ghost predicate Tidy(s: Sys) {
    && (forall i, j :: 0 <= i < j < |s.ledger| && s.ledger[i].owner.Some? && s.ledger[i].owner == s.ledger[j].owner
          ==> s.ledger[i].key != s.ledger[j].key)
    && (forall i :: 0 <= i < |s.ledger| ==> TidyHold(s, s.ledger[i]))
    && (forall i, j :: 0 <= i < j < |s.ledger| && s.ledger[i].tag.ToSettle? && s.ledger[i].tag == s.ledger[j].tag
          ==> s.ledger[i].owner.Some? && s.ledger[i].owner == s.ledger[j].owner)
    && (forall i, j :: 0 <= i < j < |s.ledger| && s.ledger[i].tag.ToRollBack? ==> s.ledger[i].tag != s.ledger[j].tag)
  }

  ghost predicate TidyHold(s: Sys, h: Hold) {
    && (h.owner.Some? ==> h.owner.value in s.phases)
    && (h.owner.Some? && s.phases[h.owner.value] == Reserving ==> h.tag == Untagged)
    && (h.owner.None? ==> h.tag == Untagged)
    && (h.tag == Untagged ==> h.status == Open)
    && (h.tag.ToSettle? ==> h.tag.id in s.ids && Uuid(h.tag.id))
    && (h.tag.ToRollBack? ==>
          && h.tag.id in s.ids && Uuid(h.tag.id)
          && s.phases[h.owner.value] == Aborted
          && (h.status == Open || h.status == Marked(0) || h.status == Closed(0)))
  }

  /** The markers set are those of the holds whose settle has begun. */
  ghost predicate MarkersMatch(s: Sys) {
    forall i :: 0 <= i < |s.ledger| && s.ledger[i].tag != Untagged ==>
      (MarkerOf(s.ledger[i]) in s.books.settled <==> s.ledger[i].status != Open)
  }

  /** Every marker set belongs to a line of the ledger, so an unused id is an unused marker. */
  ghost predicate MarkersKnown(s: Sys) {
    forall m :: m in s.books.settled ==>
      exists i :: 0 <= i < |s.ledger| && s.ledger[i].tag != Untagged && MarkerOf(s.ledger[i]) == m
  }

  ghost predicate Inv(limits: string -> nat, s: Sys) {
    Balanced(s) && Capped(limits, s) && Tidy(s) && MarkersMatch(s) && MarkersKnown(s)
  }

  // ---- Sums -------------------------------------------------------------------------------------

  lemma {:induction false} SumAppend(c: Column, l: seq<Hold>, h: Hold, k: string)
    ensures Sum(c, l + [h], k) == Sum(c, l, k) + Part(c, h, k)
  {
    hide Part;
    if l == [] {
      assert l + [h] == [h];
    } else {
      assert (l + [h])[1..] == l[1..] + [h];
      SumAppend(c, l[1..], h, k);
    }
  }

  lemma {:induction false} SumUpdate(c: Column, l: seq<Hold>, i: nat, h: Hold, k: string)
    requires i < |l|
    ensures Sum(c, l[i := h], k) == Sum(c, l, k) - Part(c, l[i], k) + Part(c, h, k)
    ensures Part(c, l[i], k) <= Sum(c, l, k)
  {
    hide Part;
    if i == 0 {
      assert l[i := h][1..] == l[1..];
    } else {
      assert l[i := h][1..] == l[1..][i - 1 := h];
      SumUpdate(c, l[1..], i - 1, h, k);
    }
  }

  lemma {:induction false} SumSame(c: Column, l: seq<Hold>, l': seq<Hold>, k: string)
    requires |l| == |l'| && forall i :: 0 <= i < |l| ==> Part(c, l[i], k) == Part(c, l'[i], k)
    ensures Sum(c, l, k) == Sum(c, l', k)
  {
    hide Part;
    if l != [] {
      forall i | 0 <= i < |l[1..]| ensures Part(c, l[1..][i], k) == Part(c, l'[1..][i], k) {
        assert l[1..][i] == l[i + 1] && l'[1..][i] == l'[i + 1];
      }
      SumSame(c, l[1..], l'[1..], k);
    }
  }

  // ---- Money ------------------------------------------------------------------------------------

  lemma AppendKeepsMoney(limits: string -> nat, s: Sys, h: Hold)
    requires Balanced(s) && Capped(limits, s)
    requires h.status == Open && Used(s.books, h.key) + h.amount <= limits(h.key)
    ensures var s' := s.(books := Charge(s.books, h.key, h.amount), ledger := s.ledger + [h]);
            Balanced(s') && Capped(limits, s')
  {
    hide Sum;
    var s' := s.(books := Charge(s.books, h.key, h.amount), ledger := s.ledger + [h]);
    forall k ensures Used(s'.books, k) == Sum(Held, s'.ledger, k) + Sum(Spent, s'.ledger, k)
      ensures Used(s'.books, k) <= limits(k) + Sum(Overrun, s'.ledger, k)
    {
      SumAppend(Held, s.ledger, h, k);
      SumAppend(Spent, s.ledger, h, k);
      SumAppend(Overrun, s.ledger, h, k);
      assert Used(s.books, k) == Sum(Held, s.ledger, k) + Sum(Spent, s.ledger, k);
    }
  }

  /** The floor at zero never acts: the counter still holds what the hold put there. */
  lemma MoveKeepsMoney(limits: string -> nat, s: Sys, i: nat)
    requires Balanced(s) && Capped(limits, s) && i < |s.ledger| && s.ledger[i].status.Marked?
    ensures var h := s.ledger[i]; Used(s.books, h.key) + h.status.actual - h.amount >= 0
    ensures var s' := After(s, Move(i)); Balanced(s') && Capped(limits, s')
  {
    hide Sum;
    var h := s.ledger[i];
    var h' := h.(status := Closed(h.status.actual));
    var s' := After(s, Move(i));
    SumUpdate(Held, s.ledger, i, h', h.key);
    assert Used(s.books, h.key) == Sum(Held, s.ledger, h.key) + Sum(Spent, s.ledger, h.key);
    forall k ensures Used(s'.books, k) == Sum(Held, s'.ledger, k) + Sum(Spent, s'.ledger, k)
      ensures Used(s'.books, k) <= limits(k) + Sum(Overrun, s'.ledger, k)
    {
      SumUpdate(Held, s.ledger, i, h', k);
      SumUpdate(Spent, s.ledger, i, h', k);
      SumUpdate(Overrun, s.ledger, i, h', k);
      assert Used(s.books, k) == Sum(Held, s.ledger, k) + Sum(Spent, s.ledger, k);
      assert Used(s.books, k) <= limits(k) + Sum(Overrun, s.ledger, k);
    }
  }

  /** Tagging and marking move no money. */
  lemma SameMoney(limits: string -> nat, s: Sys, s': Sys)
    requires Balanced(s) && Capped(limits, s)
    requires s'.books.used == s.books.used && |s'.ledger| == |s.ledger|
    requires forall i :: 0 <= i < |s.ledger| ==> SameLine(s.ledger[i], s'.ledger[i])
    ensures Balanced(s') && Capped(limits, s')
  {
    hide Sum;
    forall k ensures Used(s'.books, k) == Sum(Held, s'.ledger, k) + Sum(Spent, s'.ledger, k)
      ensures Used(s'.books, k) <= limits(k) + Sum(Overrun, s'.ledger, k)
    {
      forall c: Column ensures Sum(c, s'.ledger, k) == Sum(c, s.ledger, k) {
        forall i | 0 <= i < |s.ledger| ensures Part(c, s.ledger[i], k) == Part(c, s'.ledger[i], k) {
          assert SameLine(s.ledger[i], s'.ledger[i]);
        }
        SumSame(c, s.ledger, s'.ledger, k);
      }
      assert Used(s'.books, k) == Used(s.books, k);
    }
  }

  predicate SameLine(a: Hold, b: Hold) {
    a.key == b.key && a.amount == b.amount && (a.status == b.status || (!a.status.Closed? && !b.status.Closed?))
  }

  // ---- Markers ----------------------------------------------------------------------------------

  /** Different holds have different markers. */
  lemma MarkersDiffer(s: Sys, i: nat, j: nat)
    requires Tidy(s) && i < |s.ledger| && j < |s.ledger| && i != j
    requires s.ledger[i].tag != Untagged && s.ledger[j].tag != Untagged
    ensures MarkerOf(s.ledger[i]) != MarkerOf(s.ledger[j])
  {
    hide SettleMarker, RollbackMarker, Uuid;
    var a, b := s.ledger[i], s.ledger[j];
    assert TidyHold(s, a) && TidyHold(s, b);
    MarkerInjective(a.key, a.tag.id, b.key, b.tag.id);
    MarkerInjective(b.key, b.tag.id, a.key, a.tag.id);
  }

  /** An id never used before gives a marker never set before. */
  lemma FreshMarker(s: Sys, h: Hold)
    requires Tidy(s) && MarkersKnown(s)
    requires h.tag != Untagged && Uuid(h.tag.id) && h.tag.id !in s.ids
    ensures MarkerOf(h) !in s.books.settled
  {
    hide SettleMarker, RollbackMarker, Uuid;
    if MarkerOf(h) in s.books.settled {
      var i :| 0 <= i < |s.ledger| && s.ledger[i].tag != Untagged && MarkerOf(s.ledger[i]) == MarkerOf(h);
      assert TidyHold(s, s.ledger[i]);
      MarkerInjective(h.key, h.tag.id, s.ledger[i].key, s.ledger[i].tag.id);
      MarkerInjective(s.ledger[i].key, s.ledger[i].tag.id, h.key, h.tag.id);
      assert false;
    }
  }

  // ---- Steps keep the invariant -----------------------------------------------------------------

  lemma AppendKeeps(limits: string -> nat, s: Sys, h: Hold)
    requires Inv(limits, s)
    requires h.status == Open && h.tag == Untagged && Used(s.books, h.key) + h.amount <= limits(h.key)
    requires h.owner.Some? ==> h.owner.value in s.phases
    requires h.owner.Some? ==> forall i :: 0 <= i < |s.ledger| && s.ledger[i].owner == h.owner ==> s.ledger[i].key != h.key
    ensures Inv(limits, s.(books := Charge(s.books, h.key, h.amount), ledger := s.ledger + [h]))
  {
    hide Sum, Balanced, Capped, MarkerOf, Uuid;
    var s' := s.(books := Charge(s.books, h.key, h.amount), ledger := s.ledger + [h]);
    AppendKeepsMoney(limits, s, h);
    forall i | 0 <= i < |s'.ledger| ensures TidyHold(s', s'.ledger[i]) {
      if i < |s.ledger| {
        assert TidyHold(s, s.ledger[i]);
      }
    }
    forall m | m in s'.books.settled
      ensures exists i :: 0 <= i < |s'.ledger| && s'.ledger[i].tag != Untagged && MarkerOf(s'.ledger[i]) == m
    {
      var i :| 0 <= i < |s.ledger| && s.ledger[i].tag != Untagged && MarkerOf(s.ledger[i]) == m;
      assert s'.ledger[i] == s.ledger[i];
    }
  }

  lemma PhaseKeeps(limits: string -> nat, s: Sys, r: nat, phase: Phase)
    requires Inv(limits, s)
    requires (r !in s.phases && phase == Reserving) || (r in s.phases && s.phases[r] == Reserving && phase == Aborted)
    ensures Inv(limits, s.(phases := s.phases[r := phase]))
  {
    hide Sum, Balanced, Capped, MarkerOf, Uuid;
    var s' := s.(phases := s.phases[r := phase]);
    SameMoney(limits, s, s');
    forall i | 0 <= i < |s'.ledger| ensures TidyHold(s', s'.ledger[i]) {
      assert TidyHold(s, s.ledger[i]);
    }
    assert MarkersKnown(s');
  }

  lemma CommitKeeps(limits: string -> nat, s: Sys, r: nat, id: string)
    requires Inv(limits, s) && Enabled(limits, s, Commit(r, id))
    ensures Inv(limits, After(s, Commit(r, id)))
  {
    hide Sum, Balanced, Capped, Uuid, SettleMarker, RollbackMarker;
    var s' := After(s, Commit(r, id));
    SameMoney(limits, s, s');
    CommitTidy(limits, s, r, id);
    forall i | 0 <= i < |s'.ledger| && s'.ledger[i].tag != Untagged
      ensures MarkerOf(s'.ledger[i]) in s'.books.settled <==> s'.ledger[i].status != Open
    {
      assert TidyHold(s, s.ledger[i]);
      if Owns(s.ledger[i], r) {
        FreshMarker(s, s'.ledger[i]);
      }
    }
    forall m | m in s'.books.settled
      ensures exists i :: 0 <= i < |s'.ledger| && s'.ledger[i].tag != Untagged && MarkerOf(s'.ledger[i]) == m
    {
      var i :| 0 <= i < |s.ledger| && s.ledger[i].tag != Untagged && MarkerOf(s.ledger[i]) == m;
      assert TidyHold(s, s.ledger[i]);
      assert s'.ledger[i] == s.ledger[i];
    }
  }

  lemma CommitTidy(limits: string -> nat, s: Sys, r: nat, id: string)
    requires Tidy(s) && Enabled(limits, s, Commit(r, id))
    ensures Tidy(After(s, Commit(r, id)))
  {
    hide Uuid;
    var s' := After(s, Commit(r, id));
    forall i | 0 <= i < |s'.ledger| ensures TidyHold(s', s'.ledger[i]) {
      assert TidyHold(s, s.ledger[i]);
    }
    forall i, j | 0 <= i < j < |s'.ledger| && s'.ledger[i].tag.ToSettle? && s'.ledger[i].tag == s'.ledger[j].tag
      ensures s'.ledger[i].owner.Some? && s'.ledger[i].owner == s'.ledger[j].owner
    {
      assert TidyHold(s, s.ledger[i]) && TidyHold(s, s.ledger[j]);
    }
    forall i, j | 0 <= i < j < |s'.ledger| && s'.ledger[i].tag.ToRollBack? ensures s'.ledger[i].tag != s'.ledger[j].tag {
      assert TidyHold(s, s.ledger[i]) && TidyHold(s, s.ledger[j]);
    }
  }

  lemma TakeBackKeeps(limits: string -> nat, s: Sys, n: nat, id: string)
    requires Inv(limits, s) && Enabled(limits, s, TakeBack(n, id))
    ensures Inv(limits, After(s, TakeBack(n, id)))
  {
    hide Sum, Balanced, Capped, Uuid, SettleMarker, RollbackMarker;
    var s' := After(s, TakeBack(n, id));
    assert TidyHold(s, s.ledger[n]);
    SameMoney(limits, s, s');
    TakeBackTidy(limits, s, n, id);
    FreshMarker(s, s'.ledger[n]);
    forall m | m in s'.books.settled
      ensures exists i :: 0 <= i < |s'.ledger| && s'.ledger[i].tag != Untagged && MarkerOf(s'.ledger[i]) == m
    {
      var i :| 0 <= i < |s.ledger| && s.ledger[i].tag != Untagged && MarkerOf(s.ledger[i]) == m;
      assert s'.ledger[i] == s.ledger[i];
    }
  }

  lemma TakeBackTidy(limits: string -> nat, s: Sys, n: nat, id: string)
    requires Tidy(s) && Enabled(limits, s, TakeBack(n, id))
    ensures Tidy(After(s, TakeBack(n, id)))
  {
    hide Uuid;
    var s' := After(s, TakeBack(n, id));
    forall i | 0 <= i < |s'.ledger| ensures TidyHold(s', s'.ledger[i]) {
      assert TidyHold(s, s.ledger[i]);
    }
    forall i, j | 0 <= i < j < |s'.ledger| && s'.ledger[i].tag.ToRollBack? ensures s'.ledger[i].tag != s'.ledger[j].tag {
      assert TidyHold(s, s.ledger[i]) && TidyHold(s, s.ledger[j]);
    }
  }

  lemma StatusKeepsTidy(s: Sys, n: nat, status: Status)
    requires Tidy(s) && n < |s.ledger| && s.ledger[n].tag != Untagged
    requires s.ledger[n].tag.ToRollBack? ==> status == Marked(0) || status == Closed(0)
    ensures Tidy(s.(ledger := s.ledger[n := s.ledger[n].(status := status)]))
  {
    hide Uuid;
    var s' := s.(ledger := s.ledger[n := s.ledger[n].(status := status)]);
    forall i | 0 <= i < |s'.ledger| ensures TidyHold(s', s'.ledger[i]) {
      assert TidyHold(s, s.ledger[i]);
    }
  }

  lemma MarkKeeps(limits: string -> nat, s: Sys, n: nat, actual: nat)
    requires Inv(limits, s) && Enabled(limits, s, Mark(n, actual))
    ensures Inv(limits, After(s, Mark(n, actual)))
  {
    hide Sum, Balanced, Capped, Uuid, SettleMarker, RollbackMarker, Tidy, MarkerOf;
    var s' := After(s, Mark(n, actual));
    if s' != s {
      SameMoney(limits, s, s');
      StatusKeepsTidy(s, n, Marked(actual));
      TidyIgnoresBooks(s.(ledger := s'.ledger), s'.books);
      forall i | 0 <= i < |s'.ledger| && s'.ledger[i].tag != Untagged
        ensures MarkerOf(s'.ledger[i]) in s'.books.settled <==> s'.ledger[i].status != Open
      {
        SameMarkerOf(s.ledger[i], s'.ledger[i]);
        if i != n {
          MarkersDiffer(s, i, n);
        }
      }
      KnownAfterStatus(s, n, Marked(actual), s');
    }
  }

  lemma SameMarkerOf(a: Hold, b: Hold)
    requires a.key == b.key && a.tag == b.tag && a.tag != Untagged
    ensures MarkerOf(a) == MarkerOf(b)
  {}

  lemma TidyIgnoresBooks(s: Sys, books: Books)
    requires Tidy(s)
    ensures Tidy(s.(books := books))
  {
    hide Uuid;
    forall i | 0 <= i < |s.ledger| ensures TidyHold(s.(books := books), s.ledger[i]) {
      assert TidyHold(s, s.ledger[i]);
    }
  }

  lemma KnownAfterStatus(s: Sys, n: nat, status: Status, s': Sys)
    requires MarkersKnown(s) && n < |s.ledger| && s.ledger[n].tag != Untagged
    requires s'.ledger == s.ledger[n := s.ledger[n].(status := status)]
    requires s'.books.settled <= s.books.settled + {MarkerOf(s.ledger[n])}
    ensures MarkersKnown(s')
  {
    hide MarkerOf;
    forall m | m in s'.books.settled
      ensures exists i :: 0 <= i < |s'.ledger| && s'.ledger[i].tag != Untagged && MarkerOf(s'.ledger[i]) == m
    {
      if m == MarkerOf(s.ledger[n]) {
        SameMarkerOf(s.ledger[n], s'.ledger[n]);
        assert s'.ledger[n].tag != Untagged && MarkerOf(s'.ledger[n]) == m;
      } else {
        var i :| 0 <= i < |s.ledger| && s.ledger[i].tag != Untagged && MarkerOf(s.ledger[i]) == m;
        SameMarkerOf(s.ledger[i], s'.ledger[i]);
        assert s'.ledger[i].tag != Untagged && MarkerOf(s'.ledger[i]) == m;
      }
    }
  }

  lemma MoveKeeps(limits: string -> nat, s: Sys, n: nat)
    requires Inv(limits, s) && Enabled(limits, s, Move(n))
    ensures Inv(limits, After(s, Move(n)))
  {
    hide Sum, Balanced, Capped, Uuid, SettleMarker, RollbackMarker, MarkerOf;
    var s' := After(s, Move(n));
    MoveKeepsMoney(limits, s, n);
    assert TidyHold(s, s.ledger[n]);
    StatusKeepsTidy(s, n, Closed(s.ledger[n].status.actual));
    TidyIgnoresBooks(s.(ledger := s'.ledger), s'.books);
    forall i | 0 <= i < |s'.ledger| && s'.ledger[i].tag != Untagged
      ensures MarkerOf(s'.ledger[i]) in s'.books.settled <==> s'.ledger[i].status != Open
    {
      SameMarkerOf(s.ledger[i], s'.ledger[i]);
    }
    KnownAfterStatus(s, n, Closed(s.ledger[n].status.actual), s');
  }

  lemma StepKeepsInv(limits: string -> nat, s: Sys, step: Step)
    requires Inv(limits, s) && Enabled(limits, s, step)
    ensures Inv(limits, After(s, step))
  {
    hide Inv, Charge, Put, Tagged;
    match step
    case Begin(r) => PhaseKeeps(limits, s, r, Reserving);
    case Admit(r, key, amount, limit) => AppendKeeps(limits, s, Hold(Some(r), key, amount, Untagged, Open));
    case AdmitUnheard(key, amount, limit) => AppendKeeps(limits, s, Hold(None, key, amount, Untagged, Open));
    case Commit(r, id) => CommitKeeps(limits, s, r, id);
    case Abort(r) => PhaseKeeps(limits, s, r, Aborted);
    case TakeBack(i, id) => TakeBackKeeps(limits, s, i, id);
    case Mark(i, actual) => MarkKeeps(limits, s, i, actual);
    case Move(i) => MoveKeeps(limits, s, i);
  }

  /** The script's settle is a mark and a move with nothing in between, and a settle delivered again is neither. */
  lemma SettleIsMarkThenMove(limits: string -> nat, s: Sys, i: nat, actual: nat)
    requires Inv(limits, s) && Enabled(limits, s, Mark(i, actual)) && actual != s.ledger[i].amount
    ensures var h := s.ledger[i];
            var marked := After(s, Mark(i, actual));
            var after := if h.status == Open then After(marked, Move(i)) else marked;
            after.books == Settle(s.books, h.key, actual as int - h.amount, MarkerOf(h))
  {
    hide Sum, Balanced, Capped, MarkerOf, MarkersKnown, Tidy;
  }

  // ---- Every run --------------------------------------------------------------------------------

  /** The states a sequence of steps goes through, each step being possible when it is taken. */
  ghost predicate Run(limits: string -> nat, s: Sys, steps: seq<Step>, last: Sys)
    decreases |steps|
  {
    if steps == [] then last == s
    else Enabled(limits, s, steps[0]) && Run(limits, After(s, steps[0]), steps[1..], last)
  }

  lemma {:induction false} RunKeepsInv(limits: string -> nat, s: Sys, steps: seq<Step>, last: Sys)
    requires Inv(limits, s) && Run(limits, s, steps, last)
    ensures Inv(limits, last)
    decreases |steps|
  {
    hide Inv, After;
    if steps != [] {
      StepKeepsInv(limits, s, steps[0]);
      RunKeepsInv(limits, After(s, steps[0]), steps[1..], last);
    }
  }

  lemma NothingInv(limits: string -> nat)
    ensures Inv(limits, NOTHING)
  {}

  /** Conservation: after any run, each counter is its unsettled holds plus its settled spends. */
  lemma Conservation(limits: string -> nat, steps: seq<Step>, s: Sys, k: string)
    requires Run(limits, NOTHING, steps, s)
    ensures Used(s.books, k) == Sum(Held, s.ledger, k) + Sum(Spent, s.ledger, k)
  {
    hide Run;
    NothingInv(limits);
    RunKeepsInv(limits, NOTHING, steps, s);
  }

  /** The floor at zero never takes effect in any run. */
  lemma FloorNeverActs(limits: string -> nat, steps: seq<Step>, s: Sys, i: nat)
    requires Run(limits, NOTHING, steps, s) && Enabled(limits, s, Move(i))
    ensures var h := s.ledger[i]; Used(s.books, h.key) + h.status.actual - h.amount >= 0
  {
    hide Run;
    NothingInv(limits);
    RunKeepsInv(limits, NOTHING, steps, s);
    MoveKeepsMoney(limits, s, i);
  }

  /** The cap is a ceiling: a counter passes its limit only by what settled spends outran their reservations. */
  lemma Ceiling(limits: string -> nat, steps: seq<Step>, s: Sys, k: string)
    requires Run(limits, NOTHING, steps, s)
    ensures Used(s.books, k) <= limits(k) + Sum(Overrun, s.ledger, k)
    ensures (forall i :: 0 <= i < |s.ledger| && s.ledger[i].status.Closed? ==> s.ledger[i].status.actual <= s.ledger[i].amount)
            ==> Used(s.books, k) <= limits(k)
  {
    hide Run;
    NothingInv(limits);
    RunKeepsInv(limits, NOTHING, steps, s);
    if forall i :: 0 <= i < |s.ledger| && s.ledger[i].status.Closed? ==> s.ledger[i].status.actual <= s.ledger[i].amount {
      NoOverrun(s.ledger, k);
    }
  }

  lemma {:induction false} NoOverrun(l: seq<Hold>, k: string)
    requires forall i :: 0 <= i < |l| && l[i].status.Closed? ==> l[i].status.actual <= l[i].amount
    ensures Sum(Overrun, l, k) == 0
  {
    if l != [] {
      NoOverrun(l[1..], k);
    }
  }

  /** At most once: a settled hold keeps its spend through any further run, whatever is delivered again. */
  lemma {:induction false} SettledOnce(limits: string -> nat, s: Sys, steps: seq<Step>, last: Sys, i: nat)
    requires Inv(limits, s) && Run(limits, s, steps, last)
    requires i < |s.ledger| && s.ledger[i].status.Closed?
    ensures i < |last.ledger| && last.ledger[i] == s.ledger[i]
    decreases |steps|
  {
    hide Inv;
    if steps != [] {
      StepKeepsInv(limits, s, steps[0]);
      StepKeepsClosed(limits, s, steps[0], i);
      SettledOnce(limits, After(s, steps[0]), steps[1..], last, i);
    }
  }

  lemma StepKeepsClosed(limits: string -> nat, s: Sys, step: Step, i: nat)
    requires Inv(limits, s) && Enabled(limits, s, step)
    requires i < |s.ledger| && s.ledger[i].status.Closed?
    ensures var s' := After(s, step); i < |s'.ledger| && s'.ledger[i] == s.ledger[i]
  {
    hide Sum, Balanced, Capped, MarkerOf;
    assert TidyHold(s, s.ledger[i]);
  }

  /** What request `r` has charged to counter `k`. */
  function ChargedBy(l: seq<Hold>, r: nat, k: string): nat {
    if l == [] then 0
    else (if l[0].owner == Some(r) then Part(Held, l[0], k) + Part(Spent, l[0], k) else 0) + ChargedBy(l[1..], r, k)
  }

  /** A request that rolled back, once its rollbacks have arrived, has charged nothing to any counter. */
  lemma AbortedChargesNothing(limits: string -> nat, steps: seq<Step>, s: Sys, r: nat, k: string)
    requires Run(limits, NOTHING, steps, s)
    requires r in s.phases && s.phases[r] == Aborted
    requires forall i :: 0 <= i < |s.ledger| && Owns(s.ledger[i], r) ==> s.ledger[i].status.Closed? && s.ledger[i].tag.ToRollBack?
    ensures ChargedBy(s.ledger, r, k) == 0
  {
    hide Run, Sum;
    NothingInv(limits);
    RunKeepsInv(limits, NOTHING, steps, s);
    forall i | 0 <= i < |s.ledger| && Owns(s.ledger[i], r) ensures s.ledger[i].status == Closed(0) {
      assert TidyHold(s, s.ledger[i]);
    }
    ClosedAtZero(s.ledger, r, k);
  }

  lemma {:induction false} ClosedAtZero(l: seq<Hold>, r: nat, k: string)
    requires forall i :: 0 <= i < |l| && Owns(l[i], r) ==> l[i].status == Closed(0)
    ensures ChargedBy(l, r, k) == 0
  {
    if l != [] {
      ClosedAtZero(l[1..], r, k);
    }
  }
}
