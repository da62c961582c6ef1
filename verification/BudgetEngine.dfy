/**
 `BudgetEngine` of `src/budget.rs`: one request reserving against several budgets, rolling back when one
 refuses, and settling to what was spent, over a store that may lose a call before it is applied or lose
 the reply after it was.
 */
module BudgetEngine {
  import opened BudgetKeys
  import opened BudgetStore
  import opened BudgetProtocol

  const RECONCILE_ATTEMPTS: nat := 3

  /** What happens to one call: it arrives and is answered, never arrives, or is applied and the reply lost. */
  datatype Fate = Arrives | LostBefore | LostAfter

  /** The store's books and the fates of the calls to come; past the end every call arrives. */
  datatype World = World(books: Books, net: seq<Fate>)

  function Fated(net: seq<Fate>): Fate {
    if net == [] then Arrives else net[0]
  }

  function Rest(net: seq<Fate>): seq<Fate> {
    if net == [] then [] else net[1..]
  }

  datatype Reply = Admitted | Refused | StoreError

  // ---- One call ---------------------------------------------------------------------------------

  predicate Admits(b: Books, key: string, amount: nat, limit: nat) {
    Used(b, key) + amount <= limit
  }

  /** A reserve is sent once: it carries no marker, so it may not be sent again. */
  function TryReserve(w: World, key: string, amount: nat, limit: nat): (World, Reply) {
    var applied := if Admits(w.books, key, amount, limit) then Charge(w.books, key, amount) else w.books;
    match Fated(w.net)
    case Arrives => (World(applied, Rest(w.net)), if Admits(w.books, key, amount, limit) then Admitted else Refused)
    case LostBefore => (World(w.books, Rest(w.net)), StoreError)
    case LostAfter => (World(applied, Rest(w.net)), StoreError)
  }

  /** A settle is sent until it is answered, at most `attempts` times. */
  function TrySettle(w: World, key: string, delta: int, marker: string, attempts: nat): (World, bool)
    decreases attempts
  {
    if attempts == 0 then (w, false)
    else
      var settled := Settle(w.books, key, delta, marker);
      match Fated(w.net)
      case Arrives => (World(settled, Rest(w.net)), true)
      case LostBefore => TrySettle(World(w.books, Rest(w.net)), key, delta, marker, attempts - 1)
      case LostAfter => TrySettle(World(settled, Rest(w.net)), key, delta, marker, attempts - 1)
  }

  /** Some attempt reached the store. */
  predicate Reached(net: seq<Fate>, attempts: nat)
    decreases attempts
  {
    attempts > 0 && (Fated(net) != LostBefore || Reached(Rest(net), attempts - 1))
  }

  /** Some attempt was answered. */
  predicate Answered(net: seq<Fate>, attempts: nat)
    decreases attempts
  {
    attempts > 0 && (Fated(net) == Arrives || Answered(Rest(net), attempts - 1))
  }

  function Spending(net: seq<Fate>, attempts: nat): seq<Fate>
    decreases attempts
  {
    if attempts == 0 then net
    else if Fated(net) == Arrives then Rest(net)
    else Spending(Rest(net), attempts - 1)
  }

  /**
   At most once under lossy retries: however often it was sent, a settle has changed the books exactly as
   one settle does when some attempt reached the store, and not at all otherwise; it reports success only
   when it was applied.
   */
  lemma {:induction false} SettleAtMostOnce(w: World, key: string, delta: int, marker: string, attempts: nat)
    ensures var (w', ok) := TrySettle(w, key, delta, marker, attempts);
            && w'.books == (if Reached(w.net, attempts) then Settle(w.books, key, delta, marker) else w.books)
            && w'.net == Spending(w.net, attempts)
            && ok == Answered(w.net, attempts)
            && (ok ==> Reached(w.net, attempts))
    decreases attempts
  {
    if attempts > 0 && Fated(w.net) != Arrives {
      var books := if Fated(w.net) == LostBefore then w.books else Settle(w.books, key, delta, marker);
      SettleAtMostOnce(World(books, Rest(w.net)), key, delta, marker, attempts - 1);
    }
  }

  /** What becomes of a settle is decided by its first three attempts. */
  lemma ThreeAttempts(net: seq<Fate>)
    ensures var first, second, third := Fated(net), Fated(Rest(net)), Fated(Rest(Rest(net)));
            && (Reached(net, RECONCILE_ATTEMPTS) <==> first != LostBefore || second != LostBefore || third != LostBefore)
            && (Answered(net, RECONCILE_ATTEMPTS) <==> first == Arrives || second == Arrives || third == Arrives)
  {
    assert RECONCILE_ATTEMPTS == 3;
    assert !Reached(Rest(Rest(Rest(net))), 0) && !Answered(Rest(Rest(Rest(net))), 0);
  }

  // ---- Several budgets --------------------------------------------------------------------------

  /** One budget's charge: `(store key, amount, budget index)`. */
  datatype Line = Line(key: string, amount: nat, index: nat)

  function Total(lines: seq<Line>, k: string): nat {
    if lines == [] then 0 else (if lines[0].key == k then lines[0].amount else 0) + Total(lines[1..], k)
  }

  datatype Spend = Spend(tokens: nat, costMicros: nat)

  /** What a request charges: one line per budget with a non-zero amount, in order. */
  function Lines(budgets: seq<Budget>, prefix: string, dims: Dims, est: Spend, now: nat, from: nat): (ls: seq<Line>)
    requires from <= |budgets| && forall i :: 0 <= i < |budgets| ==> budgets[i].windowSecs > 0
    ensures forall i :: 0 <= i < |ls| ==> ls[i].index < |budgets|
    decreases |budgets| - from
  {
    if from == |budgets| then []
    else
      var b := budgets[from];
      var amount := Amount(b, est.tokens, est.costMicros);
      var later := Lines(budgets, prefix, dims, est, now, from + 1);
      if amount == 0 then later else [Line(Key(b, prefix, dims, now), amount, from)] + later
  }

  function Rollback(w: World, held: seq<Line>, ids: seq<string>): (World, nat)
    requires |held| <= |ids|
    decreases |held|
  {
    if held == [] then (w, 0)
    else
      var (w1, ok) := TrySettle(w, held[0].key, -(held[0].amount as int), RollbackMarker(held[0].key, ids[0]), RECONCILE_ATTEMPTS);
      var (w2, failures) := Rollback(w1, held[1..], ids[1..]);
      (w2, failures + if ok then 0 else 1)
  }

  datatype Reservation = Reservation(id: string, held: seq<Line>, rollbackFailures: nat)

  datatype Reserved =
    | Ok(reservation: Reservation)
    | Denied(index: nat, rollbackFailures: nat)
    | Error(rollbackFailures: nat)

  /** How a reserve ends once the lines held so far have been rolled back. */
  function GiveUp(w: World, held: seq<Line>, ids: seq<string>, reply: Reply, index: nat, failOpen: bool): (World, Reserved)
    requires |held| <= |ids|
  {
    var (w', failures) := Rollback(w, held, ids);
    (w', if reply == Refused then Denied(index, failures)
         else if failOpen then Ok(Reservation("", [], failures))
         else Error(failures))
  }

  /** Reserve line by line; on the first refusal or error, roll back what is held. */
  function ReserveLines(w: World, budgets: seq<Budget>, held: seq<Line>, todo: seq<Line>, ids: seq<string>, failOpen: bool): (World, Reserved)
    requires |held| + |todo| < |ids|
    requires forall i :: 0 <= i < |todo| ==> todo[i].index < |budgets|
    decreases |todo|
  {
    if todo == [] then (w, Ok(Reservation(ids[0], held, 0)))
    else
      var line := todo[0];
      var (w1, reply) := TryReserve(w, line.key, line.amount, budgets[line.index].limit);
      if reply == Admitted then ReserveLines(w1, budgets, held + [line], todo[1..], ids, failOpen)
      else GiveUp(w1, held, ids, reply, line.index, failOpen)
  }

  /** Settle each held line to `actual`, skipping those that need no change. */
  function SettleLines(w: World, budgets: seq<Budget>, id: string, held: seq<Line>, actual: Spend): (World, nat)
    requires forall i :: 0 <= i < |held| ==> held[i].index < |budgets|
    decreases |held|
  {
    if held == [] then (w, 0)
    else
      var line := held[0];
      var delta := Amount(budgets[line.index], actual.tokens, actual.costMicros) as int - line.amount;
      if delta == 0 then SettleLines(w, budgets, id, held[1..], actual)
      else
        var (w1, ok) := TrySettle(w, line.key, delta, SettleMarker(line.key, id), RECONCILE_ATTEMPTS);
        var (w2, failures) := SettleLines(w1, budgets, id, held[1..], actual);
        (w2, failures + if ok then 0 else 1)
  }

  // ---- The engine -------------------------------------------------------------------------------

  class Store {
    var books: Books
    var net: seq<Fate>

    function Value(): World
      reads this
    {
      World(books, net)
    }

    constructor (net: seq<Fate>)
      ensures Value() == World(Books(map[], {}), net)
    {
      this.books, this.net := Books(map[], {}), net;
    }

    method Reserve(key: string, amount: nat, limit: nat) returns (reply: Reply)
      modifies this
      ensures (Value(), reply) == TryReserve(old(Value()), key, amount, limit)
    {
      var fate := Fated(net);
      net := Rest(net);
      if fate == LostBefore {
        return StoreError;
      }
      if Admits(books, key, amount, limit) {
        books := Charge(books, key, amount);
        reply := Admitted;
      } else {
        reply := Refused;
      }
      if fate == LostAfter {
        reply := StoreError;
      }
    }

    /** `retry_async` around the settle script. */
    method Reconcile(key: string, delta: int, marker: string) returns (ok: bool)
      modifies this
      ensures (Value(), ok) == TrySettle(old(Value()), key, delta, marker, RECONCILE_ATTEMPTS)
    {
      ghost var whole := TrySettle(Value(), key, delta, marker, RECONCILE_ATTEMPTS);
      var i := 0;
      while i < RECONCILE_ATTEMPTS
        invariant i <= RECONCILE_ATTEMPTS
        invariant TrySettle(Value(), key, delta, marker, RECONCILE_ATTEMPTS - i) == whole
      {
        var fate := Fated(net);
        net := Rest(net);
        if fate != LostBefore {
          books := Settle(books, key, delta, marker);
        }
        if fate == Arrives {
          return true;
        }
        i := i + 1;
      }
      return false;
    }
  }

  class Engine {
    const budgets: seq<Budget>
    const store: Store
    const prefix: string
    const failOpen: bool

    ghost predicate Valid() {
      forall i :: 0 <= i < |budgets| ==> budgets[i].windowSecs > 0
    }

    constructor (budgets: seq<Budget>, store: Store, prefix: string, failOpen: bool)
      requires forall i :: 0 <= i < |budgets| ==> budgets[i].windowSecs > 0
      ensures Valid() && this.budgets == budgets && this.store == store && this.prefix == prefix && this.failOpen == failOpen
    {
      this.budgets, this.store, this.prefix, this.failOpen := budgets, store, prefix, failOpen;
    }

    method RollBack(held: seq<Line>, ids: seq<string>) returns (failures: nat)
      requires |held| <= |ids|
      modifies store
      ensures (store.Value(), failures) == Rollback(old(store.Value()), held, ids)
    {
      hide TrySettle, RollbackMarker;
      failures := 0;
      ghost var whole := Rollback(store.Value(), held, ids);
      assert held[0..] == held && ids[0..] == ids;
      for i := 0 to |held|
        invariant var later := Rollback(store.Value(), held[i..], ids[i..]);
                  whole == (later.0, failures + later.1)
      {
        assert held[i..][0] == held[i] && held[i..][1..] == held[i + 1..];
        assert ids[i..][0] == ids[i] && ids[i..][1..] == ids[i + 1..];
        var ok := store.Reconcile(held[i].key, -(held[i].amount as int), RollbackMarker(held[i].key, ids[i]));
        if !ok {
          failures := failures + 1;
        }
      }
    }

    /** `ids` are the fresh UUIDs the call draws; `now` is the wall clock in seconds. */
    method Reserve(dims: Dims, estimate: Spend, now: nat, ids: seq<string>) returns (r: Reserved)
      requires Valid() && |budgets| < |ids|
      modifies store
      ensures |Lines(budgets, prefix, dims, estimate, now, 0)| < |ids|
      ensures (store.Value(), r)
              == ReserveLines(old(store.Value()), budgets, [], Lines(budgets, prefix, dims, estimate, now, 0), ids, failOpen)
    {
      hide Key, Amount, TryReserve, Rollback;
      LinesShort(budgets, prefix, dims, estimate, now, 0);
      ghost var whole := ReserveLines(store.Value(), budgets, [], Lines(budgets, prefix, dims, estimate, now, 0), ids, failOpen);
      var held := [];
      for idx := 0 to |budgets|
        invariant |held| + |Lines(budgets, prefix, dims, estimate, now, idx)| < |ids|
        invariant ReserveLines(store.Value(), budgets, held, Lines(budgets, prefix, dims, estimate, now, idx), ids, failOpen) == whole
      {
        var budget := budgets[idx];
        var amount := Amount(budget, estimate.tokens, estimate.costMicros);
        if amount == 0 {
          continue;
        }
        var key := Key(budget, prefix, dims, now);
        ghost var later := Lines(budgets, prefix, dims, estimate, now, idx + 1);
        assert ([Line(key, amount, idx)] + later)[1..] == later;
        var reply := store.Reserve(key, amount, budget.limit);
        if reply == Admitted {
          held := held + [Line(key, amount, idx)];
        } else {
          var failures := RollBack(held, ids);
          if reply == Refused {
            return Denied(idx, failures);
          }
          if failOpen {
            return Ok(Reservation("", [], failures));
          }
          return Error(failures);
        }
      }
      r := Ok(Reservation(ids[0], held, 0));
    }

    method Reconcile(reservation: Reservation, actual: Spend) returns (failures: nat)
      requires forall i :: 0 <= i < |reservation.held| ==> reservation.held[i].index < |budgets|
      modifies store
      ensures (store.Value(), failures) == SettleLines(old(store.Value()), budgets, reservation.id, reservation.held, actual)
    {
      hide TrySettle, SettleMarker, Amount;
      failures := 0;
      var held := reservation.held;
      ghost var whole := SettleLines(store.Value(), budgets, reservation.id, held, actual);
      assert held[0..] == held;
      for i := 0 to |held|
        invariant var later := SettleLines(store.Value(), budgets, reservation.id, held[i..], actual);
                  whole == (later.0, failures + later.1)
      {
        var line := held[i];
        assert held[i..][0] == line && held[i..][1..] == held[i + 1..];
        var delta := Amount(budgets[line.index], actual.tokens, actual.costMicros) as int - line.amount;
        if delta != 0 {
          var ok := store.Reconcile(line.key, delta, SettleMarker(line.key, reservation.id));
          if !ok {
            failures := failures + 1;
          }
        }
      }
    }

    method Release(reservation: Reservation) returns (failures: nat)
      requires forall i :: 0 <= i < |reservation.held| ==> reservation.held[i].index < |budgets|
      modifies store
      ensures (store.Value(), failures) == SettleLines(old(store.Value()), budgets, reservation.id, reservation.held, Spend(0, 0))
    {
      failures := Reconcile(reservation, Spend(0, 0));
    }
  }

  lemma {:induction false} LinesShort(budgets: seq<Budget>, prefix: string, dims: Dims, est: Spend, now: nat, from: nat)
    requires from <= |budgets| && forall i :: 0 <= i < |budgets| ==> budgets[i].windowSecs > 0
    ensures |Lines(budgets, prefix, dims, est, now, from)| <= |budgets| - from
    decreases |budgets| - from
  {
    hide Key, Amount;
    if from < |budgets| {
      LinesShort(budgets, prefix, dims, est, now, from + 1);
    }
  }

  // ---- All or nothing ---------------------------------------------------------------------------

  lemma {:induction false} TotalAppend(lines: seq<Line>, more: seq<Line>, k: string)
    ensures Total(lines + more, k) == Total(lines, k) + Total(more, k)
  {
    if lines == [] {
      assert lines + more == more;
    } else {
      assert (lines + more)[1..] == lines[1..] + more;
      TotalAppend(lines[1..], more, k);
    }
  }

  /** The holds whose rollback never reached the store. */
  function Leaked(net: seq<Fate>, held: seq<Line>): seq<Line>
    decreases |held|
  {
    if held == [] then []
    else (if Reached(net, RECONCILE_ATTEMPTS) then [] else [held[0]]) + Leaked(Spending(net, RECONCILE_ATTEMPTS), held[1..])
  }

  /** The holds whose rollback was never answered, which is what the failure count counts. */
  function Unanswered(net: seq<Fate>, held: seq<Line>): seq<Line>
    decreases |held|
  {
    if held == [] then []
    else (if Answered(net, RECONCILE_ATTEMPTS) then [] else [held[0]]) + Unanswered(Spending(net, RECONCILE_ATTEMPTS), held[1..])
  }

  /** Every rollback that reached the store was also answered. */
  predicate NoSilentRollback(net: seq<Fate>, held: seq<Line>)
    decreases |held|
  {
    held == [] ||
    ((Reached(net, RECONCILE_ATTEMPTS) ==> Answered(net, RECONCILE_ATTEMPTS))
     && NoSilentRollback(Spending(net, RECONCILE_ATTEMPTS), held[1..]))
  }

  /** UUIDs nobody has drawn before: distinct, and none of them in a marker. */
  ghost predicate Fresh(b: Books, ids: seq<string>) {
    && (forall i :: 0 <= i < |ids| ==> Uuid(ids[i]))
    && (forall i, j :: 0 <= i < j < |ids| ==> ids[i] != ids[j])
    && (forall i, key :: 0 <= i < |ids| ==> SettleMarker(key, ids[i]) !in b.settled && RollbackMarker(key, ids[i]) !in b.settled)
  }

  lemma FreshAfterRollback(b: Books, ids: seq<string>, key: string, delta: int)
    requires Fresh(b, ids) && ids != []
    ensures Fresh(Settle(b, key, delta, RollbackMarker(key, ids[0])), ids[1..])
    ensures Fresh(b, ids[1..])
  {
    hide SettleMarker, RollbackMarker, Uuid;
    var b' := Settle(b, key, delta, RollbackMarker(key, ids[0]));
    var later := ids[1..];
    forall i, k | 0 <= i < |later| ensures SettleMarker(k, later[i]) !in b'.settled && RollbackMarker(k, later[i]) !in b'.settled {
      assert later[i] == ids[i + 1];
      MarkerInjective(key, ids[0], k, later[i]);
      MarkerInjective(k, later[i], key, ids[0]);
    }
  }

  /** One hold taken back, when the books still hold it and its marker is new. */
  lemma TakenBack(w: World, line: Line, id: string, k: string)
    requires RollbackMarker(line.key, id) !in w.books.settled && line.amount <= Used(w.books, line.key)
    ensures var w' := TrySettle(w, line.key, -(line.amount as int), RollbackMarker(line.key, id), RECONCILE_ATTEMPTS).0;
            Used(w'.books, k) == Used(w.books, k)
              - (if line.key == k && Reached(w.net, RECONCILE_ATTEMPTS) then line.amount else 0)
  {
    hide RollbackMarker, TrySettle, Reached;
    SettleAtMostOnce(w, line.key, -(line.amount as int), RollbackMarker(line.key, id), RECONCILE_ATTEMPTS);
  }

  /** A rollback takes back exactly what reached the store. */
  lemma {:induction false} RollbackExact(w: World, held: seq<Line>, ids: seq<string>)
    requires |held| <= |ids| && Fresh(w.books, ids)
    requires forall k :: Total(held, k) <= Used(w.books, k)
    ensures var (w', failures) := Rollback(w, held, ids);
            && (forall k :: Used(w'.books, k) == Used(w.books, k) - Total(held, k) + Total(Leaked(w.net, held), k))
            && failures == |Unanswered(w.net, held)|
    decreases |held|
  {
    hide Fresh, TrySettle, RollbackMarker, Used, Settle, Reached, Answered, Spending;
    if held != [] {
      var line, id := held[0], ids[0];
      var marker := RollbackMarker(line.key, id);
      var (w1, ok) := TrySettle(w, line.key, -(line.amount as int), marker, RECONCILE_ATTEMPTS);
      SettleAtMostOnce(w, line.key, -(line.amount as int), marker, RECONCILE_ATTEMPTS);
      FreshAfterRollback(w.books, ids, line.key, -(line.amount as int));
      FreshFirst(w.books, ids, line.key);
      assert Total(held, line.key) <= Used(w.books, line.key);
      assert line.amount <= Used(w.books, line.key);
      forall k ensures Used(w1.books, k) == Used(w.books, k)
                       - (if line.key == k && Reached(w.net, RECONCILE_ATTEMPTS) then line.amount else 0)
        ensures Total(held[1..], k) <= Used(w1.books, k)
      {
        TakenBack(w, line, id, k);
        assert Total(held, k) <= Used(w.books, k);
        TotalsStep(w.net, held, k);
      }
      RollbackExact(w1, held[1..], ids[1..]);
      var w' := Rollback(w, held, ids).0;
      forall k ensures Used(w'.books, k) == Used(w.books, k) - Total(held, k) + Total(Leaked(w.net, held), k) {
        TotalsStep(w.net, held, k);
      }
    }
  }

  lemma FreshFirst(b: Books, ids: seq<string>, key: string)
    requires Fresh(b, ids) && ids != []
    ensures RollbackMarker(key, ids[0]) !in b.settled
  {}

  /** Adding the first line to the accounts of the others. */
  lemma TotalsStep(net: seq<Fate>, held: seq<Line>, k: string)
    requires held != []
    ensures var first := if held[0].key == k then held[0].amount else 0;
            && Total(held, k) == first + Total(held[1..], k)
            && Total(Leaked(net, held), k)
               == (if Reached(net, RECONCILE_ATTEMPTS) then 0 else first) + Total(Leaked(Spending(net, RECONCILE_ATTEMPTS), held[1..]), k)
  {
    hide Reached, Spending, Leaked, Total;
    LeakedCons(net, held);
    var later := Leaked(Spending(net, RECONCILE_ATTEMPTS), held[1..]);
    TotalOne(held[0], k);
    TotalAppend([], later, k);
    TotalAppend([held[0]], later, k);
    TotalAppend([held[0]], held[1..], k);
    assert [held[0]] + held[1..] == held;
  }

  lemma LeakedCons(net: seq<Fate>, held: seq<Line>)
    requires held != []
    ensures Leaked(net, held)
            == (if Reached(net, RECONCILE_ATTEMPTS) then [] else [held[0]]) + Leaked(Spending(net, RECONCILE_ATTEMPTS), held[1..])
  {
    hide Reached, Spending;
  }

  lemma TotalOne(line: Line, k: string)
    ensures Total([line], k) == if line.key == k then line.amount else 0
    ensures Total([], k) == 0
  {
    assert [line][1..] == [];
  }

  /** Every line is admitted and every reply heard. */
  predicate AllAdmitted(w: World, budgets: seq<Budget>, todo: seq<Line>)
    requires forall i :: 0 <= i < |todo| ==> todo[i].index < |budgets|
    decreases |todo|
  {
    todo == [] ||
    (var (w1, reply) := TryReserve(w, todo[0].key, todo[0].amount, budgets[todo[0].index].limit);
     reply == Admitted && AllAdmitted(w1, budgets, todo[1..]))
  }

  /** The reserve that failed was applied after all: a hold the request does not know of. */
  predicate Orphaned(w: World, line: Line, limit: nat) {
    Fated(w.net) == LostAfter && Admits(w.books, line.key, line.amount, limit)
  }

  /** What a reserve that did not go through leaves charged. */
  function LeakedBy(w: World, budgets: seq<Budget>, held: seq<Line>, todo: seq<Line>): seq<Line>
    requires forall i :: 0 <= i < |todo| ==> todo[i].index < |budgets|
    decreases |todo|
  {
    if todo == [] then []
    else
      var line, limit := todo[0], budgets[todo[0].index].limit;
      var (w1, reply) := TryReserve(w, line.key, line.amount, limit);
      if reply == Admitted then LeakedBy(w1, budgets, held + [line], todo[1..])
      else Leaked(w1.net, held) + if Orphaned(w, line, limit) then [line] else []
  }

  /** The holds it reports as not rolled back. */
  function ReportedBy(w: World, budgets: seq<Budget>, held: seq<Line>, todo: seq<Line>): seq<Line>
    requires forall i :: 0 <= i < |todo| ==> todo[i].index < |budgets|
    decreases |todo|
  {
    if todo == [] then []
    else
      var line, limit := todo[0], budgets[todo[0].index].limit;
      var (w1, reply) := TryReserve(w, line.key, line.amount, limit);
      if reply == Admitted then ReportedBy(w1, budgets, held + [line], todo[1..])
      else Unanswered(w1.net, held)
  }

  /** No call that was applied went unanswered, from the failing reserve on. */
  predicate Honest(w: World, budgets: seq<Budget>, held: seq<Line>, todo: seq<Line>)
    requires forall i :: 0 <= i < |todo| ==> todo[i].index < |budgets|
    decreases |todo|
  {
    if todo == [] then true
    else
      var line, limit := todo[0], budgets[todo[0].index].limit;
      var (w1, reply) := TryReserve(w, line.key, line.amount, limit);
      if reply == Admitted then Honest(w1, budgets, held + [line], todo[1..])
      else !Orphaned(w, line, limit) && NoSilentRollback(w1.net, held)
  }

  function Failures(r: Reserved): nat {
    match r
    case Ok(reservation) => reservation.rollbackFailures
    case Denied(_, n) => n
    case Error(n) => n
  }

  lemma {:induction false} ReserveExact(w: World, budgets: seq<Budget>, held: seq<Line>, todo: seq<Line>, ids: seq<string>, failOpen: bool)
    requires |held| + |todo| < |ids| && Fresh(w.books, ids)
    requires forall i :: 0 <= i < |todo| ==> todo[i].index < |budgets|
    requires forall k :: Total(held, k) <= Used(w.books, k)
    ensures var (w', r) := ReserveLines(w, budgets, held, todo, ids, failOpen);
            if AllAdmitted(w, budgets, todo)
            then r == Ok(Reservation(ids[0], held + todo, 0))
                 && forall k :: Used(w'.books, k) == Used(w.books, k) + Total(todo, k)
            else Failures(r) == |ReportedBy(w, budgets, held, todo)|
                 && (r.Ok? ==> failOpen && r.reservation.held == [])
                 && forall k :: Used(w'.books, k) == Used(w.books, k) - Total(held, k) + Total(LeakedBy(w, budgets, held, todo), k)
    decreases |todo|
  {
    hide Fresh, Rollback, Leaked, Unanswered, Total, NoSilentRollback;
    if todo == [] {
      assert held + todo == held;
      forall k ensures Total(todo, k) == 0 { TotalOne(Line("", 0, 0), k); }
    } else {
      var line, limit := todo[0], budgets[todo[0].index].limit;
      var (w1, reply) := TryReserve(w, line.key, line.amount, limit);
      FreshKept(w.books, w1.books, ids);
      if reply == Admitted {
        AdmittedStep(w, w1, budgets, held, todo, ids, failOpen);
      } else {
        AbortedStep(w, w1, budgets, held, todo, ids, failOpen, reply);
      }
    }
  }

  lemma FreshKept(b: Books, b': Books, ids: seq<string>)
    requires Fresh(b, ids) && b'.settled == b.settled
    ensures Fresh(b', ids)
  {
    hide SettleMarker, RollbackMarker, Uuid;
  }

  lemma HeldTotals(held: seq<Line>, todo: seq<Line>, k: string)
    requires todo != []
    ensures var first := if todo[0].key == k then todo[0].amount else 0;
            && Total(held + [todo[0]], k) == Total(held, k) + first
            && Total(todo, k) == first + Total(todo[1..], k)
  {
    hide Total;
    TotalAppend(held, [todo[0]], k);
    TotalOne(todo[0], k);
    TotalAppend([todo[0]], todo[1..], k);
    assert [todo[0]] + todo[1..] == todo;
  }

  lemma {:induction false} AdmittedStep(
    w: World, w1: World, budgets: seq<Budget>, held: seq<Line>, todo: seq<Line>, ids: seq<string>, failOpen: bool)
    requires |held| + |todo| < |ids| && Fresh(w1.books, ids) && todo != []
    requires forall i :: 0 <= i < |todo| ==> todo[i].index < |budgets|
    requires forall k :: Total(held, k) <= Used(w.books, k)
    requires TryReserve(w, todo[0].key, todo[0].amount, budgets[todo[0].index].limit) == (w1, Admitted)
    ensures var (w', r) := ReserveLines(w, budgets, held, todo, ids, failOpen);
            if AllAdmitted(w, budgets, todo)
            then r == Ok(Reservation(ids[0], held + todo, 0))
                 && forall k :: Used(w'.books, k) == Used(w.books, k) + Total(todo, k)
            else Failures(r) == |ReportedBy(w, budgets, held, todo)|
                 && (r.Ok? ==> failOpen && r.reservation.held == [])
                 && forall k :: Used(w'.books, k) == Used(w.books, k) - Total(held, k) + Total(LeakedBy(w, budgets, held, todo), k)
    decreases |todo|, 0
  {
    hide *;
    var next, later := held + [todo[0]], todo[1..];
    AdmittedUnfolds(w, w1, budgets, held, todo, ids, failOpen);
    forall k ensures Total(next, k) <= Used(w1.books, k)
    {
      AdmittedUsed(w, w1, todo[0], budgets[todo[0].index].limit, k);
      HeldTotals(held, todo, k);
    }
    ReserveExact(w1, budgets, next, later, ids, failOpen);
    assert next + later == held + todo;
    var w' := ReserveLines(w, budgets, held, todo, ids, failOpen).0;
    if AllAdmitted(w, budgets, todo) {
      forall k ensures Used(w'.books, k) == Used(w.books, k) + Total(todo, k) {
        AdmittedUsed(w, w1, todo[0], budgets[todo[0].index].limit, k);
        HeldTotals(held, todo, k);
      }
    } else {
      forall k ensures Used(w'.books, k) == Used(w.books, k) - Total(held, k) + Total(LeakedBy(w, budgets, held, todo), k) {
        AdmittedUsed(w, w1, todo[0], budgets[todo[0].index].limit, k);
        HeldTotals(held, todo, k);
      }
    }
  }

  lemma AdmittedUsed(w: World, w1: World, line: Line, limit: nat, k: string)
    requires TryReserve(w, line.key, line.amount, limit) == (w1, Admitted)
    ensures Used(w1.books, k) == Used(w.books, k) + if line.key == k then line.amount else 0
  {
  }

  /** Once the first line is admitted, the rest is a reserve that holds one line more. */
  lemma AdmittedUnfolds(w: World, w1: World, budgets: seq<Budget>, held: seq<Line>, todo: seq<Line>, ids: seq<string>, failOpen: bool)
    requires |held| + |todo| < |ids| && todo != [] && forall i :: 0 <= i < |todo| ==> todo[i].index < |budgets|
    requires TryReserve(w, todo[0].key, todo[0].amount, budgets[todo[0].index].limit) == (w1, Admitted)
    ensures var next, later := held + [todo[0]], todo[1..];
            && ReserveLines(w, budgets, held, todo, ids, failOpen) == ReserveLines(w1, budgets, next, later, ids, failOpen)
            && AllAdmitted(w, budgets, todo) == AllAdmitted(w1, budgets, later)
            && ReportedBy(w, budgets, held, todo) == ReportedBy(w1, budgets, next, later)
            && LeakedBy(w, budgets, held, todo) == LeakedBy(w1, budgets, next, later)
  {
    hide TryReserve, Rollback, Leaked, Unanswered;
  }

  lemma AbortedStep(
    w: World, w1: World, budgets: seq<Budget>, held: seq<Line>, todo: seq<Line>, ids: seq<string>, failOpen: bool, reply: Reply)
    requires |held| + |todo| < |ids| && Fresh(w1.books, ids) && todo != []
    requires forall i :: 0 <= i < |todo| ==> todo[i].index < |budgets|
    requires forall k :: Total(held, k) <= Used(w.books, k)
    requires TryReserve(w, todo[0].key, todo[0].amount, budgets[todo[0].index].limit) == (w1, reply) && reply != Admitted
    ensures var (w', r) := ReserveLines(w, budgets, held, todo, ids, failOpen);
            && Failures(r) == |ReportedBy(w, budgets, held, todo)|
            && (r.Ok? ==> failOpen && r.reservation.held == [])
            && forall k :: Used(w'.books, k) == Used(w.books, k) - Total(held, k) + Total(LeakedBy(w, budgets, held, todo), k)
  {
    var line, limit := todo[0], budgets[todo[0].index].limit;
    var orphan := if Orphaned(w, line, limit) then [line] else [];
    forall k ensures Used(w1.books, k) == Used(w.books, k) + (if Orphaned(w, line, limit) && line.key == k then line.amount else 0) {}
    hide Fresh, Rollback, Leaked, Unanswered, Total, Used, TryReserve, Orphaned;
    forall k ensures Total(held, k) <= Used(w1.books, k) {
      assert Total(held, k) <= Used(w.books, k);
    }
    RollbackExact(w1, held, ids);
    var w' := ReserveLines(w, budgets, held, todo, ids, failOpen).0;
    forall k ensures Used(w'.books, k) == Used(w.books, k) - Total(held, k) + Total(LeakedBy(w, budgets, held, todo), k) {
      TotalAppend(Leaked(w1.net, held), orphan, k);
      TotalOne(line, k);
    }
  }

  /**
   All or nothing: an admitted request has charged every budget with a non-zero amount exactly once; any
   other has charged nothing but the holds it leaked, and has counted its unanswered rollbacks.
   */
  lemma AllOrNothing(w: World, budgets: seq<Budget>, lines: seq<Line>, ids: seq<string>, failOpen: bool)
    requires |lines| < |ids| && Fresh(w.books, ids)
    requires forall i :: 0 <= i < |lines| ==> lines[i].index < |budgets|
    ensures var (w', r) := ReserveLines(w, budgets, [], lines, ids, failOpen);
            if AllAdmitted(w, budgets, lines)
            then r == Ok(Reservation(ids[0], lines, 0))
                 && forall k :: Used(w'.books, k) == Used(w.books, k) + Total(lines, k)
            else Failures(r) == |ReportedBy(w, budgets, [], lines)|
                 && (r.Ok? ==> failOpen && r.reservation.held == [])
                 && forall k :: Used(w'.books, k) == Used(w.books, k) + Total(LeakedBy(w, budgets, [], lines), k)
  {
    hide Fresh, ReserveLines, LeakedBy, ReportedBy, AllAdmitted;
    forall k ensures Total([], k) == 0 { TotalOne(Line("", 0, 0), k); }
    ReserveExact(w, budgets, [], lines, ids, failOpen);
    assert [] + lines == lines;
  }

  lemma {:induction false} LeaksAreReported(net: seq<Fate>, held: seq<Line>)
    ensures |Leaked(net, held)| <= |Unanswered(net, held)|
    ensures Leaked(net, held) == Unanswered(net, held) <==> NoSilentRollback(net, held)
    ensures forall l :: l in Unanswered(net, held) ==> l in held
    decreases |held|
  {
    if held != [] {
      AnsweredReached(net, RECONCILE_ATTEMPTS);
      hide Reached, Answered, Spending;
      var later := Spending(net, RECONCILE_ATTEMPTS);
      LeaksAreReported(later, held[1..]);
      if !Reached(net, RECONCILE_ATTEMPTS) {
        var a, b := Leaked(later, held[1..]), Unanswered(later, held[1..]);
        assert ([held[0]] + a)[1..] == a && ([held[0]] + b)[1..] == b;
      } else if Answered(net, RECONCILE_ATTEMPTS) {
        assert [] + Leaked(later, held[1..]) == Leaked(later, held[1..]);
        assert [] + Unanswered(later, held[1..]) == Unanswered(later, held[1..]);
      }
    }
  }

  lemma {:induction false} AnsweredReached(net: seq<Fate>, attempts: nat)
    ensures Answered(net, attempts) ==> Reached(net, attempts)
    decreases attempts
  {
    if attempts > 0 {
      AnsweredReached(Rest(net), attempts - 1);
    }
  }

  /** Rollbacks that were applied and never answered. */
  function Silent(net: seq<Fate>, held: seq<Line>): nat
    decreases |held|
  {
    if held == [] then 0
    else
      (if Reached(net, RECONCILE_ATTEMPTS) && !Answered(net, RECONCILE_ATTEMPTS) then 1 else 0)
      + Silent(Spending(net, RECONCILE_ATTEMPTS), held[1..])
  }

  lemma {:induction false} UnansweredCount(net: seq<Fate>, held: seq<Line>)
    ensures |Unanswered(net, held)| == |Leaked(net, held)| + Silent(net, held)
    ensures NoSilentRollback(net, held) <==> Silent(net, held) == 0
    decreases |held|
  {
    if held != [] {
      AnsweredReached(net, RECONCILE_ATTEMPTS);
      hide Reached, Answered, Spending;
      UnansweredCount(Spending(net, RECONCILE_ATTEMPTS), held[1..]);
    }
  }

  /** Whether the failing reserve was applied after all, and how many rollbacks were applied unanswered. */
  function Unheard(w: World, budgets: seq<Budget>, held: seq<Line>, todo: seq<Line>): (nat, nat)
    requires forall i :: 0 <= i < |todo| ==> todo[i].index < |budgets|
    decreases |todo|
  {
    if todo == [] then (0, 0)
    else
      var line, limit := todo[0], budgets[todo[0].index].limit;
      var (w1, reply) := TryReserve(w, line.key, line.amount, limit);
      if reply == Admitted then Unheard(w1, budgets, held + [line], todo[1..])
      else (if Orphaned(w, line, limit) then 1 else 0, Silent(w1.net, held))
  }

  lemma {:induction false} LeakCount(w: World, budgets: seq<Budget>, held: seq<Line>, todo: seq<Line>)
    requires forall i :: 0 <= i < |todo| ==> todo[i].index < |budgets|
    ensures var (orphans, silent) := Unheard(w, budgets, held, todo);
            && |LeakedBy(w, budgets, held, todo)| + silent == |ReportedBy(w, budgets, held, todo)| + orphans
            && (Honest(w, budgets, held, todo) <==> orphans == 0 && silent == 0)
    decreases |todo|
  {
    hide Leaked, Unanswered, NoSilentRollback, Orphaned, Silent;
    if todo != [] {
      var line, limit := todo[0], budgets[todo[0].index].limit;
      var (w1, reply) := TryReserve(w, line.key, line.amount, limit);
      hide TryReserve;
      if reply == Admitted {
        LeakCount(w1, budgets, held + [line], todo[1..]);
      } else {
        UnansweredCount(w1.net, held);
      }
    }
  }

  /**
   The failures a request reports are as many as the holds it leaked exactly when as many rollbacks were
   applied unanswered as reserves were, which is one or none.
   */
  lemma LeakCountExact(w: World, budgets: seq<Budget>, lines: seq<Line>, ids: seq<string>, failOpen: bool)
    requires |lines| < |ids| && Fresh(w.books, ids)
    requires forall i :: 0 <= i < |lines| ==> lines[i].index < |budgets|
    ensures var r := ReserveLines(w, budgets, [], lines, ids, failOpen).1;
            var (orphans, silent) := Unheard(w, budgets, [], lines);
            !AllAdmitted(w, budgets, lines) ==>
              (Failures(r) == |LeakedBy(w, budgets, [], lines)| <==> orphans == silent)
  {
    hide ReserveLines, AllAdmitted, LeakedBy, ReportedBy, Unheard, Honest, Fresh;
    AllOrNothing(w, budgets, lines, ids, failOpen);
    LeakCount(w, budgets, [], lines);
  }

  /** The holds left charged are the very holds reported exactly when no call was applied unanswered. */
  lemma {:induction false} LeakReportExact(w: World, budgets: seq<Budget>, held: seq<Line>, todo: seq<Line>)
    requires forall i :: 0 <= i < |todo| ==> todo[i].index < |budgets|
    requires forall i, j :: 0 <= i < j < |held + todo| ==> (held + todo)[i].index < (held + todo)[j].index
    ensures LeakedBy(w, budgets, held, todo) == ReportedBy(w, budgets, held, todo) <==> Honest(w, budgets, held, todo)
    decreases |todo|
  {
    hide Leaked, Unanswered, NoSilentRollback, Orphaned;
    if todo != [] {
      var line, limit := todo[0], budgets[todo[0].index].limit;
      var (w1, reply) := TryReserve(w, line.key, line.amount, limit);
      hide TryReserve;
      assert held + [line] + todo[1..] == held + todo;
      if reply == Admitted {
        LeakReportExact(w1, budgets, held + [line], todo[1..]);
      } else {
        LeaksAreReported(w1.net, held);
        if Orphaned(w, line, limit) {
          OrphanNotHeld(held, todo);
          assert (Leaked(w1.net, held) + [line])[|Leaked(w1.net, held)|] == line;
        } else {
          assert Leaked(w1.net, held) + [] == Leaked(w1.net, held);
        }
      }
    }
  }

  lemma OrphanNotHeld(held: seq<Line>, todo: seq<Line>)
    requires todo != [] && forall i, j :: 0 <= i < j < |held + todo| ==> (held + todo)[i].index < (held + todo)[j].index
    ensures todo[0] !in held
  {
    var all := held + todo;
    assert all[|held|] == todo[0];
    forall i | 0 <= i < |held| ensures held[i] != todo[0] {
      assert all[i].index < all[|held|].index;
    }
  }

  // ---- Settling ---------------------------------------------------------------------------------

  function Delta(budgets: seq<Budget>, line: Line, actual: Spend): int
    requires line.index < |budgets|
  {
    Amount(budgets[line.index], actual.tokens, actual.costMicros) as int - line.amount
  }

  /** The settle of this line is sent and reaches the store. */
  predicate Lands(net: seq<Fate>, budgets: seq<Budget>, line: Line, actual: Spend)
    requires line.index < |budgets|
  {
    Delta(budgets, line, actual) != 0 && Reached(net, RECONCILE_ATTEMPTS)
  }

  /** The fates left after this line. */
  function NetAfter(net: seq<Fate>, budgets: seq<Budget>, line: Line, actual: Spend): seq<Fate>
    requires line.index < |budgets|
  {
    if Delta(budgets, line, actual) == 0 then net else Spending(net, RECONCILE_ATTEMPTS)
  }

  /** How far the settles of `held` that reach the store are meant to move counter `k`. */
  function Moved(net: seq<Fate>, budgets: seq<Budget>, held: seq<Line>, actual: Spend, k: string): int
    requires forall i :: 0 <= i < |held| ==> held[i].index < |budgets|
    decreases |held|
  {
    if held == [] then 0
    else
      (if held[0].key == k && Lands(net, budgets, held[0], actual) then Delta(budgets, held[0], actual) else 0)
      + Moved(NetAfter(net, budgets, held[0], actual), budgets, held[1..], actual, k)
  }

  /** How much of that is dropped, because an earlier settle on `k` reached the store and set the marker. */
  function Dropped(net: seq<Fate>, budgets: seq<Budget>, held: seq<Line>, actual: Spend, k: string, already: bool): int
    requires forall i :: 0 <= i < |held| ==> held[i].index < |budgets|
    decreases |held|
  {
    if held == [] then 0
    else
      var lands := held[0].key == k && Lands(net, budgets, held[0], actual);
      (if lands && already then Delta(budgets, held[0], actual) else 0)
      + Dropped(NetAfter(net, budgets, held[0], actual), budgets, held[1..], actual, k, already || lands)
  }

  /** The world after one line is settled. */
  function SettledFirst(w: World, budgets: seq<Budget>, id: string, line: Line, actual: Spend): World
    requires line.index < |budgets|
  {
    var d := Delta(budgets, line, actual);
    if d == 0 then w else TrySettle(w, line.key, d, SettleMarker(line.key, id), RECONCILE_ATTEMPTS).0
  }

  lemma SettleLinesStep(w: World, budgets: seq<Budget>, id: string, held: seq<Line>, actual: Spend)
    requires held != [] && forall i :: 0 <= i < |held| ==> held[i].index < |budgets|
    ensures SettleLines(w, budgets, id, held, actual).0
            == SettleLines(SettledFirst(w, budgets, id, held[0], actual), budgets, id, held[1..], actual).0
  {
    hide TrySettle, SettleMarker, Amount;
  }

  /** One line, settled: the books move as one settle moves them if it lands, and not otherwise. */
  lemma SettledFirstExact(w: World, budgets: seq<Budget>, id: string, line: Line, actual: Spend)
    requires line.index < |budgets|
    ensures var w1 := SettledFirst(w, budgets, id, line, actual);
            && w1.net == NetAfter(w.net, budgets, line, actual)
            && w1.books == if Lands(w.net, budgets, line, actual)
                           then Settle(w.books, line.key, Delta(budgets, line, actual), SettleMarker(line.key, id))
                           else w.books
  {
    SettleAtMostOnce(w, line.key, Delta(budgets, line, actual), SettleMarker(line.key, id), RECONCILE_ATTEMPTS);
    hide TrySettle, SettleMarker, Reached, Spending, Amount, Answered, Settle;
  }

  lemma SameIdMarkers(k1: string, k2: string, id: string)
    ensures SettleMarker(k1, id) == SettleMarker(k2, id) <==> k1 == k2
  {
    var a, b := SettleMarker(k1, id), SettleMarker(k2, id);
    assert a[..|k1|] == k1 && b[..|k2|] == k2;
  }

  lemma SettledFirstOn(w: World, budgets: seq<Budget>, id: string, line: Line, actual: Spend, k: string)
    requires line.index < |budgets|
    requires line.key == k && SettleMarker(k, id) !in w.books.settled ==> line.amount <= Used(w.books, k)
    ensures var w1 := SettledFirst(w, budgets, id, line, actual);
            var lands, before := line.key == k && Lands(w.net, budgets, line, actual), SettleMarker(k, id) in w.books.settled;
            && (SettleMarker(k, id) in w1.books.settled <==> before || lands)
            && Used(w1.books, k) == Used(w.books, k) + if lands && !before then Delta(budgets, line, actual) else 0
  {
    SettledFirstExact(w, budgets, id, line, actual);
    SameIdMarkers(line.key, k, id);
    hide SettledFirst, SettleMarker, Lands, NetAfter, Amount;
  }

  /**
   For any lines and any losses: a counter moves by what was meant for it, less what was dropped because
   the reservation's marker on that counter was set already.
   */
  lemma {:induction false} SettleEffect(w: World, budgets: seq<Budget>, id: string, held: seq<Line>, actual: Spend, k: string)
    requires forall i :: 0 <= i < |held| ==> held[i].index < |budgets|
    requires SettleMarker(k, id) in w.books.settled || forall i :: 0 <= i < |held| && held[i].key == k ==> held[i].amount <= Used(w.books, k)
    ensures Used(SettleLines(w, budgets, id, held, actual).0.books, k)
            == Used(w.books, k) + Moved(w.net, budgets, held, actual, k)
               - Dropped(w.net, budgets, held, actual, k, SettleMarker(k, id) in w.books.settled)
    decreases |held|
  {
    if held != [] {
      var w1 := SettledFirst(w, budgets, id, held[0], actual);
      hide SettledFirst, SettleMarker, Lands, NetAfter, Delta, Used, SettleLines;
      SettledFirstOn(w, budgets, id, held[0], actual, k);
      SettledFirstExact(w, budgets, id, held[0], actual);
      SettleLinesStep(w, budgets, id, held, actual);
      SettleEffect(w1, budgets, id, held[1..], actual, k);
    } else {
      hide SettleMarker;
    }
  }

  /** A reservation's counter settles right exactly when the changes that land on it after the first sum to zero. */
  lemma SharedCounterExact(w: World, budgets: seq<Budget>, id: string, held: seq<Line>, actual: Spend, k: string)
    requires forall i :: 0 <= i < |held| ==> held[i].index < |budgets|
    requires SettleMarker(k, id) !in w.books.settled
    requires forall i :: 0 <= i < |held| && held[i].key == k ==> held[i].amount <= Used(w.books, k)
    ensures Used(SettleLines(w, budgets, id, held, actual).0.books, k)
            == Used(w.books, k) + Moved(w.net, budgets, held, actual, k)
            <==> Dropped(w.net, budgets, held, actual, k, false) == 0
  {
    hide SettleLines, SettleMarker, Moved, Dropped, Used;
    SettleEffect(w, budgets, id, held, actual, k);
  }

  predicate DistinctKeys(held: seq<Line>) {
    forall i, j :: 0 <= i < j < |held| ==> held[i].key != held[j].key
  }

  /** No settle of this reservation has been applied yet. */
  predicate Unsettled(b: Books, id: string, held: seq<Line>) {
    forall i :: 0 <= i < |held| ==> SettleMarker(held[i].key, id) !in b.settled
  }

  lemma {:induction false} NothingDropped(net: seq<Fate>, budgets: seq<Budget>, held: seq<Line>, actual: Spend, k: string, already: bool)
    requires forall i :: 0 <= i < |held| ==> held[i].index < |budgets|
    requires DistinctKeys(held) && (already ==> forall i :: 0 <= i < |held| ==> held[i].key != k)
    ensures Dropped(net, budgets, held, actual, k, already) == 0
    decreases |held|
  {
    if held != [] {
      hide Lands, Delta, NetAfter;
      var lands := held[0].key == k && Lands(net, budgets, held[0], actual);
      NothingDropped(NetAfter(net, budgets, held[0], actual), budgets, held[1..], actual, k, already || lands);
    }
  }

  /** A reservation over distinct counters settles each to what was spent, as far as its settles arrive. */
  lemma SettleExact(w: World, budgets: seq<Budget>, id: string, held: seq<Line>, actual: Spend, k: string)
    requires forall i :: 0 <= i < |held| ==> held[i].index < |budgets|
    requires DistinctKeys(held) && Unsettled(w.books, id, held)
    requires forall i :: 0 <= i < |held| ==> held[i].amount <= Used(w.books, held[i].key)
    ensures Used(SettleLines(w, budgets, id, held, actual).0.books, k)
            == Used(w.books, k) + Moved(w.net, budgets, held, actual, k)
  {
    hide SettleLines, SettleMarker, Moved, Dropped, Used;
    if exists i :: 0 <= i < |held| && held[i].key == k {
      SettleEffect(w, budgets, id, held, actual, k);
      NothingDropped(w.net, budgets, held, actual, k, false);
    } else {
      OtherCounter(w, budgets, id, held, actual, k);
    }
  }

  lemma OtherCounter(w: World, budgets: seq<Budget>, id: string, held: seq<Line>, actual: Spend, k: string)
    requires forall i :: 0 <= i < |held| ==> held[i].index < |budgets| && held[i].key != k
    ensures Used(SettleLines(w, budgets, id, held, actual).0.books, k)
            == Used(w.books, k) + Moved(w.net, budgets, held, actual, k)
  {
    hide SettleLines, SettleMarker, Used;
    SettleEffect(w, budgets, id, held, actual, k);
    NoneDropped(w.net, budgets, held, actual, k, SettleMarker(k, id) in w.books.settled);
  }

  lemma {:induction false} NoneDropped(net: seq<Fate>, budgets: seq<Budget>, held: seq<Line>, actual: Spend, k: string, already: bool)
    requires forall i :: 0 <= i < |held| ==> held[i].index < |budgets| && held[i].key != k
    ensures Dropped(net, budgets, held, actual, k, already) == 0
    decreases |held|
  {
    if held != [] {
      hide Lands, Delta, NetAfter;
      NoneDropped(NetAfter(net, budgets, held[0], actual), budgets, held[1..], actual, k, already);
    }
  }

  /** Over a store that answers, that is what was spent in place of what was reserved. */
  lemma {:induction false} SettledToActual(budgets: seq<Budget>, held: seq<Line>, actual: Spend, i: nat)
    requires forall j :: 0 <= j < |held| ==> held[j].index < |budgets|
    requires DistinctKeys(held) && i < |held|
    ensures Moved([], budgets, held, actual, held[i].key) == Delta(budgets, held[i], actual)
    decreases |held|
  {
    hide Amount;
    assert Reached([], RECONCILE_ATTEMPTS) && Spending([], RECONCILE_ATTEMPTS) == [];
    if i == 0 {
      NotMoved(budgets, held[1..], actual, held[0].key);
    } else {
      assert held[1..][i - 1] == held[i];
      SettledToActual(budgets, held[1..], actual, i - 1);
    }
  }

  lemma {:induction false} NotMoved(budgets: seq<Budget>, held: seq<Line>, actual: Spend, k: string)
    requires forall j :: 0 <= j < |held| ==> held[j].index < |budgets|
    requires forall j :: 0 <= j < |held| ==> held[j].key != k
    ensures Moved([], budgets, held, actual, k) == 0
    decreases |held|
  {
    hide Amount;
    if held != [] {
      assert Spending([], RECONCILE_ATTEMPTS) == [];
      NotMoved(budgets, held[1..], actual, k);
    }
  }

  // ---- Settling again ---------------------------------------------------------------------------

  /** Line `i` of this settle is sent and reaches the store. */
  predicate LandsAt(net: seq<Fate>, budgets: seq<Budget>, held: seq<Line>, actual: Spend, i: int)
    requires forall j :: 0 <= j < |held| ==> held[j].index < |budgets|
    decreases |held|
  {
    && 0 <= i < |held|
    && if i == 0 then Lands(net, budgets, held[0], actual)
       else LandsAt(NetAfter(net, budgets, held[0], actual), budgets, held[1..], actual, i - 1)
  }

  /** Some line on counter `key` lands. */
  ghost predicate LandsOn(net: seq<Fate>, budgets: seq<Budget>, held: seq<Line>, actual: Spend, key: string)
    requires forall j :: 0 <= j < |held| ==> held[j].index < |budgets|
  {
    exists i :: 0 <= i < |held| && held[i].key == key && LandsAt(net, budgets, held, actual, i)
  }

  lemma LandsOnStep(net: seq<Fate>, budgets: seq<Budget>, held: seq<Line>, actual: Spend, key: string)
    requires held != [] && forall j :: 0 <= j < |held| ==> held[j].index < |budgets|
    ensures LandsOn(net, budgets, held, actual, key)
            <==> || (held[0].key == key && Lands(net, budgets, held[0], actual))
                 || LandsOn(NetAfter(net, budgets, held[0], actual), budgets, held[1..], actual, key)
  {
    hide Lands;
    var next := NetAfter(net, budgets, held[0], actual);
    hide NetAfter;
    if held[0].key == key && Lands(net, budgets, held[0], actual) {
      assert LandsAt(net, budgets, held, actual, 0);
    }
    if LandsOn(next, budgets, held[1..], actual, key) {
      var i :| 0 <= i < |held[1..]| && held[1..][i].key == key && LandsAt(next, budgets, held[1..], actual, i);
      assert LandsAt(net, budgets, held, actual, i + 1) && held[i + 1].key == key;
    }
    if LandsOn(net, budgets, held, actual, key) {
      var i :| 0 <= i < |held| && held[i].key == key && LandsAt(net, budgets, held, actual, i);
      if i > 0 {
        assert held[1..][i - 1].key == key && LandsAt(next, budgets, held[1..], actual, i - 1);
      }
    }
  }

  /** After a settle, a marker is set if it was before or a line on its counter landed. */
  lemma {:induction false} MarkerAfter(w: World, budgets: seq<Budget>, id: string, held: seq<Line>, actual: Spend, key: string)
    requires forall i :: 0 <= i < |held| ==> held[i].index < |budgets|
    ensures SettleMarker(key, id) in SettleLines(w, budgets, id, held, actual).0.books.settled
            <==> SettleMarker(key, id) in w.books.settled || LandsOn(w.net, budgets, held, actual, key)
    decreases |held|
  {
    if held == [] {
      hide SettleMarker;
    } else {
      var w1 := SettledFirst(w, budgets, id, held[0], actual);
      SettledFirstExact(w, budgets, id, held[0], actual);
      SameIdMarkers(held[0].key, key, id);
      hide SettledFirst, SettleMarker, Lands, NetAfter, Delta, SettleLines, LandsOn;
      SettleLinesStep(w, budgets, id, held, actual);
      LandsOnStep(w.net, budgets, held, actual, key);
      MarkerAfter(w1, budgets, id, held[1..], actual, key);
    }
  }

  /** Markers are never taken away. */
  lemma {:induction false} MarkersStay(w: World, budgets: seq<Budget>, id: string, held: seq<Line>, actual: Spend)
    requires forall i :: 0 <= i < |held| ==> held[i].index < |budgets|
    ensures w.books.settled <= SettleLines(w, budgets, id, held, actual).0.books.settled
    decreases |held|
  {
    if held != [] {
      SettledFirstExact(w, budgets, id, held[0], actual);
      SettleLinesStep(w, budgets, id, held, actual);
      hide SettledFirst, SettleMarker, Lands, NetAfter, Delta, SettleLines;
      MarkersStay(SettledFirst(w, budgets, id, held[0], actual), budgets, id, held[1..], actual);
    }
  }

  /** Every line that lands finds its marker set. */
  ghost predicate AllMarked(b: Books, id: string, net: seq<Fate>, budgets: seq<Budget>, held: seq<Line>, actual: Spend)
    requires forall i :: 0 <= i < |held| ==> held[i].index < |budgets|
  {
    forall i :: 0 <= i < |held| && LandsAt(net, budgets, held, actual, i) ==> SettleMarker(held[i].key, id) in b.settled
  }

  lemma AllMarkedStep(b: Books, id: string, net: seq<Fate>, budgets: seq<Budget>, held: seq<Line>, actual: Spend)
    requires held != [] && forall i :: 0 <= i < |held| ==> held[i].index < |budgets|
    ensures AllMarked(b, id, net, budgets, held, actual)
            <==> && (Lands(net, budgets, held[0], actual) ==> SettleMarker(held[0].key, id) in b.settled)
                 && AllMarked(b, id, NetAfter(net, budgets, held[0], actual), budgets, held[1..], actual)
  {
    var next := NetAfter(net, budgets, held[0], actual);
    hide Lands, NetAfter, SettleMarker;
    assert LandsAt(net, budgets, held, actual, 0) == Lands(net, budgets, held[0], actual);
    forall i | 0 <= i < |held[1..]|
      ensures LandsAt(next, budgets, held[1..], actual, i) == LandsAt(net, budgets, held, actual, i + 1) && held[1..][i] == held[i + 1]
    {
    }
    hide LandsAt;
    if AllMarked(b, id, net, budgets, held, actual) {
      forall i | 0 <= i < |held[1..]| && LandsAt(next, budgets, held[1..], actual, i)
        ensures SettleMarker(held[1..][i].key, id) in b.settled
      {
        assert LandsAt(net, budgets, held, actual, i + 1);
      }
    }
    if AllMarked(b, id, next, budgets, held[1..], actual) && (Lands(net, budgets, held[0], actual) ==> SettleMarker(held[0].key, id) in b.settled) {
      forall i | 0 <= i < |held| && LandsAt(net, budgets, held, actual, i) ensures SettleMarker(held[i].key, id) in b.settled {
        if i > 0 {
          assert held[1..][i - 1] == held[i];
        }
      }
    }
  }

  /** A settle changes nothing exactly when every line that lands finds its marker set. */
  lemma {:induction false} UnchangedExact(w: World, budgets: seq<Budget>, id: string, held: seq<Line>, actual: Spend)
    requires forall i :: 0 <= i < |held| ==> held[i].index < |budgets|
    ensures SettleLines(w, budgets, id, held, actual).0.books == w.books <==> AllMarked(w.books, id, w.net, budgets, held, actual)
    decreases |held|
  {
    if held != [] {
      var w1 := SettledFirst(w, budgets, id, held[0], actual);
      SettledFirstExact(w, budgets, id, held[0], actual);
      hide SettledFirst, SettleMarker, Lands, NetAfter, Delta, SettleLines, AllMarked;
      SettleLinesStep(w, budgets, id, held, actual);
      AllMarkedStep(w.books, id, w.net, budgets, held, actual);
      if w1.books == w.books {
        UnchangedExact(w1, budgets, id, held[1..], actual);
      } else {
        MarkersStay(w1, budgets, id, held[1..], actual);
      }
    }
  }

  /**
   Settling a reservation a second time, over any lines and any losses: it changes nothing exactly when
   every line of it that lands is on a counter whose marker was set before, or on which a line of the first
   settle landed.
   */
  lemma SecondSettleExact(w: World, budgets: seq<Budget>, id: string, held: seq<Line>, first: Spend, second: Spend)
    requires forall i :: 0 <= i < |held| ==> held[i].index < |budgets|
    ensures var w1 := SettleLines(w, budgets, id, held, first).0;
            SettleLines(w1, budgets, id, held, second).0.books == w1.books
            <==> forall i :: 0 <= i < |held| && LandsAt(w1.net, budgets, held, second, i) ==>
                   SettleMarker(held[i].key, id) in w.books.settled || LandsOn(w.net, budgets, held, first, held[i].key)
  {
    var w1 := SettleLines(w, budgets, id, held, first).0;
    UnchangedExact(w1, budgets, id, held, second);
    hide SettleLines, SettleMarker, LandsOn, LandsAt;
    forall i | 0 <= i < |held|
      ensures SettleMarker(held[i].key, id) in w1.books.settled
              <==> SettleMarker(held[i].key, id) in w.books.settled || LandsOn(w.net, budgets, held, first, held[i].key)
    {
      MarkerAfter(w, budgets, id, held, first, held[i].key);
    }
  }

  /** Over distinct counters: exactly when every line that lands the second time landed the first time. */
  lemma SecondSettleDistinct(w: World, budgets: seq<Budget>, id: string, held: seq<Line>, first: Spend, second: Spend)
    requires forall i :: 0 <= i < |held| ==> held[i].index < |budgets|
    requires DistinctKeys(held) && Unsettled(w.books, id, held)
    ensures var w1 := SettleLines(w, budgets, id, held, first).0;
            SettleLines(w1, budgets, id, held, second).0.books == w1.books
            <==> forall i :: 0 <= i < |held| && LandsAt(w1.net, budgets, held, second, i) ==> LandsAt(w.net, budgets, held, first, i)
  {
    SecondSettleExact(w, budgets, id, held, first, second);
    hide SettleLines, SettleMarker, LandsAt;
    forall i | 0 <= i < |held|
      ensures LandsOn(w.net, budgets, held, first, held[i].key) <==> LandsAt(w.net, budgets, held, first, i)
    {
      if LandsOn(w.net, budgets, held, first, held[i].key) {
        var j :| 0 <= j < |held| && held[j].key == held[i].key && LandsAt(w.net, budgets, held, first, j);
        assert i == j;
      }
    }
  }

  // ---- Distinct counters ------------------------------------------------------------------------

  /** Budgets with colon-free names that differ never charge one counter twice. */
  lemma {:induction false} LinesDistinct(budgets: seq<Budget>, prefix: string, dims: Dims, est: Spend, now: nat, from: nat)
    requires from <= |budgets| && forall i :: 0 <= i < |budgets| ==> budgets[i].windowSecs > 0
    requires forall i :: 0 <= i < |budgets| ==> ':' !in budgets[i].name
    requires forall i, j :: 0 <= i < j < |budgets| ==> budgets[i].name != budgets[j].name
    ensures var ls := Lines(budgets, prefix, dims, est, now, from);
            && DistinctKeys(ls)
            && (forall i :: 0 <= i < |ls| ==> from <= ls[i].index && ls[i].key == Key(budgets[ls[i].index], prefix, dims, now))
            && (forall i, j :: 0 <= i < j < |ls| ==> ls[i].index < ls[j].index)
    decreases |budgets| - from
  {
    hide KeyOf, Amount, Dimension;
    if from < |budgets| {
      LinesDistinct(budgets, prefix, dims, est, now, from + 1);
      var later := Lines(budgets, prefix, dims, est, now, from + 1);
      forall i | 0 <= i < |later| ensures later[i].key != Key(budgets[from], prefix, dims, now) {
        var a, b := budgets[from], budgets[later[i].index];
        if later[i].key == Key(a, prefix, dims, now) {
          ColonFreeNamesSeparate(prefix, a.name, Dimension(a, dims), now / a.windowSecs, b.name, Dimension(b, dims), now / b.windowSecs);
          assert false;
        }
      }
    }
  }
}
