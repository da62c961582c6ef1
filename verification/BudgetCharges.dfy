/**
 What a request is charged and answered, in numbers: each budget in its own unit, against its own limit, with
 every fate of the calls. `BudgetEngine` says how the engine works line by line; here is what comes of it, read
 off the budgets, the estimate, the counters and the fates.
 */
module BudgetCharges {
  import opened BudgetKeys
  import opened BudgetProtocol
  import opened BudgetEngine

  /** A spend in a budget's unit: tokens, or millionths of a dollar. */
  function InUnit(b: Budget, s: Spend): nat {
    if b.unit == UsdMicros then s.costMicros else s.tokens
  }

  ghost predicate Windowed(budgets: seq<Budget>) {
    forall i :: 0 <= i < |budgets| ==> budgets[i].windowSecs > 0
  }

  /** Colon-free names that differ, so that no two budgets share a counter. */
  ghost predicate Named(budgets: seq<Budget>) {
    && Windowed(budgets)
    && (forall i :: 0 <= i < |budgets| ==> ':' !in budgets[i].name)
    && (forall i, j :: 0 <= i < j < |budgets| ==> budgets[i].name != budgets[j].name)
  }

  // ---- Lines ------------------------------------------------------------------------------------

  lemma {:induction false} LineMembers(budgets: seq<Budget>, prefix: string, dims: Dims, est: Spend, now: nat, from: nat)
    requires Windowed(budgets) && from <= |budgets|
    ensures forall l :: l in Lines(budgets, prefix, dims, est, now, from) <==>
              && from <= l.index < |budgets| && l.key == Key(budgets[l.index], prefix, dims, now)
              && l.amount == InUnit(budgets[l.index], est) && l.amount != 0
    decreases |budgets| - from
  {
    hide Key;
    if from < |budgets| {
      LineMembers(budgets, prefix, dims, est, now, from + 1);
    }
  }

  /**
   A request has a line for a budget exactly when its estimate is not nothing in the budget's unit, and the line
   is for that much on the budget's counter; there is one line for a budget, in the order of the budgets.
   */
  lemma LinesExact(budgets: seq<Budget>, prefix: string, dims: Dims, est: Spend, now: nat)
    requires Windowed(budgets)
    ensures var lines := Lines(budgets, prefix, dims, est, now, 0);
            && (forall i :: 0 <= i < |budgets| ==> ((exists l :: l in lines && l.index == i) <==> InUnit(budgets[i], est) != 0))
            && (forall l :: l in lines ==> l.index < |budgets| && l.key == Key(budgets[l.index], prefix, dims, now)
                                           && l.amount == InUnit(budgets[l.index], est))
            && (forall i, j :: 0 <= i < j < |lines| ==> lines[i].index < lines[j].index)
  {
    LineMembers(budgets, prefix, dims, est, now, 0);
    LinesAscend(budgets, prefix, dims, est, now, 0);
    var lines := Lines(budgets, prefix, dims, est, now, 0);
    hide Lines, Key;
    forall i | 0 <= i < |budgets| && InUnit(budgets[i], est) != 0 ensures exists l :: l in lines && l.index == i {
      assert Line(Key(budgets[i], prefix, dims, now), InUnit(budgets[i], est), i) in lines;
    }
  }

  predicate Ascending(lines: seq<Line>, from: nat) {
    && (forall i :: 0 <= i < |lines| ==> from <= lines[i].index)
    && (forall i, j :: 0 <= i < j < |lines| ==> lines[i].index < lines[j].index)
  }

  lemma AscendingMore(line: Line, later: seq<Line>, from: nat)
    requires line.index == from && Ascending(later, from + 1)
    ensures Ascending(later, from) && Ascending([line] + later, from)
  {
  }

  lemma {:induction false} LinesAscend(budgets: seq<Budget>, prefix: string, dims: Dims, est: Spend, now: nat, from: nat)
    requires Windowed(budgets) && from <= |budgets|
    ensures Ascending(Lines(budgets, prefix, dims, est, now, from), from)
    decreases |budgets| - from
  {
    hide Key, Amount;
    if from < |budgets| {
      LinesAscend(budgets, prefix, dims, est, now, from + 1);
      hide Ascending;
      var b := budgets[from];
      AscendingMore(Line(Key(b, prefix, dims, now), Amount(b, est.tokens, est.costMicros), from),
                    Lines(budgets, prefix, dims, est, now, from + 1), from);
    }
  }

  // ---- Totals -----------------------------------------------------------------------------------

  /** The budgets from `from` on that count in this unit on counter `k`. */
  ghost function Counting(budgets: seq<Budget>, prefix: string, dims: Dims, now: nat, k: string, unit: Unit, from: nat): set<nat>
    requires Windowed(budgets)
  {
    set i: nat | from <= i < |budgets| && budgets[i].unit == unit && Key(budgets[i], prefix, dims, now) == k
  }

  lemma CountingStep(budgets: seq<Budget>, prefix: string, dims: Dims, now: nat, k: string, unit: Unit, from: nat)
    requires Windowed(budgets) && from < |budgets|
    ensures |Counting(budgets, prefix, dims, now, k, unit, from)|
            == |Counting(budgets, prefix, dims, now, k, unit, from + 1)|
               + if budgets[from].unit == unit && Key(budgets[from], prefix, dims, now) == k then 1 else 0
  {
    hide Key;
    var all, later := Counting(budgets, prefix, dims, now, k, unit, from), Counting(budgets, prefix, dims, now, k, unit, from + 1);
    if budgets[from].unit == unit && Key(budgets[from], prefix, dims, now) == k {
      assert all == later + {from};
    } else {
      assert all == later;
    }
  }

  /** Whatever the names, a counter is charged the tokens once for each token budget on it, and the cost once for each cost budget. */
  lemma {:induction false} TotalExact(budgets: seq<Budget>, prefix: string, dims: Dims, est: Spend, now: nat, from: nat, k: string)
    requires Windowed(budgets) && from <= |budgets|
    ensures Total(Lines(budgets, prefix, dims, est, now, from), k)
            == |Counting(budgets, prefix, dims, now, k, Tokens, from)| * est.tokens
               + |Counting(budgets, prefix, dims, now, k, UsdMicros, from)| * est.costMicros
    decreases |budgets| - from
  {
    if from == |budgets| {
      assert Counting(budgets, prefix, dims, now, k, Tokens, from) == {};
      assert Counting(budgets, prefix, dims, now, k, UsdMicros, from) == {};
    } else {
      TotalExact(budgets, prefix, dims, est, now, from + 1, k);
      CountingStep(budgets, prefix, dims, now, k, Tokens, from);
      CountingStep(budgets, prefix, dims, now, k, UsdMicros, from);
      TotalStep(budgets, prefix, dims, est, now, from, k);
      hide *;
      var here := Key(budgets[from], prefix, dims, now) == k;
      var t, u := |Counting(budgets, prefix, dims, now, k, Tokens, from + 1)|, |Counting(budgets, prefix, dims, now, k, UsdMicros, from + 1)|;
      OneMoreBudget(budgets[from], est, here, t, u);
    }
  }

  lemma OneMoreBudget(b: Budget, est: Spend, here: bool, t: nat, u: nat)
    ensures (t + if b.unit == Tokens && here then 1 else 0) * est.tokens + (u + if b.unit == UsdMicros && here then 1 else 0) * est.costMicros
            == t * est.tokens + u * est.costMicros + if here then InUnit(b, est) else 0
  {
    if here && b.unit == Tokens {
      assert (t + 1) * est.tokens == t * est.tokens + est.tokens;
    } else if here {
      assert (u + 1) * est.costMicros == u * est.costMicros + est.costMicros;
    }
  }

  lemma TotalStep(budgets: seq<Budget>, prefix: string, dims: Dims, est: Spend, now: nat, from: nat, k: string)
    requires Windowed(budgets) && from < |budgets|
    ensures Total(Lines(budgets, prefix, dims, est, now, from), k)
            == Total(Lines(budgets, prefix, dims, est, now, from + 1), k)
               + if Key(budgets[from], prefix, dims, now) == k then InUnit(budgets[from], est) else 0
  {
    hide Key;
    var later := Lines(budgets, prefix, dims, est, now, from + 1);
    var line := Line(Key(budgets[from], prefix, dims, now), InUnit(budgets[from], est), from);
    TotalAppend([line], later, k);
    TotalOne(line, k);
  }

  // ---- The answer -------------------------------------------------------------------------------

  /** The fate of call `j`. */
  function FateAt(net: seq<Fate>, j: nat): Fate {
    if j < |net| then net[j] else Arrives
  }

  /** Line `j` is answered, and with the lines before it fits under the limit of its budget. */
  predicate Passes(w: World, budgets: seq<Budget>, lines: seq<Line>, j: nat)
    requires j < |lines| && lines[j].index < |budgets|
  {
    FateAt(w.net, j) == Arrives && Used(w.books, lines[j].key) + Total(lines[..j + 1], lines[j].key) <= budgets[lines[j].index].limit
  }

  predicate PassesTo(w: World, budgets: seq<Budget>, lines: seq<Line>, n: nat)
    requires n <= |lines| && forall i :: 0 <= i < |lines| ==> lines[i].index < |budgets|
  {
    forall j :: 0 <= j < n ==> Passes(w, budgets, lines, j)
  }

  lemma PassesFirst(w: World, budgets: seq<Budget>, todo: seq<Line>)
    requires todo != [] && todo[0].index < |budgets|
    ensures Passes(w, budgets, todo, 0)
            <==> TryReserve(w, todo[0].key, todo[0].amount, budgets[todo[0].index].limit).1 == Admitted
    ensures FateAt(w.net, 0) == Arrives && !Passes(w, budgets, todo, 0)
            <==> TryReserve(w, todo[0].key, todo[0].amount, budgets[todo[0].index].limit).1 == Refused
  {
    assert todo[..1] == [todo[0]];
    TotalOne(todo[0], todo[0].key);
    hide Charge;
  }

  /** After the first line was admitted, the others pass as they did before. */
  lemma PassesLater(w: World, budgets: seq<Budget>, todo: seq<Line>, j: nat)
    requires todo != [] && 0 < j < |todo| && todo[0].index < |budgets| && todo[j].index < |budgets| && Passes(w, budgets, todo, 0)
    ensures var w1 := TryReserve(w, todo[0].key, todo[0].amount, budgets[todo[0].index].limit).0;
            Passes(w, budgets, todo, j) <==> Passes(w1, budgets, todo[1..], j - 1)
    ensures var w1 := TryReserve(w, todo[0].key, todo[0].amount, budgets[todo[0].index].limit).0;
            FateAt(w.net, j) == FateAt(w1.net, j - 1)
  {
    PassesFirst(w, budgets, todo);
    var k := todo[j].key;
    assert todo[..j + 1] == [todo[0]] + todo[1..][..j];
    TotalAppend([todo[0]], todo[1..][..j], k);
    TotalOne(todo[0], k);
    hide Total;
  }

  lemma {:induction false} AnswerFrom(
    w: World, budgets: seq<Budget>, held: seq<Line>, todo: seq<Line>, ids: seq<string>, failOpen: bool, n: nat)
    requires |held| + |todo| < |ids| && (forall i :: 0 <= i < |todo| ==> todo[i].index < |budgets|)
    requires n <= |todo| && PassesTo(w, budgets, todo, n) && (n < |todo| ==> !Passes(w, budgets, todo, n))
    ensures var r := ReserveLines(w, budgets, held, todo, ids, failOpen).1;
            if n == |todo| then r == Ok(Reservation(ids[0], held + todo, 0))
            else if FateAt(w.net, n) == Arrives then r.Denied? && r.index == todo[n].index
            else if failOpen then r.Ok? && r.reservation.id == "" && r.reservation.held == []
            else r.Error?
    decreases |todo|
  {
    hide Passes, Rollback;
    if todo == [] {
      assert held + todo == held;
    } else {
      PassesFirst(w, budgets, todo);
      if n > 0 {
        var w1 := TryReserve(w, todo[0].key, todo[0].amount, budgets[todo[0].index].limit).0;
        forall j | 0 < j < |todo|
          ensures Passes(w, budgets, todo, j) <==> Passes(w1, budgets, todo[1..], j - 1)
          ensures FateAt(w.net, j) == FateAt(w1.net, j - 1)
        {
          PassesLater(w, budgets, todo, j);
        }
        hide TryReserve, FateAt;
        forall j | 0 <= j < n - 1 ensures Passes(w1, budgets, todo[1..], j) {
          assert Passes(w, budgets, todo, j + 1);
        }
        AnswerFrom(w1, budgets, held + [todo[0]], todo[1..], ids, failOpen, n - 1);
        assert held + [todo[0]] + todo[1..] == held + todo;
      }
    }
  }

  /**
   The answer, for any lines and any losses: granted with all its lines exactly when every line passes; and else
   the first that does not pass decides, which is a denial naming its budget if it was answered, and otherwise an
   error, or a grant of nothing when failing open.
   */
  lemma AnswerExact(w: World, budgets: seq<Budget>, lines: seq<Line>, ids: seq<string>, failOpen: bool, n: nat)
    requires |lines| < |ids| && (forall i :: 0 <= i < |lines| ==> lines[i].index < |budgets|)
    requires n <= |lines| && PassesTo(w, budgets, lines, n) && (n < |lines| ==> !Passes(w, budgets, lines, n))
    ensures var r := ReserveLines(w, budgets, [], lines, ids, failOpen).1;
            if n == |lines| then r == Ok(Reservation(ids[0], lines, 0))
            else if FateAt(w.net, n) == Arrives then r.Denied? && r.index == lines[n].index
            else if failOpen then r.Ok? && r.reservation.id == "" && r.reservation.held == []
            else r.Error?
  {
    hide *;
    assert [] + lines == lines;
    AnswerFrom(w, budgets, [], lines, ids, failOpen, n);
  }

  // ---- Different names --------------------------------------------------------------------------

  /** What is asked of budget `i` fits under its limit, or is nothing. */
  predicate FitsIn(b: Books, budgets: seq<Budget>, prefix: string, dims: Dims, est: Spend, now: nat, i: nat)
    requires i < |budgets| && budgets[i].windowSecs > 0
  {
    InUnit(budgets[i], est) == 0 || Used(b, Key(budgets[i], prefix, dims, now)) + InUnit(budgets[i], est) <= budgets[i].limit
  }

  lemma KeysApart(budgets: seq<Budget>, prefix: string, dims: Dims, now: nat, i: nat, j: nat)
    requires Named(budgets) && i < |budgets| && j < |budgets| && i != j
    ensures Key(budgets[i], prefix, dims, now) != Key(budgets[j], prefix, dims, now)
  {
    hide KeyOf, Dimension;
    var a, b := budgets[i], budgets[j];
    if Key(a, prefix, dims, now) == Key(b, prefix, dims, now) {
      ColonFreeNamesSeparate(prefix, a.name, Dimension(a, dims), now / a.windowSecs, b.name, Dimension(b, dims), now / b.windowSecs);
      assert false;
    }
  }

  lemma {:induction false} TotalElsewhere(lines: seq<Line>, k: string)
    requires forall i :: 0 <= i < |lines| ==> lines[i].key != k
    ensures Total(lines, k) == 0
  {
    if lines != [] {
      TotalElsewhere(lines[1..], k);
    }
  }

  lemma {:induction false} TotalAt(lines: seq<Line>, i: nat)
    requires DistinctKeys(lines) && i < |lines|
    ensures Total(lines, lines[i].key) == lines[i].amount
  {
    if i == 0 {
      TotalElsewhere(lines[1..], lines[0].key);
    } else {
      assert lines[1..][i - 1] == lines[i];
      TotalAt(lines[1..], i - 1);
    }
  }

  lemma DistinctPasses(w: World, budgets: seq<Budget>, lines: seq<Line>, j: nat)
    requires DistinctKeys(lines) && j < |lines| && lines[j].index < |budgets| && w.net == []
    ensures Passes(w, budgets, lines, j) <==> Used(w.books, lines[j].key) + lines[j].amount <= budgets[lines[j].index].limit
  {
    assert lines[..j + 1][j] == lines[j];
    TotalAt(lines[..j + 1], j);
  }

  /** What the lines of a request add to the counter of each budget: the estimate in its unit. */
  lemma TotalOfBudget(budgets: seq<Budget>, prefix: string, dims: Dims, est: Spend, now: nat, i: nat)
    requires Named(budgets) && i < |budgets|
    ensures Total(Lines(budgets, prefix, dims, est, now, 0), Key(budgets[i], prefix, dims, now)) == InUnit(budgets[i], est)
  {
    var lines, k := Lines(budgets, prefix, dims, est, now, 0), Key(budgets[i], prefix, dims, now);
    LinesExact(budgets, prefix, dims, est, now);
    LinesDistinct(budgets, prefix, dims, est, now, 0);
    hide Lines, Key;
    forall j | 0 <= j < |lines| ensures lines[j].key == k <==> lines[j].index == i {
      assert lines[j] in lines;
      if lines[j].index != i {
        KeysApart(budgets, prefix, dims, now, lines[j].index, i);
      }
    }
    if InUnit(budgets[i], est) == 0 {
      TotalElsewhere(lines, k);
    } else {
      var l :| l in lines && l.index == i;
      var j :| 0 <= j < |lines| && lines[j] == l;
      TotalAt(lines, j);
    }
  }

  lemma TotalOfOther(budgets: seq<Budget>, prefix: string, dims: Dims, est: Spend, now: nat, k: string)
    requires Windowed(budgets) && forall i :: 0 <= i < |budgets| ==> Key(budgets[i], prefix, dims, now) != k
    ensures Total(Lines(budgets, prefix, dims, est, now, 0), k) == 0
  {
    var lines := Lines(budgets, prefix, dims, est, now, 0);
    LinesExact(budgets, prefix, dims, est, now);
    hide Lines, Key;
    forall j | 0 <= j < |lines| ensures lines[j].key != k {
      assert lines[j] in lines;
    }
    TotalElsewhere(lines, k);
  }

  /** A grant, under any losses, raises the counter of each budget by the estimate in its unit, and no other counter. */
  lemma GrantCharges(w: World, budgets: seq<Budget>, prefix: string, dims: Dims, est: Spend, now: nat, ids: seq<string>, failOpen: bool)
    requires Named(budgets) && |budgets| < |ids| && Fresh(w.books, ids)
    ensures |Lines(budgets, prefix, dims, est, now, 0)| <= |budgets|
    ensures var lines := Lines(budgets, prefix, dims, est, now, 0);
            var (w', r) := ReserveLines(w, budgets, [], lines, ids, failOpen);
            r == Ok(Reservation(ids[0], lines, 0)) ==>
              && (forall i :: 0 <= i < |budgets| ==>
                    var k := Key(budgets[i], prefix, dims, now);
                    Used(w'.books, k) == Used(w.books, k) + InUnit(budgets[i], est))
              && (forall k :: (forall i :: 0 <= i < |budgets| ==> Key(budgets[i], prefix, dims, now) != k) ==>
                    Used(w'.books, k) == Used(w.books, k))
  {
    LinesShort(budgets, prefix, dims, est, now, 0);
    var lines := Lines(budgets, prefix, dims, est, now, 0);
    AllOrNothing(w, budgets, lines, ids, failOpen);
    assert lines == [] ==> AllAdmitted(w, budgets, lines);
    hide Lines, Key, ReserveLines, Total, Used, Fresh, AllAdmitted;
    forall i | 0 <= i < |budgets| ensures Total(lines, Key(budgets[i], prefix, dims, now)) == InUnit(budgets[i], est) {
      TotalOfBudget(budgets, prefix, dims, est, now, i);
    }
    forall k | forall i :: 0 <= i < |budgets| ==> Key(budgets[i], prefix, dims, now) != k ensures Total(lines, k) == 0 {
      TotalOfOther(budgets, prefix, dims, est, now, k);
    }
  }

  lemma {:induction false} NothingLeaks(w: World, budgets: seq<Budget>, held: seq<Line>, todo: seq<Line>)
    requires w.net == [] && forall i :: 0 <= i < |todo| ==> todo[i].index < |budgets|
    ensures LeakedBy(w, budgets, held, todo) == [] && ReportedBy(w, budgets, held, todo) == []
    decreases |todo|
  {
    if todo != [] {
      NoneLeaked(held);
      hide Leaked, Unanswered, Charge;
      NothingLeaks(TryReserve(w, todo[0].key, todo[0].amount, budgets[todo[0].index].limit).0, budgets, held + [todo[0]], todo[1..]);
    }
  }

  lemma {:induction false} NoneLeaked(held: seq<Line>)
    ensures Leaked([], held) == [] && Unanswered([], held) == []
    decreases |held|
  {
    if held != [] {
      assert Spending([], RECONCILE_ATTEMPTS) == [] && Reached([], RECONCILE_ATTEMPTS) && Answered([], RECONCILE_ATTEMPTS);
      NoneLeaked(held[1..]);
    }
  }

  /** The lines of a request and the budgets they are for. */
  lemma LinePasses(b: Books, budgets: seq<Budget>, prefix: string, dims: Dims, est: Spend, now: nat, j: nat)
    requires Named(budgets) && j < |Lines(budgets, prefix, dims, est, now, 0)|
    ensures var lines := Lines(budgets, prefix, dims, est, now, 0);
            Passes(World(b, []), budgets, lines, j) <==> FitsIn(b, budgets, prefix, dims, est, now, lines[j].index)
  {
    var lines := Lines(budgets, prefix, dims, est, now, 0);
    LineMembers(budgets, prefix, dims, est, now, 0);
    LinesDistinct(budgets, prefix, dims, est, now, 0);
    hide Lines, Key, Passes;
    assert lines[j] in lines;
    DistinctPasses(World(b, []), budgets, lines, j);
  }

  lemma GrantedAll(b: Books, budgets: seq<Budget>, prefix: string, dims: Dims, est: Spend, now: nat, ids: seq<string>, failOpen: bool)
    requires Named(budgets) && |Lines(budgets, prefix, dims, est, now, 0)| < |ids|
    requires forall i :: 0 <= i < |budgets| ==> FitsIn(b, budgets, prefix, dims, est, now, i)
    ensures var lines := Lines(budgets, prefix, dims, est, now, 0);
            ReserveLines(World(b, []), budgets, [], lines, ids, failOpen).1 == Ok(Reservation(ids[0], lines, 0))
  {
    var lines := Lines(budgets, prefix, dims, est, now, 0);
    hide Lines, Passes, FitsIn, ReserveLines;
    forall j | 0 <= j < |lines| ensures Passes(World(b, []), budgets, lines, j) {
      LinePasses(b, budgets, prefix, dims, est, now, j);
    }
    AnswerExact(World(b, []), budgets, lines, ids, failOpen, |lines|);
  }

  lemma DeniedAt(b: Books, budgets: seq<Budget>, prefix: string, dims: Dims, est: Spend, now: nat, ids: seq<string>, failOpen: bool, i: nat)
    requires Named(budgets) && |Lines(budgets, prefix, dims, est, now, 0)| < |ids| && Fresh(b, ids)
    requires i < |budgets| && !FitsIn(b, budgets, prefix, dims, est, now, i)
    requires forall j :: 0 <= j < i ==> FitsIn(b, budgets, prefix, dims, est, now, j)
    ensures var (w', r) := ReserveLines(World(b, []), budgets, [], Lines(budgets, prefix, dims, est, now, 0), ids, failOpen);
            r == Denied(i, 0) && forall k :: Used(w'.books, k) == Used(b, k)
  {
    var lines, w := Lines(budgets, prefix, dims, est, now, 0), World(b, []);
    var n := LineFor(budgets, prefix, dims, est, now, i);
    hide Lines, Passes, FitsIn, ReserveLines, Fresh, AllAdmitted;
    forall j | 0 <= j <= n ensures Passes(w, budgets, lines, j) <==> j < n {
      LinePasses(b, budgets, prefix, dims, est, now, j);
    }
    AnswerExact(w, budgets, lines, ids, failOpen, n);
    AllOrNothing(w, budgets, lines, ids, failOpen);
    NothingLeaks(w, budgets, [], lines);
  }

  /** The line of a budget of which something is asked comes after those of earlier budgets only. */
  lemma LineFor(budgets: seq<Budget>, prefix: string, dims: Dims, est: Spend, now: nat, i: nat) returns (n: nat)
    requires Windowed(budgets) && i < |budgets| && InUnit(budgets[i], est) != 0
    ensures var lines := Lines(budgets, prefix, dims, est, now, 0);
            && n < |lines| && lines[n] == Line(Key(budgets[i], prefix, dims, now), InUnit(budgets[i], est), i)
            && forall j :: 0 <= j < n ==> lines[j].index < i
  {
    var lines := Lines(budgets, prefix, dims, est, now, 0);
    LinesExact(budgets, prefix, dims, est, now);
    hide Lines, Key;
    var l :| l in lines && l.index == i;
    n :| 0 <= n < |lines| && lines[n] == l;
  }

  /**
   The decision over a store that answers: granted exactly when what is asked of every budget fits under its
   limit; and else denied, naming the first budget it does not fit, with nothing charged and nothing leaked.
   */
  lemma ReserveDecides(b: Books, budgets: seq<Budget>, prefix: string, dims: Dims, est: Spend, now: nat, ids: seq<string>, failOpen: bool)
    requires Named(budgets) && |budgets| < |ids| && Fresh(b, ids)
    ensures |Lines(budgets, prefix, dims, est, now, 0)| <= |budgets|
    ensures var lines := Lines(budgets, prefix, dims, est, now, 0);
            var (w', r) := ReserveLines(World(b, []), budgets, [], lines, ids, failOpen);
            && ((forall i :: 0 <= i < |budgets| ==> FitsIn(b, budgets, prefix, dims, est, now, i)) ==>
                  r == Ok(Reservation(ids[0], lines, 0)))
            && (forall i :: 0 <= i < |budgets| && !FitsIn(b, budgets, prefix, dims, est, now, i)
                            && (forall j :: 0 <= j < i ==> FitsIn(b, budgets, prefix, dims, est, now, j)) ==>
                  r == Denied(i, 0) && forall k :: Used(w'.books, k) == Used(b, k))
  {
    LinesShort(budgets, prefix, dims, est, now, 0);
    if i :| 0 <= i < |budgets| && !FitsIn(b, budgets, prefix, dims, est, now, i)
            && (forall j :: 0 <= j < i ==> FitsIn(b, budgets, prefix, dims, est, now, j)) {
      hide *;
      DeniedAt(b, budgets, prefix, dims, est, now, ids, failOpen, i);
    } else {
      if forall i :: 0 <= i < |budgets| ==> FitsIn(b, budgets, prefix, dims, est, now, i) {
        GrantedAll(b, budgets, prefix, dims, est, now, ids, failOpen);
      }
    }
  }

  // ---- Settling ---------------------------------------------------------------------------------

  /**
   A settle over a store that answers, whatever happened in between as long as the request's holds are there:
   the counter of each budget then holds what was spent, in its unit, in place of what was reserved. A budget of
   which nothing was reserved is not charged for the spend either, and no other counter moves.
   */
  lemma SettleSpends(w: World, budgets: seq<Budget>, prefix: string, dims: Dims, est: Spend, now: nat, id: string, actual: Spend)
    requires Named(budgets) && w.net == []
    requires var lines := Lines(budgets, prefix, dims, est, now, 0);
             Unsettled(w.books, id, lines) && forall j :: 0 <= j < |lines| ==> lines[j].amount <= Used(w.books, lines[j].key)
    ensures var w' := SettleLines(w, budgets, id, Lines(budgets, prefix, dims, est, now, 0), actual).0;
            && (forall i :: 0 <= i < |budgets| ==>
                  var k := Key(budgets[i], prefix, dims, now);
                  Used(w'.books, k) == Used(w.books, k)
                                       + if InUnit(budgets[i], est) == 0 then 0 else InUnit(budgets[i], actual) - InUnit(budgets[i], est))
            && (forall k :: (forall i :: 0 <= i < |budgets| ==> Key(budgets[i], prefix, dims, now) != k) ==>
                  Used(w'.books, k) == Used(w.books, k))
  {
    var lines := Lines(budgets, prefix, dims, est, now, 0);
    LinesDistinct(budgets, prefix, dims, est, now, 0);
    hide Lines, Key, SettleLines, Used, SettleMarker, Moved, InUnit;
    forall i | 0 <= i < |budgets|
      ensures Moved([], budgets, lines, actual, Key(budgets[i], prefix, dims, now))
              == if InUnit(budgets[i], est) == 0 then 0 else InUnit(budgets[i], actual) - InUnit(budgets[i], est)
      ensures var k := Key(budgets[i], prefix, dims, now);
              Used(SettleLines(w, budgets, id, lines, actual).0.books, k) == Used(w.books, k) + Moved([], budgets, lines, actual, k)
    {
      SettleExact(w, budgets, id, lines, actual, Key(budgets[i], prefix, dims, now));
      MovedFor(budgets, prefix, dims, est, now, actual, i);
    }
    forall k | forall i :: 0 <= i < |budgets| ==> Key(budgets[i], prefix, dims, now) != k
      ensures Used(SettleLines(w, budgets, id, lines, actual).0.books, k) == Used(w.books, k)
    {
      SettleExact(w, budgets, id, lines, actual, k);
      MovedElsewhere(budgets, prefix, dims, est, now, actual, k);
    }
  }

  lemma MovedElsewhere(budgets: seq<Budget>, prefix: string, dims: Dims, est: Spend, now: nat, actual: Spend, k: string)
    requires Windowed(budgets) && forall i :: 0 <= i < |budgets| ==> Key(budgets[i], prefix, dims, now) != k
    ensures Moved([], budgets, Lines(budgets, prefix, dims, est, now, 0), actual, k) == 0
  {
    var lines := Lines(budgets, prefix, dims, est, now, 0);
    LinesExact(budgets, prefix, dims, est, now);
    hide Lines, Key, Moved;
    forall j | 0 <= j < |lines| ensures lines[j].key != k {
      assert lines[j] in lines;
    }
    NotMoved(budgets, lines, actual, k);
  }

  lemma MovedFor(budgets: seq<Budget>, prefix: string, dims: Dims, est: Spend, now: nat, actual: Spend, i: nat)
    requires Named(budgets) && i < |budgets|
    ensures Moved([], budgets, Lines(budgets, prefix, dims, est, now, 0), actual, Key(budgets[i], prefix, dims, now))
            == if InUnit(budgets[i], est) == 0 then 0 else InUnit(budgets[i], actual) - InUnit(budgets[i], est)
  {
    hide Lines, Key, ReserveLines, SettleLines, Used, FitsIn, InUnit, SettleMarker, Fresh, Moved, Total, Delta, AllAdmitted, Unsettled;
    var lines := Lines(budgets, prefix, dims, est, now, 0);
    if InUnit(budgets[i], est) == 0 {
      var k := Key(budgets[i], prefix, dims, now);
      forall j | 0 <= j < |lines| ensures lines[j].key != k {
        NoLineFor(budgets, prefix, dims, est, now, i, lines[j]);
      }
      NotMoved(budgets, lines, actual, k);
    } else {
      LinesDistinct(budgets, prefix, dims, est, now, 0);
      var n := LineFor(budgets, prefix, dims, est, now, i);
      SettledToActual(budgets, lines, actual, n);
      DeltaInUnit(budgets, lines[n], actual);
    }
  }

  lemma DeltaInUnit(budgets: seq<Budget>, line: Line, actual: Spend)
    requires line.index < |budgets|
    ensures Delta(budgets, line, actual) == InUnit(budgets[line.index], actual) - line.amount
  {
  }

  lemma NoLineFor(budgets: seq<Budget>, prefix: string, dims: Dims, est: Spend, now: nat, i: nat, line: Line)
    requires Named(budgets) && i < |budgets| && InUnit(budgets[i], est) == 0 && line in Lines(budgets, prefix, dims, est, now, 0)
    ensures line.key != Key(budgets[i], prefix, dims, now)
  {
    LineMembers(budgets, prefix, dims, est, now, 0);
    hide Lines, Key;
    KeysApart(budgets, prefix, dims, now, line.index, i);
  }

  /**
   A request's whole life over a store that answers: if it fits, its reserve and then its settle leave on the
   counter of each budget of which something was asked what was spent, in its unit, and nothing else.
   */
  lemma ReserveThenSettle(
    b: Books, budgets: seq<Budget>, prefix: string, dims: Dims, est: Spend, now: nat, ids: seq<string>, failOpen: bool, actual: Spend)
    requires Named(budgets) && |budgets| < |ids| && Fresh(b, ids)
    requires forall i :: 0 <= i < |budgets| ==> FitsIn(b, budgets, prefix, dims, est, now, i)
    ensures var lines := Lines(budgets, prefix, dims, est, now, 0);
            && |lines| <= |budgets|
            && var w1 := ReserveLines(World(b, []), budgets, [], lines, ids, failOpen).0;
            var w2 := SettleLines(World(w1.books, []), budgets, ids[0], lines, actual).0;
            forall i :: 0 <= i < |budgets| ==>
              var k := Key(budgets[i], prefix, dims, now);
              Used(w2.books, k) == Used(b, k) + if InUnit(budgets[i], est) == 0 then 0 else InUnit(budgets[i], actual)
  {
    hide Lines, Key, ReserveLines, SettleLines, Used, FitsIn, InUnit, SettleMarker, Fresh, Moved, Total, Delta, AllAdmitted, Unsettled;
    LinesShort(budgets, prefix, dims, est, now, 0);
    GrantedAll(b, budgets, prefix, dims, est, now, ids, failOpen);
    GrantCharges(World(b, []), budgets, prefix, dims, est, now, ids, failOpen);
    GrantHolds(b, budgets, prefix, dims, est, now, ids, failOpen);
    var lines := Lines(budgets, prefix, dims, est, now, 0);
    var w1 := ReserveLines(World(b, []), budgets, [], lines, ids, failOpen).0;
    SettleSpends(World(w1.books, []), budgets, prefix, dims, est, now, ids[0], actual);
  }

  /** After a grant the holds are on their counters, and not settled. */
  lemma GrantHolds(b: Books, budgets: seq<Budget>, prefix: string, dims: Dims, est: Spend, now: nat, ids: seq<string>, failOpen: bool)
    requires Named(budgets) && |Lines(budgets, prefix, dims, est, now, 0)| < |ids| && Fresh(b, ids)
    requires forall i :: 0 <= i < |budgets| ==> FitsIn(b, budgets, prefix, dims, est, now, i)
    ensures var lines := Lines(budgets, prefix, dims, est, now, 0);
            var books := ReserveLines(World(b, []), budgets, [], lines, ids, failOpen).0.books;
            Unsettled(books, ids[0], lines) && forall j :: 0 <= j < |lines| ==> lines[j].amount <= Used(books, lines[j].key)
  {
    hide Lines, Key, ReserveLines, SettleLines, Used, FitsIn, InUnit, SettleMarker, Fresh, Moved, Total, Delta, AllAdmitted, Unsettled;
    var lines, w := Lines(budgets, prefix, dims, est, now, 0), World(b, []);
    GrantedAll(b, budgets, prefix, dims, est, now, ids, failOpen);
    AllOrNothing(w, budgets, lines, ids, failOpen);
    GrantMeansAdmitted(w, budgets, lines);
    GrantUnsettled(w, budgets, [], lines, ids, failOpen);
    var books := ReserveLines(w, budgets, [], lines, ids, failOpen).0.books;
    FreshUnsettled(b, books, ids, lines);
    LinesDistinct(budgets, prefix, dims, est, now, 0);
    forall j | 0 <= j < |lines| ensures lines[j].amount <= Used(books, lines[j].key) {
      TotalAt(lines, j);
    }
  }

  lemma GrantMeansAdmitted(w: World, budgets: seq<Budget>, lines: seq<Line>)
    requires forall i :: 0 <= i < |lines| ==> lines[i].index < |budgets|
    ensures lines == [] ==> AllAdmitted(w, budgets, lines)
  {
  }

  lemma FreshUnsettled(b: Books, b': Books, ids: seq<string>, lines: seq<Line>)
    requires ids != [] && Fresh(b, ids) && b'.settled == b.settled
    ensures Unsettled(b', ids[0], lines)
  {
    hide SettleMarker, RollbackMarker, Uuid;
  }

  /** A reserve that is granted sets no marker. */
  lemma {:induction false} GrantUnsettled(w: World, budgets: seq<Budget>, held: seq<Line>, todo: seq<Line>, ids: seq<string>, failOpen: bool)
    requires |held| + |todo| < |ids| && (forall i :: 0 <= i < |todo| ==> todo[i].index < |budgets|)
    requires AllAdmitted(w, budgets, todo)
    ensures ReserveLines(w, budgets, held, todo, ids, failOpen).0.books.settled == w.books.settled
    decreases |todo|
  {
    if todo != [] {
      GrantUnsettled(TryReserve(w, todo[0].key, todo[0].amount, budgets[todo[0].index].limit).0, budgets, held + [todo[0]], todo[1..], ids, failOpen);
    }
  }
}
