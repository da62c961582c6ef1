/**
 The once-an-interval compare-and-swap that `src/csp_sink.rs` uses for pruning (10 s, in milliseconds) and
 `src/client_cert_header.rs` for a warning (60 s): any number of threads read a clock, load the stamp, and
 swap in their reading if enough time has passed and the stamp has not moved.
 */
module Throttle {

  const PRUNE_INTERVAL_MS: nat := 10_000
  const WARN_INTERVAL_SECS: nat := 60

  /** Where a thread is; `since` counts the stamps written when it loaded. */
  datatype Thread = Idle | Timed(now: int) | Loaded(now: int, last: int, since: nat)

  /** The stamp, every stamp a swap has written, and the threads. */
  datatype Sys = Sys(first: int, stamp: int, written: seq<int>, threads: map<nat, Thread>)

  datatype Step = ReadClock(thread: nat, now: int) | Load(thread: nat) | Swap(thread: nat)

  function At(s: Sys, t: nat): Thread {
    if t in s.threads then s.threads[t] else Idle
  }

  predicate Enabled(s: Sys, step: Step) {
    match step
    case ReadClock(t, _) => At(s, t) == Idle
    case Load(t) => At(s, t).Timed?
    case Swap(t) => At(s, t).Loaded?
  }

  function Put(s: Sys, t: nat, to: Thread): Sys {
    s.(threads := s.threads[t := to])
  }

  /** One step; a thread that finds too little time gone, or loses the swap, is done. */
  function After(s: Sys, step: Step, interval: nat): Sys
    requires Enabled(s, step)
  {
    match step
    case ReadClock(t, now) => Put(s, t, Timed(now))
    case Load(t) =>
      var now := At(s, t).now;
      if now - s.stamp < interval then Put(s, t, Idle) else Put(s, t, Loaded(now, s.stamp, |s.written|))
    case Swap(t) =>
      var me := At(s, t);
      if s.stamp == me.last then Put(s, t, Idle).(stamp := me.now, written := s.written + [me.now]) else Put(s, t, Idle)
  }

  /** The stamp after the first `n` swaps. */
  function StampAfter(s: Sys, n: nat): int
    requires n <= |s.written|
  {
    if n == 0 then s.first else s.written[n - 1]
  }

  predicate Spaced(s: Sys, interval: nat) {
    forall n :: 0 <= n < |s.written| ==> s.written[n] >= StampAfter(s, n) + interval
  }

  /** A loaded thread remembers the stamp of its moment, and enough time has passed since that stamp. */
  predicate Remembers(s: Sys, me: Thread, interval: nat) {
    me.Loaded? ==> me.since <= |s.written| && me.last == StampAfter(s, me.since) && me.now >= me.last + interval
  }

  predicate Inv(s: Sys, interval: nat) {
    && s.stamp == StampAfter(s, |s.written|)
    && Spaced(s, interval)
    && forall t :: t in s.threads ==> Remembers(s, s.threads[t], interval)
  }

  lemma StepKeepsInv(s: Sys, step: Step, interval: nat)
    requires Inv(s, interval) && Enabled(s, step)
    ensures Inv(After(s, step, interval), interval)
  {
    var s' := After(s, step, interval);
    if s'.written == s.written {
      forall t | t in s'.threads ensures Remembers(s', s'.threads[t], interval) {
        if t in s.threads {
          assert Remembers(s, s.threads[t], interval);
        }
      }
    } else {
      StampKeepsInv(s, step.thread, interval);
    }
  }

  lemma StampKeepsInv(s: Sys, t: nat, interval: nat)
    requires Inv(s, interval) && Enabled(s, Swap(t)) && s.stamp == At(s, t).last
    ensures Inv(After(s, Swap(t), interval), interval)
  {
    var me, s' := At(s, t), After(s, Swap(t), interval);
    assert Remembers(s, me, interval);
    assert s'.written == s.written + [me.now] && s'.first == s.first && s'.stamp == me.now;
    forall n | 0 <= n < |s'.written| ensures s'.written[n] >= StampAfter(s', n) + interval {
      SameStamp(s, s', n);
    }
    forall u | u in s'.threads ensures Remembers(s', s'.threads[u], interval) {
      if u in s.threads && s'.threads[u].Loaded? {
        assert Remembers(s, s.threads[u], interval);
        SameStamp(s, s', s.threads[u].since);
      }
    }
  }

  /** One more stamp changes none of the earlier ones. */
  lemma SameStamp(s: Sys, s': Sys, n: nat)
    requires n <= |s.written| < |s'.written| && s'.first == s.first && s'.written[..|s.written|] == s.written
    ensures StampAfter(s', n) == StampAfter(s, n)
  {
  }

  predicate Possible(s: Sys, steps: seq<Step>, interval: nat)
    decreases |steps|
  {
    steps == [] || (Enabled(s, steps[0]) && Possible(After(s, steps[0], interval), steps[1..], interval))
  }

  function RunOf(s: Sys, steps: seq<Step>, interval: nat): Sys
    requires Possible(s, steps, interval)
    decreases |steps|
  {
    if steps == [] then s else RunOf(After(s, steps[0], interval), steps[1..], interval)
  }

  lemma {:induction false} RunKeepsInv(s: Sys, steps: seq<Step>, interval: nat)
    requires Inv(s, interval) && Possible(s, steps, interval)
    ensures Inv(RunOf(s, steps, interval), interval)
    decreases |steps|
  {
    hide Inv, After, Enabled;
    if steps != [] {
      StepKeepsInv(s, steps[0], interval);
      RunKeepsInv(After(s, steps[0], interval), steps[1..], interval);
    }
  }

  /** Stamps are an interval apart each, so their number is bounded by the time that passed. */
  lemma {:induction false} StampsApart(s: Sys, interval: nat, m: nat, n: nat)
    requires Inv(s, interval) && m <= n <= |s.written|
    ensures StampAfter(s, n) >= StampAfter(s, m) + (n - m) * interval
    decreases n
  {
    if m < n {
      StampsApart(s, interval, m, n - 1);
      assert s.written[n - 1] >= StampAfter(s, n - 1) + interval;
      assert (n - m) * interval == (n - 1 - m) * interval + interval;
    }
  }

  /** Over every interleaving of any number of threads, whatever the clock does. */
  lemma ThrottledRun(first: int, steps: seq<Step>, interval: nat, m: nat, n: nat)
    requires Possible(Sys(first, first, [], map[]), steps, interval)
    requires m < n <= |RunOf(Sys(first, first, [], map[]), steps, interval).written|
    ensures var s := RunOf(Sys(first, first, [], map[]), steps, interval);
            StampAfter(s, n) >= StampAfter(s, m) + (n - m) * interval
  {
    var s0 := Sys(first, first, [], map[]);
    assert Inv(s0, interval);
    hide Inv, RunOf, Possible;
    RunKeepsInv(s0, steps, interval);
    StampsApart(RunOf(s0, steps, interval), interval, m, n);
  }

  /** Prunes are at least ten seconds apart; the sink's stamp starts at zero. */
  lemma PrunesSpaced(steps: seq<Step>, m: nat, n: nat)
    requires Possible(Sys(0, 0, [], map[]), steps, PRUNE_INTERVAL_MS)
    requires m < n <= |RunOf(Sys(0, 0, [], map[]), steps, PRUNE_INTERVAL_MS).written|
    ensures var s := RunOf(Sys(0, 0, [], map[]), steps, PRUNE_INTERVAL_MS);
            StampAfter(s, n) - StampAfter(s, m) >= (n - m) * 10_000
  {
    hide Possible, RunOf;
    ThrottledRun(0, steps, PRUNE_INTERVAL_MS, m, n);
  }

  /** Warnings are at least a minute apart. */
  lemma WarningsSpaced(steps: seq<Step>, m: nat, n: nat)
    requires Possible(Sys(0, 0, [], map[]), steps, WARN_INTERVAL_SECS)
    requires m < n <= |RunOf(Sys(0, 0, [], map[]), steps, WARN_INTERVAL_SECS).written|
    ensures var s := RunOf(Sys(0, 0, [], map[]), steps, WARN_INTERVAL_SECS);
            StampAfter(s, n) - StampAfter(s, m) >= (n - m) * 60
  {
    hide Possible, RunOf;
    ThrottledRun(0, steps, WARN_INTERVAL_SECS, m, n);
  }

  /** A thread that is not disturbed stamps its reading of the clock exactly when an interval has passed since the last stamp. */
  lemma OverdueStamps(s: Sys, t: nat, now: int, interval: nat)
    requires At(s, t) == Idle
    ensures var s2 := After(After(s, ReadClock(t, now), interval), Load(t), interval);
            if now - s.stamp >= interval
            then && Enabled(s2, Swap(t)) && s2.written == s.written
                 && var s3 := After(s2, Swap(t), interval);
                 s3.stamp == now && s3.written == s.written + [now] && At(s3, t) == Idle
            else s2.stamp == s.stamp && s2.written == s.written && At(s2, t) == Idle
  {
  }

  /** A swap succeeds exactly when no other did since the load: a lost race has a winner, and only then. */
  lemma SwapExact(s: Sys, t: nat, interval: nat)
    requires Inv(s, interval) && interval > 0 && At(s, t).Loaded?
    ensures After(s, Swap(t), interval).written != s.written <==> At(s, t).since == |s.written|
  {
    var me := At(s, t);
    assert Remembers(s, me, interval);
    StampsApart(s, interval, me.since, |s.written|);
    if me.since < |s.written| {
      Positive(|s.written| - me.since, interval);
    }
    assert |s.written + [me.now]| == |s.written| + 1;
  }

  lemma Positive(n: int, interval: nat)
    requires n > 0 && interval > 0
    ensures n * interval > 0
  {
  }
}
