/**
 The two stores behind `src/budget.rs`: the in-process maps, and the Redis keyspace the two Lua scripts
 run against. Each script is one atomic step; the clock is a parameter.

 Whatever the order of calls and however time passes, both answer alike: expiry, saturation, the floor at
 zero and the settle markers included.
 */
module BudgetStore {
  import opened Wrappers
  import opened BudgetKeys

  const U64_MAX: nat := 0xFFFF_FFFF_FFFF_FFFF
  const I64_SPAN: nat := 0x1_0000_0000_0000_0000
  const I64_MAX: nat := 0x7FFF_FFFF_FFFF_FFFF

  /** Integers a Lua number represents exactly. */
  const LUA_EXACT: nat := 0x20_0000_0000_0000

  const MARKER_TTL_MS: nat := 300_000

  function SaturatingAdd(a: nat, b: nat): nat {
    if a + b > U64_MAX then U64_MAX else a + b
  }

  /** Two's complement wrap-around into 64 bits. */
  function WrapI64(x: int): int {
    (x + I64_MAX + 1) % I64_SPAN - I64_MAX - 1
  }

  function Max(a: int, b: int): int {
    if a > b then a else b
  }

  predicate WouldReserve(used: nat, amount: nat, limit: nat) {
    SaturatingAdd(used, amount) <= limit
  }

  datatype Outcome = Outcome(admitted: bool, usedAfter: nat)

  // ---- In process -------------------------------------------------------------------------------

  datatype Counter = Counter(value: nat, expires: int)

  datatype Memory = Memory(used: map<string, Counter>, settled: map<string, int>)

  function LiveCounters(used: map<string, Counter>, now: int): map<string, Counter> {
    map k | k in used && used[k].expires > now :: used[k]
  }

  function LiveMarkers(settled: map<string, int>, now: int): map<string, int> {
    map k | k in settled && settled[k] > now :: settled[k]
  }

  function ValueOf(used: map<string, Counter>, key: string): nat {
    if key in used then used[key].value else 0
  }

  function MemoryReserve(s: Memory, key: string, amount: nat, limit: nat, ttl: nat, now: int): (Memory, Outcome) {
    var live := LiveCounters(s.used, now);
    var used := ValueOf(live, key);
    if WouldReserve(used, amount, limit) then
      var after := SaturatingAdd(used, amount);
      (s.(used := live[key := Counter(after, now + ttl)]), Outcome(true, after))
    else (s.(used := live), Outcome(false, used))
  }

  function MemoryReconcile(s: Memory, key: string, delta: int, ttl: nat, marker: string, now: int): Memory {
    var seen := LiveMarkers(s.settled, now);
    if marker in seen then s.(settled := seen)
    else
      var live := LiveCounters(s.used, now);
      var next := Max(WrapI64(WrapI64(ValueOf(live, key)) + delta), 0);
      Memory(live[key := Counter(next, now + ttl)], seen[marker := now + MARKER_TTL_MS])
  }

  class MemoryStore {
    var used: map<string, Counter>
    var settled: map<string, int>

    function Value(): Memory
      reads this
    {
      Memory(used, settled)
    }

    constructor ()
      ensures Value() == Memory(map[], map[])
    {
      used, settled := map[], map[];
    }

    method Reserve(key: string, amount: nat, limit: nat, ttl: nat, now: int) returns (outcome: Outcome)
      modifies this
      ensures (Value(), outcome) == MemoryReserve(old(Value()), key, amount, limit, ttl, now)
    {
      var expires := now + ttl;
      used := LiveCounters(used, now);
      var before := ValueOf(used, key);
      if WouldReserve(before, amount, limit) {
        var after := SaturatingAdd(before, amount);
        used := used[key := Counter(after, expires)];
        outcome := Outcome(true, after);
      } else {
        outcome := Outcome(false, before);
      }
    }

    method Reconcile(key: string, delta: int, ttl: nat, marker: string, now: int)
      modifies this
      ensures Value() == MemoryReconcile(old(Value()), key, delta, ttl, marker, now)
    {
      settled := LiveMarkers(settled, now);
      if marker in settled {
        return;
      }
      settled := settled[marker := now + MARKER_TTL_MS];
      var expires := now + ttl;
      used := LiveCounters(used, now);
      var before := WrapI64(ValueOf(used, key));
      var next := Max(WrapI64(before + delta), 0);
      used := used[key := Counter(next, expires)];
    }
  }

  /** A counter that was changed is there until its time to live is over, and is then gone; a refusal changes nothing. */
  lemma CounterLives(s: Memory, key: string, amount: nat, limit: nat, ttl: nat, now: int, later: int)
    requires now <= later
    ensures var (s1, o) := MemoryReserve(s, key, amount, limit, ttl, now);
            var seen := ValueOf(LiveCounters(s1.used, later), key);
            if o.admitted then seen == (if later < now + ttl then o.usedAfter else 0)
            else s1.used == LiveCounters(s.used, now) && s1.settled == s.settled
  {
  }

  /** A settle delivered again within five minutes changes no counter, and after that it counts as a new one. */
  lemma RepeatExact(s: Memory, key: string, delta: int, ttl: nat, marker: string, now: int, later: int, again: int)
    requires now <= later && !(marker in s.settled && s.settled[marker] > now)
    ensures var s1 := MemoryReconcile(s, key, delta, ttl, marker, now);
            var s2 := MemoryReconcile(s1, key, again, ttl, marker, later);
            && (later < now + 300_000 ==> s2.used == s1.used)
            && (later >= now + 300_000 ==>
                  key in s2.used
                  && s2.used[key].value == Max(WrapI64(WrapI64(ValueOf(LiveCounters(s1.used, later), key)) + again), 0))
  {
    hide WrapI64;
  }

  /** The time to live the engine gives a counter, in milliseconds: two windows, as far as 64 bits go. */
  function TtlMs(windowSecs: nat): nat {
    var twice := if windowSecs * 2_000 > U64_MAX then U64_MAX else windowSecs * 2_000;
    if twice < 1 then 1 else twice
  }

  /** So a counter that is charged in a window is there for the rest of it. */
  lemma CounterOutlivesWindow(s: Memory, key: string, amount: nat, limit: nat, windowSecs: nat, now: nat, later: nat)
    requires 0 < windowSecs && windowSecs * 1_000 <= U64_MAX
    requires now <= later && now / 1_000 / windowSecs == later / 1_000 / windowSecs
    ensures var (s1, o) := MemoryReserve(s, key, amount, limit, TtlMs(windowSecs), now);
            o.admitted ==> ValueOf(LiveCounters(s1.used, later), key) == o.usedAfter
  {
    SameWindowNear(now / 1_000, later / 1_000, windowSecs);
    CounterLives(s, key, amount, limit, TtlMs(windowSecs), now, later);
  }

  lemma SameWindowNear(a: nat, b: nat, w: nat)
    requires 0 < w && a / w == b / w
    ensures b - a < w
  {
    assert a == a / w * w + a % w && b == b / w * w + b % w;
  }

  // ---- Redis ------------------------------------------------------------------------------------

  /** One keyspace for counters and markers; a key without an expiry never goes away. */
  datatype Entry = Entry(value: int, expires: Option<int>)

  predicate Alive(e: Entry, now: int) {
    e.expires.Some? ==> e.expires.value > now
  }

  function RedisGet(db: map<string, Entry>, key: string, now: int): int {
    if key in db && Alive(db[key], now) then db[key].value else 0
  }

  /** `INCRBY` keeps the expiry a key has, and starts from nothing when it is gone. */
  function RedisIncrBy(db: map<string, Entry>, key: string, add: int, now: int): map<string, Entry> {
    if key in db && Alive(db[key], now) then db[key := Entry(db[key].value + add, db[key].expires)]
    else db[key := Entry(add, None)]
  }

  function RedisSet(db: map<string, Entry>, key: string, value: int): map<string, Entry> {
    db[key := Entry(value, None)]
  }

  function RedisPExpire(db: map<string, Entry>, key: string, ttl: nat, now: int): map<string, Entry> {
    if key in db && Alive(db[key], now) then db[key := Entry(db[key].value, Some(now + ttl))] else db
  }

  /** `RESERVE_LUA`. */
  function LuaReserve(db: map<string, Entry>, key: string, amount: nat, limit: nat, ttl: nat, now: int): (map<string, Entry>, Outcome) {
    var used := RedisGet(db, key, now);
    if used + amount > limit then (db, Outcome(false, Max(used, 0)))
    else
      var db1 := RedisIncrBy(db, key, amount, now);
      var newv := RedisGet(db1, key, now);
      (RedisPExpire(db1, key, ttl, now), Outcome(true, Max(newv, 0)))
  }

  /** `RECONCILE_LUA`. */
  function LuaReconcile(db: map<string, Entry>, key: string, delta: int, ttl: nat, marker: string, now: int): map<string, Entry> {
    if marker in db && Alive(db[marker], now) then db
    else
      var db1 := db[marker := Entry(1, Some(now + MARKER_TTL_MS))];
      var db2 := RedisIncrBy(db1, key, delta, now);
      var db3 := if RedisGet(db2, key, now) < 0 then RedisSet(db2, key, 0) else db2;
      RedisPExpire(db3, key, ttl, now)
  }

  // ---- They agree -------------------------------------------------------------------------------

  /** At `now` the two hold the same counters and the same markers. */
  ghost predicate Alike(mem: Memory, db: map<string, Entry>, now: int) {
    && (forall k :: k in mem.used ==> !IsMarker(k))
    && (forall k :: k in mem.settled ==> IsMarker(k))
    && (forall k :: !IsMarker(k) ==>
          if k in mem.used && mem.used[k].expires > now
          then k in db && db[k] == Entry(mem.used[k].value, Some(mem.used[k].expires))
          else k !in db || !Alive(db[k], now))
    && (forall k :: IsMarker(k) ==>
          if k in mem.settled && mem.settled[k] > now
          then k in db && db[k] == Entry(1, Some(mem.settled[k]))
          else k !in db || !Alive(db[k], now))
  }

  datatype Call =
    | ReserveCall(key: string, amount: nat, limit: nat, ttl: nat)
    | ReconcileCall(key: string, delta: int, ttl: nat, marker: string)

  /** The keys are spelled as the engine spells them, and the arithmetic stays where both number types are exact. */
  ghost predicate InRange(c: Call, mem: Memory, now: int) {
    && !IsMarker(c.key) && c.ttl > 0
    && var used := ValueOf(LiveCounters(mem.used, now), c.key);
    match c
    case ReserveCall(_, amount, limit, _) => used + amount <= LUA_EXACT && limit <= LUA_EXACT
    case ReconcileCall(_, delta, _, marker) => IsMarker(marker) && used <= LUA_EXACT && -(LUA_EXACT as int) <= delta <= LUA_EXACT
  }

  function MemoryCall(s: Memory, c: Call, now: int): (Memory, Option<Outcome>) {
    match c
    case ReserveCall(key, amount, limit, ttl) =>
      var (s', o) := MemoryReserve(s, key, amount, limit, ttl, now); (s', Some(o))
    case ReconcileCall(key, delta, ttl, marker) =>
      (MemoryReconcile(s, key, delta, ttl, marker, now), None)
  }

  function LuaCall(db: map<string, Entry>, c: Call, now: int): (map<string, Entry>, Option<Outcome>) {
    match c
    case ReserveCall(key, amount, limit, ttl) =>
      var (db', o) := LuaReserve(db, key, amount, limit, ttl, now); (db', Some(o))
    case ReconcileCall(key, delta, ttl, marker) =>
      (LuaReconcile(db, key, delta, ttl, marker, now), None)
  }

  lemma AlikeLater(mem: Memory, db: map<string, Entry>, now: int, later: int)
    requires Alike(mem, db, now) && now <= later
    ensures Alike(mem, db, later)
  {
    hide IsMarker;
  }

  lemma SameValue(mem: Memory, db: map<string, Entry>, key: string, now: int)
    requires Alike(mem, db, now) && !IsMarker(key)
    ensures RedisGet(db, key, now) == ValueOf(LiveCounters(mem.used, now), key)
  {
    hide IsMarker;
  }

  /** Dropping what has expired, and writing one counter, on both sides. */
  lemma WriteCounterAlike(mem: Memory, db: map<string, Entry>, key: string, value: nat, expires: int, now: int)
    requires Alike(mem, db, now) && !IsMarker(key) && expires > now
    ensures Alike(mem.(used := LiveCounters(mem.used, now)[key := Counter(value, expires)]),
                  db[key := Entry(value, Some(expires))], now)
  {
    hide IsMarker;
  }

  lemma PruneAlike(mem: Memory, db: map<string, Entry>, now: int)
    requires Alike(mem, db, now)
    ensures Alike(mem.(used := LiveCounters(mem.used, now)), db, now)
    ensures Alike(mem.(settled := LiveMarkers(mem.settled, now)), db, now)
  {
    hide IsMarker;
  }

  lemma WriteMarkerAlike(mem: Memory, db: map<string, Entry>, marker: string, expires: int, now: int)
    requires Alike(mem, db, now) && IsMarker(marker) && expires > now
    ensures Alike(mem.(settled := LiveMarkers(mem.settled, now)[marker := expires]),
                  db[marker := Entry(1, Some(expires))], now)
  {
    hide IsMarker;
  }

  lemma SameMarker(mem: Memory, db: map<string, Entry>, marker: string, now: int)
    requires Alike(mem, db, now) && IsMarker(marker)
    ensures marker in LiveMarkers(mem.settled, now) <==> marker in db && Alive(db[marker], now)
  {
    hide IsMarker;
  }

  /** What an admitting script leaves behind, in one write. */
  lemma LuaReserveWrites(db: map<string, Entry>, key: string, amount: nat, limit: nat, ttl: nat, now: int)
    ensures var used := RedisGet(db, key, now);
            LuaReserve(db, key, amount, limit, ttl, now)
            == if used + amount > limit then (db, Outcome(false, Max(used, 0)))
               else (db[key := Entry(used + amount, Some(now + ttl))], Outcome(true, Max(used + amount, 0)))
  {
    var db1 := RedisIncrBy(db, key, amount, now);
    LastWriteWins(db, key, db1[key], Entry(db1[key].value, Some(now + ttl)));
  }

  lemma LuaReconcileWrites(db: map<string, Entry>, key: string, delta: int, ttl: nat, marker: string, now: int)
    requires key != marker && !(marker in db && Alive(db[marker], now))
    ensures LuaReconcile(db, key, delta, ttl, marker, now)
            == db[marker := Entry(1, Some(now + MARKER_TTL_MS))]
                 [key := Entry(Max(RedisGet(db, key, now) + delta, 0), Some(now + ttl))]
  {
    var db1 := db[marker := Entry(1, Some(now + MARKER_TTL_MS))];
    var db2 := RedisIncrBy(db1, key, delta, now);
    assert RedisGet(db2, key, now) == RedisGet(db, key, now) + delta;
    LastWriteWins(db1, key, db2[key], Entry(0, None));
    LastWriteWins(db1, key, Entry(0, None), Entry(0, Some(now + ttl)));
    LastWriteWins(db1, key, db2[key], Entry(db2[key].value, Some(now + ttl)));
  }

  lemma LastWriteWins(db: map<string, Entry>, key: string, a: Entry, b: Entry)
    ensures db[key := a][key := b] == db[key := b]
  {}

  lemma ReserveAlike(mem: Memory, db: map<string, Entry>, key: string, amount: nat, limit: nat, ttl: nat, now: int)
    requires Alike(mem, db, now) && InRange(ReserveCall(key, amount, limit, ttl), mem, now)
    ensures var (mem', o) := MemoryReserve(mem, key, amount, limit, ttl, now);
            var (db', p) := LuaReserve(db, key, amount, limit, ttl, now);
            o == p && Alike(mem', db', now)
  {
    hide Alike, IsMarker, LuaReserve, LiveCounters, RedisGet;
    SameValue(mem, db, key, now);
    LuaReserveWrites(db, key, amount, limit, ttl, now);
    PruneAlike(mem, db, now);
    var used := ValueOf(LiveCounters(mem.used, now), key);
    WriteCounterAlike(mem, db, key, used + amount, now + ttl, now);
  }

  lemma WrapInRange(x: int)
    requires -(I64_MAX as int) <= x <= I64_MAX
    ensures WrapI64(x) == x
  {}

  lemma ReconcileAlike(mem: Memory, db: map<string, Entry>, key: string, delta: int, ttl: nat, marker: string, now: int)
    requires Alike(mem, db, now) && InRange(ReconcileCall(key, delta, ttl, marker), mem, now)
    ensures Alike(MemoryReconcile(mem, key, delta, ttl, marker, now), LuaReconcile(db, key, delta, ttl, marker, now), now)
  {
    hide Alike, IsMarker, LiveCounters, RedisGet, LiveMarkers, RedisIncrBy, RedisPExpire, WrapI64;
    SameValue(mem, db, key, now);
    SameMarker(mem, db, marker, now);
    PruneAlike(mem, db, now);
    if marker !in LiveMarkers(mem.settled, now) {
      var used := ValueOf(LiveCounters(mem.used, now), key);
      WrapInRange(used);
      WrapInRange(used + delta);
      LuaReconcileWrites(db, key, delta, ttl, marker, now);
      WriteMarkerAlike(mem, db, marker, now + MARKER_TTL_MS, now);
      WriteCounterAlike(
        mem.(settled := LiveMarkers(mem.settled, now)[marker := now + MARKER_TTL_MS]),
        db[marker := Entry(1, Some(now + MARKER_TTL_MS))],
        key, Max(used + delta, 0), now + ttl, now);
    }
  }

  /** One call with its time. */
  datatype Timed = Timed(call: Call, at: int)

  /** The answers a run of calls gets. */
  function MemoryAnswers(s: Memory, calls: seq<Timed>): seq<Option<Outcome>>
    decreases |calls|
  {
    if calls == [] then []
    else
      var (s', o) := MemoryCall(s, calls[0].call, calls[0].at);
      [o] + MemoryAnswers(s', calls[1..])
  }

  function LuaAnswers(db: map<string, Entry>, calls: seq<Timed>): seq<Option<Outcome>>
    decreases |calls|
  {
    if calls == [] then []
    else
      var (db', o) := LuaCall(db, calls[0].call, calls[0].at);
      [o] + LuaAnswers(db', calls[1..])
  }

  /** Time never runs backwards, and every call is in range when it is made. */
  ghost predicate WellTimed(s: Memory, calls: seq<Timed>, now: int)
    decreases |calls|
  {
    calls == [] ||
    (now <= calls[0].at
     && InRange(calls[0].call, s, calls[0].at)
     && WellTimed(MemoryCall(s, calls[0].call, calls[0].at).0, calls[1..], calls[0].at))
  }

  /** Stores that are alike stay alike and answer alike through any run. */
  lemma {:induction false} AlikeAnswers(mem: Memory, db: map<string, Entry>, calls: seq<Timed>, now: int)
    requires Alike(mem, db, now) && WellTimed(mem, calls, now)
    ensures MemoryAnswers(mem, calls) == LuaAnswers(db, calls)
    decreases |calls|
  {
    hide IsMarker, Alike, InRange, MemoryReserve, MemoryReconcile, LuaReserve, LuaReconcile;
    if calls != [] {
      var at := calls[0].at;
      AlikeLater(mem, db, now, at);
      match calls[0].call {
        case ReserveCall(key, amount, limit, ttl) => ReserveAlike(mem, db, key, amount, limit, ttl, at);
        case ReconcileCall(key, delta, ttl, marker) => ReconcileAlike(mem, db, key, delta, ttl, marker, at);
      }
      AlikeAnswers(MemoryCall(mem, calls[0].call, at).0, LuaCall(db, calls[0].call, at).0, calls[1..], at);
    }
  }

  /** Started empty, the in-process store and the scripts answer every run of calls alike, under every clock. */
  lemma StoresAgree(calls: seq<Timed>, now: int)
    requires WellTimed(Memory(map[], map[]), calls, now)
    ensures MemoryAnswers(Memory(map[], map[]), calls) == LuaAnswers(map[], calls)
  {
    assert Alike(Memory(map[], map[]), map[], now);
    AlikeAnswers(Memory(map[], map[]), map[], calls, now);
  }
}
