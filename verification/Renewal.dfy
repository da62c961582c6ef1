/**
 Certificate renewal in `src/certstore.rs`: the two-thirds rule, the renewal window a CA may suggest (ARI,
 section 4.2 of RFC 9773) with its cache, and the loop that checks, attempts and backs off. What the CA
 answers, how an attempt ends, the certificate found on disk and the jitter come from outside.
 */
module Renewal {
  import opened Wrappers
  import opened Bytes
  import opened Der

  const CHECK_EVERY: nat := 3600
  const CHECK_JITTER: nat := 600
  const MAX_BACKOFF: nat := 43200
  const ARI_MIN_RECHECK: nat := 3600
  const ARI_MAX_RECHECK: nat := 86400
  const U32_MAX: nat := 0xffff_ffff

  // ---- When a renewal is due --------------------------------------------------------------------

  /** The time at which two thirds of a positive lifetime have passed. */
  function TwoThirds(info: CertInfo): int {
    info.notBefore + (info.notAfter - info.notBefore) / 3 * 2
  }

  predicate RenewalDue(info: CertInfo, now: int) {
    info.notAfter <= info.notBefore || now >= TwoThirds(info)
  }

  /** Exclusive or, bit by bit. */
  function Xor(a: nat, b: nat): nat {
    if a == 0 && b == 0 then 0 else 2 * Xor(a / 2, b / 2) + (a + b) % 2
  }

  /** One round of the FNV-1a hash in 64 bits: the byte changes the low end, and the product wraps around. */
  function FnvRound(hash: nat, b: byte): (r: nat)
    ensures r < 0x1_0000_0000_0000_0000
  {
    (hash - hash % 256 + Xor(hash % 256, b)) * 0x0000_0100_0000_01b3 % 0x1_0000_0000_0000_0000
  }

  /** The FNV-1a hash of an ASCII text. */
  function Fnv(serial: string): (r: nat)
    ensures r < 0x1_0000_0000_0000_0000
  {
    if serial == "" then 0xcbf2_9ce4_8422_2325
    else FnvRound(Fnv(serial[..|serial| - 1]), serial[|serial| - 1] as int % 256)
  }

  /** The point of the CA's window at which a certificate renews. */
  function AriRenewAt(start: int, end: int, serial: string): (at: int)
    ensures start <= at <= if end <= start then start else end
  {
    if end <= start then start
    else start + Fnv(serial) % (end - start + 1)
  }

  /**
   In seconds: a lifetime is rounded down to a multiple of three, and the certificate is due once two thirds of
   that have passed, or when it has no positive lifetime.
   */
  predicate LifeSpent(info: CertInfo, now: int) {
    var life := info.notAfter - info.notBefore;
    life <= 0 || 3 * (now - info.notBefore) >= 2 * (life - life % 3)
  }

  /** So it is due by two thirds of its life, and not before four thirds of a second earlier. */
  lemma DueInSeconds(info: CertInfo, now: int)
    ensures RenewalDue(info, now) <==> LifeSpent(info, now)
    ensures var life, age := info.notAfter - info.notBefore, now - info.notBefore;
            life > 0 ==> (3 * age >= 2 * life ==> RenewalDue(info, now)) && (3 * age < 2 * life - 4 ==> !RenewalDue(info, now))
  {
  }

  /** A window's points are hit in turn by the hash of the serial number. */
  lemma AriPointExact(start: int, end: int, serial: string, at: int)
    requires start <= at <= end && start < end
    ensures AriRenewAt(start, end, serial) == at <==> (Fnv(serial) - (at - start)) % (end - start + 1) == 0
  {
    hide Fnv;
    OneRemainder(Fnv(serial), end - start + 1, at - start);
  }

  lemma OneRemainder(hash: nat, span: nat, rest: nat)
    requires rest < span
    ensures (hash - rest) % span == 0 <==> hash % span == rest
  {
    var d := (hash - rest) / span - hash / span;
    assert (hash - rest) == (hash - rest) / span * span + (hash - rest) % span && hash == hash / span * span + hash % span;
    assert d * span == (hash - rest) / span * span - hash / span * span;
    assert d >= 1 ==> d * span >= span;
    assert d <= -1 ==> d * span <= 0 - span;
  }

  lemma {:induction false} XorBack(a: nat, b: nat)
    ensures Xor(Xor(a, b), b) == a && Xor(Xor(a, b), a) == b
    decreases a + b
  {
    if a != 0 || b != 0 {
      hide Xor;
      XorBack(a / 2, b / 2);
      var x, y := Xor(a, b), Xor(a / 2, b / 2);
      XorStep(a, b);
      XorStep(x, a);
      XorStep(x, b);
      Halves(x, y, a, b);
    }
  }

  lemma XorStep(a: nat, b: nat)
    ensures Xor(a, b) == 2 * Xor(a / 2, b / 2) + (a + b) % 2
  {
  }

  lemma Halves(x: nat, y: nat, a: nat, b: nat)
    requires x == 2 * y + (a + b) % 2
    ensures x / 2 == y && (x + b) % 2 == a % 2 && (x + a) % 2 == b % 2
  {
  }

  lemma {:induction false} XorBelow(a: nat, b: nat, n: nat)
    requires a < Power2(n) && b < Power2(n)
    ensures Xor(a, b) < Power2(n)
    decreases n
  {
    if n > 0 {
      XorBelow(a / 2, b / 2, n - 1);
    }
  }

  lemma XorBytes(a: byte, b: byte)
    ensures Xor(a, b) < 256
  {
    assert Power2(8) == 256;
    XorBelow(a, b, 8);
  }

  /** Multiplying by the prime can be undone: it is odd. */
  lemma PrimeInjective(x: nat, y: nat)
    requires x < 0x1_0000_0000_0000_0000 && y < 0x1_0000_0000_0000_0000
    requires x * 0x0000_0100_0000_01b3 % 0x1_0000_0000_0000_0000 == y * 0x0000_0100_0000_01b3 % 0x1_0000_0000_0000_0000
    ensures x == y
  {
    var k := x * 0x0000_0100_0000_01b3 / 0x1_0000_0000_0000_0000 - y * 0x0000_0100_0000_01b3 / 0x1_0000_0000_0000_0000;
    assert (x - y) * 0x0000_0100_0000_01b3 == k * 0x1_0000_0000_0000_0000;
    assert x - y == (k * 0xce965057aff6957b - (x - y) * 0xce9650590f) * 0x1_0000_0000_0000_0000;
  }

  /** A round loses nothing: from its result and either argument the other can be told. */
  lemma RoundInjective(g: nat, a: byte, h: nat, b: byte)
    requires g < 0x1_0000_0000_0000_0000 && h < 0x1_0000_0000_0000_0000 && FnvRound(g, a) == FnvRound(h, b)
    ensures g == h <==> a == b
  {
    hide *;
    var p, q := g % 256, h % 256;
    var x, y := Xor(p, a), Xor(q, b);
    XorBytes(p, a);
    XorBytes(q, b);
    LowByte(g, x);
    LowByte(h, y);
    RoundMeans(g, a);
    RoundMeans(h, b);
    PrimeInjective(g - p + x, h - q + y);
    XorBack(p, a);
    XorBack(q, b);
  }

  lemma RoundMeans(hash: nat, b: byte)
    ensures FnvRound(hash, b) == (hash - hash % 256 + Xor(hash % 256, b)) * 0x0000_0100_0000_01b3 % 0x1_0000_0000_0000_0000
  {
    hide Xor;
  }

  lemma LowByte(hash: nat, low: nat)
    requires hash < 0x1_0000_0000_0000_0000 && low < 256
    ensures 0 <= hash - hash % 256 && hash - hash % 256 + low < 0x1_0000_0000_0000_0000
    ensures (hash - hash % 256 + low) % 256 == low
  {
  }

  /** Serial numbers that differ in one place have different hashes. */
  lemma {:induction false} OneDigitApart(a: string, b: string, i: nat)
    requires |a| == |b| && i < |a| && a[i] as int % 256 != b[i] as int % 256
    requires forall j :: 0 <= j < |a| && j != i ==> a[j] == b[j]
    ensures Fnv(a) != Fnv(b)
    decreases |a|
  {
    var n := |a| - 1;
    var x, y := a[..n], b[..n];
    hide FnvRound;
    if i == n {
      assert x == y;
    } else {
      OneDigitApart(x, y, i);
    }
    if Fnv(a) == Fnv(b) {
      RoundInjective(Fnv(x), a[n] as int % 256, Fnv(y), b[n] as int % 256);
    }
  }

  lemma FnvMore(serial: string, c: char)
    requires c as int < 256
    ensures Fnv(serial + [c]) == FnvRound(Fnv(serial), c as int)
  {
    hide FnvRound;
    assert (serial + [c])[..|serial|] == serial;
  }

  lemma RoundGives(hash: nat, b: byte, low: nat, after: nat)
    requires Xor(hash % 256, b) == low
    requires (hash - hash % 256 + low) * 0x0000_0100_0000_01b3 % 0x1_0000_0000_0000_0000 == after
    ensures FnvRound(hash, b) == after
  {
    hide Xor;
  }

  lemma OneXor()
    ensures Xor(0x25, 97) == 0x44
  {
    assert Xor(0, 0) == 0;
    hide Xor;
    XorStep(0, 1);
    XorStep(1, 3);
    XorStep(2, 6);
    XorStep(4, 12);
    XorStep(9, 24);
    XorStep(18, 48);
    XorStep(0x25, 97);
  }

  /** Published values of the hash, of the empty text and of `a`. */
  lemma FnvVectors(empty: string, a: string)
    requires empty == "" && a == empty + ['a']
    ensures Fnv(empty) == 0xcbf2_9ce4_8422_2325 && Fnv(a) == 0xaf63_dc4c_8601_ec8c
  {
    OneXor();
    FnvMore(empty, 'a');
    assert Fnv(empty) == 0xcbf2_9ce4_8422_2325;
    hide *;
    OneProduct();
    RoundGives(0xcbf2_9ce4_8422_2325, 97, 0x44, 0xaf63_dc4c_8601_ec8c);
  }

  lemma OneProduct()
    ensures 0xcbf2_9ce4_8422_2325 % 256 == 0x25
    ensures (0xcbf2_9ce4_8422_2325 - 0x25 + 0x44) * 0x0000_0100_0000_01b3 % 0x1_0000_0000_0000_0000 == 0xaf63_dc4c_8601_ec8c
  {
  }

  /** What the CA says about a certificate. */
  datatype Answer = Window(start: int, end: int, retryAfter: nat) | NoWindow | Unreachable

  datatype AriCache = AriCache(serial: string, renewAt: Option<int>, refetchAt: int)

  /** The cached answer, if it is about this certificate. */
  function Previous(cache: Option<AriCache>, info: CertInfo): Option<AriCache> {
    if cache.Some? && cache.value.serial == info.serial then cache else None
  }

  predicate Stands(cache: Option<AriCache>, info: CertInfo, now: int) {
    Previous(cache, info).Some? && now < cache.value.refetchAt
  }

  function Recheck(retryAfter: nat): nat {
    if retryAfter < ARI_MIN_RECHECK then ARI_MIN_RECHECK
    else if retryAfter > ARI_MAX_RECHECK then ARI_MAX_RECHECK
    else retryAfter
  }

  /** The cache after asking. */
  function Refreshed(cache: Option<AriCache>, info: CertInfo, now: int, answer: Answer): AriCache {
    var previous := Previous(cache, info);
    var renewAt := match answer
      case Window(start, end, _) => Some(AriRenewAt(start, end, info.serial))
      case NoWindow => None
      case Unreachable => if previous.Some? then previous.value.renewAt else None;
    var wait := match answer
      case Window(_, _, retryAfter) => retryAfter
      case NoWindow => ARI_MAX_RECHECK
      case Unreachable => ARI_MIN_RECHECK;
    AriCache(info.serial, renewAt, now + Recheck(wait))
  }

  // ---- One check --------------------------------------------------------------------------------

  datatype Plan = Acme | SelfSigned | NoPlan

  datatype Config = Config(plan: Plan, ari: bool)

  datatype Issuance = Issued | PutOff | Failing

  datatype Check = NotDue | Renewed | Deferred | Unrenewable | Failed

  /** What a round of the loop meets: the served certificate, the CA, an attempt if one is made, the jitter. */
  datatype Event = Event(info: CertInfo, answer: Answer, issuance: Issuance, jitter: nat)

  datatype State = State(failures: nat, cache: Option<AriCache>)

  predicate UsesAri(cfg: Config, info: CertInfo) {
    cfg.plan == Acme && cfg.ari && info.ariId.Some?
  }

  predicate Asks(cfg: Config, cache: Option<AriCache>, info: CertInfo, now: int) {
    UsesAri(cfg, info) && !Stands(cache, info, now)
  }

  function CacheAfter(cfg: Config, cache: Option<AriCache>, e: Event, now: int): Option<AriCache> {
    if Asks(cfg, cache, e.info, now) then Some(Refreshed(cache, e.info, now, e.answer)) else cache
  }

  predicate AriDue(cfg: Config, cache: Option<AriCache>, e: Event, now: int) {
    && UsesAri(cfg, e.info)
    && var c := CacheAfter(cfg, cache, e, now);
    && c.Some? && c.value.renewAt.Some? && now >= c.value.renewAt.value
  }

  function Attempted(cfg: Config, e: Event): Check {
    match cfg.plan
    case Acme => (match e.issuance case Issued => Renewed case PutOff => Deferred case Failing => Failed)
    case SelfSigned =>
      if !e.info.selfIssued then Unrenewable else if e.issuance == Issued then Renewed else Failed
    case NoPlan => Unrenewable
  }

  function CheckOf(cfg: Config, cache: Option<AriCache>, e: Event, now: int): Check {
    if RenewalDue(e.info, now) || AriDue(cfg, cache, e, now) then Attempted(cfg, e) else NotDue
  }

  // ---- The loop ---------------------------------------------------------------------------------

  function Power2(n: nat): nat {
    if n == 0 then 1 else 2 * Power2(n - 1)
  }

  function Backoff(failures: nat): nat {
    var doublings := if failures == 0 then 0 else if failures - 1 < 16 then failures - 1 else 16;
    var wait := 300 * Power2(doublings);
    if wait < MAX_BACKOFF then wait else MAX_BACKOFF
  }

  function NextWait(failures: nat, jitter: nat): nat {
    if failures == 0 then CHECK_EVERY + jitter else Backoff(failures)
  }

  function FailuresAfter(failures: nat, check: Check): nat {
    match check
    case NotDue => 0
    case Renewed => 0
    case Unrenewable => failures
    case _ => if failures < U32_MAX then failures + 1 else U32_MAX
  }

  function Round(cfg: Config, s: State, e: Event, now: int): State {
    State(FailuresAfter(s.failures, CheckOf(cfg, s.cache, e, now)), CacheAfter(cfg, s.cache, e, now))
  }

  function NextAt(cfg: Config, s: State, e: Event, now: int): int {
    now + NextWait(Round(cfg, s, e, now).failures, e.jitter)
  }

  datatype Entry = Entry(at: int, check: Check, asked: bool)

  /** What the loop does, round by round, from a first check at `now`. */
  function Trace(cfg: Config, s: State, now: int, events: seq<Event>): (r: seq<Entry>)
    ensures |r| == |events|
    decreases |events|
  {
    if events == [] then []
    else
      var e := events[0];
      [Entry(now, CheckOf(cfg, s.cache, e, now), Asks(cfg, s.cache, e.info, now))]
      + Trace(cfg, Round(cfg, s, e, now), NextAt(cfg, s, e, now), events[1..])
  }

  /** When the check after the last of these rounds is due. */
  function EndTime(cfg: Config, s: State, now: int, events: seq<Event>): int
    decreases |events|
  {
    if events == [] then now else EndTime(cfg, Round(cfg, s, events[0], now), NextAt(cfg, s, events[0], now), events[1..])
  }

  class Maintainer {
    const cfg: Config
    var failures: nat
    var cache: Option<AriCache>

    function Value(): State
      reads this
    {
      State(failures, cache)
    }

    constructor (cfg: Config)
      ensures this.cfg == cfg && Value() == State(0, None)
    {
      this.cfg := cfg;
      failures := 0;
      cache := None;
    }

    method AriWindow(info: CertInfo, now: int, answer: Answer) returns (at: Option<int>, asked: bool)
      modifies this`cache
      ensures asked <==> info.ariId.Some? && !Stands(old(cache), info, now)
      ensures cache == if asked then Some(Refreshed(old(cache), info, now, answer)) else old(cache)
      ensures at == if info.ariId == None then None else cache.value.renewAt
    {
      if info.ariId == None {
        return None, false;
      }
      var previous := Previous(cache, info);
      if previous.Some? && now < previous.value.refetchAt {
        return previous.value.renewAt, false;
      }
      var wait: nat;
      match answer {
        case Window(start, end, retryAfter) =>
          at, wait := Some(AriRenewAt(start, end, info.serial)), retryAfter;
        case NoWindow =>
          at, wait := None, ARI_MAX_RECHECK;
        case Unreachable =>
          at, wait := if previous.Some? then previous.value.renewAt else None, ARI_MIN_RECHECK;
      }
      cache := Some(AriCache(info.serial, at, now + Recheck(wait)));
      asked := true;
    }

    method Check(e: Event, now: int) returns (check: Check, asked: bool)
      modifies this`cache
      ensures check == CheckOf(cfg, old(cache), e, now)
      ensures cache == CacheAfter(cfg, old(cache), e, now)
      ensures asked == Asks(cfg, old(cache), e.info, now)
    {
      var twoThirds := RenewalDue(e.info, now);
      var ariAt: Option<int> := None;
      asked := false;
      if cfg.plan == Acme && cfg.ari {
        ariAt, asked := AriWindow(e.info, now, e.answer);
      }
      var ariDue := ariAt.Some? && now >= ariAt.value;
      if !twoThirds && !ariDue {
        return NotDue, asked;
      }
      match cfg.plan {
        case Acme =>
          check := match e.issuance case Issued => Renewed case PutOff => Deferred case Failing => Failed;
        case SelfSigned =>
          if !e.info.selfIssued {
            return Unrenewable, asked;
          }
          check := if e.issuance == Issued then Renewed else Failed;
        case NoPlan =>
          check := Unrenewable;
      }
    }

    method Maintain(start: int, events: seq<Event>) returns (log: seq<Entry>)
      modifies this
      ensures log == Trace(cfg, old(Value()), start, events)
    {
      hide CheckOf, CacheAfter, Asks, NextWait, Trace;
      var now := start;
      log := [];
      assert events[0..] == events;
      for i := 0 to |events|
        invariant log + Trace(cfg, Value(), now, events[i..]) == Trace(cfg, old(Value()), start, events)
      {
        var e := events[i];
        ghost var s, t := Value(), now;
        var check, asked := Check(e, now);
        log := log + [Entry(now, check, asked)];
        match check {
          case NotDue =>
            failures := 0;
          case Renewed =>
            failures := 0;
          case Unrenewable =>
          case _ =>
            failures := if failures < U32_MAX then failures + 1 else U32_MAX;
        }
        now := now + NextWait(failures, e.jitter);
        TraceStep(cfg, s, t, events[i..]);
        assert events[i..][1..] == events[i + 1..];
      }
    }
  }

  lemma TraceStep(cfg: Config, s: State, now: int, events: seq<Event>)
    requires events != []
    ensures var e := events[0];
            Trace(cfg, s, now, events)
            == [Entry(now, CheckOf(cfg, s.cache, e, now), Asks(cfg, s.cache, e.info, now))]
               + Trace(cfg, Round(cfg, s, e, now), NextAt(cfg, s, e, now), events[1..])
  {
  }

  // ---- The pace of the loop ---------------------------------------------------------------------

  lemma {:induction false} Power2Grows(m: nat, n: nat)
    requires m <= n
    ensures 1 <= Power2(m) <= Power2(n)
    decreases n
  {
    if m < n {
      Power2Grows(m, n - 1);
    } else if n > 0 {
      Power2Grows(n - 1, n - 1);
    }
  }

  /** Five minutes, doubling with each failure, and twelve hours from the ninth on. */
  lemma BackoffExact(failures: nat)
    requires failures > 0
    ensures Backoff(failures) == if failures <= 8 then 300 * Power2(failures - 1) else 43200
  {
    assert Power2(7) == 128 && Power2(8) == 256;
    if failures <= 8 {
      Power2Grows(failures - 1, 7);
    } else {
      Power2Grows(8, if failures - 1 < 16 then failures - 1 else 16);
    }
  }

  predicate Jittered(events: seq<Event>) {
    forall i :: 0 <= i < |events| ==> events[i].jitter < CHECK_JITTER
  }

  lemma WaitBounded(failures: nat, jitter: nat)
    requires jitter < CHECK_JITTER
    ensures 300 <= NextWait(failures, jitter) <= 43200
    ensures failures == 0 ==> 3600 <= NextWait(failures, jitter) < 4200
  {
    Power2Grows(0, if failures == 0 then 0 else if failures - 1 < 16 then failures - 1 else 16);
  }

  /** Whatever happens, checks are between five minutes and twelve hours apart, and an hour or a little more when all is well. */
  lemma {:induction false} ChecksPaced(cfg: Config, s: State, now: int, events: seq<Event>, k: nat)
    requires Jittered(events) && k + 1 < |events|
    ensures var log := Trace(cfg, s, now, events);
            && 300 <= log[k + 1].at - log[k].at <= 43200
            && (log[k].check == NotDue || log[k].check == Renewed ==> 3600 <= log[k + 1].at - log[k].at < 4200)
    decreases |events|
  {
    var e := events[0];
    var s', next := Round(cfg, s, e, now), NextAt(cfg, s, e, now);
    WaitBounded(s'.failures, e.jitter);
    TraceStep(cfg, s, now, events);
    TraceStep(cfg, s', next, events[1..]);
    hide Trace, Round, CheckOf, Asks, NextWait;
    if k > 0 {
      assert Jittered(events[1..]);
      ChecksPaced(cfg, s', next, events[1..], k - 1);
    }
  }

  /** An attempt that did not renew. */
  predicate Tried(check: Check) {
    check == Deferred || check == Failed
  }

  lemma FailuresFit(cfg: Config, s: State, e: Event, now: int)
    requires s.failures <= U32_MAX
    ensures Round(cfg, s, e, now).failures <= U32_MAX
  {
    hide CheckOf, CacheAfter;
  }

  /** While attempts fail, the waits are those of the failures so far. */
  lemma {:induction false} GapAfter(cfg: Config, s: State, now: int, events: seq<Event>, n: nat)
    requires 0 < n < |events| && s.failures <= U32_MAX
    requires forall i :: 0 <= i < n ==> Tried(Trace(cfg, s, now, events)[i].check)
    ensures var log := Trace(cfg, s, now, events);
            log[n].at - log[n - 1].at == Backoff(if s.failures + n < U32_MAX then s.failures + n else U32_MAX)
    decreases |events|
  {
    var e := events[0];
    var s', next := Round(cfg, s, e, now), NextAt(cfg, s, e, now);
    TraceStep(cfg, s, now, events);
    TraceStep(cfg, s', next, events[1..]);
    var log, later := Trace(cfg, s, now, events), Trace(cfg, s', next, events[1..]);
    assert Tried(log[0].check);
    hide Trace, CheckOf, Asks, CacheAfter, Backoff;
    if n > 1 {
      forall i | 0 <= i < n - 1 ensures Tried(later[i].check) {
        assert later[i] == log[i + 1];
      }
      GapAfter(cfg, s', next, events[1..], n - 1);
    }
  }

  /**
   In every run: when `n` attempts have failed since a check at which all was well, the next check comes after
   five minutes doubled `n - 1` times, and after twelve hours from the ninth on.
   */
  lemma {:induction false} RetriesPaced(cfg: Config, s: State, now: int, events: seq<Event>, j: nat, n: nat)
    requires 0 < n && j + n + 1 < |events| && s.failures <= U32_MAX
    requires var log := Trace(cfg, s, now, events);
             && (log[j].check == NotDue || log[j].check == Renewed)
             && forall i :: j < i <= j + n ==> Tried(log[i].check)
    ensures var log := Trace(cfg, s, now, events);
            log[j + n + 1].at - log[j + n].at == if n <= 8 then 300 * Power2(n - 1) else 43200
    decreases |events|
  {
    var e := events[0];
    var s', next := Round(cfg, s, e, now), NextAt(cfg, s, e, now);
    TraceStep(cfg, s, now, events);
    var log, later := Trace(cfg, s, now, events), Trace(cfg, s', next, events[1..]);
    FailuresFit(cfg, s, e, now);
    assert log == [log[0]] + later;
    assert j == 0 ==> s'.failures == 0;
    hide *;
    forall i | j <= i < j + n ensures Tried(later[i].check) {
      assert later[i] == log[i + 1];
    }
    assert later[j + n] == log[j + n + 1] && later[j + n - 1] == log[j + n];
    if j == 0 {
      GapAfter(cfg, s', next, events[1..], n);
      BackoffExact(if n < U32_MAX then n else U32_MAX);
    } else {
      assert later[j - 1] == log[j];
      RetriesPaced(cfg, s', next, events[1..], j - 1, n);
    }
  }

  // ---- Never starved ----------------------------------------------------------------------------

  /** Attempts made at or after `from` and before `until`. */
  function Attempts(log: seq<Entry>, from: int, until: int): nat {
    if log == [] then 0
    else (if from <= log[0].at < until && Tried(log[0].check) then 1 else 0) + Attempts(log[1..], from, until)
  }

  /** The process can renew this certificate, and keeps failing to. */
  predicate KeepsFailing(cfg: Config, info: CertInfo, events: seq<Event>) {
    && (cfg.plan == Acme || (cfg.plan == SelfSigned && info.selfIssued))
    && forall i :: 0 <= i < |events| ==> events[i].info == info && events[i].issuance != Issued
  }

  lemma DueIsTried(cfg: Config, s: State, e: Event, now: int)
    requires KeepsFailing(cfg, e.info, [e]) && RenewalDue(e.info, now)
    ensures Tried(CheckOf(cfg, s.cache, e, now))
  {
    assert [e][0] == e;
  }

  lemma AttemptsStep(cfg: Config, s: State, now: int, events: seq<Event>, from: int, until: int)
    requires events != []
    ensures var e := events[0];
            Attempts(Trace(cfg, s, now, events), from, until)
            == (if from <= now < until && Tried(CheckOf(cfg, s.cache, e, now)) then 1 else 0)
               + Attempts(Trace(cfg, Round(cfg, s, e, now), NextAt(cfg, s, e, now), events[1..]), from, until)
  {
    TraceStep(cfg, s, now, events);
    hide Trace, CheckOf, Asks, Round, NextAt;
  }

  /** Once due, there is an attempt at least every twelve hours. */
  lemma {:induction false} TriedWhenDue(cfg: Config, s: State, now: int, events: seq<Event>, info: CertInfo)
    requires KeepsFailing(cfg, info, events) && Jittered(events)
    requires RenewalDue(info, now) && EndTime(cfg, s, now, events) >= info.notAfter
    ensures Attempts(Trace(cfg, s, now, events), TwoThirds(info), info.notAfter) * MAX_BACKOFF >= info.notAfter - now
            || info.notAfter <= info.notBefore
    decreases |events|
  {
    hide Trace, CheckOf, NextWait, Attempts;
    if info.notBefore < info.notAfter && events != [] && now < info.notAfter {
      var e := events[0];
      var s', next := Round(cfg, s, e, now), NextAt(cfg, s, e, now);
      assert e == events[0] && KeepsFailing(cfg, info, [e]);
      DueIsTried(cfg, s, e, now);
      WaitBounded(s'.failures, e.jitter);
      AttemptsStep(cfg, s, now, events, TwoThirds(info), info.notAfter);
      hide Round;
      assert KeepsFailing(cfg, info, events[1..]) && Jittered(events[1..]);
      TriedWhenDue(cfg, s', next, events[1..], info);
    }
  }

  /**
   For every history of CA answers and failures: a loop running when two thirds of the life have passed makes at
   least as many attempts in what is left, which is a third, as that has whole spans of twelve hours.
   */
  lemma {:induction false} NeverStarved(cfg: Config, s: State, now: int, events: seq<Event>, info: CertInfo)
    requires KeepsFailing(cfg, info, events) && Jittered(events) && info.notBefore < info.notAfter
    requires var third := (info.notAfter - info.notBefore) / 3;
             now <= info.notBefore + 2 * third && EndTime(cfg, s, now, events) >= info.notAfter
    ensures var third := (info.notAfter - info.notBefore) / 3;
            Attempts(Trace(cfg, s, now, events), info.notBefore + 2 * third, info.notAfter) >= third / 43200
    decreases |events|
  {
    if now == TwoThirds(info) {
      TriedWhenDue(cfg, s, now, events, info);
    } else {
      hide Trace, CheckOf, NextWait, Attempts;
      var e := events[0];
      var s', next := Round(cfg, s, e, now), NextAt(cfg, s, e, now);
      WaitBounded(s'.failures, e.jitter);
      AttemptsStep(cfg, s, now, events, TwoThirds(info), info.notAfter);
      hide Round;
      assert KeepsFailing(cfg, info, events[1..]) && Jittered(events[1..]);
      if next <= TwoThirds(info) {
        NeverStarved(cfg, s', next, events[1..], info);
      } else {
        TriedWhenDue(cfg, s', next, events[1..], info);
      }
    }
  }

  // ---- The CA's window --------------------------------------------------------------------------

  /** One past round: what it met, and whether the CA was asked in it. */
  datatype Past = Past(e: Event, asked: bool)

  /**
   The point the CA has last given for a certificate, read off the past alone: the latest answer counts, an
   unreachable CA leaves the one before it standing, and asking about another certificate ends it.
   */
  function LastPoint(past: seq<Past>, serial: string): Option<int> {
    if past == [] then None
    else
      var before, last := past[..|past| - 1], past[|past| - 1];
      if !last.asked then LastPoint(before, serial)
      else if last.e.info.serial != serial then None
      else match last.e.answer
        case Window(start, end, _) => Some(AriRenewAt(start, end, serial))
        case NoWindow => None
        case Unreachable => LastPoint(before, serial)
  }

  /** The cache holds the last point of every certificate. */
  ghost predicate Recalls(cache: Option<AriCache>, past: seq<Past>) {
    forall serial :: PointIn(cache, serial) == LastPoint(past, serial)
  }

  function PointIn(cache: Option<AriCache>, serial: string): Option<int> {
    if cache.Some? && cache.value.serial == serial then cache.value.renewAt else None
  }

  lemma CacheRecalls(cfg: Config, cache: Option<AriCache>, past: seq<Past>, e: Event, now: int)
    requires Recalls(cache, past)
    ensures Recalls(CacheAfter(cfg, cache, e, now), past + [Past(e, Asks(cfg, cache, e.info, now))])
  {
    var last := Past(e, Asks(cfg, cache, e.info, now));
    var c, all := CacheAfter(cfg, cache, e, now), past + [last];
    assert all[..|past|] == past && all[|past|] == last;
    forall serial ensures PointIn(c, serial) == LastPoint(all, serial) {
      assert PointIn(cache, serial) == LastPoint(past, serial);
    }
  }

  predicate Reaches(point: Option<int>, at: int) {
    point.Some? && at >= point.value
  }

  /** The rounds up to and including `k`, as the log has them. */
  function PastOf(log: seq<Entry>, events: seq<Event>, k: nat): (past: seq<Past>)
    requires k < |log| == |events|
    ensures |past| == k + 1
  {
    seq(k + 1, i requires 0 <= i <= k => Past(events[i], log[i].asked))
  }

  /** When the loop attempts: past two thirds of the life, or past the point the CA last gave. */
  predicate Due(cfg: Config, past: seq<Past>, e: Event, at: int) {
    LifeSpent(e.info, at) || (UsesAri(cfg, e.info) && Reaches(LastPoint(past, e.info.serial), at))
  }

  lemma CheckExact(cfg: Config, cache: Option<AriCache>, past: seq<Past>, e: Event, now: int)
    requires Recalls(cache, past)
    ensures CheckOf(cfg, cache, e, now)
            == if Due(cfg, past + [Past(e, Asks(cfg, cache, e.info, now))], e, now) then Attempted(cfg, e) else NotDue
  {
    CacheRecalls(cfg, cache, past, e, now);
    var all := past + [Past(e, Asks(cfg, cache, e.info, now))];
    assert PointIn(CacheAfter(cfg, cache, e, now), e.info.serial) == LastPoint(all, e.info.serial);
    if UsesAri(cfg, e.info) {
      assert CacheAfter(cfg, cache, e, now).value.serial == e.info.serial;
    }
    DueInSeconds(e.info, now);
    hide LastPoint, RenewalDue, LifeSpent, Attempted;
  }

  /** The log from a later start, seen with the rounds before it. */
  lemma {:induction false} AttemptsFrom(cfg: Config, s: State, now: int, past: seq<Past>, events: seq<Event>, k: nat)
    requires Recalls(s.cache, past) && k < |events|
    ensures var log := Trace(cfg, s, now, events);
            log[k].check == if Due(cfg, past + PastOf(log, events, k), events[k], log[k].at) then Attempted(cfg, events[k]) else NotDue
    decreases |events|
  {
    var e := events[0];
    var first := Past(e, Asks(cfg, s.cache, e.info, now));
    var s', next := Round(cfg, s, e, now), NextAt(cfg, s, e, now);
    TraceStep(cfg, s, now, events);
    var log, later := Trace(cfg, s, now, events), Trace(cfg, s', next, events[1..]);
    hide Trace, Due, Attempted, NextAt;
    if k == 0 {
      CheckExact(cfg, s.cache, past, e, now);
      assert PastOf(log, events, 0) == [first];
    } else {
      CacheRecalls(cfg, s.cache, past, e, now);
      hide CheckOf, Asks, CacheAfter;
      AttemptsFrom(cfg, s', next, past + [first], events[1..], k - 1);
      assert events[1..][k - 1] == events[k] && log[k] == later[k - 1];
      PastShifts(log, events, later, first, k);
      assert past + [first] + PastOf(later, events[1..], k - 1) == past + PastOf(log, events, k);
    }
  }

  lemma PastShifts(log: seq<Entry>, events: seq<Event>, later: seq<Entry>, first: Past, k: nat)
    requires 0 < k < |log| == |events| && later == log[1..] && first == Past(events[0], log[0].asked)
    ensures PastOf(log, events, k) == [first] + PastOf(later, events[1..], k - 1)
  {
  }

  /** The process may replace this certificate: by one of the CA's, or a self-signed one by another. */
  predicate Renews(cfg: Config, info: CertInfo) {
    cfg.plan == Acme || (cfg.plan == SelfSigned && info.selfIssued)
  }

  /**
   In every run from a fresh start, a check attempts exactly when the certificate is past two thirds of its
   life or past the point in the window the CA last gave for it, and may be replaced; and what comes of the
   attempt is what the check reports.
   */
  lemma AttemptExact(cfg: Config, failures: nat, now: int, events: seq<Event>, k: nat)
    requires k < |events|
    ensures var log := Trace(cfg, State(failures, None), now, events);
            var e, due := events[k], Due(cfg, PastOf(log, events, k), events[k], log[k].at);
            match log[k].check
            case NotDue => !due
            case Renewed => due && Renews(cfg, e.info) && e.issuance == Issued
            case Deferred => due && cfg.plan == Acme && e.issuance == PutOff
            case Failed => due && Renews(cfg, e.info) && e.issuance != Issued && (cfg.plan == Acme ==> e.issuance == Failing)
            case Unrenewable => due && !Renews(cfg, e.info)
  {
    assert Recalls(None, []);
    var s := State(failures, None);
    AttemptsFrom(cfg, s, now, [], events, k);
    var log := Trace(cfg, s, now, events);
    assert [] + PastOf(log, events, k) == PastOf(log, events, k);
  }

  /** Round `j` asked about this certificate and got a window with `at` in it. */
  predicate Offered(p: Past, serial: string, at: int) {
    && p.asked && p.e.answer.Window? && p.e.info.serial == serial
    && p.e.answer.start <= at <= if p.e.answer.end <= p.e.answer.start then p.e.answer.start else p.e.answer.end
  }

  /** Since round `j` the CA was asked about nothing else, and was not reached. */
  predicate OnlyUnreachable(past: seq<Past>, serial: string, j: nat) {
    forall i :: j < i < |past| && past[i].asked ==> past[i].e.info.serial == serial && past[i].e.answer == Unreachable
  }

  /** The last point lies in the latest window that the CA, when asked, gave for the certificate. */
  lemma {:induction false} LastPointOffered(past: seq<Past>, serial: string) returns (j: nat)
    requires LastPoint(past, serial).Some?
    ensures j < |past| && Offered(past[j], serial, LastPoint(past, serial).value) && OnlyUnreachable(past, serial, j)
    decreases |past|
  {
    var before, last := past[..|past| - 1], past[|past| - 1];
    if last.asked && last.e.answer.Window? {
      j := |past| - 1;
    } else {
      j := LastPointOffered(before, serial);
      assert forall i :: 0 <= i < |before| ==> before[i] == past[i];
    }
  }

  /** So an attempt before two thirds of the life is inside or after the latest window given for the certificate. */
  lemma NoEarlyRenewal(cfg: Config, failures: nat, now: int, events: seq<Event>, k: nat) returns (j: nat)
    requires k < |events|
    ensures var log := Trace(cfg, State(failures, None), now, events);
            var past := PastOf(log, events, k);
            log[k].check != NotDue && !LifeSpent(events[k].info, log[k].at) ==>
              && j <= k && log[j].asked && events[j].answer.Window? && events[j].info.serial == events[k].info.serial
              && events[j].answer.start <= log[k].at && OnlyUnreachable(past, events[k].info.serial, j)
  {
    AttemptExact(cfg, failures, now, events, k);
    var log := Trace(cfg, State(failures, None), now, events);
    hide Trace;
    var past := PastOf(log, events, k);
    j := 0;
    if log[k].check != NotDue && !LifeSpent(events[k].info, log[k].at) {
      j := LastPointOffered(past, events[k].info.serial);
    }
  }

  // ---- How often the CA is asked ----------------------------------------------------------------

  predicate SameSerial(events: seq<Event>, serial: string) {
    forall i :: 0 <= i < |events| ==> events[i].info.serial == serial
  }

  /** While one certificate is served, the CA is not asked before the cached answer runs out. */
  lemma {:induction false} NotAskedBefore(cfg: Config, s: State, now: int, events: seq<Event>, serial: string, until: int, k: nat)
    requires SameSerial(events, serial) && k < |events|
    requires s.cache.Some? && s.cache.value.serial == serial && s.cache.value.refetchAt >= until
    ensures var entry := Trace(cfg, s, now, events)[k];
            entry.asked ==> entry.at >= until
    decreases |events|, 0
  {
    var e := events[0];
    TraceStep(cfg, s, now, events);
    hide Trace, CheckOf, NextWait;
    assert e.info.serial == serial;
    if k > 0 {
      assert SameSerial(events[1..], serial);
      if Asks(cfg, s.cache, e.info, now) {
        LaterEntries(cfg, Round(cfg, s, e, now), NextAt(cfg, s, e, now), events[1..], k - 1);
      } else {
        NotAskedBefore(cfg, Round(cfg, s, e, now), NextAt(cfg, s, e, now), events[1..], serial, until, k - 1);
      }
    }
  }

  lemma {:induction false} LaterEntries(cfg: Config, s: State, now: int, events: seq<Event>, k: nat)
    requires k < |events|
    ensures Trace(cfg, s, now, events)[k].at >= now
    decreases |events|, 1
  {
    TraceStep(cfg, s, now, events);
    hide Trace, CheckOf, NextWait, Asks, CacheAfter;
    if k > 0 {
      LaterEntries(cfg, Round(cfg, s, events[0], now), NextAt(cfg, s, events[0], now), events[1..], k - 1);
    }
  }

  /** So two questions about one certificate are at least an hour apart. */
  lemma {:induction false} AsksHourly(cfg: Config, s: State, now: int, events: seq<Event>, serial: string, j: nat, k: nat)
    requires SameSerial(events, serial) && j < k < |events|
    ensures var log := Trace(cfg, s, now, events);
            log[j].asked && log[k].asked ==> log[k].at >= log[j].at + 3600
    decreases |events|
  {
    var e := events[0];
    var s', next := Round(cfg, s, e, now), NextAt(cfg, s, e, now);
    TraceStep(cfg, s, now, events);
    hide Trace, CheckOf, NextWait;
    assert e.info.serial == serial && SameSerial(events[1..], serial);
    if j > 0 {
      AsksHourly(cfg, s', next, events[1..], serial, j - 1, k - 1);
    } else if Asks(cfg, s.cache, e.info, now) {
      NotAskedBefore(cfg, s', next, events[1..], serial, now + ARI_MIN_RECHECK, k - 1);
    }
  }

  /** How long an answer stands: as long as the CA says, but an hour at least and a day at most. */
  function AnswerStands(answer: Answer): nat {
    match answer
    case Window(_, _, retryAfter) => if retryAfter < 3600 then 3600 else if retryAfter > 86400 then 86400 else retryAfter
    case NoWindow => 86400
    case Unreachable => 3600
  }

  predicate AllUseAri(cfg: Config, events: seq<Event>) {
    forall i :: 0 <= i < |events| ==> UsesAri(cfg, events[i].info)
  }

  lemma {:induction false} AsksWhenRunOut(cfg: Config, s: State, now: int, events: seq<Event>, serial: string, k: nat)
    requires SameSerial(events, serial) && AllUseAri(cfg, events) && k < |events|
    requires s.cache.Some? && s.cache.value.serial == serial
    requires forall i :: 0 <= i < k ==> !Trace(cfg, s, now, events)[i].asked
    ensures var entry := Trace(cfg, s, now, events)[k];
            entry.asked <==> entry.at >= s.cache.value.refetchAt
    decreases |events|
  {
    var e := events[0];
    var s', next := Round(cfg, s, e, now), NextAt(cfg, s, e, now);
    TraceStep(cfg, s, now, events);
    var log, later := Trace(cfg, s, now, events), Trace(cfg, s', next, events[1..]);
    assert e.info.serial == serial && UsesAri(cfg, e.info);
    hide Trace, CheckOf, NextWait, UsesAri;
    if k > 0 {
      assert !log[0].asked && s'.cache == s.cache;
      forall i | 0 <= i < k - 1 ensures !later[i].asked {
        assert later[i] == log[i + 1];
      }
      assert SameSerial(events[1..], serial) && AllUseAri(cfg, events[1..]);
      AsksWhenRunOut(cfg, s', next, events[1..], serial, k - 1);
    }
  }

  /**
   In every run of one certificate that the CA can be asked about: after it was asked, the next check that asks is
   the first one at which the answer no longer stands.
   */
  lemma {:induction false} AsksExact(cfg: Config, s: State, now: int, events: seq<Event>, serial: string, j: nat, k: nat)
    requires SameSerial(events, serial) && AllUseAri(cfg, events) && j < k < |events|
    requires var log := Trace(cfg, s, now, events);
             log[j].asked && forall i :: j < i < k ==> !log[i].asked
    ensures var log := Trace(cfg, s, now, events);
            log[k].asked <==> log[k].at >= log[j].at + AnswerStands(events[j].answer)
    decreases |events|
  {
    var e := events[0];
    var s', next := Round(cfg, s, e, now), NextAt(cfg, s, e, now);
    TraceStep(cfg, s, now, events);
    var log, later := Trace(cfg, s, now, events), Trace(cfg, s', next, events[1..]);
    assert e.info.serial == serial;
    assert SameSerial(events[1..], serial) && AllUseAri(cfg, events[1..]) by { hide UsesAri; }
    hide Trace, CheckOf, NextWait, UsesAri;
    if j > 0 {
      forall i | j - 1 < i < k - 1 ensures !later[i].asked {
        assert later[i] == log[i + 1];
      }
      AsksExact(cfg, s', next, events[1..], serial, j - 1, k - 1);
    } else {
      assert s'.cache == Some(Refreshed(s.cache, e.info, now, e.answer));
      assert s'.cache.value.refetchAt == now + AnswerStands(e.answer);
      forall i | 0 <= i < k - 1 ensures !later[i].asked {
        assert later[i] == log[i + 1];
      }
      AsksWhenRunOut(cfg, s', next, events[1..], serial, k - 1);
    }
  }
}
