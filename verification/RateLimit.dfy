/** Per-key token buckets with idle eviction (control-plane/internal/middleware/ratelimit.go). Time is
    integer nanoseconds: a bucket holds up to `burst * period` units, gains one unit per nanosecond, and
    each allowed request costs `period` units. A request reads the clock twice: `seen` for the idle time of
    its key and then `now` for its bucket. */
module RateLimit {

  datatype Params = Params(period: nat, burst: nat, ttl: nat)

  const SECOND: nat := 1_000_000_000
  const LOGIN := Params(60 * SECOND, 10, 15 * 60 * SECOND)
  const API := Params(60 * SECOND / 1000, 100, 5 * 60 * SECOND)

  function Capacity(p: Params): nat {
    p.burst * p.period
  }

  datatype Bucket = Bucket(level: int, at: int)

  datatype Entry = Entry(bucket: Bucket, lastSeen: int)

  type Limiters = map<string, Entry>

  /** The bucket's level at `now`. */
  function Level(p: Params, b: Bucket, now: int): int {
    var grown := if now > b.at then b.level + (now - b.at) else b.level;
    if grown < Capacity(p) then grown else Capacity(p)
  }

  /** A request takes `period` units if they are there, and changes nothing otherwise. */
  function Take(p: Params, b: Bucket, now: int): (bool, Bucket) {
    if Level(p, b, now) >= p.period then (true, Bucket(Level(p, b, now) - p.period, now)) else (false, b)
  }

  function Lookup(p: Params, m: Limiters, key: string, now: int): Bucket {
    if key in m then m[key].bucket else Bucket(Capacity(p), now)
  }

  predicate Allows(p: Params, m: Limiters, key: string, now: int) {
    Take(p, Lookup(p, m, key, now), now).0
  }

  function AfterAllow(p: Params, m: Limiters, key: string, seen: int, now: int): Limiters {
    m[key := Entry(Take(p, Lookup(p, m, key, now), now).1, seen)]
  }

  function Evict(p: Params, m: Limiters, now: int): Limiters {
    map k | k in m && now - m[k].lastSeen <= p.ttl :: m[k]
  }

  class RateLimiter {
    const p: Params
    var limiters: Limiters

    constructor (p: Params)
      ensures this.p == p && limiters == map[]
    {
      this.p := p;
      limiters := map[];
    }

    method Allow(key: string, seen: int, now: int) returns (ok: bool)
      modifies this`limiters
      ensures limiters.Keys == old(limiters).Keys + {key}
      ensures forall k | k in old(limiters) && k != key :: limiters[k] == old(limiters)[k]
      ensures limiters[key].lastSeen == seen
      ensures var full := p.burst * p.period;
              var b := if key in old(limiters) then old(limiters)[key].bucket else Bucket(full, now);
              var grown := b.level + if b.at < now then now - b.at else 0;
              var have := if grown < full then grown else full;
              && (ok <==> p.period <= have)
              && limiters[key].bucket == if ok then Bucket(have - p.period, now) else b
      ensures ok == Allows(p, old(limiters), key, now)
      ensures limiters == AfterAllow(p, old(limiters), key, seen, now)
    {
      var bucket;
      if key in limiters {
        bucket := limiters[key].bucket;
      } else {
        bucket := Bucket(Capacity(p), now);
      }
      var level := Level(p, bucket, now);
      ok := level >= p.period;
      if ok {
        bucket := Bucket(level - p.period, now);
      }
      limiters := limiters[key := Entry(bucket, seen)];
    }

    /** One tick of the background clean-up: delete every entry idle for longer than the ttl. */
    method Cleanup(now: int)
      modifies this`limiters
      ensures forall k :: k in limiters <==> k in old(limiters) && now - old(limiters)[k].lastSeen <= p.ttl
      ensures forall k | k in limiters :: limiters[k] == old(limiters)[k]
      ensures limiters == Evict(p, old(limiters), now)
    {
      var todo := limiters.Keys;
      while todo != {}
        invariant todo <= old(limiters).Keys
        invariant forall k :: k in limiters <==>
                              k in old(limiters) && (k in todo || now - old(limiters)[k].lastSeen <= p.ttl)
        invariant forall k | k in limiters :: limiters[k] == old(limiters)[k]
        decreases todo
      {
        var k :| k in todo;
        if now - limiters[k].lastSeen > p.ttl {
          limiters := limiters - {k};
        }
        todo := todo - {k};
      }
    }
  }

  // ---- Whole runs ----

  datatype Event = Request(key: string, seen: int, now: int) | Clean(now: int)

  function Apply(p: Params, m: Limiters, e: Event): Limiters {
    match e
    case Request(key, seen, now) => AfterAllow(p, m, key, seen, now)
    case Clean(now) => Evict(p, m, now)
  }

  function Answers(p: Params, m: Limiters, events: seq<Event>): seq<bool>
    decreases events
  {
    if events == [] then []
    else
      (if events[0].Request? then [Allows(p, m, events[0].key, events[0].now)] else [])
      + Answers(p, Apply(p, m, events[0]), events[1..])
  }

  /** The same requests to a limiter that never evicts: one permanent bucket per key. */
  function Requests(events: seq<Event>): seq<Event> {
    if events == [] then []
    else if events[0].Clean? then Requests(events[1..])
    else [events[0]] + Requests(events[1..])
  }

  /** The clock never runs backwards, and the two readings of a request are at most `delay` apart. */
  predicate Timed(events: seq<Event>, clock: int, delay: nat) {
    events == [] ||
    (InOrder(events[0], clock, delay) && Timed(events[1..], events[0].now, delay))
  }

  predicate InOrder(e: Event, clock: int, delay: nat) {
    match e
    case Request(_, seen, now) => clock <= seen <= now <= seen + delay
    case Clean(now) => clock <= now
  }

  function Min(a: int, b: int): int {
    if a < b then a else b
  }

  function Max(a: int, b: int): int {
    if a < b then b else a
  }

  /** How long after a request was seen its bucket can need to be full again. */
  function RefillTime(p: Params, delay: nat): int {
    Min(Max(Capacity(p), delay) + p.period, Capacity(p) + delay)
  }

  /** An idle bucket is full again before it can be evicted. */
  predicate RefillsBeforeEviction(p: Params, delay: nat) {
    p.burst == 0 || p.ttl + 1 >= RefillTime(p, delay)
  }

  ghost predicate Sound(p: Params, m: Limiters, clock: int, delay: nat) {
    forall k | k in m :: SoundEntry(p, m[k], clock, delay)
  }

  ghost predicate SoundEntry(p: Params, e: Entry, clock: int, delay: nat) {
    && 0 <= e.bucket.level && e.bucket.at <= clock && e.lastSeen <= clock
    && e.bucket.at + Capacity(p) - e.bucket.level <= e.lastSeen + RefillTime(p, delay)
  }

  /** What `key` may draw on at `now`. */
  function LevelOf(p: Params, m: Limiters, key: string, now: int): int {
    Level(p, Lookup(p, m, key, now), now)
  }

  /** Every step keeps the entries sound. */
  lemma StepIsSound(p: Params, m: Limiters, e: Event, clock: int, delay: nat)
    requires Sound(p, m, clock, delay) && InOrder(e, clock, delay)
    ensures Sound(p, Apply(p, m, e), e.now, delay)
  {
  }

  lemma EvictKeepsLevels(p: Params, m: Limiters, now: int, clock: int, delay: nat, key: string, later: int)
    requires RefillsBeforeEviction(p, delay) && Sound(p, m, clock, delay) && clock <= now <= later
    ensures LevelOf(p, Evict(p, m, now), key, later) == LevelOf(p, m, key, later)
  {
    if p.burst == 0 {
      assert Capacity(p) == 0;
    }
    if key in m {
      assert SoundEntry(p, m[key], clock, delay);
    }
  }

  /** Equal levels stay equal, for all keys and at all later times, when one limiter evicts and the other does not. */
  lemma StepKeepsLevels(p: Params, a: Limiters, b: Limiters, e: Event, clock: int, delay: nat, k: string, t: int)
    requires RefillsBeforeEviction(p, delay) && Sound(p, a, clock, delay) && InOrder(e, clock, delay) && e.now <= t
    requires forall k, t | clock <= t :: LevelOf(p, a, k, t) == LevelOf(p, b, k, t)
    ensures LevelOf(p, Apply(p, a, e), k, t) == LevelOf(p, if e.Clean? then b else Apply(p, b, e), k, t)
  {
    assert LevelOf(p, a, k, t) == LevelOf(p, b, k, t);
    match e
    case Clean(now) => EvictKeepsLevels(p, a, now, clock, delay, k, t);
    case Request(key, _, now) => assert LevelOf(p, a, key, now) == LevelOf(p, b, key, now);
  }

  lemma {:induction false} EvictionUnseen(
      p: Params, a: Limiters, b: Limiters, events: seq<Event>, clock: int, delay: nat)
    requires RefillsBeforeEviction(p, delay) && Sound(p, a, clock, delay) && Timed(events, clock, delay)
    requires forall k, t | clock <= t :: LevelOf(p, a, k, t) == LevelOf(p, b, k, t)
    ensures Answers(p, a, events) == Answers(p, b, Requests(events))
    decreases events
  {
    if events != [] {
      var e, rest := events[0], events[1..];
      var b' := if e.Clean? then b else Apply(p, b, e);
      forall k, t | e.now <= t ensures LevelOf(p, Apply(p, a, e), k, t) == LevelOf(p, b', k, t) {
        StepKeepsLevels(p, a, b, e, clock, delay, k, t);
      }
      StepIsSound(p, a, e, clock, delay);
      EvictionUnseen(p, Apply(p, a, e), b', rest, e.now, delay);
      if e.Request? {
        assert LevelOf(p, a, e.key, e.now) == LevelOf(p, b, e.key, e.now);
        assert Requests(events)[1..] == Requests(rest);
      }
    }
  }

  /** Eviction cannot be observed: over any run, the limiter answers as one permanent bucket per key would. */
  lemma EvictionIsUnobservable(p: Params, events: seq<Event>, clock: int, delay: nat)
    requires RefillsBeforeEviction(p, delay) && Timed(events, clock, delay)
    ensures Answers(p, map[], events) == Answers(p, map[], Requests(events))
  {
    EvictionUnseen(p, map[], map[], events, clock, delay);
  }

  // ---- Window bound ----

  /** How many requests of `key` whose bucket is read at a time in `from..to` are allowed. */
  function AllowedIn(p: Params, m: Limiters, events: seq<Event>, key: string, from: int, to: int): nat
    decreases events
  {
    if events == [] then 0
    else
      var e := events[0];
      (if e.Request? && e.key == key && from <= e.now <= to && Allows(p, m, key, e.now) then 1 else 0)
      + AllowedIn(p, Apply(p, m, e), events[1..], key, from, to)
  }

  /** What a bucket with `level` at `clock` can spend in `from..to`. */
  function Budget(p: Params, level: int, clock: int, from: int, to: int): int {
    if clock < from then (if from <= to then Capacity(p) + to - from else 0)
    else if clock <= to then level + to - clock
    else 0
  }

  lemma BudgetStep(p: Params, level: int, clock: int, level': int, now: int, paid: nat, from: int, to: int)
    requires 0 <= level <= Capacity(p) && clock <= now
    requires 0 <= level' && level' + paid <= Min(level + now - clock, Capacity(p))
    ensures Budget(p, level', now, from, to) + (if from <= now <= to then paid else 0)
            <= Budget(p, level, clock, from, to)
  {
  }

  /** What a step costs `key`. */
  function Paid(p: Params, m: Limiters, e: Event, key: string): nat {
    if e.Request? && e.key == key && Allows(p, m, key, e.now) then p.period else 0
  }

  /** What the requests of `key` in `from..to` cost. */
  function PaidIn(p: Params, m: Limiters, events: seq<Event>, key: string, from: int, to: int): nat
    decreases events
  {
    if events == [] then 0
    else
      (if from <= events[0].now <= to then Paid(p, m, events[0], key) else 0)
      + PaidIn(p, Apply(p, m, events[0]), events[1..], key, from, to)
  }

  lemma {:induction false} PaidPerRequest(
      p: Params, m: Limiters, events: seq<Event>, key: string, from: int, to: int)
    ensures PaidIn(p, m, events, key, from, to) == AllowedIn(p, m, events, key, from, to) * p.period
    decreases events
  {
    if events != [] {
      var next := Apply(p, m, events[0]);
      PaidPerRequest(p, next, events[1..], key, from, to);
      AddOnePeriod(AllowedIn(p, next, events[1..], key, from, to), p.period);
    }
  }

  /** Allowed requests are paid for by the level at the window's start and what trickles in afterwards. */
  lemma {:induction false} Spending(
      p: Params, m: Limiters, events: seq<Event>, clock: int, delay: nat, key: string, from: int, to: int)
    requires RefillsBeforeEviction(p, delay) && Sound(p, m, clock, delay) && Timed(events, clock, delay)
    ensures PaidIn(p, m, events, key, from, to) <= Budget(p, LevelOf(p, m, key, clock), clock, from, to)
    decreases events
  {
    LevelBounds(p, m, key, clock);
    if events != [] {
      var e := events[0];
      var next := Apply(p, m, e);
      StepPays(p, m, e, clock, delay, key);
      Spending(p, next, events[1..], e.now, delay, key, from, to);
      var level, level' := LevelOf(p, m, key, clock), LevelOf(p, next, key, e.now);
      BudgetStep(p, level, clock, level', e.now, Paid(p, m, e, key), from, to);
    }
  }

  lemma AddOnePeriod(n: nat, period: nat)
    ensures (n + 1) * period == n * period + period
  {
  }

  /** One step: the level gains at most the time that passed, less one period for an allowed request. */
  lemma StepPays(p: Params, m: Limiters, e: Event, clock: int, delay: nat, key: string)
    requires RefillsBeforeEviction(p, delay) && Sound(p, m, clock, delay) && InOrder(e, clock, delay)
    ensures Sound(p, Apply(p, m, e), e.now, delay)
    ensures 0 <= LevelOf(p, Apply(p, m, e), key, e.now)
    ensures LevelOf(p, Apply(p, m, e), key, e.now) + Paid(p, m, e, key)
            <= Min(LevelOf(p, m, key, clock) + e.now - clock, Capacity(p))
  {
    StepIsSound(p, m, e, clock, delay);
    LevelBounds(p, m, key, e.now);
    if e.Clean? {
      EvictKeepsLevels(p, m, e.now, clock, delay, key, e.now);
    }
  }

  lemma LevelBounds(p: Params, m: Limiters, key: string, now: int)
    requires forall k | k in m :: 0 <= m[k].bucket.level
    ensures 0 <= LevelOf(p, m, key, now) <= Capacity(p)
  {
  }

  /** In every window of length T, at most burst + T / period requests of one key are allowed. */
  lemma WindowBound(p: Params, events: seq<Event>, clock: int, delay: nat, key: string, from: int, to: int)
    requires p.period > 0 && RefillsBeforeEviction(p, delay) && Timed(events, clock, delay) && from <= to
    ensures AllowedIn(p, map[], events, key, from, to) <= p.burst + (to - from) / p.period
  {
    var n := AllowedIn(p, map[], events, key, from, to);
    Spending(p, map[], events, clock, delay, key, from, to);
    PaidPerRequest(p, map[], events, key, from, to);
    LevelBounds(p, map[], key, clock);
    assert n * p.period <= p.burst * p.period + (to - from);
    DivideOut(n, p.burst, to - from, p.period);
  }

  lemma TimesMonotone(a: int, b: int, c: nat)
    requires a <= b
    ensures a * c <= b * c
  {
  }

  lemma DivideOut(n: int, burst: int, length: int, period: int)
    requires period > 0 && length >= 0 && n * period <= burst * period + length
    ensures n <= burst + length / period
  {
    var q := length / period;
    assert (burst + q + 1) * period == burst * period + q * period + period;
    if n > burst + q {
      TimesMonotone(burst + q + 1, n, period);
    }
  }

  /** The presets refill in time unless the two readings of one request lie minutes apart. */
  lemma PresetsRefill(delay: nat)
    ensures RefillsBeforeEviction(LOGIN, delay) <==> delay <= 840 * SECOND + 1
    ensures RefillsBeforeEviction(API, delay) <==> delay <= 300 * SECOND - 60_000_000 + 1
  {
  }

  /** The login preset: in any window, ten requests and one more for every full minute. */
  lemma LoginWindow(events: seq<Event>, clock: int, delay: nat, key: string, from: int, to: int)
    requires Timed(events, clock, delay) && from <= to && delay <= 840 * SECOND + 1
    ensures AllowedIn(LOGIN, map[], events, key, from, to) <= 10 + (to - from) / (60 * SECOND)
    ensures Answers(LOGIN, map[], events) == Answers(LOGIN, map[], Requests(events))
  {
    PresetsRefill(delay);
    WindowBound(LOGIN, events, clock, delay, key, from, to);
    EvictionIsUnobservable(LOGIN, events, clock, delay);
  }

  lemma ApiWindow(events: seq<Event>, clock: int, delay: nat, key: string, from: int, to: int)
    requires Timed(events, clock, delay) && from <= to && delay <= 300 * SECOND - 60_000_000 + 1
    ensures AllowedIn(API, map[], events, key, from, to) <= 100 + (to - from) / 60_000_000
    ensures Answers(API, map[], events) == Answers(API, map[], Requests(events))
  {
    PresetsRefill(delay);
    WindowBound(API, events, clock, delay, key, from, to);
    EvictionIsUnobservable(API, events, clock, delay);
  }

  // ---- Exactly when eviction is unobservable ----

  function After(p: Params, m: Limiters, events: seq<Event>): Limiters
    decreases events
  {
    if events == [] then m else After(p, Apply(p, m, events[0]), events[1..])
  }

  lemma {:induction false} AnswersConcat(p: Params, m: Limiters, a: seq<Event>, b: seq<Event>)
    ensures Answers(p, m, a + b) == Answers(p, m, a) + Answers(p, After(p, m, a), b)
    decreases a
  {
    if a == [] {
      assert a + b == b;
    } else {
      assert (a + b)[1..] == a[1..] + b;
      AnswersConcat(p, Apply(p, m, a[0]), a[1..], b);
    }
  }

  function Batch(key: string, now: int, n: nat): (events: seq<Event>)
    ensures |events| == n
  {
    if n == 0 then [] else [Request(key, now, now)] + Batch(key, now, n - 1)
  }

  predicate AllTrue(answers: seq<bool>) {
    forall i | 0 <= i < |answers| :: answers[i]
  }

  /** A burst of `n` requests at one instant is let through whole exactly when the level pays for all of it. */
  lemma {:induction false} BatchAllowedIff(p: Params, m: Limiters, key: string, now: int, n: nat)
    requires p.period > 0
    requires key in m ==> 0 <= m[key].bucket.level && m[key].bucket.at <= now
    ensures |Answers(p, m, Batch(key, now, n))| == n
    ensures AllTrue(Answers(p, m, Batch(key, now, n))) <==> n * p.period <= LevelOf(p, m, key, now)
    ensures 0 < n && n * p.period <= LevelOf(p, m, key, now) ==>
              After(p, m, Batch(key, now, n))
              == m[key := Entry(Bucket(LevelOf(p, m, key, now) - n * p.period, now), now)]
    decreases n
  {
    if n > 0 {
      var e := Request(key, now, now);
      var m' := Apply(p, m, e);
      var batch := Batch(key, now, n);
      assert batch[0] == e && batch[1..] == Batch(key, now, n - 1);
      AddOnePeriod(n - 1, p.period);
      BatchAllowedIff(p, m', key, now, n - 1);
      var rest := Answers(p, m', batch[1..]);
      var answers := Answers(p, m, batch);
      assert answers == [Allows(p, m, key, now)] + rest;
      assert AllTrue(answers) <==> Allows(p, m, key, now) && AllTrue(rest) by {
        assert answers[0] == Allows(p, m, key, now);
        assert forall i | 0 <= i < |rest| :: rest[i] == answers[i + 1];
      }
      if !Allows(p, m, key, now) {
        TimesMonotone(1, n, p.period);
      }
    }
  }

  lemma {:induction false} RequestsConcat(a: seq<Event>, b: seq<Event>)
    ensures Requests(a + b) == Requests(a) + Requests(b)
  {
    if a == [] {
      assert a + b == b;
    } else {
      assert (a + b)[1..] == a[1..] + b;
      RequestsConcat(a[1..], b);
    }
  }

  lemma {:induction false} BatchIsTimed(key: string, now: int, n: nat, clock: int, delay: nat, tail: seq<Event>)
    requires clock <= now && Timed(tail, now, delay)
    ensures Requests(Batch(key, now, n)) == Batch(key, now, n)
    ensures Timed(Batch(key, now, n) + tail, clock, delay)
  {
    var batch := Batch(key, now, n);
    if n == 0 {
      assert batch + tail == tail;
    } else {
      assert (batch + tail)[1..] == batch[1..] + tail && batch[1..] == Batch(key, now, n - 1);
      BatchIsTimed(key, now, n - 1, now, delay, tail);
    }
  }

  lemma FirstBurst(p: Params)
    requires p.period > 0 && p.burst > 0
    ensures After(p, map[], Batch("k", 0, p.burst)) == map["k" := Entry(Bucket(0, 0), 0)]
    ensures |Answers(p, map[], Batch("k", 0, p.burst))| == p.burst
  {
    BatchAllowedIff(p, map[], "k", 0, p.burst);
  }

  /** An eviction at `at`, and then a whole burst. */
  function Probe(p: Params, at: int): seq<Event> {
    [Clean(at)] + Batch("k", at, p.burst)
  }

  /** `spent` is a bucket that is evicted at `at` before it is full again. */
  predicate EvictedEarly(p: Params, spent: Entry, at: int) {
    && 0 <= spent.bucket.level && spent.bucket.at <= at && spent.lastSeen + p.ttl < at
    && Level(p, spent.bucket, at) < Capacity(p)
  }

  /** With the eviction, the burst meets a fresh bucket; without it, the same bucket, not yet full again. */
  lemma EarlyEvictionShows(p: Params, first: seq<Event>, spent: Entry, at: int)
    requires p.period > 0 && p.burst > 0 && EvictedEarly(p, spent, at)
    requires Requests(first) == first && After(p, map[], first) == map["k" := spent]
    ensures Answers(p, map[], first + Probe(p, at)) != Answers(p, map[], Requests(first + Probe(p, at)))
  {
    var m, burst := map["k" := spent], Batch("k", at, p.burst);
    BatchIsTimed("k", at, p.burst, at, 0, []);
    assert Probe(p, at)[1..] == burst;
    assert Requests(Probe(p, at)) == burst;
    RequestsConcat(first, Probe(p, at));
    AnswersConcat(p, map[], first, Probe(p, at));
    AnswersConcat(p, map[], first, burst);
    assert Evict(p, m, at) == map[];
    BatchAllowedIff(p, map[], "k", at, p.burst);
    BatchAllowedIff(p, m, "k", at, p.burst);
    var anew, same := Answers(p, map[], burst), Answers(p, m, burst);
    assert Answers(p, m, Probe(p, at)) == anew;
    assert anew != same;
    assert (Answers(p, map[], first) + anew)[|Answers(p, map[], first)|..] == anew;
    assert (Answers(p, map[], first) + same)[|Answers(p, map[], first)|..] == same;
  }

  /** Readings up to one period apart: a burst, one more request once it is paid for, whose idle time is
      measured from its first reading. */
  function BurstAndOne(p: Params, delay: nat): seq<Event> {
    Batch("k", 0, p.burst) + [Request("k", p.period - Min(p.period, delay), p.period)]
  }

  /** When the readings lie far apart, one request is enough. */
  function First(p: Params, delay: nat): seq<Event> {
    if delay <= Capacity(p) then BurstAndOne(p, delay) else [Request("k", 0, delay)]
  }

  function Spent(p: Params, delay: nat): Entry {
    if delay <= Capacity(p) then Entry(Bucket(0, p.period), p.period - Min(p.period, delay))
    else Entry(Bucket(Capacity(p) - p.period, delay), 0)
  }

  function EvictedAt(p: Params, delay: nat): int {
    Max(Spent(p, delay).lastSeen + p.ttl + 1, Spent(p, delay).bucket.at)
  }

  lemma CapacityHoldsPeriod(p: Params)
    requires p.burst > 0
    ensures p.period <= Capacity(p)
  {
    TimesMonotone(1, p.burst, p.period);
  }

  lemma {:induction false} AfterConcat(p: Params, m: Limiters, a: seq<Event>, b: seq<Event>)
    ensures After(p, m, a + b) == After(p, After(p, m, a), b)
    decreases a
  {
    if a == [] {
      assert a + b == b;
    } else {
      assert (a + b)[1..] == a[1..] + b;
      AfterConcat(p, Apply(p, m, a[0]), a[1..], b);
    }
  }

  lemma ProbeIsTimed(p: Params, at: int, clock: int, delay: nat)
    requires clock <= at
    ensures Timed(Probe(p, at), clock, delay)
  {
    var burst := Batch("k", at, p.burst);
    BatchIsTimed("k", at, p.burst, at, delay, []);
    assert burst + [] == burst;
    assert Probe(p, at)[1..] == burst;
  }

  lemma BurstAndOneSpends(p: Params, delay: nat, tail: seq<Event>)
    requires p.period > 0 && p.burst > 0 && Timed(tail, p.period, delay)
    ensures Requests(BurstAndOne(p, delay)) == BurstAndOne(p, delay)
    ensures After(p, map[], BurstAndOne(p, delay))
            == map["k" := Entry(Bucket(0, p.period), p.period - Min(p.period, delay))]
    ensures Timed(BurstAndOne(p, delay) + tail, 0, delay)
  {
    var burst, last := Batch("k", 0, p.burst), Request("k", p.period - Min(p.period, delay), p.period);
    FirstBurst(p);
    AfterConcat(p, map[], burst, [last]);
    RequestsConcat(burst, [last]);
    assert [last][1..] == [] && ([last] + tail)[1..] == tail;
    BatchIsTimed("k", 0, p.burst, 0, delay, [last] + tail);
    assert BurstAndOne(p, delay) + tail == burst + ([last] + tail);
    CapacityHoldsPeriod(p);
    assert Level(p, Bucket(0, 0), p.period) == p.period;
  }

  lemma FirstSpends(p: Params, delay: nat)
    requires p.period > 0 && p.burst > 0
    ensures Requests(First(p, delay)) == First(p, delay)
    ensures After(p, map[], First(p, delay)) == map["k" := Spent(p, delay)]
    ensures Timed(First(p, delay) + Probe(p, EvictedAt(p, delay)), 0, delay)
  {
    var probe := Probe(p, EvictedAt(p, delay));
    CapacityHoldsPeriod(p);
    ProbeIsTimed(p, EvictedAt(p, delay), Spent(p, delay).bucket.at, delay);
    if delay <= Capacity(p) {
      BurstAndOneSpends(p, delay, probe);
    } else {
      var only := Request("k", 0, delay);
      assert First(p, delay) == [only] && [only][1..] == [];
      assert ([only] + probe)[1..] == probe;
    }
  }

  predicate EvictionHidden(p: Params, events: seq<Event>, clock: int, delay: nat) {
    Timed(events, clock, delay) ==> Answers(p, map[], events) == Answers(p, map[], Requests(events))
  }

  /** The exact condition: eviction is unobservable on every run if and only if an idle bucket refills
      before it can be evicted. */
  lemma EvictionUnobservableIff(p: Params, delay: nat)
    requires p.period > 0
    ensures (forall events, clock :: EvictionHidden(p, events, clock, delay)) <==> RefillsBeforeEviction(p, delay)
  {
    if RefillsBeforeEviction(p, delay) {
      forall events, clock ensures EvictionHidden(p, events, clock, delay) {
        if Timed(events, clock, delay) {
          EvictionIsUnobservable(p, events, clock, delay);
        }
      }
    } else {
      FirstSpends(p, delay);
      CapacityHoldsPeriod(p);
      EarlyEvictionShows(p, First(p, delay), Spent(p, delay), EvictedAt(p, delay));
      assert !EvictionHidden(p, First(p, delay) + Probe(p, EvictedAt(p, delay)), 0, delay);
    }
  }

  // ---- The window bound is attained ----

  lemma {:induction false} AllowedConcat(
      p: Params, m: Limiters, a: seq<Event>, b: seq<Event>, key: string, from: int, to: int)
    ensures AllowedIn(p, m, a + b, key, from, to)
            == AllowedIn(p, m, a, key, from, to) + AllowedIn(p, After(p, m, a), b, key, from, to)
    decreases a
  {
    if a == [] {
      assert a + b == b;
    } else {
      assert (a + b)[1..] == a[1..] + b;
      AllowedConcat(p, Apply(p, m, a[0]), a[1..], b, key, from, to);
    }
  }

  /** In a batch inside the window, the allowed requests are the true answers. */
  lemma {:induction false} BatchCounts(p: Params, m: Limiters, key: string, now: int, n: nat, from: int, to: int)
    requires from <= now <= to && |Answers(p, m, Batch(key, now, n))| == n
    requires AllTrue(Answers(p, m, Batch(key, now, n)))
    ensures AllowedIn(p, m, Batch(key, now, n), key, from, to) == n
    decreases n
  {
    if n > 0 {
      var e, batch := Request(key, now, now), Batch(key, now, n);
      var m' := Apply(p, m, e);
      assert batch[0] == e && batch[1..] == Batch(key, now, n - 1);
      var answers := Answers(p, m, batch);
      assert answers == [Allows(p, m, key, now)] + Answers(p, m', batch[1..]);
      assert answers[0] && answers[1..] == Answers(p, m', batch[1..]);
      BatchCounts(p, m', key, now, n - 1, from, to);
    }
  }

  /** One request whenever the emptied bucket has gained one period again. */
  function Trickle(p: Params, at: int, n: nat): seq<Event>
    decreases n
  {
    if n == 0 then [] else [Request("k", at + p.period, at + p.period)] + Trickle(p, at + p.period, n - 1)
  }

  lemma {:induction false} TrickleAllowed(p: Params, at: int, n: nat, to: int, delay: nat)
    requires p.period > 0 && p.burst > 0 && 0 <= at && at + n * p.period <= to
    ensures Timed(Trickle(p, at, n), at, delay)
    ensures AllowedIn(p, map["k" := Entry(Bucket(0, at), at)], Trickle(p, at, n), "k", 0, to) == n
    decreases n
  {
    if n > 0 {
      var next := at + p.period;
      var m := map["k" := Entry(Bucket(0, at), at)];
      var events := Trickle(p, at, n);
      AddOnePeriod(n - 1, p.period);
      TimesMonotone(1, p.burst, p.period);
      TimesMonotone(0, n - 1, p.period);
      assert events[0] == Request("k", next, next) && events[1..] == Trickle(p, next, n - 1);
      assert Level(p, m["k"].bucket, next) == p.period;
      assert Apply(p, m, events[0]) == map["k" := Entry(Bucket(0, next), next)];
      TrickleAllowed(p, next, n - 1, to, delay);
    }
  }

  /** A whole burst when the window opens, then one request for every period. */
  function Greedy(p: Params, length: nat): seq<Event>
    requires p.period > 0
  {
    Batch("k", 0, p.burst) + Trickle(p, 0, length / p.period)
  }

  /** The bound of WindowBound is attained, for windows of every length. */
  lemma WindowTight(p: Params, length: nat, delay: nat)
    requires p.period > 0 && p.burst > 0
    ensures Timed(Greedy(p, length), 0, delay)
    ensures AllowedIn(p, map[], Greedy(p, length), "k", 0, length) == p.burst + length / p.period
  {
    var batch, n := Batch("k", 0, p.burst), length / p.period;
    assert n * p.period <= length;
    TrickleAllowed(p, 0, n, length, delay);
    BatchIsTimed("k", 0, p.burst, 0, delay, Trickle(p, 0, n));
    FirstBurst(p);
    BatchAllowedIff(p, map[], "k", 0, p.burst);
    BatchCounts(p, map[], "k", 0, p.burst, 0, length);
    AllowedConcat(p, map[], batch, Trickle(p, 0, n), "k", 0, length);
  }

  predicate Within(p: Params, n: int, length: nat, delay: nat, events: seq<Event>, clock: int, key: string, from: int) {
    Timed(events, clock, delay) ==> AllowedIn(p, map[], events, key, from, from + length) <= n
  }

  /** At most `n` requests of a key are allowed in any window of the given length, on any run. */
  ghost predicate AtMost(p: Params, n: int, length: nat, delay: nat) {
    forall events, clock, key, from :: Within(p, n, length, delay, events, clock, key, from)
  }

  /** The most requests that one window can let through. */
  function Most(p: Params, length: nat): nat
    requires p.period > 0
  {
    if p.burst == 0 then 0 else p.burst + length / p.period
  }

  lemma {:induction false} NothingWithoutBurst(
      p: Params, m: Limiters, events: seq<Event>, clock: int, key: string, from: int, to: int)
    requires p.period > 0 && p.burst == 0
    ensures AllowedIn(p, m, events, key, from, to) == 0
    decreases events
  {
    if events != [] {
      NothingWithoutBurst(p, Apply(p, m, events[0]), events[1..], clock, key, from, to);
    }
  }

  /** The exact window limit: at most `n` in every window of this length if and only if `n` is at least the burst
      plus one request for every full period. */
  lemma WindowLimitIff(p: Params, n: int, length: nat, delay: nat)
    requires p.period > 0 && RefillsBeforeEviction(p, delay)
    ensures AtMost(p, n, length, delay) <==> Most(p, length) <= n
  {
    if Most(p, length) <= n {
      forall events, clock, key, from ensures Within(p, n, length, delay, events, clock, key, from) {
        if !Timed(events, clock, delay) {
        } else if p.burst == 0 {
          NothingWithoutBurst(p, map[], events, clock, key, from, from + length);
        } else {
          WindowBound(p, events, clock, delay, key, from, from + length);
        }
      }
    } else if p.burst == 0 {
      assert !Within(p, n, length, delay, [], 0, "k", 0);
    } else {
      WindowTight(p, length, delay);
      assert !Within(p, n, length, delay, Greedy(p, length), 0, "k", 0);
    }
  }

  /** The login preset in ten minutes: twenty attempts get through and no more, so ten is not the limit. */
  lemma LoginInTenMinutes(delay: nat)
    requires delay <= 840 * SECOND + 1
    ensures forall n :: AtMost(LOGIN, n, 600_000_000_000, delay) <==> 20 <= n
    ensures !AtMost(LOGIN, 10, 600_000_000_000, delay) && AtMost(LOGIN, 20, 600_000_000_000, delay)
  {
    PresetsRefill(delay);
    forall n ensures AtMost(LOGIN, n, 600_000_000_000, delay) <==> 20 <= n {
      WindowLimitIff(LOGIN, n, 600 * SECOND, delay);
    }
  }

  /** Everything in the run gets through. */
  lemma ProbeCounts(p: Params, delay: nat, from: int)
    requires p.period > 0 && p.burst > 0 && from == if delay <= Capacity(p) then 0 else delay
    ensures AllowedIn(p, map[], First(p, delay) + Probe(p, EvictedAt(p, delay)), "k", from, EvictedAt(p, delay))
            == (if delay <= Capacity(p) then p.burst + 1 else 1) + p.burst
  {
    var at := EvictedAt(p, delay);
    var burst := Batch("k", at, p.burst);
    CapacityHoldsPeriod(p);
    FirstSpends(p, delay);
    AllowedConcat(p, map[], First(p, delay), Probe(p, at), "k", from, at);
    assert Probe(p, at)[1..] == burst && Evict(p, map["k" := Spent(p, delay)], at) == map[];
    BatchAllowedIff(p, map[], "k", at, p.burst);
    BatchCounts(p, map[], "k", at, p.burst, from, at);
    assert AllowedIn(p, map["k" := Spent(p, delay)], Probe(p, at), "k", from, at) == p.burst;
    if delay <= Capacity(p) {
      var last := Request("k", p.period - Min(p.period, delay), p.period);
      FirstBurst(p);
      BatchAllowedIff(p, map[], "k", 0, p.burst);
      BatchCounts(p, map[], "k", 0, p.burst, from, at);
      AllowedConcat(p, map[], Batch("k", 0, p.burst), [last], "k", from, at);
      assert [last][1..] == [];
    } else {
      assert First(p, delay)[1..] == [];
    }
  }

  lemma QuotientBelow(length: nat, limit: nat, period: nat)
    requires period > 0 && length < limit * period
    ensures length / period < limit
  {
    var q := length / period;
    assert q * period <= length;
    if q >= limit {
      TimesMonotone(limit, q, period);
    }
  }

  /** An eviction that comes too early lets more through than the limit, in a window that ends with it. */
  lemma EarlyEvictionExceeds(p: Params, delay: nat, from: int)
    requires p.period > 0 && !RefillsBeforeEviction(p, delay) && from == if delay <= Capacity(p) then 0 else delay
    ensures from <= EvictedAt(p, delay)
    ensures !AtMost(p, Most(p, EvictedAt(p, delay) - from), EvictedAt(p, delay) - from, delay)
  {
    var at := EvictedAt(p, delay);
    var length, limit := at - from, if delay <= Capacity(p) then p.burst + 1 else 1;
    FirstSpends(p, delay);
    CapacityHoldsPeriod(p);
    ProbeCounts(p, delay, from);
    AddOnePeriod(p.burst, p.period);
    QuotientBelow(length, limit, p.period);
    assert !Within(p, Most(p, length), length, delay, First(p, delay) + Probe(p, at), 0, "k", from);
  }

  /** The API preset in one minute: 1100 requests get through and no more. */
  lemma ApiInOneMinute(delay: nat)
    requires delay <= 300 * SECOND - 60_000_000 + 1
    ensures forall n :: AtMost(API, n, 60_000_000_000, delay) <==> 1100 <= n
  {
    PresetsRefill(delay);
    forall n ensures AtMost(API, n, 60_000_000_000, delay) <==> 1100 <= n {
      WindowLimitIff(API, n, 60_000_000_000, delay);
    }
  }

  /** The limit holds on every run exactly when an idle bucket refills before it can be evicted. */
  lemma LimitHoldsIff(p: Params, delay: nat)
    requires p.period > 0
    ensures (forall length: nat :: AtMost(p, Most(p, length), length, delay)) <==> RefillsBeforeEviction(p, delay)
  {
    if RefillsBeforeEviction(p, delay) {
      forall length: nat ensures AtMost(p, Most(p, length), length, delay) {
        WindowLimitIff(p, Most(p, length), length, delay);
      }
    } else {
      EarlyEvictionExceeds(p, delay, if delay <= Capacity(p) then 0 else delay);
    }
  }
}
