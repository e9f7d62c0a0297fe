/** The agent's expiring replay table (agent/internal/nonce/nonce.go). Times and durations are integer
    nanoseconds; every operation takes the clock reading it makes. */
module Nonce {

  type Entries = map<string, int> // nonce -> expiry time

  predicate Seen(entries: Entries, nonce: string, now: int) {
    nonce in entries && now < entries[nonce]
  }

  function Mark(entries: Entries, nonce: string, ttl: int, now: int): Entries {
    entries[nonce := now + ttl]
  }

  function Sweep(entries: Entries, now: int): Entries {
    map n | n in entries && entries[n] >= now :: entries[n]
  }

  class Store {
    var entries: Entries

    constructor ()
      ensures entries == map[]
    {
      entries := map[];
    }

    method HasSeen(nonce: string, now: int) returns (seen: bool)
      ensures seen <==> nonce in entries && now < entries[nonce]
      ensures seen == Seen(entries, nonce, now)
    {
      if nonce !in entries {
        return false;
      }
      seen := now < entries[nonce];
    }

    method MarkSeen(nonce: string, ttl: int, now: int)
      modifies this
      ensures entries == old(entries)[nonce := now + ttl]
      ensures entries == Mark(old(entries), nonce, ttl, now)
    {
      entries := entries[nonce := now + ttl];
    }

    /** One tick of the background clean-up: delete every entry whose expiry lies before `now`. */
    method Cleanup(now: int)
      modifies this
      ensures forall n :: n in entries <==> n in old(entries) && old(entries)[n] >= now
      ensures forall n | n in entries :: entries[n] == old(entries)[n]
      ensures entries == Sweep(old(entries), now)
    {
      var todo := entries.Keys;
      while todo != {}
        invariant todo <= old(entries).Keys
        invariant forall n :: n in entries <==> n in old(entries) && (n in todo || old(entries)[n] >= now)
        invariant forall n | n in entries :: entries[n] == old(entries)[n]
        decreases todo
      {
        var n :| n in todo;
        if now > entries[n] {
          entries := entries - {n};
        }
        todo := todo - {n};
      }
    }
  }

  // ---- Whole runs ----

  datatype Op = Has(nonce: string, now: int) | Put(nonce: string, ttl: int, now: int) | Tick(now: int)

  function Apply(entries: Entries, op: Op): Entries {
    match op
    case Has(_, _) => entries
    case Put(n, ttl, now) => Mark(entries, n, ttl, now)
    case Tick(now) => Sweep(entries, now)
  }

  function After(entries: Entries, ops: seq<Op>): Entries
    decreases ops
  {
    if ops == [] then entries else After(Apply(entries, ops[0]), ops[1..])
  }

  /** What `HasSeen` answers along a run. */
  function Answers(entries: Entries, ops: seq<Op>): seq<bool>
    decreases ops
  {
    if ops == [] then []
    else
      (if ops[0].Has? then [Seen(entries, ops[0].nonce, ops[0].now)] else [])
      + Answers(Apply(entries, ops[0]), ops[1..])
  }

  function WithoutTicks(ops: seq<Op>): seq<Op> {
    if ops == [] then []
    else if ops[0].Tick? then WithoutTicks(ops[1..])
    else [ops[0]] + WithoutTicks(ops[1..])
  }

  /** The clock never runs backwards along `ops`, starting from `clock`. */
  predicate Timed(ops: seq<Op>, clock: int) {
    ops == [] || (clock <= ops[0].now && Timed(ops[1..], ops[0].now))
  }

  ghost predicate SameFrom(a: Entries, b: Entries, clock: int) {
    forall n, t | clock <= t :: Seen(a, n, t) <==> Seen(b, n, t)
  }

  lemma {:induction false} SweepsUnseen(a: Entries, b: Entries, ops: seq<Op>, clock: int)
    requires SameFrom(a, b, clock) && Timed(ops, clock)
    ensures Answers(a, ops) == Answers(b, WithoutTicks(ops))
    decreases ops
  {
    if ops != [] {
      var op, rest := ops[0], ops[1..];
      if op.Tick? {
        forall n, t | op.now <= t ensures Seen(Apply(a, op), n, t) <==> Seen(b, n, t) {
          assert Seen(a, n, t) <==> Seen(b, n, t);
        }
        SweepsUnseen(Apply(a, op), b, rest, op.now);
        assert WithoutTicks(ops) == WithoutTicks(rest);
      } else {
        assert WithoutTicks(ops)[1..] == WithoutTicks(rest);
        forall n, t | op.now <= t ensures Seen(Apply(a, op), n, t) <==> Seen(Apply(b, op), n, t) {
          assert Seen(a, n, t) <==> Seen(b, n, t);
        }
        assert op.Has? ==> (Seen(a, op.nonce, op.now) <==> Seen(b, op.nonce, op.now));
        SweepsUnseen(Apply(a, op), Apply(b, op), rest, op.now);
      }
    }
  }

  /** Sweeping cannot be observed: with sweeps at any times, `HasSeen` answers as with none. */
  lemma SweepingIsUnobservable(entries: Entries, ops: seq<Op>, clock: int)
    requires Timed(ops, clock)
    ensures Answers(entries, ops) == Answers(entries, WithoutTicks(ops))
  {
    SweepsUnseen(entries, entries, ops, clock);
  }

  // ---- Memory bound ----

  /** No operation comes later than `interval` after the tick before it. */
  predicate OnTime(ops: seq<Op>, lastTick: int, interval: int) {
    ops == [] ||
    (ops[0].now <= lastTick + interval
     && OnTime(ops[1..], if ops[0].Tick? then ops[0].now else lastTick, interval))
  }

  function FinalTick(ops: seq<Op>, lastTick: int): int {
    if ops == [] then lastTick
    else FinalTick(ops[1..], if ops[0].Tick? then ops[0].now else lastTick)
  }

  function FinalTime(ops: seq<Op>, clock: int): int {
    if ops == [] then clock else FinalTime(ops[1..], ops[0].now)
  }

  predicate AllTtl(ops: seq<Op>, ttl: int) {
    forall i | 0 <= i < |ops| :: ops[i].Put? ==> ops[i].ttl == ttl
  }

  /** How many `MarkSeen` calls happened at or after `since`. */
  function MarksSince(ops: seq<Op>, since: int): nat {
    if ops == [] then 0
    else (if ops[0].Put? && since <= ops[0].now then 1 else 0) + MarksSince(ops[1..], since)
  }

  function NoncesSince(ops: seq<Op>, since: int): (nonces: set<string>)
    ensures |nonces| <= MarksSince(ops, since)
  {
    if ops == [] then {}
    else
      var later := NoncesSince(ops[1..], since);
      if ops[0].Put? && since <= ops[0].now then {ops[0].nonce} + later else later
  }

  /** How long after its mark an entry can outlive a tick. */
  function Kept(ttl: int): nat {
    if ttl > 0 then ttl else 0
  }

  /** Every surviving entry passed the last tick, and is old or was marked in the run. */
  lemma {:induction false} Survivors(
      entries: Entries, ops: seq<Op>, clock: int, lastTick: int, ttl: int, since: int, n: string)
    requires AllTtl(ops, ttl) && Timed(ops, clock) && lastTick <= clock
    requires n in After(entries, ops) && since <= FinalTick(ops, lastTick) - Kept(ttl)
    requires n in entries ==> entries[n] - ttl >= lastTick - Kept(ttl)
    ensures n in NoncesSince(ops, since) || (n in entries && entries[n] - ttl >= FinalTick(ops, lastTick) - Kept(ttl))
    decreases ops
  {
    if ops != [] {
      var tick := if ops[0].Tick? then ops[0].now else lastTick;
      var next := Apply(entries, ops[0]);
      Survivors(next, ops[1..], ops[0].now, tick, ttl, since, n);
      if n !in NoncesSince(ops[1..], since) && ops[0].Put? && ops[0].nonce == n {
        assert since <= ops[0].now;
      }
    }
  }

  lemma {:induction false} FinalTickBounds(ops: seq<Op>, clock: int, lastTick: int, interval: int)
    requires Timed(ops, clock) && OnTime(ops, lastTick, interval) && clock <= lastTick + interval && interval >= 0
    ensures FinalTime(ops, clock) <= FinalTick(ops, lastTick) + interval
  {
    if ops != [] {
      FinalTickBounds(ops[1..], ops[0].now, if ops[0].Tick? then ops[0].now else lastTick, interval);
    }
  }

  /** With ticks at most `interval` apart, the table of a store created at `start` never holds more nonces
      than were marked during the last `ttl + interval`. */
  lemma TableIsBounded(ops: seq<Op>, start: int, ttl: int, interval: int)
    requires Timed(ops, start) && OnTime(ops, start, interval) && AllTtl(ops, ttl) && interval >= 0
    ensures After(map[], ops).Keys <= NoncesSince(ops, FinalTime(ops, start) - Kept(ttl) - interval)
    ensures |After(map[], ops)| <= MarksSince(ops, FinalTime(ops, start) - Kept(ttl) - interval)
  {
    var since := FinalTime(ops, start) - Kept(ttl) - interval;
    var table := After(map[], ops);
    FinalTickBounds(ops, start, start, interval);
    forall n | n in table.Keys ensures n in NoncesSince(ops, since) {
      Survivors(map[], ops, start, start, ttl, since, n);
    }
    SubsetCardinality(table.Keys, NoncesSince(ops, since));
    assert |table| == |table.Keys|;
  }

  lemma {:induction false} SubsetCardinality<T>(a: set<T>, b: set<T>)
    requires a <= b
    ensures |a| <= |b|
  {
    if a != {} {
      var x :| x in a;
      SubsetCardinality(a - {x}, b - {x});
    }
  }
}
