/** The two limiters a login request meets: the route's (control-plane/internal/api/router.go) and, later, the one
    inside Login (control-plane/internal/api/auth_handler.go). Each check reads the clock for itself, and the
    checks of different requests interleave freely. */
module LoginFront {
  import opened RateLimit

  /** The bucket key of a request: its remote address up to the last colon. */
  function ClientIP(addr: string): string {
    var i := LastColon(addr, |addr|);
    if i >= 0 then addr[..i] else addr
  }

  function LastColon(addr: string, end: nat): (i: int)
    requires end <= |addr|
    ensures -1 <= i < end
    ensures i >= 0 ==> addr[i] == ':'
    ensures forall j | i < j < end :: addr[j] != ':'
  {
    if end == 0 then -1 else if addr[end - 1] == ':' then end - 1 else LastColon(addr, end - 1)
  }

  /** The key of an address is what stands before its last colon, or all of it. */
  lemma KeyIsHost(addr: string)
    ensures ':' !in addr ==> ClientIP(addr) == addr
    ensures forall i | 0 <= i < |addr| && addr[i] == ':' && ':' !in addr[i + 1..] :: ClientIP(addr) == addr[..i]
  {
    var last := LastColon(addr, |addr|);
    forall i | 0 <= i < |addr| && addr[i] == ':' && ':' !in addr[i + 1..] ensures i == last {
      assert forall j | i < j < |addr| :: addr[j] == addr[i + 1..][j - i - 1];
    }
  }

  /** A port is cut off. */
  lemma PortIsCutOff(host: string, port: string)
    requires ':' !in port
    ensures ClientIP(host + ":" + port) == host
  {
    var addr := host + ":" + port;
    KeyIsHost(addr);
    assert addr[|host|] == ':' && addr[|host| + 1..] == port && addr[..|host|] == host;
  }

  // ---- One budget for a host ----

  datatype Arrival = Arrival(host: string, port: string, seen: int, now: int)

  /** The route's limiter sees the addresses of the arrivals, ports and all. */
  function Checks(arrivals: seq<Arrival>): seq<Event> {
    if arrivals == [] then []
    else
      var a := arrivals[0];
      [Request(ClientIP(a.host + ":" + a.port), a.seen, a.now)] + Checks(arrivals[1..])
  }

  /** How many arrivals of a host, from whatever ports, pass a limiter during `from..to`. */
  function PassedIn(m: Limiters, arrivals: seq<Arrival>, host: string, from: int, to: int): nat
    decreases arrivals
  {
    if arrivals == [] then 0
    else
      var a := arrivals[0];
      var key := ClientIP(a.host + ":" + a.port);
      (if a.host == host && from <= a.now <= to && Allows(LOGIN, m, key, a.now) then 1 else 0)
      + PassedIn(AfterAllow(LOGIN, m, key, a.seen, a.now), arrivals[1..], host, from, to)
  }

  lemma {:induction false} PassedAreAllowed(
      m: Limiters, arrivals: seq<Arrival>, host: string, from: int, to: int)
    requires forall i | 0 <= i < |arrivals| :: ':' !in arrivals[i].port
    ensures PassedIn(m, arrivals, host, from, to) == AllowedIn(LOGIN, m, Checks(arrivals), host, from, to)
    decreases arrivals
  {
    if arrivals != [] {
      var a := arrivals[0];
      PortIsCutOff(a.host, a.port);
      assert Checks(arrivals)[0] == Request(a.host, a.seen, a.now) && Checks(arrivals)[1..] == Checks(arrivals[1..]);
      PassedAreAllowed(AfterAllow(LOGIN, m, a.host, a.seen, a.now), arrivals[1..], host, from, to);
    }
  }

  /** All ports of a host share one budget: ten attempts and one more for every full minute of the window. */
  lemma HostBudget(arrivals: seq<Arrival>, clock: int, delay: nat, host: string, from: int, to: int)
    requires forall i | 0 <= i < |arrivals| :: ':' !in arrivals[i].port
    requires Timed(Checks(arrivals), clock, delay) && delay <= 840 * SECOND + 1 && from <= to
    ensures PassedIn(map[], arrivals, host, from, to) <= 10 + (to - from) / 60_000_000_000
  {
    PassedAreAllowed(map[], arrivals, host, from, to);
    LoginWindow(Checks(arrivals), clock, delay, host, from, to);
  }

  /** The route's limiter as the router builds it, and the login handler's own. */
  class LoginRoute {
    const route: RateLimiter
    const login: RateLimiter

    constructor ()
      ensures Valid() && route.limiters == login.limiters == map[] && fresh(route) && fresh(login)
    {
      route := new RateLimiter(LOGIN);
      login := new RateLimiter(LOGIN);
    }

    ghost predicate Valid() {
      route != login && route.p == login.p == LOGIN
    }

    /** The middleware: whether the request is passed on. */
    method LimitByIP(addr: string, seen: int, now: int) returns (passed: bool)
      requires Valid()
      modifies route
      ensures ':' !in addr ==>
                && passed == Allows(LOGIN, old(route.limiters), addr, now)
                && route.limiters == AfterAllow(LOGIN, old(route.limiters), addr, seen, now)
      ensures forall i | 0 <= i < |addr| && addr[i] == ':' && ':' !in addr[i + 1..] ::
                && passed == Allows(LOGIN, old(route.limiters), addr[..i], now)
                && route.limiters == AfterAllow(LOGIN, old(route.limiters), addr[..i], seen, now)
      ensures passed == Allows(LOGIN, old(route.limiters), ClientIP(addr), now)
      ensures route.limiters == AfterAllow(LOGIN, old(route.limiters), ClientIP(addr), seen, now)
    {
      KeyIsHost(addr);
      passed := route.Allow(ClientIP(addr), seen, now);
    }

    /** The handler's first check: whether the attempt goes on to the credentials. */
    method Login(addr: string, seen: int, now: int) returns (passed: bool)
      requires Valid()
      modifies login
      ensures ':' !in addr ==>
                && passed == Allows(LOGIN, old(login.limiters), addr, now)
                && login.limiters == AfterAllow(LOGIN, old(login.limiters), addr, seen, now)
      ensures forall i | 0 <= i < |addr| && addr[i] == ':' && ':' !in addr[i + 1..] ::
                && passed == Allows(LOGIN, old(login.limiters), addr[..i], now)
                && login.limiters == AfterAllow(LOGIN, old(login.limiters), addr[..i], seen, now)
      ensures passed == Allows(LOGIN, old(login.limiters), ClientIP(addr), now)
      ensures login.limiters == AfterAllow(LOGIN, old(login.limiters), ClientIP(addr), seen, now)
    {
      KeyIsHost(addr);
      passed := login.Allow(ClientIP(addr), seen, now);
    }
  }

  // ---- Interleaved traffic ----

  /** `toLogin` says whether a request that passes the route goes on to Login; `i` picks one of the requests of
      the address that wait for their second check. */
  datatype Check =
    | AtRoute(addr: string, toLogin: bool, seen: int, now: int)
    | AtLogin(addr: string, i: nat, seen: int, now: int)
    | CleanRoute(now: int)
    | CleanLogin(now: int)

  /** Both tables, the time of the last access to each, and for each key the times at which its waiting requests
      passed the route. */
  datatype Front = Front(
    route: Limiters, routeAt: int, login: Limiters, loginAt: int, waiting: map<string, seq<int>>, clock: int)

  function Start(clock: int): Front {
    Front(map[], clock, map[], clock, map[], clock)
  }

  function Waiting(s: Front, k: string): seq<int> {
    if k in s.waiting then s.waiting[k] else []
  }

  function Without(w: seq<int>, i: nat): seq<int> {
    if i < |w| then w[..i] + w[i + 1..] else w
  }

  function Pass(p: Params, s: Front, x: Check): Front {
    match x
    case AtRoute(addr, toLogin, seen, now) =>
      var k := ClientIP(addr);
      s.(route := AfterAllow(p, s.route, k, seen, now), routeAt := now, clock := now,
         waiting := if toLogin && Allows(p, s.route, k, now) then s.waiting[k := Waiting(s, k) + [now]] else s.waiting)
    case AtLogin(addr, i, seen, now) =>
      var k := ClientIP(addr);
      s.(login := AfterAllow(p, s.login, k, seen, now), loginAt := now, clock := now,
         waiting := s.waiting[k := Without(Waiting(s, k), i)])
    case CleanRoute(now) => s.(route := Evict(p, s.route, now), routeAt := now, clock := now)
    case CleanLogin(now) => s.(login := Evict(p, s.login, now), loginAt := now, clock := now)
  }

  /** No request waits longer than `gap` for its second check. */
  predicate InTime(w: seq<int>, now: int, gap: nat) {
    forall i | 0 <= i < |w| :: now <= w[i] + gap
  }

  predicate Admissible(s: Front, x: Check, delay: nat, gap: nat) {
    && s.clock <= x.now
    && (forall k | k in s.waiting :: InTime(s.waiting[k], x.now, gap))
    && match x
       case AtRoute(_, _, seen, now) => s.routeAt <= seen <= now <= seen + delay
       case AtLogin(addr, i, seen, now) =>
         i < |Waiting(s, ClientIP(addr))| && s.loginAt <= seen <= now <= seen + delay
       case _ => true
  }

  predicate Runs(p: Params, s: Front, traffic: seq<Check>, delay: nat, gap: nat)
    decreases traffic
  {
    traffic == [] ||
    (Admissible(s, traffic[0], delay, gap) && Runs(p, Pass(p, s, traffic[0]), traffic[1..], delay, gap))
  }

  predicate Rejects(p: Params, s: Front, x: Check) {
    x.AtLogin? && !Allows(p, s.login, ClientIP(x.addr), x.now)
  }

  /** For every attempt that Login rejects, what the route's bucket of its address holds at that moment. */
  function Rejections(p: Params, s: Front, traffic: seq<Check>): seq<int>
    decreases traffic
  {
    if traffic == [] then []
    else
      var x := traffic[0];
      (if Rejects(p, s, x) then [LevelOf(p, s.route, ClientIP(x.addr), x.now)] else [])
      + Rejections(p, Pass(p, s, x), traffic[1..])
  }

  // ---- What every check keeps ----

  /** The requests that wait for a check at Login are paid for there, up to `gap`, and the route's bucket still
      misses what they took since they passed. */
  predicate Balanced(p: Params, route: int, login: int, w: seq<int>, t: int, gap: nat) {
    && route + |w| * p.period <= login + gap
    && forall i | 0 <= i < |w| :: route + (|w| - i) * p.period - (t - w[i]) <= Capacity(p)
  }

  ghost predicate BalancedAt(p: Params, s: Front, k: string, t: int, gap: nat) {
    Balanced(p, LevelOf(p, s.route, k, t), LevelOf(p, s.login, k, t), Waiting(s, k), t, gap)
  }

  ghost predicate Good(p: Params, s: Front, delay: nat, gap: nat) {
    && Sound(p, s.route, s.routeAt, delay) && Sound(p, s.login, s.loginAt, delay)
    && s.routeAt <= s.clock && s.loginAt <= s.clock
    && forall k :: BalancedAt(p, s, k, s.clock, gap)
  }

  lemma BalanceOverTime(p: Params, route: int, login: int, w: seq<int>, t: int, t': int, gap: nat)
    requires Balanced(p, route, login, w, t, gap) && t <= t' && InTime(w, t', gap)
    requires route <= Capacity(p)
    ensures Balanced(p, Min(route + t' - t, Capacity(p)), Min(login + t' - t, Capacity(p)), w, t', gap)
  {
    forall i | 0 <= i < |w|
      ensures Min(route + t' - t, Capacity(p)) + (|w| - i) * p.period - (t' - w[i]) <= Capacity(p)
    {
      assert route + (|w| - i) * p.period - (t - w[i]) <= Capacity(p);
    }
    if |w| > 0 {
      assert t' <= w[0] + gap;
    }
  }

  lemma LevelLater(p: Params, m: Limiters, at: int, delay: nat, k: string, t: int, t': int)
    requires Sound(p, m, at, delay) && at <= t <= t'
    ensures LevelOf(p, m, k, t') == Min(LevelOf(p, m, k, t) + t' - t, Capacity(p))
    ensures 0 <= LevelOf(p, m, k, t) <= Capacity(p)
  {
    if k in m {
      assert SoundEntry(p, m[k], at, delay);
    }
  }

  /** What is left at `now` after a check of `key`. */
  lemma LevelAfter(p: Params, m: Limiters, at: int, delay: nat, key: string, seen: int, now: int, k: string)
    requires Sound(p, m, at, delay) && at <= now
    ensures LevelOf(p, AfterAllow(p, m, key, seen, now), k, now)
            == LevelOf(p, m, k, now) - if k == key && Allows(p, m, key, now) then p.period else 0
  {
    LevelLater(p, m, at, delay, k, now, now);
    if k in m {
      assert SoundEntry(p, m[k], at, delay);
    }
  }

  lemma PassesRoute(p: Params, route: int, login: int, w: seq<int>, t: int, gap: nat)
    requires Balanced(p, route, login, w, t, gap) && route <= Capacity(p)
    ensures Balanced(p, route - p.period, login, w, t, gap)
    ensures Balanced(p, route - p.period, login, w + [t], t, gap)
  {
    var w' := w + [t];
    TakeOne(|w|, p.period);
    forall i | 0 <= i < |w'|
      ensures route - p.period + (|w'| - i) * p.period - (t - w'[i]) <= Capacity(p)
    {
      TakeOne(|w| - i, p.period);
      if i < |w| {
        assert route + (|w| - i) * p.period - (t - w[i]) <= Capacity(p);
      }
    }
  }

  lemma TakeOne(n: int, period: int)
    ensures (n + 1) * period == n * period + period
  {
  }

  lemma PassesLogin(p: Params, route: int, login: int, w: seq<int>, i: nat, t: int, gap: nat)
    requires Balanced(p, route, login, w, t, gap) && i < |w|
    ensures Balanced(p, route, login - p.period, Without(w, i), t, gap)
    ensures Balanced(p, route, login, Without(w, i), t, gap)
    ensures login + gap >= route + p.period
  {
    var w' := Without(w, i);
    TakeOne(|w'|, p.period);
    TimesMonotone(1, |w|, p.period);
    forall j | 0 <= j < |w'| ensures route + (|w'| - j) * p.period - (t - w'[j]) <= Capacity(p) {
      TakeOne(|w'| - j, p.period);
      var j' := if j < i then j else j + 1;
      assert w'[j] == w[j'];
      assert route + (|w| - j') * p.period - (t - w[j']) <= Capacity(p);
    }
  }

  /** Time alone keeps every key balanced. */
  lemma WaitingKeepsBalance(p: Params, s: Front, x: Check, delay: nat, gap: nat, k: string)
    requires Good(p, s, delay, gap) && Admissible(s, x, delay, gap)
    ensures BalancedAt(p, s, k, x.now, gap)
  {
    assert BalancedAt(p, s, k, s.clock, gap);
    assert InTime(Waiting(s, k), x.now, gap);
    LevelLater(p, s.route, s.routeAt, delay, k, s.clock, x.now);
    LevelLater(p, s.login, s.loginAt, delay, k, s.clock, x.now);
    BalanceOverTime(
      p, LevelOf(p, s.route, k, s.clock), LevelOf(p, s.login, k, s.clock), Waiting(s, k), s.clock, x.now, gap);
  }

  lemma RouteKeepsBalance(p: Params, s: Front, x: Check, delay: nat, gap: nat, k: string)
    requires Good(p, s, delay, gap) && Admissible(s, x, delay, gap) && x.AtRoute?
    ensures BalancedAt(p, Pass(p, s, x), k, x.now, gap)
  {
    WaitingKeepsBalance(p, s, x, delay, gap, k);
    LevelLater(p, s.route, s.routeAt, delay, k, x.now, x.now);
    LevelAfter(p, s.route, s.routeAt, delay, ClientIP(x.addr), x.seen, x.now, k);
    PassesRoute(p, LevelOf(p, s.route, k, x.now), LevelOf(p, s.login, k, x.now), Waiting(s, k), x.now, gap);
  }

  lemma LoginKeepsBalance(p: Params, s: Front, x: Check, delay: nat, gap: nat, k: string)
    requires Good(p, s, delay, gap) && Admissible(s, x, delay, gap) && x.AtLogin?
    ensures BalancedAt(p, Pass(p, s, x), k, x.now, gap)
  {
    WaitingKeepsBalance(p, s, x, delay, gap, k);
    LevelAfter(p, s.login, s.loginAt, delay, ClientIP(x.addr), x.seen, x.now, k);
    if k == ClientIP(x.addr) {
      PassesLogin(p, LevelOf(p, s.route, k, x.now), LevelOf(p, s.login, k, x.now), Waiting(s, k), x.i, x.now, gap);
    }
  }

  /** A check keeps every key balanced. */
  lemma CheckKeepsBalance(p: Params, s: Front, x: Check, delay: nat, gap: nat, k: string)
    requires RefillsBeforeEviction(p, delay) && Good(p, s, delay, gap) && Admissible(s, x, delay, gap)
    ensures BalancedAt(p, Pass(p, s, x), k, x.now, gap)
  {
    match x
    case AtRoute(_, _, _, _) => RouteKeepsBalance(p, s, x, delay, gap, k);
    case AtLogin(_, _, _, _) => LoginKeepsBalance(p, s, x, delay, gap, k);
    case CleanRoute(now) =>
      WaitingKeepsBalance(p, s, x, delay, gap, k);
      EvictKeepsLevels(p, s.route, now, s.routeAt, delay, k, now);
    case CleanLogin(now) =>
      WaitingKeepsBalance(p, s, x, delay, gap, k);
      EvictKeepsLevels(p, s.login, now, s.loginAt, delay, k, now);
  }

  /** What every check keeps. */
  lemma CheckKeepsGood(p: Params, s: Front, x: Check, delay: nat, gap: nat)
    requires RefillsBeforeEviction(p, delay) && Good(p, s, delay, gap) && Admissible(s, x, delay, gap)
    ensures Good(p, Pass(p, s, x), delay, gap)
  {
    match x {
      case AtRoute(addr, _, seen, now) => StepIsSound(p, s.route, Request(ClientIP(addr), seen, now), s.routeAt, delay);
      case AtLogin(addr, _, seen, now) => StepIsSound(p, s.login, Request(ClientIP(addr), seen, now), s.loginAt, delay);
      case CleanRoute(now) => StepIsSound(p, s.route, Clean(now), s.routeAt, delay);
      case CleanLogin(now) => StepIsSound(p, s.login, Clean(now), s.loginAt, delay);
    }
    forall k ensures BalancedAt(p, Pass(p, s, x), k, x.now, gap) {
      CheckKeepsBalance(p, s, x, delay, gap, k);
    }
  }

  /** Login rejects only an attempt that finds less than `gap` in the route's bucket. */
  lemma RejectionIsPoor(p: Params, s: Front, x: Check, delay: nat, gap: nat)
    requires RefillsBeforeEviction(p, delay) && Good(p, s, delay, gap) && Admissible(s, x, delay, gap)
    requires Rejects(p, s, x)
    ensures 0 <= LevelOf(p, s.route, ClientIP(x.addr), x.now) < gap
    ensures LevelOf(p, s.route, ClientIP(x.addr), x.now) <= Capacity(p)
  {
    var k := ClientIP(x.addr);
    WaitingKeepsBalance(p, s, x, delay, gap, k);
    LevelLater(p, s.route, s.routeAt, delay, k, x.now, x.now);
    PassesLogin(p, LevelOf(p, s.route, k, x.now), LevelOf(p, s.login, k, x.now), Waiting(s, k), x.i, x.now, gap);
  }

  predicate AllBelow(all: seq<int>, n: int, cap: int) {
    forall r | r in all :: 0 <= r < n && r <= cap
  }

  lemma {:induction false} RejectionsArePoor(
      p: Params, s: Front, traffic: seq<Check>, delay: nat, gap: nat)
    requires RefillsBeforeEviction(p, delay) && Good(p, s, delay, gap) && Runs(p, s, traffic, delay, gap)
    ensures AllBelow(Rejections(p, s, traffic), gap, Capacity(p))
    decreases traffic
  {
    if traffic != [] {
      var x := traffic[0];
      if Rejects(p, s, x) {
        RejectionIsPoor(p, s, x, delay, gap);
      }
      CheckKeepsGood(p, s, x, delay, gap);
      RejectionsArePoor(p, Pass(p, s, x), traffic[1..], delay, gap);
    }
  }

  /** However the checks interleave, Login rejects an attempt only if the route's bucket of its address then holds
      less than `gap`, the longest time between the two checks of one request. */
  lemma RejectionsBelowGap(p: Params, clock: int, traffic: seq<Check>, delay: nat, gap: nat)
    requires RefillsBeforeEviction(p, delay) && Runs(p, Start(clock), traffic, delay, gap)
    ensures AllBelow(Rejections(p, Start(clock), traffic), gap, Capacity(p))
  {
    RejectionsArePoor(p, Start(clock), traffic, delay, gap);
  }

  // ---- The bound is exact ----

  function Repeat(x: Check, n: nat): seq<Check> {
    if n == 0 then [] else [x] + Repeat(x, n - 1)
  }

  function Zeros(n: nat): seq<int> {
    seq(n, i => 0)
  }

  /** What is left of a burst, `n` requests before its end. */
  function Draining(p: Params, n: nat, at: int): Limiters {
    if n == p.burst then map[] else map["k" := Entry(Bucket(n * p.period, at), at)]
  }

  /** The route has let through all of a burst at time zero but its last `n` requests. */
  function Routed(p: Params, n: nat): Front
    requires n <= p.burst
  {
    Front(Draining(p, n, 0), 0, map[], 0, if n == p.burst then map[] else map["k" := Zeros(p.burst - n)], 0)
  }

  /** Login has checked all of the burst at time `gap` but its last `n` requests; `w` waits besides. */
  function Checked(p: Params, s: Front, n: nat, w: seq<int>, gap: nat): Front
    requires n <= p.burst
  {
    s.(login := Draining(p, n, gap), loginAt := if n == p.burst then s.loginAt else gap,
       waiting := map["k" := Zeros(n) + w], clock := if n == p.burst then s.clock else gap)
  }

  lemma KeyOfK()
    ensures ClientIP("k") == "k"
  {
    assert LastColon("k", 1) == LastColon("k", 0) == -1;
  }

  lemma DrainOne(p: Params, n: nat, at: int)
    requires 0 < n <= p.burst
    ensures Allows(p, Draining(p, n, at), "k", at)
    ensures AfterAllow(p, Draining(p, n, at), "k", at, at) == Draining(p, n - 1, at)
  {
    TakeOne(n - 1, p.period);
    TimesMonotone(n, p.burst, p.period);
    TimesMonotone(0, n - 1, p.period);
  }

  /** From `s`, the checks `a` run without a rejection and end in `s'`. */
  predicate Leads(p: Params, s: Front, a: seq<Check>, s': Front, delay: nat, gap: nat)
    decreases a
  {
    if a == [] then s == s'
    else Admissible(s, a[0], delay, gap) && !Rejects(p, s, a[0]) && Leads(p, Pass(p, s, a[0]), a[1..], s', delay, gap)
  }

  lemma LeadsFirst(p: Params, s: Front, x: Check, rest: seq<Check>, s': Front, delay: nat, gap: nat)
    requires Admissible(s, x, delay, gap) && !Rejects(p, s, x) && Leads(p, Pass(p, s, x), rest, s', delay, gap)
    ensures Leads(p, s, [x] + rest, s', delay, gap)
  {
    assert ([x] + rest)[1..] == rest;
  }

  lemma {:induction false} LeadsOn(
      p: Params, s: Front, a: seq<Check>, s': Front, tail: seq<Check>, delay: nat, gap: nat)
    requires Leads(p, s, a, s', delay, gap)
    ensures Runs(p, s, a + tail, delay, gap) == Runs(p, s', tail, delay, gap)
    ensures Rejections(p, s, a + tail) == Rejections(p, s', tail)
    decreases a
  {
    if a == [] {
      assert a + tail == tail;
    } else {
      assert (a + tail)[0] == a[0] && (a + tail)[1..] == a[1..] + tail;
      LeadsOn(p, Pass(p, s, a[0]), a[1..], s', tail, delay, gap);
    }
  }

  lemma {:induction false} LeadsJoin(
      p: Params, s: Front, a: seq<Check>, s': Front, b: seq<Check>, s'': Front, delay: nat, gap: nat)
    requires Leads(p, s, a, s', delay, gap) && Leads(p, s', b, s'', delay, gap)
    ensures Leads(p, s, a + b, s'', delay, gap)
    decreases a
  {
    if a == [] {
      assert a + b == b;
    } else {
      assert (a + b)[0] == a[0] && (a + b)[1..] == a[1..] + b;
      LeadsJoin(p, Pass(p, s, a[0]), a[1..], s', b, s'', delay, gap);
    }
  }

  lemma RouteOne(p: Params, n: nat, delay: nat, gap: nat)
    requires 0 < n <= p.burst
    ensures var x := AtRoute("k", true, 0, 0);
            && Admissible(Routed(p, n), x, delay, gap) && !Rejects(p, Routed(p, n), x)
            && Pass(p, Routed(p, n), x) == Routed(p, n - 1)
  {
    KeyOfK();
    DrainOne(p, n, 0);
    assert Zeros(p.burst - n) + [0] == Zeros(p.burst - n + 1);
    assert Pass(p, Routed(p, n), AtRoute("k", true, 0, 0)).waiting == Routed(p, n - 1).waiting;
  }

  lemma {:induction false} RouteBurst(p: Params, n: nat, delay: nat, gap: nat)
    requires n <= p.burst
    ensures Leads(p, Routed(p, n), Repeat(AtRoute("k", true, 0, 0), n), Routed(p, 0), delay, gap)
  {
    if n > 0 {
      var x := AtRoute("k", true, 0, 0);
      RouteOne(p, n, delay, gap);
      RouteBurst(p, n - 1, delay, gap);
      LeadsFirst(p, Routed(p, n), x, Repeat(x, n - 1), Routed(p, 0), delay, gap);
    }
  }

  lemma LoginOne(p: Params, s: Front, n: nat, w: seq<int>, delay: nat, gap: nat)
    requires 0 < n <= p.burst && s.clock <= gap && s.loginAt == 0 && InTime(w, gap, gap)
    ensures var x, c := AtLogin("k", 0, gap, gap), Checked(p, s, n, w, gap);
            Admissible(c, x, delay, gap) && !Rejects(p, c, x) && Pass(p, c, x) == Checked(p, s, n - 1, w, gap)
  {
    var x, c := AtLogin("k", 0, gap, gap), Checked(p, s, n, w, gap);
    KeyOfK();
    DrainOne(p, n, gap);
    assert Waiting(c, "k") == Zeros(n) + w;
    assert Without(Zeros(n) + w, 0) == Zeros(n - 1) + w;
    assert Pass(p, c, x).waiting == map["k" := Zeros(n - 1) + w];
    assert InTime(Zeros(n) + w, gap, gap);
  }

  lemma {:induction false} LoginBurst(p: Params, s: Front, n: nat, w: seq<int>, delay: nat, gap: nat)
    requires n <= p.burst && s.clock <= gap && s.loginAt == 0 && InTime(w, gap, gap)
    ensures Leads(
              p, Checked(p, s, n, w, gap), Repeat(AtLogin("k", 0, gap, gap), n), Checked(p, s, 0, w, gap), delay, gap)
  {
    if n > 0 {
      var x := AtLogin("k", 0, gap, gap);
      LoginOne(p, s, n, w, delay, gap);
      LoginBurst(p, s, n - 1, w, delay, gap);
      LeadsFirst(p, Checked(p, s, n, w, gap), x, Repeat(x, n - 1), Checked(p, s, 0, w, gap), delay, gap);
    }
  }

  /** A burst through the route that reaches Login `gap` later, and one more request as soon as the route has one
      to give, checked at Login just before Login has one. */
  function Late(p: Params, gap: nat): seq<Check> {
    Before(p, gap) + [AtLogin("k", 0, gap + p.period - 1, gap + p.period - 1)]
  }

  function Before(p: Params, gap: nat): seq<Check> {
    var burst, checks := Repeat(AtRoute("k", true, 0, 0), p.burst), Repeat(AtLogin("k", 0, gap, gap), p.burst);
    var more := [AtRoute("k", true, p.period, p.period)];
    burst + if gap < p.period then checks + more else more + checks
  }

  /** After all checks but the last. */
  function Poor(p: Params, gap: nat): Front {
    Front(map["k" := Entry(Bucket(0, p.period), p.period)], p.period,
          map["k" := Entry(Bucket(0, gap), gap)], gap, map["k" := [p.period]], Max(gap, p.period))
  }

  lemma PoorRejects(p: Params, delay: nat, gap: nat)
    requires p.period > 0 && p.burst > 0 && gap > 0
    ensures var last := [AtLogin("k", 0, gap + p.period - 1, gap + p.period - 1)];
            && Runs(p, Poor(p, gap), last, delay, gap)
            && Rejections(p, Poor(p, gap), last) == [Min(gap - 1, Capacity(p))]
  {
    KeyOfK();
    CapacityHoldsPeriod(p);
    var last := AtLogin("k", 0, gap + p.period - 1, gap + p.period - 1);
    var s := Poor(p, gap);
    assert [last][1..] == [];
    assert Waiting(s, "k") == [p.period];
    assert InTime(s.waiting["k"], last.now, gap);
    assert Admissible(s, last, delay, gap);
    assert Rejects(p, s, last);
  }

  /** The route has let one more request through, one period after the burst. */
  function OneMore(p: Params, s: Front): Front {
    s.(route := map["k" := Entry(Bucket(0, p.period), p.period)], routeAt := p.period,
       waiting := map["k" := Waiting(s, "k") + [p.period]], clock := p.period)
  }

  lemma OneMoreLeads(p: Params, s: Front, w: seq<int>, delay: nat, gap: nat)
    requires p.period > 0 && p.burst > 0
    requires s.route == Draining(p, 0, 0) && s.routeAt == 0 && s.clock <= p.period
    requires s.waiting == map["k" := w] && InTime(w, p.period, gap)
    ensures Leads(p, s, [AtRoute("k", true, p.period, p.period)], OneMore(p, s), delay, gap)
  {
    KeyOfK();
    CapacityHoldsPeriod(p);
    var x := AtRoute("k", true, p.period, p.period);
    assert [x][1..] == [];
    assert LevelOf(p, s.route, "k", p.period) == p.period;
    assert Waiting(s, "k") == w;
    assert Pass(p, s, x).waiting == OneMore(p, s).waiting;
    assert Pass(p, s, x).route == OneMore(p, s).route;
  }

  /** All checks but the last, in the order of the shorter gaps. */
  lemma ShortGapLeads(p: Params, delay: nat, gap: nat)
    requires p.period > 0 && p.burst > 0 && 0 < gap < p.period
    ensures Leads(p, Start(0), Before(p, gap), Poor(p, gap), delay, gap)
  {
    var s := Routed(p, 0);
    var checks := Repeat(AtLogin("k", 0, gap, gap), p.burst);
    assert Zeros(p.burst) + [] == Zeros(p.burst) && Zeros(0) + [] == [];
    RouteBurst(p, p.burst, delay, gap);
    LoginBurst(p, s, p.burst, [], delay, gap);
    var s' := Checked(p, s, 0, [], gap);
    assert s == Checked(p, s, p.burst, [], gap);
    OneMoreLeads(p, s', [], delay, gap);
    assert OneMore(p, s') == Poor(p, gap) by {
      assert Waiting(s', "k") + [p.period] == [p.period];
    }
    LeadsJoin(p, s, checks, s', [AtRoute("k", true, p.period, p.period)], Poor(p, gap), delay, gap);
    LeadsJoin(p, Start(0), Repeat(AtRoute("k", true, 0, 0), p.burst), s,
              checks + [AtRoute("k", true, p.period, p.period)], Poor(p, gap), delay, gap);
  }

  /** The same for the longer gaps. */
  lemma LongGapLeads(p: Params, delay: nat, gap: nat)
    requires p.period > 0 && p.burst > 0 && p.period <= gap
    ensures Leads(p, Start(0), Before(p, gap), Poor(p, gap), delay, gap)
  {
    var s := Routed(p, 0);
    var checks := Repeat(AtLogin("k", 0, gap, gap), p.burst);
    var w := [p.period];
    RouteBurst(p, p.burst, delay, gap);
    OneMoreLeads(p, s, Zeros(p.burst), delay, gap);
    var s' := OneMore(p, s);
    assert s' == Checked(p, s', p.burst, w, gap);
    LoginBurst(p, s', p.burst, w, delay, gap);
    assert Checked(p, s', 0, w, gap) == Poor(p, gap) by {
      assert Zeros(0) + w == w;
    }
    LeadsJoin(p, s, [AtRoute("k", true, p.period, p.period)], s', checks, Poor(p, gap), delay, gap);
    LeadsJoin(p, Start(0), Repeat(AtRoute("k", true, 0, 0), p.burst), s,
              [AtRoute("k", true, p.period, p.period)] + checks, Poor(p, gap), delay, gap);
  }

  /** For every gap some run is rejected with `gap - 1` in the route's bucket, or with a full one. */
  lemma LateIsRejected(p: Params, delay: nat, gap: nat)
    requires p.period > 0 && p.burst > 0 && gap > 0
    ensures Runs(p, Start(0), Late(p, gap), delay, gap)
    ensures Rejections(p, Start(0), Late(p, gap)) == [Min(gap - 1, Capacity(p))]
  {
    var last := [AtLogin("k", 0, gap + p.period - 1, gap + p.period - 1)];
    PoorRejects(p, delay, gap);
    if gap < p.period {
      ShortGapLeads(p, delay, gap);
    } else {
      LongGapLeads(p, delay, gap);
    }
    LeadsOn(p, Start(0), Before(p, gap), Poor(p, gap), last, delay, gap);
  }

  /** On every run, an attempt that finds `n` in the route's bucket is not rejected by Login. */
  ghost predicate EnoughAtRoute(p: Params, n: nat, delay: nat, gap: nat) {
    forall clock, traffic | Runs(p, Start(clock), traffic, delay, gap) ::
      forall r | r in Rejections(p, Start(clock), traffic) :: r < n
  }

  /** The exact amount: `n` in the route's bucket is enough for Login if and only if it covers the longest time
      between the two checks of a request, or no bucket holds that much. */
  lemma EnoughAtRouteIff(p: Params, n: nat, delay: nat, gap: nat)
    requires p.period > 0 && p.burst > 0 && RefillsBeforeEviction(p, delay)
    ensures EnoughAtRoute(p, n, delay, gap) <==> gap <= n || Capacity(p) < n
  {
    if gap <= n || Capacity(p) < n {
      forall clock, traffic | Runs(p, Start(clock), traffic, delay, gap)
        ensures forall r | r in Rejections(p, Start(clock), traffic) :: r < n
      {
        RejectionsBelowGap(p, clock, traffic, delay, gap);
      }
    } else {
      LateIsRejected(p, delay, gap);
      assert Min(gap - 1, Capacity(p)) in Rejections(p, Start(0), Late(p, gap));
    }
  }

  lemma NoneBelowZero(all: seq<int>, cap: int)
    requires AllBelow(all, 0, cap)
    ensures all == []
  {
    var r := if all == [] then 0 else all[0];
    assert all == [] || r in all;
  }

  ghost predicate LoginNeverRejects(delay: nat, gap: nat) {
    forall clock, traffic | Runs(LOGIN, Start(clock), traffic, delay, gap) ::
      Rejections(LOGIN, Start(clock), traffic) == []
  }

  /** With the login preset twice, the limiter inside Login never rejects what the route let through if and only
      if the two checks of every request fall on one instant. */
  lemma LoginNeverRejectsIff(delay: nat, gap: nat)
    requires delay <= 840 * SECOND + 1
    ensures LoginNeverRejects(delay, gap) <==> gap == 0
  {
    PresetsRefill(delay);
    if gap == 0 {
      forall clock, traffic | Runs(LOGIN, Start(clock), traffic, delay, gap)
        ensures Rejections(LOGIN, Start(clock), traffic) == []
      {
        RejectionsBelowGap(LOGIN, clock, traffic, delay, gap);
        NoneBelowZero(Rejections(LOGIN, Start(clock), traffic), Capacity(LOGIN));
      }
    } else {
      LateIsRejected(LOGIN, delay, gap);
    }
  }
}
