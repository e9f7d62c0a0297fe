/** The agent's task endpoint: parse, verify, execute (agent/cmd/agent/main.go, agent/internal/operations/allowlist.go),
    and what holds over whole runs of it. JSON transport is the identity on task fields. */
module Agent {
  import opened Text
  import opened Protocol
  import Nonce
  import Signer

  datatype HandlerResult = Success(output: string) | Failure(message: string)

  type Handler = string -> HandlerResult

  datatype ExecuteError = ForbiddenOperation | NotImplemented | HandlerError(message: string)

  /** The closed set of operations and the handlers registered for some of them. */
  class Registry {
    const allowlist: set<string>
    var handlers: map<string, Handler>
    ghost var calls: seq<(string, string)> // every handler call made: operation and payload

    ghost predicate Valid()
      reads this
    {
      handlers.Keys <= allowlist
    }

    constructor (allowlist: set<string>)
      ensures Valid() && this.allowlist == allowlist && handlers == map[] && calls == []
    {
      this.allowlist := allowlist;
      handlers, calls := map[], [];
    }

    /** Registering an operation outside the allowlist panics and changes nothing. */
    method Register(op: string, h: Handler) returns (panicked: bool)
      requires Valid()
      modifies this`handlers
      ensures Valid()
      ensures panicked <==> op !in allowlist
      ensures handlers == if panicked then old(handlers) else old(handlers)[op := h]
    {
      if op !in allowlist {
        return true;
      }
      handlers := handlers[op := h];
      panicked := false;
    }

    method Execute(op: string, payload: string) returns (result: Result<string, ExecuteError>)
      modifies this`calls
      ensures result.Ok? <==> op in allowlist && op in handlers && handlers[op](payload).Success?
      ensures result.Ok? ==> handlers[op](payload) == Success(result.value)
      ensures result == Err(ForbiddenOperation) <==> op !in allowlist
      ensures result == Err(NotImplemented) <==> op in allowlist && op !in handlers
      ensures forall m :: result == Err(HandlerError(m)) <==>
                op in allowlist && op in handlers && handlers[op](payload) == Failure(m)
      ensures result == Executed(allowlist, handlers, op, payload)
      ensures calls == old(calls) + if op in allowlist && op in handlers then [(op, payload)] else []
    {
      if op !in allowlist {
        return Err(ForbiddenOperation);
      }
      if op !in handlers {
        return Err(NotImplemented);
      }
      var outcome := handlers[op](payload);
      calls := calls + [(op, payload)];
      match outcome
      case Success(output) => result := Ok(output);
      case Failure(message) => result := Err(HandlerError(message));
    }
  }

  function Executed(allowlist: set<string>, handlers: map<string, Handler>, op: string, payload: string)
    : Result<string, ExecuteError>
  {
    if op !in allowlist then Err(ForbiddenOperation)
    else if op !in handlers then Err(NotImplemented)
    else
      match handlers[op](payload)
      case Success(output) => Ok(output)
      case Failure(message) => Err(HandlerError(message))
  }

  /** `body` is None when it could not be read or was not a JSON task. */
  datatype Request = Request(isPost: bool, body: Option<Task>)

  datatype Response =
    | MethodNotAllowed | BadRequest | Forbidden
    | Succeeded(taskID: string, output: string)
    | Failed(taskID: string, error: ExecuteError)

  predicate ParsesTask(body: Option<Task>) {
    body.Some? && body.value.envelope.taskID != "" && body.value.envelope.nodeID != ""
  }

  /** What stays fixed while the agent serves: its verifier settings and its registry. */
  datatype Node = Node(cfg: Settings, allowlist: set<string>, handlers: map<string, Handler>)

  predicate Accepts(node: Node, seen: Nonce.Entries, r: Request, at: Readings) {
    r.isPost && ParsesTask(r.body) && Verify(node.cfg, seen, r.body.value, at).None?
  }

  predicate Executable(node: Node, op: string) {
    op in node.allowlist && op in node.handlers
  }

  function Respond(node: Node, seen: Nonce.Entries, r: Request, at: Readings): Response {
    if !r.isPost then MethodNotAllowed
    else if !ParsesTask(r.body) then BadRequest
    else if !Accepts(node, seen, r, at) then Forbidden
    else
      var t := r.body.value;
      match Executed(node.allowlist, node.handlers, t.operation, t.payload)
      case Ok(output) => Succeeded(t.envelope.taskID, output)
      case Err(e) => Failed(t.envelope.taskID, e)
  }

  function Next(node: Node, seen: Nonce.Entries, r: Request, at: Readings): Nonce.Entries {
    if Accepts(node, seen, r, at) then Remember(node.cfg, seen, r.body.value, at) else seen
  }

  class Agent {
    const verifier: Verifier
    const registry: Registry

    constructor (verifier: Verifier, registry: Registry)
      ensures this.verifier == verifier && this.registry == registry
    {
      this.verifier := verifier;
      this.registry := registry;
    }

    function Config(): Node
      reads registry
    {
      Node(verifier.cfg, registry.allowlist, registry.handlers)
    }

    method HandleTask(r: Request, at: Readings) returns (response: Response)
      modifies verifier.store, registry`calls
      ensures response == MethodNotAllowed <==> !r.isPost
      ensures response == BadRequest <==>
              r.isPost && (r.body.None? || r.body.value.envelope.taskID == "" || r.body.value.envelope.nodeID == "")
      ensures response == Forbidden <==>
              && r.isPost && r.body.Some? && r.body.value.envelope.taskID != "" && r.body.value.envelope.nodeID != ""
              && Verify(verifier.cfg, old(verifier.store.entries), r.body.value, at).Some?
      ensures response.Succeeded? || response.Failed? ==>
                r.body.Some? && response.taskID == r.body.value.envelope.taskID
      ensures response.Succeeded? <==>
              && Accepts(Config(), old(verifier.store.entries), r, at)
              && r.body.value.operation in registry.allowlist && r.body.value.operation in registry.handlers
              && registry.handlers[r.body.value.operation](r.body.value.payload).Success?
      ensures response.Succeeded? ==>
                registry.handlers[r.body.value.operation](r.body.value.payload) == Success(response.output)
      ensures response.Failed? ==>
                var op := r.body.value.operation;
                match response.error
                case ForbiddenOperation => op !in registry.allowlist
                case NotImplemented => op in registry.allowlist && op !in registry.handlers
                case HandlerError(m) =>
                  op in registry.allowlist && op in registry.handlers
                  && registry.handlers[op](r.body.value.payload) == Failure(m)
      ensures Accepts(Config(), old(verifier.store.entries), r, at) <==> response.Succeeded? || response.Failed?
      ensures verifier.store.entries
              == if response.Succeeded? || response.Failed?
                 then old(verifier.store.entries)[r.body.value.envelope.nonce := at.markAt + verifier.cfg.maxAge * 2]
                 else old(verifier.store.entries)
      ensures response == Respond(Config(), old(verifier.store.entries), r, at)
      ensures verifier.store.entries == Next(Config(), old(verifier.store.entries), r, at)
      ensures registry.calls == old(registry.calls) +
                                if Accepts(Config(), old(verifier.store.entries), r, at)
                                   && Executable(Config(), r.body.value.operation)
                                then [(r.body.value.operation, r.body.value.payload)] else []
    {
      if !r.isPost {
        return MethodNotAllowed;
      }
      if !ParsesTask(r.body) {
        return BadRequest;
      }
      var t := r.body.value;
      var failed := verifier.VerifyTask(t, at);
      if failed.Some? {
        return Forbidden;
      }
      var result := registry.Execute(t.operation, t.payload);
      match result
      case Ok(output) => response := Succeeded(t.envelope.taskID, output);
      case Err(e) => response := Failed(t.envelope.taskID, e);
    }
  }

  // ---- Whole runs ----

  datatype Step = Submit(request: Request, at: Readings) | Sweep(now: int)

  /** One accepted submission; `ran` says whether it reached a handler. */
  datatype Acceptance = Acceptance(task: Task, at: Readings, ran: bool)

  /** Steps are serialised, the clock never runs backwards, and within one submission the replay check
      reads the clock at most `delay` after the expiry check does. */
  predicate Timed(steps: seq<Step>, clock: int, delay: int) {
    steps == [] ||
    match steps[0]
    case Submit(_, at) =>
      clock <= at.now <= at.seenAt <= at.markAt && at.seenAt <= at.now + delay
      && Timed(steps[1..], at.markAt, delay)
    case Sweep(now) => clock <= now && Timed(steps[1..], now, delay)
  }

  function EndOf(step: Step): int {
    if step.Submit? then step.at.markAt else step.now
  }

  function StepTable(node: Node, seen: Nonce.Entries, step: Step): Nonce.Entries {
    match step
    case Submit(r, at) => Next(node, seen, r, at)
    case Sweep(now) => Nonce.Sweep(seen, now)
  }

  function Table(node: Node, seen: Nonce.Entries, steps: seq<Step>): Nonce.Entries
    decreases steps
  {
    if steps == [] then seen else Table(node, StepTable(node, seen, steps[0]), steps[1..])
  }

  function StepLog(node: Node, seen: Nonce.Entries, step: Step): seq<Acceptance> {
    match step
    case Submit(r, at) =>
      if Accepts(node, seen, r, at)
      then [Acceptance(r.body.value, at, Executable(node, r.body.value.operation))]
      else []
    case Sweep(_) => []
  }

  /** Every acceptance of a run, in order. */
  function Log(node: Node, seen: Nonce.Entries, steps: seq<Step>): seq<Acceptance>
    decreases steps
  {
    if steps == [] then []
    else StepLog(node, seen, steps[0]) + Log(node, StepTable(node, seen, steps[0]), steps[1..])
  }

  predicate Genuine(node: Node, a: Acceptance) {
    && Authentic(node.cfg, a.task, a.at.now)
    && (a.ran <==> Executable(node, a.task.operation))
  }

  /** Every acceptance comes from a submitted request and passed all checks; its task is for this node and
      unexpired, and a handler ran only for an allowlisted operation. */
  lemma {:induction false} LogIsSound(node: Node, seen: Nonce.Entries, steps: seq<Step>, i: nat)
    requires i < |Log(node, seen, steps)|
    ensures var a := Log(node, seen, steps)[i];
            && Genuine(node, a)
            && Submit(Request(true, Some(a.task)), a.at) in steps
            && a.task.envelope.nodeID == node.cfg.nodeID
            && a.at.now <= node.cfg.parse(a.task.envelope.expiresAt).value
            && a.task.signature == node.cfg.mac(Canonical(a.task))
            && (a.ran <==> a.task.operation in node.allowlist && a.task.operation in node.handlers)
    decreases steps
  {
    var head := StepLog(node, seen, steps[0]);
    if i >= |head| {
      LogIsSound(node, StepTable(node, seen, steps[0]), steps[1..], i - |head|);
    } else {
      VerifyOutcome(node.cfg, seen, head[0].task, head[0].at);
    }
  }

  /** The table blocks `nonce` until `until`, or that moment has passed. */
  predicate Blocked(seen: Nonce.Entries, nonce: string, until: int, clock: int) {
    until <= clock || (nonce in seen && until <= seen[nonce])
  }

  lemma {:induction false} NoEarlyRepeat(
      node: Node, seen: Nonce.Entries, steps: seq<Step>, clock: int, delay: int, nonce: string, until: int, i: nat)
    requires Timed(steps, clock, delay) && Blocked(seen, nonce, until, clock)
    requires i < |Log(node, seen, steps)| && Log(node, seen, steps)[i].task.envelope.nonce == nonce
    ensures until <= Log(node, seen, steps)[i].at.seenAt
    decreases steps
  {
    var head := StepLog(node, seen, steps[0]);
    if i >= |head| {
      var next := StepTable(node, seen, steps[0]);
      var clock' := EndOf(steps[0]);
      assert Blocked(next, nonce, until, clock');
      NoEarlyRepeat(node, next, steps[1..], clock', delay, nonce, until, i - |head|);
    }
  }

  /** Two acceptances of one nonce are at least twice the maximum age apart. */
  lemma {:induction false} RepeatGap(
      node: Node, seen: Nonce.Entries, steps: seq<Step>, clock: int, delay: int, i: nat, j: nat)
    requires Timed(steps, clock, delay) && i < j < |Log(node, seen, steps)|
    requires Log(node, seen, steps)[i].task.envelope.nonce == Log(node, seen, steps)[j].task.envelope.nonce
    ensures Log(node, seen, steps)[i].at.markAt + node.cfg.maxAge * 2 <= Log(node, seen, steps)[j].at.seenAt
    ensures Log(node, seen, steps)[i].at.now <= Log(node, seen, steps)[i].at.markAt <= Log(node, seen, steps)[j].at.now
    ensures Log(node, seen, steps)[j].at.seenAt <= Log(node, seen, steps)[j].at.now + delay
    decreases steps
  {
    var head := StepLog(node, seen, steps[0]);
    var next := StepTable(node, seen, steps[0]);
    var clock' := EndOf(steps[0]);
    if i >= |head| {
      RepeatGap(node, next, steps[1..], clock', delay, i - |head|, j - |head|);
    } else {
      var nonce := head[0].task.envelope.nonce;
      NoEarlyRepeat(node, next, steps[1..], clock', delay, nonce, clock' + node.cfg.maxAge * 2, j - 1);
      ReadingsInOrder(node, next, steps[1..], clock', delay, j - 1);
    }
  }

  lemma {:induction false} ReadingsInOrder(
      node: Node, seen: Nonce.Entries, steps: seq<Step>, clock: int, delay: int, i: nat)
    requires Timed(steps, clock, delay) && i < |Log(node, seen, steps)|
    ensures var at := Log(node, seen, steps)[i].at;
            clock <= at.now <= at.seenAt <= at.markAt && at.seenAt <= at.now + delay
    decreases steps
  {
    var head := StepLog(node, seen, steps[0]);
    if i >= |head| {
      var clock' := EndOf(steps[0]);
      ReadingsInOrder(node, StepTable(node, seen, steps[0]), steps[1..], clock', delay, i - |head|);
    }
  }

  // ---- At most once ----

  function Lifetime(cfg: Settings, t: Task): int
    requires cfg.parse(t.envelope.issuedAt).Some? && cfg.parse(t.envelope.expiresAt).Some?
  {
    cfg.parse(t.envelope.expiresAt).value - cfg.parse(t.envelope.issuedAt).value
  }

  /** Whatever carries a valid signature was signed by the control plane: its canonical form is that of an issued
      task. */
  ghost predicate Unforged(cfg: Settings, issued: set<Task>, steps: seq<Step>) {
    forall t: Task, at |
      Submit(Request(true, Some(t)), at) in steps && t.signature == cfg.mac(Canonical(t)) ::
      exists k :: k in issued && Canonical(k) == Canonical(t)
  }

  /** How many acceptances in the log carry the text of `k`, unsigned fields aside. */
  function TimesAccepted(log: seq<Acceptance>, k: Task): nat {
    if log == [] then 0
    else (if Canonical(log[0].task) == Canonical(k) then 1 else 0) + TimesAccepted(log[1..], k)
  }

  lemma NextMultiple(n: int, gap: int)
    ensures (n + 1) * gap == n * gap + gap
  {
  }

  /** `n` acceptances, the first with the replay check at `from`, the last with the readings `last`. */
  predicate Spread(from: int, n: int, gap: int, last: Readings) {
    from + (n - 1) * gap <= last.seenAt && (n >= 2 ==> from + (n - 2) * gap <= last.now)
  }

  lemma SpreadFurther(from: int, next: int, n: int, gap: int, last: Readings)
    requires n >= 2 && from + gap <= next && from <= last.now && Spread(next, n - 1, gap, last)
    ensures Spread(from, n, gap, last)
  {
    NextMultiple(n - 2, gap);
    NextMultiple(n - 3, gap);
  }

  /** Acceptances of the text of `k` are a gap apart. */
  ghost predicate Spaced(log: seq<Acceptance>, k: Task, gap: int) {
    && (forall i | 0 <= i < |log| :: log[i].at.now <= log[i].at.seenAt <= log[i].at.markAt)
    && forall i, j | 0 <= i < j < |log| && Canonical(log[i].task) == Canonical(k) == Canonical(log[j].task) ::
         log[i].at.markAt <= log[j].at.now && log[i].at.markAt + gap <= log[j].at.seenAt
  }

  lemma LogIsSpaced(node: Node, k: Task, seen: Nonce.Entries, steps: seq<Step>, clock: int, delay: int)
    requires Timed(steps, clock, delay) && Free(Fields(k), '\n')
    ensures Spaced(Log(node, seen, steps), k, node.cfg.maxAge * 2)
  {
    var log := Log(node, seen, steps);
    forall i | 0 <= i < |log| ensures log[i].at.now <= log[i].at.seenAt <= log[i].at.markAt {
      ReadingsInOrder(node, seen, steps, clock, delay, i);
    }
    forall i, j | 0 <= i < j < |log| && Canonical(log[i].task) == Canonical(k) == Canonical(log[j].task)
      ensures log[i].at.markAt <= log[j].at.now && log[i].at.markAt + node.cfg.maxAge * 2 <= log[j].at.seenAt
    {
      CanonicalIsUnambiguous(k, log[i].task);
      CanonicalIsUnambiguous(k, log[j].task);
      assert Fields(log[i].task)[5] == Fields(log[j].task)[5];
      RepeatGap(node, seen, steps, clock, delay, i, j);
    }
  }

  /** The first and the last of several acceptances of one text lie as far apart as the gaps between them. */
  lemma {:induction false} FirstToLast(log: seq<Acceptance>, k: Task, gap: int) returns (first: nat, last: nat)
    requires Spaced(log, k, gap) && TimesAccepted(log, k) > 0
    ensures first <= last < |log|
    ensures Canonical(log[first].task) == Canonical(k) == Canonical(log[last].task)
    ensures Spread(log[first].at.seenAt, TimesAccepted(log, k), gap, log[last].at)
  {
    var n: int := TimesAccepted(log, k);
    var accepted := Canonical(log[0].task) == Canonical(k);
    if accepted && n == 1 {
      first, last := 0, 0;
    } else {
      first, last := FirstToLast(log[1..], k, gap);
      first, last := first + 1, last + 1;
      if accepted {
        SpreadFurther(log[0].at.seenAt, log[first].at.seenAt, n, gap, log[last].at);
        first := 0;
      }
    }
  }

  /** `n` acceptances fit into the life of `k`: a clock that stays inside its validity, except for the `delay` of
      the last one, passes twice the maximum age between each two of them. */
  predicate Fits(cfg: Settings, k: Task, n: nat, delay: int)
    requires cfg.parse(k.envelope.issuedAt).Some? && cfg.parse(k.envelope.expiresAt).Some?
  {
    var life := Lifetime(cfg, k) + CLOCK_SKEW_TOLERANCE;
    n == 0 ||
    (0 <= life && (n >= 2 ==> (n - 1) * (cfg.maxAge * 2) <= life + delay && (n - 2) * (cfg.maxAge * 2) <= life))
  }

  lemma FewerFit(cfg: Settings, k: Task, n: nat, more: nat, delay: int)
    requires cfg.parse(k.envelope.issuedAt).Some? && cfg.parse(k.envelope.expiresAt).Some?
    requires n <= more && delay >= 0 && Fits(cfg, k, more, delay)
    ensures Fits(cfg, k, n, delay)
  {
    var gap := cfg.maxAge * 2;
    if n >= 2 {
      if gap >= 0 {
        ManyGaps(n - 1, more - 1, gap);
        ManyGaps(n - 2, more - 2, gap);
      } else {
        ManyGaps(0, n - 1, -gap);
        ManyGaps(0, n - 2, -gap);
      }
    }
  }

  lemma ManyGaps(n: nat, more: nat, gap: nat)
    requires n <= more
    ensures n * gap <= more * gap
  {
  }

  /** How often one signed text can be accepted, in any run from any table, whatever else is signed or
      submitted and however its unsigned fields are changed. */
  lemma AcceptancesFit(node: Node, k: Task, seen: Nonce.Entries, steps: seq<Step>, clock: int, delay: int)
    requires Timed(steps, clock, delay) && Free(Fields(k), '\n')
    requires TimesAccepted(Log(node, seen, steps), k) > 0
    ensures node.cfg.parse(k.envelope.issuedAt).Some? && node.cfg.parse(k.envelope.expiresAt).Some?
    ensures delay >= 0 && Fits(node.cfg, k, TimesAccepted(Log(node, seen, steps), k), delay)
  {
    LogIsSpaced(node, k, seen, steps, clock, delay);
    var first, last := FirstToLast(Log(node, seen, steps), k, node.cfg.maxAge * 2);
    ReadingsInOrder(node, seen, steps, clock, delay, first);
    ReadingsInOrder(node, seen, steps, clock, delay, last);
    var a, b := Log(node, seen, steps)[first], Log(node, seen, steps)[last];
    LogIsSound(node, seen, steps, first);
    LogIsSound(node, seen, steps, last);
    CanonicalIsUnambiguous(k, a.task);
    CanonicalIsUnambiguous(k, b.task);
    assert Fields(a.task)[3] == Fields(k)[3] && Fields(a.task)[4] == Fields(k)[4];
    assert Fields(b.task)[4] == Fields(k)[4];
  }

  /** A task whose fields hold no newline and whose nonce outlives it. */
  predicate Covered(cfg: Settings, t: Task, delay: int) {
    && Free(Fields(t), '\n')
    && cfg.parse(t.envelope.issuedAt).Some?
    && cfg.parse(t.envelope.expiresAt).Some?
    && Lifetime(cfg, t) + CLOCK_SKEW_TOLERANCE + delay < cfg.maxAge * 2
  }

  /** Per signed text: over any run from any table, a covered task is accepted at most once. */
  lemma CoveredTextOnce(node: Node, k: Task, seen: Nonce.Entries, steps: seq<Step>, clock: int, delay: int)
    requires Timed(steps, clock, delay) && Covered(node.cfg, k, delay)
    ensures TimesAccepted(Log(node, seen, steps), k) <= 1
  {
    var n := TimesAccepted(Log(node, seen, steps), k);
    if n >= 2 {
      AcceptancesFit(node, k, seen, steps, clock, delay);
      FewerFit(node.cfg, k, 2, n, delay);
    }
  }

  /** At-most-once execution: over any run, every acceptance passed all checks and agrees with an issued task
      on all signed fields, and no covered task among the issued ones is accepted twice. */
  lemma AtMostOnce(node: Node, issued: set<Task>, seen: Nonce.Entries, steps: seq<Step>, clock: int, delay: int)
    requires Timed(steps, clock, delay)
    requires Unforged(node.cfg, issued, steps)
    requires forall k | k in issued :: Free(Fields(k), '\n')
    ensures forall i | 0 <= i < |Log(node, seen, steps)| ::
              Genuine(node, Log(node, seen, steps)[i])
              && exists k :: k in issued &&
                   var t := Log(node, seen, steps)[i].task;
                   var e, f := k.envelope, t.envelope;
                   && f.version == e.version && f.taskID == e.taskID && f.nodeID == e.nodeID
                   && f.issuedAt == e.issuedAt && f.expiresAt == e.expiresAt && f.nonce == e.nonce
                   && t.operation == k.operation && t.payload == k.payload
    ensures forall k | k in issued && Covered(node.cfg, k, delay) :: TimesAccepted(Log(node, seen, steps), k) <= 1
  {
    var log := Log(node, seen, steps);
    forall i | 0 <= i < |log|
      ensures Genuine(node, log[i]) && exists k :: k in issued && Fields(k) == Fields(log[i].task)
    {
      LogIsSound(node, seen, steps, i);
      var k :| k in issued && Canonical(k) == Canonical(log[i].task);
      CanonicalIsUnambiguous(k, log[i].task);
    }
    forall k, t | Fields(k) == Fields(t)
      ensures k.operation == t.operation && k.payload == t.payload && k.envelope == t.envelope.(
                requestID := k.envelope.requestID, idempotencyKey := k.envelope.idempotencyKey)
    {
      FieldsByName(t, k);
    }
    forall k | k in issued && Covered(node.cfg, k, delay) ensures TimesAccepted(log, k) <= 1 {
      CoveredTextOnce(node, k, seen, steps, clock, delay);
    }
  }

  // ---- When a task can run again ----

  /** At least `n` acceptances of the text of `k` reach a handler, unsigned fields aside. */
  predicate RunsTimes(
      node: Node, seen: Nonce.Entries, k: Task, n: nat, steps: seq<Step>, clock: int, delay: int)
  {
    Timed(steps, clock, delay) && TimesRun(Log(node, seen, steps), k) >= n
  }

  function TimesRun(log: seq<Acceptance>, k: Task): nat {
    if log == [] then 0
    else (if log[0].ran && Canonical(log[0].task) == Canonical(k) then 1 else 0) + TimesRun(log[1..], k)
  }

  lemma {:induction false} RunsAreAcceptances(log: seq<Acceptance>, k: Task)
    ensures TimesRun(log, k) <= TimesAccepted(log, k)
  {
    if log != [] {
      RunsAreAcceptances(log[1..], k);
    }
  }

  /** A task that some instant would let through to a handler. */
  predicate Deliverable(node: Node, t: Task) {
    && t.envelope.version == VERSION
    && t.envelope.nodeID == node.cfg.nodeID
    && t.envelope.nodeID != "" && t.envelope.taskID != "" && t.envelope.nonce != "" && t.operation != ""
    && node.cfg.parse(t.envelope.issuedAt).Some?
    && node.cfg.parse(t.envelope.expiresAt).Some?
    && t.signature == node.cfg.mac(Canonical(t))
    && Executable(node, t.operation)
  }

  function Min(a: int, b: int): int {
    if a < b then a else b
  }

  /** `n` submissions of `k`, `gap` apart from `at` on; a submission after `expiry` passed the expiry check in time. */
  function Resend(k: Task, at: int, gap: nat, expiry: int, n: nat): seq<Step>
    decreases n
  {
    if n == 0 then []
    else [Submit(Request(true, Some(k)), Readings(Min(at, expiry), at, at))] + Resend(k, at + gap, gap, expiry, n - 1)
  }

  /** As many gaps as `n` submissions need lie before the expiry. */
  predicate InLife(at: int, gap: nat, expiry: int, n: nat, delay: int) {
    (n >= 1 ==> at + (n - 1) * gap <= expiry + delay) && (n >= 2 ==> at + (n - 2) * gap <= expiry)
  }

  lemma InLifeLater(at: int, gap: nat, expiry: int, n: nat, delay: int)
    requires n >= 2 && InLife(at, gap, expiry, n, delay)
    ensures at <= expiry && InLife(at + gap, gap, expiry, n - 1, delay)
  {
    NextMultiple(n - 2, gap);
    NextMultiple(n - 3, gap);
    MoreTimes(n - 2, gap);
  }

  lemma MoreTimes(n: nat, gap: nat)
    ensures 0 <= n * gap
  {
  }

  lemma {:induction false} ResentRuns(
      node: Node, k: Task, seen: Nonce.Entries, at: int, gap: nat, expiry: int, n: nat, clock: int, delay: int)
    requires Deliverable(node, k) && node.cfg.maxAge * 2 <= gap && delay >= 0
    requires node.cfg.parse(k.envelope.expiresAt) == Some(expiry)
    requires node.cfg.parse(k.envelope.issuedAt).value - CLOCK_SKEW_TOLERANCE <= clock <= at && clock <= expiry
    requires !Nonce.Seen(seen, k.envelope.nonce, at) && InLife(at, gap, expiry, n, delay)
    ensures Timed(Resend(k, at, gap, expiry, n), clock, delay)
    ensures TimesRun(Log(node, seen, Resend(k, at, gap, expiry, n)), k) == n
    decreases n
  {
    if n > 0 {
      var step := Submit(Request(true, Some(k)), Readings(Min(at, expiry), at, at));
      var steps, rest := Resend(k, at, gap, expiry, n), Resend(k, at + gap, gap, expiry, n - 1);
      assert steps[0] == step && steps[1..] == rest;
      var next := StepTable(node, seen, step);
      var ran := Acceptance(k, step.at, true);
      assert StepLog(node, seen, step) == [ran];
      if n > 1 {
        InLifeLater(at, gap, expiry, n, delay);
        ResentRuns(node, k, next, at + gap, gap, expiry, n - 1, at, delay);
      }
      var log, later := Log(node, seen, steps), Log(node, next, rest);
      assert log == [ran] + later && log[1..] == later;
    }
  }

  /** The exact limit of replay protection: a signed text can run `n` times, in some run from some table or from
      the empty one, if and only if twice the maximum age fits that often, less one, into its lifetime, the clock
      skew tolerance and the delay inside one verification. */
  lemma RunsTimesIff(node: Node, k: Task, n: nat, delay: int)
    requires Deliverable(node, k) && Free(Fields(k), '\n') && delay >= 0
    ensures (exists seen, steps, clock :: RunsTimes(node, seen, k, n, steps, clock, delay))
            <==> Fits(node.cfg, k, n, delay)
    ensures (exists steps, clock :: RunsTimes(node, map[], k, n, steps, clock, delay))
            <==> Fits(node.cfg, k, n, delay)
  {
    forall seen, steps, clock | RunsTimes(node, seen, k, n, steps, clock, delay) && n > 0
      ensures Fits(node.cfg, k, n, delay)
    {
      var log := Log(node, seen, steps);
      RunsAreAcceptances(log, k);
      AcceptancesFit(node, k, seen, steps, clock, delay);
      FewerFit(node.cfg, k, n, TimesAccepted(log, k), delay);
    }
    if Fits(node.cfg, k, n, delay) {
      FittingRuns(node, k, n, delay);
    }
  }

  lemma FittingRuns(node: Node, k: Task, n: nat, delay: int)
    requires Deliverable(node, k) && delay >= 0 && Fits(node.cfg, k, n, delay)
    ensures exists steps, clock :: RunsTimes(node, map[], k, n, steps, clock, delay)
  {
    if n == 0 {
      assert RunsTimes(node, map[], k, 0, [], 0, delay);
    } else {
      var first := node.cfg.parse(k.envelope.issuedAt).value - CLOCK_SKEW_TOLERANCE;
      var expiry := node.cfg.parse(k.envelope.expiresAt).value;
      var gap := if node.cfg.maxAge > 0 then node.cfg.maxAge * 2 else 0;
      assert InLife(first, gap, expiry, n, delay);
      ResentRuns(node, k, map[], first, gap, expiry, n, first, delay);
      assert RunsTimes(node, map[], k, n, Resend(k, first, gap, expiry, n), first, delay);
    }
  }

  predicate OutlivesNonce(cfg: Settings, k: Task, delay: int)
    requires cfg.parse(k.envelope.issuedAt).Some? && cfg.parse(k.envelope.expiresAt).Some?
  {
    Lifetime(cfg, k) + CLOCK_SKEW_TOLERANCE >= 0
    && Lifetime(cfg, k) + CLOCK_SKEW_TOLERANCE + delay >= cfg.maxAge * 2
  }

  /** Twice: if and only if the lifetime, the tolerance and the delay reach twice the maximum age. */
  lemma RunsTwiceIff(node: Node, k: Task, delay: int)
    requires Deliverable(node, k) && Free(Fields(k), '\n') && delay >= 0
    ensures (exists seen, steps, clock :: RunsTimes(node, seen, k, 2, steps, clock, delay))
            <==> OutlivesNonce(node.cfg, k, delay)
    ensures (exists steps, clock :: RunsTimes(node, map[], k, 2, steps, clock, delay))
            <==> OutlivesNonce(node.cfg, k, delay)
  {
    RunsTimesIff(node, k, 2, delay);
  }

  /** With the default maximum age of 300 seconds, a built task with a ttl of whole seconds can run twice
      exactly when its ttl and the delay reach 570 seconds: at 5 minutes only after a delay of 270 seconds, at 15
      or 30 always. A 30-minute task can run four times, and five times only after a delay of 570 seconds. */
  lemma BuiltTaskRunsTwiceIff(
      node: Node, b: Signer.Builder, requestID: string, operation: string, payload: string,
      idempotencyKey: string, builtAt: int, taskID: string, nonce: string, delay: int)
    requires b.mac == node.cfg.mac && b.nodeID == node.cfg.nodeID
    requires Signer.RoundTrips(b, node.cfg.parse, builtAt)
    requires nonce != "" && taskID != "" && b.nodeID != "" && operation != "" && Executable(node, operation)
    requires node.cfg.maxAge == 300 * SECOND && b.ttl >= 0 && b.ttl % SECOND == 0 && delay >= 0
    requires Free([taskID, b.nodeID, b.format(builtAt), b.format(builtAt + b.ttl), nonce, operation, payload], '\n')
    ensures var t := Signer.Build(b, requestID, operation, Some(payload), idempotencyKey, builtAt, taskID, nonce).value;
            && ((exists steps, clock :: RunsTimes(node, map[], t, 2, steps, clock, delay)) <==>
                b.ttl + delay >= 570 * SECOND)
            && (b.ttl == 1800 * SECOND ==>
                  (exists steps, clock :: RunsTimes(node, map[], t, 4, steps, clock, delay))
                  && ((exists steps, clock :: RunsTimes(node, map[], t, 5, steps, clock, delay)) <==>
                      delay >= 570 * SECOND))
  {
    var t := Signer.Build(b, requestID, operation, Some(payload), idempotencyKey, builtAt, taskID, nonce).value;
    Signer.BuiltLifetime(b, node.cfg.parse, builtAt);
    assert Signer.SignedText(t.(signature := "")) == Canonical(t);
    var joined := [taskID, b.nodeID, b.format(builtAt), b.format(builtAt + b.ttl), nonce, operation, payload];
    assert Fields(t) == [VERSION] + joined;
    RunsTwiceIff(node, t, delay);
    RunsTimesIff(node, t, 4, delay);
    RunsTimesIff(node, t, 5, delay);
  }

  // ---- Memory bound ----

  /** A run as the nonce table sees it. */
  function TableOps(node: Node, seen: Nonce.Entries, steps: seq<Step>): seq<Nonce.Op>
    decreases steps
  {
    if steps == [] then []
    else [TableOp(node, seen, steps[0])] + TableOps(node, StepTable(node, seen, steps[0]), steps[1..])
  }

  function TableOp(node: Node, seen: Nonce.Entries, step: Step): Nonce.Op {
    match step
    case Submit(r, at) =>
      if Accepts(node, seen, r, at) then Nonce.Put(r.body.value.envelope.nonce, node.cfg.maxAge * 2, at.markAt)
      else Nonce.Has("", at.markAt)
    case Sweep(now) => Nonce.Tick(now)
  }

  function FinalTime(steps: seq<Step>, clock: int): int {
    if steps == [] then clock else FinalTime(steps[1..], EndOf(steps[0]))
  }

  /** No step ends later than `interval` after the sweep before it. */
  predicate SweptOnTime(steps: seq<Step>, lastSweep: int, interval: int) {
    steps == [] ||
    (EndOf(steps[0]) <= lastSweep + interval
     && SweptOnTime(steps[1..], if steps[0].Sweep? then steps[0].now else lastSweep, interval))
  }

  /** How many submissions were accepted at or after `since`. */
  function AcceptedSince(log: seq<Acceptance>, since: int): nat {
    if log == [] then 0 else (if since <= log[0].at.markAt then 1 else 0) + AcceptedSince(log[1..], since)
  }

  lemma {:induction false} RunAsTableOps(
      node: Node, seen: Nonce.Entries, steps: seq<Step>, clock: int, delay: int, lastSweep: int, interval: int)
    requires Timed(steps, clock, delay) && SweptOnTime(steps, lastSweep, interval)
    ensures var ops := TableOps(node, seen, steps);
            && Nonce.After(seen, ops) == Table(node, seen, steps)
            && Nonce.Timed(ops, clock) && Nonce.OnTime(ops, lastSweep, interval)
            && Nonce.AllTtl(ops, node.cfg.maxAge * 2)
            && Nonce.FinalTime(ops, clock) == FinalTime(steps, clock)
    decreases steps
  {
    if steps != [] {
      var next := StepTable(node, seen, steps[0]);
      var tick := if steps[0].Sweep? then steps[0].now else lastSweep;
      RunAsTableOps(node, next, steps[1..], EndOf(steps[0]), delay, tick, interval);
      var ops := TableOps(node, seen, steps);
      assert ops[0] == TableOp(node, seen, steps[0]) && ops[1..] == TableOps(node, next, steps[1..]);
      assert Nonce.Apply(seen, ops[0]) == next;
    }
  }

  lemma {:induction false} MarksAreAcceptances(node: Node, seen: Nonce.Entries, steps: seq<Step>, since: int)
    ensures Nonce.MarksSince(TableOps(node, seen, steps), since) == AcceptedSince(Log(node, seen, steps), since)
    decreases steps
  {
    if steps != [] {
      var next := StepTable(node, seen, steps[0]);
      MarksAreAcceptances(node, next, steps[1..], since);
      var ops := TableOps(node, seen, steps);
      assert ops[0] == TableOp(node, seen, steps[0]) && ops[1..] == TableOps(node, next, steps[1..]);
      var head, log := StepLog(node, seen, steps[0]), Log(node, seen, steps);
      assert if head == [] then log == Log(node, next, steps[1..]) else log[1..] == Log(node, next, steps[1..]);
    }
  }

  /** Memory is bounded: if sweeps come at most `interval` apart, the table of an agent started at `start` never
      holds more nonces than tasks were accepted during the last twice the maximum age plus one interval. */
  lemma AgentTableIsBounded(node: Node, steps: seq<Step>, start: int, delay: int, interval: int)
    requires Timed(steps, start, delay) && SweptOnTime(steps, start, interval) && interval >= 0
    ensures |Table(node, map[], steps)|
            <= AcceptedSince(Log(node, map[], steps),
                             FinalTime(steps, start) - Nonce.Kept(node.cfg.maxAge * 2) - interval)
  {
    var since := FinalTime(steps, start) - Nonce.Kept(node.cfg.maxAge * 2) - interval;
    RunAsTableOps(node, map[], steps, start, delay, start, interval);
    MarksAreAcceptances(node, map[], steps, since);
    Nonce.TableIsBounded(TableOps(node, map[], steps), start, node.cfg.maxAge * 2, interval);
  }

  // ---- Rejected traffic ----

  lemma {:induction false} TableGrowsByAcceptance(node: Node, seen: Nonce.Entries, steps: seq<Step>, nonce: string)
    requires nonce !in seen
    requires forall i | 0 <= i < |Log(node, seen, steps)| :: Log(node, seen, steps)[i].task.envelope.nonce != nonce
    ensures nonce !in Table(node, seen, steps)
    decreases steps
  {
    if steps != [] {
      var head, next := StepLog(node, seen, steps[0]), StepTable(node, seen, steps[0]);
      var rest := Log(node, next, steps[1..]);
      var log := Log(node, seen, steps);
      assert log == head + rest;
      assert head != [] ==> log[0].task.envelope.nonce != nonce;
      forall i | 0 <= i < |rest| ensures rest[i].task.envelope.nonce != nonce {
        assert rest[i] == log[|head| + i];
      }
      TableGrowsByAcceptance(node, next, steps[1..], nonce);
    }
  }

  /** Rejected traffic leaves the table as it was, apart from sweeping. */
  lemma {:induction false} RejectionsChangeNothing(node: Node, seen: Nonce.Entries, steps: seq<Step>)
    requires Log(node, seen, steps) == []
    requires forall i | 0 <= i < |steps| :: steps[i].Submit?
    ensures Table(node, seen, steps) == seen
    decreases steps
  {
    if steps != [] {
      RejectionsChangeNothing(node, seen, steps[1..]);
    }
  }

  /** No traffic can keep a built task out: after any run that did not accept its nonce, a task built with
      the node's id and key and delivered unaltered within its validity is accepted and executed. */
  lemma BuiltTaskIsExecuted(
      node: Node, steps: seq<Step>, b: Signer.Builder, requestID: string, operation: string, payload: string,
      idempotencyKey: string, builtAt: int, taskID: string, nonce: string, at: Readings)
    requires b.mac == node.cfg.mac && b.nodeID == node.cfg.nodeID
    requires Signer.RoundTrips(b, node.cfg.parse, builtAt)
    requires operation != "" && nonce != "" && taskID != "" && b.nodeID != ""
    requires builtAt <= at.now + CLOCK_SKEW_TOLERANCE && at.now <= Signer.Truncate(builtAt + b.ttl)
    requires forall i | 0 <= i < |Log(node, map[], steps)| :: Log(node, map[], steps)[i].task.envelope.nonce != nonce
    ensures var t := Signer.Build(b, requestID, operation, Some(payload), idempotencyKey, builtAt, taskID, nonce);
            && t.Some?
            && Accepts(node, Table(node, map[], steps), Request(true, t), at)
            && Respond(node, Table(node, map[], steps), Request(true, t), at)
               == (if operation !in node.allowlist then Failed(taskID, ForbiddenOperation)
                   else if operation !in node.handlers then Failed(taskID, NotImplemented)
                   else
                     match node.handlers[operation](payload)
                     case Success(output) => Succeeded(taskID, output)
                     case Failure(message) => Failed(taskID, HandlerError(message)))
  {
    Signer.BuiltTaskPassesChecks(
      b, node.cfg, requestID, operation, payload, idempotencyKey, builtAt, taskID, nonce, at.now);
    TableGrowsByAcceptance(node, map[], steps, nonce);
  }
}
