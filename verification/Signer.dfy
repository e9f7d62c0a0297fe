/** The control plane's end of the protocol (control-plane/internal/agentclient/signer.go). The random
    nonce, the task id and the clock reading of a build are parameters. */
module Signer {
  import opened Text
  import opened Protocol

  datatype Builder = Builder(nodeID: string, mac: string -> string, ttl: int, format: int -> string)

  /** The text the builder signs. */
  function SignedText(t: Task): string {
    var e := t.envelope;
    Join([e.version, e.taskID, e.nodeID, e.issuedAt, e.expiresAt, e.nonce, t.operation, t.payload], '\n')
  }

  /** `payload` is the marshalled JSON, or None when marshalling failed. */
  function Build(b: Builder, requestID: string, operation: string, payload: Option<string>,
                 idempotencyKey: string, now: int, taskID: string, nonce: string): Option<Task> {
    if payload.None? then None
    else
      var envelope := Envelope(
        VERSION, taskID, requestID, b.nodeID, b.format(now), b.format(now + b.ttl), nonce, idempotencyKey);
      var task := Task(envelope, operation, payload.value, "");
      Some(task.(signature := b.mac(SignedText(task))))
  }

  function Truncate(t: int): int {
    t - t % SECOND
  }

  /** RFC 3339 without fractions, section 5.6: printing drops what is below a second, parsing gives the rest
      back. Only the two times a build prints need to have four-digit years. */
  predicate RoundTrips(b: Builder, parse: string -> Option<int>, builtAt: int) {
    && parse(b.format(builtAt)) == Some(Truncate(builtAt))
    && parse(b.format(builtAt + b.ttl)) == Some(Truncate(builtAt + b.ttl))
  }

  /** What a built task holds: it fails only when the payload cannot be marshalled. */
  lemma BuiltTask(b: Builder, requestID: string, operation: string, payload: Option<string>,
                  idempotencyKey: string, now: int, taskID: string, nonce: string)
    ensures var t := Build(b, requestID, operation, payload, idempotencyKey, now, taskID, nonce);
            var issued, expires := b.format(now), b.format(now + b.ttl);
            && (t.Some? <==> payload.Some?)
            && (t.Some? ==>
                  && t.value.envelope
                     == Envelope("1", taskID, requestID, b.nodeID, issued, expires, nonce, idempotencyKey)
                  && t.value.operation == operation && t.value.payload == payload.value
                  && t.value.signature
                     == b.mac("1" + "\n" + taskID + "\n" + b.nodeID + "\n" + issued + "\n" + expires + "\n"
                              + nonce + "\n" + operation + "\n" + payload.value))
  {
    var t := Build(b, requestID, operation, payload, idempotencyKey, now, taskID, nonce);
    if t.Some? {
      CanonicalText(t.value);
      assert SignedText(t.value) == Canonical(t.value);
      assert SignedText(t.value.(signature := "")) == SignedText(t.value);
    }
  }

  /** A built task passes every check but the replay check, at any time inside its validity. */
  lemma BuiltTaskPassesChecks(
      b: Builder, cfg: Settings, requestID: string, operation: string, payload: string,
      idempotencyKey: string, builtAt: int, taskID: string, nonce: string, now: int)
    requires b.mac == cfg.mac && b.nodeID == cfg.nodeID && RoundTrips(b, cfg.parse, builtAt)
    requires operation != "" && nonce != ""
    requires builtAt <= now + CLOCK_SKEW_TOLERANCE && now <= Truncate(builtAt + b.ttl)
    ensures var t := Build(b, requestID, operation, Some(payload), idempotencyKey, builtAt, taskID, nonce);
            t.Some? && Check(cfg, t.value, now) == None
  {
  }

  /** The lifetime an agent reads off a built task is the builder's ttl when that is a whole number of
      seconds, and always within a second of it. */
  lemma BuiltLifetime(b: Builder, parse: string -> Option<int>, builtAt: int)
    requires RoundTrips(b, parse, builtAt)
    ensures parse(b.format(builtAt)).Some? && parse(b.format(builtAt + b.ttl)).Some?
    ensures var lifetime := parse(b.format(builtAt + b.ttl)).value - parse(b.format(builtAt)).value;
            b.ttl - SECOND < lifetime < b.ttl + SECOND && (b.ttl % SECOND == 0 ==> lifetime == b.ttl)
  {
  }
}
