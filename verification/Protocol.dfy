/** The signed task protocol: the canonical form and the acceptance decision of the agent
    (agent/internal/protocol/task.go). HMAC-SHA256 under the shared key and RFC 3339 parsing are
    parameters; times and durations are integer nanoseconds. */
module Protocol {
  import opened Text
  import Nonce

  const SECOND: int := 1_000_000_000
  const CLOCK_SKEW_TOLERANCE: int := 30 * SECOND
  const VERSION := "1"

  datatype Envelope = Envelope(
    version: string, taskID: string, requestID: string, nodeID: string,
    issuedAt: string, expiresAt: string, nonce: string, idempotencyKey: string)

  datatype Task = Task(envelope: Envelope, operation: string, payload: string, signature: string)

  /** The eight fields a signature covers, in the order they are joined. */
  function Fields(t: Task): seq<string> {
    var e := t.envelope;
    [e.version, e.taskID, e.nodeID, e.issuedAt, e.expiresAt, e.nonce, t.operation, t.payload]
  }

  function Canonical(t: Task): string {
    Join(Fields(t), '\n')
  }

  /** Three parts in front of others, behind a text. */
  lemma JoinThree(prefix: string, a: string, b: string, c: string, rest: seq<string>)
    requires rest != []
    ensures prefix + Join([a, b, c] + rest, '\n') == prefix + a + "\n" + b + "\n" + c + "\n" + Join(rest, '\n')
  {
    JoinCons(c, rest, '\n');
    JoinCons(b, [c] + rest, '\n');
    JoinCons(a, [b] + ([c] + rest), '\n');
    assert [a, b, c] + rest == [a] + ([b] + ([c] + rest));
  }

  /** The signed text, written out. */
  lemma CanonicalText(t: Task)
    ensures var e := t.envelope;
            Canonical(t) == e.version + "\n" + e.taskID + "\n" + e.nodeID + "\n" + e.issuedAt + "\n"
                            + e.expiresAt + "\n" + e.nonce + "\n" + t.operation + "\n" + t.payload
  {
    var e := t.envelope;
    var last, middle := [t.operation, t.payload], [e.issuedAt, e.expiresAt, e.nonce];
    var front := e.version + "\n" + e.taskID + "\n" + e.nodeID + "\n";
    JoinThree("", e.version, e.taskID, e.nodeID, middle + last);
    JoinThree(front, e.issuedAt, e.expiresAt, e.nonce, last);
    JoinCons(t.operation, [t.payload], '\n');
    assert last == [t.operation] + [t.payload];
    assert Join(last, '\n') == t.operation + "\n" + t.payload;
    assert Fields(t) == [e.version, e.taskID, e.nodeID] + (middle + last);
    assert "" + Canonical(t) == Canonical(t) && "" + e.version == e.version;
    var body := front + e.issuedAt + "\n" + e.expiresAt + "\n" + e.nonce + "\n";
    assert body + (t.operation + "\n" + t.payload) == body + t.operation + "\n" + t.payload;
  }

  datatype VerifyError =
    | InvalidVersion | WrongNode | BadIssuedAt | BadExpiresAt | ExpiredTask | FutureTask
    | EmptyNonce | EmptyOperation | InvalidSignature | ReplayedTask

  datatype Settings = Settings(
    nodeID: string, maxAge: int, mac: string -> string, parse: string -> Option<int>)

  /** The clock readings one `Verify` call makes: for the expiry checks, in `HasSeen` and in `MarkSeen`. */
  datatype Readings = Readings(now: int, seenAt: int, markAt: int)

  /** Checks 1 to 8: everything decided before the nonce table is consulted. */
  function Check(cfg: Settings, t: Task, now: int): Option<VerifyError> {
    var e := t.envelope;
    if e.version != VERSION then Some(InvalidVersion)
    else if e.nodeID != cfg.nodeID then Some(WrongNode)
    else
      var issuedAt := cfg.parse(e.issuedAt);
      if issuedAt.None? then Some(BadIssuedAt)
      else
        var expiresAt := cfg.parse(e.expiresAt);
        if expiresAt.None? then Some(BadExpiresAt)
        else if now > expiresAt.value then Some(ExpiredTask)
        else if issuedAt.value > now + CLOCK_SKEW_TOLERANCE then Some(FutureTask)
        else if e.nonce == "" then Some(EmptyNonce)
        else if t.operation == "" then Some(EmptyOperation)
        else if t.signature != cfg.mac(Canonical(t)) then Some(InvalidSignature)
        else None
  }

  /** The whole decision: None means accepted. */
  function Verify(cfg: Settings, seen: Nonce.Entries, t: Task, at: Readings): Option<VerifyError> {
    var failed := Check(cfg, t, at.now);
    if failed.Some? then failed
    else if Nonce.Seen(seen, t.envelope.nonce, at.seenAt) then Some(ReplayedTask)
    else None
  }

  /** The nonce table after a `Verify` call. */
  function Remember(cfg: Settings, seen: Nonce.Entries, t: Task, at: Readings): Nonce.Entries {
    if Verify(cfg, seen, t, at).None?
    then Nonce.Mark(seen, t.envelope.nonce, cfg.maxAge * 2, at.markAt)
    else seen
  }

  class Verifier {
    const cfg: Settings
    const store: Nonce.Store

    constructor (cfg: Settings, store: Nonce.Store)
      ensures this.cfg == cfg && this.store == store
    {
      this.cfg := cfg;
      this.store := store;
    }

    method VerifyTask(t: Task, at: Readings) returns (failed: Option<VerifyError>)
      modifies store
      ensures failed == None <==>
              var e := t.envelope;
              && e.version == "1" && e.nodeID == cfg.nodeID
              && cfg.parse(e.issuedAt).Some? && cfg.parse(e.expiresAt).Some?
              && cfg.parse(e.issuedAt).value - 30_000_000_000 <= at.now <= cfg.parse(e.expiresAt).value
              && e.nonce != "" && t.operation != ""
              && t.signature == cfg.mac(e.version + "\n" + e.taskID + "\n" + e.nodeID + "\n" + e.issuedAt + "\n"
                                        + e.expiresAt + "\n" + e.nonce + "\n" + t.operation + "\n" + t.payload)
              && !(e.nonce in old(store.entries) && at.seenAt < old(store.entries)[e.nonce])
      ensures store.entries == if failed == None then old(store.entries)[t.envelope.nonce := at.markAt + cfg.maxAge * 2]
                               else old(store.entries)
      ensures failed == Verify(cfg, old(store.entries), t, at)
      ensures store.entries == Remember(cfg, old(store.entries), t, at)
    {
      CanonicalText(t);
      var e := t.envelope;
      if e.version != VERSION {
        return Some(InvalidVersion);
      }
      if e.nodeID != cfg.nodeID {
        return Some(WrongNode);
      }
      var issuedAt := cfg.parse(e.issuedAt);
      if issuedAt.None? {
        return Some(BadIssuedAt);
      }
      var expiresAt := cfg.parse(e.expiresAt);
      if expiresAt.None? {
        return Some(BadExpiresAt);
      }
      if at.now > expiresAt.value {
        return Some(ExpiredTask);
      }
      if issuedAt.value > at.now + CLOCK_SKEW_TOLERANCE {
        return Some(FutureTask);
      }
      if e.nonce == "" {
        return Some(EmptyNonce);
      }
      if t.operation == "" {
        return Some(EmptyOperation);
      }
      var expected := cfg.mac(Canonical(t));
      if t.signature != expected {
        return Some(InvalidSignature);
      }
      var replayed := store.HasSeen(e.nonce, at.seenAt);
      if replayed {
        return Some(ReplayedTask);
      }
      store.MarkSeen(e.nonce, cfg.maxAge * 2, at.markAt);
      failed := None;
    }
  }

  /** What an accepted task must satisfy, one requirement a line. */
  predicate Authentic(cfg: Settings, t: Task, now: int) {
    var e := t.envelope;
    && e.version == VERSION
    && e.nodeID == cfg.nodeID
    && e.nonce != ""
    && t.operation != ""
    && t.signature == cfg.mac(Canonical(t))
    && cfg.parse(e.issuedAt).Some?
    && cfg.parse(e.expiresAt).Some?
    && cfg.parse(e.issuedAt).value - CLOCK_SKEW_TOLERANCE <= now <= cfg.parse(e.expiresAt).value
  }

  /** The checks accept exactly the authentic tasks with an unseen nonce. A replay is reported only for a task
      that is authentic, so an unsigned task learns nothing about the nonce table. */
  lemma VerifyOutcome(cfg: Settings, seen: Nonce.Entries, t: Task, at: Readings)
    ensures Verify(cfg, seen, t, at) == None <==>
            Authentic(cfg, t, at.now) && !Nonce.Seen(seen, t.envelope.nonce, at.seenAt)
    ensures Verify(cfg, seen, t, at) == Some(ReplayedTask) <==>
            Authentic(cfg, t, at.now) && Nonce.Seen(seen, t.envelope.nonce, at.seenAt)
    ensures Verify(cfg, seen, t, at) != None ==> Remember(cfg, seen, t, at) == seen
    ensures !Authentic(cfg, t, at.now) ==>
              forall seen' :: Verify(cfg, seen', t, at) == Verify(cfg, seen, t, at)
  {
  }

  /** A refusal names the first requirement that is not met, in this order. */
  lemma FirstUnmet(cfg: Settings, seen: Nonce.Entries, t: Task, at: Readings)
    ensures var e := t.envelope;
            var issued, expires := cfg.parse(e.issuedAt), cfg.parse(e.expiresAt);
            var version := e.version == "1";
            var node := version && e.nodeID == cfg.nodeID;
            var issueRead := node && issued.Some?;
            var bothRead := issueRead && expires.Some?;
            var unexpired := bothRead && at.now <= expires.value;
            var begun := unexpired && issued.value <= at.now + 30_000_000_000;
            var nonce := begun && e.nonce != "";
            var operation := nonce && t.operation != "";
            var signed := operation && t.signature == cfg.mac(Canonical(t));
            var unused := signed && !(e.nonce in seen && at.seenAt < seen[e.nonce]);
            Verify(cfg, seen, t, at)
            == if !version then Some(InvalidVersion) else if !node then Some(WrongNode)
               else if !issueRead then Some(BadIssuedAt) else if !bothRead then Some(BadExpiresAt)
               else if !unexpired then Some(ExpiredTask) else if !begun then Some(FutureTask)
               else if !nonce then Some(EmptyNonce) else if !operation then Some(EmptyOperation)
               else if !signed then Some(InvalidSignature) else if !unused then Some(ReplayedTask)
               else None
  {
  }

  // ---- The canonical form ----

  /** If the signed fields hold no newline, a received task with the same canonical form agrees on all
      eight fields, whatever newlines the received task holds. */
  lemma CanonicalIsUnambiguous(t: Task, received: Task)
    requires Free(Fields(t), '\n')
    requires Canonical(received) == Canonical(t)
    ensures Fields(received) == Fields(t)
  {
    SplitJoin(Fields(t), '\n');
    SplitJoin(Fields(received), '\n');
  }

  /** Parts that hold a separator can be cut in another place. */
  lemma {:induction false} Regroup(parts: seq<string>, sep: char) returns (other: seq<string>)
    requires |parts| >= 2 && !Free(parts, sep)
    ensures |other| == |parts| && other != parts && Join(other, sep) == Join(parts, sep)
  {
    var p, q := parts[0], parts[1];
    if sep in p {
      var i :| 0 <= i < |p| && p[i] == sep;
      var tail := p[i + 1..] + [sep] + q;
      other := [p[..i], tail] + parts[2..];
      assert p + [sep] == p[..i] + [sep] + p[i + 1..] + [sep];
      JoinPrepend(p[i + 1..] + [sep], q, parts[2..], sep);
      assert p[i + 1..] + [sep] + q == tail;
      assert parts[1..] == [q] + parts[2..];
      assert other[1..] == [tail] + parts[2..];
      assert |other[0]| < |p|;
    } else if |parts| > 2 {
      var rest := Regroup(parts[1..], sep);
      other := [p] + rest;
      assert other[1..] == rest != parts[1..];
    } else {
      var i :| 0 <= i < |q| && q[i] == sep;
      other := [p + [sep] + q[..i], q[i + 1..]];
      assert parts == [p, q];
      assert q == q[..i] + [sep] + q[i + 1..];
      assert Join(parts, sep) == p + [sep] + q;
      assert |other[1]| < |q|;
    }
  }

  lemma JoinPrepend(prefix: string, first: string, rest: seq<string>, sep: char)
    ensures Join([prefix + first] + rest, sep) == prefix + Join([first] + rest, sep)
  {
    assert ([prefix + first] + rest)[1..] == rest == ([first] + rest)[1..];
  }

  /** Tasks with newline-free signed fields have the same canonical form if and only if they agree on all eight. */
  lemma SignedFieldsAgree(t: Task, r: Task)
    requires var e := t.envelope;
             && '\n' !in e.version && '\n' !in e.taskID && '\n' !in e.nodeID && '\n' !in e.issuedAt
             && '\n' !in e.expiresAt && '\n' !in e.nonce && '\n' !in t.operation && '\n' !in t.payload
    ensures Canonical(r) == Canonical(t) <==>
            var e, f := t.envelope, r.envelope;
            && f.version == e.version && f.taskID == e.taskID && f.nodeID == e.nodeID && f.issuedAt == e.issuedAt
            && f.expiresAt == e.expiresAt && f.nonce == e.nonce && r.operation == t.operation && r.payload == t.payload
  {
    if Canonical(r) == Canonical(t) {
      CanonicalIsUnambiguous(t, r);
      FieldsByName(t, r);
    }
  }

  lemma FieldsByName(t: Task, r: Task)
    ensures Fields(r) == Fields(t) <==>
            var e, f := t.envelope, r.envelope;
            && f.version == e.version && f.taskID == e.taskID && f.nodeID == e.nodeID && f.issuedAt == e.issuedAt
            && f.expiresAt == e.expiresAt && f.nonce == e.nonce && r.operation == t.operation && r.payload == t.payload
  {
    var a, b := Fields(t), Fields(r);
    assert a == b ==> a[0] == b[0] && a[1] == b[1] && a[2] == b[2] && a[3] == b[3]
                      && a[4] == b[4] && a[5] == b[5] && a[6] == b[6] && a[7] == b[7];
  }

  /** Exactly the tasks whose eight signed fields hold no newline are pinned down by their canonical form. */
  lemma UnambiguousIffNewlineFree(t: Task)
    ensures (forall r: Task | Canonical(r) == Canonical(t) ::
               var e, f := t.envelope, r.envelope;
               && f.version == e.version && f.taskID == e.taskID && f.nodeID == e.nodeID && f.issuedAt == e.issuedAt
               && f.expiresAt == e.expiresAt && f.nonce == e.nonce
               && r.operation == t.operation && r.payload == t.payload)
            <==>
            var e := t.envelope;
            && '\n' !in e.version && '\n' !in e.taskID && '\n' !in e.nodeID && '\n' !in e.issuedAt
            && '\n' !in e.expiresAt && '\n' !in e.nonce && '\n' !in t.operation && '\n' !in t.payload
  {
    if Free(Fields(t), '\n') {
      FreeByName(t);
      forall r: Task | Canonical(r) == Canonical(t) ensures Fields(r) == Fields(t) {
        CanonicalIsUnambiguous(t, r);
        FieldsByName(t, r);
      }
    } else {
      var f := Regroup(Fields(t), '\n');
      var r := Task(Envelope(f[0], f[1], "", f[2], f[3], f[4], f[5], ""), f[6], f[7], "");
      assert Fields(r) == f;
      assert Canonical(r) == Canonical(t) && Fields(r) != Fields(t);
      FieldsByName(t, r);
    }
  }

  lemma FreeByName(t: Task)
    ensures Free(Fields(t), '\n') <==>
            var e := t.envelope;
            && '\n' !in e.version && '\n' !in e.taskID && '\n' !in e.nodeID && '\n' !in e.issuedAt
            && '\n' !in e.expiresAt && '\n' !in e.nonce && '\n' !in t.operation && '\n' !in t.payload
  {
    var a := Fields(t);
    assert Free(a, '\n') ==> '\n' !in a[0] && '\n' !in a[1] && '\n' !in a[2] && '\n' !in a[3]
                             && '\n' !in a[4] && '\n' !in a[5] && '\n' !in a[6] && '\n' !in a[7];
  }
}
