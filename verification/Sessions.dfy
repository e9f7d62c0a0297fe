/** Server-side sessions (control-plane/internal/auth/session.go) and the authenticator that turns a session
    into a principal (control-plane/internal/middleware/auth.go). SHA-256 of a token is a parameter; the
    random token and id of a new session, every clock reading and the outcome of every SQL statement are
    arguments. */
module Sessions {
  import opened Text

  datatype User = User(
    email: string, role: string, isActive: bool, isSuspended: bool, resellerID: Option<string>)

  datatype Row = Row(id: string, user: string, mfaVerified: bool, expiresAt: int, revokedAt: Option<int>)

  /** The tables: users by id, sessions by token hash, which is unique. */
  datatype Db = Db(users: map<string, User>, sessions: map<string, Row>)

  predicate Live(r: Row, now: int) {
    r.revokedAt.None? && r.expiresAt > now
  }

  function Insert(db: Db, hash: string, id: string, user: string, mfa: bool, maxAge: int, now: int): Option<Db> {
    if user !in db.users || hash in db.sessions || exists h :: h in db.sessions && db.sessions[h].id == id
    then None
    else Some(db.(sessions := db.sessions[hash := Row(id, user, mfa, now + maxAge, None)]))
  }

  function Lookup(db: Db, hash: string, now: int): Option<Row> {
    if hash in db.sessions && Live(db.sessions[hash], now) then Some(db.sessions[hash]) else None
  }

  function RevokedRow(r: Row, hit: bool, now: int): Row {
    if hit && r.revokedAt.None? then r.(revokedAt := Some(now)) else r
  }

  /** Which sessions an UPDATE reaches. */
  datatype Target = OneSession(id: string) | AllOf(user: string) | AllOfExcept(user: string, keep: string)

  predicate Hits(t: Target, r: Row) {
    match t
    case OneSession(id) => r.id == id
    case AllOf(user) => r.user == user
    case AllOfExcept(user, keep) => r.user == user && r.id != keep
  }

  function RevokeRows(db: Db, t: Target, now: int): Db {
    db.(sessions := map h | h in db.sessions :: RevokedRow(db.sessions[h], Hits(t, db.sessions[h]), now))
  }

  predicate Stale(r: Row, olderThan: int, now: int) {
    r.expiresAt < now - olderThan || (r.revokedAt.Some? && r.revokedAt.value < now - olderThan)
  }

  function CleanRows(db: Db, olderThan: int, now: int): Db {
    db.(sessions := map h | h in db.sessions && !Stale(db.sessions[h], olderThan, now) :: db.sessions[h])
  }

  /** Deleting a user deletes the user's sessions. */
  function DropUser(db: Db, user: string): Db {
    Db(db.users - {user}, map h | h in db.sessions && db.sessions[h].user != user :: db.sessions[h])
  }

  datatype Principal = Principal(
    user: string, email: string, role: string, sessionID: string, mfaVerified: bool, resellerID: Option<string>)

  /** What a request's statements meet: whether the SELECT of the session, the SELECT of its user and the UPDATE
      that revokes it succeed. */
  datatype Io = Io(session: bool, user: bool, write: bool)

  function LoadPrincipal(db: Db, s: Row, userRead: bool): Option<Principal> {
    if !userRead || s.user !in db.users then None
    else
      var u := db.users[s.user];
      if !u.isActive || u.isSuspended then None
      else Some(Principal(s.user, u.email, u.role, s.id, s.mfaVerified, u.resellerID))
  }

  /** The token of a request: the cookie if it has the right length, else the bearer token. */
  function Credential(cookie: Option<string>, authorization: string): string {
    if cookie.Some? && |cookie.value| == 64 then cookie.value else BearerToken(authorization)
  }

  function BearerToken(authorization: string): string {
    var prefix := "Bearer ";
    if |authorization| > |prefix| && authorization[..|prefix|] == prefix && |authorization[|prefix|..]| == 64
    then authorization[|prefix|..]
    else ""
  }

  /** A cookie of 64 characters wins; else 64 characters behind "Bearer "; else there is no credential. */
  lemma CredentialIs(cookie: Option<string>, authorization: string, token: string)
    ensures cookie.Some? && |cookie.value| == 64 ==> Credential(cookie, authorization) == cookie.value
    ensures (cookie.None? || |cookie.value| != 64) && |token| == 64 && authorization == "Bearer " + token ==>
              Credential(cookie, authorization) == token
    ensures Credential(cookie, authorization) != "" ==>
              || (cookie.Some? && |cookie.value| == 64)
              || (exists t :: |t| == 64 && authorization == "Bearer " + t)
    ensures Credential(cookie, authorization) == "" || |Credential(cookie, authorization)| == 64
  {
    var prefix := "Bearer ";
    if |authorization| > |prefix| && authorization[..|prefix|] == prefix {
      assert authorization == prefix + authorization[|prefix|..];
    }
    assert (prefix + token)[..|prefix|] == prefix && (prefix + token)[|prefix|..] == token;
  }

  /** The principal a request carries after `Authenticate`; `token` is its credential, empty if it has none. */
  function PrincipalOf(hash: string -> string, db: Db, token: string, now: int, io: Io): Option<Principal> {
    if token == "" || !io.session then None
    else
      match Lookup(db, hash(token), now)
      case None => None
      case Some(s) => LoadPrincipal(db, s, io.user)
  }

  /** Exactly when a request carries a principal, and which: the columns of the user and of the session as they
      stand in the database. */
  lemma PrincipalIff(hash: string -> string, db: Db, token: string, now: int, io: Io)
    ensures var p, h := PrincipalOf(hash, db, token, now, io), hash(token);
            && (p.Some? <==>
                && token != "" && io.session && io.user
                && h in db.sessions && db.sessions[h].revokedAt.None? && now < db.sessions[h].expiresAt
                && db.sessions[h].user in db.users
                && db.users[db.sessions[h].user].isActive && !db.users[db.sessions[h].user].isSuspended)
            && (p.Some? ==>
                  var s := db.sessions[h];
                  var u := db.users[s.user];
                  && p.value.user == s.user && p.value.sessionID == s.id && p.value.mfaVerified == s.mfaVerified
                  && p.value.email == u.email && p.value.role == u.role && p.value.resellerID == u.resellerID)
  {
  }

  /** `Authenticate` revokes a live session whose user cannot be loaded, for whatever reason. */
  function AfterAuthenticate(hash: string -> string, db: Db, token: string, now: int, io: Io): Db {
    if token == "" || !io.session then db
    else
      match Lookup(db, hash(token), now)
      case None => db
      case Some(s) =>
        if LoadPrincipal(db, s, io.user).None? && io.write then RevokeRows(db, OneSession(s.id), now) else db
  }

  /** The database behind the connection pool, with the statements that go over all rows. */
  class Pool {
    var db: Db

    constructor (db: Db)
      ensures this.db == db
    {
      this.db := db;
    }

    /** The primary key: whether a row has this id. */
    method HasId(id: string) returns (found: bool)
      ensures found <==> exists h :: h in db.sessions && db.sessions[h].id == id
    {
      found := false;
      var todo := db.sessions.Keys;
      while todo != {}
        invariant todo <= db.sessions.Keys
        invariant found <==> exists h :: h in db.sessions && h !in todo && db.sessions[h].id == id
      {
        var h :| h in todo;
        found := found || db.sessions[h].id == id;
        todo := todo - {h};
      }
    }

    /** UPDATE: sets revoked_at on the unrevoked rows that the condition selects. */
    method Update(t: Target, now: int)
      modifies this
      ensures db == RevokeRows(old(db), t, now)
    {
      var todo := db.sessions.Keys;
      while todo != {}
        invariant db.users == old(db).users && db.sessions.Keys == old(db).sessions.Keys
        invariant todo <= db.sessions.Keys
        invariant forall h | h in db.sessions ::
                    db.sessions[h] == if h in todo then old(db).sessions[h]
                                      else RevokedRow(old(db).sessions[h], Hits(t, old(db).sessions[h]), now)
      {
        var h :| h in todo;
        var r := db.sessions[h];
        if Hits(t, r) && r.revokedAt.None? {
          db := db.(sessions := db.sessions[h := r.(revokedAt := Some(now))]);
        }
        todo := todo - {h};
      }
    }

    /** DELETE: removes the stale rows and counts them. */
    method Delete(olderThan: int, now: int) returns (removed: nat)
      modifies this
      ensures db == CleanRows(old(db), olderThan, now)
      ensures removed == |old(db).sessions| - |db.sessions|
    {
      removed := 0;
      var todo := db.sessions.Keys;
      while todo != {}
        invariant db.users == old(db).users
        invariant todo <= db.sessions.Keys <= old(db).sessions.Keys
        invariant forall h | h in old(db).sessions ::
                    h in db.sessions <==> h in todo || !Stale(old(db).sessions[h], olderThan, now)
        invariant forall h | h in db.sessions :: db.sessions[h] == old(db).sessions[h]
        invariant removed == |old(db).sessions| - |db.sessions|
      {
        var h :| h in todo;
        if Stale(db.sessions[h], olderThan, now) {
          CountWithout(db.sessions, h);
          db := db.(sessions := db.sessions - {h});
          removed := removed + 1;
        }
        todo := todo - {h};
      }
    }
  }

  lemma CountWithout(m: map<string, Row>, h: string)
    requires h in m
    ensures |m - {h}| == |m| - 1
  {
    assert (m - {h}).Keys == m.Keys - {h};
    assert |m| == |m.Keys| && |m - {h}| == |(m - {h}).Keys|;
  }

  class SessionManager {
    const pool: Pool
    const hash: string -> string
    const maxAge: int

    constructor (pool: Pool, hash: string -> string, maxAge: int)
      ensures this.pool == pool && this.hash == hash && this.maxAge == maxAge
    {
      this.pool, this.hash, this.maxAge := pool, hash, maxAge;
    }

    /** `ok` says whether the INSERT succeeds, its constraints aside. */
    method Create(token: string, id: string, user: string, mfa: bool, now: int, ok: bool) returns (s: Option<Row>)
      modifies pool
      ensures s.Some? <==>
              && ok && user in old(pool.db).users && hash(token) !in old(pool.db).sessions
              && forall h | h in old(pool.db).sessions :: old(pool.db).sessions[h].id != id
      ensures s.None? ==> pool.db == old(pool.db)
      ensures s.Some? ==>
                && s.value == Row(id, user, mfa, now + maxAge, None)
                && pool.db.users == old(pool.db).users
                && pool.db.sessions.Keys == old(pool.db).sessions.Keys + {hash(token)}
                && forall h | h in pool.db.sessions ::
                     pool.db.sessions[h] == if h == hash(token) then s.value else old(pool.db).sessions[h]
      ensures pool.db == Apply(hash, old(pool.db), Step.Create(token, id, user, mfa, maxAge, now, ok))
    {
      var row := Row(id, user, mfa, now + maxAge, None);
      var h := hash(token);
      if !ok || user !in pool.db.users || h in pool.db.sessions {
        return None;
      }
      var taken := pool.HasId(id);
      if taken {
        return None;
      }
      pool.db := pool.db.(sessions := pool.db.sessions[h := row]);
      s := Some(row);
    }

    method Validate(token: string, now: int, ok: bool) returns (s: Option<Row>)
      ensures s.Some? <==>
              && ok && hash(token) in pool.db.sessions
              && pool.db.sessions[hash(token)].revokedAt.None?
              && pool.db.sessions[hash(token)].expiresAt > now
      ensures s.Some? ==> s.value == pool.db.sessions[hash(token)]
      ensures Session(s) == Reply(hash, pool.db, Step.Validate(token, now, ok))
    {
      var h := hash(token);
      if !ok || h !in pool.db.sessions {
        return None;
      }
      var row := pool.db.sessions[h];
      if row.revokedAt.Some? || row.expiresAt <= now {
        return None;
      }
      s := Some(row);
    }

    method Revoke(id: string, now: int, ok: bool)
      modifies pool
      ensures pool.db.users == old(pool.db).users && pool.db.sessions.Keys == old(pool.db).sessions.Keys
      ensures forall h | h in pool.db.sessions ::
                var r := old(pool.db).sessions[h];
                pool.db.sessions[h]
                == if ok && r.id == id && r.revokedAt.None? then r.(revokedAt := Some(now)) else r
      ensures pool.db == Apply(hash, old(pool.db), Step.Revoke(OneSession(id), now, ok))
    {
      if ok {
        pool.Update(OneSession(id), now);
      }
    }

    method RevokeAll(user: string, now: int, ok: bool)
      modifies pool
      ensures pool.db.users == old(pool.db).users && pool.db.sessions.Keys == old(pool.db).sessions.Keys
      ensures forall h | h in pool.db.sessions ::
                var r := old(pool.db).sessions[h];
                pool.db.sessions[h]
                == if ok && r.user == user && r.revokedAt.None? then r.(revokedAt := Some(now)) else r
      ensures pool.db == Apply(hash, old(pool.db), Step.Revoke(AllOf(user), now, ok))
    {
      if ok {
        pool.Update(AllOf(user), now);
      }
    }

    method RevokeAllExcept(user: string, keep: string, now: int, ok: bool)
      modifies pool
      ensures pool.db.users == old(pool.db).users && pool.db.sessions.Keys == old(pool.db).sessions.Keys
      ensures forall h | h in pool.db.sessions ::
                var r := old(pool.db).sessions[h];
                pool.db.sessions[h]
                == if ok && r.user == user && r.id != keep && r.revokedAt.None?
                   then r.(revokedAt := Some(now)) else r
      ensures pool.db == Apply(hash, old(pool.db), Step.Revoke(AllOfExcept(user, keep), now, ok))
    {
      if ok {
        pool.Update(AllOfExcept(user, keep), now);
      }
    }

    method CleanExpiredSessions(olderThan: int, now: int, ok: bool) returns (removed: nat)
      modifies pool
      ensures pool.db.users == old(pool.db).users
      ensures forall h :: h in pool.db.sessions <==>
                h in old(pool.db).sessions
                && (ok ==> var r := old(pool.db).sessions[h];
                           && r.expiresAt >= now - olderThan
                           && (r.revokedAt.None? || r.revokedAt.value >= now - olderThan))
      ensures forall h | h in pool.db.sessions :: pool.db.sessions[h] == old(pool.db).sessions[h]
      ensures removed == |old(pool.db).sessions| - |pool.db.sessions|
      ensures pool.db == Apply(hash, old(pool.db), Step.Clean(olderThan, now, ok))
    {
      removed := 0;
      if ok {
        removed := pool.Delete(olderThan, now);
      }
    }
  }

  class Authenticator {
    const sessions: SessionManager

    constructor (sessions: SessionManager)
      ensures this.sessions == sessions
    {
      this.sessions := sessions;
    }

    /** The principal handed to the next handler, and whether the session cookie is cleared. */
    method Authenticate(cookie: Option<string>, authorization: string, now: int, io: Io)
      returns (p: Option<Principal>, cleared: bool)
      modifies sessions.pool
      ensures var db, h := old(sessions.pool.db), sessions.hash(Credential(cookie, authorization));
              && (p.Some? <==>
                  && Credential(cookie, authorization) != "" && io.session && io.user
                  && h in db.sessions && db.sessions[h].revokedAt.None? && now < db.sessions[h].expiresAt
                  && db.sessions[h].user in db.users
                  && db.users[db.sessions[h].user].isActive && !db.users[db.sessions[h].user].isSuspended)
              && (p.Some? ==>
                    var s := db.sessions[h];
                    var u := db.users[s.user];
                    p.value == Principal(s.user, u.email, u.role, s.id, s.mfaVerified, u.resellerID))
      ensures sessions.pool.db.users == old(sessions.pool.db).users
      ensures sessions.pool.db.sessions.Keys == old(sessions.pool.db).sessions.Keys
      ensures forall k | k in sessions.pool.db.sessions ::
                var db, h := old(sessions.pool.db), sessions.hash(Credential(cookie, authorization));
                sessions.pool.db.sessions[k]
                == if p.None? && Credential(cookie, authorization) != "" && io.session && io.write
                      && h in db.sessions && db.sessions[h].revokedAt.None? && now < db.sessions[h].expiresAt
                      && db.sessions[k].id == db.sessions[h].id && db.sessions[k].revokedAt.None?
                   then db.sessions[k].(revokedAt := Some(now))
                   else db.sessions[k]
      ensures p == PrincipalOf(sessions.hash, old(sessions.pool.db), Credential(cookie, authorization), now, io)
      ensures cleared <==> p.None? && Credential(cookie, authorization) != ""
      ensures sessions.pool.db
              == AfterAuthenticate(sessions.hash, old(sessions.pool.db), Credential(cookie, authorization), now, io)
    {
      var token := Credential(cookie, authorization);
      if token == "" {
        return None, false;
      }
      var s := sessions.Validate(token, now, io.session);
      if s.None? {
        return None, true;
      }
      p := LoadPrincipal(sessions.pool.db, s.value, io.user);
      if p.None? {
        sessions.Revoke(s.value.id, now, io.write);
        return None, true;
      }
      cleared := false;
    }
  }

  /** What RequireAuth lets through. */
  predicate RequireAuth(p: Option<Principal>) {
    p.Some?
  }

  // ---- Whole runs ----

  /** `ok` says whether the statement succeeds, constraints aside. */
  datatype Step =
    | Create(token: string, id: string, owner: string, mfa: bool, maxAge: int, now: int, ok: bool)
    | Validate(token: string, now: int, ok: bool)
    | Revoke(target: Target, now: int, ok: bool)
    | Clean(olderThan: int, now: int, ok: bool)
    | Request(token: string, now: int, io: Io)
    | SetUser(name: string, data: User, now: int)
    | RemoveUser(name: string, now: int)

  function Apply(hash: string -> string, db: Db, step: Step): Db {
    match step
    case Create(token, id, user, mfa, maxAge, now, ok) =>
      var r := Insert(db, hash(token), id, user, mfa, maxAge, now);
      if ok && r.Some? then r.value else db
    case Validate(_, _, _) => db
    case Revoke(t, now, ok) => if ok then RevokeRows(db, t, now) else db
    case Clean(olderThan, now, ok) => if ok then CleanRows(db, olderThan, now) else db
    case Request(token, now, io) => AfterAuthenticate(hash, db, token, now, io)
    case SetUser(user, data, _) => db.(users := db.users[user := data])
    case RemoveUser(user, _) => DropUser(db, user)
  }

  /** What happens to users: storing one touches no session, removing one removes that user's sessions only. */
  lemma UserSteps(hash: string -> string, db: Db, user: string, data: User, now: int)
    ensures Apply(hash, db, SetUser(user, data, now)) == Db(db.users[user := data], db.sessions)
    ensures var after := Apply(hash, db, RemoveUser(user, now));
            && after.users == db.users - {user}
            && (forall h :: h in after.sessions <==> h in db.sessions && db.sessions[h].user != user)
            && forall h | h in after.sessions :: after.sessions[h] == db.sessions[h]
  {
  }

  datatype Answer = Created(ok: bool) | Session(s: Option<Row>) | Served(p: Option<Principal>) | Silent

  function Reply(hash: string -> string, db: Db, step: Step): Answer {
    match step
    case Create(token, id, user, mfa, maxAge, now, ok) =>
      Created(ok && Insert(db, hash(token), id, user, mfa, maxAge, now).Some?)
    case Validate(token, now, ok) => Session(if ok then Lookup(db, hash(token), now) else None)
    case Request(token, now, io) => Served(PrincipalOf(hash, db, token, now, io))
    case _ => Silent
  }

  function Answers(hash: string -> string, db: Db, steps: seq<Step>): seq<Answer>
    decreases steps
  {
    if steps == [] then []
    else if steps[0].Clean? then Answers(hash, Apply(hash, db, steps[0]), steps[1..])
    else [Reply(hash, db, steps[0])] + Answers(hash, Apply(hash, db, steps[0]), steps[1..])
  }

  function WithoutCleans(steps: seq<Step>): seq<Step> {
    if steps == [] then []
    else if steps[0].Clean? then WithoutCleans(steps[1..])
    else [steps[0]] + WithoutCleans(steps[1..])
  }

  predicate Timed(steps: seq<Step>, clock: int) {
    steps == [] || (clock <= steps[0].now && Timed(steps[1..], steps[0].now))
  }

  /** New sessions draw tokens and ids never drawn before; clean-ups keep a retention of at least zero. */
  predicate Fresh(hash: string -> string, steps: seq<Step>, hashes: set<string>, ids: set<string>) {
    steps == [] ||
    match steps[0]
    case Create(token, id, _, _, _, _, _) =>
      hash(token) !in hashes && id !in ids && Fresh(hash, steps[1..], hashes + {hash(token)}, ids + {id})
    case Clean(olderThan, _, _) => olderThan >= 0 && Fresh(hash, steps[1..], hashes, ids)
    case _ => Fresh(hash, steps[1..], hashes, ids)
  }

  ghost predicate Drawn(db: Db, hashes: set<string>, ids: set<string>) {
    forall h | h in db.sessions :: h in hashes && db.sessions[h].id in ids
  }

  /** `kept` is `full` without some sessions that are dead at `clock`. */
  ghost predicate Trimmed(full: Db, kept: Db, clock: int) {
    && full.users == kept.users
    && (forall h | h in kept.sessions :: h in full.sessions && kept.sessions[h] == full.sessions[h])
    && (forall h | h in full.sessions && h !in kept.sessions :: !Live(full.sessions[h], clock))
  }

  lemma TrimmedLookup(full: Db, kept: Db, clock: int, h: string, now: int)
    requires Trimmed(full, kept, clock) && clock <= now
    ensures Lookup(full, h, now) == Lookup(kept, h, now)
  {
  }

  lemma TrimmedStep(
      hash: string -> string, full: Db, kept: Db, step: Step, clock: int, hashes: set<string>, ids: set<string>)
    requires Trimmed(full, kept, clock) && clock <= step.now && !step.Clean?
    requires Drawn(full, hashes, ids)
    requires step.Create? ==> hash(step.token) !in hashes && step.id !in ids
    ensures Reply(hash, full, step) == Reply(hash, kept, step)
    ensures Trimmed(Apply(hash, full, step), Apply(hash, kept, step), step.now)
  {
    match step
    case Validate(token, now, _) => TrimmedLookup(full, kept, clock, hash(token), now);
    case Request(token, now, _) => TrimmedLookup(full, kept, clock, hash(token), now);
    case _ =>
  }

  lemma StepDraws(hash: string -> string, db: Db, step: Step, hashes: set<string>, ids: set<string>)
    requires Drawn(db, hashes, ids)
    ensures step.Create? ==> Drawn(Apply(hash, db, step), hashes + {hash(step.token)}, ids + {step.id})
    ensures !step.Create? ==> Drawn(Apply(hash, db, step), hashes, ids)
  {
  }

  lemma CleanTrims(full: Db, kept: Db, olderThan: int, clock: int, now: int)
    requires Trimmed(full, kept, clock) && clock <= now && olderThan >= 0
    ensures Trimmed(full, CleanRows(kept, olderThan, now), now)
  {
  }

  lemma {:induction false} CleansUnseen(
      hash: string -> string, full: Db, kept: Db, steps: seq<Step>, clock: int, hashes: set<string>, ids: set<string>)
    requires Trimmed(full, kept, clock) && Drawn(full, hashes, ids)
    requires Timed(steps, clock) && Fresh(hash, steps, hashes, ids)
    ensures Answers(hash, kept, steps) == Answers(hash, full, WithoutCleans(steps))
    decreases steps
  {
    if steps != [] {
      var step, rest := steps[0], steps[1..];
      var kept' := Apply(hash, kept, step);
      if step.Clean? {
        CleanTrims(full, kept, step.olderThan, clock, step.now);
        CleansUnseen(hash, full, kept', rest, step.now, hashes, ids);
      } else {
        TrimmedStep(hash, full, kept, step, clock, hashes, ids);
        StepDraws(hash, full, step, hashes, ids);
        assert WithoutCleans(steps)[1..] == WithoutCleans(rest);
        if step.Create? {
          var hashes', ids' := hashes + {hash(step.token)}, ids + {step.id};
          CleansUnseen(hash, Apply(hash, full, step), kept', rest, step.now, hashes', ids');
        } else {
          CleansUnseen(hash, Apply(hash, full, step), kept', rest, step.now, hashes, ids);
        }
      }
    }
  }

  /** Clean-up cannot be observed: over any run with fresh tokens, every answer is the same with clean-ups as
      without them. */
  lemma CleanUpIsUnobservable(hash: string -> string, users: map<string, User>, steps: seq<Step>, clock: int)
    requires Timed(steps, clock) && Fresh(hash, steps, {}, {})
    ensures Answers(hash, Db(users, map[]), steps) == Answers(hash, Db(users, map[]), WithoutCleans(steps))
  {
    CleansUnseen(hash, Db(users, map[]), Db(users, map[]), steps, clock, {}, {});
  }

  // ---- Invalidation is permanent ----

  predicate Dead(db: Db, h: string, now: int) {
    h in db.sessions ==> !Live(db.sessions[h], now)
  }

  /** No later session draws the same token. */
  predicate NeverDrawnAgain(hash: string -> string, steps: seq<Step>, h: string) {
    forall i | 0 <= i < |steps| :: steps[i].Create? ==> hash(steps[i].token) != h
  }

  /** Neither a session nor a principal for the token with hash `h`, at any step of the run. */
  ghost predicate NeverServed(hash: string -> string, db: Db, steps: seq<Step>, h: string)
    decreases steps
  {
    steps == [] ||
    ((match steps[0]
      case Validate(token, now, _) => hash(token) == h ==> Reply(hash, db, steps[0]) == Session(None)
      case Request(token, now, io) => hash(token) == h ==> !RequireAuth(PrincipalOf(hash, db, token, now, io))
      case _ => true)
     && NeverServed(hash, Apply(hash, db, steps[0]), steps[1..], h))
  }

  /** A token whose session is revoked or expired, or gone, never validates again and never gives a
      principal, whatever happens to sessions and users. */
  lemma {:induction false} DeadForever(hash: string -> string, db: Db, steps: seq<Step>, clock: int, h: string)
    requires Dead(db, h, clock) && Timed(steps, clock) && NeverDrawnAgain(hash, steps, h)
    ensures NeverServed(hash, db, steps, h)
    decreases steps
  {
    if steps != [] {
      var step := steps[0];
      assert step.Create? ==> hash(step.token) != h;
      assert Dead(Apply(hash, db, step), h, step.now);
      assert NeverDrawnAgain(hash, steps[1..], h) by {
        assert forall i | 0 <= i < |steps[1..]| :: steps[1..][i] == steps[i + 1];
      }
      DeadForever(hash, Apply(hash, db, step), steps[1..], step.now, h);
    }
  }

  /** Revocation reaches exactly the sessions it names, and is final for each of them. */
  lemma RevokedForever(hash: string -> string, db: Db, t: Target, now: int, steps: seq<Step>, h: string)
    requires h in db.sessions && Timed(steps, now) && NeverDrawnAgain(hash, steps, h)
    ensures Hits(t, db.sessions[h]) ==> NeverServed(hash, RevokeRows(db, t, now), steps, h)
    ensures !Hits(t, db.sessions[h]) ==>
              Lookup(RevokeRows(db, t, now), h, now) == Lookup(db, h, now)
  {
    if Hits(t, db.sessions[h]) {
      DeadForever(hash, RevokeRows(db, t, now), steps, now, h);
    }
  }

  /** The user is there, active and not suspended. */
  predicate Admitted(db: Db, user: string) {
    user in db.users && db.users[user].isActive && !db.users[user].isSuspended
  }

  /** A live session is used while its user cannot be loaded: missing, inactive, suspended, or not read. */
  predicate UsedWhileBarred(hash: string -> string, db: Db, token: string, now: int, io: Io) {
    var h := hash(token);
    && token != "" && io.session
    && h in db.sessions && db.sessions[h].revokedAt.None? && now < db.sessions[h].expiresAt
    && !(io.user && Admitted(db, db.sessions[h].user))
  }

  ghost predicate DeadForGood(hash: string -> string, db: Db, token: string, now: int) {
    forall steps | Timed(steps, now) && NeverDrawnAgain(hash, steps, hash(token)) ::
      NeverServed(hash, db, steps, hash(token))
  }

  /** A session used while its user cannot be loaded gives no principal, and is dead for good exactly when the
      revocation is written: otherwise reinstating the user brings it back. */
  lemma BarredUseIsFinalIff(hash: string -> string, db: Db, token: string, now: int, io: Io)
    requires UsedWhileBarred(hash, db, token, now, io)
    ensures PrincipalOf(hash, db, token, now, io).None?
    ensures DeadForGood(hash, AfterAuthenticate(hash, db, token, now, io), token, now) <==> io.write
  {
    var h := hash(token);
    var after := AfterAuthenticate(hash, db, token, now, io);
    if io.write {
      forall steps | Timed(steps, now) && NeverDrawnAgain(hash, steps, h) ensures NeverServed(hash, after, steps, h) {
        DeadForever(hash, after, steps, now, h);
      }
    } else {
      var row := db.sessions[h];
      var reinstate := SetUser(row.user, User("", "", true, false, None), now);
      var again := Request(token, now, Io(true, true, true));
      var steps := [reinstate, again];
      var reinstated := Apply(hash, db, reinstate);
      assert steps[1..] == [again];
      assert Timed(steps[1..], now);
      assert PrincipalOf(hash, reinstated, token, now, again.io).Some?;
      assert !NeverServed(hash, reinstated, steps[1..], h);
      assert !NeverServed(hash, after, steps, h);
      assert NeverDrawnAgain(hash, steps, h);
    }
  }

  // ---- How long a session lasts ----

  function After(hash: string -> string, db: Db, steps: seq<Step>): Db
    decreases steps
  {
    if steps == [] then db else After(hash, Apply(hash, db, steps[0]), steps[1..])
  }

  function FinalTime(steps: seq<Step>, clock: int): int {
    if steps == [] then clock else FinalTime(steps[1..], steps[0].now)
  }

  ghost predicate UniqueIds(db: Db) {
    forall h, k | h in db.sessions && k in db.sessions && db.sessions[h].id == db.sessions[k].id :: h == k
  }

  /** Every run keeps session ids unique, from a database without sessions on. */
  lemma {:induction false} IdsStayUnique(hash: string -> string, db: Db, steps: seq<Step>)
    requires UniqueIds(db)
    ensures UniqueIds(After(hash, db, steps))
    decreases steps
  {
    if steps != [] {
      IdsStayUnique(hash, Apply(hash, db, steps[0]), steps[1..]);
    }
  }

  /** The steps that end the session `r`, filed under `h`, before it expires. */
  predicate Ends(hash: string -> string, db: Db, step: Step, h: string, r: Row) {
    match step
    case Revoke(t, _, ok) => ok && Hits(t, r)
    case RemoveUser(name, _) => name == r.user
    case Request(token, now, io) =>
      && token != "" && hash(token) == h && now < r.expiresAt
      && io.session && !(io.user && Admitted(db, r.user)) && io.write
    case _ => false
  }

  predicate Ended(hash: string -> string, db: Db, steps: seq<Step>, h: string, r: Row)
    decreases steps
  {
    steps != [] && (Ends(hash, db, steps[0], h, r) || Ended(hash, Apply(hash, db, steps[0]), steps[1..], h, r))
  }

  predicate CleansKeepRetention(steps: seq<Step>) {
    forall i | 0 <= i < |steps| :: steps[i].Clean? ==> steps[i].olderThan >= 0
  }

  lemma {:induction false} DeadStays(hash: string -> string, db: Db, steps: seq<Step>, clock: int, h: string)
    requires Dead(db, h, clock) && Timed(steps, clock) && NeverDrawnAgain(hash, steps, h)
    ensures Dead(After(hash, db, steps), h, FinalTime(steps, clock))
    decreases steps
  {
    if steps != [] {
      assert steps[0].Create? ==> hash(steps[0].token) != h;
      assert NeverDrawnAgain(hash, steps[1..], h) by {
        assert forall i | 0 <= i < |steps[1..]| :: steps[1..][i] == steps[i + 1];
      }
      DeadStays(hash, Apply(hash, db, steps[0]), steps[1..], steps[0].now, h);
    }
  }

  /** One step leaves an unexpired session exactly as it is, or ends it. */
  lemma StepKeepsOrEnds(hash: string -> string, db: Db, step: Step, h: string)
    requires UniqueIds(db) && h in db.sessions && Live(db.sessions[h], step.now)
    requires step.Clean? ==> step.olderThan >= 0
    ensures UniqueIds(Apply(hash, db, step))
    ensures !Ends(hash, db, step, h, db.sessions[h]) ==>
              h in Apply(hash, db, step).sessions && Apply(hash, db, step).sessions[h] == db.sessions[h]
    ensures Ends(hash, db, step, h, db.sessions[h]) ==> Dead(Apply(hash, db, step), h, step.now)
  {
  }

  /** The exact lifetime of a session: after any run it validates, unchanged, if and only if it has not expired
      and no step of the run revoked it, deleted its user, or used it while its user could not be loaded. */
  lemma {:induction false} SessionLastsExactly(
      hash: string -> string, db: Db, steps: seq<Step>, clock: int, h: string, now: int)
    requires UniqueIds(db) && h in db.sessions && db.sessions[h].revokedAt.None?
    requires Timed(steps, clock) && FinalTime(steps, clock) <= now
    requires NeverDrawnAgain(hash, steps, h) && CleansKeepRetention(steps)
    ensures Lookup(After(hash, db, steps), h, now)
            == if now < db.sessions[h].expiresAt && !Ended(hash, db, steps, h, db.sessions[h])
               then Some(db.sessions[h]) else None
    decreases steps
  {
    if steps != [] {
      var step, r := steps[0], db.sessions[h];
      FinalTimeLater(steps[1..], step.now);
      if step.now < r.expiresAt {
        StepKeepsOrEnds(hash, db, step, h);
        assert NeverDrawnAgain(hash, steps[1..], h) by {
          assert forall i | 0 <= i < |steps[1..]| :: steps[1..][i] == steps[i + 1];
        }
        assert CleansKeepRetention(steps[1..]) by {
          assert forall i | 0 <= i < |steps[1..]| :: steps[1..][i] == steps[i + 1];
        }
        if Ends(hash, db, step, h, r) {
          DeadStays(hash, Apply(hash, db, step), steps[1..], step.now, h);
        } else {
          SessionLastsExactly(hash, Apply(hash, db, step), steps[1..], step.now, h, now);
        }
      } else {
        ExpiryStays(hash, db, steps, clock, h, now);
      }
    }
  }

  lemma {:induction false} FinalTimeLater(steps: seq<Step>, clock: int)
    requires Timed(steps, clock)
    ensures clock <= FinalTime(steps, clock)
  {
    if steps != [] {
      FinalTimeLater(steps[1..], steps[0].now);
    }
  }

  lemma ExpiryStays(hash: string -> string, db: Db, steps: seq<Step>, clock: int, h: string, now: int)
    requires h in db.sessions && steps != [] && Timed(steps, clock) && FinalTime(steps, clock) <= now
    requires db.sessions[h].expiresAt <= steps[0].now && NeverDrawnAgain(hash, steps, h)
    ensures Lookup(After(hash, db, steps), h, now).None?
  {
    DeadStays(hash, db, steps, steps[0].now, h);
  }

  /** A new session validates at once and is the session that was asked for. */
  lemma CreatedSessionValidates(
      hash: string -> string, db: Db, token: string, id: string, user: string, mfa: bool, maxAge: int, now: int)
    requires UniqueIds(db) && user in db.users && maxAge > 0
    requires hash(token) !in db.sessions && forall h | h in db.sessions :: db.sessions[h].id != id
    ensures var r := Insert(db, hash(token), id, user, mfa, maxAge, now);
            && r.Some? && UniqueIds(r.value)
            && Lookup(r.value, hash(token), now) == Some(Row(id, user, mfa, now + maxAge, None))
  {
  }
}
