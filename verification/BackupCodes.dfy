/** Enrolment and single-use backup codes (control-plane/internal/auth/totp.go). TOTP validation, encryption,
    the random salts and the outcome of database writes are parameters. */
module BackupCodes {
  import opened Text
  import Phc

  /** The MFA columns of one user row; `codes` is None for SQL NULL. */
  datatype Mfa = Mfa(enabled: bool, secret: Option<string>, codes: Option<seq<string>>)

  type Users = map<string, Mfa>

  function Stored(users: Users, user: string): seq<string> {
    if user in users && users[user].codes.Some? then users[user].codes.value else []
  }

  /** Whether a stored hash accepts a code; a malformed hash accepts none. */
  predicate Matches(kdf: Phc.Kdf, code: string, hash: string) {
    Phc.VerifyPassword(kdf, code, hash) == Ok(true)
  }

  /** The position of the first hash that accepts the code, or the number of hashes. */
  function FirstMatch(kdf: Phc.Kdf, code: string, hashes: seq<string>): (i: nat)
    ensures i <= |hashes|
    ensures i < |hashes| ==> Matches(kdf, code, hashes[i])
    ensures forall j | 0 <= j < i :: !Matches(kdf, code, hashes[j])
  {
    if hashes == [] || Matches(kdf, code, hashes[0]) then 0 else 1 + FirstMatch(kdf, code, hashes[1..])
  }

  function RemoveAt(s: seq<string>, i: nat): seq<string>
    requires i < |s|
  {
    s[..i] + s[i + 1..]
  }

  predicate Finds(kdf: Phc.Kdf, code: string, hashes: seq<string>) {
    FirstMatch(kdf, code, hashes) < |hashes|
  }

  /** One call of VerifyBackupCode, and whether its SELECT and its UPDATE succeed. */
  datatype Use = Use(user: string, code: string, readOk: bool, writeOk: bool)

  /** The call succeeds: some stored hash accepts the code, and both statements go through. */
  predicate Accepted(kdf: Phc.Kdf, hashes: seq<string>, u: Use) {
    u.readOk && Finds(kdf, u.code, hashes) && u.writeOk
  }

  function AfterUse(kdf: Phc.Kdf, users: Users, u: Use): Users {
    var hashes := Stored(users, u.user);
    if Accepted(kdf, hashes, u)
    then users[u.user := users[u.user].(codes := Some(RemoveAt(hashes, FirstMatch(kdf, u.code, hashes))))]
    else users
  }

  /** A code is found when some stored hash accepts it. */
  lemma FindsWhen(kdf: Phc.Kdf, users: Users, user: string, code: string)
    ensures Finds(kdf, code, Stored(users, user)) <==>
            && user in users && users[user].codes.Some?
            && exists i | 0 <= i < |users[user].codes.value| ::
                 Phc.VerifyPassword(kdf, code, users[user].codes.value[i]) == Ok(true)
  {
    var hashes := Stored(users, user);
    var first := FirstMatch(kdf, code, hashes);
    if first < |hashes| {
      assert Matches(kdf, code, hashes[first]);
    }
    forall i | 0 <= i < |hashes| && i < first ensures Phc.VerifyPassword(kdf, code, hashes[i]) != Ok(true) {
      assert !Matches(kdf, code, hashes[i]);
    }
  }

  /** A successful call takes the first hash that accepts the code out of the user's codes; the user's other columns,
      and all other users, stay as they are. Any other call changes nothing. */
  lemma UseTakesFirst(kdf: Phc.Kdf, users: Users, u: Use) returns (i: nat)
    ensures !Accepted(kdf, Stored(users, u.user), u) ==> AfterUse(kdf, users, u) == users
    ensures Accepted(kdf, Stored(users, u.user), u) ==>
              && u.readOk && u.writeOk && u.user in users && users[u.user].codes.Some?
              && var before, after := users[u.user], AfterUse(kdf, users, u);
              var hashes := before.codes.value;
              && i < |hashes| && Phc.VerifyPassword(kdf, u.code, hashes[i]) == Ok(true)
              && (forall j | 0 <= j < i :: Phc.VerifyPassword(kdf, u.code, hashes[j]) != Ok(true))
              && after == users[u.user := Mfa(before.enabled, before.secret, Some(hashes[..i] + hashes[i + 1..]))]
  {
    var hashes := Stored(users, u.user);
    i := FirstMatch(kdf, u.code, hashes);
    forall j | 0 <= j < i ensures Phc.VerifyPassword(kdf, u.code, hashes[j]) != Ok(true) {
      assert !Matches(kdf, u.code, hashes[j]);
    }
  }

  /** A code to enrol, and the salt drawn for it, None if drawing failed. */
  datatype NewCode = NewCode(code: string, salt: Option<seq<Phc.byte>>)

  function HashOne(kdf: Phc.Kdf, c: NewCode): Option<string> {
    Phc.HashPassword(kdf, c.code, Some(Phc.DEFAULT_PARAMS), c.salt)
  }

  /** A code is hashed with the default costs. */
  lemma HashOneIs(kdf: Phc.Kdf, c: NewCode)
    ensures HashOne(kdf, c) == Phc.HashPassword(kdf, c.code, None, c.salt)
  {
  }

  /** Every code hashed with its own salt, in order; None if a salt could not be drawn. */
  function Hashes(kdf: Phc.Kdf, codes: seq<NewCode>): (r: Option<seq<string>>)
    ensures r.Some? <==> forall i | 0 <= i < |codes| :: codes[i].salt.Some?
    ensures r.Some? ==> |r.value| == |codes|
    ensures r.Some? ==> forall i | 0 <= i < |codes| :: HashOne(kdf, codes[i]) == Some(r.value[i])
  {
    if codes == [] then Some([])
    else
      match (HashOne(kdf, codes[0]), Hashes(kdf, codes[1..]))
      case (Some(first), Some(rest)) => Some([first] + rest)
      case _ => None
  }

  /** One call that can change the stored codes, with what its environment does. */
  datatype Step =
    | Enroll(user: string, otpValid: bool, encSecret: Option<string>, codes: seq<NewCode>, writeOk: bool)
    | Verify(use: Use)
    | TurnOff(user: string, writeOk: bool)

  function AfterStep(kdf: Phc.Kdf, users: Users, step: Step): Users {
    match step
    case Enroll(user, otpValid, encSecret, codes, writeOk) =>
      if otpValid && encSecret.Some? && Hashes(kdf, codes).Some? && writeOk && user in users
      then users[user := Mfa(true, encSecret, Hashes(kdf, codes))]
      else users
    case Verify(u) => AfterUse(kdf, users, u)
    case TurnOff(user, writeOk) => if writeOk && user in users then users[user := Mfa(false, None, None)] else users
  }

  datatype EnrollError = InvalidTotp | EncryptionFailed | HashFailed | WriteFailed

  class TotpManager {
    const kdf: Phc.Kdf
    var users: Users

    constructor (kdf: Phc.Kdf, users: Users)
      ensures this.kdf == kdf && this.users == users
    {
      this.kdf := kdf;
      this.users := users;
    }

    method ConfirmEnrollment(
        user: string, otpValid: bool, encSecret: Option<string>, codes: seq<NewCode>, writeOk: bool)
      returns (failed: Option<EnrollError>)
      modifies this`users
      ensures failed == if !otpValid then Some(InvalidTotp)
                        else if encSecret.None? then Some(EncryptionFailed)
                        else if exists i | 0 <= i < |codes| :: codes[i].salt.None? then Some(HashFailed)
                        else if !writeOk then Some(WriteFailed) else None
      ensures users.Keys == old(users).Keys && forall u | u in users && u != user :: users[u] == old(users)[u]
      ensures failed.Some? ==> users == old(users)
      ensures failed.None? ==> Hashes(kdf, codes).Some?
      ensures users == if failed.None? && user in old(users)
                       then old(users)[user := Mfa(true, encSecret, Hashes(kdf, codes))]
                       else old(users)
      ensures users == AfterStep(kdf, old(users), Enroll(user, otpValid, encSecret, codes, writeOk))
    {
      if !otpValid {
        return Some(InvalidTotp);
      }
      if encSecret.None? {
        return Some(EncryptionFailed);
      }
      var hashed, ok := HashAll(kdf, codes);
      if !ok {
        return Some(HashFailed);
      }
      if !writeOk {
        return Some(WriteFailed);
      }
      if user in users {
        users := users[user := Mfa(true, encSecret, Some(hashed[..]))];
      }
      failed := None;
    }

    /** A matching hash is cut out of the fetched slice in place, by shifting the rest down. An error is
        returned only when the code was right and could not be consumed. */
    method VerifyBackupCode(user: string, code: string, readOk: bool, writeOk: bool) returns (ok: bool, error: bool)
      modifies this`users
      ensures ok <==> readOk && Finds(kdf, code, Stored(old(users), user)) && writeOk
      ensures error <==> readOk && Finds(kdf, code, Stored(old(users), user)) && !writeOk
      ensures !ok ==> users == old(users)
      ensures users == AfterStep(kdf, old(users), Verify(Use(user, code, readOk, writeOk)))
    {
      if !readOk || user !in users || users[user].codes.None? || |users[user].codes.value| == 0 {
        return false, false;
      }
      var stored := users[user].codes.value;
      var hashes := new string[|stored|](i requires 0 <= i < |stored| => stored[i]);
      assert hashes[..] == stored;
      var i := FindCode(kdf, code, hashes);
      if i == hashes.Length {
        return false, false;
      }
      ShiftDown(hashes, i);
      var remaining := hashes[..hashes.Length - 1];
      if !writeOk {
        return false, true;
      }
      users := users[user := users[user].(codes := Some(remaining))];
      return true, false;
    }

    method Disable(user: string, writeOk: bool) returns (ok: bool)
      modifies this`users
      ensures ok == writeOk
      ensures users.Keys == old(users).Keys && forall u | u in users && u != user :: users[u] == old(users)[u]
      ensures users == if writeOk && user in old(users)
                       then old(users)[user := Mfa(false, None, None)] else old(users)
      ensures users == AfterStep(kdf, old(users), TurnOff(user, writeOk))
    {
      if writeOk && user in users {
        users := users[user := Mfa(false, None, None)];
      }
      ok := writeOk;
    }
  }

  /** The loop over the codes stops at the first salt that cannot be drawn. */
  method HashAll(kdf: Phc.Kdf, codes: seq<NewCode>) returns (hashed: array<string>, ok: bool)
    ensures fresh(hashed)
    ensures ok <==> Hashes(kdf, codes).Some?
    ensures ok ==> hashed[..] == Hashes(kdf, codes).value
  {
    hashed := new string[|codes|];
    for i := 0 to |codes|
      invariant forall j | 0 <= j < i :: HashOne(kdf, codes[j]) == Some(hashed[j])
    {
      var hash := HashOne(kdf, codes[i]);
      if hash.None? {
        return hashed, false;
      }
      hashed[i] := hash.value;
    }
    ok := true;
  }

  /** The loop over the stored hashes: the first that accepts the code; hashes that do not parse are skipped. */
  method FindCode(kdf: Phc.Kdf, code: string, hashes: array<string>) returns (i: nat)
    ensures i <= hashes.Length
    ensures i < hashes.Length ==> Phc.VerifyPassword(kdf, code, hashes[i]) == Ok(true)
    ensures forall j | 0 <= j < i :: Phc.VerifyPassword(kdf, code, hashes[j]) != Ok(true)
    ensures i == FirstMatch(kdf, code, hashes[..]) <= hashes.Length
  {
    i := 0;
    while i < hashes.Length
      invariant i <= hashes.Length
      invariant forall j | 0 <= j < i :: !Matches(kdf, code, hashes[..][j])
    {
      var accepted := Phc.VerifyPassword(kdf, code, hashes[i]);
      if accepted == Ok(true) {
        break;
      }
      i := i + 1;
    }
    assert forall j | 0 <= j < i :: hashes[..][j] == hashes[j];
    if i < hashes.Length {
      FirstMatchIs(kdf, code, hashes[..], i);
    }
  }

  /** What append(a[:i], a[i+1:]...) does to the backing array. */
  method ShiftDown(a: array<string>, i: nat)
    requires i < a.Length
    modifies a
    ensures a[..a.Length - 1] == old(a[..])[..i] + old(a[..])[i + 1..]
    ensures a[..a.Length - 1] == RemoveAt(old(a[..]), i)
  {
    for k := i to a.Length - 1
      invariant a[..k] == RemoveAt(old(a[..]), i)[..k]
      invariant a[k..] == old(a[..])[k..]
    {
      assert a[k + 1] == old(a[..])[k + 1] == RemoveAt(old(a[..]), i)[k] by {
        assert a[k + 1] == a[k..][1];
      }
      ghost var tail := a[k..];
      a[k] := a[k + 1];
      assert a[..k + 1] == a[..k] + [a[k]];
      assert a[k + 1..] == tail[1..];
    }
  }

  lemma FirstMatchIs(kdf: Phc.Kdf, code: string, hashes: seq<string>, i: nat)
    requires i < |hashes| && Matches(kdf, code, hashes[i])
    requires forall j | 0 <= j < i :: !Matches(kdf, code, hashes[j])
    ensures FirstMatch(kdf, code, hashes) == i
  {
  }

  // ---- Whole runs ----

  function After(kdf: Phc.Kdf, users: Users, steps: seq<Step>): Users
    decreases steps
  {
    if steps == [] then users else After(kdf, AfterStep(kdf, users, steps[0]), steps[1..])
  }

  function AfterOne(kdf: Phc.Kdf, hashes: seq<string>, u: Use): seq<string> {
    if Accepted(kdf, hashes, u) then RemoveAt(hashes, FirstMatch(kdf, u.code, hashes)) else hashes
  }

  /** What a list of calls of one user leaves of that user's hashes. */
  function Left(kdf: Phc.Kdf, hashes: seq<string>, uses: seq<Use>): seq<string>
    decreases uses
  {
    if uses == [] then hashes else Left(kdf, AfterOne(kdf, hashes, uses[0]), uses[1..])
  }

  /** A successful enrolment of the user, or a successful Disable. */
  predicate Resets(kdf: Phc.Kdf, step: Step, user: string) {
    match step
    case Enroll(u, otpValid, encSecret, codes, writeOk) =>
      u == user && otpValid && encSecret.Some? && Hashes(kdf, codes).Some? && writeOk
    case Verify(_) => false
    case TurnOff(u, writeOk) => u == user && writeOk
  }

  /** The hashes such a step stores. */
  function SetBy(kdf: Phc.Kdf, step: Step): seq<string>
    requires step.Enroll? ==> Hashes(kdf, step.codes).Some?
  {
    if step.Enroll? then Hashes(kdf, step.codes).value else []
  }

  /** How many steps there are up to the last one that enrols the user or turns the user's codes off. */
  function LastReset(kdf: Phc.Kdf, steps: seq<Step>, user: string): (n: nat)
    ensures n <= |steps| && (n > 0 ==> Resets(kdf, steps[n - 1], user))
    ensures forall i | n <= i < |steps| :: !Resets(kdf, steps[i], user)
  {
    if steps == [] then 0
    else
      var later := LastReset(kdf, steps[1..], user);
      if later > 0 then later + 1 else if Resets(kdf, steps[0], user) then 1 else 0
  }

  /** The hashes of the user's last enrolment, or the first ones if there was none. */
  function Enrolled(kdf: Phc.Kdf, users: Users, steps: seq<Step>, user: string): seq<string> {
    var n := LastReset(kdf, steps, user);
    if n > 0 && user in users then SetBy(kdf, steps[n - 1]) else Stored(users, user)
  }

  function UsesBy(user: string, steps: seq<Step>): seq<Use> {
    if steps == [] then []
    else if steps[0].Verify? && steps[0].use.user == user then [steps[0].use] + UsesBy(user, steps[1..])
    else UsesBy(user, steps[1..])
  }

  /** The user's calls since then. */
  function UsesSince(kdf: Phc.Kdf, steps: seq<Step>, user: string): seq<Use> {
    UsesBy(user, steps[LastReset(kdf, steps, user)..])
  }

  lemma StepOnUser(kdf: Phc.Kdf, users: Users, step: Step, user: string)
    ensures var users' := AfterStep(kdf, users, step);
            && (user in users' <==> user in users)
            && Stored(users', user)
               == if user in users && Resets(kdf, step, user) then SetBy(kdf, step)
                  else if step.Verify? && step.use.user == user then AfterOne(kdf, Stored(users, user), step.use)
                  else Stored(users, user)
  {
  }

  /** After any calls of any users, a user's stored hashes are those of the user's last enrolment, less what the
      user's later calls consumed; there are none after a Disable. */
  lemma {:induction false} StoredAfterRun(kdf: Phc.Kdf, users: Users, steps: seq<Step>, user: string)
    ensures Stored(After(kdf, users, steps), user)
            == Left(kdf, Enrolled(kdf, users, steps, user), UsesSince(kdf, steps, user))
    decreases steps
  {
    if steps != [] {
      var users', rest := AfterStep(kdf, users, steps[0]), steps[1..];
      var later := LastReset(kdf, rest, user);
      StepOnUser(kdf, users, steps[0], user);
      StoredAfterRun(kdf, users', rest, user);
      if later > 0 {
        assert steps[later + 1..] == rest[later..];
        if user !in users {
          NothingLeft(kdf, UsesSince(kdf, steps, user));
        }
      } else {
        assert rest[0..] == rest && steps[0..] == steps && steps[1..] == rest;
        if steps[0].Verify? && steps[0].use.user == user {
          assert UsesBy(user, steps)[1..] == UsesBy(user, rest);
        }
      }
    }
  }

  lemma {:induction false} NothingLeft(kdf: Phc.Kdf, uses: seq<Use>)
    ensures Left(kdf, [], uses) == []
  {
    if uses != [] {
      NothingLeft(kdf, uses[1..]);
    }
  }

  /** From a Disable on until the next enrolment no code works, whatever is tried. */
  lemma NothingAfterDisable(kdf: Phc.Kdf, users: Users, steps: seq<Step>, user: string)
    requires var n := LastReset(kdf, steps, user); n > 0 && steps[n - 1].TurnOff?
    ensures Stored(After(kdf, users, steps), user) == []
  {
    StoredAfterRun(kdf, users, steps, user);
    NothingLeft(kdf, UsesSince(kdf, steps, user));
  }

  predicate Of(step: Step, user: string) {
    (if step.Verify? then step.use.user else step.user) == user
  }

  function StepsOf(user: string, steps: seq<Step>): seq<Step> {
    if steps == [] then []
    else if Of(steps[0], user) then [steps[0]] + StepsOf(user, steps[1..])
    else StepsOf(user, steps[1..])
  }

  /** Every user's codes evolve by that user's calls alone. */
  lemma {:induction false} UsersAreIndependent(
      kdf: Phc.Kdf, users: Users, others: Users, steps: seq<Step>, user: string)
    requires user in users <==> user in others
    requires Stored(users, user) == Stored(others, user)
    ensures Stored(After(kdf, users, steps), user) == Stored(After(kdf, others, StepsOf(user, steps)), user)
    decreases steps
  {
    if steps != [] {
      var users' := AfterStep(kdf, users, steps[0]);
      StepOnUser(kdf, users, steps[0], user);
      StepOnUser(kdf, others, steps[0], user);
      if Of(steps[0], user) {
        UsersAreIndependent(kdf, users', AfterStep(kdf, others, steps[0]), steps[1..], user);
        assert StepsOf(user, steps)[1..] == StepsOf(user, steps[1..]);
      } else {
        UsersAreIndependent(kdf, users', others, steps[1..], user);
      }
    }
  }

  /** The hashes consumed by the successful calls of a run, with the codes that consumed them. */
  function Consumed(kdf: Phc.Kdf, hashes: seq<string>, uses: seq<Use>): seq<(string, string)>
    decreases uses
  {
    if uses == [] then []
    else
      var u := uses[0];
      var later := Consumed(kdf, AfterOne(kdf, hashes, u), uses[1..]);
      if Accepted(kdf, hashes, u)
      then [(u.code, hashes[FirstMatch(kdf, u.code, hashes)])] + later
      else later
  }

  function Seconds(pairs: seq<(string, string)>): seq<string> {
    if pairs == [] then [] else [pairs[0].1] + Seconds(pairs[1..])
  }

  /** `sub` is `s` with some elements left out. */
  predicate Subsequence(sub: seq<string>, s: seq<string>) {
    if sub == [] then true
    else if s == [] then false
    else if sub[0] == s[0] then Subsequence(sub[1..], s[1..])
    else Subsequence(sub, s[1..])
  }

  lemma {:induction false} SubsequenceTail(a: seq<string>, b: seq<string>)
    requires a != [] && Subsequence(a, b)
    ensures Subsequence(a[1..], b)
  {
    if a[0] == b[0] {
      if |a| > 1 && a[1] == b[0] {
        SubsequenceTail(a[1..], b[1..]);
      }
    } else {
      SubsequenceTail(a, b[1..]);
      SubsequenceWeaken(a[1..], b);
    }
  }

  lemma SubsequenceWeaken(a: seq<string>, b: seq<string>)
    requires b != [] && Subsequence(a, b[1..])
    ensures Subsequence(a, b)
  {
    if a != [] && a[0] == b[0] {
      SubsequenceTail(a, b[1..]);
    }
  }

  lemma {:induction false} SubsequenceTransitive(a: seq<string>, b: seq<string>, c: seq<string>)
    requires Subsequence(a, b) && Subsequence(b, c)
    ensures Subsequence(a, c)
    decreases c
  {
    if a != [] {
      if b[0] != c[0] {
        SubsequenceTransitive(a, b, c[1..]);
        SubsequenceWeaken(a, c);
      } else if a[0] == b[0] {
        SubsequenceTransitive(a[1..], b[1..], c[1..]);
      } else {
        SubsequenceTransitive(a, b[1..], c[1..]);
        SubsequenceWeaken(a, c);
      }
    }
  }

  lemma {:induction false} SubsequenceReflexive(s: seq<string>)
    ensures Subsequence(s, s)
  {
    if s != [] {
      SubsequenceReflexive(s[1..]);
    }
  }

  lemma {:induction false} RemoveAtIsSubsequence(s: seq<string>, i: nat)
    requires i < |s|
    ensures Subsequence(RemoveAt(s, i), s)
  {
    if i == 0 {
      assert RemoveAt(s, 0) == s[1..];
      SubsequenceReflexive(s[1..]);
      SubsequenceWeaken(s[1..], s);
    } else {
      var r := RemoveAt(s, i);
      RemoveAtIsSubsequence(s[1..], i - 1);
      assert r[0] == s[0];
      assert r[1..] == RemoveAt(s[1..], i - 1);
    }
  }

  lemma RemoveAtConserves(s: seq<string>, i: nat)
    requires i < |s|
    ensures multiset(RemoveAt(s, i)) + multiset{s[i]} == multiset(s)
  {
    assert s == s[..i] + [s[i]] + s[i + 1..];
  }

  /** Backup codes are consumed: over any run of calls, the hashes still stored are the first ones with some
      left out, in order; stored and consumed hashes together are exactly the first ones; every consumed
      hash accepts the code that consumed it. */
  lemma {:induction false} CodesAreConserved(kdf: Phc.Kdf, hashes: seq<string>, uses: seq<Use>)
    ensures Subsequence(Left(kdf, hashes, uses), hashes)
    ensures multiset(Left(kdf, hashes, uses)) + multiset(Seconds(Consumed(kdf, hashes, uses))) == multiset(hashes)
    ensures |Left(kdf, hashes, uses)| + |Consumed(kdf, hashes, uses)| == |hashes|
    ensures forall p | p in Consumed(kdf, hashes, uses) :: Matches(kdf, p.0, p.1)
    decreases uses
  {
    if uses == [] {
      SubsequenceReflexive(hashes);
    } else {
      var u := uses[0];
      var next := AfterOne(kdf, hashes, u);
      CodesAreConserved(kdf, next, uses[1..]);
      if Accepted(kdf, hashes, u) {
        var i := FirstMatch(kdf, u.code, hashes);
        RemoveAtIsSubsequence(hashes, i);
        RemoveAtConserves(hashes, i);
        SubsequenceTransitive(Left(kdf, hashes, uses), next, hashes);
        assert Consumed(kdf, hashes, uses)[1..] == Consumed(kdf, next, uses[1..]);
        var later := Seconds(Consumed(kdf, next, uses[1..]));
        assert Seconds(Consumed(kdf, hashes, uses)) == [hashes[i]] + later;
      }
    }
  }

  function Count(kdf: Phc.Kdf, code: string, hashes: seq<string>): nat {
    if hashes == [] then 0 else (if Matches(kdf, code, hashes[0]) then 1 else 0) + Count(kdf, code, hashes[1..])
  }

  function Successes(code: string, pairs: seq<(string, string)>): nat {
    if pairs == [] then 0 else (if pairs[0].0 == code then 1 else 0) + Successes(code, pairs[1..])
  }

  lemma {:induction false} CountRemoveAt(kdf: Phc.Kdf, code: string, hashes: seq<string>, i: nat)
    requires i < |hashes|
    ensures Count(kdf, code, RemoveAt(hashes, i)) + (if Matches(kdf, code, hashes[i]) then 1 else 0)
            == Count(kdf, code, hashes)
  {
    if i == 0 {
      assert RemoveAt(hashes, 0) == hashes[1..];
    } else {
      CountRemoveAt(kdf, code, hashes[1..], i - 1);
      assert RemoveAt(hashes, i)[1..] == RemoveAt(hashes[1..], i - 1);
    }
  }

  /** However a run went, the hashes that accept a code are split between the stored and the consumed ones. */
  lemma {:induction false} CountConserved(kdf: Phc.Kdf, hashes: seq<string>, uses: seq<Use>, code: string)
    ensures Count(kdf, code, Seconds(Consumed(kdf, hashes, uses))) + Count(kdf, code, Left(kdf, hashes, uses))
            == Count(kdf, code, hashes)
    decreases uses
  {
    if uses != [] {
      var u := uses[0];
      var next := AfterOne(kdf, hashes, u);
      CountConserved(kdf, next, uses[1..], code);
      if Accepted(kdf, hashes, u) {
        CountRemoveAt(kdf, code, hashes, FirstMatch(kdf, u.code, hashes));
        var consumed, later := Consumed(kdf, hashes, uses), Consumed(kdf, next, uses[1..]);
        assert consumed[1..] == later;
        assert Seconds(consumed)[1..] == Seconds(later);
      }
    }
  }

  lemma {:induction false} SuccessesMatch(kdf: Phc.Kdf, pairs: seq<(string, string)>, code: string)
    requires forall p | p in pairs :: Matches(kdf, p.0, p.1)
    ensures Successes(code, pairs) <= Count(kdf, code, Seconds(pairs))
  {
    if pairs != [] {
      assert pairs[0] in pairs;
      SuccessesMatch(kdf, pairs[1..], code);
      assert Seconds(pairs)[1..] == Seconds(pairs[1..]);
    }
  }

  /** A code succeeds at most as often as it was enrolled: once, if one stored hash accepts it. */
  lemma SingleUse(kdf: Phc.Kdf, hashes: seq<string>, uses: seq<Use>, code: string)
    ensures Successes(code, Consumed(kdf, hashes, uses)) + Count(kdf, code, Left(kdf, hashes, uses))
            <= Count(kdf, code, hashes)
  {
    CountConserved(kdf, hashes, uses, code);
    CodesAreConserved(kdf, hashes, uses);
    SuccessesMatch(kdf, Consumed(kdf, hashes, uses), code);
  }

  lemma {:induction false} FindsIff(kdf: Phc.Kdf, code: string, hashes: seq<string>)
    ensures Finds(kdf, code, hashes) <==> Count(kdf, code, hashes) > 0
  {
    if hashes != [] && !Matches(kdf, code, hashes[0]) {
      FindsIff(kdf, code, hashes[1..]);
    }
  }

  /** Exactly when a code still works: after any calls by any users, a user's code finds a hash if and only if
      fewer of the hashes that accept it were consumed, since the user's last enrolment, than were enrolled. */
  lemma CodeWorksIff(kdf: Phc.Kdf, users: Users, steps: seq<Step>, user: string, code: string)
    ensures var hashes, uses := Enrolled(kdf, users, steps, user), UsesSince(kdf, steps, user);
            Finds(kdf, code, Stored(After(kdf, users, steps), user)) <==>
            Count(kdf, code, Seconds(Consumed(kdf, hashes, uses))) < Count(kdf, code, hashes)
  {
    StoredAfterRun(kdf, users, steps, user);
    CountConserved(kdf, Enrolled(kdf, users, steps, user), UsesSince(kdf, steps, user), code);
    FindsIff(kdf, code, Stored(After(kdf, users, steps), user));
  }

  /** No stored hash accepts two different codes. */
  ghost predicate NoCollisions(kdf: Phc.Kdf, hashes: seq<string>) {
    forall h, c, d | h in hashes && Matches(kdf, c, h) && Matches(kdf, d, h) :: c == d
  }

  lemma {:induction false} SuccessesAre(kdf: Phc.Kdf, pairs: seq<(string, string)>, code: string)
    requires forall p | p in pairs :: Matches(kdf, p.0, p.1)
    requires forall p, c | p in pairs && Matches(kdf, c, p.1) :: c == p.0
    ensures Successes(code, pairs) == Count(kdf, code, Seconds(pairs))
  {
    if pairs != [] {
      assert pairs[0] in pairs;
      SuccessesAre(kdf, pairs[1..], code);
      assert Seconds(pairs)[1..] == Seconds(pairs[1..]);
    }
  }

  lemma {:induction false} SecondsContain(pairs: seq<(string, string)>, p: (string, string))
    requires p in pairs
    ensures p.1 in Seconds(pairs)
  {
    if p != pairs[0] {
      SecondsContain(pairs[1..], p);
    }
  }

  /** Without colliding codes, a code works as often as it was enrolled and no oftener: it still finds a hash if
      and only if it has succeeded fewer times, since the last enrolment, than enrolled hashes accept it. */
  lemma CodeWorksUntilUsed(kdf: Phc.Kdf, users: Users, steps: seq<Step>, user: string, code: string)
    requires NoCollisions(kdf, Enrolled(kdf, users, steps, user))
    ensures var hashes, uses := Enrolled(kdf, users, steps, user), UsesSince(kdf, steps, user);
            Finds(kdf, code, Stored(After(kdf, users, steps), user)) <==>
            Successes(code, Consumed(kdf, hashes, uses)) < Count(kdf, code, hashes)
  {
    var hashes, uses := Enrolled(kdf, users, steps, user), UsesSince(kdf, steps, user);
    var pairs := Consumed(kdf, hashes, uses);
    CodesAreConserved(kdf, hashes, uses);
    forall p, c | p in pairs && Matches(kdf, c, p.1) ensures c == p.0 {
      SecondsContain(pairs, p);
      assert multiset(hashes)[p.1] > 0;
    }
    SuccessesAre(kdf, pairs, code);
    CodeWorksIff(kdf, users, steps, user, code);
  }

  /** Every enrolled code works right after enrolment. */
  lemma EnrolledCodesWork(kdf: Phc.Kdf, codes: seq<NewCode>, i: nat)
    requires Phc.ReturnsKeyLength(kdf) && i < |codes| && Hashes(kdf, codes).Some?
    requires |codes[i].salt.value| == 16
    ensures Finds(kdf, codes[i].code, Hashes(kdf, codes).value)
  {
    var c := codes[i];
    Phc.HashedPasswordVerifies(kdf, c.code, Some(Phc.DEFAULT_PARAMS), c.salt.value, c.code);
    assert Matches(kdf, c.code, Hashes(kdf, codes).value[i]);
  }
}
