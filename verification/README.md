# A verified model of the hosting panel's invariants

The panel has a control plane that signs tasks and agents that verify and execute them. This project models
some of their components in Dafny and proves what they keep over whole runs. Each `.dfy` file is one module:

| module | models |
|---|---|
| `Text` | splitting and joining text on one separator |
| `Nonce` | the agent's expiring replay table and its sweeper |
| `Protocol`, `Signer` | the signed task: canonical form, acceptance decision, builder |
| `Agent` | the task endpoint (parse, verify, execute) over an arbitrary allowlist, and runs of it |
| `RateLimit` | per-key token buckets with idle eviction |
| `LoginFront` | the route's limiter and the one inside Login, with their checks interleaved |
| `Phc` | the PHC password string: decimal numbers, unpadded base64, printer, parser, password check |
| `Mail` | the Dovecot users file and the Postfix vmailbox file as edited texts |
| `Migrate` | the migration runner, interrupted and restarted |
| `Sessions` | the session table, its clean-up, and the authenticator |
| `BackupCodes` | enrolment and single-use backup codes |
| `Redaction` | the audit log's substring search and key redaction |

Where the source updates state, a class with the source's fields has methods that are proved against
specification functions; what the source promises is then proved about those functions over lists of
steps. `dafny verify dfyconfig.toml` checks everything.

Conventions. Times and durations are integer nanoseconds, as in Go's `time`. Clock readings, random values and
outcomes of I/O are parameters; where a call reads the clock more than once the readings are separate, with a
bound on the time between them, apart from the cases listed at the end. HMAC-SHA256 under the shared key, SHA-256
and Argon2id are function parameters; what is assumed of them is a stated hypothesis (unforged signatures, the
requested key length). RFC 3339 printing and parsing (section 5.6) are parameters that round-trip up to whole
seconds at the two times a build prints. A rate `rate.Every(p)` is kept exact: a bucket holds up to `burst * p`
units, gains one a nanosecond, and a request costs `p`.

Where the code differs from its own comments or does less than one would expect, the model follows the code:

- The comments in `agent/internal/nonce/nonce.go:6-11` and `agent/internal/protocol/task.go:4-9` say a nonce is
  always rejected the second time. `Agent.RunsTimesIff` says how often one signed text can run: n times if and only
  if n - 1 times twice the maximum age fits into its lifetime plus 30 seconds plus the delay inside one
  verification, and n - 2 times without that delay. `Agent.BuiltTaskRunsTwiceIff` puts numbers to it, with the default maximum age of 300 seconds and a
  delay below 270 seconds: ttls up to 5 minutes are safe, and the 15 and 30 minute ttls of
  `control-plane/internal/api/hosting_handler.go:286` and `control-plane/internal/api/backup_handler.go:107` are not;
  a 30-minute task can run four times.
- `control-plane/internal/middleware/ratelimit.go:76` says 10 attempts in 10 minutes. By `RateLimit.WindowLimitIff`
  the limit that holds is the burst plus one for every full period of the window, and nothing below it:
  `RateLimit.LoginInTenMinutes` shows that "at most n in any 10 minutes" is true if and only if n is at least 20.
- `agent/internal/operations/mail.go:42` and `control-plane/internal/api/mail_handler.go:56-104` accept every address
  with an at sign. A fully successful create of an address that holds a colon or a space, such as `a b@c`, files it
  under two different names, and the files no longer list the same addresses (`Mail.AlignmentKeptIff`).
- The limiter inside Login (`control-plane/internal/api/auth_handler.go:71`) has the same preset as the one the route
  has already applied. `LoginFront.LoginNeverRejectsIff`: it never rejects anything further exactly when both checks
  of every request fall on one instant. Otherwise it can reject a request the route let through, but only one that
  finds less in the route's bucket than the longest time between two such checks (`LoginFront.RejectionsBelowGap`).
- `control-plane/internal/middleware/ratelimit.go:83` says 1000 requests per minute. The limit that holds is 1100
  (`RateLimit.ApiInOneMinute`).
- Of the twelve words listed in `control-plane/internal/audit/audit.go:147-151`, three never decide anything
  (`Redaction.NineWordsDecide`).
- `control-plane/internal/middleware/auth.go:56` speaks of a deleted or suspended user, but line 55 sends every
  failed read of the user there, so one failed query ends the session of an active user. A revocation whose write
  fails is ignored in line 58, and the session can then be used again as soon as its user loads again. Both are
  in `Sessions.BarredUseIsFinalIff` and `Sessions.SessionLastsExactly`.

Upgrading the schema in two steps or at once is the same exactly when the added versions are all larger
(`Migrate.IncrementalUpgradeIff`); `Migrate.FillingAGapDiverges` is a small instance in which even the schemas
differ. Three lemmas are immediate from the definitions: `Protocol.VerifyOutcome`
(the check sequence accepts iff every requirement holds and the nonce is unseen),
`Signer.BuiltTaskPassesChecks` (what Build signs is what the agent recomputes) and
`Redaction.SanitizingIsIdempotent`.

## Model

| member | source | states |
|---|---|---|
| Text.SplitJoin | agent/internal/protocol/task.go:193-202 | splitting a join gives back the parts exactly when none holds the separator, and more parts otherwise |
| Text.JoinSplit | control-plane/internal/auth/password.go:128 | the parts of a split hold no separator and join to the text again |
| Protocol.Verifier.VerifyTask | agent/internal/protocol/task.go:123-186 | accepts exactly when every requirement holds, each written out: version, node, both times, nonce, operation, the signature of the eight fields joined in order, and an unseen nonce; then and only then the nonce is stored for twice the maximum age |
| Protocol.FirstUnmet | agent/internal/protocol/task.go:123-186 | a refusal names the first requirement that is not met, in the source's order |
| Protocol.CanonicalText | agent/internal/protocol/task.go:191-207 | the signed text is version, task, node, issue time, expiry time, nonce, operation and payload, with line feeds between them |
| Protocol.SignedFieldsAgree | agent/internal/protocol/task.go:191-207 | for a task whose eight signed fields hold no newline, another has the same canonical form iff version, task, node, both times, nonce, operation and payload agree |
| Protocol.UnambiguousIffNewlineFree | agent/internal/protocol/task.go:191-207 | the canonical form pins those eight fields down if and only if none of them holds a newline |
| Signer.BuiltTask | control-plane/internal/agentclient/signer.go:32-77 | every field of a built task, and its signature over the text the agent recomputes; building fails only when the payload cannot be marshalled |
| Signer.BuiltLifetime | control-plane/internal/agentclient/signer.go:38-48 | the lifetime read off a built task is the ttl if that is whole seconds, and always within a second of it |
| Nonce.Store.HasSeen | agent/internal/nonce/nonce.go:38-48 | true iff the nonce is stored and its expiry lies ahead |
| Nonce.Store.MarkSeen | agent/internal/nonce/nonce.go:52-56 | stores the nonce with its expiry and keeps every other entry |
| Nonce.Store.Cleanup | agent/internal/nonce/nonce.go:68-81 | one tick removes exactly the entries whose expiry has passed |
| Nonce.SweepingIsUnobservable | agent/internal/nonce/nonce.go:38-81 | under a nondecreasing clock HasSeen answers the same with sweeps at any times as with none |
| Nonce.TableIsBounded | agent/internal/nonce/nonce.go:52-81 | with on-time ticks the table holds only nonces marked in the last ttl plus one tick interval, and no more than there were such marks |
| Agent.Registry.Register | agent/internal/operations/allowlist.go:183-188 | panics iff the operation is not allowlisted, and then registers nothing; the registry stays inside the allowlist |
| Agent.Registry.Execute | agent/internal/operations/allowlist.go:193-206 | succeeds iff the operation is allowlisted and registered and its handler succeeds, with that output; otherwise the error says which of the three failed, with the handler's own message; a handler is called exactly once or not at all |
| Agent.Agent.HandleTask | agent/cmd/agent/main.go:138-210 | which of the five answers one request gets, each under its own condition; success exactly when the request is accepted and its handler succeeds; the nonce table and the handler calls |
| Agent.LogIsSound | agent/internal/protocol/task.go:123-186 | every acceptance of a run is a submitted, authentic, unexpired task for this node; a handler ran only for an allowlisted operation |
| Agent.RepeatGap | agent/internal/protocol/task.go:177-183 | in every run two acceptances of one nonce are at least twice the maximum age apart, from the mark of one to the replay check of the other |
| Agent.AcceptancesFit | agent/internal/protocol/task.go:177-183 | in any run from any table, n acceptances of one signed text need n - 1 times twice the maximum age inside its lifetime + 30s + delay, and n - 2 times inside its lifetime + 30s, whatever other tasks are signed or sent and however its unsigned fields are changed |
| Agent.CoveredTextOnce | agent/internal/protocol/task.go:177-183 | so a signed text whose lifetime + 30s + delay is below twice the maximum age is accepted at most once |
| Agent.AtMostOnce | agent/cmd/agent/main.go:138-210 | over any run of serialised submissions, sweeps and clock steps without forged signatures, every acceptance agrees with an issued task on version, task, node, both times, nonce, operation and payload, and every issued task with lifetime + 30s + delay below twice the maximum age is accepted at most once |
| Agent.RunsTimesIff | agent/internal/nonce/nonce.go:35-56 | the exact number of runs: the text of a deliverable task can reach a handler n times, in some run from any table or from the empty one, if and only if n acceptances fit into its life |
| Agent.RunsTwiceIff | agent/internal/nonce/nonce.go:35-48 | twice, if and only if its lifetime + 30s + delay reaches twice the maximum age |
| Agent.BuiltTaskRunsTwiceIff | agent/internal/config/config.go:68-69 | with the default maximum age, the text of a built task can run twice iff ttl + delay >= 570 seconds; at a ttl of 30 minutes four times, and five times iff the delay is at least 570 seconds |
| Agent.AgentTableIsBounded | agent/internal/nonce/nonce.go:60-81 | with sweeps on time, the agent never holds more nonces than it accepted tasks in the last twice the maximum age plus one sweep interval |
| Agent.RejectionsChangeNothing | agent/internal/protocol/task.go:123-186 | a run in which every submission is rejected leaves the nonce table as it was |
| Agent.BuiltTaskIsExecuted | control-plane/internal/agentclient/signer.go:32-58 | after any run that did not accept its nonce, a task built with the node's key and id and delivered unaltered within its validity is accepted and executed |
| RateLimit.RateLimiter.Allow | control-plane/internal/middleware/ratelimit.go:43-56 | the answer and the new table of one request, whose two clock readings are separate |
| RateLimit.RateLimiter.Cleanup | control-plane/internal/middleware/ratelimit.go:59-71 | one tick removes exactly the keys idle for longer than the ttl |
| RateLimit.EvictionIsUnobservable | control-plane/internal/middleware/ratelimit.go:43-71 | if an idle bucket refills before it can be evicted, the limiter answers every run as one permanent bucket per key would, the two readings of a request up to a given delay apart |
| RateLimit.EvictionUnobservableIff | control-plane/internal/middleware/ratelimit.go:28-71 | that condition is exact: no run with that delay can tell the two apart iff the burst is 0 or ttl + 1 reaches min(max(burst * period, delay) + period, burst * period + delay) |
| RateLimit.WindowBound | control-plane/internal/middleware/ratelimit.go:43-71 | in every window of length T at most burst + floor(T / period) requests of a key are allowed, across any evictions |
| RateLimit.WindowTight | control-plane/internal/middleware/ratelimit.go:43-56 | that bound is attained: for every T some run gets exactly burst + floor(T / period) requests of one key through |
| RateLimit.WindowLimitIff | control-plane/internal/middleware/ratelimit.go:28-71 | at most n requests of a key in every window of length T, on every run, if and only if n is at least burst + floor(T / period), or at least 0 when the burst is 0 |
| RateLimit.LimitHoldsIff | control-plane/internal/middleware/ratelimit.go:59-71 | that limit holds for all windows of all runs if and only if an idle bucket refills before it can be evicted |
| RateLimit.LoginInTenMinutes | control-plane/internal/middleware/ratelimit.go:75-80 | for the login preset, at most n attempts in any 10 minutes iff n >= 20; so 10 is not the limit and 20 is |
| RateLimit.PresetsRefill | control-plane/internal/middleware/ratelimit.go:75-86 | the login preset meets the condition iff the delay is at most 840s + 1ns, the API preset iff it is at most 299.94s + 1ns |
| RateLimit.LoginWindow | control-plane/internal/middleware/ratelimit.go:75-80 | for the login preset and such delays: 10 + floor(T / 60s), and eviction is unobservable |
| RateLimit.ApiInOneMinute | control-plane/internal/middleware/ratelimit.go:82-86 | for the API preset, at most n requests in any minute iff n >= 1100 |
| RateLimit.ApiWindow | control-plane/internal/middleware/ratelimit.go:82-86 | for the API preset and such delays: 100 + floor(T / 60ms), and eviction is unobservable |
| RateLimit.BatchAllowedIff | control-plane/internal/middleware/ratelimit.go:43-56 | n requests at one instant are all allowed iff the level pays for all of them |
| LoginFront.KeyIsHost | control-plane/internal/api/auth_handler.go:293-299 | the key of a remote address is what stands before its last colon, or all of it |
| LoginFront.HostBudget | control-plane/internal/middleware/ratelimit.go:91-106 | all ports of a host share one budget: ten attempts and one more for every full minute, in any window |
| LoginFront.LoginRoute.LimitByIP | control-plane/internal/api/router.go:58-61 | whether the route passes a request on, by the bucket of the address without its port, and the new state of its limiter |
| LoginFront.LoginRoute.Login | control-plane/internal/api/auth_handler.go:68-76 | the same for the limiter inside Login |
| LoginFront.CheckKeepsGood | control-plane/internal/api/auth_handler.go:68-76 | what every check and clean-up keeps, in any interleaving: for each address the waiting requests are paid for at Login up to the gap between the two checks |
| LoginFront.RejectionsBelowGap | control-plane/internal/api/auth_handler.go:68-76 | over any interleaved traffic, Login rejects an attempt only if the route's bucket of its address then holds less than the longest time between the two checks of one request |
| LoginFront.EnoughAtRouteIff | control-plane/internal/api/auth_handler.go:68-76 | that amount is exact: n in the route's bucket is enough on every run iff n covers that time or exceeds what a bucket can hold |
| LoginFront.LoginNeverRejectsIff | control-plane/internal/api/router.go:58-68 | with the login preset twice, Login never rejects what the route let through iff both checks of every request fall on one instant |
| Phc.DecimalStandsFor | control-plane/internal/auth/password.go:74-82 | a printed number consists of digits, stands for the number and has no leading zero |
| Phc.VersionRead | control-plane/internal/auth/password.go:138-144 | a version reads as the number its digits stand for if that fits, whatever follows it |
| Phc.CostsRead | control-plane/internal/auth/password.go:146-150 | three costs read as the numbers their digits stand for if all fit 32, 32 and 8 bits, whatever follows them |
| Phc.SextetGroups | control-plane/internal/auth/password.go:71-72 | three bytes are one number of 24 bits, encoded as four digits to the base of 64, and one or two bytes at the end are filled up with zero bits |
| Phc.SymbolIs | control-plane/internal/auth/password.go:71-72 | those digits are printed in the standard alphabet |
| Phc.DecodableIff | control-plane/internal/auth/password.go:152-161 | decoding accepts exactly symbols of the alphabet, line breaks aside, without a single one left over |
| Phc.Base64RoundTrips | control-plane/internal/auth/password.go:71-72 | unpadded base64 decoding undoes encoding for all byte strings, and the text holds no dollar sign or line feed |
| Phc.EncodedText | control-plane/internal/auth/password.go:74-82 | the whole text of a stored hash |
| Phc.HashedText | control-plane/internal/auth/password.go:49-84 | HashPassword stores what the key derivation gives for the password and the salt under the stated costs, with the default costs spelled out, and fails only without a salt |
| Phc.EncodedParts | control-plane/internal/auth/password.go:74-82 | a printed hash is one line and splits at its dollar signs into its six parts |
| Phc.DecodeUndoesEncode | control-plane/internal/auth/password.go:127-165 | decodeHash of a printed string returns the same memory, iterations, parallelism, salt and key |
| Phc.EncodeIsInjective | control-plane/internal/auth/password.go:70-84 | different parameters, salts or keys never print the same string |
| Phc.HashedPasswordVerifies | control-plane/internal/auth/password.go:49-110 | VerifyPassword of the hashed password is true, and of any other attempt exactly when it derives the same key |
| Phc.StoredHashIff | control-plane/internal/auth/password.go:127-165 | VerifyPassword decides exactly for texts of six readable parts that name argon2id and version 19, refuses another version as incompatible and everything else as invalid |
| Phc.StoredHashAccepts | control-plane/internal/auth/password.go:90-125 | a stored hash accepts a password iff the key derivation under the stored costs and salt gives the stored key, and needs rehashing iff a stored cost is below the current one |
| Phc.NeedsRehashIff | control-plane/internal/auth/password.go:114-125 | a printed hash needs rehashing iff a printed cost is below the current one |
| Mail.MailStore.HandleCreateMailbox | agent/internal/operations/mail.go:35-68 | the line added to each file, written out; a refused call or a failed write leaves the file as it was; success iff the address has an at sign and nothing fails |
| Mail.MailStore.HandleDeleteMailbox | agent/internal/operations/mail.go:70-96 | both files after a delete; a refused call or a failed write leaves the file as it was; success iff the address has an at sign and nothing fails |
| Mail.MailboxPathOf | agent/internal/operations/mail.go:53-56 | an address local@domain gets the path domain/local/; what follows a second at sign does not count |
| Mail.RewriteFile | agent/internal/operations/mail.go:134-158 | the line loop computes the specified text; a missing file stays missing |
| Mail.RemovalKeeps | agent/internal/operations/mail.go:134-158 | a removal keeps every line that is not empty and does not start with the prefix, as often as it was there, and no other; a missing file stays missing |
| Mail.RewrittenIsUnlines | agent/internal/operations/mail.go:143-155 | a rewritten file is exactly its remaining lines, in order, each ended by a line feed |
| Mail.PrefixIffKey | agent/internal/operations/mail.go:80-86 | an address followed by its separator starts exactly the lines filed under that address, even when one address is a prefix of another |
| Mail.PerformOnAddresses | agent/internal/operations/mail.go:48-57 | for an address free of colons, spaces and line feeds, a create appends and a delete drops every occurrence and nothing else on the listed addresses of both files |
| Mail.FilesStayAligned | agent/internal/operations/mail.go:35-96 | over any run with addresses free of colons, spaces and line feeds in which no vmailbox write fails, both files list the same addresses, order and multiplicity included |
| Mail.FilesAlignFromNothing | agent/internal/operations/mail.go:35-96 | the same, for the same addresses, starting without files |
| Mail.RunRefinesList | agent/internal/operations/mail.go:35-96 | over a run of successful calls with such addresses the listed addresses are those of the same calls on a plain list |
| Mail.AlignmentKeptIff | agent/internal/operations/mail.go:35-96 | for every one-line address and every failure, exactly when one call keeps aligned files aligned: a create that reaches the files iff its vmailbox write works and the address holds no colon or space; a delete of such an address iff the vmailbox write works or the address is not listed; a delete of another address iff it finds no line to remove |
| Mail.CreateThenDelete | agent/internal/operations/mail.go:35-96 | creating and deleting a mailbox restores normalised files that do not list it byte for byte, for every one-line address with an at sign |
| Mail.DeleteKeepsOtherLines | agent/internal/operations/mail.go:134-158 | a delete removes exactly the lines of its address and keeps all others in order |
| Migrate.Migrator.Run | control-plane/internal/db/migrate.go:34-60 | sorts the slice in place; the database and the outcome of one run, cut off anywhere; nothing changes when the applied versions cannot be loaded |
| Migrate.Migrator.Apply | control-plane/internal/db/migrate.go:94-115 | succeeds iff the SQL works and the version is not recorded; then the schema is what the SQL makes of it and one row is added, otherwise nothing changes |
| Migrate.StopsWhere | control-plane/internal/db/migrate.go:49-57 | a run stops at the end, at the cut, or at the first migration that cannot be applied, whose version it names |
| Migrate.PendingIs | control-plane/internal/db/migrate.go:44-52 | what a run is to apply: every migration of the slice whose version is not recorded, as often as it is there, and no other, in version order |
| Migrate.Migrator.AppliedVersions | control-plane/internal/db/migrate.go:75-91 | the set of recorded versions |
| Migrate.SortSorts | control-plane/internal/db/migrate.go:44-47 | sorting gives a permutation in version order |
| Migrate.FullRunIgnoresOrder | control-plane/internal/db/migrate.go:44-57 | with distinct versions the order of the input slice does not matter |
| Migrate.ResumeIsFullRun | control-plane/internal/db/migrate.go:34-60 | an interrupted run commits a prefix of the sorted pending list, rows and SQL effects, and a full run after it ends exactly as one without it |
| Migrate.RestartConfluence | control-plane/internal/db/migrate.go:34-60 | any series of interrupted runs followed by a full run ends as a single full run, in outcome, schema and rows |
| Migrate.CommitsArePrefix | control-plane/internal/db/migrate.go:49-57 | at every moment of a series of interrupted runs the newly committed rows are a prefix of the sorted pending list, and the schema is what their SQL makes of the old one |
| Migrate.NoneCommitsTwice | control-plane/internal/db/migrate.go:106-114 | over any series of interrupted runs over any slices no version is recorded twice |
| Migrate.DoneIff | control-plane/internal/db/migrate.go:49-57 | an uninterrupted run ends well iff no version still to be applied stands in the slice twice and the SQL of the pending migrations works in version order |
| Migrate.DoneMeansDistinct | control-plane/internal/db/migrate.go:106-114 | a run that ends well, wherever it could have been cut off, was over a slice that repeats no pending version, and did what an uninterrupted run does |
| Migrate.IncrementalUpgrade | control-plane/internal/db/migrate.go:44-57 | running a list, then the list extended by larger versions, ends as running the extended list once |
| Migrate.IncrementalUpgradeIff | control-plane/internal/db/migrate.go:44-57 | for distinct versions: two-step and one-shot upgrades end alike for all SQL and all databases if and only if every added version is larger than every earlier one |
| Sessions.SessionManager.Create | control-plane/internal/auth/session.go:61-106 | inserts one unrevoked row that expires after the maximum age, exactly when the statement succeeds, the user exists and neither token hash nor id is taken; otherwise nothing changes |
| Sessions.SessionManager.Validate | control-plane/internal/auth/session.go:111-143 | returns a session iff the row under the token hash is there, unrevoked and unexpired and could be read, and then that row |
| Sessions.SessionManager.Revoke | control-plane/internal/auth/session.go:146-152 | row by row: sets the revocation time on the unrevoked row with the id and on no other |
| Sessions.SessionManager.RevokeAll | control-plane/internal/auth/session.go:155-161 | row by row: revokes exactly the unrevoked rows of the user |
| Sessions.SessionManager.RevokeAllExcept | control-plane/internal/auth/session.go:165-171 | row by row: revokes exactly the unrevoked rows of the user other than the kept one |
| Sessions.SessionManager.CleanExpiredSessions | control-plane/internal/auth/session.go:219-229 | exactly the rows neither expired nor revoked before the retention limit remain, unchanged, and the result counts the others; a failed statement removes none |
| Sessions.PrincipalIff | control-plane/internal/middleware/auth.go:31-121 | a request carries a principal iff it has a token, both reads succeed, the row under the hash is unrevoked and unexpired, and its user is there, active and not suspended; the principal holds the stored columns |
| Sessions.CredentialIs | control-plane/internal/middleware/auth.go:33-37 | the token is a cookie of 64 characters, else 64 characters behind Bearer, else none |
| Sessions.Authenticator.Authenticate | control-plane/internal/middleware/auth.go:31-68 | the principal under those conditions, the cleared cookie, and row by row the revocation of a live session whose user cannot be loaded, whichever of the three statements fail |
| Sessions.UserSteps | control-plane/internal/db/migrate.go:189-191 | storing a user touches no session, removing one removes exactly that user's sessions |
| Sessions.CreatedSessionValidates | control-plane/internal/auth/session.go:77-105 | a new session validates at once and is the session asked for |
| Sessions.CleanUpIsUnobservable | control-plane/internal/auth/session.go:219-229 | with fresh tokens every answer of a run is the same with clean-ups as without |
| Sessions.DeadForever | control-plane/internal/auth/session.go:117-152 | a token once revoked, expired or gone never validates and never gives a principal again |
| Sessions.RevokedForever | control-plane/internal/auth/session.go:146-171 | revocation is final for every session it names and leaves the answers for others alone |
| Sessions.IdsStayUnique | control-plane/internal/db/migrate.go:189-201 | every run keeps session ids unique |
| Sessions.SessionLastsExactly | control-plane/internal/auth/session.go:96-171 | after any run a session validates, unchanged, iff it has not expired and no step revoked it, deleted its user, or used it while its user was barred or could not be read |
| Sessions.BarredUseIsFinalIff | control-plane/internal/middleware/auth.go:54-62 | a session used while its user is missing, inactive, suspended or not read gives no principal, and is dead for good iff the revocation is written |
| BackupCodes.TotpManager.ConfirmEnrollment | control-plane/internal/auth/totp.go:94-137 | stores the hashes of all codes in order, or changes nothing and says which step failed, hashing included |
| BackupCodes.FindsWhen | control-plane/internal/auth/totp.go:167-182 | a code is found iff some stored hash of the user verifies it |
| BackupCodes.UseTakesFirst | control-plane/internal/auth/totp.go:177-193 | a successful call takes the first hash that verifies the code out of the user's codes, leaves the other columns and users alone, and any other call changes nothing |
| BackupCodes.TotpManager.VerifyBackupCode | control-plane/internal/auth/totp.go:167-197 | succeeds iff some stored hash accepts the code and both statements go through; an error only when a right code could not be consumed; the table is that of one such use |
| BackupCodes.TotpManager.Disable | control-plane/internal/auth/totp.go:201-211 | clears the user's MFA columns and no others, or reports the failed write and changes nothing |
| BackupCodes.ShiftDown | control-plane/internal/auth/totp.go:184-184 | the in-place append leaves the other hashes in order |
| BackupCodes.FindCode | control-plane/internal/auth/totp.go:177-182 | finds the first hash that accepts the code, skipping hashes that do not parse |
| BackupCodes.StoredAfterRun | control-plane/internal/auth/totp.go:94-211 | after any enrolments, code checks and disables of any users, a user's stored hashes are those of the last enrolment less what later calls of that user consumed |
| BackupCodes.NothingAfterDisable | control-plane/internal/auth/totp.go:201-211 | from a Disable to the next enrolment a user has no stored hash |
| BackupCodes.UsersAreIndependent | control-plane/internal/auth/totp.go:94-211 | each user's codes evolve by that user's calls alone |
| BackupCodes.CodesAreConserved | control-plane/internal/auth/totp.go:177-193 | over any code checks of a user stored plus consumed hashes are exactly the first ones, the stored ones in order, and every consumed hash accepts its code |
| BackupCodes.SingleUse | control-plane/internal/auth/totp.go:164-193 | a code succeeds at most as often as stored hashes accept it |
| BackupCodes.CountConserved | control-plane/internal/auth/totp.go:177-193 | over any run, the hashes that accept a given code are split exactly between stored and consumed ones |
| BackupCodes.CodeWorksIff | control-plane/internal/auth/totp.go:167-197 | after any calls by any users, a code of a user still finds a hash iff fewer of the hashes accepting it were consumed since the last enrolment than were enrolled |
| BackupCodes.CodeWorksUntilUsed | control-plane/internal/auth/totp.go:164-193 | if no enrolled hash accepts two codes, a code still finds a hash iff it has succeeded fewer times since the last enrolment than enrolled hashes accept it |
| BackupCodes.EnrolledCodesWork | control-plane/internal/auth/totp.go:113-121 | every enrolled code is found right after enrolment |
| Redaction.ToLower | control-plane/internal/audit/audit.go:171-181 | lowers exactly the letters A to Z |
| Redaction.Contains | control-plane/internal/audit/audit.go:183-189 | true iff the needle occurs contiguously, for all byte strings |
| Redaction.ContainsAt | control-plane/internal/audit/audit.go:191-198 | true iff the needle occurs contiguously |
| Redaction.SensitiveIff | control-plane/internal/audit/audit.go:143-160 | a key is redacted iff it spells one of the twelve listed words somewhere, each letter small or capital |
| Redaction.SanitizeMetadata | control-plane/internal/audit/audit.go:143-169 | keeps the key set, redacts exactly those keys, keeps all other values; a nil map becomes empty |
| Redaction.CaseDoesNotMatter | control-plane/internal/audit/audit.go:153-160 | keys whose characters agree or are a small letter and its capital are redacted alike |
| Redaction.NineWordsDecide | control-plane/internal/audit/audit.go:147-160 | a key is redacted iff it spells one of nine of the twelve words |

## Left out

- HTTP, mutual TLS, JSON, PostgreSQL wiring, process execution, PowerDNS calls and the frontend; JSON transport is
  the identity on task fields, an SQL statement is one state update, and postmap is one failure flag.
- HMAC, SHA-256, Argon2id and TOTP validation internals, including Argon2id's panic on zero iterations or threads.
- Overlapping calls: `HasSeen` and `MarkSeen` lock separately, and `VerifyBackupCode` reads and writes in two
  statements, so the results are for serialised calls. A sweep never falls inside a `Verify` call.
- A restart of the agent, which loses the nonce table.
- The concrete allowlist and registration list; the registry is modelled over an arbitrary allowlist.
- Floating point in the token bucket, and a clock that runs backwards.
- Partial file writes, other processes editing the mail files, and `HandleCreateAlias`, which only appends.
- Blank characters other than space and tab in front of a number that Sscanf reads.
- `schema_migrations.applied_at`, the creation of that table, and the SQL text of the migrations.
- `sort.Slice` is a library call: the slice is sorted by an insertion sort. With repeated versions the library's
  order is unspecified; the results that depend on the order require distinct versions.
- Session columns that no decision reads: IP address, user agent, creation and last-seen time; setting
  `mfa_verified` later; cookie attributes.
- File paths through `filepath.Clean` and `EvalSymlinks`, web server templates, metrics, installer, updater.
- Role comparisons and input validators.
- Clock readings taken as one: a limiter's clean-up tick uses one reading for all keys, a session is looked up and
  revoked at one reading within one request, and the database and the processes that use it share one clock.
- Mail addresses and password hashes that hold a line feed.
