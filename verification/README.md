# Verification of the network diagnostic tool

A Dafny model of the parts of the network diagnostic tool that keep state or loop over untrusted
input, with proofs of what they guarantee over whole runs. `dafny verify dfyconfig.toml` checks
everything.

## What is modelled

**Accounts, sessions and passwords.** `Accounts.dfy` holds the rows of `user_accounts`,
`user_sessions` and `user_password_history`. `Transitions.dfy` says what each operation does to them;
`AuthService.dfy`, `AdminUsers.dfy`, `Cli.dfy` and `AuthGate.dfy` are the operations themselves, step by step on
the tables of a `Database` object (`Store.dfy`), proved to do exactly that. `Machine.dfy` defines
runs: any interleaving of the operations, each one a committed transaction with its event, its reply and the
state it left, and the guards that decide each answer; `Service.dfy` shows that serving events on the tables
makes such runs. `Effects.dfy` says once more what each operation answers and stores, column by column and
with every duration written out, without any of the functions above, and proves that the steps do that and
nothing else fits.
`SessionLaws.dfy`, `LockoutLaws.dfy`, `LockedSessions.dfy`, `PasswordLaws.dfy` and `AdminLaws.dfy` prove what every run
guarantees, in terms of the events and replies a log would show.

**Rate limiter** (`RateLimiter.dfy`). The pruned queue per key refines an unpruned log of accepted
requests; the log's rule bounds every window and is optimal.

**HTTP check** (`HttpCheck.dfy`). The redirect loop and the body loop against a network that may
answer anything, with a trace of everything done to the outside.

**Migration runner** (`Migrations.dfy`). One run as a loop over the listing, and any number of
concurrent runners as a state machine over lock, read, apply, commit and roll back.

**Domain allow-list** (`AllowList.dfy`). The string suffix test against suffixes of label sequences.

## Assumptions

- Each database transaction is one atomic step. The row locks at `app/services/auth_service.py:57`,
  `:114`, `:148` and `app/api/admin_users.py:62`, `:94` serialise the steps on one user or session; the
  administrator count at `app/api/admin_users.py:65` takes no lock on the rows it counts, so for it
  atomicity is an assumption, not a consequence.
- One clock: the application's time and the database's agree, and where a law says `Ordered`, commit
  times do not decrease. `created_at` strictly increases in commit order, so a row's position in its
  table stands for it. Timestamps are integers in microseconds; the rate limiter's clock is a real.
- Settings are fixed during a run. `password_history_count` is not negative (the database rejects a
  negative `LIMIT`); every other number may be anything, zero and negative included.
- Hashing is ideal: a hash verifies exactly its password. A session token is the identifier of its
  session; a token never issued names no session.
- The password rules of `validate_password` are an arbitrary predicate of password and username.
- A protected request runs the gate in a transaction of its own, so the operation behind it is a
  separate step and anything may happen in between. The runs contain the gate's effect on the session
  (`Use`, see `AdminLaws.GateIsAUse`) and leave the operations unguarded, which only adds runs.

## Where the code and its documents differ

For each of these the model follows the code; a law says when the documented property holds after all,
by a condition on the state before the step, and `Witnesses.dfy` has a run from an empty database in
which it fails.

- Section 6.4 of the authentication and account document under `docs/specifications/`
  lists a locked account among the reasons to revoke sessions. In the code an automatic lock or a PATCH
  to LOCKED leaves them stored (`LockedSessions.LockKeepsSessions`), so a lock leaves no open session
  exactly if there was none (`LockedSessions.NoOpenSessionAfterLock`). They are refused while the account
  is locked and work again once it is usable (`LockedSessions.SessionOutlivesLock`,
  `Witnesses.SessionComesBack`). That takes a checked password or an administrator setting the status; a
  lock end that has passed revives nothing (`LockedSessions.LockNeedsAStep`). `SessionLaws.StepEnds` lists
  what does end a session.
- Section 10.2 of that document keeps the newest five old hashes of a user. An administrator's
  reset adds one without removing any; `PasswordLaws.HistoryLimitKept` says exactly when a step exceeds
  the limit, `Witnesses.ResetsPassTheLimit` is a run that does, `PasswordLaws.HistorySize` bounds the
  excess, and `PasswordLaws.PruningIsInvisible` says that no decision ever depends on it.
- The last active administrator is protected against demotion and disabling, but not against a PATCH to
  LOCKED or a lockout. `AdminLaws.StepKeepsUsableAdmin` gives the exact condition for an ACTIVE or PENDING
  administrator to be left, `AdminLaws.StepKeepsLoginAdmin` that for one who can log in at a given time,
  for which a lock that has run out is no obstacle. `Witnesses.OnlyAdminPatched` is a run after which no
  administrator can ever log in, `Witnesses.OnlyAdminGuessedAt` one after which none can until the lock
  period is over, and `AdminLaws.AnAdminRemains` says what holds in every run.
- Section 7 of that document locks an account after five failures in a row. A PATCH back to ACTIVE keeps
  the counter, so that one failure then locks again (`Witnesses.OneFailureLocks`).
  `LockoutLaws.ThresholdRule` says exactly when the rule holds of a failure, and
  `LockoutLaws.ThresholdRuleInRuns` in which runs it holds of all.

## Model

| member | source | states |
|---|---|---|
| AuthService.Authenticate | app/services/auth_service.py:52-105 | the row updates, the eviction and the insert, one after the other, make the login step, and answer and store what `Effects.LoginMeets` says |
| AuthService.InsertSession | app/services/auth_service.py:85-103 | oldest-first eviction beyond the cap, then the new row, as `Effects.OpeningMeets` describes it |
| AuthService.ResolveSession | app/services/auth_service.py:108-126 | join, account test, expiry with revocation, refresh at most every five minutes: the use step, and what `Effects.UseMeets` says |
| AuthService.RevokeSession | app/services/auth_service.py:138-141 | only an open session is revoked, so a first revocation is never overwritten |
| AuthService.CheckHashes | app/services/auth_service.py:156 | the scan of the history finds a match exactly when some hash verifies the password |
| AuthService.ReplacePassword | app/services/auth_service.py:158-161 | old hash in, new hash set, history cut to the newest N, other sessions of the user revoked, in that order |
| AuthService.ChangePassword | app/services/auth_service.py:145-163 | check, push, update, prune and revoke, in that order, make the change step, and what `Effects.ChangeMeets` says |
| AdminUsers.CreateUser | app/api/admin_users.py:41-55 | created exactly if the policy agrees and no row has the name or the given email; PENDING, with a forced change and a clean counter, at the end of unchanged rows |
| AdminUsers.UpdateUser | app/api/admin_users.py:58-77 | each refusal exactly when it is due; otherwise the named columns of that row get the named values and nothing else moves, except that disabling leaves no open session |
| AdminUsers.UnlockUser | app/api/admin_users.py:80-87 | an existing account can log in again, with counter and lock cleared, its password and forced change kept, and no other row touched |
| AdminUsers.ResetPassword | app/api/admin_users.py:90-101 | carried out exactly if the account is there and the policy agrees; the new password holds, the old hash joins the history unpruned, the change is forced and no session stays open |
| AdminUsers.RevokeUserSessions | app/api/admin_users.py:104-110 | no session of the user stays open, and the number that were is returned |
| Cli.CreateAdmin | app/cli.py:15-28 | an active administrator who must change the password is added exactly if the policy agrees and no row has the name or the given email, and nobody else is touched |
| AuthGate.RequireCurrentUser | app/core/auth_deps.py:12-27 | anonymous exactly with authentication off; otherwise granted exactly to a token that may be used, for the user who owns it |
| AuthGate.RequireRoles | app/core/auth_deps.py:41-51 | with authentication off everyone passes as anonymous; with it on, exactly a usable token of a user who owes no password change and has one of the roles; each refusal is given exactly when it is due, and still counts as a use |
| Service.Serve | app/services/auth_service.py:52-163 | each operation, run on the tables, makes exactly one step of the machine, with a positive answer exactly when its guards hold before it |
| Service.ServeAll | app/services/auth_service.py:52-163 | so operations run one after the other make a valid run, and every law below holds of the tables |
| Effects.LoginMeets | app/services/auth_service.py:56-105 | each refusal is given exactly when it is due; a granted login reports the role and forced change of the row, clears the counter, and adds a session whose expiries are the idle minutes and the hours the settings have for that role; a failure sets the lock in minutes |
| Effects.OpeningMeets | app/services/auth_service.py:85-103 | a login closes exactly the open sessions of the user that have at least cap-1 newer open ones, counted as a set |
| Effects.UseMeets | app/services/auth_service.py:110-126 | granted with the current role of the row; refused without a trace, or with EXPIRED; refreshed after five minutes and never past the deadline |
| Effects.ChangeMeets | app/services/auth_service.py:148-161 | which refusal is given when, the reuse test on the latest N+1 passwords included; the new hash, the history row by row, and the other sessions closed |
| Effects.CreateMeets | app/api/admin_users.py:42-54 | a creation is refused exactly for a weak password, or a name or given email that some row already has; otherwise the new row is as asked |
| Effects.PatchMeets | app/api/admin_users.py:62-75 | which refusal is given when, with the administrators counted one by one; otherwise email, role and status are the named ones where named, and all other columns and rows as before |
| Effects.ResetMeets | app/api/admin_users.py:94-99 | which refusal is given when; the new hash, the forced change, the old hash at the end of the whole history, and all sessions closed |
| Effects.RevokeAllMeets | app/api/admin_users.py:108-110 | exactly the open sessions of the user are closed, and their number is the answer |
| Effects.StepMeets | app/services/auth_service.py:52-163 | every step of the machine answers and stores what is said of its operation |
| Effects.StepIsFixed | app/services/auth_service.py:52-163 | and with unique names nothing else fits: answer, rows and histories are determined |
| Effects.GateMeets | app/core/auth_deps.py:12-51 | every answer of the gate: anonymous with authentication off whatever the token and the roles, else login required, session refused, password change required, permission denied or granted, the first that applies |
| Machine.AcceptedExactly | app/services/auth_service.py:56-157 | every operation goes through exactly when its guards hold in the state before it, and a refusal leaves the tables alone, failed logins and expired sessions aside |
| Machine.RunExists | app/services/auth_service.py:52-163 | every sequence of events has a run from every state, so the run laws are never empty |
| Machine.AccountsStayUnique | app/api/admin_users.py:46-54 | usernames and emails stay unique in every run, through creation and PATCH |
| Machine.LookupIsExact | app/services/auth_service.py:56-58 | with unique names a login finds an account exactly when it is the live one with that name |
| SessionLaws.StepRows | app/services/auth_service.py:85-126 | whatever the step, a session row stays as it is, is closed for that step's reason if it was open, or is touched by its own accepted use |
| SessionLaws.RunEvolves | app/services/auth_service.py:96-141 | over any stretch of a run rows keep owner and absolute expiry, and revoked rows are frozen |
| SessionLaws.RevokedIsFinal | app/services/auth_service.py:111-141 | a revoked session is never accepted again and keeps its first revocation time and reason, later unlocks and PATCHes included |
| SessionLaws.LogoutIsFinal | app/services/auth_service.py:138-141 | after a logout the session is never accepted again |
| SessionLaws.RefusedUseIsFinal | app/services/auth_service.py:116-120 | an open session of a usable account is refused exactly when an expiry has passed, and then never accepted again |
| SessionLaws.ClosedRowNamesItsCause | app/services/auth_service.py:91-161 | a closed session carries the time and the reason of an event of the run that ends it, found it open and left it as it still is |
| SessionLaws.ClosedOnce | app/services/auth_service.py:91-161 | no session is closed by two events of a run |
| SessionLaws.AppearsByLogin | app/services/auth_service.py:94-103 | every session that appears in a run was issued by a login of its user in between |
| SessionLaws.RevocationIsPermanent | app/services/auth_service.py:108-120 | a session used after its user was disabled, reset or revoked was issued by a later login; after a password change the one exception is the session that made it |
| SessionLaws.EndedSessionsAreClosed | app/api/admin_users.py:74-108 | those four events leave no open session of the user, the kept one aside |
| SessionLaws.OpeningKeepsNewest | app/services/auth_service.py:85-103 | after opening a session the open ones are the newest cap-1 of the old and the new one; the evicted rows say MAX_SESSIONS and all other rows, other users' included, are untouched |
| SessionLaws.LoginKeepsNewest | app/services/auth_service.py:85-105 | the same, evicted reason and untouched rows included, for every successful login of a run |
| SessionLaws.CapHolds | app/services/auth_service.py:88-93 | in every reachable state a user has at most max(1, max_sessions_per_user) open sessions |
| SessionLaws.StepEnds | app/services/auth_service.py:88-161 | over all operations, an open session is closed exactly by eviction at a login of its user, its own use after expiry, its logout, or a password change through another session, a disable, a reset or a revoke-all of its user that passes its guards; told from the state before the step |
| SessionLaws.OpenUntilEnded | app/services/auth_service.py:88-161 | over any stretch of a run an open session stays open exactly if none of those events happens |
| SessionLaws.RowTracksUse | app/services/auth_service.py:121-125 | from login on, last_seen_at trails the last accepted use by less than five minutes, and the idle expiry lies between the refreshed one cut at the deadline and the refreshed one |
| SessionLaws.IdleSandwich | app/services/auth_service.py:118-126 | a use is accepted only before last use + idle limit and before login + the hours of the role at login; up to five minutes earlier it is certainly accepted |
| SessionLaws.AbsoluteLifetime | app/services/auth_service.py:95-120 | in every run, ordered or not, no session is accepted at or after its login plus the hours of the role at login |
| SessionLaws.SlackIsTight | app/services/auth_service.py:121-125 | the five minutes cannot be narrowed: from any state a login and a use lead to a refusal one microsecond past the certain range |
| SessionLaws.IdleWithinAbsolute | app/services/auth_service.py:95-124 | when the idle limit is within the hours of the role at login, the idle expiry never passes the absolute one |
| LockoutLaws.StepLock | app/services/auth_service.py:63-84 | the only moves of status, counter and lock, over all operations: a checked wrong password, a login, an unlock, a status PATCH |
| LockoutLaws.LockIsReported | app/services/auth_service.py:63-77 | which steps lock an account can be told before them: a wrong password for a usable account at the threshold, or a PATCH to LOCKED that passes its guards; the answers agree |
| LockoutLaws.LocksStayConsistent | app/services/auth_service.py:70-76 | in every run locked_until is set exactly when the counter has reached max(1, login_max_failures), although a PATCH changes the status alone |
| LockoutLaws.CounterIsStreak | app/services/auth_service.py:63-84 | in every run failed_login_count is the number of checked wrong passwords since the latest login, unlock, lapsed lock or creation, whatever PATCHes come between |
| LockoutLaws.FailureLocks | app/services/auth_service.py:70-77 | a checked wrong password locks exactly when it brings that number to max(1, login_max_failures) or beyond |
| LockoutLaws.ThresholdRule | app/services/auth_service.py:70-77 | the documented rule, locked exactly at the threshold-th failure in a row, holds of a failure exactly when the counter it finds is below the threshold |
| LockoutLaws.StepSettled | app/api/admin_users.py:67-73 | an account that can be logged in to and has failures left keeps that exactly unless a PATCH that goes through reopens it with its counter at the threshold |
| LockoutLaws.ThresholdRuleInRuns | app/services/auth_service.py:70-77 | so the documented rule holds in every run without such a PATCH |
| Witnesses.OneFailureLocks | app/api/admin_users.py:67-73 | under any settings, a locked-out administrator is PATCHed back to ACTIVE and one wrong password locks again |
| LockoutLaws.IndefiniteLockHolds | app/services/auth_service.py:63-68 | a LOCKED account without locked_until stays so, and no login succeeds, until an administrator sets its status |
| LockoutLaws.PatchedLock | app/api/admin_users.py:67-73 | a PATCH to LOCKED makes such a lock exactly when the counter is below the threshold |
| LockoutLaws.LockLastsItsPeriod | app/services/auth_service.py:63-77 | after the failure that locks an account the next login is refused unseen exactly while the lock period has not passed |
| LockoutLaws.FailureIsPaced | app/services/auth_service.py:63-76 | one more checked failure keeps count and elapsed lock periods in step |
| LockoutLaws.GuessRate | app/services/auth_service.py:63-78 | from any state, without success or status change in between, a checked wrong password that follows n others comes at least floor(n / max(1, login_max_failures)) lock periods after the first |
| LockoutLaws.GuessesPerLockPeriod | app/services/auth_service.py:63-78 | a half-open window of one lock period holds at most max(1, login_max_failures) checked wrong passwords |
| LockedSessions.LockKeepsSessions | app/services/auth_service.py:69-77 | a step that locks an account changes no session row |
| LockedSessions.NoOpenSessionAfterLock | app/services/auth_service.py:69-77 | after a lock the account has no open session exactly if it had none before |
| LockedSessions.RefusedWhileLocked | app/services/auth_service.py:116-117 | a use for an account that may not log in is refused and changes nothing |
| LockedSessions.LockNeedsAStep | app/services/auth_service.py:63-84 | after a lock the account becomes usable only through a checked password, right or wrong, or an administrator setting the status; a lock end that passes does nothing by itself |
| LockedSessions.SessionOutlivesLock | app/services/auth_service.py:108-126 | a session open at a lock and ended by nothing since is still open, refused without a trace while the account is unusable, and accepted after the unlock within the certain range |
| Witnesses.SessionComesBack | app/services/auth_service.py:108-126 | login, PATCH to LOCKED, refused use, unlock: the session of before the lock is accepted again |
| PasswordLaws.PruningIsInvisible | app/services/auth_service.py:152-160 | for every mix of changes and resets the pruning machine answers as one that keeps every old hash |
| PasswordLaws.FullCounterpart | app/services/auth_service.py:160 | every run has such a counterpart on the same events |
| PasswordLaws.StepRecords | app/services/auth_service.py:158-159 | the kept hashes and the current one are the user's passwords in order, rehashing at login not disturbing them |
| PasswordLaws.LoginRehashes | app/services/auth_service.py:79-84 | a login leaves the presented password hashed under the current scheme, and the password itself unchanged |
| PasswordLaws.ReuseDecision | app/services/auth_service.py:149-157 | a change is refused as recently used exactly when the password is among the latest N+1 of the whole run, resets included |
| PasswordLaws.NoRecentReuse | app/services/auth_service.py:152-160 | every password chosen by a change differs from the N+1 before it, in every run |
| PasswordLaws.ConsecutiveDiffer | app/services/auth_service.py:152-160 | N+2 consecutive passwords, all but the first chosen by changes, are pairwise distinct |
| PasswordLaws.HistorySize | app/api/admin_users.py:97-98 | at most N old hashes are stored plus one for each reset since the last change |
| PasswordLaws.HistoryLimitKept | app/api/admin_users.py:94-98 | a step exceeds the limit exactly when it is a reset of that existing account, to a password the policy accepts, and N hashes are stored |
| Witnesses.ResetsPassTheLimit | app/api/admin_users.py:97-98 | under any settings N+1 resets in a row store N+1 old hashes |
| AdminLaws.AnAdminRemains | app/api/admin_users.py:62-73 | from a state with a non-deleted administrator that is not DISABLED every run keeps one, lockouts and PATCHes to LOCKED included |
| AdminLaws.AnotherUsableAdmin | app/api/admin_users.py:64-66 | the guard's count vouches for an administrator besides the target |
| AdminLaws.PatchKeepsUsableAdmin | app/api/admin_users.py:62-73 | a PATCH leaves an ACTIVE or PENDING administrator exactly unless it names the only one, sets LOCKED and passes its guards |
| AdminLaws.StepKeepsUsableAdmin | app/services/auth_service.py:69-77 | over all operations, an ACTIVE or PENDING administrator is left exactly unless such a PATCH, or a wrong password at the threshold, hits the only one; told from the state before the step |
| AdminLaws.LoginAdminsMayLogIn | app/services/auth_service.py:56-78 | with unique usernames, the administrators counted as able to log in at a time are those whose own name and password are accepted then |
| AdminLaws.StepKeepsLoginAdmin | app/services/auth_service.py:63-77 | over all operations and for every later time t, a step leaves an administrator that can log in at t exactly unless it shuts out the only one: a wrong password at the threshold with t within the lock period, or a PATCH to LOCKED that passes its guards with no old lock end at or before t |
| AdminLaws.PatchKeepsLoginAdmin | app/api/admin_users.py:62-73 | the PATCH half of that |
| Witnesses.OnlyAdminPatched | app/api/admin_users.py:64-73 | an administrator set up on an empty database is PATCHed to LOCKED, and at no time can any administrator log in |
| Witnesses.OnlyAdminGuessedAt | app/services/auth_service.py:69-77 | under any settings, max(1, login_max_failures) wrong passwords leave no ACTIVE or PENDING administrator, and none that can log in exactly until the lock period is over |
| AdminLaws.MustChangeFollowsEvents | app/services/auth_service.py:159 | from every start, the forced-change flag is off exactly when the latest create, reset or change of the user is a change, or there was none and it was off at the start |
| AdminLaws.RoleFollowsEvents | app/api/admin_users.py:67-73 | a user's role is that of the latest PATCH that names one, else that of creation, else that of the start |
| AdminLaws.LoginReportsRole | app/services/auth_service.py:95-105 | in every run the role a login reports is the row's at that moment, and the latest one given |
| AdminLaws.LifetimeFollowsRole | app/services/auth_service.py:95-118 | by that role, whatever becomes of it, no use is accepted from the login plus the hours of the settings on |
| AdminLaws.GateIsAUse | app/core/auth_deps.py:23-51 | what a gate check stores is what a use of the session stores, even when the request is refused |
| AdminLaws.GateNeedsOwnPassword | app/core/auth_deps.py:41-51 | from every start, with authentication on, the gate passes exactly an open and unexpired session of a usable account whose password is the user's own choice and whose latest role, not the one at login, is asked for |
| RateLimiter.Limiter.Check | app/core/security.py:170-180 | allowed exactly if fewer than `limit` earlier accepted hits of the key lie in the closed last 60 seconds; an allowed hit joins the log of its key and no other; the queue keeps exactly the hits of the window |
| RateLimiter.Prune | app/core/security.py:174-176 | popping the stale front leaves a queue that still stands for the log and starts inside the window |
| RateLimiter.CheckMirrors | app/core/security.py:174-180 | pruning keeps every queue the end of its log and no longer than the limit |
| RateLimiter.CountIsSize | app/core/security.py:174-177 | what the rule counts is the number of those hits, as a set |
| RateLimiter.WindowBound | app/core/security.py:165-180 | every closed 60-second window anywhere in a run holds at most max(0, limit) accepted hits of a key |
| RateLimiter.KeysAreIndependent | app/core/security.py:168-173 | what a key is granted depends on its own requests alone |
| RateLimiter.GreedyStaysAhead | app/core/security.py:174-180 | the i-th acceptance is never later than that of any policy that keeps the bound |
| RateLimiter.GreedyIsOptimal | app/core/security.py:170-180 | after every prefix at least as many requests are accepted as under any such policy |
| HttpCheck.ReadBody | app/services/http_service.py:110-114 | the bytes counted are the least prefix sum reaching the limit, or the whole total |
| HttpCheck.BodyCountFixed | app/services/http_service.py:110-114 | that fixes the count, and the excess over a positive limit is below the last chunk's size |
| HttpCheck.ResolveAndValidate | app/services/http_service.py:45-60 | addresses are returned only if there are some and none is blocked |
| HttpCheck.TakeHop | app/services/http_service.py:82-142 | one turn of the loop sends only to a validated URL with cleared addresses, and goes on, stops or fails exactly as the network's answers say |
| HttpCheck.HopIsRead | app/services/http_service.py:76-142 | said of the network alone: a hop goes on exactly if it is cleared, following is on, it answers a redirect with a Location below the limit, and the joined URL exists and is valid; otherwise it stops with the first address and the response, or fails with the one named error |
| HttpCheck.NextHop | app/services/http_service.py:100-141 | a walk has a next hop exactly if the one before goes on to it |
| HttpCheck.NotFollowed | app/services/http_service.py:100-107 | with following off a walk ends at its first hop |
| HttpCheck.PerformHttpCheck | app/services/http_service.py:63-145 | for every network the loop ends; every send follows a validation of that URL and a resolution with only allowed addresses; sends are those of hops 0, 1, ... and at most max(0, max_redirects) + 1, with following off at most one; the result is what the network says of the hop the walk ends at, with the number of hops followed; TooManyRedirects is unreachable |
| HttpCheck.WalkEndsOnce | app/services/http_service.py:100-107 | a walk ends at one hop only, within the redirect limit |
| Migrations.Migrate | app/db/migrations.py:18-28 | the missing files run in order and all count as applied, or one fails and nothing has happened |
| Migrations.AlwaysConsistent | app/db/migrations.py:18-21 | under any interleaving only the lock holder is active, what it knows is current, and what it has run is what was missing |
| Migrations.LockIsNeverLeftHeld | app/db/migrations.py:18-19 | the lock is held exactly while its holder is active, so when no runner is active any can take it |
| Migrations.ExactlyOnce | app/db/migrations.py:18-27 | no script is ever committed twice, the recorded versions are those of the scripts, and commits are never undone |
| Migrations.CommitRunsListing | app/db/migrations.py:22-27 | from the commit of a run on, every file it listed has been run |
| Migrations.KeyNeverViolated | app/db/migrations.py:23-27 | the insert into schema_migrations never meets an existing version, and every listed file is passed: run if it was missing, skipped if it was known |
| Migrations.RunnersAreSerial | app/db/migrations.py:18-28 | any interleaving ends as the committed runs one after the other |
| Migrations.LoneRunCompletes | app/db/migrations.py:18-28 | when nobody is active a whole run goes through, with the outcome of the runner's loop when all scripts work |
| Migrations.RerunAppliesNothing | app/db/migrations.py:22-24 | a run that lists no file beyond those of an earlier committed run applies nothing |
| Migrations.TwoRunsAreOne | app/db/migrations.py:22-27 | running before and after files were added gives the order of one run exactly when the added files sort later |
| Migrations.GrowthIsOneShot | app/db/migrations.py:22-28 | on a fresh database growing listings end in exactly the order of one run over the last |
| AllowList.MatchIsLabelSuffix | app/core/security.py:150 | the string test accepts exactly when the entry's labels end the domain's labels |
| AllowList.LabelsHoldNoDots | app/core/security.py:150 | labels are free of dots |
| AllowList.JoinOfLabels | app/core/security.py:150 | and written out with dots between them they are the name again |
| AllowList.StripDots | app/core/security.py:147 | exactly the trailing dots go |
| AllowList.CheckAllowlisted | app/core/security.py:143-152 | a domain passes exactly when the list is empty or the labels of some entry end its own, both without trailing dots and in lower case |

## Left out

- Routing, cookies, response envelopes, CSRF tokens, middleware, audit and JSON logging, and the front
  end: no property over runs depends on them. Of the command line, only its prompts and its parsing.
- How a failure reaches the client. A PATCH whose email is taken fails with the database's own error
  (`UniqueViolation`), which its handler, unlike that of a creation, does not translate.
- Normalising usernames and emails before they reach an operation; they arrive normalised here.
- Display names, login times, versions and the other columns that no decision reads.
- A password hash that cannot be parsed, which the code treats as never verifying.
- The interleaving of single statements inside one account transaction; the assumptions above say what
  stands in for it.
- Argon2, SHA-256, HMAC and token generation; they are ideal here.
- URL parsing and joining, DNS, address predicates, IDNA and HTTP itself; they are arbitrary functions
  of the hop and the URL. The HTTP library resolves the host again when it connects, so nothing here says
  that the connection goes to the address that was checked.
- Sorting of resolved addresses, response headers and the content length taken from them, timing and a transport failure while the body is read.
- Where the allow-list check is used: nothing in the application calls it.
- The content of migration scripts: a script is its name and whether it runs.
- The status filters, listings, diagnostics persistence, TCP and DNS services: single-branch members.
