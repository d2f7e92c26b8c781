/** What every run guarantees about failed logins and account locks. */
module LockoutLaws {
  import opened Wrappers
  import opened Accounts
  import opened Machine
  import T = Transitions

  /** The number of consecutive failures that locks an account. */
  function Threshold(cfg: Settings): nat {
    Max(1, cfg.maxFailures)
  }

  // ---- what a step does to an account's lock ----

  /** A wrong password was actually checked against this account's hash. */
  ghost predicate Guesses(reply: Reply, user: nat) {
    reply.LoginRefused? && reply.target == Some(user) && reply.why.BadPassword?
  }

  ghost predicate LogsIn(e: Event, reply: Reply, user: nat) {
    e.action.Login? && reply.Granted? && reply.context.user == user
  }

  /** An administrator names this account in an unlock, or in a PATCH that sets a status. */
  ghost predicate AdminSetsStatus(e: Event, user: nat) {
    match e.action
    case UnlockUser(target) => target == user
    case UpdateUser(target, _, _, status) => target == user && status.Some?
    case _ => false
  }

  ghost predicate SameLock(a: User, b: User) {
    a.status == b.status && a.failures == b.failures && a.lockedUntil == b.lockedUntil
  }

  /** The only ways a step moves an account's status, counter or lock. */
  ghost predicate LockMoves(cfg: Settings, e: Event, reply: Reply, user: nat, before: User, after: User) {
    var current := T.AutoUnlock(before, e.at);
    if Guesses(reply, user) then
      current.Usable() && SameLock(after, T.CountFailure(cfg, current, e.at))
    else if LogsIn(e, reply, user) then
      current.Usable() && after.status == Active && after.failures == 0 && after.lockedUntil == None
    else if e.action == UnlockUser(user) then
      after.status == Active && after.failures == 0 && after.lockedUntil == None
    else if AdminSetsStatus(e, user) && reply == Done then
      && after.status == e.action.newStatus.value
      && after.failures == before.failures && after.lockedUntil == before.lockedUntil
    else SameLock(after, before)
  }

  lemma LoginLock(cfg: Settings, db: Db, e: Event, user: nat)
    requires e.action.Login? && user < |db.users|
    ensures user < |Step(cfg, db, e).db.users|
    ensures LockMoves(cfg, e, Step(cfg, db, e).reply, user, db.users[user], Step(cfg, db, e).db.users[user])
  {
    hide LiveUser, T.OpenSession, T.CountFailure;
    hide T.ResolveSession, T.InsertUser, T.ChangePassword, T.UpdateUser, T.ResetPassword, T.RevokeUserSessions;
  }

  /** Every step moves the lock of every account in one of those ways. */
  lemma StepLock(cfg: Settings, db: Db, e: Event, user: nat)
    requires user < |db.users|
    ensures user < |Step(cfg, db, e).db.users|
    ensures LockMoves(cfg, e, Step(cfg, db, e).reply, user, db.users[user], Step(cfg, db, e).db.users[user])
  {
    hide T.Authenticate, T.AutoUnlock, T.CountFailure, OpenIds, IdSet, Revoke, T.PushHistory, T.Touch, T.Demotes;
    hide UsableAdmins, UsernameTaken, EmailTaken, AnyVerifies, Latest;
    if e.action.Login? {
      LoginLock(cfg, db, e, user);
    }
  }

  /** Only logins check a password this way. */
  lemma OnlyLoginsGuess(cfg: Settings, db: Db, e: Event, user: nat)
    requires !e.action.Login?
    ensures !Guesses(Step(cfg, db, e).reply, user)
  {
    hide OpenIds, IdSet, Revoke, T.Authenticate, T.PushHistory, T.Touch, T.Demotes;
    hide UsableAdmins, UsernameTaken, EmailTaken, AnyVerifies, Latest;
  }

  // ---- which steps lock an account ----

  /** A wrong password for this account that brings its counter to the threshold. */
  predicate FinalFailure(cfg: Settings, db: Db, now: Time, username: string, password: string, user: nat) {
    LiveUser(db.users, username) == Some(user) &&
    var account := T.AutoUnlock(db.users[user], now);
    && account.Usable()
    && !account.hash.Verifies(password)
    && account.failures + 1 >= cfg.maxFailures
  }

  /** The step will lock this account: a wrong password at the threshold, or a PATCH to LOCKED that goes through. */
  predicate LocksOut(cfg: Settings, db: Db, e: Event, user: nat) {
    match e.action
    case Login(username, password) => FinalFailure(cfg, db, e.at, username, password, user)
    case UpdateUser(target, email, role, status) =>
      target == user && status == Some(Locked) && MayPatch(db, user, email, role, status)
    case _ => false
  }

  /** The answers that report a lock are given exactly for those steps, and the account is then LOCKED. */
  lemma LockIsReported(cfg: Settings, db: Db, e: Event, user: nat)
    ensures
      var out := Step(cfg, db, e);
      && (LocksOut(cfg, db, e, user) <==>
            || out.reply == LoginRefused(Some(user), BadPassword(true))
            || (e.action.UpdateUser? && e.action.user == user && e.action.newStatus == Some(Locked)
                && out.reply == Done))
      && (LocksOut(cfg, db, e, user) ==> user < |out.db.users| && out.db.users[user].status == Locked)
  {
    hide T.OpenSession, T.AdmitUser, T.PushHistory, T.Touch, T.Demotes, Revoke, OpenIds, IdSet;
    hide LiveUser, UsableAdmins, UsernameTaken, EmailTaken, AnyVerifies;
  }

  // ---- bookkeeping ----

  /** A lock has an end exactly when the counter has reached the threshold. */
  ghost predicate LocksConsistent(cfg: Settings, db: Db) {
    forall u :: 0 <= u < |db.users| ==>
      (db.users[u].lockedUntil.Some? <==> db.users[u].failures >= Threshold(cfg))
  }

  lemma StepKeepsLocksConsistent(cfg: Settings, db: Db, e: Event)
    requires LocksConsistent(cfg, db)
    ensures LocksConsistent(cfg, Step(cfg, db, e).db)
  {
    hide Step;
    NewAccount(cfg, db, e);
    forall u: nat | u < |db.users|
      ensures Step(cfg, db, e).db.users[u].lockedUntil.Some?
        <==> Step(cfg, db, e).db.users[u].failures >= Threshold(cfg)
    {
      StepLock(cfg, db, e, u);
    }
  }

  /** In every run locked_until is set exactly when the counter has reached the threshold. */
  lemma {:induction false} LocksStayConsistent(r: Run, n: nat)
    requires Valid(r) && n <= |r.steps|
    requires LocksConsistent(r.cfg, r.start)
    ensures LocksConsistent(r.cfg, At(r, n))
    decreases n
  {
    hide Step;
    if n > 0 {
      LocksStayConsistent(r, n - 1);
      assert Follows(r, n - 1);
      StepKeepsLocksConsistent(r.cfg, At(r, n - 1), r.steps[n - 1].event);
    }
  }

  // ---- what the counter counts ----

  /** The account's lock has run out, so that the next login lifts it. */
  predicate LockLapsed(db: Db, user: nat, now: Time) {
    user < |db.users| && T.AutoUnlock(db.users[user], now) != db.users[user]
  }

  /**
   How many passwords were checked and found wrong since the latest login, unlock, lapsed lock or
   creation; failures counted before the run included.
   */
  ghost function Streak(r: Run, user: nat, n: nat): nat
    requires n <= |r.steps|
  {
    if n == 0 then if user < |r.start.users| then r.start.users[user].failures else 0
    else
      var t := r.steps[n - 1];
      if Guesses(t.reply, user) then
        1 + if LockLapsed(At(r, n - 1), user, t.event.at) then 0 else Streak(r, user, n - 1)
      else if LogsIn(t.event, t.reply, user) || t.event.action == UnlockUser(user) || t.reply == Created(user) then 0
      else Streak(r, user, n - 1)
  }

  /** The stored counter is that number, through every PATCH. */
  lemma {:induction false} CounterIsStreak(r: Run, user: nat, n: nat)
    requires Valid(r) && n <= |r.steps| && user < |At(r, n).users|
    ensures At(r, n).users[user].failures == Streak(r, user, n)
    decreases n
  {
    hide Step;
    if n > 0 {
      assert Follows(r, n - 1);
      NewAccount(r.cfg, At(r, n - 1), r.steps[n - 1].event);
      if user < |At(r, n - 1).users| {
        CounterIsStreak(r, user, n - 1);
        StepLock(r.cfg, At(r, n - 1), r.steps[n - 1].event, user);
      }
    }
  }

  /** An account that may be logged in to has failures left before it is locked. */
  predicate Settled(cfg: Settings, user: User) {
    user.Usable() ==> user.failures < Threshold(cfg)
  }

  /** A PATCH that reopens this account and goes through. */
  predicate Reopens(db: Db, e: Event, user: nat) {
    match e.action
    case UpdateUser(target, email, role, status) =>
      target == user && status in {Some(Active), Some(Pending)} && MayPatch(db, user, email, role, status)
    case _ => false
  }

  /** The one thing that takes an account's remaining failures away is a PATCH that reopens it at the threshold. */
  lemma StepSettled(cfg: Settings, db: Db, e: Event, user: nat)
    requires user < |db.users| && Settled(cfg, db.users[user])
    ensures user < |Step(cfg, db, e).db.users|
    ensures Settled(cfg, Step(cfg, db, e).db.users[user])
      <==> !(Reopens(db, e, user) && db.users[user].failures >= Threshold(cfg))
  {
    hide Step, MayPatch;
    StepLock(cfg, db, e, user);
    AcceptedExactly(cfg, db, e);
  }

  /** A checked failure locks the account exactly when it brings the streak to the setting or past it. */
  lemma FailureLocks(r: Run, i: nat, user: nat)
    requires Valid(r) && i < |r.steps| && Guesses(r.steps[i].reply, user)
    ensures r.steps[i].reply.why.locked <==> Streak(r, user, i + 1) >= Threshold(r.cfg)
  {
    hide Step;
    assert Follows(r, i);
    GuessedAccount(r.cfg, At(r, i), r.steps[i].event, user);
    CounterIsStreak(r, user, i + 1);
  }

  lemma GuessedAccount(cfg: Settings, db: Db, e: Event, user: nat)
    requires Guesses(Step(cfg, db, e).reply, user)
    ensures
      var out := Step(cfg, db, e);
      user < |db.users| && user < |out.db.users|
      && (out.reply.why.locked <==> out.db.users[user].failures >= Threshold(cfg))
  {
    hide OpenIds, IdSet, Revoke, T.OpenSession, T.AdmitUser, T.PushHistory, T.Touch, T.Demotes;
    hide UsableAdmins, UsernameTaken, EmailTaken, AnyVerifies, Latest;
  }

  /** No PATCH reopens the account at the threshold in transactions before n. */
  ghost predicate NeverReopenedFull(r: Run, user: nat, n: nat)
    requires n <= |r.steps|
  {
    forall i: nat :: i < n ==> !ReopenedFull(r, user, i)
  }

  ghost predicate ReopenedFull(r: Run, user: nat, i: nat)
    requires i < |r.steps|
  {
    && user < |At(r, i).users| && At(r, i).users[user].failures >= Threshold(r.cfg)
    && Reopens(At(r, i), r.steps[i].event, user)
  }

  lemma {:induction false} StaysSettled(r: Run, user: nat, n: nat)
    requires Valid(r) && n <= |r.steps| && user < |At(r, n).users|
    requires user < |r.start.users| ==> Settled(r.cfg, r.start.users[user])
    requires NeverReopenedFull(r, user, n)
    ensures Settled(r.cfg, At(r, n).users[user])
    decreases n
  {
    hide Step, Reopens;
    if n > 0 {
      assert Follows(r, n - 1);
      NewAccount(r.cfg, At(r, n - 1), r.steps[n - 1].event);
      if user < |At(r, n - 1).users| {
        StaysSettled(r, user, n - 1);
        assert !ReopenedFull(r, user, n - 1);
        StepSettled(r.cfg, At(r, n - 1), r.steps[n - 1].event, user);
      }
    }
  }

  /**
   The documented rule, that a checked failure locks the account exactly when it is the threshold-th in
   a row, holds of a failure exactly when the account had failures left before it.
   */
  lemma ThresholdRule(r: Run, i: nat, user: nat)
    requires Valid(r) && i < |r.steps| && Guesses(r.steps[i].reply, user)
    ensures user < |At(r, i).users|
    ensures (r.steps[i].reply.why.locked <==> Streak(r, user, i + 1) == Threshold(r.cfg))
      <==> T.AutoUnlock(At(r, i).users[user], r.steps[i].event.at).failures < Threshold(r.cfg)
  {
    hide Step;
    assert Follows(r, i);
    FailureLocks(r, i, user);
    GuessedAccount(r.cfg, At(r, i), r.steps[i].event, user);
    CounterIsStreak(r, user, i + 1);
    StepLock(r.cfg, At(r, i), r.steps[i].event, user);
  }

  /** So it holds in every run in which no PATCH has reopened the account with its counter at the threshold. */
  lemma ThresholdRuleInRuns(r: Run, i: nat, user: nat)
    requires Valid(r) && i < |r.steps| && Guesses(r.steps[i].reply, user)
    requires user < |r.start.users| ==> Settled(r.cfg, r.start.users[user])
    requires NeverReopenedFull(r, user, i)
    ensures r.steps[i].reply.why.locked <==> Streak(r, user, i + 1) == Threshold(r.cfg)
  {
    hide Step;
    assert Follows(r, i);
    ThresholdRule(r, i, user);
    StaysSettled(r, user, i);
    StepLock(r.cfg, At(r, i), r.steps[i].event, user);
  }

  // ---- locks without an end ----

  ghost predicate IndefinitelyLocked(db: Db, user: nat) {
    user < |db.users| && db.users[user].status == Locked && db.users[user].lockedUntil == None
  }

  /** No administrator sets this account's status in transactions i to j-1. */
  ghost predicate StatusUntouched(r: Run, user: nat, i: nat, j: nat)
    requires i <= j <= |r.steps|
  {
    forall k :: i <= k < j ==> !AdminSetsStatus(r.steps[k].event, user)
  }

  /** No password is checked against the account in transactions i to j-1. */
  ghost predicate NotTried(r: Run, user: nat, i: nat, j: nat)
    requires i <= j <= |r.steps|
  {
    forall k :: i <= k < j ==>
      !LogsIn(r.steps[k].event, r.steps[k].reply, user) && !Guesses(r.steps[k].reply, user)
  }

  lemma {:induction false} LockUnmoved(r: Run, user: nat, i: nat, j: nat)
    requires Valid(r) && i <= j <= |r.steps| && user < |At(r, i).users|
    requires StatusUntouched(r, user, i, j) && NotTried(r, user, i, j)
    ensures user < |At(r, j).users| && SameLock(At(r, i).users[user], At(r, j).users[user])
    decreases j
  {
    hide Step;
    if i < j {
      LockUnmoved(r, user, i, j - 1);
      assert Follows(r, j - 1);
      StepLock(r.cfg, At(r, j - 1), r.steps[j - 1].event, user);
    }
  }

  /**
   A lock lasts exactly its period: after the failure that locks an account, the next login to it is
   refused without looking at the password exactly when it comes before the period is over.
   */
  lemma LockLastsItsPeriod(r: Run, user: nat, i: nat, j: nat)
    requires Valid(r) && i < j < |r.steps|
    requires user < |At(r, i).users| && r.steps[i].reply == LoginRefused(Some(user), BadPassword(true))
    requires StatusUntouched(r, user, i + 1, j) && NotTried(r, user, i + 1, j)
    requires r.steps[j].event.action.Login?
    requires LiveUser(At(r, j).users, r.steps[j].event.action.username) == Some(user)
    ensures r.steps[j].reply == LoginRefused(Some(user), NotUsable(Locked))
      <==> r.steps[j].event.at < r.steps[i].event.at + r.cfg.LockPeriod()
  {
    hide LiveUser;
    assert Follows(r, i) && Follows(r, j);
    LockUnmoved(r, user, i + 1, j);
  }

  /** No login to the account succeeds in transactions i to j-1. */
  ghost predicate NoLogin(r: Run, user: nat, i: nat, j: nat)
    requires i <= j <= |r.steps|
  {
    forall k :: i <= k < j ==> !LogsIn(r.steps[k].event, r.steps[k].reply, user)
  }

  /** A lock without an end lasts until an administrator sets the status; no login gets through. */
  lemma {:induction false} IndefiniteLockHolds(r: Run, user: nat, i: nat, j: nat)
    requires Valid(r) && i <= j <= |r.steps|
    requires IndefinitelyLocked(At(r, i), user) && StatusUntouched(r, user, i, j)
    ensures IndefinitelyLocked(At(r, j), user)
    ensures NoLogin(r, user, i, j)
    decreases j
  {
    hide Step;
    if i < j {
      IndefiniteLockHolds(r, user, i, j - 1);
      assert Follows(r, j - 1);
      StepLock(r.cfg, At(r, j - 1), r.steps[j - 1].event, user);
    }
  }

  /**
   A PATCH to LOCKED below the threshold is such a lock, in any run that starts consistent;
   at or above the threshold the lock keeps the end it already had.
   */
  lemma PatchedLock(r: Run, i: nat, user: nat, email: Option<string>, role: Option<Role>)
    requires Valid(r) && i < |r.steps| && LocksConsistent(r.cfg, r.start)
    requires r.steps[i].event.action == UpdateUser(user, email, role, Some(Locked)) && r.steps[i].reply == Done
    ensures user < |At(r, i).users|
    ensures IndefinitelyLocked(At(r, i + 1), user) <==> At(r, i).users[user].failures < Threshold(r.cfg)
  {
    LocksStayConsistent(r, i);
    assert Follows(r, i);
  }

  // ---- the rate of password guesses ----

  /** How many of the transactions i to j-1 are verified failures of this account. */
  ghost function Failures(r: Run, user: nat, i: nat, j: nat): nat
    requires i <= j <= |r.steps|
    decreases j
  {
    if i == j then 0
    else Failures(r, user, i, j - 1) + if Guesses(r.steps[j - 1].reply, user) then 1 else 0
  }

  /** Transactions i and j are verified failures, with no success or status set in between. */
  ghost predicate GuessesFromTo(r: Run, user: nat, i: nat, j: nat) {
    && i < j < |r.steps| && user < |At(r, i).users|
    && Guesses(r.steps[i].reply, user) && Guesses(r.steps[j].reply, user)
    && StatusUntouched(r, user, i + 1, j) && NoLogin(r, user, i + 1, j)
  }

  /**
   After `count` failures since time `since`, k whole lock periods have passed, or will have
   passed when the current lock ends.
   */
  ghost predicate Paced(cfg: Settings, account: User, count: nat, since: Time, last: Time, k: nat) {
    || (&& last >= since + k * cfg.LockPeriod()
        && account.lockedUntil == None
        && account.failures < Threshold(cfg)
        && count <= k * Threshold(cfg) + account.failures)
    || (&& account.status == Locked
        && account.lockedUntil.Some?
        && account.lockedUntil.value >= since + (k + 1) * cfg.LockPeriod()
        && count <= (k + 1) * Threshold(cfg))
  }

  /** One more failure keeps the pace, and comes no earlier than the failures before it allow. */
  lemma FailureIsPaced(cfg: Settings, account: User, count: nat, since: Time, last: Time, now: Time, k: nat)
    returns (k': nat)
    requires Paced(cfg, account, count, since, last, k)
    requires last <= now && T.AutoUnlock(account, now).Usable()
    ensures Paced(cfg, T.CountFailure(cfg, T.AutoUnlock(account, now), now), count + 1, since, now, k')
    ensures exists q: nat :: now >= since + q * cfg.LockPeriod() && count < (q + 1) * Threshold(cfg)
  {
    var M, L := Threshold(cfg), cfg.LockPeriod();
    if account.status == Locked && account.lockedUntil.Some? {
      k' := k + 1;
      assert now >= since + (k + 1) * L;
      assert (k + 2) * M == (k + 1) * M + M;
      assert (k + 2) * L == (k + 1) * L + L;
      assert now >= since + (k + 1) * L && count < ((k + 1) + 1) * M;
    } else {
      k' := k;
      assert (k + 1) * M == k * M + M;
      assert (k + 1) * L == k * L + L;
      assert now >= since + k * L && count < (k + 1) * M;
    }
  }

  lemma {:induction false} RunIsPaced(r: Run, user: nat, i: nat, j: nat) returns (k: nat)
    requires Valid(r) && Ordered(r)
    requires i < j <= |r.steps| && user < |At(r, i).users|
    requires Guesses(r.steps[i].reply, user) && StatusUntouched(r, user, i + 1, j) && NoLogin(r, user, i + 1, j)
    ensures user < |At(r, j).users|
    ensures Paced(r.cfg, At(r, j).users[user], Failures(r, user, i, j), r.steps[i].event.at, r.steps[j - 1].event.at, k)
    decreases j
  {
    hide Step, T.AutoUnlock;
    assert Follows(r, j - 1);
    var now := r.steps[j - 1].event.at;
    if j == i + 1 {
      StepLock(r.cfg, At(r, i), r.steps[i].event, user);
      k := 0;
      assert Failures(r, user, i, i) == 0;
    } else {
      k := RunIsPaced(r, user, i, j - 1);
      StepLock(r.cfg, At(r, j - 1), r.steps[j - 1].event, user);
      assert r.steps[j - 2].event.at <= now;
      if Guesses(r.steps[j - 1].reply, user) {
        k := FailureIsPaced(r.cfg, At(r, j - 1).users[user], Failures(r, user, i, j - 1),
                            r.steps[i].event.at, r.steps[j - 2].event.at, now, k);
      }
    }
  }

  lemma DivisionBound(count: nat, q: nat, step: int, period: int)
    requires step > 0 && period >= 0 && count < (q + 1) * step
    ensures (count / step) * period <= q * period
  {
    assert count / step <= q;
  }

  /**
   The guess rate: from any state, with no success and no administrator setting the status in
   between, a verified failure that follows n others, the first of them at i, comes at least
   floor(n / threshold) lock periods after the first.
   */
  lemma GuessRate(r: Run, user: nat, i: nat, j: nat)
    requires Valid(r) && Ordered(r) && GuessesFromTo(r, user, i, j)
    ensures r.steps[j].event.at
      >= r.steps[i].event.at + (Failures(r, user, i, j) / Threshold(r.cfg)) * r.cfg.LockPeriod()
  {
    hide Step, T.AutoUnlock;
    var count, M, L := Failures(r, user, i, j), Threshold(r.cfg), r.cfg.LockPeriod();
    var since, now := r.steps[i].event.at, r.steps[j].event.at;
    assert since <= r.steps[j - 1].event.at <= now;
    if L < 0 {
      assert (count / M) * L <= 0;
    } else {
      var k := RunIsPaced(r, user, i, j);
      assert Follows(r, j);
      StepLock(r.cfg, At(r, j), r.steps[j].event, user);
      k := FailureIsPaced(r.cfg, At(r, j).users[user], count, since, r.steps[j - 1].event.at, now, k);
      var q: nat :| now >= since + q * L && count < (q + 1) * M;
      DivisionBound(count, q, M, L);
    }
  }

  lemma AtLeastOnePeriod(count: nat, step: int, period: int)
    requires step > 0 && period >= 0
    ensures count >= step ==> (count / step) * period >= period
  {
    if count >= step {
      assert count / step >= 1;
    }
  }

  /** Hence a half-open window of one lock period holds at most `threshold` verified failures. */
  lemma GuessesPerLockPeriod(r: Run, user: nat, i: nat, j: nat)
    requires Valid(r) && Ordered(r) && GuessesFromTo(r, user, i, j)
    requires r.steps[j].event.at < r.steps[i].event.at + r.cfg.LockPeriod()
    ensures Failures(r, user, i, j + 1) <= Threshold(r.cfg)
  {
    assert r.steps[i].event.at <= r.steps[j].event.at;
    AtLeastOnePeriod(Failures(r, user, i, j), Threshold(r.cfg), r.cfg.LockPeriod());
    GuessRate(r, user, i, j);
  }
}
