/** What each operation does to the stored state, one database transaction a step. */
module Transitions {
  import opened Wrappers
  import opened Accounts

  // ---- authentication service ----

  /** A timed lock that has run out is lifted before anything else is looked at. */
  function AutoUnlock(user: User, now: Time): User {
    if user.status == Locked && user.lockedUntil.Some? && user.lockedUntil.value <= now
    then user.(status := Active, lockedUntil := None, failures := 0)
    else user
  }

  /** A wrong password: count it, and lock the account at the threshold. */
  function CountFailure(cfg: Settings, user: User, now: Time): User {
    var failures := user.failures + 1;
    if failures >= cfg.maxFailures
    then user.(failures := failures, status := Locked, lockedUntil := Some(now + cfg.LockPeriod()))
    else user.(failures := failures, lockedUntil := None)
  }

  /** The right password: clear the counter and bring the stored hash up to date. */
  function AdmitUser(cfg: Settings, user: User, password: string): User {
    user.(
      hash := if user.hash.scheme != cfg.hashScheme then cfg.Hash(password) else user.hash,
      failures := 0,
      lockedUntil := None,
      status := if user.status == Pending then Active else user.status)
  }

  /** The sessions a login pushes out: the oldest ones beyond the cap. */
  function Evicted(cfg: Settings, rows: seq<Session>, user: nat): (ids: seq<nat>)
    ensures ids <= OpenIds(rows, user)
  {
    var open := OpenIds(rows, user);
    var excess := Max(0, |open| - cfg.maxSessions + 1);
    open[..Min(excess, |open|)]
  }

  function NewSession(cfg: Settings, user: nat, role: Role, now: Time): Session {
    Session(user, now, now + cfg.IdleLimit(), now + cfg.AbsoluteLimit(role), None, "")
  }

  function OpenSession(cfg: Settings, rows: seq<Session>, user: nat, role: Role, now: Time): seq<Session> {
    Revoke(rows, IdSet(Evicted(cfg, rows, user)), now, "MAX_SESSIONS") + [NewSession(cfg, user, role, now)]
  }

  function Authenticate(cfg: Settings, db: Db, now: Time, username: string, password: string): Outcome {
    match LiveUser(db.users, username)
    case None => Outcome(db, LoginRefused(None, UnknownUser))
    case Some(id) =>
      var user := AutoUnlock(db.users[id], now);
      if !user.Usable() then
        Outcome(db.(users := db.users[id := user]), LoginRefused(Some(id), NotUsable(user.status)))
      else if !user.hash.Verifies(password) then
        var failed := CountFailure(cfg, user, now);
        Outcome(db.(users := db.users[id := failed]), LoginRefused(Some(id), BadPassword(failed.status == Locked)))
      else
        Outcome(
          db.(users := db.users[id := AdmitUser(cfg, user, password)],
              sessions := OpenSession(cfg, db.sessions, id, user.role, now)),
          Granted(AuthContext(id, |db.sessions|, user.role, user.mustChange)))
  }

  /** The row as an accepted use leaves it. */
  function Touch(cfg: Settings, row: Session, now: Time): Session {
    if now - row.lastSeen >= TOUCH_INTERVAL
    then row.(lastSeen := now, idleExpires := Min(now + cfg.IdleLimit(), row.absoluteExpires))
    else row
  }

  function ResolveSession(cfg: Settings, db: Db, now: Time, token: nat): Outcome {
    if token >= |db.sessions| || !db.sessions[token].Open() || db.sessions[token].user >= |db.users| then
      Outcome(db, NoSession)
    else
      var row := db.sessions[token];
      var user := db.users[row.user];
      if !user.Usable() || user.deleted then Outcome(db, NoSession)
      else if row.idleExpires <= now || row.absoluteExpires <= now then
        Outcome(db.(sessions := Revoke(db.sessions, {token}, now, "EXPIRED")), NoSession)
      else
        Outcome(
          db.(sessions := db.sessions[token := Touch(cfg, row, now)]),
          Granted(AuthContext(row.user, token, user.role, user.mustChange)))
  }

  function RevokeSession(db: Db, now: Time, session: nat, reason: string): Outcome {
    if session < |db.sessions| && db.sessions[session].Open()
    then Outcome(db.(sessions := Revoke(db.sessions, {session}, now, reason)), Done)
    else Outcome(db, Done)
  }

  /** A changed password: the old hash joins the history, cut to n rows when pruning. */
  function PushHistory(db: Db, user: nat, prune: Option<nat>): map<nat, seq<PasswordHash>>
    requires user < |db.users|
  {
    var rows := db.HistoryOf(user) + [db.users[user].hash];
    db.history[user := match prune case Some(n) => Latest(rows, n) case None => rows]
  }

  /** Changing a password; prune says how many old hashes the final DELETE leaves. */
  function ChangePasswordPruning(cfg: Settings, db: Db, now: Time, user: nat, session: nat,
                                 current: string, replacement: string, prune: Option<nat>): Outcome
  {
    if user >= |db.users| || !db.users[user].hash.Verifies(current) then Outcome(db, Declined)
    else if !cfg.policy(replacement, db.users[user].username) then Outcome(db, Failed(WeakPassword))
    else if db.users[user].hash.Verifies(replacement)
         || AnyVerifies(Latest(db.HistoryOf(user), cfg.historyCount), replacement) then
      Outcome(db, Failed(RecentlyUsed))
    else
      Outcome(
        Db(db.users[user := db.users[user].(hash := cfg.Hash(replacement), mustChange := false)],
           Revoke(db.sessions, IdSet(OpenIds(db.sessions, user)) - {session}, now, "PASSWORD_CHANGED"),
           PushHistory(db, user, prune)),
        Done)
  }

  function ChangePassword(cfg: Settings, db: Db, now: Time, user: nat, session: nat,
                          current: string, replacement: string): Outcome
  {
    ChangePasswordPruning(cfg, db, now, user, session, current, replacement, Some(cfg.historyCount))
  }

  // ---- administration of users ----

  /** A new account, if the password is strong enough and the name and email are free. */
  function InsertUser(cfg: Settings, db: Db, username: string, email: Option<string>,
                      role: Role, status: Status, password: string): Outcome
  {
    if !cfg.policy(password, username) then Outcome(db, Failed(WeakPassword))
    else if UsernameTaken(db.users, username) || EmailTaken(db.users, email, |db.users|) then
      Outcome(db, Failed(Duplicate))
    else
      Outcome(
        db.(users := db.users + [User(username, email, role, status, cfg.Hash(password), true, 0, None, false)]),
        Created(|db.users|))
  }

  function CreateUser(cfg: Settings, db: Db, username: string, email: Option<string>,
                      role: Role, password: string): Outcome
  {
    InsertUser(cfg, db, username, email, role, Pending, password)
  }

  /** The command-line operation that sets up an administrator. */
  function CreateAdmin(cfg: Settings, db: Db, username: string, email: Option<string>, password: string): Outcome {
    InsertUser(cfg, db, username, email, Admin, Active, password)
  }

  /** Whether a PATCH takes the administrator role away or disables the account. */
  predicate Demotes(user: User, role: Option<Role>, status: Option<Status>) {
    user.role == Admin && (role !in {None, Some(Admin)} || status == Some(Disabled))
  }

  function UpdateUser(db: Db, now: Time, user: nat, email: Option<string>,
                      role: Option<Role>, status: Option<Status>): Outcome
  {
    if user >= |db.users| || db.users[user].deleted then Outcome(db, Failed(UserNotFound))
    else if Demotes(db.users[user], role, status) && |UsableAdmins(db.users)| <= 1 then
      Outcome(db, Failed(LastAdminProtected))
    else if EmailTaken(db.users, email, user) then Outcome(db, Failed(UniqueViolation))
    else
      var account := db.users[user];
      var updated := account.(
        email := if email.Some? then email else account.email,
        role := role.GetOr(account.role),
        status := status.GetOr(account.status));
      Outcome(
        db.(users := db.users[user := updated],
            sessions := if status == Some(Disabled)
                        then Revoke(db.sessions, IdSet(OpenIds(db.sessions, user)), now, "ACCOUNT_DISABLED")
                        else db.sessions),
        Done)
  }

  function UnlockUser(db: Db, user: nat): Outcome {
    if user >= |db.users| then Outcome(db, Failed(UserNotFound))
    else
      Outcome(
        db.(users := db.users[user := db.users[user].(status := Active, failures := 0, lockedUntil := None)]),
        Done)
  }

  function ResetPassword(cfg: Settings, db: Db, now: Time, user: nat, password: string): Outcome {
    if user >= |db.users| then Outcome(db, Failed(UserNotFound))
    else if !cfg.policy(password, db.users[user].username) then Outcome(db, Failed(WeakPassword))
    else
      Outcome(
        Db(db.users[user := db.users[user].(hash := cfg.Hash(password), mustChange := true)],
           Revoke(db.sessions, IdSet(OpenIds(db.sessions, user)), now, "PASSWORD_RESET"),
           PushHistory(db, user, None)),
        Done)
  }

  function RevokeUserSessions(db: Db, now: Time, user: nat): Outcome {
    Outcome(
      db.(sessions := Revoke(db.sessions, IdSet(OpenIds(db.sessions, user)), now, "ADMIN_REVOKED")),
      Revoked(|OpenIds(db.sessions, user)|))
  }

  // ---- request gate ----

  /** Who a request acts for: nobody in particular when authentication is off. */
  function RequireCurrentUser(cfg: Settings, db: Db, now: Time, token: Option<nat>): Outcome {
    if !cfg.authEnabled then Outcome(db, Anonymous)
    else if token.None? then Outcome(db, LoginRequired)
    else ResolveSession(cfg, db, now, token.value)
  }

  function RequireRoles(cfg: Settings, db: Db, now: Time, token: Option<nat>, roles: set<Role>): Outcome {
    var current := RequireCurrentUser(cfg, db, now, token);
    match current.reply
    case Granted(context) =>
      if context.mustChange then Outcome(current.db, PasswordChangeRequired)
      else if context.role !in roles then Outcome(current.db, PermissionDenied)
      else current
    case _ => current
  }
}
