/**
 What each operation answers and stores, said of the rows and settings alone: without the step
 functions, the guards, or the helpers they are made of.
 */
module Effects {
  import opened Wrappers
  import opened Accounts
  import opened Machine
  import T = Transitions

  // ---- durations and sets of rows ----

  function Minutes(n: int): Time {
    n * 60_000_000
  }

  function Hours(n: int): Time {
    n * 3_600_000_000
  }

  /** The open sessions of a user. */
  ghost function OpenOf(rows: seq<Session>, user: nat): set<nat> {
    set s: nat | s < |rows| && rows[s].user == user && rows[s].revokedAt == None
  }

  /** Those of them that were opened after session s. */
  ghost function Newer(rows: seq<Session>, user: nat, s: nat): set<nat> {
    set t: nat | t in OpenOf(rows, user) && s < t
  }

  /** The sessions that have to go before another can be opened: those with cap-1 newer ones. */
  ghost function Surplus(cfg: Settings, rows: seq<Session>, user: nat): set<nat> {
    set s: nat | s in OpenOf(rows, user) && |Newer(rows, user, s)| >= cfg.maxSessions - 1
  }

  /** Of the rows there were, exactly these are closed now, for this reason; the others are as they were. */
  ghost predicate Closes(before: seq<Session>, after: seq<Session>, ids: set<nat>, now: Time, reason: string) {
    |before| <= |after| &&
    forall s: nat :: s < |before| ==>
      after[s] == if s in ids then before[s].(revokedAt := Some(now), reason := reason) else before[s]
  }

  /** The same, when no session is added and nothing but sessions moves. */
  ghost predicate OnlyCloses(before: Db, after: Db, ids: set<nat>, now: Time, reason: string) {
    && after.users == before.users && after.history == before.history
    && |after.sessions| == |before.sessions|
    && Closes(before.sessions, after.sessions, ids, now, reason)
  }

  ghost predicate MayEnter(user: User) {
    user.status == Active || user.status == Pending
  }

  // ---- the authentication service ----

  ghost predicate LiveNamed(users: seq<User>, username: string, id: nat) {
    id < |users| && users[id].username == username && !users[id].deleted
  }

  /** A login to a name no live account has is refused; one to the only live account of its name is answered there. */
  ghost predicate LoginMeans(cfg: Settings, db: Db, now: Time, username: string, password: string, out: Outcome) {
    && ((forall id: nat :: !LiveNamed(db.users, username, id)) ==> out == Outcome(db, LoginRefused(None, UnknownUser)))
    && (forall id: nat ::
          LiveNamed(db.users, username, id) && (forall j: nat :: LiveNamed(db.users, username, j) ==> j == id)
          ==> LoginToMeans(cfg, db, now, id, password, out))
  }

  ghost predicate LoginToMeans(cfg: Settings, db: Db, now: Time, id: nat, password: string, out: Outcome)
    requires id < |db.users|
  {
    var user := db.users[id];
    var lapsed := user.status == Locked && user.lockedUntil.Some? && user.lockedUntil.value <= now;
    var failures := 1 + if lapsed then 0 else user.failures;
    if user.status == Disabled || (user.status == Locked && !lapsed) then
      out == Outcome(db, LoginRefused(Some(id), NotUsable(user.status)))
    else if user.hash.password != password then
      && out.reply == LoginRefused(Some(id), BadPassword(failures >= cfg.maxFailures))
      && out.db.sessions == db.sessions && out.db.history == db.history
      && out.db.users == db.users[id := user.(
           failures := failures,
           status := if failures >= cfg.maxFailures then Locked else if lapsed then Active else user.status,
           lockedUntil := if failures >= cfg.maxFailures then Some(now + Minutes(cfg.lockMinutes)) else None)]
    else
      && out.reply == Granted(AuthContext(id, |db.sessions|, user.role, user.mustChange))
      && out.db.history == db.history
      && out.db.users == db.users[id := user.(
           hash := PasswordHash(password, cfg.hashScheme), failures := 0, status := Active, lockedUntil := None)]
      && OpensMeans(cfg, db.sessions, id, user.role, now, out.db.sessions)
  }

  /** The surplus is closed, and one row is added that expires as the settings say for the role. */
  ghost predicate OpensMeans(cfg: Settings, before: seq<Session>, user: nat, role: Role, now: Time,
                             after: seq<Session>)
  {
    && |after| == |before| + 1
    && after[|before|] == Session(
         user, now, now + Minutes(cfg.idleMinutes),
         now + Hours(if role == Admin then cfg.adminAbsoluteHours else cfg.absoluteHours), None, "")
    && Closes(before, after, Surplus(cfg, before, user), now, "MAX_SESSIONS")
  }

  /** The token names an open session whose user may enter. */
  ghost predicate Known(db: Db, token: nat) {
    && token < |db.sessions| && db.sessions[token].revokedAt == None
    && db.sessions[token].user < |db.users|
    && MayEnter(db.users[db.sessions[token].user]) && !db.users[db.sessions[token].user].deleted
  }

  ghost predicate Expired(row: Session, now: Time) {
    now >= row.idleExpires || now >= row.absoluteExpires
  }

  ghost predicate UseMeans(cfg: Settings, db: Db, now: Time, token: nat, out: Outcome) {
    if !Known(db, token) then out == Outcome(db, NoSession)
    else
      var row := db.sessions[token];
      var user := db.users[row.user];
      if Expired(row, now) then out.reply == NoSession && OnlyCloses(db, out.db, {token}, now, "EXPIRED")
      else
        var refreshed := now + Minutes(cfg.idleMinutes);
        && out.reply == Granted(AuthContext(row.user, token, user.role, user.mustChange))
        && out.db == db.(sessions := db.sessions[token :=
             if now - row.lastSeen < Minutes(5) then row
             else row.(lastSeen := now,
                       idleExpires := if refreshed <= row.absoluteExpires then refreshed else row.absoluteExpires)])
  }

  ghost predicate RevokeMeans(db: Db, now: Time, session: nat, reason: string, out: Outcome) {
    && out.reply == Done
    && var unrevoked := session < |db.sessions| && db.sessions[session].revokedAt == None;
       OnlyCloses(db, out.db, if unrevoked then {session} else {}, now, reason)
  }

  /** The password is the user's, or one of the newest n replaced ones. */
  ghost predicate Recent(db: Db, user: nat, n: nat, password: string)
    requires user < |db.users|
  {
    var replaced := db.HistoryOf(user);
    || password == db.users[user].hash.password
    || exists k :: 0 <= k < |replaced| && |replaced| - k <= n && replaced[k].password == password
  }

  /** The user's history is the newest rows of the old one followed by the replaced hash, at most n in all. */
  ghost predicate HistoryIs(before: Db, after: Db, user: nat, n: nat)
    requires user < |before.users|
  {
    var earlier, rows := before.HistoryOf(user), after.HistoryOf(user);
    && |rows| == (if |earlier| + 1 <= n then |earlier| + 1 else n)
    && (|rows| > 0 ==> rows[|rows| - 1] == before.users[user].hash)
    && (forall k :: 0 <= k < |rows| - 1 ==> rows[k] == earlier[k + |earlier| + 1 - |rows|])
    && (forall other: nat :: other != user ==> after.HistoryOf(other) == before.HistoryOf(other))
  }

  ghost predicate ChangeMeans(cfg: Settings, db: Db, now: Time, user: nat, session: nat,
                              current: string, replacement: string, out: Outcome)
  {
    if user >= |db.users| || db.users[user].hash.password != current then out == Outcome(db, Declined)
    else if !cfg.policy(replacement, db.users[user].username) then out == Outcome(db, Failed(WeakPassword))
    else if Recent(db, user, cfg.historyCount, replacement) then out == Outcome(db, Failed(RecentlyUsed))
    else
      && out.reply == Done
      && out.db.users == db.users[user := db.users[user].(
           hash := PasswordHash(replacement, cfg.hashScheme), mustChange := false)]
      && |out.db.sessions| == |db.sessions|
      && Closes(db.sessions, out.db.sessions, OpenOf(db.sessions, user) - {session}, now, "PASSWORD_CHANGED")
      && HistoryIs(db, out.db, user, cfg.historyCount)
  }

  // ---- administration ----

  ghost predicate NameFree(users: seq<User>, username: string) {
    forall i :: 0 <= i < |users| ==> users[i].username != username
  }

  /** No row but the user's own has this email, if one is given. */
  ghost predicate EmailFree(users: seq<User>, email: Option<string>, user: nat) {
    email.Some? ==> forall i :: 0 <= i < |users| && i != user ==> users[i].email != email
  }

  ghost predicate CreateMeans(cfg: Settings, db: Db, username: string, email: Option<string>, role: Role,
                              status: Status, password: string, out: Outcome)
  {
    if !cfg.policy(password, username) then out == Outcome(db, Failed(WeakPassword))
    else if !NameFree(db.users, username) || !EmailFree(db.users, email, |db.users|) then
      out == Outcome(db, Failed(Duplicate))
    else
      out == Outcome(
        db.(users := db.users + [
          User(username, email, role, status, PasswordHash(password, cfg.hashScheme), true, 0, None, false)]),
        Created(|db.users|))
  }

  /** Two administrators may enter. */
  ghost predicate TwoAdmins(users: seq<User>) {
    exists i: nat, j: nat :: i != j && CountedAdmin(users, i) && CountedAdmin(users, j)
  }

  ghost predicate CountedAdmin(users: seq<User>, i: nat) {
    i < |users| && users[i].role == Admin && MayEnter(users[i]) && !users[i].deleted
  }

  /** The named columns get the named values, and the others keep theirs. */
  ghost predicate PatchMeans(db: Db, now: Time, id: nat, email: Option<string>, role: Option<Role>,
                             status: Option<Status>, out: Outcome)
  {
    if id >= |db.users| || db.users[id].deleted then out == Outcome(db, Failed(UserNotFound))
    else
      var user := db.users[id];
      var demoted := role.Some? && role.value != Admin;
      if user.role == Admin && (demoted || status == Some(Disabled)) && !TwoAdmins(db.users) then
        out == Outcome(db, Failed(LastAdminProtected))
      else if !EmailFree(db.users, email, id) then out == Outcome(db, Failed(UniqueViolation))
      else
        && out.reply == Done && out.db.history == db.history
        && |out.db.users| == |db.users|
        && (forall u: nat :: u < |db.users| && u != id ==> out.db.users[u] == db.users[u])
        && out.db.users[id] == User(
             user.username,
             if email == None then user.email else email,
             if role.Some? then role.value else user.role,
             if status.Some? then status.value else user.status,
             user.hash, user.mustChange, user.failures, user.lockedUntil, user.deleted)
        && |out.db.sessions| == |db.sessions|
        && Closes(db.sessions, out.db.sessions, if status == Some(Disabled) then OpenOf(db.sessions, id) else {},
                  now, "ACCOUNT_DISABLED")
  }

  ghost predicate UnlockMeans(db: Db, id: nat, out: Outcome) {
    if id >= |db.users| then out == Outcome(db, Failed(UserNotFound))
    else
      out == Outcome(
        db.(users := db.users[id := db.users[id].(status := Active, failures := 0, lockedUntil := None)]), Done)
  }

  ghost predicate ResetMeans(cfg: Settings, db: Db, now: Time, id: nat, password: string, out: Outcome) {
    if id >= |db.users| then out == Outcome(db, Failed(UserNotFound))
    else if !cfg.policy(password, db.users[id].username) then out == Outcome(db, Failed(WeakPassword))
    else
      && out.reply == Done
      && out.db.users == db.users[id := db.users[id].(
           hash := PasswordHash(password, cfg.hashScheme), mustChange := true)]
      && |out.db.sessions| == |db.sessions|
      && Closes(db.sessions, out.db.sessions, OpenOf(db.sessions, id), now, "PASSWORD_RESET")
      && HistoryIs(db, out.db, id, |db.HistoryOf(id)| + 1)
  }

  ghost predicate RevokeAllMeans(db: Db, now: Time, id: nat, out: Outcome) {
    && out.reply == Revoked(|OpenOf(db.sessions, id)|)
    && OnlyCloses(db, out.db, OpenOf(db.sessions, id), now, "ADMIN_REVOKED")
  }

  ghost predicate StepMeans(cfg: Settings, db: Db, e: Event, out: Outcome) {
    match e.action
    case Login(username, password) => LoginMeans(cfg, db, e.at, username, password, out)
    case Use(token) => UseMeans(cfg, db, e.at, token, out)
    case RevokeSession(session, reason) => RevokeMeans(db, e.at, session, reason, out)
    case ChangePassword(user, session, current, replacement) =>
      ChangeMeans(cfg, db, e.at, user, session, current, replacement, out)
    case CreateUser(username, email, role, password) =>
      CreateMeans(cfg, db, username, email, role, Pending, password, out)
    case CreateAdmin(username, email, password) =>
      CreateMeans(cfg, db, username, email, Admin, Active, password, out)
    case UpdateUser(user, email, role, status) => PatchMeans(db, e.at, user, email, role, status, out)
    case UnlockUser(user) => UnlockMeans(db, user, out)
    case ResetPassword(user, password) => ResetMeans(cfg, db, e.at, user, password, out)
    case RevokeUserSessions(user) => RevokeAllMeans(db, e.at, user, out)
  }

  // ---- the gate ----

  ghost predicate CurrentUserMeans(cfg: Settings, db: Db, now: Time, token: Option<nat>, out: Outcome) {
    if !cfg.authEnabled then out == Outcome(db, Anonymous)
    else if token == None then out == Outcome(db, LoginRequired)
    else UseMeans(cfg, db, now, token.value, out)
  }

  /** The answer is the first of the refusals that applies, and whatever it is the session has been used. */
  ghost predicate GateMeans(cfg: Settings, db: Db, now: Time, token: Option<nat>, roles: set<Role>, out: Outcome) {
    if !cfg.authEnabled then out == Outcome(db, Anonymous)
    else if token == None then out == Outcome(db, LoginRequired)
    else if !Known(db, token.value) || Expired(db.sessions[token.value], now) then
      out.reply == NoSession && UseMeans(cfg, db, now, token.value, out)
    else
      var id := db.sessions[token.value].user;
      var context := AuthContext(id, token.value, db.users[id].role, db.users[id].mustChange);
      && UseMeans(cfg, db, now, token.value, Outcome(out.db, Granted(context)))
      && out.reply == if db.users[id].mustChange then PasswordChangeRequired
                      else if db.users[id].role in roles then Granted(context)
                      else PermissionDenied
  }

  // ---- the operations do that ----

  /** The list of open sessions and the set of them. */
  lemma OpenIdsAreOpenOf(rows: seq<Session>, user: nat)
    ensures IdSet(OpenIds(rows, user)) == OpenOf(rows, user)
    ensures |OpenIds(rows, user)| == |OpenOf(rows, user)|
  {
    IncreasingSize(OpenIds(rows, user), OpenOf(rows, user));
  }

  /** A strictly increasing list has as many entries as elements. */
  lemma {:induction false} IncreasingSize(ids: seq<nat>, elements: set<nat>)
    requires forall a, b :: 0 <= a < b < |ids| ==> ids[a] < ids[b]
    requires forall n: nat :: n in elements <==> n in ids
    ensures |elements| == |ids|
  {
    if ids == [] {
      assert elements == {};
    } else {
      var last := |ids| - 1;
      assert ids == ids[..last] + [ids[last]];
      IncreasingSize(ids[..last], elements - {ids[last]});
    }
  }

  /** The rows a login evicts from the front of the list are those with cap-1 newer ones. */
  lemma EvictedIsSurplus(cfg: Settings, rows: seq<Session>, user: nat)
    ensures IdSet(T.Evicted(cfg, rows, user)) == Surplus(cfg, rows, user)
  {
    var open, evicted := OpenIds(rows, user), T.Evicted(cfg, rows, user);
    forall s: nat ensures s in evicted <==> s in Surplus(cfg, rows, user) {
      if s in open {
        var p :| 0 <= p < |open| && open[p] == s;
        NewerAreBehind(rows, user, p);
        assert s in evicted <==> p < |evicted| by { FrontHolds(open, |evicted|, p); }
      }
    }
  }

  lemma FrontHolds(ids: seq<nat>, k: nat, p: nat)
    requires forall a, b :: 0 <= a < b < |ids| ==> ids[a] < ids[b]
    requires k <= |ids| && p < |ids|
    ensures ids[p] in ids[..k] <==> p < k
  {
  }

  lemma NewerAreBehind(rows: seq<Session>, user: nat, p: nat)
    requires p < |OpenIds(rows, user)|
    ensures |Newer(rows, user, OpenIds(rows, user)[p])| == |OpenIds(rows, user)| - p - 1
  {
    var open := OpenIds(rows, user);
    var behind := open[p + 1..];
    forall n: nat ensures n in Newer(rows, user, open[p]) <==> n in behind {
      if n in Newer(rows, user, open[p]) {
        var q :| 0 <= q < |open| && open[q] == n;
        assert behind[q - p - 1] == n;
      }
    }
    IncreasingSize(behind, Newer(rows, user, open[p]));
  }

  lemma OpeningMeets(cfg: Settings, rows: seq<Session>, user: nat, role: Role, now: Time)
    ensures OpensMeans(cfg, rows, user, role, now, T.OpenSession(cfg, rows, user, role, now))
  {
    hide T.Evicted, Surplus;
    EvictedIsSurplus(cfg, rows, user);
  }

  lemma LoginMeets(cfg: Settings, db: Db, now: Time, username: string, password: string)
    ensures LoginMeans(cfg, db, now, username, password, T.Authenticate(cfg, db, now, username, password))
  {
    var found := LiveUser(db.users, username);
    var out := T.Authenticate(cfg, db, now, username, password);
    hide LiveUser;
    if found.Some? {
      assert LiveNamed(db.users, username, found.value);
      LoginToMeets(cfg, db, now, username, found.value, password);
    } else {
      assert forall id: nat :: !LiveNamed(db.users, username, id);
    }
  }

  lemma LoginToMeets(cfg: Settings, db: Db, now: Time, username: string, id: nat, password: string)
    requires LiveUser(db.users, username) == Some(id)
    ensures LoginToMeans(cfg, db, now, id, password, T.Authenticate(cfg, db, now, username, password))
  {
    hide LiveUser, T.OpenSession, OpensMeans;
    OpeningMeets(cfg, db.sessions, id, db.users[id].role, now);
  }

  lemma UseMeets(cfg: Settings, db: Db, now: Time, token: nat)
    ensures UseMeans(cfg, db, now, token, T.ResolveSession(cfg, db, now, token))
  {
  }

  lemma RevokeMeets(db: Db, now: Time, session: nat, reason: string)
    ensures RevokeMeans(db, now, session, reason, T.RevokeSession(db, now, session, reason))
  {
  }

  lemma ChangeMeets(cfg: Settings, db: Db, now: Time, user: nat, session: nat, current: string, replacement: string)
    ensures ChangeMeans(cfg, db, now, user, session, current, replacement,
                        T.ChangePassword(cfg, db, now, user, session, current, replacement))
  {
    hide OpenIds, IdSet, OpenOf, AnyVerifies, Latest, T.PushHistory, Recent, HistoryIs;
    OpenIdsAreOpenOf(db.sessions, user);
    if user < |db.users| {
      RecentMeets(db, user, cfg.historyCount, replacement);
      HistoryMeets(db, user, Some(cfg.historyCount),
                   T.ChangePassword(cfg, db, now, user, session, current, replacement).db);
    }
  }

  lemma RecentMeets(db: Db, user: nat, n: nat, password: string)
    requires user < |db.users|
    ensures Recent(db, user, n, password)
      <==> db.users[user].hash.Verifies(password) || AnyVerifies(Latest(db.HistoryOf(user), n), password)
  {
    var replaced := db.HistoryOf(user);
    var latest := Latest(replaced, n);
    var skipped := |replaced| - |latest|;
    if k :| 0 <= k < |latest| && latest[k].Verifies(password) {
      assert replaced[skipped + k].password == password;
    }
    if k :| 0 <= k < |replaced| && |replaced| - k <= n && replaced[k].password == password {
      assert latest[k - skipped].Verifies(password);
    }
  }

  lemma HistoryMeets(db: Db, user: nat, prune: Option<nat>, after: Db)
    requires user < |db.users|
    ensures after.history == T.PushHistory(db, user, prune) ==>
      HistoryIs(db, after, user, prune.GetOr(|db.HistoryOf(user)| + 1))
  {
    hide Latest, RowsOf, T.PushHistory;
    LatestIs(db.HistoryOf(user), db.users[user].hash, prune.GetOr(|db.HistoryOf(user)| + 1));
    forall other: nat
      ensures RowsOf(T.PushHistory(db, user, prune), other) ==
        if other == user
        then Latest(RowsOf(db.history, user) + [db.users[user].hash], prune.GetOr(|db.HistoryOf(user)| + 1))
        else RowsOf(db.history, other)
    {
      PushedRows(db, user, prune, other);
    }
  }

  lemma PushedRows(db: Db, user: nat, prune: Option<nat>, other: nat)
    requires user < |db.users|
    ensures RowsOf(T.PushHistory(db, user, prune), other) ==
      if other == user
      then Latest(RowsOf(db.history, user) + [db.users[user].hash], prune.GetOr(|db.HistoryOf(user)| + 1))
      else RowsOf(db.history, other)
  {
  }

  /** What the newest n entries are after one more has been added. */
  lemma LatestIs<X>(earlier: seq<X>, last: X, n: nat)
    ensures
      var rows := Latest(earlier + [last], n);
      && |rows| == (if |earlier| + 1 <= n then |earlier| + 1 else n)
      && (|rows| > 0 ==> rows[|rows| - 1] == last)
      && (forall k :: 0 <= k < |rows| - 1 ==> rows[k] == earlier[k + |earlier| + 1 - |rows|])
      && (n > |earlier| ==> rows == earlier + [last])
  {
  }

  lemma CreateMeets(cfg: Settings, db: Db, username: string, email: Option<string>, role: Role, status: Status,
                    password: string)
    ensures CreateMeans(cfg, db, username, email, role, status, password,
                        T.InsertUser(cfg, db, username, email, role, status, password))
  {
  }

  lemma PatchMeets(db: Db, now: Time, id: nat, email: Option<string>, role: Option<Role>, status: Option<Status>)
    ensures PatchMeans(db, now, id, email, role, status, T.UpdateUser(db, now, id, email, role, status))
  {
    hide OpenIds, IdSet, OpenOf, UsableAdmins, TwoAdmins;
    OpenIdsAreOpenOf(db.sessions, id);
    TwoAdminsMeets(db.users);
  }

  lemma TwoAdminsMeets(users: seq<User>)
    ensures TwoAdmins(users) <==> |UsableAdmins(users)| > 1
  {
    var admins := UsableAdmins(users);
    if i: nat, j: nat :| i != j && CountedAdmin(users, i) && CountedAdmin(users, j) {
      SubsetSize({i, j}, admins);
    }
    if |admins| > 1 {
      var i: nat :| i in admins;
      if admins <= {i} {
        SubsetSize(admins, {i});
      }
      var j: nat :| j in admins && j != i;
      assert CountedAdmin(users, i) && CountedAdmin(users, j);
    }
  }

  lemma ResetMeets(cfg: Settings, db: Db, now: Time, id: nat, password: string)
    ensures ResetMeans(cfg, db, now, id, password, T.ResetPassword(cfg, db, now, id, password))
  {
    hide OpenIds, IdSet, OpenOf, T.PushHistory, HistoryIs;
    OpenIdsAreOpenOf(db.sessions, id);
    if id < |db.users| {
      HistoryMeets(db, id, None, T.ResetPassword(cfg, db, now, id, password).db);
    }
  }

  lemma RevokeAllMeets(db: Db, now: Time, id: nat)
    ensures RevokeAllMeans(db, now, id, T.RevokeUserSessions(db, now, id))
  {
    hide OpenIds, IdSet, OpenOf;
    OpenIdsAreOpenOf(db.sessions, id);
  }

  /** Every step of the machine answers and stores what is said here. */
  lemma StepMeets(cfg: Settings, db: Db, e: Event)
    ensures StepMeans(cfg, db, e, Step(cfg, db, e))
  {
    hide LoginMeans, UseMeans, RevokeMeans, ChangeMeans, CreateMeans, PatchMeans, ResetMeans, RevokeAllMeans;
    hide T.Authenticate, T.ResolveSession, T.RevokeSession, T.ChangePassword, T.InsertUser, T.UpdateUser;
    hide T.ResetPassword, T.RevokeUserSessions;
    match e.action
    case Login(username, password) => LoginMeets(cfg, db, e.at, username, password);
    case Use(token) => UseMeets(cfg, db, e.at, token);
    case RevokeSession(session, reason) => RevokeMeets(db, e.at, session, reason);
    case ChangePassword(user, session, current, replacement) =>
      ChangeMeets(cfg, db, e.at, user, session, current, replacement);
    case CreateUser(username, email, role, password) =>
      CreateMeets(cfg, db, username, email, role, Pending, password);
    case CreateAdmin(username, email, password) => CreateMeets(cfg, db, username, email, Admin, Active, password);
    case UpdateUser(user, email, role, status) => PatchMeets(db, e.at, user, email, role, status);
    case UnlockUser(user) =>
    case ResetPassword(user, password) => ResetMeets(cfg, db, e.at, user, password);
    case RevokeUserSessions(user) => RevokeAllMeets(db, e.at, user);
  }

  /** Two outcomes alike to everyone: the same answer, the same rows, and the same history of every user. */
  ghost predicate Alike(a: Outcome, b: Outcome) {
    && a.reply == b.reply && a.db.users == b.db.users && a.db.sessions == b.db.sessions
    && forall u: nat :: a.db.HistoryOf(u) == b.db.HistoryOf(u)
  }

  /** Nothing is left open: whatever fits what is said here is what the step does. */
  lemma StepIsFixed(cfg: Settings, db: Db, e: Event, out: Outcome)
    requires UniqueAccounts(db.users) && StepMeans(cfg, db, e, out)
    ensures Alike(out, Step(cfg, db, e))
  {
    hide Step, LoginMeans, HistoryIs, Recent, TwoAdmins, NameFree, EmailFree, OpenOf, Known, Expired;
    StepMeets(cfg, db, e);
    match e.action
    case Login(username, password) => LoginIsFixed(cfg, db, e.at, username, password, out, Step(cfg, db, e));
    case ChangePassword(user, session, current, replacement) =>
      if user < |db.users| {
        HistoryIsFixed(db, user, cfg.historyCount, out.db, Step(cfg, db, e).db);
      }
    case ResetPassword(user, password) =>
      if user < |db.users| {
        HistoryIsFixed(db, user, |db.HistoryOf(user)| + 1, out.db, Step(cfg, db, e).db);
      }
    case _ =>
  }

  lemma LoginIsFixed(cfg: Settings, db: Db, now: Time, username: string, password: string, a: Outcome, b: Outcome)
    requires UniqueAccounts(db.users)
    requires LoginMeans(cfg, db, now, username, password, a) && LoginMeans(cfg, db, now, username, password, b)
    ensures Alike(a, b)
  {
    if id: nat :| LiveNamed(db.users, username, id) {
      assert forall j: nat :: LiveNamed(db.users, username, j) ==> j == id;
      assert LoginToMeans(cfg, db, now, id, password, a) && LoginToMeans(cfg, db, now, id, password, b);
    }
  }

  lemma HistoryIsFixed(db: Db, user: nat, n: nat, a: Db, b: Db)
    requires user < |db.users|
    ensures HistoryIs(db, a, user, n) && HistoryIs(db, b, user, n) ==>
      forall u: nat :: a.HistoryOf(u) == b.HistoryOf(u)
  {
    if HistoryIs(db, a, user, n) && HistoryIs(db, b, user, n) {
      forall u: nat ensures a.HistoryOf(u) == b.HistoryOf(u) {
        if u != user {
          assert a.HistoryOf(u) == db.HistoryOf(u);
        }
      }
    }
  }

  lemma CurrentUserMeets(cfg: Settings, db: Db, now: Time, token: Option<nat>)
    ensures CurrentUserMeans(cfg, db, now, token, T.RequireCurrentUser(cfg, db, now, token))
  {
    hide UseMeans, T.ResolveSession;
    if token.Some? {
      UseMeets(cfg, db, now, token.value);
    }
  }

  /** With authentication on and off, every answer of the gate and every refusal is the one said here. */
  lemma GateMeets(cfg: Settings, db: Db, now: Time, token: Option<nat>, roles: set<Role>)
    ensures GateMeans(cfg, db, now, token, roles, T.RequireRoles(cfg, db, now, token, roles))
  {
    hide T.ResolveSession;
    if token.Some? {
      UseMeets(cfg, db, now, token.value);
    }
  }
}
