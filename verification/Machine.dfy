/** Runs of the account machine: any interleaving of the operations. */
module Machine {
  import opened Wrappers
  import opened Accounts
  import T = Transitions

  datatype Action =
    | Login(username: string, password: string)
    | Use(token: nat)
    | RevokeSession(session: nat, reason: string)
    | ChangePassword(user: nat, session: nat, current: string, replacement: string)
    | CreateUser(username: string, email: Option<string>, role: Role, password: string)
    | CreateAdmin(username: string, email: Option<string>, password: string)
    | UpdateUser(user: nat, email: Option<string>, newRole: Option<Role>, newStatus: Option<Status>)
    | UnlockUser(user: nat)
    | ResetPassword(user: nat, password: string)
    | RevokeUserSessions(user: nat)

  datatype Event = Event(at: Time, action: Action)

  function Step(cfg: Settings, db: Db, e: Event): Outcome {
    match e.action
    case Login(username, password) => T.Authenticate(cfg, db, e.at, username, password)
    case Use(token) => T.ResolveSession(cfg, db, e.at, token)
    case RevokeSession(session, reason) => T.RevokeSession(db, e.at, session, reason)
    case ChangePassword(user, session, current, replacement) =>
      T.ChangePassword(cfg, db, e.at, user, session, current, replacement)
    case CreateUser(username, email, role, password) => T.CreateUser(cfg, db, username, email, role, password)
    case CreateAdmin(username, email, password) => T.CreateAdmin(cfg, db, username, email, password)
    case UpdateUser(user, email, role, status) => T.UpdateUser(db, e.at, user, email, role, status)
    case UnlockUser(user) => T.UnlockUser(db, user)
    case ResetPassword(user, password) => T.ResetPassword(cfg, db, e.at, user, password)
    case RevokeUserSessions(user) => T.RevokeUserSessions(db, e.at, user)
  }

  // ---- when an operation goes through ----

  /** The login names a live account that is not locked any more, and gives its password. */
  predicate MayLogIn(db: Db, now: Time, username: string, password: string) {
    var found := LiveUser(db.users, username);
    found.Some?
    && T.AutoUnlock(db.users[found.value], now).Usable()
    && db.users[found.value].hash.Verifies(password)
  }

  /** The session is open, of a usable account, and before both its expiries. */
  predicate MayUse(db: Db, now: Time, token: nat) {
    && token < |db.sessions| && db.sessions[token].Open()
    && AccountUsable(db, db.sessions[token].user)
    && now < db.sessions[token].idleExpires && now < db.sessions[token].absoluteExpires
  }

  predicate AccountUsable(db: Db, user: nat) {
    user < |db.users| && db.users[user].Usable() && !db.users[user].deleted
  }

  /** The current password is right, and the new one is strong and neither current nor recent. */
  predicate MayChange(cfg: Settings, db: Db, user: nat, current: string, replacement: string) {
    && user < |db.users|
    && db.users[user].hash.Verifies(current)
    && cfg.policy(replacement, db.users[user].username)
    && !db.users[user].hash.Verifies(replacement)
    && !AnyVerifies(Latest(db.HistoryOf(user), cfg.historyCount), replacement)
  }

  predicate MayCreate(cfg: Settings, db: Db, username: string, email: Option<string>, password: string) {
    && cfg.policy(password, username)
    && !UsernameTaken(db.users, username) && !EmailTaken(db.users, email, |db.users|)
  }

  /** The account is there, the last usable administrator stays one, and the email is free. */
  predicate MayPatch(db: Db, user: nat, email: Option<string>, role: Option<Role>, status: Option<Status>) {
    && user < |db.users| && !db.users[user].deleted
    && !(T.Demotes(db.users[user], role, status) && |UsableAdmins(db.users)| <= 1)
    && !EmailTaken(db.users, email, user)
  }

  predicate MayReset(cfg: Settings, db: Db, user: nat, password: string) {
    user < |db.users| && cfg.policy(password, db.users[user].username)
  }

  /** Whether an operation will go through, told from the state before it. */
  predicate Accepts(cfg: Settings, db: Db, e: Event) {
    match e.action
    case Login(username, password) => MayLogIn(db, e.at, username, password)
    case Use(token) => MayUse(db, e.at, token)
    case ChangePassword(user, _, current, replacement) => MayChange(cfg, db, user, current, replacement)
    case CreateUser(username, email, _, password) => MayCreate(cfg, db, username, email, password)
    case CreateAdmin(username, email, password) => MayCreate(cfg, db, username, email, password)
    case UpdateUser(user, email, role, status) => MayPatch(db, user, email, role, status)
    case UnlockUser(user) => user < |db.users|
    case ResetPassword(user, password) => MayReset(cfg, db, user, password)
    case RevokeSession(_, _) => true
    case RevokeUserSessions(_) => true
  }

  /** The answer that says it went through. */
  predicate Positive(e: Event, reply: Reply) {
    match e.action
    case Login(_, _) => reply.Granted?
    case Use(_) => reply.Granted?
    case CreateUser(_, _, _, _) => reply.Created?
    case CreateAdmin(_, _, _) => reply.Created?
    case RevokeUserSessions(_) => reply.Revoked?
    case _ => reply == Done
  }

  /**
   The answer is positive exactly when the guards say so; a refused operation leaves the tables as
   they were, a failed login and an expired session aside.
   */
  lemma AcceptedExactly(cfg: Settings, db: Db, e: Event)
    ensures Positive(e, Step(cfg, db, e).reply) <==> Accepts(cfg, db, e)
    ensures !Accepts(cfg, db, e) && !e.action.Login? && !e.action.Use? ==> Step(cfg, db, e).db == db
  {
    hide T.OpenSession, T.CountFailure, T.AdmitUser, T.PushHistory, T.Touch, T.Demotes, Revoke, OpenIds, IdSet;
    hide LiveUser, UsableAdmins, UsernameTaken, EmailTaken, AnyVerifies;
  }

  // ---- runs ----

  /** One committed transaction: what was asked, what was answered, and the state it left. */
  datatype Transition = Transition(event: Event, reply: Reply, after: Db)

  /** A start state and the transactions committed from there, in commit order. */
  datatype Run = Run(cfg: Settings, start: Db, steps: seq<Transition>)

  /** The state after the first i transactions. */
  function At(r: Run, i: nat): Db
    requires i <= |r.steps|
  {
    if i == 0 then r.start else r.steps[i - 1].after
  }

  /** Transaction i is what the operation does to the state before it. */
  ghost predicate Follows(r: Run, i: nat)
    requires i < |r.steps|
  {
    Step(r.cfg, At(r, i), r.steps[i].event) == Outcome(r.steps[i].after, r.steps[i].reply)
  }

  /** Every transaction is a step of the machine. */
  ghost predicate Valid(r: Run) {
    forall i: nat {:trigger Follows(r, i)} :: i < |r.steps| ==> Follows(r, i)
  }

  /** One clock: commit times do not decrease. */
  ghost predicate Ordered(r: Run) {
    forall i, j :: 0 <= i < j < |r.steps| ==> r.steps[i].event.at <= r.steps[j].event.at
  }

  /** The row a creation adds: the change of its password is forced, and its counter is clean. */
  function NewUser(cfg: Settings, action: Action): User
    requires action.CreateUser? || action.CreateAdmin?
  {
    var role := if action.CreateUser? then action.role else Admin;
    var status := if action.CreateUser? then Pending else Active;
    User(action.username, action.email, role, status, cfg.Hash(action.password), true, 0, None, false)
  }

  /** Accounts are only ever added by a creation. */
  lemma NewAccount(cfg: Settings, db: Db, e: Event)
    ensures
      var out := Step(cfg, db, e);
      if out.reply.Created? then
        && (e.action.CreateUser? || e.action.CreateAdmin?)
        && out.reply.user == |db.users|
        && out.db.users == db.users + [NewUser(cfg, e.action)]
      else |out.db.users| == |db.users|
  {
  }

  /** A run may go on with any step of the machine. */
  lemma ValidExtends(r: Run, t: Transition)
    requires Valid(r)
    requires Step(r.cfg, At(r, |r.steps|), t.event) == Outcome(t.after, t.reply)
    ensures Valid(r.(steps := r.steps + [t]))
  {
    hide Step;
    var longer := r.(steps := r.steps + [t]);
    forall i: nat | i < |longer.steps| ensures Follows(longer, i) {
      assert i < |r.steps| ==> Follows(r, i);
      assert At(longer, i) == At(r, i);
    }
  }

  /** Every sequence of events can be run, from every state. */
  lemma RunExists(cfg: Settings, start: Db, events: seq<Event>) returns (r: Run)
    ensures Valid(r) && r.cfg == cfg && r.start == start && |r.steps| == |events|
    ensures forall i :: 0 <= i < |events| ==> r.steps[i].event == events[i]
  {
    hide Step;
    r := Run(cfg, start, []);
    for n := 0 to |events|
      invariant r.cfg == cfg && r.start == start && |r.steps| == n
      invariant forall i :: 0 <= i < n ==> r.steps[i].event == events[i]
      invariant Valid(r)
    {
      var out := Step(cfg, At(r, n), events[n]);
      var t := Transition(events[n], out.reply, out.db);
      ValidExtends(r, t);
      r := r.(steps := r.steps + [t]);
    }
  }

  // ---- usernames and emails ----

  /** No two accounts share a username or an email. */
  ghost predicate UniqueAccounts(users: seq<User>) {
    forall i, j :: 0 <= i < j < |users| ==>
      users[i].username != users[j].username && (users[i].email == None || users[i].email != users[j].email)
  }

  /** Usernames never change; an email changes only through a PATCH that checks it, and a new row is checked. */
  ghost predicate NamesMove(before: seq<User>, e: Event, after: seq<User>) {
    && |before| <= |after| <= |before| + 1
    && (forall i :: 0 <= i < |before| ==>
          && after[i].username == before[i].username
          && (after[i].email == before[i].email
              || (e.action.UpdateUser? && e.action.user == i && after[i].email == e.action.email
                  && !EmailTaken(before, e.action.email, i))))
    && (|after| > |before| ==>
          && !e.action.UpdateUser?
          && !UsernameTaken(before, after[|before|].username)
          && !EmailTaken(before, after[|before|].email, |before|))
  }

  lemma PatchNames(db: Db, e: Event)
    requires e.action.UpdateUser?
    ensures NamesMove(db.users, e,
      T.UpdateUser(db, e.at, e.action.user, e.action.email, e.action.newRole, e.action.newStatus).db.users)
  {
    hide OpenIds, IdSet, Revoke, UsableAdmins, UsernameTaken, EmailTaken, T.Demotes;
  }

  lemma CreationNames(cfg: Settings, db: Db, e: Event)
    requires e.action.CreateUser? || e.action.CreateAdmin?
    ensures NamesMove(db.users, e, Step(cfg, db, e).db.users)
  {
    hide UsernameTaken, EmailTaken, T.Authenticate, T.ResolveSession, T.ChangePassword, T.UpdateUser, T.ResetPassword;
  }

  lemma StepNames(cfg: Settings, db: Db, e: Event)
    ensures NamesMove(db.users, e, Step(cfg, db, e).db.users)
  {
    hide OpenIds, IdSet, Revoke, T.OpenSession, T.PushHistory, T.Touch, T.InsertUser, T.UpdateUser;
    hide LiveUser, UsernameTaken, EmailTaken, AnyVerifies;
    if e.action.UpdateUser? {
      PatchNames(db, e);
    } else if e.action.CreateUser? || e.action.CreateAdmin? {
      CreationNames(cfg, db, e);
    }
  }

  lemma StepKeepsUnique(cfg: Settings, db: Db, e: Event)
    requires UniqueAccounts(db.users)
    ensures UniqueAccounts(Step(cfg, db, e).db.users)
  {
    hide Step;
    StepNames(cfg, db, e);
  }

  /** In every run usernames and emails stay unique. */
  lemma {:induction false} AccountsStayUnique(r: Run, n: nat)
    requires Valid(r) && n <= |r.steps| && UniqueAccounts(r.start.users)
    ensures UniqueAccounts(At(r, n).users)
  {
    hide Step;
    if n > 0 {
      AccountsStayUnique(r, n - 1);
      assert Follows(r, n - 1);
      StepKeepsUnique(r.cfg, At(r, n - 1), r.steps[n - 1].event);
    }
  }

  /** So a login looks up the one live account of its name, if there is one. */
  lemma LookupIsExact(users: seq<User>, username: string, user: nat)
    requires UniqueAccounts(users)
    ensures LiveUser(users, username) == Some(user)
      <==> user < |users| && users[user].username == username && !users[user].deleted
  {
  }
}
