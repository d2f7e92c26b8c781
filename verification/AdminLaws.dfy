/** What every run guarantees about administrators, and what the request gate guarantees. */
module AdminLaws {
  import opened Wrappers
  import opened Accounts
  import opened Machine
  import opened PasswordLaws
  import opened LockoutLaws
  import opened SessionLaws
  import T = Transitions

  // ---- an administrator always remains ----

  predicate StandingAdmin(user: User) {
    user.role == Admin && user.status != Disabled && !user.deleted
  }

  ghost predicate SomeAdminStands(db: Db) {
    exists u :: 0 <= u < |db.users| && StandingAdmin(db.users[u])
  }

  /** The guard's count of ACTIVE and PENDING administrators vouches for one besides the target. */
  lemma AnotherUsableAdmin(users: seq<User>, target: nat) returns (other: nat)
    requires |UsableAdmins(users)| >= 2
    ensures other < |users| && other != target
    ensures StandingAdmin(users[other]) && users[other].Usable()
  {
    var admins := UsableAdmins(users);
    if admins <= {target} {
      SubsetSize(admins, {target});
    }
    other :| other in admins && other != target;
  }

  /** Every account keeps its role, its deletion mark, and its not being disabled, except under a PATCH. */
  lemma StepKeepsStanding(cfg: Settings, db: Db, e: Event, user: nat)
    requires user < |db.users| && StandingAdmin(db.users[user])
    requires !(e.action.UpdateUser? && e.action.user == user)
    ensures user < |Step(cfg, db, e).db.users| && StandingAdmin(Step(cfg, db, e).db.users[user])
  {
    hide OpenIds, IdSet, Revoke, T.OpenSession, T.PushHistory, T.Touch, T.Demotes;
    hide LiveUser, UsableAdmins, UsernameTaken, EmailTaken, AnyVerifies;
  }

  lemma StepKeepsAnAdmin(cfg: Settings, db: Db, e: Event)
    requires SomeAdminStands(db)
    ensures SomeAdminStands(Step(cfg, db, e).db)
  {
    var admin: nat :| admin < |db.users| && StandingAdmin(db.users[admin]);
    if e.action.UpdateUser? && e.action.user == admin {
      var after := Step(cfg, db, e).db.users;
      if T.Demotes(db.users[admin], e.action.newRole, e.action.newStatus) && |UsableAdmins(db.users)| > 1 {
        var other := AnotherUsableAdmin(db.users, admin);
        assert StandingAdmin(after[other]);
      } else {
        assert StandingAdmin(after[admin]);
      }
    } else {
      hide Step;
      StepKeepsStanding(cfg, db, e, admin);
      assert StandingAdmin(Step(cfg, db, e).db.users[admin]);
    }
  }

  /** From a state with a non-deleted administrator that is not DISABLED, every run keeps one. */
  lemma {:induction false} AnAdminRemains(r: Run, n: nat)
    requires Valid(r) && n <= |r.steps|
    requires SomeAdminStands(r.start)
    ensures SomeAdminStands(At(r, n))
    decreases n
  {
    hide Step, SomeAdminStands;
    if n > 0 {
      AnAdminRemains(r, n - 1);
      assert Follows(r, n - 1);
      StepKeepsAnAdmin(r.cfg, At(r, n - 1), r.steps[n - 1].event);
    }
  }

  /**
   A PATCH keeps an ACTIVE or PENDING administrator exactly when it does not lock the only one: the
   guard covers demotion and disabling, not the status LOCKED.
   */
  lemma PatchKeepsUsableAdmin(db: Db, now: Time, user: nat, email: Option<string>,
                              role: Option<Role>, status: Option<Status>)
    requires UsableAdmins(db.users) != {}
    ensures UsableAdmins(T.UpdateUser(db, now, user, email, role, status).db.users) != {}
      <==> !(UsableAdmins(db.users) == {user} && status == Some(Locked) && MayPatch(db, user, email, role, status))
  {
    hide OpenIds, Revoke, EmailTaken;
    var before := UsableAdmins(db.users);
    var after := UsableAdmins(T.UpdateUser(db, now, user, email, role, status).db.users);
    if !MayPatch(db, user, email, role, status) {
      assert after == before;
    } else if before == {user} {
      assert !T.Demotes(db.users[user], role, status);
      if status == Some(Locked) {
        assert after <= before - {user};
      } else {
        assert user in after;
      }
    } else {
      var other: nat :| other in before && other != user;
      assert other in after;
    }
  }

  /** A login takes the last ACTIVE or PENDING administrator only by a wrong password at the threshold. */
  lemma LoginKeepsUsableAdmin(cfg: Settings, db: Db, now: Time, username: string, password: string)
    requires UsableAdmins(db.users) != {}
    ensures UsableAdmins(T.Authenticate(cfg, db, now, username, password).db.users) != {}
      <==> !exists user: nat :: FinalFailure(cfg, db, now, username, password, user) && UsableAdmins(db.users) == {user}
  {
    hide OpenIds, Revoke, T.OpenSession, LiveUser;
    var before := UsableAdmins(db.users);
    var after := UsableAdmins(T.Authenticate(cfg, db, now, username, password).db.users);
    var found := LiveUser(db.users, username);
    if found.Some? && FinalFailure(cfg, db, now, username, password, found.value) {
      if before == {found.value} {
        assert after <= before - {found.value};
      } else {
        var user: nat :| user in before && user != found.value;
        assert user in after;
      }
    } else {
      var user: nat :| user in before;
      assert user in after;
    }
  }

  /**
   Some administrator is ACTIVE or PENDING after a step exactly when the step does not lock the only one
   that was, by a PATCH or by a wrong password; what locks it can be told before the step.
   */
  lemma StepKeepsUsableAdmin(cfg: Settings, db: Db, e: Event)
    requires UsableAdmins(db.users) != {}
    ensures UsableAdmins(Step(cfg, db, e).db.users) != {}
      <==> !exists user: nat :: LocksOut(cfg, db, e, user) && UsableAdmins(db.users) == {user}
  {
    match e.action
    case UpdateUser(target, email, role, status) =>
      hide T.UpdateUser, UsableAdmins, MayPatch;
      PatchKeepsUsableAdmin(db, e.at, target, email, role, status);
    case Login(username, password) =>
      hide T.Authenticate, UsableAdmins, FinalFailure;
      LoginKeepsUsableAdmin(cfg, db, e.at, username, password);
      forall user: nat ensures LocksOut(cfg, db, e, user) == FinalFailure(cfg, db, e.at, username, password, user) {}
    case _ =>
      OtherStepKeepsUsableAdmin(cfg, db, e);
  }

  lemma OtherStepKeepsUsableAdmin(cfg: Settings, db: Db, e: Event)
    requires UsableAdmins(db.users) != {} && !e.action.Login? && !e.action.UpdateUser?
    ensures UsableAdmins(Step(cfg, db, e).db.users) != {}
  {
    hide OpenIds, Revoke, T.PushHistory, AnyVerifies, UsernameTaken, EmailTaken, T.Touch, T.Authenticate, T.UpdateUser;
    var user: nat :| user in UsableAdmins(db.users);
    assert user in UsableAdmins(Step(cfg, db, e).db.users);
  }

  // ---- an administrator that can log in ----

  /** The non-deleted administrators that may log in at this time: a lock that has run out is no obstacle. */
  function LoginAdmins(users: seq<User>, now: Time): (ids: set<nat>)
    ensures forall i: nat :: i in ids <==>
      i < |users| && users[i].role == Admin && T.AutoUnlock(users[i], now).Usable() && !users[i].deleted
  {
    set i: nat | i < |users| && users[i].role == Admin && T.AutoUnlock(users[i], now).Usable() && !users[i].deleted
  }

  /** These are the administrators whose own name and password let them in. */
  lemma LoginAdminsMayLogIn(db: Db, now: Time, user: nat)
    requires UniqueAccounts(db.users)
    ensures user in LoginAdmins(db.users, now) <==>
      && user < |db.users| && db.users[user].role == Admin && !db.users[user].deleted
      && MayLogIn(db, now, db.users[user].username, db.users[user].hash.password)
  {
    hide LiveUser;
    if user < |db.users| {
      LookupIsExact(db.users, db.users[user].username, user);
    }
  }

  /** The guard's count never misses an administrator it protects: whoever is counted may log in. */
  lemma UsableMayLogIn(users: seq<User>, now: Time)
    ensures UsableAdmins(users) <= LoginAdmins(users, now)
  {
  }

  /** The PATCH will keep this account from logging in at time t. */
  predicate PatchShutsOut(db: Db, user: nat, email: Option<string>, role: Option<Role>, status: Option<Status>,
                          t: Time)
  {
    && status == Some(Locked) && MayPatch(db, user, email, role, status)
    && (db.users[user].lockedUntil.None? || t < db.users[user].lockedUntil.value)
  }

  /** The step will keep this account from logging in at time t. */
  predicate ShutsOut(cfg: Settings, db: Db, e: Event, user: nat, t: Time) {
    match e.action
    case Login(username, password) =>
      FinalFailure(cfg, db, e.at, username, password, user) && t < e.at + cfg.LockPeriod()
    case UpdateUser(target, email, role, status) => target == user && PatchShutsOut(db, user, email, role, status, t)
    case _ => false
  }

  lemma PatchKeepsLoginAdmin(db: Db, now: Time, user: nat, email: Option<string>,
                             role: Option<Role>, status: Option<Status>, t: Time)
    requires LoginAdmins(db.users, t) != {}
    ensures LoginAdmins(T.UpdateUser(db, now, user, email, role, status).db.users, t) != {}
      <==> !(LoginAdmins(db.users, t) == {user} && PatchShutsOut(db, user, email, role, status, t))
  {
    hide OpenIds, Revoke, EmailTaken;
    var before := LoginAdmins(db.users, t);
    var after := LoginAdmins(T.UpdateUser(db, now, user, email, role, status).db.users, t);
    UsableMayLogIn(db.users, t);
    if !MayPatch(db, user, email, role, status) {
      assert after == before;
    } else if before == {user} {
      SubsetSize(UsableAdmins(db.users), {user});
      assert !T.Demotes(db.users[user], role, status);
      if PatchShutsOut(db, user, email, role, status, t) {
        assert after <= before - {user};
      } else {
        assert user in after;
      }
    } else {
      var other: nat :| other in before && other != user;
      assert other in after;
    }
  }

  lemma LoginKeepsLoginAdmin(cfg: Settings, db: Db, now: Time, username: string, password: string, t: Time)
    requires LoginAdmins(db.users, t) != {} && now <= t
    ensures LoginAdmins(T.Authenticate(cfg, db, now, username, password).db.users, t) != {}
      <==> !exists user: nat :: LoginAdmins(db.users, t) == {user}
             && FinalFailure(cfg, db, now, username, password, user) && t < now + cfg.LockPeriod()
  {
    hide OpenIds, IdSet, Revoke, T.OpenSession, LiveUser, UsableAdmins;
    var before := LoginAdmins(db.users, t);
    var after := LoginAdmins(T.Authenticate(cfg, db, now, username, password).db.users, t);
    var found := LiveUser(db.users, username);
    if found.Some? && FinalFailure(cfg, db, now, username, password, found.value) && t < now + cfg.LockPeriod() {
      if before == {found.value} {
        assert after <= before - {found.value};
      } else {
        var user: nat :| user in before && user != found.value;
        assert user in after;
      }
    } else {
      var user: nat :| user in before;
      assert user in after;
    }
  }

  /**
   Some administrator may log in at time t, as far as a step decides it, exactly when the step does not
   shut out the only one that could: by a wrong password at the threshold, for the lock period, or by a
   PATCH to LOCKED, for as long as an old lock end says or else for good.
   */
  lemma StepKeepsLoginAdmin(cfg: Settings, db: Db, e: Event, t: Time)
    requires LoginAdmins(db.users, t) != {} && e.at <= t
    ensures LoginAdmins(Step(cfg, db, e).db.users, t) != {}
      <==> !exists user: nat :: LoginAdmins(db.users, t) == {user} && ShutsOut(cfg, db, e, user, t)
  {
    match e.action
    case UpdateUser(target, email, role, status) =>
      hide T.UpdateUser, LoginAdmins, PatchShutsOut;
      PatchKeepsLoginAdmin(db, e.at, target, email, role, status, t);
    case Login(username, password) =>
      hide T.Authenticate, LoginAdmins, FinalFailure;
      LoginKeepsLoginAdmin(cfg, db, e.at, username, password, t);
    case _ =>
      OtherStepKeepsLoginAdmin(cfg, db, e, t);
  }

  lemma OtherStepKeepsLoginAdmin(cfg: Settings, db: Db, e: Event, t: Time)
    requires LoginAdmins(db.users, t) != {} && !e.action.Login? && !e.action.UpdateUser?
    ensures LoginAdmins(Step(cfg, db, e).db.users, t) != {}
  {
    hide Step;
    var user: nat :| user in LoginAdmins(db.users, t);
    OnlyLoginsGuess(cfg, db, e, user);
    StepLock(cfg, db, e, user);
    StepKeepsStanding(cfg, db, e, user);
    assert user in LoginAdmins(Step(cfg, db, e).db.users, t);
  }

  // ---- the role gate ----

  /** Whether a user still owes a password change after a step. */
  lemma StepMustChange(cfg: Settings, db: Db, e: Event, user: nat)
    requires user < |Step(cfg, db, e).db.users|
    ensures
      var reply := Step(cfg, db, e).reply;
      var imposed := Resets(e, reply, user) || Creates(e, reply, user);
      && (user >= |db.users| ==> imposed)
      && Step(cfg, db, e).db.users[user].mustChange
         == if Changes(e, reply, user) then false
            else if imposed then true
            else db.users[user].mustChange
  {
    hide OpenIds, IdSet, Revoke, T.OpenSession, T.PushHistory, T.Touch, T.Demotes;
    hide LiveUser, UsableAdmins, UsernameTaken, EmailTaken, AnyVerifies;
  }

  /** The latest create, reset or change of the user in the first n transactions is a change. */
  ghost predicate LatestIsChange(r: Run, user: nat, n: nat)
    requires n <= |r.steps|
  {
    n > 0 &&
    var t := r.steps[n - 1];
    || Changes(t.event, t.reply, user)
    || (!Resets(t.event, t.reply, user) && !Creates(t.event, t.reply, user) && LatestIsChange(r, user, n - 1))
  }

  /** No create, reset or change of the user in the first n transactions. */
  ghost predicate NoPasswordEvent(r: Run, user: nat, n: nat)
    requires n <= |r.steps|
  {
    forall i :: 0 <= i < n ==>
      var t := r.steps[i];
      !Changes(t.event, t.reply, user) && !Resets(t.event, t.reply, user) && !Creates(t.event, t.reply, user)
  }

  /**
   The user's password is one the user chose: the latest event that set it is a change, or nothing
   has set it in this run and the run started with no change owed.
   */
  ghost predicate OwnPassword(r: Run, user: nat, n: nat)
    requires n <= |r.steps|
  {
    || LatestIsChange(r, user, n)
    || (NoPasswordEvent(r, user, n) && user < |r.start.users| && !r.start.users[user].mustChange)
  }

  /** From every start, a user may go on without a password change exactly when the password is the user's own. */
  lemma {:induction false} MustChangeFollowsEvents(r: Run, user: nat, n: nat)
    requires Valid(r) && n <= |r.steps| && user < |At(r, n).users|
    ensures !At(r, n).users[user].mustChange <==> OwnPassword(r, user, n)
    decreases n
  {
    hide Step, Changes, Resets, Creates;
    if n > 0 {
      assert Follows(r, n - 1);
      StepMustChange(r.cfg, At(r, n - 1), r.steps[n - 1].event, user);
      if user < |At(r, n - 1).users| {
        MustChangeFollowsEvents(r, user, n - 1);
      }
    }
  }

  /** The role the user was created with, or the latest a PATCH gave; otherwise that of the start. */
  ghost function LatestRole(r: Run, user: nat, n: nat): Option<Role>
    requires n <= |r.steps|
  {
    if n == 0 then if user < |r.start.users| then Some(r.start.users[user].role) else None
    else
      var t := r.steps[n - 1];
      match t.event.action
      case CreateUser(_, _, role, _) => if t.reply == Created(user) then Some(role) else LatestRole(r, user, n - 1)
      case CreateAdmin(_, _, _) => if t.reply == Created(user) then Some(Admin) else LatestRole(r, user, n - 1)
      case UpdateUser(target, _, Some(role), _) =>
        if target == user && t.reply == Done then Some(role) else LatestRole(r, user, n - 1)
      case _ => LatestRole(r, user, n - 1)
  }

  lemma StepRole(cfg: Settings, db: Db, e: Event, user: nat)
    requires user < |db.users|
    ensures user < |Step(cfg, db, e).db.users|
    ensures
      var out := Step(cfg, db, e);
      var patched := e.action.UpdateUser? && e.action.user == user && e.action.newRole.Some? && out.reply == Done;
      out.db.users[user].role == if patched then e.action.newRole.value else db.users[user].role
  {
    hide OpenIds, IdSet, Revoke, T.OpenSession, T.PushHistory, T.Touch, T.Demotes;
    hide LiveUser, UsableAdmins, UsernameTaken, EmailTaken, AnyVerifies;
  }

  /** Roles move with the events that name them, and with nothing else. */
  lemma {:induction false} RoleFollowsEvents(r: Run, user: nat, n: nat)
    requires Valid(r) && n <= |r.steps|
    ensures LatestRole(r, user, n)
      == if user < |At(r, n).users| then Some(At(r, n).users[user].role) else None
    decreases n
  {
    hide Step;
    if n > 0 {
      RoleFollowsEvents(r, user, n - 1);
      assert Follows(r, n - 1);
      NewAccount(r.cfg, At(r, n - 1), r.steps[n - 1].event);
      if user < |At(r, n - 1).users| {
        StepRole(r.cfg, At(r, n - 1), r.steps[n - 1].event, user);
      }
      PatchNeedsAccount(r.cfg, At(r, n - 1), r.steps[n - 1].event);
    }
  }

  /** A login reports the user's role of that moment, which is the latest one given. */
  lemma LoginReportsRole(r: Run, k: nat, user: nat, session: nat)
    requires Valid(r) && k < |r.steps| && Issues(r.steps[k], user, session)
    ensures user < |At(r, k).users| && r.steps[k].reply.context.role == At(r, k).users[user].role
    ensures LatestRole(r, user, k) == Some(r.steps[k].reply.context.role)
    ensures r.steps[k].reply.context.mustChange == At(r, k).users[user].mustChange
  {
    hide LatestRole, T.OpenSession;
    assert Follows(r, k);
    RoleFollowsEvents(r, user, k);
  }

  /** And by that role, whatever becomes of it, the session ends: no use is accepted from then on. */
  lemma LifetimeFollowsRole(r: Run, k: nat, j: nat, user: nat, session: nat, now: Time)
    requires Valid(r) && k < j <= |r.steps| && Issues(r.steps[k], user, session)
    ensures
      var hours := if LatestRole(r, user, k) == Some(Admin) then r.cfg.adminAbsoluteHours else r.cfg.absoluteHours;
      MayUse(At(r, j), now, session) ==> now < r.steps[k].event.at + hours * 3_600_000_000
  {
    hide Step, LatestRole;
    LoginReportsRole(r, k, user, session);
    LoginRow(r, k, user, session);
    RunEvolves(r, k + 1, j);
  }

  lemma PatchNeedsAccount(cfg: Settings, db: Db, e: Event)
    ensures e.action.UpdateUser? && Step(cfg, db, e).reply == Done ==> e.action.user < |db.users|
  {
  }

  /** To the stored state a gate check is a use of the session, whether it passes or is refused. */
  lemma GateIsAUse(cfg: Settings, db: Db, now: Time, token: Option<nat>, roles: set<Role>)
    ensures T.RequireRoles(cfg, db, now, token, roles).db
      == if cfg.authEnabled && token.Some? then Step(cfg, db, Event(now, Use(token.value))).db else db
  {
  }

  /**
   The gate over runs, from every start: with authentication on, a role-gated request passes exactly
   through an open and unexpired session of a usable account whose password is the user's own choice and
   whose latest role, whatever it was at login, is one of those asked for.
   */
  lemma GateNeedsOwnPassword(r: Run, n: nat, now: Time, token: Option<nat>, roles: set<Role>)
    requires Valid(r) && n <= |r.steps| && r.cfg.authEnabled
    ensures
      var db := At(r, n);
      var reply := T.RequireRoles(r.cfg, db, now, token, roles).reply;
      && (reply.Granted? <==>
            && token.Some? && MayUse(db, now, token.value)
            && var user := db.sessions[token.value].user;
               OwnPassword(r, user, n) && LatestRole(r, user, n).Some? && LatestRole(r, user, n).value in roles)
      && (reply.Granted? ==>
            var user := db.sessions[token.value].user;
            reply.context == AuthContext(user, token.value, LatestRole(r, user, n).value, false))
  {
    hide OwnPassword, LatestRole, Revoke;
    if token.Some? && MayUse(At(r, n), now, token.value) {
      var user := At(r, n).sessions[token.value].user;
      MustChangeFollowsEvents(r, user, n);
      RoleFollowsEvents(r, user, n);
    }
  }
}
