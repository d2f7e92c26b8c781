/** What administrators do to accounts. */
module AdminUsers {
  import opened Wrappers
  import opened Accounts
  import opened Store
  import opened Machine
  import T = Transitions
  import Effects

  method CreateUser(db: Database, cfg: Settings, username: string, email: Option<string>,
                    role: Role, password: string) returns (reply: Reply)
    modifies db`users
    ensures Outcome(db.Snapshot(), reply) == T.CreateUser(cfg, old(db.Snapshot()), username, email, role, password)
    ensures reply.Created? <==> MayCreate(cfg, old(db.Snapshot()), username, email, password)
    ensures reply.Created? ==>
      && reply.user == |old(db.users)| && |db.users| == reply.user + 1 && db.users[..reply.user] == old(db.users)
      && db.users[reply.user].status == Pending && db.users[reply.user].mustChange
      && db.users[reply.user].hash.Verifies(password)
    ensures !reply.Created? ==> db.users == old(db.users)
    ensures Effects.CreateMeans(
      cfg, old(db.Snapshot()), username, email, role, Pending, password, Outcome(db.Snapshot(), reply))
  {
    Effects.CreateMeets(cfg, Db(db.users, db.sessions, db.history), username, email, role, Pending, password);
    hide Effects.CreateMeans;
    hide UsernameTaken, EmailTaken;
    if !cfg.policy(password, username) {
      return Failed(WeakPassword);
    }
    var id := |db.users|;
    if UsernameTaken(db.users, username) || EmailTaken(db.users, email, id) {
      return Failed(Duplicate);
    }
    db.users := db.users + [User(username, email, role, Pending, cfg.Hash(password), true, 0, None, false)];
    return Created(id);
  }

  /** What a caller learns from the answer to a PATCH. */
  lemma PatchFacts(db: Db, now: Time, id: nat, email: Option<string>, role: Option<Role>, status: Option<Status>)
    ensures
      var out := T.UpdateUser(db, now, id, email, role, status);
      && (out.reply == Done <==> MayPatch(db, id, email, role, status))
      && |out.db.users| == |db.users|
      && (forall u :: 0 <= u < |db.users| && u != id ==> out.db.users[u] == db.users[u])
      && (out.reply == Done && status == Some(Disabled) ==> OpenIds(out.db.sessions, id) == [])
      && (out.reply != Done ==> out.db == db)
  {
    hide OpenIds, IdSet, Revoke, UsableAdmins, EmailTaken;
    NoneLeftOpen(db.sessions, id, now, "ACCOUNT_DISABLED");
  }

  method UpdateUser(db: Database, now: Time, id: nat, email: Option<string>,
                    role: Option<Role>, status: Option<Status>) returns (reply: Reply)
    modifies db`users, db`sessions
    ensures Outcome(db.Snapshot(), reply) == T.UpdateUser(old(db.Snapshot()), now, id, email, role, status)
    ensures reply == Done <==> MayPatch(old(db.Snapshot()), id, email, role, status)
    ensures |db.users| == |old(db.users)|
    ensures forall u :: 0 <= u < |db.users| && u != id ==> db.users[u] == old(db.users)[u]
    ensures reply == Done && status == Some(Disabled) ==> OpenIds(db.sessions, id) == []
    ensures reply != Done ==> db.Snapshot() == old(db.Snapshot())
    ensures Effects.PatchMeans(old(db.Snapshot()), now, id, email, role, status, Outcome(db.Snapshot(), reply))
  {
    Effects.PatchMeets(Db(db.users, db.sessions, db.history), now, id, email, role, status);
    PatchFacts(Db(db.users, db.sessions, db.history), now, id, email, role, status);
    hide Effects.PatchMeans, MayPatch;
    hide OpenIds, IdSet, Revoke, UsableAdmins, EmailTaken;
    if id >= |db.users| || db.users[id].deleted {
      return Failed(UserNotFound);
    }
    var user := db.users[id];
    if user.role == Admin && (role !in {None, Some(Admin)} || status == Some(Disabled)) {
      var count := |UsableAdmins(db.users)|;
      if count <= 1 {
        return Failed(LastAdminProtected);
      }
    }
    if EmailTaken(db.users, email, id) {
      return Failed(UniqueViolation);
    }
    db.users := db.users[id := user.(
      email := if email.Some? then email else user.email,
      role := role.GetOr(user.role),
      status := status.GetOr(user.status))];
    if status == Some(Disabled) {
      db.sessions := Revoke(db.sessions, IdSet(OpenIds(db.sessions, id)), now, "ACCOUNT_DISABLED");
    }
    return Done;
  }

  method UnlockUser(db: Database, id: nat) returns (reply: Reply)
    modifies db`users
    ensures Outcome(db.Snapshot(), reply) == T.UnlockUser(old(db.Snapshot()), id)
    ensures reply == Done <==> id < |old(db.users)|
    ensures reply == Done ==>
      && |db.users| == |old(db.users)|
      && db.users[id].Usable() && db.users[id].failures == 0 && db.users[id].lockedUntil == None
      && db.users[id].hash == old(db.users)[id].hash && db.users[id].mustChange == old(db.users)[id].mustChange
      && forall u :: 0 <= u < |db.users| && u != id ==> db.users[u] == old(db.users)[u]
    ensures reply != Done ==> db.users == old(db.users)
    ensures Effects.UnlockMeans(old(db.Snapshot()), id, Outcome(db.Snapshot(), reply))
  {
    if id >= |db.users| {
      return Failed(UserNotFound);
    }
    db.users := db.users[id := db.users[id].(status := Active, failures := 0, lockedUntil := None)];
    return Done;
  }

  method ResetPassword(db: Database, cfg: Settings, now: Time, id: nat, password: string) returns (reply: Reply)
    modifies db
    ensures Outcome(db.Snapshot(), reply) == T.ResetPassword(cfg, old(db.Snapshot()), now, id, password)
    ensures reply == Done <==> MayReset(cfg, old(db.Snapshot()), id, password)
    ensures reply == Done ==>
      && |db.users| == |old(db.users)| && db.users[id].hash.Verifies(password) && db.users[id].mustChange
      && RowsOf(db.history, id) == RowsOf(old(db.history), id) + [old(db.users)[id].hash]
      && OpenIds(db.sessions, id) == []
    ensures reply != Done ==> db.Snapshot() == old(db.Snapshot())
    ensures Effects.ResetMeans(cfg, old(db.Snapshot()), now, id, password, Outcome(db.Snapshot(), reply))
  {
    Effects.ResetMeets(cfg, Db(db.users, db.sessions, db.history), now, id, password);
    hide Effects.ResetMeans;
    hide OpenIds, IdSet, Revoke;
    if id >= |db.users| {
      return Failed(UserNotFound);
    }
    var user := db.users[id];
    if !cfg.policy(password, user.username) {
      return Failed(WeakPassword);
    }
    db.history := db.history[id := RowsOf(db.history, id) + [user.hash]];
    db.users := db.users[id := user.(hash := cfg.Hash(password), mustChange := true)];
    NoneLeftOpen(db.sessions, id, now, "PASSWORD_RESET");
    db.sessions := Revoke(db.sessions, IdSet(OpenIds(db.sessions, id)), now, "PASSWORD_RESET");
    return Done;
  }

  method RevokeUserSessions(db: Database, now: Time, id: nat) returns (reply: Reply)
    modifies db`sessions
    ensures Outcome(db.Snapshot(), reply) == T.RevokeUserSessions(old(db.Snapshot()), now, id)
    ensures reply == Revoked(|OpenIds(old(db.sessions), id)|) && OpenIds(db.sessions, id) == []
    ensures Effects.RevokeAllMeans(old(db.Snapshot()), now, id, Outcome(db.Snapshot(), reply))
  {
    Effects.RevokeAllMeets(Db(db.users, db.sessions, db.history), now, id);
    hide Effects.RevokeAllMeans;
    hide OpenIds, IdSet, Revoke;
    var open := OpenIds(db.sessions, id);
    NoneLeftOpen(db.sessions, id, now, "ADMIN_REVOKED");
    db.sessions := Revoke(db.sessions, IdSet(open), now, "ADMIN_REVOKED");
    return Revoked(|open|);
  }
}
