/** The command line: setting up an administrator. */
module Cli {
  import opened Wrappers
  import opened Accounts
  import opened Store
  import opened Machine
  import T = Transitions
  import Effects

  /** Adds an active administrator who must change the password; nobody who is there is touched. */
  method CreateAdmin(db: Database, cfg: Settings, username: string, email: Option<string>, password: string)
    returns (reply: Reply)
    modifies db`users
    ensures Outcome(db.Snapshot(), reply) == T.CreateAdmin(cfg, old(db.Snapshot()), username, email, password)
    ensures reply.Created? <==> MayCreate(cfg, old(db.Snapshot()), username, email, password)
    ensures reply.Created? ==>
      && reply.user == |old(db.users)| && |db.users| == reply.user + 1 && db.users[..reply.user] == old(db.users)
      && db.users[reply.user].role == Admin && db.users[reply.user].Usable() && db.users[reply.user].mustChange
    ensures !reply.Created? ==> db.users == old(db.users)
    ensures Effects.CreateMeans(
      cfg, old(db.Snapshot()), username, email, Admin, Active, password, Outcome(db.Snapshot(), reply))
  {
    Effects.CreateMeets(cfg, Db(db.users, db.sessions, db.history), username, email, Admin, Active, password);
    hide Effects.CreateMeans;
    if !cfg.policy(password, username) {
      return Failed(WeakPassword);
    }
    var id := |db.users|;
    if UsernameTaken(db.users, username) || EmailTaken(db.users, email, id) {
      return Failed(Duplicate);
    }
    db.users := db.users + [User(username, email, Admin, Active, cfg.Hash(password), true, 0, None, false)];
    return Created(id);
  }
}
