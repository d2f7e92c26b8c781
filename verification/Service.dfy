/** Every request of a run, carried out on the tables. */
module Service {
  import opened Accounts
  import opened Machine
  import opened Store
  import AuthService
  import AdminUsers
  import Cli
  import T = Transitions
  import Effects

  predicate ForAdministrators(action: Action) {
    || action.CreateUser? || action.UpdateUser? || action.UnlockUser?
    || action.ResetPassword? || action.RevokeUserSessions?
  }

  /** The administrators' operations on accounts. */
  method Administer(db: Database, cfg: Settings, e: Event) returns (reply: Reply)
    requires ForAdministrators(e.action)
    modifies db
    ensures Outcome(db.Snapshot(), reply) == Step(cfg, old(db.Snapshot()), e)
  {
    hide T.CreateUser, T.UpdateUser, T.UnlockUser, T.ResetPassword, T.RevokeUserSessions;
    hide Effects.CreateMeans, Effects.PatchMeans, Effects.UnlockMeans, Effects.ResetMeans, Effects.RevokeAllMeans;
    hide MayCreate, MayPatch, MayReset, OpenIds, RowsOf;
    match e.action
    case CreateUser(username, email, role, password) =>
      reply := AdminUsers.CreateUser(db, cfg, username, email, role, password);
    case UpdateUser(user, email, role, status) => reply := AdminUsers.UpdateUser(db, e.at, user, email, role, status);
    case UnlockUser(user) => reply := AdminUsers.UnlockUser(db, user);
    case ResetPassword(user, password) => reply := AdminUsers.ResetPassword(db, cfg, e.at, user, password);
    case RevokeUserSessions(user) => reply := AdminUsers.RevokeUserSessions(db, e.at, user);
  }

  /**
   Whatever the event, the operation that serves it makes exactly the step of the machine, and
   the guards on the state before it decide whether the answer is positive.
   */
  method Serve(db: Database, cfg: Settings, e: Event) returns (reply: Reply)
    modifies db
    ensures Outcome(db.Snapshot(), reply) == Step(cfg, old(db.Snapshot()), e)
    ensures Positive(e, reply) <==> Accepts(cfg, old(db.Snapshot()), e)
    ensures Effects.StepMeans(cfg, old(db.Snapshot()), e, Outcome(db.Snapshot(), reply))
  {
    Effects.StepMeets(cfg, Db(db.users, db.sessions, db.history), e);
    hide Effects.StepMeans;
    hide Accepts, Positive;
    AcceptedExactly(cfg, Db(db.users, db.sessions, db.history), e);
    hide T.Authenticate, T.ResolveSession, T.RevokeSession, T.ChangePassword, T.CreateAdmin;
    hide Effects.LoginMeans, Effects.UseMeans, Effects.RevokeMeans, Effects.ChangeMeans, Effects.CreateMeans;
    match e.action
    case Login(username, password) => reply := AuthService.Authenticate(db, cfg, e.at, username, password);
    case Use(token) => reply := AuthService.ResolveSession(db, cfg, e.at, token);
    case RevokeSession(session, reason) => reply := AuthService.RevokeSession(db, e.at, session, reason);
    case ChangePassword(user, session, current, replacement) =>
      var context := AuthContext(user, session, Viewer, false);
      reply := AuthService.ChangePassword(db, cfg, e.at, context, current, replacement);
    case CreateAdmin(username, email, password) => reply := Cli.CreateAdmin(db, cfg, username, email, password);
    case _ =>
      hide Step;
      reply := Administer(db, cfg, e);
  }

  /** Serving events one after the other on the tables makes a run of the machine. */
  method ServeAll(db: Database, cfg: Settings, events: seq<Event>) returns (run: Run)
    modifies db
    ensures Valid(run) && run.cfg == cfg && run.start == old(db.Snapshot()) && |run.steps| == |events|
    ensures forall i :: 0 <= i < |events| ==> run.steps[i].event == events[i]
    ensures At(run, |events|) == db.Snapshot()
  {
    hide Step, Accepts, Positive, Effects.StepMeans;
    run := Run(cfg, Db(db.users, db.sessions, db.history), []);
    for n := 0 to |events|
      invariant run.cfg == cfg && run.start == old(db.Snapshot()) && |run.steps| == n
      invariant forall i :: 0 <= i < n ==> run.steps[i].event == events[i]
      invariant Valid(run) && At(run, n) == db.Snapshot()
    {
      var reply := Serve(db, cfg, events[n]);
      var t := Transition(events[n], reply, Db(db.users, db.sessions, db.history));
      ValidExtends(run, t);
      run := run.(steps := run.steps + [t]);
    }
  }
}
