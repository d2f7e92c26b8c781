/** Runs, from an empty database, in which the code does not do what its documents say. */
module Witnesses {
  import opened Wrappers
  import opened Accounts
  import opened Machine
  import opened SessionLaws
  import opened LockoutLaws
  import opened AdminLaws
  import T = Transitions

  const EMPTY: Db := Db([], [], map[])

  /** The settings as they come, with authentication on, and any password policy. */
  function Defaults(policy: (string, string) -> bool): Settings {
    Settings(true, 30, 8, 4, 5, 5, 15, 5, 0, policy)
  }

  function Setup(password: string): Event {
    Event(0, CreateAdmin("admin", None, password))
  }

  /** The administrator's row as the command line leaves it, but for these failures, this status and this lock. */
  function FirstAdmin(cfg: Settings, password: string, failures: nat, status: Status, lockedUntil: Option<Time>): User {
    User("admin", None, Admin, status, cfg.Hash(password), true, failures, lockedUntil, false)
  }

  lemma AfterSetup(r: Run, password: string)
    requires Valid(r) && r.start == EMPTY && r.steps != [] && r.steps[0].event == Setup(password)
    requires r.cfg.policy(password, "admin")
    ensures r.steps[0].after == Db([FirstAdmin(r.cfg, password, 0, Active, None)], [], map[])
  {
    assert Follows(r, 0);
  }

  lemma OneAdmin(user: User)
    requires user.role == Admin && !user.deleted
    ensures UsableAdmins([user]) == if user.Usable() then {0} else {}
    ensures forall t :: LoginAdmins([user], t) == if T.AutoUnlock(user, t).Usable() then {0} else {}
  {
  }

  // ---- the last administrator can be locked ----

  /** A PATCH to LOCKED of the only administrator is carried out, and no administrator can log in any more, ever. */
  lemma OnlyAdminPatched(policy: (string, string) -> bool, password: string) returns (r: Run)
    requires policy(password, "admin")
    ensures Valid(r) && r.cfg == Defaults(policy) && r.start == EMPTY && |r.steps| == 2
    ensures r.steps[0].event == Setup(password)
    ensures r.steps[1].event == Event(MINUTE, UpdateUser(0, None, None, Some(Locked))) && r.steps[1].reply == Done
    ensures UsableAdmins(At(r, 1).users) == {0} && UsableAdmins(At(r, 2).users) == {}
    ensures forall t :: LoginAdmins(At(r, 2).users, t) == {}
  {
    hide Step;
    r := RunExists(Defaults(policy), EMPTY, [Setup(password), Event(MINUTE, UpdateUser(0, None, None, Some(Locked)))]);
    AfterSetup(r, password);
    OneAdmin(r.steps[0].after.users[0]);
    assert Follows(r, 1);
    LockingFirstAdmin(r.cfg, r.steps[0].after, MINUTE);
    OneAdmin(r.steps[1].after.users[0]);
  }

  lemma LockingFirstAdmin(cfg: Settings, db: Db, now: Time)
    requires |db.users| == 1 && !db.users[0].deleted
    ensures
      var e := Event(now, UpdateUser(0, None, None, Some(Locked)));
      Step(cfg, db, e) == Outcome(db.(users := [db.users[0].(status := Locked)]), Done)
  {
  }

  function Guess(password: string): Event {
    Event(MINUTE, Login("admin", password))
  }

  lemma GuessAtFirstAdmin(cfg: Settings, password: string, wrong: string, failures: nat)
    requires wrong != password
    ensures
      var db := Db([FirstAdmin(cfg, password, failures, Active, None)], [], map[]);
      var last := failures + 1 >= cfg.maxFailures;
      Step(cfg, db, Guess(wrong)).db.users == [
        if last then FirstAdmin(cfg, password, failures + 1, Locked, Some(MINUTE + cfg.LockPeriod()))
        else FirstAdmin(cfg, password, failures + 1, Active, None)]
      && Step(cfg, db, Guess(wrong)).db == db.(users := Step(cfg, db, Guess(wrong)).db.users)
  {
    var db := Db([FirstAdmin(cfg, password, failures, Active, None)], [], map[]);
    assert LiveUser(db.users, "admin") == Some(0);
  }

  /**
   Under any settings, the threshold of wrong passwords leaves no ACTIVE or PENDING administrator, and
   none that can log in until the lock period is over, if it is positive.
   */
  lemma OnlyAdminGuessedAt(cfg: Settings, password: string, wrong: string) returns (r: Run)
    requires cfg.policy(password, "admin") && wrong != password
    ensures Valid(r) && r.cfg == cfg && r.start == EMPTY && |r.steps| == 1 + Threshold(cfg)
    ensures r.steps[0].event == Setup(password)
    ensures forall i :: 1 <= i < |r.steps| ==> r.steps[i].event == Guess(wrong)
    ensures UsableAdmins(At(r, 1).users) == {0} && UsableAdmins(At(r, |r.steps|).users) == {}
    ensures At(r, |r.steps|).users
      == [FirstAdmin(cfg, password, Threshold(cfg), Locked, Some(MINUTE + cfg.LockPeriod()))]
    ensures forall t ::
      LoginAdmins(At(r, |r.steps|).users, t) == if t < MINUTE + cfg.LockPeriod() then {} else {0}
  {
    hide Step;
    var guesses := seq(Threshold(cfg), i => Guess(wrong));
    r := RunExists(cfg, EMPTY, [Setup(password)] + guesses);
    AfterSetup(r, password);
    OneAdmin(r.steps[0].after.users[0]);
    for n := 1 to Threshold(cfg)
      invariant At(r, n) == Db([FirstAdmin(cfg, password, n - 1, Active, None)], [], map[])
    {
      assert Follows(r, n);
      GuessAtFirstAdmin(cfg, password, wrong, n - 1);
    }
    assert Follows(r, Threshold(cfg));
    GuessAtFirstAdmin(cfg, password, wrong, Threshold(cfg) - 1);
    OneAdmin(At(r, |r.steps|).users[0]);
  }

  // ---- one failure can lock ----

  /** After the lock, a PATCH back to ACTIVE: the very next wrong password locks again, whatever the threshold. */
  lemma OneFailureLocks(cfg: Settings, password: string, wrong: string) returns (r: Run)
    requires cfg.policy(password, "admin") && wrong != password
    ensures Valid(r) && r.cfg == cfg && r.start == EMPTY && |r.steps| == Threshold(cfg) + 3
    ensures r.steps[0].event == Setup(password)
    ensures forall i :: 1 <= i <= Threshold(cfg) ==> r.steps[i].event == Guess(wrong)
    ensures r.steps[Threshold(cfg) + 1].event == Event(MINUTE, UpdateUser(0, None, None, Some(Active)))
    ensures r.steps[Threshold(cfg) + 1].reply == Done
    ensures r.steps[Threshold(cfg) + 2].event == Guess(wrong)
    ensures r.steps[Threshold(cfg) + 2].reply == LoginRefused(Some(0), BadPassword(true))
  {
    hide Step;
    var before := OnlyAdminGuessedAt(cfg, password, wrong);
    var n := |before.steps|;
    var reopen := Event(MINUTE, UpdateUser(0, None, None, Some(Active)));
    var db := At(before, n);
    var reopened := Step(cfg, db, reopen);
    var first := Transition(reopen, reopened.reply, reopened.db);
    ReopenFirstAdmin(cfg, db, MINUTE);
    ValidExtends(before, first);
    var longer := before.(steps := before.steps + [first]);
    var out := Step(cfg, reopened.db, Guess(wrong));
    var second := Transition(Guess(wrong), out.reply, out.db);
    FullFirstAdminLocks(cfg, reopened.db, wrong);
    ValidExtends(longer, second);
    r := longer.(steps := longer.steps + [second]);
  }

  lemma ReopenFirstAdmin(cfg: Settings, db: Db, now: Time)
    requires |db.users| == 1 && !db.users[0].deleted
    ensures Step(cfg, db, Event(now, UpdateUser(0, None, None, Some(Active))))
      == Outcome(db.(users := [db.users[0].(status := Active)]), Done)
  {
  }

  lemma FullFirstAdminLocks(cfg: Settings, db: Db, wrong: string)
    requires |db.users| == 1 && db.users[0].username == "admin" && !db.users[0].deleted
    requires db.users[0].status == Active && db.users[0].hash.password != wrong
    requires db.users[0].failures + 1 >= cfg.maxFailures
    ensures Step(cfg, db, Guess(wrong)).reply == LoginRefused(Some(0), BadPassword(true))
  {
    assert db.users[..0] == [];
    assert LiveUser(db.users, "admin") == Some(0);
  }

  // ---- resets pass the limit on old hashes ----

  function Reset(password: string): Event {
    Event(MINUTE, ResetPassword(0, password))
  }

  lemma ResetOfFirstAdmin(cfg: Settings, db: Db, password: string)
    requires |db.users| == 1 && cfg.policy(password, db.users[0].username)
    ensures
      var after := Step(cfg, db, Reset(password)).db;
      && |after.users| == 1 && after.users[0].username == db.users[0].username
      && |after.HistoryOf(0)| == |db.HistoryOf(0)| + 1
  {
    hide Revoke, OpenIds;
  }

  /** Under any settings, N+1 resets of an account store N+1 old hashes. */
  lemma ResetsPassTheLimit(cfg: Settings, password: string) returns (r: Run)
    requires cfg.policy(password, "admin")
    ensures Valid(r) && r.cfg == cfg && r.start == EMPTY && |r.steps| == cfg.historyCount + 2
    ensures r.steps[0].event == Setup(password)
    ensures forall i :: 1 <= i < |r.steps| ==> r.steps[i].event == Reset(password)
    ensures |At(r, |r.steps| - 1).HistoryOf(0)| == cfg.historyCount
    ensures |At(r, |r.steps|).HistoryOf(0)| == cfg.historyCount + 1
  {
    hide Step;
    var resets := seq(cfg.historyCount + 1, i => Reset(password));
    r := RunExists(cfg, EMPTY, [Setup(password)] + resets);
    AfterSetup(r, password);
    for n := 1 to |r.steps|
      invariant |At(r, n).users| == 1 && At(r, n).users[0].username == "admin"
      invariant |At(r, n).HistoryOf(0)| == n - 1
      invariant n == |r.steps| ==> |At(r, n - 1).HistoryOf(0)| == n - 2
    {
      assert Follows(r, n);
      ResetOfFirstAdmin(cfg, At(r, n), password);
    }
  }

  // ---- a lock revokes nothing ----

  /** Log in, be locked, be refused, be unlocked: the session of before the lock is accepted again. */
  lemma SessionComesBack(policy: (string, string) -> bool, password: string) returns (r: Run)
    requires policy(password, "admin")
    ensures Valid(r) && r.cfg == Defaults(policy) && r.start == EMPTY && |r.steps| == 6
    ensures r.steps[0].event == Setup(password)
    ensures r.steps[1].event == Guess(password) && Issues(r.steps[1], 0, 0)
    ensures r.steps[2].event == Event(2 * MINUTE, UpdateUser(0, None, None, Some(Locked))) && r.steps[2].reply == Done
    ensures At(r, 2).sessions == At(r, 3).sessions && At(r, 3).users != [] && At(r, 3).users[0].status == Locked
    ensures r.steps[3].event == Event(3 * MINUTE, Use(0)) && r.steps[3].reply == NoSession
    ensures r.steps[4].event == Event(4 * MINUTE, UnlockUser(0)) && r.steps[4].reply == Done
    ensures r.steps[5].event == Event(5 * MINUTE, Use(0)) && r.steps[5].reply.Granted?
  {
    hide Step;
    r := RunExists(Defaults(policy), EMPTY,
                   [Setup(password), Guess(password), Event(2 * MINUTE, UpdateUser(0, None, None, Some(Locked))),
                    Event(3 * MINUTE, Use(0)), Event(4 * MINUTE, UnlockUser(0)), Event(5 * MINUTE, Use(0))]);
    AfterSetup(r, password);
    assert Follows(r, 1) && Follows(r, 2) && Follows(r, 3) && Follows(r, 4) && Follows(r, 5);
    FirstLogin(r.cfg, password);
    LockingFirstAdmin(r.cfg, At(r, 2), 2 * MINUTE);
    UseOfFirstSession(r.cfg, At(r, 3), 3 * MINUTE);
    UnlockOfFirstAdmin(r.cfg, At(r, 4), 4 * MINUTE);
    UseOfFirstSession(r.cfg, At(r, 5), 5 * MINUTE);
  }

  lemma FirstLogin(cfg: Settings, password: string)
    ensures
      var admin := FirstAdmin(cfg, password, 0, Active, None);
      Step(cfg, Db([admin], [], map[]), Guess(password))
        == Outcome(Db([admin], [T.NewSession(cfg, 0, Admin, MINUTE)], map[]), Granted(AuthContext(0, 0, Admin, true)))
  {
    var admin := FirstAdmin(cfg, password, 0, Active, None);
    assert LiveUser([admin], "admin") == Some(0);
    assert T.OpenSession(cfg, [], 0, Admin, MINUTE) == [T.NewSession(cfg, 0, Admin, MINUTE)];
  }

  lemma UseOfFirstSession(cfg: Settings, db: Db, now: Time)
    requires |db.users| == 1 && !db.users[0].deleted
    requires |db.sessions| == 1 && db.sessions[0].user == 0 && db.sessions[0].Open()
    requires now < db.sessions[0].idleExpires && now < db.sessions[0].absoluteExpires
    ensures
      var out := Step(cfg, db, Event(now, Use(0)));
      if db.users[0].Usable() then out.reply.Granted? else out == Outcome(db, NoSession)
  {
  }

  lemma UnlockOfFirstAdmin(cfg: Settings, db: Db, now: Time)
    requires |db.users| == 1
    ensures Step(cfg, db, Event(now, UnlockUser(0)))
      == Outcome(db.(users := [db.users[0].(status := Active, failures := 0, lockedUntil := None)]), Done)
  {
  }
}
