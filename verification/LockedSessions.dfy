/** What a lock does to the sessions of its account: nothing, beyond refusing them while it lasts. */
module LockedSessions {
  import opened Wrappers
  import opened Accounts
  import opened Machine
  import opened SessionLaws
  import opened LockoutLaws
  import T = Transitions

  /** A step that locks an account leaves every session row as it is. */
  lemma LockKeepsSessions(cfg: Settings, db: Db, e: Event, user: nat)
    requires LocksOut(cfg, db, e, user)
    ensures Step(cfg, db, e).db.sessions == db.sessions
  {
    hide T.OpenSession, T.AdmitUser, Revoke, OpenIds, LiveUser, UsableAdmins, EmailTaken;
  }

  /** So a lock leaves its account without an open session exactly if there was none before. */
  lemma NoOpenSessionAfterLock(cfg: Settings, db: Db, e: Event, user: nat)
    requires LocksOut(cfg, db, e, user)
    ensures AllClosed(Step(cfg, db, e).db.sessions, user, None) <==> OpenIds(db.sessions, user) == []
  {
    hide Step;
    LockKeepsSessions(cfg, db, e, user);
    var open := OpenIds(db.sessions, user);
    if open != [] {
      assert open[0] in open;
    }
  }

  /** While the account may not log in, a use is refused and leaves the session as it is. */
  lemma RefusedWhileLocked(cfg: Settings, db: Db, now: Time, session: nat)
    requires session < |db.sessions| && !AccountUsable(db, db.sessions[session].user)
    ensures T.ResolveSession(cfg, db, now, session) == Outcome(db, NoSession)
  {
  }

  /**
   A lock does not wear off by itself, even when its end has passed: the account is usable again only
   after a password was checked against it, right or wrong, or an administrator set its status.
   */
  lemma LockNeedsAStep(r: Run, i: nat, j: nat, user: nat)
    requires Valid(r) && i < j <= |r.steps|
    requires LocksOut(r.cfg, At(r, i), r.steps[i].event, user)
    requires AccountUsable(At(r, j), user)
    ensures !StatusUntouched(r, user, i + 1, j) || !NotTried(r, user, i + 1, j)
  {
    hide Step, LocksOut;
    assert Follows(r, i);
    LockIsReported(r.cfg, At(r, i), r.steps[i].event, user);
    if StatusUntouched(r, user, i + 1, j) && NotTried(r, user, i + 1, j) {
      LockUnmoved(r, user, i + 1, j);
    }
  }

  /**
   A session open when its account is locked, and ended by nothing since, outlives the lock: it is
   open, it is refused without a trace as long as the account stays unusable, and once the account
   is usable again it is accepted until five minutes before its idle limit runs out.
   */
  lemma SessionOutlivesLock(r: Run, k: nat, i: nat, j: nat, user: nat, session: nat, now: Time)
    requires Valid(r) && Ordered(r)
    requires k < i < j <= |r.steps| && Issues(r.steps[k], user, session)
    requires LocksOut(r.cfg, At(r, i), r.steps[i].event, user)
    requires session < |At(r, i).sessions| && At(r, i).sessions[session].Open()
    requires NoneEnds(r, i + 1, j, session)
    ensures session < |At(r, j).sessions| && At(r, j).sessions[session].Open()
    ensures
      var use := T.ResolveSession(r.cfg, At(r, j), now, session);
      && (!AccountUsable(At(r, j), user) ==> use == Outcome(At(r, j), NoSession))
      && (AccountUsable(At(r, j), user) ==>
            now <= LastUse(r, k, j, session) + r.cfg.IdleLimit() - TOUCH_INTERVAL ==>
            now < Deadline(r, k) ==> use.reply.Granted?)
  {
    hide Step, LocksOut, T.ResolveSession, Issues;
    assert Follows(r, i);
    LockKeepsSessions(r.cfg, At(r, i), r.steps[i].event, user);
    OpenUntilEnded(r, i + 1, j, session);
    IdleSandwich(r, k, j, user, session, now);
    RowTracksUse(r, k, j, user, session);
    if !AccountUsable(At(r, j), user) {
      RefusedWhileLocked(r.cfg, At(r, j), now, session);
    }
  }
}
