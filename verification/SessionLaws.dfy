/** What every run guarantees about sessions: revocation, the cap, and both expiries. */
module SessionLaws {
  import opened Wrappers
  import opened Accounts
  import opened Machine
  import T = Transitions

  // ---- what can be seen of a transaction ----

  /** A login that issued this session to this user. */
  ghost predicate Issues(t: Transition, user: nat, session: nat) {
    && t.event.action.Login?
    && t.reply.Granted?
    && t.reply.context.user == user
    && t.reply.context.session == session
  }

  /** An accepted use of this session. */
  ghost predicate Uses(e: Event, reply: Reply, session: nat) {
    e.action == Use(session) && reply.Granted?
  }

  /** A transaction that ends every open session of the user, except a kept one. */
  ghost predicate EndsSessions(e: Event, reply: Reply, user: nat, kept: Option<nat>) {
    match e.action
    case UpdateUser(target, _, _, status) => target == user && status == Some(Disabled) && reply == Done && kept == None
    case ResetPassword(target, _) => target == user && reply == Done && kept == None
    case RevokeUserSessions(target) => target == user && kept == None
    case ChangePassword(target, session, _, _) => target == user && reply == Done && kept == Some(session)
    case _ => false
  }

  // ---- what a step does to a row ----

  /** The reason an event gives for the sessions it closes. */
  function ReasonOf(e: Event): string {
    match e.action
    case Login(_, _) => "MAX_SESSIONS"
    case Use(_) => "EXPIRED"
    case RevokeSession(_, reason) => reason
    case ChangePassword(_, _, _, _) => "PASSWORD_CHANGED"
    case UpdateUser(_, _, _, _) => "ACCOUNT_DISABLED"
    case ResetPassword(_, _) => "PASSWORD_RESET"
    case RevokeUserSessions(_) => "ADMIN_REVOKED"
    case _ => ""
  }

  ghost predicate ClosedBy(e: Event, before: Session, after: Session) {
    before.Open() && after == before.(revokedAt := Some(e.at), reason := ReasonOf(e))
  }

  /** A row stays, is closed for the event's reason, or is touched by its own accepted use. */
  ghost predicate RowStep(cfg: Settings, e: Event, before: Session, after: Session, used: bool) {
    if used then before.Open() && after == T.Touch(cfg, before, e.at)
    else after == before || ClosedBy(e, before, after)
  }

  lemma StepRows(cfg: Settings, db: Db, e: Event)
    ensures
      var out := Step(cfg, db, e);
      && |db.sessions| <= |out.db.sessions|
      && forall s: nat :: s < |db.sessions| ==>
           RowStep(cfg, e, db.sessions[s], out.db.sessions[s], Uses(e, out.reply, s))
  {
    hide OpenIds, IdSet, Revoke, T.PushHistory, T.Touch, T.CountFailure, T.AdmitUser, T.AutoUnlock, T.Demotes;
    hide LiveUser, UsableAdmins, UsernameTaken, EmailTaken, AnyVerifies;
  }

  /** Only a successful login adds a row. */
  lemma NewRowIsFromLogin(cfg: Settings, db: Db, e: Event)
    ensures
      var out := Step(cfg, db, e);
      if e.action.Login? && out.reply.Granted? then
        && out.reply.context.session == |db.sessions|
        && out.db.sessions == T.OpenSession(cfg, db.sessions, out.reply.context.user, out.reply.context.role, e.at)
      else |out.db.sessions| == |db.sessions|
  {
    hide OpenIds, IdSet, Revoke, T.OpenSession, T.PushHistory, T.Touch, T.Demotes;
    hide T.CountFailure, T.AdmitUser, T.AutoUnlock;
    hide LiveUser, UsableAdmins, UsernameTaken, EmailTaken, AnyVerifies;
  }

  /** A use is accepted only of an open row, for the user who owns it. */
  lemma UsedRowIsOpen(cfg: Settings, db: Db, e: Event, session: nat)
    requires Uses(e, Step(cfg, db, e).reply, session)
    ensures session < |db.sessions| && db.sessions[session].Open()
    ensures Step(cfg, db, e).reply.context.user == db.sessions[session].user
  {
  }

  // ---- revocation ----

  /** Rows stay in place with their owner and absolute expiry, and a revoked row is frozen. */
  ghost predicate Evolves(before: seq<Session>, after: seq<Session>) {
    && |before| <= |after|
    && forall s :: 0 <= s < |before| ==>
      && after[s].user == before[s].user
      && after[s].absoluteExpires == before[s].absoluteExpires
      && (!before[s].Open() ==> after[s] == before[s])
  }

  lemma {:induction false} RunEvolves(r: Run, i: nat, j: nat)
    requires Valid(r) && i <= j <= |r.steps|
    ensures Evolves(At(r, i).sessions, At(r, j).sessions)
    decreases j
  {
    hide Step;
    if i < j {
      RunEvolves(r, i, j - 1);
      assert Follows(r, j - 1);
      StepRows(r.cfg, At(r, j - 1), r.steps[j - 1].event);
    }
  }

  /** A revoked row never changes again, its first revocation time and reason included, and is never accepted. */
  lemma RevokedIsFinal(r: Run, i: nat, j: nat, session: nat)
    requires Valid(r) && i <= j < |r.steps|
    requires session < |At(r, i).sessions| && !At(r, i).sessions[session].Open()
    ensures session < |At(r, j).sessions| && At(r, j).sessions[session] == At(r, i).sessions[session]
    ensures !Uses(r.steps[j].event, r.steps[j].reply, session)
  {
    hide Step;
    RunEvolves(r, i, j);
    if Uses(r.steps[j].event, r.steps[j].reply, session) {
      assert Follows(r, j);
      UsedRowIsOpen(r.cfg, At(r, j), r.steps[j].event, session);
    }
  }

  /** Logging out is final: the session is closed by then, and never accepted afterwards. */
  lemma LogoutIsFinal(r: Run, i: nat, j: nat, session: nat, reason: string)
    requires Valid(r) && i < j < |r.steps|
    requires r.steps[i].event.action == RevokeSession(session, reason) && session < |At(r, i).sessions|
    ensures !Uses(r.steps[j].event, r.steps[j].reply, session)
  {
    assert Follows(r, i);
    RevokedIsFinal(r, i + 1, j, session);
  }

  /**
   A use of an open session of a usable account is refused exactly when an expiry has passed, and
   then the session is closed for good.
   */
  lemma RefusedUseIsFinal(r: Run, i: nat, session: nat)
    requires Valid(r) && i < |r.steps| && r.steps[i].event.action == Use(session)
    requires session < |At(r, i).sessions| && At(r, i).sessions[session].Open()
    requires AccountUsable(At(r, i), At(r, i).sessions[session].user)
    ensures
      var row, now := At(r, i).sessions[session], r.steps[i].event.at;
      r.steps[i].reply == NoSession <==> row.idleExpires <= now || row.absoluteExpires <= now
    ensures r.steps[i].reply == NoSession ==>
      forall j :: i < j < |r.steps| ==> !Uses(r.steps[j].event, r.steps[j].reply, session)
  {
    assert Follows(r, i);
    if r.steps[i].reply == NoSession {
      forall j | i < j < |r.steps| ensures !Uses(r.steps[j].event, r.steps[j].reply, session) {
        RevokedIsFinal(r, i + 1, j, session);
      }
    }
  }

  /** A closed session records the time and the reason of the event of the run that closed it. */
  lemma {:induction false} ClosedRowNamesItsCause(r: Run, k: nat, n: nat, user: nat, session: nat)
    requires Valid(r) && k < n <= |r.steps| && Issues(r.steps[k], user, session)
    requires session < |At(r, n).sessions| && !At(r, n).sessions[session].Open()
    ensures exists i :: k < i < n && ClosedIn(r, i, session, At(r, n).sessions[session])
    decreases n
  {
    hide Step, ClosedBy, Ends;
    LoginRow(r, k, user, session);
    RunEvolves(r, k + 1, n - 1);
    if n > k + 1 {
      assert Follows(r, n - 1);
      StepRows(r.cfg, At(r, n - 1), r.steps[n - 1].event);
      if At(r, n - 1).sessions[session].Open() {
        StepEnds(r.cfg, At(r, n - 1), r.steps[n - 1].event, session);
        assert ClosedIn(r, n - 1, session, At(r, n).sessions[session]);
      } else {
        RunEvolves(r, n - 1, n);
        ClosedRowNamesItsCause(r, k, n - 1, user, session);
      }
    }
  }

  /** Event i is one that ends the session, and turned its row from open into this one. */
  ghost predicate ClosedIn(r: Run, i: nat, session: nat, row: Session)
    requires i < |r.steps|
  {
    && EndsAt(r, i, session)
    && ClosedBy(r.steps[i].event, At(r, i).sessions[session], row)
    && session < |At(r, i + 1).sessions| && At(r, i + 1).sessions[session] == row
  }

  /** There is only one such event in a run. */
  lemma ClosedOnce(r: Run, i: nat, j: nat, session: nat, row: Session, other: Session)
    requires Valid(r) && i < |r.steps| && j < |r.steps|
    requires ClosedIn(r, i, session, row) && ClosedIn(r, j, session, other)
    ensures i == j && row == other
  {
    hide Step, Ends;
    if i < j {
      RevokedIsFinal(r, i + 1, j, session);
    } else if j < i {
      RevokedIsFinal(r, j + 1, i, session);
    }
  }

  /** A session row that appears between two points of a run was issued by a login between them. */
  lemma {:induction false} AppearsByLogin(r: Run, i: nat, j: nat, session: nat)
    requires Valid(r) && i <= j <= |r.steps|
    requires |At(r, i).sessions| <= session < |At(r, j).sessions|
    ensures exists k :: i <= k < j && Issues(r.steps[k], At(r, j).sessions[session].user, session)
    decreases j
  {
    hide Step;
    assert Follows(r, j - 1);
    if session < |At(r, j - 1).sessions| {
      AppearsByLogin(r, i, j - 1, session);
      StepRows(r.cfg, At(r, j - 1), r.steps[j - 1].event);
    } else {
      NewRowIsFromLogin(r.cfg, At(r, j - 1), r.steps[j - 1].event);
      assert Issues(r.steps[j - 1], At(r, j).sessions[session].user, session);
    }
  }

  ghost predicate AllClosed(rows: seq<Session>, user: nat, kept: Option<nat>) {
    forall s: nat :: s < |rows| && rows[s].user == user && Some(s) != kept ==> !rows[s].Open()
  }

  lemma EndedSessionsAreClosed(cfg: Settings, db: Db, e: Event, user: nat, kept: Option<nat>)
    requires EndsSessions(e, Step(cfg, db, e).reply, user, kept)
    ensures AllClosed(Step(cfg, db, e).db.sessions, user, kept)
  {
    hide IdSet, T.PushHistory, T.Demotes, T.Authenticate, UsableAdmins, EmailTaken, AnyVerifies, Latest;
  }

  /**
   Revocation is permanent and complete: whatever happens later (an unlock, a PATCH back to
   ACTIVE), a session used after its user was disabled, reset or revoked, or after a password
   change made through another session, was issued by a login after that event.
   */
  lemma RevocationIsPermanent(r: Run, i: nat, j: nat, user: nat, kept: Option<nat>, session: nat)
    requires Valid(r) && i < j < |r.steps|
    requires EndsSessions(r.steps[i].event, r.steps[i].reply, user, kept)
    requires Uses(r.steps[j].event, r.steps[j].reply, session) && r.steps[j].reply.context.user == user
    ensures Some(session) == kept || exists k :: i < k < j && Issues(r.steps[k], user, session)
  {
    hide Step, EndsSessions, Issues;
    assert Follows(r, i) && Follows(r, j);
    UsedRowIsOpen(r.cfg, At(r, j), r.steps[j].event, session);
    if session >= |At(r, i + 1).sessions| {
      AppearsByLogin(r, i + 1, j, session);
    } else if Some(session) != kept {
      RunEvolves(r, i + 1, j);
      EndedSessionsAreClosed(r.cfg, At(r, i), r.steps[i].event, user, kept);
    }
  }

  // ---- the cap on open sessions ----

  /** A strictly increasing list is determined by its elements. */
  lemma {:induction false} IncreasingIsUnique(a: seq<nat>, b: seq<nat>)
    requires forall x, y :: 0 <= x < y < |a| ==> a[x] < a[y]
    requires forall x, y :: 0 <= x < y < |b| ==> b[x] < b[y]
    requires forall n: nat :: n in a <==> n in b
    ensures a == b
  {
    if a == [] {
      EmptyOrNot(b);
    } else {
      assert a[0] in a && a[0] in b;
      assert b[0] in b && b[0] in a;
      assert a[0] == b[0];
      forall n: nat ensures n in a[1..] <==> n in b[1..] {
        if n in a[1..] { assert n in a && n > a[0]; }
        if n in b[1..] { assert n in b && n > b[0]; }
      }
      IncreasingIsUnique(a[1..], b[1..]);
      assert a == [a[0]] + a[1..];
      assert b == [b[0]] + b[1..];
    }
  }

  /** A strictly increasing list splits into disjoint parts. */
  lemma PartsAreDisjoint(ids: seq<nat>, k: nat)
    requires forall x, y :: 0 <= x < y < |ids| ==> ids[x] < ids[y]
    requires k <= |ids|
    ensures forall n: nat :: n in ids[..k] <==> n in ids && n !in ids[k..]
  {
    assert ids == ids[..k] + ids[k..];
  }

  ghost predicate OnlyCloses(before: seq<Session>, after: seq<Session>)
    requires |before| == |after|
  {
    forall s :: 0 <= s < |after| && after[s].Open() ==> before[s].Open() && before[s].user == after[s].user
  }

  /** Closing rows never makes more of them open. */
  lemma {:induction false} FewerOpen(before: seq<Session>, after: seq<Session>, user: nat)
    requires |before| == |after| && OnlyCloses(before, after)
    ensures |OpenIds(after, user)| <= |OpenIds(before, user)|
  {
    if before != [] {
      FewerOpen(before[..|before| - 1], after[..|after| - 1], user);
    }
  }

  lemma StepOnlyCloses(cfg: Settings, db: Db, e: Event)
    requires !(e.action.Login? && Step(cfg, db, e).reply.Granted?)
    ensures |Step(cfg, db, e).db.sessions| == |db.sessions|
    ensures OnlyCloses(db.sessions, Step(cfg, db, e).db.sessions)
  {
    hide Step;
    NewRowIsFromLogin(cfg, db, e);
    StepRows(cfg, db, e);
  }

  /** Closing the first k open rows of a user leaves the others, in order. */
  lemma OpenAfterRevoke(rows: seq<Session>, user: nat, k: nat, now: Time, reason: string)
    requires k <= |OpenIds(rows, user)|
    ensures
      var open := OpenIds(rows, user);
      OpenIds(Revoke(rows, IdSet(open[..k]), now, reason), user) == open[k..]
  {
    var open := OpenIds(rows, user);
    PartsAreDisjoint(open, k);
    IncreasingIsUnique(OpenIds(Revoke(rows, IdSet(open[..k]), now, reason), user), open[k..]);
  }

  lemma OthersOpenAfterRevoke(rows: seq<Session>, ids: set<nat>, user: nat, now: Time, reason: string)
    requires forall s: nat :: s in ids && s < |rows| ==> rows[s].user != user
    ensures OpenIds(Revoke(rows, ids, now, reason), user) == OpenIds(rows, user)
  {
    IncreasingIsUnique(OpenIds(Revoke(rows, ids, now, reason), user), OpenIds(rows, user));
  }

  lemma OpenAfterInsert(rows: seq<Session>, row: Session, user: nat)
    requires row.Open()
    ensures OpenIds(rows + [row], user) == OpenIds(rows, user) + if row.user == user then [|rows|] else []
  {
    assert (rows + [row])[..|rows|] == rows;
  }

  /**
   Opening a session leaves the user with the new one and the newest cap-1 of those that were
   open; each evicted row says why, and every other row is as before.
   */
  lemma OpeningKeepsNewest(cfg: Settings, rows: seq<Session>, user: nat, role: Role, now: Time)
    ensures
      var after := T.OpenSession(cfg, rows, user, role, now);
      var open := OpenIds(rows, user);
      var kept := Latest(open, Max(0, cfg.maxSessions - 1));
      && |after| == |rows| + 1
      && OpenIds(after, user) == kept + [|rows|]
      && (forall other: nat :: other != user ==> OpenIds(after, other) == OpenIds(rows, other))
      && (forall s: nat :: s < |rows| ==>
           after[s] == if s in open && s !in kept
                       then rows[s].(revokedAt := Some(now), reason := "MAX_SESSIONS") else rows[s])
  {
    var open := OpenIds(rows, user);
    var k := |T.Evicted(cfg, rows, user)|;
    assert Latest(open, Max(0, cfg.maxSessions - 1)) == open[k..];
    OpenAfterRevoke(rows, user, k, now, "MAX_SESSIONS");
    PartsAreDisjoint(open, k);
    var closed := Revoke(rows, IdSet(open[..k]), now, "MAX_SESSIONS");
    OpenAfterInsert(closed, T.NewSession(cfg, user, role, now), user);
    forall other: nat | other != user
      ensures OpenIds(T.OpenSession(cfg, rows, user, role, now), other) == OpenIds(rows, other)
    {
      OthersOpenAfterRevoke(rows, IdSet(open[..k]), other, now, "MAX_SESSIONS");
      OpenAfterInsert(closed, T.NewSession(cfg, user, role, now), other);
    }
  }

  /** The same, for a successful login anywhere in a run. */
  lemma LoginKeepsNewest(r: Run, i: nat, user: nat, session: nat)
    requires Valid(r) && i < |r.steps| && Issues(r.steps[i], user, session)
    ensures session == |At(r, i).sessions|
    ensures OpenIds(At(r, i + 1).sessions, user)
      == Latest(OpenIds(At(r, i).sessions, user), Max(0, r.cfg.maxSessions - 1)) + [session]
    ensures forall other: nat :: other != user ==>
      OpenIds(At(r, i + 1).sessions, other) == OpenIds(At(r, i).sessions, other)
    ensures
      var before, after := At(r, i).sessions, At(r, i + 1).sessions;
      var open := OpenIds(before, user);
      |after| == |before| + 1 && forall s: nat :: s < |before| ==>
        after[s] == if s in open && s !in Latest(open, Max(0, r.cfg.maxSessions - 1))
                    then before[s].(revokedAt := Some(r.steps[i].event.at), reason := "MAX_SESSIONS") else before[s]
  {
    hide Step, T.OpenSession, OpenIds;
    assert Follows(r, i);
    NewRowIsFromLogin(r.cfg, At(r, i), r.steps[i].event);
    OpeningKeepsNewest(r.cfg, At(r, i).sessions, user, r.steps[i].reply.context.role, r.steps[i].event.at);
  }

  lemma StepKeepsCap(cfg: Settings, db: Db, e: Event, user: nat)
    requires |OpenIds(db.sessions, user)| <= Max(1, cfg.maxSessions)
    ensures |OpenIds(Step(cfg, db, e).db.sessions, user)| <= Max(1, cfg.maxSessions)
  {
    hide Step, OpenIds, T.OpenSession, OnlyCloses;
    var reply := Step(cfg, db, e).reply;
    if e.action.Login? && reply.Granted? {
      NewRowIsFromLogin(cfg, db, e);
      OpeningKeepsNewest(cfg, db.sessions, reply.context.user, reply.context.role, e.at);
    } else {
      StepOnlyCloses(cfg, db, e);
      FewerOpen(db.sessions, Step(cfg, db, e).db.sessions, user);
    }
  }

  /** In every reachable state each user has at most max(1, max_sessions_per_user) open sessions. */
  lemma {:induction false} CapHolds(r: Run, n: nat, user: nat)
    requires Valid(r) && n <= |r.steps|
    requires |OpenIds(r.start.sessions, user)| <= Max(1, r.cfg.maxSessions)
    ensures |OpenIds(At(r, n).sessions, user)| <= Max(1, r.cfg.maxSessions)
    decreases n
  {
    hide Step, OpenIds;
    if n > 0 {
      CapHolds(r, n - 1, user);
      assert Follows(r, n - 1);
      StepKeepsCap(r.cfg, At(r, n - 1), r.steps[n - 1].event, user);
    }
  }

  // ---- which steps end which sessions ----

  /** Event e will end open session s, told from the state before it; nothing else does, a lockout included. */
  ghost predicate Ends(cfg: Settings, db: Db, e: Event, s: nat)
    requires s < |db.sessions|
  {
    var owner := db.sessions[s].user;
    match e.action
    case Login(username, password) =>
      && LiveUser(db.users, username) == Some(owner) && MayLogIn(db, e.at, username, password)
      && s !in Latest(OpenIds(db.sessions, owner), Max(0, cfg.maxSessions - 1))
    case Use(token) =>
      && token == s && AccountUsable(db, owner)
      && (db.sessions[s].idleExpires <= e.at || db.sessions[s].absoluteExpires <= e.at)
    case RevokeSession(session, _) => session == s
    case ChangePassword(user, session, current, replacement) =>
      user == owner && session != s && MayChange(cfg, db, user, current, replacement)
    case UpdateUser(user, email, role, status) =>
      user == owner && status == Some(Disabled) && MayPatch(db, user, email, role, status)
    case ResetPassword(user, password) => user == owner && MayReset(cfg, db, user, password)
    case RevokeUserSessions(user) => user == owner
    case _ => false
  }

  /** Closing all sessions of a user, one aside, closes an open session exactly if it is another of theirs. */
  lemma OwnedAreClosed(rows: seq<Session>, user: nat, kept: set<nat>, s: nat, now: Time, reason: string)
    requires s < |rows| && rows[s].Open()
    ensures
      var after := Revoke(rows, IdSet(OpenIds(rows, user)) - kept, now, reason);
      s < |after| && (!after[s].Open() <==> rows[s].user == user && s !in kept)
  {
  }

  lemma ChangeEnds(cfg: Settings, db: Db, e: Event, s: nat)
    requires e.action.ChangePassword? && s < |db.sessions| && db.sessions[s].Open()
    ensures s < |Step(cfg, db, e).db.sessions|
    ensures !Step(cfg, db, e).db.sessions[s].Open() <==> Ends(cfg, db, e, s)
  {
    hide OpenIds, IdSet, Revoke, AnyVerifies, Latest, T.PushHistory;
    hide T.Authenticate, T.ResolveSession, T.InsertUser, T.UpdateUser, T.ResetPassword, T.RevokeUserSessions;
    OwnedAreClosed(db.sessions, e.action.user, {e.action.session}, s, e.at, "PASSWORD_CHANGED");
  }

  lemma PatchEnds(cfg: Settings, db: Db, e: Event, s: nat)
    requires e.action.UpdateUser? && s < |db.sessions| && db.sessions[s].Open()
    ensures s < |Step(cfg, db, e).db.sessions|
    ensures !Step(cfg, db, e).db.sessions[s].Open() <==> Ends(cfg, db, e, s)
  {
    hide OpenIds, IdSet, Revoke, UsableAdmins, EmailTaken, T.Demotes;
    hide T.Authenticate, T.ResolveSession, T.InsertUser, T.ChangePassword, T.ResetPassword, T.RevokeUserSessions;
    OwnedAreClosed(db.sessions, e.action.user, {}, s, e.at, "ACCOUNT_DISABLED");
    assert IdSet(OpenIds(db.sessions, e.action.user)) - {} == IdSet(OpenIds(db.sessions, e.action.user));
  }

  lemma ResetEnds(cfg: Settings, db: Db, e: Event, s: nat)
    requires e.action.ResetPassword? && s < |db.sessions| && db.sessions[s].Open()
    ensures s < |Step(cfg, db, e).db.sessions|
    ensures !Step(cfg, db, e).db.sessions[s].Open() <==> Ends(cfg, db, e, s)
  {
    hide OpenIds, IdSet, Revoke, T.PushHistory;
    hide T.Authenticate, T.ResolveSession, T.InsertUser, T.ChangePassword, T.UpdateUser, T.RevokeUserSessions;
    OwnedAreClosed(db.sessions, e.action.user, {}, s, e.at, "PASSWORD_RESET");
    assert IdSet(OpenIds(db.sessions, e.action.user)) - {} == IdSet(OpenIds(db.sessions, e.action.user));
  }

  lemma LoginEnds(cfg: Settings, db: Db, e: Event, s: nat)
    requires e.action.Login? && s < |db.sessions| && db.sessions[s].Open()
    ensures s < |Step(cfg, db, e).db.sessions|
    ensures !Step(cfg, db, e).db.sessions[s].Open() <==> Ends(cfg, db, e, s)
  {
    hide LiveUser, OpenIds, Latest, T.OpenSession, T.CountFailure, T.AdmitUser;
    hide T.ResolveSession, T.InsertUser, T.ChangePassword, T.UpdateUser, T.ResetPassword, T.RevokeUserSessions;
    var found := LiveUser(db.users, e.action.username);
    if found.Some? {
      OpeningCloses(cfg, db.sessions, found.value, db.users[found.value].role, e.at, s);
    }
  }

  lemma OpeningCloses(cfg: Settings, rows: seq<Session>, user: nat, role: Role, now: Time, s: nat)
    requires s < |rows| && rows[s].Open()
    ensures
      var after := T.OpenSession(cfg, rows, user, role, now);
      s < |after| && (!after[s].Open()
        <==> rows[s].user == user && s !in Latest(OpenIds(rows, user), Max(0, cfg.maxSessions - 1)))
  {
    hide OpenIds;
    var open := OpenIds(rows, user);
    var k := |T.Evicted(cfg, rows, user)|;
    assert Latest(open, Max(0, cfg.maxSessions - 1)) == open[k..];
    PartsAreDisjoint(open, k);
  }

  /** An open session is closed by a step exactly when the step ends it. */
  lemma StepEnds(cfg: Settings, db: Db, e: Event, s: nat)
    requires s < |db.sessions| && db.sessions[s].Open()
    ensures s < |Step(cfg, db, e).db.sessions|
    ensures !Step(cfg, db, e).db.sessions[s].Open() <==> Ends(cfg, db, e, s)
  {
    hide T.Authenticate, T.ChangePassword, T.UpdateUser, T.ResetPassword, MayChange, MayPatch, MayReset, MayLogIn;
    match e.action
    case Login(_, _) => LoginEnds(cfg, db, e, s);
    case ChangePassword(_, _, _, _) => ChangeEnds(cfg, db, e, s);
    case UpdateUser(_, _, _, _) => PatchEnds(cfg, db, e, s);
    case ResetPassword(_, _) => ResetEnds(cfg, db, e, s);
    case _ =>
  }

  /** The i-th event of the run ends this session. */
  ghost predicate EndsAt(r: Run, i: nat, session: nat)
    requires i < |r.steps|
  {
    session < |At(r, i).sessions| && Ends(r.cfg, At(r, i), r.steps[i].event, session)
  }

  ghost predicate NoneEnds(r: Run, i: nat, j: nat, session: nat)
    requires i <= j <= |r.steps|
  {
    forall m: nat :: i <= m < j ==> !EndsAt(r, m, session)
  }

  /** Over any stretch of a run, an open session stays open exactly if no event ends it. */
  lemma {:induction false} OpenUntilEnded(r: Run, i: nat, j: nat, session: nat)
    requires Valid(r) && i <= j <= |r.steps|
    requires session < |At(r, i).sessions| && At(r, i).sessions[session].Open()
    ensures session < |At(r, j).sessions|
    ensures At(r, j).sessions[session].Open() <==> NoneEnds(r, i, j, session)
    decreases j
  {
    hide Step, Ends;
    if i < j {
      OpenUntilEnded(r, i, j - 1, session);
      assert Follows(r, j - 1);
      if At(r, j - 1).sessions[session].Open() {
        StepEnds(r.cfg, At(r, j - 1), r.steps[j - 1].event, session);
        assert EndsAt(r, j - 1, session) <==> !At(r, j).sessions[session].Open();
      } else {
        RunEvolves(r, j - 1, j);
      }
    }
  }

  // ---- idle and absolute expiry ----

  /** The time of the last accepted use of a session before transaction j, or of its login k. */
  ghost function LastUse(r: Run, k: nat, j: nat, session: nat): Time
    requires k < j <= |r.steps|
    decreases j
  {
    var t := r.steps[j - 1];
    if j == k + 1 || Uses(t.event, t.reply, session) then t.event.at else LastUse(r, k, j - 1, session)
  }

  /** How far the stored expiries of an open session may stray from its last use and its deadline. */
  ghost predicate TracksUse(cfg: Settings, row: Session, lastUse: Time, deadline: Time) {
    && row.absoluteExpires == deadline
    && (row.Open() ==>
          && row.lastSeen <= lastUse < row.lastSeen + TOUCH_INTERVAL
          && Min(row.lastSeen + cfg.IdleLimit(), deadline) <= row.idleExpires <= row.lastSeen + cfg.IdleLimit())
  }

  /** When a session issued by login k must end: by the role its user had at that login. */
  ghost function Deadline(r: Run, k: nat): Time
    requires k < |r.steps| && r.steps[k].reply.Granted?
  {
    r.steps[k].event.at + r.cfg.AbsoluteLimit(r.steps[k].reply.context.role)
  }

  lemma LoginRow(r: Run, k: nat, user: nat, session: nat)
    requires Valid(r) && k < |r.steps| && Issues(r.steps[k], user, session)
    ensures session == |At(r, k).sessions| == |At(r, k + 1).sessions| - 1
    ensures At(r, k + 1).sessions[session]
      == T.NewSession(r.cfg, user, r.steps[k].reply.context.role, r.steps[k].event.at)
  {
    hide Step;
    assert Follows(r, k);
    NewRowIsFromLogin(r.cfg, At(r, k), r.steps[k].event);
  }

  /** The run invariant: from its login on, a session's row tracks its last use. */
  lemma {:induction false} RowTracksUse(r: Run, k: nat, j: nat, user: nat, session: nat)
    requires Valid(r) && Ordered(r)
    requires k < j <= |r.steps| && Issues(r.steps[k], user, session)
    ensures session < |At(r, j).sessions| && At(r, j).sessions[session].user == user
    ensures LastUse(r, k, j, session) <= r.steps[j - 1].event.at
    ensures TracksUse(r.cfg, At(r, j).sessions[session], LastUse(r, k, j, session), Deadline(r, k))
    decreases j
  {
    hide Step;
    if j == k + 1 {
      LoginRow(r, k, user, session);
    } else {
      RowTracksUse(r, k, j - 1, user, session);
      assert r.steps[j - 2].event.at <= r.steps[j - 1].event.at;
      assert Follows(r, j - 1);
      StepRows(r.cfg, At(r, j - 1), r.steps[j - 1].event);
    }
  }

  /**
   The lazy refresh is sandwiched by the ideal one that would move the idle expiry on every use.
   With T the last accepted use, a use is accepted only before T + idle limit and before the
   deadline fixed at login; five minutes earlier it is certain to be accepted.
   */
  lemma IdleSandwich(r: Run, k: nat, j: nat, user: nat, session: nat, now: Time)
    requires Valid(r) && Ordered(r)
    requires k < j <= |r.steps| && Issues(r.steps[k], user, session)
    ensures session < |At(r, j).sessions|
    ensures
      var granted := T.ResolveSession(r.cfg, At(r, j), now, session).reply.Granted?;
      var ideal := LastUse(r, k, j, session) + r.cfg.IdleLimit();
      && (granted ==> now < ideal && now < Deadline(r, k))
      && ((At(r, j).sessions[session].Open() && AccountUsable(At(r, j), user)
           && now <= ideal - TOUCH_INTERVAL && now < Deadline(r, k)) ==> granted)
  {
    RowTracksUse(r, k, j, user, session);
  }

  /** No sequence of uses keeps a session alive: none is accepted at or after its deadline, in any run. */
  lemma AbsoluteLifetime(r: Run, k: nat, j: nat, user: nat, session: nat, now: Time)
    requires Valid(r) && k < j <= |r.steps| && Issues(r.steps[k], user, session)
    ensures T.ResolveSession(r.cfg, At(r, j), now, session).reply.Granted? ==> now < Deadline(r, k)
  {
    LoginRow(r, k, user, session);
    RunEvolves(r, k + 1, j);
  }

  /**
   The five minutes of slack cannot be narrowed. From any state, log in at time 0 and use the session
   just before it would be touched: it is open and usable, yet a use one microsecond past the
   certain range is refused.
   */
  lemma SlackIsTight(cfg: Settings, db: Db, user: nat, username: string, password: string)
    requires TOUCH_INTERVAL <= cfg.IdleLimit() <= Min(cfg.AbsoluteLimit(Admin), cfg.AbsoluteLimit(Operator))
    requires LiveUser(db.users, username) == Some(user)
    requires db.users[user].Usable() && db.users[user].hash.Verifies(password)
    ensures
      var session := |db.sessions|;
      var lastUse := TOUCH_INTERVAL - 1;
      var login := T.Authenticate(cfg, db, 0, username, password);
      var use := T.ResolveSession(cfg, login.db, lastUse, session);
      && login.reply.Granted? && login.reply.context.session == session
      && use.reply.Granted? && use.db.sessions[session].Open() && AccountUsable(use.db, user)
      && T.ResolveSession(cfg, use.db, lastUse + cfg.IdleLimit() - TOUCH_INTERVAL + 1, session).reply == NoSession
  {
  }

  /** A session's idle expiry never passes its deadline, provided its login did not put it past it. */
  lemma {:induction false} IdleWithinAbsolute(r: Run, k: nat, j: nat, user: nat, session: nat)
    requires Valid(r)
    requires k < j <= |r.steps| && Issues(r.steps[k], user, session)
    requires r.cfg.IdleLimit() <= r.cfg.AbsoluteLimit(r.steps[k].reply.context.role)
    ensures session < |At(r, j).sessions|
    ensures At(r, j).sessions[session].idleExpires <= At(r, j).sessions[session].absoluteExpires
    decreases j
  {
    hide Step;
    if j == k + 1 {
      LoginRow(r, k, user, session);
    } else {
      IdleWithinAbsolute(r, k, j - 1, user, session);
      assert Follows(r, j - 1);
      StepRows(r.cfg, At(r, j - 1), r.steps[j - 1].event);
    }
  }
}
