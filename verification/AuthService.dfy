/** Logging in, using and ending a session, and changing one's own password. */
module AuthService {
  import opened Wrappers
  import opened Accounts
  import opened Store
  import T = Transitions
  import Effects

  /** Makes room under the session cap, oldest first, and inserts the new session. */
  method InsertSession(db: Database, cfg: Settings, now: Time, id: nat, role: Role) returns (session: nat)
    modifies db`sessions
    ensures session == |old(db.sessions)|
    ensures db.sessions == T.OpenSession(cfg, old(db.sessions), id, role, now)
  {
    hide OpenIds, Revoke;
    var open := OpenIds(db.sessions, id);
    var excess := Max(0, |open| - cfg.maxSessions + 1);
    if excess != 0 {
      db.sessions := Revoke(db.sessions, IdSet(open[..Min(excess, |open|)]), now, "MAX_SESSIONS");
    } else {
      assert Revoke(db.sessions, IdSet([]), now, "MAX_SESSIONS") == db.sessions;
    }
    session := |db.sessions|;
    db.sessions := db.sessions + [
      Session(id, now, now + cfg.IdleLimit(), now + cfg.AbsoluteLimit(role), None, "")];
  }

  method Authenticate(db: Database, cfg: Settings, now: Time, username: string, password: string)
    returns (reply: Reply)
    modifies db
    ensures Outcome(db.Snapshot(), reply) == T.Authenticate(cfg, old(db.Snapshot()), now, username, password)
    ensures Effects.LoginMeans(cfg, old(db.Snapshot()), now, username, password, Outcome(db.Snapshot(), reply))
  {
    Effects.LoginMeets(cfg, Db(db.users, db.sessions, db.history), now, username, password);
    hide Effects.LoginMeans;
    var found := LiveUser(db.users, username);
    if found.None? {
      return LoginRefused(None, UnknownUser);
    }
    hide T.Authenticate;
    reply := AuthenticateAccount(db, cfg, now, username, found.value, password);
  }

  /** The account found by its name: lift a lapsed lock, then check status and password. */
  method AuthenticateAccount(db: Database, cfg: Settings, now: Time, username: string, id: nat, password: string)
    returns (reply: Reply)
    requires LiveUser(db.users, username) == Some(id)
    modifies db
    ensures Outcome(db.Snapshot(), reply) == T.Authenticate(cfg, old(db.Snapshot()), now, username, password)
  {
    hide T.OpenSession, LiveUser;
    var user := db.users[id];
    if user.status == Locked && user.lockedUntil.Some? && user.lockedUntil.value <= now {
      user := user.(status := Active, lockedUntil := None, failures := 0);
      db.users := db.users[id := user];
    }
    assert db.users == old(db.users)[id := user];
    if user.status !in {Active, Pending} {
      return LoginRefused(Some(id), NotUsable(user.status));
    }
    if !user.hash.Verifies(password) {
      var failures := user.failures + 1;
      var locked := failures >= cfg.maxFailures;
      db.users := db.users[id := user.(
        failures := failures,
        status := if locked then Locked else user.status,
        lockedUntil := if locked then Some(now + cfg.LockPeriod()) else None)];
      return LoginRefused(Some(id), BadPassword(locked));
    }
    var hash := if user.hash.scheme != cfg.hashScheme then cfg.Hash(password) else user.hash;
    db.users := db.users[id := user.(
      hash := hash, failures := 0, lockedUntil := None,
      status := if user.status == Pending then Active else user.status)];
    var session := InsertSession(db, cfg, now, id, user.role);
    return Granted(AuthContext(id, session, user.role, user.mustChange));
  }

  method ResolveSession(db: Database, cfg: Settings, now: Time, token: nat) returns (reply: Reply)
    modifies db`sessions
    ensures Outcome(db.Snapshot(), reply) == T.ResolveSession(cfg, old(db.Snapshot()), now, token)
    ensures Effects.UseMeans(cfg, old(db.Snapshot()), now, token, Outcome(db.Snapshot(), reply))
  {
    Effects.UseMeets(cfg, Db(db.users, db.sessions, db.history), now, token);
    hide Effects.UseMeans;
    if token >= |db.sessions| || !db.sessions[token].Open() || db.sessions[token].user >= |db.users| {
      return NoSession;
    }
    var row := db.sessions[token];
    var user := db.users[row.user];
    if user.status !in {Active, Pending} || user.deleted {
      return NoSession;
    }
    if row.idleExpires <= now || row.absoluteExpires <= now {
      db.sessions := Revoke(db.sessions, {token}, now, "EXPIRED");
      return NoSession;
    }
    if now - row.lastSeen >= 5 * MINUTE {
      db.sessions := db.sessions[token := row.(
        lastSeen := now,
        idleExpires := Min(now + cfg.IdleLimit(), row.absoluteExpires))];
    } else {
      assert db.sessions == db.sessions[token := row];
    }
    return Granted(AuthContext(row.user, token, user.role, user.mustChange));
  }

  method RevokeSession(db: Database, now: Time, session: nat, reason: string) returns (reply: Reply)
    modifies db`sessions
    ensures Outcome(db.Snapshot(), reply) == T.RevokeSession(old(db.Snapshot()), now, session, reason)
    ensures Effects.RevokeMeans(old(db.Snapshot()), now, session, reason, Outcome(db.Snapshot(), reply))
  {
    Effects.RevokeMeets(Db(db.users, db.sessions, db.history), now, session, reason);
    hide Effects.RevokeMeans;
    if session < |db.sessions| && db.sessions[session].Open() {
      db.sessions := Revoke(db.sessions, {session}, now, reason);
    }
    return Done;
  }

  /** Whether a listed hash verifies the password, looking at one hash after the other. */
  method CheckHashes(hashes: seq<PasswordHash>, password: string) returns (found: bool)
    ensures found <==> AnyVerifies(hashes, password)
  {
    for i := 0 to |hashes|
      invariant forall k :: 0 <= k < i ==> !hashes[k].Verifies(password)
    {
      if hashes[i].Verifies(password) {
        return true;
      }
    }
    return false;
  }

  /** Inserts the old hash, sets the new one, deletes what history is too old, and revokes the other sessions. */
  method ReplacePassword(db: Database, cfg: Settings, now: Time, context: AuthContext, replacement: string)
    requires context.user < |db.users|
    modifies db
    ensures db.users == old(db.users)[
      context.user := old(db.users)[context.user].(hash := cfg.Hash(replacement), mustChange := false)]
    ensures db.sessions == Revoke(old(db.sessions), IdSet(OpenIds(old(db.sessions), context.user)) - {context.session},
                                  now, "PASSWORD_CHANGED")
    ensures db.history == T.PushHistory(old(db.Snapshot()), context.user, Some(cfg.historyCount))
  {
    hide Revoke, OpenIds, IdSet;
    var id := context.user;
    var user := db.users[id];
    db.history := db.history[id := RowsOf(db.history, id) + [user.hash]];
    db.users := db.users[id := user.(hash := cfg.Hash(replacement), mustChange := false)];
    db.history := db.history[id := Latest(RowsOf(db.history, id), cfg.historyCount)];
    db.sessions := Revoke(db.sessions, IdSet(OpenIds(db.sessions, id)) - {context.session}, now, "PASSWORD_CHANGED");
  }

  method ChangePassword(db: Database, cfg: Settings, now: Time, context: AuthContext,
                        current: string, replacement: string) returns (reply: Reply)
    modifies db
    ensures Outcome(db.Snapshot(), reply)
      == T.ChangePassword(cfg, old(db.Snapshot()), now, context.user, context.session, current, replacement)
    ensures Effects.ChangeMeans(
      cfg, old(db.Snapshot()), now, context.user, context.session, current, replacement, Outcome(db.Snapshot(), reply))
  {
    Effects.ChangeMeets(
      cfg, Db(db.users, db.sessions, db.history), now, context.user, context.session, current, replacement);
    hide Effects.ChangeMeans;
    hide Revoke, OpenIds, IdSet, Latest, T.PushHistory, AnyVerifies;
    var id := context.user;
    if id >= |db.users| || !db.users[id].hash.Verifies(current) {
      return Declined;
    }
    var user := db.users[id];
    if !cfg.policy(replacement, user.username) {
      return Failed(WeakPassword);
    }
    var recent := Latest(RowsOf(db.history, id), cfg.historyCount);
    var reused := user.hash.Verifies(replacement);
    if !reused {
      reused := CheckHashes(recent, replacement);
    }
    if reused {
      return Failed(RecentlyUsed);
    }
    ReplacePassword(db, cfg, now, context, replacement);
    return Done;
  }
}
