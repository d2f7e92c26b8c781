/**
 The rows of user_accounts, user_sessions and user_password_history, the settings
 that steer them, and the replies of the operations.

 Rows are never deleted from user_accounts and user_sessions, so a row's position in
 its table is its identifier, and also its rank in created_at order.
 */
module Accounts {
  import opened Wrappers

  /** Timestamps and durations, in microseconds. */
  type Time = int

  const MINUTE: int := 60_000_000
  const HOUR: int := 60 * MINUTE

  /** A session's last_seen_at is rewritten only when it is at least this old. */
  const TOUCH_INTERVAL: int := 5 * MINUTE

  datatype Role = Admin | Operator | Viewer

  datatype Status = Pending | Active | Locked | Disabled

  /** An ideal password hash: it verifies exactly the password it was made from. */
  datatype PasswordHash = PasswordHash(password: string, scheme: nat) {
    predicate Verifies(candidate: string) {
      candidate == password
    }
  }

  datatype User = User(
    username: string,
    email: Option<string>,
    role: Role,
    status: Status,
    hash: PasswordHash,
    mustChange: bool,
    failures: nat,
    lockedUntil: Option<Time>,
    deleted: bool
  ) {
    /** The states in which an account may log in and its sessions may be used. */
    predicate Usable() {
      status == Active || status == Pending
    }
  }

  datatype Session = Session(
    user: nat,
    lastSeen: Time,
    idleExpires: Time,
    absoluteExpires: Time,
    revokedAt: Option<Time>,
    reason: string
  ) {
    predicate Open() {
      revokedAt.None?
    }
  }

  datatype Settings = Settings(
    authEnabled: bool,
    idleMinutes: int,
    absoluteHours: int,
    adminAbsoluteHours: int,
    maxSessions: int,
    maxFailures: int,
    lockMinutes: int,
    historyCount: nat,
    hashScheme: nat,
    policy: (string, string) -> bool
  ) {
    function IdleLimit(): Time {
      idleMinutes * MINUTE
    }

    function AbsoluteLimit(role: Role): Time {
      if role == Admin then adminAbsoluteHours * HOUR else absoluteHours * HOUR
    }

    function LockPeriod(): Time {
      lockMinutes * MINUTE
    }

    function Hash(password: string): PasswordHash {
      PasswordHash(password, hashScheme)
    }
  }

  /** The stored state. history[u] lists the replaced hashes of user u, oldest first. */
  datatype Db = Db(
    users: seq<User>,
    sessions: seq<Session>,
    history: map<nat, seq<PasswordHash>>
  ) {
    function HistoryOf(user: nat): seq<PasswordHash> {
      RowsOf(history, user)
    }
  }

  /** The history rows of one user, oldest first. */
  function RowsOf(history: map<nat, seq<PasswordHash>>, user: nat): seq<PasswordHash> {
    if user in history then history[user] else []
  }

  datatype AuthContext = AuthContext(user: nat, session: nat, role: Role, mustChange: bool)

  datatype LoginFailure =
    | UnknownUser
    | NotUsable(status: Status)
    | BadPassword(locked: bool)

  /** UniqueViolation is the database's own error, which the caller does not translate. */
  datatype Error = UserNotFound | LastAdminProtected | Duplicate | UniqueViolation | WeakPassword | RecentlyUsed

  datatype Reply =
    | Granted(context: AuthContext)
    | LoginRefused(target: Option<nat>, why: LoginFailure)
    | NoSession
    | Anonymous
    | LoginRequired
    | PasswordChangeRequired
    | PermissionDenied
    | Done
    | Declined
    | Created(user: nat)
    | Revoked(count: nat)
    | Failed(error: Error)

  datatype Outcome = Outcome(db: Db, reply: Reply)

  /** The index of the non-deleted account with this username. */
  function LiveUser(users: seq<User>, username: string): (found: Option<nat>)
    ensures found.Some? ==>
      && found.value < |users|
      && users[found.value].username == username
      && !users[found.value].deleted
    ensures found.None? ==>
      forall i :: 0 <= i < |users| ==> users[i].username == username ==> users[i].deleted
  {
    if users == [] then None
    else
      var last := |users| - 1;
      match LiveUser(users[..last], username)
      case Some(id) => Some(id)
      case None =>
        if users[last].username == username && !users[last].deleted then Some(last) else None
  }

  /** The unrevoked sessions of a user in created_at order. */
  function OpenIds(rows: seq<Session>, user: nat): (ids: seq<nat>)
    ensures forall i: nat :: i in ids <==> i < |rows| && rows[i].user == user && rows[i].Open()
    ensures forall k :: 0 <= k < |ids| ==> ids[k] < |rows|
    ensures forall a, b :: 0 <= a < b < |ids| ==> ids[a] < ids[b]
  {
    if rows == [] then []
    else
      var last := |rows| - 1;
      var earlier := OpenIds(rows[..last], user);
      if rows[last].user == user && rows[last].Open() then earlier + [last] else earlier
  }

  /** Marks the rows with the given identifiers as revoked. */
  function Revoke(rows: seq<Session>, ids: set<nat>, now: Time, reason: string): (out: seq<Session>)
    ensures |out| == |rows|
    ensures forall i {:trigger out[i]} :: 0 <= i < |rows| ==>
      out[i] == if i in ids then rows[i].(revokedAt := Some(now), reason := reason) else rows[i]
  {
    seq(|rows|, i requires 0 <= i < |rows| =>
      if i in ids then rows[i].(revokedAt := Some(now), reason := reason) else rows[i])
  }

  /** The identifiers in a list, as a set. */
  function IdSet(ids: seq<nat>): (out: set<nat>)
    ensures forall i :: i in out <==> i in ids
  {
    set i | i in ids
  }

  lemma EmptyOrNot(ids: seq<nat>)
    ensures ids == [] || exists i: nat :: i in ids
  {
    assert ids != [] ==> ids[0] in ids;
  }

  /** Revoking the open sessions of a user leaves none. */
  lemma NoneLeftOpen(rows: seq<Session>, user: nat, now: Time, reason: string)
    ensures OpenIds(Revoke(rows, IdSet(OpenIds(rows, user)), now, reason), user) == []
  {
    var left := OpenIds(Revoke(rows, IdSet(OpenIds(rows, user)), now, reason), user);
    assert forall i: nat :: i !in left;
    EmptyOrNot(left);
  }

  /** The newest n entries of a list kept oldest first. */
  function Latest<T>(xs: seq<T>, n: nat): seq<T> {
    if |xs| <= n then xs else xs[|xs| - n..]
  }

  /** Whether some listed hash verifies the password. */
  predicate AnyVerifies(hashes: seq<PasswordHash>, password: string) {
    exists i :: 0 <= i < |hashes| && hashes[i].Verifies(password)
  }

  predicate UsernameTaken(users: seq<User>, username: string) {
    exists i :: 0 <= i < |users| && users[i].username == username
  }

  /** Whether a user other than the excepted one already has this email. */
  predicate EmailTaken(users: seq<User>, email: Option<string>, except: nat) {
    email.Some? && exists i :: 0 <= i < |users| && i != except && users[i].email == email
  }

  /** The non-deleted administrators whose stored status is ACTIVE or PENDING. */
  function UsableAdmins(users: seq<User>): (ids: set<nat>)
    ensures forall i: nat :: i in ids <==>
      i < |users| && users[i].role == Admin && users[i].Usable() && !users[i].deleted
  {
    set i: nat | i < |users| && users[i].role == Admin && users[i].Usable() && !users[i].deleted
  }
}
