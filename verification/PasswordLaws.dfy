/** What every run guarantees about password history: pruning is invisible, and no recent reuse. */
module PasswordLaws {
  import opened Wrappers
  import opened Accounts
  import opened Machine
  import T = Transitions

  // ---- pruning against keeping everything ----

  /** The same step on a machine that never deletes a history row. */
  function StepKeepingAll(cfg: Settings, db: Db, e: Event): Outcome {
    match e.action
    case ChangePassword(user, session, current, replacement) =>
      T.ChangePasswordPruning(cfg, db, e.at, user, session, current, replacement, None)
    case _ => Step(cfg, db, e)
  }

  ghost predicate FollowsKeepingAll(r: Run, i: nat)
    requires i < |r.steps|
  {
    StepKeepingAll(r.cfg, At(r, i), r.steps[i].event) == Outcome(r.steps[i].after, r.steps[i].reply)
  }

  /** A run of the machine that never deletes a history row. */
  ghost predicate KeepsAll(r: Run) {
    forall i: nat {:trigger FollowsKeepingAll(r, i)} :: i < |r.steps| ==> FollowsKeepingAll(r, i)
  }

  /** Two runs that process the same events from the same state under the same settings. */
  ghost predicate SameInput(a: Run, b: Run) {
    && a.cfg == b.cfg && a.start == b.start && |a.steps| == |b.steps|
    && forall i :: 0 <= i < |a.steps| ==> a.steps[i].event == b.steps[i].event
  }

  /** Same accounts and sessions, and the same newest n history rows of every user. */
  ghost predicate Agree(n: nat, a: Db, b: Db) {
    && a.users == b.users
    && a.sessions == b.sessions
    && SameLatest(n, a.history, b.history)
  }

  ghost predicate SameLatest(n: nat, a: map<nat, seq<PasswordHash>>, b: map<nat, seq<PasswordHash>>) {
    forall u: nat :: Latest(RowsOf(a, u), n) == Latest(RowsOf(b, u), n)
  }

  lemma LatestOfPush<X>(xs: seq<X>, x: X, n: nat)
    ensures Latest(xs + [x], n) == if n == 0 then [] else Latest(Latest(xs, n), n - 1) + [x]
  {
  }

  lemma LatestOfLatest<X>(xs: seq<X>, n: nat)
    ensures Latest(Latest(xs, n), n) == Latest(xs, n)
  {
  }

  lemma PushesAgree(a: Db, b: Db, user: nat, pruneA: Option<nat>, n: nat)
    requires Agree(n, a, b) && user < |a.users|
    requires pruneA == None || pruneA == Some(n)
    ensures SameLatest(n, T.PushHistory(a, user, pruneA), T.PushHistory(b, user, None))
  {
    var hash := a.users[user].hash;
    var a', b' := T.PushHistory(a, user, pruneA), T.PushHistory(b, user, None);
    forall u: nat ensures Latest(RowsOf(a', u), n) == Latest(RowsOf(b', u), n) {
      assert Latest(RowsOf(a.history, u), n) == Latest(RowsOf(b.history, u), n);
      if u == user {
        LatestOfPush(a.HistoryOf(u), hash, n);
        LatestOfPush(b.HistoryOf(u), hash, n);
        LatestOfLatest(a.HistoryOf(u) + [hash], n);
      }
    }
  }

  /** Only password changes and resets look at the history or write to it. */
  ghost predicate TouchesHistory(e: Event) {
    e.action.ChangePassword? || e.action.ResetPassword?
  }

  lemma LoginIgnoresHistory(cfg: Settings, db: Db, now: Time, username: string, password: string,
                            history: map<nat, seq<PasswordHash>>)
    ensures
      var plain := T.Authenticate(cfg, db, now, username, password);
      && plain.db.history == db.history
      && T.Authenticate(cfg, db.(history := history), now, username, password)
        == plain.(db := plain.db.(history := history))
  {
    hide LiveUser, T.OpenSession, T.AutoUnlock, T.CountFailure, T.AdmitUser;
  }

  lemma PatchIgnoresHistory(db: Db, now: Time, user: nat, email: Option<string>, role: Option<Role>,
                            status: Option<Status>, history: map<nat, seq<PasswordHash>>)
    ensures
      var plain := T.UpdateUser(db, now, user, email, role, status);
      && plain.db.history == db.history
      && T.UpdateUser(db.(history := history), now, user, email, role, status)
        == plain.(db := plain.db.(history := history))
  {
    hide OpenIds, Revoke, IdSet, UsableAdmins, EmailTaken, T.Demotes;
  }

  lemma HistoryIsIrrelevant(cfg: Settings, db: Db, e: Event, history: map<nat, seq<PasswordHash>>)
    requires !TouchesHistory(e)
    ensures
      var plain := Step(cfg, db, e);
      && plain.db.history == db.history
      && Step(cfg, db.(history := history), e) == plain.(db := plain.db.(history := history))
  {
    hide T.Authenticate, T.UpdateUser, T.Touch, OpenIds, Revoke, IdSet, UsernameTaken, EmailTaken;
    match e.action
    case Login(username, password) => LoginIgnoresHistory(cfg, db, e.at, username, password, history);
    case UpdateUser(user, email, role, status) => PatchIgnoresHistory(db, e.at, user, email, role, status, history);
    case _ =>
  }

  lemma ChangesAgree(cfg: Settings, a: Db, b: Db, now: Time, user: nat, session: nat,
                     current: string, replacement: string)
    requires Agree(cfg.historyCount, a, b)
    ensures
      var pruned := T.ChangePassword(cfg, a, now, user, session, current, replacement);
      var full := T.ChangePasswordPruning(cfg, b, now, user, session, current, replacement, None);
      pruned.reply == full.reply && Agree(cfg.historyCount, pruned.db, full.db)
  {
    assert Latest(a.HistoryOf(user), cfg.historyCount) == Latest(b.HistoryOf(user), cfg.historyCount);
    hide Revoke, OpenIds, IdSet, Latest, SameLatest, AnyVerifies, T.PushHistory;
    if user < |a.users| {
      PushesAgree(a, b, user, Some(cfg.historyCount), cfg.historyCount);
    }
  }

  lemma ResetsAgree(cfg: Settings, a: Db, b: Db, now: Time, user: nat, password: string)
    requires Agree(cfg.historyCount, a, b)
    ensures
      var pruned := T.ResetPassword(cfg, a, now, user, password);
      var full := T.ResetPassword(cfg, b, now, user, password);
      pruned.reply == full.reply && Agree(cfg.historyCount, pruned.db, full.db)
  {
    hide Revoke, OpenIds, SameLatest, T.PushHistory;
    if user < |a.users| {
      PushesAgree(a, b, user, None, cfg.historyCount);
    }
  }

  lemma StepsAgree(cfg: Settings, a: Db, b: Db, e: Event)
    requires Agree(cfg.historyCount, a, b)
    ensures Step(cfg, a, e).reply == StepKeepingAll(cfg, b, e).reply
    ensures Agree(cfg.historyCount, Step(cfg, a, e).db, StepKeepingAll(cfg, b, e).db)
  {
    hide T.ChangePasswordPruning, T.ChangePassword, T.ResetPassword;
    match e.action
    case ChangePassword(user, session, current, replacement) =>
      ChangesAgree(cfg, a, b, e.at, user, session, current, replacement);
    case ResetPassword(user, password) =>
      ResetsAgree(cfg, a, b, e.at, user, password);
    case _ =>
      hide Step;
      HistoryIsIrrelevant(cfg, a, e, b.history);
      assert b == a.(history := b.history);
  }

  /**
   Pruning is invisible: on the same events, whatever mix of changes and resets they are, the machine
   that prunes answers as the machine that keeps every old hash, and their accounts and sessions
   are always the same.
   */
  lemma {:induction false} PruningIsInvisible(r: Run, full: Run, i: nat)
    requires Valid(r) && KeepsAll(full) && SameInput(r, full)
    requires i <= |r.steps|
    ensures Agree(r.cfg.historyCount, At(r, i), At(full, i))
    ensures forall j :: 0 <= j < i ==> r.steps[j].reply == full.steps[j].reply
  {
    hide Step, StepKeepingAll, Agree;
    if i == 0 {
      assert Agree(r.cfg.historyCount, At(r, 0), At(full, 0)) by { SelfAgrees(r.start, r.cfg.historyCount); }
    } else {
      PruningIsInvisible(r, full, i - 1);
      assert Follows(r, i - 1) && FollowsKeepingAll(full, i - 1);
      StepsAgree(r.cfg, At(r, i - 1), At(full, i - 1), r.steps[i - 1].event);
    }
  }

  lemma SelfAgrees(db: Db, n: nat)
    ensures Agree(n, db, db)
  {
  }

  /** Every run has such a counterpart. */
  lemma FullCounterpart(r: Run) returns (full: Run)
    ensures KeepsAll(full) && SameInput(r, full)
  {
    hide StepKeepingAll;
    full := Run(r.cfg, r.start, []);
    while |full.steps| < |r.steps|
      invariant |full.steps| <= |r.steps| && full.cfg == r.cfg && full.start == r.start
      invariant forall i :: 0 <= i < |full.steps| ==> full.steps[i].event == r.steps[i].event
      invariant forall i: nat :: i < |full.steps| ==> FollowsKeepingAll(full, i)
    {
      var n := |full.steps|;
      var out := StepKeepingAll(r.cfg, At(full, n), r.steps[n].event);
      var longer := full.(steps := full.steps + [Transition(r.steps[n].event, out.reply, out.db)]);
      forall i: nat | i <= n ensures FollowsKeepingAll(longer, i) {
        assert i < n ==> FollowsKeepingAll(full, i);
        assert At(longer, i) == At(full, i);
      }
      full := longer;
    }
  }

  // ---- the passwords a user has had ----

  /** A password a user had, and whether the user chose it through a password change. */
  datatype Entry = Entry(password: string, chosen: bool)

  ghost predicate Changes(e: Event, reply: Reply, user: nat) {
    e.action.ChangePassword? && e.action.user == user && reply == Done
  }

  ghost predicate Resets(e: Event, reply: Reply, user: nat) {
    e.action.ResetPassword? && e.action.user == user && reply == Done
  }

  ghost predicate Creates(e: Event, reply: Reply, user: nat) {
    (e.action.CreateUser? || e.action.CreateAdmin?) && reply == Created(user)
  }

  /** What a transaction adds to the log of a user's passwords. */
  ghost function NewEntries(e: Event, reply: Reply, user: nat): seq<Entry> {
    if Changes(e, reply, user) then [Entry(e.action.replacement, true)]
    else if Resets(e, reply, user) || Creates(e, reply, user) then [Entry(e.action.password, false)]
    else []
  }

  /** Every password of a user in the first i transactions, oldest first; the start's history comes first. */
  ghost function PasswordLog(r: Run, user: nat, i: nat): seq<Entry>
    requires i <= |r.steps|
  {
    if i == 0 then
      var replaced := r.start.HistoryOf(user);
      seq(|replaced|, k requires 0 <= k < |replaced| => Entry(replaced[k].password, false))
      + if user < |r.start.users| then [Entry(r.start.users[user].hash.password, false)] else []
    else PasswordLog(r, user, i - 1) + NewEntries(r.steps[i - 1].event, r.steps[i - 1].reply, user)
  }

  /** The log is exactly the kept hashes followed by the current one. */
  ghost predicate Records(log: seq<Entry>, db: Db, user: nat) {
    var replaced := db.HistoryOf(user);
    && |log| == |replaced| + (if user < |db.users| then 1 else 0)
    && (forall k :: 0 <= k < |replaced| ==> log[k].password == replaced[k].password)
    && (user < |db.users| ==> log[|replaced|].password == db.users[user].hash.password)
  }

  /** Logging in may rehash a password, but never changes it; the other steps leave it alone. */
  lemma OtherStepsKeepPassword(cfg: Settings, db: Db, e: Event, user: nat)
    requires !TouchesHistory(e) && user < |db.users|
    ensures user < |Step(cfg, db, e).db.users|
    ensures Step(cfg, db, e).db.users[user].hash.password == db.users[user].hash.password
  {
    hide OpenIds, IdSet, Revoke, T.OpenSession, T.PushHistory, T.Touch, T.Demotes;
    hide LiveUser, UsableAdmins, UsernameTaken, EmailTaken, AnyVerifies;
  }

  /** A successful login leaves the presented password, hashed under the current scheme. */
  lemma LoginRehashes(cfg: Settings, db: Db, now: Time, username: string, password: string)
    requires T.Authenticate(cfg, db, now, username, password).reply.Granted?
    ensures
      var out := T.Authenticate(cfg, db, now, username, password);
      var user := out.reply.context.user;
      && user < |db.users|
      && out.db.users[user].hash == cfg.Hash(password)
      && out.db.users[user].hash.password == db.users[user].hash.password
  {
  }

  /** A push moves the current hash to the end of the history. */
  lemma PushRecords(log: seq<Entry>, db: Db, after: Db, user: nat, target: nat, entry: Entry)
    requires Records(log, db, user) && target < |db.users| == |after.users|
    requires after.history == T.PushHistory(db, target, None)
    requires after.users[target].hash.password == entry.password
    requires user < |db.users| && user != target ==> after.users[user].hash == db.users[user].hash
    ensures Records(log + if target == user then [entry] else [], after, user)
  {
  }

  lemma StepRecords(cfg: Settings, db: Db, e: Event, user: nat, log: seq<Entry>)
    requires Records(log, db, user)
    ensures Records(log + NewEntries(e, StepKeepingAll(cfg, db, e).reply, user), StepKeepingAll(cfg, db, e).db, user)
  {
    hide Records, T.PushHistory, AnyVerifies, Revoke, OpenIds;
    var out := StepKeepingAll(cfg, db, e);
    match e.action
    case ChangePassword(target, _, _, replacement) =>
      assert log + [] == log;
      if out.reply == Done {
        PushRecords(log, db, out.db, user, target, Entry(replacement, true));
      }
    case ResetPassword(target, password) =>
      assert log + [] == log;
      if out.reply == Done {
        PushRecords(log, db, out.db, user, target, Entry(password, false));
      }
    case _ =>
      OtherStepRecords(cfg, db, e, user, log);
  }

  lemma OtherStepRecords(cfg: Settings, db: Db, e: Event, user: nat, log: seq<Entry>)
    requires Records(log, db, user) && !TouchesHistory(e)
    ensures Records(log + NewEntries(e, StepKeepingAll(cfg, db, e).reply, user), StepKeepingAll(cfg, db, e).db, user)
  {
    hide Step;
    HistoryIsIrrelevant(cfg, db, e, db.history);
    NewAccount(cfg, db, e);
    if user < |db.users| {
      OtherStepsKeepPassword(cfg, db, e, user);
    }
  }

  lemma {:induction false} LogIsRecorded(full: Run, user: nat, i: nat)
    requires KeepsAll(full) && i <= |full.steps|
    ensures Records(PasswordLog(full, user, i), At(full, i), user)
  {
    hide StepKeepingAll;
    if i > 0 {
      hide Records, NewEntries;
      LogIsRecorded(full, user, i - 1);
      assert FollowsKeepingAll(full, i - 1);
      StepRecords(full.cfg, At(full, i - 1), full.steps[i - 1].event, user, PasswordLog(full, user, i - 1));
    }
  }

  lemma {:induction false} SameLog(r: Run, full: Run, user: nat, i: nat)
    requires SameInput(r, full) && i <= |r.steps|
    requires forall j :: 0 <= j < i ==> r.steps[j].reply == full.steps[j].reply
    ensures PasswordLog(r, user, i) == PasswordLog(full, user, i)
  {
    hide NewEntries;
    if i > 0 {
      SameLog(r, full, user, i - 1);
    }
  }

  /** The password is one of the newest n of the log. */
  ghost predicate AmongLatest(log: seq<Entry>, n: nat, password: string) {
    exists k :: 0 <= k < |log| && |log| - k <= n && log[k].password == password
  }

  /** The check of a change, on a machine that keeps everything, reads the newest n+1 passwords. */
  lemma ReuseCheck(log: seq<Entry>, db: Db, user: nat, n: nat, password: string)
    requires Records(log, db, user) && user < |db.users|
    ensures (db.users[user].hash.Verifies(password) || AnyVerifies(Latest(db.HistoryOf(user), n), password))
      <==> AmongLatest(log, n + 1, password)
  {
    var replaced := db.HistoryOf(user);
    var latest := Latest(replaced, n);
    var skipped := |replaced| - |latest|;
    if k :| 0 <= k < |latest| && latest[k].Verifies(password) {
      assert log[skipped + k].password == password;
    }
    if k :| 0 <= k < |log| && |log| - k <= n + 1 && log[k].password == password {
      if k < |replaced| {
        assert latest[k - skipped].Verifies(password);
      }
    }
  }

  /** How a change is answered, from the hashes that are stored. */
  lemma ChangeReply(cfg: Settings, db: Db, e: Event)
    requires e.action.ChangePassword?
    ensures
      var id := e.action.user;
      Step(cfg, db, e).reply ==
        if id >= |db.users| || !db.users[id].hash.Verifies(e.action.current) then Declined
        else if !cfg.policy(e.action.replacement, db.users[id].username) then Failed(WeakPassword)
        else if db.users[id].hash.Verifies(e.action.replacement)
             || AnyVerifies(Latest(db.HistoryOf(id), cfg.historyCount), e.action.replacement) then
          Failed(RecentlyUsed)
        else Done
  {
    hide Revoke, OpenIds, AnyVerifies, T.PushHistory, Latest;
  }

  /**
   A change is answered by who asks and what the policy says; past that, it is refused exactly when
   the new password is among the latest N+1 the user has had in the whole run.
   */
  lemma ReuseDecision(r: Run, i: nat)
    requires Valid(r) && i < |r.steps| && r.steps[i].event.action.ChangePassword?
    ensures
      var action := r.steps[i].event.action;
      var users := At(r, i).users;
      r.steps[i].reply ==
        if action.user >= |users| || !users[action.user].hash.Verifies(action.current) then Declined
        else if !r.cfg.policy(action.replacement, users[action.user].username) then Failed(WeakPassword)
        else if AmongLatest(PasswordLog(r, action.user, i), r.cfg.historyCount + 1, action.replacement)
        then Failed(RecentlyUsed)
        else Done
  {
    hide Records, AmongLatest, AnyVerifies, Step;
    var action := r.steps[i].event.action;
    var full := FullCounterpart(r);
    PruningIsInvisible(r, full, i);
    SameLog(r, full, action.user, i);
    LogIsRecorded(full, action.user, i);
    assert Follows(r, i);
    ChangeReply(r.cfg, At(r, i), r.steps[i].event);
    assert Latest(RowsOf(At(r, i).history, action.user), r.cfg.historyCount)
        == Latest(RowsOf(At(full, i).history, action.user), r.cfg.historyCount);
    if action.user < |At(r, i).users| {
      ReuseCheck(PasswordLog(r, action.user, i), At(full, i), action.user, r.cfg.historyCount, action.replacement);
    }
  }

  /** Every chosen password differs from the n before it. */
  ghost predicate ChosenAreNew(log: seq<Entry>, n: nat) {
    forall a, b :: 0 <= a < b < |log| && log[b].chosen && b - a <= n ==> log[a].password != log[b].password
  }

  lemma ExtendChosen(log: seq<Entry>, n: nat, entry: Entry)
    requires ChosenAreNew(log, n)
    requires entry.chosen ==> !AmongLatest(log, n, entry.password)
    ensures ChosenAreNew(log + [entry], n)
  {
  }

  /**
   No recent reuse over whole runs: every password chosen through a change differs from the N+1
   before it, resets included.
   */
  lemma {:induction false} NoRecentReuse(r: Run, user: nat, i: nat)
    requires Valid(r) && i <= |r.steps|
    ensures ChosenAreNew(PasswordLog(r, user, i), r.cfg.historyCount + 1)
  {
    hide AmongLatest, Step;
    if i > 0 {
      NoRecentReuse(r, user, i - 1);
      var log := PasswordLog(r, user, i - 1);
      var added := NewEntries(r.steps[i - 1].event, r.steps[i - 1].reply, user);
      if added != [] {
        hide ChosenAreNew;
        if Changes(r.steps[i - 1].event, r.steps[i - 1].reply, user) {
          ReuseDecision(r, i - 1);
        }
        ExtendChosen(log, r.cfg.historyCount + 1, added[0]);
        assert log + [added[0]] == log + added;
      } else {
        assert log + added == log;
      }
    }
  }

  /** So N+2 consecutive passwords, all but the first of them chosen, are pairwise distinct. */
  lemma ConsecutiveDiffer(r: Run, user: nat, i: nat, first: nat)
    requires Valid(r) && i <= |r.steps|
    requires first + r.cfg.historyCount + 2 <= |PasswordLog(r, user, i)|
    requires forall k :: first < k < first + r.cfg.historyCount + 2 ==> PasswordLog(r, user, i)[k].chosen
    ensures forall a, b :: first <= a < b < first + r.cfg.historyCount + 2 ==>
      PasswordLog(r, user, i)[a].password != PasswordLog(r, user, i)[b].password
  {
    hide PasswordLog;
    NoRecentReuse(r, user, i);
  }

  // ---- how many old hashes are stored ----

  /** How many resets of this user came after the last change, in the first i transactions. */
  ghost function ResetsSinceChange(r: Run, user: nat, i: nat): nat
    requires i <= |r.steps|
  {
    if i == 0 then 0
    else
      var t := r.steps[i - 1];
      if Changes(t.event, t.reply, user) then 0
      else ResetsSinceChange(r, user, i - 1) + if Resets(t.event, t.reply, user) then 1 else 0
  }

  lemma StepHistorySize(cfg: Settings, db: Db, e: Event, user: nat)
    ensures
      var out := Step(cfg, db, e);
      |out.db.HistoryOf(user)| ==
        if Changes(e, out.reply, user) then Min(|db.HistoryOf(user)| + 1, cfg.historyCount)
        else |db.HistoryOf(user)| + if Resets(e, out.reply, user) then 1 else 0
  {
    if TouchesHistory(e) {
      hide AnyVerifies, Revoke, OpenIds;
    } else {
      hide Step;
      HistoryIsIrrelevant(cfg, db, e, db.history);
    }
  }

  /** The stored history exceeds its limit by at most the resets since the last change. */
  lemma {:induction false} HistorySize(r: Run, user: nat, i: nat)
    requires Valid(r) && i <= |r.steps|
    requires |r.start.HistoryOf(user)| <= r.cfg.historyCount
    ensures |At(r, i).HistoryOf(user)| <= r.cfg.historyCount + ResetsSinceChange(r, user, i)
  {
    hide Step, Changes, Resets;
    if i > 0 {
      HistorySize(r, user, i - 1);
      assert Follows(r, i - 1);
      StepHistorySize(r.cfg, At(r, i - 1), r.steps[i - 1].event, user);
    }
  }

  /**
   A step leaves at most N old hashes of a user exactly when it is not a reset of that user, to a
   password the policy lets through, that finds N of them.
   */
  lemma HistoryLimitKept(cfg: Settings, db: Db, e: Event, user: nat)
    requires |db.HistoryOf(user)| <= cfg.historyCount
    ensures |Step(cfg, db, e).db.HistoryOf(user)| <= cfg.historyCount
      <==> !(&& e.action.ResetPassword? && e.action.user == user && user < |db.users|
             && cfg.policy(e.action.password, db.users[user].username)
             && |db.HistoryOf(user)| == cfg.historyCount)
  {
    hide Step;
    StepHistorySize(cfg, db, e, user);
    AcceptedExactly(cfg, db, e);
  }
}
