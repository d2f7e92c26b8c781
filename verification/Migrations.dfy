/** The migration runner: ordered, exactly once, under an advisory lock. */
module Migrations {
  import opened Wrappers

  // ---- file names and their order ----

  /** The order in which the listing is sorted: by the first differing character. */
  predicate Precedes(a: string, b: string) {
    b != "" && (a == "" || a[0] < b[0] || (a[0] == b[0] && Precedes(a[1..], b[1..])))
  }

  ghost predicate Sorted(files: seq<string>) {
    forall i, j :: 0 <= i < j < |files| ==> Precedes(files[i], files[j])
  }

  lemma {:induction false} PrecedesIsAsymmetric(a: string, b: string)
    requires Precedes(a, b)
    ensures !Precedes(b, a)
  {
    if a != "" && a[0] == b[0] {
      PrecedesIsAsymmetric(a[1..], b[1..]);
    }
  }

  ghost predicate NoRepeats(files: seq<string>) {
    forall i, j :: 0 <= i < j < |files| ==> files[i] != files[j]
  }

  lemma SortedHasNoRepeats(files: seq<string>)
    requires Sorted(files)
    ensures NoRepeats(files)
  {
    forall i, j | 0 <= i < j < |files| ensures files[i] != files[j] {
      PrecedesIsAsymmetric(files[i], files[j]);
    }
  }

  function Names(files: seq<string>): (names: set<string>)
    ensures forall f :: f in names <==> f in files
  {
    set f | f in files
  }

  // ---- one migration, as a function ----

  /** The listed files that are not known yet, in listing order. */
  function Missing(files: seq<string>, known: set<string>): (missing: seq<string>)
    ensures forall f :: f in missing <==> f in files && f !in known
  {
    if files == [] then []
    else
      var last := files[|files| - 1];
      Missing(files[..|files| - 1], known) + if last in known then [] else [last]
  }

  lemma MissingSnoc(files: seq<string>, file: string, known: set<string>)
    ensures Missing(files + [file], known) == Missing(files, known) + if file in known then [] else [file]
  {
    assert (files + [file])[..|files|] == files;
  }

  lemma MissingAppend(files: seq<string>, n: nat, known: set<string>)
    requires n < |files|
    ensures Missing(files[..n + 1], known) == Missing(files[..n], known) + if files[n] in known then [] else [files[n]]
  {
    assert files[..n + 1] == files[..n] + [files[n]];
    MissingSnoc(files[..n], files[n], known);
  }

  lemma {:induction false} MissingHasNoRepeats(files: seq<string>, known: set<string>)
    requires NoRepeats(files)
    ensures NoRepeats(Missing(files, known))
  {
    if files != [] {
      MissingHasNoRepeats(files[..|files| - 1], known);
      assert files[|files| - 1] !in files[..|files| - 1];
    }
  }

  // ---- the runner ----

  /** What a script that fails reports. */
  datatype Result = Applied(files: seq<string>) | Broken(file: string)

  class Database {
    var versions: set<string>
    /** The scripts whose effects are in the database, in the order they were run. */
    var scripts: seq<string>

    constructor ()
      ensures versions == {} && scripts == []
    {
      versions, scripts := {}, [];
    }
  }

  /**
   One transaction under the lock. The scripts that are missing run in listing order, up to one that
   fails; a failure undoes all of them.
   */
  method Migrate(db: Database, files: seq<string>, works: string -> bool) returns (r: Result)
    requires Sorted(files)
    modifies db
    ensures
      var missing := Missing(files, old(db.versions));
      if AllWork(missing, works) then
        && r == Applied(missing)
        && db.scripts == old(db.scripts) + missing
        && db.versions == old(db.versions) + Names(files)
      else
        && r.Broken? && r.file in missing && !works(r.file)
        && db.scripts == old(db.scripts) && db.versions == old(db.versions)
  {
    hide Missing, Sorted;
    var savedVersions, savedScripts := db.versions, db.scripts;
    var known := db.versions;
    var applied := [];
    assert applied == Missing(files[..0], known) by { MissingNothing(known); }
    for i := 0 to |files|
      invariant applied == Missing(files[..i], known) && AllWork(applied, works)
      invariant db.scripts == savedScripts + applied
      invariant db.versions == savedVersions + Names(applied)
    {
      MissingAppend(files, i, known);
      if files[i] in known {
        continue;
      }
      if !works(files[i]) {
        assert files[i] in Missing(files, known);
        db.versions, db.scripts := savedVersions, savedScripts;
        return Broken(files[i]);
      }
      db.scripts := db.scripts + [files[i]];
      db.versions := db.versions + {files[i]};
      applied := applied + [files[i]];
    }
    assert files[..|files|] == files;
    return Applied(applied);
  }

  predicate AllWork(files: seq<string>, works: string -> bool) {
    forall f :: f in files ==> works(f)
  }

  lemma MissingNothing(known: set<string>)
    ensures Missing([], known) == []
  {
  }

  // ---- concurrent runners ----

  datatype Runner =
    | Idle
    | Locked
    | Applying(files: seq<string>, known: set<string>, next: nat, pending: seq<string>)

  /** What is committed, who holds the advisory lock, and where each runner stands. */
  datatype State = State(scripts: seq<string>, versions: set<string>, holder: Option<nat>, runners: map<nat, Runner>) {
    function RunnerOf(i: nat): Runner {
      if i in runners then runners[i] else Idle
    }

    /** Runner i gives up: its own changes are gone, and so is the lock if it held it. */
    function RolledBack(i: nat): State {
      this.(holder := if holder == Some(i) then None else holder, runners := runners[i := Idle])
    }
  }

  datatype Move =
    | Lock(runner: nat)
    | Read(runner: nat, listing: seq<string>)
    | Advance(runner: nat)
    | Commit(runner: nat)
    | Rollback(runner: nat)

  /** The state after a move, or None where the move has to wait or makes no sense. */
  function Moved(s: State, move: Move): Option<State> {
    var i := move.runner;
    var runner := s.RunnerOf(i);
    match move
    case Lock(_) =>
      if runner.Idle? && s.holder == None
      then Some(s.(holder := Some(i), runners := s.runners[i := Locked]))
      else None
    case Read(_, listing) =>
      if runner.Locked?
      then Some(s.(runners := s.runners[i := Applying(listing, s.versions, 0, [])]))
      else None
    case Advance(_) =>
      if !runner.Applying? || runner.next >= |runner.files| then None
      else
        var file := runner.files[runner.next];
        if file in runner.known then Some(s.(runners := s.runners[i := runner.(next := runner.next + 1)]))
        else if file in s.versions || file in runner.pending then Some(s.RolledBack(i))  // primary key violated
        else Some(s.(runners := s.runners[i := runner.(next := runner.next + 1, pending := runner.pending + [file])]))
    case Commit(_) =>
      if !runner.Applying? || runner.next < |runner.files| then None
      else
        Some(State(s.scripts + runner.pending, s.versions + Names(runner.pending),
                   if s.holder == Some(i) then None else s.holder, s.runners[i := Idle]))
    case Rollback(_) => if runner.Idle? then None else Some(s.RolledBack(i))
  }

  datatype Transition = Transition(move: Move, after: State)

  datatype History = History(start: State, steps: seq<Transition>)

  function At(h: History, n: nat): State
    requires n <= |h.steps|
  {
    if n == 0 then h.start else h.steps[n - 1].after
  }

  /** Any interleaving of any number of runners, started on a database with no runner active. */
  ghost predicate Valid(h: History) {
    Quiet(h.start) && forall n: nat {:trigger Follows(h, n)} :: n < |h.steps| ==> Follows(h, n)
  }

  /** The n-th move was possible, led to the recorded state, and any listing it read was sorted. */
  ghost predicate Follows(h: History, n: nat)
    requires n < |h.steps|
  {
    && Moved(At(h, n), h.steps[n].move) == Some(h.steps[n].after)
    && (h.steps[n].move.Read? ==> Sorted(h.steps[n].move.listing))
  }

  ghost predicate Quiet(s: State) {
    && NoRepeats(s.scripts) && s.versions == Names(s.scripts)
    && s.holder == None && forall i: nat :: s.RunnerOf(i) == Idle
  }

  /** The lock holder, and only it, is active; what it knows is current, and what it has run is what was missing. */
  ghost predicate Consistent(s: State) {
    && NoRepeats(s.scripts) && s.versions == Names(s.scripts)
    && forall i: nat :: RunnerConsistent(s, i, s.RunnerOf(i))
  }

  ghost predicate RunnerConsistent(s: State, i: nat, runner: Runner) {
    && (!runner.Idle? <==> s.holder == Some(i))
    && (runner.Applying? ==>
          && runner.known == s.versions
          && Sorted(runner.files)
          && runner.next <= |runner.files|
          && runner.pending == Missing(runner.files[..runner.next], runner.known))
  }

  lemma MoveKeepsConsistent(s: State, move: Move)
    requires Consistent(s) && Moved(s, move).Some?
    requires move.Read? ==> Sorted(move.listing)
    ensures Consistent(Moved(s, move).value)
  {
    hide Missing, Sorted, NoRepeats, Names;
    var after := Moved(s, move).value;
    var runner := s.RunnerOf(move.runner);
    assert RunnerConsistent(s, move.runner, runner);
    if move.Read? {
      MissingNothing(s.versions);
      assert move.listing[..0] == [];
    }
    if move.Advance? {
      MissingAppend(runner.files, runner.next, runner.known);
    }
    if move.Commit? {
      CommitKeepsScripts(s, move.runner);
    }
    forall i: nat ensures RunnerConsistent(after, i, after.RunnerOf(i)) {
      assert RunnerConsistent(s, i, s.RunnerOf(i));
    }
  }

  /** What a commit adds has not been run before. */
  lemma CommitKeepsScripts(s: State, i: nat)
    requires Consistent(s) && s.RunnerOf(i).Applying? && s.RunnerOf(i).next >= |s.RunnerOf(i).files|
    ensures s.RunnerOf(i).pending == Missing(s.RunnerOf(i).files, s.versions)
    ensures NoRepeats(s.scripts + s.RunnerOf(i).pending)
    ensures s.versions + Names(s.RunnerOf(i).pending) == Names(s.scripts + s.RunnerOf(i).pending)
  {
    var runner := s.RunnerOf(i);
    assert RunnerConsistent(s, i, runner);
    assert runner.files[..runner.next] == runner.files;
    SortedHasNoRepeats(runner.files);
    MissingHasNoRepeats(runner.files, s.versions);
    forall a, b | 0 <= a < |s.scripts| && 0 <= b < |runner.pending|
      ensures s.scripts[a] != runner.pending[b]
    {
      assert runner.pending[b] in runner.pending;
    }
  }

  lemma QuietIsConsistent(s: State)
    requires Quiet(s)
    ensures Consistent(s)
  {
  }

  lemma {:induction false} AlwaysConsistent(h: History, n: nat)
    requires Valid(h) && n <= |h.steps|
    ensures Consistent(At(h, n))
  {
    hide Moved, Consistent;
    if n == 0 {
      QuietIsConsistent(h.start);
    } else {
      AlwaysConsistent(h, n - 1);
      assert Follows(h, n - 1);
      MoveKeepsConsistent(At(h, n - 1), h.steps[n - 1].move);
    }
  }

  // ---- exactly once ----

  lemma MoveAppends(s: State, move: Move)
    requires Consistent(s) && Moved(s, move).Some?
    ensures
      var after := Moved(s, move).value;
      var runner := s.RunnerOf(move.runner);
      if move.Commit?
      then runner.Applying? && after.scripts == s.scripts + Missing(runner.files, Names(s.scripts))
      else after.scripts == s.scripts
  {
    if move.Commit? {
      CommitKeepsScripts(s, move.runner);
    }
  }

  lemma ConsistentScripts(s: State)
    requires Consistent(s)
    ensures NoRepeats(s.scripts) && s.versions == Names(s.scripts)
  {
  }

  /**
   Exactly once, under any interleaving of runners and rollbacks: no script is ever in the database
   twice, the recorded versions are those of the scripts run, and what is committed stays.
   */
  lemma {:induction false} ExactlyOnce(h: History, m: nat, n: nat)
    requires Valid(h) && m <= n <= |h.steps|
    ensures NoRepeats(At(h, n).scripts) && At(h, n).versions == Names(At(h, n).scripts)
    ensures At(h, m).scripts <= At(h, n).scripts
    decreases n
  {
    hide Moved, Consistent;
    AlwaysConsistent(h, n);
    ConsistentScripts(At(h, n));
    if m < n {
      ExactlyOnce(h, m, n - 1);
      AlwaysConsistent(h, n - 1);
      assert Follows(h, n - 1);
      MoveAppends(At(h, n - 1), h.steps[n - 1].move);
    }
  }

  /** The insert into schema_migrations never meets a version that is already there. */
  lemma KeyNeverViolated(h: History, n: nat)
    requires Valid(h) && n < |h.steps| && h.steps[n].move.Advance?
    ensures
      var runner := At(h, n).RunnerOf(h.steps[n].move.runner);
      && runner.Applying? && runner.next < |runner.files|
      && (runner.files[runner.next] !in runner.known ==>
            runner.files[runner.next] !in At(h, n).versions && runner.files[runner.next] !in runner.pending)
    ensures
      var s, i := At(h, n), h.steps[n].move.runner;
      var runner := s.RunnerOf(i);
      var file := runner.files[runner.next];
      At(h, n + 1) == s.(runners := s.runners[i := Applying(
        runner.files, runner.known, runner.next + 1, runner.pending + if file in runner.known then [] else [file])])
  {
    AlwaysConsistent(h, n);
    assert Follows(h, n);
    var runner := At(h, n).RunnerOf(h.steps[n].move.runner);
    assert RunnerConsistent(At(h, n), h.steps[n].move.runner, runner);
    SortedHasNoRepeats(runner.files);
    assert runner.pending + [] == runner.pending;
  }

  /** A history may go on with any move that is possible. */
  lemma HistoryExtends(h: History, move: Move) returns (longer: History)
    requires Valid(h) && Moved(At(h, |h.steps|), move).Some?
    requires move.Read? ==> Sorted(move.listing)
    ensures Valid(longer) && longer.start == h.start && |longer.steps| == |h.steps| + 1
    ensures longer.steps[..|h.steps|] == h.steps && longer.steps[|h.steps|].move == move
    ensures Some(At(longer, |longer.steps|)) == Moved(At(h, |h.steps|), move)
  {
    hide Moved, Sorted;
    longer := h.(steps := h.steps + [Transition(move, Moved(At(h, |h.steps|), move).value)]);
    forall n: nat | n < |longer.steps| ensures Follows(longer, n) {
      assert n < |h.steps| ==> Follows(h, n);
      assert At(longer, n) == At(h, n);
    }
  }

  /** The moves of one whole run: lock, read, one advance for each listed file, commit. */
  function WholeRun(i: nat, listing: seq<string>): seq<Move> {
    [Lock(i), Read(i, listing)] + seq(|listing|, n => Advance(i)) + [Commit(i)]
  }

  /**
   When nobody else is active a whole run goes through, and does what the runner's loop does when all
   scripts work: the missing files are run in order and all listed ones count as applied.
   */
  lemma LoneRunCompletes(h: History, i: nat, listing: seq<string>) returns (longer: History)
    requires Valid(h) && Sorted(listing)
    requires forall k: nat :: At(h, |h.steps|).RunnerOf(k).Idle?
    ensures Valid(longer) && longer.start == h.start
    ensures |longer.steps| == |h.steps| + |WholeRun(i, listing)| && longer.steps[..|h.steps|] == h.steps
    ensures forall n :: 0 <= n < |WholeRun(i, listing)| ==>
      longer.steps[|h.steps| + n].move == WholeRun(i, listing)[n]
    ensures
      var before, after := At(h, |h.steps|), At(longer, |longer.steps|);
      && after.scripts == before.scripts + Missing(listing, before.versions)
      && after.versions == before.versions + Names(listing)
      && after.holder == None && after.RunnerOf(i).Idle?
  {
    hide Valid, Missing, Sorted, Names, Moved;
    var s := At(h, |h.steps|);
    LockIsNeverLeftHeld(h, |h.steps|, i);
    RunBegins(s, i, listing);
    longer := HistoryExtends(h, Lock(i));
    longer := HistoryExtends(longer, Read(i, listing));
    for n := 0 to |listing|
      invariant Valid(longer) && longer.start == h.start && |longer.steps| == |h.steps| + 2 + n
      invariant longer.steps[..|h.steps|] == h.steps
      invariant forall m :: 0 <= m < 2 + n ==> longer.steps[|h.steps| + m].move == WholeRun(i, listing)[m]
      invariant At(longer, |longer.steps|) == MidRun(s, i, listing, n)
    {
      RunAdvances(s, i, listing, n);
      longer := HistoryExtends(longer, Advance(i));
    }
    RunCommits(s, i, listing);
    longer := HistoryExtends(longer, Commit(i));
  }

  /** Runner i has locked, has read its listing and has been through n files of it; nothing is committed yet. */
  function MidRun(s: State, i: nat, listing: seq<string>, n: nat): State
    requires n <= |listing|
  {
    s.(holder := Some(i),
       runners := s.runners[i := Applying(listing, s.versions, n, Missing(listing[..n], s.versions))])
  }

  lemma RunBegins(s: State, i: nat, listing: seq<string>)
    requires s.holder == None && s.RunnerOf(i).Idle?
    ensures
      var locked := s.(holder := Some(i), runners := s.runners[i := Locked]);
      Moved(s, Lock(i)) == Some(locked) && Moved(locked, Read(i, listing)) == Some(MidRun(s, i, listing, 0))
  {
    MissingNothing(s.versions);
    assert listing[..0] == [];
    assert s.runners[i := Locked][i := Applying(listing, s.versions, 0, [])]
        == s.runners[i := Applying(listing, s.versions, 0, [])];
  }

  lemma RunAdvances(s: State, i: nat, listing: seq<string>, n: nat)
    requires Sorted(listing) && n < |listing|
    ensures Moved(MidRun(s, i, listing, n), Advance(i)) == Some(MidRun(s, i, listing, n + 1))
  {
    hide Missing, Sorted;
    MissingAppend(listing, n, s.versions);
    NextIsNew(listing, n, s.versions);
    var here, there := MidRun(s, i, listing, n), MidRun(s, i, listing, n + 1);
    assert here.runners[i := there.RunnerOf(i)] == there.runners;
    assert here.RunnerOf(i).pending + [] == here.RunnerOf(i).pending;
  }

  lemma RunCommits(s: State, i: nat, listing: seq<string>)
    ensures
      var after := Moved(MidRun(s, i, listing, |listing|), Commit(i));
      && after.Some?
      && after.value.scripts == s.scripts + Missing(listing, s.versions)
      && after.value.versions == s.versions + Names(listing)
      && after.value.holder == None && after.value.RunnerOf(i).Idle?
  {
    hide Missing;
    assert listing[..|listing|] == listing;
    KnownAndMissing(listing, s.versions);
  }

  /** A file is not among the missing ones listed before it. */
  lemma NextIsNew(listing: seq<string>, n: nat, known: set<string>)
    requires Sorted(listing) && n < |listing|
    ensures listing[n] !in Missing(listing[..n], known)
  {
    SortedHasNoRepeats(listing);
  }

  lemma KnownAndMissing(listing: seq<string>, known: set<string>)
    ensures known + Names(Missing(listing, known)) == known + Names(listing)
  {
  }

  /** The listings of the runs committed in the first n moves, in commit order. */
  ghost function Committed(h: History, n: nat): seq<seq<string>>
    requires n <= |h.steps|
  {
    if n == 0 then []
    else
      var move := h.steps[n - 1].move;
      var runner := At(h, n - 1).RunnerOf(move.runner);
      Committed(h, n - 1) + if move.Commit? && runner.Applying? then [runner.files] else []
  }

  /** Whole migrations run one after the other. */
  function Replay(scripts: seq<string>, listings: seq<seq<string>>): seq<string> {
    if listings == [] then scripts
    else
      var before := Replay(scripts, listings[..|listings| - 1]);
      before + Missing(listings[|listings| - 1], Names(before))
  }

  lemma ReplayAppend(scripts: seq<string>, listings: seq<seq<string>>, next: seq<string>)
    ensures Replay(scripts, listings + [next])
      == Replay(scripts, listings) + Missing(next, Names(Replay(scripts, listings)))
  {
    assert (listings + [next])[..|listings|] == listings;
  }

  /** A move adds a listing to the committed ones, and its missing scripts, or neither. */
  lemma CommittedStep(h: History, n: nat)
    requires Valid(h) && n < |h.steps|
    ensures
      var s, runner := At(h, n), At(h, n).RunnerOf(h.steps[n].move.runner);
      if h.steps[n].move.Commit? then
        && runner.Applying?
        && Committed(h, n + 1) == Committed(h, n) + [runner.files]
        && At(h, n + 1).scripts == s.scripts + Missing(runner.files, Names(s.scripts))
      else Committed(h, n + 1) == Committed(h, n) && At(h, n + 1).scripts == s.scripts
  {
    hide Moved, Consistent, Missing, Names;
    AlwaysConsistent(h, n);
    assert Follows(h, n);
    MoveAppends(At(h, n), h.steps[n].move);
  }

  /** However the runners interleave, the outcome is that of the committed ones run one at a time. */
  lemma {:induction false} RunnersAreSerial(h: History, n: nat)
    requires Valid(h) && n <= |h.steps|
    ensures At(h, n).scripts == Replay(h.start.scripts, Committed(h, n))
  {
    hide Valid, Missing, Names;
    if n > 0 {
      hide Replay, Committed;
      RunnersAreSerial(h, n - 1);
      CommittedStep(h, n - 1);
      if h.steps[n - 1].move.Commit? {
        ReplayAppend(h.start.scripts, Committed(h, n - 1),
                     At(h, n - 1).RunnerOf(h.steps[n - 1].move.runner).files);
      }
    }
  }

  /** The lock is held exactly while its holder is active, so it is never left behind. */
  lemma LockIsNeverLeftHeld(h: History, n: nat, i: nat)
    requires Valid(h) && n <= |h.steps|
    ensures At(h, n).holder == Some(i) <==> !At(h, n).RunnerOf(i).Idle?
    ensures (forall k: nat :: At(h, n).RunnerOf(k).Idle?) ==> At(h, n).holder == None && Moved(At(h, n), Lock(i)).Some?
  {
    AlwaysConsistent(h, n);
    assert RunnerConsistent(At(h, n), i, At(h, n).RunnerOf(i));
    var holder := At(h, n).holder;
    if holder.Some? {
      assert RunnerConsistent(At(h, n), holder.value, At(h, n).RunnerOf(holder.value));
    }
  }

  /** From its commit on, every file a run listed has been run, whether by this run or an earlier one. */
  lemma CommitRunsListing(h: History, m: nat, n: nat)
    requires Valid(h) && m < n <= |h.steps| && h.steps[m].move.Commit?
    ensures
      var runner := At(h, m).RunnerOf(h.steps[m].move.runner);
      runner.Applying? && forall f :: f in runner.files ==> f in At(h, n).scripts
  {
    hide Committed, Missing, Names;
    CommittedStep(h, m);
    ExactlyOnce(h, m + 1, n);
    var files := At(h, m).RunnerOf(h.steps[m].move.runner).files;
    forall f | f in files ensures f in At(h, n).scripts {
      assert f in At(h, m + 1).scripts;
    }
  }

  /** So a later run of no other files applies nothing. */
  lemma RerunAppliesNothing(h: History, m: nat, n: nat)
    requires Valid(h) && m < n < |h.steps|
    requires h.steps[m].move.Commit? && h.steps[n].move.Commit?
    requires
      var earlier, later := At(h, m).RunnerOf(h.steps[m].move.runner), At(h, n).RunnerOf(h.steps[n].move.runner);
      earlier.Applying? && later.Applying? && Names(later.files) <= Names(earlier.files)
    ensures h.steps[n].after.scripts == At(h, n).scripts
  {
    hide Committed, Missing, Names;
    CommitRunsListing(h, m, n);
    CommittedStep(h, n);
    var earlier := At(h, m).RunnerOf(h.steps[m].move.runner).files;
    var files := At(h, n).RunnerOf(h.steps[n].move.runner).files;
    forall f | f in files ensures f in Names(At(h, n).scripts) {
      assert f in Names(files) && f in Names(earlier);
      assert f in At(h, n).scripts;
    }
    NothingMissing(files, Names(At(h, n).scripts));
  }

  lemma NothingMissing(files: seq<string>, known: set<string>)
    requires forall f :: f in files ==> f in known
    ensures Missing(files, known) == []
  {
    if Missing(files, known) != [] {
      assert Missing(files, known)[0] in Missing(files, known);
    }
  }

  // ---- order ----

  /** Every file that the later listing adds sorts after all the earlier files. */
  ghost predicate AddsLater(earlier: seq<string>, later: seq<string>) {
    forall f, g :: f in later && f !in earlier && g in earlier ==> Precedes(g, f)
  }

  /** A sorted listing that only adds later files starts with the earlier one. */
  lemma {:induction false} StartsWith(earlier: seq<string>, later: seq<string>)
    requires Sorted(earlier) && Sorted(later) && Names(earlier) <= Names(later) && AddsLater(earlier, later)
    ensures earlier <= later
  {
    if earlier != [] {
      assert earlier[0] in Names(earlier);
      assert later[0] in later;
      FirstIsFirst(earlier, later);
      var e, l := earlier[1..], later[1..];
      SortedHasNoRepeats(earlier);
      SortedHasNoRepeats(later);
      forall f ensures f in e <==> f in earlier && f != earlier[0] {
        assert earlier == [earlier[0]] + e;
      }
      forall f ensures f in l <==> f in later && f != later[0] {
        assert later == [later[0]] + l;
      }
      assert Names(e) <= Names(l) by {
        forall f | f in e ensures f in l { assert f in Names(earlier); }
      }
      StartsWith(e, l);
      assert later == [later[0]] + l && earlier == [earlier[0]] + e;
    }
  }

  lemma FirstIsFirst(earlier: seq<string>, later: seq<string>)
    requires Sorted(earlier) && Sorted(later) && Names(earlier) <= Names(later) && AddsLater(earlier, later)
    requires earlier != [] && later != []
    ensures earlier[0] == later[0]
  {
    assert earlier[0] in Names(later);
    var k :| 0 <= k < |later| && later[k] == earlier[0];
    if k > 0 {
      PrecedesIsAsymmetric(later[0], later[k]);
    }
  }

  /** What is missing beyond a known beginning is the rest. */
  lemma MissingBeyond(files: seq<string>, k: nat)
    requires NoRepeats(files) && k <= |files|
    ensures Missing(files, Names(files[..k])) == files[k..]
  {
    hide Missing, NoRepeats, Names;
    var front, back := files[..k], files[k..];
    assert files == front + back;
    RestIsUnknown(files, k);
    MissingConcat(front, back, Names(front));
    NothingMissing(front, Names(front));
    AllMissing(back, Names(front));
  }

  lemma RestIsUnknown(files: seq<string>, k: nat)
    requires NoRepeats(files) && k <= |files|
    ensures forall f :: f in files[..k] ==> f in Names(files[..k])
    ensures forall f :: f in files[k..] ==> f !in Names(files[..k])
  {
  }

  lemma {:induction false} MissingConcat(front: seq<string>, back: seq<string>, known: set<string>)
    ensures Missing(front + back, known) == Missing(front, known) + Missing(back, known)
  {
    hide Missing;
    if back == [] {
      MissingNothing(known);
      assert front + back == front;
    } else {
      var n, file := |back| - 1, back[|back| - 1];
      MissingConcat(front, back[..n], known);
      MissingSnoc(back[..n], file, known);
      MissingSnoc(front + back[..n], file, known);
      assert back == back[..n] + [file];
      assert front + back == (front + back[..n]) + [file];
    }
  }

  lemma {:induction false} AllMissing(files: seq<string>, known: set<string>)
    requires forall f :: f in files ==> f !in known
    ensures Missing(files, known) == files
  {
    hide Missing;
    if files == [] {
      MissingNothing(known);
    } else {
      var n := |files| - 1;
      AllMissing(files[..n], known);
      MissingSnoc(files[..n], files[n], known);
      assert files == files[..n] + [files[n]];
    }
  }

  /**
   Running after the earlier files and again after the later ones applies the scripts in the order of
   one run over all of them exactly when every added file sorts after all the earlier ones.
   */
  lemma TwoRunsAreOne(earlier: seq<string>, later: seq<string>)
    requires Sorted(earlier) && Sorted(later) && Names(earlier) <= Names(later)
    ensures earlier + Missing(later, Names(earlier)) == later <==> AddsLater(earlier, later)
  {
    hide Missing, Names, AddsLater, Sorted;
    if AddsLater(earlier, later) {
      StartsWith(earlier, later);
      SortedHasNoRepeats(later);
      MissingBeyond(later, |earlier|);
      assert later[..|earlier|] == earlier;
    } else if earlier + Missing(later, Names(earlier)) == later {
      PrefixAddsLater(earlier, later);
    }
  }

  lemma PrefixAddsLater(earlier: seq<string>, later: seq<string>)
    requires Sorted(later) && earlier <= later
    ensures AddsLater(earlier, later)
  {
    forall f, g | f in later && f !in earlier && g in earlier ensures Precedes(g, f) {
      var i :| 0 <= i < |earlier| && earlier[i] == g;
      var j :| 0 <= j < |later| && later[j] == f;
      assert later[i] == g;
    }
  }

  /** Listings that grow, each adding only files that sort after those already there. */
  ghost predicate Growing(listings: seq<seq<string>>) {
    && (forall k :: 0 <= k < |listings| ==> Sorted(listings[k]))
    && forall k :: 0 < k < |listings| ==>
         Names(listings[k - 1]) <= Names(listings[k]) && AddsLater(listings[k - 1], listings[k])
  }

  lemma {:induction false} GrowingReplay(listings: seq<seq<string>>)
    requires Growing(listings) && listings != []
    ensures Replay([], listings) == listings[|listings| - 1]
  {
    var last := |listings| - 1;
    if last == 0 {
      assert listings[..0] == [];
      SortedHasNoRepeats(listings[0]);
      MissingBeyond(listings[0], 0);
    } else {
      GrowingReplay(listings[..last]);
      TwoRunsAreOne(listings[last - 1], listings[last]);
    }
  }

  /**
   Order-stable: on a fresh database, if the committed runs saw growing listings, then however the
   runners interleaved the scripts were run exactly in the order of the last listing, as one run over
   it would have done.
   */
  lemma GrowthIsOneShot(h: History, n: nat)
    requires Valid(h) && n <= |h.steps| && h.start.scripts == []
    requires Committed(h, n) != [] && Growing(Committed(h, n))
    ensures
      var last := Committed(h, n)[|Committed(h, n)| - 1];
      At(h, n).scripts == last == Replay([], [last])
  {
    RunnersAreSerial(h, n);
    GrowingReplay(Committed(h, n));
    GrowingReplay([Committed(h, n)[|Committed(h, n)| - 1]]);
  }
}
