/** The state a quarantine run acts on: a file tree, the plan that names what may move, and the
    move journal.  The predicates here say what must be true of every state a run passes through. */
module QuarantineState {
  import opened Paths
  import opened Bytes
  import opened Wrappers
  import opened Sets

  // Paths are absolute: their components below the filesystem root.
  datatype Node = Directory | Regular(data: Data)
  type FileSystem = map<Path, Node>

  function Parent(path: Path): Path
    requires path != []
  {
    path[..|path| - 1]
  }

  predicate IsDirectory(fs: FileSystem, path: Path) {
    path in fs && fs[path].Directory?
  }

  // Every path hangs off a chain of directories that reaches the filesystem root.
  ghost predicate Tree(fs: FileSystem) {
    && IsDirectory(fs, [])
    && forall path :: path in fs && path != [] ==> IsDirectory(fs, Parent(path))
  }

  lemma {:induction false} AncestorsExist(fs: FileSystem, path: Path, k: nat)
    requires Tree(fs) && path in fs && k <= |path|
    ensures path[..k] in fs
    ensures k < |path| ==> IsDirectory(fs, path[..k])
    decreases |path|
  {
    if k < |path| {
      AncestorsExist(fs, Parent(path), k);
      assert Parent(path)[..k] == path[..k];
    } else {
      assert path[..k] == path;
    }
  }

  lemma NothingBelow(fs: FileSystem, root: Path, path: Path)
    requires Tree(fs) && root !in fs && Within(path, root)
    ensures path !in fs
  {
    if path in fs {
      assert path[..|root|] == root;
      AncestorsExist(fs, path, |root|);
    }
  }

  // The one effect of an atomic no-replace rename.
  function Renamed(fs: FileSystem, source: Path, destination: Path): FileSystem
    requires source in fs
  {
    (fs - {source})[destination := fs[source]]
  }

  function Created(fs: FileSystem, path: Path, node: Node): FileSystem {
    fs[path := node]
  }

  lemma RenameKeepsTree(fs: FileSystem, source: Path, destination: Path)
    requires Tree(fs) && source in fs && fs[source].Regular?
    requires destination !in fs && destination != [] && IsDirectory(fs, Parent(destination))
    ensures Tree(Renamed(fs, source, destination))
  {
    var after := Renamed(fs, source, destination);
    forall path | path in after && path != []
      ensures IsDirectory(after, Parent(path))
    {
      assert IsDirectory(fs, Parent(path));
    }
  }

  datatype Target = Target(kind: string, source: Path, relative: Path, size: nat, digest: string)

  datatype Preserved = Preserved(source: Path, size: nat, digest: string)

  datatype Plan = Plan(
    root: Path,                  // the quarantine root
    appRoot: Path,
    allowed: map<string, Path>,  // source root of each approved kind
    targets: seq<Target>,
    preserved: seq<Preserved>,
    manifest: Data)
  {
    function Source(i: nat): Path
      requires i < |targets|
    {
      targets[i].source
    }

    function Destination(i: nat): Path
      requires i < |targets|
    {
      root + targets[i].relative
    }

    ghost predicate IsSource(path: Path) {
      exists i: nat :: i < |targets| && Source(i) == path
    }
  }

  // What a loaded plan guarantees; QuarantinePlan shows that loading establishes it.
  ghost predicate ValidPlan(plan: Plan) {
    && plan.root != []
    && !Within(plan.root, plan.appRoot) && !Within(plan.appRoot, plan.root)
    && (forall kind :: kind in plan.allowed ==> Within(plan.allowed[kind], plan.appRoot))
    && (forall i: nat :: i < |plan.targets| ==> plan.targets[i].kind in plan.allowed)
    && (forall i: nat, j: nat :: i < j < |plan.targets| ==> plan.Source(i) != plan.Source(j))
    && (forall i: nat, j: nat :: i < j < |plan.targets| ==> plan.Destination(i) != plan.Destination(j))
    && (forall k :: 0 <= k < |plan.preserved| ==> !plan.IsSource(plan.preserved[k].source))
  }

  // Journal records name a target by its position in the manifest.
  datatype Event =
    | Start
    | MoveIntent(i: nat)
    | MoveComplete(i: nat)
    | MoveVerified(i: nat)
    | AllMovesVerified(count: nat)
    | Failure(movedBefore: nat)
    | RollbackIntent(i: nat)
    | RollbackVerified(i: nat)
    | RollbackFailed(i: nat)

  predicate RollbackRecord(e: Event) {
    e.RollbackIntent? || e.RollbackVerified? || e.RollbackFailed?
  }

  // Nothing failed yet.
  ghost predicate Onward(journal: seq<Event>) {
    forall e :: e in journal ==> !RollbackRecord(e) && !e.Failure?
  }

  // Target i and later ones are not even announced.
  ghost predicate Ahead(journal: seq<Event>, i: nat) {
    forall j: nat :: i <= j ==> MoveIntent(j) !in journal && MoveComplete(j) !in journal
  }

  lemma RecordedOnward(journal: seq<Event>, e: Event, i: nat)
    requires Onward(journal) && Ahead(journal, i) && !RollbackRecord(e) && !e.Failure?
    requires e.MoveIntent? || e.MoveComplete? ==> e.i < i
    ensures Onward(journal + [e]) && Ahead(journal + [e], i)
  {
  }

  // A state of a run.  `placed` are the targets lying at their destination, `made` the directories
  // and audit files the run created, `active` the step in progress, `errored` the targets whose
  // rollback reported an error.
  datatype Snapshot = Snapshot(
    fs: FileSystem, journal: seq<Event>,
    placed: set<nat>, made: set<Path>, active: Option<nat>, errored: set<nat>)

  function Initial(fs: FileSystem): Snapshot {
    Snapshot(fs, [], {}, {}, None, {})
  }

  ghost predicate AtSource(plan: Plan, before: FileSystem, fs: FileSystem, i: nat)
    requires i < |plan.targets| && plan.Source(i) in before
  {
    plan.Source(i) in fs && fs[plan.Source(i)] == before[plan.Source(i)]
  }

  ghost predicate AtDestination(plan: Plan, before: FileSystem, fs: FileSystem, i: nat)
    requires i < |plan.targets| && plan.Source(i) in before
  {
    && plan.Source(i) !in fs
    && plan.Destination(i) in fs && fs[plan.Destination(i)] == before[plan.Source(i)]
  }

  // Nothing is lost, altered or duplicated: paths that are not targets keep their contents, each
  // target's contents lie at its source or at its destination and not at both, and every new path
  // is a placed target or something the run made.
  ghost predicate Conserved(plan: Plan, before: FileSystem, fs: FileSystem, placed: set<nat>, made: set<Path>) {
    && (forall i :: i in placed ==>
          && i < |plan.targets|
          && plan.Source(i) in before && before[plan.Source(i)].Regular?
          && plan.Destination(i) !in before && plan.Destination(i) !in made)
    && (forall path :: path in before && !plan.IsSource(path) ==>
          path in fs && fs[path] == before[path])
    && (forall i: nat :: i < |plan.targets| && plan.Source(i) in before ==>
          if i in placed then AtDestination(plan, before, fs, i) else AtSource(plan, before, fs, i))
    && (forall path :: path in fs && path !in before && path !in made ==>
          exists i :: i in placed && plan.Destination(i) == path)
    && made !! before.Keys && made <= fs.Keys
    && (forall path :: path in made && fs[path].Regular? ==> Within(path, plan.root))
  }

  // Where the journal's last finished step leaves target i.
  predicate BelievedMoved(journal: seq<Event>, i: nat) {
    MoveComplete(i) in journal && RollbackVerified(i) !in journal
  }

  // What the journal says of the target is not where the target lies.
  predicate Misread(s: Snapshot, i: nat) {
    (i in s.placed) != BelievedMoved(s.journal, i)
  }

  // The journal runs ahead of the disk: a target at its destination was announced first and no
  // verified rollback claims it back; a completed move nobody started to undo is on disk; and disk
  // and journal disagree only on the step in progress and on targets whose rollback failed.
  ghost predicate Agreement(journal: seq<Event>, placed: set<nat>, active: Option<nat>, errored: set<nat>) {
    && (forall i :: i in placed ==> MoveIntent(i) in journal && RollbackVerified(i) !in journal)
    && (forall i: nat :: MoveComplete(i) in journal && RollbackIntent(i) !in journal ==> i in placed)
    && (forall i: nat :: RollbackVerified(i) in journal ==> RollbackIntent(i) in journal)
    && (forall i: nat :: active != Some(i) && i !in errored ==>
          (i in placed <==> BelievedMoved(journal, i)))
  }

  ghost predicate Safe(plan: Plan, before: FileSystem, s: Snapshot) {
    && Conserved(plan, before, s.fs, s.placed, s.made)
    && Agreement(s.journal, s.placed, s.active, s.errored)
  }

  // One indivisible effect: a record is appended, a new path is created, or a file is renamed to a
  // free path.  No step deletes or overwrites.  (Last case: only the bookkeeping changes.)
  ghost predicate AtomicStep(a: Snapshot, b: Snapshot) {
    && a.made <= b.made && a.errored <= b.errored
    && (|| (b.fs == a.fs && exists e :: b.journal == a.journal + [e])
        || (b.journal == a.journal && exists path, node :: path !in a.fs && b.fs == Created(a.fs, path, node))
        || (b.journal == a.journal
            && exists source, destination ::
                 source in a.fs && destination !in a.fs && b.fs == Renamed(a.fs, source, destination))
        || (b.journal == a.journal && b.fs == a.fs))
  }

  // A run so far: it starts with nothing done, and every state is safe and follows from the one
  // before it by a single effect.
  ghost predicate SafeHistory(plan: Plan, before: FileSystem, history: seq<Snapshot>) {
    if history == [] then
      ValidPlan(plan) && Tree(before)
    else
      var last := |history| - 1;
      && Safe(plan, before, history[last]) && Tree(history[last].fs)
      && (if last == 0 then history[0] == Initial(before) else AtomicStep(history[last - 1], history[last]))
      && SafeHistory(plan, before, history[..last])
  }

  lemma ExtendHistory(plan: Plan, before: FileSystem, history: seq<Snapshot>, s: Snapshot)
    requires SafeHistory(plan, before, history) && Safe(plan, before, s) && Tree(s.fs)
    requires if history == [] then s == Initial(before) else AtomicStep(history[|history| - 1], s)
    ensures SafeHistory(plan, before, history + [s])
  {
    assert (history + [s])[..|history|] == history;
  }

  lemma {:induction false} HistoryHasValidPlan(plan: Plan, before: FileSystem, history: seq<Snapshot>)
    requires SafeHistory(plan, before, history)
    ensures ValidPlan(plan) && Tree(before)
  {
    if history != [] {
      HistoryHasValidPlan(plan, before, history[..|history| - 1]);
    }
  }

  lemma {:induction false} EveryPrefixIsSafe(
    plan: Plan, before: FileSystem, history: seq<Snapshot>, k: nat)
    requires SafeHistory(plan, before, history) && k < |history|
    ensures Safe(plan, before, history[k])
    ensures if k == 0 then history[0] == Initial(before) else AtomicStep(history[k - 1], history[k])
  {
    if k < |history| - 1 {
      EveryPrefixIsSafe(plan, before, history[..|history| - 1], k);
    }
  }

  // What someone who holds only the journal can conclude about a target.
  datatype Reading = ReadAtSource | ReadAtDestination | Undecided

  function ReadJournal(journal: seq<Event>, i: nat): Reading {
    if RollbackVerified(i) in journal || MoveIntent(i) !in journal then ReadAtSource
    else if MoveComplete(i) in journal && RollbackIntent(i) !in journal then ReadAtDestination
    else Undecided
  }

  lemma JournalReadingIsSound(plan: Plan, before: FileSystem, s: Snapshot, i: nat)
    requires Safe(plan, before, s)
    requires i < |plan.targets| && plan.Source(i) in before
    ensures ReadJournal(s.journal, i) == ReadAtSource ==> AtSource(plan, before, s.fs, i)
    ensures ReadJournal(s.journal, i) == ReadAtDestination ==> AtDestination(plan, before, s.fs, i)
  {
    if i in s.placed {
      assert MoveIntent(i) in s.journal && RollbackVerified(i) !in s.journal;
    } else if MoveComplete(i) in s.journal {
      assert RollbackIntent(i) in s.journal;
    }
  }

  // The whole tree, spelled out: what was there less the placed sources, what the run made, and
  // the placed contents.  So no file contents are ever in two places.
  lemma EveryPathAccountedFor(plan: Plan, before: FileSystem, s: Snapshot, path: Path)
    requires ValidPlan(plan) && Safe(plan, before, s)
    ensures path in before ==>
              (path !in s.fs <==> exists i :: i in s.placed && plan.Source(i) == path)
    ensures path in s.fs && path !in before && path !in s.made ==>
              exists i :: i in s.placed && plan.Destination(i) == path
                          && forall j :: j in s.placed && plan.Destination(j) == path ==> j == i
  {
    if path in before && path !in s.fs {
      assert plan.IsSource(path);
      var i: nat :| i < |plan.targets| && plan.Source(i) == path;
      assert i in s.placed;
    }
    if path in s.fs && path !in before && path !in s.made {
      var i :| i in s.placed && plan.Destination(i) == path;
      forall j | j in s.placed && plan.Destination(j) == path
        ensures j == i
      {
        // destinations are pairwise distinct in a valid plan
      }
    }
  }

  // The two ways to be misread: lying at the destination without a completion record, and being back
  // with a completion record that no verified rollback takes back.
  lemma MisreadExactly(plan: Plan, before: FileSystem, s: Snapshot, i: nat)
    requires Safe(plan, before, s)
    ensures Misread(s, i) <==>
              if i in s.placed then MoveComplete(i) !in s.journal
              else MoveComplete(i) in s.journal && RollbackVerified(i) !in s.journal
  {
  }

  // Disk and journal disagree on at most the step in progress and one more target for every
  // rollback error.
  lemma DisagreementIsBounded(plan: Plan, before: FileSystem, s: Snapshot, wrong: set<nat>)
    requires Safe(plan, before, s)
    requires forall i :: i in wrong ==> Misread(s, i)
    ensures |wrong| <= |s.errored| + 1
    ensures s.active == None ==> wrong <= s.errored
  {
    var suspects := s.errored + if s.active == None then {} else {s.active.value};
    assert wrong <= suspects;
    SubsetIsSmaller(wrong, suspects);
  }

  lemma {:induction false} ErrorsOnlyGrow(plan: Plan, before: FileSystem, history: seq<Snapshot>, k: nat)
    requires SafeHistory(plan, before, history) && k < |history|
    ensures history[k].errored <= history[|history| - 1].errored
    decreases |history| - k
  {
    hide SafeHistory, Safe;
    if k < |history| - 1 {
      EveryPrefixIsSafe(plan, before, history, k + 1);
      ErrorsOnlyGrow(plan, before, history, k + 1);
    }
  }

  // So it is at every moment of a run, counting the errors the run ends with.
  lemma NeverMoreThanErrors(
    plan: Plan, before: FileSystem, history: seq<Snapshot>, k: nat, wrong: set<nat>)
    requires SafeHistory(plan, before, history) && k < |history|
    requires forall i :: i in wrong ==> Misread(history[k], i)
    ensures |wrong| <= |history[|history| - 1].errored| + 1
  {
    EveryPrefixIsSafe(plan, before, history, k);
    ErrorsOnlyGrow(plan, before, history, k);
    DisagreementIsBounded(plan, before, history[k], wrong);
    SubsetIsSmaller(history[k].errored, history[|history| - 1].errored);
  }
}
