/** The journaled move of a manifest's targets into quarantine, with reverse-order rollback.

    Every operation on the file system or the journal that may raise takes the next number of `clock`
    and asks `faults` how it fares, so a statement about these methods for an arbitrary `faults` is a
    statement about every choice of failing operations.  `history` records the state after every
    effect and only grows, so "every state of the history" means every moment of the run. */
module QuarantineRun {
  import opened Paths
  import opened Bytes
  import opened Wrappers
  import opened Sets
  import opened QuarantineState
  import opened QuarantineSteps
  import opened QuarantineFaults
  import opened QuarantineLayout

  datatype Outcome =
    | Completed
    | Refused                                 // raised before the first target was touched
    | RolledBack                              // "every completed move was rolled back"
    | RollbackIncomplete(errors: seq<nat>)    // the targets whose rollback raised
    | CloseFailed(hidden: Outcome)            // closing the journal raised in place of the outcome

  // The outcome of the transaction itself.
  function Inner(outcome: Outcome): Outcome {
    if outcome.CloseFailed? then Inner(outcome.hidden) else outcome
  }

  lemma {:induction false} InnerIsNoClosing(outcome: Outcome)
    ensures !Inner(outcome).CloseFailed?
  {
    if outcome.CloseFailed? {
      InnerIsNoClosing(outcome.hidden);
    }
  }

  function ErrorsOf(outcome: Outcome): seq<nat> {
    var inner := Inner(outcome);
    if inner.RollbackIncomplete? then inner.errors else []
  }

  const STATE_REFERENCE_KEYS: set<string> := {
    "transfers_by_blob_or_original_name", "chunk_availability_by_chunk_or_blob",
    "chunk_sources_by_chunk", "blobs_by_hash", "file_index_cache_by_blob",
    "folder_manifest_by_blob", "folder_audit_by_blob",
    "manifest_conflicts_by_local_or_remote_blob" }

  // How many operations it takes to move target i, and the first m targets.
  function MoveOperations(plan: Plan, i: nat): nat
    requires i < |plan.targets|
  {
    9 + DirectoriesOf(plan.targets[i].relative)
  }

  function OperationsUpTo(plan: Plan, m: nat): nat
    requires m <= |plan.targets|
  {
    if m == 0 then 0 else OperationsUpTo(plan, m - 1) + MoveOperations(plan, m - 1)
  }

  function DirectoriesOf(relative: Path): nat {
    if relative == [] then 0 else |relative| - 1
  }

  // The records of the first m targets' moves.
  function MovesRecorded(m: nat): (records: seq<Event>)
    ensures |records| == 3 * m
    ensures forall k: nat :: k < m ==>
              && records[3 * k] == MoveIntent(k) && records[3 * k + 1] == MoveComplete(k)
              && records[3 * k + 2] == MoveVerified(k)
  {
    if m == 0 then [] else MovesRecorded(m - 1) + [MoveIntent(m - 1), MoveComplete(m - 1), MoveVerified(m - 1)]
  }

  ghost predicate MovesFollow(older: seq<Event>, journal: seq<Event>, m: nat) {
    journal == older + MovesRecorded(m)
  }

  // The records of a completed run: of every move in turn, then of the second look at all of them.
  ghost predicate WholeJournal(older: seq<Event>, journal: seq<Event>, m: nat) {
    journal == older + MovesRecorded(m) + [AllMovesVerified(m)]
  }

  lemma AllFollow(older: seq<Event>, journal: seq<Event>, m: nat)
    requires MovesFollow(older, journal, m)
    ensures WholeJournal(older, journal + [AllMovesVerified(m)], m)
  {
  }

  lemma NothingFollows(journal: seq<Event>)
    ensures MovesFollow(journal, journal, 0)
  {
  }

  lemma NextFollows(older: seq<Event>, journal: seq<Event>, m: nat)
    requires MovesFollow(older, journal, m)
    ensures MovesFollow(older, journal + [MoveIntent(m), MoveComplete(m), MoveVerified(m)], m + 1)
  {
  }

  lemma FollowingAreIn(older: seq<Event>, journal: seq<Event>, m: nat)
    requires MovesFollow(older, journal, m)
    ensures forall i: nat :: i < m ==> MoveComplete(i) in journal && MoveVerified(i) in journal
  {
    var records := MovesRecorded(m);
    forall i: nat | i < m
      ensures MoveComplete(i) in journal && MoveVerified(i) in journal
    {
      assert records[3 * i + 1] == MoveComplete(i) && records[3 * i + 2] == MoveVerified(i);
      assert MoveComplete(i) in records && MoveVerified(i) in records;
    }
  }

  // How many components of the path do not exist.
  function Missing(path: Path, fs: FileSystem): nat {
    if path == [] || path in fs then 0 else 1 + Missing(Parent(path), fs)
  }

  lemma {:induction false} MissingIs(path: Path, fs: FileSystem, depth: nat)
    requires depth <= |path| && path[..depth] in fs
    requires forall k :: depth < k <= |path| ==> path[..k] !in fs
    ensures Missing(path, fs) == |path| - depth
    decreases |path|
  {
    assert path[..|path|] == path;
    if depth < |path| {
      assert forall k :: 0 <= k < |path| ==> Parent(path)[..k] == path[..k];
      MissingIs(Parent(path), fs, depth);
    }
  }

  lemma {:induction false} OperationsGrow(plan: Plan, m: nat, n: nat)
    requires m <= n <= |plan.targets|
    ensures OperationsUpTo(plan, m) <= OperationsUpTo(plan, n)
  {
    if m < n {
      OperationsGrow(plan, m, n - 1);
    }
  }

  class Run {
    const plan: Plan
    const digestOf: Data -> string
    const faults: Faults
    ghost const before: FileSystem       // the file tree the run starts from

    var clock: nat                       // operations attempted so far
    var fs: FileSystem
    var journal: seq<Event>
    var moved: seq<nat>                  // targets whose rename returned, in order
    ghost var history: seq<Snapshot>
    ghost var rollbackFrom: nat          // the first operation of the rollback, and the journal then
    ghost var recordedBefore: seq<Event>

    constructor (plan: Plan, digestOf: Data -> string, faults: Faults, fs: FileSystem)
      requires ValidPlan(plan) && Tree(fs)
      ensures Valid() && Untouched() && history == [Initial(fs)] && clock == 0
      ensures this.plan == plan && this.digestOf == digestOf && this.faults == faults
      ensures this.fs == before == fs
    {
      this.plan, this.digestOf, this.faults := plan, digestOf, faults;
      this.fs, before, journal, moved, clock := fs, fs, [], [], 0;
      history, rollbackFrom, recordedBefore := [Initial(fs)], 0, [];
      new;
      StartIsSafe(plan, fs);
    }

    ghost predicate Valid()
      reads this`history, this`fs, this`journal
    {
      && history != [] && SafeHistory(plan, before, history)
      && Last(history).fs == fs && Last(history).journal == journal
    }

    ghost function Now(): Snapshot
      requires history != []
      reads this`history
    {
      Last(history)
    }

    // No target has been announced, moved or rolled back.
    ghost predicate Untouched()
      reads this`history, this`moved
    {
      history != [] && Forward(Now(), 0) && moved == []
    }

    // The first m targets were moved, checked against the manifest, and not yet rolled back.
    ghost predicate MovedUpTo(m: nat)
      reads this`moved
    {
      && m <= |plan.targets| && |moved| == m
      && (forall k: nat :: k < m ==> moved[k] == k && Eligible(k))
    }

    ghost predicate ReadyToRollBack()
      reads this`history, this`journal, this`moved
    {
      && history != [] && MovedUpTo(|moved|)
      && (forall j: nat :: j in Now().placed <==> j < |moved|)
      && Now().active in {None, Some(|moved| - 1)} && Now().errored == {}
      && (forall e :: e in journal ==> !RollbackRecord(e))
    }

    // The operations since number `start` all worked.
    ghost predicate Clean(start: nat)
      reads this`clock
    {
      start <= clock && AllWork(faults, start, clock)
    }

    // The latest operation is the first since `start` to fail.
    ghost predicate Stopped(start: nat)
      reads this`clock
    {
      start < clock && AllWork(faults, start, clock - 1) && faults(clock - 1) != Works
    }

    ghost predicate FaultSince(start: nat)
      reads this`clock
    {
      exists k: nat :: start <= k < clock && faults(k) != Works
    }

    // The target's file, as the run found it, is the one the manifest pins.
    ghost predicate Pinned(i: nat) {
      && i < |plan.targets|
      && plan.Source(i) in before
      && Matches(before[plan.Source(i)], i)
    }

    // The target may move: its source lies below the root approved for its kind, and the components
    // of its destination's directories are plain names.
    ghost predicate Eligible(i: nat) {
      && Pinned(i)
      && plan.targets[i].kind in plan.allowed
      && Within(plan.Source(i), plan.allowed[plan.targets[i].kind])
      && PlainParents(plan.targets[i].relative)
    }

    // The moves that can be carried out.
    ghost predicate Doable() {
      Feasible(plan, before) && forall i: nat :: i < |plan.targets| ==> Eligible(i)
    }

    predicate Matches(node: Node, i: nat)
      requires i < |plan.targets|
    {
      && node.Regular?
      && |node.data| == plan.targets[i].size
      && digestOf(node.data) == plan.targets[i].digest
    }

    // ---------------------------------------------------------------- single operations

    // An operation that only reads the file tree.
    method Probe() returns (raised: bool)
      modifies this`clock
      ensures clock == old(clock) + 1
      ensures if raised then Stopped(old(clock)) else Clean(old(clock))
    {
      raised := faults(clock) != Works;
      clock := clock + 1;
    }

    method Append(e: Event, ghost next: Snapshot) returns (raised: bool)
      requires Valid() && next.fs == fs && next.journal == journal + [e]
      requires SafeHistory(plan, before, history + [next])
      modifies this`clock, this`journal, this`history
      ensures Valid() && clock == old(clock) + 1
      ensures history == if faults(old(clock)) == RaisesBefore then old(history) else old(history) + [next]
      ensures if raised then Stopped(old(clock)) else Clean(old(clock))
    {
      hide SafeHistory;
      var fault := faults(clock);
      clock := clock + 1;
      raised := fault != Works;
      if fault != RaisesBefore {
        journal := journal + [e];
        history := history + [next];
      }
    }

    // A record whose loss changes nothing about where a target lies.
    method Note(e: Event) returns (raised: bool)
      requires Valid() && Neutral(e)
      modifies this`clock, this`journal, this`history
      ensures Valid() && clock == old(clock) + 1
      ensures history ==
                if faults(old(clock)) == RaisesBefore then old(history) else old(history) + [Noted(old(Now()), e)]
      ensures if raised then Stopped(old(clock)) else Clean(old(clock))
    {
      hide SafeHistory;
      NoteIsSafe(plan, before, history, e);
      raised := Append(e, Noted(Now(), e));
    }

    // Creates a directory or an exclusive file at a free path below an existing directory.
    method Create(path: Path, node: Node) returns (raised: bool)
      requires Valid() && path != [] && path !in before
      requires node.Regular? ==> Within(path, plan.root)
      modifies this`clock, this`fs, this`history
      ensures Valid() && clock == old(clock) + 1
      ensures !raised ==>
                && Clean(old(clock)) && path !in old(fs)
                && history == old(history) + [Grown(old(Now()), path, node)]
      ensures history == old(history) || exists n :: history == old(history) + [Grown(old(Now()), path, n)]
      ensures raised && path !in old(fs) && IsDirectory(old(fs), Parent(path)) ==> Stopped(old(clock))
    {
      hide SafeHistory;
      var fault := faults(clock);
      clock := clock + 1;
      if fault == RaisesBefore || path in fs || !IsDirectory(fs, Parent(path)) {
        return true;
      }
      raised := fault != Works;
      var found := if node.Regular? && raised then Regular(fault.partial) else node;
      CreateIsSafe(plan, before, history, path, found);
      history := history + [Grown(Now(), path, found)];
      assert history == old(history) + [Grown(old(Now()), path, found)];
      fs := Created(fs, path, found);
    }

    method AtomicRenameNoReplace(source: Path, destination: Path, ghost next: Snapshot) returns (raised: bool)
      requires Valid()
      requires Renamable(fs, source, destination) ==>
                 && next.fs == Renamed(fs, source, destination) && next.journal == journal
                 && SafeHistory(plan, before, history + [next])
      modifies this`clock, this`fs, this`history
      ensures Valid() && clock == old(clock) + 1
      ensures raised ==> history == old(history) && fs == old(fs)
      ensures raised && Renamable(old(fs), source, destination) ==> Stopped(old(clock))
      ensures !raised ==>
                && Clean(old(clock)) && Renamable(old(fs), source, destination)
                && history == old(history) + [next]
    {
      hide SafeHistory;
      var fault := faults(clock);
      clock := clock + 1;
      if fault != Works || !Renamable(fs, source, destination) {
        return true;
      }
      fs := Renamed(fs, source, destination);
      history := history + [next];
      return false;
    }

    // Lexical containment, and every component from the root down exists.
    method AssertExistingPathChain(path: Path, root: Path) returns (raised: bool)
      requires Valid()
      modifies this`clock
      ensures clock == old(clock) + 1
      ensures !raised ==> Clean(old(clock)) && Within(path, root) && path in fs
      ensures raised && Within(path, root) && path in fs ==> Stopped(old(clock))
    {
      hide SafeHistory;
      LastIsTree(plan, before, history);
      raised := Probe();
      if raised || !Within(path, root) {
        return true;
      }
      for k := |root| to |path|
        invariant k > |root| ==> path[..k] in fs
      {
        if path[..k + 1] !in fs {
          if path in fs {
            AncestorsExist(fs, path, k + 1);
          }
          return true;
        }
      }
      if path == root && path !in fs {
        return true;
      }
      assert path[..|path|] == path;
      return false;
    }

    method ValidateTargetSource(i: nat) returns (raised: bool)
      requires Valid() && i < |plan.targets| && plan.targets[i].kind in plan.allowed
      modifies this`clock
      ensures old(clock) < clock <= old(clock) + 2
      ensures !raised ==>
                && clock == old(clock) + 2 && Clean(old(clock))
                && Within(plan.Source(i), plan.allowed[plan.targets[i].kind])
                && plan.Source(i) in fs && Matches(fs[plan.Source(i)], i)
      ensures Within(plan.Source(i), plan.allowed[plan.targets[i].kind])
              && plan.Source(i) in fs && Matches(fs[plan.Source(i)], i)
              ==> !raised || Stopped(old(clock))
    {
      hide SafeHistory;
      raised := AssertExistingPathChain(plan.Source(i), plan.allowed[plan.targets[i].kind]);
      if raised || !Matches(fs[plan.Source(i)], i) {
        return true;
      }
      raised := Probe();  // the same-volume check
    }

    method VerifyMovedDestination(i: nat) returns (raised: bool)
      requires Valid() && i < |plan.targets|
      modifies this`clock
      ensures clock == old(clock) + 1
      ensures !raised ==>
                && Clean(old(clock)) && plan.Source(i) !in fs && plan.Destination(i) in fs
                && Matches(fs[plan.Destination(i)], i)
      ensures plan.Source(i) !in fs && plan.Destination(i) in fs && Matches(fs[plan.Destination(i)], i)
              ==> !raised || Stopped(old(clock))
    {
      hide SafeHistory;
      if plan.Source(i) in fs {
        clock := clock + 1;
        return true;
      }
      raised := AssertExistingPathChain(plan.Destination(i), plan.root);
      if raised || !Matches(fs[plan.Destination(i)], i) {
        return true;
      }
    }

    // ---------------------------------------------------------------- directories and audit files

    method MkdirExact(path: Path) returns (raised: bool)
      requires Valid() && path != [] && path !in before
      modifies this`clock, this`fs, this`history
      ensures clock == old(clock) + 1
      ensures Valid() && old(history) <= history && OnlyGrew(old(Now()), Now())
      ensures forall p :: p in Now().made && p !in old(Now()).made ==> p == path
      ensures !raised ==>
                && Clean(old(clock))
                && (|| (IsDirectory(old(fs), path) && Now() == old(Now()))
                    || (path !in old(fs) && Now() == Grown(old(Now()), path, Directory)))
      ensures IsDirectory(old(fs), Parent(path)) && (path in old(fs) ==> IsDirectory(old(fs), path))
              ==> !raised || Stopped(old(clock))
    {
      hide SafeHistory;
      if path in fs {
        raised := Probe();
        return raised || !IsDirectory(fs, path);
      }
      raised := Create(path, Directory);
    }

    method WriteExclusive(path: Path, data: Data) returns (raised: bool)
      requires Valid() && path != plan.root && Within(path, plan.root) && Tree(before) && plan.root !in before
      modifies this`clock, this`fs, this`history
      ensures clock == old(clock) + 1
      ensures Valid() && old(history) <= history && OnlyGrew(old(Now()), Now())
      ensures !raised ==>
                Clean(old(clock)) && path !in old(fs) && Now() == Grown(old(Now()), path, Regular(data))
      ensures raised && path !in old(fs) && IsDirectory(old(fs), Parent(path)) ==> Stopped(old(clock))
    {
      hide SafeHistory;
      NothingBelow(before, plan.root, path);
      raised := Create(path, Regular(data));
    }

    lemma JustWritten(earlier: Snapshot, path: Path, data: Data)
      requires history != [] && Now() == Grown(earlier, path, Regular(data))
      ensures Wrote(history, path, data)
    {
      assert path in Now().made;
    }

    method WriteAuditFile(name: string, data: Data, ghost files: set<string>) returns (raised: bool)
      requires Valid() && plan.root !in before && name in AUDIT_FILES - files
      requires Built(plan, before, Now(), files)
      modifies this`clock, this`fs, this`history
      ensures clock == old(clock) + 1
      ensures Valid() && old(history) <= history && OnlyGrew(old(Now()), Now())
      ensures !raised ==>
                && Clean(old(clock)) && Built(plan, before, Now(), files + {name})
                && Wrote(history, Audit(plan, name), data)
      ensures raised && Feasible(plan, before) ==> Stopped(old(clock))
    {
      AuditRoom(name, files);
      hide SafeHistory, Built, Feasible, Tree, Wrote;
      raised := WriteExclusive(Audit(plan, name), data);
      if !raised {
        JustWritten(old(Now()), Audit(plan, name), data);
        FileStaysBuilt(plan, before, old(Now()), files, name, data);
      }
    }

    lemma AuditRoom(name: string, files: set<string>)
      requires Valid() && name in AUDIT_FILES - files && Built(plan, before, Now(), files)
      ensures Tree(before)
      ensures IsDirectory(fs, Parent(Audit(plan, name)))
      ensures Feasible(plan, before) ==> Audit(plan, name) !in fs
    {
      HistoryHasValidPlan(plan, before, history);
      assert Parent(Audit(plan, name)) == AuditDirectory(plan);
      if Feasible(plan, before) {
        AuditIsFree(plan, before, Now(), files, name);
      }
    }

    method MkdirDestinationParents(i: nat) returns (raised: bool)
      requires Valid() && i < |plan.targets| && plan.root !in before
      requires Tree(before) && Built(plan, before, Now(), OPENING_FILES)
      modifies this`clock, this`fs, this`history
      ensures old(clock) <= clock <= old(clock) + DirectoriesOf(plan.targets[i].relative)
      ensures Valid() && old(history) <= history && OnlyGrew(old(Now()), Now())
      ensures forall p :: p in Now().made && p !in old(Now()).made ==> plan.root < p < plan.Destination(i)
      ensures !raised ==>
                && clock == old(clock) + DirectoriesOf(plan.targets[i].relative) && Clean(old(clock))
                && Built(plan, before, Now(), OPENING_FILES) && PlainParents(plan.targets[i].relative)
                && (plan.targets[i].relative != [] ==> IsDirectory(fs, Parent(plan.Destination(i))))
      ensures raised && Feasible(plan, before) && PlainParents(plan.targets[i].relative) ==> Stopped(old(clock))
    {
      hide SafeHistory, Feasible, Tree, Built;
      var relative := plan.targets[i].relative;
      var parents := DirectoriesOf(relative);
      assert plan.root + relative[..0] == plan.root;
      RootStands(OPENING_FILES);
      for k := 0 to parents
        invariant clock == old(clock) + k && Clean(old(clock))
        invariant Valid() && old(history) <= history && OnlyGrew(old(Now()), Now())
        invariant Built(plan, before, Now(), OPENING_FILES) && IsDirectory(fs, plan.root + relative[..k])
        invariant forall j :: 0 <= j < k ==> relative[j] !in {"", ".", ".."}
        invariant forall p :: p in Now().made && p !in old(Now()).made ==> plan.root < p < plan.Destination(i)
      {
        if relative[k] in {"", ".", ".."} {
          return true;
        }
        raised := MkdirOnTheWay(i, k);
        if raised {
          return true;
        }
      }
      assert relative != [] ==> plan.root + relative[..parents] == Parent(plan.Destination(i));
      return false;
    }

    lemma RootStands(files: set<string>)
      requires Valid() && Built(plan, before, Now(), files)
      ensures IsDirectory(fs, plan.root)
    {
    }

    method MkdirOnTheWay(i: nat, k: nat) returns (raised: bool)
      requires Valid() && i < |plan.targets| && k < |plan.targets[i].relative| - 1 && plan.root !in before
      requires Tree(before) && Built(plan, before, Now(), OPENING_FILES)
      requires IsDirectory(fs, plan.root + plan.targets[i].relative[..k])
      modifies this`clock, this`fs, this`history
      ensures clock == old(clock) + 1
      ensures Valid() && old(history) <= history && OnlyGrew(old(Now()), Now())
      ensures forall p :: p in Now().made && p !in old(Now()).made ==> plan.root < p < plan.Destination(i)
      ensures !raised ==>
                && Clean(old(clock)) && Built(plan, before, Now(), OPENING_FILES)
                && IsDirectory(fs, plan.root + plan.targets[i].relative[..k + 1])
      ensures raised && Feasible(plan, before) ==> Stopped(old(clock))
    {
      HistoryHasValidPlan(plan, before, history);
      var path := plan.root + plan.targets[i].relative[..k + 1];
      assert Parent(path) == plan.root + plan.targets[i].relative[..k];
      assert path < plan.Destination(i) && plan.root < path && OnTheWay(plan, path);
      NothingBelow(before, plan.root, path);
      if Feasible(plan, before) {
        WayIsDirectory(plan, before, Now(), OPENING_FILES, i, path);
      }
      hide SafeHistory, Built, Feasible, Tree, OnTheWay;
      raised := MkdirExact(path);
      if !raised && path !in old(fs) {
        DirectoryStaysBuilt(plan, before, old(Now()), OPENING_FILES, path);
      }
    }

    // Creates the missing components of the root, accepting none that already exists.
    method CreateNewQuarantineRoot() returns (raised: bool)
      requires Valid() && fs == before && Laid(plan, Now(), {})
      modifies this`clock, this`fs, this`history
      ensures old(clock) < clock <= old(clock) + 1 + Missing(plan.root, before)
      ensures Valid() && old(history) <= history && OnlyGrew(old(Now()), Now())
      ensures forall p :: p in Now().made && p !in old(Now()).made ==> p <= plan.root
      ensures !raised ==>
                && clock == old(clock) + 1 + Missing(plan.root, before) && Clean(old(clock))
                && plan.root !in before && IsDirectory(fs, plan.root) && Laid(plan, Now(), {})
      ensures raised && Feasible(plan, before) ==> Stopped(old(clock))
    {
      NewRoot();
      hide SafeHistory, Laid, Feasible;
      raised := Probe();
      if raised || plan.root in fs {
        return true;
      }
      var depth := DeepestExistingAncestor();
      MissingIs(plan.root, before, depth);
      raised := MkdirRootBelow(depth);
    }

    method MkdirRootBelow(depth: nat) returns (raised: bool)
      requires Valid() && depth < |plan.root| && Laid(plan, Now(), {})
      requires forall k :: depth < k <= |plan.root| ==> plan.root[..k] !in fs && plan.root[..k] !in before
      modifies this`clock, this`fs, this`history
      ensures old(clock) < clock <= old(clock) + |plan.root| - depth
      ensures Valid() && old(history) <= history && OnlyGrew(old(Now()), Now())
      ensures forall p :: p in Now().made && p !in old(Now()).made ==> p <= plan.root
      ensures !raised ==> clock == old(clock) + |plan.root| - depth && Clean(old(clock))
      ensures !raised ==> IsDirectory(fs, plan.root) && Laid(plan, Now(), {})
      ensures raised && IsDirectory(old(fs), plan.root[..depth]) ==> Stopped(old(clock))
    {
      hide SafeHistory, Laid;
      for k := depth to |plan.root|
        invariant clock == old(clock) + k - depth && Clean(old(clock))
        invariant Valid() && old(history) <= history && OnlyGrew(old(Now()), Now())
        invariant forall p :: p in Now().made && p !in old(Now()).made ==> p <= plan.root
        invariant Laid(plan, Now(), {})
        invariant k > depth || IsDirectory(old(fs), plan.root[..depth]) ==> IsDirectory(fs, plan.root[..k])
        invariant forall j :: k < j <= |plan.root| ==> plan.root[..j] !in fs
      {
        raised := MkdirRootComponent(k);
        if raised {
          return true;
        }
      }
      assert plan.root[..|plan.root|] == plan.root;
      return false;
    }

    // The number of components of the longest part of the root's path that exists.
    method DeepestExistingAncestor() returns (depth: nat)
      requires [] in fs && plan.root !in fs
      ensures depth < |plan.root| && plan.root[..depth] in fs
      ensures forall k :: depth < k <= |plan.root| ==> plan.root[..k] !in fs
    {
      assert plan.root[..|plan.root|] == plan.root && plan.root[..0] == [];
      depth := |plan.root|;
      while depth > 0 && plan.root[..depth] !in fs
        invariant depth <= |plan.root|
        invariant forall k :: depth < k <= |plan.root| ==> plan.root[..k] !in fs
      {
        depth := depth - 1;
      }
    }

    lemma NewRoot()
      requires Valid() && fs == before
      ensures [] in fs
      ensures Feasible(plan, before) ==> plan.root !in fs
      ensures Feasible(plan, before) ==>
                forall k :: 0 <= k < |plan.root| && plan.root[..k] in fs ==> IsDirectory(fs, plan.root[..k])
    {
      HistoryHasValidPlan(plan, before, history);
    }

    method MkdirRootComponent(k: nat) returns (raised: bool)
      requires Valid() && k < |plan.root| && Laid(plan, Now(), {})
      requires plan.root[..k + 1] !in before && plan.root[..k + 1] !in fs
      modifies this`clock, this`fs, this`history
      ensures clock == old(clock) + 1
      ensures Valid() && old(history) <= history && OnlyGrew(old(Now()), Now())
      ensures forall p :: p in Now().made && p !in old(Now()).made ==> p <= plan.root
      ensures !raised ==> Clean(old(clock)) && IsDirectory(fs, plan.root[..k + 1]) && Laid(plan, Now(), {})
      ensures forall j :: k + 1 < j <= |plan.root| && plan.root[..j] !in old(fs) ==> plan.root[..j] !in fs
      ensures raised && IsDirectory(old(fs), plan.root[..k]) ==> Stopped(old(clock))
    {
      hide SafeHistory, Laid;
      assert Parent(plan.root[..k + 1]) == plan.root[..k];
      raised := Create(plan.root[..k + 1], Directory);
      if !raised {
        DirectoryIsLaid(plan, old(Now()), {}, plan.root[..k + 1]);
      }
    }

    // ---------------------------------------------------------------- moving one target

    method RenameToDestination(i: nat) returns (raised: bool)
      requires Valid() && i < |plan.targets| && i !in Now().placed && Now().active == Some(i)
      requires MoveIntent(i) in journal && RollbackVerified(i) !in journal
      requires plan.Source(i) in before && before[plan.Source(i)].Regular?
      requires Renamable(fs, plan.Source(i), plan.Destination(i)) && plan.Destination(i) !in before
      modifies this`clock, this`fs, this`history
      ensures Valid() && clock == old(clock) + 1
      ensures if raised then Stopped(old(clock)) else Clean(old(clock))
      ensures raised ==> history == old(history)
      ensures !raised ==> plan.Source(i) in old(fs) && history == old(history) + [Placed(plan, old(Now()), i)]
    {
      hide SafeHistory;
      PlaceIsSafe(plan, before, history, i);
      raised := AtomicRenameNoReplace(plan.Source(i), plan.Destination(i), Placed(plan, Now(), i));
    }

    ghost method AbandonMove(i: nat)
      requires Valid() && i !in Now().placed && Now().active in {None, Some(i)}
      requires MoveComplete(i) !in journal
      modifies this`history
      ensures Valid() && history == old(history) + [Abandoned(old(Now()))]
    {
      hide SafeHistory;
      AbandonIsSafe(plan, before, history, i);
      history := history + [Abandoned(Now())];
    }

    method PrepareMove(i: nat) returns (raised: bool)
      requires Valid() && i < |plan.targets| && i !in Now().placed && plan.root !in before
      requires Built(plan, before, Now(), OPENING_FILES)
      modifies this`clock, this`fs, this`history
      ensures old(clock) < clock <= old(clock) + 3 + DirectoriesOf(plan.targets[i].relative)
      ensures Valid() && old(history) <= history && OnlyGrew(old(Now()), Now())
      ensures !raised ==>
                && clock == old(clock) + 3 + DirectoriesOf(plan.targets[i].relative) && Clean(old(clock))
                && Eligible(i) && plan.Destination(i) !in before && Built(plan, before, Now(), OPENING_FILES)
                && Renamable(fs, plan.Source(i), plan.Destination(i))
      ensures raised && Feasible(plan, before) && Eligible(i) ==> Stopped(old(clock))
    {
      hide SafeHistory, Built, Feasible, Tree, ValidPlan, AtSource, AtDestination, DirectoriesOf, PlainParents;
      BeforeMove(i);
      raised := ValidateTargetSource(i);
      if raised {
        return true;
      }
      AcceptedIsPinned(i);
      raised := MkdirDestinationParents(i);
      if raised {
        return true;
      }
      DestinationFound(i);
      raised := Probe();
      return raised || plan.Destination(i) in fs;
    }

    lemma BeforeMove(i: nat)
      requires Valid() && i < |plan.targets| && i !in Now().placed && plan.root !in before
      ensures plan.targets[i].kind in plan.allowed && Tree(before) && plan.Destination(i) !in before
      ensures Eligible(i) ==>
                && Within(plan.Source(i), plan.allowed[plan.targets[i].kind])
                && plan.Source(i) in fs && Matches(fs[plan.Source(i)], i)
    {
      HistoryHasValidPlan(plan, before, history);
      NothingBelow(before, plan.root, plan.Destination(i));
      if Eligible(i) {
        TargetLies(plan, before, history, i);
      }
    }

    lemma AcceptedIsPinned(i: nat)
      requires Valid() && i < |plan.targets| && i !in Now().placed && plan.targets[i].kind in plan.allowed
      requires Within(plan.Source(i), plan.allowed[plan.targets[i].kind])
      requires plan.Source(i) in fs && Matches(fs[plan.Source(i)], i)
      ensures Pinned(i)
    {
      HistoryHasValidPlan(plan, before, history);
      SourceIsOriginal(plan, before, Now(), i);
    }

    lemma DestinationFound(i: nat)
      requires Valid() && i < |plan.targets| && i !in Now().placed && Pinned(i)
      requires Built(plan, before, Now(), OPENING_FILES)
      ensures plan.Source(i) in fs && plan.Destination(i) != []
      ensures Feasible(plan, before) ==> plan.Destination(i) !in fs
      ensures plan.targets[i].relative == [] ==> plan.Destination(i) in fs
    {
      HistoryHasValidPlan(plan, before, history);
      TargetLies(plan, before, history, i);
      if Feasible(plan, before) {
        DestinationIsFree(plan, before, Now(), OPENING_FILES, i);
      }
      assert plan.targets[i].relative == [] ==> plan.Destination(i) == plan.root;
    }

    method AnnounceAndRename(i: nat) returns (raised: bool)
      requires Valid() && Forward(Now(), i) && Pinned(i)
      requires Renamable(fs, plan.Source(i), plan.Destination(i)) && plan.Destination(i) !in before
      modifies this`clock, this`fs, this`journal, this`history
      ensures old(clock) < clock <= old(clock) + 2
      ensures Valid() && old(history) <= history && old(journal) <= journal && Onward(journal)
      ensures Now().errored == {} && Ahead(journal, i + 1)
      ensures raised ==> Stopped(old(clock)) && Now().placed == old(Now().placed) && Now().active == None
      ensures !raised ==>
                && clock == old(clock) + 2 && Clean(old(clock))
                && Now() == Placed(plan, Announced(old(Now()), i), i)
    {
      hide SafeHistory;
      AnnounceIsSafe(plan, before, history, i);
      raised := Append(MoveIntent(i), Announced(Now(), i));
      if !raised {
        raised := RenameToDestination(i);
      }
      if raised {
        AbandonMove(i);
      }
    }

    lemma PlacingKeepsBuilt(i: nat)
      requires Valid() && i < |plan.targets| && Pinned(i) && Built(plan, before, Now(), OPENING_FILES)
      requires plan.Source(i) in fs && plan.Destination(i) !in fs
      ensures Built(plan, before, Placed(plan, Announced(Now(), i), i), OPENING_FILES)
    {
      PlacingStaysBuilt(plan, before, Now(), OPENING_FILES, i);
      SameTreeSameBuilt(plan, before, Placed(plan, Now(), i), Placed(plan, Announced(Now(), i), i), OPENING_FILES);
    }

    method ConfirmAndVerify(i: nat) returns (raised: bool)
      requires Valid() && i < |plan.targets| && Pinned(i)
      requires i in Now().placed && Now().active == Some(i) && Now().errored == {} && Onward(journal)
      requires Ahead(journal, i + 1)
      modifies this`clock, this`journal, this`history
      ensures old(clock) < clock <= old(clock) + 4
      ensures Valid() && old(history) <= history && old(journal) <= journal && Onward(journal)
      ensures Now().errored == {} && Now().placed == old(Now().placed) && Now().made == old(Now().made)
      ensures Now().active in {None, Some(i)}
      ensures raised ==> Stopped(old(clock))
      ensures !raised ==>
                && clock == old(clock) + 4 && Clean(old(clock))
                && Now().active == None && journal == old(journal) + [MoveComplete(i), MoveVerified(i)]
                && Ahead(journal, i + 1)
    {
      hide SafeHistory, Onward, Ahead, AtDestination;
      raised := Probe();  // publishing the rename durably
      if raised {
        return true;
      }
      ConfirmIsSafe(plan, before, history, i);
      RecordedOnward(journal, MoveComplete(i), i + 1);
      raised := Append(MoveComplete(i), Confirmed(Now(), i));
      if raised {
        return true;
      }
      ArrivedPinned(i);
      raised := VerifyMovedDestination(i);
      if raised {
        return true;
      }
      RecordedOnward(journal, MoveVerified(i), i + 1);
      raised := Note(MoveVerified(i));
    }

    lemma ArrivedPinned(i: nat)
      requires Valid() && i in Now().placed && Pinned(i)
      ensures plan.Source(i) !in fs && plan.Destination(i) in fs && Matches(fs[plan.Destination(i)], i)
    {
      TargetLies(plan, before, history, i);
    }

    // One iteration of the move loop.
    method MoveOne(i: nat) returns (raised: bool)
      requires Valid() && Forward(Now(), i) && MovedUpTo(i) && i < |plan.targets|
      requires plan.root !in before && Built(plan, before, Now(), OPENING_FILES)
      modifies this`clock, this`fs, this`journal, this`moved, this`history
      ensures old(clock) < clock <= old(clock) + MoveOperations(plan, i)
      ensures Valid() && old(history) <= history && old(journal) <= journal && Onward(journal)
      ensures !raised ==>
                && clock == old(clock) + MoveOperations(plan, i) && Clean(old(clock))
                && Forward(Now(), i + 1) && MovedUpTo(i + 1)
                && journal == old(journal) + [MoveIntent(i), MoveComplete(i), MoveVerified(i)]
                && Built(plan, before, Now(), OPENING_FILES)
      ensures raised ==> ReadyToRollBack()
      ensures raised && Feasible(plan, before) && Eligible(i) ==> Stopped(old(clock))
    {
      hide SafeHistory, Built, Feasible, Tree, DirectoriesOf;
      raised := PrepareMove(i);
      if raised {
        return true;
      }
      PlacingKeepsBuilt(i);
      raised := AnnounceAndRename(i);
      if raised {
        return true;
      }
      moved := moved + [i];
      ghost var placed := Now();
      raised := ConfirmAndVerify(i);
      SameTreeSameBuilt(plan, before, placed, Now(), OPENING_FILES);
    }

    // ---------------------------------------------------------------- rolling back

    // The proof that the quarantined file is still the target; it holds unless reading fails.
    method ProveDestination(i: nat) returns (raised: bool)
      requires Valid() && i in Now().placed && Pinned(i)
      modifies this`clock
      ensures clock == old(clock) + 1
      ensures if raised then Stopped(old(clock)) else Clean(old(clock))
    {
      hide SafeHistory;
      TargetLies(plan, before, history, i);
      raised := AssertExistingPathChain(plan.Destination(i), plan.root);
      return plan.Source(i) in fs || raised || !Matches(fs[plan.Destination(i)], i);
    }

    method RenameToSource(i: nat) returns (raised: bool)
      requires Valid() && i in Now().placed && Now().active == Some(i) && i < |plan.targets|
      requires RollbackIntent(i) in journal
      modifies this`clock, this`fs, this`history
      ensures Valid() && clock == old(clock) + 1
      ensures if raised then Stopped(old(clock)) else Clean(old(clock))
      ensures raised ==> history == old(history)
      ensures !raised ==> plan.Destination(i) in old(fs)
                          && history == old(history) + [Restored(plan, old(Now()), i)]
    {
      hide SafeHistory;
      RestoreIsSafe(plan, before, history, i);
      raised := AtomicRenameNoReplace(plan.Destination(i), plan.Source(i), Restored(plan, Now(), i));
    }

    // The first two operations of a rollback: proof and intent.
    method UndoAnnounce(i: nat) returns (raised: bool)
      requires Valid() && i in Now().placed && Now().active in {None, Some(i)} && Pinned(i)
      modifies this`clock, this`journal, this`history
      ensures Valid() && old(history) <= history
      ensures clock == old(clock) + (if faults(old(clock)) == Works then 2 else 1)
      ensures if raised then Stopped(old(clock)) else Clean(old(clock)) && clock == old(clock) + 2
      ensures journal == old(journal)
                         + (if faults(old(clock)) == Works && faults(old(clock) + 1) != RaisesBefore
                            then [RollbackIntent(i)] else [])
      ensures Now().placed == old(Now()).placed
      ensures Now().errored == old(Now()).errored && Now().made == old(Now()).made
      ensures Now().active in {None, Some(i)} && (!raised ==> Now().active == Some(i))
    {
      hide SafeHistory;
      raised := ProveDestination(i);
      if raised {
        return true;
      }
      UndoAnnounceIsSafe(plan, before, history, i);
      raised := Append(RollbackIntent(i), UndoAnnounced(Now(), i));
    }

    // With the rename.
    method UndoRename(i: nat) returns (raised: bool)
      requires Valid() && i in Now().placed && Now().active in {None, Some(i)} && Pinned(i)
      modifies this`clock, this`fs, this`journal, this`history
      ensures Valid() && old(history) <= history
      ensures var d := Working(faults, old(clock), 3);
              && (raised <==> d < 3) && clock == old(clock) + (if raised then d + 1 else d)
              && journal == old(journal)
                            + (if d >= 2 || (d == 1 && faults(old(clock) + 1) != RaisesBefore)
                               then [RollbackIntent(i)] else [])
      ensures Now().placed == if raised then old(Now()).placed else old(Now()).placed - {i}
      ensures Now().errored == old(Now()).errored && Now().made == old(Now()).made
      ensures Now().active in {None, Some(i)}
      ensures !raised ==> i !in Now().placed && Now().active == Some(i)
    {
      hide SafeHistory, Working, Matches;
      assert i < |plan.targets|;
      raised := UndoAnnounce(i);
      if raised {
        WorkingIs(faults, old(clock), 3, clock - old(clock) - 1);
        return true;
      }
      raised := RenameToSource(i);
      WorkingIs(faults, old(clock), 3, if raised then 2 else 3);
    }

    // The last two: publishing the rename durably, and the record of the restored file.
    method ConfirmUndone(i: nat) returns (raised: bool)
      requires Valid() && i !in Now().placed && Now().active == Some(i) && Pinned(i)
      requires RollbackIntent(i) in journal
      modifies this`clock, this`journal, this`history
      ensures Valid() && old(history) <= history
      ensures var d := Working(faults, old(clock), 2);
              && (raised <==> d < 2) && clock == old(clock) + (if raised then d + 1 else d)
              && journal == old(journal)
                            + (if d == 2 || (d == 1 && faults(old(clock) + 1) != RaisesBefore)
                               then [RollbackVerified(i)] else [])
      ensures Now().placed == old(Now()).placed
      ensures Now().errored == old(Now()).errored && Now().made == old(Now()).made
      ensures Now().active in {None, Some(i)} && (!raised ==> Now().active == None)
    {
      hide SafeHistory, Working;
      raised := Probe();
      if raised {
        WorkingIs(faults, old(clock), 2, 0);
        return true;
      }
      TargetLies(plan, before, history, i);
      if !Matches(fs[plan.Source(i)], i) {
        assert false;
      }
      UndoConfirmIsSafe(plan, before, history, i);
      raised := Append(RollbackVerified(i), UndoConfirmed(Now(), i));
      WorkingIs(faults, old(clock), 2, if raised then 1 else 2);
    }

    // The body of the rollback loop, up to its handler.  Where the target ends up and what the
    // journal says of it depend on the operation that fails first, and on nothing else.
    method RollbackOne(i: nat) returns (raised: bool)
      requires Valid() && i in Now().placed && Now().active in {None, Some(i)} && Pinned(i)
      modifies this`clock, this`fs, this`journal, this`history
      ensures Valid() && old(history) <= history
      ensures var d := Reached(faults, old(clock));
              && (raised <==> d < ROLLBACK_OPERATIONS)
              && clock == old(clock) + if raised then d + 1 else d
      ensures Now().placed ==
                if RenamedBack(faults, old(clock)) then old(Now()).placed - {i} else old(Now()).placed
      ensures journal == old(journal)
                         + (if IntentRecorded(faults, old(clock)) then [RollbackIntent(i)] else [])
                         + (if VerifiedRecorded(faults, old(clock)) then [RollbackVerified(i)] else [])
      ensures Now().errored == old(Now()).errored && Now().made == old(Now()).made
      ensures Now().active in {None, Some(i)} && (!raised ==> Now().active == None)
    {
      hide SafeHistory, IntentRecorded, VerifiedRecorded, RenamedBack, Reached, Working, Pinned, AllWork;
      RollbackEnds(faults, old(clock));
      raised := UndoRename(i);
      if raised {
        return true;
      }
      raised := ConfirmUndone(i);
    }

    ghost method GiveUp(i: nat)
      requires Valid() && Now().active in {None, Some(i)}
      modifies this`history
      ensures Valid() && history == old(history) + [GivenUp(old(Now()), i)]
    {
      hide SafeHistory;
      GiveUpIsSafe(plan, before, history, i);
      history := history + [GivenUp(Now(), i)];
    }

    // One iteration of the rollback loop, with its handler.
    method RollbackStep(i: nat) returns (raised: bool)
      requires Valid() && i in Now().placed && Now().active in {None, Some(i)} && Pinned(i)
      modifies this`clock, this`fs, this`journal, this`history
      ensures Valid() && old(history) <= history
      ensures raised <==> Reached(faults, old(clock)) < ROLLBACK_OPERATIONS
      ensures clock == EndOf(faults, old(clock)) > old(clock)
      ensures raised ==> FaultSince(old(clock))
      ensures journal == old(journal) + Records(faults, i, old(clock))
      ensures Now().placed ==
                if RenamedBack(faults, old(clock)) then old(Now()).placed - {i} else old(Now()).placed
      ensures Now().errored == if raised then old(Now()).errored + {i} else old(Now()).errored
      ensures Now().active == None && Now().made == old(Now()).made
      // when the target is left misread
      ensures Misread(Now(), i) <==>
                if RenamedBack(faults, old(clock))
                then MoveComplete(i) in old(journal) && !VerifiedRecorded(faults, old(clock))
                else MoveComplete(i) !in old(journal)
    {
      hide SafeHistory, IntentRecorded, VerifiedRecorded, RenamedBack, Reached, Pinned, Misread, Records, EndOf;
      NotYetVerified(i);
      raised := RollbackOne(i);
      if raised {
        FirstFailure(faults, old(clock));
        GiveUp(i);
        var _ := Note(RollbackFailed(i));
      }
      RecordsAre(faults, i, old(clock));
      MisreadAfterStep(i, old(clock), old(journal));
    }

    lemma NotYetVerified(i: nat)
      requires Valid() && i in Now().placed
      ensures RollbackVerified(i) !in journal
    {
    }

    lemma MisreadAfterStep(i: nat, start: nat, recorded: seq<Event>)
      requires Valid() && journal == recorded + Records(faults, i, start) && RollbackVerified(i) !in recorded
      requires i in Now().placed <==> !RenamedBack(faults, start)
      ensures Misread(Now(), i) <==>
                if RenamedBack(faults, start)
                then MoveComplete(i) in recorded && !VerifiedRecorded(faults, start)
                else MoveComplete(i) !in recorded
    {
      hide SafeHistory, RenamedBack, VerifiedRecorded, IntentRecorded, FailureRecorded, Records, Misread;
      LastIsSafe();
      MisreadExactly(plan, before, Now(), i);
      RecordsHold(faults, i, start, MoveComplete(i));
      RecordsHold(faults, i, start, RollbackVerified(i));
    }

    // Every moved target is tried, last first; a failure is recorded and does not stop the rest.
    method RollbackMoves() returns (errors: seq<nat>)
      requires Valid() && ReadyToRollBack()
      modifies this`clock, this`fs, this`journal, this`history
      ensures clock >= old(clock)
      ensures Valid() && old(history) <= history
      ensures RolledBackFrom(old(clock), errors, old(journal))
      ensures old(journal) <= journal && LastFirst(journal[|old(journal)|..])
      ensures errors != [] ==> FaultSince(old(clock))
    {
      NothingUndone();
      hide *;
      errors := RollbackEach();
      AllUndone(old(clock), errors, old(journal));
    }

    method RollbackEach() returns (errors: seq<nat>)
      requires Valid() && MovedUpTo(|moved|) && Undone(clock, |moved|, [], journal)
      requires Now().active == None || (moved != [] && Now().active == Some(|moved| - 1))
      modifies this`clock, this`fs, this`journal, this`history
      ensures Valid() && old(history) <= history && clock >= old(clock)
      ensures Undone(old(clock), 0, errors, old(journal)) && Now().active == None
      ensures errors != [] ==> FaultSince(old(clock))
    {
      hide SafeHistory, Undone, Eligible, EndOf, StartOf, FaultSince;
      errors := [];
      var k := |moved|;
      while k > 0
        invariant 0 <= k <= |moved|
        invariant Valid() && old(history) <= history
        invariant clock == if k == |moved| then old(clock) else EndOf(faults, StartOf(faults, old(clock), |moved|, k))
        invariant clock >= old(clock)
        invariant Undone(old(clock), k, errors, old(journal))
        invariant Now().active == None || (k == |moved| && Now().active == Some(k - 1))
        invariant errors != [] ==> FaultSince(old(clock))
      {
        k := k - 1;
        errors := RollbackNext(k, errors, old(clock), old(journal));
      }
    }

    // Targets from k on were tried by the rollback that began with operation `start`, on the journal
    // `recorded`; it went as the failures from then on have it.
    ghost predicate Undone(start: nat, k: nat, errors: seq<nat>, recorded: seq<Event>)
      reads this`history, this`journal, this`moved
    {
      var m := |moved|;
      && history != [] && k <= m && journal == recorded + AllRecords(faults, start, m, k)
      && (forall j: nat :: j in errors <==> k <= j < m && StoppedShort(faults, start, m, j))
      && (forall j: nat :: j in Now().placed <==> j < k || (j < m && NotRenamed(faults, start, m, j)))
      && (forall j: nat :: j in Now().errored <==> j in errors)
    }

    ghost predicate RolledBackFrom(start: nat, errors: seq<nat>, recorded: seq<Event>)
      reads this`history, this`journal, this`moved
    {
      && Undone(start, 0, errors, recorded) && Now().active == None
      && forall e :: e in recorded ==> !RollbackRecord(e)
    }

    lemma NothingUndone()
      requires Valid() && ReadyToRollBack()
      ensures Undone(clock, |moved|, [], journal) && MovedUpTo(|moved|)
      ensures Now().active == None || (moved != [] && Now().active == Some(|moved| - 1))
      ensures forall e :: e in journal ==> !RollbackRecord(e)
    {
      hide SafeHistory;
    }

    lemma AllUndone(start: nat, errors: seq<nat>, recorded: seq<Event>)
      requires Undone(start, 0, errors, recorded) && Now().active == None
      requires forall e :: e in recorded ==> !RollbackRecord(e)
      ensures RolledBackFrom(start, errors, recorded)
      ensures recorded <= journal && LastFirst(journal[|recorded|..])
    {
      RolledBackInReverse(faults, start, |moved|, 0);
      assert journal[|recorded|..] == AllRecords(faults, start, |moved|, 0);
    }

    // One pass of the loop.
    method RollbackNext(k: nat, errors: seq<nat>, ghost start: nat, ghost recorded: seq<Event>)
      returns (errors': seq<nat>)
      requires Valid() && k < |moved| && moved[k] == k && Eligible(k) && Undone(start, k + 1, errors, recorded)
      requires start <= clock && (errors != [] ==> FaultSince(start))
      requires clock == if k + 1 == |moved| then start else EndOf(faults, StartOf(faults, start, |moved|, k + 1))
      requires Now().active in {None, Some(k)}
      modifies this`clock, this`fs, this`journal, this`history
      ensures Valid() && old(history) <= history && Undone(start, k, errors', recorded)
      ensures clock == EndOf(faults, StartOf(faults, start, |moved|, k)) > old(clock)
      ensures Now().active == None
      ensures errors' != [] ==> FaultSince(start)
    {
      hide SafeHistory, Records, EndOf, Reached, RenamedBack, VerifiedRecorded, Misread, Pinned, AllRecords, StartOf;
      ghost var m := |moved|;
      NextStart(faults, start, m, k, clock);
      ghost var before := Now();
      var raised := RollbackStep(k);
      StepTells(faults, start, m, k, raised);
      hide StoppedShort, NotRenamed;
      errors' := if raised then errors + [k] else errors;
    }

    lemma RestoredIsVerified(start: nat, errors: seq<nat>, recorded: seq<Event>)
      requires Valid() && RolledBackFrom(start, errors, recorded)
      ensures forall i :: i in errors ==> i < |moved|
      ensures forall i :: i in Now().placed ==> i in errors
      ensures forall i: nat :: i < |moved| && i !in errors ==> RollbackVerified(i) in journal
    {
      forall i: nat | i < |moved|
        ensures i in Now().placed ==> i in errors
        ensures i !in errors ==> RollbackVerified(i) in journal
      {
        VerifiedInJournal(faults, start, |moved|, i);
      }
    }

    // Exactly when a target ends misread: its rename back did not happen and its move was never
    // recorded complete, or it happened, the completion stands and the verified record is missing.
    lemma MisreadAfterRollback(start: nat, errors: seq<nat>, recorded: seq<Event>, i: nat)
      requires Valid() && RolledBackFrom(start, errors, recorded)
      ensures Misread(Now(), i) <==>
                && i < |moved|
                && if RenamedBack(faults, StartOf(faults, start, |moved|, i))
                   then MoveComplete(i) in recorded && !VerifiedRecorded(faults, StartOf(faults, start, |moved|, i))
                   else MoveComplete(i) !in recorded
    {
      hide SafeHistory, RenamedBack, VerifiedRecorded, StartOf, AllRecords, StoppedShort;
      LastIsSafe();
      MisreadExactly(plan, before, Now(), i);
      CompleteAfterRollback(start, recorded, i);
      if i < |moved| {
        VerifiedInJournal(faults, start, |moved|, i);
        NotRenamedIs(faults, start, |moved|, i);
      }
    }

    // So disk and journal agree after a rollback exactly when every rename back was published and
    // recorded, or its move had not been recorded complete, and every move not taken back had been.
    lemma AgreesAfterRollback(start: nat, errors: seq<nat>, recorded: seq<Event>)
      requires Valid() && RolledBackFrom(start, errors, recorded)
      ensures (forall i: nat :: !Misread(Now(), i)) <==>
                forall i: nat :: i < |moved| ==>
                  if RenamedBack(faults, StartOf(faults, start, |moved|, i))
                  then MoveComplete(i) in recorded ==> VerifiedRecorded(faults, StartOf(faults, start, |moved|, i))
                  else MoveComplete(i) in recorded
    {
      hide SafeHistory, RenamedBack, VerifiedRecorded, StartOf, RolledBackFrom, Misread;
      forall i: nat
        ensures Misread(Now(), i) <==>
                  && i < |moved|
                  && if RenamedBack(faults, StartOf(faults, start, |moved|, i))
                     then MoveComplete(i) in recorded && !VerifiedRecorded(faults, StartOf(faults, start, |moved|, i))
                     else MoveComplete(i) !in recorded
      {
        MisreadAfterRollback(start, errors, recorded, i);
      }
    }

    lemma LastIsSafe()
      requires Valid()
      ensures Safe(plan, before, Now())
    {
    }

    lemma CompleteAfterRollback(start: nat, recorded: seq<Event>, i: nat)
      requires journal == recorded + AllRecords(faults, start, |moved|, 0)
      requires forall e :: e in recorded ==> !RollbackRecord(e)
      ensures MoveComplete(i) in journal <==> MoveComplete(i) in recorded
      ensures RollbackVerified(i) in journal <==> RollbackVerified(i) in AllRecords(faults, start, |moved|, 0)
    {
      if MoveComplete(i) in AllRecords(faults, start, |moved|, 0) {
        OnlyRollbackRecords(faults, start, |moved|, 0, MoveComplete(i));
      }
    }

    // ---------------------------------------------------------------- the whole transaction

    // How many operations it takes until the first target can move, and until the journal is closed.
    ghost function OpeningOperations(): nat {
      6 + Missing(plan.root, before)
    }

    ghost function ClosingAt(start: nat): nat {
      start + OpeningOperations() + OperationsUpTo(plan, |plan.targets|) + |plan.targets| + 2
    }

    // The quarantine root, the audit copies of both manifests, and the open journal.  (The journal
    // file's contents are the field `journal`.)
    method Prepare(companion: Data) returns (raised: bool)
      requires Valid() && Untouched() && fs == before
      modifies this`clock, this`fs, this`journal, this`history
      ensures old(clock) < clock <= old(clock) + OpeningOperations()
      ensures Valid() && old(history) <= history && Untouched()
      ensures !raised ==>
                && clock == old(clock) + OpeningOperations() && Clean(old(clock))
                && plan.root !in before && Built(plan, before, Now(), OPENING_FILES)
                && journal == old(journal) + [Start]
                && Wrote(history, Audit(plan, "manifest-v2.json"), plan.manifest)
                && Wrote(history, Audit(plan, "manifest-v1.json"), companion)
      ensures raised && Feasible(plan, before) ==> Stopped(old(clock))
    {
      hide SafeHistory, Built, Feasible, Wrote;
      raised := BuildQuarantine(companion);
      if raised {
        return true;
      }
      ghost var built, soFar := Now(), history;
      raised := Note(Start);
      WroteStill(soFar, history, Audit(plan, "manifest-v2.json"), plan.manifest);
      WroteStill(soFar, history, Audit(plan, "manifest-v1.json"), companion);
      SameTreeSameBuilt(plan, before, built, Now(), OPENING_FILES);
    }

    method BuildQuarantine(companion: Data) returns (raised: bool)
      requires Valid() && fs == before
      modifies this`clock, this`fs, this`history
      ensures old(clock) < clock <= old(clock) + 5 + Missing(plan.root, before)
      ensures Valid() && old(history) <= history && OnlyGrew(old(Now()), Now())
      ensures !raised ==>
                && clock == old(clock) + 5 + Missing(plan.root, before) && Clean(old(clock))
                && plan.root !in before && Built(plan, before, Now(), OPENING_FILES)
                && Wrote(history, Audit(plan, "manifest-v2.json"), plan.manifest)
                && Wrote(history, Audit(plan, "manifest-v1.json"), companion)
      ensures raised && Feasible(plan, before) ==> Stopped(old(clock))
    {
      NothingLaidYet();
      hide SafeHistory, Built, Laid, Feasible, Wrote;
      raised := CreateNewQuarantineRoot();
      if !raised {
        raised := WriteAuditFiles(companion);
      }
    }

    lemma NothingLaidYet()
      requires Valid() && fs == before
      ensures Laid(plan, Now(), {})
    {
      assert Now().made !! before.Keys && Now().made <= fs.Keys;
      assert Now().made == {};
    }

    method WriteAuditFiles(companion: Data) returns (raised: bool)
      requires Valid() && plan.root !in before && IsDirectory(fs, plan.root) && Laid(plan, Now(), {})
      modifies this`clock, this`fs, this`history
      ensures old(clock) < clock <= old(clock) + 4
      ensures Valid() && old(history) <= history && OnlyGrew(old(Now()), Now())
      ensures !raised ==>
                && clock == old(clock) + 4 && Clean(old(clock)) && Built(plan, before, Now(), OPENING_FILES)
                && Wrote(history, Audit(plan, "manifest-v2.json"), plan.manifest)
                && Wrote(history, Audit(plan, "manifest-v1.json"), companion)
      ensures raised && Feasible(plan, before) ==> Stopped(old(clock))
    {
      hide SafeHistory, Tree, ValidPlan, Built, Laid, Feasible, Wrote;
      raised := MkdirAuditDirectory();
      if raised {
        return true;
      }
      assert {} + {"manifest-v2.json"} == {"manifest-v2.json"};
      raised := WriteAuditFile("manifest-v2.json", plan.manifest, {});
      if raised {
        return true;
      }
      ghost var first := history;
      assert {"manifest-v2.json"} + {"manifest-v1.json"} == {"manifest-v2.json", "manifest-v1.json"};
      raised := WriteAuditFile("manifest-v1.json", companion, {"manifest-v2.json"});
      if raised {
        return true;
      }
      ghost var second := history;
      raised := WriteAuditFile("move-journal.jsonl", [], {"manifest-v2.json", "manifest-v1.json"});
      WroteStill(first, history, Audit(plan, "manifest-v2.json"), plan.manifest);
      WroteStill(second, history, Audit(plan, "manifest-v1.json"), companion);
      assert OPENING_FILES == {"manifest-v2.json", "manifest-v1.json"} + {"move-journal.jsonl"};
    }

    method MkdirAuditDirectory() returns (raised: bool)
      requires Valid() && plan.root !in before && IsDirectory(fs, plan.root) && Laid(plan, Now(), {})
      modifies this`clock, this`fs, this`history
      ensures clock == old(clock) + 1
      ensures Valid() && old(history) <= history && OnlyGrew(old(Now()), Now())
      ensures !raised ==> Clean(old(clock)) && Built(plan, before, Now(), {})
      ensures raised && Feasible(plan, before) ==> Stopped(old(clock))
    {
      AuditDirectoryRoom();
      hide SafeHistory, Feasible, Laid, Tree, Built;
      raised := MkdirExact(AuditDirectory(plan));
      if !raised {
        AuditDirectoryStands(plan, before, old(Now()), Now());
      }
    }

    lemma AuditDirectoryRoom()
      requires Valid() && plan.root !in before && IsDirectory(fs, plan.root) && Laid(plan, Now(), {})
      ensures AuditDirectory(plan) != [] && AuditDirectory(plan) !in before
      ensures IsDirectory(fs, Parent(AuditDirectory(plan)))
      ensures Feasible(plan, before) && AuditDirectory(plan) in fs ==> IsDirectory(fs, AuditDirectory(plan))
    {
      HistoryHasValidPlan(plan, before, history);
      if Feasible(plan, before) {
        AuditDirectoryIsFree(plan, before, Now(), {});
      }
      NothingBelow(before, plan.root, AuditDirectory(plan));
      assert Parent(AuditDirectory(plan)) == plan.root;
    }

    // The body of the guarded block: move every target, verify all again, publish the completion.
    method MoveAll(completion: Data) returns (raised: bool)
      requires Valid() && Untouched() && Onward(journal) && plan.root !in before
      requires Built(plan, before, Now(), OPENING_FILES)
      modifies this`clock, this`fs, this`journal, this`moved, this`history
      ensures Valid() && old(history) <= history && ReadyToRollBack()
      ensures !raised ==>
                && clock == old(clock) + OperationsUpTo(plan, |plan.targets|) + |plan.targets| + 2
                && Clean(old(clock)) && Now().active == None && Onward(journal)
                && |moved| == |plan.targets| && AllMovesVerified(|moved|) in journal
                && (forall i: nat :: i < |moved| ==> MoveVerified(i) in journal)
                && WholeJournal(old(journal), journal, |moved|)
                && Built(plan, before, Now(), AUDIT_FILES)
                && Wrote(history, Audit(plan, "completion.json"), completion)
      ensures raised ==>
                && old(clock) < clock <= old(clock) + OperationsUpTo(plan, |plan.targets|) + |plan.targets| + 2
                && (|| clock <= old(clock) + OperationsUpTo(plan, |plan.targets|)
                    || (|moved| == |plan.targets| && forall i: nat :: i < |moved| ==> MoveComplete(i) in journal))
      ensures raised && Doable() ==> Stopped(old(clock))
    {
      hide SafeHistory, Built, Feasible, Wrote, MovesFollow, WholeJournal;
      raised := MoveEach();
      if raised {
        return true;
      }
      FollowingAreIn(old(journal), journal, |moved|);
      ghost var movesEnd := journal;
      ghost var start := clock;
      raised := VerifyAll();
      if raised {
        return true;
      }
      ghost var verified := Now();
      raised := Note(AllMovesVerified(|moved|));
      if raised {
        return true;
      }
      AllFollow(old(journal), movesEnd, |moved|);
      SameTreeSameBuilt(plan, before, verified, Now(), OPENING_FILES);
      raised := WriteAuditFile("completion.json", completion, OPENING_FILES);
      assert AUDIT_FILES == OPENING_FILES + {"completion.json"};
    }

    method MoveEach() returns (raised: bool)
      requires Valid() && Untouched() && Onward(journal) && plan.root !in before
      requires Built(plan, before, Now(), OPENING_FILES)
      modifies this`clock, this`fs, this`journal, this`moved, this`history
      ensures Valid() && old(history) <= history && ReadyToRollBack() && Onward(journal)
      ensures old(clock) <= clock <= old(clock) + OperationsUpTo(plan, |plan.targets|)
      ensures !raised ==>
                && clock == old(clock) + OperationsUpTo(plan, |plan.targets|) && Clean(old(clock))
                && Now().active == None && |moved| == |plan.targets|
                && MovesFollow(old(journal), journal, |moved|)
                && Built(plan, before, Now(), OPENING_FILES)
      ensures raised ==> old(clock) < clock
      ensures raised && Doable() ==> Stopped(old(clock))
    {
      hide SafeHistory, Built, Feasible, MoveOperations, MovesFollow;
      NothingFollows(journal);
      for i := 0 to |plan.targets|
        invariant clock == old(clock) + OperationsUpTo(plan, i) && Clean(old(clock))
        invariant Valid() && old(history) <= history && Forward(Now(), i) && MovedUpTo(i)
        invariant Onward(journal) && Built(plan, before, Now(), OPENING_FILES)
        invariant MovesFollow(old(journal), journal, i)
      {
        OperationsGrow(plan, i + 1, |plan.targets|);
        NextFollows(old(journal), journal, i);
        raised := MoveOne(i);
        if raised {
          return true;
        }
      }
      return false;
    }

    method VerifyAll() returns (raised: bool)
      requires Valid() && ReadyToRollBack()
      modifies this`clock
      ensures old(clock) <= clock <= old(clock) + |moved|
      ensures if raised then Stopped(old(clock)) else clock == old(clock) + |moved| && Clean(old(clock))
    {
      hide SafeHistory;
      for i := 0 to |moved|
        invariant clock == old(clock) + i && Clean(old(clock))
      {
        TargetLies(plan, before, history, i);
        raised := VerifyMovedDestination(moved[i]);
        if raised {
          return true;
        }
      }
      return false;
    }

    // The guarded block and its handler.
    method MoveAllOrRollBack(completion: Data) returns (outcome: Outcome)
      requires Valid() && Untouched() && Onward(journal) && plan.root !in before
      requires Built(plan, before, Now(), OPENING_FILES)
      modifies this`clock, this`fs, this`journal, this`moved, this`history, this`rollbackFrom, this`recordedBefore
      ensures clock >= old(clock)
      ensures Valid() && old(history) <= history
      ensures outcome in {Completed, RolledBack} || (outcome.RollbackIncomplete? && outcome.errors != [])
      ensures outcome.Completed? ==>
                && clock == old(clock) + OperationsUpTo(plan, |plan.targets|) + |plan.targets| + 2
                && Clean(old(clock)) && Doable() && CompletedWell()
                && Wrote(history, Audit(plan, "completion.json"), completion)
                && WholeJournal(old(journal), journal, |plan.targets|)
      ensures !outcome.Completed? ==>
                && RolledBackFrom(rollbackFrom, ErrorsOf(outcome), recordedBefore)
                && BrokenOff(old(clock)) && FaultOrFlaw(old(clock)) && rollbackFrom <= clock
      ensures outcome.RollbackIncomplete? ==> FaultSince(old(clock))
    {
      hide SafeHistory, Built, Feasible, AllRecords, RolledBackFrom, Wrote, WholeJournal;
      var raised := MoveAll(completion);
      if !raised {
        CompletedWasDoable();
        return Completed;
      }
      outcome := RollBack();
    }

    method RollBack() returns (outcome: Outcome)
      requires Valid() && ReadyToRollBack()
      modifies this`clock, this`fs, this`journal, this`history, this`rollbackFrom, this`recordedBefore
      ensures clock >= rollbackFrom == old(clock) + 1 && old(journal) <= recordedBefore
      ensures Valid() && old(history) <= history
      ensures outcome.RolledBack? || (outcome.RollbackIncomplete? && outcome.errors != [])
      ensures RolledBackFrom(rollbackFrom, ErrorsOf(outcome), recordedBefore)
      ensures outcome.RollbackIncomplete? ==> FaultSince(old(clock))
    {
      hide SafeHistory;
      var _ := Note(Failure(|moved|));
      rollbackFrom, recordedBefore := clock, journal;
      hide AllRecords, RolledBackFrom;
      var errors := RollbackMoves();
      return if errors == [] then RolledBack else RollbackIncomplete(errors);
    }

    ghost predicate CompletedWell()
      reads this`history, this`journal, this`moved
    {
      && ReadyToRollBack() && Now().active == None && Onward(journal)
      && |moved| == |plan.targets| && AllMovesVerified(|moved|) in journal
      && forall i: nat :: i < |moved| ==> MoveVerified(i) in journal
    }

    // The rollback began two operations after the one that raised.  If that came after the last move,
    // every target had been moved and recorded complete.
    ghost predicate BrokenOff(start: nat)
      reads this`rollbackFrom, this`recordedBefore, this`moved
    {
      && start + 2 <= rollbackFrom <= start + OperationsUpTo(plan, |plan.targets|) + |plan.targets| + 3
      && (rollbackFrom - 1 > start + OperationsUpTo(plan, |plan.targets|) ==>
            && |moved| == |plan.targets|
            && forall i: nat :: i < |moved| ==> MoveComplete(i) in recordedBefore)
    }

    // Moves that can be carried out are broken off only by a failing operation, the first one.
    ghost predicate FaultOrFlaw(start: nat)
      reads this`rollbackFrom
    {
      Doable() ==>
        && start + 2 <= rollbackFrom && AllWork(faults, start, rollbackFrom - 2)
        && faults(rollbackFrom - 2) != Works
    }

    lemma CompletedWasDoable()
      requires Valid() && ReadyToRollBack() && |moved| == |plan.targets|
      requires plan.root !in before && Built(plan, before, Now(), AUDIT_FILES)
      ensures Doable()
    {
      LastIsTree(plan, before, history);
      FilledIsFeasible(plan, before, Now());
      assert forall i: nat :: i < |moved| ==> moved[i] == i && Eligible(i);
    }

    // How the tree stands after each outcome.
    ghost predicate Settled(outcome: Outcome)
      reads this`fs, this`journal, this`moved
    {
      // all
      && (outcome.Completed? ==>
            && (forall i: nat :: i < |plan.targets| ==>
                  Pinned(i) && AtDestination(plan, before, fs, i) && MoveVerified(i) in journal)
            && AllMovesVerified(|plan.targets|) in journal && Onward(journal))
      // or nothing
      && (outcome.Refused? || outcome.RolledBack? ==>
            forall path :: path in before ==> path in fs && fs[path] == before[path])
      && (outcome.RolledBack? ==>
            forall i: nat :: i < |moved| ==> RollbackVerified(i) in journal)
      // or a rollback that was itself refused: every target it does not name is back in place
      && (outcome.RollbackIncomplete? ==>
            && outcome.errors != [] && (forall i :: i in outcome.errors ==> i < |moved|)
            && (forall i: nat :: i < |plan.targets| && i !in outcome.errors && plan.Source(i) in before ==>
                  AtSource(plan, before, fs, i))
            && (forall i: nat :: i < |moved| && i !in outcome.errors ==> RollbackVerified(i) in journal))
      // or one of these, hidden by the failure to close the journal
      && (outcome.CloseFailed? ==>
            && (outcome.hidden in {Completed, RolledBack} || outcome.hidden.RollbackIncomplete?)
            && Settled(outcome.hidden))
    }

    lemma SettledFromHistory(outcome: Outcome)
      requires Valid() && !outcome.CloseFailed?
      requires outcome.Completed? ==> CompletedWell()
      requires outcome.Refused? ==> Now().placed == {}
      requires outcome.RolledBack? || outcome.RollbackIncomplete? ==>
                 RolledBackFrom(rollbackFrom, ErrorsOf(outcome), recordedBefore)
      requires outcome.RollbackIncomplete? ==> outcome.errors != []
      ensures Settled(outcome)
    {
      hide SafeHistory, AllRecords, StoppedShort, NotRenamed;
      InPlaceUnlessPlaced(plan, before, history);
      if outcome.RolledBack? || outcome.RollbackIncomplete? {
        RestoredIsVerified(rollbackFrom, ErrorsOf(outcome), recordedBefore);
      }
      hide RolledBackFrom;
      forall i: nat | i < |plan.targets| && plan.Source(i) in before
        ensures i in Now().placed ==> AtDestination(plan, before, fs, i)
        ensures i !in Now().placed ==> AtSource(plan, before, fs, i)
      {
        TargetLies(plan, before, history, i);
      }
      if outcome.Completed? {
        forall i: nat | i < |plan.targets|
          ensures Pinned(i) && AtDestination(plan, before, fs, i) && MoveVerified(i) in journal
        {
          assert moved[i] == i && i in Now().placed;
        }
      }
    }

    // At every moment of the run disk and journal disagree on at most the step in progress and one
    // more target per reported error; at its end, on the errors' targets only.
    ghost predicate Accountable(errors: seq<nat>)
      reads this`history
    {
      && history != []
      && (forall k: nat, wrong: set<nat> | k < |history| ::
            (forall i :: i in wrong ==> Misread(history[k], i)) ==> |wrong| <= |errors| + 1)
      && (forall i: nat :: Misread(Now(), i) ==> i in errors)
    }

    lemma AccountableForErrors(errors: seq<nat>)
      requires Valid() && Now().active == None && forall j: nat :: j in Now().errored <==> j in errors
      ensures Accountable(errors)
    {
      hide SafeHistory, Safe, Misread;
      LastIsSafe();
      NoMoreThanListed(errors);
      assert Now().errored == ToSet(errors);
      forall k: nat, wrong: set<nat> | k < |history| && forall i :: i in wrong ==> Misread(history[k], i)
        ensures |wrong| <= |errors| + 1
      {
        NeverMoreThanErrors(plan, before, history, k, wrong);
      }
      forall i: nat | Misread(Now(), i)
        ensures i in errors
      {
        DisagreementIsBounded(plan, before, Now(), {i});
      }
    }

    // Every moment of the run is safe and follows from the one before by a single effect.
    ghost predicate SafeThroughout()
      reads this`history
    {
      && history != [] && history[0] == Initial(before)
      && forall k: nat :: k < |history| ==>
           && Safe(plan, before, history[k])
           && (k > 0 ==> AtomicStep(history[k - 1], history[k]))
    }

    lemma HistoryIsSafe()
      requires Valid()
      ensures SafeThroughout()
    {
      forall k: nat | k < |history|
        ensures Safe(plan, before, history[k])
        ensures if k == 0 then history[0] == Initial(before) else AtomicStep(history[k - 1], history[k])
      {
        hide SafeHistory;
        EveryPrefixIsSafe(plan, before, history, k);
      }
      EveryPrefixIsSafe(plan, before, history, 0);
      hide *;
    }

    // Whatever fails, and whenever: each target ends at its source or at its destination, nothing
    // else that was there changes, and the outcome tells which; and every moment in between is safe.
    // When no operation fails, the run completes exactly when the moves can be carried out and
    // nothing refers to the targets.
    method ExecuteMoves(companion: Data, completion: Data, references: map<string, int>)
      returns (outcome: Outcome)
      requires Valid() && Untouched() && fs == before && Onward(journal)
      modifies this
      ensures Valid() && old(history) <= history && SafeThroughout()
      ensures Settled(outcome) && Accountable(ErrorsOf(outcome))
      ensures outcome.CloseFailed? <==> !outcome.Refused? && clock > 0 && faults(clock - 1) != Works
      ensures forall path :: path in before && !plan.IsSource(path) ==> path in fs && fs[path] == before[path]
      ensures forall k :: 0 <= k < |plan.preserved| && plan.preserved[k].source in before ==>
                plan.preserved[k].source in fs && fs[plan.preserved[k].source] == before[plan.preserved[k].source]
      ensures forall i: nat :: i < |plan.targets| && plan.Source(i) in before ==>
                AtSource(plan, before, fs, i) || AtDestination(plan, before, fs, i)
      ensures !outcome.Refused? ==> ZeroReferences(references)
      // a completed run, field by field: every target was the pinned file below the root approved for
      // its kind and lies at its destination only, the audit copies hold what was to be written, and
      // the journal has every step in order
      ensures Inner(outcome).Completed? ==>
                && (forall t :: t in plan.targets ==>
                      && t.source in before && before[t.source].Regular?
                      && |before[t.source].data| == t.size && digestOf(before[t.source].data) == t.digest
                      && t.kind in plan.allowed && plan.allowed[t.kind] <= t.source
                      && t.source !in fs && plan.root + t.relative in fs
                      && fs[plan.root + t.relative] == before[t.source])
                && (forall written ::
                      written in [("manifest-v2.json", plan.manifest), ("manifest-v1.json", companion),
                                  ("completion.json", completion)] ==>
                        var path := plan.root + ["audit", written.0];
                        path in fs && fs[path] == Regular(written.1))
                && journal == old(journal) + [Start] + MovesRecorded(|plan.targets|)
                              + [AllMovesVerified(|plan.targets|)]
      // a run that did not complete: every target it does not report is where it was, as it was
      ensures !Inner(outcome).Completed? ==>
                forall i: nat ::
                  i < |plan.targets| && i !in ErrorsOf(outcome) && plan.targets[i].source in before ==>
                    var source := plan.targets[i].source;
                    source in fs && fs[source] == before[source]
      // without failures, a run completes exactly when no references are left, the root is new and can
      // be made, every target is the pinned file below its approved root, and the destinations fit
      // below the root, beside each other and beside the audit files
      ensures (forall k: nat :: old(clock) <= k < clock ==> faults(k) == Works) ==>
                && outcome in {Completed, Refused, RolledBack}
                && (outcome.Completed? <==>
                      && ZeroReferences(references)
                      && plan.root !in before
                      && (forall path :: path in before && path < plan.root ==> before[path].Directory?)
                      && (forall t :: t in plan.targets ==>
                            && t.source in before && before[t.source].Regular?
                            && |before[t.source].data| == t.size && digestOf(before[t.source].data) == t.digest
                            && t.kind in plan.allowed && plan.allowed[t.kind] <= t.source
                            && t.relative != [] && t.relative != ["audit"]
                            && (forall k :: 0 <= k < |t.relative| - 1 ==> t.relative[k] !in {"", ".", ".."})
                            && (forall name :: name in AUDIT_FILES ==> !(["audit", name] <= t.relative)))
                      && (forall s, t :: s in plan.targets && t in plan.targets ==> !(s.relative < t.relative)))
      // how far a run gets before its first failing operation
      ensures Timed(outcome, old(clock), ZeroReferences(references))
    {
      hide SafeHistory, Built, Feasible, RolledBackFrom, CompletedWell, BrokenOff, FaultOrFlaw, Accountable, Timed,
        SafeThroughout, Settled;
      outcome := Refused;
      if ZeroReferences(references) {
        outcome := Transact(companion, completion);
      } else {
        NothingDone();
      }
      HistoryIsSafe();
      EndsInPlace();
      DoableExactly();
      if Inner(outcome).Completed? {
        CompletedExactly(outcome, companion, completion);
      } else {
        NotCompletedExactly(outcome);
      }
    }

    lemma NotCompletedExactly(outcome: Outcome)
      requires !Inner(outcome).Completed? && Settled(outcome)
      ensures forall i: nat ::
                i < |plan.targets| && i !in ErrorsOf(outcome) && plan.targets[i].source in before ==>
                  var source := plan.targets[i].source;
                  source in fs && fs[source] == before[source]
    {
      assert outcome.CloseFailed? ==> Inner(outcome) == outcome.hidden;
    }

    // Which moves can be carried out, field by field.
    lemma DoableExactly()
      ensures Doable() <==>
                && plan.root !in before
                && (forall path :: path in before && path < plan.root ==> before[path].Directory?)
                && (forall t :: t in plan.targets ==>
                      && t.source in before && before[t.source].Regular?
                      && |before[t.source].data| == t.size && digestOf(before[t.source].data) == t.digest
                      && t.kind in plan.allowed && plan.allowed[t.kind] <= t.source
                      && t.relative != [] && t.relative != ["audit"]
                      && (forall k :: 0 <= k < |t.relative| - 1 ==> t.relative[k] !in {"", ".", ".."})
                      && (forall name :: name in AUDIT_FILES ==> !(["audit", name] <= t.relative)))
                && (forall s, t :: s in plan.targets && t in plan.targets ==> !(s.relative < t.relative))
    {
      hide Feasible, Eligible;
      FeasibleExactlyWhen(plan, before);
      forall i: nat | i < |plan.targets|
        ensures Eligible(i) <==>
                  var t := plan.targets[i];
                  && t.source in before && before[t.source].Regular?
                  && |before[t.source].data| == t.size && digestOf(before[t.source].data) == t.digest
                  && t.kind in plan.allowed && plan.allowed[t.kind] <= t.source
                  && (forall k :: 0 <= k < |t.relative| - 1 ==> t.relative[k] !in {"", ".", ".."})
      {
        EligibleExactly(i);
      }
    }

    lemma EligibleExactly(i: nat)
      requires i < |plan.targets|
      ensures Eligible(i) <==>
                var t := plan.targets[i];
                && t.source in before && before[t.source].Regular?
                && |before[t.source].data| == t.size && digestOf(before[t.source].data) == t.digest
                && t.kind in plan.allowed && plan.allowed[t.kind] <= t.source
                && (forall k :: 0 <= k < |t.relative| - 1 ==> t.relative[k] !in {"", ".", ".."})
    {
    }

    lemma CompletedExactly(outcome: Outcome, companion: Data, completion: Data)
      requires Inner(outcome).Completed? && Settled(outcome) && Doable() && AuditsWritten(companion, completion)
      ensures forall t :: t in plan.targets ==>
                && t.source in before && before[t.source].Regular?
                && |before[t.source].data| == t.size && digestOf(before[t.source].data) == t.digest
                && t.kind in plan.allowed && plan.allowed[t.kind] <= t.source
                && t.source !in fs && plan.root + t.relative in fs
                && fs[plan.root + t.relative] == before[t.source]
      ensures forall written ::
                written in [("manifest-v2.json", plan.manifest), ("manifest-v1.json", companion),
                            ("completion.json", completion)] ==>
                  var path := plan.root + ["audit", written.0];
                  path in fs && fs[path] == Regular(written.1)
    {
      forall t | t in plan.targets
        ensures exists i: nat :: i < |plan.targets| && plan.targets[i] == t && Eligible(i)
                                 && AtDestination(plan, before, fs, i)
      {
        var i: nat :| i < |plan.targets| && plan.targets[i] == t;
        assert Eligible(i);
      }
    }

    lemma RefusedIsTimed(start: nat)
      requires clock <= start + OpeningOperations() && (Feasible(plan, before) ==> Stopped(start))
      ensures Timed(Refused, start, true)
    {
    }

    lemma EndIsTimed(outcome: Outcome, start: nat, begun: nat, end: nat)
      requires begun == start + OpeningOperations() && AllWork(faults, start, begun)
      requires begun <= end && clock == end + 1
      requires !Inner(outcome).Refused?
      requires Inner(outcome).Completed? ==>
                 && end == begun + OperationsUpTo(plan, |plan.targets|) + |plan.targets| + 2
                 && AllWork(faults, begun, end)
      requires !Inner(outcome).Completed? ==>
                 && RolledBackFrom(rollbackFrom, ErrorsOf(outcome), recordedBefore)
                 && BrokenOff(begun) && FaultOrFlaw(begun) && rollbackFrom <= end
      ensures Timed(outcome, start, true)
      ensures !Inner(outcome).Completed? && Doable() ==> FaultSince(start)
    {
      hide RolledBackFrom, Feasible, OperationsUpTo, Eligible;
    }

    method Transact(companion: Data, completion: Data) returns (outcome: Outcome)
      requires Valid() && Untouched() && fs == before && Onward(journal)
      modifies this
      ensures Valid() && old(history) <= history
      ensures Settled(outcome) && Accountable(ErrorsOf(outcome)) && Timed(outcome, old(clock), true)
      ensures outcome.CloseFailed? <==> !outcome.Refused? && clock > 0 && faults(clock - 1) != Works
      ensures Inner(outcome).Completed? ==>
                && Doable() && AuditsWritten(companion, completion)
                && WholeJournal(old(journal) + [Start], journal, |plan.targets|)
      ensures !FaultSince(old(clock)) ==>
                (outcome.Completed? <==> Doable()) && outcome in {Completed, Refused, RolledBack}
    {
      hide SafeHistory, Built, Feasible, RolledBackFrom, CompletedWell, Accountable, Settled, Timed, BrokenOff,
        FaultOrFlaw, Wrote, AuditsWritten, WholeJournal;
      var raised := Prepare(companion);
      if raised {
        RefusedIsSettled();
        RefusedIsTimed(old(clock));
        return Refused;
      }
      ghost var begun, opening := clock, history;
      outcome := MoveAllOrRollBack(completion);
      TransactionIsSettled(outcome);
      if outcome.Completed? {
        AuditsAreKept(opening, companion, completion);
      }
      ghost var end := clock;
      raised := Probe();  // closing the journal
      if raised {
        outcome := CloseFailed(outcome);
        HiddenIsSettled(outcome);
      }
      EndIsTimed(outcome, old(clock), begun, end);
    }

    // The audit copies hold what was to be written.
    ghost predicate AuditsWritten(companion: Data, completion: Data)
      reads this`fs
    {
      && Audit(plan, "manifest-v2.json") in fs && fs[Audit(plan, "manifest-v2.json")] == Regular(plan.manifest)
      && Audit(plan, "manifest-v1.json") in fs && fs[Audit(plan, "manifest-v1.json")] == Regular(companion)
      && Audit(plan, "completion.json") in fs && fs[Audit(plan, "completion.json")] == Regular(completion)
    }

    lemma AuditsAreKept(opening: seq<Snapshot>, companion: Data, completion: Data)
      requires Valid() && opening <= history
      requires Wrote(opening, Audit(plan, "manifest-v2.json"), plan.manifest)
      requires Wrote(opening, Audit(plan, "manifest-v1.json"), companion)
      requires Wrote(history, Audit(plan, "completion.json"), completion)
      ensures AuditsWritten(companion, completion)
    {
      hide SafeHistory, Wrote, Audit;
      WroteStill(opening, history, Audit(plan, "manifest-v2.json"), plan.manifest);
      WroteStill(opening, history, Audit(plan, "manifest-v1.json"), companion);
      WrittenIsKept(plan, before, history, Audit(plan, "manifest-v2.json"), plan.manifest);
      WrittenIsKept(plan, before, history, Audit(plan, "manifest-v1.json"), companion);
      WrittenIsKept(plan, before, history, Audit(plan, "completion.json"), completion);
    }

    lemma RefusedIsSettled()
      requires Valid() && Untouched()
      ensures Settled(Refused) && Accountable([])
    {
      hide SafeHistory;
      SettledFromHistory(Refused);
      AccountableForErrors([]);
    }

    lemma NothingDone()
      requires Valid() && Untouched()
      ensures Settled(Refused) && Accountable(ErrorsOf(Refused))
      ensures forall start: nat :: Timed(Refused, start, false)
    {
      RefusedIsSettled();
    }

    lemma TransactionIsSettled(outcome: Outcome)
      requires Valid()
      requires outcome in {Completed, RolledBack} || (outcome.RollbackIncomplete? && outcome.errors != [])
      requires outcome.Completed? ==> CompletedWell()
      requires !outcome.Completed? ==> RolledBackFrom(rollbackFrom, ErrorsOf(outcome), recordedBefore)
      ensures Settled(outcome) && Accountable(ErrorsOf(outcome))
    {
      hide SafeHistory;
      SettledFromHistory(outcome);
      AccountableForErrors(ErrorsOf(outcome));
    }

    lemma HiddenIsSettled(outcome: Outcome)
      requires outcome.CloseFailed? && Settled(outcome.hidden)
      requires outcome.hidden in {Completed, RolledBack} || outcome.hidden.RollbackIncomplete?
      ensures Settled(outcome) && ErrorsOf(outcome) == ErrorsOf(outcome.hidden)
    {
    }

    // When the run that starts with operation `start` gets how far.
    ghost predicate Timed(outcome: Outcome, start: nat, referencesGone: bool)
      reads this`clock, this`rollbackFrom, this`recordedBefore, this`moved, this`history, this`journal
    {
      var inner, last := Inner(outcome), OperationsUpTo(plan, |plan.targets|);
      && (inner.Refused? && referencesGone ==>
            clock <= start + OpeningOperations() && (Doable() ==> Stopped(start)))
      && (inner.Completed? ==> AllWork(faults, start, ClosingAt(start)) && clock == ClosingAt(start) + 1)
      && (inner.RolledBack? || inner.RollbackIncomplete? ==>
            && RolledBackFrom(rollbackFrom, ErrorsOf(outcome), recordedBefore)
            && FaultOrFlaw(start) && rollbackFrom <= ClosingAt(start) + 1
            && (rollbackFrom - 1 > start + OpeningOperations() + last ==>
                  && |moved| == |plan.targets|
                  && forall i: nat :: i < |moved| ==> MoveComplete(i) in recordedBefore))
    }

    // Moves that can be carried out are completed exactly when every operation before the closing of
    // the journal works.
    lemma CompletesExactly(outcome: Outcome, start: nat)
      requires Timed(outcome, start, true) && Doable()
      ensures Inner(outcome).Completed? <==> AllWork(faults, start, ClosingAt(start))
    {
      InnerIsNoClosing(outcome);
      hide RolledBackFrom, Doable, Inner, OperationsUpTo;
      if Inner(outcome).Refused? {
        assert faults(clock - 1) != Works;
      }
    }

    lemma EndsInPlace()
      requires Valid()
      ensures forall path :: path in before && !plan.IsSource(path) ==> path in fs && fs[path] == before[path]
      ensures forall k :: 0 <= k < |plan.preserved| && plan.preserved[k].source in before ==>
                plan.preserved[k].source in fs && fs[plan.preserved[k].source] == before[plan.preserved[k].source]
      ensures forall i: nat :: i < |plan.targets| && plan.Source(i) in before ==>
                AtSource(plan, before, fs, i) || AtDestination(plan, before, fs, i)
    {
      hide SafeHistory;
      InPlaceUnlessPlaced(plan, before, history);
      forall i: nat | i < |plan.targets| && plan.Source(i) in before
        ensures AtSource(plan, before, fs, i) || AtDestination(plan, before, fs, i)
      {
        TargetLies(plan, before, history, i);
      }
    }
  }

  // An exact zero count for every supported query.
  predicate ZeroReferences(references: map<string, int>) {
    references.Keys == STATE_REFERENCE_KEYS && forall key :: key in references ==> references[key] == 0
  }

  // Only these counts pass.
  lemma ZeroReferencesExactly(references: map<string, int>)
    ensures ZeroReferences(references) <==>
              references == map[
                "blobs_by_hash" := 0,
                "chunk_availability_by_chunk_or_blob" := 0,
                "chunk_sources_by_chunk" := 0,
                "file_index_cache_by_blob" := 0,
                "folder_audit_by_blob" := 0,
                "folder_manifest_by_blob" := 0,
                "manifest_conflicts_by_local_or_remote_blob" := 0,
                "transfers_by_blob_or_original_name" := 0]
  {
  }

  predicate PlainParents(relative: Path) {
    forall k :: 0 <= k < |relative| - 1 ==> relative[k] !in {"", ".", ".."}
  }

  // Directories or files may have been created; nothing was journaled, moved or rolled back.
  predicate OnlyGrew(a: Snapshot, b: Snapshot) {
    && b.journal == a.journal && b.placed == a.placed && b.active == a.active && b.errored == a.errored
    && a.made <= b.made
  }

  predicate Renamable(fs: FileSystem, source: Path, destination: Path) {
    source in fs && destination !in fs && destination != [] && IsDirectory(fs, Parent(destination))
  }
}
