/** Each effect a quarantine run can have extends a safe history to a safe history. */
module QuarantineSteps {
  import opened Paths
  import opened Bytes
  import opened QuarantineState
  import opened Wrappers

  function Last(history: seq<Snapshot>): Snapshot
    requires history != []
  {
    history[|history| - 1]
  }

  // At some moment the run had made this file with this data.
  ghost predicate Wrote(history: seq<Snapshot>, path: Path, data: Data) {
    exists k: nat ::
      k < |history| && path in history[k].made && path in history[k].fs && history[k].fs[path] == Regular(data)
  }

  lemma WroteStill(older: seq<Snapshot>, newer: seq<Snapshot>, path: Path, data: Data)
    requires older <= newer && Wrote(older, path, data)
    ensures Wrote(newer, path, data)
  {
    var k: nat :| k < |older| && path in older[k].made && path in older[k].fs && older[k].fs[path] == Regular(data);
    assert newer[k] == older[k];
  }

  // What the run has made stays as it was made.
  lemma {:induction false} MadeIsKept(plan: Plan, before: FileSystem, history: seq<Snapshot>, k: nat, path: Path)
    requires SafeHistory(plan, before, history)
    requires k < |history| && path in history[k].made && path in history[k].fs
    ensures path in Last(history).made && path in Last(history).fs && Last(history).fs[path] == history[k].fs[path]
  {
    hide SafeHistory, AtomicStep;
    if k < |history| - 1 {
      LastStep(plan, before, history);
      var front := history[..|history| - 1];
      MadeIsKept(plan, before, front, k, path);
      StepKeepsMade(history[|history| - 2], history[|history| - 1], path);
    }
  }

  lemma WrittenIsKept(plan: Plan, before: FileSystem, history: seq<Snapshot>, path: Path, data: Data)
    requires SafeHistory(plan, before, history) && Wrote(history, path, data)
    ensures path in Last(history).fs && Last(history).fs[path] == Regular(data)
  {
    hide SafeHistory;
    var k: nat :| k < |history| && path in history[k].made && path in history[k].fs
                  && history[k].fs[path] == Regular(data);
    MadeIsKept(plan, before, history, k, path);
  }

  lemma LastStep(plan: Plan, before: FileSystem, history: seq<Snapshot>)
    requires SafeHistory(plan, before, history) && |history| > 1
    ensures SafeHistory(plan, before, history[..|history| - 1])
    ensures AtomicStep(history[|history| - 2], history[|history| - 1])
    ensures history[|history| - 1].made <= history[|history| - 1].fs.Keys
  {
    hide AtomicStep, Tree, Agreement, ValidPlan;
  }

  lemma StepKeepsMade(s: Snapshot, t: Snapshot, path: Path)
    requires AtomicStep(s, t) && path in s.made && path in s.fs && t.made <= t.fs.Keys
    ensures path in t.made && path in t.fs && t.fs[path] == s.fs[path]
  {
  }

  lemma LastIsTree(plan: Plan, before: FileSystem, history: seq<Snapshot>)
    requires history != [] && SafeHistory(plan, before, history)
    ensures Tree(Last(history).fs)
  {
  }

  lemma TargetLies(plan: Plan, before: FileSystem, history: seq<Snapshot>, i: nat)
    requires history != [] && SafeHistory(plan, before, history)
    requires i in Last(history).placed || (i < |plan.targets| && plan.Source(i) in before)
    ensures i < |plan.targets| && plan.Source(i) in before
    ensures i in Last(history).placed ==> AtDestination(plan, before, Last(history).fs, i)
    ensures i !in Last(history).placed ==> AtSource(plan, before, Last(history).fs, i)
  {
  }

  lemma InPlaceUnlessPlaced(plan: Plan, before: FileSystem, history: seq<Snapshot>)
    requires history != [] && SafeHistory(plan, before, history)
    ensures ValidPlan(plan)
    ensures forall path :: path in before && !plan.IsSource(path) ==>
              path in Last(history).fs && Last(history).fs[path] == before[path]
    ensures Last(history).placed == {} ==>
              forall path :: path in before ==> path in Last(history).fs && Last(history).fs[path] == before[path]
  {
    HistoryHasValidPlan(plan, before, history);
    var s := Last(history);
    if s.placed == {} {
      forall path | path in before
        ensures path in s.fs && s.fs[path] == before[path]
      {
        if plan.IsSource(path) {
          var i: nat :| i < |plan.targets| && plan.Source(i) == path;
          assert AtSource(plan, before, s.fs, i);
        }
      }
    }
  }

  // Targets before i are at their destination; i and later ones are not even announced.
  ghost predicate Forward(s: Snapshot, i: nat) {
    && (forall j: nat :: j in s.placed <==> j < i) && s.active == None && s.errored == {}
    && Onward(s.journal) && Ahead(s.journal, i)
  }

  lemma StartIsSafe(plan: Plan, fs: FileSystem)
    requires ValidPlan(plan) && Tree(fs)
    ensures SafeHistory(plan, fs, [Initial(fs)])
  {
    ExtendHistory(plan, fs, [], Initial(fs));
    assert [] + [Initial(fs)] == [Initial(fs)];
  }

  // Records that say nothing about where a target lies.
  predicate Neutral(e: Event) {
    e.Start? || e.MoveVerified? || e.AllMovesVerified? || e.Failure? || e.RollbackFailed?
  }

  function Noted(s: Snapshot, e: Event): Snapshot {
    s.(journal := s.journal + [e])
  }

  lemma NoteIsSafe(plan: Plan, before: FileSystem, history: seq<Snapshot>, e: Event)
    requires history != [] && SafeHistory(plan, before, history) && Neutral(e)
    ensures SafeHistory(plan, before, history + [Noted(Last(history), e)])
  {
    hide Conserved;
    ExtendHistory(plan, before, history, Noted(Last(history), e));
  }

  function Announced(s: Snapshot, i: nat): Snapshot {
    s.(journal := s.journal + [MoveIntent(i)], active := Some(i))
  }

  lemma AnnounceAgrees(s: Snapshot, i: nat)
    requires Agreement(s.journal, s.placed, s.active, s.errored)
    requires Forward(s, i)
    ensures var t := Announced(s, i); Agreement(t.journal, t.placed, t.active, t.errored)
  {
  }

  lemma AnnounceIsSafe(plan: Plan, before: FileSystem, history: seq<Snapshot>, i: nat)
    requires history != [] && SafeHistory(plan, before, history) && Forward(Last(history), i)
    ensures SafeHistory(plan, before, history + [Announced(Last(history), i)])
  {
    hide Conserved, Agreement;
    AnnounceAgrees(Last(history), i);
    ExtendHistory(plan, before, history, Announced(Last(history), i));
  }

  function Placed(plan: Plan, s: Snapshot, i: nat): Snapshot
    requires i < |plan.targets| && plan.Source(i) in s.fs
  {
    s.(fs := Renamed(s.fs, plan.Source(i), plan.Destination(i)), placed := s.placed + {i})
  }

  lemma PlaceAgrees(s: Snapshot, i: nat)
    requires Agreement(s.journal, s.placed, s.active, s.errored)
    requires s.active == Some(i) && MoveIntent(i) in s.journal && RollbackVerified(i) !in s.journal
    ensures var t := Snapshot(s.fs, s.journal, s.placed + {i}, s.made, s.active, s.errored);
            Agreement(t.journal, t.placed, t.active, t.errored)
  {
  }

  // Moving one target to its free destination disturbs no other target.
  lemma PlaceTarget(
    plan: Plan, before: FileSystem, fs: FileSystem, placed: set<nat>, made: set<Path>, i: nat, j: nat)
    requires Conserved(plan, before, fs, placed, made)
    requires i < |plan.targets| && i !in placed && j < |plan.targets| && plan.Source(j) in before
    requires j != i ==> plan.Source(j) != plan.Source(i)
    requires plan.Source(i) in before && plan.Source(i) in fs && plan.Destination(i) !in fs
    requires plan.Destination(i) !in before
    ensures var after := Renamed(fs, plan.Source(i), plan.Destination(i));
            if j in placed + {i} then AtDestination(plan, before, after, j)
            else AtSource(plan, before, after, j)
  {
    assert AtSource(plan, before, fs, i);
    assert if j in placed then AtDestination(plan, before, fs, j) else AtSource(plan, before, fs, j);
  }

  // A target reaches its free destination.
  lemma PlaceConserves(
    plan: Plan, before: FileSystem, fs: FileSystem, placed: set<nat>, made: set<Path>, i: nat)
    requires Conserved(plan, before, fs, placed, made)
    requires i < |plan.targets| && i !in placed
    requires forall j: nat :: j < |plan.targets| && j != i ==> plan.Source(j) != plan.Source(i)
    requires plan.Source(i) in before && before[plan.Source(i)].Regular?
    requires plan.Source(i) in fs && plan.Destination(i) !in fs && plan.Destination(i) !in before
    ensures Conserved(plan, before, Renamed(fs, plan.Source(i), plan.Destination(i)), placed + {i}, made)
  {
    var after := Renamed(fs, plan.Source(i), plan.Destination(i));
    forall j: nat | j < |plan.targets| && plan.Source(j) in before
      ensures if j in placed + {i} then AtDestination(plan, before, after, j)
              else AtSource(plan, before, after, j)
    {
      PlaceTarget(plan, before, fs, placed, made, i, j);
    }
    PlacePaths(plan, before, fs, placed, made, i);
    MadeStays(plan, before, fs, placed, made, i);
    hide AtSource, AtDestination;
  }

  lemma PlacePaths(
    plan: Plan, before: FileSystem, fs: FileSystem, placed: set<nat>, made: set<Path>, i: nat)
    requires Conserved(plan, before, fs, placed, made)
    requires i < |plan.targets| && i !in placed
    requires plan.Source(i) in before && plan.Source(i) in fs && plan.Destination(i) !in fs
    ensures var after := Renamed(fs, plan.Source(i), plan.Destination(i));
            && (forall path :: path in before && !plan.IsSource(path) ==>
                  path in after && after[path] == before[path])
            && (forall path :: path in after && path !in before && path !in made ==>
                  exists j: nat :: j in placed + {i} && j < |plan.targets| && plan.Destination(j) == path)
  {
    var after := Renamed(fs, plan.Source(i), plan.Destination(i));
    hide AtSource, AtDestination;
    forall path | path in before && !plan.IsSource(path)
      ensures path in after && after[path] == before[path]
    {
      assert path != plan.Source(i);
    }
    forall path | path in after && path !in before && path !in made
      ensures exists j: nat :: j in placed + {i} && j < |plan.targets| && plan.Destination(j) == path
    {
      if path == plan.Destination(i) {
        assert i in placed + {i};
      } else {
        var j :| j in placed && plan.Destination(j) == path;
        assert j in placed + {i};
      }
    }
  }

  lemma MadeStays(
    plan: Plan, before: FileSystem, fs: FileSystem, placed: set<nat>, made: set<Path>, i: nat)
    requires Conserved(plan, before, fs, placed, made)
    requires i < |plan.targets| && plan.Source(i) in before && plan.Source(i) in fs && plan.Destination(i) !in fs
    ensures var after := Renamed(fs, plan.Source(i), plan.Destination(i));
            forall path :: path in made ==> path in after && path in fs && after[path] == fs[path]
  {
    hide AtSource, AtDestination;
  }

  // A regular file below an approved source root was there before the run.
  lemma SourceIsOriginal(plan: Plan, before: FileSystem, s: Snapshot, i: nat)
    requires ValidPlan(plan) && Safe(plan, before, s)
    requires i < |plan.targets| && i !in s.placed
    requires plan.Source(i) in s.fs && s.fs[plan.Source(i)].Regular?
    requires plan.targets[i].kind in plan.allowed
    requires Within(plan.Source(i), plan.allowed[plan.targets[i].kind])
    ensures plan.Source(i) in before && before[plan.Source(i)] == s.fs[plan.Source(i)]
  {
    var path, allowed := plan.Source(i), plan.allowed[plan.targets[i].kind];
    assert allowed[..|plan.appRoot|] == plan.appRoot && path[..|allowed|] == allowed;
    assert path[..|plan.appRoot|] == allowed[..|plan.appRoot|];
    assert Within(path, plan.appRoot);
    if Within(path, plan.root) {
      Comparable(path, plan.appRoot, plan.root);
      assert false;
    }
    assert path !in s.made;
    assert forall j :: j in s.placed ==> Within(plan.Destination(j), plan.root);
    assert AtSource(plan, before, s.fs, i);
  }

  // Two prefixes of one path: one contains the other.
  lemma Comparable(path: Path, a: Path, b: Path)
    requires Within(path, a) && Within(path, b)
    ensures Within(a, b) || Within(b, a)
  {
    if |a| <= |b| {
      assert b[..|a|] == path[..|a|] == a;
    } else {
      assert a[..|b|] == path[..|b|] == b;
    }
  }

  lemma PlaceIsSafe(plan: Plan, before: FileSystem, history: seq<Snapshot>, i: nat)
    requires history != [] && SafeHistory(plan, before, history)
    requires i < |plan.targets| && i !in Last(history).placed && Last(history).active == Some(i)
    requires MoveIntent(i) in Last(history).journal && RollbackVerified(i) !in Last(history).journal
    requires plan.Source(i) in before && before[plan.Source(i)].Regular?
    requires plan.Source(i) in Last(history).fs
    requires plan.Destination(i) !in Last(history).fs && plan.Destination(i) !in before
    requires plan.Destination(i) != [] && IsDirectory(Last(history).fs, Parent(plan.Destination(i)))
    ensures SafeHistory(plan, before, history + [Placed(plan, Last(history), i)])
  {
    var s := Last(history);
    UnplacedTarget(plan, before, history, i);
    hide Conserved, Agreement, ValidPlan, SafeHistory, Tree;
    PlaceConserves(plan, before, s.fs, s.placed, s.made, i);
    PlaceAgrees(s, i);
    RenameKeepsTree(s.fs, plan.Source(i), plan.Destination(i));
    ExtendHistory(plan, before, history, Placed(plan, s, i));
  }

  lemma UnplacedTarget(plan: Plan, before: FileSystem, history: seq<Snapshot>, i: nat)
    requires history != [] && SafeHistory(plan, before, history)
    requires i < |plan.targets| && i !in Last(history).placed && plan.Source(i) in before
    ensures forall j: nat :: j < |plan.targets| && j != i ==> plan.Source(j) != plan.Source(i)
    ensures AtSource(plan, before, Last(history).fs, i)
    ensures Safe(plan, before, Last(history)) && Tree(Last(history).fs)
  {
    HistoryHasValidPlan(plan, before, history);
  }

  function Confirmed(s: Snapshot, i: nat): Snapshot {
    s.(journal := s.journal + [MoveComplete(i)], active := None)
  }

  lemma ConfirmAgrees(s: Snapshot, i: nat)
    requires Agreement(s.journal, s.placed, s.active, s.errored)
    requires i in s.placed && s.active == Some(i)
    ensures var t := Confirmed(s, i); Agreement(t.journal, t.placed, t.active, t.errored)
  {
  }

  lemma ConfirmIsSafe(plan: Plan, before: FileSystem, history: seq<Snapshot>, i: nat)
    requires history != [] && SafeHistory(plan, before, history)
    requires i in Last(history).placed && Last(history).active == Some(i)
    ensures SafeHistory(plan, before, history + [Confirmed(Last(history), i)])
  {
    hide Conserved, Agreement;
    ConfirmAgrees(Last(history), i);
    ExtendHistory(plan, before, history, Confirmed(Last(history), i));
  }

  function Abandoned(s: Snapshot): Snapshot {
    s.(active := None)
  }

  // The rename of an announced target raised.
  lemma AbandonIsSafe(plan: Plan, before: FileSystem, history: seq<Snapshot>, i: nat)
    requires history != [] && SafeHistory(plan, before, history)
    requires i !in Last(history).placed && Last(history).active in {None, Some(i)}
    requires MoveComplete(i) !in Last(history).journal
    ensures SafeHistory(plan, before, history + [Abandoned(Last(history))])
  {
    hide Conserved;
    ExtendHistory(plan, before, history, Abandoned(Last(history)));
  }

  function UndoAnnounced(s: Snapshot, i: nat): Snapshot {
    s.(journal := s.journal + [RollbackIntent(i)], active := Some(i))
  }

  lemma UndoAnnounceAgrees(s: Snapshot, i: nat)
    requires Agreement(s.journal, s.placed, s.active, s.errored)
    requires i in s.placed && s.active in {None, Some(i)}
    ensures var t := UndoAnnounced(s, i); Agreement(t.journal, t.placed, t.active, t.errored)
  {
  }

  lemma UndoAnnounceIsSafe(plan: Plan, before: FileSystem, history: seq<Snapshot>, i: nat)
    requires history != [] && SafeHistory(plan, before, history)
    requires i in Last(history).placed && Last(history).active in {None, Some(i)}
    ensures SafeHistory(plan, before, history + [UndoAnnounced(Last(history), i)])
  {
    hide Conserved, Agreement;
    UndoAnnounceAgrees(Last(history), i);
    ExtendHistory(plan, before, history, UndoAnnounced(Last(history), i));
  }

  function Restored(plan: Plan, s: Snapshot, i: nat): Snapshot
    requires i < |plan.targets| && plan.Destination(i) in s.fs
  {
    s.(fs := Renamed(s.fs, plan.Destination(i), plan.Source(i)), placed := s.placed - {i})
  }

  lemma RestoreAgrees(s: Snapshot, i: nat)
    requires Agreement(s.journal, s.placed, s.active, s.errored)
    requires i in s.placed && s.active == Some(i) && RollbackIntent(i) in s.journal
    ensures var t := Snapshot(s.fs, s.journal, s.placed - {i}, s.made, s.active, s.errored);
            Agreement(t.journal, t.placed, t.active, t.errored)
  {
  }

  // Only regular files ever leave their place, so a target's directory stays.
  lemma SourceParentSurvives(plan: Plan, before: FileSystem, s: Snapshot, i: nat)
    requires Safe(plan, before, s) && Tree(before) && i in s.placed
    ensures plan.Source(i) != [] && IsDirectory(s.fs, Parent(plan.Source(i)))
  {
    var parent := Parent(plan.Source(i));
    assert IsDirectory(before, parent);
    if plan.IsSource(parent) {
      var j: nat :| j < |plan.targets| && plan.Source(j) == parent;
      assert j !in s.placed;
      assert AtSource(plan, before, s.fs, j);
    }
  }

  // A placed target goes back, and no other target is disturbed.
  lemma RestoreTarget(
    plan: Plan, before: FileSystem, fs: FileSystem, placed: set<nat>, made: set<Path>, i: nat, j: nat)
    requires Conserved(plan, before, fs, placed, made)
    requires i in placed && i < |plan.targets|
    requires j < |plan.targets| && plan.Source(j) in before
    requires j != i ==> plan.Source(j) != plan.Source(i) && plan.Destination(j) != plan.Destination(i)
    ensures plan.Source(i) in before && AtDestination(plan, before, fs, i)
    ensures var after := Renamed(fs, plan.Destination(i), plan.Source(i));
            if j in placed - {i} then AtDestination(plan, before, after, j)
            else AtSource(plan, before, after, j)
  {
    assert AtDestination(plan, before, fs, i);
    if j == i {
    } else if j in placed {
      assert AtDestination(plan, before, fs, j);
    } else {
      assert AtSource(plan, before, fs, j);
    }
  }

  lemma RestoreConserves(
    plan: Plan, before: FileSystem, fs: FileSystem, placed: set<nat>, made: set<Path>, i: nat)
    requires Conserved(plan, before, fs, placed, made)
    requires i in placed && i < |plan.targets|
    requires forall j: nat :: j < |plan.targets| && j != i ==>
               plan.Source(j) != plan.Source(i) && plan.Destination(j) != plan.Destination(i)
    ensures plan.Source(i) in before && AtDestination(plan, before, fs, i)
    ensures Conserved(plan, before, Renamed(fs, plan.Destination(i), plan.Source(i)), placed - {i}, made)
  {
    RestoreTarget(plan, before, fs, placed, made, i, i);
    var after := Renamed(fs, plan.Destination(i), plan.Source(i));
    forall j: nat | j < |plan.targets| && plan.Source(j) in before
      ensures if j in placed - {i} then AtDestination(plan, before, after, j)
              else AtSource(plan, before, after, j)
    {
      RestoreTarget(plan, before, fs, placed, made, i, j);
    }
    forall path | path in before && !plan.IsSource(path)
      ensures path in after && after[path] == before[path]
    {
      assert path != plan.Source(i);
    }
    forall path | path in after && path !in before && path !in made
      ensures exists j :: j in placed - {i} && plan.Destination(j) == path
    {
      var j :| j in placed && plan.Destination(j) == path;
      assert j in placed - {i};
    }
  }

  // A placed target whose rollback is announced can always go back: its source is free, and the
  // directory that held it is still there.
  lemma RestoreIsSafe(plan: Plan, before: FileSystem, history: seq<Snapshot>, i: nat)
    requires history != [] && SafeHistory(plan, before, history)
    requires i in Last(history).placed && Last(history).active == Some(i)
    requires RollbackIntent(i) in Last(history).journal
    ensures i < |plan.targets| && plan.Source(i) in before && AtDestination(plan, before, Last(history).fs, i)
    ensures plan.Source(i) != [] && IsDirectory(Last(history).fs, Parent(plan.Source(i)))
    ensures SafeHistory(plan, before, history + [Restored(plan, Last(history), i)])
  {
    var s := Last(history);
    PlacedTarget(plan, before, history, i);
    hide Conserved, Agreement, ValidPlan, SafeHistory, Tree;
    RestoreConserves(plan, before, s.fs, s.placed, s.made, i);
    SourceParentSurvives(plan, before, s, i);
    RestoreAgrees(s, i);
    RenameKeepsTree(s.fs, plan.Destination(i), plan.Source(i));
    ExtendHistory(plan, before, history, Restored(plan, s, i));
  }

  lemma PlacedTarget(plan: Plan, before: FileSystem, history: seq<Snapshot>, i: nat)
    requires history != [] && SafeHistory(plan, before, history) && i in Last(history).placed
    ensures i < |plan.targets| && plan.Source(i) in before && before[plan.Source(i)].Regular?
    ensures forall j: nat :: j < |plan.targets| && j != i ==>
              plan.Source(j) != plan.Source(i) && plan.Destination(j) != plan.Destination(i)
    ensures AtDestination(plan, before, Last(history).fs, i)
    ensures Safe(plan, before, Last(history)) && Tree(Last(history).fs) && Tree(before)
  {
    HistoryHasValidPlan(plan, before, history);
  }

  function UndoConfirmed(s: Snapshot, i: nat): Snapshot {
    s.(journal := s.journal + [RollbackVerified(i)], active := None)
  }

  lemma UndoConfirmAgrees(s: Snapshot, i: nat)
    requires Agreement(s.journal, s.placed, s.active, s.errored)
    requires i !in s.placed && s.active == Some(i) && RollbackIntent(i) in s.journal
    ensures var t := UndoConfirmed(s, i); Agreement(t.journal, t.placed, t.active, t.errored)
  {
  }

  lemma UndoConfirmIsSafe(plan: Plan, before: FileSystem, history: seq<Snapshot>, i: nat)
    requires history != [] && SafeHistory(plan, before, history)
    requires i !in Last(history).placed && Last(history).active == Some(i)
    requires RollbackIntent(i) in Last(history).journal
    ensures SafeHistory(plan, before, history + [UndoConfirmed(Last(history), i)])
  {
    hide Conserved, Agreement;
    UndoConfirmAgrees(Last(history), i);
    ExtendHistory(plan, before, history, UndoConfirmed(Last(history), i));
  }

  function GivenUp(s: Snapshot, i: nat): Snapshot {
    s.(active := None, errored := s.errored + {i})
  }

  lemma GiveUpIsSafe(plan: Plan, before: FileSystem, history: seq<Snapshot>, i: nat)
    requires history != [] && SafeHistory(plan, before, history)
    requires Last(history).active in {None, Some(i)}
    ensures SafeHistory(plan, before, history + [GivenUp(Last(history), i)])
  {
    hide Conserved;
    ExtendHistory(plan, before, history, GivenUp(Last(history), i));
  }

  function Grown(s: Snapshot, path: Path, node: Node): Snapshot {
    s.(fs := Created(s.fs, path, node), made := s.made + {path})
  }

  lemma CreateKeepsTree(fs: FileSystem, path: Path, node: Node)
    requires Tree(fs) && path !in fs && path != [] && IsDirectory(fs, Parent(path))
    ensures Tree(Created(fs, path, node))
  {
    var after := Created(fs, path, node);
    forall p | p in after && p != []
      ensures IsDirectory(after, Parent(p))
    {
      if p != path {
        assert IsDirectory(fs, Parent(p));
      }
    }
  }

  lemma CreateConserves(plan: Plan, before: FileSystem, s: Snapshot, path: Path, node: Node)
    requires Conserved(plan, before, s.fs, s.placed, s.made) && path !in s.fs && path !in before
    requires node.Regular? ==> Within(path, plan.root)
    ensures Conserved(plan, before, Created(s.fs, path, node), s.placed, s.made + {path})
  {
    var after := Created(s.fs, path, node);
    forall i: nat | i < |plan.targets| && plan.Source(i) in before
      ensures if i in s.placed then AtDestination(plan, before, after, i)
              else AtSource(plan, before, after, i)
    {
    }
  }

  lemma CreateIsSafe(plan: Plan, before: FileSystem, history: seq<Snapshot>, path: Path, node: Node)
    requires history != [] && SafeHistory(plan, before, history)
    requires path !in Last(history).fs && path !in before
    requires path != [] && IsDirectory(Last(history).fs, Parent(path))
    requires node.Regular? ==> Within(path, plan.root)
    ensures SafeHistory(plan, before, history + [Grown(Last(history), path, node)])
  {
    hide Conserved, Agreement;
    CreateConserves(plan, before, Last(history), path, node);
    CreateKeepsTree(Last(history).fs, path, node);
    ExtendHistory(plan, before, history, Grown(Last(history), path, node));
  }
}
