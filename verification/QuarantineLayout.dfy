/** When a quarantine run can succeed at all: the plans whose destinations fit beside each other and
    beside the audit files, and what a run has built so far. */
module QuarantineLayout {
  import opened Paths
  import opened Bytes
  import opened Wrappers
  import opened QuarantineState
  import opened QuarantineSteps

  const AUDIT_FILES: set<string> := {
    "manifest-v2.json", "manifest-v1.json", "move-journal.jsonl", "completion.json" }

  // Those that exist when the first target moves.
  const OPENING_FILES: set<string> := AUDIT_FILES - {"completion.json"}

  function AuditDirectory(plan: Plan): Path {
    plan.root + ["audit"]
  }

  function Audit(plan: Plan, name: string): Path {
    plan.root + ["audit", name]
  }

  // The plans whose destinations can all be filled: below a new root, not through one another, and
  // not where the audit files go.
  ghost predicate Feasible(plan: Plan, before: FileSystem) {
    && plan.root !in before
    && (forall path :: path in before && path < plan.root ==> before[path].Directory?)
    && (forall i: nat :: i < |plan.targets| ==> plan.root < plan.Destination(i))
    && (forall i: nat, j: nat :: i < |plan.targets| && j < |plan.targets| ==>
          !(plan.Destination(j) < plan.Destination(i)))
    && (forall i: nat :: i < |plan.targets| ==> plan.Destination(i) != AuditDirectory(plan))
    && (forall i: nat, name :: i < |plan.targets| && name in AUDIT_FILES ==>
          !(Audit(plan, name) <= plan.Destination(i)))
  }

  // Said of what the manifest spells: the destinations below the root.
  lemma FeasibleExactlyWhen(plan: Plan, before: FileSystem)
    ensures Feasible(plan, before) <==>
              && plan.root !in before
              && (forall path :: path in before && path < plan.root ==> before[path].Directory?)
              && (forall t :: t in plan.targets ==>
                    && t.relative != [] && t.relative != ["audit"]
                    && (forall name :: name in AUDIT_FILES ==> !(["audit", name] <= t.relative)))
              && (forall s, t :: s in plan.targets && t in plan.targets ==> !(s.relative < t.relative))
  {
    forall i: nat | i < |plan.targets|
      ensures plan.targets[i] in plan.targets
      ensures plan.root < plan.Destination(i) <==> plan.targets[i].relative != []
      ensures plan.Destination(i) != AuditDirectory(plan) <==> plan.targets[i].relative != ["audit"]
      ensures forall name ::
                Audit(plan, name) <= plan.Destination(i) <==> ["audit", name] <= plan.targets[i].relative
    {
      BelowTheSame(plan.root, ["audit"], plan.targets[i].relative);
      forall name
        ensures Audit(plan, name) <= plan.Destination(i) <==> ["audit", name] <= plan.targets[i].relative
      {
        BelowTheSame(plan.root, ["audit", name], plan.targets[i].relative);
      }
    }
    forall i: nat, j: nat | i < |plan.targets| && j < |plan.targets|
      ensures plan.Destination(j) < plan.Destination(i) <==> plan.targets[j].relative < plan.targets[i].relative
    {
      BelowTheSame(plan.root, plan.targets[j].relative, plan.targets[i].relative);
    }
    hide Audit, AuditDirectory;
  }

  lemma BelowTheSame(root: Path, a: Path, b: Path)
    ensures root + a <= root + b <==> a <= b
    ensures root + a == root + b <==> a == b
  {
    assert (root + a)[|root|..] == a && (root + b)[|root|..] == b;
    if a <= b {
      assert b == a + b[|a|..] && root + b == root + a + b[|a|..];
    }
    if root + a <= root + b {
      assert (root + b)[..|root + a|] == root + a && (root + b)[|root|..|root + a|] == b[..|a|];
    }
  }

  ghost predicate OnTheWay(plan: Plan, path: Path) {
    plan.root < path && exists i: nat :: i < |plan.targets| && path < plan.Destination(i)
  }

  // Everything the run made so far: the root with its ancestors, the directory for the audit files,
  // those of them named in `files`, and directories that lead to a destination.
  ghost predicate Laid(plan: Plan, s: Snapshot, files: set<string>) {
    && files <= AUDIT_FILES
    && forall path :: path in s.made ==>
         && path in s.fs
         && if s.fs[path].Regular? then exists name :: name in files && path == Audit(plan, name)
            else path <= plan.root || path == AuditDirectory(plan) || OnTheWay(plan, path)
  }

  // Below the root lies only what the run put there.
  lemma FoundBelowRoot(plan: Plan, before: FileSystem, s: Snapshot, path: Path)
    requires Tree(before) && plan.root !in before && plan.root <= path
    requires Safe(plan, before, s) && path in s.fs
    ensures path in s.made
            || exists j: nat :: j < |plan.targets| && j in s.placed && plan.Destination(j) == path
  {
    NothingBelow(before, plan.root, path);
    if path !in s.made {
      var j :| j in s.placed && plan.Destination(j) == path;
    }
  }

  lemma NothingMadeIsDestination(plan: Plan, before: FileSystem, s: Snapshot, files: set<string>, i: nat)
    requires Feasible(plan, before) && Laid(plan, s, files) && i < |plan.targets|
    ensures plan.Destination(i) !in s.made
  {
  }

  lemma OtherDestination(plan: Plan, i: nat, j: nat)
    requires ValidPlan(plan) && i < |plan.targets| && j < |plan.targets| && i != j
    ensures plan.Destination(i) != plan.Destination(j)
  {
  }

  lemma DestinationIsFree(plan: Plan, before: FileSystem, s: Snapshot, files: set<string>, i: nat)
    requires ValidPlan(plan) && Tree(before) && Feasible(plan, before)
    requires Safe(plan, before, s) && Laid(plan, s, files)
    requires i < |plan.targets| && i !in s.placed
    ensures plan.Destination(i) !in s.fs
  {
    NothingMadeIsDestination(plan, before, s, files, i);
    assert plan.root !in before && plan.root <= plan.Destination(i);
    hide Safe, Laid, Tree, Feasible, ValidPlan;
    if plan.Destination(i) in s.fs {
      FoundBelowRoot(plan, before, s, plan.Destination(i));
      var j: nat :| j < |plan.targets| && j in s.placed && plan.Destination(j) == plan.Destination(i);
      OtherDestination(plan, i, j);
      assert false;
    }
  }

  lemma WayIsDirectory(plan: Plan, before: FileSystem, s: Snapshot, files: set<string>, i: nat, path: Path)
    requires Tree(before) && Feasible(plan, before)
    requires Safe(plan, before, s) && Laid(plan, s, files)
    requires i < |plan.targets| && plan.root < path < plan.Destination(i)
    ensures path in s.fs ==> IsDirectory(s.fs, path)
  {
    if path in s.fs {
      FoundBelowRoot(plan, before, s, path);
    }
  }

  lemma AuditIsFree(plan: Plan, before: FileSystem, s: Snapshot, files: set<string>, name: string)
    requires Tree(before) && Feasible(plan, before)
    requires Safe(plan, before, s) && Laid(plan, s, files)
    requires name in AUDIT_FILES && name !in files
    ensures Audit(plan, name) !in s.fs
  {
    assert Audit(plan, name)[|plan.root| + 1] == name;
    if Audit(plan, name) in s.fs {
      FoundBelowRoot(plan, before, s, Audit(plan, name));
    }
  }

  lemma AuditDirectoryIsFree(plan: Plan, before: FileSystem, s: Snapshot, files: set<string>)
    requires Tree(before) && Feasible(plan, before)
    requires Safe(plan, before, s) && Laid(plan, s, files)
    ensures AuditDirectory(plan) in s.fs ==> IsDirectory(s.fs, AuditDirectory(plan))
  {
    if AuditDirectory(plan) in s.fs {
      FoundBelowRoot(plan, before, s, AuditDirectory(plan));
    }
  }

  // The root and the audit files so far are in place, and nothing made is in the way.
  ghost predicate Built(plan: Plan, before: FileSystem, s: Snapshot, files: set<string>) {
    && IsDirectory(s.fs, plan.root) && IsDirectory(s.fs, AuditDirectory(plan))
    && (forall name :: name in files ==>
          Audit(plan, name) in s.made && Audit(plan, name) in s.fs && s.fs[Audit(plan, name)].Regular?)
    && (Feasible(plan, before) ==> Laid(plan, s, files))
  }

  lemma SameTreeSameBuilt(plan: Plan, before: FileSystem, s: Snapshot, t: Snapshot, files: set<string>)
    requires s.fs == t.fs && s.made == t.made
    ensures Built(plan, before, s, files) ==> Built(plan, before, t, files)
  {
  }

  lemma DirectoryIsLaid(plan: Plan, s: Snapshot, files: set<string>, path: Path)
    requires Laid(plan, s, files) && path !in s.fs
    requires path <= plan.root || path == AuditDirectory(plan) || OnTheWay(plan, path)
    ensures Laid(plan, Grown(s, path, Directory), files)
  {
  }

  lemma DirectoryStaysBuilt(plan: Plan, before: FileSystem, s: Snapshot, files: set<string>, path: Path)
    requires Built(plan, before, s, files) && path !in s.fs && OnTheWay(plan, path)
    ensures Built(plan, before, Grown(s, path, Directory), files)
  {
    if Feasible(plan, before) {
      DirectoryIsLaid(plan, s, files, path);
    }
  }

  // The audit directory completes the frame.
  lemma AuditDirectoryStands(plan: Plan, before: FileSystem, s: Snapshot, t: Snapshot)
    requires Laid(plan, s, {}) && IsDirectory(s.fs, plan.root)
    requires (IsDirectory(s.fs, AuditDirectory(plan)) && t == s)
             || (AuditDirectory(plan) !in s.fs && t == Grown(s, AuditDirectory(plan), Directory))
    ensures Built(plan, before, t, {})
  {
    if AuditDirectory(plan) !in s.fs {
      DirectoryIsLaid(plan, s, {}, AuditDirectory(plan));
    }
  }

  lemma FileIsLaid(plan: Plan, s: Snapshot, files: set<string>, name: string, data: Data)
    requires Laid(plan, s, files) && Audit(plan, name) !in s.fs && name in AUDIT_FILES
    ensures Laid(plan, Grown(s, Audit(plan, name), Regular(data)), files + {name})
  {
    var after := Grown(s, Audit(plan, name), Regular(data));
    forall path | path in after.made && after.fs[path].Regular?
      ensures exists known :: known in files + {name} && path == Audit(plan, known)
    {
      if path != Audit(plan, name) {
        var known :| known in files && path == Audit(plan, known);
        assert known in files + {name};
      }
    }
  }

  lemma FileStaysBuilt(
    plan: Plan, before: FileSystem, s: Snapshot, files: set<string>, name: string, data: Data)
    requires Built(plan, before, s, files) && Audit(plan, name) !in s.fs && name in AUDIT_FILES
    ensures Built(plan, before, Grown(s, Audit(plan, name), Regular(data)), files + {name})
  {
    if Feasible(plan, before) {
      FileIsLaid(plan, s, files, name, data);
    }
  }

  // A move touches neither what the run made nor a directory.
  lemma MadeStays(plan: Plan, before: FileSystem, s: Snapshot, i: nat)
    requires Safe(plan, before, s)
    requires i < |plan.targets| && plan.Source(i) in before && plan.Source(i) in s.fs
    requires before[plan.Source(i)].Regular? && plan.Destination(i) !in s.fs
    ensures forall path :: path in s.made || IsDirectory(s.fs, path) ==>
              path in s.fs && path in Placed(plan, s, i).fs && Placed(plan, s, i).fs[path] == s.fs[path]
  {
    UnmovedIsOriginal(plan, before, s, i);
    assert s.made !! before.Keys && s.made <= s.fs.Keys;
    hide Safe;
    var after := Placed(plan, s, i).fs;
    forall path | path in s.made || IsDirectory(s.fs, path)
      ensures path in s.fs && path in after && after[path] == s.fs[path]
    {
      assert path in s.fs && path != plan.Source(i);
    }
  }

  lemma UnmovedIsOriginal(plan: Plan, before: FileSystem, s: Snapshot, i: nat)
    requires Safe(plan, before, s)
    requires i < |plan.targets| && plan.Source(i) in before && plan.Source(i) in s.fs
    ensures s.fs[plan.Source(i)] == before[plan.Source(i)]
  {
    assert AtSource(plan, before, s.fs, i) || AtDestination(plan, before, s.fs, i);
  }

  lemma MovingFileStaysLaid(plan: Plan, s: Snapshot, t: Snapshot, files: set<string>)
    requires Laid(plan, s, files) && t.made == s.made
    requires forall path :: path in s.made ==> path in t.fs && t.fs[path] == s.fs[path]
    ensures Laid(plan, t, files)
  {
  }

  lemma PlacingStaysBuilt(plan: Plan, before: FileSystem, s: Snapshot, files: set<string>, i: nat)
    requires Built(plan, before, s, files) && Safe(plan, before, s)
    requires i < |plan.targets| && plan.Source(i) in before && plan.Source(i) in s.fs
    requires before[plan.Source(i)].Regular? && plan.Destination(i) !in s.fs
    ensures Built(plan, before, Placed(plan, s, i), files)
  {
    MadeStays(plan, before, s, i);
    hide Safe, Feasible, Laid;
    if Feasible(plan, before) {
      MovingFileStaysLaid(plan, s, Placed(plan, s, i), files);
    }
  }

  // What lies above something is a directory.
  lemma AboveIsDirectory(fs: FileSystem, path: Path, below: Path)
    requires Tree(fs) && below in fs && path < below
    ensures IsDirectory(fs, path)
  {
    AncestorsExist(fs, below, |path|);
    assert below[..|path|] == path;
  }

  lemma FilledDestination(plan: Plan, before: FileSystem, s: Snapshot, i: nat)
    requires Safe(plan, before, s) && i in s.placed
    requires IsDirectory(s.fs, plan.root) && IsDirectory(s.fs, AuditDirectory(plan))
    ensures i < |plan.targets|
    ensures plan.Destination(i) in s.fs && s.fs[plan.Destination(i)].Regular?
    ensures plan.Destination(i) !in s.made
    ensures plan.root < plan.Destination(i) && plan.Destination(i) != AuditDirectory(plan)
  {
    assert AtDestination(plan, before, s.fs, i);
    assert plan.root + [] == plan.root;
  }

  lemma SurvivorIsOriginal(plan: Plan, before: FileSystem, s: Snapshot, path: Path)
    requires Safe(plan, before, s) && path in before && path in s.fs
    ensures s.fs[path] == before[path]
  {
    if plan.IsSource(path) {
      var i: nat :| i < |plan.targets| && plan.Source(i) == path;
      assert AtSource(plan, before, s.fs, i) || AtDestination(plan, before, s.fs, i);
    }
  }

  // A state with every target in place and every audit file made shows that the plan was feasible.
  lemma FilledIsFeasible(plan: Plan, before: FileSystem, s: Snapshot)
    requires Tree(s.fs) && Safe(plan, before, s)
    requires plan.root !in before && IsDirectory(s.fs, plan.root)
    requires IsDirectory(s.fs, AuditDirectory(plan))
    requires forall name :: name in AUDIT_FILES ==>
               Audit(plan, name) in s.made && Audit(plan, name) in s.fs && s.fs[Audit(plan, name)].Regular?
    requires forall i: nat :: i < |plan.targets| ==> i in s.placed
    ensures Feasible(plan, before)
  {
    hide Tree, Safe;
    forall i: nat | i < |plan.targets|
      ensures plan.Destination(i) in s.fs && s.fs[plan.Destination(i)].Regular?
      ensures plan.Destination(i) !in s.made
      ensures plan.root < plan.Destination(i) && plan.Destination(i) != AuditDirectory(plan)
    {
      FilledDestination(plan, before, s, i);
    }
    forall i: nat, j: nat | i < |plan.targets| && j < |plan.targets|
      ensures !(plan.Destination(j) < plan.Destination(i))
    {
      if plan.Destination(j) < plan.Destination(i) {
        AboveIsDirectory(s.fs, plan.Destination(j), plan.Destination(i));
      }
    }
    forall i: nat, name | i < |plan.targets| && name in AUDIT_FILES
      ensures !(Audit(plan, name) <= plan.Destination(i))
    {
      assert Audit(plan, name) != plan.Destination(i);
      if Audit(plan, name) <= plan.Destination(i) {
        AboveIsDirectory(s.fs, Audit(plan, name), plan.Destination(i));
      }
    }
    forall path | path in before && path < plan.root
      ensures before[path].Directory?
    {
      AboveIsDirectory(s.fs, path, plan.root);
      SurvivorIsOriginal(plan, before, s, path);
    }
  }
}
