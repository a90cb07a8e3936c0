/** Two runs.  After the first, disk and journal disagree on two targets although no step is in
    progress: both targets are moved, the final check of the first fails to be read, and while rolling
    back, each rename returns but its publication raises.  The second moves both targets and fails
    only to close the journal. */
module QuarantineWitness {
  import opened Paths
  import opened Bytes
  import opened Wrappers
  import opened QuarantineState
  import opened QuarantineSteps
  import opened QuarantineFaults
  import opened QuarantineLayout
  import opened QuarantineRun

  const TREE: FileSystem := map[
    [] := Directory, ["app"] := Directory, ["app", "x"] := Regular([]), ["app", "y"] := Regular([])]

  const PLAN: Plan := Plan(
    ["q"], ["app"], map["kind" := ["app"]],
    [Target("kind", ["app", "x"], ["x"], 0, "digest"), Target("kind", ["app", "y"], ["y"], 0, "digest")],
    [], [])

  // The operations that raise: the first final check, and the publication of each rename back.
  const FAILING: set<nat> := {25, 30, 35}

  function WitnessFault(k: nat): Fault {
    if k in FAILING then RaisesBefore else Works
  }

  function SameDigest(data: Data): string {
    "digest"
  }

  lemma TreeIsTree()
    ensures Tree(TREE)
  {
    forall path | path in TREE && path != []
      ensures IsDirectory(TREE, Parent(path))
    {
      assert path in {["app"], ["app", "x"], ["app", "y"]};
      assert ["app"][..0] == [] && ["app", "x"][..1] == ["app"] && ["app", "y"][..1] == ["app"];
    }
  }

  lemma PlanIsValid()
    ensures ValidPlan(PLAN)
    ensures PLAN.Destination(0) == ["q", "x"] && PLAN.Destination(1) == ["q", "y"]
  {
    assert ["q"] + ["x"] == ["q", "x"] && ["q"] + ["y"] == ["q", "y"];
    assert PLAN.root[0] != PLAN.appRoot[0];
    assert ["q", "x"][1] != ["q", "y"][1] && ["app", "x"][1] != ["app", "y"][1];
  }

  lemma PlanIsFeasible()
    ensures Feasible(PLAN, TREE)
  {
    PlanIsValid();
    hide ValidPlan;
    forall i: nat | i < 2
      ensures PLAN.root < PLAN.Destination(i) && |PLAN.Destination(i)| == 2
      ensures PLAN.Destination(i)[1] in {"x", "y"}
    {
      assert i == 0 || i == 1;
    }
    assert AuditDirectory(PLAN)[1] == "audit";
    forall i: nat, name | i < 2 && name in AUDIT_FILES
      ensures !(Audit(PLAN, name) <= PLAN.Destination(i))
    {
      assert |Audit(PLAN, name)| == 3;
    }
    assert forall path :: path in TREE && path < PLAN.root ==> path == [];
  }

  lemma ReferencesAreZero(references: map<string, int>)
    requires references == map key | key in STATE_REFERENCE_KEYS :: 0
    ensures ZeroReferences(references)
  {
  }

  lemma RunIsDoable(run: Run)
    requires run.plan == PLAN && run.before == TREE && run.digestOf == SameDigest
    ensures run.Doable()
  {
    PlanIsFeasible();
    hide Feasible;
    forall i: nat | i < 2
      ensures run.Eligible(i)
    {
      assert i == 0 || i == 1;
      assert ["app"] <= ["app", "x"] && ["app"] <= ["app", "y"];
    }
  }

  lemma CountsOperations()
    ensures OperationsUpTo(PLAN, 2) == 18
  {
    assert OperationsUpTo(PLAN, 1) == 9 + OperationsUpTo(PLAN, 0);
  }

  lemma StopsAtPublication(start: nat)
    requires start == 27 || start == 32
    ensures Reached(WitnessFault, start) == 3 && EndOf(WitnessFault, start) == start + 5
    ensures RenamedBack(WitnessFault, start) && !VerifiedRecorded(WitnessFault, start)
  {
    RollbackStops(WitnessFault, start, 3);
    hide VerifiedRecorded, RenamedBack, Reached;
  }

  // When the two rollbacks start.
  lemma RollbackStarts()
    ensures StartOf(WitnessFault, 27, 2, 1) == 27 && StartOf(WitnessFault, 27, 2, 0) == 32
  {
    StopsAtPublication(27);
    hide EndOf;
  }

  lemma FirstFailureIs(end: nat)
    requires AllWork(WitnessFault, 0, end) && WitnessFault(end) != Works
    ensures end == 25
  {
    assert WitnessFault(25) != Works;
  }

  ghost predicate IsWitness(run: Run) {
    run.plan == PLAN && run.before == TREE && run.digestOf == SameDigest && run.faults == WitnessFault
  }

  lemma FailsLate(k: nat)
    ensures WitnessFault(k) != Works ==> k >= 25
    ensures WitnessFault(25) != Works
  {
  }

  lemma NotRefused(run: Run, outcome: Outcome)
    requires IsWitness(run) && run.Timed(outcome, 0, true) && run.Doable()
    ensures !Inner(outcome).Refused?
  {
    hide Inner, ErrorsOf, OperationsUpTo, WitnessFault, Run.RolledBackFrom, Run.Doable, Run.FaultOrFlaw;
    if Inner(outcome).Refused? {
      FailsLate(run.clock - 1);
    }
  }

  lemma NotCompleted(run: Run, outcome: Outcome)
    requires IsWitness(run) && run.Timed(outcome, 0, true) && OperationsUpTo(PLAN, 2) == 18
    ensures !Inner(outcome).Completed?
  {
    hide Inner, ErrorsOf, OperationsUpTo, WitnessFault, Run.RolledBackFrom, Run.Doable, Run.FaultOrFlaw, Run.Stopped;
    FailsLate(25);
  }

  lemma WentBack(run: Run, outcome: Outcome)
    requires IsWitness(run) && run.Timed(outcome, 0, true) && run.Doable() && OperationsUpTo(PLAN, 2) == 18
    requires Inner(outcome).RolledBack? || Inner(outcome).RollbackIncomplete?
    ensures run.RolledBackFrom(27, ErrorsOf(outcome), run.recordedBefore)
    ensures |run.moved| == 2 && MoveComplete(0) in run.recordedBefore && MoveComplete(1) in run.recordedBefore
  {
    hide Inner, ErrorsOf, OperationsUpTo, WitnessFault, Run.RolledBackFrom, Run.Doable, Run.Stopped, AllWork;
    FirstFailureIs(run.rollbackFrom - 2);
  }

  // The first failure comes after both moves and before the end.
  lemma BrokenOff(run: Run, outcome: Outcome)
    requires IsWitness(run) && run.Timed(outcome, 0, true)
    ensures run.RolledBackFrom(27, ErrorsOf(outcome), run.recordedBefore)
    ensures |run.moved| == 2 && MoveComplete(0) in run.recordedBefore && MoveComplete(1) in run.recordedBefore
    ensures Inner(outcome).RolledBack? || Inner(outcome).RollbackIncomplete?
  {
    RunIsDoable(run);
    hide *;
    CountsOperations();
    InnerIsNoClosing(outcome);
    NotRefused(run, outcome);
    NotCompleted(run, outcome);
    WentBack(run, outcome);
  }

  lemma OneMisread(run: Run, outcome: Outcome, i: nat)
    requires IsWitness(run) && run.Valid() && i < 2 && |run.moved| == 2
    requires run.RolledBackFrom(27, ErrorsOf(outcome), run.recordedBefore) && MoveComplete(i) in run.recordedBefore
    ensures Misread(run.Now(), i) && i in ErrorsOf(outcome) && i !in run.Now().placed
  {
    RollbackStarts();
    StopsAtPublication(27);
    StopsAtPublication(32);
    run.MisreadAfterRollback(27, ErrorsOf(outcome), run.recordedBefore, i);
    hide Misread, RenamedBack, VerifiedRecorded, Reached, StartOf, ErrorsOf, AllRecords, Run.Valid;
  }

  // Both targets are back, and the journal has them moved.
  lemma BothMisread(run: Run, outcome: Outcome)
    requires IsWitness(run) && run.Valid() && run.Timed(outcome, 0, true)
    ensures Inner(outcome).RollbackIncomplete? && 0 in ErrorsOf(outcome) && 1 in ErrorsOf(outcome)
    ensures run.Now().active == None && Misread(run.Now(), 0) && Misread(run.Now(), 1)
    ensures 0 !in run.Now().placed && 1 !in run.Now().placed
  {
    BrokenOff(run, outcome);
    OneMisread(run, outcome, 0);
    OneMisread(run, outcome, 1);
    hide Inner, Misread, Run.Timed, Run.Valid, AllRecords, IsWitness;
  }

  // A run of the whole transaction that ends this way.
  method TwoTargetsMisread() returns (run: Run, outcome: Outcome)
    ensures fresh(run) && run.Valid() && run.SafeThroughout() && run.Settled(outcome)
    ensures Inner(outcome).RollbackIncomplete? && 0 in ErrorsOf(outcome) && 1 in ErrorsOf(outcome)
    ensures run.Now().active == None && Misread(run.Now(), 0) && Misread(run.Now(), 1)
    ensures 0 !in run.Now().placed && 1 !in run.Now().placed
  {
    TreeIsTree();
    PlanIsValid();
    var references := map key | key in STATE_REFERENCE_KEYS :: 0;
    ReferencesAreZero(references);
    hide *;
    run := new Run(PLAN, SameDigest, WitnessFault, TREE);
    outcome := run.ExecuteMoves([], [], references);
    BothMisread(run, outcome);
  }

  // ---------------------------------------------------------------- a run that only fails to close

  function ClosingFault(k: nat): Fault {
    if k == 29 then RaisesBefore else Works
  }

  lemma ClosesAt(run: Run)
    requires run.plan == PLAN && run.before == TREE
    ensures run.ClosingAt(0) == 29
  {
    CountsOperations();
    assert Parent(["q"]) == [] && Missing(["q"], TREE) == 1 + Missing([], TREE);
    hide OperationsUpTo, Missing;
  }

  lemma OnlyClosingFails(run: Run, outcome: Outcome)
    requires run.plan == PLAN && run.before == TREE && run.digestOf == SameDigest && run.faults == ClosingFault
    requires run.Timed(outcome, 0, true) && run.Settled(outcome)
    requires outcome.CloseFailed? <==> !outcome.Refused? && run.clock > 0 && run.faults(run.clock - 1) != Works
    ensures outcome == CloseFailed(Completed)
    ensures AtDestination(PLAN, TREE, run.fs, 0) && AtDestination(PLAN, TREE, run.fs, 1)
  {
    RunIsDoable(run);
    ClosesAt(run);
    run.CompletesExactly(outcome, 0);
    hide Run.Doable, Run.RolledBackFrom, Run.ClosingAt, OperationsUpTo;
    assert Inner(outcome).Completed? && run.clock == 30;
  }

  // Both targets lie in quarantine, verified, and the caller is told that the run failed.
  method MovedButNotClosed() returns (run: Run, outcome: Outcome)
    ensures fresh(run) && run.Valid() && run.SafeThroughout()
    ensures outcome == CloseFailed(Completed)
    ensures AtDestination(PLAN, TREE, run.fs, 0) && AtDestination(PLAN, TREE, run.fs, 1)
  {
    TreeIsTree();
    PlanIsValid();
    var references := map key | key in STATE_REFERENCE_KEYS :: 0;
    ReferencesAreZero(references);
    hide *;
    run := new Run(PLAN, SameDigest, ClosingFault, TREE);
    outcome := run.ExecuteMoves([], [], references);
    OnlyClosingFails(run, outcome);
  }
}
