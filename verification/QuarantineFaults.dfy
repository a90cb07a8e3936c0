/** Which operations of a quarantine run fail, and what a rollback makes of it.  Operations are
    numbered in the order they are attempted; a rollback's whole course is a function of the failures
    from its first operation on. */
module QuarantineFaults {
  import opened Bytes
  import opened QuarantineState

  // How one operation fares: it works, it raises with no effect, or it raises although its effect
  // took place.  A failed file write may leave `partial` behind.
  datatype Fault = Works | RaisesBefore | RaisesAfter(partial: Data)

  type Faults = nat -> Fault

  ghost predicate AllWork(faults: Faults, start: nat, end: int) {
    forall k: nat :: start <= k < end ==> faults(k) == Works
  }

  // How many of the n operations from `start` on work before one fails.
  function Working(faults: Faults, start: nat, n: nat): (d: nat)
    ensures d <= n && AllWork(faults, start, start + d)
    ensures d < n ==> faults(start + d) != Works
    decreases n
  {
    if n == 0 || faults(start) != Works then 0 else 1 + Working(faults, start + 1, n - 1)
  }

  lemma {:induction false} WorkingIs(faults: Faults, start: nat, n: nat, d: nat)
    requires d <= n && AllWork(faults, start, start + d) && (d < n ==> faults(start + d) != Works)
    ensures Working(faults, start, n) == d
    decreases d
  {
    if d > 0 {
      WorkingIs(faults, start + 1, n - 1, d - 1);
    }
  }

  // ---------------------------------------------------------------- rolling back one target

  // The proof of the quarantined file, the intent record, the rename, its publication and the
  // verified record.
  const ROLLBACK_OPERATIONS: nat := 5

  // How far the rollback that starts at operation `start` gets.
  function Reached(faults: Faults, start: nat): (d: nat)
    ensures d <= ROLLBACK_OPERATIONS
  {
    Working(faults, start, ROLLBACK_OPERATIONS)
  }

  predicate RenamedBack(faults: Faults, start: nat) {
    Reached(faults, start) >= 3
  }

  predicate VerifiedRecorded(faults: Faults, start: nat) {
    Reached(faults, start) == 5 || (Reached(faults, start) == 4 && faults(start + 4) != RaisesBefore)
  }

  predicate IntentRecorded(faults: Faults, start: nat) {
    Reached(faults, start) >= 2 || (Reached(faults, start) == 1 && faults(start + 1) != RaisesBefore)
  }

  predicate FailureRecorded(faults: Faults, start: nat) {
    var d := Reached(faults, start);
    d < ROLLBACK_OPERATIONS && faults(start + d + 1) != RaisesBefore
  }

  lemma FirstFailure(faults: Faults, start: nat)
    ensures Reached(faults, start) < ROLLBACK_OPERATIONS ==> faults(start + Reached(faults, start)) != Works
  {
  }

  lemma RecordsAre(faults: Faults, i: nat, start: nat)
    ensures var d := Reached(faults, start);
            Records(faults, i, start) ==
              (if IntentRecorded(faults, start) then [RollbackIntent(i)] else [])
              + (if VerifiedRecorded(faults, start) then [RollbackVerified(i)] else [])
              + (if d < ROLLBACK_OPERATIONS && faults(start + d + 1) != RaisesBefore then [RollbackFailed(i)] else [])
    ensures var d := Reached(faults, start);
            EndOf(faults, start) == start + if d < ROLLBACK_OPERATIONS then d + 2 else d
  {
    hide IntentRecorded, VerifiedRecorded;
  }

  // What it leaves in the journal.
  function Records(faults: Faults, i: nat, start: nat): seq<Event> {
    (if IntentRecorded(faults, start) then [RollbackIntent(i)] else [])
    + (if VerifiedRecorded(faults, start) then [RollbackVerified(i)] else [])
    + (if FailureRecorded(faults, start) then [RollbackFailed(i)] else [])
  }

  // The operation after it; a failure is recorded by one operation more.
  function EndOf(faults: Faults, start: nat): nat {
    var d := Reached(faults, start);
    start + if d < ROLLBACK_OPERATIONS then d + 2 else d
  }

  // The operation that fails first decides everything.
  lemma RollbackStops(faults: Faults, start: nat, d: nat)
    requires d <= ROLLBACK_OPERATIONS && AllWork(faults, start, start + d)
    requires d < ROLLBACK_OPERATIONS ==> faults(start + d) != Works
    ensures Reached(faults, start) == d
    ensures RenamedBack(faults, start) <==> d >= 3
    ensures VerifiedRecorded(faults, start) <==> d == 5 || (d == 4 && faults(start + 4) != RaisesBefore)
    ensures IntentRecorded(faults, start) <==> d >= 2 || (d == 1 && faults(start + 1) != RaisesBefore)
    ensures FailureRecorded(faults, start) <==> d < 5 && faults(start + d + 1) != RaisesBefore
    ensures EndOf(faults, start) == start + if d < 5 then d + 2 else 5
  {
    WorkingIs(faults, start, ROLLBACK_OPERATIONS, d);
  }

  lemma StagesWork(faults: Faults, start: nat, first: nat, second: nat)
    requires first == Working(faults, start, 3) && second == Working(faults, start + 3, 2)
    ensures var d := if first < 3 then first else 3 + second;
            AllWork(faults, start, start + d) && (d < ROLLBACK_OPERATIONS ==> faults(start + d) != Works)
  {
    hide Working;
  }

  // The same in two stages: up to the rename, and after it.
  lemma RollbackEnds(faults: Faults, start: nat)
    ensures var first, second := Working(faults, start, 3), Working(faults, start + 3, 2);
            && Reached(faults, start) == (if first < 3 then first else 3 + second)
            && (RenamedBack(faults, start) <==> first == 3)
            && (IntentRecorded(faults, start) <==> first >= 2 || (first == 1 && faults(start + 1) != RaisesBefore))
            && (VerifiedRecorded(faults, start) <==>
                  first == 3 && (second == 2 || (second == 1 && faults(start + 4) != RaisesBefore)))
  {
    hide Working, AllWork, Reached, IntentRecorded, VerifiedRecorded, RenamedBack;
    var first, second := Working(faults, start, 3), Working(faults, start + 3, 2);
    StagesWork(faults, start, first, second);
    RollbackStops(faults, start, if first < 3 then first else 3 + second);
  }

  // ---------------------------------------------------------------- rolling back m targets

  // The first operation on target k when targets m - 1 down to 0 are rolled back from `start` on.
  function StartOf(faults: Faults, start: nat, m: nat, k: nat): nat
    requires k < m
    decreases m - k
  {
    if k == m - 1 then start else EndOf(faults, StartOf(faults, start, m, k + 1))
  }

  // Target k's rollback is the next one.
  lemma NextStart(faults: Faults, start: nat, m: nat, k: nat, clock: nat)
    requires k < m
    requires clock == if k + 1 == m then start else EndOf(faults, StartOf(faults, start, m, k + 1))
    ensures clock == StartOf(faults, start, m, k)
  {
    hide EndOf;
  }

  predicate StoppedShort(faults: Faults, start: nat, m: nat, k: nat)
    requires k < m
  {
    Reached(faults, StartOf(faults, start, m, k)) < ROLLBACK_OPERATIONS
  }

  predicate NotRenamed(faults: Faults, start: nat, m: nat, k: nat)
    requires k < m
  {
    !RenamedBack(faults, StartOf(faults, start, m, k))
  }

  lemma NotRenamedIs(faults: Faults, start: nat, m: nat, k: nat)
    requires k < m
    ensures NotRenamed(faults, start, m, k) <==> !RenamedBack(faults, StartOf(faults, start, m, k))
  {
  }

  lemma StepTells(faults: Faults, start: nat, m: nat, k: nat, raised: bool)
    requires k < m && (raised <==> Reached(faults, StartOf(faults, start, m, k)) < ROLLBACK_OPERATIONS)
    ensures raised <==> StoppedShort(faults, start, m, k)
    ensures NotRenamed(faults, start, m, k) <==> !RenamedBack(faults, StartOf(faults, start, m, k))
    ensures AllRecords(faults, start, m, k)
            == AllRecords(faults, start, m, k + 1) + Records(faults, k, StartOf(faults, start, m, k))
  {
  }

  // Their records, those of targets m - 1 down to k.
  function AllRecords(faults: Faults, start: nat, m: nat, k: nat): seq<Event>
    requires k <= m
    decreases m - k
  {
    if k == m then []
    else AllRecords(faults, start, m, k + 1) + Records(faults, k, StartOf(faults, start, m, k))
  }

  predicate Left(faults: Faults, start: nat, m: nat, i: nat, e: Event) {
    i < m && e in Records(faults, i, StartOf(faults, start, m, i))
  }

  // Each record was left by one target's rollback.
  lemma {:induction false} RecordsOfTarget(faults: Faults, start: nat, m: nat, k: nat, e: Event)
    requires k <= m
    ensures e in AllRecords(faults, start, m, k) <==> exists i: nat :: k <= i && Left(faults, start, m, i, e)
    decreases m - k
  {
    hide *;
    if k < m {
      RecordsOfTarget(faults, start, m, k + 1, e);
      RecordsSplit(faults, start, m, k);
      LeftIs(faults, start, m, k, e);
    } else {
      NothingLeft(faults, start, m, e);
    }
  }

  lemma LeftIs(faults: Faults, start: nat, m: nat, i: nat, e: Event)
    requires i < m
    ensures Left(faults, start, m, i, e) <==> e in Records(faults, i, StartOf(faults, start, m, i))
  {
    hide Records, StartOf;
  }

  lemma NothingLeft(faults: Faults, start: nat, m: nat, e: Event)
    ensures AllRecords(faults, start, m, m) == []
    ensures forall i: nat :: m <= i ==> !Left(faults, start, m, i, e)
  {
    hide Records, StartOf;
  }

  lemma RecordsHold(faults: Faults, i: nat, start: nat, e: Event)
    ensures e in Records(faults, i, start) <==>
              || (e == RollbackIntent(i) && IntentRecorded(faults, start))
              || (e == RollbackVerified(i) && VerifiedRecorded(faults, start))
              || (e == RollbackFailed(i) && FailureRecorded(faults, start))
  {
    hide VerifiedRecorded, IntentRecorded, FailureRecorded;
  }

  lemma VerifiedInJournal(faults: Faults, start: nat, m: nat, i: nat)
    requires i < m
    ensures RollbackVerified(i) in AllRecords(faults, start, m, 0)
            <==> VerifiedRecorded(faults, StartOf(faults, start, m, i))
  {
    hide *;
    RecordsOfTarget(faults, start, m, 0, RollbackVerified(i));
    forall j: nat
      ensures Left(faults, start, m, j, RollbackVerified(i)) <==>
                j == i && VerifiedRecorded(faults, StartOf(faults, start, m, i))
    {
      if j < m {
        LeftIs(faults, start, m, j, RollbackVerified(i));
        RecordsHold(faults, j, StartOf(faults, start, m, j), RollbackVerified(i));
      } else {
        NotLeft(faults, start, m, j, RollbackVerified(i));
      }
    }
    assert Left(faults, start, m, i, RollbackVerified(i)) <==> VerifiedRecorded(faults, StartOf(faults, start, m, i));
  }

  lemma NotLeft(faults: Faults, start: nat, m: nat, j: nat, e: Event)
    requires m <= j
    ensures !Left(faults, start, m, j, e)
  {
  }

  lemma OnlyRollbackRecords(faults: Faults, start: nat, m: nat, k: nat, e: Event)
    requires k <= m && e in AllRecords(faults, start, m, k)
    ensures RollbackRecord(e) && k <= e.i < m
  {
    hide StartOf, AllRecords, VerifiedRecorded, IntentRecorded, FailureRecorded, Left, Records;
    RecordsOfTarget(faults, start, m, k, e);
    var i: nat :| k <= i && Left(faults, start, m, i, e);
    if i < m {
      LeftIs(faults, start, m, i, e);
      RecordsHold(faults, i, StartOf(faults, start, m, i), e);
    } else {
      NotLeft(faults, start, m, i, e);
    }
  }

  // Last moved, first rolled back.
  ghost predicate LastFirst(records: seq<Event>) {
    forall p, q :: 0 <= p < q < |records| && records[p].RollbackIntent? && records[q].RollbackIntent? ==>
      records[p].i > records[q].i
  }

  lemma {:induction false} RolledBackInReverse(faults: Faults, start: nat, m: nat, k: nat)
    requires k <= m
    ensures LastFirst(AllRecords(faults, start, m, k))
    decreases m - k
  {
    if k < m {
      var later, own := AllRecords(faults, start, m, k + 1), Records(faults, k, StartOf(faults, start, m, k));
      RolledBackInReverse(faults, start, m, k + 1);
      forall e | e in later
        ensures RollbackRecord(e) && k < e.i
      {
        OnlyRollbackRecords(faults, start, m, k + 1, e);
      }
      OneIntent(faults, k, StartOf(faults, start, m, k));
      hide AllRecords, Records;
      assert AllRecords(faults, start, m, k) == later + own by {
        RecordsSplit(faults, start, m, k);
      }
      LastFirstTogether(later, own, k);
    }
  }

  lemma RecordsSplit(faults: Faults, start: nat, m: nat, k: nat)
    requires k < m
    ensures AllRecords(faults, start, m, k)
            == AllRecords(faults, start, m, k + 1) + Records(faults, k, StartOf(faults, start, m, k))
  {
  }

  lemma OneIntent(faults: Faults, k: nat, start: nat)
    ensures forall p :: 0 <= p < |Records(faults, k, start)| && Records(faults, k, start)[p].RollbackIntent? ==>
              p == 0 && Records(faults, k, start)[p].i == k
  {
    hide IntentRecorded, VerifiedRecorded, FailureRecorded;
  }

  lemma LastFirstTogether(later: seq<Event>, own: seq<Event>, k: nat)
    requires LastFirst(later) && forall e :: e in later ==> RollbackRecord(e) && k < e.i
    requires forall p :: 0 <= p < |own| && own[p].RollbackIntent? ==> p == 0 && own[p].i == k
    ensures LastFirst(later + own)
  {
    var all := later + own;
    forall p, q | 0 <= p < q < |all| && all[p].RollbackIntent? && all[q].RollbackIntent?
      ensures all[p].i > all[q].i
    {
      if p < |later| {
        assert all[p] in later;
      }
    }
  }
}
