/** Manifests that load and that no run can complete: one conflict of each kind that loading does not
    look for. */
module QuarantineSamples {
  import opened Paths
  import opened Wrappers
  import opened PosixPath
  import opened Digests
  import opened QuarantineState
  import opened QuarantineLayout
  import opened QuarantinePlan
  import QuarantineRun

  const TREE: FileSystem := map[[] := Directory, ["app"] := Directory]
  const ROOT: Path := ["q"]

  function Same(s: string): string {
    s
  }

  function Zeros(n: nat): (s: string)
    ensures |s| == n && forall c :: c in s ==> c == '0'
  {
    if n == 0 then "" else ['0'] + Zeros(n - 1)
  }

  function Digest(): string {
    Zeros(HASH_HEX_LEN)
  }

  function NoReferences(): map<string, int> {
    map key | key in QuarantineRun.STATE_REFERENCE_KEYS :: 0
  }

  function SourceName(k: nat): string {
    seq(k + 1, _ => 'x')
  }

  function SampleTarget(relative: string, k: nat): RawTarget {
    RawTarget("kind", ["app", SourceName(k)], relative, 0, Digest())
  }

  function SampleTargets(relatives: seq<string>): (targets: seq<RawTarget>)
    ensures |targets| == |relatives|
    ensures forall k :: 0 <= k < |targets| ==> targets[k] == SampleTarget(relatives[k], k)
  {
    if relatives == [] then []
    else
      var last := |relatives| - 1;
      SampleTargets(relatives[..last]) + [SampleTarget(relatives[last], last)]
  }

  // A manifest with empty files and these destinations.
  function Sample(relatives: seq<string>): Document {
    Document(
      ROOT, ROOT, ["app"], ["app"], map["kind" := ["app"]],
      SampleTargets(relatives), |relatives|, 0, Digest(), Digest(), true, NoReferences(), [])
  }

  predicate Spelled(relatives: seq<string>) {
    && 1 <= |relatives| <= MAX_TARGETS
    && forall k :: 0 <= k < |relatives| ==> ValidateRelativeDestination(relatives[k]).Some?
  }

  function Key(relative: string): string
    requires ValidateRelativeDestination(relative).Some?
  {
    AsPosix(ValidateRelativeDestination(relative).value)
  }

  lemma {:induction false} EmptyTotal(targets: seq<RawTarget>)
    requires forall k :: 0 <= k < |targets| ==> targets[k].size == 0
    ensures TotalBytes(targets) == 0
  {
    if targets != [] {
      EmptyTotal(targets[..|targets| - 1]);
    }
  }

  lemma DigestIsPrinted()
    ensures IsLowerHexDigest(Digest())
  {
    hide Zeros;
    assert '0' in "0123456789abcdef";
  }

  lemma RootsAreGood(doc: Document)
    requires doc.proposedRoot == doc.destinationAuthority == ROOT
    requires doc.appRoot == doc.inboxRoot == ["app"] && doc.allowed == map["kind" := ["app"]]
    ensures GoodRoots(doc, TREE, ROOT)
  {
    assert ROOT[0] != ["app"][0];
    assert "kind" in doc.allowed;
  }

  lemma TargetsAreGood(relatives: seq<string>)
    requires Spelled(relatives)
    ensures forall i: nat :: i < |relatives| ==> GoodTarget(Sample(relatives), Sample(relatives).targets[i])
  {
    DigestIsPrinted();
    hide IsLowerHexDigest, ValidateRelativeDestination, Digest;
  }

  lemma TargetsAreDistinct(relatives: seq<string>)
    requires Spelled(relatives)
    requires forall j, k :: 0 <= j < k < |relatives| ==> Key(relatives[j]) != Key(relatives[k])
    ensures DistinctTargets(Sample(relatives), Same, |relatives|)
  {
    var doc := Sample(relatives);
    hide ValidateRelativeDestination, AsPosix, Digest;
    forall j: nat, k: nat | j < k < |relatives|
      ensures doc.targets[j].source != doc.targets[k].source
      ensures DestinationKey(doc.targets[j], Same) != DestinationKey(doc.targets[k], Same)
    {
      assert |SourceName(j)| != |SourceName(k)|;
      assert doc.targets[j].source[1] != doc.targets[k].source[1];
      assert Key(relatives[j]) != Key(relatives[k]);
    }
  }

  lemma NoReferencesLeft()
    ensures QuarantineRun.ZeroReferences(NoReferences())
  {
  }

  // Well-spelled destinations that are not the same make an acceptable manifest.
  lemma SampleIsAcceptable(relatives: seq<string>)
    requires Spelled(relatives)
    requires forall j, k :: 0 <= j < k < |relatives| ==> Key(relatives[j]) != Key(relatives[k])
    ensures Acceptable(Sample(relatives), TREE, ROOT, Same)
  {
    assert 1 <= |relatives| <= MAX_TARGETS;
    hide IsLowerHexDigest, ValidateRelativeDestination, GoodRoots, GoodTarget, DistinctTargets, Digest, NoReferences,
      TotalBytes, Spelled, Key, QuarantineRun.ZeroReferences;
    EmptyTotal(Sample(relatives).targets);
    DigestIsPrinted();
    RootsAreGood(Sample(relatives));
    TargetsAreGood(relatives);
    TargetsAreDistinct(relatives);
    NoReferencesLeft();
  }

  // The plan that loading makes of the document.
  ghost predicate LoadedAs(doc: Document, plan: Plan) {
    && plan.root == ROOT && |plan.targets| == |doc.targets|
    && forall i: nat :: i < |doc.targets| ==> plan.targets[i] == LoadedTarget(doc.targets[i])
  }

  ghost predicate LoadsInVain(doc: Document) {
    && Acceptable(doc, TREE, ROOT, Same)
    && forall plan | LoadedAs(doc, plan) :: !Feasible(plan, TREE)
  }

  lemma ConflictIsInVain(doc: Document, i: nat, j: nat)
    requires Acceptable(doc, TREE, ROOT, Same) && i < |doc.targets| && j < |doc.targets|
    requires || Relative(doc.targets[i]) == [] || ReservedForAudit(Relative(doc.targets[i]))
             || Relative(doc.targets[j]) < Relative(doc.targets[i])
    ensures LoadsInVain(doc)
  {
    hide Acceptable, Relative, ReservedForAudit, Feasible;
    forall plan | LoadedAs(doc, plan)
      ensures !Feasible(plan, TREE)
    {
      FeasibleExactly(doc, TREE, ROOT, Same, plan);
    }
  }

  ghost predicate Plain(parts: Path) {
    parts != [] && forall c :: c in parts ==> c !in {"", ".", ".."} && forall x :: x in c ==> x !in "/\\:\0"
  }

  lemma PlainParts(parts: Path)
    requires Plain(parts)
    ensures Split(Join(parts, '/'), '/') == parts && Significant(parts) == parts
    ensures forall x :: x in Join(parts, '/') ==> x !in "\\:\0"
    ensures Join(parts, '/') != "" && Join(parts, '/')[0] != '/'
    ensures parts[0] !in {"/", "//"}
  {
    var value := Join(parts, '/');
    assert '/' in "/\\:\0";
    forall k | 0 <= k < |parts|
      ensures Free(parts[k], '/') && parts[k] !in {"", "."}
    {
      assert parts[k] in parts;
    }
    assert Significant(parts) == parts;
    SplitJoin(parts, '/');
    JoinCharacters(parts, '/');
    assert parts[0] in parts && parts[0][0] in parts[0] && value[0] == parts[0][0];
    assert '/' in "/" && '/' in "//";
  }

  // How a destination of plain components is spelled.
  lemma PlainSpelling(parts: Path)
    requires Plain(parts)
    ensures ValidateRelativeDestination(Join(parts, '/')) == Some(parts)
    ensures AsPosix(parts) == Join(parts, '/')
  {
    PlainParts(parts);
    assert '\\' in "\\:\0" && ':' in "\\:\0" && '\0' in "\\:\0";
    hide Join, Split, Significant;
  }

  // One destination inside another.
  lemma NestedDestinations()
    ensures LoadsInVain(Sample(["a", "a/b"]))
  {
    var relatives := ["a", "a/b"];
    NestedSpelling();
    hide ValidateRelativeDestination, AsPosix, Join;
    SampleIsAcceptable(relatives);
    assert ["a"] < ["a", "b"];
    ConflictIsInVain(Sample(relatives), 1, 0);
  }

  lemma NestedSpelling()
    ensures ValidateRelativeDestination("a") == Some(["a"]) && ValidateRelativeDestination("a/b") == Some(["a", "b"])
    ensures AsPosix(["a"]) == "a" && AsPosix(["a", "b"]) == "a/b"
  {
    assert ["a", "b"][1..] == ["b"] && Join(["a", "b"], '/') == "a/b" && Join(["a"], '/') == "a";
    hide ValidateRelativeDestination, AsPosix, Join;
    PlainSpelling(["a"]);
    PlainSpelling(["a", "b"]);
  }

  lemma OneDestination(relative: string)
    requires ValidateRelativeDestination(relative).Some?
    requires var parts := ValidateRelativeDestination(relative).value; parts == [] || ReservedForAudit(parts)
    ensures LoadsInVain(Sample([relative]))
  {
    hide ValidateRelativeDestination, AsPosix, ReservedForAudit;
    SampleIsAcceptable([relative]);
    hide Acceptable;
    assert Relative(Sample([relative]).targets[0]) == ValidateRelativeDestination(relative).value;
    ConflictIsInVain(Sample([relative]), 0, 0);
  }

  // The place of an audit file.
  lemma AuditDestination()
    ensures LoadsInVain(Sample(["audit/completion.json"]))
  {
    assert ReservedForAudit(["audit", "completion.json"]);
    hide *;
    AuditSpelling();
    OneDestination("audit/completion.json");
  }

  lemma AuditSpelling()
    ensures ValidateRelativeDestination("audit/completion.json") == Some(["audit", "completion.json"])
  {
    var parts := ["audit", "completion.json"];
    assert parts[1..] == ["completion.json"] && Join(parts, '/') == "audit/completion.json";
    hide ValidateRelativeDestination, AsPosix, Join;
    PlainSpelling(parts);
  }

  // The quarantine root itself.
  lemma RootDestination()
    ensures LoadsInVain(Sample(["."]))
  {
    hide *;
    DotSpelling();
    OneDestination(".");
  }
}
