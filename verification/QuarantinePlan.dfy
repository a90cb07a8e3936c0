/** Loading a quarantine manifest: which documents are accepted, and what an accepted one
    guarantees to the move engine. */
module QuarantinePlan {
  import opened Paths
  import opened Bytes
  import opened Wrappers
  import opened PosixPath
  import opened Digests
  import opened QuarantineState
  import opened QuarantineLayout
  import QuarantineRun

  const MAX_TARGETS: nat := 1_000_000

  datatype RawTarget = RawTarget(kind: string, source: Path, relative: string, size: int, digest: string)

  datatype RawPreserve = RawPreserve(
    relative: string, size: int, digest: string, ledgerMatches: int, ledgerSizeMatch: bool)

  // A parsed manifest, with paths already absolute.
  datatype Document = Document(
    proposedRoot: Path, destinationAuthority: Path, appRoot: Path, inboxRoot: Path,
    allowed: map<string, Path>,
    targets: seq<RawTarget>, targetCount: int, targetBytes: int,
    targetSetDigest: string,      // as declared
    canonicalDigest: string,      // of the targets as they stand
    readOnlyAudit: bool, references: map<string, int>,
    preserve: seq<RawPreserve>)

  function ValidateRelativeDestination(value: string): Option<Path> {
    if value == "" || '\\' in value || '\0' in value || ':' in value then None
    else if IsAbsolute(value) then None
    else
      var parts := Parts(value);
      if "" in parts || "." in parts || ".." in parts then None else Some(parts)
  }

  // An accepted spelling has plain components only, so joining it to a root cannot leave the root,
  // and respelling it yields the same path.
  lemma AcceptedDestinationStaysBelow(value: string)
    requires ValidateRelativeDestination(value).Some?
    ensures var parts := ValidateRelativeDestination(value).value;
            && (forall k :: 0 <= k < |parts| ==> parts[k] !in {"", ".", ".."} && Free(parts[k], '/'))
            && (parts != [] ==> Parts(AsPosix(parts)) == parts)
  {
    var parts := Parts(value);
    var split := Split(value, '/');
    forall k | 0 <= k < |parts|
      ensures parts[k] !in {"", ".", ".."} && Free(parts[k], '/')
    {
      assert parts[k] in split;
    }
    if parts != [] {
      assert parts[0] != "/" && parts[0] != "//" by {
        assert Free(parts[0], '/');
        assert '/' in "/" && '/' in "//";
      }
      SplitJoin(parts, '/');
      assert !IsAbsolute(Join(parts, '/')) by {
        if |parts| == 1 {
          assert Join(parts, '/') == parts[0];
        } else {
          assert Join(parts, '/')[0] == parts[0][0];
        }
        assert Free(parts[0], '/');
      }
    }
  }

  // A destination is accepted when it is a relative path without backslashes, colons, NUL or "..".
  lemma DestinationExactly(value: string, names: Path)
    ensures ValidateRelativeDestination(value) == Some(names) <==>
              && value != "" && value[0] != '/' && (forall c :: c in value ==> c !in ['\\', ':', '\0'])
              && names == Significant(Split(value, '/')) && ".." !in names
  {
    hide Split;
  }

  function Relative(raw: RawTarget): Path {
    match ValidateRelativeDestination(raw.relative)
    case Some(parts) => parts
    case None => []
  }

  function DestinationKey(raw: RawTarget, fold: string -> string): string {
    fold(AsPosix(Relative(raw)))
  }

  function TotalBytes(targets: seq<RawTarget>): int {
    if targets == [] then 0 else TotalBytes(targets[..|targets| - 1]) + targets[|targets| - 1].size
  }

  predicate GoodTarget(doc: Document, raw: RawTarget) {
    && raw.kind in doc.allowed
    && ValidateRelativeDestination(raw.relative).Some?
    && raw.size >= 0 && IsLowerHexDigest(raw.digest)
  }

  function PreservedPath(doc: Document, raw: RawPreserve): Path {
    match ValidateRelativeDestination(raw.relative)
    case Some(parts) => doc.inboxRoot + parts
    case None => []
  }

  predicate GoodPreserve(raw: RawPreserve) {
    && ValidateRelativeDestination(raw.relative).Some?
    && raw.size >= 0 && IsLowerHexDigest(raw.digest)
    && raw.ledgerMatches > 0 && raw.ledgerSizeMatch
  }

  predicate GoodRoots(doc: Document, fs: FileSystem, root: Path) {
    && root == doc.proposedRoot == doc.destinationAuthority && root !in fs
    && IsDirectory(fs, doc.appRoot) && IsDirectory(fs, doc.inboxRoot)
    && !Within(root, doc.appRoot) && !Within(doc.appRoot, root)
    && doc.allowed != map[]
    && forall kind :: kind in doc.allowed ==>
         kind != "" && IsDirectory(fs, doc.allowed[kind]) && Within(doc.allowed[kind], doc.appRoot)
  }

  // The documents that are accepted: every entry is sound on its own, no two entries name the same
  // source or destination, and the declared totals are the actual ones.
  ghost predicate Acceptable(doc: Document, fs: FileSystem, root: Path, fold: string -> string) {
    && GoodRoots(doc, fs, root)
    && 1 <= |doc.targets| <= MAX_TARGETS && doc.targetCount == |doc.targets|
    && (forall i: nat :: i < |doc.targets| ==> GoodTarget(doc, doc.targets[i]))
    && DistinctTargets(doc, fold, |doc.targets|)
    && doc.targetBytes == TotalBytes(doc.targets)
    && IsLowerHexDigest(doc.targetSetDigest) && doc.targetSetDigest == doc.canonicalDigest
    && doc.readOnlyAudit && QuarantineRun.ZeroReferences(doc.references)
    && (forall k: nat :: k < |doc.preserve| ==> GoodPreserve(doc.preserve[k]))
    && (forall k: nat, i: nat :: k < |doc.preserve| && i < |doc.targets| ==>
          PreservedPath(doc, doc.preserve[k]) != doc.targets[i].source)
    && DistinctPreserves(doc, |doc.preserve|)
  }

  // ---------------------------------------------------------------- the rules, field by field

  // The components a destination spells.
  function Names(relative: string): Path {
    Significant(Split(relative, '/'))
  }

  ghost predicate SoundEntry(relative: string, size: int, digest: string) {
    && relative != "" && relative[0] != '/' && (forall c :: c in relative ==> c !in ['\\', ':', '\0'])
    && ".." !in Names(relative)
    && size >= 0
    && |digest| == 64 && forall c :: c in digest ==> '0' <= c <= '9' || 'a' <= c <= 'f'
  }

  // The root is new and apart from the live data; the approved roots lie inside that.
  ghost predicate SoundRoots(doc: Document, fs: FileSystem, root: Path) {
    && root == doc.proposedRoot && root == doc.destinationAuthority && root !in fs
    && doc.appRoot in fs && fs[doc.appRoot].Directory? && doc.inboxRoot in fs && fs[doc.inboxRoot].Directory?
    && !(doc.appRoot <= root) && !(root <= doc.appRoot)
    && (exists kind :: kind in doc.allowed)
    && forall kind :: kind in doc.allowed ==>
         && kind != "" && doc.appRoot <= doc.allowed[kind]
         && doc.allowed[kind] in fs && fs[doc.allowed[kind]].Directory?
  }

  // Sound targets, no two with the same source or the same folded destination, and their totals.
  ghost predicate SoundTargets(doc: Document, fold: string -> string) {
    && 0 < |doc.targets| <= 1_000_000
    && (forall i: nat :: i < |doc.targets| ==>
          var t := doc.targets[i];
          t.kind in doc.allowed && SoundEntry(t.relative, t.size, t.digest))
    && (forall i: nat, j: nat :: i < j < |doc.targets| ==>
          var s, t := doc.targets[i], doc.targets[j];
          s.source != t.source && fold(AsPosix(Names(s.relative))) != fold(AsPosix(Names(t.relative))))
    && doc.targetCount == |doc.targets| && doc.targetBytes == TotalBytes(doc.targets)
    && doc.targetSetDigest == doc.canonicalDigest && |doc.targetSetDigest| == 64
    && forall c :: c in doc.targetSetDigest ==> '0' <= c <= '9' || 'a' <= c <= 'f'
  }

  // Sound entries to preserve, proved by the ledger, of different files, none of them a target.
  ghost predicate SoundPreserves(doc: Document) {
    && (forall k: nat :: k < |doc.preserve| ==>
          var p := doc.preserve[k];
          SoundEntry(p.relative, p.size, p.digest) && p.ledgerMatches > 0 && p.ledgerSizeMatch)
    && (forall k: nat, i: nat :: k < |doc.preserve| && i < |doc.targets| ==>
          doc.inboxRoot + Names(doc.preserve[k].relative) != doc.targets[i].source)
    && forall k: nat, l: nat :: k < l < |doc.preserve| ==>
         Names(doc.preserve[k].relative) != Names(doc.preserve[l].relative)
  }

  lemma SoundEntryExactly(relative: string, size: int, digest: string)
    ensures SoundEntry(relative, size, digest) <==>
              ValidateRelativeDestination(relative).Some? && size >= 0 && IsLowerHexDigest(digest)
    ensures SoundEntry(relative, size, digest) ==> ValidateRelativeDestination(relative) == Some(Names(relative))
  {
    DestinationExactly(relative, Names(relative));
    if ValidateRelativeDestination(relative).Some? {
      DestinationExactly(relative, ValidateRelativeDestination(relative).value);
    }
    hide ValidateRelativeDestination, Names;
    DigestExactly(digest);
  }

  lemma DigestExactly(digest: string)
    ensures IsLowerHexDigest(digest) <==>
              |digest| == 64 && forall c :: c in digest ==> '0' <= c <= '9' || 'a' <= c <= 'f'
  {
  }

  // A document is acceptable exactly when it meets these rules, changed nothing, and found no
  // references left.
  lemma AcceptableExactly(doc: Document, fs: FileSystem, root: Path, fold: string -> string)
    ensures Acceptable(doc, fs, root, fold) <==>
              && SoundRoots(doc, fs, root) && SoundTargets(doc, fold) && SoundPreserves(doc)
              && doc.readOnlyAudit && QuarantineRun.ZeroReferences(doc.references)
  {
    RootsExactly(doc, fs, root);
    DigestExactly(doc.targetSetDigest);
    hide SoundRoots, GoodRoots, SoundTargets, SoundPreserves, IsLowerHexDigest;
    TargetsExactly(doc, fold);
    PreservesExactly(doc);
  }

  lemma RootsExactly(doc: Document, fs: FileSystem, root: Path)
    ensures SoundRoots(doc, fs, root) <==> GoodRoots(doc, fs, root)
  {
    assert doc.allowed != map[] <==> exists kind :: kind in doc.allowed;
  }

  lemma TargetsExactly(doc: Document, fold: string -> string)
    ensures SoundTargets(doc, fold) <==>
              && 1 <= |doc.targets| <= MAX_TARGETS && doc.targetCount == |doc.targets|
              && (forall i: nat :: i < |doc.targets| ==> GoodTarget(doc, doc.targets[i]))
              && DistinctTargets(doc, fold, |doc.targets|)
              && doc.targetBytes == TotalBytes(doc.targets)
              && IsLowerHexDigest(doc.targetSetDigest) && doc.targetSetDigest == doc.canonicalDigest
  {
    DigestExactly(doc.targetSetDigest);
    hide GoodTarget, SoundEntry, DestinationKey, Names, IsLowerHexDigest, TotalBytes;
    forall i: nat | i < |doc.targets|
      ensures var t := doc.targets[i];
              && (GoodTarget(doc, t) <==> t.kind in doc.allowed && SoundEntry(t.relative, t.size, t.digest))
              && (GoodTarget(doc, t) ==> DestinationKey(t, fold) == fold(AsPosix(Names(t.relative))))
    {
      TargetExactly(doc, doc.targets[i], fold);
    }
  }

  lemma TargetExactly(doc: Document, t: RawTarget, fold: string -> string)
    ensures GoodTarget(doc, t) <==> t.kind in doc.allowed && SoundEntry(t.relative, t.size, t.digest)
    ensures GoodTarget(doc, t) ==> DestinationKey(t, fold) == fold(AsPosix(Names(t.relative)))
  {
    SoundEntryExactly(t.relative, t.size, t.digest);
    hide SoundEntry, ValidateRelativeDestination, Names, IsLowerHexDigest;
  }

  lemma PreservesExactly(doc: Document)
    ensures SoundPreserves(doc) <==>
              && (forall k: nat :: k < |doc.preserve| ==> GoodPreserve(doc.preserve[k]))
              && (forall k: nat, i: nat :: k < |doc.preserve| && i < |doc.targets| ==>
                    PreservedPath(doc, doc.preserve[k]) != doc.targets[i].source)
              && DistinctPreserves(doc, |doc.preserve|)
  {
    forall k: nat | k < |doc.preserve|
      ensures var p := doc.preserve[k];
              && (GoodPreserve(p) <==>
                    SoundEntry(p.relative, p.size, p.digest) && p.ledgerMatches > 0 && p.ledgerSizeMatch)
              && (GoodPreserve(p) ==> PreservedPath(doc, p) == doc.inboxRoot + Names(p.relative))
    {
      var p := doc.preserve[k];
      SoundEntryExactly(p.relative, p.size, p.digest);
      hide SoundEntry, ValidateRelativeDestination, Names, IsLowerHexDigest;
    }
    forall a: Path, b: Path
      ensures doc.inboxRoot + a == doc.inboxRoot + b <==> a == b
    {
      assert (doc.inboxRoot + a)[|doc.inboxRoot|..] == a && (doc.inboxRoot + b)[|doc.inboxRoot|..] == b;
    }
    hide GoodPreserve, SoundEntry, PreservedPath, Names;
  }

  lemma {:induction false} TotalInTwo(a: seq<RawTarget>, b: seq<RawTarget>)
    ensures TotalBytes(a + b) == TotalBytes(a) + TotalBytes(b)
    ensures forall t :: TotalBytes([t]) == t.size
    decreases |b|
  {
    forall t
      ensures TotalBytes([t]) == t.size
    {
      assert [t][..0] == [];
    }
    if b == [] {
      assert a + b == a;
    } else {
      assert (a + b)[..|a + b| - 1] == a + b[..|b| - 1];
      TotalInTwo(a, b[..|b| - 1]);
    }
  }

  function LoadedTarget(raw: RawTarget): Target {
    Target(raw.kind, raw.source, Relative(raw), if raw.size >= 0 then raw.size else 0, raw.digest)
  }

  function LoadedPreserve(doc: Document, raw: RawPreserve): Preserved {
    Preserved(PreservedPath(doc, raw), if raw.size >= 0 then raw.size else 0, raw.digest)
  }

  // Sources, destination keys and preserved paths among the first n entries.
  function Sources(doc: Document, n: nat): set<Path>
    requires n <= |doc.targets|
  {
    if n == 0 then {} else Sources(doc, n - 1) + {doc.targets[n - 1].source}
  }

  function Keys(doc: Document, fold: string -> string, n: nat): set<string>
    requires n <= |doc.targets|
  {
    if n == 0 then {} else Keys(doc, fold, n - 1) + {DestinationKey(doc.targets[n - 1], fold)}
  }

  function Kept(doc: Document, n: nat): set<Path>
    requires n <= |doc.preserve|
  {
    if n == 0 then {} else Kept(doc, n - 1) + {PreservedPath(doc, doc.preserve[n - 1])}
  }

  lemma {:induction false} InSources(doc: Document, n: nat, path: Path)
    requires n <= |doc.targets|
    ensures path in Sources(doc, n) <==> exists i: nat :: i < n && doc.targets[i].source == path
  {
    if n > 0 {
      InSources(doc, n - 1, path);
    }
  }

  lemma {:induction false} InKeys(doc: Document, fold: string -> string, n: nat, key: string)
    requires n <= |doc.targets|
    ensures key in Keys(doc, fold, n) <==> exists i: nat :: i < n && DestinationKey(doc.targets[i], fold) == key
  {
    hide DestinationKey;
    if n > 0 {
      InKeys(doc, fold, n - 1, key);
    }
  }

  lemma {:induction false} InKept(doc: Document, n: nat, path: Path)
    requires n <= |doc.preserve|
    ensures path in Kept(doc, n) <==> exists k: nat :: k < n && PreservedPath(doc, doc.preserve[k]) == path
  {
    hide PreservedPath;
    if n > 0 {
      InKept(doc, n - 1, path);
    }
  }

  ghost predicate DistinctTargets(doc: Document, fold: string -> string, n: nat)
    requires n <= |doc.targets|
  {
    forall i: nat, j: nat :: i < j < n ==>
      doc.targets[i].source != doc.targets[j].source
      && DestinationKey(doc.targets[i], fold) != DestinationKey(doc.targets[j], fold)
  }

  // Entry n repeats an earlier one exactly when what the scan has seen contains it.
  lemma NextIsDistinct(doc: Document, fold: string -> string, n: nat)
    requires n < |doc.targets| && DistinctTargets(doc, fold, n)
    ensures DistinctTargets(doc, fold, n + 1) <==>
              && doc.targets[n].source !in Sources(doc, n)
              && DestinationKey(doc.targets[n], fold) !in Keys(doc, fold, n)
  {
    hide DestinationKey, Sources, Keys;
    InSources(doc, n, doc.targets[n].source);
    InKeys(doc, fold, n, DestinationKey(doc.targets[n], fold));
  }

  ghost predicate DistinctPreserves(doc: Document, n: nat)
    requires n <= |doc.preserve|
  {
    forall k: nat, l: nat :: k < l < n ==>
      PreservedPath(doc, doc.preserve[k]) != PreservedPath(doc, doc.preserve[l])
  }

  lemma NextPreserveIsDistinct(doc: Document, n: nat)
    requires n < |doc.preserve| && DistinctPreserves(doc, n)
    ensures DistinctPreserves(doc, n + 1) <==> PreservedPath(doc, doc.preserve[n]) !in Kept(doc, n)
  {
    InKept(doc, n, PreservedPath(doc, doc.preserve[n]));
  }

  // Scans the targets, remembering which sources and destinations were seen.
  lemma NoBytes()
    ensures TotalBytes([]) == 0
  {
  }

  lemma MoreBytes(targets: seq<RawTarget>, n: nat)
    requires n < |targets|
    ensures TotalBytes(targets[..n + 1]) == TotalBytes(targets[..n]) + targets[n].size
  {
    assert targets[..n + 1][..n] == targets[..n];
  }

  method LoadTargets(doc: Document, fold: string -> string)
    returns (r: Option<(seq<Target>, set<Path>, int)>)
    ensures r.Some? <==>
              && (forall i: nat :: i < |doc.targets| ==> GoodTarget(doc, doc.targets[i]))
              && DistinctTargets(doc, fold, |doc.targets|)
    ensures r.Some? ==>
              && |r.value.0| == |doc.targets|
              && (forall i: nat :: i < |doc.targets| ==> r.value.0[i] == LoadedTarget(doc.targets[i]))
              && r.value.1 == Sources(doc, |doc.targets|)
              && r.value.2 == TotalBytes(doc.targets)
  {
    hide GoodTarget, DestinationKey, LoadedTarget, TotalBytes;
    NoBytes();
    var targets: seq<Target> := [];
    var seenSources: set<Path>, seenDestinations: set<string>, totalBytes := {}, {}, 0;
    for n := 0 to |doc.targets|
      invariant |targets| == n
      invariant forall i: nat :: i < n ==> targets[i] == LoadedTarget(doc.targets[i])
      invariant forall i: nat :: i < n ==> GoodTarget(doc, doc.targets[i])
      invariant seenSources == Sources(doc, n) && seenDestinations == Keys(doc, fold, n)
      invariant DistinctTargets(doc, fold, n)
      invariant totalBytes == TotalBytes(doc.targets[..n])
    {
      var raw := doc.targets[n];
      NextIsDistinct(doc, fold, n);
      MoreBytes(doc.targets, n);
      if !GoodTarget(doc, raw) || raw.source in seenSources || DestinationKey(raw, fold) in seenDestinations {
        return None;
      }
      seenSources := seenSources + {raw.source};
      seenDestinations := seenDestinations + {DestinationKey(raw, fold)};
      totalBytes := totalBytes + raw.size;
      targets := targets + [LoadedTarget(raw)];
    }
    assert doc.targets[..|doc.targets|] == doc.targets;
    return Some((targets, seenSources, totalBytes));
  }

  method LoadPreserved(doc: Document, sources: set<Path>) returns (r: Option<seq<Preserved>>)
    ensures r.Some? <==>
              && (forall k: nat :: k < |doc.preserve| ==>
                    GoodPreserve(doc.preserve[k]) && PreservedPath(doc, doc.preserve[k]) !in sources)
              && DistinctPreserves(doc, |doc.preserve|)
    ensures r.Some? ==>
              && |r.value| == |doc.preserve|
              && forall k: nat :: k < |doc.preserve| ==> r.value[k] == LoadedPreserve(doc, doc.preserve[k])
  {
    hide GoodPreserve, PreservedPath, LoadedPreserve;
    var preserved: seq<Preserved> := [];
    var seen: set<Path> := {};
    for n := 0 to |doc.preserve|
      invariant |preserved| == n
      invariant forall k: nat :: k < n ==> preserved[k] == LoadedPreserve(doc, doc.preserve[k])
      invariant forall k: nat :: k < n ==>
                  GoodPreserve(doc.preserve[k]) && PreservedPath(doc, doc.preserve[k]) !in sources
      invariant seen == Kept(doc, n) && DistinctPreserves(doc, n)
    {
      var raw := doc.preserve[n];
      var source := PreservedPath(doc, raw);
      NextPreserveIsDistinct(doc, n);
      if !GoodPreserve(raw) || source in sources || source in seen {
        return None;
      }
      seen := seen + {source};
      preserved := preserved + [LoadedPreserve(doc, raw)];
    }
    return Some(preserved);
  }

  // Accepts exactly the acceptable documents, and hands the move engine a valid plan for them.
  // What loading makes of sound entries.
  lemma LoadedExactly(doc: Document)
    ensures forall i: nat :: i < |doc.targets| && GoodTarget(doc, doc.targets[i]) ==>
              var t := doc.targets[i];
              t.size >= 0 && LoadedTarget(t) == Target(t.kind, t.source, Names(t.relative), t.size, t.digest)
    ensures forall k: nat :: k < |doc.preserve| && GoodPreserve(doc.preserve[k]) ==>
              var p := doc.preserve[k];
              p.size >= 0 && LoadedPreserve(doc, p) == Preserved(doc.inboxRoot + Names(p.relative), p.size, p.digest)
  {
    forall t: RawTarget
      ensures ValidateRelativeDestination(t.relative).Some? ==>
                ValidateRelativeDestination(t.relative).value == Names(t.relative)
    {
      var names := ValidateRelativeDestination(t.relative);
      if names.Some? {
        DestinationExactly(t.relative, names.value);
      }
    }
    forall p: RawPreserve
      ensures ValidateRelativeDestination(p.relative).Some? ==>
                ValidateRelativeDestination(p.relative).value == Names(p.relative)
    {
      var names := ValidateRelativeDestination(p.relative);
      if names.Some? {
        DestinationExactly(p.relative, names.value);
      }
    }
    hide ValidateRelativeDestination, Names, IsLowerHexDigest;
  }

  method LoadPlan(doc: Document, manifest: Data, fs: FileSystem, root: Path, fold: string -> string)
    returns (r: Option<Plan>)
    requires Tree(fs)
    ensures r.Some? <==> Acceptable(doc, fs, root, fold)
    ensures r.Some? <==>
              && SoundRoots(doc, fs, root) && SoundTargets(doc, fold) && SoundPreserves(doc)
              && doc.readOnlyAudit && QuarantineRun.ZeroReferences(doc.references)
    ensures r.Some? ==> ValidPlan(r.value) && r.value.root == root && r.value.manifest == manifest
    ensures r.Some? ==>
              && |r.value.targets| == |doc.targets| && |r.value.preserved| == |doc.preserve|
              && (forall i: nat :: i < |doc.targets| ==>
                    var t := doc.targets[i];
                    r.value.targets[i] == Target(t.kind, t.source, Names(t.relative), t.size, t.digest))
              && (forall k: nat :: k < |doc.preserve| ==>
                    var p := doc.preserve[k];
                    r.value.preserved[k] == Preserved(doc.inboxRoot + Names(p.relative), p.size, p.digest))
  {
    AcceptableExactly(doc, fs, root, fold);
    LoadedExactly(doc);
    hide SoundRoots, SoundTargets, SoundPreserves, Names;
    hide GoodRoots, GoodTarget, GoodPreserve, LoadedTarget, LoadedPreserve, ValidPlan, DistinctTargets,
      DistinctPreserves, PreservedPath;
    if !GoodRoots(doc, fs, root) || !(1 <= |doc.targets| <= MAX_TARGETS) || doc.targetCount != |doc.targets| {
      return None;
    }
    var loaded := LoadTargets(doc, fold);
    if loaded.None? || doc.targetBytes != loaded.value.2
       || !IsLowerHexDigest(doc.targetSetDigest) || doc.targetSetDigest != doc.canonicalDigest
       || !doc.readOnlyAudit || !QuarantineRun.ZeroReferences(doc.references) {
      return None;
    }
    forall k: nat | k < |doc.preserve| {
      InSources(doc, |doc.targets|, PreservedPath(doc, doc.preserve[k]));
    }
    var preserved := LoadPreserved(doc, loaded.value.1);
    if preserved.None? {
      return None;
    }
    var plan := Plan(root, doc.appRoot, doc.allowed, loaded.value.0, preserved.value, manifest);
    LoadedPlanIsValid(doc, fs, root, fold, plan);
    return Some(plan);
  }

  lemma LoadedPlanIsValid(doc: Document, fs: FileSystem, root: Path, fold: string -> string, plan: Plan)
    requires Tree(fs) && Acceptable(doc, fs, root, fold)
    requires plan.root == root && plan.appRoot == doc.appRoot && plan.allowed == doc.allowed
    requires |plan.targets| == |doc.targets|
    requires forall i: nat :: i < |doc.targets| ==> plan.targets[i] == LoadedTarget(doc.targets[i])
    requires |plan.preserved| == |doc.preserve|
    requires forall k: nat :: k < |doc.preserve| ==> plan.preserved[k] == LoadedPreserve(doc, doc.preserve[k])
    ensures ValidPlan(plan)
  {
    forall i: nat, j: nat | i < j < |plan.targets|
      ensures plan.Destination(i) != plan.Destination(j)
    {
      assert DestinationKey(doc.targets[i], fold) != DestinationKey(doc.targets[j], fold);
      assert plan.Destination(i)[|root|..] == plan.targets[i].relative;
      assert plan.Destination(j)[|root|..] == plan.targets[j].relative;
    }
    forall k | 0 <= k < |plan.preserved|
      ensures !plan.IsSource(plan.preserved[k].source)
    {
    }
  }

  predicate ReservedForAudit(relative: Path) {
    relative == ["audit"]
    || (|relative| >= 2 && relative[0] == "audit" && relative[1] in AUDIT_FILES)
  }

  // Loading does not look for every conflict.  The destinations of an accepted document can be
  // filled exactly when, besides, none is "." or spelled like it, none lies inside another, none
  // takes a place of the audit files, and the root hangs off directories.
  lemma FeasibleExactly(doc: Document, fs: FileSystem, root: Path, fold: string -> string, plan: Plan)
    requires Acceptable(doc, fs, root, fold) && plan.root == root && |plan.targets| == |doc.targets|
    requires forall i: nat :: i < |doc.targets| ==> plan.targets[i] == LoadedTarget(doc.targets[i])
    ensures Feasible(plan, fs) <==>
              && (forall path :: path in fs && path < root ==> fs[path].Directory?)
              && (forall i: nat :: i < |doc.targets| ==>
                    Relative(doc.targets[i]) != [] && !ReservedForAudit(Relative(doc.targets[i])))
              && (forall i: nat, j: nat :: i < |doc.targets| && j < |doc.targets| ==>
                    !(Relative(doc.targets[j]) < Relative(doc.targets[i])))
  {
    assert plan.root !in fs;
    hide Acceptable, GoodRoots, ValidateRelativeDestination, DestinationKey, ReservedForAudit, Relative;
    forall i: nat | i < |doc.targets|
      ensures plan.root < plan.Destination(i) <==> Relative(doc.targets[i]) != []
      ensures FreeOfAudit(plan, plan.Destination(i)) <==> !ReservedForAudit(Relative(doc.targets[i]))
    {
      ReservedPlaces(plan, i);
    }
    forall i: nat, j: nat | i < |doc.targets| && j < |doc.targets|
      ensures plan.Destination(j) < plan.Destination(i) <==> Relative(doc.targets[j]) < Relative(doc.targets[i])
    {
      BelowSameRoot(plan.root, Relative(doc.targets[j]), Relative(doc.targets[i]));
    }
    FeasibleInParts(plan, fs);
    hide Feasible, FreeOfAudit;
  }

  ghost predicate FreeOfAudit(plan: Plan, path: Path) {
    path != AuditDirectory(plan) && forall name :: name in AUDIT_FILES ==> !(Audit(plan, name) <= path)
  }

  lemma FeasibleInParts(plan: Plan, fs: FileSystem)
    ensures Feasible(plan, fs) <==>
              && plan.root !in fs && (forall path :: path in fs && path < plan.root ==> fs[path].Directory?)
              && (forall i: nat :: i < |plan.targets| ==>
                    plan.root < plan.Destination(i) && FreeOfAudit(plan, plan.Destination(i)))
              && (forall i: nat, j: nat :: i < |plan.targets| && j < |plan.targets| ==>
                    !(plan.Destination(j) < plan.Destination(i)))
  {
  }

  lemma BelowSameRoot(root: Path, a: Path, b: Path)
    ensures root + a <= root + b <==> a <= b
    ensures root + a == root + b <==> a == b
  {
    if |a| <= |b| {
      assert (root + b)[|root|..] == b && (root + a)[|root|..] == a;
      assert (root + b)[..|root + a|] == root + b[..|a|];
    }
  }

  lemma ReservedPlaces(plan: Plan, i: nat)
    requires i < |plan.targets|
    ensures plan.root < plan.Destination(i) <==> plan.targets[i].relative != []
    ensures FreeOfAudit(plan, plan.Destination(i)) <==> !ReservedForAudit(plan.targets[i].relative)
  {
    var relative := plan.targets[i].relative;
    BelowSameRoot(plan.root, [], relative);
    assert plan.root + [] == plan.root;
    BelowSameRoot(plan.root, relative, ["audit"]);
    forall name | name in AUDIT_FILES
      ensures Audit(plan, name) <= plan.Destination(i) <==>
                |relative| >= 2 && relative[0] == "audit" && relative[1] == name
    {
      BelowSameRoot(plan.root, ["audit", name], relative);
      assert ["audit", name] <= relative <==> |relative| >= 2 && relative[..2] == ["audit", name];
    }
  }

  // "." is accepted as a destination.
  lemma DotSpelling()
    ensures ValidateRelativeDestination(".") == Some([])
  {
    var rest := Split("."[1..], '/');
    assert "."[1..] == [] && rest == [""] && ['.'] + rest[0] == ".";
    assert Split(".", '/') == ["."] && ["."][1..] == [];
  }
}
