/** Resolving an archive's symbolic links: the bounded lexical rewriting the verifier performs, the
    component-by-component pathname resolution of section 4.13 of POSIX.1-2017 (Base Definitions),
    and the agreement of the two. */
module ArchiveLinks {
  import opened Paths
  import opened Wrappers
  import opened PosixPath

  // The components of a PurePosixPath hold no separator.
  ghost predicate Components(path: Path) {
    forall c :: c in path ==> Free(c, '/')
  }

  // The raw target text of every link member, keyed by member name.
  type Links = map<string, string>

  const MAX_SYMLINK_HOPS: nat := 8
  const ACCEPTED_ARCHIVE_ROOTS: set<string> := {"one-link", "one-link.app"}

  datatype Rejection = Escapes | Unresolvable

  function Name(path: Path): string {
    Join(path, '/')
  }

  function Slashed(text: string): (r: string)
    ensures |r| == |text|
    ensures forall k :: 0 <= k < |r| ==> r[k] == if text[k] == '\\' then '/' else text[k]
  {
    if text == "" then "" else [if text[0] == '\\' then '/' else text[0]] + Slashed(text[1..])
  }

  predicate Absolute(target: Path) {
    target != [] && target[0] in {"/", "//"}
  }

  predicate IsLink(links: Links, path: Path) {
    Name(path) in links
  }

  function TargetOf(links: Links, path: Path): Path
    requires IsLink(links, path)
  {
    Parts(Slashed(links[Name(path)]))
  }

  // ---------------------------------------------------------------- the verifier's rewriting

  // posixpath.normpath, on components: `stack` is the normalised path so far.
  function Normal(stack: Path, rest: Path): Path
    decreases |rest|
  {
    if rest == [] then stack
    else if rest[0] != ".." then Normal(stack + [rest[0]], rest[1..])
    else if stack == [] || stack[|stack| - 1] == ".." then Normal(stack + [".."], rest[1..])
    else if Absolute(stack) && |stack| == 1 then Normal(stack, rest[1..])
    else Normal(stack[..|stack| - 1], rest[1..])
  }

  // PurePosixPath(base) / target, normalised.
  function Under(base: Path, target: Path): Path {
    if Absolute(target) then Normal([], target) else Normal([], base + target)
  }

  predicate Checked(parts: Path, root: string) {
    parts != [] && parts[0] == root && ".." !in parts
  }

  // The length of the shortest prefix, of length k or more, that is a link.
  function ShortestLink(links: Links, parts: Path, k: nat): (r: Option<nat>)
    requires k <= |parts| + 1
    ensures r.Some? ==> k <= r.value <= |parts| && IsLink(links, parts[..r.value])
    ensures forall j :: k <= j <= |parts| && (r.Some? ==> j < r.value) ==> !IsLink(links, parts[..j])
    decreases |parts| - k
  {
    if k > |parts| then None
    else if IsLink(links, parts[..k]) then Some(k)
    else ShortestLink(links, parts, k + 1)
  }

  function Substituted(links: Links, parts: Path, k: nat): Path
    requires 1 <= k <= |parts| && IsLink(links, parts[..k])
  {
    Under(parts[..k - 1], TargetOf(links, parts[..k])) + parts[k..]
  }

  // What `rounds` more iterations of the resolver make of `parts`.
  function ResolveFrom(links: Links, root: string, parts: Path, rounds: nat): Result<Path, Rejection>
    decreases rounds
  {
    if rounds == 0 then Err(Unresolvable)
    else
      match ShortestLink(links, parts, 1)
      case None => Ok(parts)
      case Some(k) =>
        var next := Substituted(links, parts, k);
        if Checked(next, root) then ResolveFrom(links, root, next, rounds - 1) else Err(Escapes)
  }

  function Resolve(links: Links, root: string, parent: Path, target: Path): Result<Path, Rejection> {
    var parts := Under(parent, target);
    if Checked(parts, root) then ResolveFrom(links, root, parts, MAX_SYMLINK_HOPS) else Err(Escapes)
  }

  method ResolveArchiveLink(parent: Path, target: Path, links: Links, root: string)
    returns (r: Result<Path, Rejection>)
    ensures r == Resolve(links, root, parent, target)
  {
    hide Under, Substituted, IsLink;
    var parts := Under(parent, target);
    if !Checked(parts, root) {
      return Err(Escapes);
    }
    for substitution := 0 to MAX_SYMLINK_HOPS
      invariant Resolve(links, root, parent, target)
                == ResolveFrom(links, root, parts, MAX_SYMLINK_HOPS - substitution)
    {
      var index := 1;
      while index <= |parts| && !IsLink(links, parts[..index])
        invariant 1 <= index <= |parts| + 1
        invariant ShortestLink(links, parts, 1) == ShortestLink(links, parts, index)
      {
        index := index + 1;
      }
      if index > |parts| {
        return Ok(parts);
      }
      parts := Substituted(links, parts, index);
      if !Checked(parts, root) {
        return Err(Escapes);
      }
    }
    return Err(Unresolvable);
  }

  // ---------------------------------------------------------------- bounded normal form

  predicate LinkFree(links: Links, parts: Path) {
    forall k :: 1 <= k <= |parts| ==> !IsLink(links, parts[..k])
  }

  // One substitution of a shortest link prefix, independent of how the resolver finds it.
  ghost predicate Rewrites(links: Links, a: Path, b: Path) {
    exists k :: 1 <= k <= |a| && IsLink(links, a[..k])
                && (forall j :: 1 <= j < k ==> !IsLink(links, a[..j]))
                && b == Substituted(links, a, k)
  }

  // A path of substitutions that stays below the root.
  ghost predicate Chain(links: Links, root: string, chain: seq<Path>) {
    && chain != []
    && (forall j :: 0 <= j < |chain| ==> Checked(chain[j], root))
    && (forall j :: 0 < j < |chain| ==> Rewrites(links, chain[j - 1], chain[j]))
  }

  lemma RewritesIsShortest(links: Links, a: Path, b: Path)
    ensures Rewrites(links, a, b) <==>
              ShortestLink(links, a, 1).Some? && b == Substituted(links, a, ShortestLink(links, a, 1).value)
  {
    var s := ShortestLink(links, a, 1);
    if s.Some? {
      assert forall j :: 1 <= j < s.value ==> !IsLink(links, a[..j]);
    }
    if Rewrites(links, a, b) {
      var k :| 1 <= k <= |a| && IsLink(links, a[..k])
               && (forall j :: 1 <= j < k ==> !IsLink(links, a[..j]))
               && b == Substituted(links, a, k);
      assert s.Some? && s.value == k;
    }
  }

  ghost predicate ReachesNormalForm(
    links: Links, root: string, parts: Path, rounds: nat, result: Path, chain: seq<Path>)
  {
    && Chain(links, root, chain) && |chain| <= rounds
    && chain[0] == parts && chain[|chain| - 1] == result && LinkFree(links, result)
  }

  lemma {:induction false} ReturnGivesChain(
    links: Links, root: string, parts: Path, rounds: nat, result: Path) returns (chain: seq<Path>)
    requires Checked(parts, root) && ResolveFrom(links, root, parts, rounds) == Ok(result)
    ensures ReachesNormalForm(links, root, parts, rounds, result, chain)
    decreases rounds
  {
    hide Rewrites, IsLink, Substituted;
    var s := ShortestLink(links, parts, 1);
    if s.None? {
      chain := [parts];
    } else {
      var next := Substituted(links, parts, s.value);
      var tail := ReturnGivesChain(links, root, next, rounds - 1, result);
      RewritesIsShortest(links, parts, next);
      chain := [parts] + tail;
    }
  }

  lemma {:induction false} ChainGivesReturn(
    links: Links, root: string, parts: Path, rounds: nat, result: Path, chain: seq<Path>)
    requires ReachesNormalForm(links, root, parts, rounds, result, chain)
    ensures ResolveFrom(links, root, parts, rounds) == Ok(result)
    decreases rounds
  {
    hide Rewrites, IsLink, Substituted;
    if |chain| > 1 {
      assert Rewrites(links, chain[0], chain[1]);
      RewritesIsShortest(links, chain[0], chain[1]);
      var tail := chain[1..];
      forall j | 0 < j < |tail|
        ensures Rewrites(links, tail[j - 1], tail[j])
      {
        assert Rewrites(links, chain[j], chain[j + 1]);
      }
      ChainGivesReturn(links, root, chain[1], rounds - 1, result, tail);
    }
  }

  // It returns exactly when fewer than `rounds` substitutions, each staying below the root, reach a
  // path with no link prefix; and that path is the result.
  lemma ReturnsExactlyNormalForms(links: Links, root: string, parts: Path, rounds: nat, result: Path)
    requires Checked(parts, root)
    ensures ResolveFrom(links, root, parts, rounds) == Ok(result) <==>
              exists chain :: ReachesNormalForm(links, root, parts, rounds, result, chain)
  {
    hide ResolveFrom, Checked;
    if ResolveFrom(links, root, parts, rounds) == Ok(result) {
      var chain := ReturnGivesChain(links, root, parts, rounds, result);
    }
    if exists chain :: ReachesNormalForm(links, root, parts, rounds, result, chain) {
      var chain :| ReachesNormalForm(links, root, parts, rounds, result, chain);
      ChainGivesReturn(links, root, parts, rounds, result, chain);
    }
  }

  // So a target resolves when fewer than eight substitutions suffice, from its normalised path on.
  lemma ResolvesExactlyWithinEight(links: Links, root: string, parent: Path, target: Path, result: Path)
    ensures Resolve(links, root, parent, target) == Ok(result) <==>
              && Checked(Under(parent, target), root)
              && exists chain :: ReachesNormalForm(links, root, Under(parent, target), 8, result, chain)
  {
    hide Under, ResolveFrom, ReachesNormalForm;
    if Checked(Under(parent, target), root) {
      ReturnsExactlyNormalForms(links, root, Under(parent, target), 8, result);
    }
  }

  // A path that comes back to itself is never resolved, whatever the bound.
  lemma {:induction false} CyclesAreRejected(links: Links, root: string, cycle: seq<Path>, rounds: nat, k: nat)
    requires Chain(links, root, cycle) && |cycle| > 1 && cycle[|cycle| - 1] == cycle[0]
    requires k < |cycle|
    ensures ResolveFrom(links, root, cycle[k], rounds).Err?
    decreases rounds
  {
    hide Rewrites, IsLink, Substituted;
    if rounds > 0 {
      var at := if k == |cycle| - 1 then 0 else k;
      assert Rewrites(links, cycle[at], cycle[at + 1]);
      RewritesIsShortest(links, cycle[at], cycle[at + 1]);
      CyclesAreRejected(links, root, cycle, rounds - 1, at + 1);
    }
  }

  // ---------------------------------------------------------------- pathname resolution

  datatype Walked = Reached(path: Path) | LeftRoot | TooManyLinks

  // Resolves `pending` from the link-free directory `at`, one component at a time, expanding at
  // most `hops` links; `at` is relative to the directory the archive is extracted in.  Leaving the
  // archive root is an error, except on the way back into it.
  function Walk(links: Links, root: string, at: Path, pending: Path, hops: nat): Walked
    decreases hops, |pending|
  {
    if pending == [] then
      if at == [] then LeftRoot else Reached(at)
    else if pending[0] == ".." then
      if at == [] then LeftRoot else Walk(links, root, at[..|at| - 1], pending[1..], hops)
    else
      var next := at + [pending[0]];
      if next[0] != root then LeftRoot
      else if !IsLink(links, next) then Walk(links, root, next, pending[1..], hops)
      else if hops == 0 then TooManyLinks
      else
        var target := TargetOf(links, next);
        if Absolute(target) then LeftRoot
        else Walk(links, root, at, target + pending[1..], hops - 1)
  }

  // Every ".." of the target comes before every name.
  ghost predicate LeadingDots(target: Path) {
    forall i, j :: 0 <= i < j < |target| && target[j] == ".." ==> target[i] == ".."
  }

  ghost predicate LeadingLinks(links: Links) {
    forall name :: name in links ==> LeadingDots(Parts(Slashed(links[name])))
  }

  lemma {:induction false} WalkDown(links: Links, root: string, at: Path, names: Path, rest: Path, hops: nat)
    requires ".." !in names
    requires at + names != [] ==> (at + names)[0] == root
    requires forall k :: |at| < k <= |at + names| ==> !IsLink(links, (at + names)[..k])
    ensures Walk(links, root, at, names + rest, hops) == Walk(links, root, at + names, rest, hops)
    decreases |names|
  {
    if names == [] {
      assert names + rest == rest && at + names == at;
    } else {
      var next := at + [names[0]];
      assert next + names[1..] == at + names;
      assert next == (at + names)[..|at| + 1];
      assert (names + rest)[1..] == names[1..] + rest;
      WalkDown(links, root, next, names[1..], rest, hops);
    }
  }

  function Dots(n: nat): Path {
    seq(n, _ => "..")
  }

  lemma {:induction false} WalkUp(links: Links, root: string, at: Path, n: nat, rest: Path, hops: nat)
    ensures n <= |at| ==>
              Walk(links, root, at, Dots(n) + rest, hops) == Walk(links, root, at[..|at| - n], rest, hops)
    ensures n > |at| ==> Walk(links, root, at, Dots(n) + rest, hops) == LeftRoot
    decreases n
  {
    if n == 0 {
      assert Dots(n) + rest == rest && at[..|at| - n] == at;
    } else if at != [] {
      assert (Dots(n) + rest)[1..] == Dots(n - 1) + rest;
      var up := at[..|at| - 1];
      WalkUp(links, root, up, n - 1, rest, hops);
      assert n <= |at| ==> up[..|up| - (n - 1)] == at[..|at| - n];
    }
  }

  lemma {:induction false} NormalDown(stack: Path, names: Path, rest: Path)
    requires ".." !in names
    ensures Normal(stack, names + rest) == Normal(stack + names, rest)
    decreases |names|
  {
    if names == [] {
      assert names + rest == rest && stack + names == stack;
    } else {
      assert (names + rest)[1..] == names[1..] + rest;
      assert stack + [names[0]] + names[1..] == stack + names;
      NormalDown(stack + [names[0]], names[1..], rest);
    }
  }

  lemma {:induction false} NormalUp(stack: Path, n: nat, names: Path)
    requires ".." !in stack && ".." !in names && !Absolute(stack)
    ensures n <= |stack| ==> Normal(stack, Dots(n) + names) == stack[..|stack| - n] + names
    ensures n > |stack| ==> ".." in Normal(stack, Dots(n) + names)
    decreases n
  {
    if n == 0 {
      assert Dots(n) + names == names + [];
      NormalDown(stack, names, []);
    } else {
      assert (Dots(n) + names)[1..] == Dots(n - 1) + names;
      if stack == [] {
        assert stack + [".."] == [".."];
        StartsWithDots([".."], n - 1, names);
      } else {
        var up := stack[..|stack| - 1];
        NormalUp(up, n - 1, names);
        assert n <= |stack| ==> up[..|up| - (n - 1)] == stack[..|stack| - n];
      }
    }
  }

  lemma {:induction false} StartsWithDots(stack: Path, n: nat, names: Path)
    requires stack != [] && (forall k :: 0 <= k < |stack| ==> stack[k] == "..")
    requires ".." !in names
    ensures ".." in Normal(stack, Dots(n) + names)
    decreases n
  {
    if n == 0 {
      assert Dots(n) + names == names + [];
      NormalDown(stack, names, []);
      assert (stack + names)[0] == "..";
    } else {
      assert (Dots(n) + names)[1..] == Dots(n - 1) + names;
      StartsWithDots(stack + [".."], n - 1, names);
    }
  }

  lemma SplitLeading(target: Path) returns (n: nat, names: Path)
    requires LeadingDots(target)
    ensures target == Dots(n) + names && ".." !in names
  {
    n := 0;
    while n < |target| && target[n] == ".."
      invariant n <= |target|
      invariant forall k :: 0 <= k < n ==> target[k] == ".."
    {
      n := n + 1;
    }
    names := target[n..];
    forall k | 0 <= k < |names|
      ensures names[k] != ".."
    {
      assert target[n] != "..";
    }
  }

  // Collapsing a target against a link-free directory is what walking it does.
  lemma CollapseIsWalk(
    links: Links, root: string, base: Path, target: Path, rest: Path, hops: nat)
    requires root in ACCEPTED_ARCHIVE_ROOTS
    requires base != [] ==> base[0] == root
    requires ".." !in base && ".." !in rest && LinkFree(links, base)
    requires LeadingDots(target) && !Absolute(target)
    ensures var collapsed := Under(base, target) + rest;
            if Checked(collapsed, root) then
              Walk(links, root, base, target + rest, hops) == Walk(links, root, [], collapsed, hops)
            else
              Walk(links, root, base, target + rest, hops) == LeftRoot
  {
    hide Walk, Under, LinkFree, IsLink, LeadingDots;
    var n, names := SplitLeading(target);
    UnderLinkFree(base, target, n, names);
    assert target + rest == Dots(n) + (names + rest);
    WalkUp(links, root, base, n, names + rest, hops);
    if n <= |base| {
      var up, down := base[..|base| - n], names + rest;
      assert Under(base, target) + rest == up + down;
      AtTheTop(links, root, base, |base| - n, down, hops);
    }
  }

  lemma UnderLinkFree(base: Path, target: Path, n: nat, names: Path)
    requires ".." !in base && !Absolute(base) && !Absolute(target)
    requires target == Dots(n) + names && ".." !in names
    ensures n <= |base| ==> Under(base, target) == base[..|base| - n] + names
    ensures n > |base| ==> ".." in Under(base, target)
  {
    NormalDown([], base, target);
    assert [] + base == base;
    NormalUp(base, n, names);
  }

  // Walking on from a link-free directory is walking the whole path from the top.
  lemma AtTheTop(links: Links, root: string, base: Path, m: nat, down: Path, hops: nat)
    requires m <= |base| && (base != [] ==> base[0] == root)
    requires ".." !in base && ".." !in down && LinkFree(links, base)
    ensures var whole := base[..m] + down;
            if Checked(whole, root) then
              Walk(links, root, base[..m], down, hops) == Walk(links, root, [], whole, hops)
            else
              Walk(links, root, base[..m], down, hops) == LeftRoot
  {
    var up := base[..m];
    assert [] + up == up;
    if up == [] {
      assert up + down == down;
    } else {
      assert (up + down)[0] == base[0];
      assert forall k :: 0 < k <= |up| ==> up[..k] == base[..k];
      WalkDown(links, root, [], up, down, hops);
    }
  }

  // Whatever is left to resolve after it, collapsing the target against its directory is walking it.
  ghost predicate Collapses(links: Links, root: string, base: Path, target: Path) {
    forall rest: Path, hops: nat | ".." !in rest ::
      Walk(links, root, base, target + rest, hops) ==
        if Checked(Under(base, target) + rest, root)
        then Walk(links, root, [], Under(base, target) + rest, hops)
        else LeftRoot
  }

  // Whatever is left to resolve after it, neither walking the target nor walking what it collapses to
  // reaches anything.
  ghost predicate Hopeless(links: Links, root: string, base: Path, target: Path) {
    forall rest: Path, hops: nat | ".." !in rest ::
      && !Walk(links, root, base, target + rest, hops).Reached?
      && (Checked(Under(base, target) + rest, root) ==>
            !Walk(links, root, [], Under(base, target) + rest, hops).Reached?)
  }

  // One or the other holds of every link's target, wherever a link-free path meets the link.
  ghost predicate SoundLinks(links: Links, root: string) {
    forall path: Path ::
      path != [] && IsLink(links, path) && Checked(path, root) && Components(path)
      && LinkFree(links, path[..|path| - 1]) && !Absolute(TargetOf(links, path)) ==>
        || Collapses(links, root, path[..|path| - 1], TargetOf(links, path))
        || Hopeless(links, root, path[..|path| - 1], TargetOf(links, path))
  }

  lemma LeadingDotsCollapse(links: Links, root: string, base: Path, target: Path)
    requires root in ACCEPTED_ARCHIVE_ROOTS
    requires base != [] ==> base[0] == root
    requires ".." !in base && LinkFree(links, base)
    requires LeadingDots(target) && !Absolute(target)
    ensures Collapses(links, root, base, target)
  {
    hide Walk, Under, Checked;
    forall rest: Path, hops: nat | ".." !in rest
      ensures Walk(links, root, base, target + rest, hops) ==
                if Checked(Under(base, target) + rest, root)
                then Walk(links, root, [], Under(base, target) + rest, hops)
                else LeftRoot
    {
      CollapseIsWalk(links, root, base, target, rest, hops);
    }
  }

  lemma LeadingLinksCollapse(links: Links, root: string)
    requires root in ACCEPTED_ARCHIVE_ROOTS && LeadingLinks(links)
    ensures SoundLinks(links, root)
  {
    hide Collapses, Hopeless, LeadingDots;
    forall path: Path | path != [] && IsLink(links, path) && Checked(path, root)
                        && LinkFree(links, path[..|path| - 1]) && !Absolute(TargetOf(links, path))
      ensures Collapses(links, root, path[..|path| - 1], TargetOf(links, path))
    {
      LeadingDotsCollapse(links, root, path[..|path| - 1], TargetOf(links, path));
    }
  }

  // From a path below the root, rewriting and walking accept the same inputs and agree.
  lemma {:induction false} RewritingIsWalking(links: Links, root: string, parts: Path, hops: nat, result: Path)
    requires root in ACCEPTED_ARCHIVE_ROOTS && SoundLinks(links, root)
    requires Checked(parts, root) && Components(parts)
    ensures ResolveFrom(links, root, parts, hops + 1) == Ok(result)
            <==> Walk(links, root, [], parts, hops) == Reached(result)
    decreases hops
  {
    hide Walk, Substituted, IsLink, SoundLinks, Components, Checked, Absolute, TargetOf, Collapses, Hopeless;
    var s := ShortestLink(links, parts, 1);
    if s.None? {
      WalkWithoutLinks(links, root, parts, hops);
    } else {
      WalkToFirstLink(links, root, parts, s.value, hops);
      if hops > 0 {
        var next := Substituted(links, parts, s.value);
        LinkIsSound(links, root, parts, s.value, hops);
        if Checked(next, root) {
          SubstitutedComponents(links, root, parts, s.value);
          RewritingIsWalking(links, root, next, hops - 1, result);
        }
      }
    }
  }

  lemma {:induction false} NormalKeepsComponents(stack: Path, rest: Path)
    ensures forall c :: c in Normal(stack, rest) ==> c in stack || c in rest
    decreases |rest|
  {
    if rest != [] {
      if rest[0] != ".." {
        NormalKeepsComponents(stack + [rest[0]], rest[1..]);
      } else if stack == [] || stack[|stack| - 1] == ".." {
        NormalKeepsComponents(stack + [".."], rest[1..]);
      } else if Absolute(stack) && |stack| == 1 {
        NormalKeepsComponents(stack, rest[1..]);
      } else {
        NormalKeepsComponents(stack[..|stack| - 1], rest[1..]);
      }
    }
  }

  lemma UnderKeepsComponents(base: Path, target: Path)
    ensures forall c :: c in Under(base, target) ==> c in base || c in target
  {
    NormalKeepsComponents([], target);
    NormalKeepsComponents([], base + target);
  }

  lemma PartsAreComponents(value: string)
    requires !Absolute(Parts(value))
    ensures Components(Parts(value))
  {
    var split := Split(value, '/');
    forall c | c in Parts(value)
      ensures Free(c, '/')
    {
      assert c in split;
    }
  }

  lemma SubstitutedComponents(links: Links, root: string, parts: Path, k: nat)
    requires root in ACCEPTED_ARCHIVE_ROOTS && Components(parts)
    requires 1 <= k <= |parts| && IsLink(links, parts[..k]) && Checked(Substituted(links, parts, k), root)
    ensures Components(Substituted(links, parts, k))
  {
    var base, target := parts[..k - 1], TargetOf(links, parts[..k]);
    hide Parts, Normal, IsLink;
    if Absolute(target) {
      AbsoluteLinkLeaves(links, root, parts, k);
    } else {
      PartsAreComponents(Slashed(links[Name(parts[..k])]));
      UnderKeepsComponents(base, target);
    }
  }

  lemma WalkWithoutLinks(links: Links, root: string, parts: Path, hops: nat)
    requires Checked(parts, root) && LinkFree(links, parts)
    ensures Walk(links, root, [], parts, hops) == Reached(parts)
  {
    assert [] + parts == parts && parts + [] == parts;
    WalkDown(links, root, [], parts, [], hops);
  }

  // The walk meets the shortest link prefix first.
  lemma WalkToFirstLink(links: Links, root: string, parts: Path, k: nat, hops: nat)
    requires root in ACCEPTED_ARCHIVE_ROOTS && Checked(parts, root)
    requires 1 <= k <= |parts| && IsLink(links, parts[..k]) && forall j :: 1 <= j < k ==> !IsLink(links, parts[..j])
    ensures Walk(links, root, [], parts, hops) ==
              if hops == 0 then TooManyLinks
              else if Absolute(TargetOf(links, parts[..k])) then LeftRoot
              else Walk(links, root, parts[..k - 1], TargetOf(links, parts[..k]) + parts[k..], hops - 1)
  {
    var base, rest := parts[..k - 1], parts[k - 1..];
    assert parts == base + rest && [] + base == base;
    assert forall j :: 0 < j <= k - 1 ==> base[..j] == parts[..j];
    WalkDown(links, root, [], base, rest, hops);
    assert base + [rest[0]] == parts[..k] && rest[1..] == parts[k..];
    assert parts[..k][0] == parts[0];
  }

  // Expanding it there is substituting it in the whole path, or leads nowhere either way.
  lemma LinkIsSound(links: Links, root: string, parts: Path, k: nat, hops: nat)
    requires root in ACCEPTED_ARCHIVE_ROOTS && SoundLinks(links, root)
    requires Checked(parts, root) && Components(parts) && hops > 0
    requires 1 <= k <= |parts| && IsLink(links, parts[..k]) && forall j :: 1 <= j < k ==> !IsLink(links, parts[..j])
    ensures forall result ::
              Walk(links, root, [], parts, hops) == Reached(result) <==>
                && Checked(Substituted(links, parts, k), root)
                && Walk(links, root, [], Substituted(links, parts, k), hops - 1) == Reached(result)
  {
    hide *;
    var base, target, rest := parts[..k - 1], TargetOf(links, parts[..k]), parts[k..];
    WalkToFirstLink(links, root, parts, k, hops);
    SubstitutedIs(links, parts, k, base, target, rest);
    if Absolute(target) {
      AbsoluteLinkLeaves(links, root, parts, k);
    } else {
      EitherWay(links, root, parts, k);
      if Collapses(links, root, base, target) {
        FirstLinkExpands(links, root, parts, k, hops);
      } else {
        HopelessAt(links, root, base, target, rest, hops - 1);
      }
    }
  }

  // Where its target collapses, expanding the first link is substituting it in the whole path.
  lemma FirstLinkExpands(links: Links, root: string, parts: Path, k: nat, hops: nat)
    requires root in ACCEPTED_ARCHIVE_ROOTS
    requires Checked(parts, root) && Components(parts) && hops > 0
    requires 1 <= k <= |parts| && IsLink(links, parts[..k]) && forall j :: 1 <= j < k ==> !IsLink(links, parts[..j])
    requires var target := TargetOf(links, parts[..k]);
             Absolute(target) || Collapses(links, root, parts[..k - 1], target)
    ensures Walk(links, root, [], parts, hops) ==
              if Checked(Substituted(links, parts, k), root)
              then Walk(links, root, [], Substituted(links, parts, k), hops - 1)
              else LeftRoot
  {
    hide *;
    var base, target, rest := parts[..k - 1], TargetOf(links, parts[..k]), parts[k..];
    WalkToFirstLink(links, root, parts, k, hops);
    SubstitutedIs(links, parts, k, base, target, rest);
    if Absolute(target) {
      AbsoluteLinkLeaves(links, root, parts, k);
    } else {
      PrefixOfChecked(links, root, parts, k);
      CollapsesAt(links, root, base, target, rest, hops - 1);
    }
  }

  lemma SubstitutedIs(links: Links, parts: Path, k: nat, base: Path, target: Path, rest: Path)
    requires 1 <= k <= |parts| && IsLink(links, parts[..k]) && TargetOf(links, parts[..k]) == target
    requires parts[..k - 1] == base && parts[k..] == rest
    ensures Substituted(links, parts, k) == Under(base, target) + rest
  {
  }

  lemma CollapsesAt(links: Links, root: string, base: Path, target: Path, rest: Path, hops: nat)
    requires Collapses(links, root, base, target) && ".." !in rest
    ensures Walk(links, root, base, target + rest, hops) ==
              if Checked(Under(base, target) + rest, root)
              then Walk(links, root, [], Under(base, target) + rest, hops)
              else LeftRoot
  {
    hide Walk, Under, Checked;
  }

  lemma HopelessAt(links: Links, root: string, base: Path, target: Path, rest: Path, hops: nat)
    requires Hopeless(links, root, base, target) && ".." !in rest
    ensures !Walk(links, root, base, target + rest, hops).Reached?
    ensures Checked(Under(base, target) + rest, root) ==>
              !Walk(links, root, [], Under(base, target) + rest, hops).Reached?
  {
    hide Walk, Under, Checked;
  }

  lemma AbsoluteLinkLeaves(links: Links, root: string, parts: Path, k: nat)
    requires root in ACCEPTED_ARCHIVE_ROOTS && 1 <= k <= |parts| && IsLink(links, parts[..k])
    requires Absolute(TargetOf(links, parts[..k]))
    ensures !Checked(Substituted(links, parts, k), root)
  {
    var target := TargetOf(links, parts[..k]);
    hide TargetOf, IsLink, Normal;
    AbsoluteTarget(target);
    assert (Under(parts[..k - 1], target) + parts[k..])[0] == target[0];
  }

  lemma EitherWay(links: Links, root: string, parts: Path, k: nat)
    requires SoundLinks(links, root) && Checked(parts, root) && Components(parts)
    requires 1 <= k <= |parts| && IsLink(links, parts[..k]) && forall j :: 1 <= j < k ==> !IsLink(links, parts[..j])
    requires !Absolute(TargetOf(links, parts[..k]))
    ensures var base, target := parts[..k - 1], TargetOf(links, parts[..k]);
            Collapses(links, root, base, target) || Hopeless(links, root, base, target)
    ensures ".." !in parts[k..]
  {
    var path := parts[..k];
    PrefixOfChecked(links, root, parts, k);
    hide TargetOf, Collapses, Hopeless, IsLink, Checked, Components, LinkFree;
    assert path[..|path| - 1] == parts[..k - 1];
  }

  lemma PrefixOfChecked(links: Links, root: string, parts: Path, k: nat)
    requires Checked(parts, root) && Components(parts) && 1 <= k <= |parts|
    requires forall j :: 1 <= j < k ==> !IsLink(links, parts[..j])
    ensures Checked(parts[..k], root) && Components(parts[..k])
    ensures LinkFree(links, parts[..k - 1]) && ".." !in parts[k..]
  {
    hide IsLink;
    assert parts[..k][0] == parts[0];
    var base := parts[..k - 1];
    forall j | 1 <= j <= |base|
      ensures !IsLink(links, base[..j])
    {
      assert base[..j] == parts[..j];
    }
  }

  lemma AbsoluteTarget(target: Path)
    requires Absolute(target)
    ensures Absolute(Normal([], target)) && Normal([], target)[0] == target[0]
  {
    assert [] + [target[0]] == [target[0]];
    AbsoluteStaysAbsolute([target[0]], target[1..]);
  }

  lemma {:induction false} AbsoluteStaysAbsolute(stack: Path, rest: Path)
    requires Absolute(stack)
    ensures Absolute(Normal(stack, rest)) && Normal(stack, rest)[0] == stack[0]
    decreases |rest|
  {
    if rest != [] {
      if rest[0] != ".." {
        AbsoluteStaysAbsolute(stack + [rest[0]], rest[1..]);
      } else if stack[|stack| - 1] == ".." {
        AbsoluteStaysAbsolute(stack + [".."], rest[1..]);
      } else if |stack| == 1 {
        AbsoluteStaysAbsolute(stack, rest[1..]);
      } else {
        AbsoluteStaysAbsolute(stack[..|stack| - 1], rest[1..]);
      }
    }
  }

  // The resolver returns a path exactly when pathname resolution, expanding at most seven links and
  // staying inside the archive root, reaches that path.
  lemma ResolverIsPathnameResolution(
    links: Links, root: string, parent: Path, target: Path, result: Path)
    requires root in ACCEPTED_ARCHIVE_ROOTS && LeadingLinks(links)
    requires parent != [] ==> parent[0] == root
    requires ".." !in parent && LinkFree(links, parent) && Components(parent)
    requires LeadingDots(target) && Components(target)
    ensures Resolve(links, root, parent, target) == Ok(result)
            <==> Walk(links, root, parent, target, MAX_SYMLINK_HOPS - 1) == Reached(result)
  {
    RelativeComponents(target);
    LeadingDotsCollapse(links, root, parent, target);
    LeadingLinksCollapse(links, root);
    SoundIsResolving(links, root, parent, target, result);
  }

  lemma RelativeComponents(target: Path)
    requires Components(target)
    ensures !Absolute(target)
  {
    assert '/' in "/" && '/' in "//" && (target != [] ==> target[0] in target);
  }

  lemma SoundIsResolving(links: Links, root: string, parent: Path, target: Path, result: Path)
    requires root in ACCEPTED_ARCHIVE_ROOTS && SoundLinks(links, root)
    requires Components(parent) && Components(target)
    requires Collapses(links, root, parent, target) || Hopeless(links, root, parent, target)
    ensures Resolve(links, root, parent, target) == Ok(result)
            <==> Walk(links, root, parent, target, MAX_SYMLINK_HOPS - 1) == Reached(result)
  {
    hide Walk, SoundLinks, Under, Components, ResolveFrom, Checked;
    var parts := Under(parent, target);
    assert target + [] == target && parts + [] == parts && ".." !in [];
    if Checked(parts, root) {
      assert Components(parts) by {
        UnderKeepsComponents(parent, target);
        assert Components(parent) && Components(target);
        ComponentsOf(parts, parent, target);
      }
      RewritingIsWalking(links, root, parts, MAX_SYMLINK_HOPS - 1, result);
    }
  }

  lemma ComponentsOf(path: Path, a: Path, b: Path)
    requires Components(a) && Components(b) && forall c :: c in path ==> c in a || c in b
    ensures Components(path)
  {
  }
}
