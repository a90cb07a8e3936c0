/** Replacing a bundle's symbolic links by copies of the files they lead to, one at a time. */
module Materialize {
  import opened Paths
  import opened Bytes
  import opened Wrappers
  import opened SymlinkTree

  // The link, looked up in its directory, leads to a file with this data, at `end`.
  ghost predicate LeadsTo(fs: FileSystem, link: Path, end: Path, data: Data) {
    link != [] && exists h: nat :: LinkEnds(fs, link, h, end) && end in fs && fs[end] == Regular(data)
  }

  ghost predicate LinkEnds(fs: FileSystem, link: Path, hops: nat, end: Path)
    requires link != []
  {
    LookupLink(fs, link, hops).Some? && LookupLink(fs, link, hops).value.path == end
  }

  function Replaced(fs: FileSystem, link: Path, data: Data): FileSystem {
    fs[link := Regular(data)]
  }

  // ---------------------------------------------------------------- one replacement

  // A link that leads to a file can only be a path's last component, and contributes its end.
  lemma FileEndsThePath(
    fs: FileSystem, link: Path, end: Path, data: Data, from: Path, rest: Path, hops: nat)
    requires Tree(fs) && IsLink(fs, link) && LeadsTo(fs, link, end, data)
    requires rest != [] && Up(link) + [rest[0]] == link && rest[0] !in {"", ".", ".."}
    requires Lookup(fs, Up(link), rest, hops).Some?
    ensures rest == [rest[0]] && Lookup(fs, Up(link), rest, hops).value.path == end
  {
    var h: nat :| LinkEnds(fs, link, h, end);
    var name := [rest[0]];
    assert link[|link| - 1] == rest[0];
    assert rest == name + rest[1..];
    LookupInTwo(fs, Up(link), name, rest[1..], hops);
    var middle := Lookup(fs, Up(link), name, hops).value;
    if h <= hops {
      EnoughHops(fs, Up(link), name, h, hops);
    } else {
      EnoughHops(fs, Up(link), name, hops, h);
    }
    assert middle.path == end;
  }

  lemma UpIsNotLink(fs: FileSystem, at: Path)
    requires Tree(fs)
    ensures IsDirectory(fs, at) ==> !IsLink(fs, Up(at))
    ensures !IsLink(fs, [])
  {
  }

  // Whatever could be read can be read as before, within as many hops, and the reading ends where
  // it did or at the replaced link.
  lemma {:induction false} ReplacingKeepsReadings(
    fs: FileSystem, link: Path, end: Path, data: Data, at: Path, rest: Path, hops: nat, d: Data)
    requires Tree(fs) && IsLink(fs, link) && LeadsTo(fs, link, end, data)
    requires !IsLink(fs, at) && ReadsWithin(fs, at, rest, hops, d)
    ensures ReadsWithin(Replaced(fs, link, data), at, rest, hops, d)
    ensures Lookup(Replaced(fs, link, data), at, rest, hops).value.path
            in {Lookup(fs, at, rest, hops).value.path, link}
    decreases hops, |rest|
  {
    hide Tree;
    var after := Replaced(fs, link, data);
    if rest != [] {
      UpIsNotLink(fs, at);
      var next := at + [rest[0]];
      if rest[0] in {"", "."} {
        ReplacingKeepsReadings(fs, link, end, data, at, rest[1..], hops, d);
      } else if rest[0] == ".." {
        ReplacingKeepsReadings(fs, link, end, data, Up(at), rest[1..], hops, d);
      } else if next == link {
        assert Up(link) == at;
        FileEndsThePath(fs, link, end, data, at, rest, hops);
        assert rest[1..] == [];
        assert Lookup(after, link, [], hops) == Some(Found(link, 0));
      } else if !fs[next].Link? {
        ReplacingKeepsReadings(fs, link, end, data, next, rest[1..], hops, d);
      } else {
        var from := if fs[next].absolute then [] else at;
        ReplacingKeepsReadings(fs, link, end, data, from, fs[next].target + rest[1..], hops - 1, d);
      }
    }
  }

  // Whatever can be read afterwards could be read before.
  lemma {:induction false} ReplacingAddsNoReadings(
    fs: FileSystem, link: Path, end: Path, data: Data, at: Path, rest: Path, hops: nat, d: Data) returns (h: nat)
    requires Tree(fs) && IsLink(fs, link) && LeadsTo(fs, link, end, data)
    requires !IsLink(fs, at) && ReadsWithin(Replaced(fs, link, data), at, rest, hops, d)
    ensures ReadsWithin(fs, at, rest, h, d)
    decreases hops, |rest|
  {
    hide Tree;
    h := hops;
    if rest != [] {
      UpIsNotLink(fs, at);
      var next := at + [rest[0]];
      if rest[0] in {"", "."} {
        h := ReplacingAddsNoReadings(fs, link, end, data, at, rest[1..], hops, d);
      } else if rest[0] == ".." {
        h := ReplacingAddsNoReadings(fs, link, end, data, Up(at), rest[1..], hops, d);
      } else if next == link {
        assert Up(link) == at && link[|link| - 1] == rest[0];
        var after, tail := Replaced(fs, link, data), rest[1..];
        assert ReadsWithin(after, link, tail, hops, d) && !IsDirectory(after, link);
        assert tail == [] && rest == [rest[0]];
        assert Lookup(after, link, [], hops) == Some(Found(link, 0));
        assert d == data;
        h :| LinkEnds(fs, link, h, end);
        assert LookupLink(fs, link, h) == Lookup(fs, at, rest, h);
      } else if !fs[next].Link? {
        h := ReplacingAddsNoReadings(fs, link, end, data, next, rest[1..], hops, d);
      } else {
        var from := if fs[next].absolute then [] else at;
        h := ReplacingAddsNoReadings(fs, link, end, data, from, fs[next].target + rest[1..], hops - 1, d);
        h := h + 1;
      }
    }
  }

  ghost predicate SameView(a: FileSystem, b: FileSystem) {
    forall path, data :: Reads(a, path, data) <==> Reads(b, path, data)
  }

  lemma ReplacingKeepsView(fs: FileSystem, link: Path, end: Path, data: Data)
    requires Tree(fs) && IsLink(fs, link) && LeadsTo(fs, link, end, data)
    ensures SameView(fs, Replaced(fs, link, data))
  {
    var after := Replaced(fs, link, data);
    forall path, d
      ensures Reads(fs, path, d) <==> Reads(after, path, d)
    {
      if Reads(fs, path, d) {
        var h: nat :| ReadsWithin(fs, [], path, h, d);
        ReplacingKeepsReadings(fs, link, end, data, [], path, h, d);
      }
      if Reads(after, path, d) {
        var h: nat :| ReadsWithin(after, [], path, h, d);
        var k := ReplacingAddsNoReadings(fs, link, end, data, [], path, h, d);
      }
    }
  }

  lemma ReplacingKeepsTree(fs: FileSystem, link: Path, data: Data)
    requires Tree(fs) && IsLink(fs, link)
    ensures Tree(Replaced(fs, link, data))
  {
    var after := Replaced(fs, link, data);
    forall path | path in after && path != []
      ensures Plain(path) && IsDirectory(after, path[..|path| - 1])
    {
      assert IsDirectory(fs, path[..|path| - 1]);
    }
  }

  // ---------------------------------------------------------------- a link read from the root

  lemma {:induction false} Descend(fs: FileSystem, path: Path, k: nat, rest: Path, hops: nat)
    requires k <= |path| && Plain(path)
    requires forall j :: 0 <= j <= k ==> IsDirectory(fs, path[..j])
    ensures Lookup(fs, [], path[..k] + rest, hops) == Lookup(fs, path[..k], rest, hops)
    decreases k
  {
    if k == 0 {
      assert path[..0] + rest == rest;
    } else {
      var name := path[k - 1];
      assert path[..k] + rest == path[..k - 1] + ([name] + rest);
      Descend(fs, path, k - 1, [name] + rest, hops);
      assert path[..k - 1] + [name] == path[..k];
      assert name in path && ([name] + rest)[1..] == rest;
    }
  }

  lemma {:induction false} AncestorsAreDirectories(fs: FileSystem, path: Path, k: nat)
    requires Tree(fs) && path in fs && k < |path|
    ensures IsDirectory(fs, path[..k])
    decreases |path|
  {
    var parent := path[..|path| - 1];
    if k < |path| - 1 {
      AncestorsAreDirectories(fs, parent, k);
      assert parent[..k] == path[..k];
    }
  }

  // Reading a link's path is looking the link up in its directory.
  lemma LookupOfLink(fs: FileSystem, link: Path, hops: nat)
    requires Tree(fs) && IsLink(fs, link) && link != []
    ensures Lookup(fs, [], link, hops) == LookupLink(fs, link, hops)
  {
    var k := |link| - 1;
    forall j | 0 <= j <= k
      ensures IsDirectory(fs, link[..j])
    {
      AncestorsAreDirectories(fs, link, j);
    }
    assert link[..k] + [link[k]] == link;
    Descend(fs, link, k, [link[k]], hops);
  }

  // A link can be read exactly when it leads to a file, and Path.resolve then finds that file.
  lemma ReadableLink(fs: FileSystem, link: Path, data: Data) returns (end: Path)
    requires Tree(fs) && IsLink(fs, link) && Reads(fs, link, data)
    ensures LeadsTo(fs, link, end, data) && RealPath(fs, [], link, {}) == (end, true)
  {
    var h: nat :| ReadsWithin(fs, [], link, h, data);
    end := Lookup(fs, [], link, h).value.path;
    LookupOfLink(fs, link, h);
    assert LinkEnds(fs, link, h, end);
    RealPathFollowsLookup(fs, [], link, h);
  }

  lemma RegularFileReads(fs: FileSystem, path: Path, data: Data)
    requires Tree(fs) && path in fs && path != [] && fs[path] == Regular(data)
    ensures Reads(fs, path, data)
  {
    var k := |path| - 1;
    forall j | 0 <= j <= k
      ensures IsDirectory(fs, path[..j])
    {
      AncestorsAreDirectories(fs, path, j);
    }
    assert path[..k] + [path[k]] == path;
    Descend(fs, path, k, [path[k]], 0);
    assert path[k] in path && [path[k]][1..] == [];
    assert Lookup(fs, path, [], 0) == Some(Found(path, 0));
    assert ReadsWithin(fs, [], path, 0, data);
  }

  // ---------------------------------------------------------------- the whole bundle

  ghost predicate Readable(fs: FileSystem, path: Path) {
    exists data :: Reads(fs, path, data)
  }

  function LinksUnder(fs: FileSystem, root: Path): set<Path> {
    set path | path in fs && Within(path, root) && fs[path].Link?
  }

  ghost predicate AllReadable(fs: FileSystem, links: set<Path>) {
    forall link :: link in links ==> Readable(fs, link)
  }

  // Every link of the bundle leads to a file inside the bundle.
  ghost predicate SelfContained(fs: FileSystem, root: Path) {
    forall link :: link in LinksUnder(fs, root) ==>
      exists end, data :: LeadsTo(fs, link, end, data) && Within(end, root)
  }

  // The file was somewhere in the bundle from the start.
  ghost predicate FromBundle(fs: FileSystem, root: Path, data: Data) {
    exists path :: path in fs && Within(path, root) && fs[path] == Regular(data)
  }

  lemma ReplacingKeepsSelfContained(fs: FileSystem, root: Path, link: Path, end: Path, data: Data)
    requires Tree(fs) && SelfContained(fs, root) && link in LinksUnder(fs, root)
    requires LeadsTo(fs, link, end, data)
    ensures SelfContained(Replaced(fs, link, data), root)
  {
    var after := Replaced(fs, link, data);
    ReplacingKeepsTree(fs, link, data);
    forall other | other in LinksUnder(after, root)
      ensures exists e, d :: LeadsTo(after, other, e, d) && Within(e, root)
    {
      assert other in LinksUnder(fs, root);
      var e, d :| LeadsTo(fs, other, e, d) && Within(e, root);
      var h: nat :| LinkEnds(fs, other, h, e);
      LookupOfLink(fs, other, h);
      LookupOfLink(after, other, h);
      ReplacingKeepsReadings(fs, link, end, data, [], other, h, d);
      var e' := Lookup(after, [], other, h).value.path;
      assert LinkEnds(after, other, h, e');
      assert LeadsTo(after, other, e', d);
    }
  }

  // How the tree stands once the links in `done` are replaced.
  ghost predicate Progress(before: FileSystem, fs: FileSystem, root: Path, done: set<Path>) {
    && Tree(before) && Tree(fs) && fs.Keys == before.Keys && done <= LinksUnder(before, root)
    && (forall path :: path in before && path !in done ==> fs[path] == before[path])
    && (forall path :: path in done ==> fs[path].Regular? && FromBundle(before, root, fs[path].data))
    && (AllReadable(before, done) ==> SameView(before, fs))
    && (SelfContained(before, root) ==> SelfContained(fs, root))
  }

  // One iteration on a link whose resolved target passed the check.
  lemma IterationProgresses(
    before: FileSystem, fs: FileSystem, root: Path, done: set<Path>, link: Path, target: Path)
    requires Progress(before, fs, root, done) && link in LinksUnder(before, root) && link !in done
    requires RealPath(fs, [], link, {}) == (target, true)
    requires target in fs && fs[target].Regular? && Within(target, root)
    ensures Progress(before, Replaced(fs, link, fs[target].data), root, done + {link})
  {
    hide RealPath, LeadsTo, SameView, Readable, SelfContained, FromBundle, Tree;
    var data, after := fs[target].data, Replaced(fs, link, fs[target].data);
    ReplacingKeepsTree(fs, link, data);
    assert FromBundle(before, root, data) by {
      ComesFromBundle(before, fs, root, done, target);
    }
    if AllReadable(before, done + {link}) {
      assert AllReadable(before, done) && Readable(before, link);
      ReadableStep(before, fs, link, target);
    }
    if SelfContained(before, root) {
      SelfContainedStep(fs, root, link, target);
    }
  }

  lemma ComesFromBundle(before: FileSystem, fs: FileSystem, root: Path, done: set<Path>, target: Path)
    requires Progress(before, fs, root, done)
    requires target in fs && fs[target].Regular? && Within(target, root)
    ensures FromBundle(before, root, fs[target].data)
  {
    hide SameView, SelfContained, Tree;
    if target !in done {
      assert before[target] == fs[target];
    }
  }

  lemma ReadableStep(before: FileSystem, fs: FileSystem, link: Path, target: Path)
    requires Tree(fs) && IsLink(fs, link) && SameView(before, fs) && Readable(before, link)
    requires RealPath(fs, [], link, {}) == (target, true) && target in fs && fs[target].Regular?
    ensures SameView(before, Replaced(fs, link, fs[target].data))
  {
    hide RealPath, LeadsTo, Reads;
    var data :| Reads(before, link, data);
    var end := ReadableLink(fs, link, data);
    LeadsToFile(fs, link, end, data);
    ReplacingKeepsView(fs, link, end, data);
  }

  lemma LeadsToFile(fs: FileSystem, link: Path, end: Path, data: Data)
    requires LeadsTo(fs, link, end, data)
    ensures end in fs && fs[end] == Regular(data)
  {
  }

  lemma SelfContainedStep(fs: FileSystem, root: Path, link: Path, target: Path)
    requires Tree(fs) && SelfContained(fs, root) && link in LinksUnder(fs, root)
    requires RealPath(fs, [], link, {}) == (target, true) && target in fs && fs[target].Regular?
    ensures SelfContained(Replaced(fs, link, fs[target].data), root)
  {
    hide RealPath;
    var end := ContainedLink(fs, root, link);
    var data := fs[target].data;
    ReplacingKeepsSelfContained(fs, root, link, end, data);
  }

  lemma ContainedLink(fs: FileSystem, root: Path, link: Path) returns (end: Path)
    requires Tree(fs) && SelfContained(fs, root) && link in LinksUnder(fs, root)
    ensures RealPath(fs, [], link, {}) == (end, true) && Within(end, root)
    ensures end in fs && fs[end].Regular? && LeadsTo(fs, link, end, fs[end].data)
  {
    hide RealPath;
    var e, data :| LeadsTo(fs, link, e, data) && Within(e, root);
    var h: nat :| LinkEnds(fs, link, h, e);
    LookupOfLink(fs, link, h);
    RealPathFollowsLookup(fs, [], link, h);
    end := e;
  }

  // On success the bundle is free of links, one copy was made per link, every copy's contents come
  // from a file of the bundle, and nothing else changed; every path reads as before exactly when
  // every link could be read; a self-contained bundle always succeeds.
  // The check a link has to pass.
  predicate Accepted(fs: FileSystem, root: Path, link: Path) {
    var (target, resolved) := RealPath(fs, [], link, {});
    resolved && target in fs && fs[target].Regular? && Within(target, root)
  }

  // The tree after all replacements, made in the order of the paths, or nothing when a link is
  // rejected on the way.  A link is checked in the tree that the replacements before it leave.
  function Materialized(fs: FileSystem, root: Path, paths: seq<Path>): Option<FileSystem> {
    if paths == [] then Some(fs)
    else if !IsLink(fs, paths[0]) then Materialized(fs, root, paths[1..])
    else if !Accepted(fs, root, paths[0]) then None
    else
      Materialized(Replaced(fs, paths[0], fs[RealPath(fs, [], paths[0], {}).0].data), root, paths[1..])
  }

  // One link's turn: if following it ends at a regular file inside the bundle, it becomes that file;
  // otherwise the pass ends without a result.
  lemma LinksTurn(fs: FileSystem, root: Path, link: Path, rest: seq<Path>)
    requires IsLink(fs, link)
    ensures forall hops: nat ::
              Follow(fs, [], link, hops).Some? ==>
                var end := Follow(fs, [], link, hops).value.path;
                Materialized(fs, root, [link] + rest)
                == if end in fs && fs[end].Regular? && root <= end then Materialized(fs[link := fs[end]], root, rest)
                   else None
    ensures (forall hops: nat :: Follow(fs, [], link, hops).None?) ==> Materialized(fs, root, [link] + rest) == None
  {
    var paths := [link] + rest;
    assert paths[1..] == rest;
    var (end, resolved) := RealPath(fs, [], link, {});
    RealPathExactly(fs, link, end);
    forall hops: nat | Follow(fs, [], link, hops).Some?
      ensures (end, resolved) == (Follow(fs, [], link, hops).value.path, true)
    {
      RealPathFollows(fs, [], link, hops, {});
    }
    hide RealPath, Follow;
  }

  method MaterializeBundleSymlinks(before: FileSystem, root: Path, paths: seq<Path>)
    returns (ok: bool, fs: FileSystem, replaced: nat)
    requires Tree(before) && root in before
    requires forall path :: path in paths <==> path in before && Within(path, root) && path != root
    requires forall j, k :: 0 <= j < k < |paths| ==> paths[j] != paths[k]
    requires IsDirectory(before, root)
    ensures ok ==> LinksUnder(fs, root) == {} && replaced == |LinksUnder(before, root)|
    ensures fs.Keys == before.Keys
    ensures forall path :: path in before && path !in LinksUnder(before, root) ==> fs[path] == before[path]
    ensures forall path :: path in LinksUnder(before, root) ==>
              fs[path] == before[path] || (fs[path].Regular? && FromBundle(before, root, fs[path].data))
    ensures AllReadable(before, LinksUnder(before, root)) ==> SameView(before, fs)
    ensures ok ==> (SameView(before, fs) <==> AllReadable(before, LinksUnder(before, root)))
    ensures SelfContained(before, root) ==> ok
    ensures Materialized(before, root, paths) == if ok then Some(fs) else None
  {
    hide Tree, SameView, Readable, SelfContained, FromBundle, RealPath, Progress, LinksUnder;
    assert paths[0..] == paths;
    fs, replaced := before, 0;
    ghost var done: set<Path> := {};
    NothingDone(before, root);
    for k := 0 to |paths|
      invariant Progress(before, fs, root, done)
      invariant done == LinksAmong(before, paths[..k]) && replaced == |done|
      invariant Materialized(before, root, paths) == Materialized(fs, root, paths[k..])
    {
      assert paths[k..][0] == paths[k] && paths[k..][1..] == paths[k + 1..];
      var path := paths[k];
      assert path in paths && paths[..k + 1][..k] == paths[..k];
      InLinksAmong(before, paths[..k], path);
      StillAsBefore(before, fs, root, done, path);
      if IsLink(fs, path) {
        var (target, resolved) := RealPath(fs, [], path, {});
        if !resolved || target !in fs || !fs[target].Regular? || !Within(target, root) {
          assert !Accepted(fs, root, path);
          NotSelfContained(before, fs, root, done, path);
          ProgressMeans(before, fs, root, done);
          return false, fs, replaced;
        }
        IterationProgresses(before, fs, root, done, path, target);
        fs := Replaced(fs, path, fs[target].data);
        replaced := replaced + 1;
        done := done + {path};
      }
    }
    assert paths[..|paths|] == paths;
    AllLinksAmong(before, root, paths);
    ProgressMeans(before, fs, root, done);
    ok := true;
    if SameView(before, fs) {
      CopiesWereReadable(before, fs, root, done);
    }
  }

  function LinksAmong(fs: FileSystem, paths: seq<Path>): set<Path> {
    if paths == [] then {}
    else
      var last := paths[|paths| - 1];
      LinksAmong(fs, paths[..|paths| - 1]) + if IsLink(fs, last) then {last} else {}
  }

  lemma {:induction false} InLinksAmong(fs: FileSystem, paths: seq<Path>, path: Path)
    ensures path in LinksAmong(fs, paths) <==> path in paths && IsLink(fs, path)
  {
    if paths != [] {
      InLinksAmong(fs, paths[..|paths| - 1], path);
      assert paths == paths[..|paths| - 1] + [paths[|paths| - 1]];
    }
  }

  lemma AllLinksAmong(before: FileSystem, root: Path, paths: seq<Path>)
    requires IsDirectory(before, root)
    requires forall path :: path in paths <==> path in before && Within(path, root) && path != root
    ensures LinksAmong(before, paths) == LinksUnder(before, root)
  {
    forall path
      ensures path in LinksAmong(before, paths) <==> path in LinksUnder(before, root)
    {
      InLinksAmong(before, paths, path);
    }
  }

  lemma StillAsBefore(before: FileSystem, fs: FileSystem, root: Path, done: set<Path>, path: Path)
    requires Progress(before, fs, root, done) && path in before && path !in done && Within(path, root)
    ensures path in fs && fs[path] == before[path] && (IsLink(fs, path) ==> path in LinksUnder(before, root))
  {
  }

  // A link that fails the check belongs to a bundle that is not self-contained.
  lemma NotSelfContained(before: FileSystem, fs: FileSystem, root: Path, done: set<Path>, link: Path)
    requires Progress(before, fs, root, done) && IsLink(fs, link) && Within(link, root)
    requires !Accepted(fs, root, link)
    ensures !SelfContained(before, root)
  {
    hide RealPath, SelfContained, SameView, Tree;
    if SelfContained(before, root) {
      assert link in LinksUnder(fs, root);
      var end := ContainedLink(fs, root, link);
      assert false;
    }
  }

  lemma ProgressMeans(before: FileSystem, fs: FileSystem, root: Path, done: set<Path>)
    requires Progress(before, fs, root, done)
    ensures fs.Keys == before.Keys
    ensures forall path :: path in before && path !in LinksUnder(before, root) ==> fs[path] == before[path]
    ensures forall path :: path in LinksUnder(before, root) ==>
              fs[path] == before[path] || (fs[path].Regular? && FromBundle(before, root, fs[path].data))
    ensures AllReadable(before, LinksUnder(before, root)) ==> SameView(before, fs)
    ensures done == LinksUnder(before, root) ==> LinksUnder(fs, root) == {}
  {
    hide SelfContained, SameView, Tree, Readable;
  }

  lemma NothingDone(before: FileSystem, root: Path)
    requires Tree(before)
    ensures Progress(before, before, root, {})
  {
  }

  lemma CopiesWereReadable(before: FileSystem, fs: FileSystem, root: Path, done: set<Path>)
    requires Progress(before, fs, root, done) && SameView(before, fs)
    ensures AllReadable(before, done)
  {
    forall link | link in done
      ensures Readable(before, link)
    {
      assert link != [];
      RegularFileReads(fs, link, fs[link].data);
      assert Reads(before, link, fs[link].data);
    }
  }

  // The check does not make sure that a link can be read: Path.resolve steps through a missing
  // directory and back, the operating system does not.
  const ODD_BUNDLE: FileSystem := map[
    [] := Directory, ["b"] := Directory, ["b", "f"] := Regular([]),
    ["b", "x"] := Link(false, ["missing", "..", "f"])]

  lemma UnreadableLinkIsAccepted()
    ensures RealPath(ODD_BUNDLE, [], ["b", "x"], {}) == (["b", "f"], true)
    ensures !Readable(ODD_BUNDLE, ["b", "x"])
  {
    OddLinkResolves();
    forall hops: nat
      ensures Lookup(ODD_BUNDLE, [], ["b", "x"], hops) == None
    {
      OddLinkIsLost(hops);
    }
    hide RealPath, Lookup;
  }

  lemma OddBundleIsMaterialized()
    ensures var fs := Replaced(ODD_BUNDLE, ["b", "x"], []);
            && Materialized(ODD_BUNDLE, ["b"], [["b", "f"], ["b", "x"]]) == Some(fs)
            && Reads(fs, ["b", "x"], [])
  {
    var fs, link, paths := ODD_BUNDLE, ["b", "x"], [["b", "f"], ["b", "x"]];
    OddLinkResolves();
    ReplacedIsRead();
    hide RealPath, Reads;
    assert paths[1..] == [link] && [link][1..] == [];
    assert Materialized(Replaced(fs, link, []), ["b"], []) == Some(Replaced(fs, link, []));
  }

  lemma ReplacedIsRead()
    ensures Reads(Replaced(ODD_BUNDLE, ["b", "x"], []), ["b", "x"], [])
  {
    var fs, link := Replaced(ODD_BUNDLE, ["b", "x"], []), ["b", "x"];
    assert link[1..] == ["x"] && [] + ["b"] == ["b"] && ["b"] + ["x"] == link && ["x"][1..] == [];
    assert Lookup(fs, [], link, 0) == Lookup(fs, ["b"], ["x"], 0) == Some(Found(link, 0));
    assert ReadsWithin(fs, [], link, 0, []);
  }

  lemma OddBundleIsTree()
    ensures Tree(ODD_BUNDLE) && IsDirectory(ODD_BUNDLE, ["b"])
    ensures LinksUnder(ODD_BUNDLE, ["b"]) == {["b", "x"]} && |{["b", "x"]}| == 1
  {
    assert ["b", "f"][..1] == ["b"] == ["b", "x"][..1] && ["b"][..0] == [];
    assert LinksUnder(ODD_BUNDLE, ["b"]) == {["b", "x"]};
  }

  lemma OddBundlePaths(paths: seq<Path>)
    requires paths == [["b", "f"], ["b", "x"]]
    ensures ["b"] in ODD_BUNDLE
    ensures forall path :: path in paths <==> path in ODD_BUNDLE && Within(path, ["b"]) && path != ["b"]
    ensures forall j, k :: 0 <= j < k < |paths| ==> paths[j] != paths[k]
  {
    assert !Within([], ["b"]) && paths[0] in paths && paths[1] in paths;
  }

  // The whole pass over that bundle: it succeeds, and a path that could not be read can be.
  method MaterializeOddBundle() returns (fs: FileSystem, replaced: nat)
    ensures replaced == 1 && fs.Keys == ODD_BUNDLE.Keys
    ensures !Readable(ODD_BUNDLE, ["b", "x"]) && Reads(fs, ["b", "x"], [])
  {
    hide *;
    var paths, root := [["b", "f"], ["b", "x"]], ["b"];
    OddBundleIsTree();
    OddBundlePaths(paths);
    OddBundleIsMaterialized();
    UnreadableLinkIsAccepted();
    var ok;
    ok, fs, replaced := MaterializeBundleSymlinks(ODD_BUNDLE, root, paths);
  }

  lemma OddLinkResolves()
    ensures RealPath(ODD_BUNDLE, [], ["b", "x"], {}) == (["b", "f"], true)
  {
    var fs, link, target := ODD_BUNDLE, ["b", "x"], ["missing", "..", "f"];
    OddTargetResolves();
    assert link[1..] == ["x"] && [] + ["b"] == ["b"] && ["b"] + ["x"] == link && ["x"][1..] == [];
    assert {} + {link} == {link};
    assert RealPath(fs, ["b"], ["x"], {}) == (["b", "f"], true);
  }

  lemma OddTargetResolves()
    ensures RealPath(ODD_BUNDLE, ["b"], ["missing", "..", "f"], {["b", "x"]}) == (["b", "f"], true)
  {
    var fs, link, target := ODD_BUNDLE, ["b", "x"], ["missing", "..", "f"];
    assert target[1..] == ["..", "f"] && ["..", "f"][1..] == ["f"] && ["f"][1..] == [];
    assert ["b"] + ["missing"] == ["b", "missing"] && Up(["b", "missing"]) == ["b"];
    assert ["b"] + ["f"] == ["b", "f"];
    assert RealPath(fs, ["b"], ["f"], {link}) == (["b", "f"], true);
    assert RealPath(fs, ["b", "missing"], ["..", "f"], {link}) == RealPath(fs, ["b"], ["f"], {link});
  }

  lemma OddLinkIsLost(hops: nat)
    ensures Lookup(ODD_BUNDLE, [], ["b", "x"], hops) == None
  {
    var fs, link, target := ODD_BUNDLE, ["b", "x"], ["missing", "..", "f"];
    assert link[1..] == ["x"] && [] + ["b"] == ["b"] && ["b"] + ["x"] == link && ["x"][1..] == [];
    assert Lookup(fs, [], link, hops) == Lookup(fs, ["b"], ["x"], hops);
    if hops > 0 {
      assert target + ["x"][1..] == target && ["b"] + ["missing"] == ["b", "missing"];
      assert Lookup(fs, ["b"], target, hops - 1) == None;
    }
  }
}
