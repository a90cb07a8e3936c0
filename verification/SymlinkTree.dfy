/** A file tree with symbolic links, read the way the operating system reads it (section 4.13 of
    POSIX.1-2017, Base Definitions) and resolved the way Path.resolve does. */
module SymlinkTree {
  import opened Paths
  import opened Bytes
  import opened Wrappers
  import opened Sets

  datatype Node = Directory | Regular(data: Data) | Link(absolute: bool, target: Path)

  type FileSystem = map<Path, Node>

  predicate IsDirectory(fs: FileSystem, path: Path) {
    path in fs && fs[path].Directory?
  }

  predicate IsLink(fs: FileSystem, path: Path) {
    path in fs && fs[path].Link?
  }

  predicate Plain(path: Path) {
    forall c :: c in path ==> c !in {"", ".", ".."}
  }

  ghost predicate Tree(fs: FileSystem) {
    && IsDirectory(fs, [])
    && forall path :: path in fs && path != [] ==> Plain(path) && IsDirectory(fs, path[..|path| - 1])
  }

  function Up(path: Path): Path {
    if path == [] then [] else path[..|path| - 1]
  }

  // ---------------------------------------------------------------- the operating system

  datatype Found = Found(path: Path, hops: nat)

  // Pathname resolution from `at`, expanding at most `hops` links; it reports the node reached and
  // the number of links expanded.  A component can only be looked up in a directory.
  function Lookup(fs: FileSystem, at: Path, rest: Path, hops: nat): (found: Option<Found>)
    ensures found.Some? ==> found.value.hops <= hops
    decreases hops, |rest|
  {
    if rest == [] then Some(Found(at, 0))
    else if !IsDirectory(fs, at) then None
    else if rest[0] in {"", "."} then Lookup(fs, at, rest[1..], hops)
    else if rest[0] == ".." then Lookup(fs, Up(at), rest[1..], hops)
    else
      var next := at + [rest[0]];
      if next !in fs then None
      else if !fs[next].Link? then Lookup(fs, next, rest[1..], hops)
      else if hops == 0 then None
      else
        match Lookup(fs, if fs[next].absolute then [] else at, fs[next].target + rest[1..], hops - 1)
        case None => None
        case Some(found) => Some(Found(found.path, found.hops + 1))
  }

  // Opening the path and reading it gives the data.
  ghost predicate Reads(fs: FileSystem, path: Path, data: Data) {
    exists hops: nat :: ReadsWithin(fs, [], path, hops, data)
  }

  ghost predicate ReadsWithin(fs: FileSystem, at: Path, rest: Path, hops: nat, data: Data) {
    var found := Lookup(fs, at, rest, hops);
    found.Some? && found.value.path in fs && fs[found.value.path] == Regular(data)
  }

  // How many links a lookup expands does not depend on how many it may.
  lemma {:induction false} EnoughHops(fs: FileSystem, at: Path, rest: Path, hops: nat, more: nat)
    requires Lookup(fs, at, rest, hops).Some? && Lookup(fs, at, rest, hops).value.hops <= more
    ensures Lookup(fs, at, rest, more) == Lookup(fs, at, rest, hops)
    decreases hops, |rest|
  {
    if rest != [] {
      var next := at + [rest[0]];
      if rest[0] in {"", "."} {
        EnoughHops(fs, at, rest[1..], hops, more);
      } else if rest[0] == ".." {
        EnoughHops(fs, Up(at), rest[1..], hops, more);
      } else if !fs[next].Link? {
        EnoughHops(fs, next, rest[1..], hops, more);
      } else {
        EnoughHops(fs, if fs[next].absolute then [] else at, fs[next].target + rest[1..], hops - 1, more - 1);
      }
    }
  }

  // Resolving a concatenation is resolving its first part and going on from there.
  lemma {:induction false} LookupInTwo(fs: FileSystem, at: Path, first: Path, second: Path, hops: nat)
    ensures Lookup(fs, at, first + second, hops).Some? <==>
              && Lookup(fs, at, first, hops).Some?
              && var middle := Lookup(fs, at, first, hops).value;
                 middle.hops <= hops && Lookup(fs, middle.path, second, hops - middle.hops).Some?
    ensures Lookup(fs, at, first + second, hops).Some? ==>
              var middle := Lookup(fs, at, first, hops).value;
              var last := Lookup(fs, middle.path, second, hops - middle.hops).value;
              Lookup(fs, at, first + second, hops).value == Found(last.path, middle.hops + last.hops)
    decreases hops, |first|
  {
    if first == [] {
      assert first + second == second;
    } else {
      var rest := first + second;
      assert rest[1..] == first[1..] + second;
      var next := at + [first[0]];
      if !IsDirectory(fs, at) {
      } else if first[0] in {"", "."} {
        LookupInTwo(fs, at, first[1..], second, hops);
      } else if first[0] == ".." {
        LookupInTwo(fs, Up(at), first[1..], second, hops);
      } else if next in fs && !fs[next].Link? {
        LookupInTwo(fs, next, first[1..], second, hops);
      } else if next in fs && hops > 0 {
        var from := if fs[next].absolute then [] else at;
        assert fs[next].target + rest[1..] == (fs[next].target + first[1..]) + second;
        LookupInTwo(fs, from, fs[next].target + first[1..], second, hops - 1);
      }
    }
  }

  // A file reads the same whatever route found it.
  lemma ReadsOnce(fs: FileSystem, path: Path, a: Data, b: Data)
    requires Reads(fs, path, a) && Reads(fs, path, b)
    ensures a == b
  {
    var h: nat :| ReadsWithin(fs, [], path, h, a);
    var k: nat :| ReadsWithin(fs, [], path, k, b);
    if h <= k {
      EnoughHops(fs, [], path, h, k);
    } else {
      EnoughHops(fs, [], path, k, h);
    }
  }

  // ---------------------------------------------------------------- Path.resolve(strict=False)

  function Links(fs: FileSystem): set<Path> {
    set path | path in fs && fs[path].Link?
  }

  // Components are taken one by one; links are expanded, ".." drops the last component, and nothing
  // is required to exist.  `active` are the links being expanded; meeting one again is a loop, and
  // the result is then not a resolved path.
  function RealPath(fs: FileSystem, at: Path, rest: Path, active: set<Path>): (Path, bool)
    decreases |Links(fs) - active|, |rest|
  {
    if rest == [] then (at, true)
    else if rest[0] in {"", "."} then RealPath(fs, at, rest[1..], active)
    else if rest[0] == ".." then RealPath(fs, Up(at), rest[1..], active)
    else
      var next := at + [rest[0]];
      if !IsLink(fs, next) then RealPath(fs, next, rest[1..], active)
      else if next in active then (next + rest[1..], false)
      else
        assert Links(fs) - (active + {next}) < Links(fs) - active by {
          assert next in Links(fs) - active;
        }
        SubsetIsSmaller(Links(fs) - (active + {next}), Links(fs) - active);
        var (path, ok) :=
          RealPath(fs, if fs[next].absolute then [] else at, fs[next].target, active + {next});
        if !ok then (path + rest[1..], false) else RealPath(fs, path, rest[1..], active)
  }

  function LookupLink(fs: FileSystem, link: Path, hops: nat): Option<Found>
    requires link != []
  {
    Lookup(fs, Up(link), [link[|link| - 1]], hops)
  }

  // A link leads where its target does: an absolute one from the top, a relative one from the
  // directory that holds the link.
  lemma LinkLeads(fs: FileSystem, link: Path, hops: nat)
    requires link != [] && IsLink(fs, link) && IsDirectory(fs, Up(link)) && Plain(link)
    ensures LookupLink(fs, link, 0).None?
    ensures var target := Lookup(fs, if fs[link].absolute then [] else link[..|link| - 1], fs[link].target, hops);
            && (LookupLink(fs, link, hops + 1).Some? <==> target.Some?)
            && (target.Some? ==> LookupLink(fs, link, hops + 1).value.path == target.value.path)
  {
    var name := link[|link| - 1];
    assert Up(link) + [name] == link && [name][1..] == [] && fs[link].target + [] == fs[link].target;
    assert name in link;
  }

  // ---------------------------------------------------------------- what it means to be resolved

  // Following a path: links are expanded, `hops` at most, and nothing is required to exist.
  function Follow(fs: FileSystem, at: Path, rest: Path, hops: nat): (found: Option<Found>)
    ensures found.Some? ==> found.value.hops <= hops
    decreases hops, |rest|
  {
    if rest == [] then Some(Found(at, 0))
    else if rest[0] in {"", "."} then Follow(fs, at, rest[1..], hops)
    else if rest[0] == ".." then Follow(fs, Up(at), rest[1..], hops)
    else
      var next := at + [rest[0]];
      if !IsLink(fs, next) then Follow(fs, next, rest[1..], hops)
      else if hops == 0 then None
      else
        match Follow(fs, if fs[next].absolute then [] else at, fs[next].target + rest[1..], hops - 1)
        case None => None
        case Some(found) => Some(Found(found.path, found.hops + 1))
  }

  // What the operating system finds is found by following.
  lemma {:induction false} LookupIsFollowing(fs: FileSystem, at: Path, rest: Path, hops: nat)
    requires Lookup(fs, at, rest, hops).Some?
    ensures Follow(fs, at, rest, hops) == Lookup(fs, at, rest, hops)
    decreases hops, |rest|
  {
    if rest != [] {
      var next := at + [rest[0]];
      if rest[0] in {"", "."} {
        LookupIsFollowing(fs, at, rest[1..], hops);
      } else if rest[0] == ".." {
        LookupIsFollowing(fs, Up(at), rest[1..], hops);
      } else if !fs[next].Link? {
        LookupIsFollowing(fs, next, rest[1..], hops);
      } else {
        LookupIsFollowing(fs, if fs[next].absolute then [] else at, fs[next].target + rest[1..], hops - 1);
      }
    }
  }

  lemma {:induction false} FollowedWithin(fs: FileSystem, at: Path, rest: Path, hops: nat, more: nat)
    requires Follow(fs, at, rest, hops).Some? && Follow(fs, at, rest, hops).value.hops <= more
    ensures Follow(fs, at, rest, more) == Follow(fs, at, rest, hops)
    decreases hops, |rest|
  {
    if rest != [] {
      var next := at + [rest[0]];
      if rest[0] in {"", "."} {
        FollowedWithin(fs, at, rest[1..], hops, more);
      } else if rest[0] == ".." {
        FollowedWithin(fs, Up(at), rest[1..], hops, more);
      } else if !IsLink(fs, next) {
        FollowedWithin(fs, next, rest[1..], hops, more);
      } else {
        FollowedWithin(fs, if fs[next].absolute then [] else at, fs[next].target + rest[1..], hops - 1, more - 1);
      }
    }
  }

  // Following a concatenation is following its first part and going on from there.
  lemma {:induction false} FollowInTwo(fs: FileSystem, at: Path, first: Path, second: Path, hops: nat)
    ensures Follow(fs, at, first + second, hops).Some? <==>
              && Follow(fs, at, first, hops).Some?
              && var middle := Follow(fs, at, first, hops).value;
                 Follow(fs, middle.path, second, hops - middle.hops).Some?
    ensures Follow(fs, at, first + second, hops).Some? ==>
              var middle := Follow(fs, at, first, hops).value;
              var last := Follow(fs, middle.path, second, hops - middle.hops).value;
              Follow(fs, at, first + second, hops).value == Found(last.path, middle.hops + last.hops)
    decreases hops, |first|
  {
    if first == [] {
      assert first + second == second;
    } else {
      var rest := first + second;
      assert rest[1..] == first[1..] + second;
      var next := at + [first[0]];
      if first[0] in {"", "."} {
        FollowInTwo(fs, at, first[1..], second, hops);
      } else if first[0] == ".." {
        FollowInTwo(fs, Up(at), first[1..], second, hops);
      } else if !IsLink(fs, next) {
        FollowInTwo(fs, next, first[1..], second, hops);
      } else if hops > 0 {
        assert fs[next].target + rest[1..] == (fs[next].target + first[1..]) + second;
        FollowInTwo(fs, if fs[next].absolute then [] else at, fs[next].target + first[1..], second, hops - 1);
      }
    }
  }

  function FollowLink(fs: FileSystem, link: Path, hops: nat): Option<Found>
    requires link != []
  {
    Follow(fs, Up(link), [link[|link| - 1]], hops)
  }

  // The links being expanded all take longer than what is left to resolve.
  ghost predicate Outlasts(fs: FileSystem, active: set<Path>, hops: nat) {
    forall link :: link in active ==>
      link != [] && forall h: nat :: FollowLink(fs, link, h).Some? ==> FollowLink(fs, link, h).value.hops > hops
  }

  // Where following ends, Path.resolve ends at the same place.
  lemma {:induction false} RealPathFollows(fs: FileSystem, at: Path, rest: Path, hops: nat, active: set<Path>)
    requires Follow(fs, at, rest, hops).Some?
    requires Outlasts(fs, active, Follow(fs, at, rest, hops).value.hops)
    ensures RealPath(fs, at, rest, active) == (Follow(fs, at, rest, hops).value.path, true)
    decreases hops, |rest|
  {
    if rest != [] {
      var next := at + [rest[0]];
      if rest[0] in {"", "."} {
        RealPathFollows(fs, at, rest[1..], hops, active);
      } else if rest[0] == ".." {
        RealPathFollows(fs, Up(at), rest[1..], hops, active);
      } else if !IsLink(fs, next) {
        RealPathFollows(fs, next, rest[1..], hops, active);
      } else {
        RealPathThroughLink(fs, at, rest, hops, active);
      }
    }
  }

  lemma {:induction false} RealPathThroughLink(fs: FileSystem, at: Path, rest: Path, hops: nat, active: set<Path>)
    requires rest != [] && rest[0] !in {"", ".", ".."} && IsLink(fs, at + [rest[0]])
    requires Follow(fs, at, rest, hops).Some?
    requires Outlasts(fs, active, Follow(fs, at, rest, hops).value.hops)
    ensures RealPath(fs, at, rest, active) == (Follow(fs, at, rest, hops).value.path, true)
    decreases hops, |rest|, 0
  {
    var next := at + [rest[0]];
    var from, target := if fs[next].absolute then [] else at, fs[next].target;
    FollowInTwo(fs, from, target, rest[1..], hops - 1);
    var middle := Follow(fs, from, target, hops - 1).value;
    LinkTakes(fs, at, rest[0], hops, middle);
    assert next !in active && Outlasts(fs, active + {next}, middle.hops);
    RealPathFollows(fs, from, target, hops - 1, active + {next});
    RealPathFollows(fs, middle.path, rest[1..], hops - 1 - middle.hops, active);
  }

  // How many expansions the link by itself takes.
  lemma LinkTakes(fs: FileSystem, at: Path, name: string, hops: nat, middle: Found)
    requires name !in {"", ".", ".."} && IsLink(fs, at + [name]) && hops > 0
    requires var link := fs[at + [name]];
             Follow(fs, if link.absolute then [] else at, link.target, hops - 1) == Some(middle)
    ensures FollowLink(fs, at + [name], hops).Some?
    ensures forall h: nat ::
              FollowLink(fs, at + [name], h).Some? ==> FollowLink(fs, at + [name], h).value.hops == middle.hops + 1
  {
    var next := at + [name];
    assert Up(next) == at && next[|next| - 1] == name;
    assert [name][1..] == [] && fs[next].target + [] == fs[next].target;
    assert Follow(fs, at, [name], hops) == Some(Found(middle.path, middle.hops + 1));
    forall h: nat | FollowLink(fs, next, h).Some?
      ensures FollowLink(fs, next, h).value.hops == middle.hops + 1
    {
      if h <= hops {
        FollowedWithin(fs, at, [name], h, hops);
      } else {
        FollowedWithin(fs, at, [name], hops, h);
      }
    }
  }

  // And where Path.resolve meets no loop, following ends.
  lemma {:induction false} RealPathIsFollowed(fs: FileSystem, at: Path, rest: Path, active: set<Path>)
    returns (hops: nat)
    requires RealPath(fs, at, rest, active).1
    ensures Follow(fs, at, rest, hops).Some?
    ensures Follow(fs, at, rest, hops).value.path == RealPath(fs, at, rest, active).0
    decreases |Links(fs) - active|, |rest|
  {
    hops := 0;
    if rest != [] {
      var next := at + [rest[0]];
      if rest[0] in {"", "."} {
        hops := RealPathIsFollowed(fs, at, rest[1..], active);
      } else if rest[0] == ".." {
        hops := RealPathIsFollowed(fs, Up(at), rest[1..], active);
      } else if !IsLink(fs, next) {
        hops := RealPathIsFollowed(fs, next, rest[1..], active);
      } else {
        var from, target := if fs[next].absolute then [] else at, fs[next].target;
        assert next in Links(fs) - active;
        assert Links(fs) - (active + {next}) < Links(fs) - active;
        SubsetIsSmaller(Links(fs) - (active + {next}), Links(fs) - active);
        var middle := RealPath(fs, from, target, active + {next}).0;
        var first := RealPathIsFollowed(fs, from, target, active + {next});
        var second := RealPathIsFollowed(fs, middle, rest[1..], active);
        hops := FollowedOn(fs, from, target, rest[1..], first, second);
        hops := hops + 1;
      }
    }
  }

  lemma FollowedOn(fs: FileSystem, from: Path, target: Path, rest: Path, first: nat, second: nat) returns (hops: nat)
    requires Follow(fs, from, target, first).Some?
    requires Follow(fs, Follow(fs, from, target, first).value.path, rest, second).Some?
    ensures Follow(fs, from, target + rest, hops).Some?
    ensures Follow(fs, from, target + rest, hops).value.path
            == Follow(fs, Follow(fs, from, target, first).value.path, rest, second).value.path
  {
    var middle := Follow(fs, from, target, first).value;
    hops := middle.hops + second;
    FollowedWithin(fs, from, target, first, hops);
    FollowInTwo(fs, from, target, rest, hops);
  }

  // Path.resolve resolves a path exactly when following it ends, and ends there too.
  lemma RealPathExactly(fs: FileSystem, path: Path, end: Path)
    ensures RealPath(fs, [], path, {}) == (end, true)
            <==> exists hops: nat :: Follow(fs, [], path, hops).Some? && Follow(fs, [], path, hops).value.path == end
  {
    if RealPath(fs, [], path, {}) == (end, true) {
      var hops := RealPathIsFollowed(fs, [], path, {});
    }
    if hops: nat :| Follow(fs, [], path, hops).Some? && Follow(fs, [], path, hops).value.path == end {
      RealPathFollows(fs, [], path, hops, {});
    }
  }

  // In particular where the operating system gets through.
  lemma RealPathFollowsLookup(fs: FileSystem, at: Path, rest: Path, hops: nat)
    requires Lookup(fs, at, rest, hops).Some?
    ensures RealPath(fs, at, rest, {}) == (Lookup(fs, at, rest, hops).value.path, true)
  {
    LookupIsFollowing(fs, at, rest, hops);
    RealPathFollows(fs, at, rest, hops, {});
  }
}
