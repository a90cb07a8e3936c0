/** A verified archive on disk: every link of the extracted tree can be followed, one component at a
    time in directories that exist, to the place the verifier resolved it to. */
module ArchiveExtraction {
  import opened Paths
  import opened Wrappers
  import opened PosixPath
  import opened ArchivePaths
  import opened ArchiveLinks
  import ArchiveClimbs
  import opened ArchiveMembers
  import SymlinkTree

  // The tree below the extraction directory holds every member, and no link that is not a member.
  // (Targets are read with either slash as a separator, as the verifier reads them.)
  ghost predicate ExtractedAs(fs: SymlinkTree.FileSystem, names: seq<string>, links: Links) {
    && SymlinkTree.Tree(fs)
    && (forall k :: 0 <= k < |names| ==>
          && Parts(names[k]) in fs
          && if names[k] in links
             then fs[Parts(names[k])] == SymlinkTree.Link(false, Parts(Slashed(links[names[k]])))
             else fs[Parts(names[k])].Regular?)
    && (forall path :: path in fs && fs[path].Link? ==> IsLink(links, path))
  }

  // Components as Parts leaves them.
  ghost predicate Kept(path: Path) {
    forall c :: c in path ==> c !in {"", "."} && Free(c, '/')
  }

  lemma KeptTogether(a: Path, b: Path)
    requires Kept(a) && Kept(b)
    ensures Kept(a + b) && (a != [] ==> Kept(a[1..]))
  {
  }

  // What the verifier found present is there.
  lemma PresentIsThere(
    fs: SymlinkTree.FileSystem, names: seq<string>, links: Links, root: string, upper: string -> string, path: Path)
    requires Verified(names, links, root, upper) && ExtractedAs(fs, names, links)
    requires path != [] && Components(path) && Present(names, path)
    ensures path in fs
  {
    hide PortableArchivePath, UnderLink, LinkVerified, Parts, Present, Components, SymlinkTree.Tree;
    assert forall k :: 0 <= k < |names| ==> MemberVerified(names, links, root, upper, names[k]);
    PresentExactly(names, root, upper, path);
    var k :| 0 <= k < |names| && path <= Parts(names[k]);
    AboveExists(fs, Parts(names[k]), |path|);
    assert Parts(names[k])[..|path|] == path;
  }

  lemma {:induction false} AboveExists(fs: SymlinkTree.FileSystem, path: Path, k: nat)
    requires SymlinkTree.Tree(fs) && path in fs && k <= |path|
    ensures path[..k] in fs && (k < |path| ==> SymlinkTree.IsDirectory(fs, path[..k]))
    decreases |path|
  {
    if k < |path| {
      AboveExists(fs, path[..|path| - 1], k);
      assert path[..|path| - 1][..k] == path[..k];
    } else {
      assert path[..k] == path;
    }
  }

  // The links of the table are the links of the tree.
  lemma LinkOnDisk(
    fs: SymlinkTree.FileSystem, names: seq<string>, links: Links, root: string, upper: string -> string, path: Path)
    requires Verified(names, links, root, upper) && ExtractedAs(fs, names, links)
    requires forall name :: name in links ==> name in names
    requires path != [] && Components(path) && IsLink(links, path)
    ensures path in fs && fs[path] == SymlinkTree.Link(false, TargetOf(links, path))
    ensures Components(TargetOf(links, path)) && Kept(TargetOf(links, path))
  {
    hide PortableArchivePath, UnderLink, UnsafeTarget, Present, Resolve, Parts, Join, Slashed, SymlinkTree.Tree;
    var k :| 0 <= k < |names| && names[k] == Name(path);
    assert MemberVerified(names, links, root, upper, names[k]);
    MemberPathIs(path, root, upper);
    TargetIsRelative(links[Name(path)]);
    PartsAreKept(Slashed(links[Name(path)]));
  }

  lemma PartsAreKept(value: string)
    requires Components(Parts(value))
    ensures Kept(Parts(value))
  {
    var names := Significant(Split(value, '/'));
    assert forall c :: c in names ==> c !in {"", "."};
    hide Split, Significant;
    assert '/' in "/" && '/' in "//";
  }

  // What the walk needs of the tree and the table.
  ghost predicate OnDisk(fs: SymlinkTree.FileSystem, links: Links) {
    && SymlinkTree.Tree(fs)
    && (forall path :: path in fs && fs[path].Link? ==> IsLink(links, path))
    && (forall path: Path :: path != [] && Components(path) && IsLink(links, path) ==>
          && path in fs && fs[path] == SymlinkTree.Link(false, TargetOf(links, path))
          && Kept(TargetOf(links, path)) && LeadingDots(TargetOf(links, path)))
  }

  // Where a walk without climbs arrives at something, its next component exists.
  lemma {:induction false} NextExists(
    fs: SymlinkTree.FileSystem, links: Links, root: string, at: Path, names: Path, hops: nat)
    requires OnDisk(fs, links) && Components(at) && Kept(names) && names != [] && ".." !in names
    requires var walked := Walk(links, root, at, names, hops); walked.Reached? && walked.path in fs
    ensures at + [names[0]] in fs
    decreases |names|
  {
    hide SymlinkTree.Tree, IsLink, TargetOf;
    var next := at + [names[0]];
    assert Components(next);
    if !IsLink(links, next) && |names| > 1 {
      NextExists(fs, links, root, next, names[1..], hops);
      ParentExists(fs, next, names[1]);
    } else if !IsLink(links, next) {
      assert names[1..] == [];
    }
  }

  lemma ParentExists(fs: SymlinkTree.FileSystem, path: Path, name: string)
    requires SymlinkTree.Tree(fs) && path + [name] in fs
    ensures SymlinkTree.IsDirectory(fs, path)
  {
    assert (path + [name])[..|path|] == path;
  }

  // The operating system's lookup follows the walk.
  lemma {:induction false} LookupFollowsWalk(
    fs: SymlinkTree.FileSystem, links: Links, root: string, at: Path, pending: Path, hops: nat)
    requires OnDisk(fs, links) && Components(at) && Kept(pending) && LeadingDots(pending)
    requires at in fs && (pending != [] ==> SymlinkTree.IsDirectory(fs, at))
    requires var walked := Walk(links, root, at, pending, hops); walked.Reached? && walked.path in fs
    ensures var found := SymlinkTree.Lookup(fs, at, pending, hops);
            found.Some? && found.value.path == Walk(links, root, at, pending, hops).path
    decreases hops, |pending|
  {
    if pending != [] && pending[0] == ".." {
      ClimbFollows(fs, links, root, at, pending, hops);
    } else if pending != [] {
      NameFollows(fs, links, root, at, pending, hops);
    }
  }

  lemma {:induction false} ClimbFollows(
    fs: SymlinkTree.FileSystem, links: Links, root: string, at: Path, pending: Path, hops: nat)
    requires OnDisk(fs, links) && Components(at) && Kept(pending) && LeadingDots(pending)
    requires at in fs && SymlinkTree.IsDirectory(fs, at) && pending != [] && pending[0] == ".."
    requires var walked := Walk(links, root, at, pending, hops); walked.Reached? && walked.path in fs
    ensures var found := SymlinkTree.Lookup(fs, at, pending, hops);
            found.Some? && found.value.path == Walk(links, root, at, pending, hops).path
    decreases hops, |pending|, 0
  {
    hide IsLink, TargetOf;
    assert SymlinkTree.IsDirectory(fs, at[..|at| - 1]);
    assert Components(at[..|at| - 1]) && Kept(pending[1..]);
    hide OnDisk, Components, Kept;
    LookupFollowsWalk(fs, links, root, at[..|at| - 1], pending[1..], hops);
  }

  // One name that is no link.
  lemma PlainName(
    fs: SymlinkTree.FileSystem, links: Links, root: string, at: Path, pending: Path, hops: nat)
    requires pending != [] && pending[0] !in {"", ".", ".."} && SymlinkTree.IsDirectory(fs, at)
    requires at + [pending[0]] in fs && !fs[at + [pending[0]]].Link? && !IsLink(links, at + [pending[0]])
    requires Walk(links, root, at, pending, hops).Reached?
    ensures Walk(links, root, at, pending, hops) == Walk(links, root, at + [pending[0]], pending[1..], hops)
    ensures SymlinkTree.Lookup(fs, at, pending, hops) == SymlinkTree.Lookup(fs, at + [pending[0]], pending[1..], hops)
  {
    hide IsLink, SymlinkTree.IsDirectory;
  }

  // One name that is a link.
  lemma LinkName(
    fs: SymlinkTree.FileSystem, links: Links, root: string, at: Path, pending: Path, hops: nat)
    requires pending != [] && pending[0] !in {"", ".", ".."} && SymlinkTree.IsDirectory(fs, at)
    requires var next := at + [pending[0]];
             && IsLink(links, next) && next in fs && fs[next] == SymlinkTree.Link(false, TargetOf(links, next))
             && !Absolute(TargetOf(links, next))
    requires Walk(links, root, at, pending, hops).Reached?
    ensures hops > 0
    ensures var onward := TargetOf(links, at + [pending[0]]) + pending[1..];
            && Walk(links, root, at, pending, hops) == Walk(links, root, at, onward, hops - 1)
            && (SymlinkTree.Lookup(fs, at, onward, hops - 1).Some? ==>
                  && SymlinkTree.Lookup(fs, at, pending, hops).Some?
                  && SymlinkTree.Lookup(fs, at, pending, hops).value.path
                     == SymlinkTree.Lookup(fs, at, onward, hops - 1).value.path)
  {
    hide IsLink, TargetOf, SymlinkTree.IsDirectory;
  }

  lemma {:induction false} NameFollows(
    fs: SymlinkTree.FileSystem, links: Links, root: string, at: Path, pending: Path, hops: nat)
    requires OnDisk(fs, links) && Components(at) && Kept(pending) && LeadingDots(pending)
    requires at in fs && SymlinkTree.IsDirectory(fs, at) && pending != [] && pending[0] != ".."
    requires var walked := Walk(links, root, at, pending, hops); walked.Reached? && walked.path in fs
    ensures var found := SymlinkTree.Lookup(fs, at, pending, hops);
            found.Some? && found.value.path == Walk(links, root, at, pending, hops).path
    decreases hops, |pending|, 0
  {
    var next, rest := at + [pending[0]], pending[1..];
    OnlyNames(pending);
    NextExists(fs, links, root, at, pending, hops);
    NextIsNamed(fs, links, at, pending);
    hide *;
    if IsLink(links, next) {
      LinkFollows(fs, links, root, at, pending, hops);
    } else {
      PlainName(fs, links, root, at, pending, hops);
      if rest != [] {
        NextExists(fs, links, root, next, rest, hops);
        ParentExists(fs, next, rest[0]);
      }
      LookupFollowsWalk(fs, links, root, next, rest, hops);
    }
  }

  lemma NextIsNamed(fs: SymlinkTree.FileSystem, links: Links, at: Path, pending: Path)
    requires OnDisk(fs, links) && Components(at) && Kept(pending) && pending != [] && ".." !in pending
    requires at + [pending[0]] in fs
    ensures Components(at + [pending[0]]) && Kept(pending[1..]) && LeadingDots(pending[1..]) && ".." !in pending[1..]
    ensures pending[0] !in {"", ".", ".."} && SymlinkTree.Tree(fs)
    ensures fs[at + [pending[0]]].Link? <==> IsLink(links, at + [pending[0]])
  {
    hide SymlinkTree.Tree, IsLink, TargetOf;
    KeptTogether(pending, []);
    assert pending[0] in pending;
    assert Components(at + [pending[0]]);
  }

  lemma OnlyNames(pending: Path)
    requires LeadingDots(pending) && pending != [] && pending[0] != ".."
    ensures ".." !in pending
  {
    var first := pending[0];
    assert forall j :: 0 < j < |pending| && pending[j] == ".." ==> first == "..";
  }

  lemma {:induction false} LinkFollows(
    fs: SymlinkTree.FileSystem, links: Links, root: string, at: Path, pending: Path, hops: nat)
    requires OnDisk(fs, links) && Components(at) && Kept(pending) && ".." !in pending
    requires at in fs && SymlinkTree.IsDirectory(fs, at) && pending != []
    requires at + [pending[0]] in fs && IsLink(links, at + [pending[0]])
    requires var walked := Walk(links, root, at, pending, hops); walked.Reached? && walked.path in fs
    ensures var found := SymlinkTree.Lookup(fs, at, pending, hops);
            found.Some? && found.value.path == Walk(links, root, at, pending, hops).path
    decreases hops, 0
  {
    hide *;
    NextIsNamed(fs, links, at, pending);
    LinkLeads(fs, links, at + [pending[0]], pending[1..]);
    LinkName(fs, links, root, at, pending, hops);
    LookupFollowsWalk(fs, links, root, at, TargetOf(links, at + [pending[0]]) + pending[1..], hops - 1);
  }

  lemma LinkLeads(fs: SymlinkTree.FileSystem, links: Links, next: Path, rest: Path)
    requires OnDisk(fs, links) && next != [] && Components(next) && IsLink(links, next)
    requires Kept(rest) && ".." !in rest
    ensures next in fs && fs[next] == SymlinkTree.Link(false, TargetOf(links, next))
    ensures !Absolute(TargetOf(links, next))
    ensures Kept(TargetOf(links, next) + rest) && LeadingDots(TargetOf(links, next) + rest)
  {
    hide SymlinkTree.Tree, IsLink, TargetOf;
    var target := TargetOf(links, next);
    assert Kept(target) && LeadingDots(target);
    KeptTogether(target, rest);
    assert '/' in "/" && '/' in "//" && (target != [] ==> target[0] in target);
  }

  // A walk's end is spelled with the components it went along.
  lemma {:induction false} WalkKeepsComponents(
    fs: SymlinkTree.FileSystem, links: Links, root: string, at: Path, pending: Path, hops: nat)
    requires OnDisk(fs, links) && Components(at) && Kept(pending)
    ensures var walked := Walk(links, root, at, pending, hops); walked.Reached? ==> Components(walked.path)
    decreases hops, |pending|
  {
    hide IsLink, TargetOf, OnDisk, Components, Kept;
    KeptTogether(pending, []);
    if pending != [] && pending[0] == ".." && at != [] {
      ComponentsAround(at, pending);
      WalkKeepsComponents(fs, links, root, at[..|at| - 1], pending[1..], hops);
    } else if pending != [] && pending[0] != ".." {
      var next := at + [pending[0]];
      ComponentsAround(at, pending);
      if !IsLink(links, next) {
        WalkKeepsComponents(fs, links, root, next, pending[1..], hops);
      } else if hops > 0 {
        TargetIsKept(fs, links, next);
        KeptTogether(TargetOf(links, next), pending[1..]);
        WalkKeepsComponents(fs, links, root, at, TargetOf(links, next) + pending[1..], hops - 1);
      }
    }
  }

  lemma ComponentsAround(at: Path, pending: Path)
    requires Components(at) && Kept(pending) && pending != []
    ensures at != [] ==> Components(at[..|at| - 1])
    ensures Components(at + [pending[0]])
  {
  }

  lemma TargetIsKept(fs: SymlinkTree.FileSystem, links: Links, next: Path)
    requires OnDisk(fs, links) && next != [] && Components(next) && IsLink(links, next)
    ensures Kept(TargetOf(links, next))
  {
    hide IsLink, TargetOf, Components, Kept, SymlinkTree.Tree;
  }

  lemma ExtractedIsOnDisk(
    fs: SymlinkTree.FileSystem, names: seq<string>, links: Links, root: string, upper: string -> string)
    requires Verified(names, links, root, upper) && LeadingLinks(links) && ExtractedAs(fs, names, links)
    requires forall name :: name in links ==> name in names
    ensures OnDisk(fs, links)
  {
    hide Verified, Parts, Slashed, SymlinkTree.Tree, LeadingDots;
    forall path: Path | path != [] && Components(path) && IsLink(links, path)
      ensures path in fs && fs[path] == SymlinkTree.Link(false, TargetOf(links, path))
      ensures Kept(TargetOf(links, path)) && LeadingDots(TargetOf(links, path))
    {
      LinkOnDisk(fs, names, links, root, upper, path);
    }
  }

  // A link's directory exists, and its target is made of names.
  lemma DirectoryOfLink(
    fs: SymlinkTree.FileSystem, names: seq<string>, links: Links, root: string, upper: string -> string, name: string)
    requires Verified(names, links, root, upper) && ExtractedAs(fs, names, links)
    requires name in names && name in links
    ensures var parent, target := ParentParts(name), Parts(Slashed(links[name]));
            && SymlinkTree.IsDirectory(fs, parent) && Components(parent)
            && Components(target) && Kept(target) && ".." !in parent && LinkFree(links, parent)
  {
    hide PortableArchivePath, UnderLink, UnsafeTarget, Present, Resolve, Parts, Join, Slashed;
    var k :| 0 <= k < |names| && names[k] == name;
    assert MemberVerified(names, links, root, upper, names[k]);
    ParentIsPlain(links, root, name, upper);
    TargetIsRelative(links[name]);
    PartsAreKept(Slashed(links[name]));
    AcceptedNamesAreCanonical(name, root, upper);
  }

  // What the resolver returns is not a link, nor below one.
  lemma ResolvedIsLinkFree(links: Links, root: string, parent: Path, target: Path, result: Path)
    requires Resolve(links, root, parent, target) == Ok(result)
    ensures LinkFree(links, result) && result != []
  {
    var chain := ReturnGivesChain(links, root, Under(parent, target), MAX_SYMLINK_HOPS, result);
    hide LinkFree, Rewrites;
    assert Checked(chain[|chain| - 1], root);
  }

  // In a verified archive whose targets climb only at the start, extracted into a tree, every link
  // can be looked up, and is found where the verifier resolved it to.
  lemma LinksCanBeFollowed(
    fs: SymlinkTree.FileSystem, names: seq<string>, links: Links, root: string, upper: string -> string, name: string)
    requires Verified(names, links, root, upper) && LeadingLinks(links) && ExtractedAs(fs, names, links)
    requires (forall name :: name in links ==> name in names) && name in links
    ensures var resolved := Resolve(links, root, ParentParts(name), Parts(Slashed(links[name])));
            var found := SymlinkTree.Lookup(fs, ParentParts(name), Parts(Slashed(links[name])), MAX_SYMLINK_HOPS - 1);
            && resolved.Ok? && found.Some? && found.value.path == resolved.value
            && resolved.value in fs && !fs[resolved.value].Link?
  {
    var parent, target := ParentParts(name), Parts(Slashed(links[name]));
    ExtractedIsOnDisk(fs, names, links, root, upper);
    DirectoryOfLink(fs, names, links, root, upper, name);
    assert LeadingDots(target);
    LeadingLinksArePassable(links, root);
    VerifiedLinksLeadToMembers(names, links, root, upper, name);
    hide Verified, OnDisk, Parts, Slashed, ParentParts, Walk, Resolve, SymlinkTree.Lookup, Components, Kept, Present,
      SymlinkTree.Tree, LeadingDots, IsLink, LinkFree;
    var end := Walk(links, root, parent, target, MAX_SYMLINK_HOPS - 1).path;
    WalkKeepsComponents(fs, links, root, parent, target, MAX_SYMLINK_HOPS - 1);
    ResolvedIsLinkFree(links, root, parent, target, end);
    PresentIsThere(fs, names, links, root, upper, end);
    LookupFollowsWalk(fs, links, root, parent, target, MAX_SYMLINK_HOPS - 1);
    NotALink(links, end);
  }

  lemma LeadingLinksArePassable(links: Links, root: string)
    requires LeadingLinks(links)
    ensures ArchiveClimbs.PassableLinks(links, root)
  {
    hide LeadingDots, Parts, Slashed, ArchiveClimbs.Passable;
  }

  lemma NotALink(links: Links, path: Path)
    requires LinkFree(links, path) && path != []
    ensures !IsLink(links, path)
  {
    assert path[..|path|] == path;
  }
}
