/** When an accepted archive can be extracted: exactly when none of its members lies below another.
    Nothing in the checks on names and links sees to that. */
module ArchiveTrees {
  import opened Paths
  import opened Wrappers
  import opened PosixPath
  import opened ArchivePaths
  import opened ArchiveLinks
  import opened ArchiveMembers
  import opened ArchiveExtraction
  import SymlinkTree

  // No member lies below another.
  ghost predicate SideBySide(names: seq<string>) {
    forall j, k :: 0 <= j < |names| && 0 <= k < |names| ==> !(Parts(names[j]) < Parts(names[k]))
  }

  ghost predicate AllAccepted(names: seq<string>, root: string, upper: string -> string) {
    forall k :: 0 <= k < |names| ==> PortableArchivePath(names[k], root, upper)
  }

  // ---------------------------------------------------------------- the tree of side-by-side names

  // Every member's path and what lies above it.
  function PathsOf(names: seq<string>): set<Path> {
    {[]} + set i: nat, k: nat | i < |names| && k <= |Parts(names[i])| :: Parts(names[i])[..k]
  }

  lemma PathIsAboveMember(names: seq<string>, path: Path) returns (i: nat)
    requires path in PathsOf(names) && path != []
    ensures i < |names| && path <= Parts(names[i])
  {
    hide Parts;
    var found: nat, k: nat :| found < |names| && k <= |Parts(names[found])| && path == Parts(names[found])[..k];
    i := found;
  }

  lemma AboveMemberIsPath(names: seq<string>, path: Path, i: nat)
    requires i < |names| && path <= Parts(names[i])
    ensures path in PathsOf(names)
  {
    hide Parts;
    assert path == Parts(names[i])[..|path|];
  }

  // Members are what the archive says they are, and everything above them is a directory.
  function NodeOf(names: seq<string>, links: Links, path: Path): SymlinkTree.Node {
    if path == [] || Name(path) !in names then SymlinkTree.Directory
    else if Name(path) in links then SymlinkTree.Link(false, Parts(Slashed(links[Name(path)])))
    else SymlinkTree.Regular([])
  }

  function TreeOf(names: seq<string>, links: Links): SymlinkTree.FileSystem {
    map path | path in PathsOf(names) :: NodeOf(names, links, path)
  }

  // What an accepted name spells: a path that spells it back.
  lemma NameOfMember(name: string, root: string, upper: string -> string)
    requires PortableArchivePath(name, root, upper)
    ensures var path := Parts(name);
            path != [] && Name(path) == name && Components(path) && SymlinkTree.Plain(path)
  {
    hide PortableArchivePath, Parts, Join, PortableComponent;
    AcceptedNamesAreCanonical(name, root, upper);
    forall c | c in Parts(name)
      ensures c !in {"", ".", ".."} && Free(c, '/')
    {
      ComponentHasNoSlash(c, upper);
    }
  }

  // What lies strictly above a member is not a member.
  lemma AboveIsNoMember(names: seq<string>, root: string, upper: string -> string, path: Path, k: nat)
    requires AllAccepted(names, root, upper) && SideBySide(names)
    requires k < |names| && path < Parts(names[k])
    ensures path == [] || Name(path) !in names
  {
    NameOfMember(names[k], root, upper);
    hide PortableArchivePath, Parts, Join, Name;
    if path != [] && Name(path) in names {
      var j :| 0 <= j < |names| && names[j] == Name(path);
      assert Components(path);
      MemberPathIs(path, root, upper);
    }
  }

  lemma InTree(names: seq<string>, links: Links, path: Path)
    ensures path in TreeOf(names, links) <==> path in PathsOf(names)
    ensures path in PathsOf(names) ==> TreeOf(names, links)[path] == NodeOf(names, links, path)
  {
    hide PathsOf, NodeOf;
  }

  lemma TreeIsTree(names: seq<string>, links: Links, root: string, upper: string -> string)
    requires AllAccepted(names, root, upper) && SideBySide(names)
    ensures SymlinkTree.Tree(TreeOf(names, links))
  {
    var fs := TreeOf(names, links);
    RootOfTree(names, links);
    forall path | path in fs && path != []
      ensures SymlinkTree.Plain(path) && SymlinkTree.IsDirectory(fs, path[..|path| - 1])
    {
      hide *;
      InTree(names, links, path);
      var k := PathIsAboveMember(names, path);
      ParentInTree(names, links, root, upper, path, k);
    }
    hide TreeOf, AllAccepted, SideBySide, SymlinkTree.Plain, SymlinkTree.IsDirectory;
  }

  lemma RootOfTree(names: seq<string>, links: Links)
    ensures SymlinkTree.IsDirectory(TreeOf(names, links), [])
  {
    InTree(names, links, []);
    hide TreeOf, Parts;
  }

  lemma ParentInTree(
    names: seq<string>, links: Links, root: string, upper: string -> string, path: Path, k: nat)
    requires AllAccepted(names, root, upper) && SideBySide(names)
    requires k < |names| && path <= Parts(names[k]) && path != []
    ensures SymlinkTree.Plain(path) && SymlinkTree.IsDirectory(TreeOf(names, links), path[..|path| - 1])
  {
    var up := path[..|path| - 1];
    AcceptedName(names, root, upper, k);
    NameOfMember(names[k], root, upper);
    assert up <= Parts(names[k]) && up < Parts(names[k]);
    PartIsPlain(path, Parts(names[k]));
    AboveIsNoMember(names, root, upper, up, k);
    AboveMemberIsPath(names, up, k);
    InTree(names, links, up);
    hide Parts, Name, TreeOf, PathsOf, AllAccepted, SideBySide, PortableArchivePath;
  }

  lemma PartIsPlain(path: Path, whole: Path)
    requires SymlinkTree.Plain(whole) && path <= whole
    ensures SymlinkTree.Plain(path)
  {
    forall c | c in path
      ensures c in whole
    {
      var i :| 0 <= i < |path| && path[i] == c;
      assert whole[i] == c;
    }
  }

  lemma PrefixIs(a: Path, b: Path)
    ensures a <= b ==> |a| <= |b| && b[..|a|] == a
  {
  }

  lemma AcceptedName(names: seq<string>, root: string, upper: string -> string, k: nat)
    requires AllAccepted(names, root, upper) && k < |names|
    ensures PortableArchivePath(names[k], root, upper)
  {
    hide PortableArchivePath;
  }

  lemma TreeHoldsMembers(names: seq<string>, links: Links, root: string, upper: string -> string)
    requires AllAccepted(names, root, upper) && SideBySide(names)
    ensures ExtractedAs(TreeOf(names, links), names, links)
  {
    var fs := TreeOf(names, links);
    forall k: nat | k < |names|
      ensures Parts(names[k]) in fs
      ensures if names[k] in links
              then fs[Parts(names[k])] == SymlinkTree.Link(false, Parts(Slashed(links[names[k]])))
              else fs[Parts(names[k])].Regular?
    {
      hide *;
      MemberInTree(names, links, root, upper, k);
    }
    forall path | path in fs && fs[path].Link?
      ensures IsLink(links, path)
    {
      hide TreeOf, PathsOf, Parts, AllAccepted, SideBySide;
      InTree(names, links, path);
    }
    hide TreeOf, Parts, AllAccepted, SideBySide, SymlinkTree.Tree, IsLink;
    TreeIsTree(names, links, root, upper);
  }

  lemma MemberInTree(names: seq<string>, links: Links, root: string, upper: string -> string, k: nat)
    requires AllAccepted(names, root, upper) && k < |names|
    ensures var fs := TreeOf(names, links);
            && Parts(names[k]) in fs
            && if names[k] in links
               then fs[Parts(names[k])] == SymlinkTree.Link(false, Parts(Slashed(links[names[k]])))
               else fs[Parts(names[k])].Regular?
  {
    AcceptedName(names, root, upper, k);
    NameOfMember(names[k], root, upper);
    AboveMemberIsPath(names, Parts(names[k]), k);
    InTree(names, links, Parts(names[k]));
    hide Parts, Name, TreeOf, PathsOf, AllAccepted, PortableArchivePath, Slashed;
  }

  // ---------------------------------------------------------------- the condition

  // A file has nothing below it, and what lies below a link is refused.
  lemma NothingBelowMember(
    fs: SymlinkTree.FileSystem, names: seq<string>, links: Links, root: string, upper: string -> string, j: nat, k: nat)
    requires Verified(names, links, root, upper) && ExtractedAs(fs, names, links)
    requires j < |names| && k < |names|
    ensures !(Parts(names[j]) < Parts(names[k]))
  {
    var above, below := Parts(names[j]), Parts(names[k]);
    assert MemberVerified(names, links, root, upper, names[j]) && MemberVerified(names, links, root, upper, names[k]);
    NameOfMember(names[j], root, upper);
    if names[j] in links {
      NotUnderMember(links, above, names[j], names[k]);
    } else {
      NotUnderFile(fs, above, below);
    }
    hide *;
  }

  lemma NotUnderMember(links: Links, above: Path, name: string, lower: string)
    requires name in links && Name(above) == name && above != [] && !UnderLink(links, lower)
    ensures !(above < Parts(lower))
  {
    hide Parts, Name;
    PrefixIs(above, Parts(lower));
  }

  lemma NotUnderFile(fs: SymlinkTree.FileSystem, above: Path, below: Path)
    requires SymlinkTree.Tree(fs) && above in fs && !fs[above].Directory? && below in fs
    ensures !(above < below)
  {
    hide SymlinkTree.Tree;
    PrefixIs(above, below);
    if |above| < |below| {
      AboveExists(fs, below, |above|);
    }
  }

  // An accepted archive can be extracted exactly when none of its members lies below another.
  lemma ExtractableExactly(names: seq<string>, links: Links, root: string, upper: string -> string)
    requires Verified(names, links, root, upper)
    ensures (exists fs :: ExtractedAs(fs, names, links)) <==> SideBySide(names)
  {
    assert AllAccepted(names, root, upper) by {
      hide PortableArchivePath, UnderLink, LinkVerified;
    }
    hide Parts, ExtractedAs, Verified, AllAccepted;
    if SideBySide(names) {
      TreeHoldsMembers(names, links, root, upper);
    }
    if fs :| ExtractedAs(fs, names, links) {
      forall j, k | 0 <= j < |names| && 0 <= k < |names|
        ensures !(Parts(names[j]) < Parts(names[k]))
      {
        NothingBelowMember(fs, names, links, root, upper, j, k);
      }
    }
  }

  // ---------------------------------------------------------------- two names that are accepted

  const NESTED: seq<string> := ["one-link/a", "one-link/a/b"]

  // `upper` makes no reserved name of these, as str.upper does not.
  predicate KeepsApart(upper: string -> string) {
    forall c :: c in {"one-link", "a", "b"} ==> upper(c) !in WINDOWS_RESERVED_BASENAMES
  }

  predicate Simple(c: string) {
    0 < |c| < 60 && forall x :: x in c ==> 'a' <= x <= 'z' || x == '-'
  }

  lemma {:induction false} ShortInUtf8(c: string)
    ensures Utf8Length(c) <= 4 * |c|
  {
    if c != "" {
      ShortInUtf8(c[1..]);
    }
  }

  lemma SimpleIsPortable(c: string, upper: string -> string)
    requires Simple(c) && upper(c) !in WINDOWS_RESERVED_BASENAMES
    ensures PortableComponent(c, upper)
  {
    ShortInUtf8(c);
    assert c[|c| - 1] in c;
    forall x | x in c
      ensures !ControlCharacter(x) && x !in "<>:\"/\\|?*" && x !in " ."
    {
    }
    SplitFree(c, '.');
    assert Basename(c) == c;
    hide Utf8Length, Split, StripEnd, Basename;
  }

  lemma NestedNames()
    ensures Join(["one-link", "a"], '/') == NESTED[0] && Join(["one-link", "a", "b"], '/') == NESTED[1]
  {
    assert ["one-link", "a"][1..] == ["a"] && ["one-link", "a", "b"][1..] == ["a", "b"] && ["a", "b"][1..] == ["b"];
  }

  lemma SimplePartsAreAccepted(parts: Path, name: string, upper: string -> string)
    requires parts != [] && parts[0] == "one-link" && Join(parts, '/') == name
    requires forall c :: c in parts ==> Simple(c) && upper(c) !in WINDOWS_RESERVED_BASENAMES
    ensures PortableArchivePath(name, "one-link", upper) && Parts(name) == parts
  {
    hide Join, Parts, PortableArchivePath, PortableComponent, Simple;
    forall c | c in parts
      ensures PortableComponent(c, upper)
    {
      SimpleIsPortable(c, upper);
    }
    CanonicalNamesAreAccepted(parts, "one-link", upper);
  }

  lemma NestedAreSimple(upper: string -> string)
    requires KeepsApart(upper)
    ensures forall c :: c in ["one-link", "a", "b"] ==> Simple(c) && upper(c) !in WINDOWS_RESERVED_BASENAMES
  {
    assert Simple("one-link") && Simple("a") && Simple("b");
  }

  lemma UpperNameIsAccepted(upper: string -> string)
    requires KeepsApart(upper)
    ensures PortableArchivePath(NESTED[0], "one-link", upper) && Parts(NESTED[0]) == ["one-link", "a"]
  {
    hide Simple, KeepsApart, Join, Parts, PortableArchivePath;
    NestedAreSimple(upper);
    NestedNames();
    assert forall c :: c in ["one-link", "a"] ==> c in ["one-link", "a", "b"];
    SimplePartsAreAccepted(["one-link", "a"], NESTED[0], upper);
  }

  lemma LowerNameIsAccepted(upper: string -> string)
    requires KeepsApart(upper)
    ensures PortableArchivePath(NESTED[1], "one-link", upper) && Parts(NESTED[1]) == ["one-link", "a", "b"]
  {
    hide Simple, KeepsApart, Join, Parts, PortableArchivePath;
    NestedAreSimple(upper);
    NestedNames();
    SimplePartsAreAccepted(["one-link", "a", "b"], NESTED[1], upper);
  }

  lemma NestedIsAccepted(upper: string -> string)
    requires KeepsApart(upper)
    ensures AllAccepted(NESTED, "one-link", upper)
    ensures Parts(NESTED[0]) == ["one-link", "a"] && Parts(NESTED[1]) == ["one-link", "a", "b"]
  {
    hide KeepsApart, Parts, PortableArchivePath;
    UpperNameIsAccepted(upper);
    LowerNameIsAccepted(upper);
  }

  // A file and a file below it are accepted, and no tree holds both.
  lemma NestedFilesAreVerified(upper: string -> string)
    requires KeepsApart(upper)
    ensures Verified(NESTED, map[], "one-link", upper)
    ensures forall fs :: !ExtractedAs(fs, NESTED, map[])
  {
    NestedIsAccepted(upper);
    NoLinksVerified(NESTED, "one-link", upper);
    assert ["one-link", "a"] < ["one-link", "a", "b"];
    hide Parts, Verified, ExtractedAs, AllAccepted;
    ExtractableExactly(NESTED, map[], "one-link", upper);
  }

  lemma NoLinksVerified(names: seq<string>, root: string, upper: string -> string)
    requires root in ACCEPTED_ARCHIVE_ROOTS && AllAccepted(names, root, upper)
    ensures Verified(names, map[], root, upper)
  {
    hide PortableArchivePath, Parts;
  }
}
