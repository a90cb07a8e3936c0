/** The verifier's checks on an archive's symbolic links, and what they mean for the extracted tree. */
module ArchiveMembers {
  import opened Paths
  import opened Wrappers
  import opened PosixPath
  import opened ArchivePaths
  import opened ArchiveLinks
  import ArchiveClimbs

  // PurePosixPath(name).parent
  function ParentParts(name: string): Path {
    var parts := Parts(name);
    if parts == [] then [] else parts[..|parts| - 1]
  }

  // A target that is empty, holds a control character, or is absolute in POSIX or Windows terms.
  predicate UnsafeTarget(target: string) {
    || target == "" || UnsafeControl(target)
    || IsAbsolute(Slashed(target))
    || (|target| >= 2 && target[1] == ':')
  }

  predicate UnderLink(links: Links, name: string) {
    var parts := Parts(name);
    exists k :: 1 <= k < |parts| && IsLink(links, parts[..k])
  }

  predicate StartsWith(s: string, prefix: string) {
    prefix <= s
  }

  // The path is a member or a directory that holds one.
  predicate Present(names: seq<string>, path: Path) {
    || Name(path) in names
    || exists k :: 0 <= k < |names| && StartsWith(names[k], Name(path) + "/")
  }

  predicate LinkVerified(names: seq<string>, links: Links, root: string, name: string)
    requires name in links
  {
    && !UnsafeTarget(links[name])
    && var resolved := Resolve(links, root, ParentParts(name), Parts(Slashed(links[name])));
    && resolved.Ok? && Present(names, resolved.value)
  }

  ghost predicate MemberVerified(
    names: seq<string>, links: Links, root: string, upper: string -> string, name: string)
  {
    && PortableArchivePath(name, root, upper) && !UnderLink(links, name)
    && (name in links ==> LinkVerified(names, links, root, name))
  }

  ghost predicate Verified(names: seq<string>, links: Links, root: string, upper: string -> string) {
    && root in ACCEPTED_ARCHIVE_ROOTS
    && (forall k :: 0 <= k < |names| ==> MemberVerified(names, links, root, upper, names[k]))
  }

  // A member's path is the one its name spells.
  lemma MemberPathIs(path: Path, root: string, upper: string -> string)
    requires path != [] && Components(path) && PortableArchivePath(Name(path), root, upper)
    ensures Parts(Name(path)) == path
  {
    hide PortableArchivePath, Parts, Join;
    AcceptedNamesAreCanonical(Name(path), root, upper);
    SplitJoin(path, '/');
  }

  lemma {:induction false} SplitBelow(path: Path, tail: string)
    requires path != [] && Components(path)
    ensures Split(Join(path, '/') + "/" + tail, '/') == path + Split(tail, '/')
  {
    if |path| == 1 {
      SplitPrefix(path[0], tail, '/');
    } else {
      assert Free(path[0], '/') && Components(path[1..]);
      assert Join(path, '/') == path[0] + ['/'] + Join(path[1..], '/');
      hide Split, Join, Components;
      SplitBelow(path[1..], tail);
      SplitOneMore(path[0], path[1..], Join(path[1..], '/'), tail);
      assert [path[0]] + path[1..] == path;
    }
  }

  lemma SplitOneMore(head: string, rest: Path, joined: string, tail: string)
    requires Free(head, '/') && Split(joined + "/" + tail, '/') == rest + Split(tail, '/')
    ensures Split(head + ['/'] + joined + "/" + tail, '/') == [head] + rest + Split(tail, '/')
  {
    hide Split;
    SplitPrefix(head, joined + "/" + tail, '/');
    assert head + ['/'] + joined + "/" + tail == head + ['/'] + (joined + "/" + tail);
    assert [head] + (rest + Split(tail, '/')) == [head] + rest + Split(tail, '/');
  }

  // ---------------------------------------------------------------- what the checks mean

  // A target is safe when it is not empty, holds no control character, does not start at a root, of
  // either kind, and names no drive.
  lemma UnsafeTargetExactly(target: string)
    ensures !UnsafeTarget(target) <==>
              && target != "" && target[0] !in "/\\" && (|target| >= 2 ==> target[1] != ':')
              && forall c :: c in target ==> 32 <= c as int != 127
  {
  }

  // No member lies below a link: the name of none goes on after a link's name.
  lemma UnderLinkExactly(links: Links, name: string, root: string, upper: string -> string)
    requires PortableArchivePath(name, root, upper)
    ensures UnderLink(links, name) <==> exists link :: link in links && link + "/" <= name
  {
    AcceptedNamesAreCanonical(name, root, upper);
    var parts := Parts(name);
    hide PortableArchivePath, Parts, PortableParts, Split, Join, Components;
    if UnderLink(links, name) {
      var k :| 1 <= k < |parts| && IsLink(links, parts[..k]);
      JoinedBelow(parts, k);
      assert Name(parts[..k]) in links && Name(parts[..k]) + "/" <= name;
    }
    if link :| link in links && link + "/" <= name {
      LinkAbove(links, name, link, parts);
    }
  }

  lemma LinkAbove(links: Links, name: string, link: string, parts: Path)
    requires link in links && link + "/" <= name && parts == Split(name, '/')
    ensures exists k :: 1 <= k < |parts| && IsLink(links, parts[..k])
  {
    var above, tail := Split(link, '/'), name[|link| + 1..];
    assert name == link + "/" + tail;
    JoinSplit(link, '/');
    SplitIsComponents(link);
    SplitIsComponents(tail);
    hide Split, Join, Components;
    SplitBelow(above, tail);
    assert parts[..|above|] == above && IsLink(links, parts[..|above|]);
  }

  lemma SplitIsComponents(s: string)
    ensures Components(Split(s, '/')) && Split(s, '/') != [] && |Split(s, '/')| >= 1
  {
  }

  lemma {:induction false} JoinedBelow(parts: Path, k: nat)
    requires 1 <= k < |parts|
    ensures Join(parts[..k], '/') + "/" <= Join(parts, '/')
    ensures Join(parts, '/') == Join(parts[..k], '/') + "/" + Join(parts[k..], '/')
  {
    if k == 1 {
      assert parts[..1] == [parts[0]];
    } else {
      JoinedBelow(parts[1..], k - 1);
      assert parts[..k][1..] == parts[1..][..k - 1] && parts[1..][k - 1..] == parts[k..];
    }
  }

  // Among accepted names, a path is present exactly when it leads to a member or above one.
  lemma PresentExactly(names: seq<string>, root: string, upper: string -> string, path: Path)
    requires forall k :: 0 <= k < |names| ==> PortableArchivePath(names[k], root, upper)
    requires path != [] && Components(path)
    ensures Present(names, path) <==> exists k :: 0 <= k < |names| && path <= Parts(names[k])
  {
    hide PortableArchivePath, Parts, Join, Split;
    if Name(path) in names {
      var k :| 0 <= k < |names| && names[k] == Name(path);
      MemberPathIs(path, root, upper);
      assert path <= Parts(names[k]);
    } else if k :| 0 <= k < |names| && StartsWith(names[k], Name(path) + "/") {
      var tail := names[k][|Name(path)| + 1..];
      assert names[k] == Name(path) + "/" + tail;
      AcceptedNamesAreCanonical(names[k], root, upper);
      SplitBelow(path, tail);
      assert path <= Parts(names[k]);
    }
    if k :| 0 <= k < |names| && path <= Parts(names[k]) {
      AcceptedNamesAreCanonical(names[k], root, upper);
      var parts := Parts(names[k]);
      if |path| == |parts| {
        assert path == parts;
      } else {
        assert parts[..|path|] == path;
        JoinedBelow(parts, |path|);
        assert StartsWith(names[k], Name(path) + "/");
      }
    }
  }

  lemma {:induction false} RewritingKeepsComponents(links: Links, root: string, parts: Path, rounds: nat)
    requires root in ACCEPTED_ARCHIVE_ROOTS && Components(parts) && parts != []
    ensures var resolved := ResolveFrom(links, root, parts, rounds);
            resolved.Ok? ==> Components(resolved.value) && resolved.value != []
    decreases rounds
  {
    hide Substituted, IsLink, Components;
    var k := ShortestLink(links, parts, 1);
    if rounds > 0 && k.Some? && Checked(Substituted(links, parts, k.value), root) {
      SubstitutedComponents(links, root, parts, k.value);
      RewritingKeepsComponents(links, root, Substituted(links, parts, k.value), rounds - 1);
    }
  }

  lemma ResolvedIsPath(links: Links, root: string, parent: Path, target: Path)
    requires root in ACCEPTED_ARCHIVE_ROOTS && Components(parent) && Components(target)
    ensures var resolved := Resolve(links, root, parent, target);
            resolved.Ok? ==> Components(resolved.value) && resolved.value != []
  {
    hide Under, ResolveFrom, Components;
    UnderKeepsComponents(parent, target);
    ComponentsOf(Under(parent, target), parent, target);
    if Checked(Under(parent, target), root) {
      RewritingKeepsComponents(links, root, Under(parent, target), MAX_SYMLINK_HOPS);
    }
  }

  // The link's target is not empty, holds no control character, starts at no root of either kind and
  // names no drive, and it resolves to a member or to a directory above one.
  ghost predicate LeadsToMember(names: seq<string>, links: Links, root: string, name: string)
    requires name in links
  {
    var target, parts := links[name], Split(name, '/');
    && target != "" && target[0] !in "/\\" && (|target| >= 2 ==> target[1] != ':')
    && (forall c :: c in target ==> 32 <= c as int != 127)
    && var resolved := Resolve(links, root, parts[..|parts| - 1], Parts(Slashed(target)));
       resolved.Ok? && exists k :: 0 <= k < |names| && resolved.value <= Parts(names[k])
  }

  lemma ParentOfName(name: string, root: string, upper: string -> string)
    requires PortableArchivePath(name, root, upper)
    ensures var parts := Split(name, '/');
            |parts| >= 1 && ParentParts(name) == parts[..|parts| - 1] && Components(ParentParts(name))
  {
    AcceptedNamesAreCanonical(name, root, upper);
    SplitIsComponents(name);
    hide PortableArchivePath, Parts, Split;
  }

  lemma ResolvedToMember(
    names: seq<string>, links: Links, root: string, upper: string -> string, parent: Path, target: string)
    requires root in ACCEPTED_ARCHIVE_ROOTS && Components(parent) && !UnsafeTarget(target)
    requires forall k :: 0 <= k < |names| ==> PortableArchivePath(names[k], root, upper)
    ensures var resolved := Resolve(links, root, parent, Parts(Slashed(target)));
            resolved.Ok? ==>
              (Present(names, resolved.value) <==> exists k :: 0 <= k < |names| && resolved.value <= Parts(names[k]))
  {
    hide PortableArchivePath, Parts, Slashed, Resolve, Present, UnsafeTarget, Components;
    TargetIsRelative(target);
    ResolvedIsPath(links, root, parent, Parts(Slashed(target)));
    var resolved := Resolve(links, root, parent, Parts(Slashed(target)));
    if resolved.Ok? {
      PresentExactly(names, root, upper, resolved.value);
    }
  }

  lemma LinkVerifiedExactly(names: seq<string>, links: Links, root: string, upper: string -> string, name: string)
    requires root in ACCEPTED_ARCHIVE_ROOTS && name in links
    requires forall k :: 0 <= k < |names| ==> PortableArchivePath(names[k], root, upper)
    requires PortableArchivePath(name, root, upper)
    ensures LinkVerified(names, links, root, name) <==> LeadsToMember(names, links, root, name)
  {
    hide PortableArchivePath, Parts, Slashed, Split, Resolve, Present, UnsafeTarget, Components, ParentParts;
    UnsafeTargetExactly(links[name]);
    ParentOfName(name, root, upper);
    if !UnsafeTarget(links[name]) {
      ResolvedToMember(names, links, root, upper, ParentParts(name), links[name]);
    }
  }

  // An archive is accepted exactly when its root is one of two, every name is canonical, no name goes
  // on after a link's name, and every link leads to a member or above one.
  lemma VerifiedExactly(names: seq<string>, links: Links, root: string, upper: string -> string)
    ensures Verified(names, links, root, upper) <==>
              && root in {"one-link", "one-link.app"}
              && (forall name :: name in names ==>
                    && PortableArchivePath(name, root, upper)
                    && (!exists link :: link in links && link + "/" <= name)
                    && (name in links ==> LeadsToMember(names, links, root, name)))
  {
    hide PortableArchivePath, UnderLink, LinkVerified, LeadsToMember;
    if root in ACCEPTED_ARCHIVE_ROOTS && forall k :: 0 <= k < |names| ==> PortableArchivePath(names[k], root, upper) {
      forall name | name in names
        ensures UnderLink(links, name) <==> exists link :: link in links && link + "/" <= name
        ensures name in links ==>
                  (LinkVerified(names, links, root, name) <==> LeadsToMember(names, links, root, name))
      {
        UnderLinkExactly(links, name, root, upper);
        if name in links {
          LinkVerifiedExactly(names, links, root, upper, name);
        }
      }
    }
    assert forall name :: name in names ==> exists k :: 0 <= k < |names| && names[k] == name;
    assert forall k :: 0 <= k < |names| ==> names[k] in names;
  }

  // ---------------------------------------------------------------- the checks

  method VerifyLink(names: seq<string>, links: Links, root: string, name: string, ghost upper: string -> string)
    returns (ok: bool)
    requires name in links
    ensures ok <==> LinkVerified(names, links, root, name)
    ensures root in ACCEPTED_ARCHIVE_ROOTS && PortableArchivePath(name, root, upper)
            && (forall k :: 0 <= k < |names| ==> PortableArchivePath(names[k], root, upper)) ==>
              (ok <==> LeadsToMember(names, links, root, name))
  {
    hide UnsafeTarget, Resolve, Present, ParentParts, Parts, Slashed, PortableArchivePath, LeadsToMember;
    if root in ACCEPTED_ARCHIVE_ROOTS && PortableArchivePath(name, root, upper)
       && forall k :: 0 <= k < |names| ==> PortableArchivePath(names[k], root, upper) {
      LinkVerifiedExactly(names, links, root, upper, name);
    }
    if UnsafeTarget(links[name]) {
      return false;
    }
    var resolved := ResolveArchiveLink(ParentParts(name), Parts(Slashed(links[name])), links, root);
    return resolved.Ok? && Present(names, resolved.value);
  }

  method VerifyMembers(names: seq<string>, links: Links, root: string, upper: string -> string)
    returns (ok: bool)
    ensures ok <==> Verified(names, links, root, upper)
    ensures ok <==>
              && root in {"one-link", "one-link.app"}
              && (forall name :: name in names ==>
                    && PortableArchivePath(name, root, upper)
                    && (!exists link :: link in links && link + "/" <= name)
                    && (name in links ==> LeadsToMember(names, links, root, name)))
  {
    VerifiedExactly(names, links, root, upper);
    hide PortableArchivePath, UnderLink, LinkVerified, LeadsToMember;
    if root !in ACCEPTED_ARCHIVE_ROOTS {
      return false;
    }
    for k := 0 to |names|
      invariant forall j :: 0 <= j < k ==> PortableArchivePath(names[j], root, upper)
    {
      if !PortableArchivePath(names[k], root, upper) {
        return false;
      }
    }
    for k := 0 to |names|
      invariant forall j :: 0 <= j < k ==> !UnderLink(links, names[j])
    {
      if UnderLink(links, names[k]) {
        return false;
      }
    }
    for k := 0 to |names|
      invariant forall j :: 0 <= j < k && names[j] in links ==> LinkVerified(names, links, root, names[j])
    {
      if names[k] in links {
        ok := VerifyLink(names, links, root, names[k], upper);
        if !ok {
          return false;
        }
      }
    }
    return true;
  }

  // In a verified archive whose links are all passable, every link, followed the way the
  // operating system follows it after extraction, leads to a member or to a directory of members: to
  // the one the verifier resolved it to.
  lemma VerifiedLinksLeadToMembers(
    names: seq<string>, links: Links, root: string, upper: string -> string, name: string)
    requires Verified(names, links, root, upper) && ArchiveClimbs.PassableLinks(links, root)
    requires name in names && name in links
    ensures var walked := Walk(links, root, ParentParts(name), Parts(Slashed(links[name])), MAX_SYMLINK_HOPS - 1);
            && walked.Reached? && Present(names, walked.path)
            && Resolve(links, root, ParentParts(name), Parts(Slashed(links[name]))) == Ok(walked.path)
  {
    hide PortableArchivePath, UnsafeTarget, Resolve, Walk, Present, UnderLink, Checked, Collapses, Hopeless,
      Components, ArchiveClimbs.PassableLinks, LinkFree, Parts, Slashed, Absolute;
    var k :| 0 <= k < |names| && names[k] == name;
    var parent, target := ParentParts(name), Parts(Slashed(links[name]));
    var resolved := Resolve(links, root, parent, target);
    assert LinkVerified(names, links, root, name);
    ParentIsPlain(links, root, name, upper);
    TargetIsRelative(links[name]);
    LinkIsSoundAt(links, root, upper, name);
    SoundIsResolving(links, root, parent, target, resolved.value);
  }

  lemma LinkIsSoundAt(links: Links, root: string, upper: string -> string, name: string)
    requires root in ACCEPTED_ARCHIVE_ROOTS && ArchiveClimbs.PassableLinks(links, root)
    requires PortableArchivePath(name, root, upper) && !UnderLink(links, name)
    requires name in links && Components(Parts(Slashed(links[name])))
    ensures SoundLinks(links, root)
    ensures var parent, target := ParentParts(name), Parts(Slashed(links[name]));
            Collapses(links, root, parent, target) || Hopeless(links, root, parent, target)
  {
    ParentIsPlain(links, root, name, upper);
    AcceptedNamesAreCanonical(name, root, upper);
    RelativeComponents(Parts(Slashed(links[name])));
    ArchiveClimbs.PassableLinksAreSound(links, root);
    var path := Parts(name);
    hide Collapses, Hopeless, Parts, Slashed, Components, Absolute, LinkFree, ArchiveClimbs.PassableLinks,
      PortableArchivePath, UnderLink, Name, Checked;
    assert IsLink(links, path) && TargetOf(links, path) == Parts(Slashed(links[name]));
  }

  lemma ParentIsPlain(links: Links, root: string, name: string, upper: string -> string)
    requires PortableArchivePath(name, root, upper) && !UnderLink(links, name)
    ensures var parent := ParentParts(name);
            && (parent != [] ==> parent[0] == root) && ".." !in parent && LinkFree(links, parent)
            && Components(parent)
    ensures var parts := Parts(name);
            && Checked(parts, root) && Components(parts)
            && Name(parts) == name && parts[..|parts| - 1] == ParentParts(name)
  {
    hide PortableComponent, IsLink;
    var parent, parts := ParentParts(name), Parts(name);
    AcceptedNamesAreCanonical(name, root, upper);
    assert Components(parts) by {
      hide Parts;
    }
    assert Checked(parts, root);
    hide Parts, Split;
    forall k | 1 <= k <= |parent|
      ensures !IsLink(links, parent[..k])
    {
      assert parent[..k] == parts[..k];
    }
  }

  lemma TargetIsRelative(target: string)
    requires !UnsafeTarget(target)
    ensures Components(Parts(Slashed(target)))
  {
    var split := Split(Slashed(target), '/');
    forall c | c in Parts(Slashed(target))
      ensures Free(c, '/')
    {
      assert c in split;
    }
  }
}
