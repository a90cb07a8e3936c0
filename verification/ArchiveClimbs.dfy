/** Which link targets the verifier resolves as the operating system does, whatever other passable
    links the archive holds.  A target is followed from its member's directory as long as it stays on
    the directory's own path; where it leaves that path, and whether it climbs after that, decides. */
module ArchiveClimbs {
  import opened Paths
  import opened Wrappers
  import opened PosixPath
  import opened ArchiveLinks

  function Directory(member: Path): (parent: Path)
    requires member != []
    ensures |parent| == |member| - 1
  {
    member[..|member| - 1]
  }

  // The name of a member below the archive root.
  ghost predicate MemberPath(root: string, member: Path) {
    && root in ACCEPTED_ARCHIVE_ROOTS
    && |member| >= 2 && member[0] == root && ".." !in member && Components(member)
  }

  // The table holds the member with this target text, and no link lies on the way to it.
  ghost predicate Holds(links: Links, member: Path, text: string)
    requires member != []
  {
    Name(member) in links && links[Name(member)] == text && LinkFree(links, Directory(member))
  }

  // ---------------------------------------------------------------- following a target

  datatype Course =
    | Stays(depth: nat)                    // it ends on the directory's path, `depth` components down
    | ClimbsOut                            // it climbs above the archive root's directory
    | LeavesRoot                           // it names something beside the archive root
    | Departs(depth: nat, onward: Path)    // it leaves the path there, with `onward` still to go

  function Follow(parent: Path, depth: nat, target: Path): (course: Course)
    requires depth <= |parent| && parent != []
    ensures course.Stays? ==> course.depth <= |parent|
    ensures course.Departs? ==>
              && 0 < course.depth <= |parent| && course.onward != [] && course.onward[0] != ".."
              && (course.depth < |parent| ==> course.onward[0] != parent[course.depth])
    decreases |target|
  {
    if target == [] then Stays(depth)
    else if target[0] == ".." then
      if depth == 0 then ClimbsOut else Follow(parent, depth - 1, target[1..])
    else if depth < |parent| && target[0] == parent[depth] then Follow(parent, depth + 1, target[1..])
    else if depth == 0 then LeavesRoot
    else Departs(depth, target)
  }

  lemma {:induction false} OnwardIsLeft(parent: Path, depth: nat, target: Path)
    requires depth <= |parent| && parent != []
    ensures var course := Follow(parent, depth, target);
            course.Departs? ==> forall c :: c in course.onward ==> c in target
    decreases |target|
  {
    if target != [] {
      if target[0] == ".." {
        if depth > 0 {
          OnwardIsLeft(parent, depth - 1, target[1..]);
        }
      } else if depth < |parent| && target[0] == parent[depth] {
        OnwardIsLeft(parent, depth + 1, target[1..]);
      }
    }
  }

  // One component of a walk that is on the directory's path.
  lemma WalkOnPath(
    links: Links, root: string, parent: Path, depth: nat, target: Path, rest: Path, hops: nat)
    requires depth <= |parent| && parent != [] && parent[0] == root && ".." !in parent && LinkFree(links, parent)
    requires target != []
    ensures var walked := Walk(links, root, parent[..depth], target + rest, hops);
            if target[0] == ".." then
              walked == if depth == 0 then LeftRoot
                        else Walk(links, root, parent[..depth - 1], target[1..] + rest, hops)
            else if depth < |parent| && target[0] == parent[depth] then
              walked == Walk(links, root, parent[..depth + 1], target[1..] + rest, hops)
            else depth == 0 ==> walked == LeftRoot
  {
    hide IsLink;
    assert (target + rest)[0] == target[0] && (target + rest)[1..] == target[1..] + rest;
    var at := parent[..depth];
    if target[0] == ".." {
      assert depth > 0 ==> at[..|at| - 1] == parent[..depth - 1];
    } else if depth < |parent| && target[0] == parent[depth] {
      assert at + [target[0]] == parent[..depth + 1];
    }
  }

  lemma {:induction false} FollowIsWalk(
    links: Links, root: string, parent: Path, depth: nat, target: Path, rest: Path, hops: nat)
    requires depth <= |parent| && parent != [] && parent[0] == root && ".." !in parent && LinkFree(links, parent)
    ensures var course := Follow(parent, depth, target);
            var walked := Walk(links, root, parent[..depth], target + rest, hops);
            match course
            case Stays(d) => walked == Walk(links, root, parent[..d], rest, hops)
            case Departs(d, onward) => walked == Walk(links, root, parent[..d], onward + rest, hops)
            case _ => walked == LeftRoot
    decreases |target|
  {
    hide Walk, LinkFree, IsLink;
    if target == [] {
      assert target + rest == rest;
    } else {
      WalkOnPath(links, root, parent, depth, target, rest, hops);
      if target[0] == ".." {
        if depth > 0 {
          FollowIsWalk(links, root, parent, depth - 1, target[1..], rest, hops);
        }
      } else if depth < |parent| && target[0] == parent[depth] {
        FollowIsWalk(links, root, parent, depth + 1, target[1..], rest, hops);
      }
    }
  }

  lemma {:induction false} FollowIsNormal(root: string, parent: Path, depth: nat, target: Path)
    requires depth <= |parent| && parent != [] && parent[0] == root && ".." !in parent
    requires root in ACCEPTED_ARCHIVE_ROOTS
    ensures match Follow(parent, depth, target)
            case Stays(d) => Normal(parent[..depth], target) == parent[..d]
            case Departs(d, onward) => Normal(parent[..depth], target) == Normal(parent[..d], onward)
            case ClimbsOut => ".." in Normal(parent[..depth], target)
            case LeavesRoot => true
    decreases |target|
  {
    if target != [] {
      var at := parent[..depth];
      if target[0] == ".." {
        if depth == 0 {
          ClimbedAboveStays([".."], target[1..]);
          assert at + [".."] == [".."];
        } else {
          assert at[..|at| - 1] == parent[..depth - 1] && at[|at| - 1] in parent;
          FollowIsNormal(root, parent, depth - 1, target[1..]);
        }
      } else if depth < |parent| && target[0] == parent[depth] {
        assert at + [target[0]] == parent[..depth + 1];
        FollowIsNormal(root, parent, depth + 1, target[1..]);
      }
    }
  }

  lemma {:induction false} ClimbedAboveStays(stack: Path, rest: Path)
    requires stack != [] && stack[0] == ".."
    ensures ".." in Normal(stack, rest)
    decreases |rest|
  {
    if rest != [] {
      if rest[0] != ".." {
        ClimbedAboveStays(stack + [rest[0]], rest[1..]);
      } else if stack[|stack| - 1] == ".." {
        ClimbedAboveStays(stack + [".."], rest[1..]);
      } else {
        ClimbedAboveStays(stack[..|stack| - 1], rest[1..]);
      }
    }
  }

  lemma UnderDirectory(parent: Path, target: Path)
    requires ".." !in parent && !Absolute(target)
    ensures Under(parent, target) == Normal(parent, target)
  {
    NormalDown([], parent, target);
    assert [] + parent == parent;
  }

  // ---------------------------------------------------------------- the condition

  // The target comes back to the member itself before it climbs over anything.
  predicate MeetsItself(member: Path, course: Course)
    requires member != []
  {
    course.Departs? && course.depth == |member| - 1
    && course.onward != [] && course.onward[0] == member[|member| - 1]
  }

  // What the resolver collapses the target to lies outside the root, or leads through the member
  // itself.
  predicate CannotResolve(root: string, member: Path, target: Path)
    requires member != []
  {
    var lexical := Under(Directory(member), target);
    !Checked(lexical, root) || member <= lexical
  }

  predicate Agreeable(root: string, member: Path, target: Path)
    requires |member| >= 2
  {
    var course := Follow(Directory(member), |member| - 1, target);
    match course
    case Stays(_) => true
    case ClimbsOut => true
    case LeavesRoot => CannotResolve(root, member, target)
    case Departs(_, onward) =>
      ".." !in onward || (MeetsItself(member, course) && CannotResolve(root, member, target))
  }

  // The condition, for a target met on the way to somewhere else: it must not collapse to nothing
  // either, or what is left of the way starts again from the archive's own directory.
  predicate Passable(root: string, path: Path, target: Path)
    requires |path| >= 2
  {
    && Agreeable(root, path, target)
    && (Under(Directory(path), target) == [] ==> Follow(Directory(path), |path| - 1, target).Stays?)
  }

  // The link table of an archive with this member, where every other relative link is passable.
  ghost predicate Table(links: Links, root: string, member: Path, text: string)
    requires member != []
  {
    && Holds(links, member, text)
    && forall path: Path | MemberPath(root, path) && path != member && IsLink(links, path) ::
         Absolute(TargetOf(links, path)) || Passable(root, path, TargetOf(links, path))
  }

  ghost predicate AgreesForAllTables(root: string, member: Path, text: string)
    requires member != []
  {
    forall links, result | Table(links, root, member, text) ::
      Resolve(links, root, Directory(member), Parts(Slashed(text))) == Ok(result)
      <==> Walk(links, root, Directory(member), Parts(Slashed(text)), MAX_SYMLINK_HOPS - 1) == Reached(result)
  }

  // A target whose ".." lead is one.
  lemma LeadingDotsArePassable(root: string, path: Path, target: Path)
    requires MemberPath(root, path) && LeadingDots(target) && !Absolute(target)
    ensures Passable(root, path, target)
  {
    var n, names := SplitLeading(target);
    var parent := Directory(path);
    assert parent[0] == root && parent[..|parent|] == parent && ".." !in parent && root != "/" && root != "//";
    FollowDots(parent, |parent|, n, names);
    UnderLinkFree(parent, target, n, names);
    if n <= |parent| {
      assert parent[..0] + names == names;
      FollowNames(parent, |parent| - n, names);
    }
  }

  // Names alone never climb again.
  lemma {:induction false} FollowNames(parent: Path, depth: nat, names: Path)
    requires depth <= |parent| && parent != [] && ".." !in names
    ensures var course := Follow(parent, depth, names);
            match course
            case Stays(d) => d == depth + |names|
            case ClimbsOut => false
            case LeavesRoot => depth == 0 && names != [] && names[0] != parent[0]
            case Departs(_, onward) => ".." !in onward
    decreases |names|
  {
    if names != [] && depth < |parent| && names[0] == parent[depth] {
      FollowNames(parent, depth + 1, names[1..]);
    }
  }

  lemma {:induction false} FollowDots(parent: Path, depth: nat, n: nat, names: Path)
    requires depth <= |parent| && parent != []
    ensures Follow(parent, depth, Dots(n) + names)
            == if n > depth then ClimbsOut else Follow(parent, depth - n, names)
    decreases n
  {
    if n == 0 {
      assert Dots(n) + names == names;
    } else if depth > 0 {
      assert (Dots(n) + names)[1..] == Dots(n - 1) + names;
      FollowDots(parent, depth - 1, n - 1, names);
    }
  }

  // ---------------------------------------------------------------- where it holds

  // A target that does not climb once it has left the directory's path collapses to what it walks to.
  lemma HarmlessCollapses(links: Links, root: string, member: Path, target: Path)
    requires MemberPath(root, member) && LinkFree(links, Directory(member)) && !Absolute(target)
    requires var course := Follow(Directory(member), |member| - 1, target);
             !course.LeavesRoot? && (course.Departs? ==> ".." !in course.onward)
    ensures Collapses(links, root, Directory(member), target)
  {
    var parent := Directory(member);
    assert parent != [] && parent[0] == root && ".." !in parent;
    hide Walk, Under, Checked, Follow, LinkFree, Components, MemberPath, Directory;
    forall rest: Path, hops: nat | ".." !in rest
      ensures Walk(links, root, parent, target + rest, hops) ==
                if Checked(Under(parent, target) + rest, root)
                then Walk(links, root, [], Under(parent, target) + rest, hops)
                else LeftRoot
    {
      HarmlessStep(links, root, parent, target, rest, hops);
    }
  }

  lemma HarmlessStep(links: Links, root: string, parent: Path, target: Path, rest: Path, hops: nat)
    requires root in ACCEPTED_ARCHIVE_ROOTS && parent != [] && parent[0] == root && ".." !in parent
    requires LinkFree(links, parent) && !Absolute(target) && ".." !in rest
    requires var course := Follow(parent, |parent|, target);
             !course.LeavesRoot? && (course.Departs? ==> ".." !in course.onward)
    ensures Walk(links, root, parent, target + rest, hops) ==
              if Checked(Under(parent, target) + rest, root)
              then Walk(links, root, [], Under(parent, target) + rest, hops)
              else LeftRoot
  {
    assert parent[..|parent|] == parent;
    UnderDirectory(parent, target);
    FollowIsWalk(links, root, parent, |parent|, target, rest, hops);
    FollowIsNormal(root, parent, |parent|, target);
    hide Walk, Normal, IsLink, LinkFree, Under, Follow, Checked;
    match Follow(parent, |parent|, target)
    case Stays(d) =>
      AtTheTop(links, root, parent, d, rest, hops);
    case Departs(d, onward) =>
      NothingToNormalise(parent[..d], onward);
      assert Under(parent, target) + rest == parent[..d] + (onward + rest);
      AtTheTop(links, root, parent, d, onward + rest, hops);
    case ClimbsOut =>
      assert !Checked(Under(parent, target) + rest, root) by {
        OutsideIsNotChecked(Under(parent, target), rest, root);
      }
  }

  lemma OutsideIsNotChecked(path: Path, rest: Path, root: string)
    requires ".." in path
    ensures !Checked(path + rest, root)
  {
  }

  lemma NothingToNormalise(stack: Path, names: Path)
    requires ".." !in names
    ensures Normal(stack, names) == stack + names
  {
    assert names + [] == names;
    NormalDown(stack, names, []);
  }

  lemma PassableIsSound(links: Links, root: string, path: Path, text: string)
    requires MemberPath(root, path) && Holds(links, path, text)
    requires var target := Parts(Slashed(text)); !Absolute(target) && Passable(root, path, target)
    ensures var base, target := Directory(path), Parts(Slashed(text));
            Collapses(links, root, base, target) || Hopeless(links, root, base, target)
  {
    var course := Follow(Directory(path), |path| - 1, Parts(Slashed(text)));
    hide Collapses, Hopeless, Parts, Slashed, LinkFree, MemberPath, CannotResolve, MeetsItself, Follow, Under;
    if course.LeavesRoot? || (course.Departs? && ".." in course.onward) {
      LeadsNowhere(links, root, path, text);
    } else {
      HarmlessCollapses(links, root, path, Parts(Slashed(text)));
    }
  }

  // Every relative link of the archive leads with its "..", or is passable.
  ghost predicate PassableLinks(links: Links, root: string) {
    forall path: Path | IsLink(links, path) && Checked(path, root) && Components(path) ::
      var target := TargetOf(links, path);
      Absolute(target) || LeadingDots(target) || (|path| >= 2 && Passable(root, path, target))
  }

  lemma PassableLinksAreSound(links: Links, root: string)
    requires root in ACCEPTED_ARCHIVE_ROOTS && PassableLinks(links, root)
    ensures SoundLinks(links, root)
  {
    hide Collapses, Hopeless, Passable, LeadingDots, Parts;
    forall path: Path | path != [] && IsLink(links, path) && Checked(path, root) && Components(path)
                        && LinkFree(links, Directory(path)) && !Absolute(TargetOf(links, path))
      ensures Collapses(links, root, Directory(path), TargetOf(links, path))
              || Hopeless(links, root, Directory(path), TargetOf(links, path))
    {
      var target := TargetOf(links, path);
      if LeadingDots(target) {
        LeadingDotsCollapse(links, root, Directory(path), target);
      } else {
        PassableIsSound(links, root, path, links[Name(path)]);
      }
    }
  }

  // With such links, what the member itself meets is all that matters.
  lemma TableIsSound(links: Links, root: string, member: Path, text: string)
    requires MemberPath(root, member) && Table(links, root, member, text)
    requires Collapses(links, root, Directory(member), Parts(Slashed(text)))
    ensures SoundLinks(links, root)
  {
    hide Collapses, Hopeless, Passable, Parts;
    forall path: Path | path != [] && IsLink(links, path) && Checked(path, root) && Components(path)
                        && LinkFree(links, Directory(path)) && !Absolute(TargetOf(links, path))
      ensures Collapses(links, root, Directory(path), TargetOf(links, path))
              || Hopeless(links, root, Directory(path), TargetOf(links, path))
    {
      if Name(path) == Name(member) {
        SameName(path, member);
      } else {
        RootIsNoLink(links, member, path, root);
        PassableIsSound(links, root, path, links[Name(path)]);
      }
    }
  }

  lemma RootIsNoLink(links: Links, member: Path, path: Path, root: string)
    requires |member| >= 2 && member[0] == root && LinkFree(links, Directory(member))
    requires path != [] && path[0] == root && IsLink(links, path)
    ensures |path| >= 2
  {
    hide IsLink;
    assert Directory(member)[..1] == [root];
    assert |path| == 1 ==> path == [root];
  }

  lemma SameName(a: Path, b: Path)
    requires a != [] && b != [] && Components(a) && Components(b) && Name(a) == Name(b)
    ensures a == b
  {
    SplitJoin(a, '/');
    SplitJoin(b, '/');
  }

  // The resolver turns a path through the member into a longer one through the member.
  lemma {:induction false} MemberLoops(links: Links, root: string, member: Path, text: string, tail: Path, rounds: nat)
    requires |member| >= 2 && Holds(links, member, text)
    requires member <= Under(Directory(member), Parts(Slashed(text)))
    ensures ResolveFrom(links, root, member + tail, rounds).Err?
    decreases rounds
  {
    hide *;
    if rounds > 0 {
      var more := Under(Directory(member), Parts(Slashed(text)))[|member|..] + tail;
      MemberIsFirstLink(links, member, text, tail);
      MemberGrows(links, member, text, tail, more);
      OneRound(links, root, member + tail, |member|, member + more, rounds);
      MemberLoops(links, root, member, text, more, rounds - 1);
    } else {
      NoRound(links, root, member + tail);
    }
  }

  lemma NoRound(links: Links, root: string, parts: Path)
    ensures ResolveFrom(links, root, parts, 0).Err?
  {
  }

  lemma OneRound(links: Links, root: string, parts: Path, k: nat, next: Path, rounds: nat)
    requires rounds > 0 && ShortestLink(links, parts, 1) == Some(k) && next == Substituted(links, parts, k)
    ensures ResolveFrom(links, root, parts, rounds)
            == if Checked(next, root) then ResolveFrom(links, root, next, rounds - 1) else Err(Rejection.Escapes)
  {
    hide ShortestLink, Substituted, Checked, IsLink;
  }

  lemma MemberGrows(links: Links, member: Path, text: string, tail: Path, more: Path)
    requires |member| >= 2 && Holds(links, member, text)
    requires member <= Under(Directory(member), Parts(Slashed(text)))
    requires more == Under(Directory(member), Parts(Slashed(text)))[|member|..] + tail
    ensures IsLink(links, (member + tail)[..|member|])
    ensures Substituted(links, member + tail, |member|) == member + more
  {
    hide *;
    MemberIsFirstLink(links, member, text, tail);
    SubstitutedIs(links, member + tail, |member|, Directory(member), Parts(Slashed(text)), tail);
    assert Under(Directory(member), Parts(Slashed(text))) + tail == member + more;
  }

  lemma MemberIsFirstLink(links: Links, member: Path, text: string, tail: Path)
    requires |member| >= 2 && Holds(links, member, text)
    ensures var parts := member + tail;
            && ShortestLink(links, parts, 1) == Some(|member|) && IsLink(links, parts[..|member|])
            && TargetOf(links, parts[..|member|]) == Parts(Slashed(text))
            && parts[..|member| - 1] == Directory(member) && parts[|member|..] == tail
  {
    var parts := member + tail;
    assert parts[..|member|] == member;
    forall k | 1 <= k < |member|
      ensures !IsLink(links, parts[..k])
    {
      assert Directory(member)[..k] == parts[..k];
    }
  }

  // A target that meets its own member never ends.
  lemma {:induction false} WalkLoops(links: Links, root: string, member: Path, text: string, rest: Path, hops: nat)
    requires MemberPath(root, member) && Holds(links, member, text)
    requires |member| >= 2 && MeetsItself(member, Follow(Directory(member), |member| - 1, Parts(Slashed(text))))
    ensures !Walk(links, root, Directory(member), Parts(Slashed(text)) + rest, hops).Reached?
    decreases hops
  {
    hide *;
    var more := MeetsMember(links, root, member, text, Parts(Slashed(text)), rest, hops);
    if hops > 0 {
      WalkLoops(links, root, member, text, more, hops - 1);
    }
  }

  lemma MeetsMember(
    links: Links, root: string, member: Path, text: string, target: Path, rest: Path, hops: nat)
    returns (more: Path)
    requires MemberPath(root, member) && Holds(links, member, text) && target == Parts(Slashed(text))
    requires MeetsItself(member, Follow(Directory(member), |member| - 1, target))
    ensures var walked := Walk(links, root, Directory(member), target + rest, hops);
            && (hops == 0 ==> walked == TooManyLinks)
            && (hops > 0 ==>
                  walked in {LeftRoot, Walk(links, root, Directory(member), target + more, hops - 1)})
  {
    var parent, onward := Directory(member), Follow(Directory(member), |member| - 1, target).onward;
    assert onward != [] && onward[0] == member[|member| - 1];
    InDirectory(links, root, member, text, target);
    assert Follow(parent, |parent|, target) == Departs(|parent|, onward);
    hide *;
    FollowIsWalk(links, root, parent, |parent|, target, rest, hops);
    more := onward[1..] + rest;
    NextIsMember(links, root, member, onward, rest, hops);
  }

  // What the table says of the member and its directory.
  lemma InDirectory(links: Links, root: string, member: Path, text: string, target: Path)
    requires MemberPath(root, member) && Holds(links, member, text) && target == Parts(Slashed(text))
    ensures var parent := Directory(member);
            && parent != [] && parent[..|parent|] == parent && parent[0] == root && ".." !in parent
            && LinkFree(links, parent) && Components(parent)
    ensures IsLink(links, member) && TargetOf(links, member) == target && root in ACCEPTED_ARCHIVE_ROOTS
  {
    hide Parts, Slashed, Name, LinkFree;
    assert Directory(member)[0] == member[0];
  }

  lemma NextIsMember(links: Links, root: string, member: Path, onward: Path, rest: Path, hops: nat)
    requires MemberPath(root, member) && IsLink(links, member)
    requires onward != [] && onward[0] == member[|member| - 1]
    ensures var walked := Walk(links, root, Directory(member), onward + rest, hops);
            && (hops == 0 ==> walked == TooManyLinks)
            && (hops > 0 ==>
                  var target := TargetOf(links, member);
                  walked == if Absolute(target) then LeftRoot
                            else Walk(links, root, Directory(member), target + (onward[1..] + rest), hops - 1))
  {
    hide IsLink, TargetOf, Name;
    assert (onward + rest)[0] == onward[0] && (onward + rest)[1..] == onward[1..] + rest;
    assert Directory(member) + [onward[0]] == member && onward[0] in member;
  }

  // Both reject.
  lemma BothReject(links: Links, root: string, member: Path, text: string)
    requires MemberPath(root, member) && Holds(links, member, text)
    requires var target := Parts(Slashed(text)); var course := Follow(Directory(member), |member| - 1, target);
             CannotResolve(root, member, target) && (course.LeavesRoot? || MeetsItself(member, course))
    ensures Resolve(links, root, Directory(member), Parts(Slashed(text))).Err?
    ensures !Walk(links, root, Directory(member), Parts(Slashed(text)), MAX_SYMLINK_HOPS - 1).Reached?
  {
    var target := Parts(Slashed(text));
    NothingLeft(target);
    NeverReached(links, root, member, text, [], MAX_SYMLINK_HOPS - 1);
    hide Walk, Parts;
    var lexical := Under(Directory(member), target);
    if Checked(lexical, root) {
      assert lexical == member + lexical[|member|..];
      MemberLoops(links, root, member, text, lexical[|member|..], MAX_SYMLINK_HOPS);
    }
  }

  // Whatever follows them, such a target and what it collapses to lead nowhere.
  lemma LeadsNowhere(links: Links, root: string, path: Path, text: string)
    requires MemberPath(root, path) && Holds(links, path, text) && !Absolute(Parts(Slashed(text)))
    requires var target := Parts(Slashed(text)); var course := Follow(Directory(path), |path| - 1, target);
             && CannotResolve(root, path, target) && (course.LeavesRoot? || MeetsItself(path, course))
             && Under(Directory(path), target) != []
    ensures Hopeless(links, root, Directory(path), Parts(Slashed(text)))
  {
    var target := Parts(Slashed(text));
    var lexical := Under(Directory(path), target);
    hide *;
    forall rest: Path, hops: nat | ".." !in rest
      ensures !Walk(links, root, Directory(path), target + rest, hops).Reached?
      ensures Checked(lexical + rest, root) ==> !Walk(links, root, [], lexical + rest, hops).Reached?
    {
      NeverReached(links, root, path, text, rest, hops);
      if Checked(lexical + rest, root) {
        var tail := CheckedLeadsThrough(root, path, target, lexical, rest);
        FromTheTop(links, root, path, text, tail, hops);
      }
    }
  }

  lemma CheckedLeadsThrough(root: string, path: Path, target: Path, lexical: Path, rest: Path) returns (tail: Path)
    requires path != [] && lexical == Under(Directory(path), target) && lexical != []
    requires CannotResolve(root, path, target) && Checked(lexical + rest, root)
    ensures lexical + rest == path + tail
  {
    hide Under, Directory;
    assert (lexical + rest)[0] == lexical[0];
    tail := lexical[|path|..] + rest;
  }

  lemma FromTheTop(links: Links, root: string, path: Path, text: string, tail: Path, hops: nat)
    requires |path| >= 2 && root in ACCEPTED_ARCHIVE_ROOTS
    requires MemberPath(root, path) && Holds(links, path, text) && Checked(path + tail, root)
    requires var course := Follow(Directory(path), |path| - 1, Parts(Slashed(text)));
             course.LeavesRoot? || MeetsItself(path, course)
    ensures !Walk(links, root, [], path + tail, hops).Reached?
  {
    hide *;
    MemberIsMetFirst(links, root, path, text, tail, hops);
    if hops > 0 {
      NeverReached(links, root, path, text, tail, hops - 1);
    }
  }

  lemma MemberIsMetFirst(links: Links, root: string, path: Path, text: string, tail: Path, hops: nat)
    requires |path| >= 2 && Holds(links, path, text) && Checked(path + tail, root) && root in ACCEPTED_ARCHIVE_ROOTS
    ensures var walked := Walk(links, root, [], path + tail, hops);
            walked.Reached? ==>
              hops > 0 && walked == Walk(links, root, Directory(path), Parts(Slashed(text)) + tail, hops - 1)
  {
    var parts := path + tail;
    hide *;
    MemberIsFirstLink(links, path, text, tail);
    assert forall j :: 1 <= j < |path| ==> !IsLink(links, parts[..j]);
    WalkToFirstLink(links, root, parts, |path|, hops);
  }

  lemma NeverReached(links: Links, root: string, member: Path, text: string, rest: Path, hops: nat)
    requires MemberPath(root, member) && Holds(links, member, text)
    requires var course := Follow(Directory(member), |member| - 1, Parts(Slashed(text)));
             course.LeavesRoot? || MeetsItself(member, course)
    ensures !Walk(links, root, Directory(member), Parts(Slashed(text)) + rest, hops).Reached?
  {
    if Follow(Directory(member), |member| - 1, Parts(Slashed(text))).LeavesRoot? {
      LeavesAtOnce(links, root, member, Parts(Slashed(text)), rest, hops);
    } else {
      hide *;
      WalkLoops(links, root, member, text, rest, hops);
    }
  }

  lemma NothingLeft(target: Path)
    ensures target + [] == target
  {
  }

  lemma LeavesAtOnce(links: Links, root: string, member: Path, target: Path, rest: Path, hops: nat)
    requires MemberPath(root, member) && LinkFree(links, Directory(member))
    requires Follow(Directory(member), |member| - 1, target).LeavesRoot?
    ensures Walk(links, root, Directory(member), target + rest, hops) == LeftRoot
  {
    var parent := Directory(member);
    assert parent[..|parent|] == parent && parent[0] == member[0] && ".." !in parent;
    hide Walk, LinkFree, IsLink;
    FollowIsWalk(links, root, parent, |parent|, target, rest, hops);
  }

  // ---------------------------------------------------------------- where it fails: the member alone

  // The member is the only link; the resolver succeeds where the walk cannot.
  lemma MemberAloneDisagrees(root: string, member: Path, text: string) returns (links: Links, result: Path)
    requires MemberPath(root, member) && Components(Parts(Slashed(text)))
    requires var target := Parts(Slashed(text)); var course := Follow(Directory(member), |member| - 1, target);
             !CannotResolve(root, member, target) && (course.LeavesRoot? || MeetsItself(member, course))
    ensures links == map[Name(member) := text] && Table(links, root, member, text)
    ensures Resolve(links, root, Directory(member), Parts(Slashed(text))) == Ok(result)
    ensures result == Under(Directory(member), Parts(Slashed(text)))
    ensures !Walk(links, root, Directory(member), Parts(Slashed(text)), MAX_SYMLINK_HOPS - 1).Reached?
  {
    var target := Parts(Slashed(text));
    links := map[Name(member) := text];
    result := Under(Directory(member), target);
    UnderKeepsComponents(Directory(member), target);
    assert Components(result);
    OnlyLinkIs(links, member, Directory(member));
    OnlyLinkIs(links, member, result);
    MemberAloneIsTable(links, root, member, text);
    NothingLeft(target);
    NeverReached(links, root, member, text, [], MAX_SYMLINK_HOPS - 1);
    ResolvesToItself(links, root, result, MAX_SYMLINK_HOPS);
  }

  lemma MemberAloneIsTable(links: Links, root: string, member: Path, text: string)
    requires MemberPath(root, member) && links == map[Name(member) := text] && LinkFree(links, Directory(member))
    ensures Table(links, root, member, text)
  {
    hide Parts, Slashed, Name, LinkFree, Passable;
    forall path: Path | MemberPath(root, path) && IsLink(links, path)
      ensures path == member
    {
      SameName(path, member);
    }
  }

  lemma ResolvesToItself(links: Links, root: string, parts: Path, rounds: nat)
    requires LinkFree(links, parts) && rounds > 0
    ensures ResolveFrom(links, root, parts, rounds) == Ok(parts)
  {
  }

  lemma OnlyLinkIs(links: Links, member: Path, path: Path)
    requires links.Keys == {Name(member)} && member != [] && Components(member) && Components(path)
    ensures !(member <= path) ==> LinkFree(links, path)
  {
    forall k | 1 <= k <= |path| && IsLink(links, path[..k])
      ensures member <= path
    {
      SameName(path[..k], member);
    }
  }

  // ---------------------------------------------------------------- a name that occurs nowhere

  function TotalLength(path: Path): nat {
    if path == [] then 0 else |path[0]| + TotalLength(path[1..])
  }

  predicate Plain(name: string) {
    name != "" && forall c :: c in name ==> c == 'x'
  }

  function NovelName(path: Path): (novel: string)
    ensures Plain(novel)
  {
    seq(TotalLength(path) + 1, _ => 'x')
  }

  lemma {:induction false} ComponentsAreShort(path: Path, c: string)
    requires c in path
    ensures |c| <= TotalLength(path)
  {
    if path[0] != c {
      assert c in path[1..];
      ComponentsAreShort(path[1..], c);
    }
  }

  lemma NovelNameIsNew(path: Path)
    ensures NovelName(path) !in path
  {
    if NovelName(path) in path {
      ComponentsAreShort(path, NovelName(path));
    }
  }

  lemma PlainIsComponent(novel: string)
    requires Plain(novel)
    ensures novel !in {"", ".", "..", "/", "//"} && Free(novel, '/') && Free(novel, '\\')
  {
    assert novel[0] in novel;
  }

  function Repeated(name: string, depth: nat): Path {
    seq(depth, _ => name)
  }

  // Joining components spells a target that parses back into them.
  lemma SpelledTarget(target: Path)
    requires forall c :: c in target ==> c !in {"", "."} && Free(c, '/') && Free(c, '\\')
    ensures Parts(Slashed(Join(target, '/'))) == target
  {
    var text := Join(target, '/');
    JoinCharacters(target, '/');
    assert '\\' !in text;
    assert Slashed(text) == text;
    if target == [] {
      assert Split("", '/') == [""] && [""][1..] == [];
    } else {
      SplitJoin(target, '/');
      assert target[0][0] in target[0] && text[0] == target[0][0];
    }
  }

  // ---------------------------------------------------------------- where it fails: one more link

  // The member and the peak are links; the peak's leads `depth` directories down from where it
  // stands, along a name that occurs in neither.
  ghost predicate Detour(links: Links, member: Path, peak: Path, novel: string, depth: nat) {
    && |peak| >= 2 && member != [] && !(member <= peak) && depth > 0
    && Components(peak) && Components(member) && novel !in peak && novel !in member && Plain(novel)
    && IsLink(links, peak) && TargetOf(links, peak) == Repeated(novel, depth)
    && forall path: Path :: path != [] && Components(path) && IsLink(links, path) ==> path == peak || path == member
  }

  lemma NotPrefix(a: Path, b: Path, k: nat)
    ensures k < |a| && (k < |b| ==> a[k] != b[k]) ==> !(a <= b)
  {
  }

  // Neither the way to the peak nor, by the new name, any way beside it meets a link.
  lemma BesidesThePeak(links: Links, member: Path, peak: Path, novel: string, depth: nat, path: Path, k: nat)
    requires Detour(links, member, peak, novel, depth) && Components(path) && 0 < k <= |path|
    requires if k < |peak| then path[..k] == peak[..k] else path[|peak| - 1] == novel
    ensures !IsLink(links, path[..k])
  {
    var prefix := path[..k];
    assert Components(prefix);
    if k >= |peak| {
      assert prefix[|peak| - 1] == novel;
    }
  }

  // The name occurs, but not at this place.
  predicate OccursElsewhere(path: Path, novel: string, k: nat) {
    novel in path && (|path| <= k || path[k] != novel)
  }

  // The name occurs at this place, or nowhere.
  predicate OccursHereOrNowhere(path: Path, novel: string, k: nat) {
    novel !in path || (|path| > k && path[k] == novel)
  }

  predicate Lacks(path: Path, novel: string) {
    novel !in path
  }

  // Below the detour's first directory there are no links, and the walk never climbs out of it.
  lemma {:induction false} WalkStaysBelow(
    links: Links, member: Path, peak: Path, novel: string, depth: nat,
    root: string, at: Path, rest: Path, hops: nat, k: nat)
    requires Detour(links, member, peak, novel, depth) && peak[0] == root
    requires Components(at) && Components(rest) && Lacks(rest, novel)
    requires |at| >= |peak| + |rest| && at[..|peak|] == peak[..|peak| - 1] + [novel]
    requires |at| <= k || at[k] != novel
    ensures var walked := Walk(links, root, at, rest, hops);
            walked.Reached? && OccursElsewhere(walked.path, novel, k)
    decreases |rest|
  {
    assert at[|peak| - 1] == at[..|peak|][|peak| - 1] == novel;
    assert at[0] == at[..|peak|][0] == root;
    if rest != [] && rest[0] == ".." {
      assert at[..|at| - 1][..|peak|] == at[..|peak|];
      hide Detour, IsLink;
      WalkStaysBelow(links, member, peak, novel, depth, root, at[..|at| - 1], rest[1..], hops, k);
    } else if rest != [] {
      var next := at + [rest[0]];
      assert next[|peak| - 1] == novel && next[..|peak|] == at[..|peak|];
      assert !IsLink(links, next) by {
        assert novel in next && novel !in peak && novel !in member;
      }
      hide Detour, IsLink;
      WalkStaysBelow(links, member, peak, novel, depth, root, next, rest[1..], hops, k);
    }
  }

  // The walk goes down to the peak, follows the link, climbs one directory and goes on.
  lemma WalkTakesDetour(
    links: Links, member: Path, peak: Path, novel: string, depth: nat,
    root: string, base: Path, names: Path, rest: Path)
    requires Detour(links, member, peak, novel, depth) && peak[0] == root
    requires base + names == peak && names != [] && ".." !in names
    ensures Walk(links, root, base, names + ([".."] + rest), 7)
            == Walk(links, root, Directory(peak) + Repeated(novel, depth - 1), rest, 6)
  {
    var last := |names| - 1;
    var down, onward := names[..last], [names[last]] + ([".."] + rest);
    assert names + ([".."] + rest) == down + onward;
    assert base + down == Directory(peak) && peak[|peak| - 1] == names[last];
    ReachesPeak(links, member, peak, novel, depth, root, base, down, onward);
    FollowsLink(links, member, peak, novel, depth, root, rest);
    DownTheDetour(links, member, peak, novel, depth, root, rest);
  }

  lemma ReachesPeak(
    links: Links, member: Path, peak: Path, novel: string, depth: nat,
    root: string, base: Path, down: Path, onward: Path)
    requires Detour(links, member, peak, novel, depth) && peak[0] == root
    requires base + down == Directory(peak) && ".." !in down
    ensures Walk(links, root, base, down + onward, 7) == Walk(links, root, Directory(peak), onward, 7)
  {
    var up := Directory(peak);
    assert up[0] == peak[0] && Components(up);
    forall k | |base| < k <= |up|
      ensures !IsLink(links, up[..k])
    {
      assert up[..k] == peak[..k];
      BesidesThePeak(links, member, peak, novel, depth, up, k);
    }
    hide Walk, IsLink, Detour;
    WalkDown(links, root, base, down, onward, 7);
  }

  lemma FollowsLink(
    links: Links, member: Path, peak: Path, novel: string, depth: nat, root: string, rest: Path)
    requires Detour(links, member, peak, novel, depth) && peak[0] == root && peak[|peak| - 1] != ".."
    ensures Walk(links, root, Directory(peak), [peak[|peak| - 1]] + ([".."] + rest), 7)
            == Walk(links, root, Directory(peak), Repeated(novel, depth) + ([".."] + rest), 6)
  {
    var up, onward := Directory(peak), [peak[|peak| - 1]] + ([".."] + rest);
    PlainIsComponent(novel);
    assert !Absolute(Repeated(novel, depth));
    assert IsLink(links, peak) && TargetOf(links, peak) == Repeated(novel, depth);
    hide IsLink, TargetOf, Detour;
    assert up + [onward[0]] == peak && onward[1..] == [".."] + rest;
  }

  lemma DownTheDetour(
    links: Links, member: Path, peak: Path, novel: string, depth: nat, root: string, rest: Path)
    requires Detour(links, member, peak, novel, depth) && peak[0] == root
    ensures Walk(links, root, Directory(peak), Repeated(novel, depth) + ([".."] + rest), 6)
            == Walk(links, root, Directory(peak) + Repeated(novel, depth - 1), rest, 6)
  {
    var up, names := Directory(peak), Repeated(novel, depth);
    var deep := up + names;
    PlainIsComponent(novel);
    assert ".." !in names && deep[0] == peak[0] && Components(deep);
    forall k | |up| < k <= |deep|
      ensures !IsLink(links, deep[..k])
    {
      BesidesThePeak(links, member, peak, novel, depth, deep, k);
    }
    hide IsLink, Detour;
    WalkDown(links, root, up, names, [".."] + rest, 6);
    assert deep[..|deep| - 1] == up + Repeated(novel, depth - 1);
    assert ([".."] + rest)[1..] == rest;
  }

  // A path with neither link on it resolves to itself.
  lemma NoLinkOnTheWay(
    links: Links, member: Path, peak: Path, novel: string, depth: nat, parts: Path, root: string, rounds: nat)
    requires Detour(links, member, peak, novel, depth) && Components(parts) && rounds > 0
    requires !(peak <= parts) && !(member <= parts)
    ensures ResolveFrom(links, root, parts, rounds) == Ok(parts)
  {
    forall k | 1 <= k <= |parts|
      ensures !IsLink(links, parts[..k])
    {
      assert Components(parts[..k]);
    }
  }

  // Whatever the resolver returns, either knows nothing of the detour or went all the way down it.
  lemma ResolvedIgnoresOrDescends(
    links: Links, member: Path, peak: Path, novel: string, depth: nat, parts: Path, root: string)
    requires Detour(links, member, peak, novel, depth) && Components(parts) && Checked(parts, root)
    requires novel !in parts && !(member <= parts)
    ensures var resolved := ResolveFrom(links, root, parts, MAX_SYMLINK_HOPS);
            resolved.Ok? ==> OccursHereOrNowhere(resolved.value, novel, |peak| + depth - 2)
  {
    if peak <= parts {
      DescendsTheDetour(links, member, peak, novel, depth, parts, root);
    } else {
      NoLinkOnTheWay(links, member, peak, novel, depth, parts, root, MAX_SYMLINK_HOPS);
    }
  }

  lemma DescendsTheDetour(
    links: Links, member: Path, peak: Path, novel: string, depth: nat, parts: Path, root: string)
    requires Detour(links, member, peak, novel, depth) && Components(parts) && Checked(parts, root)
    requires peak <= parts && !(member <= parts)
    ensures ResolveFrom(links, root, parts, MAX_SYMLINK_HOPS)
            == Ok(Directory(peak) + Repeated(novel, depth) + parts[|peak|..])
  {
    var next := Directory(peak) + Repeated(novel, depth) + parts[|peak|..];
    PeakIsShortestLink(links, member, peak, novel, depth, parts);
    UnderTheDirectory(links, member, peak, novel, depth, parts);
    NextIsChecked(links, member, peak, novel, depth, parts, root, next);
    hide Checked, Components, Detour, IsLink, ShortestLink, Under, TargetOf, Repeated;
    assert Substituted(links, parts, |peak|) == next;
    NoLinkOnTheWay(links, member, peak, novel, depth, next, root, MAX_SYMLINK_HOPS - 1);
  }

  lemma PeakIsShortestLink(
    links: Links, member: Path, peak: Path, novel: string, depth: nat, parts: Path)
    requires Detour(links, member, peak, novel, depth) && Components(parts)
    requires peak <= parts && !(member <= parts)
    ensures ShortestLink(links, parts, 1) == Some(|peak|) && IsLink(links, parts[..|peak|])
    ensures TargetOf(links, parts[..|peak|]) == Repeated(novel, depth)
  {
    assert parts[..|peak|] == peak;
    forall k | 1 <= k < |peak|
      ensures !IsLink(links, parts[..k])
    {
      assert Components(parts[..k]);
    }
    assert IsLink(links, parts[..|peak|]);
    hide IsLink, Detour;
    assert ShortestLink(links, parts, 1) == Some(|peak|);
  }

  lemma NextIsChecked(
    links: Links, member: Path, peak: Path, novel: string, depth: nat, parts: Path, root: string, next: Path)
    requires Detour(links, member, peak, novel, depth) && Components(parts) && Checked(parts, root)
    requires peak <= parts && !(member <= parts)
    requires next == Directory(peak) + Repeated(novel, depth) + parts[|peak|..]
    ensures Checked(next, root) && Components(next) && !(peak <= next) && !(member <= next)
  {
    PlainIsComponent(novel);
    assert next[0] == peak[0] == parts[0];
    assert next[|peak| - 1] == novel && peak[|peak| - 1] in peak;
    if |member| >= |peak| {
      NotPrefix(member, next, |peak| - 1);
    } else {
      assert next[..|member|] == peak[..|member|] == parts[..|member|];
    }
  }

  lemma UnderTheDirectory(
    links: Links, member: Path, peak: Path, novel: string, depth: nat, parts: Path)
    requires Detour(links, member, peak, novel, depth) && peak <= parts && ".." !in parts
    ensures Under(parts[..|peak| - 1], Repeated(novel, depth)) == Directory(peak) + Repeated(novel, depth)
  {
    var up, names := Directory(peak), Repeated(novel, depth);
    assert parts[..|peak| - 1] == up;
    PlainIsComponent(novel);
    NormalDown([], up + names, []);
    assert up + names + [] == up + names && [] + (up + names) == up + names;
  }

  // ---------------------------------------------------------------- both sides

  // The names before the first climb, and what follows it.
  lemma SplitAtClimb(onward: Path) returns (names: Path, rest: Path)
    requires onward != [] && onward[0] != ".." && ".." in onward
    ensures onward == names + ([".."] + rest) && names != [] && ".." !in names
  {
    var n := 1;
    while onward[n] != ".."
      invariant 1 <= n < |onward| && ".." !in onward[..n]
      invariant exists k :: n <= k < |onward| && onward[k] == ".."
      decreases |onward| - n
    {
      assert onward[..n + 1] == onward[..n] + [onward[n]];
      n := n + 1;
    }
    names, rest := onward[..n], onward[n + 1..];
    assert onward == onward[..n] + ([onward[n]] + onward[n + 1..]);
  }

  // A table of two links.
  lemma PairTable(root: string, member: Path, text: string, peak: Path, peakText: string) returns (links: Links)
    requires MemberPath(root, member) && |peak| >= 2 && Components(peak) && ".." !in peak
    requires peak != member && !(peak <= Directory(member))
    requires ".." !in Parts(Slashed(peakText)) && !Absolute(Parts(Slashed(peakText)))
    ensures links == map[Name(member) := text, Name(peak) := peakText]
    ensures Table(links, root, member, text) && LinkFree(links, Directory(member))
    ensures IsLink(links, peak) && TargetOf(links, peak) == Parts(Slashed(peakText))
    ensures forall path: Path | path != [] && Components(path) && IsLink(links, path) :: path == peak || path == member
  {
    hide Name, Parts, Slashed;
    links := map[Name(member) := text, Name(peak) := peakText];
    if Name(member) == Name(peak) {
      SameName(member, peak);
    }
    forall path: Path | path != [] && Components(path) && IsLink(links, path)
      ensures path == peak || path == member
    {
      if Name(path) == Name(member) {
        SameName(path, member);
      } else {
        SameName(path, peak);
      }
    }
    var parent := Directory(member);
    forall k | 1 <= k <= |parent|
      ensures !IsLink(links, parent[..k])
    {
      assert Components(parent[..k]) && parent[..k] != member;
    }
    assert Passable(root, peak, TargetOf(links, peak)) by {
      NamesArePassable(root, peak, TargetOf(links, peak));
    }
  }

  lemma NamesArePassable(root: string, path: Path, names: Path)
    requires |path| >= 2 && ".." !in path && ".." !in names && !Absolute(names)
    ensures Passable(root, path, names)
  {
    var parent := Directory(path);
    assert Follow(parent, |parent|, names) == if names == [] then Stays(|parent|) else Departs(|parent|, names);
    assert names != [] ==> Under(parent, names) != [] by {
      hide Follow;
      NormalDown([], parent, names);
      NothingToNormalise([] + parent, names);
    }
  }

  lemma DetourTable(root: string, member: Path, text: string, peak: Path, novel: string, depth: nat)
    returns (links: Links)
    requires MemberPath(root, member) && |peak| >= 2 && Components(peak) && ".." !in peak && depth > 0
    requires !(member <= peak) && !(peak <= Directory(member))
    requires Plain(novel) && novel !in peak && novel !in member
    ensures Table(links, root, member, text) && Detour(links, member, peak, novel, depth)
    ensures LinkFree(links, Directory(member))
  {
    PlainIsComponent(novel);
    SpelledTarget(Repeated(novel, depth));
    RelativeComponents(Repeated(novel, depth));
    assert ".." !in Repeated(novel, depth) && Components(member);
    hide Parts, Slashed, Name, IsLink, Table, LinkFree, TargetOf, Components;
    links := PairTable(root, member, text, peak, Join(Repeated(novel, depth), '/'));
  }

  // Where the target climbs over a name of its own, a link there tells the two apart.
  lemma DetourDisagrees(root: string, member: Path, text: string) returns (links: Links, result: Path)
    requires MemberPath(root, member) && Components(Parts(Slashed(text)))
    requires var course := Follow(Directory(member), |member| - 1, Parts(Slashed(text)));
             course.Departs? && ".." in course.onward && !MeetsItself(member, course)
    ensures Table(links, root, member, text)
    ensures Walk(links, root, Directory(member), Parts(Slashed(text)), MAX_SYMLINK_HOPS - 1) == Reached(result)
    ensures Resolve(links, root, Directory(member), Parts(Slashed(text))) != Ok(result)
  {
    var names, rest := SplitAtClimb(Follow(Directory(member), |member| - 1, Parts(Slashed(text))).onward);
    links, result := DetourAt(root, member, text, Parts(Slashed(text)), names, rest);
  }

  lemma DetourAt(root: string, member: Path, text: string, target: Path, names: Path, rest: Path)
    returns (links: Links, result: Path)
    requires MemberPath(root, member) && Components(target) && target == Parts(Slashed(text))
    requires names != [] && ".." !in names
    requires var course := Follow(Directory(member), |member| - 1, target);
             course.Departs? && !MeetsItself(member, course) && course.onward == names + ([".."] + rest)
    ensures Table(links, root, member, text)
    ensures Walk(links, root, Directory(member), target, MAX_SYMLINK_HOPS - 1) == Reached(result)
    ensures Resolve(links, root, Directory(member), target) != Ok(result)
  {
    assert |member| >= 2;
    hide *;
    var peak := Directory(member)[..Follow(Directory(member), |member| - 1, target).depth] + names;
    var novel := NovelName(member + target);
    PeakIsAside(root, member, target, names, rest, peak, novel);
    links := DetourTable(root, member, text, peak, novel, |rest| + 2);
    result := DetourTells(links, root, member, text, target, names, rest, peak, novel);
  }

  lemma DetourTells(
    links: Links, root: string, member: Path, text: string, target: Path,
    names: Path, rest: Path, peak: Path, novel: string) returns (result: Path)
    requires MemberPath(root, member) && Components(target) && target == Parts(Slashed(text))
    requires |member| >= 2 && Holds(links, member, text) && LinkFree(links, Directory(member))
    requires |peak| >= 2 && Detour(links, member, peak, novel, |rest| + 2) && peak[0] == root
    requires var course := Follow(Directory(member), |member| - 1, target);
             && course.Departs? && course.onward == names + ([".."] + rest)
             && peak == Directory(member)[..course.depth] + names
    requires names != [] && ".." !in names && Components(rest)
    requires Lacks(rest, novel) && Lacks(member + target, novel)
    ensures Walk(links, root, Directory(member), target, MAX_SYMLINK_HOPS - 1) == Reached(result)
    ensures Resolve(links, root, Directory(member), target) != Ok(result)
  {
    hide *;
    WalkedAlong(links, root, member, target, peak, novel, names, rest);
    ResolvedAway(links, root, member, text, target, peak, novel, |rest| + 2);
    result := Compared(links, root, Directory(member), target, novel, |peak| + |rest|);
  }

  lemma Compared(links: Links, root: string, parent: Path, target: Path, novel: string, k: nat)
    returns (result: Path)
    requires var walked := Walk(links, root, parent, target, 7);
             walked.Reached? && OccursElsewhere(walked.path, novel, k)
    requires var resolved := Resolve(links, root, parent, target);
             resolved.Ok? ==> OccursHereOrNowhere(resolved.value, novel, k)
    ensures Walk(links, root, parent, target, MAX_SYMLINK_HOPS - 1) == Reached(result)
    ensures Resolve(links, root, parent, target) != Ok(result)
  {
    hide Walk, Resolve;
    result := Walk(links, root, parent, target, 7).path;
  }

  lemma PeakIsAside(
    root: string, member: Path, target: Path, names: Path, rest: Path, peak: Path, novel: string)
    requires MemberPath(root, member) && Components(target) && names != [] && ".." !in names
    requires var course := Follow(Directory(member), |member| - 1, target);
             && course.Departs? && !MeetsItself(member, course) && course.onward == names + ([".."] + rest)
             && peak == Directory(member)[..course.depth] + names
    requires novel == NovelName(member + target)
    ensures |peak| >= 2 && peak[0] == root && Components(peak) && ".." !in peak && Components(rest)
    ensures !(member <= peak) && !(peak <= Directory(member))
    ensures Plain(novel) && novel !in peak && novel !in member && Lacks(rest, novel) && Lacks(member + target, novel)
  {
    var parent, course := Directory(member), Follow(Directory(member), |member| - 1, target);
    var d := course.depth;
    NovelNameIsNew(member + target);
    OnwardIsLeft(parent, |parent|, target);
    assert forall c :: c in rest || c in names ==> c in course.onward;
    assert forall c :: c in course.onward ==> c in target;
    assert forall c :: c in peak ==> c in member || c in names;
    assert course.onward[0] == names[0] == peak[d];
    assert peak[0] == member[0] && (d < |parent| ==> parent[d] == member[d]);
    NotPrefix(peak, parent, d);
    NotPrefix(member, peak, d);
  }

  lemma WalkedAlong(
    links: Links, root: string, member: Path, target: Path, peak: Path, novel: string, names: Path, rest: Path)
    requires |member| >= 2 && MemberPath(root, member) && LinkFree(links, Directory(member))
    requires |peak| >= 2 && Detour(links, member, peak, novel, |rest| + 2) && peak[0] == root
    requires var course := Follow(Directory(member), |member| - 1, target);
             && course.Departs? && course.onward == names + ([".."] + rest)
             && peak == Directory(member)[..course.depth] + names
    requires names != [] && ".." !in names && Components(rest) && Lacks(rest, novel)
    ensures var walked := Walk(links, root, Directory(member), target, 7);
            walked.Reached? && OccursElsewhere(walked.path, novel, |peak| + |rest|)
  {
    hide *;
    var base := Directory(member)[..Follow(Directory(member), |member| - 1, target).depth];
    AtCourse(links, root, member, target, 7);
    assert base + names == peak;
    WalkTakesDetour(links, member, peak, novel, |rest| + 2, root, base, names, rest);
    BelowTheDetour(links, root, member, peak, novel, rest);
  }

  // Following the target from the directory, where it departs.
  lemma AtCourse(links: Links, root: string, member: Path, target: Path, hops: nat)
    requires MemberPath(root, member) && LinkFree(links, Directory(member))
    requires Follow(Directory(member), |member| - 1, target).Departs?
    ensures var course := Follow(Directory(member), |member| - 1, target);
            Walk(links, root, Directory(member), target, hops)
            == Walk(links, root, Directory(member)[..course.depth], course.onward, hops)
  {
    var parent := Directory(member);
    assert parent[..|parent|] == parent && parent[0] == member[0] && ".." !in parent;
    NothingLeft(target);
    NothingLeft(Follow(parent, |parent|, target).onward);
    hide *;
    FollowIsWalk(links, root, parent, |parent|, target, [], hops);
  }

  lemma BelowTheDetour(links: Links, root: string, member: Path, peak: Path, novel: string, rest: Path)
    requires Detour(links, member, peak, novel, |rest| + 2) && peak[0] == root
    requires Components(rest) && Lacks(rest, novel)
    ensures var walked := Walk(links, root, Directory(peak) + Repeated(novel, |rest| + 1), rest, 6);
            walked.Reached? && OccursElsewhere(walked.path, novel, |peak| + |rest|)
  {
    var at := Directory(peak) + Repeated(novel, |rest| + 1);
    PlainIsComponent(novel);
    assert at[..|peak|] == peak[..|peak| - 1] + [novel];
    hide Walk, IsLink, Lacks, OccursElsewhere, Name, TargetOf;
    WalkStaysBelow(links, member, peak, novel, |rest| + 2, root, at, rest, 6, |at|);
  }

  lemma ResolvedAway(
    links: Links, root: string, member: Path, text: string, target: Path, peak: Path, novel: string, depth: nat)
    requires MemberPath(root, member) && Holds(links, member, text) && Detour(links, member, peak, novel, depth)
    requires target == Parts(Slashed(text)) && Components(target) && Lacks(member + target, novel)
    ensures var resolved := Resolve(links, root, Directory(member), target);
            resolved.Ok? ==> OccursHereOrNowhere(resolved.value, novel, |peak| + depth - 2)
  {
    var parts := Under(Directory(member), target);
    UnderKeepsComponents(Directory(member), target);
    assert Components(parts) && novel !in parts;
    hide Parts, Under, Detour, Table;
    if Checked(parts, root) {
      if member <= parts {
        assert parts == member + parts[|member|..];
        MemberLoops(links, root, member, text, parts[|member|..], MAX_SYMLINK_HOPS);
      } else {
        ResolvedIgnoresOrDescends(links, member, peak, novel, depth, parts, root);
      }
    }
  }

  // For every member and every relative target: resolver and pathname resolution agree in all
  // archives with this member whose other links are passable, exactly when the condition holds.
  lemma AgreesExactly(root: string, member: Path, text: string)
    requires MemberPath(root, member) && Components(Parts(Slashed(text)))
    ensures AgreesForAllTables(root, member, text) <==> Agreeable(root, member, Parts(Slashed(text)))
  {
    hide Parts, Walk, Resolve, Agreeable, Table;
    if Agreeable(root, member, Parts(Slashed(text))) {
      forall links, result | Table(links, root, member, text)
        ensures Resolve(links, root, Directory(member), Parts(Slashed(text))) == Ok(result)
                <==> Walk(links, root, Directory(member), Parts(Slashed(text)), MAX_SYMLINK_HOPS - 1) == Reached(result)
      {
        AgreesInTable(links, root, member, text, result);
      }
    } else {
      var links, result := SomeTableDisagrees(root, member, text);
    }
  }

  lemma SomeTableDisagrees(root: string, member: Path, text: string) returns (links: Links, result: Path)
    requires MemberPath(root, member) && Components(Parts(Slashed(text)))
    requires !Agreeable(root, member, Parts(Slashed(text)))
    ensures Table(links, root, member, text)
    ensures (Resolve(links, root, Directory(member), Parts(Slashed(text))) == Ok(result))
         != (Walk(links, root, Directory(member), Parts(Slashed(text)), MAX_SYMLINK_HOPS - 1) == Reached(result))
  {
    assert |member| >= 2;
    hide Parts, Walk, Resolve, Table, Follow, Components, CannotResolve, MemberPath;
    var course := Follow(Directory(member), |member| - 1, Parts(Slashed(text)));
    if course.LeavesRoot? || MeetsItself(member, course) {
      links, result := MemberAloneDisagrees(root, member, text);
    } else {
      links, result := DetourDisagrees(root, member, text);
    }
  }

  lemma AgreesInTable(links: Links, root: string, member: Path, text: string, result: Path)
    requires |member| >= 2 && MemberPath(root, member) && Table(links, root, member, text)
    requires Components(Parts(Slashed(text))) && Agreeable(root, member, Parts(Slashed(text)))
    ensures Resolve(links, root, Directory(member), Parts(Slashed(text))) == Ok(result)
            <==> Walk(links, root, Directory(member), Parts(Slashed(text)), MAX_SYMLINK_HOPS - 1) == Reached(result)
  {
    assert Holds(links, member, text);
    hide Parts, Slashed, Walk, Resolve, MemberPath, Table, Holds, Components, CannotResolve, MeetsItself, Follow;
    hide Directory;
    var course := Follow(Directory(member), |member| - 1, Parts(Slashed(text)));
    if course.LeavesRoot? || (course.Departs? && ".." in course.onward) {
      BothReject(links, root, member, text);
    } else {
      InDirectory(links, root, member, text, Parts(Slashed(text)));
      RelativeComponents(Parts(Slashed(text)));
      HarmlessCollapses(links, root, member, Parts(Slashed(text)));
      TableIsSound(links, root, member, text);
      SoundIsResolving(links, root, Directory(member), Parts(Slashed(text)), result);
    }
  }

  // An input that needs no other link: the target leaves the root and comes back, which the resolver
  // collapses away.
  lemma LeavingTheRootDisagrees()
    ensures var member, text := ["one-link", "m"], "../x/../one-link/f"; var links := map[Name(member) := text];
            && Table(links, "one-link", member, text)
            && Resolve(links, "one-link", Directory(member), Parts(Slashed(text))) == Ok(["one-link", "f"])
            && !Walk(links, "one-link", Directory(member), Parts(Slashed(text)), MAX_SYMLINK_HOPS - 1).Reached?
  {
    var member, target, text := ["one-link", "m"], ["..", "x", "..", "one-link", "f"], "../x/../one-link/f";
    TextOfTarget();
    CollapsedTarget();
    hide Parts, Walk, Name, Resolve, Under, Slashed, Table;
    assert Directory(member) == ["one-link"] && Components(target) && MemberPath("one-link", member);
    assert target[1..] == ["x", "..", "one-link", "f"];
    assert Follow(["one-link"], 1, target) == LeavesRoot;
    assert Checked(["one-link", "f"], "one-link") && ["one-link", "f"][1] != member[1];
    var links, result := MemberAloneDisagrees("one-link", member, text);
  }

  lemma CollapsedTarget()
    ensures Under(["one-link"], ["..", "x", "..", "one-link", "f"]) == ["one-link", "f"]
  {
    var root, target := ["one-link"], ["..", "x", "..", "one-link", "f"];
    UnderDirectory(root, target);
    assert target[1..] == ["x", "..", "one-link", "f"] && root[..0] == [];
    assert target[1..][1..] == ["..", "one-link", "f"] && ["x"][..0] == [];
    assert ["..", "one-link", "f"][1..] == ["one-link", "f"] && [] + ["x"] == ["x"];
    NothingToNormalise([], ["one-link", "f"]);
    assert Normal(["x"], ["..", "one-link", "f"]) == ["one-link", "f"];
    assert Normal([], target[1..]) == ["one-link", "f"];
  }

  lemma TextOfTarget()
    ensures Parts(Slashed("../x/../one-link/f")) == ["..", "x", "..", "one-link", "f"]
  {
    var target := ["..", "x", "..", "one-link", "f"];
    assert target[1..] == ["x", "..", "one-link", "f"];
    assert Join(["..", "one-link", "f"], '/') == "../one-link/f" by {
      assert ["..", "one-link", "f"][1..] == ["one-link", "f"] && ["one-link", "f"][1..] == ["f"];
      assert Join(["one-link", "f"], '/') == "one-link/f";
    }
    assert ["x", "..", "one-link", "f"][1..] == ["..", "one-link", "f"];
    assert Join(target[1..], '/') == "x/../one-link/f";
    assert Join(target, '/') == "../x/../one-link/f";
    hide Parts, Slashed, Join;
    SpelledTarget(target);
  }

  // An input with one more link: the target climbs out of a link, the resolver out of the link's name.
  const CLIMBING_LINKS: Links := map["one-link/m" := "d/../f", "one-link/d" := "e/g"]

  lemma ClimbingOutOfALinkDisagrees()
    ensures var member, target := ["one-link", "m"], Parts(Slashed("d/../f"));
            && Table(CLIMBING_LINKS, "one-link", member, "d/../f")
            && Resolve(CLIMBING_LINKS, "one-link", Directory(member), target) == Ok(["one-link", "f"])
            && Walk(CLIMBING_LINKS, "one-link", Directory(member), target, MAX_SYMLINK_HOPS - 1)
               == Reached(["one-link", "e", "f"])
  {
    assert Directory(["one-link", "m"]) == ["one-link"];
    hide *;
    ClimbingText();
    ClimbingTable();
    CollapsesToF(CLIMBING_LINKS);
    ClimbsToEF(CLIMBING_LINKS, MAX_SYMLINK_HOPS - 1);
  }

  lemma ClimbingNames()
    ensures Name(["one-link", "m"]) == "one-link/m" && Name(["one-link", "d"]) == "one-link/d"
    ensures Name(["one-link", "n"]) == "one-link/n"
  {
    assert ["one-link", "m"][1..] == ["m"] && ["one-link", "d"][1..] == ["d"] && ["one-link", "n"][1..] == ["n"];
  }

  lemma ClimbingText()
    ensures Parts(Slashed("d/../f")) == ["d", "..", "f"]
  {
    var target := ["d", "..", "f"];
    assert target[1..] == ["..", "f"] && ["..", "f"][1..] == ["f"];
    assert Join(target, '/') == "d/../f";
    hide Parts, Slashed, Join;
    SpelledTarget(target);
  }

  lemma LinkText()
    ensures Parts(Slashed("e/g")) == ["e", "g"]
  {
    assert ["e", "g"][1..] == ["g"] && Join(["e", "g"], '/') == "e/g";
    hide Parts, Slashed, Join;
    SpelledTarget(["e", "g"]);
  }

  lemma ClimbingTable()
    ensures Table(CLIMBING_LINKS, "one-link", ["one-link", "m"], "d/../f") && LinkD(CLIMBING_LINKS)
  {
    ClimbingNames();
    LinkText();
    hide Parts, Slashed, Name, IsLink, Table, TargetOf;
    var member, peak := ["one-link", "m"], ["one-link", "d"];
    assert MemberPath("one-link", member) && Directory(member) == ["one-link"];
    var links := PairTable("one-link", member, "d/../f", peak, "e/g");
    assert links == CLIMBING_LINKS;
  }

  lemma ClimbingCollapsed()
    ensures Under(["one-link"], ["d", "..", "f"]) == ["one-link", "f"]
  {
    UnderDirectory(["one-link"], ["d", "..", "f"]);
    assert ["d", "..", "f"][1..] == ["..", "f"] && ["..", "f"][1..] == ["f"];
    assert ["one-link"] + ["d"] == ["one-link", "d"] && ["one-link", "d"][..1] == ["one-link"];
    NothingToNormalise(["one-link"], ["f"]);
    assert Normal(["one-link", "d"], ["..", "f"]) == ["one-link", "f"];
  }

  // The archive's link d, and no links but d, m and n.
  ghost predicate LinkD(links: Links) {
    && IsLink(links, ["one-link", "d"]) && TargetOf(links, ["one-link", "d"]) == ["e", "g"]
    && forall path: Path | path != [] && Components(path) && IsLink(links, path) ::
         path in {["one-link", "d"], ["one-link", "m"], ["one-link", "n"]}
  }

  lemma NoLinkToF(links: Links)
    requires LinkD(links)
    ensures LinkFree(links, ["one-link", "f"])
  {
    var lexical := ["one-link", "f"];
    hide IsLink, TargetOf;
    assert lexical[..1] == ["one-link"] && lexical[..2] == lexical;
    assert Components(["one-link"]) && Components(lexical);
  }

  lemma CollapsesToF(links: Links)
    requires LinkD(links)
    ensures Resolve(links, "one-link", ["one-link"], ["d", "..", "f"]) == Ok(["one-link", "f"])
  {
    assert Checked(["one-link", "f"], "one-link");
    hide *;
    ClimbingCollapsed();
    NoLinkToF(links);
    ResolvesLexically(links, "one-link", ["one-link"], ["d", "..", "f"], ["one-link", "f"]);
  }

  lemma ResolvesLexically(links: Links, root: string, parent: Path, target: Path, lexical: Path)
    requires Under(parent, target) == lexical && Checked(lexical, root) && LinkFree(links, lexical)
    ensures Resolve(links, root, parent, target) == Ok(lexical)
  {
    hide Under, Checked, LinkFree, ResolveFrom;
    ResolvesToItself(links, root, lexical, MAX_SYMLINK_HOPS);
  }

  lemma ClimbsToEF(links: Links, hops: nat)
    requires LinkD(links) && hops > 0
    ensures Walk(links, "one-link", ["one-link"], ["d", "..", "f"], hops) == Reached(["one-link", "e", "f"])
  {
    var top, onward, after := ["one-link"], ["d", "..", "f"], ["..", "f"];
    assert top + ["d"] == ["one-link", "d"] && onward[1..] == after;
    assert Walk(links, "one-link", top, onward, hops) == Walk(links, "one-link", top, ["e", "g"] + after, hops - 1) by {
      hide IsLink, TargetOf;
    }
    hide *;
    DownToEG(links, hops - 1);
    EndsAtEF(links, hops - 1);
  }

  lemma DownToEG(links: Links, hops: nat)
    requires LinkD(links)
    ensures Walk(links, "one-link", ["one-link"], ["e", "g"] + ["..", "f"], hops)
            == Walk(links, "one-link", ["one-link", "e", "g"], ["..", "f"], hops)
  {
    var deep := ["one-link", "e", "g"];
    hide IsLink, TargetOf, Walk;
    assert Components(deep) && Components(["one-link", "e"]);
    assert ["one-link"] + ["e", "g"] == deep && deep[..2] == ["one-link", "e"] && deep[..3] == deep;
    WalkDown(links, "one-link", ["one-link"], ["e", "g"], ["..", "f"], hops);
  }

  lemma EndsAtEF(links: Links, hops: nat)
    requires LinkD(links)
    ensures Walk(links, "one-link", ["one-link", "e", "g"], ["..", "f"], hops) == Reached(["one-link", "e", "f"])
  {
    var up, there := ["one-link", "e"], ["one-link", "e", "f"];
    assert ["one-link", "e", "g"][..2] == up && ["..", "f"][1..] == ["f"] && up + ["f"] == there;
    hide IsLink, TargetOf;
    assert Components(there);
    assert Walk(links, "one-link", up, ["f"], hops) == Walk(links, "one-link", there, [], hops);
  }

  // What the other links are allowed matters: the same link disagrees when another's target leads
  // through it, although that target meets the condition.
  const CLIMBING_ON_THE_WAY: Links := CLIMBING_LINKS["one-link/n" := "m"]

  lemma LinkOnTheWayDisagrees()
    ensures var member, links := ["one-link", "n"], CLIMBING_ON_THE_WAY;
            && Holds(links, member, "m") && Parts(Slashed("m")) == ["m"] && Agreeable("one-link", member, ["m"])
            && !Passable("one-link", ["one-link", "m"], Parts(Slashed("d/../f")))
            && Resolve(links, "one-link", Directory(member), ["m"]) == Ok(["one-link", "f"])
            && Walk(links, "one-link", Directory(member), ["m"], MAX_SYMLINK_HOPS - 1)
               == Reached(["one-link", "e", "f"])
  {
    var member, links, target := ["one-link", "n"], CLIMBING_ON_THE_WAY, ["d", "..", "f"];
    assert Directory(member) == ["one-link"] && Directory(["one-link", "m"]) == ["one-link"];
    assert Follow(["one-link"], 1, ["m"]) == Departs(1, ["m"]);
    assert Follow(["one-link"], 1, target) == Departs(1, target);
    assert Agreeable("one-link", member, ["m"]) && !Passable("one-link", ["one-link", "m"], target);
    hide *;
    OnTheWayTable();
    ClimbingText();
    ResolvesThroughM();
    WalksThroughM();
  }

  lemma OnTheWayTable()
    ensures Holds(CLIMBING_ON_THE_WAY, ["one-link", "n"], "m") && Parts(Slashed("m")) == ["m"]
    ensures LinkD(CLIMBING_ON_THE_WAY)
    ensures IsLink(CLIMBING_ON_THE_WAY, ["one-link", "m"])
    ensures TargetOf(CLIMBING_ON_THE_WAY, ["one-link", "m"]) == ["d", "..", "f"]
  {
    ClimbingNames();
    ClimbingText();
    TextOfM();
    assert Directory(["one-link", "n"]) == ["one-link"];
    hide Parts, Slashed, Name, Components, LinkD, LinkFree;
    OnTheWayLinks();
    NoLinkAtTop(CLIMBING_ON_THE_WAY);
  }

  lemma OnTheWayLinks()
    ensures LinkD(CLIMBING_ON_THE_WAY)
  {
    ClimbingNames();
    LinkText();
    hide Parts, Slashed, Name;
    forall path: Path | path != [] && Components(path) && IsLink(CLIMBING_ON_THE_WAY, path)
      ensures path in {["one-link", "d"], ["one-link", "m"], ["one-link", "n"]}
    {
      OneOfThree(path);
    }
  }

  lemma OneOfThree(path: Path)
    requires path != [] && Components(path) && Name(path) in CLIMBING_ON_THE_WAY
    ensures path in {["one-link", "d"], ["one-link", "m"], ["one-link", "n"]}
  {
    ClimbingNames();
    assert Components(["one-link", "d"]) && Components(["one-link", "m"]) && Components(["one-link", "n"]);
    hide Name, Components;
    if Name(path) == "one-link/d" {
      SameName(path, ["one-link", "d"]);
    } else if Name(path) == "one-link/m" {
      SameName(path, ["one-link", "m"]);
    } else {
      SameName(path, ["one-link", "n"]);
    }
  }

  lemma NoLinkAtTop(links: Links)
    requires LinkD(links)
    ensures LinkFree(links, ["one-link"])
  {
    hide IsLink, TargetOf;
    assert ["one-link"][..1] == ["one-link"] && Components(["one-link"]);
  }

  lemma TextOfM()
    ensures Parts(Slashed("m")) == ["m"]
  {
    assert Join(["m"], '/') == "m";
    hide Parts, Slashed, Join;
    SpelledTarget(["m"]);
  }

  lemma ResolvesThroughM()
    ensures Resolve(CLIMBING_ON_THE_WAY, "one-link", ["one-link"], ["m"]) == Ok(["one-link", "f"])
  {
    var links, path := CLIMBING_ON_THE_WAY, ["one-link", "m"];
    assert Checked(path, "one-link") && Checked(["one-link", "f"], "one-link") && MAX_SYMLINK_HOPS > 1;
    assert path[..1] == ["one-link"] && path[..2] == path && path[2..] == [];
    assert ["one-link", "f"] + [] == ["one-link", "f"];
    assert Under(["one-link"], ["m"]) == path by {
      UnderDirectory(["one-link"], ["m"]);
      NothingToNormalise(["one-link"], ["m"]);
    }
    hide *;
    OnTheWayTable();
    NoLinkAtTop(links);
    FirstIsM(links, path);
    SubstitutedIs(links, path, 2, ["one-link"], ["d", "..", "f"], []);
    ClimbingCollapsed();
    NoLinkToF(links);
    OneRound(links, "one-link", path, 2, ["one-link", "f"], MAX_SYMLINK_HOPS);
    ResolvesToItself(links, "one-link", ["one-link", "f"], MAX_SYMLINK_HOPS - 1);
    StartsAt(links, "one-link", ["one-link"], ["m"], path);
  }

  lemma FirstIsM(links: Links, path: Path)
    requires |path| == 2 && LinkFree(links, path[..1]) && IsLink(links, path)
    ensures ShortestLink(links, path, 1) == Some(2)
  {
    hide IsLink;
    assert path[..1][..1] == path[..1] && path[..2] == path;
  }

  lemma StartsAt(links: Links, root: string, parent: Path, target: Path, parts: Path)
    requires Under(parent, target) == parts && Checked(parts, root)
    ensures Resolve(links, root, parent, target) == ResolveFrom(links, root, parts, MAX_SYMLINK_HOPS)
  {
  }

  lemma WalksThroughM()
    ensures Walk(CLIMBING_ON_THE_WAY, "one-link", ["one-link"], ["m"], MAX_SYMLINK_HOPS - 1)
            == Reached(["one-link", "e", "f"])
  {
    var links := CLIMBING_ON_THE_WAY;
    assert ["one-link"] + ["m"] == ["one-link", "m"] && ["m"][1..] == [] && ["d", "..", "f"] + [] == ["d", "..", "f"];
    OnTheWayTable();
    hide IsLink, TargetOf, LinkD, Holds, Agreeable, Parts, Slashed;
    ClimbsToEF(links, MAX_SYMLINK_HOPS - 2);
  }
}
