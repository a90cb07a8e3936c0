/** Walking a uv lockfile: which packages are reached, which extras are switched on and which edges
    are recorded.  The worklist is proved to compute the least solution of the closure rules. */
module UvGraph {
  import opened Wrappers
  import opened Sets

  // Names are in normalised spelling.
  datatype Spec = Spec(name: string, version: Option<string>, source: Option<string>, extras: seq<string>)

  datatype Package = Package(
    name: string, version: string, source: string,
    dependencies: seq<Spec>, optional: map<string, seq<Spec>>)

  // A lockfile whose package `root` is the editable project; `initial` are the root's own
  // dependencies, included extras and dependency groups.
  datatype Lock = Lock(packages: seq<Package>, root: nat, initial: seq<Spec>)

  predicate ValidLock(lock: Lock) {
    lock.root < |lock.packages|
  }

  predicate Candidate(package: Package, spec: Spec) {
    && package.name == spec.name
    && (spec.version.Some? ==> package.version == spec.version.value)
    && (spec.source.Some? ==> package.source == spec.source.value)
  }

  function Candidates(lock: Lock, spec: Spec, n: nat): (found: seq<nat>)
    requires n <= |lock.packages|
    ensures forall i: nat :: i in found <==> i < n && Candidate(lock.packages[i], spec)
    ensures forall j, k :: 0 <= j < k < |found| ==> found[j] < found[k]
  {
    if n == 0 then []
    else
      var before := Candidates(lock, spec, n - 1);
      if Candidate(lock.packages[n - 1], spec) then
        assert forall j :: 0 <= j < |before| ==> before[j] in before;
        before + [n - 1]
      else before
  }

  // A specification names a package when exactly one candidate is left.
  function Resolve(lock: Lock, spec: Spec): (r: Option<nat>)
    ensures r.Some? ==> r.value < |lock.packages| && Candidate(lock.packages[r.value], spec)
  {
    var found := Candidates(lock, spec, |lock.packages|);
    if |found| == 1 then
      assert found[0] in found;
      Some(found[0])
    else None
  }

  // It names package i when that has the name, and the version and the source where they are given,
  // and no other package does.
  lemma ResolvesExactlyUniqueMatches(lock: Lock, spec: Spec, i: nat)
    requires i < |lock.packages|
    ensures Resolve(lock, spec) == Some(i) <==>
              && (var package := lock.packages[i];
                  && package.name == spec.name
                  && spec.version in {None, Some(package.version)} && spec.source in {None, Some(package.source)})
              && forall j: nat :: j < |lock.packages| && j != i ==>
                   var other := lock.packages[j];
                   || other.name != spec.name
                   || (spec.version.Some? && spec.version.value != other.version)
                   || (spec.source.Some? && spec.source.value != other.source)
  {
    FoundExactlyOnce(lock, spec, i);
  }

  lemma FoundExactlyOnce(lock: Lock, spec: Spec, i: nat)
    requires i < |lock.packages|
    ensures Resolve(lock, spec) == Some(i) <==>
              && Candidate(lock.packages[i], spec)
              && forall j: nat :: j < |lock.packages| && Candidate(lock.packages[j], spec) ==> j == i
  {
    hide Candidates, Candidate;
    var found := Candidates(lock, spec, |lock.packages|);
    if |found| == 1 {
      assert found[0] in found;
      assert forall j: nat :: j < |lock.packages| && Candidate(lock.packages[j], spec) ==> j in found;
    } else if |found| > 1 {
      assert found[0] in found && found[1] in found && found[0] < found[1];
    }
  }

  // Resolved packages can be told apart by name, version and source.
  lemma ResolvedIdentityIsUnique(lock: Lock, spec: Spec, j: nat)
    requires Resolve(lock, spec).Some? && j < |lock.packages|
    requires var p, q := lock.packages[Resolve(lock, spec).value], lock.packages[j];
             p.name == q.name && p.version == q.version && p.source == q.source
    ensures j == Resolve(lock, spec).value
  {
    FoundExactlyOnce(lock, spec, Resolve(lock, spec).value);
    assert Candidate(lock.packages[j], spec);
  }

  datatype Graph = Graph(reached: set<nat>, extras: set<(nat, string)>, edges: set<(nat, nat)>)

  predicate Below(g: Graph, h: Graph) {
    g.reached <= h.reached && g.extras <= h.extras && g.edges <= h.edges
  }

  // Package p contributes the specification: the root through its initial list, a reached package
  // through its dependencies, any package through an extra that is switched on.
  ghost predicate Active(lock: Lock, g: Graph, p: nat, spec: Spec) {
    p < |lock.packages|
    && (|| (p == lock.root && spec in lock.initial)
        || (p != lock.root && p in g.reached && spec in lock.packages[p].dependencies)
        || (exists e :: (p, e) in g.extras && e in lock.packages[p].optional
                        && spec in lock.packages[p].optional[e]))
  }

  ghost predicate Satisfied(lock: Lock, g: Graph, p: nat, spec: Spec) {
    var target := Resolve(lock, spec);
    target.Some? ==>
      && target.value in g.reached && (p, target.value) in g.edges
      && forall e :: e in spec.extras ==> (target.value, e) in g.extras
  }

  // The closure rules.
  ghost predicate Closed(lock: Lock, g: Graph) {
    && lock.root in g.reached
    && forall p, spec :: Active(lock, g, p, spec) ==> Satisfied(lock, g, p, spec)
  }

  // Something the lockfile leaves open: a specification without a unique package, or an extra its
  // package does not declare.
  ghost predicate Broken(lock: Lock, g: Graph) {
    || (exists p, spec :: Active(lock, g, p, spec) && Resolve(lock, spec).None?)
    || (exists p: nat, e :: (p, e) in g.extras && p < |lock.packages| && e !in lock.packages[p].optional)
  }

  ghost predicate Least(lock: Lock, g: Graph) {
    Closed(lock, g) && forall h :: Closed(lock, h) ==> Below(g, h)
  }

  // The package that a specification of package p resolves to is reached, with the edge and the extras.
  ghost predicate Follows(lock: Lock, g: Graph, p: nat, spec: Spec) {
    forall t: nat :: Resolve(lock, spec) == Some(t) ==>
      t in g.reached && (p, t) in g.edges && forall e :: e in spec.extras ==> (t, e) in g.extras
  }

  // The rules one by one: the root's own list, the dependencies of what is reached, and what the
  // extras that are switched on bring.
  lemma ClosedExactly(lock: Lock, g: Graph)
    requires ValidLock(lock)
    ensures Closed(lock, g) <==>
              && lock.root in g.reached
              && (forall spec :: spec in lock.initial ==> Follows(lock, g, lock.root, spec))
              && (forall p: nat, spec ::
                    p in g.reached && p < |lock.packages| && p != lock.root
                    && spec in lock.packages[p].dependencies ==>
                      Follows(lock, g, p, spec))
              && (forall p: nat, e, spec ::
                    (p, e) in g.extras && p < |lock.packages| && e in lock.packages[p].optional
                    && spec in lock.packages[p].optional[e] ==>
                      Follows(lock, g, p, spec))
  {
    forall p: nat, spec
      ensures Satisfied(lock, g, p, spec) <==> Follows(lock, g, p, spec)
    {
      hide Resolve;
    }
    hide Resolve, Satisfied, Follows;
    if Closed(lock, g) {
      forall p: nat, spec | Active(lock, g, p, spec)
        ensures Follows(lock, g, p, spec)
      {
      }
      assert forall spec :: spec in lock.initial ==> Active(lock, g, lock.root, spec);
    }
  }

  // The least solution is one solution, however it was found.
  lemma LeastIsUnique(lock: Lock, g: Graph, h: Graph)
    requires Least(lock, g) && Least(lock, h)
    ensures g == h
  {
    assert Below(g, h) && Below(h, g);
  }

  // Every extra that some specification of the lockfile asks for.
  ghost function AskedFor(lock: Lock): set<string> {
    (set spec, e | spec in lock.initial && e in spec.extras :: e)
    + (set p: nat, spec, e | p < |lock.packages| && spec in lock.packages[p].dependencies && e in spec.extras :: e)
    + (set p: nat, key, spec, e | p < |lock.packages| && key in lock.packages[p].optional
                                  && spec in lock.packages[p].optional[key] && e in spec.extras :: e)
  }

  // All that the rules could ever record.
  ghost function Everything(lock: Lock): Graph {
    var all := UpTo(|lock.packages|);
    Graph(all, set p, e | p in all && e in AskedFor(lock) :: (p, e), set p, q | p in all && q in all :: (p, q))
  }

  lemma EverythingIsClosed(lock: Lock)
    requires ValidLock(lock)
    ensures Closed(lock, Everything(lock))
  {
    var g := Everything(lock);
    forall p, spec | Active(lock, g, p, spec)
      ensures Satisfied(lock, g, p, spec)
    {
      forall e | e in spec.extras
        ensures e in AskedFor(lock)
      {
      }
    }
  }

  ghost predicate AllReach(lock: Lock, p: nat) {
    forall h :: Closed(lock, h) ==> p in h.reached
  }

  ghost predicate AllSwitchOn(lock: Lock, extra: (nat, string)) {
    forall h :: Closed(lock, h) ==> extra in h.extras
  }

  ghost predicate AllConnect(lock: Lock, edge: (nat, nat)) {
    forall h :: Closed(lock, h) ==> edge in h.edges
  }

  // What all closed graphs have in common.
  ghost function Common(lock: Lock): Graph {
    var g := Everything(lock);
    Graph(
      set p | p in g.reached && AllReach(lock, p),
      set extra | extra in g.extras && AllSwitchOn(lock, extra),
      set edge | edge in g.edges && AllConnect(lock, edge))
  }

  lemma ActiveIsMonotone(lock: Lock, g: Graph, h: Graph, p: nat, spec: Spec)
    requires Below(g, h) && Active(lock, g, p, spec)
    ensures Active(lock, h, p, spec)
  {
  }

  // The closure rules always have a least solution, broken or not.
  lemma CommonIsLeast(lock: Lock)
    requires ValidLock(lock)
    ensures Least(lock, Common(lock))
  {
    var g := Common(lock);
    EverythingIsClosed(lock);
    forall h | Closed(lock, h)
      ensures Below(g, h)
    {
    }
    forall p, spec | Active(lock, g, p, spec)
      ensures Satisfied(lock, g, p, spec)
    {
      CommonSatisfies(lock, p, spec);
    }
  }

  lemma CommonSatisfies(lock: Lock, p: nat, spec: Spec)
    requires ValidLock(lock) && Active(lock, Common(lock), p, spec)
    requires Closed(lock, Everything(lock))
    ensures Satisfied(lock, Common(lock), p, spec)
  {
    var target := Resolve(lock, spec);
    if target.Some? {
      forall h | Closed(lock, h)
        ensures target.value in h.reached && (p, target.value) in h.edges
        ensures forall e :: e in spec.extras ==> (target.value, e) in h.extras
      {
        ActiveIsMonotone(lock, Common(lock), h, p, spec);
        assert Satisfied(lock, h, p, spec);
      }
      assert AllReach(lock, target.value) && AllConnect(lock, (p, target.value));
      forall e | e in spec.extras
        ensures AllSwitchOn(lock, (target.value, e))
      {
      }
    }
  }

  // ---------------------------------------------------------------- the worklist

  type Work = seq<(nat, seq<Spec>)>

  ghost predicate Queued(work: Work, p: nat, spec: Spec) {
    exists k :: 0 <= k < |work| && work[k].0 == p && spec in work[k].1
  }

  // Every rule instance is satisfied already or waits in the worklist.
  ghost predicate Covered(lock: Lock, g: Graph, work: Work) {
    forall p, spec :: Active(lock, g, p, spec) ==>
      (Resolve(lock, spec).Some? && Satisfied(lock, g, p, spec)) || Queued(work, p, spec)
  }

  // Nothing was recorded or queued that some solution could do without.
  ghost predicate Forced(lock: Lock, g: Graph, work: Work) {
    forall h :: Closed(lock, h) ==>
      Below(g, h) && forall p, spec :: Queued(work, p, spec) ==> Active(lock, h, p, spec)
  }

  ghost predicate Sound(lock: Lock, g: Graph) {
    && lock.root in g.reached
    && (forall p :: p in g.reached ==> p < |lock.packages|)
    && (forall pair :: pair in g.extras ==> pair.0 in g.reached && pair.1 in lock.packages[pair.0].optional)
  }

  function ExtrasOf(g: Graph, p: nat): set<string> {
    set pair | pair in g.extras && pair.0 == p :: pair.1
  }

  function Recorded(g: Graph, p: nat, target: nat, extras: set<string>): Graph {
    Graph(g.reached + {target}, g.extras + (set e | e in extras :: (target, e)), g.edges + {(p, target)})
  }

  // What reaching `target` with new extras adds to the work.
  ghost predicate Adds(lock: Lock, target: nat, first: bool, extras: set<string>, specs: seq<Spec>)
    requires target < |lock.packages|
  {
    forall spec :: spec in specs <==>
      || (first && spec in lock.packages[target].dependencies)
      || (exists e :: e in extras && e in lock.packages[target].optional
                      && spec in lock.packages[target].optional[e])
  }

  lemma QueuedAfterStep(p: nat, spec: Spec, rest: seq<Spec>, queue: Work, more: Work, q: nat, other: Spec)
    ensures Queued([(p, [spec] + rest)] + queue, q, other)
            <==> (q == p && other == spec) || Queued([(p, rest)] + queue, q, other)
    ensures Queued([(p, rest)] + queue + more, q, other)
            <==> Queued([(p, rest)] + queue, q, other) || Queued(more, q, other)
  {
    var was, now := [(p, [spec] + rest)] + queue, [(p, rest)] + queue;
    var longer := now + more;
    if Queued(was, q, other) {
      var k :| 0 <= k < |was| && was[k].0 == q && other in was[k].1;
      if k > 0 {
        assert now[k] == was[k];
      } else if other != spec {
        assert other in now[0].1;
      }
    }
    if Queued(now, q, other) {
      var k :| 0 <= k < |now| && now[k].0 == q && other in now[k].1;
      assert was[k].0 == q && other in was[k].1;
      assert longer[k] == now[k];
    }
    if q == p && other == spec {
      assert was[0].0 == q && other in was[0].1;
    }
    if Queued(more, q, other) {
      var k :| 0 <= k < |more| && more[k].0 == q && other in more[k].1;
      assert longer[|now| + k] == more[k];
    }
    if Queued(longer, q, other) {
      var k :| 0 <= k < |longer| && longer[k].0 == q && other in longer[k].1;
      if k < |now| {
        assert now[k] == longer[k];
      } else {
        assert more[k - |now|] == longer[k];
      }
    }
  }

  // Processing one specification of the item at the head.
  lemma StepCovers(
    lock: Lock, g: Graph, p: nat, spec: Spec, rest: seq<Spec>, queue: Work, target: nat, specs: seq<Spec>, more: Work)
    requires Covered(lock, g, [(p, [spec] + rest)] + queue) && Sound(lock, g)
    requires Resolve(lock, spec) == Some(target)
    requires var added := ToSet(spec.extras) - ExtrasOf(g, target);
             Adds(lock, target, target !in g.reached, added, specs)
    requires more == [(target, specs)] || (more == [] && specs == [])
    ensures var added := ToSet(spec.extras) - ExtrasOf(g, target);
            Covered(lock, Recorded(g, p, target, added), [(p, rest)] + queue + more)
  {
    var added := ToSet(spec.extras) - ExtrasOf(g, target);
    var after := Recorded(g, p, target, added);
    forall q, other | Active(lock, after, q, other)
      ensures (Resolve(lock, other).Some? && Satisfied(lock, after, q, other))
              || Queued([(p, rest)] + queue + more, q, other)
    {
      QueuedAfterStep(p, spec, rest, queue, more, q, other);
      if Active(lock, g, q, other) {
        if q == p && other == spec {
          forall e | e in spec.extras
            ensures (target, e) in after.extras
          {
            if e !in added {
              var pair :| pair in g.extras && pair.0 == target && pair.1 == e;
              assert pair == (target, e);
            }
          }
        }
      } else {
        assert q == target && other in specs by {
          NewlyActive(lock, g, p, target, added, q, other);
        }
        assert Queued(more, q, other) by {
          assert more[0].0 == q && other in more[0].1;
        }
      }
    }
  }

  lemma NewlyActive(
    lock: Lock, g: Graph, p: nat, target: nat, added: set<string>, q: nat, other: Spec)
    requires Sound(lock, g) && target < |lock.packages|
    requires Active(lock, Recorded(g, p, target, added), q, other) && !Active(lock, g, q, other)
    ensures q == target
    ensures (target !in g.reached && other in lock.packages[target].dependencies)
            || exists e ::
                 e in added && e in lock.packages[target].optional && other in lock.packages[target].optional[e]
  {
  }

  lemma StepForced(
    lock: Lock, g: Graph, p: nat, spec: Spec, rest: seq<Spec>, queue: Work, target: nat, specs: seq<Spec>, more: Work)
    requires Forced(lock, g, [(p, [spec] + rest)] + queue) && Sound(lock, g)
    requires Resolve(lock, spec) == Some(target)
    requires var added := ToSet(spec.extras) - ExtrasOf(g, target);
             Adds(lock, target, target !in g.reached, added, specs)
    requires more == [(target, specs)] || more == []
    ensures var added := ToSet(spec.extras) - ExtrasOf(g, target);
            Forced(lock, Recorded(g, p, target, added), [(p, rest)] + queue + more)
  {
    var added := ToSet(spec.extras) - ExtrasOf(g, target);
    var after := Recorded(g, p, target, added);
    forall h | Closed(lock, h)
      ensures Below(after, h)
      ensures forall q, other :: Queued([(p, rest)] + queue + more, q, other) ==> Active(lock, h, q, other)
    {
      QueuedAfterStep(p, spec, rest, queue, more, p, spec);
      assert Active(lock, h, p, spec);
      assert Satisfied(lock, h, p, spec);
      assert forall e :: e in added ==> (target, e) in h.extras;
      forall q, other | Queued([(p, rest)] + queue + more, q, other)
        ensures Active(lock, h, q, other)
      {
        QueuedAfterStep(p, spec, rest, queue, more, q, other);
        if Queued(more, q, other) {
          assert q == target && other in specs;
          assert target !in g.reached ==> target != lock.root;
        }
      }
    }
  }

  // ---------------------------------------------------------------- termination

  function UpTo(n: nat): (s: set<nat>)
    ensures forall i: nat :: i in s <==> i < n
  {
    if n == 0 then {} else UpTo(n - 1) + {n - 1}
  }

  function AllNodes(lock: Lock): set<nat> {
    UpTo(|lock.packages|)
  }

  function AllExtras(lock: Lock): set<(nat, string)> {
    set i: nat, e | i in UpTo(|lock.packages|) && e in lock.packages[i].optional :: (i, e)
  }

  // Packages not reached and extras not switched on.
  function Open(lock: Lock, g: Graph): nat {
    |AllNodes(lock) - g.reached| + |AllExtras(lock) - g.extras|
  }

  lemma RecordingClosesSomething(lock: Lock, g: Graph, p: nat, target: nat, added: set<string>)
    requires target < |lock.packages| && forall e :: e in added ==> e in lock.packages[target].optional
    requires target !in g.reached || added != {}
    requires forall e :: e in added ==> (target, e) !in g.extras
    ensures Open(lock, Recorded(g, p, target, added)) < Open(lock, g)
  {
    var after := Recorded(g, p, target, added);
    var nodes, nodes' := AllNodes(lock) - g.reached, AllNodes(lock) - after.reached;
    var extras, extras' := AllExtras(lock) - g.extras, AllExtras(lock) - after.extras;
    assert nodes' <= nodes && extras' <= extras;
    SubsetIsSmaller(nodes', nodes);
    SubsetIsSmaller(extras', extras);
    if target !in g.reached {
      assert target in nodes && target !in nodes';
    } else {
      var e :| e in added;
      assert (target, e) in extras && (target, e) !in extras';
    }
  }

  // ---------------------------------------------------------------- the algorithm

  // The specifications of the new extras, in any order; nothing when an extra is not declared.
  method ExtraSpecs(package: Package, extras: set<string>) returns (r: Option<seq<Spec>>)
    ensures r.Some? <==> forall e :: e in extras ==> e in package.optional
    ensures r.Some? ==>
              forall spec :: spec in r.value <==>
                exists e :: e in extras && e in package.optional && spec in package.optional[e]
  {
    var specs: seq<Spec> := [];
    var rest := extras;
    while rest != {}
      invariant rest <= extras
      invariant forall e :: e in extras && e !in rest ==> e in package.optional
      invariant forall spec :: spec in specs <==>
                  exists e :: e in extras && e !in rest && e in package.optional && spec in package.optional[e]
      decreases rest
    {
      var e :| e in rest;
      if e !in package.optional {
        return None;
      }
      rest := rest - {e};
      specs := specs + package.optional[e];
    }
    return Some(specs);
  }

  // One specification of the item at the head of the worklist.
  method ProcessSpec(lock: Lock, g: Graph, p: nat, spec: Spec, ghost rest: seq<Spec>, ghost queue: Work)
    returns (r: Option<Graph>, more: Work)
    requires ValidLock(lock) && Sound(lock, g) && p < |lock.packages|
    requires Covered(lock, g, [(p, [spec] + rest)] + queue)
    requires Forced(lock, g, [(p, [spec] + rest)] + queue)
    ensures r.Some? ==>
              && Sound(lock, r.value) && g.reached <= r.value.reached
              && Covered(lock, r.value, [(p, rest)] + queue + more)
              && Forced(lock, r.value, [(p, rest)] + queue + more)
              && (forall k :: 0 <= k < |more| ==> more[k].0 < |lock.packages|)
              && Resolve(lock, spec).Some?
              && if more == [] then Open(lock, r.value) <= Open(lock, g) else Open(lock, r.value) < Open(lock, g)
    ensures r.None? ==> forall h :: Closed(lock, h) ==> Broken(lock, h)
  {
    hide Resolve, Covered, Forced, Closed, Broken, Active, Satisfied, Queued, Open;
    var resolved := Resolve(lock, spec);
    HeadIsActive(lock, g, p, spec, rest, queue);
    if resolved.None? {
      return None, [];
    }
    var target := resolved.value;
    var first, added := target !in g.reached, ToSet(spec.extras) - ExtrasOf(g, target);
    var after := Recorded(g, p, target, added);
    if !first && added == {} {
      StepCovers(lock, g, p, spec, rest, queue, target, [], []);
      StepForced(lock, g, p, spec, rest, queue, target, [], []);
      NothingNew(lock, g, p, target);
      return Some(after), [];
    }
    var extraSpecs := ExtraSpecs(lock.packages[target], added);
    if extraSpecs.None? {
      MissingExtraBreaks(lock, p, spec, target, added);
      return None, [];
    }
    var specs := (if first then lock.packages[target].dependencies else []) + extraSpecs.value;
    more := [(target, specs)];
    StepCovers(lock, g, p, spec, rest, queue, target, specs, more);
    StepForced(lock, g, p, spec, rest, queue, target, specs, more);
    RecordingClosesSomething(lock, g, p, target, added);
    return Some(after), more;
  }

  lemma HeadIsActive(lock: Lock, g: Graph, p: nat, spec: Spec, rest: seq<Spec>, queue: Work)
    requires Forced(lock, g, [(p, [spec] + rest)] + queue)
    ensures forall h :: Closed(lock, h) ==> Active(lock, h, p, spec) && Satisfied(lock, h, p, spec)
    ensures Resolve(lock, spec).None? ==> forall h :: Closed(lock, h) ==> Broken(lock, h)
  {
    assert Queued([(p, [spec] + rest)] + queue, p, spec) by {
      assert ([(p, [spec] + rest)] + queue)[0].0 == p;
    }
  }

  lemma MissingExtraBreaks(lock: Lock, p: nat, spec: Spec, target: nat, added: set<string>)
    requires Resolve(lock, spec) == Some(target) && added <= ToSet(spec.extras)
    requires exists e :: e in added && e !in lock.packages[target].optional
    requires forall h :: Closed(lock, h) ==> Satisfied(lock, h, p, spec)
    ensures forall h :: Closed(lock, h) ==> Broken(lock, h)
  {
    var e :| e in added && e !in lock.packages[target].optional;
    forall h | Closed(lock, h)
      ensures Broken(lock, h)
    {
      assert Satisfied(lock, h, p, spec);
      assert (target, e) in h.extras;
    }
  }

  lemma NothingNew(lock: Lock, g: Graph, p: nat, target: nat)
    requires target in g.reached
    ensures Open(lock, Recorded(g, p, target, {})) == Open(lock, g)
  {
    assert g.reached + {target} == g.reached;
    assert Recorded(g, p, target, {}).extras == g.extras;
  }

  // The item just taken from the worklist.
  method ProcessItem(lock: Lock, start: Graph, parent: nat, specifications: seq<Spec>, tail: Work)
    returns (r: Option<Graph>, queue: Work)
    requires ValidLock(lock) && Sound(lock, start) && parent < |lock.packages|
    requires Covered(lock, start, [(parent, specifications)] + tail)
    requires Forced(lock, start, [(parent, specifications)] + tail)
    requires forall k :: 0 <= k < |tail| ==> tail[k].0 < |lock.packages|
    ensures r.Some? ==>
              && Sound(lock, r.value) && Covered(lock, r.value, queue) && Forced(lock, r.value, queue)
              && (forall k :: 0 <= k < |queue| ==> queue[k].0 < |lock.packages|)
              && (Open(lock, r.value) < Open(lock, start)
                  || (Open(lock, r.value) == Open(lock, start) && |queue| == |tail|))
    ensures r.None? ==> forall h :: Closed(lock, h) ==> Broken(lock, h)
  {
    hide Resolve, Active, Satisfied, Queued, Covered, Forced, Closed, Broken, Open, Sound;
    var g := start;
    queue := tail;
    assert specifications[0..] == specifications;
    for k := 0 to |specifications|
      invariant Sound(lock, g)
      invariant Covered(lock, g, [(parent, specifications[k..])] + queue)
      invariant Forced(lock, g, [(parent, specifications[k..])] + queue)
      invariant forall j :: 0 <= j < |queue| ==> queue[j].0 < |lock.packages|
      invariant Open(lock, g) < Open(lock, start) || (Open(lock, g) == Open(lock, start) && |queue| == |tail|)
    {
      assert specifications[k..] == [specifications[k]] + specifications[k + 1..];
      var next, more := ProcessSpec(lock, g, parent, specifications[k], specifications[k + 1..], queue);
      if next.None? {
        return None, [];
      }
      g := next.value;
      assert [(parent, specifications[k + 1..])] + queue + more
             == [(parent, specifications[k + 1..])] + (queue + more);
      queue := queue + more;
    }
    assert specifications[|specifications|..] == [];
    EmptyItemIsDone(lock, g, parent, queue);
    return Some(g), queue;
  }

  // The graph of the lockfile, or nothing when the lockfile is broken.
  method LockGraph(lock: Lock) returns (r: Option<Graph>)
    requires ValidLock(lock)
    ensures r.Some? ==> Least(lock, r.value) && !Broken(lock, r.value)
    ensures r.None? ==> Least(lock, Common(lock)) && Broken(lock, Common(lock))
  {
    hide Resolve, Active, Satisfied, Queued, Covered, Forced, Closed, Broken, Open, Sound, Common;
    CommonIsLeast(lock);
    var g := Graph({lock.root}, {}, {});
    var queue: Work := [(lock.root, lock.initial)];
    StartIsCovered(lock);
    while queue != []
      invariant Sound(lock, g) && Covered(lock, g, queue) && Forced(lock, g, queue)
      invariant forall k :: 0 <= k < |queue| ==> queue[k].0 < |lock.packages|
      decreases Open(lock, g), |queue|
    {
      var parent, specifications := queue[0].0, queue[0].1;
      assert queue == [(parent, specifications)] + queue[1..];
      var next, rest := ProcessItem(lock, g, parent, specifications, queue[1..]);
      if next.None? {
        return None;
      }
      g, queue := next.value, rest;
    }
    EmptyWorkIsLeast(lock, g);
    return Some(g);
  }

  lemma StartIsCovered(lock: Lock)
    requires ValidLock(lock)
    ensures var g := Graph({lock.root}, {}, {});
            var work := [(lock.root, lock.initial)];
            Sound(lock, g) && Covered(lock, g, work) && Forced(lock, g, work)
  {
    var g := Graph({lock.root}, {}, {});
    var work: Work := [(lock.root, lock.initial)];
    forall p, spec | Active(lock, g, p, spec)
      ensures Queued(work, p, spec)
    {
      assert work[0].0 == p && spec in work[0].1;
    }
  }

  lemma EmptyItemIsDone(lock: Lock, g: Graph, p: nat, queue: Work)
    requires Covered(lock, g, [(p, [])] + queue) && Forced(lock, g, [(p, [])] + queue)
    ensures Covered(lock, g, queue) && Forced(lock, g, queue)
  {
    var work := [(p, [])] + queue;
    forall q, spec
      ensures Queued(work, q, spec) <==> Queued(queue, q, spec)
    {
      if Queued(work, q, spec) {
        var k :| 0 <= k < |work| && work[k].0 == q && spec in work[k].1;
        assert queue[k - 1] == work[k];
      }
      if Queued(queue, q, spec) {
        var k :| 0 <= k < |queue| && queue[k].0 == q && spec in queue[k].1;
        assert work[k + 1] == queue[k];
      }
    }
  }

  lemma EmptyWorkIsLeast(lock: Lock, g: Graph)
    requires Sound(lock, g) && Covered(lock, g, []) && Forced(lock, g, [])
    ensures Least(lock, g) && !Broken(lock, g)
  {
  }
}
