/** Routing over node-weighted edges: Dijkstra's algorithm with an unordered scan for the nearest
    node and an early exit, and the path rebuilt from its predecessor links. */
module Routing {

  // Neighbour lists and a non-negative weight per node.
  datatype Network = Network(neighbours: seq<seq<nat>>, nu: seq<real>) {
    ghost predicate Valid() {
      && |neighbours| == |nu|
      && (forall u, v :: 0 <= u < |neighbours| && v in neighbours[u] ==> v < |neighbours|)
      && (forall u :: 0 <= u < |nu| ==> nu[u] >= 0.0)
    }

    function Edge(u: nat, v: nat): real
      requires u < |nu| && v < |nu|
    {
      0.5 * (nu[u] + nu[v])
    }

    predicate IsWalk(w: seq<nat>, s: nat, t: nat)
      requires |neighbours| == |nu|
    {
      && w != [] && w[0] == s && w[|w| - 1] == t
      && (forall k :: 0 <= k < |w| ==> w[k] < |nu|)
      && (forall k :: 0 < k < |w| ==> w[k] in neighbours[w[k - 1]])
    }

    function Cost(w: seq<nat>): real
      requires forall k :: 0 <= k < |w| ==> w[k] < |nu|
    {
      if |w| <= 1 then 0.0
      else Cost(w[..|w| - 1]) + Edge(w[|w| - 2], w[|w| - 1])
    }

    function Total(w: seq<nat>): real
      requires forall k :: 0 <= k < |w| ==> w[k] < |nu|
    {
      if w == [] then 0.0 else Total(w[..|w| - 1]) + nu[w[|w| - 1]]
    }

    // A walk costs the numbers of its nodes, its two ends counting half.
    lemma {:induction false} CostIsTrapezoid(w: seq<nat>)
      requires w != [] && forall k :: 0 <= k < |w| ==> w[k] < |nu|
      ensures Cost(w) == Total(w) - (nu[w[0]] + nu[w[|w| - 1]]) / 2.0
    {
      if |w| > 1 {
        CostIsTrapezoid(w[..|w| - 1]);
      } else {
        assert w[..0] == [];
      }
    }

    lemma {:induction false} PrefixCostsLess(w: seq<nat>, k: nat)
      requires Valid() && 1 <= k <= |w| && forall j :: 0 <= j < |w| ==> w[j] < |nu|
      ensures 0.0 <= Cost(w[..k]) <= Cost(w)
      decreases |w| - k, k
    {
      if k < |w| {
        var shorter := w[..|w| - 1];
        assert shorter[..k] == w[..k];
        PrefixCostsLess(shorter, k);
      } else {
        assert w[..k] == w;
        if |w| > 1 {
          PrefixCostsLess(w[..|w| - 1], |w| - 1);
        }
      }
    }
  }

  // math.inf, or a finite tentative distance.
  datatype Distance = Infinite | Finite(value: real)

  predicate Less(a: Distance, b: Distance) {
    a.Finite? && (b.Infinite? || a.value < b.value)
  }

  // v's label tells the truth: a finite distance is the cost of a walk, the predecessor link is that
  // walk's last step and leads to a visited node, and a node without a distance has no link.
  ghost predicate GoodLabel(
    net: Network, s: nat, dist: seq<Distance>, prev: seq<int>, visited: seq<bool>, walks: map<int, seq<nat>>, v: nat)
    requires net.Valid() && |dist| == |prev| == |visited| == |net.nu| && v < |dist|
  {
    if dist[v].Infinite? then
      prev[v] == -1 && !visited[v] && v !in walks
    else
      && v in walks && net.IsWalk(walks[v], s, v) && net.Cost(walks[v]) == dist[v].value
      && (v != s ==> 0 <= prev[v] < |dist| && visited[prev[v]] && prev[v] in walks
                     && walks[v] == walks[prev[v]] + [v])
  }

  ghost predicate Labelled(
    net: Network, s: nat, dist: seq<Distance>, prev: seq<int>, visited: seq<bool>, walks: map<int, seq<nat>>)
    requires net.Valid()
  {
    && |dist| == |prev| == |visited| == |net.nu| && s < |net.nu|
    && dist[s] == Finite(0.0) && prev[s] == -1 && s in walks && walks[s] == [s]
    && forall v: nat :: v < |dist| ==> GoodLabel(net, s, dist, prev, visited, walks, v)
  }

  // Visited nodes carry minimal distances, and their edges to unvisited ones have been relaxed.
  ghost predicate Settled(net: Network, s: nat, dist: seq<Distance>, visited: seq<bool>)
    requires net.Valid() && |dist| == |visited| == |net.nu|
  {
    && (forall u: nat :: u < |dist| && visited[u] ==>
          dist[u].Finite? && forall w :: net.IsWalk(w, s, u) ==> dist[u].value <= net.Cost(w))
    && (forall u: nat, v :: u < |dist| && visited[u] && v in net.neighbours[u] && v < |dist| && !visited[v] ==>
          Relaxed(net, dist, u, v))
  }

  ghost predicate Relaxed(net: Network, dist: seq<Distance>, u: nat, v: nat)
    requires u < |dist| == |net.nu| && v < |dist|
  {
    dist[u].Finite? ==> dist[v].Finite? && dist[v].value <= dist[u].value + net.Edge(u, v)
  }

  // A walk to an unvisited node leaves the visited ones over some relaxed edge.
  lemma FirstUnvisited(
    net: Network, s: nat, dist: seq<Distance>, visited: seq<bool>, w: seq<nat>, t: nat) returns (v: nat)
    requires net.Valid() && |dist| == |visited| == |net.nu| && Settled(net, s, dist, visited)
    requires net.IsWalk(w, s, t) && visited[s] && !visited[t]
    ensures v < |dist| && !visited[v] && dist[v].Finite? && dist[v].value <= net.Cost(w)
  {
    hide Settled;
    var k := 1;
    while visited[w[k]]
      invariant 1 <= k < |w|
      invariant forall j :: 0 <= j < k ==> visited[w[j]]
      decreases |w| - k
    {
      k := k + 1;
    }
    v := w[k];
    CrossingCosts(net, s, dist, visited, w, t, k);
  }

  // The k-th step of the walk crosses from a visited to an unvisited node.
  lemma CrossingCosts(
    net: Network, s: nat, dist: seq<Distance>, visited: seq<bool>, w: seq<nat>, t: nat, k: nat)
    requires net.Valid() && |dist| == |visited| == |net.nu| && Settled(net, s, dist, visited)
    requires net.IsWalk(w, s, t) && 0 < k < |w| && visited[w[k - 1]] && !visited[w[k]]
    ensures dist[w[k]].Finite? && dist[w[k]].value <= net.Cost(w)
  {
    var u, v, head := w[k - 1], w[k], w[..k];
    assert net.IsWalk(head, s, u);
    assert dist[u].value <= net.Cost(head);
    assert Relaxed(net, dist, u, v);
    assert w[..k + 1][..k] == head;
    net.PrefixCostsLess(w, k + 1);
  }

  // The nearest unvisited node has its final distance.
  lemma NearestIsFinal(net: Network, s: nat, dist: seq<Distance>, visited: seq<bool>, u: nat, w: seq<nat>)
    requires net.Valid() && |dist| == |visited| == |net.nu| && Settled(net, s, dist, visited)
    requires s < |dist| && dist[s] == Finite(0.0)
    requires u < |dist| && !visited[u] && dist[u].Finite?
    requires forall v: nat :: v < |dist| && !visited[v] ==> !Less(dist[v], dist[u])
    requires net.IsWalk(w, s, u)
    ensures dist[u].value <= net.Cost(w)
  {
    if visited[s] {
      var v := FirstUnvisited(net, s, dist, visited, w, u);
    } else {
      assert !Less(dist[s], dist[u]);
      net.PrefixCostsLess(w, 1);
    }
  }

  method Nearest(dist: array<Distance>, visited: array<bool>) returns (u: int)
    requires dist.Length == visited.Length
    ensures u == -1 || (0 <= u < dist.Length && !visited[u] && dist[u].Finite?
                        && forall v :: 0 <= v < dist.Length && !visited[v] ==> !Less(dist[v], dist[u]))
    ensures u == -1 ==> forall v :: 0 <= v < dist.Length && !visited[v] ==> dist[v].Infinite?
  {
    u := -1;
    var best := Infinite;
    for i := 0 to dist.Length
      invariant u == -1 ==> best == Infinite && forall v :: 0 <= v < i && !visited[v] ==> dist[v].Infinite?
      invariant u != -1 ==> 0 <= u < i && !visited[u] && best == dist[u] && best.Finite?
                            && forall v :: 0 <= v < i && !visited[v] ==> !Less(dist[v], dist[u])
    {
      if !visited[i] && Less(dist[i], best) {
        u, best := i, dist[i];
      }
    }
  }

  // Relaxing the edge from u, just visited, to v.
  lemma RelaxKeepsLabels(
    net: Network, s: nat, dist: seq<Distance>, prev: seq<int>, visited: seq<bool>, walks: map<int, seq<nat>>,
    u: nat, v: nat, alt: real)
    requires net.Valid() && Labelled(net, s, dist, prev, visited, walks)
    requires u < |dist| && visited[u] && dist[u].Finite? && u in walks && v in net.neighbours[u] && !visited[v]
    requires visited[s] && alt == dist[u].value + net.Edge(u, v)
    ensures Labelled(net, s, dist[v := Finite(alt)], prev[v := u], visited, walks[v := walks[u] + [v]])
  {
    var w := walks[u] + [v];
    var dist', prev', walks' := dist[v := Finite(alt)], prev[v := u], walks[v := w];
    assert GoodLabel(net, s, dist, prev, visited, walks, u);
    ExtendedWalk(net, s, walks[u], u, v);
    forall x: nat | x < |dist|
      ensures GoodLabel(net, s, dist', prev', visited, walks', x)
    {
      assert GoodLabel(net, s, dist, prev, visited, walks, x);
    }
  }

  lemma ExtendedWalk(net: Network, s: nat, w: seq<nat>, u: nat, v: nat)
    requires net.Valid() && net.IsWalk(w, s, u) && v in net.neighbours[u]
    ensures net.IsWalk(w + [v], s, v) && net.Cost(w + [v]) == net.Cost(w) + net.Edge(u, v)
  {
    assert (w + [v])[..|w|] == w;
  }

  lemma DistancesAreFinite(
    net: Network, s: nat, dist: seq<Distance>, prev: seq<int>, visited: seq<bool>, walks: map<int, seq<nat>>, u: nat)
    requires net.Valid() && Labelled(net, s, dist, prev, visited, walks) && u < |dist| && visited[u]
    ensures dist[u].Finite? && u in walks
  {
    assert GoodLabel(net, s, dist, prev, visited, walks, u);
  }

  // Scans u's neighbours, shortening distances through u.
  method RelaxNeighbours(
    net: Network, s: nat, u: nat, dist: array<Distance>, prev: array<int>, visited: array<bool>,
    ghost walks: map<int, seq<nat>>) returns (ghost walks': map<int, seq<nat>>)
    requires net.Valid() && dist.Length == prev.Length == visited.Length == |net.nu|
    requires Labelled(net, s, dist[..], prev[..], visited[..], walks)
    requires u < dist.Length && s < dist.Length && visited[u] && visited[s]
    modifies dist, prev
    ensures Labelled(net, s, dist[..], prev[..], visited[..], walks')
    ensures forall v :: 0 <= v < dist.Length && visited[v] ==> dist[v] == old(dist[v])
    ensures forall v :: 0 <= v < dist.Length ==> !Less(old(dist[v]), dist[v])
    ensures forall v :: v in net.neighbours[u] && !visited[v] ==> Relaxed(net, dist[..], u, v)
  {
    hide Labelled;
    walks' := walks;
    DistancesAreFinite(net, s, dist[..], prev[..], visited[..], walks, u);
    var nbrs := net.neighbours[u];
    forall j | 0 <= j < |nbrs|
      ensures nbrs[j] in nbrs && nbrs[j] < dist.Length
    {
      assert nbrs[j] in net.neighbours[u];
    }
    for k := 0 to |nbrs|
      invariant Labelled(net, s, dist[..], prev[..], visited[..], walks')
      invariant forall v :: 0 <= v < dist.Length && visited[v] ==> dist[v] == old(dist[v])
      invariant forall v :: 0 <= v < dist.Length ==> !Less(old(dist[v]), dist[v])
      invariant forall j :: 0 <= j < k && !visited[nbrs[j]] ==> Relaxed(net, dist[..], u, nbrs[j])
    {
      var v := nbrs[k];
      if !visited[v] {
        DistancesAreFinite(net, s, dist[..], prev[..], visited[..], walks', u);
        var alt := dist[u].value + net.Edge(u, v);
        if Less(Finite(alt), dist[v]) {
          RelaxKeepsLabels(net, s, dist[..], prev[..], visited[..], walks', u, v, alt);
          ghost var d, p := dist[..], prev[..];
          dist[v] := Finite(alt);
          prev[v] := u;
          walks' := walks'[v := walks'[u] + [v]];
          assert dist[..] == d[v := Finite(alt)] && prev[..] == p[v := u];
        }
      }
    }
  }

  // Visiting the nearest node and relaxing its edges keeps everything settled.
  lemma VisitKeepsSettled(
    net: Network, s: nat, dist: seq<Distance>, visited: seq<bool>, u: nat, dist': seq<Distance>)
    requires net.Valid() && |dist| == |visited| == |dist'| == |net.nu| && Settled(net, s, dist, visited)
    requires s < |dist| && dist[s] == Finite(0.0) && u < |dist| && !visited[u] && dist[u].Finite?
    requires forall v: nat :: v < |dist| && !visited[v] ==> !Less(dist[v], dist[u])
    requires forall v: nat :: v < |dist| && visited[u := true][v] ==> dist'[v] == dist[v]
    requires forall v: nat :: v < |dist| ==> !Less(dist[v], dist'[v])
    requires forall v: nat ::
               v in net.neighbours[u] && v < |dist| && !visited[u := true][v] ==> Relaxed(net, dist', u, v)
    ensures Settled(net, s, dist', visited[u := true])
  {
    var now := visited[u := true];
    forall x: nat | x < |dist| && now[x]
      ensures dist'[x].Finite? && forall w :: net.IsWalk(w, s, x) ==> dist'[x].value <= net.Cost(w)
    {
      if x == u {
        forall w | net.IsWalk(w, s, u)
          ensures dist[u].value <= net.Cost(w)
        {
          NearestIsFinal(net, s, dist, visited, u, w);
        }
      }
    }
    forall x: nat, v | x < |dist| && now[x] && v in net.neighbours[x] && v < |dist| && !now[v]
      ensures Relaxed(net, dist', x, v)
    {
      if x != u {
        assert Relaxed(net, dist, x, v);
      }
    }
  }

  lemma VisitKeepsLabels(
    net: Network, s: nat, dist: seq<Distance>, prev: seq<int>, visited: seq<bool>, walks: map<int, seq<nat>>, u: nat)
    requires net.Valid() && Labelled(net, s, dist, prev, visited, walks)
    requires u < |dist| && dist[u].Finite?
    ensures Labelled(net, s, dist, prev, visited[u := true], walks)
  {
    var now := visited[u := true];
    forall v: nat | v < |dist|
      ensures GoodLabel(net, s, dist, prev, now, walks, v)
    {
      assert GoodLabel(net, s, dist, prev, visited, walks, v);
    }
  }

  // The predecessor links spell out walks from s backwards; unreached nodes have none.
  ghost predicate LinkedAt(net: Network, s: nat, prev: seq<int>, walks: map<int, seq<nat>>, v: nat)
    requires net.Valid() && v < |prev| == |net.nu|
  {
    if v !in walks then prev[v] == -1
    else
      && net.IsWalk(walks[v], s, v)
      && (v != s ==> 0 <= prev[v] < |prev| && prev[v] in walks && walks[v] == walks[prev[v]] + [v])
  }

  ghost predicate Linked(net: Network, s: nat, prev: seq<int>, walks: map<int, seq<nat>>)
    requires net.Valid()
  {
    && |prev| == |net.nu| && s < |prev| && prev[s] == -1 && s in walks && walks[s] == [s]
    && forall v: nat :: v < |prev| ==> LinkedAt(net, s, prev, walks, v)
  }

  lemma LabelsAreLinks(
    net: Network, s: nat, dist: seq<Distance>, prev: seq<int>, visited: seq<bool>, walks: map<int, seq<nat>>, t: nat)
    requires net.Valid() && Labelled(net, s, dist, prev, visited, walks) && t < |dist|
    ensures Linked(net, s, prev, walks)
    ensures t in walks <==> dist[t].Finite?
    ensures t in walks ==> net.IsWalk(walks[t], s, t) && net.Cost(walks[t]) == dist[t].value
  {
    assert GoodLabel(net, s, dist, prev, visited, walks, s);
    assert GoodLabel(net, s, dist, prev, visited, walks, t);
    forall v: nat | v < |dist|
      ensures LinkedAt(net, s, prev, walks, v)
    {
      assert GoodLabel(net, s, dist, prev, visited, walks, v);
    }
  }

  // When the search stops, the destination's walk is the cheapest, or there is no walk at all.
  lemma StoppedIsOptimal(
    net: Network, s: nat, t: nat, dist: seq<Distance>, visited: seq<bool>, u: int)
    requires net.Valid() && |dist| == |visited| == |net.nu| && s < |dist| && t < |dist|
    requires Settled(net, s, dist, visited) && dist[s] == Finite(0.0) && !visited[t]
    requires u == -1 || u == t
    requires u == -1 ==> forall v: nat :: v < |dist| && !visited[v] ==> dist[v].Infinite?
    requires u == t ==> dist[t].Finite? && forall v: nat :: v < |dist| && !visited[v] ==> !Less(dist[v], dist[t])
    ensures dist[t].Infinite? ==> forall w :: !net.IsWalk(w, s, t)
    ensures dist[t].Finite? ==> forall w :: net.IsWalk(w, s, t) ==> dist[t].value <= net.Cost(w)
  {
    forall w | net.IsWalk(w, s, t)
      ensures dist[t].Finite? && dist[t].value <= net.Cost(w)
    {
      if u == t {
        NearestIsFinal(net, s, dist, visited, t, w);
      } else {
        var v := FirstUnvisited(net, s, dist, visited, w, t);
      }
    }
  }

  function Unvisited(visited: seq<bool>): nat {
    if visited == [] then 0 else (if visited[0] then 0 else 1) + Unvisited(visited[1..])
  }

  lemma {:induction false} VisitingShrinks(visited: seq<bool>, u: nat)
    requires u < |visited| && !visited[u]
    ensures Unvisited(visited[u := true]) < Unvisited(visited)
  {
    if u > 0 {
      VisitingShrinks(visited[1..], u - 1);
      assert visited[u := true][1..] == visited[1..][u - 1 := true];
    } else {
      assert visited[u := true][1..] == visited[1..];
    }
  }

  // Stops when the destination is nearest, or when nothing more can be reached.
  method Search(net: Network, s: nat, t: nat) returns (prev: array<int>, ghost walks: map<int, seq<nat>>)
    requires net.Valid() && s < |net.nu| && t < |net.nu|
    ensures fresh(prev) && Linked(net, s, prev[..], walks)
    ensures t in walks <==> exists w :: net.IsWalk(w, s, t)
    ensures t in walks ==>
              net.IsWalk(walks[t], s, t) && forall w :: net.IsWalk(w, s, t) ==> net.Cost(walks[t]) <= net.Cost(w)
  {
    hide Labelled, Settled, Linked;
    var n := |net.nu|;
    var dist := new Distance[n](_ => Infinite);
    prev := new int[n](_ => -1);
    var visited := new bool[n](_ => false);
    dist[s] := Finite(0.0);
    walks := map[s := [s]];
    StartIsLabelled(net, s, dist[..], prev[..], visited[..], walks);
    var u := Nearest(dist, visited);
    while u != -1 && u != t
      invariant u == -1 || (0 <= u < n && !visited[u] && dist[u].Finite?
                            && forall v :: 0 <= v < n && !visited[v] ==> !Less(dist[v], dist[u]))
      invariant u == -1 ==> forall v :: 0 <= v < n && !visited[v] ==> dist[v].Infinite?
      invariant Labelled(net, s, dist[..], prev[..], visited[..], walks)
      invariant Settled(net, s, dist[..], visited[..])
      invariant dist[s] == Finite(0.0) && (visited[s] || u == s)
      invariant !visited[t]
      decreases Unvisited(visited[..])
    {
      ghost var d, seen := dist[..], visited[..];
      visited[u] := true;
      VisitingShrinks(seen, u);
      assert visited[..] == seen[u := true];
      VisitKeepsLabels(net, s, d, prev[..], seen, walks, u);
      walks := RelaxNeighbours(net, s, u, dist, prev, visited, walks);
      VisitKeepsSettled(net, s, d, seen, u, dist[..]);
      u := Nearest(dist, visited);
    }
    StoppedIsOptimal(net, s, t, dist[..], visited[..], u);
    LabelsAreLinks(net, s, dist[..], prev[..], visited[..], walks, t);
  }

  lemma StartIsLabelled(
    net: Network, s: nat, dist: seq<Distance>, prev: seq<int>, visited: seq<bool>, walks: map<int, seq<nat>>)
    requires net.Valid() && s < |net.nu| == |dist| == |prev| == |visited|
    requires walks == map[s := [s]] && dist[s] == Finite(0.0)
    requires forall v :: 0 <= v < |dist| ==> (v != s ==> dist[v].Infinite?) && prev[v] == -1 && !visited[v]
    ensures Labelled(net, s, dist, prev, visited, walks) && Settled(net, s, dist, visited)
  {
  }

  function Reversed(path: seq<nat>): (r: seq<nat>)
    ensures |r| == |path|
  {
    if path == [] then [] else Reversed(path[1..]) + [path[0]]
  }

  lemma {:induction false} ReversedAppend(path: seq<nat>, v: nat)
    ensures Reversed(path + [v]) == [v] + Reversed(path)
  {
    if path != [] {
      assert (path + [v])[1..] == path[1..] + [v];
      ReversedAppend(path[1..], v);
    } else {
      assert (path + [v])[1..] == [];
    }
  }

  // Follows the links back from t; the chain ends, at s or at a node without a link.
  method RebuildPath(net: Network, s: nat, t: nat, prev: array<int>, ghost walks: map<int, seq<nat>>)
    returns (path: seq<nat>)
    requires net.Valid() && Linked(net, s, prev[..], walks) && t < prev.Length
    ensures path == if t in walks then walks[t] else [t]
  {
    hide Reversed;
    var back: seq<nat> := [];
    assert Reversed(back) == [];
    var cur: int := t;
    while cur != -1
      invariant t in walks ==> 0 <= cur < prev.Length && cur in walks && walks[t] == walks[cur] + Reversed(back)
      invariant t !in walks ==> (cur == t && back == []) || (cur == -1 && back == [t])
      decreases if cur == -1 then 0 else if cur in walks then |walks[cur]| + 1 else 1
    {
      assert LinkedAt(net, s, prev[..], walks, cur);
      back := back + [cur];
      ReversedAppend(back[..|back| - 1], cur);
      assert back[..|back| - 1] + [cur] == back;
      if cur == s {
        break;
      }
      cur := prev[cur];
    }
    if t !in walks {
      ReversedAppend([], t);
      assert [] + [t] == [t];
    }
    return Reversed(back);
  }

  // Dijkstra's answer: a cheapest walk if there is any walk, and the lone destination otherwise.
  method CheapestPath(net: Network, s: nat, t: nat) returns (path: seq<nat>)
    requires net.Valid() && s < |net.nu| && t < |net.nu|
    ensures (exists w :: net.IsWalk(w, s, t)) ==>
              net.IsWalk(path, s, t) && forall w :: net.IsWalk(w, s, t) ==> net.Cost(path) <= net.Cost(w)
    ensures !(exists w :: net.IsWalk(w, s, t)) ==> path == [t]
  {
    var prev, walks := Search(net, s, t);
    path := RebuildPath(net, s, t, prev, walks);
  }
}
