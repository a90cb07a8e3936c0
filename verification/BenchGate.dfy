/** The verdict of the benchmark gate: a metric regressed when the best head observation falls short
    of the best base observation by more than its limit, and of every base observation besides. */
module BenchGate {

  // One benchmark run: throughput per metric.
  type Run = map<string, real>

  // Every observation of a metric, in run order.
  function Observations(runs: seq<Run>, name: string): seq<real> {
    if runs == [] then []
    else
      var last := |runs| - 1;
      Observations(runs[..last], name) + if name in runs[last] then [runs[last][name]] else []
  }

  // Those are the values that the runs give the metric.
  lemma {:induction false} ObservationsExactly(runs: seq<Run>, name: string, value: real)
    ensures value in Observations(runs, name) <==>
              exists k :: 0 <= k < |runs| && name in runs[k] && runs[k][name] == value
  {
    if runs != [] {
      var front := runs[..|runs| - 1];
      ObservationsExactly(front, name, value);
      assert forall k :: 0 <= k < |front| ==> front[k] == runs[k];
    }
  }

  type Samples = map<string, seq<real>>

  ghost predicate SamplesOf(samples: Samples, runs: seq<Run>) {
    forall name ::
      && (name in samples <==> Observations(runs, name) != [])
      && (name in samples ==> samples[name] == Observations(runs, name))
  }

  method CollectSamples(runs: seq<Run>) returns (out: Samples)
    ensures SamplesOf(out, runs)
  {
    out := map[];
    for n := 0 to |runs|
      invariant SamplesOf(out, runs[..n])
    {
      assert runs[..n + 1][..n] == runs[..n];
      ghost var before := out;
      var todo := runs[n].Keys;
      while todo != {}
        invariant todo <= runs[n].Keys
        invariant forall name :: name in out <==> name in before || name in runs[n].Keys - todo
        invariant forall name :: name in out ==>
                    out[name] == (if name in before then before[name] else [])
                                 + if name in runs[n].Keys - todo then [runs[n][name]] else []
        decreases todo
      {
        var name :| name in todo;
        out := out[name := (if name in out then out[name] else []) + [runs[n][name]]];
        todo := todo - {name};
      }
    }
    assert runs[..|runs|] == runs;
  }

  function Best(values: seq<real>): (best: real)
    requires values != []
    ensures best in values && forall v :: v in values ==> v <= best
  {
    if |values| == 1 then values[0]
    else
      var rest := Best(values[1..]);
      assert values == [values[0]] + values[1..];
      if values[0] >= rest then values[0] else rest
  }

  function Worst(values: seq<real>): (worst: real)
    requires values != []
    ensures worst in values && forall v :: v in values ==> worst <= v
  {
    if |values| == 1 then values[0]
    else
      var rest := Worst(values[1..]);
      assert values == [values[0]] + values[1..];
      if values[0] <= rest then values[0] else rest
  }

  // The global tolerance, and the items of the override dictionary in its order, so no name or
  // pattern comes twice; `matches` is fnmatch.fnmatchcase.
  datatype Limits = Limits(global: real, overrides: seq<(string, real)>, matches: (string, string) -> bool) {

    // The override declared for the very name.
    function Exact(metric: string, n: nat): (k: int)
      requires n <= |overrides|
      ensures -1 <= k < n
    {
      if n == 0 then -1 else if overrides[n - 1].0 == metric then n - 1 else Exact(metric, n - 1)
    }

    // The longest matching pattern, the earliest of several.
    function Longest(metric: string, n: nat): (k: int)
      requires n <= |overrides|
      ensures -1 <= k < n
    {
      if n == 0 then -1
      else
        var before := Longest(metric, n - 1);
        if matches(metric, overrides[n - 1].0) && (before == -1 || |overrides[before].0| < |overrides[n - 1].0|)
        then n - 1 else before
    }

    function LimitFor(metric: string): real {
      var exact := Exact(metric, |overrides|);
      if exact != -1 then overrides[exact].1
      else
        var longest := Longest(metric, |overrides|);
        if longest != -1 then overrides[longest].1 else global
    }

    lemma {:induction false} ExactIsLast(metric: string, n: nat)
      requires n <= |overrides|
      ensures var k := Exact(metric, n);
              && (k != -1 ==> overrides[k].0 == metric)
              && forall j :: k < j < n ==> overrides[j].0 != metric
    {
      if n > 0 && overrides[n - 1].0 != metric {
        ExactIsLast(metric, n - 1);
      }
    }

    lemma {:induction false} LongestIsLongest(metric: string, n: nat)
      requires n <= |overrides|
      ensures var k := Longest(metric, n);
              && (k != -1 ==> matches(metric, overrides[k].0))
              && forall j :: 0 <= j < n && matches(metric, overrides[j].0) ==>
                   k != -1 && |overrides[j].0| <= |overrides[k].0|
                   && (j < k ==> |overrides[j].0| < |overrides[k].0|)
    {
      if n > 0 {
        LongestIsLongest(metric, n - 1);
      }
    }

    // An override for the very name comes first; then the longest matching pattern, the earliest of
    // several; then the global limit.
    lemma LimitForExactly(metric: string)
      ensures (exists k :: 0 <= k < |overrides| && overrides[k].0 == metric) ==>
                exists k :: 0 <= k < |overrides| && overrides[k].0 == metric && LimitFor(metric) == overrides[k].1
                            && forall j :: k < j < |overrides| ==> overrides[j].0 != metric
      ensures (forall k :: 0 <= k < |overrides| ==> overrides[k].0 != metric)
              && (exists k :: 0 <= k < |overrides| && matches(metric, overrides[k].0)) ==>
                exists k ::
                  && 0 <= k < |overrides| && matches(metric, overrides[k].0) && LimitFor(metric) == overrides[k].1
                  && forall j :: 0 <= j < |overrides| && matches(metric, overrides[j].0) ==>
                       |overrides[j].0| <= |overrides[k].0| && (j < k ==> |overrides[j].0| < |overrides[k].0|)
      ensures (forall k :: 0 <= k < |overrides| ==>
                 overrides[k].0 != metric && !matches(metric, overrides[k].0)) ==>
                LimitFor(metric) == global
    {
      ExactIsLast(metric, |overrides|);
      LongestIsLongest(metric, |overrides|);
    }
  }

  // A metric fails when the head lost it, or when it regressed.
  predicate Fails(head: Samples, base: Samples, limits: Limits, name: string)
    requires name in base && base[name] != [] && (name in head ==> head[name] != [])
  {
    var best := Best(base[name]);
    if name !in head then true
    else if best <= 0.0 then false
    else
      && Best(head[name]) / best < 1.0 - limits.LimitFor(name)
      && Best(head[name]) < Worst(base[name])
  }

  // A comparable, non-empty baseline without failing metrics.
  ghost predicate Passes(head: seq<Run>, base: seq<Run>, limits: Limits, comparable: bool) {
    && comparable
    && (exists name :: Observations(base, name) != [])
    && forall name :: Observations(base, name) != [] ==> MetricPasses(head, base, limits, name)
  }

  ghost predicate MetricPasses(head: seq<Run>, base: seq<Run>, limits: Limits, name: string)
    requires Observations(base, name) != []
  {
    var h, b := Observations(head, name), Observations(base, name);
    h != [] && (Best(b) > 0.0 ==> Best(h) / Best(b) >= 1.0 - limits.LimitFor(name) || Best(h) >= Worst(b))
  }

  predicate WithinLimit(h: real, top: real, limit: real) {
    h >= (1.0 - limit) * top
  }

  // Some head observation is within the limit of the best base observation, or reaches any base
  // observation at all; or no base observation is positive.
  ghost predicate HoldsUp(hs: seq<real>, bs: seq<real>, limit: real) {
    exists h, top ::
      && h in hs && top in bs && (forall b :: b in bs ==> b <= top)
      && (top <= 0.0 || WithinLimit(h, top, limit) || exists b :: b in bs && h >= b)
  }

  lemma MetricPassesExactly(head: seq<Run>, base: seq<Run>, limits: Limits, name: string)
    requires Observations(base, name) != []
    ensures MetricPasses(head, base, limits, name)
            <==> HoldsUp(Observations(head, name), Observations(base, name), limits.LimitFor(name))
  {
    var hs, bs, limit := Observations(head, name), Observations(base, name), limits.LimitFor(name);
    assert hs != [] && Best(bs) > 0.0 ==>
        (Best(hs) / Best(bs) >= 1.0 - limit <==> WithinLimit(Best(hs), Best(bs), limit)) by {
      if hs != [] && Best(bs) > 0.0 {
        DividingBack(Best(hs), Best(bs), 1.0 - limit);
      }
    }
    assert MetricPasses(head, base, limits, name) <==>
        hs != [] && (Best(bs) > 0.0 ==> WithinLimit(Best(hs), Best(bs), limit) || Best(hs) >= Worst(bs));
    hide *;
    if hs != [] && (Best(bs) > 0.0 ==> WithinLimit(Best(hs), Best(bs), limit) || Best(hs) >= Worst(bs)) {
      BestHoldsUp(hs, bs, limit);
    }
    if HoldsUp(hs, bs, limit) {
      HoldsUpByBest(hs, bs, limit);
    }
  }

  lemma BestHoldsUp(hs: seq<real>, bs: seq<real>, limit: real)
    requires hs != [] && bs != []
    requires Best(bs) > 0.0 ==> WithinLimit(Best(hs), Best(bs), limit) || Best(hs) >= Worst(bs)
    ensures HoldsUp(hs, bs, limit)
  {
    var h, top, least := Best(hs), Best(bs), Worst(bs);
    hide Best, Worst, WithinLimit;
    assert h in hs && top in bs && least in bs;
  }

  lemma HoldsUpByBest(hs: seq<real>, bs: seq<real>, limit: real)
    requires bs != [] && HoldsUp(hs, bs, limit)
    ensures hs != [] && (Best(bs) > 0.0 ==> WithinLimit(Best(hs), Best(bs), limit) || Best(hs) >= Worst(bs))
  {
    hide Best, Worst, WithinLimit;
    var h, top :| && h in hs && top in bs && (forall b :: b in bs ==> b <= top)
                  && (top <= 0.0 || WithinLimit(h, top, limit) || exists b :: b in bs && h >= b);
    assert top == Best(bs) && h <= Best(hs);
    Bigger(h, Best(hs), top, limit);
  }

  lemma Bigger(h: real, best: real, top: real, limit: real)
    requires h <= best
    ensures WithinLimit(h, top, limit) ==> WithinLimit(best, top, limit)
  {
  }

  lemma DividingBack(a: real, c: real, limit: real)
    requires c > 0.0
    ensures a / c >= limit <==> a >= limit * c
  {
    var q := a / c;
    assert q * c == a;
    assert a - limit * c == (q - limit) * c;
  }

  lemma PassesExactly(head: seq<Run>, base: seq<Run>, limits: Limits, comparable: bool)
    ensures Passes(head, base, limits, comparable) <==>
              && comparable && (exists name :: Observations(base, name) != [])
              && forall name :: Observations(base, name) != [] ==>
                   HoldsUp(Observations(head, name), Observations(base, name), limits.LimitFor(name))
  {
    hide HoldsUp, MetricPasses;
    if Passes(head, base, limits, comparable) {
      forall name | Observations(base, name) != []
        ensures HoldsUp(Observations(head, name), Observations(base, name), limits.LimitFor(name))
      {
        MetricPassesExactly(head, base, limits, name);
      }
      assert exists name :: Observations(base, name) != [];
    } else if exists name :: Observations(base, name) != [] && !MetricPasses(head, base, limits, name) {
      var name :| Observations(base, name) != [] && !MetricPasses(head, base, limits, name);
      MetricPassesExactly(head, base, limits, name);
    }
  }

  // The gate: the failing metrics, and whether the comparison passes.
  method Gate(head: seq<Run>, base: seq<Run>, limits: Limits, comparable: bool)
    returns (pass: bool, failures: set<string>)
    ensures pass <==> Passes(head, base, limits, comparable)
    ensures pass <==>
              && comparable && (exists name :: Observations(base, name) != [])
              && forall name :: Observations(base, name) != [] ==>
                   HoldsUp(Observations(head, name), Observations(base, name), limits.LimitFor(name))
    ensures comparable ==> forall name :: name in failures <==>
              Observations(base, name) != [] && !MetricPasses(head, base, limits, name)
  {
    PassesExactly(head, base, limits, comparable);
    hide HoldsUp;
    var current := CollectSamples(head);
    var baseline := CollectSamples(base);
    failures := {};
    if !comparable {
      return false, {};
    }
    if baseline == map[] {
      assert forall name :: name !in baseline;
      return false, {};
    }
    var todo := baseline.Keys;
    while todo != {}
      invariant todo <= baseline.Keys
      invariant forall name ::
                  name in failures <==> name in baseline.Keys - todo && Fails(current, baseline, limits, name)
      decreases todo
    {
      var name :| name in todo;
      if Fails(current, baseline, limits, name) {
        failures := failures + {name};
      }
      todo := todo - {name};
    }
    forall name | name in baseline
      ensures Fails(current, baseline, limits, name) <==> !MetricPasses(head, base, limits, name)
    {
    }
    var some :| some in baseline;
    assert Observations(base, some) != [];
    pass := failures == {};
    if pass {
      forall name | Observations(base, name) != []
        ensures MetricPasses(head, base, limits, name)
      {
        assert name in baseline && name !in failures;
      }
    } else {
      var name :| name in failures;
      assert name in baseline;
    }
  }

  // ---------------------------------------------------------------- what the verdict means

  // A reported regression separates the two sets of observations completely.
  lemma RegressionSeparates(head: seq<Run>, base: seq<Run>, limits: Limits, name: string, h: real, b: real)
    requires Observations(base, name) != [] && !MetricPasses(head, base, limits, name)
    requires h in Observations(head, name) && b in Observations(base, name)
    ensures h < b
  {
  }

  // The head's best never got worse.
  ghost predicate Improves(head: seq<Run>, better: seq<Run>) {
    forall name :: Observations(head, name) != [] ==>
      && Observations(better, name) != []
      && Best(Observations(better, name)) >= Best(Observations(head, name))
  }

  lemma Dividing(a: real, b: real, c: real)
    requires a <= b && c > 0.0
    ensures a / c <= b / c
  {
    var p, q := a / c, b / c;
    assert p * c == a && q * c == b;
    assert (q - p) * c == b - a;
  }

  // Better head observations and a wider global limit never turn a pass into a failure.
  lemma PassingIsMonotone(
    head: seq<Run>, better: seq<Run>, base: seq<Run>, limits: Limits, wider: real, comparable: bool)
    requires Passes(head, base, limits, comparable) && Improves(head, better) && wider >= limits.global
    ensures Passes(better, base, limits.(global := wider), comparable)
  {
    var loose := limits.(global := wider);
    forall name | Observations(base, name) != []
      ensures MetricPasses(better, base, loose, name)
    {
      assert MetricPasses(head, base, limits, name);
      SameOverrides(limits, loose, name, |limits.overrides|);
      var h, h', b := Observations(head, name), Observations(better, name), Observations(base, name);
      if Best(b) > 0.0 {
        Dividing(Best(h), Best(h'), Best(b));
      }
    }
  }

  lemma {:induction false} SameOverrides(a: Limits, b: Limits, metric: string, n: nat)
    requires a.overrides == b.overrides && a.matches == b.matches && n <= |a.overrides|
    ensures a.Exact(metric, n) == b.Exact(metric, n) && a.Longest(metric, n) == b.Longest(metric, n)
  {
    if n > 0 {
      SameOverrides(a, b, metric, n - 1);
    }
  }

  // Adding a run improves the head.
  lemma AddingARunImproves(head: seq<Run>, run: Run)
    ensures Improves(head, head + [run])
  {
    assert (head + [run])[..|head|] == head;
    forall name | Observations(head, name) != []
      ensures Observations(head + [run], name) != []
      ensures Best(Observations(head + [run], name)) >= Best(Observations(head, name))
    {
      var best := Best(Observations(head, name));
      assert best in Observations(head + [run], name);
    }
  }

  // So does raising one observation.
  lemma RaisingImproves(head: seq<Run>, k: nat, name: string, value: real)
    requires k < |head| && name in head[k] && value >= head[k][name]
    ensures Improves(head, head[k := head[k][name := value]])
    decreases |head|
  {
    var better := head[k := head[k][name := value]];
    forall metric | Observations(head, metric) != []
      ensures Observations(better, metric) != []
      ensures Best(Observations(better, metric)) >= Best(Observations(head, metric))
    {
      RaisedObservations(head, k, name, value, metric);
      var h, h' := Observations(head, metric), Observations(better, metric);
      var j :| 0 <= j < |h| && h[j] == Best(h);
      assert h'[j] in h';
    }
  }

  lemma {:induction false} RaisedObservations(head: seq<Run>, k: nat, name: string, value: real, metric: string)
    requires k < |head| && name in head[k] && value >= head[k][name]
    ensures var h, h' := Observations(head, metric), Observations(head[k := head[k][name := value]], metric);
            |h| == |h'| && forall j :: 0 <= j < |h| ==> h[j] <= h'[j]
    decreases |head|
  {
    var last := |head| - 1;
    var better := head[k := head[k][name := value]];
    if k < last {
      assert better[..last] == head[..last][k := head[k][name := value]];
      RaisedObservations(head[..last], k, name, value, metric);
    } else {
      assert better[..last] == head[..last];
    }
  }

  lemma {:induction false} ObservationsComeFromRuns(runs: seq<Run>, name: string, v: real)
    requires v in Observations(runs, name)
    ensures exists k :: 0 <= k < |runs| && name in runs[k] && runs[k][name] == v
  {
    var last := |runs| - 1;
    if v in Observations(runs[..last], name) {
      ObservationsComeFromRuns(runs[..last], name, v);
    } else {
      assert name in runs[last] && runs[last][name] == v;
    }
  }

  lemma LimitIsNonNegative(limits: Limits, metric: string)
    requires limits.global >= 0.0 && forall k :: 0 <= k < |limits.overrides| ==> limits.overrides[k].1 >= 0.0
    ensures limits.LimitFor(metric) >= 0.0
  {
  }

  lemma DividingBySelf(a: real)
    requires a > 0.0
    ensures a / a == 1.0
  {
  }

  // Positive results pass against themselves under limits that are not negative.
  lemma SelfComparisonPasses(runs: seq<Run>, limits: Limits, name: string)
    requires forall k, metric :: 0 <= k < |runs| && metric in runs[k] ==> runs[k][metric] > 0.0
    requires Observations(runs, name) != []
    requires limits.global >= 0.0 && forall k :: 0 <= k < |limits.overrides| ==> limits.overrides[k].1 >= 0.0
    ensures Passes(runs, runs, limits, true)
  {
    hide Limits.LimitFor;
    forall metric | Observations(runs, metric) != []
      ensures MetricPasses(runs, runs, limits, metric)
    {
      var h := Observations(runs, metric);
      ObservationsComeFromRuns(runs, metric, Best(h));
      LimitIsNonNegative(limits, metric);
      DividingBySelf(Best(h));
    }
  }
}
