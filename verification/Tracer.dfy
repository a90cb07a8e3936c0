/** Tracing imports out from a set of focus files, breadth first, down to a maximum depth. */
module Tracer {
  import opened Sets

  type File = string

  // The files each readable file imports; unreadable and missing files import nothing.
  type Imports = map<File, seq<File>>

  function ImportsOf(imports: Imports, file: File): seq<File> {
    if file in imports then imports[file] else []
  }

  // The file imports the other.
  predicate ListedBy(imports: Imports, file: File, next: File) {
    file in imports && next in imports[file]
  }

  // A chain of imports that starts at a focus file.
  ghost predicate Trail(imports: Imports, focus: seq<File>, trail: seq<File>, file: File) {
    && trail != [] && trail[0] in focus && trail[|trail| - 1] == file
    && forall k :: 0 < k < |trail| ==> ListedBy(imports, trail[k - 1], trail[k])
  }

  // Some chain of at most n imports leads to the file.
  ghost predicate WithinImports(imports: Imports, focus: seq<File>, file: File, n: int) {
    exists trail :: Trail(imports, focus, trail, file) && |trail| - 1 <= n
  }

  datatype Item = Item(file: File, depth: nat)

  // One trail per visited file; the files in it are the visited ones.
  type Trails = map<File, seq<File>>

  ghost predicate Truthful(imports: Imports, focus: seq<File>, trails: Trails) {
    && (forall file :: file in focus ==> file in trails && |trails[file]| == 1)
    && forall file :: file in trails ==> Trail(imports, focus, trails[file], file)
  }

  // First in, first out keeps depths in order, and no file anywhere is more than one level ahead.
  ghost predicate Ordered(queue: seq<Item>, trails: Trails) {
    && (forall item :: item in queue ==> item.file in trails && |trails[item.file]| == item.depth + 1)
    && (forall j, k :: 0 <= j < k < |queue| ==> queue[j].depth <= queue[k].depth)
    && (queue != [] ==> forall file :: file in trails ==> |trails[file]| <= queue[0].depth + 2)
  }

  predicate Waiting(queue: seq<Item>, file: File) {
    exists item :: item in queue && item.file == file
  }

  ghost predicate Expanded(imports: Imports, trails: Trails, file: File)
    requires file in trails
  {
    forall next :: next in ImportsOf(imports, file) ==> next in trails && |trails[next]| <= |trails[file]| + 1
  }

  // Every file no longer waiting was expanded, unless it lies at the maximum depth.
  ghost predicate Finished(imports: Imports, queue: seq<Item>, trails: Trails, maxDepth: int) {
    && (forall file :: file in trails && !Waiting(queue, file) && |trails[file]| - 1 < maxDepth ==>
          Expanded(imports, trails, file))
    && (forall file :: file in trails ==> |trails[file]| == 1 || |trails[file]| - 1 <= maxDepth)
  }

  // When nothing waits, any trail's files were all visited, no later than the trail reaches them.
  lemma {:induction false} TrailsWereFollowed(
    imports: Imports, focus: seq<File>, trails: Trails, maxDepth: int, trail: seq<File>, file: File)
    requires Truthful(imports, focus, trails) && Finished(imports, [], trails, maxDepth)
    requires Trail(imports, focus, trail, file) && |trail| - 1 <= maxDepth
    ensures file in trails && |trails[file]| <= |trail|
    decreases |trail|
  {
    if |trail| > 1 {
      var before := trail[..|trail| - 1];
      TrailsWereFollowed(imports, focus, trails, maxDepth, before, before[|before| - 1]);
      assert Expanded(imports, trails, before[|before| - 1]);
    }
  }

  lemma VisitedIsExact(imports: Imports, focus: seq<File>, trails: Trails, maxDepth: int, file: File)
    requires Truthful(imports, focus, trails) && Finished(imports, [], trails, maxDepth)
    requires file !in focus
    ensures file in trails <==> WithinImports(imports, focus, file, maxDepth)
  {
    if file in trails {
      assert Trail(imports, focus, trails[file], file);
      assert |trails[file]| > 1;
    }
    if WithinImports(imports, focus, file, maxDepth) {
      var trail :| Trail(imports, focus, trail, file) && |trail| - 1 <= maxDepth;
      TrailsWereFollowed(imports, focus, trails, maxDepth, trail, file);
    }
  }

  // ---------------------------------------------------------------- termination

  ghost function Everything(imports: Imports, focus: seq<File>): set<File> {
    (set file | file in focus) + (set file, next | file in imports && next in imports[file] :: next)
  }

  ghost function Unseen(imports: Imports, focus: seq<File>, trails: Trails): nat {
    |Everything(imports, focus) - trails.Keys|
  }

  // ---------------------------------------------------------------- expanding one file

  ghost function Discovered(trails: Trails, head: Item, next: File): Trails
    requires head.file in trails
  {
    trails[next := trails[head.file] + [next]]
  }

  // The head's import `next` was not seen before.
  lemma DiscoveryIsTruthful(imports: Imports, focus: seq<File>, head: Item, trails: Trails, next: File)
    requires Truthful(imports, focus, trails) && head.file in trails
    requires next in ImportsOf(imports, head.file) && next !in trails
    ensures Truthful(imports, focus, Discovered(trails, head, next))
    ensures Unseen(imports, focus, Discovered(trails, head, next)) < Unseen(imports, focus, trails)
  {
    var after := Discovered(trails, head, next);
    assert Trail(imports, focus, after[next], next) by {
      assert Trail(imports, focus, trails[head.file], head.file);
    }
    var all := Everything(imports, focus);
    assert next in all;
    SubsetIsSmaller(all - after.Keys, all - trails.Keys);
  }

  lemma DiscoveryIsOrdered(head: Item, queue: seq<Item>, trails: Trails, next: File)
    requires Ordered([head] + queue, trails) && next !in trails
    requires head.file in trails && |trails[head.file]| == head.depth + 1
    ensures Ordered([head] + (queue + [Item(next, head.depth + 1)]), Discovered(trails, head, next))
  {
    var work, added := [head] + queue, Item(next, head.depth + 1);
    var longer, after := [head] + (queue + [added]), Discovered(trails, head, next);
    assert longer == work + [added] && work[0] == head;
    forall j, k | 0 <= j < k < |longer|
      ensures longer[j].depth <= longer[k].depth
    {
      if k == |work| {
        assert work[j] in work;
        assert |trails[work[j].file]| <= head.depth + 2;
      }
    }
    forall item | item in longer
      ensures item.file in after && |after[item.file]| == item.depth + 1
    {
      assert item in work || item == added;
    }
  }

  // What holds while the head's imports are scanned, `found[..n]` being done.
  ghost predicate Scanning(
    start: Trails, head: Item, rest: seq<Item>, found: seq<File>, n: nat, queue: seq<Item>, trails: Trails)
    requires n <= |found|
  {
    && rest <= queue && start.Keys <= trails.Keys
    && (forall file :: file in start ==> trails[file] == start[file])
    && (forall file :: file in trails && file !in start ==>
          Waiting(queue, file) && |trails[file]| == head.depth + 2)
    && (forall k :: 0 <= k < n ==> found[k] in trails && |trails[found[k]]| <= head.depth + 2)
    && (trails.Keys == start.Keys ==> queue == rest)
  }

  lemma ScanningOn(
    start: Trails, head: Item, rest: seq<Item>, found: seq<File>, n: nat, queue: seq<Item>, trails: Trails)
    requires n < |found| && Scanning(start, head, rest, found, n, queue, trails)
    requires head.file in trails && |trails[head.file]| == head.depth + 1
    requires forall file :: file in trails ==> |trails[file]| <= head.depth + 2
    ensures found[n] in trails ==> Scanning(start, head, rest, found, n + 1, queue, trails)
    ensures found[n] !in trails ==>
              Scanning(start, head, rest, found, n + 1, queue + [Item(found[n], head.depth + 1)],
                       Discovered(trails, head, found[n]))
  {
    if found[n] !in trails {
      var longer := queue + [Item(found[n], head.depth + 1)];
      assert forall item :: item in queue ==> item in longer;
      assert longer[|queue|] in longer;
      assert found[n] in Discovered(trails, head, found[n]).Keys && found[n] !in start.Keys;
    }
  }

  lemma ScannedIsFinished(
    imports: Imports, focus: seq<File>, start: Trails, head: Item, rest: seq<Item>, queue: seq<Item>,
    trails: Trails, maxDepth: int)
    requires Finished(imports, [head] + rest, start, maxDepth) && Ordered([head] + rest, start)
    requires head.depth < maxDepth
    requires var found := ImportsOf(imports, head.file); Scanning(start, head, rest, found, |found|, queue, trails)
    ensures Finished(imports, queue, trails, maxDepth)
  {
    var work := [head] + rest;
    assert work[0] == head;
    forall file | file in trails && !Waiting(queue, file) && |trails[file]| - 1 < maxDepth
      ensures Expanded(imports, trails, file)
    {
      assert file in start;
      if file != head.file {
        assert forall item :: item in work ==> item == head || item in queue;
        assert !Waiting(work, file);
        assert Expanded(imports, start, file);
      }
    }
  }

  lemma TailIsOrdered(imports: Imports, focus: seq<File>, head: Item, queue: seq<Item>, trails: Trails)
    requires Ordered([head] + queue, trails)
    ensures Ordered(queue, trails)
    ensures forall file :: file in trails ==> |trails[file]| <= head.depth + 2
    ensures head.file in trails && |trails[head.file]| == head.depth + 1
  {
    var work := [head] + queue;
    assert work[0] == head && head in work;
    assert forall item :: item in queue ==> item in work;
    if queue != [] {
      assert work[1] == queue[0];
    }
    forall j, k | 0 <= j < k < |queue|
      ensures queue[j].depth <= queue[k].depth
    {
      assert work[j + 1] == queue[j] && work[k + 1] == queue[k];
    }
  }

  // Queues the head's imports that were not seen before.
  method Expand(
    imports: Imports, focus: seq<File>, head: Item, rest: seq<Item>, visited: set<File>, external: set<File>,
    ghost start: Trails, maxDepth: int)
    returns (queue: seq<Item>, visited': set<File>, external': set<File>, ghost trails: Trails)
    requires Truthful(imports, focus, start) && Ordered([head] + rest, start)
    requires Finished(imports, [head] + rest, start, maxDepth) && head.depth < maxDepth
    requires visited == start.Keys && external == visited - (set file | file in focus)
    ensures Truthful(imports, focus, trails) && Ordered(queue, trails)
    ensures Finished(imports, queue, trails, maxDepth)
    ensures visited' == trails.Keys && external' == visited' - (set file | file in focus)
    ensures Unseen(imports, focus, trails) < Unseen(imports, focus, start)
            || (Unseen(imports, focus, trails) == Unseen(imports, focus, start) && queue == rest)
  {
    hide Ordered, Finished, Scanning, Unseen;
    queue, visited', external', trails := rest, visited, external, start;
    var found := ImportsOf(imports, head.file);
    assert Scanning(start, head, rest, found, 0, queue, trails) by {
      ScanningStarts(start, head, rest, found);
    }
    for n := 0 to |found|
      invariant Truthful(imports, focus, trails) && Ordered([head] + queue, trails)
      invariant Scanning(start, head, rest, found, n, queue, trails)
      invariant visited' == trails.Keys && external' == visited' - (set file | file in focus)
      invariant Unseen(imports, focus, trails) < Unseen(imports, focus, start)
                || (Unseen(imports, focus, trails) == Unseen(imports, focus, start) && queue == rest)
    {
      var next := found[n];
      TailIsOrdered(imports, focus, head, queue, trails);
      ScanningOn(start, head, rest, found, n, queue, trails);
      if next !in visited' {
        DiscoveryIsTruthful(imports, focus, head, trails, next);
        DiscoveryIsOrdered(head, queue, trails, next);
        visited' := visited' + {next};
        external' := external' + {next};
        queue := queue + [Item(next, head.depth + 1)];
        trails := Discovered(trails, head, next);
      }
    }
    TailIsOrdered(imports, focus, head, queue, trails);
    ScannedIsFinished(imports, focus, start, head, rest, queue, trails, maxDepth);
  }

  lemma ScanningStarts(start: Trails, head: Item, rest: seq<Item>, found: seq<File>)
    ensures Scanning(start, head, rest, found, 0, rest, start)
  {
  }

  // A file at the maximum depth leaves the queue unexpanded.
  lemma DroppedIsFinished(imports: Imports, head: Item, rest: seq<Item>, trails: Trails, maxDepth: int)
    requires Finished(imports, [head] + rest, trails, maxDepth) && Ordered([head] + rest, trails)
    requires head.depth >= maxDepth
    ensures Finished(imports, rest, trails, maxDepth)
  {
    var work := [head] + rest;
    assert work[0] == head && head in work;
    forall file | file in trails && !Waiting(rest, file) && |trails[file]| - 1 < maxDepth
      ensures Expanded(imports, trails, file)
    {
      assert forall item :: item in work ==> item == head || item in rest;
      assert !Waiting(work, file);
    }
  }

  function Seeds(focus: seq<File>): seq<Item> {
    seq(|focus|, k requires 0 <= k < |focus| => Item(focus[k], 0))
  }

  lemma SeedsAreOrdered(imports: Imports, focus: seq<File>, maxDepth: int)
    ensures var trails := map file | file in focus :: [file];
            Truthful(imports, focus, trails) && Ordered(Seeds(focus), trails)
            && Finished(imports, Seeds(focus), trails, maxDepth)
  {
    var trails := map file | file in focus :: [file];
    forall file | file in trails
      ensures Waiting(Seeds(focus), file)
    {
      var k :| 0 <= k < |focus| && focus[k] == file;
      assert Seeds(focus)[k] in Seeds(focus);
    }
  }

  // The files outside the focus set whose shortest chain of imports from it is at most maxDepth.
  method TraceDependencies(imports: Imports, focus: seq<File>, maxDepth: int) returns (external: set<File>)
    ensures forall file :: file in external <==> file !in focus && WithinImports(imports, focus, file, maxDepth)
  {
    hide Ordered, Finished, Truthful, Unseen, WithinImports;
    var visited := set file | file in focus;
    external := {};
    var queue := Seeds(focus);
    ghost var trails: Trails := map file | file in focus :: [file];
    SeedsAreOrdered(imports, focus, maxDepth);
    while queue != []
      invariant Truthful(imports, focus, trails) && Ordered(queue, trails)
      invariant Finished(imports, queue, trails, maxDepth)
      invariant visited == trails.Keys && external == visited - (set file | file in focus)
      decreases Unseen(imports, focus, trails), |queue|
    {
      var head, rest := queue[0], queue[1..];
      assert queue == [head] + rest;
      if head.depth < maxDepth {
        queue, visited, external, trails :=
          Expand(imports, focus, head, rest, visited, external, trails, maxDepth);
      } else {
        TailIsOrdered(imports, focus, head, rest, trails);
        DroppedIsFinished(imports, head, rest, trails, maxDepth);
        queue := rest;
      }
    }
    forall file | file !in focus
      ensures file in external <==> WithinImports(imports, focus, file, maxDepth)
    {
      VisitedIsExact(imports, focus, trails, maxDepth, file);
    }
  }
}
