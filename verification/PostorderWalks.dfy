/** The depth-first walk behind postorder, on plain values: which tasks it meets, in what order
and at what depth. */
module PostorderWalks {
  import opened Graphs

  // Tasks are told apart by identity.
  type Task = int

  datatype TaskInfo = TaskInfo(namespaces: seq<string>, dependencies: seq<Task>)

  type Tasks = map<Task, TaskInfo>

  // Dependencies are tasks, and getNamespaces always returns at least one namespace.
  ghost predicate WellFormed(tasks: Tasks) {
    forall t | t in tasks ::
      && tasks[t].namespaces != []
      && forall d | d in tasks[t].dependencies :: d in tasks
  }

  // (a, b): task a depends on task b.
  ghost function DependencyArcs(tasks: Tasks): set<(Task, Task)> {
    set a, b | a in tasks && b in tasks[a].dependencies :: (a, b)
  }

  // A task met, and how deep below the task the walk started from.
  datatype Stop = Stop(task: Task, depth: nat)

  datatype Trail = Trail(stops: seq<Stop>, seen: set<Task>)

  function Deeper(stops: seq<Stop>): (r: seq<Stop>)
    ensures |r| == |stops|
  {
    seq(|stops|, i requires 0 <= i < |stops| => Stop(stops[i].task, stops[i].depth + 1))
  }

  // One call of visit on a task not seen before.
  ghost function Walk(tasks: Tasks, node: Task, seen: set<Task>): (trail: Trail)
    requires WellFormed(tasks) && node in tasks && node !in seen
    ensures seen + {node} <= trail.seen
    decreases tasks.Keys - seen, 0
  {
    var below := WalkAll(tasks, tasks[node].dependencies, seen + {node});
    Trail(below.stops + [Stop(node, 0)], below.seen)
  }

  // The loop over a task's children.
  ghost function WalkAll(tasks: Tasks, children: seq<Task>, seen: set<Task>): (trail: Trail)
    requires WellFormed(tasks) && forall c | c in children :: c in tasks
    ensures seen <= trail.seen
    decreases tasks.Keys - seen, |children|
  {
    if children == [] then Trail([], seen)
    else if children[0] in seen then WalkAll(tasks, children[1..], seen)
    else
      var first := Walk(tasks, children[0], seen);
      assert tasks.Keys - first.seen <= tasks.Keys - seen;
      var rest := WalkAll(tasks, children[1..], first.seen);
      Trail(Deeper(first.stops) + rest.stops, rest.seen)
  }

  ghost predicate Meets(stops: seq<Stop>, t: Task) {
    exists i :: 0 <= i < |stops| && stops[i].task == t
  }

  ghost predicate MeetsOnce(stops: seq<Stop>) {
    forall i, j | 0 <= i < j < |stops| :: stops[i].task != stops[j].task
  }

  lemma MeetsConcat(a: seq<Stop>, b: seq<Stop>, t: Task)
    ensures Meets(a + b, t) <==> Meets(a, t) || Meets(b, t)
  {
    if Meets(a, t) {
      var i :| 0 <= i < |a| && a[i].task == t;
      assert (a + b)[i].task == t;
    }
    if Meets(b, t) {
      var i :| 0 <= i < |b| && b[i].task == t;
      assert (a + b)[|a| + i].task == t;
    }
  }

  lemma MeetsDeeper(stops: seq<Stop>, t: Task)
    ensures Meets(Deeper(stops), t) <==> Meets(stops, t)
  {
    if Meets(stops, t) {
      var i :| 0 <= i < |stops| && stops[i].task == t;
      assert Deeper(stops)[i].task == t;
    }
  }

  lemma MeetsOnceConcat(a: seq<Stop>, b: seq<Stop>)
    requires MeetsOnce(a) && MeetsOnce(b) && forall t :: !(Meets(a, t) && Meets(b, t))
    ensures MeetsOnce(a + b)
  {
    forall i, j | 0 <= i < j < |a + b| ensures (a + b)[i].task != (a + b)[j].task {
      if i < |a| <= j {
        assert Meets(a, a[i].task);
        assert Meets(b, b[j - |a|].task);
      }
    }
  }

  // A walk meets exactly the tasks it adds to seen, each once.
  ghost predicate AddsWhatItMeets(trail: Trail, seen: set<Task>) {
    && MeetsOnce(trail.stops)
    && forall t :: Meets(trail.stops, t) <==> t in trail.seen - seen
  }

  lemma {:induction false} WalkAddsWhatItMeets(tasks: Tasks, node: Task, seen: set<Task>)
    requires WellFormed(tasks) && node in tasks && node !in seen
    ensures AddsWhatItMeets(Walk(tasks, node, seen), seen)
    decreases tasks.Keys - seen, 0
  {
    var below := WalkAll(tasks, tasks[node].dependencies, seen + {node});
    WalkAllAddsWhatItMeets(tasks, tasks[node].dependencies, seen + {node});
    JoinTrails(below.stops, [Stop(node, 0)], below.seen - (seen + {node}), {node});
    assert [Stop(node, 0)][0].task == node;
  }

  lemma JoinTrails(a: seq<Stop>, b: seq<Stop>, s: set<Task>, t: set<Task>)
    requires MeetsOnce(a) && MeetsOnce(b) && s !! t
    requires forall x :: Meets(a, x) ==> x in s
    requires forall x :: Meets(b, x) ==> x in t
    ensures MeetsOnce(a + b)
    ensures forall x :: Meets(a + b, x) <==> Meets(a, x) || Meets(b, x)
  {
    hide Meets, MeetsOnce;
    forall x ensures Meets(a + b, x) <==> Meets(a, x) || Meets(b, x) {
      MeetsConcat(a, b, x);
    }
    MeetsOnceConcat(a, b);
  }

  lemma {:induction false} WalkAllAddsWhatItMeets(tasks: Tasks, children: seq<Task>, seen: set<Task>)
    requires WellFormed(tasks) && forall c | c in children :: c in tasks
    ensures AddsWhatItMeets(WalkAll(tasks, children, seen), seen)
    decreases tasks.Keys - seen, |children|
  {
    if children == [] {
    } else if children[0] in seen {
      WalkAllAddsWhatItMeets(tasks, children[1..], seen);
    } else {
      var first := Walk(tasks, children[0], seen);
      WalkAddsWhatItMeets(tasks, children[0], seen);
      assert tasks.Keys - first.seen <= tasks.Keys - seen;
      WalkAllAddsWhatItMeets(tasks, children[1..], first.seen);
      var rest := WalkAll(tasks, children[1..], first.seen);
      forall t ensures Meets(Deeper(first.stops), t) <==> Meets(first.stops, t) {
        MeetsDeeper(first.stops, t);
      }
      JoinTrails(Deeper(first.stops), rest.stops, first.seen - seen, rest.seen - first.seen);
    }
  }

  // ---------- Closure and reachability ----------

  // Every dependency of a task met has been seen by the end.
  lemma {:induction false} WalkIsClosed(tasks: Tasks, node: Task, seen: set<Task>, t: Task, d: Task)
    requires WellFormed(tasks) && node in tasks && node !in seen
    requires t in Walk(tasks, node, seen).seen - seen && t in tasks && d in tasks[t].dependencies
    ensures d in Walk(tasks, node, seen).seen
    decreases tasks.Keys - seen, 0
  {
    ChildrenAreSeen(tasks, tasks[node].dependencies, seen + {node});
    if t != node {
      WalkAllIsClosed(tasks, tasks[node].dependencies, seen + {node}, t, d);
    }
  }

  lemma {:induction false} ChildrenAreSeen(tasks: Tasks, children: seq<Task>, seen: set<Task>)
    requires WellFormed(tasks) && forall c | c in children :: c in tasks
    ensures forall c | c in children :: c in WalkAll(tasks, children, seen).seen
    decreases tasks.Keys - seen, |children|
  {
    if children == [] {
    } else if children[0] in seen {
      ChildrenAreSeen(tasks, children[1..], seen);
    } else {
      var first := Walk(tasks, children[0], seen);
      assert tasks.Keys - first.seen <= tasks.Keys - seen;
      ChildrenAreSeen(tasks, children[1..], first.seen);
    }
  }

  lemma {:induction false} WalkAllIsClosed(tasks: Tasks, children: seq<Task>, seen: set<Task>, t: Task, d: Task)
    requires WellFormed(tasks) && forall c | c in children :: c in tasks
    requires t in WalkAll(tasks, children, seen).seen - seen && t in tasks && d in tasks[t].dependencies
    ensures d in WalkAll(tasks, children, seen).seen
    decreases tasks.Keys - seen, |children|
  {
    if children[0] in seen {
      WalkAllIsClosed(tasks, children[1..], seen, t, d);
    } else {
      var first := Walk(tasks, children[0], seen);
      assert tasks.Keys - first.seen <= tasks.Keys - seen;
      if t in first.seen {
        WalkIsClosed(tasks, children[0], seen, t, d);
      } else {
        WalkAllIsClosed(tasks, children[1..], first.seen, t, d);
      }
    }
  }

  // There is a chain of that many dependencies from a to b.
  ghost predicate ChainOf(tasks: Tasks, a: Task, b: Task, length: nat) {
    exists p :: PathFromTo(DependencyArcs(tasks), p, a, b) && |p| == length + 1
  }

  lemma LongerChain(tasks: Tasks, a: Task, b: Task, c: Task, length: nat)
    requires a in tasks && b in tasks[a].dependencies && ChainOf(tasks, b, c, length)
    ensures ChainOf(tasks, a, c, length + 1)
  {
    var arcs := DependencyArcs(tasks);
    var p :| PathFromTo(arcs, p, b, c) && |p| == length + 1;
    JoinPaths(arcs, [a, b], p, a, b, c);
  }

  // A task met at depth n hangs on a chain of n dependencies from where the walk started.
  lemma {:induction false} WalkFollowsChains(tasks: Tasks, node: Task, seen: set<Task>, i: nat)
    requires WellFormed(tasks) && node in tasks && node !in seen
    requires i < |Walk(tasks, node, seen).stops|
    ensures var stop := Walk(tasks, node, seen).stops[i];
            && ChainOf(tasks, node, stop.task, stop.depth) && stop.task in tasks
            && (stop.depth == 0 <==> i == |Walk(tasks, node, seen).stops| - 1)
    decreases tasks.Keys - seen, 0
  {
    var below := WalkAll(tasks, tasks[node].dependencies, seen + {node});
    if i < |below.stops| {
      WalkAllFollowsChains(tasks, node, tasks[node].dependencies, seen + {node}, i);
    } else {
      assert PathFromTo(DependencyArcs(tasks), [node], node, node);
    }
  }

  lemma {:induction false} WalkAllFollowsChains(tasks: Tasks, node: Task, children: seq<Task>,
                                                seen: set<Task>, i: nat)
    requires WellFormed(tasks) && node in tasks
    requires forall c | c in children :: c in tasks && c in tasks[node].dependencies
    requires i < |WalkAll(tasks, children, seen).stops|
    ensures var stop := WalkAll(tasks, children, seen).stops[i];
            ChainOf(tasks, node, stop.task, stop.depth) && stop.task in tasks && stop.depth >= 1
    decreases tasks.Keys - seen, |children|
  {
    if children[0] in seen {
      WalkAllFollowsChains(tasks, node, children[1..], seen, i);
    } else {
      var first := Walk(tasks, children[0], seen);
      assert tasks.Keys - first.seen <= tasks.Keys - seen;
      if i < |first.stops| {
        WalkFollowsChains(tasks, children[0], seen, i);
        LongerChain(tasks, node, children[0], first.stops[i].task, first.stops[i].depth);
      } else {
        WalkAllFollowsChains(tasks, node, children[1..], first.seen, i - |first.stops|);
      }
    }
  }

  // From a fresh start, the walk meets exactly the tasks reachable from its start, each once.
  lemma WalkMeetsReachable(tasks: Tasks, start: Task, t: Task)
    requires WellFormed(tasks) && start in tasks
    ensures MeetsOnce(Walk(tasks, start, {}).stops)
    ensures Meets(Walk(tasks, start, {}).stops, t) <==> Reaches(DependencyArcs(tasks), start, t)
    ensures t in Walk(tasks, start, {}).seen <==> Reaches(DependencyArcs(tasks), start, t)
  {
    var arcs, trail := DependencyArcs(tasks), Walk(tasks, start, {});
    WalkAddsWhatItMeets(tasks, start, {});
    hide Walk;
    if Meets(trail.stops, t) {
      var i :| 0 <= i < |trail.stops| && trail.stops[i].task == t;
      WalkFollowsChains(tasks, start, {}, i);
    }
    if Reaches(arcs, start, t) {
      forall x, y | x in trail.seen && (x, y) in arcs ensures y in trail.seen {
        WalkIsClosed(tasks, start, {}, x, y);
      }
      ClosedSetKeepsReach(arcs, trail.seen, start, t);
    }
  }

  // ---------- Dependencies come first ----------

  // At its place in the list, each task has all its dependencies behind it.
  ghost predicate DependenciesBefore(tasks: Tasks, stops: seq<Stop>, before: set<Task>) {
    forall i, d | 0 <= i < |stops| && stops[i].task in tasks && d in tasks[stops[i].task].dependencies ::
      d in before || Meets(stops[..i], d)
  }

  ghost predicate AllReach(tasks: Tasks, from: set<Task>, to: Task) {
    forall g | g in from :: Reaches(DependencyArcs(tasks), g, to)
  }

  // In an acyclic graph a task under way is never a dependency of one met below it.
  lemma UnderWayIsNoDependency(tasks: Tasks, g: Task, node: Task, d: Task)
    requires Acyclic(DependencyArcs(tasks)) && node in tasks && d in tasks[node].dependencies
    requires Reaches(DependencyArcs(tasks), g, node)
    ensures d != g
  {
    if d == g {
      CycleThroughArc(DependencyArcs(tasks), node, d);
    }
  }

  lemma DependenciesBeforeConcat(tasks: Tasks, a: seq<Stop>, b: seq<Stop>, before: set<Task>, after: set<Task>)
    requires DependenciesBefore(tasks, a, before) && DependenciesBefore(tasks, b, after)
    requires forall t | t in after :: t in before || Meets(a, t)
    ensures DependenciesBefore(tasks, a + b, before)
  {
    var s := a + b;
    forall i, d | 0 <= i < |s| && s[i].task in tasks && d in tasks[s[i].task].dependencies
      ensures d in before || Meets(s[..i], d)
    {
      if i < |a| {
        assert s[..i] == a[..i];
      } else {
        assert s[..i] == a + b[..i - |a|];
        MeetsConcat(a, b[..i - |a|], d);
      }
    }
  }

  lemma {:induction false} WalkIsPostorder(tasks: Tasks, node: Task, seen: set<Task>, underWay: set<Task>)
    requires WellFormed(tasks) && Acyclic(DependencyArcs(tasks)) && node in tasks && node !in seen
    requires underWay <= seen && AllReach(tasks, underWay, node)
    ensures DependenciesBefore(tasks, Walk(tasks, node, seen).stops, seen - underWay)
    decreases tasks.Keys - seen, 0
  {
    var deps := tasks[node].dependencies;
    var below := WalkAll(tasks, deps, seen + {node});
    ReachesSelf(DependencyArcs(tasks), node);
    forall c | c in deps ensures AllReach(tasks, underWay + {node}, c) {
      forall g | g in underWay + {node} ensures Reaches(DependencyArcs(tasks), g, c) {
        ArcReaches(DependencyArcs(tasks), node, c);
        ReachesTransitively(DependencyArcs(tasks), g, node, c);
      }
    }
    WalkAllIsPostorder(tasks, deps, seen + {node}, underWay + {node});
    WalkAllAddsWhatItMeets(tasks, deps, seen + {node});
    ChildrenAreSeen(tasks, deps, seen + {node});
    forall d | d in deps ensures d in below.seen && d !in underWay + {node} {
      forall g | g in underWay + {node} ensures d != g {
        UnderWayIsNoDependency(tasks, g, node, d);
      }
    }
    assert seen + {node} - (underWay + {node}) == seen - underWay;
    assert DependenciesBefore(tasks, [Stop(node, 0)], below.seen - (underWay + {node}));
    DependenciesBeforeConcat(tasks, below.stops, [Stop(node, 0)], seen - underWay,
                             below.seen - (underWay + {node}));
  }

  lemma {:induction false} WalkAllIsPostorder(tasks: Tasks, children: seq<Task>, seen: set<Task>,
                                              underWay: set<Task>)
    requires WellFormed(tasks) && Acyclic(DependencyArcs(tasks))
    requires forall c | c in children :: c in tasks && AllReach(tasks, underWay, c)
    requires underWay <= seen
    ensures DependenciesBefore(tasks, WalkAll(tasks, children, seen).stops, seen - underWay)
    decreases tasks.Keys - seen, |children|
  {
    if children == [] {
    } else if children[0] in seen {
      WalkAllIsPostorder(tasks, children[1..], seen, underWay);
    } else {
      var first := Walk(tasks, children[0], seen);
      assert tasks.Keys - first.seen <= tasks.Keys - seen;
      WalkIsPostorder(tasks, children[0], seen, underWay);
      WalkAddsWhatItMeets(tasks, children[0], seen);
      WalkAllIsPostorder(tasks, children[1..], first.seen, underWay);
      DeeperKeepsOrder(tasks, first.stops, seen - underWay);
      forall t | t in first.seen - underWay ensures t in seen - underWay || Meets(Deeper(first.stops), t) {
        MeetsDeeper(first.stops, t);
      }
      DependenciesBeforeConcat(tasks, Deeper(first.stops), WalkAll(tasks, children[1..], first.seen).stops,
                               seen - underWay, first.seen - underWay);
    }
  }

  lemma DeeperKeepsOrder(tasks: Tasks, stops: seq<Stop>, before: set<Task>)
    requires DependenciesBefore(tasks, stops, before)
    ensures DependenciesBefore(tasks, Deeper(stops), before)
  {
    forall i, d | 0 <= i < |stops| && stops[i].task in tasks && d in tasks[stops[i].task].dependencies
      ensures d in before || Meets(Deeper(stops)[..i], d)
    {
      assert Deeper(stops)[..i] == Deeper(stops[..i]);
      MeetsDeeper(stops[..i], d);
    }
  }

  // In an acyclic graph every task met comes after all its transitive dependencies.
  lemma {:induction false} DependenciesComeFirst(tasks: Tasks, start: Task, i: nat, d: Task)
    requires WellFormed(tasks) && Acyclic(DependencyArcs(tasks)) && start in tasks
    requires i < |Walk(tasks, start, {}).stops|
    requires d != Walk(tasks, start, {}).stops[i].task
    requires Reaches(DependencyArcs(tasks), Walk(tasks, start, {}).stops[i].task, d)
    ensures Meets(Walk(tasks, start, {}).stops[..i], d)
    decreases i
  {
    var arcs, stops := DependencyArcs(tasks), Walk(tasks, start, {}).stops;
    var none: set<Task> := {};
    WalkIsPostorder(tasks, start, none, none);
    assert none - none == none;
    var x := FirstArc(arcs, stops[i].task, d);
    assert stops[i].task in tasks && x in tasks[stops[i].task].dependencies by {
      ArcIsDependency(tasks, stops[i].task, x);
    }
    assert x in none || Meets(stops[..i], x);
    var j :| 0 <= j < i && stops[j].task == x;
    if x != d {
      DependenciesComeFirst(tasks, start, j, d);
      var k :| 0 <= k < j && stops[..j][k].task == d;
      assert stops[..i][k].task == d;
    }
  }

  lemma ArcIsDependency(tasks: Tasks, a: Task, b: Task)
    requires (a, b) in DependencyArcs(tasks)
    ensures a in tasks && b in tasks[a].dependencies
  {}
}
