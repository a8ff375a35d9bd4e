/** Which tasks the postorder walk meets directly below its start: reachability around the start. */
module PostorderDepths {
  import opened Graphs
  import opened PostorderWalks

  // The arcs that touch none of the given tasks.
  ghost function ArcsAround(tasks: Tasks, avoided: set<Task>): set<(Task, Task)> {
    set arc | arc in DependencyArcs(tasks) && arc.0 !in avoided && arc.1 !in avoided
  }

  // t can be reached from one of the given tasks along tasks that are not to be used.
  ghost predicate ReachedAround(tasks: Tasks, from: seq<Task>, avoided: set<Task>, t: Task) {
    exists c :: c in from && c !in avoided && Reaches(ArcsAround(tasks, avoided), c, t)
  }

  lemma FewerAround(tasks: Tasks, fewer: set<Task>, avoided: set<Task>, a: Task, b: Task)
    requires fewer <= avoided && Reaches(ArcsAround(tasks, avoided), a, b)
    ensures Reaches(ArcsAround(tasks, fewer), a, b)
  {
    MoreArcsReachMore(ArcsAround(tasks, avoided), ArcsAround(tasks, fewer), a, b);
  }

  lemma {:induction false} NewlySeenIsReached(tasks: Tasks, node: Task, seen: set<Task>, t: Task)
    requires WellFormed(tasks) && node in tasks && node !in seen
    requires t in Walk(tasks, node, seen).seen - seen
    ensures Reaches(ArcsAround(tasks, seen), node, t)
    decreases tasks.Keys - seen, 0
  {
    var deps := tasks[node].dependencies;
    if t == node {
      ReachesSelf(ArcsAround(tasks, seen), node);
    } else {
      AllNewlySeenIsReached(tasks, deps, seen + {node}, t);
      hide Reaches;
      var c :| c in deps && c !in seen + {node} && Reaches(ArcsAround(tasks, seen + {node}), c, t);
      FewerAround(tasks, seen, seen + {node}, c, t);
      assert (node, c) in ArcsAround(tasks, seen);
      ReachesAfterArc(ArcsAround(tasks, seen), node, c, t);
    }
  }

  lemma {:induction false} AllNewlySeenIsReached(tasks: Tasks, children: seq<Task>, seen: set<Task>, t: Task)
    requires WellFormed(tasks) && forall c | c in children :: c in tasks
    requires t in WalkAll(tasks, children, seen).seen - seen
    ensures ReachedAround(tasks, children, seen, t)
    decreases tasks.Keys - seen, |children|
  {
    if children[0] in seen {
      AllNewlySeenIsReached(tasks, children[1..], seen, t);
    } else {
      var first := Walk(tasks, children[0], seen);
      assert tasks.Keys - first.seen <= tasks.Keys - seen;
      if t in first.seen {
        NewlySeenIsReached(tasks, children[0], seen, t);
      } else {
        AllNewlySeenIsReached(tasks, children[1..], first.seen, t);
        var c :| c in children[1..] && c !in first.seen && Reaches(ArcsAround(tasks, first.seen), c, t);
        FewerAround(tasks, seen, first.seen, c, t);
        assert c in children;
      }
    }
  }

  // A walk ends up having seen exactly what it can reach around the tasks seen before.
  lemma SeenIsReachedAround(tasks: Tasks, children: seq<Task>, seen: set<Task>, t: Task)
    requires WellFormed(tasks) && forall c | c in children :: c in tasks
    ensures t in WalkAll(tasks, children, seen).seen <==> t in seen || ReachedAround(tasks, children, seen, t)
  {
    var after, arcs := WalkAll(tasks, children, seen).seen, ArcsAround(tasks, seen);
    if t in after && t !in seen {
      AllNewlySeenIsReached(tasks, children, seen, t);
    }
    if ReachedAround(tasks, children, seen, t) {
      ChildrenAreSeen(tasks, children, seen);
      var c :| c in children && c !in seen && Reaches(arcs, c, t);
      hide WalkAll, Reaches, ReachedAround;
      forall a, b | a in after && (a, b) in arcs ensures b in after {
        WalkAllIsClosed(tasks, children, seen, a, b);
      }
      ClosedSetKeepsReach(arcs, after, c, t);
    }
  }

  // t is one of the children, and none before it leads to t around the tasks seen before.
  ghost predicate ComesUpDirectly(tasks: Tasks, children: seq<Task>, seen: set<Task>, t: Task) {
    exists i: nat :: ComesUpAt(tasks, children, seen, t, i)
  }

  ghost predicate ComesUpAt(tasks: Tasks, children: seq<Task>, seen: set<Task>, t: Task, i: nat) {
    i < |children| && children[i] == t && !ReachedAround(tasks, children[..i], seen, t)
  }

  // The same, told by what the walk has seen.
  ghost predicate FirstSeenAt(tasks: Tasks, children: seq<Task>, seen: set<Task>, t: Task, i: nat)
    requires WellFormed(tasks) && forall c | c in children :: c in tasks
  {
    i < |children| && children[i] == t && t !in WalkAll(tasks, children[..i], seen).seen
  }

  ghost predicate FirstSeenDirectly(tasks: Tasks, children: seq<Task>, seen: set<Task>, t: Task)
    requires WellFormed(tasks) && forall c | c in children :: c in tasks
  {
    exists i: nat :: FirstSeenAt(tasks, children, seen, t, i)
  }

  lemma FirstSeenIsComingUp(tasks: Tasks, children: seq<Task>, seen: set<Task>, t: Task)
    requires WellFormed(tasks) && (forall c | c in children :: c in tasks) && t !in seen
    ensures FirstSeenDirectly(tasks, children, seen, t) <==> ComesUpDirectly(tasks, children, seen, t)
  {
    forall i: nat ensures FirstSeenAt(tasks, children, seen, t, i) <==> ComesUpAt(tasks, children, seen, t, i) {
      if i < |children| {
        SeenIsReachedAround(tasks, children[..i], seen, t);
      }
    }
  }

  // The walk over all children but the first starts from what the first one's visit has seen.
  ghost function SeenAfterFirst(tasks: Tasks, children: seq<Task>, seen: set<Task>): set<Task>
    requires WellFormed(tasks) && (forall c | c in children :: c in tasks) && children != []
  {
    if children[0] in seen then seen else Walk(tasks, children[0], seen).seen
  }

  lemma FirstSeenLater(tasks: Tasks, children: seq<Task>, seen: set<Task>, t: Task)
    requires WellFormed(tasks) && (forall c | c in children :: c in tasks) && children != []
    requires t != children[0]
    ensures FirstSeenDirectly(tasks, children, seen, t)
       <==> FirstSeenDirectly(tasks, children[1..], SeenAfterFirst(tasks, children, seen), t)
  {
    forall i: nat
      ensures FirstSeenAt(tasks, children, seen, t, i + 1)
         <==> FirstSeenAt(tasks, children[1..], SeenAfterFirst(tasks, children, seen), t, i)
    {
      FirstSeenOneLater(tasks, children, seen, t, i);
    }
    if FirstSeenDirectly(tasks, children, seen, t) {
      var i: nat :| FirstSeenAt(tasks, children, seen, t, i);
      assert i != 0;
      FirstSeenOneLater(tasks, children, seen, t, i - 1);
    }
  }

  lemma FirstSeenOneLater(tasks: Tasks, children: seq<Task>, seen: set<Task>, t: Task, i: nat)
    requires WellFormed(tasks) && (forall c | c in children :: c in tasks) && children != []
    ensures FirstSeenAt(tasks, children, seen, t, i + 1)
       <==> FirstSeenAt(tasks, children[1..], SeenAfterFirst(tasks, children, seen), t, i)
  {
    if i + 1 < |children| {
      assert children[..i + 1][1..] == children[1..][..i];
      assert children[..i + 1][0] == children[0];
    }
  }

  // A task is met at depth 1 exactly if it comes up directly.
  lemma {:induction false} DirectlyIsDepthOne(tasks: Tasks, children: seq<Task>, seen: set<Task>, k: nat)
    requires WellFormed(tasks) && forall c | c in children :: c in tasks
    requires k < |WalkAll(tasks, children, seen).stops|
    ensures WalkAll(tasks, children, seen).stops[k].depth == 1
       <==> FirstSeenDirectly(tasks, children, seen, WalkAll(tasks, children, seen).stops[k].task)
    decreases tasks.Keys - seen, |children|
  {
    var t := WalkAll(tasks, children, seen).stops[k].task;
    MetIsNew(tasks, children, seen, k);
    if children[0] in seen {
      DirectlyIsDepthOne(tasks, children[1..], seen, k);
      FirstSeenLater(tasks, children, seen, t);
    } else {
      var first := Walk(tasks, children[0], seen);
      assert tasks.Keys - first.seen <= tasks.Keys - seen;
      if k < |first.stops| {
        FirstStops(tasks, children, seen, k);
      } else {
        MetIsNew(tasks, children[1..], first.seen, k - |first.stops|);
        DirectlyIsDepthOne(tasks, children[1..], first.seen, k - |first.stops|);
        FirstSeenLater(tasks, children, seen, t);
      }
    }
  }

  lemma MetIsNew(tasks: Tasks, children: seq<Task>, seen: set<Task>, k: nat)
    requires WellFormed(tasks) && forall c | c in children :: c in tasks
    requires k < |WalkAll(tasks, children, seen).stops|
    ensures WalkAll(tasks, children, seen).stops[k].task !in seen
  {
    WalkAllAddsWhatItMeets(tasks, children, seen);
    assert Meets(WalkAll(tasks, children, seen).stops, WalkAll(tasks, children, seen).stops[k].task);
  }

  // Of the first child's visit, only the child itself is met at depth 1.
  lemma FirstStops(tasks: Tasks, children: seq<Task>, seen: set<Task>, k: nat)
    requires WellFormed(tasks) && (forall c | c in children :: c in tasks)
    requires children != [] && children[0] !in seen && k < |Walk(tasks, children[0], seen).stops|
    ensures Walk(tasks, children[0], seen).stops[k].depth == 0
       <==> FirstSeenDirectly(tasks, children, seen, Walk(tasks, children[0], seen).stops[k].task)
  {
    var first := Walk(tasks, children[0], seen);
    var t := first.stops[k].task;
    WalkFollowsChains(tasks, children[0], seen, k);
    WalkAddsWhatItMeets(tasks, children[0], seen);
    assert Meets(first.stops, t);
    assert first.stops[|first.stops| - 1].task == children[0];
    if t == children[0] {
      assert FirstSeenAt(tasks, children, seen, t, 0);
    } else {
      FirstSeenLater(tasks, children, seen, t);
      assert t in SeenAfterFirst(tasks, children, seen);
    }
  }
}
