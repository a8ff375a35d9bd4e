/** How often and in what order postorder yields each task. */
module PostorderCounts {
  import opened Graphs
  import opened PostorderDepths
  import opened Postorders
  import opened PostorderWalks
  import opened Sequences

  // What postorder meets below the start.
  ghost function Below(tasks: Tasks, start: Task): seq<Stop>
    requires WellFormed(tasks) && start in tasks
  {
    WalkAll(tasks, tasks[start].dependencies, {start}).stops
  }

  // How many items are the task t, whatever the namespace.
  function YieldsOf(items: seq<Yield>, t: Task): nat {
    if items == [] then 0
    else
      var m := |items| - 1;
      YieldsOf(items[..m], t) + if items[m].task == t then 1 else 0
  }

  lemma {:induction false} YieldsOfConcat(a: seq<Yield>, b: seq<Yield>, t: Task)
    ensures YieldsOf(a + b, t) == YieldsOf(a, t) + YieldsOf(b, t)
  {
    if b == [] {
      assert a + b == a;
    } else {
      YieldsOfConcat(a, b[..|b| - 1], t);
      SplitLast(a, b);
    }
  }

  lemma {:induction false} YieldsOfAll(items: seq<Yield>, t: Task)
    requires AllOf(items, t)
    ensures YieldsOf(items, t) == |items|
  {
    if items != [] {
      YieldsOfAll(items[..|items| - 1], t);
      assert items[|items| - 1] in items;
    }
  }

  lemma {:induction false} YieldsOfNone(items: seq<Yield>, t: Task)
    requires t !in TasksOf(items)
    ensures YieldsOf(items, t) == 0
  {
    if items != [] {
      var m := |items| - 1;
      assert items[m] in items;
      assert forall item | item in items[..m] :: item in items;
      YieldsOfNone(items[..m], t);
    }
  }

  // The run of the k-th task met is all there is of it: nothing before or after is that task.
  ghost predicate StandsAlone(tasks: Tasks, stops: seq<Stop>, k: nat, before: seq<Yield>, after: seq<Yield>)
    requires k < |stops|
  {
    && BelowStart(tasks, stops)
    && Runs(tasks, stops) == before + Run(tasks, stops[k].task, stops[k].depth) + after
    && (forall t | t in TasksOf(before) :: Meets(stops[..k], t))
    && (forall t | t in TasksOf(after) :: Meets(stops[k + 1..], t))
  }

  lemma RunStandsAlone(tasks: Tasks, stops: seq<Stop>, k: nat) returns (before: seq<Yield>, after: seq<Yield>)
    requires WellFormed(tasks) && BelowStart(tasks, stops) && k < |stops|
    ensures StandsAlone(tasks, stops, k, before, after)
  {
    var a, b := stops[..k], stops[k + 1..];
    assert stops == (a + [stops[k]]) + b;
    before, after := Runs(tasks, a), Runs(tasks, b);
    RunsConcat(tasks, a, [stops[k]]);
    RunsConcat(tasks, a + [stops[k]], b);
    assert Runs(tasks, [stops[k]]) == [] + Run(tasks, stops[k].task, stops[k].depth);
    TasksOfRuns(tasks, a);
    TasksOfRuns(tasks, b);
  }

  lemma BelowIsMetOnce(tasks: Tasks, start: Task, t: Task)
    requires WellFormed(tasks) && start in tasks
    ensures MeetsOnce(Below(tasks, start)) && !Meets(Below(tasks, start), start)
    ensures Meets(Below(tasks, start), t) <==> t != start && Reaches(DependencyArcs(tasks), start, t)
    ensures Walk(tasks, start, {}).stops == Below(tasks, start) + [Stop(start, 0)]
  {
    assert {} + {start} == {start};
    WalkMeetsReachable(tasks, start, t);
    WalkAllAddsWhatItMeets(tasks, tasks[start].dependencies, {start});
    MeetsConcat(Below(tasks, start), [Stop(start, 0)], t);
    assert [Stop(start, 0)][0].task == start;
  }

  lemma MetNowhereElse(stops: seq<Stop>, k: nat, t: Task)
    requires MeetsOnce(stops) && k < |stops|
    ensures stops[k].task == t ==> !Meets(stops[..k], t)
    ensures stops[k].task == t || Meets(stops[..k], t) ==> !Meets(stops[k + 1..], t)
  {
    assert forall j | k < j < |stops| :: stops[k + 1..][j - k - 1] == stops[j];
  }

  lemma TasksOfConcat(a: seq<Yield>, b: seq<Yield>)
    ensures TasksOf(a + b) == TasksOf(a) + TasksOf(b)
  {
    forall t | t in TasksOf(a) + TasksOf(b) ensures t in TasksOf(a + b) {
      var item :| item in a + b && item.task == t;
    }
  }

  // How the items split around the run of the k-th task met.
  lemma ResultsAround(tasks: Tasks, start: Task, results: seq<Yield>, k: nat)
    returns (before: seq<Yield>, after: seq<Yield>)
    requires WellFormed(tasks) && start in tasks && IsPostorder(tasks, start, results)
    requires k < |Below(tasks, start)|
    ensures StandsAlone(tasks, Below(tasks, start), k, before, after)
    ensures var stop := Below(tasks, start)[k];
            && stop.task != start && stop.task in tasks && stop.depth >= 1
            && results == before + Run(tasks, stop.task, stop.depth) + (after + Each(tasks, start))
            && stop.task !in TasksOf(before) && stop.task !in TasksOf(after + Each(tasks, start))
  {
    var stops := Below(tasks, start);
    var t := stops[k].task;
    before, after := RunStandsAlone(tasks, stops, k);
    BelowIsMetOnce(tasks, start, t);
    assert Meets(stops, t);
    EachNamespace(tasks, start);
    hide Run, Each, Runs, Below;
    MetNowhereElse(stops, k, t);
    TasksOfConcat(after, Each(tasks, start));
  }

  // The k-th task met is yielded n^d times, n the number of its namespaces and d its depth.
  lemma YieldCount(tasks: Tasks, start: Task, results: seq<Yield>, k: nat)
    requires WellFormed(tasks) && start in tasks && IsPostorder(tasks, start, results)
    requires k < |Below(tasks, start)|
    ensures var stop := Below(tasks, start)[k];
            && stop.task in tasks && stop.depth >= 1
            && YieldsOf(results, stop.task) == Power(|tasks[stop.task].namespaces|, stop.depth)
  {
    var stop := Below(tasks, start)[k];
    var before, after := ResultsAround(tasks, start, results, k);
    var run, rest := Run(tasks, stop.task, stop.depth), after + Each(tasks, start);
    RunLength(tasks, stop.task, stop.depth);
    hide *;
    YieldsOfConcat(before + run, rest, stop.task);
    YieldsOfConcat(before, run, stop.task);
    YieldsOfNone(before, stop.task);
    YieldsOfAll(run, stop.task);
    YieldsOfNone(rest, stop.task);
  }

  lemma StartCount(tasks: Tasks, start: Task, results: seq<Yield>)
    requires WellFormed(tasks) && start in tasks && IsPostorder(tasks, start, results)
    ensures YieldsOf(results, start) == |tasks[start].namespaces|
  {
    var stops := Below(tasks, start);
    BelowIsMetOnce(tasks, start, start);
    TasksOfRuns(tasks, stops);
    EachNamespace(tasks, start);
    EachPrefixes(tasks, start);
    assert results == Runs(tasks, stops) + Each(tasks, start);
    hide *;
    YieldsOfConcat(Runs(tasks, stops), Each(tasks, start), start);
    YieldsOfNone(Runs(tasks, stops), start);
    YieldsOfAll(Each(tasks, start), start);
  }

  // The documented once per namespace holds for a task exactly if it has one namespace, is the
  // start, or is a dependency of the start to which no earlier dependency leads around the start.
  lemma OncePerNamespace(tasks: Tasks, start: Task, results: seq<Yield>, t: Task)
    requires WellFormed(tasks) && start in tasks && IsPostorder(tasks, start, results)
    requires Reaches(DependencyArcs(tasks), start, t)
    ensures t in tasks
    ensures YieldsOf(results, t) == |tasks[t].namespaces| <==>
              || |tasks[t].namespaces| == 1
              || t == start
              || ComesUpDirectly(tasks, tasks[start].dependencies, {start}, t)
  {
    if t == start {
      StartCount(tasks, start, results);
    } else {
      BelowIsMetOnce(tasks, start, t);
      hide Reaches, IsPostorder;
      var k :| 0 <= k < |Below(tasks, start)| && Below(tasks, start)[k].task == t;
      YieldCount(tasks, start, results, k);
      PowerIsItself(|tasks[t].namespaces|, Below(tasks, start)[k].depth);
      DirectlyIsDepthOne(tasks, tasks[start].dependencies, {start}, k);
      FirstSeenIsComingUp(tasks, tasks[start].dependencies, {start}, t);
    }
  }

  // Two dependencies of the start, the second also a dependency of the first.
  ghost function SharedDependency(): (tasks: Tasks)
    ensures WellFormed(tasks)
  {
    map[0 := TaskInfo(["s"], [1, 2]), 1 := TaskInfo(["m"], [2]), 2 := TaskInfo(["a", "b"], [])]
  }

  // Task 2 is a dependency of the start and has two namespaces, but is yielded four times.
  lemma SharedDependencyIsYieldedFourTimes(results: seq<Yield>)
    requires IsPostorder(SharedDependency(), 0, results)
    ensures 2 in SharedDependency()[0].dependencies && |SharedDependency()[2].namespaces| == 2
    ensures YieldsOf(results, 2) == 4
  {
    SharedDependencyStops();
    YieldCount(SharedDependency(), 0, results, 0);
    assert Power(2, 2) == 2 * Power(2, 1) && Power(2, 1) == 2 * Power(2, 0);
  }

  lemma SharedDependencyStops()
    ensures Below(SharedDependency(), 0) == [Stop(2, 2), Stop(1, 1)]
  {
    var tasks := SharedDependency();
    assert Walk(tasks, 2, {0, 1}) == Trail([Stop(2, 0)], {0, 1, 2}) by {
      assert {0, 1} + {2} == {0, 1, 2};
      assert WalkAll(tasks, [], {0, 1, 2}).stops == [];
    }
    assert WalkAll(tasks, [2], {0, 1}) == Trail([Stop(2, 1)], {0, 1, 2}) by {
      assert WalkAll(tasks, [], {0, 1, 2}).stops == [];
      assert Deeper([Stop(2, 0)]) == [Stop(2, 1)];
    }
    assert Walk(tasks, 1, {0}) == Trail([Stop(2, 1), Stop(1, 0)], {0, 1, 2}) by {
      assert {0} + {1} == {0, 1};
    }
    assert WalkAll(tasks, [2], {0, 1, 2}).stops == [];
    assert [1, 2][1..] == [2];
    assert Deeper([Stop(2, 1), Stop(1, 0)]) == [Stop(2, 2), Stop(1, 1)];
  }

  // Without cycles every item of a task comes after all items of its transitive dependencies.
  lemma PostorderIsOrdered(tasks: Tasks, start: Task, results: seq<Yield>, i: nat, j: nat)
    requires WellFormed(tasks) && start in tasks && IsPostorder(tasks, start, results)
    requires Acyclic(DependencyArcs(tasks)) && i < |results| && j < |results|
    requires results[j].task != results[i].task
    requires Reaches(DependencyArcs(tasks), results[i].task, results[j].task)
    ensures j < i
  {
    var t, d := results[i].task, results[j].task;
    var stops := Below(tasks, start);
    YieldsReachableInNamespaces(tasks, start, results, results[i]);
    BelowIsMetOnce(tasks, start, t);
    hide Reaches, Acyclic, DependencyArcs, Walk, Below, Each, Runs;
    NothingLeadsBack(tasks, start, t, d);
    if t == start {
      BelowIsMetOnce(tasks, start, start);
      TasksOfRuns(tasks, stops);
      EachNamespace(tasks, start);
      SplitAtStart(tasks, start, results);
      ItemsInOrder(results, Runs(tasks, stops), Each(tasks, start), i, j);
    } else {
      var k :| 0 <= k < |stops| && stops[k].task == t;
      DependenciesComeFirst(tasks, start, k, d);
      assert Walk(tasks, start, {}).stops[..k] == stops[..k];
      MetNowhereElse(stops, k, d);
      var before, after := ResultsAround(tasks, start, results, k);
      RestIsOther(tasks, start, results, before, after, stops[k], d);
      ItemsInOrder(results, before, Run(tasks, t, stops[k].depth) + (after + Each(tasks, start)), i, j);
    }
  }

  lemma SplitAtStart(tasks: Tasks, start: Task, results: seq<Yield>)
    requires WellFormed(tasks) && start in tasks && IsPostorder(tasks, start, results)
    ensures BelowStart(tasks, Below(tasks, start))
    ensures results == Runs(tasks, Below(tasks, start)) + Each(tasks, start)
  {}

  lemma RestIsOther(tasks: Tasks, start: Task, results: seq<Yield>, before: seq<Yield>, after: seq<Yield>,
                    stop: Stop, d: Task)
    requires WellFormed(tasks) && start in tasks && stop.task in tasks && stop.depth >= 1
    requires results == before + Run(tasks, stop.task, stop.depth) + (after + Each(tasks, start))
    requires d != stop.task && d != start && d !in TasksOf(after)
    ensures results == before + (Run(tasks, stop.task, stop.depth) + (after + Each(tasks, start)))
    ensures d !in TasksOf(Run(tasks, stop.task, stop.depth) + (after + Each(tasks, start)))
  {
    var run := Run(tasks, stop.task, stop.depth);
    RunLength(tasks, stop.task, stop.depth);
    EachNamespace(tasks, start);
    hide Run, Each;
    Associative(before, run, after + Each(tasks, start));
    TasksOfConcat(after, Each(tasks, start));
    TasksOfConcat(run, after + Each(tasks, start));
  }

  lemma NothingLeadsBack(tasks: Tasks, start: Task, t: Task, d: Task)
    requires Acyclic(DependencyArcs(tasks)) && t != d
    requires Reaches(DependencyArcs(tasks), start, t) && Reaches(DependencyArcs(tasks), t, d)
    ensures d != start && Reaches(DependencyArcs(tasks), start, d)
  {
    ReachesTransitively(DependencyArcs(tasks), start, t, d);
    if d == start {
      var b := FirstArc(DependencyArcs(tasks), d, t);
      ReachesTransitively(DependencyArcs(tasks), b, t, d);
      CycleThroughArc(DependencyArcs(tasks), d, b);
    }
  }

  lemma ItemsInOrder(results: seq<Yield>, before: seq<Yield>, after: seq<Yield>, i: nat, j: nat)
    requires results == before + after && i < |results| && j < |results|
    requires results[i].task !in TasksOf(before) && results[j].task !in TasksOf(after)
    ensures j < i
  {
    ItemIsFrom(before, after, i);
    ItemIsFrom(before, after, j);
  }

  lemma ItemIsFrom(a: seq<Yield>, b: seq<Yield>, i: nat)
    requires i < |a + b|
    ensures (a + b)[i].task in TasksOf(if i < |a| then a else b)
  {
    if i < |a| {
      assert a[i] in a;
    } else {
      assert b[i - |a|] in b;
    }
  }
}
