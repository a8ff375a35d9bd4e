/** The postorder generator: what it yields, task by task and namespace by namespace. */
module Postorders {
  import opened Graphs
  import opened PostorderWalks
  import opened Sequences

  // A task as it is when yielded.
  datatype Yield = Yield(task: Task, namespace: string)

  // A task in each of its namespaces.
  function Each(tasks: Tasks, t: Task): seq<Yield>
    requires t in tasks
  {
    seq(|tasks[t].namespaces|, i requires 0 <= i < |tasks[t].namespaces| => Yield(t, tasks[t].namespaces[i]))
  }

  ghost predicate AreTasks(tasks: Tasks, items: seq<Yield>) {
    forall item | item in items :: item.task in tasks
  }

  // What a level of visit makes of the items of a child's visit: each is yielded once for
  // every namespace of its task.
  ghost function Reyielded(tasks: Tasks, items: seq<Yield>): seq<Yield>
    requires AreTasks(tasks, items)
  {
    if items == [] then []
    else
      var m := |items| - 1;
      Reyielded(tasks, items[..m]) + Each(tasks, items[m].task)
  }

  // The run of items a task at a given depth, not the start, contributes.
  ghost function Run(tasks: Tasks, t: Task, depth: nat): (r: seq<Yield>)
    requires t in tasks && depth >= 1
    ensures AreTasks(tasks, r)
  {
    if depth == 1 then Each(tasks, t)
    else
      var r := Run(tasks, t, depth - 1);
      ReyieldedTasks(tasks, r);
      Reyielded(tasks, r)
  }

  lemma {:induction false} ReyieldedTasks(tasks: Tasks, items: seq<Yield>)
    requires AreTasks(tasks, items)
    ensures AreTasks(tasks, Reyielded(tasks, items))
  {
    if items != [] {
      ReyieldedTasks(tasks, items[..|items| - 1]);
    }
  }

  ghost predicate BelowStart(tasks: Tasks, stops: seq<Stop>) {
    forall i | 0 <= i < |stops| :: stops[i].task in tasks && stops[i].depth >= 1
  }

  // The runs of a list of stops, one after the other.
  ghost function Runs(tasks: Tasks, stops: seq<Stop>): (r: seq<Yield>)
    requires BelowStart(tasks, stops)
    ensures AreTasks(tasks, r)
  {
    if stops == [] then []
    else
      var m := |stops| - 1;
      Runs(tasks, stops[..m]) + Run(tasks, stops[m].task, stops[m].depth)
  }

  lemma {:induction false} RunsConcat(tasks: Tasks, a: seq<Stop>, b: seq<Stop>)
    requires BelowStart(tasks, a) && BelowStart(tasks, b)
    ensures BelowStart(tasks, a + b)
    ensures Runs(tasks, a + b) == Runs(tasks, a) + Runs(tasks, b)
  {
    if b == [] {
      assert a + b == a;
    } else {
      var m := |b| - 1;
      RunsConcat(tasks, a, b[..m]);
      SplitLast(a, b);
      Associative(Runs(tasks, a), Runs(tasks, b[..m]), Run(tasks, b[m].task, b[m].depth));
      hide Run;
    }
  }

  lemma {:induction false} ReyieldedConcat(tasks: Tasks, a: seq<Yield>, b: seq<Yield>)
    requires AreTasks(tasks, a) && AreTasks(tasks, b)
    ensures AreTasks(tasks, a + b)
    ensures Reyielded(tasks, a + b) == Reyielded(tasks, a) + Reyielded(tasks, b)
  {
    if b == [] {
      assert a + b == a;
    } else {
      var m := |b| - 1;
      ReyieldedConcat(tasks, a, b[..m]);
      SplitLast(a, b);
      Associative(Reyielded(tasks, a), Reyielded(tasks, b[..m]), Each(tasks, b[m].task));
    }
  }

  lemma DeeperSplits(stops: seq<Stop>)
    requires stops != []
    ensures |Deeper(stops)| == |stops| && Deeper(stops)[..|stops| - 1] == Deeper(stops[..|stops| - 1])
    ensures Deeper(stops)[|stops| - 1] == Stop(stops[|stops| - 1].task, stops[|stops| - 1].depth + 1)
  {}

  lemma LastRun(tasks: Tasks, stops: seq<Stop>, m: nat, t: Task, d: nat)
    requires BelowStart(tasks, stops) && |stops| == m + 1 && stops[m] == Stop(t, d)
    ensures BelowStart(tasks, stops[..m]) && t in tasks && d >= 1
    ensures Runs(tasks, stops) == Runs(tasks, stops[..m]) + Run(tasks, t, d)
  {}

  lemma LastRunDeeper(tasks: Tasks, stops: seq<Stop>, m: nat, t: Task, d: nat)
    requires BelowStart(tasks, stops) && |stops| == m + 1 && stops[m] == Stop(t, d)
    ensures BelowStart(tasks, Deeper(stops)) && BelowStart(tasks, Deeper(stops[..m])) && t in tasks
    ensures Runs(tasks, Deeper(stops)) == Runs(tasks, Deeper(stops[..m])) + Run(tasks, t, d + 1)
  {
    DeeperIsBelow(tasks, stops);
    DeeperSplits(stops);
    hide Deeper, Runs, Run;
    LastRun(tasks, Deeper(stops), m, t, d + 1);
  }

  lemma DeeperIsBelow(tasks: Tasks, stops: seq<Stop>)
    requires BelowStart(tasks, stops)
    ensures BelowStart(tasks, Deeper(stops))
  {}

  lemma RunDeeper(tasks: Tasks, t: Task, d: nat)
    requires t in tasks && d >= 1
    ensures Reyielded(tasks, Run(tasks, t, d)) == Run(tasks, t, d + 1)
  {}

  // Passing runs through one more level makes them the runs one level deeper.
  lemma {:induction false} RunsDeeper(tasks: Tasks, stops: seq<Stop>)
    requires BelowStart(tasks, stops)
    ensures BelowStart(tasks, Deeper(stops))
    ensures Reyielded(tasks, Runs(tasks, stops)) == Runs(tasks, Deeper(stops))
  {
    DeeperIsBelow(tasks, stops);
    if stops != [] {
      hide *;
      var m := |stops| - 1;
      var t, d := stops[m].task, stops[m].depth;
      LastRun(tasks, stops, m, t, d);
      LastRunDeeper(tasks, stops, m, t, d);
      RunsDeeper(tasks, stops[..m]);
      ReyieldedConcat(tasks, Runs(tasks, stops[..m]), Run(tasks, t, d));
      RunDeeper(tasks, t, d);
    }
  }

  // What the parent of a task makes of that task's whole visit.
  lemma VisitDeeper(tasks: Tasks, below: seq<Stop>, node: Task, namespace: string)
    requires BelowStart(tasks, below) && node in tasks
    ensures BelowStart(tasks, Deeper(below + [Stop(node, 0)]))
    ensures AreTasks(tasks, Runs(tasks, below) + [Yield(node, namespace)])
    ensures Reyielded(tasks, Runs(tasks, below) + [Yield(node, namespace)])
         == Runs(tasks, Deeper(below + [Stop(node, 0)]))
  {
    RunsDeeper(tasks, below);
    OneDeeper(below, node);
    OneRun(tasks, node, namespace);
    hide *;
    ReyieldedConcat(tasks, Runs(tasks, below), [Yield(node, namespace)]);
    RunsConcat(tasks, Deeper(below), [Stop(node, 1)]);
  }

  lemma OneDeeper(below: seq<Stop>, node: Task)
    ensures Deeper(below + [Stop(node, 0)]) == Deeper(below) + [Stop(node, 1)]
  {}

  lemma OneRun(tasks: Tasks, node: Task, namespace: string)
    requires node in tasks
    ensures AreTasks(tasks, [Yield(node, namespace)]) && BelowStart(tasks, [Stop(node, 1)])
    ensures Reyielded(tasks, [Yield(node, namespace)]) == Runs(tasks, [Stop(node, 1)])
  {
    assert Reyielded(tasks, [Yield(node, namespace)]) == [] + Each(tasks, node);
    assert Runs(tasks, [Stop(node, 1)]) == [] + Run(tasks, node, 1);
  }

  // ---------- The size and contents of a run ----------

  function Power(b: nat, e: nat): nat {
    if e == 0 then 1 else b * Power(b, e - 1)
  }

  ghost predicate AllOf(items: seq<Yield>, t: Task) {
    forall item | item in items :: item.task == t
  }

  lemma {:induction false} ReyieldedOne(tasks: Tasks, items: seq<Yield>, t: Task)
    requires t in tasks && AllOf(items, t) && AreTasks(tasks, items)
    ensures |Reyielded(tasks, items)| == |tasks[t].namespaces| * |items|
    ensures AllOf(Reyielded(tasks, items), t)
    ensures items != [] ==> forall item | item in Each(tasks, t) :: item in Reyielded(tasks, items)
  {
    if items != [] {
      var m := |items| - 1;
      ReyieldedOne(tasks, items[..m], t);
      assert items[m] in items;
      assert Reyielded(tasks, items) == Reyielded(tasks, items[..m]) + Each(tasks, t);
      hide Reyielded, AreTasks;
      assert |tasks[t].namespaces| * |items| == |tasks[t].namespaces| * m + |tasks[t].namespaces|;
    }
  }

  // A task at depth d is yielded |namespaces|^d times in a row, in all its namespaces.
  lemma {:induction false} RunLength(tasks: Tasks, t: Task, depth: nat)
    requires WellFormed(tasks) && t in tasks && depth >= 1
    ensures |Run(tasks, t, depth)| == Power(|tasks[t].namespaces|, depth)
    ensures AllOf(Run(tasks, t, depth), t) && Run(tasks, t, depth) != []
    ensures forall namespace | namespace in tasks[t].namespaces ::
              Yield(t, namespace) in Run(tasks, t, depth)
  {
    EachNamespace(tasks, t);
    if depth == 1 {
      assert Power(|tasks[t].namespaces|, 1) == |tasks[t].namespaces| * 1;
    } else {
      RunLength(tasks, t, depth - 1);
      ReyieldedOne(tasks, Run(tasks, t, depth - 1), t);
      assert Run(tasks, t, depth) == Reyielded(tasks, Run(tasks, t, depth - 1));
      assert Each(tasks, t)[0] in Run(tasks, t, depth);
    }
  }

  // Re-yielding one task goes through its namespaces in order, again and again.
  lemma {:induction false} ReyieldedInTurn(tasks: Tasks, items: seq<Yield>, t: Task, round: nat, i: nat)
    requires t in tasks && AllOf(items, t) && AreTasks(tasks, items)
    requires round < |items| && i < |tasks[t].namespaces|
    ensures var k := |tasks[t].namespaces| * round + i;
            k < |Reyielded(tasks, items)| && Reyielded(tasks, items)[k] == Yield(t, tasks[t].namespaces[i])
  {
    var m := |items| - 1;
    assert items[m] in items;
    ReyieldedOne(tasks, items[..m], t);
    assert Reyielded(tasks, items) == Reyielded(tasks, items[..m]) + Each(tasks, t);
    if round < m {
      ReyieldedInTurn(tasks, items[..m], t, round, i);
    }
  }

  // A run goes through the namespaces of its task in the order they are listed, again and again.
  lemma RunInTurn(tasks: Tasks, t: Task, depth: nat, round: nat, i: nat)
    requires WellFormed(tasks) && t in tasks && depth >= 1
    requires round < Power(|tasks[t].namespaces|, depth - 1) && i < |tasks[t].namespaces|
    ensures var k := |tasks[t].namespaces| * round + i;
            k < |Run(tasks, t, depth)| && Run(tasks, t, depth)[k] == Yield(t, tasks[t].namespaces[i])
  {
    if depth == 1 {
      assert round == 0;
    } else {
      RunLength(tasks, t, depth - 1);
      hide Power, WellFormed;
      ReyieldedInTurn(tasks, Run(tasks, t, depth - 1), t, round, i);
    }
  }

  // The start comes last, once in each of its namespaces in the order they are listed.
  lemma StartInTurn(tasks: Tasks, start: Task, results: seq<Yield>, i: nat)
    requires WellFormed(tasks) && start in tasks && IsPostorder(tasks, start, results)
    requires i < |tasks[start].namespaces|
    ensures var k := |results| - |tasks[start].namespaces| + i;
            0 <= k < |results| && results[k] == Yield(start, tasks[start].namespaces[i])
  {
    hide Runs, WalkAll;
  }

  lemma {:induction false} PowerIsItself(b: nat, e: nat)
    requires b >= 1 && e >= 1
    ensures Power(b, e) >= b && (Power(b, e) == b <==> b == 1 || e == 1)
  {
    if e > 1 {
      PowerIsItself(b, e - 1);
      ProductGrows(b, Power(b, e - 1));
    }
  }

  lemma ProductGrows(b: nat, p: nat)
    requires p >= b >= 1
    ensures b * p >= b && (b * p == b <==> p == 1)
  {
    if p > 1 {
      assert b * p == b * (p - 1) + b;
      assert b * (p - 1) >= 1;
    }
  }

  lemma EachNamespace(tasks: Tasks, t: Task)
    requires t in tasks
    ensures AllOf(Each(tasks, t), t)
    ensures forall namespace | namespace in tasks[t].namespaces :: Yield(t, namespace) in Each(tasks, t)
  {
    forall namespace | namespace in tasks[t].namespaces ensures Yield(t, namespace) in Each(tasks, t) {
      var i :| 0 <= i < |tasks[t].namespaces| && tasks[t].namespaces[i] == namespace;
      assert Each(tasks, t)[i] == Yield(t, namespace);
    }
  }

  // ---------- The generator ----------

  // What one call of visit yields and leaves behind.
  ghost predicate Visited(tasks: Tasks, node: Task, seen0: set<Task>, names0: map<Task, string>,
                          seen: set<Task>, names: map<Task, string>, results: seq<Yield>)
    requires WellFormed(tasks) && node in tasks && node in names0
  {
    if node in seen0 then
      seen == seen0 && names == names0 && results == [Yield(node, names0[node])]
    else
      var below := WalkAll(tasks, tasks[node].dependencies, seen0 + {node});
      && seen == below.seen && BelowStart(tasks, below.stops)
      && results == Runs(tasks, below.stops) + [Yield(node, names0[node])]
      && Renamed(tasks, seen - seen0 - {node}, names0, names)
  }

  // Exactly the given tasks have been put in the last of their namespaces.
  ghost predicate Renamed(tasks: Tasks, changed: set<Task>, names0: map<Task, string>, names: map<Task, string>) {
    && names.Keys == names0.Keys
    && (forall t | t in changed && t in tasks :: t in names && IsLast(tasks[t].namespaces, names[t]))
    && (forall t | t in names0 && t !in changed :: names[t] == names0[t])
  }

  predicate IsLast(namespaces: seq<string>, namespace: string) {
    namespaces != [] && namespace == namespaces[|namespaces| - 1]
  }

  ghost function TasksOf(items: seq<Yield>): set<Task> {
    set item | item in items :: item.task
  }

  class Postorder {
    const tasks: Tasks
    var seen: set<Task>
    var namespaceOf: map<Task, string>
    var contextual: set<Task>

    ghost predicate Valid()
      reads this
    {
      WellFormed(tasks) && namespaceOf.Keys == tasks.Keys
    }

    constructor (tasks: Tasks, namespaceOf: map<Task, string>)
      requires WellFormed(tasks) && namespaceOf.Keys == tasks.Keys
      ensures Valid() && seen == {} && contextual == {}
      ensures this.tasks == tasks && this.namespaceOf == namespaceOf
    {
      this.tasks := tasks;
      this.namespaceOf := namespaceOf;
      seen := {};
      contextual := {};
    }

    // Yields one result again, in each of its namespaces.
    method ReyieldOne(t: Task, results0: seq<Yield>) returns (results: seq<Yield>)
      requires Valid() && t in tasks
      modifies `namespaceOf
      ensures Valid() && results == results0 + Each(tasks, t)
      ensures Renamed(tasks, {t}, old(namespaceOf), namespaceOf)
    {
      results := results0;
      var namespaces := tasks[t].namespaces;
      for i := 0 to |namespaces|
        invariant Valid()
        invariant results == results0 + Each(tasks, t)[..i]
        invariant namespaceOf == if i == 0 then old(namespaceOf)
                                 else old(namespaceOf)[t := namespaces[i - 1]]
      {
        namespaceOf := namespaceOf[t := namespaces[i]];
        results := results + [Yield(t, namespaces[i])];
        assert Each(tasks, t)[..i + 1] == Each(tasks, t)[..i] + [Yield(t, namespaces[i])];
      }
      assert Each(tasks, t)[..|namespaces|] == Each(tasks, t);
    }

    method ReyieldAll(items: seq<Yield>, results0: seq<Yield>) returns (results: seq<Yield>)
      requires Valid() && AreTasks(tasks, items)
      modifies `namespaceOf
      ensures Valid() && results == results0 + Reyielded(tasks, items)
      ensures Renamed(tasks, TasksOf(items), old(namespaceOf), namespaceOf)
    {
      results := results0;
      assert items[..0] == [];
      for k := 0 to |items|
        invariant Valid()
        invariant results == results0 + Reyielded(tasks, items[..k])
        invariant Renamed(tasks, TasksOf(items[..k]), old(namespaceOf), namespaceOf)
      {
        ghost var names := namespaceOf;
        OneMoreItem(tasks, items, k);
        results := ReyieldOne(items[k].task, results);
        RenamedTwice(tasks, TasksOf(items[..k]), {items[k].task}, old(namespaceOf), names, namespaceOf);
        Associative(results0, Reyielded(tasks, items[..k]), Each(tasks, items[k].task));
      }
      assert items[..|items|] == items;
    }

    // visit: the task's unseen dependencies first, then the task itself.
    method Visit(node: Task) returns (results: seq<Yield>)
      requires Valid() && node in tasks
      requires node in seen ==> forall d | d in tasks[node].dependencies :: d in seen
      modifies this
      ensures Valid() && Visited(tasks, node, old(seen), old(namespaceOf), seen, namespaceOf, results)
      ensures contextual == old(contextual) + (seen - old(seen)) + {node}
      decreases tasks.Keys - seen
    {
      ghost var seen0, names0 := seen, namespaceOf;
      ghost var stops: seq<Stop> := [];
      seen := seen + {node};
      results := [];
      var dependencies := tasks[node].dependencies;
      StartVisiting(tasks, node, seen0, names0);
      NoContextYet(contextual, seen0 + {node});
      hide Visited, Visiting, Renamed, Walk, WalkAll, Runs, Run, Reyielded, TasksOf, AreTasks, Deeper, Each,
           GivenContext;
      for i := 0 to |dependencies|
        invariant Valid() && seen0 + {node} <= seen
        invariant GivenContext(old(contextual), seen0 + {node}, seen, contextual)
        invariant node in seen0 ==> seen == seen0 && namespaceOf == names0 && results == []
        invariant node !in seen0 ==>
                    Visiting(tasks, node, seen0, names0, i, seen, namespaceOf, stops, results)
      {
        var child := dependencies[i];
        if child !in seen {
          ghost var seen1, names1, contexts1 := seen, namespaceOf, contextual;
          var inner := Visit(child);
          ghost var names2 := namespaceOf;
          InnerTasks(tasks, child, seen1, names1, seen, names2, inner);
          MoreContext(old(contextual), seen0 + {node}, seen1, seen, child, contexts1, contextual);
          ghost var results1 := results;
          results := ReyieldAll(inner, results);
          StepVisit(tasks, node, seen0, names0, i, seen1, names1, stops, results1,
                    seen, names2, inner, namespaceOf);
          stops := stops + Deeper(Walk(tasks, child, seen1).stops);
        } else if node !in seen0 {
          StepSeen(tasks, node, seen0, names0, i, seen, namespaceOf, stops, results);
        }
      }
      if node !in seen0 {
        FinishVisiting(tasks, node, seen0, names0, seen, namespaceOf, stops, results);
      } else {
        VisitedBefore(tasks, node, seen0, names0);
      }
      LastContext(old(contextual), seen0, node, seen, contextual);
      contextual := contextual + {node};
      results := results + [Yield(node, namespaceOf[node])];
    }

    // postorder: one visit of the start for each of its namespaces.
    method Generate(start: Task) returns (results: seq<Yield>)
      requires Valid() && start in tasks && seen == {}
      modifies this
      ensures Valid() && IsPostorder(tasks, start, results)
      ensures seen == Walk(tasks, start, {}).seen
      ensures contextual == old(contextual) + seen
    {
      contextual := contextual + {start};
      results := [];
      var namespaces := tasks[start].namespaces;
      ghost var below := WalkAll(tasks, tasks[start].dependencies, {start});
      assert {} + {start} == {start};
      ChildrenAreSeen(tasks, tasks[start].dependencies, {start});
      EachPrefixes(tasks, start);
      hide WalkAll, Walk, Runs, Run, Renamed, Visited, Each, Deeper, Reyielded, BelowStart;
      for i := 0 to |namespaces|
        invariant Valid()
        invariant if i == 0 then seen == {} && results == []
                  else
                    && seen == below.seen && BelowStart(tasks, below.stops)
                    && results == Runs(tasks, below.stops) + Each(tasks, start)[..i]
        invariant contextual == old(contextual) + seen + {start}
      {
        ghost var seen0, results0 := seen, results;
        namespaceOf := namespaceOf[start := namespaces[i]];
        ghost var names := namespaceOf;
        var visited := Visit(start);
        results := results + visited;
        OneMoreNamespace(tasks, start, i, seen0, names, results0, seen, namespaceOf, visited);
      }
      EachPrefixes(tasks, start);
    }
  }

  lemma EachPrefixes(tasks: Tasks, t: Task)
    requires t in tasks
    ensures Each(tasks, t)[..|tasks[t].namespaces|] == Each(tasks, t)
    ensures |Each(tasks, t)| == |tasks[t].namespaces|
  {}

  // The first visit of the start yields everything below it, the others the start alone.
  lemma OneMoreNamespace(tasks: Tasks, start: Task, i: nat, seen0: set<Task>, names0: map<Task, string>,
                         results0: seq<Yield>, seen: set<Task>, names: map<Task, string>, visited: seq<Yield>)
    requires WellFormed(tasks) && start in tasks && i < |tasks[start].namespaces| && start in names0
    requires names0[start] == tasks[start].namespaces[i]
    requires Visited(tasks, start, seen0, names0, seen, names, visited)
    requires var below := WalkAll(tasks, tasks[start].dependencies, {start});
             if i == 0 then seen0 == {} && results0 == []
             else
               && seen0 == below.seen && BelowStart(tasks, below.stops)
               && results0 == Runs(tasks, below.stops) + Each(tasks, start)[..i]
    ensures var below := WalkAll(tasks, tasks[start].dependencies, {start});
            && seen == below.seen && BelowStart(tasks, below.stops)
            && results0 + visited == Runs(tasks, below.stops) + Each(tasks, start)[..i + 1]
  {
    var below := WalkAll(tasks, tasks[start].dependencies, {start});
    assert {} + {start} == {start};
    assert Each(tasks, start)[..i + 1] == Each(tasks, start)[..i] + [Yield(start, tasks[start].namespaces[i])];
    hide WalkAll, Runs, Run, Renamed, Each, BelowStart;
    if i > 0 {
      Associative(Runs(tasks, below.stops), Each(tasks, start)[..i], visited);
    }
  }

  // What postorder yields: the run of every task below the start, then the start in each of its
  // namespaces.
  ghost predicate IsPostorder(tasks: Tasks, start: Task, results: seq<Yield>)
    requires WellFormed(tasks) && start in tasks
  {
    var below := WalkAll(tasks, tasks[start].dependencies, {start});
    BelowStart(tasks, below.stops) && results == Runs(tasks, below.stops) + Each(tasks, start)
  }

  // Between seen0 and seen, the tasks newly seen are the ones that got the context.
  ghost predicate GivenContext(contexts0: set<Task>, seen0: set<Task>, seen: set<Task>, contexts: set<Task>) {
    contexts == contexts0 + (seen - seen0)
  }

  lemma NoContextYet(contexts0: set<Task>, seen0: set<Task>)
    ensures GivenContext(contexts0, seen0, seen0, contexts0)
  {}

  lemma MoreContext(contexts0: set<Task>, seen0: set<Task>, seen1: set<Task>, seen2: set<Task>,
                    child: Task, contexts1: set<Task>, contexts2: set<Task>)
    requires GivenContext(contexts0, seen0, seen1, contexts1) && seen0 <= seen1 <= seen2
    requires child in seen2 - seen1 && contexts2 == contexts1 + (seen2 - seen1) + {child}
    ensures GivenContext(contexts0, seen0, seen2, contexts2)
  {}

  lemma LastContext(contexts0: set<Task>, seen0: set<Task>, node: Task, seen: set<Task>, contexts: set<Task>)
    requires GivenContext(contexts0, seen0 + {node}, seen, contexts)
    ensures contexts + {node} == contexts0 + (seen - seen0) + {node}
  {}

  ghost predicate Visiting(tasks: Tasks, node: Task, seen0: set<Task>, names0: map<Task, string>, i: nat,
                           seen: set<Task>, names: map<Task, string>, stops: seq<Stop>, results: seq<Yield>)
    requires WellFormed(tasks) && node in tasks
  {
    var deps := tasks[node].dependencies;
    && i <= |deps| && node !in seen0 && seen0 + {node} <= seen
    && (var rest := WalkAll(tasks, deps[i..], seen);
        WalkAll(tasks, deps, seen0 + {node}) == Trail(stops + rest.stops, rest.seen))
    && BelowStart(tasks, stops) && results == Runs(tasks, stops)
    && Renamed(tasks, seen - seen0 - {node}, names0, names)
  }

  lemma StartVisiting(tasks: Tasks, node: Task, seen0: set<Task>, names0: map<Task, string>)
    requires WellFormed(tasks) && node in tasks
    ensures forall d | d in tasks[node].dependencies :: d in tasks
    ensures node !in seen0 ==> Visiting(tasks, node, seen0, names0, 0, seen0 + {node}, names0, [], [])
  {
    var deps := tasks[node].dependencies;
    var trail := WalkAll(tasks, deps, seen0 + {node});
    assert deps[0..] == deps;
    assert [] + trail.stops == trail.stops;
    assert seen0 + {node} - seen0 - {node} == {};
  }

  lemma StepSeen(tasks: Tasks, node: Task, seen0: set<Task>, names0: map<Task, string>, i: nat,
                 seen: set<Task>, names: map<Task, string>, stops: seq<Stop>, results: seq<Yield>)
    requires WellFormed(tasks) && node in tasks && i < |tasks[node].dependencies|
    requires Visiting(tasks, node, seen0, names0, i, seen, names, stops, results)
    requires tasks[node].dependencies[i] in seen
    ensures Visiting(tasks, node, seen0, names0, i + 1, seen, names, stops, results)
  {
    var deps := tasks[node].dependencies;
    assert deps[i..][0] == deps[i] && deps[i..][1..] == deps[i + 1..];
  }

  lemma VisitedBefore(tasks: Tasks, node: Task, seen: set<Task>, names: map<Task, string>)
    requires WellFormed(tasks) && node in tasks && node in names && node in seen
    ensures Visited(tasks, node, seen, names, seen, names, [] + [Yield(node, names[node])])
  {
    assert [] + [Yield(node, names[node])] == [Yield(node, names[node])];
  }

  // The tasks a child's visit yields are the ones it adds to seen.
  lemma InnerTasks(tasks: Tasks, child: Task, seen: set<Task>, names: map<Task, string>,
                   seen2: set<Task>, names2: map<Task, string>, inner: seq<Yield>)
    requires WellFormed(tasks) && child in tasks && child !in seen && child in names
    requires Visited(tasks, child, seen, names, seen2, names2, inner)
    ensures AreTasks(tasks, inner) && TasksOf(inner) == seen2 - seen
    ensures seen + {child} <= seen2
  {
    var below := WalkAll(tasks, tasks[child].dependencies, seen + {child});
    WalkAllAddsWhatItMeets(tasks, tasks[child].dependencies, seen + {child});
    TasksOfRuns(tasks, below.stops);
    hide WalkAll, Runs, Meets, MeetsOnce, Renamed;
    forall t ensures t in TasksOf(Runs(tasks, below.stops)) <==> t in below.seen - (seen + {child}) {
      assert t in TasksOf(Runs(tasks, below.stops)) <==> Meets(below.stops, t);
    }
    assert TasksOf(Runs(tasks, below.stops)) == below.seen - (seen + {child});
    OneMoreTask(Runs(tasks, below.stops), Yield(child, names[child]));
    assert inner == Runs(tasks, below.stops) + [Yield(child, names[child])];
  }

  lemma OneMoreTask(items: seq<Yield>, last: Yield)
    ensures TasksOf(items + [last]) == TasksOf(items) + {last.task}
  {
    assert forall item :: item in items + [last] <==> item in items || item == last;
  }

  lemma {:induction false} TasksOfRuns(tasks: Tasks, stops: seq<Stop>)
    requires WellFormed(tasks) && BelowStart(tasks, stops)
    ensures forall t :: t in TasksOf(Runs(tasks, stops)) <==> Meets(stops, t)
  {
    if stops != [] {
      var m := |stops| - 1;
      TasksOfRuns(tasks, stops[..m]);
      var run := Run(tasks, stops[m].task, stops[m].depth);
      RunLength(tasks, stops[m].task, stops[m].depth);
      assert TasksOf(run) == {stops[m].task} by {
        assert run[0] in run;
      }
      assert TasksOf(Runs(tasks, stops)) == TasksOf(Runs(tasks, stops[..m])) + TasksOf(run);
      forall t ensures Meets(stops, t) <==> Meets(stops[..m], t) || t == stops[m].task {
        MeetsConcat(stops[..m], [stops[m]], t);
        assert stops == stops[..m] + [stops[m]];
        assert [stops[m]][0].task == stops[m].task;
      }
    }
  }

  lemma StepVisit(tasks: Tasks, node: Task, seen0: set<Task>, names0: map<Task, string>, i: nat,
                  seen: set<Task>, names: map<Task, string>, stops: seq<Stop>, results: seq<Yield>,
                  seen2: set<Task>, names2: map<Task, string>, inner: seq<Yield>, names3: map<Task, string>)
    requires WellFormed(tasks) && node in tasks && i < |tasks[node].dependencies|
    requires Visiting(tasks, node, seen0, names0, i, seen, names, stops, results)
    requires var child := tasks[node].dependencies[i];
             child !in seen && child in names && Visited(tasks, child, seen, names, seen2, names2, inner)
    requires AreTasks(tasks, inner) && TasksOf(inner) == seen2 - seen && seen <= seen2
    requires Renamed(tasks, TasksOf(inner), names2, names3)
    ensures var first := Walk(tasks, tasks[node].dependencies[i], seen);
            Visiting(tasks, node, seen0, names0, i + 1, seen2, names3, stops + Deeper(first.stops),
                     results + Reyielded(tasks, inner))
  {
    var deps := tasks[node].dependencies;
    var child := deps[i];
    var first := Walk(tasks, child, seen);
    var below := WalkAll(tasks, tasks[child].dependencies, seen + {child});
    assert deps[i..][0] == child && deps[i..][1..] == deps[i + 1..];
    var rest := WalkAll(tasks, deps[i + 1..], first.seen);
    Associative(stops, Deeper(first.stops), rest.stops);
    hide WalkAll, Walk, Runs, Run, Reyielded, TasksOf, Deeper, Each, IsLast;
    VisitDeeper(tasks, below.stops, child, names[child]);
    RunsConcat(tasks, stops, Deeper(below.stops + [Stop(child, 0)]));
    RenamedAlong(tasks, seen0, node, child, seen, seen2, names0, names, names2, names3);
  }

  lemma RenamedAlong(tasks: Tasks, seen0: set<Task>, node: Task, child: Task, seen: set<Task>, seen2: set<Task>,
                     names0: map<Task, string>, names: map<Task, string>, names2: map<Task, string>,
                     names3: map<Task, string>)
    requires seen0 + {node} <= seen <= seen2
    requires Renamed(tasks, seen - seen0 - {node}, names0, names)
    requires Renamed(tasks, seen2 - seen - {child}, names, names2)
    requires Renamed(tasks, seen2 - seen, names2, names3)
    ensures Renamed(tasks, seen2 - seen0 - {node}, names0, names3)
  {
    RenamedTwice(tasks, seen2 - seen - {child}, seen2 - seen, names, names2, names3);
    RenamedTwice(tasks, seen - seen0 - {node}, (seen2 - seen - {child}) + (seen2 - seen), names0, names, names3);
    hide Renamed;
    assert seen - seen0 - {node} + ((seen2 - seen - {child}) + (seen2 - seen)) == seen2 - seen0 - {node};
  }

  lemma FinishVisiting(tasks: Tasks, node: Task, seen0: set<Task>, names0: map<Task, string>,
                       seen: set<Task>, names: map<Task, string>, stops: seq<Stop>, results: seq<Yield>)
    requires WellFormed(tasks) && node in tasks && node in names0
    requires Visiting(tasks, node, seen0, names0, |tasks[node].dependencies|, seen, names, stops, results)
    ensures node in names && names[node] == names0[node]
    ensures Visited(tasks, node, seen0, names0, seen, names, results + [Yield(node, names0[node])])
  {
    assert stops + [] == stops;
  }

  lemma OneMoreItem(tasks: Tasks, items: seq<Yield>, k: nat)
    requires AreTasks(tasks, items) && k < |items|
    ensures AreTasks(tasks, items[..k]) && AreTasks(tasks, items[..k + 1])
    ensures Reyielded(tasks, items[..k + 1]) == Reyielded(tasks, items[..k]) + Each(tasks, items[k].task)
    ensures TasksOf(items[..k + 1]) == TasksOf(items[..k]) + {items[k].task}
  {
    assert items[..k + 1][..k] == items[..k];
    assert forall item :: item in items[..k + 1] <==> item in items[..k] || item == items[k];
  }

  lemma RenamedTwice(tasks: Tasks, a: set<Task>, b: set<Task>, names0: map<Task, string>,
                     names1: map<Task, string>, names2: map<Task, string>)
    requires Renamed(tasks, a, names0, names1) && Renamed(tasks, b, names1, names2)
    ensures Renamed(tasks, a + b, names0, names2)
  {}

  // ---------- What postorder yields ----------

  // Items are tasks in one of their namespaces.
  ghost predicate InNamespaces(tasks: Tasks, items: seq<Yield>) {
    forall item | item in items :: item.task in tasks && item.namespace in tasks[item.task].namespaces
  }

  lemma {:induction false} ReyieldedInNamespaces(tasks: Tasks, items: seq<Yield>)
    requires AreTasks(tasks, items)
    ensures InNamespaces(tasks, Reyielded(tasks, items))
  {
    if items != [] {
      ReyieldedInNamespaces(tasks, items[..|items| - 1]);
    }
  }

  lemma {:induction false} RunsInNamespaces(tasks: Tasks, stops: seq<Stop>)
    requires BelowStart(tasks, stops)
    ensures InNamespaces(tasks, Runs(tasks, stops))
  {
    if stops != [] {
      var stop := stops[|stops| - 1];
      RunsInNamespaces(tasks, stops[..|stops| - 1]);
      if stop.depth > 1 {
        ReyieldedInNamespaces(tasks, Run(tasks, stop.task, stop.depth - 1));
      }
      assert InNamespaces(tasks, Run(tasks, stop.task, stop.depth));
    }
  }

  lemma {:induction false} RunsYieldEvery(tasks: Tasks, stops: seq<Stop>, t: Task, namespace: string)
    requires WellFormed(tasks) && BelowStart(tasks, stops) && Meets(stops, t)
    requires t in tasks && namespace in tasks[t].namespaces
    ensures Yield(t, namespace) in Runs(tasks, stops)
  {
    var m := |stops| - 1;
    if stops[m].task == t {
      RunLength(tasks, t, stops[m].depth);
    } else {
      MeetsConcat(stops[..m], [stops[m]], t);
      assert stops == stops[..m] + [stops[m]];
      RunsYieldEvery(tasks, stops[..m], t, namespace);
    }
  }

  // Every task reachable from the start is yielded in each of its namespaces, and nothing else is.
  lemma YieldsReachableInNamespaces(tasks: Tasks, start: Task, results: seq<Yield>, item: Yield)
    requires WellFormed(tasks) && start in tasks && IsPostorder(tasks, start, results)
    ensures item in results <==>
              && Reaches(DependencyArcs(tasks), start, item.task)
              && item.task in tasks && item.namespace in tasks[item.task].namespaces
  {
    var below := WalkAll(tasks, tasks[start].dependencies, {start});
    assert {} + {start} == {start};
    WalkMeetsReachable(tasks, start, item.task);
    MeetsConcat(below.stops, [Stop(start, 0)], item.task);
    assert [Stop(start, 0)][0].task == start;
    RunsInNamespaces(tasks, below.stops);
    TasksOfRuns(tasks, below.stops);
    EachNamespace(tasks, start);
    hide WalkAll, Walk, Runs, Meets, MeetsOnce, Reaches, InNamespaces, DependencyArcs;
    assert item in results <==> item in Runs(tasks, below.stops) || item in Each(tasks, start);
    if Meets(below.stops, item.task) && item.task in tasks && item.namespace in tasks[item.task].namespaces {
      RunsYieldEvery(tasks, below.stops, item.task, item.namespace);
    }
    if item in Runs(tasks, below.stops) {
      YieldedIsMet(tasks, below.stops, item);
    }
  }

  lemma YieldedIsMet(tasks: Tasks, stops: seq<Stop>, item: Yield)
    requires WellFormed(tasks) && BelowStart(tasks, stops) && item in Runs(tasks, stops)
    ensures Meets(stops, item.task)
    ensures item.task in tasks && item.namespace in tasks[item.task].namespaces
  {
    RunsInNamespaces(tasks, stops);
    TasksOfRuns(tasks, stops);
    assert item.task in TasksOf(Runs(tasks, stops));
  }

  ghost predicate SingleNamespaces(tasks: Tasks) {
    forall t | t in tasks :: |tasks[t].namespaces| == 1
  }

  lemma {:induction false} PowerOfOne(e: nat)
    ensures Power(1, e) == 1
  {
    if e != 0 {
      PowerOfOne(e - 1);
    }
  }

  // With single namespaces every stop is yielded once.
  lemma {:induction false} SingleRuns(tasks: Tasks, stops: seq<Stop>)
    requires WellFormed(tasks) && SingleNamespaces(tasks) && BelowStart(tasks, stops)
    ensures |Runs(tasks, stops)| == |stops|
    ensures forall i | 0 <= i < |stops| :: Runs(tasks, stops)[i].task == stops[i].task
  {
    if stops != [] {
      var m := |stops| - 1;
      SingleRuns(tasks, stops[..m]);
      SingleRun(tasks, stops[m].task, stops[m].depth);
      hide Run;
      assert Runs(tasks, stops) == Runs(tasks, stops[..m]) + Run(tasks, stops[m].task, stops[m].depth);
    }
  }

  lemma SingleRun(tasks: Tasks, t: Task, depth: nat)
    requires WellFormed(tasks) && SingleNamespaces(tasks) && t in tasks && depth >= 1
    ensures |Run(tasks, t, depth)| == 1 && Run(tasks, t, depth)[0].task == t
  {
    RunLength(tasks, t, depth);
    PowerOfOne(depth);
    hide Run, Power;
    assert Run(tasks, t, depth)[0] in Run(tasks, t, depth);
  }

  // Then postorder lists every reachable task exactly once, the cyclic case included,
  lemma SinglePostorderOnce(tasks: Tasks, start: Task, results: seq<Yield>, t: Task)
    requires WellFormed(tasks) && SingleNamespaces(tasks) && start in tasks
    requires IsPostorder(tasks, start, results)
    ensures forall i, j | 0 <= i < j < |results| :: results[i].task != results[j].task
    ensures Reaches(DependencyArcs(tasks), start, t) <==> exists i :: 0 <= i < |results| && results[i].task == t
  {
    SinglePostorderStops(tasks, start, results);
    WalkMeetsReachable(tasks, start, t);
    var stops := Walk(tasks, start, {}).stops;
    hide Walk, Reaches, DependencyArcs;
    if Meets(stops, t) {
      var i :| 0 <= i < |stops| && stops[i].task == t;
      assert results[i].task == t;
    }
    if i :| 0 <= i < |results| && results[i].task == t {
      assert stops[i].task == t;
    }
  }

  // and, without cycles, after everything it depends on.
  lemma SinglePostorderIsOrdered(tasks: Tasks, start: Task, results: seq<Yield>, i: nat, d: Task)
    requires WellFormed(tasks) && SingleNamespaces(tasks) && start in tasks
    requires IsPostorder(tasks, start, results) && Acyclic(DependencyArcs(tasks))
    requires i < |results| && d != results[i].task && Reaches(DependencyArcs(tasks), results[i].task, d)
    ensures exists j :: 0 <= j < i && results[j].task == d
  {
    SinglePostorderStops(tasks, start, results);
    var stops := Walk(tasks, start, {}).stops;
    DependenciesComeFirst(tasks, start, i, d);
    var j :| 0 <= j < i && stops[..i][j].task == d;
    assert results[j].task == d;
  }

  lemma SinglePostorderStops(tasks: Tasks, start: Task, results: seq<Yield>)
    requires WellFormed(tasks) && SingleNamespaces(tasks) && start in tasks
    requires IsPostorder(tasks, start, results)
    ensures |results| == |Walk(tasks, start, {}).stops|
    ensures forall i | 0 <= i < |results| :: results[i].task == Walk(tasks, start, {}).stops[i].task
  {
    assert {} + {start} == {start};
    SingleRuns(tasks, WalkAll(tasks, tasks[start].dependencies, {start}).stops);
  }
}
