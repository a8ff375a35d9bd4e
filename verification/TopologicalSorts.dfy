/** The destructive topological sort the resolver orders sections and options with. */
module TopologicalSorts {
  import opened Graphs
  import opened Sequences

  type Pair = (string, string)

  datatype NodeInfo = NodeInfo(count: int, children: seq<string>)

  datatype SortResult =
    | Sorted(order: seq<string>)
    | CyclicDependencies(dependents: map<string, seq<string>>)

  ghost function ArcSet(arcs: seq<Pair>): set<Pair> {
    set arc | arc in arcs
  }

  // The targets of the arcs from n, in the order the arcs were recorded.
  ghost function Successors(arcs: seq<Pair>, n: string): seq<string> {
    if arcs == [] then []
    else
      var m := |arcs| - 1;
      Successors(arcs[..m], n) + if arcs[m].0 == n then [arcs[m].1] else []
  }

  // How many arcs, counted with multiplicity, lead from the given nodes to n.
  ghost function InDegree(arcs: seq<Pair>, from: set<string>, n: string): nat {
    if arcs == [] then 0
    else
      var m := |arcs| - 1;
      InDegree(arcs[..m], from, n) + if arcs[m].0 in from && arcs[m].1 == n then 1 else 0
  }

  lemma {:induction false} InDegreeWithout(arcs: seq<Pair>, from: set<string>, r: string, n: string)
    requires r in from
    ensures InDegree(arcs, from, n)
         == InDegree(arcs, from - {r}, n) + multiset(Successors(arcs, r))[n]
  {
    if arcs != [] {
      InDegreeWithout(arcs[..|arcs| - 1], from, r, n);
    }
  }

  lemma {:induction false} InDegreeIsZero(arcs: seq<Pair>, from: set<string>, n: string)
    ensures InDegree(arcs, from, n) == 0 <==> forall a | a in from :: (a, n) !in arcs
  {
    if arcs != [] {
      var m := |arcs| - 1;
      assert forall arc :: arc in arcs <==> arc in arcs[..m] || arc == arcs[m];
      InDegreeIsZero(arcs[..m], from, n);
    }
  }

  lemma {:induction false} InDegreeOfMore(arcs: seq<Pair>, from: set<string>, more: set<string>, n: string)
    requires from <= more && forall arc | arc in arcs :: arc.0 in from
    ensures InDegree(arcs, from, n) == InDegree(arcs, more, n)
  {
    if arcs != [] {
      InDegreeOfMore(arcs[..|arcs| - 1], from, more, n);
    }
  }

  lemma {:induction false} SuccessorsAreTargets(arcs: seq<Pair>, a: string, b: string)
    ensures b in Successors(arcs, a) <==> (a, b) in arcs
  {
    if arcs != [] {
      var m := |arcs| - 1;
      assert arcs == arcs[..m] + [arcs[m]];
      SuccessorsAreTargets(arcs[..m], a, b);
    }
  }

  // ---------- Building the graph ----------

  // What processing the pairs leaves: the nodes, those faked up for missing names included,
  // and the arcs. The first pair that names a missing node only creates that node.
  datatype Recording = Recording(nodes: set<string>, arcs: seq<Pair>)

  ghost function Recorded(items: seq<string>, order: seq<Pair>): Recording {
    if order == [] then
      Recording(set v | v in items, [])
    else
      var m := |order| - 1;
      var before := Recorded(items, order[..m]);
      var (a, b) := order[m];
      if a !in before.nodes then before.(nodes := before.nodes + {a})
      else if b !in before.nodes then before.(nodes := before.nodes + {b})
      else before.(arcs := before.arcs + [(a, b)])
  }

  ghost predicate Represents(graph: map<string, NodeInfo>, nodes: set<string>, arcs: seq<Pair>) {
    && graph.Keys == nodes
    && forall n | n in nodes ::
         graph[n].count == InDegree(arcs, nodes, n) && graph[n].children == Successors(arcs, n)
  }

  lemma {:induction false} RecordedIsClosed(items: seq<string>, order: seq<Pair>)
    ensures forall arc | arc in Recorded(items, order).arcs ::
              arc.0 in Recorded(items, order).nodes && arc.1 in Recorded(items, order).nodes
  {
    if order != [] {
      RecordedIsClosed(items, order[..|order| - 1]);
    }
  }

  function AddNode(graph: map<string, NodeInfo>, node: string): map<string, NodeInfo> {
    if node in graph then graph else graph[node := NodeInfo(0, [])]
  }

  function AddArc(graph: map<string, NodeInfo>, fromNode: string, toNode: string)
    : map<string, NodeInfo>
    requires fromNode in graph && toNode in graph
  {
    var g := graph[fromNode := graph[fromNode].(children := graph[fromNode].children + [toNode])];
    g[toNode := g[toNode].(count := g[toNode].count + 1)]
  }

  lemma {:induction false} NothingAtOutsiders(arcs: seq<Pair>, nodes: set<string>, n: string)
    requires n !in nodes && forall arc | arc in arcs :: arc.0 in nodes && arc.1 in nodes
    ensures Successors(arcs, n) == [] && InDegree(arcs, nodes, n) == 0
  {
    if arcs != [] {
      NothingAtOutsiders(arcs[..|arcs| - 1], nodes, n);
    }
  }

  lemma FakedUpNode(graph: map<string, NodeInfo>, rec: Recording, n: string)
    requires Represents(graph, rec.nodes, rec.arcs) && n !in rec.nodes
    requires forall arc | arc in rec.arcs :: arc.0 in rec.nodes && arc.1 in rec.nodes
    ensures Represents(graph[n := NodeInfo(0, [])], rec.nodes + {n}, rec.arcs)
  {
    NothingAtOutsiders(rec.arcs, rec.nodes, n);
    forall x | x in rec.nodes + {n}
      ensures InDegree(rec.arcs, rec.nodes, x) == InDegree(rec.arcs, rec.nodes + {n}, x)
    {
      InDegreeOfMore(rec.arcs, rec.nodes, rec.nodes + {n}, x);
    }
  }

  lemma ArcAdded(graph: map<string, NodeInfo>, rec: Recording, a: string, b: string)
    requires Represents(graph, rec.nodes, rec.arcs) && a in rec.nodes && b in rec.nodes
    ensures Represents(AddArc(graph, a, b), rec.nodes, rec.arcs + [(a, b)])
  {
    assert (rec.arcs + [(a, b)])[..|rec.arcs|] == rec.arcs;
  }

  method BuildGraph(items: seq<string>, partialOrder: seq<Pair>)
    returns (graph: map<string, NodeInfo>)
    ensures Represents(graph, Recorded(items, partialOrder).nodes, Recorded(items, partialOrder).arcs)
  {
    graph := map[];
    for i := 0 to |items|
      invariant graph == map v | v in items[..i] :: NodeInfo(0, [])
    {
      graph := AddNode(graph, items[i]);
    }
    assert items[..|items|] == items;
    for i := 0 to |partialOrder|
      invariant Represents(graph, Recorded(items, partialOrder[..i]).nodes,
                           Recorded(items, partialOrder[..i]).arcs)
    {
      ghost var rec := Recorded(items, partialOrder[..i]);
      assert partialOrder[..i + 1][..i] == partialOrder[..i];
      RecordedIsClosed(items, partialOrder[..i]);
      var (a, b) := partialOrder[i];
      if a !in graph {
        FakedUpNode(graph, rec, a);
        graph := graph[a := NodeInfo(0, [])];
      } else if b !in graph {
        FakedUpNode(graph, rec, b);
        graph := graph[b := NodeInfo(0, [])];
      } else {
        ArcAdded(graph, rec, a, b);
        graph := AddArc(graph, a, b);
      }
    }
    assert partialOrder[..|partialOrder|] == partialOrder;
  }

  // ---------- Taking the graph apart ----------

  // a occurs before b.
  ghost predicate Precedes(s: seq<string>, a: string, b: string) {
    exists i, j :: 0 <= i < j < |s| && s[i] == a && s[j] == b
  }

  // Everything listed comes after all its recorded predecessors.
  ghost predicate InOrder(s: seq<string>, arcs: seq<Pair>) {
    forall a, b | (a, b) in arcs && b in s :: Precedes(s, a, b)
  }

  // The state between two rounds of the main loop.
  ghost predicate Dismantling(nodes: set<string>, arcs: seq<Pair>,
                              graph: map<string, NodeInfo>, roots: seq<string>, sorted: seq<string>) {
    && graph.Keys <= nodes && Represents(graph, graph.Keys, arcs)
    && Distinct(sorted) && InOrder(sorted, arcs)
    && (forall n :: n in sorted <==> n in nodes && n !in graph)
    && Distinct(roots)
    && (forall n :: n in roots <==> n in graph && graph[n].count == 0)
  }

  // roots lists, once each, the nodes without incoming arcs other than the one in hand.
  ghost predicate AreRoots(roots: seq<string>, graph: map<string, NodeInfo>, root: string) {
    && Distinct(roots)
    && (forall n :: n in roots <==> n in graph && n != root && graph[n].count == 0)
  }

  // The state while a root's first k children are being released.
  ghost predicate Releasing(arcs: seq<Pair>, keys: set<string>, root: string, k: nat,
                            graph: map<string, NodeInfo>, roots: seq<string>) {
    && graph.Keys == keys && root in keys && k <= |Successors(arcs, root)|
    && (forall n | n in keys :: graph[n].children == Successors(arcs, n))
    && (forall n | n in keys ::
          graph[n].count == InDegree(arcs, keys, n) - multiset(Successors(arcs, root)[..k])[n])
    && AreRoots(roots, graph, root)
  }

  lemma StartReleasing(nodes: set<string>, arcs: seq<Pair>, graph: map<string, NodeInfo>,
                       roots: seq<string>, sorted: seq<string>)
    requires Dismantling(nodes, arcs, graph, roots, sorted) && roots != []
    ensures Releasing(arcs, graph.Keys, roots[|roots| - 1], 0, graph, roots[..|roots| - 1])
  {
    var m := |roots| - 1;
    assert roots == roots[..m] + [roots[m]];
  }

  // A child still has arcs left from the root, so it is released when its last one goes.
  lemma ChildIsHeld(arcs: seq<Pair>, keys: set<string>, root: string, k: nat,
                    graph: map<string, NodeInfo>, roots: seq<string>)
    requires Releasing(arcs, keys, root, k, graph, roots) && k < |Successors(arcs, root)|
    requires Successors(arcs, root)[k] in keys
    ensures graph[Successors(arcs, root)[k]].count >= 1
  {
    var children := Successors(arcs, root);
    assert children == children[..k] + [children[k]] + children[k + 1..];
    InDegreeWithout(arcs, keys, root, children[k]);
  }

  lemma RootsAfterRelease(roots: seq<string>, graph: map<string, NodeInfo>, root: string,
                          child: string, count: int)
    requires AreRoots(roots, graph, root) && child in graph && child != root
    requires graph[child].count == count + 1 >= 1
    ensures AreRoots(if count == 0 then roots + [child] else roots,
                     graph[child := graph[child].(count := count)], root)
  {
    assert child !in roots;
    var roots' := if count == 0 then roots + [child] else roots;
    assert forall n :: n in roots' <==> n in roots || (count == 0 && n == child);
  }

  lemma Release(arcs: seq<Pair>, keys: set<string>, root: string, k: nat,
                graph: map<string, NodeInfo>, roots: seq<string>)
    requires Releasing(arcs, keys, root, k, graph, roots) && k < |Successors(arcs, root)|
    requires Successors(arcs, root)[k] in keys && Successors(arcs, root)[k] != root
    ensures var child := Successors(arcs, root)[k];
            var graph' := graph[child := graph[child].(count := graph[child].count - 1)];
            Releasing(arcs, keys, root, k + 1, graph',
                      if graph'[child].count == 0 then roots + [child] else roots)
  {
    var children := Successors(arcs, root);
    var child := children[k];
    ChildIsHeld(arcs, keys, root, k, graph, roots);
    hide InDegree, Successors, AreRoots;
    RootsAfterRelease(roots, graph, root, child, graph[child].count - 1);
    forall n ensures multiset(children[..k + 1])[n]
                  == multiset(children[..k])[n] + if n == child then 1 else 0 {
      TakeOneMore(children, k, n);
    }
  }

  lemma TakeOneMore(s: seq<string>, k: nat, n: string)
    requires k < |s|
    ensures multiset(s[..k + 1])[n] == multiset(s[..k])[n] + if n == s[k] then 1 else 0
  {
    assert s[..k + 1] == s[..k] + [s[k]];
  }

  // Arcs from a node still in the graph lead to nodes still in the graph, and not back to a root.
  lemma ChildrenRemain(nodes: set<string>, arcs: seq<Pair>, graph: map<string, NodeInfo>,
                       roots: seq<string>, sorted: seq<string>, root: string, child: string)
    requires Dismantling(nodes, arcs, graph, roots, sorted) && root in roots
    requires forall arc | arc in arcs :: arc.1 in nodes
    requires child in Successors(arcs, root)
    ensures child in graph && child != root
  {
    SuccessorsAreTargets(arcs, root, child);
    InDegreeIsZero(arcs, graph.Keys, root);
    assert child in sorted ==> Precedes(sorted, root, child);
  }

  lemma FinishReleasing(nodes: set<string>, arcs: seq<Pair>, graph0: map<string, NodeInfo>,
                        roots0: seq<string>, sorted: seq<string>, root: string,
                        graph: map<string, NodeInfo>, roots: seq<string>)
    requires Dismantling(nodes, arcs, graph0, roots0, sorted) && root in roots0
    requires forall arc | arc in arcs :: arc.0 in nodes
    requires Releasing(arcs, graph0.Keys, root, |Successors(arcs, root)|, graph, roots)
    ensures Dismantling(nodes, arcs, graph - {root}, roots, sorted + [root])
  {
    var children := Successors(arcs, root);
    assert children[..|children|] == children;
    forall n | n in graph0.Keys - {root} ensures graph[n].count == InDegree(arcs, graph0.Keys - {root}, n) {
      InDegreeWithout(arcs, graph0.Keys, root, n);
    }
    RootComesNext(nodes, arcs, graph0, roots0, sorted, root);
  }

  lemma RootComesNext(nodes: set<string>, arcs: seq<Pair>, graph: map<string, NodeInfo>,
                      roots: seq<string>, sorted: seq<string>, root: string)
    requires Dismantling(nodes, arcs, graph, roots, sorted) && root in roots
    requires forall arc | arc in arcs :: arc.0 in nodes
    ensures InOrder(sorted + [root], arcs)
  {
    var s := sorted + [root];
    InDegreeIsZero(arcs, graph.Keys, root);
    forall a, b | (a, b) in arcs && b in s ensures Precedes(s, a, b) {
      if b in sorted {
        var i, j :| 0 <= i < j < |sorted| && sorted[i] == a && sorted[j] == b;
        assert s[i] == a && s[j] == b;
      } else {
        assert a in sorted;
        var i :| 0 <= i < |sorted| && sorted[i] == a;
        assert s[i] == a && s[|sorted|] == b;
      }
    }
  }

  lemma PrecedesTransitively(s: seq<string>, a: string, b: string, c: string)
    requires Distinct(s) && Precedes(s, a, b) && Precedes(s, b, c)
    ensures Precedes(s, a, c)
  {
    var i, j :| 0 <= i < j < |s| && s[i] == a && s[j] == b;
    var k, l :| 0 <= k < l < |s| && s[k] == b && s[l] == c;
    assert j == k;
  }

  lemma PrecedesOnlyOneWay(s: seq<string>, a: string, b: string)
    requires Distinct(s) && Precedes(s, a, b)
    ensures a != b && !Precedes(s, b, a)
  {}

  // A listed node comes after every other node it can be reached from.
  lemma {:induction false} ReachedComesLater(s: seq<string>, arcs: seq<Pair>, a: string, b: string)
    requires Distinct(s) && InOrder(s, arcs) && b in s && Reaches(ArcSet(arcs), a, b)
    ensures a in s && (a == b || Precedes(s, a, b))
  {
    var p :| PathFromTo(ArcSet(arcs), p, a, b);
    for k := |p| - 1 downto 0
      invariant p[k] in s && (p[k] == b || Precedes(s, p[k], b))
    {
      assert (p[k], p[k + 1]) in ArcSet(arcs);
      if p[k + 1] != b {
        PrecedesTransitively(s, p[k], p[k + 1], b);
      }
    }
  }

  lemma ListedIsNotOnCycle(s: seq<string>, arcs: seq<Pair>, c: string)
    requires Distinct(s) && InOrder(s, arcs) && c in s
    ensures !OnCycle(ArcSet(arcs), c)
  {
    if OnCycle(ArcSet(arcs), c) {
      var b := CycleHasArc(ArcSet(arcs), c);
      ReachedComesLater(s, arcs, b, c);
      PrecedesOnlyOneWay(s, c, b);
    }
  }

  // When no roots are left, the nodes still in the graph are those reachable from a cycle.
  lemma LeftoverIsBehindCycles(nodes: set<string>, arcs: seq<Pair>,
                               graph: map<string, NodeInfo>, sorted: seq<string>, n: string)
    requires Dismantling(nodes, arcs, graph, [], sorted)
    requires forall arc | arc in arcs :: arc.0 in nodes && arc.1 in nodes
    ensures n in graph <==> BehindCycle(ArcSet(arcs), n)
  {
    if n in graph {
      forall x | x in graph.Keys ensures HasPredecessor(ArcSet(arcs), graph.Keys, x) {
        InDegreeIsZero(arcs, graph.Keys, x);
      }
      PredecessorsLeadToCycle(ArcSet(arcs), graph.Keys, n);
    }
    if BehindCycle(ArcSet(arcs), n) {
      var c :| OnCycle(ArcSet(arcs), c) && Reaches(ArcSet(arcs), c, n);
      if c in sorted {
        ListedIsNotOnCycle(sorted, arcs, c);
      }
      var b := CycleHasArc(ArcSet(arcs), c);
      ClosedSetKeepsReach(ArcSet(arcs), graph.Keys, c, n);
    }
  }

  // The nodes without incoming arcs, in whatever order the dictionary yields them.
  method InitialRoots(graph: map<string, NodeInfo>) returns (roots: seq<string>)
    ensures Distinct(roots)
    ensures forall n :: n in roots <==> n in graph && graph[n].count == 0
  {
    roots := [];
    var rest := graph.Keys;
    while rest != {}
      invariant rest <= graph.Keys && Distinct(roots)
      invariant forall n :: n in roots <==> n in graph.Keys - rest && graph[n].count == 0
      decreases |rest|
    {
      var node :| node in rest;
      rest := rest - {node};
      if graph[node].count == 0 {
        roots := roots + [node];
      }
    }
  }

  // A listing of all nodes, once each, in which every arc leads forward.
  ghost predicate IsTopologicalOrder(order: seq<string>, rec: Recording) {
    && Distinct(order) && (forall n :: n in order <==> n in rec.nodes)
    && forall a, b | (a, b) in rec.arcs :: Precedes(order, a, b)
  }

  method TopologicalSort(items: seq<string>, partialOrder: seq<Pair>) returns (result: SortResult)
    ensures result.Sorted? <==> Acyclic(ArcSet(Recorded(items, partialOrder).arcs))
    ensures result.Sorted? ==> IsTopologicalOrder(result.order, Recorded(items, partialOrder))
    ensures result.CyclicDependencies? ==>
              forall n :: n in result.dependents <==>
                          BehindCycle(ArcSet(Recorded(items, partialOrder).arcs), n)
    ensures result.CyclicDependencies? ==>
              forall n | n in result.dependents ::
                result.dependents[n] == Successors(Recorded(items, partialOrder).arcs, n)
  {
    ghost var nodes, arcs := Recorded(items, partialOrder).nodes, Recorded(items, partialOrder).arcs;
    RecordedIsClosed(items, partialOrder);
    var graph := BuildGraph(items, partialOrder);
    var roots := InitialRoots(graph);
    var sorted := [];
    hide Releasing, Recorded, Successors, InDegree;
    while |roots| != 0
      invariant Dismantling(nodes, arcs, graph, roots, sorted)
      decreases graph.Keys
    {
      ghost var graph0, roots0 := graph, roots;
      var root := roots[|roots| - 1];
      StartReleasing(nodes, arcs, graph, roots, sorted);
      roots := roots[..|roots| - 1];
      sorted := sorted + [root];
      var children := graph[root].children;
      for k := 0 to |children|
        invariant Releasing(arcs, graph0.Keys, root, k, graph, roots) && graph.Keys == graph0.Keys
      {
        var child := children[k];
        ChildrenRemain(nodes, arcs, graph0, roots0, sorted[..|sorted| - 1], root, child);
        Release(arcs, graph0.Keys, root, k, graph, roots);
        graph := graph[child := graph[child].(count := graph[child].count - 1)];
        if graph[child].count == 0 {
          roots := roots + [child];
        }
      }
      assert sorted[..|sorted| - 1] + [root] == sorted;
      FinishReleasing(nodes, arcs, graph0, roots0, sorted[..|sorted| - 1], root, graph, roots);
      graph := graph - {root};
    }
    forall n ensures n in graph <==> BehindCycle(ArcSet(arcs), n) {
      LeftoverIsBehindCycles(nodes, arcs, graph, sorted, n);
    }
    AcyclicIffNothingBehind(ArcSet(arcs));
    if |graph| != 0 {
      assert graph.Keys != {};
      var n :| n in graph;
      assert BehindCycle(ArcSet(arcs), n);
      result := CyclicDependencies(map k | k in graph :: graph[k].children);
    } else {
      result := Sorted(sorted);
    }
  }

  // ---------- What gets recorded ----------

  // All items become nodes, and every pair between two items becomes an arc.
  lemma {:induction false} RecordedItems(items: seq<string>, order: seq<Pair>)
    ensures forall v | v in items :: v in Recorded(items, order).nodes
    ensures forall arc | arc in Recorded(items, order).arcs :: arc in order
    ensures forall a, b | (a, b) in order && a in items && b in items ::
              (a, b) in Recorded(items, order).arcs
  {
    if order != [] {
      var m := |order| - 1;
      RecordedItems(items, order[..m]);
      assert (order[m].0, order[m].1) == order[m];
      forall a, b | (a, b) in order && a in items && b in items
        ensures (a, b) in Recorded(items, order).arcs
      {
        assert (a, b) in order[..m] || (a, b) == order[m];
      }
    }
  }

  lemma RecordedMore(items: seq<string>, order: seq<Pair>, pair: Pair, n: string)
    requires n in Recorded(items, order).nodes && pair.1 in items
    ensures n in Recorded(items, order + [pair]).nodes
    ensures Successors(Recorded(items, order + [pair]).arcs, n)
         == Successors(Recorded(items, order).arcs, n) + if pair.0 == n then [pair.1] else []
  {
    var arcs := Recorded(items, order).arcs;
    RecordedItems(items, order);
    assert (order + [pair])[..|order|] == order && (arcs + [pair])[..|arcs|] == arcs;
  }

  lemma LastApart(first: seq<Pair>, after: seq<Pair>, m: nat)
    requires |after| == m + 1
    ensures first + after == first + after[..m] + [after[m]]
  {}

  lemma SuccessorsOfMore(arcs: seq<Pair>, m: nat, n: string)
    requires |arcs| == m + 1
    ensures Successors(arcs, n) == Successors(arcs[..m], n) + if arcs[m].0 == n then [arcs[m].1] else []
  {}

  lemma {:induction false} MentionsAfter(items: seq<string>, first: seq<Pair>, after: seq<Pair>, n: string)
    requires n in Recorded(items, first).nodes && forall pair | pair in after :: pair.1 in items
    ensures n in Recorded(items, first + after).nodes
    ensures Successors(Recorded(items, first + after).arcs, n)
         == Successors(Recorded(items, first).arcs, n) + Successors(after, n)
  {
    if after == [] {
      assert first + after == first;
    } else {
      var m := |after| - 1;
      MentionsAfter(items, first, after[..m], n);
      LastApart(first, after, m);
      RecordedMore(items, first + after[..m], after[m], n);
      hide *;
      Associative(Successors(Recorded(items, first).arcs, n), Successors(after[..m], n),
                  if after[m].0 == n then [after[m].1] else []);
      SuccessorsOfMore(after, m, n);
    }
  }

  // The first pair that mentions a missing node is dropped, and it alone.
  lemma FirstMentionIsDropped(items: seq<string>, before: seq<Pair>, n: string, b: string, after: seq<Pair>)
    requires forall pair | pair in before + [(n, b)] + after :: pair.1 in items
    requires n !in items && forall pair | pair in before :: pair.0 != n
    ensures Successors(Recorded(items, before + [(n, b)] + after).arcs, n) == Successors(after, n)
  {
    var first := before + [(n, b)];
    assert forall pair | pair in first || pair in after :: pair in first + after;
    MissingBefore(items, before, n);
    assert first[..|before|] == before && first[|before|] == (n, b);
    assert Recorded(items, first).arcs == Recorded(items, before).arcs && n in Recorded(items, first).nodes;
    hide Recorded, Successors;
    MentionsAfter(items, first, after, n);
  }

  lemma MissingBefore(items: seq<string>, before: seq<Pair>, n: string)
    requires n !in items && forall pair | pair in before :: pair.0 != n && pair.1 in items
    ensures n !in Recorded(items, before).nodes && Successors(Recorded(items, before).arcs, n) == []
  {
    RecordedNodes(items, before);
    RecordedItems(items, before);
    hide Recorded;
    SuccessorsOfOther(Recorded(items, before).arcs, n);
  }

  lemma SuccessorsOfOther(arcs: seq<Pair>, n: string)
    requires forall arc | arc in arcs :: arc.0 != n
    ensures Successors(arcs, n) == []
  {
    if Successors(arcs, n) != [] {
      SuccessorsAreTargets(arcs, n, Successors(arcs, n)[0]);
    }
  }

  ghost predicate IsFirst(order: seq<Pair>, n: string) {
    exists b :: (n, b) in order
  }

  // When second components are always items, the faked-up nodes are the missing first components.
  lemma {:induction false} RecordedNodes(items: seq<string>, order: seq<Pair>)
    requires forall pair | pair in order :: pair.1 in items
    ensures forall n :: n in Recorded(items, order).nodes <==>
                        n in items || IsFirst(order, n)
  {
    if order != [] {
      var m := |order| - 1;
      assert order == order[..m] + [order[m]];
      RecordedNodes(items, order[..m]);
      RecordedItems(items, order[..m]);
      assert order[m] in order;
      forall n ensures IsFirst(order, n) <==> IsFirst(order[..m], n) || n == order[m].0 {
        if n == order[m].0 {
          assert (n, order[m].1) in order;
        }
      }
    }
  }

  ghost function KnownArcs(items: seq<string>, order: seq<Pair>): set<Pair> {
    set pair | pair in order && pair.0 in items && pair.1 in items
  }

  // Dropping the first mention of a missing node hides no cycle.
  lemma RecordedCycle(items: seq<string>, order: seq<Pair>, x: string)
    requires forall pair | pair in order :: pair.1 in items
    ensures OnCycle(ArcSet(Recorded(items, order).arcs), x) <==> OnCycle(KnownArcs(items, order), x)
  {
    var arcs, known := ArcSet(Recorded(items, order).arcs), KnownArcs(items, order);
    RecordedItems(items, order);
    if OnCycle(known, x) {
      MoreArcsMoreCycles(known, arcs, x);
    }
    if OnCycle(arcs, x) {
      var p :| PathFromTo(arcs, p, x, x) && |p| >= 2;
      forall i | 0 <= i < |p| - 1 ensures (p[i], p[i + 1]) in known {
        assert (p[if i == 0 then |p| - 2 else i - 1], p[i]) in arcs;
        assert (p[i], p[i + 1]) in arcs;
      }
      assert PathFromTo(known, p, x, x);
    }
  }

  lemma RecordedCycles(items: seq<string>, order: seq<Pair>)
    requires forall pair | pair in order :: pair.1 in items
    ensures Acyclic(ArcSet(Recorded(items, order).arcs)) <==> Acyclic(KnownArcs(items, order))
  {
    forall x ensures OnCycle(ArcSet(Recorded(items, order).arcs), x) <==> OnCycle(KnownArcs(items, order), x) {
      RecordedCycle(items, order, x);
    }
  }

  // Nor does it change what lies behind cycles.
  lemma RecordedBehindCycles(items: seq<string>, order: seq<Pair>, n: string)
    requires forall pair | pair in order :: pair.1 in items
    ensures BehindCycle(ArcSet(Recorded(items, order).arcs), n) <==> BehindCycle(KnownArcs(items, order), n)
  {
    var arcs, known := ArcSet(Recorded(items, order).arcs), KnownArcs(items, order);
    RecordedItems(items, order);
    forall c ensures OnCycle(arcs, c) <==> OnCycle(known, c) {
      RecordedCycle(items, order, c);
    }
    if BehindCycle(known, n) {
      var c :| OnCycle(known, c) && Reaches(known, c, n);
      MoreArcsReachMore(known, arcs, c, n);
    }
    if BehindCycle(arcs, n) {
      var c :| OnCycle(arcs, c) && Reaches(arcs, c, n);
      var p :| PathFromTo(arcs, p, c, n);
      var b := CycleHasArc(known, c);
      forall i | 0 <= i < |p| - 1 ensures (p[i], p[i + 1]) in known {
        assert i > 0 ==> (p[i - 1], p[i]) in arcs;
        assert (p[i], p[i + 1]) in arcs;
      }
      assert PathFromTo(known, p, c, n);
    }
  }

  // ---------- What a cyclic error reports ----------

  lemma {:induction false} SuccessorsCount(arcs: seq<Pair>, a: string, b: string)
    ensures multiset(Successors(arcs, a))[b] == multiset(arcs)[(a, b)]
  {
    if arcs != [] {
      var m := |arcs| - 1;
      assert arcs == arcs[..m] + [arcs[m]];
      assert (arcs[m].0, arcs[m].1) == arcs[m];
      SuccessorsCount(arcs[..m], a, b);
    }
  }

  // No pair of a known item is dropped.
  lemma {:induction false} RecordedSuccessors(items: seq<string>, order: seq<Pair>, n: string)
    requires n in items && forall pair | pair in order :: pair.1 in items
    ensures Successors(Recorded(items, order).arcs, n) == Successors(order, n)
  {
    if order != [] {
      var m := |order| - 1;
      RecordedSuccessors(items, order[..m], n);
      RecordedItems(items, order[..m]);
      assert order[m] in order;
      var arcs := Recorded(items, order[..m]).arcs;
      assert (arcs + [order[m]])[..|arcs|] == arcs;
    }
  }

  // A cyclic error names what the cycles reach, each with everything that depends on it directly.
  ghost predicate ReportsCycles(arcs: set<Pair>, dependents: map<string, seq<string>>) {
    && (forall n :: n in dependents <==> BehindCycle(arcs, n))
    && forall n, b | n in dependents :: b in dependents[n] <==> (n, b) in arcs
  }

  // And that as often as there are pairs.
  ghost predicate CountsPairs(order: seq<Pair>, dependents: map<string, seq<string>>) {
    forall n, b | n in dependents :: multiset(dependents[n])[b] == multiset(order)[(n, b)]
  }

  lemma CyclesReported(items: seq<string>, order: seq<Pair>, dependents: map<string, seq<string>>)
    requires forall pair | pair in order :: pair.1 in items
    requires forall n :: n in dependents <==> BehindCycle(ArcSet(Recorded(items, order).arcs), n)
    requires forall n | n in dependents :: dependents[n] == Successors(Recorded(items, order).arcs, n)
    ensures ReportsCycles(KnownArcs(items, order), dependents) && CountsPairs(order, dependents)
  {
    var known := KnownArcs(items, order);
    forall n ensures n in dependents <==> BehindCycle(known, n) {
      RecordedBehindCycles(items, order, n);
    }
    forall n, b | n in dependents
      ensures b in dependents[n] <==> (n, b) in known
      ensures multiset(dependents[n])[b] == multiset(order)[(n, b)]
    {
      BehindKnownCycle(items, order, n);
      RecordedSuccessors(items, order, n);
      SuccessorsCount(order, n, b);
      SuccessorsAreTargets(order, n, b);
    }
  }

  lemma BehindKnownCycle(items: seq<string>, order: seq<Pair>, n: string)
    requires BehindCycle(KnownArcs(items, order), n)
    ensures n in items
  {
    var y := BehindCycleHasPredecessor(KnownArcs(items, order), n);
  }
}
