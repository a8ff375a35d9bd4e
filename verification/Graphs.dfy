/** Finite directed graphs as sets of arcs: paths, reachability and cycles. */
module Graphs {

  ghost predicate IsPath<N>(arcs: set<(N, N)>, p: seq<N>) {
    |p| >= 1 && forall i | 0 <= i < |p| - 1 :: (p[i], p[i + 1]) in arcs
  }

  ghost predicate PathFromTo<N>(arcs: set<(N, N)>, p: seq<N>, a: N, b: N) {
    IsPath(arcs, p) && p[0] == a && p[|p| - 1] == b
  }

  ghost predicate Reaches<N(!new)>(arcs: set<(N, N)>, a: N, b: N) {
    exists p :: PathFromTo(arcs, p, a, b)
  }

  // x lies on a cycle, a self-loop included.
  ghost predicate OnCycle<N(!new)>(arcs: set<(N, N)>, x: N) {
    exists p :: PathFromTo(arcs, p, x, x) && |p| >= 2
  }

  ghost predicate Acyclic<N(!new)>(arcs: set<(N, N)>) {
    forall x :: !OnCycle(arcs, x)
  }

  // x can be reached from a node on a cycle.
  ghost predicate BehindCycle<N(!new)>(arcs: set<(N, N)>, x: N) {
    exists c :: OnCycle(arcs, c) && Reaches(arcs, c, x)
  }

  lemma ReachesSelf<N(!new)>(arcs: set<(N, N)>, a: N)
    ensures Reaches(arcs, a, a)
  {
    assert PathFromTo(arcs, [a], a, a);
  }

  lemma ReachesTransitively<N(!new)>(arcs: set<(N, N)>, a: N, b: N, c: N)
    requires Reaches(arcs, a, b) && Reaches(arcs, b, c)
    ensures Reaches(arcs, a, c)
  {
    var p :| PathFromTo(arcs, p, a, b);
    var q :| PathFromTo(arcs, q, b, c);
    JoinPaths(arcs, p, q, a, b, c);
  }

  lemma JoinPaths<N>(arcs: set<(N, N)>, p: seq<N>, q: seq<N>, a: N, b: N, c: N)
    requires PathFromTo(arcs, p, a, b) && PathFromTo(arcs, q, b, c)
    ensures PathFromTo(arcs, p + q[1..], a, c)
  {
    var r := p + q[1..];
    forall i | 0 <= i < |r| - 1 ensures (r[i], r[i + 1]) in arcs {
      if i >= |p| - 1 {
        assert r[i] == q[i - (|p| - 1)] && r[i + 1] == q[i + 1 - (|p| - 1)];
      }
    }
  }

  lemma ArcReaches<N(!new)>(arcs: set<(N, N)>, a: N, b: N)
    requires (a, b) in arcs
    ensures Reaches(arcs, a, b)
  {
    assert PathFromTo(arcs, [a, b], a, b);
  }

  lemma ReachesAfterArc<N(!new)>(arcs: set<(N, N)>, a: N, b: N, c: N)
    requires (a, b) in arcs && Reaches(arcs, b, c)
    ensures Reaches(arcs, a, c)
  {
    ArcReaches(arcs, a, b);
    ReachesTransitively(arcs, a, b, c);
  }

  // The first arc of a path that does not end where it starts.
  lemma FirstArc<N(!new)>(arcs: set<(N, N)>, a: N, c: N) returns (b: N)
    requires Reaches(arcs, a, c) && a != c
    ensures (a, b) in arcs && Reaches(arcs, b, c)
  {
    var p :| PathFromTo(arcs, p, a, c);
    b := p[1];
    assert PathFromTo(arcs, p[1..], b, c);
  }

  // A node is on a cycle exactly when one of its successors reaches it.
  lemma CycleThroughArc<N(!new)>(arcs: set<(N, N)>, a: N, b: N)
    requires (a, b) in arcs && Reaches(arcs, b, a)
    ensures OnCycle(arcs, a)
  {
    var p :| PathFromTo(arcs, p, b, a);
    JoinPaths(arcs, [a, b], p, a, b, a);
    assert |[a, b] + p[1..]| >= 2;
  }

  lemma CycleHasArc<N(!new)>(arcs: set<(N, N)>, a: N) returns (b: N)
    requires OnCycle(arcs, a)
    ensures (a, b) in arcs && Reaches(arcs, b, a)
  {
    var p :| PathFromTo(arcs, p, a, a) && |p| >= 2;
    b := p[1];
    assert PathFromTo(arcs, p[1..], b, a);
  }

  // A set closed under arcs keeps everything reachable from it.
  lemma {:induction false} ClosedSetKeepsReach<N(!new)>(arcs: set<(N, N)>, s: set<N>, a: N, b: N)
    requires a in s && Reaches(arcs, a, b)
    requires forall x, y | x in s && (x, y) in arcs :: y in s
    ensures b in s
  {
    var p :| PathFromTo(arcs, p, a, b);
    for i := 0 to |p|
      invariant forall k | 0 <= k < i :: p[k] in s
    {
      if i > 0 {
        assert (p[i - 1], p[i]) in arcs;
      }
    }
  }

  lemma MoreArcsReachMore<N(!new)>(arcs: set<(N, N)>, more: set<(N, N)>, a: N, b: N)
    requires arcs <= more && Reaches(arcs, a, b)
    ensures Reaches(more, a, b)
  {
    var p :| PathFromTo(arcs, p, a, b);
    assert PathFromTo(more, p, a, b);
  }

  lemma MoreArcsMoreCycles<N(!new)>(arcs: set<(N, N)>, more: set<(N, N)>, x: N)
    requires arcs <= more && OnCycle(arcs, x)
    ensures OnCycle(more, x)
  {
    var p :| PathFromTo(arcs, p, x, x) && |p| >= 2;
    assert PathFromTo(more, p, x, x);
  }

  ghost function Ancestors<N(!new)>(arcs: set<(N, N)>, s: set<N>, u: N): set<N> {
    set x | x in s && Reaches(arcs, x, u)
  }

  lemma FewerAncestors<N(!new)>(arcs: set<(N, N)>, s: set<N>, y: N, u: N)
    requires u in s && (y, u) in arcs && !Reaches(arcs, u, y)
    ensures Ancestors(arcs, s, y) < Ancestors(arcs, s, u)
  {
    forall x | x in s && Reaches(arcs, x, y) ensures Reaches(arcs, x, u) {
      ArcReaches(arcs, y, u);
      ReachesTransitively(arcs, x, y, u);
    }
    ReachesSelf(arcs, u);
    hide Reaches;
    assert u in Ancestors(arcs, s, u) && u !in Ancestors(arcs, s, y);
  }

  ghost predicate HasPredecessors<N>(arcs: set<(N, N)>, s: set<N>) {
    forall x | x in s :: HasPredecessor(arcs, s, x)
  }

  ghost predicate HasPredecessor<N>(arcs: set<(N, N)>, s: set<N>, x: N) {
    exists y :: y in s && (y, x) in arcs
  }

  // If every node of a finite set has a predecessor in it, each is reachable from a cycle.
  lemma {:induction false} PredecessorsLeadToCycle<N(!new)>(arcs: set<(N, N)>, s: set<N>, u: N)
    requires u in s && HasPredecessors(arcs, s)
    ensures BehindCycle(arcs, u)
    decreases Ancestors(arcs, s, u)
  {
    assert HasPredecessor(arcs, s, u);
    var y :| y in s && (y, u) in arcs;
    hide Reaches, OnCycle, Ancestors, HasPredecessors, HasPredecessor;
    ArcReaches(arcs, y, u);
    if Reaches(arcs, u, y) {
      CycleThroughArc(arcs, y, u);
    } else {
      FewerAncestors(arcs, s, y, u);
      PredecessorsLeadToCycle(arcs, s, y);
      var c :| OnCycle(arcs, c) && Reaches(arcs, c, y);
      ReachesTransitively(arcs, c, y, u);
    }
  }

  lemma AcyclicIffNothingBehind<N(!new)>(arcs: set<(N, N)>)
    ensures Acyclic(arcs) <==> forall n :: !BehindCycle(arcs, n)
  {
    forall n | OnCycle(arcs, n) ensures BehindCycle(arcs, n) {
      ReachesSelf(arcs, n);
    }
  }

  // What lies behind cycles is closed under arcs, and each of its nodes has a predecessor in it.
  lemma BehindCycleIsClosed<N(!new)>(arcs: set<(N, N)>, x: N, y: N)
    requires BehindCycle(arcs, x) && (x, y) in arcs
    ensures BehindCycle(arcs, y)
  {
    var c :| OnCycle(arcs, c) && Reaches(arcs, c, x);
    ArcReaches(arcs, x, y);
    ReachesTransitively(arcs, c, x, y);
  }

  lemma BehindCycleHasPredecessor<N(!new)>(arcs: set<(N, N)>, x: N) returns (y: N)
    requires BehindCycle(arcs, x)
    ensures (y, x) in arcs && BehindCycle(arcs, y)
  {
    var c :| OnCycle(arcs, c) && Reaches(arcs, c, x);
    var p :| PathFromTo(arcs, p, c, x);
    if |p| == 1 {
      p :| PathFromTo(arcs, p, c, c) && |p| >= 2;
    }
    y := p[|p| - 2];
    assert PathFromTo(arcs, p[..|p| - 1], c, y);
  }
}
