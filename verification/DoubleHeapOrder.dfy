/** Positions and order of the double heap, on plain values.

Position 0 is the root of two binary heaps. Positive positions (T1) form a heap of values
at most the root's, negative positions (T2) one of values at least the root's. */
module DoubleHeapOrder {

  datatype Node = Node(data: int, order: int)

  // The nodes at the positions in use.
  type Layout = map<int, Node>

  function Father(i: int): int { 2 * i - 1 }
  function Mother(i: int): int { 2 * i - 2 }
  function Child(i: int): int { -((-i - 1) / 2) }
  function Son(i: int): int { 2 * i + 1 }
  function Daughter(i: int): int { 2 * i + 2 }
  function Parent(i: int): int { (i - 1) / 2 }

  // The neighbour of a non-root position that is one level nearer to the root.
  function Inward(i: int): (j: int)
    requires i != 0
    ensures i > 0 ==> 0 <= j < i && (i == Son(j) || i == Daughter(j))
    ensures i < 0 ==> i < j <= 0 && (i == Father(j) || i == Mother(j))
  {
    if i > 0 then Parent(i) else Child(i)
  }

  lemma InwardOfOuter(i: int)
    ensures i >= 0 ==> Inward(Son(i)) == Inward(Daughter(i)) == i
    ensures i <= 0 ==> Inward(Father(i)) == Inward(Mother(i)) == i
  {}

  // The position the s-th sample ever pushed first goes to: 0, 1, -1, 2, -2, ...
  function Schedule(s: nat): int {
    var i := s + 1;
    (if i % 2 == 0 then 1 else -1) * (i / 2)
  }

  predicate SameSide(i: int, j: int) {
    (i > 0 && j > 0) || (i < 0 && j < 0)
  }

  ghost predicate Spans(h: Layout, low: int, high: int) {
    low < 0 < high && forall p :: p in h <==> low < p < high
  }

  // a belongs nearer to the root than b, both lying on the given side of it.
  predicate Before(a: Node, b: Node, side: int) {
    (side > 0 ==> a.data >= b.data) && (side < 0 ==> a.data <= b.data)
  }

  // The edge from p towards the root.
  ghost predicate EdgeHolds(h: Layout, p: int)
    requires p != 0
  {
    p in h && Inward(p) in h ==> Before(h[Inward(p)], h[p], p)
  }

  ghost predicate HeapOrdered(h: Layout) {
    forall p | p in h && p != 0 :: EdgeHolds(h, p)
  }

  // The neighbours of i are in order across i, whatever i itself holds.
  ghost predicate OrderedAcross(h: Layout, i: int) {
    && (i != 0 && Inward(i) in h ==>
          forall p | p in h && p != 0 && Inward(p) == i :: Before(h[Inward(i)], h[p], p))
    && (i == 0 ==>
          forall p, q | p in h && q in h && q < 0 < p && Inward(p) == 0 && Inward(q) == 0 ::
            h[p].data <= h[q].data)
  }

  // Every edge not touching i holds and the neighbours of i are in order across it.
  ghost predicate OrderedExceptAt(h: Layout, i: int) {
    && (forall p | p in h && p != 0 && p != i && Inward(p) != i :: EdgeHolds(h, p))
    && OrderedAcross(h, i)
  }

  // The edges from i outward into the given side hold.
  ghost predicate OuterEdgesHold(h: Layout, i: int, side: int) {
    forall p | p in h && p != 0 && Inward(p) == i && SameSide(p, side) :: EdgeHolds(h, p)
  }

  function Swapped(h: Layout, i: int, j: int): Layout
    requires i in h && j in h
  {
    h[i := h[j]][j := h[i]]
  }

  // Moving a misplaced value one step towards the root leaves only the new position misplaced.
  lemma SwapInward(h: Layout, i: int)
    requires i != 0 && i in h && Inward(i) in h
    requires OrderedExceptAt(h, i) && !EdgeHolds(h, i)
    ensures OrderedExceptAt(Swapped(h, i, Inward(i)), Inward(i))
  {
    var j := Inward(i);
    var g := Swapped(h, i, j);
    forall p | p in g && p != 0 && p != j && Inward(p) != j ensures EdgeHolds(g, p) {
      if Inward(p) != i {
        assert EdgeHolds(h, p);
      }
    }
    SwapInwardAcross(h, i);
  }

  lemma SwapInwardAcross(h: Layout, i: int)
    requires i != 0 && i in h && Inward(i) in h
    requires OrderedExceptAt(h, i) && !EdgeHolds(h, i)
    ensures OrderedAcross(Swapped(h, i, Inward(i)), Inward(i))
  {
    var j := Inward(i);
    var g := Swapped(h, i, j);
    if j == 0 {
      forall p, q | p in g && q in g && q < 0 < p && Inward(p) == 0 && Inward(q) == 0
        ensures g[p].data <= g[q].data
      {
        SiblingAfterSwapInward(h, i, p);
        SiblingAfterSwapInward(h, i, q);
      }
    } else if Inward(j) in h {
      forall p | p in g && p != 0 && Inward(p) == j ensures Before(g[Inward(j)], g[p], p) {
        SiblingAfterSwapInward(h, i, p);
        assert EdgeHolds(h, j);
      }
    }
  }

  lemma SiblingAfterSwapInward(h: Layout, i: int, p: int)
    requires i != 0 && i in h && Inward(i) in h
    requires OrderedExceptAt(h, i) && !EdgeHolds(h, i)
    requires p in h && p != 0 && Inward(p) == Inward(i)
    ensures Before(h[Inward(i)], Swapped(h, i, Inward(i))[p], p)
  {
    if p != i {
      assert EdgeHolds(h, p);
    }
  }

  // j is the neighbour of i that has to come first among those on j's side.
  ghost predicate FirstOutward(h: Layout, i: int, j: int) {
    && j in h && j != 0 && Inward(j) == i
    && forall p | p in h && p != 0 && Inward(p) == i && SameSide(p, j) :: Before(h[j], h[p], j)
  }

  function Smaller(h: Layout, i: int, j: int): int
    requires i in h && j in h
  {
    if h[i].data < h[j].data then i else j
  }

  function Larger(h: Layout, i: int, j: int): int
    requires i in h && j in h
  {
    if h[i].data > h[j].data then i else j
  }

  // The T1 neighbour of i one level further out that comes first, or where it would be.
  function OutwardT1(h: Layout, i: int): int {
    if Daughter(i) in h && Son(i) in h then Larger(h, Daughter(i), Son(i)) else Son(i)
  }

  // The same for T2.
  function OutwardT2(h: Layout, i: int): int {
    if Mother(i) in h && Father(i) in h then Smaller(h, Mother(i), Father(i)) else Father(i)
  }

  lemma OutwardT1ComesFirst(h: Layout, low: int, high: int, i: int)
    requires Spans(h, low, high) && i in h && i >= 0
    ensures OutwardT1(h, i) in h ==> FirstOutward(h, i, OutwardT1(h, i))
    ensures OutwardT1(h, i) !in h ==> OuterEdgesHold(h, i, 1)
  {
    OnlyTwoOutward(i, 1);
    hide Inward;
    assert Daughter(i) in h ==> Son(i) in h;
  }

  lemma OutwardT2ComesFirst(h: Layout, low: int, high: int, i: int)
    requires Spans(h, low, high) && i in h && i <= 0
    ensures OutwardT2(h, i) in h ==> FirstOutward(h, i, OutwardT2(h, i))
    ensures OutwardT2(h, i) !in h ==> OuterEdgesHold(h, i, -1)
  {
    OnlyTwoOutward(i, -1);
    hide Inward;
    assert Mother(i) in h ==> Father(i) in h;
  }

  lemma OnlyTwoOutward(i: int, side: int)
    ensures side > 0 && i >= 0 ==>
              forall p | p > 0 :: Inward(p) == i <==> p == Son(i) || p == Daughter(i)
    ensures side < 0 && i <= 0 ==>
              forall p | p < 0 :: Inward(p) == i <==> p == Father(i) || p == Mother(i)
  {}

  // Moving a misplaced value one step outward, past the neighbour that comes first.
  lemma SwapOutward(h: Layout, i: int, j: int)
    requires i in h && FirstOutward(h, i, j)
    requires OrderedExceptAt(h, i) && !EdgeHolds(h, j)
    ensures OrderedExceptAt(Swapped(h, i, j), j)
    ensures EdgeHolds(Swapped(h, i, j), j)
  {
    var g := Swapped(h, i, j);
    forall p | p in g && p != 0 && p != j && Inward(p) != j ensures EdgeHolds(g, p) {
      SwapOutwardEdge(h, i, j, p);
    }
    forall p | p in g && p != 0 && Inward(p) == j ensures Before(g[Inward(j)], g[p], p) {
      assert EdgeHolds(h, p);
    }
  }

  lemma SwapOutwardEdge(h: Layout, i: int, j: int, p: int)
    requires i in h && FirstOutward(h, i, j)
    requires OrderedExceptAt(h, i) && !EdgeHolds(h, j)
    requires p in h && p != 0 && p != j && Inward(p) != j
    ensures EdgeHolds(Swapped(h, i, j), p)
  {
    if p == i {
      assert Inward(i) in h ==> Before(h[Inward(i)], h[j], j);
    } else if Inward(p) == i {
      if !SameSide(p, j) {
        assert i == 0;
      }
    } else {
      assert EdgeHolds(h, p);
    }
  }

  // A hole at which every edge holds after all is no hole.
  lemma NoHoleLeft(h: Layout, i: int)
    requires OrderedExceptAt(h, i)
    requires i != 0 ==> EdgeHolds(h, i)
    requires i <= 0 ==> OuterEdgesHold(h, i, -1)
    requires i >= 0 ==> OuterEdgesHold(h, i, 1)
    ensures HeapOrdered(h)
  {}

  // Overwriting one value of an ordered heap misplaces only that value.
  lemma OverwriteMakesHole(h: Layout, i: int, n: Node)
    requires HeapOrdered(h) && i in h
    requires forall p | p in h && p != 0 :: Inward(p) in h
    ensures OrderedExceptAt(h[i := n], i)
  {
    var g := h[i := n];
    forall p | p in g && p != 0 && p != i && Inward(p) != i ensures EdgeHolds(g, p) {
      assert EdgeHolds(h, p);
    }
    forall p | p in g && p != 0 && Inward(p) == i
      ensures i != 0 ==> Before(g[Inward(i)], g[p], p)
      ensures i == 0 ==> Before(h[0], g[p], p)
    {
      assert EdgeHolds(h, p);
      assert i != 0 ==> EdgeHolds(h, i);
    }
  }

  // So does adding a value at a fresh outermost position.
  lemma AppendMakesHole(h: Layout, i: int, n: Node)
    requires HeapOrdered(h)
    requires forall p | p in h && p != 0 :: Inward(p) != i
    ensures i != 0 ==> OrderedExceptAt(h[i := n], i)
  {
    var g := h[i := n];
    forall p | p in g && p != 0 && p != i && Inward(p) != i ensures EdgeHolds(g, p) {
      assert EdgeHolds(h, p);
    }
  }

  // In an ordered heap every T1 value is at most, every T2 value at least, the root's.
  lemma {:induction false} RootSeparates(h: Layout, low: int, high: int, p: int)
    requires Spans(h, low, high) && HeapOrdered(h) && p in h
    ensures Before(h[0], h[p], p)
    decreases if p < 0 then -p else p
  {
    if p != 0 {
      assert EdgeHolds(h, p);
      RootSeparates(h, low, high, Inward(p));
    }
  }

  // ---------- Levels ----------

  // How many steps towards the root lead from p to it.
  function Depth(p: int): nat
    decreases if p < 0 then -p else p
  {
    if p == 0 then 0 else 1 + Depth(Inward(p))
  }

  // The floor of the base-2 logarithm.
  function FloorLog2(n: nat): nat
    requires n >= 1
  {
    if n == 1 then 0 else 1 + FloorLog2(n / 2)
  }

  lemma {:induction false} DepthIsLogarithmic(p: int)
    ensures Depth(p) == FloorLog2((if p < 0 then -p else p) + 1)
    decreases if p < 0 then -p else p
  {
    if p != 0 {
      DepthIsLogarithmic(Inward(p));
    }
  }

  lemma {:induction false} FloorLog2IsMonotone(m: nat, n: nat)
    requires 1 <= m <= n
    ensures FloorLog2(m) <= FloorLog2(n)
  {
    if m > 1 {
      FloorLog2IsMonotone(m / 2, n / 2);
    }
  }
}
