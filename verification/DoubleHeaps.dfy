/** The running-median double heap: two binary heaps around a shared root in one circular
array, plus the index that finds the oldest sample wherever swaps have moved it. */
module DoubleHeaps {
  import opened CircularArrays
  import opened DoubleHeapOrder
  import opened DoubleHeapRuns
  import opened Sorting

  // order slot s and position order[s] name each other, for all slots and positions in use.
  ghost predicate Indexed(h: Layout, order: seq<int>, size: nat) {
    && size <= |order|
    && (forall s | 0 <= s < size :: order[s] in h && h[order[s]].order == s)
    && (forall p | p in h :: 0 <= h[p].order < size && order[h[p].order] == p)
  }

  lemma PlaceIsIndexed(h: Layout, order: seq<int>, size: nat, s: nat)
    requires Indexed(h, order, size)
    ensures s < size ==> PlaceOf(h, s) == order[s]
    ensures s >= size ==> PlaceOf(h, s) == Schedule(s)
  {
    hide Schedule;
  }

  // The samples by insertion slot.
  ghost function Samples(h: Layout, order: seq<int>, size: nat): (r: seq<int>)
    requires size <= |order|
    ensures |r| == size
  {
    seq(size, s requires 0 <= s < size => if order[s] in h then h[order[s]].data else 0)
  }

  function SwappedOrder(h: Layout, order: seq<int>, i: int, j: int): seq<int>
    requires i in h && j in h && 0 <= h[i].order < |order| && 0 <= h[j].order < |order|
  {
    order[h[i].order := j][h[j].order := i]
  }

  // Exchanging two nodes and their index entries moves no sample to another insertion slot.
  lemma SwapKeepsIndex(h: Layout, order: seq<int>, size: nat, i: int, j: int)
    requires Indexed(h, order, size) && i in h && j in h
    ensures Indexed(Swapped(h, i, j), SwappedOrder(h, order, i, j), size)
    ensures Samples(Swapped(h, i, j), SwappedOrder(h, order, i, j), size)
         == Samples(h, order, size)
  {}

  // What balancing keeps, from layout h0 and index o0 on: the shape, the index, every sample's
  // insertion slot, the schedule of unused slots, and at most one misplaced value, the one at i.
  ghost predicate Balancing(h0: Layout, o0: seq<int>, h: Layout, o: seq<int>, size: nat, i: int) {
    && Indexed(h0, o0, size) && Indexed(h, o, size) && h.Keys == h0.Keys
    && Samples(h, o, size) == Samples(h0, o0, size)
    && |o| == |o0| && o[size..] == o0[size..]
    && i in h && OrderedExceptAt(h, i)
  }

  lemma BalancingStep(h0: Layout, o0: seq<int>, h: Layout, o: seq<int>, size: nat, i: int, j: int)
    requires Balancing(h0, o0, h, o, size, i) && j in h
    requires (i != 0 && j == Inward(i) && !EdgeHolds(h, i))
          || (FirstOutward(h, i, j) && !EdgeHolds(h, j))
    ensures Balancing(h0, o0, Swapped(h, i, j), SwappedOrder(h, o, i, j), size, j)
    ensures FirstOutward(h, i, j) ==> EdgeHolds(Swapped(h, i, j), j)
  {
    SwapKeepsIndex(h, o, size, i, j);
    if i != 0 && j == Inward(i) && !EdgeHolds(h, i) {
      SwapInward(h, i);
    } else {
      SwapOutward(h, i, j);
    }
  }

  lemma UpdatedTwice(h: Layout, i: int, first: Node, second: Node)
    ensures h[i := first][i := second] == h[i := second]
  {}

  // The last w elements of xs, or all of them.
  function Last(xs: seq<int>, w: nat): seq<int> {
    if |xs| <= w then xs else xs[|xs| - w..]
  }

  // Writing a new sample over the one of slot s.
  lemma Overwrite(h: Layout, order: seq<int>, size: nat, s: nat, x: int)
    requires Indexed(h, order, size) && HeapOrdered(h) && s < size
    requires exists low, high :: Spans(h, low, high)
    ensures var h' := h[order[s] := Node(x, s)];
            && Indexed(h', order, size) && OrderedExceptAt(h', order[s])
            && Samples(h', order, size) == Samples(h, order, size)[s := x]
            && order[s] in h
  {
    OverwriteKeepsIndex(h, order, size, s, x);
    hide Indexed, Samples;
    OverwriteMakesHole(h, order[s], Node(x, s));
  }

  lemma OverwriteKeepsIndex(h: Layout, order: seq<int>, size: nat, s: nat, x: int)
    requires Indexed(h, order, size) && s < size
    ensures var h' := h[order[s] := Node(x, s)];
            && Indexed(h', order, size)
            && Samples(h', order, size) == Samples(h, order, size)[s := x]
            && order[s] in h
  {}

  // Writing a new sample to the next scheduled position.
  lemma Append(h: Layout, order: seq<int>, size: nat, x: int)
    requires 0 < size < |order| && Indexed(h, order, size) && HeapOrdered(h)
    requires order[size] != 0 && order[size] !in h
    requires exists low, high :: Spans(h, low, high)
    ensures var h' := h[order[size] := Node(x, size)];
            && Indexed(h', order, size + 1) && OrderedExceptAt(h', order[size])
            && Samples(h', order, size + 1) == Samples(h, order, size) + [x]
  {
    AppendKeepsIndex(h, order, size, x);
    hide Indexed;
    AppendMakesHole(h, order[size], Node(x, size));
  }

  lemma AppendKeepsIndex(h: Layout, order: seq<int>, size: nat, x: int)
    requires 0 < size < |order| && Indexed(h, order, size) && order[size] !in h
    ensures var h' := h[order[size] := Node(x, size)];
            && Indexed(h', order, size + 1)
            && Samples(h', order, size + 1) == Samples(h, order, size) + [x]
  {}

  // The first sample.
  lemma First(order: seq<int>, x: int)
    requires |order| >= 1 && order[0] == 0
    ensures var h' := map[0 := Node(x, 0)];
            && Indexed(h', order, 1) && OrderedExceptAt(h', 0) && Samples(h', order, 1) == [x]
  {}

  // The layout after writing sample x to insertion slot s.
  ghost function Written(h: Layout, order: seq<int>, size: nat, s: nat, x: int): Layout
    requires s < |order|
  {
    if size == 0 then map[0 := Node(x, 0)] else h[order[s] := Node(x, s)]
  }

  // The window as a queue: slots are reused round robin, so reading them from the next slot
  // to be overwritten on gives the samples in the order they arrived.
  function Unrolled(samples: seq<int>, next: nat): seq<int>
    requires next <= |samples|
  {
    samples[next..] + samples[..next]
  }

  // Layout h and index order hold the window w, with at most the value at i misplaced.
  ghost predicate Receives(h: Layout, order: seq<int>, size: nat, next: nat, i: int, w: seq<int>) {
    && Indexed(h, order, size) && OrderedExceptAt(h, i)
    && next <= size && Unrolled(Samples(h, order, size), next) == w
  }

  lemma UnrolledIsPermutation(samples: seq<int>, next: nat)
    requires next <= |samples|
    ensures multiset(Unrolled(samples, next)) == multiset(samples)
  {
    assert samples == samples[..next] + samples[next..];
  }

  // The data at the filled positions, from the outermost T1 to the outermost T2 position.
  ghost function Row(h: Layout, low: int, high: int): (r: seq<int>)
    requires Spans(h, low, high)
    ensures |r| == high - low - 1
  {
    seq(high - low - 1, m requires 0 <= m < high - low - 1 => h[high - 1 - m].data)
  }

  // The filled positions hold exactly the samples.
  lemma RowIsPermutation(h: Layout, order: seq<int>, size: nat, low: int, high: int)
    requires Spans(h, low, high) && Indexed(h, order, size) && size == high - low - 1
    ensures multiset(Row(h, low, high)) == multiset(Samples(h, order, size))
  {
    var f := seq(size, s requires 0 <= s < size => high - 1 - order[s]);
    ReindexedIsPermutation(Samples(h, order, size), Row(h, low, high), f);
  }

  // The root of an ordered heap with at most one value more above than below is the median.
  lemma RootIsMedian(h: Layout, low: int, high: int, size: nat)
    requires Spans(h, low, high) && HeapOrdered(h)
    requires size > 0 && high == size / 2 + 1 && low == -((size + 1) / 2)
    ensures |Sort(Row(h, low, high))| == size
    ensures Sort(Row(h, low, high))[size / 2] == h[0].data
  {
    SortedAroundRoot(h, low, high);
    hide *;
  }

  lemma SortedAroundRoot(h: Layout, low: int, high: int)
    requires Spans(h, low, high) && HeapOrdered(h)
    ensures |Sort(Row(h, low, high))| == high - low - 1 && Sort(Row(h, low, high))[high - 1] == h[0].data
  {
    RowIsSeparated(h, low, high);
    hide *;
    PivotStaysPut(Row(h, low, high), high - 1);
  }

  // In the row of an ordered heap the root's value separates the smaller from the larger ones.
  lemma RowIsSeparated(h: Layout, low: int, high: int)
    requires Spans(h, low, high) && HeapOrdered(h)
    ensures Row(h, low, high)[high - 1] == h[0].data && IsPivot(Row(h, low, high), high - 1)
  {
    forall p | p in h ensures Before(h[0], h[p], p) {
      RootSeparates(h, low, high, p);
    }
    hide HeapOrdered;
  }

  lemma UnrolledAfterAppend(samples: seq<int>, max: nat, x: int)
    requires |samples| < max
    ensures Unrolled(samples + [x], if |samples| + 1 == max then 0 else |samples| + 1)
         == Last(Unrolled(samples, |samples|) + [x], max)
  {}

  lemma EmptyUnrolled()
    ensures Unrolled([], 0) == []
  {}

  lemma UnrolledAfterOverwrite(samples: seq<int>, next: nat, x: int)
    requires next < |samples|
    ensures Unrolled(samples[next := x], if next + 1 == |samples| then 0 else next + 1)
         == Last(Unrolled(samples, next) + [x], |samples|)
  {}

  class DoubleHeap {
    const max: nat
    var size: nat
    var upperK: int
    var lowerK: int
    var insertionOrderIndex: nat
    const insertionOrder: array<int>
    const heap: CircularArray<Node>

    // The array shapes, and the range the filled positions may span.
    ghost predicate Fits()
      reads `upperK, `lowerK
    {
      && max >= 1 && heap.Valid() && heap.max == max && insertionOrder.Length == max
      && 1 <= upperK <= max / 2 + 1
      && -((max - 1) / 2) - 1 <= lowerK <= -1
    }

    predicate Exists(i: int)
      reads `upperK, `lowerK
    {
      i < upperK && i > lowerK
    }

    ghost function Layout(): (h: Layout)
      requires Fits()
      reads `upperK, `lowerK, heap.data
      ensures Spans(h, lowerK, upperK)
    {
      map p | lowerK < p < upperK :: heap.Get(p)
    }

    ghost predicate Linked()
      reads this, heap.data, insertionOrder
    {
      Fits() && Indexed(Layout(), insertionOrder[..], size)
    }

    // The bounds agree with the number of samples: the filled positions are a contiguous range
    // with as many values on either side of the root or one more above it, and the slots not yet
    // used still hold the schedule.
    ghost predicate Shaped()
      reads `upperK, `lowerK, `size, insertionOrder
    {
      && Fits() && size <= max
      && upperK == size / 2 + 1
      && lowerK == (if size == 0 then -1 else -((size + 1) / 2))
      && (forall s | size <= s < max :: insertionOrder[s] == Schedule(s))
    }

    // The invariant between operations.
    ghost predicate Valid()
      reads this, heap.data, insertionOrder
    {
      && Shaped() && insertionOrderIndex < max && (size < max ==> insertionOrderIndex == size)
      && (size > 0 ==> Linked() && HeapOrdered(Layout()))
    }

    ghost function NextIndex(): nat
      reads `insertionOrderIndex
    {
      if insertionOrderIndex + 1 == max then 0 else insertionOrderIndex + 1
    }

    // The samples in the window, oldest first.
    ghost function Window(): (w: seq<int>)
      requires Valid()
      reads this, heap.data, insertionOrder
      ensures |w| == size
    {
      if size == 0 then []
      else Unrolled(Samples(Layout(), insertionOrder[..], size), insertionOrderIndex)
    }

    // The filled positions; the root counts as one only once a sample has been pushed.
    ghost function Contents(): DoubleHeapOrder.Layout
      requires Fits()
      reads `upperK, `lowerK, `size, heap.data
    {
      if size == 0 then map[] else Layout()
    }

    constructor (window: nat)
      requires window >= 1
      ensures Valid() && max == window && Window() == [] && Contents() == map[] && insertionOrderIndex == 0
      ensures fresh(heap) && fresh(heap.data) && fresh(insertionOrder)
    {
      max := window;
      size := 0;
      upperK := 1;
      lowerK := -1;
      insertionOrderIndex := 0;
      var order := new int[window];
      insertionOrder := order;
      heap := new CircularArray<Node>(window);
      new;
      for i := 1 to window + 1
        invariant Fits() && size == 0 && upperK == 1 && lowerK == -1 && insertionOrderIndex == 0
        invariant fresh(heap) && fresh(heap.data) && fresh(insertionOrder)
        invariant forall s | 0 <= s < i - 1 :: insertionOrder[s] == Schedule(s)
      {
        insertionOrder[i - 1] := (if i % 2 == 0 then 1 else -1) * (i / 2);
      }
    }

    // Different positions in use are different slots of the circular array.
    lemma DistinctSlots()
      requires Fits()
      ensures forall i, j | lowerK < i < upperK && lowerK < j < upperK ::
                heap.Slot(i) == heap.Slot(j) ==> i == j
    {
      forall i, j | lowerK < i < upperK && lowerK < j < upperK
        ensures heap.Slot(i) == heap.Slot(j) ==> i == j
      {
        heap.SlotsAreDistinct(lowerK + 1, i, j);
      }
    }

    method Store(i: int, node: Node)
      requires Fits() && Exists(i)
      modifies heap.data
      ensures Layout() == old(Layout())[i := node]
    {
      DistinctSlots();
      heap.Set(i, node);
    }

    method Swap(i: int, j: int) returns (i': int)
      requires Linked() && Exists(i) && Exists(j)
      modifies heap.data, insertionOrder
      ensures i' == j
      ensures Layout() == Swapped(old(Layout()), i, j)
      ensures insertionOrder[..] == SwappedOrder(old(Layout()), old(insertionOrder[..]), i, j)
    {
      ghost var before := Layout();
      assert before[i] == heap.Get(i) && before[j] == heap.Get(j);
      var tempN := heap.Get(i);
      Store(i, heap.Get(j));
      Store(j, tempN);
      assert heap.Get(i) == Layout()[i] == before[j] && heap.Get(j) == Layout()[j] == before[i];
      var tempI := insertionOrder[heap.Get(i).order];
      insertionOrder[heap.Get(i).order] := insertionOrder[heap.Get(j).order];
      insertionOrder[heap.Get(j).order] := tempI;
      i' := j;
    }

    // In the filled range every position the heap code reads is inside the array, also the
    // ones whose result is discarded.
    function Larger(i: int, j: int): int
      requires heap.Valid() && heap.InBounds(i) && heap.InBounds(j)
      reads heap.data
    {
      if heap.Get(i).data > heap.Get(j).data then i else j
    }

    function Smaller(i: int, j: int): int
      requires heap.Valid() && heap.InBounds(i) && heap.InBounds(j)
      reads heap.data
    {
      if heap.Get(i).data < heap.Get(j).data then i else j
    }

    function NextT1(i: int): (j: int)
      requires Fits() && Exists(i)
      reads `upperK, `lowerK, heap.data
    {
      if Exists(Daughter(i)) then Larger(Daughter(i), Son(i)) else Son(i)
    }

    function NextT2(i: int): (j: int)
      requires Fits() && Exists(i)
      reads `upperK, `lowerK, heap.data
    {
      if Exists(Mother(i)) then Smaller(Mother(i), Father(i)) else Father(i)
    }

    // The value at i.
    function Data(i: int): int
      requires Fits() && Exists(i)
      reads `upperK, `lowerK, heap.data
    {
      heap.Get(i).data
    }

    // What the array reads select is what the layout determines.
    lemma NextIsOutward(i: int)
      requires Fits() && Exists(i)
      ensures i in Layout() && Layout()[i].data == Data(i)
      ensures i >= 0 ==> NextT1(i) == OutwardT1(Layout(), i) && (Exists(NextT1(i)) <==> NextT1(i) in Layout())
      ensures i <= 0 ==> NextT2(i) == OutwardT2(Layout(), i) && (Exists(NextT2(i)) <==> NextT2(i) in Layout())
    {
      var h := Layout();
      ReadsLayout(Son(i), Daughter(i));
      ReadsLayout(Father(i), Mother(i));
      hide Layout;
    }

    lemma ReadsLayout(near: int, far: int)
      requires Fits()
      ensures Exists(near) <==> near in Layout()
      ensures Exists(far) <==> far in Layout()
      ensures near in Layout() && far in Layout() ==>
                && heap.InBounds(near) && heap.InBounds(far)
                && heap.Get(near) == Layout()[near] && heap.Get(far) == Layout()[far]
    {}

    lemma T1IsFirstOutward(i: int)
      requires Fits() && Exists(i) && i >= 0
      ensures Exists(NextT1(i)) ==> FirstOutward(Layout(), i, NextT1(i))
      ensures !Exists(NextT1(i)) ==> OuterEdgesHold(Layout(), i, 1)
    {
      NextIsOutward(i);
      OutwardT1ComesFirst(Layout(), lowerK, upperK, i);
      hide *;
    }

    lemma T2IsFirstOutward(i: int)
      requires Fits() && Exists(i) && i <= 0
      ensures Exists(NextT2(i)) ==> FirstOutward(Layout(), i, NextT2(i))
      ensures !Exists(NextT2(i)) ==> OuterEdgesHold(Layout(), i, -1)
    {
      NextIsOutward(i);
      OutwardT2ComesFirst(Layout(), lowerK, upperK, i);
      hide *;
    }

    // One iteration of a loop of Balance, seen from the state before its swap.
    lemma StepInward(h0: Layout, o0: seq<int>, i: int, j: int)
      requires Fits() && Exists(i) && Exists(j)
      requires Balancing(h0, o0, Layout(), insertionOrder[..], size, i)
      requires (i < 0 && j == Child(i) && Data(i) < Data(j))
            || (i > 0 && j == Parent(i) && Data(i) > Data(j))
      ensures Linked() && (i > 0 ==> j >= 0)
      ensures Balancing(h0, o0, Swapped(Layout(), i, j),
                        SwappedOrder(Layout(), insertionOrder[..], i, j), size, j)
      ensures Depth(i) == Depth(j) + 1
      ensures Risen(Layout(), i) == Risen(Swapped(Layout(), i, j), j)
    {
      hide OrderedExceptAt, Indexed;
      var h := Layout();
      assert h[i] == heap.Get(i) && h[j] == heap.Get(j);
      BalancingStep(h0, o0, h, insertionOrder[..], size, i, j);
    }

    lemma StepOutward(h0: Layout, o0: seq<int>, i: int, j: int)
      requires Fits() && Exists(i) && Exists(j)
      requires Balancing(h0, o0, Layout(), insertionOrder[..], size, i)
      requires (i <= 0 && j == NextT2(i) && Data(i) > Data(j))
            || (i >= 0 && j == NextT1(i) && Data(i) < Data(j) && (i == 0 ==> OuterEdgesHold(Layout(), i, -1)))
      ensures Linked() && (i >= 0 && j == NextT1(i) ==> j > 0)
      ensures Balancing(h0, o0, Swapped(Layout(), i, j),
                        SwappedOrder(Layout(), insertionOrder[..], i, j), size, j)
      ensures EdgeHolds(Swapped(Layout(), i, j), j)
      ensures Depth(j) == Depth(i) + 1
      ensures Sunk(Layout(), i) == Sunk(Swapped(Layout(), i, j), j)
    {
      hide OrderedExceptAt, Indexed;
      var h := Layout();
      assert h[i] == heap.Get(i) && h[j] == heap.Get(j);
      if i <= 0 && j == NextT2(i) && Data(i) > Data(j) {
        T2IsFirstOutward(i);
      } else {
        T1IsFirstOutward(i);
      }
      BalancingStep(h0, o0, h, insertionOrder[..], size, i, j);
      SinksOneStep(i, j);
    }

    lemma SinksOneStep(i: int, j: int)
      requires Fits() && Exists(i) && Exists(j)
      requires (i <= 0 && j == NextT2(i) && Data(i) > Data(j))
            || (i >= 0 && j == NextT1(i) && Data(i) < Data(j) && (i == 0 ==> OuterEdgesHold(Layout(), i, -1)))
      ensures i in Layout() && j in Layout() && Sunk(Layout(), i) == Sunk(Swapped(Layout(), i, j), j)
    {
      NextIsOutward(i);
      NoneOutward(Layout(), i);
      assert Layout()[j].data == Data(j);
      hide OuterEdgesHold, OutwardT1, OutwardT2, Layout, Swapped;
    }

    lemma InwardEdge(i: int)
      requires Fits() && Exists(i)
      ensures i < 0 && !(Exists(Child(i)) && Data(i) < Data(Child(i))) ==> EdgeHolds(Layout(), i)
      ensures i > 0 && !(Exists(Parent(i)) && Data(i) > Data(Parent(i))) ==> EdgeHolds(Layout(), i)
    {}

    lemma OuterT2Edges(i: int)
      requires Fits() && Exists(i)
      requires !(i <= 0 && Exists(NextT2(i)) && Data(i) > Data(NextT2(i)))
      ensures i <= 0 ==> OuterEdgesHold(Layout(), i, -1)
    {
      if i <= 0 {
        T2IsFirstOutward(i);
      }
    }

    lemma OuterT1Edges(i: int)
      requires Fits() && Exists(i)
      requires !(i >= 0 && Exists(NextT1(i)) && Data(i) < Data(NextT1(i)))
      ensures i >= 0 ==> OuterEdgesHold(Layout(), i, 1)
    {
      if i >= 0 {
        T1IsFirstOutward(i);
      }
    }

    lemma FinishBalancing(h0: Layout, o0: seq<int>, i: int)
      requires Fits() && Balancing(h0, o0, Layout(), insertionOrder[..], size, i)
      requires i != 0 ==> EdgeHolds(Layout(), i)
      requires i <= 0 ==> OuterEdgesHold(Layout(), i, -1)
      requires i >= 0 ==> OuterEdgesHold(Layout(), i, 1)
      ensures HeapOrdered(Layout()) && Indexed(h0, o0, size)
      ensures Indexed(Layout(), insertionOrder[..], size)
      ensures Samples(Layout(), insertionOrder[..], size) == Samples(h0, o0, size)
      ensures insertionOrder[size..] == o0[size..]
    {
      hide EdgeHolds, OuterEdgesHold, OrderedExceptAt;
      NoHoleLeft(Layout(), i);
    }

    // The first two loops of balance.
    method MoveInward(i0: int, ghost h0: Layout, ghost o0: seq<int>)
      returns (i: int, ghost swaps: nat)
      requires Fits() && Exists(i0)
      requires Balancing(h0, o0, Layout(), insertionOrder[..], size, i0)
      modifies heap.data, insertionOrder
      ensures Exists(i) && Balancing(h0, o0, Layout(), insertionOrder[..], size, i)
      ensures i != 0 ==> EdgeHolds(Layout(), i)
      ensures swaps + Depth(i) <= Depth(i0)
      ensures Risen(old(Layout()), i0) == Carried(Layout(), i)
    {
      hide *;
      i := i0;
      swaps := 0;
      // A node of T2 rises past larger nodes, at most to the root.
      var j := Child(i);
      while i < 0 && Exists(j) && Data(i) < Data(j)
        invariant Exists(i) && Balancing(h0, o0, Layout(), insertionOrder[..], size, i)
        invariant j == Child(i)
        invariant swaps + Depth(i) <= Depth(i0)
        invariant Risen(Layout(), i) == Risen(old(Layout()), i0)
        decreases Depth(i)
      {
        StepInward(h0, o0, i, j);
        i := Swap(i, j);
        swaps := swaps + 1;
        j := Child(i);
      }
      InwardEdge(i);
      // A node of T1 rises past smaller nodes, at most to the root.
      j := Parent(i);
      while i > 0 && Exists(j) && Data(i) > Data(j)
        invariant Exists(i) && Balancing(h0, o0, Layout(), insertionOrder[..], size, i)
        invariant j == Parent(i)
        invariant i < 0 ==> EdgeHolds(Layout(), i)
        invariant swaps + Depth(i) <= Depth(i0)
        invariant Risen(Layout(), i) == Risen(old(Layout()), i0)
        decreases Depth(i)
      {
        StepInward(h0, o0, i, j);
        i := Swap(i, j);
        swaps := swaps + 1;
        j := Parent(i);
      }
      InwardEdge(i);
      RisenStays(Layout(), i);
    }

    // The last two loops of balance.
    method MoveOutward(i0: int, ghost h0: Layout, ghost o0: seq<int>)
      returns (i: int, ghost swaps: nat)
      requires Fits() && Exists(i0)
      requires Balancing(h0, o0, Layout(), insertionOrder[..], size, i0)
      requires i0 != 0 ==> EdgeHolds(Layout(), i0)
      modifies heap.data, insertionOrder
      ensures Exists(i) && Balancing(h0, o0, Layout(), insertionOrder[..], size, i)
      ensures i != 0 ==> EdgeHolds(Layout(), i)
      ensures i <= 0 ==> OuterEdgesHold(Layout(), i, -1)
      ensures i >= 0 ==> OuterEdgesHold(Layout(), i, 1)
      ensures swaps <= Depth(i)
      ensures Sunk(old(Layout()), i0) == Carried(Layout(), i)
    {
      hide *;
      i := i0;
      swaps := 0;
      // From the root or inside T2 it sinks past smaller nodes.
      var j := NextT2(i);
      while i <= 0 && Exists(j) && Data(i) > Data(j)
        invariant Exists(i) && Balancing(h0, o0, Layout(), insertionOrder[..], size, i)
        invariant j == NextT2(i)
        invariant i != 0 ==> EdgeHolds(Layout(), i)
        invariant swaps <= Depth(i)
        invariant Sunk(Layout(), i) == Sunk(old(Layout()), i0)
        decreases FloorLog2(max / 2 + 1) - Depth(i)
      {
        StepOutward(h0, o0, i, j);
        DepthBound(j);
        i := Swap(i, j);
        swaps := swaps + 1;
        j := NextT2(i);
      }
      OuterT2Edges(i);
      // From the root or inside T1 it sinks past larger nodes.
      j := NextT1(i);
      while i >= 0 && Exists(j) && Data(i) < Data(j)
        invariant Exists(i) && Balancing(h0, o0, Layout(), insertionOrder[..], size, i)
        invariant j == NextT1(i)
        invariant i != 0 ==> EdgeHolds(Layout(), i)
        invariant i <= 0 ==> OuterEdgesHold(Layout(), i, -1)
        invariant swaps <= Depth(i)
        invariant Sunk(Layout(), i) == Sunk(old(Layout()), i0)
        decreases FloorLog2(max / 2 + 1) - Depth(i)
      {
        StepOutward(h0, o0, i, j);
        DepthBound(j);
        i := Swap(i, j);
        swaps := swaps + 1;
        j := NextT1(i);
      }
      OuterT1Edges(i);
      SunkStays(Layout(), i);
    }

    // Restores the heap order around the value at i, moving it along the tree and, where its
    // value calls for it, across the root into the other heap.
    method Balance(i: int) returns (ghost swaps: nat)
      requires Linked() && Exists(i) && OrderedExceptAt(Layout(), i)
      modifies heap.data, insertionOrder
      ensures HeapOrdered(Layout()) && Indexed(Layout(), insertionOrder[..], size)
      ensures Samples(Layout(), insertionOrder[..], size)
           == old(Samples(Layout(), insertionOrder[..], size))
      ensures insertionOrder[size..] == old(insertionOrder[size..])
      ensures Layout() == Balanced(old(Layout()), i)
      ensures swaps <= 2 * FloorLog2(max / 2 + 1)
    {
      hide OrderedExceptAt, Indexed, HeapOrdered, EdgeHolds, OuterEdgesHold, FloorLog2, Depth, Risen, Sunk;
      ghost var h0, o0 := Layout(), insertionOrder[..];
      DepthBound(i);
      var inner, inward := MoveInward(i, h0, o0);
      var outer, outward := MoveOutward(inner, h0, o0);
      FinishBalancing(h0, o0, outer);
      DepthBound(outer);
      swaps := inward + outward;
    }

    lemma DepthBound(i: int)
      requires Fits() && Exists(i)
      ensures Depth(i) <= FloorLog2(max / 2 + 1)
    {
      DepthIsLogarithmic(i);
      FloorLog2IsMonotone((if i < 0 then -i else i) + 1, max / 2 + 1);
    }

    // While the window fills, the scheduled position is the next one outward on its side.
    lemma NextScheduled(i: int)
      requires Shaped() && size < max && i == insertionOrder[size]
      ensures i > 0 ==> size > 0 && i == upperK && i + 1 == (size + 1) / 2 + 1
      ensures i > 0 ==> lowerK == -((size + 2) / 2)
      ensures i <= 0 ==> i - 1 == -((size + 2) / 2) && upperK == (size + 1) / 2 + 1
      ensures i <= 0 ==> i == if size == 0 then 0 else lowerK
    {}

    // The insertion order finds the place the contents determine.
    lemma NextPlace(data: int)
      requires Valid()
      ensures insertionOrder[insertionOrderIndex] == PlaceOf(Contents(), insertionOrderIndex)
      ensures Written(Layout(), insertionOrder[..], size, insertionOrderIndex, data)
           == Contents()[insertionOrder[insertionOrderIndex] := Node(data, insertionOrderIndex)]
    {
      if size > 0 {
        PlaceIsIndexed(Layout(), insertionOrder[..], size, insertionOrderIndex);
      }
    }

    // What writing one sample does to the layout, and why it leaves one misplaced value.
    lemma BeforeWrite(data: int)
      requires Valid()
      ensures size == max ==> Exists(insertionOrder[insertionOrderIndex])
      ensures Receives(Written(Layout(), insertionOrder[..], size, insertionOrderIndex, data),
                       insertionOrder[..],
                       if size < max then size + 1 else size,
                       NextIndex(),
                       insertionOrder[insertionOrderIndex],
                       Last(Window() + [data], max))
    {
      hide Indexed, HeapOrdered, OrderedExceptAt, Unrolled, Last, Schedule;
      var h, order, s := Layout(), insertionOrder[..], insertionOrderIndex;
      if size == 0 {
        NextScheduled(order[0]);
        First(order, data);
        UnrolledAfterAppend([], max, data);
        EmptyUnrolled();
        assert [] + [data] == [data];
      } else if size < max {
        NextScheduled(order[size]);
        Append(h, order, size, data);
        UnrolledAfterAppend(Samples(h, order, size), max, data);
      } else {
        Overwrite(h, order, size, s, data);
        UnrolledAfterOverwrite(Samples(h, order, size), s, data);
      }
    }

    lemma ReadyToWrite(data: int)
      requires Valid()
      ensures Shaped() && Fits() && size <= max && insertionOrderIndex < insertionOrder.Length
      ensures size < max ==> insertionOrderIndex == size
      ensures size == max ==> Contents() == Layout() && Exists(insertionOrder[insertionOrderIndex])
      ensures insertionOrder[insertionOrderIndex] == PlaceOf(Contents(), insertionOrderIndex)
      ensures Receives(Contents()[insertionOrder[insertionOrderIndex] := Node(data, insertionOrderIndex)],
                       insertionOrder[..], if size < max then size + 1 else size, NextIndex(),
                       insertionOrder[insertionOrderIndex], Last(Window() + [data], max))
    {
      NextPlace(data);
      BeforeWrite(data);
      hide Receives, Indexed, HeapOrdered, Last, Schedule, Window, PlaceOf, Written;
    }

    // Extends the filled range by the scheduled position.
    method MakeRoom(i: int)
      requires Shaped() && size < max && i == insertionOrder[size]
      modifies `upperK, `lowerK, `size
      ensures Shaped() && Fits() && heap.Valid() && heap.InBounds(i) && Exists(i) && size == old(size) + 1
      ensures Layout() == old(Contents())[i := heap.Get(i)]
    {
      NextScheduled(i);
      hide Schedule;
      if i > 0 {
        upperK := i + 1;
      } else {
        lowerK := i - 1;
      }
      size := size + 1;
    }

    // Puts a sample into the position of the next slot, without balancing.
    method Write(data: int) returns (i: int)
      requires Valid()
      modifies `upperK, `lowerK, `size, heap.data
      ensures Shaped() && Exists(i) && size == if old(size) < max then old(size) + 1 else max
      ensures Receives(Layout(), insertionOrder[..], size, NextIndex(), i,
                       Last(old(Window()) + [data], max))
      ensures i == PlaceOf(old(Contents()), insertionOrderIndex)
      ensures Layout() == old(Contents())[i := Node(data, insertionOrderIndex)]
    {
      hide *;
      ReadyToWrite(data);
      ghost var contents := Contents();
      i := insertionOrder[insertionOrderIndex];
      var node := Node(data, insertionOrderIndex);
      if size < max {
        MakeRoom(i);
        UpdatedTwice(contents, i, heap.Get(i), node);
      }
      Store(i, node);
    }

    lemma ReceivedIsLinked(i: int, w: seq<int>)
      requires Fits() && Receives(Layout(), insertionOrder[..], size, insertionOrderIndex, i, w)
      ensures Linked() && OrderedExceptAt(Layout(), i) && insertionOrderIndex <= size
      ensures Unrolled(Samples(Layout(), insertionOrder[..], size), insertionOrderIndex) == w
    {
      hide OrderedExceptAt, Indexed, Samples, Unrolled;
    }

    // Balances after a sample has been written and its slot's turn is over.
    method Settle(i: int, ghost w: seq<int>)
      requires Shaped() && size > 0 && Exists(i)
      requires insertionOrderIndex < max && (size < max ==> insertionOrderIndex == size)
      requires Receives(Layout(), insertionOrder[..], size, insertionOrderIndex, i, w)
      modifies heap.data, insertionOrder
      ensures Valid() && Window() == w && Layout() == Balanced(old(Layout()), i)
    {
      hide Indexed, HeapOrdered, OrderedExceptAt, Unrolled, Schedule, FloorLog2, Receives, Samples, Layout, Exists,
        Balanced;
      ReceivedIsLinked(i, w);
      ghost var order := insertionOrder[..];
      var _ := Balance(i);
      assert forall s | size <= s < max :: insertionOrder[s] == order[size..][s - size];
    }

    // Takes in one sample; a full window loses its oldest one.
    method Push(data: int)
      requires Valid()
      modifies this, heap.data, insertionOrder
      ensures Valid() && Window() == Last(old(Window()) + [data], max)
      ensures Contents() == Pushed(old(Contents()), old(insertionOrderIndex), data)
      ensures insertionOrderIndex == if old(insertionOrderIndex) + 1 == max then 0 else old(insertionOrderIndex) + 1
      ensures size > 0
    {
      hide Indexed, HeapOrdered, OrderedExceptAt, Last, Schedule, Receives, Layout, Exists, Fits, Balanced, PlaceOf,
        Window, Linked;
      ghost var w := Last(Window() + [data], max);
      var i := Write(data);
      insertionOrderIndex := insertionOrderIndex + 1;
      if insertionOrderIndex == max {
        insertionOrderIndex := 0;
      }
      Settle(i, w);
    }

    lemma WindowIsRow()
      requires Valid() && size > 0
      ensures multiset(Row(Layout(), lowerK, upperK)) == multiset(Window())
      ensures Sort(Row(Layout(), lowerK, upperK)) == Sort(Window())
    {
      hide HeapOrdered, Row, Sort;
      var samples := Samples(Layout(), insertionOrder[..], size);
      RowIsPermutation(Layout(), insertionOrder[..], size, lowerK, upperK);
      UnrolledIsPermutation(samples, insertionOrderIndex);
      SortOfPermutation(Row(Layout(), lowerK, upperK), Window());
    }

    // The median of the samples in the window, as sorting them would give it.
    method Median() returns (m: int)
      requires Valid()
      ensures Window() != [] ==>
                |Sort(Window())| == size && m == Sort(Window())[size / 2]
      ensures Window() != [] ==> 0 in Contents() && m == Contents()[0].data
    {
      hide HeapOrdered, Row, Sort, Indexed;
      m := heap.Get(0).data;
      if size > 0 {
        WindowIsRow();
        RootIsMedian(Layout(), lowerK, upperK, size);
      }
    }
  }
}
