/** What a series of samples makes of the double heap, on plain layouts: which swaps balancing makes,
and where each sample ends up. */
module DoubleHeapRuns {
  import opened DoubleHeapOrder

  // A layout and the position of the value being carried along.
  datatype Carried = Carried(layout: Layout, at: int)

  // The swaps towards the root.
  ghost function Risen(h: Layout, i: int): Carried
    decreases if i < 0 then -i else i
  {
    if i != 0 && i in h && Inward(i) in h && !EdgeHolds(h, i) then
      Risen(Swapped(h, i, Inward(i)), Inward(i))
    else
      Carried(h, i)
  }

  ghost predicate GoesT2(h: Layout, i: int) {
    i <= 0 && i in h && OutwardT2(h, i) in h && h[i].data > h[OutwardT2(h, i)].data
  }

  ghost predicate GoesT1(h: Layout, i: int) {
    i >= 0 && i in h && OutwardT1(h, i) in h && h[i].data < h[OutwardT1(h, i)].data
  }

  // The positions further out than i.
  ghost function Outer(h: Layout, i: int): set<int> {
    set p | p in h && (p > i >= 0 || p < i <= 0)
  }

  lemma FewerOuter(h: Layout, i: int, j: int, g: Layout)
    requires j in h && (j > i >= 0 || j < i <= 0) && g.Keys == h.Keys
    ensures Outer(g, j) < Outer(h, i)
  {
    assert j in Outer(h, i) && j !in Outer(g, j);
  }

  // The swaps outward, into T2 if the value calls for it and else into T1.
  ghost function Sunk(h: Layout, i: int): Carried
    decreases Outer(h, i)
  {
    if GoesT2(h, i) then
      var j := OutwardT2(h, i);
      FewerOuter(h, i, j, Swapped(h, i, j));
      Sunk(Swapped(h, i, j), j)
    else if GoesT1(h, i) then
      var j := OutwardT1(h, i);
      FewerOuter(h, i, j, Swapped(h, i, j));
      Sunk(Swapped(h, i, j), j)
    else
      Carried(h, i)
  }

  ghost function Balanced(h: Layout, i: int): Layout {
    var inner := Risen(h, i);
    Sunk(inner.layout, inner.at).layout
  }

  lemma RisenStays(h: Layout, i: int)
    requires i != 0 ==> EdgeHolds(h, i)
    ensures Risen(h, i) == Carried(h, i)
  {}

  lemma SunkStays(h: Layout, i: int)
    requires i <= 0 ==> OuterEdgesHold(h, i, -1)
    requires i >= 0 ==> OuterEdgesHold(h, i, 1)
    ensures Sunk(h, i) == Carried(h, i)
  {
    NoneOutward(h, i);
    hide OuterEdgesHold;
  }

  // A value in order with its outer neighbours goes nowhere.
  lemma NoneOutward(h: Layout, i: int)
    ensures i <= 0 && OuterEdgesHold(h, i, -1) ==> !GoesT2(h, i)
    ensures i >= 0 && OuterEdgesHold(h, i, 1) ==> !GoesT1(h, i)
  {
    var j, k := OutwardT2(h, i), OutwardT1(h, i);
    InwardOfOuter(i);
    assert i <= 0 ==> j < 0 && Inward(j) == i;
    assert i >= 0 ==> k > 0 && Inward(k) == i;
    hide OutwardT1, OutwardT2, Inward;
    assert i <= 0 && OuterEdgesHold(h, i, -1) && j in h ==> EdgeHolds(h, j);
    assert i >= 0 && OuterEdgesHold(h, i, 1) && k in h ==> EdgeHolds(h, k);
  }

  // Balancing a layout in order makes no swap.
  lemma BalancedInPlace(h: Layout, i: int)
    requires HeapOrdered(h)
    ensures Balanced(h, i) == h
  {
    RisenStays(h, i);
    assert OuterEdgesHold(h, i, -1) && OuterEdgesHold(h, i, 1);
    SunkStays(h, i);
  }

  // ---------- Series of samples ----------

  // Where the sample of insertion slot s is, or goes if the slot is unused.
  ghost function PlaceOf(h: Layout, s: nat): int {
    if p :| p in h && h[p].order == s then p else Schedule(s)
  }

  // What one push makes of the filled positions, s the slot whose turn it is.
  ghost function Pushed(h: Layout, s: nat, x: int): Layout {
    var i := PlaceOf(h, s);
    Balanced(h[i := Node(x, s)], i)
  }

  // Whose turn it is after n samples: the slots come up round robin.
  function TurnOf(n: nat, window: nat): (s: nat)
    requires window >= 1
    ensures s < window
  {
    if n == 0 then 0
    else
      var s := TurnOf(n - 1, window);
      if s + 1 == window then 0 else s + 1
  }

  // The filled positions after a series of samples, in a window of the given size.
  ghost function LayoutAfter(data: seq<int>, window: nat): Layout
    requires window >= 1
  {
    if data == [] then map[]
    else
      var n := |data| - 1;
      Pushed(LayoutAfter(data[..n], window), TurnOf(n, window), data[n])
  }

  // The slot a position is scheduled for.
  function SlotOf(p: int): int {
    if p > 0 then 2 * p - 1 else -2 * p
  }

  lemma ScheduleOfSlot(p: int, s: nat)
    ensures SlotOf(Schedule(s)) == s
    ensures SlotOf(p) == s <==> p == Schedule(s)
  {}

  // Every sample where it is first put.
  function Filled(data: seq<int>): Layout {
    map p | -|data| <= p <= |data| && SlotOf(p) < |data| :: Node(data[SlotOf(p)], SlotOf(p))
  }

  lemma FilledGrows(data: seq<int>)
    requires data != []
    ensures var n := |data| - 1;
            && PlaceOf(Filled(data[..n]), n) == Schedule(n) && Schedule(n) !in Filled(data[..n])
            && Filled(data) == Filled(data[..n])[Schedule(n) := Node(data[n], n)]
  {
    var n := |data| - 1;
    forall p, s: nat ensures SlotOf(p) == s <==> p == Schedule(s) {
      ScheduleOfSlot(p, s);
    }
    hide Schedule;
  }

  lemma FewerInOrder(h: Layout, p: int, n: Node)
    requires p !in h && HeapOrdered(h[p := n])
    ensures HeapOrdered(h)
  {
    forall q | q in h && q != 0 ensures EdgeHolds(h, q) {
      assert EdgeHolds(h[p := n], q);
    }
  }

  lemma {:induction false} FirstRound(n: nat, window: nat)
    requires n < window
    ensures TurnOf(n, window) == n
  {
    if n > 0 {
      FirstRound(n - 1, window);
    }
  }

  // While the window fills, samples that are in order where they are first put stay there.
  lemma {:induction false} FillsInPlace(data: seq<int>, window: nat)
    requires window >= 1 && |data| <= window && HeapOrdered(Filled(data))
    ensures LayoutAfter(data, window) == Filled(data)
  {
    if data != [] {
      var n := |data| - 1;
      FilledGrows(data);
      FewerInOrder(Filled(data[..n]), Schedule(n), Node(data[n], n));
      FillsInPlace(data[..n], window);
      BalancedInPlace(Filled(data), Schedule(n));
      FirstRound(n, window);
      hide Filled, HeapOrdered, Balanced, Schedule, PlaceOf;
    }
  }
}
