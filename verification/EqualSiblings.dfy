/** A series of samples on which the collected samples have the wrong middle. */
module EqualSiblings {
  import opened DoubleHeapOrder
  import opened DoubleHeapRuns
  import opened DoubleHeapTests
  import opened DoubleHeaps
  import opened Ranks
  import opened RunningMedianTests
  import opened SampleCounts
  import opened Sorting

  // One full window of nine samples, with equal samples at the two neighbours of the root in T1.
  function Nine(): seq<int> {
    [6, 5, 7, 5, 8, 1, 9, 2, 10]
  }

  ghost predicate HoldsNine(h: Layout) {
    h == map[0 := Node(6, 0), 1 := Node(5, 1), -1 := Node(7, 2), 2 := Node(5, 3), -2 := Node(8, 4),
             3 := Node(1, 5), -3 := Node(9, 6), 4 := Node(2, 7), -4 := Node(10, 8)]
  }

  // The walk collects one of the two, with its tree, twice and the other never: it returns eleven
  // values, and the middle one of them is not the median, which the window has in its middle.
  lemma EqualSiblingsMislead(h: Layout)
    requires h == LayoutAfter(Nine(), 9)
    ensures HoldsNine(h) && Spans(h, -5, 5) && h[0].data == 6
    ensures Last(Nine(), 9) == Nine() && Middle(Nine()) == 6
    ensures |Visits(h, -5, 5, 0)| == 11 && Middle(Values(h, Visits(h, -5, 5, 0))) == 5
    ensures !Centred(h) && Failures(Nine(), 9) == 1
  {
    hide *;
    NineStayInPlace();
    NineInOrder(h);
    NineVisits(h);
    NineValues(h);
    NineMiddles(Nine(), Values(h, Visits(h, -5, 5, 0)));
    CentredIffMiddle(h, -5, 5);
    NineFail(h);
  }

  lemma NineFail(h: Layout)
    requires h == LayoutAfter(Nine(), 9) && 0 in h && !Centred(h)
    ensures Failures(Nine(), 9) == 1
  {
    var nine := Nine();
    assert |nine| == 9;
    assert IsOffCentre(h);
    hide *;
    FirstFullWindow(nine, 9);
  }

  // By the order of arrival, each sample is in order where it is first put.
  lemma NineStayInPlace()
    ensures HoldsNine(LayoutAfter(Nine(), 9)) && |Nine()| == 9
  {
    var nine := Nine();
    NineFilled(nine);
    NineInOrder(Filled(nine));
    hide *;
    assert |nine| == 9;
    FillsInPlace(nine, 9);
  }

  lemma NineFilled(nine: seq<int>)
    requires nine == [6, 5, 7, 5, 8, 1, 9, 2, 10]
    ensures HoldsNine(Filled(nine)) && |nine| == 9
  {
    assert forall p :: p in Filled(nine) <==> -4 <= p <= 4;
  }

  lemma NineInOrder(h: Layout)
    requires HoldsNine(h)
    ensures Spans(h, -5, 5) && 0 in h && HeapOrdered(h) && h[0].data == 6
  {
    hide HoldsNine, Inward;
    NineData(h);
    forall p | p in h && p != 0 ensures EdgeHolds(h, p) {
      InwardOfNine(p);
    }
  }

  lemma NineData(h: Layout)
    requires HoldsNine(h)
    ensures forall p :: p in h <==> -4 <= p <= 4
    ensures h[0].data == 6 && h[1].data == h[2].data == 5 && h[3].data == 1 && h[4].data == 2
    ensures h[-1].data == 7 && h[-2].data == 8 && h[-3].data == 9 && h[-4].data == 10
  {}

  lemma InwardOfNine(p: int)
    requires -4 <= p <= 4 && p != 0
    ensures Inward(p) == if -2 <= p <= 2 then 0 else if p > 0 then 1 else -1
  {}

  lemma NineValues(h: Layout)
    requires HoldsNine(h)
    ensures Values(h, [3, 4, 1, 3, 4, 1, 0, -1, -3, -4, -2]) == [1, 2, 5, 1, 2, 5, 6, 7, 9, 10, 8]
  {}

  lemma NineVisits(h: Layout)
    requires HoldsNine(h) && Spans(h, -5, 5)
    ensures Visits(h, -5, 5, 0) == [3, 4, 1, 3, 4, 1, 0, -1, -3, -4, -2]
  {
    assert VisitsSide(h, -5, 5, 3, 1) == VisitsSide(h, -5, 5, 4, 1) == [];
    assert VisitsSide(h, -5, 5, -2, -1) == VisitsSide(h, -5, 5, -3, -1) == VisitsSide(h, -5, 5, -4, -1) == [];
    assert VisitsSide(h, -5, 5, 1, 1) == [3, 4];
    assert VisitsSide(h, -5, 5, -1, -1) == [-3, -4];
    assert VisitsSide(h, -5, 5, 0, 1) == [3, 4, 1, 3, 4, 1];
    assert VisitsSide(h, -5, 5, 0, -1) == [-1, -3, -4, -2];
  }

  lemma NineMiddles(nine: seq<int>, collected: seq<int>)
    requires nine == Nine() && collected == [1, 2, 5, 1, 2, 5, 6, 7, 9, 10, 8]
    ensures Last(nine, 9) == nine && Middle(nine) == 6 && Middle(collected) == 5
  {
    var inOrder := [1, 2, 5, 5, 6, 7, 8, 9, 10];
    NinePivots(inOrder, collected);
    NinePermuted(nine, inOrder);
    assert |nine| == 9 && Last(nine, 9) == nine;
    hide *;
    PivotsAreMiddles(nine, inOrder, collected);
  }

  lemma PivotsAreMiddles(nine: seq<int>, inOrder: seq<int>, collected: seq<int>)
    requires multiset(nine) == multiset(inOrder)
    requires |inOrder| == 9 && IsPivot(inOrder, 4)
    requires |collected| == 11 && IsPivot(collected, 5)
    ensures Middle(nine) == inOrder[4] && Middle(collected) == collected[5]
  {
    hide *;
    MiddleIsMedian(nine, inOrder);
    PivotIsMiddle(inOrder);
    PivotIsMiddle(collected);
  }

  lemma NinePivots(inOrder: seq<int>, collected: seq<int>)
    requires inOrder == [1, 2, 5, 5, 6, 7, 8, 9, 10] && collected == [1, 2, 5, 1, 2, 5, 6, 7, 9, 10, 8]
    ensures |inOrder| == 9 && inOrder[4] == 6 && IsPivot(inOrder, 4)
    ensures |collected| == 11 && collected[5] == 5 && IsPivot(collected, 5)
  {}

  lemma PivotIsMiddle(s: seq<int>)
    requires s != [] && IsPivot(s, |s| / 2)
    ensures Middle(s) == s[|s| / 2]
  {
    hide Sort, IsPivot;
    PivotStaysPut(s, |s| / 2);
  }

  lemma NinePermuted(nine: seq<int>, inOrder: seq<int>)
    requires nine == Nine() && inOrder == [1, 2, 5, 5, 6, 7, 8, 9, 10]
    ensures multiset(nine) == multiset(inOrder)
  {
    ReindexedIsPermutation(nine, inOrder, [4, 2, 5, 3, 6, 0, 7, 1, 8]);
  }

  lemma FirstFullWindow(data: seq<int>, window: nat)
    requires |data| == window >= 1
    ensures Failures(data, window) == if IsOffCentre(LayoutAfter(data, window)) then 1 else 0
  {
    hide IsOffCentre, LayoutAfter;
    NoFailureYet(data[..window - 1], window);
  }

  lemma {:induction false} NoFailureYet(data: seq<int>, window: nat)
    requires |data| < window
    ensures Failures(data, window) == 0
  {
    if data != [] {
      NoFailureYet(data[..|data| - 1], window);
    }
  }

  ghost predicate HoldsFive(h: Layout) {
    h == map[0 := Node(6, 0), 1 := Node(5, 1), -1 := Node(7, 2), 2 := Node(5, 3), -2 := Node(8, 4)]
  }

  function Five(): seq<int> {
    [6, 5, 7, 5, 8]
  }

  // Equal siblings need not do harm: in a window of five, the walk collects one of two equal samples
  // twice and the other never, and the median still is in the middle.
  lemma EqualSiblingsMayDoNoHarm(h: Layout)
    requires h == LayoutAfter(Five(), 5)
    ensures HoldsFive(h) && Spans(h, -3, 3) && !SiblingsDiffer(h, 0)
    ensures Centred(h) && Failures(Five(), 5) == 0
  {
    hide *;
    FiveStayInPlace();
    FiveInOrder(h);
    FiveEntered(h);
    FiveSiblings(h);
    CentredWithoutTies(h, -3, 3);
    FiveDoNotFail(h);
  }

  lemma FiveDoNotFail(h: Layout)
    requires h == LayoutAfter(Five(), 5) && 0 in h && Centred(h)
    ensures Failures(Five(), 5) == 0
  {
    var five := Five();
    assert |five| == 5;
    assert !IsOffCentre(h);
    hide *;
    FirstFullWindow(five, 5);
  }

  lemma FiveStayInPlace()
    ensures HoldsFive(LayoutAfter(Five(), 5)) && |Five()| == 5
  {
    var five := Five();
    FiveFilled(five);
    FiveInOrder(Filled(five));
    hide *;
    assert |five| == 5;
    FillsInPlace(five, 5);
  }

  lemma FiveFilled(five: seq<int>)
    requires five == [6, 5, 7, 5, 8]
    ensures HoldsFive(Filled(five)) && |five| == 5
  {
    assert forall p :: p in Filled(five) <==> -2 <= p <= 2;
  }

  lemma FiveData(h: Layout)
    requires HoldsFive(h)
    ensures forall p :: p in h <==> -2 <= p <= 2
    ensures h[0].data == 6 && h[1].data == h[2].data == 5 && h[-1].data == 7 && h[-2].data == 8
  {}

  lemma FiveInOrder(h: Layout)
    requires HoldsFive(h)
    ensures Spans(h, -3, 3) && HeapOrdered(h) && forall p | p in h && p != 0 :: h[p].data != h[0].data
  {
    hide HoldsFive, Inward;
    FiveData(h);
    forall p | p in h && p != 0 ensures EdgeHolds(h, p) {
      InwardOfNine(p);
    }
  }

  lemma FiveEntered(h: Layout)
    requires HoldsFive(h)
    ensures 0 in h && EnteredSide(h, 0, 1, {}) == EnteredSide(h, 0, -1, {}) == 2
  {
    hide HoldsFive;
    FiveData(h);
    LeafIsEnteredOnce(h, 1);
    LeafIsEnteredOnce(h, -1);
    LeafIsEnteredOnce(h, -2);
    hide Entered;
  }

  lemma LeafIsEnteredOnce(h: Layout, i: int)
    requires i in h
    requires forall side | HasSide(i, side) :: Near(i, side) !in h && Far(i, side) !in h
    ensures Entered(h, i, {}) == 1
  {}

  lemma FiveSiblings(h: Layout)
    requires HoldsFive(h)
    ensures !SiblingsDiffer(h, 0)
  {
    hide HoldsFive;
    FiveData(h);
    assert !SiblingsDifferAt(h, 0, 1);
    assert 0 in Tree(h, 0);
  }
}
