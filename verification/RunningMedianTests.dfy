/** Whole runs of the double heap, compared with sorting the window. */
module RunningMedianTests {
  import opened DoubleHeaps
  import opened DoubleHeapOrder
  import opened DoubleHeapRuns
  import opened DoubleHeapTests
  import opened Ranks
  import opened SampleCounts
  import opened Sequences
  import opened Sorting

  lemma LastOfPrefix(data: seq<int>, i: nat, w: nat)
    requires i < |data|
    ensures Last(Last(data[..i], w) + [data[i]], w) == Last(data[..i + 1], w)
    ensures w >= 1 ==> Last(data[..i], w - 1) + [data[i]] == Last(data[..i + 1], w)
  {
    assert data[..i + 1] == data[..i] + [data[i]];
    LastOfLonger(data[..i], data[i], w);
    hide *;
  }

  lemma LastOfLonger(xs: seq<int>, x: int, w: nat)
    ensures Last(Last(xs, w) + [x], w) == Last(xs + [x], w)
    ensures w >= 1 ==> Last(xs, w - 1) + [x] == Last(xs + [x], w)
  {}

  ghost predicate IsReverse(a: seq<int>, b: seq<int>) {
    |a| == |b| && forall k | 0 <= k < |a| :: a[k] == b[|a| - 1 - k]
  }

  lemma LastOfNone(data: seq<int>, w: nat)
    ensures Last(data[..0], w) == [] && (w >= 1 ==> IsReverse([], Last(data[..0], w - 1)))
  {}

  lemma LastShrinks(xs: seq<int>, w: nat)
    requires w >= 1
    ensures |Last(xs, w)| >= w <==> |xs| >= w
    ensures if |Last(xs, w)| >= w then
              |xs| >= w && Last(xs, w) != [] && Last(xs, w - 1) == Last(xs, w)[1..]
            else
              Last(xs, w - 1) == Last(xs, w)
  {}

  lemma ReverseGrows(a: seq<int>, b: seq<int>, x: int)
    requires IsReverse(a, b)
    ensures IsReverse([x] + a, b + [x]) && |[x] + a| == |b + [x]|
  {}

  lemma ReverseDropsLast(a: seq<int>, b: seq<int>)
    requires IsReverse(a, b) && a != []
    ensures b != [] && IsReverse(a[..|a| - 1], b[1..])
  {}

  lemma {:induction false} ReverseIsPermutation(a: seq<int>, b: seq<int>)
    requires IsReverse(a, b)
    ensures multiset(a) == multiset(b)
  {
    if a != [] {
      var n := |a| - 1;
      assert a == [a[0]] + a[1..] && b == b[..n] + [b[n]];
      ReverseIsPermutation(a[1..], b[..n]);
    }
  }

  lemma SampledMiddle(test: DoubleHeapTest, samples: seq<int>)
    requires test.heap.Valid() && test.heap.size > 0
    requires samples == Values(test.heap.Layout(),
                               Visits(test.heap.Layout(), test.heap.lowerK, test.heap.upperK, 0))
    ensures samples != []
    ensures Distinct(test.heap.Window()) ==> Middle(samples) == Middle(test.heap.Window())
    ensures 0 in test.heap.Contents()
    ensures IsOffCentre(test.heap.Contents()) <==> Middle(samples) != test.heap.Contents()[0].data
  {
    var h, low, high := test.heap.Layout(), test.heap.lowerK, test.heap.upperK;
    VisitsAroundMiddle(h, low, high, 0);
    CentredIffMiddle(h, low, high);
    hide Centred, Middle, HeapOrdered, Indexed, Visits, VisitsSide, Sort, SiblingsDiffer, Row, Distinct;
    test.heap.WindowIsRow();
    if Distinct(test.heap.Window()) {
      DistinctSiblings(h, low, high, test.heap.Window());
      SamplesFromRoot(h, low, high);
      SortOfPermutation(samples, test.heap.Window());
    }
  }

  ghost predicate IsOffCentre(h: Layout) {
    0 in h && !Centred(h)
  }

  // The three ways of finding the median of a full window. Those through the heap's root and
  // through sorting the window always agree; the one through the collected samples does exactly if
  // the layout is centred, which it is if the samples are distinct.
  method Compare(test: DoubleHeapTest, vector1: seq<int>) returns (failed: bool)
    requires test.heap.Valid() && test.heap.size > 0
    requires multiset(vector1) == multiset(test.heap.Window())
    ensures Distinct(test.heap.Window()) ==> !failed
    ensures failed <==> IsOffCentre(test.heap.Contents())
  {
    hide *;
    SortOfPermutation(vector1, test.heap.Window());
    ValidHeap(test);
    var median2 := Middle(vector1);
    var vector2 := test.Samples();
    SampledMiddle(test, vector2.items);
    var median1 := Middle(vector2.items);
    var median := test.heap.Median();
    MiddleIsMedian(vector1, test.heap.Window());
    failed := median != median1 || median != median2 || median1 != median2;
  }

  lemma ValidHeap(test: DoubleHeapTest)
    requires test.heap.Valid() && test.heap.size > 0
    ensures test.heap.Fits() && |test.heap.Window()| == test.heap.size
  {}

  lemma MiddleIsMedian(v: seq<int>, w: seq<int>)
    requires multiset(v) == multiset(w) && w != []
    ensures v != [] && Middle(v) == Middle(w) == Sort(w)[|w| / 2] && |Sort(w)| == |w|
  {
    hide Sort;
    SortOfPermutation(v, w);
    SortKeepsLength(w);
  }

  // How many times the comparison fails, from the first full window on.
  ghost function Failures(data: seq<int>, window: nat): nat
    requires window >= 1
  {
    if data == [] then 0
    else
      Failures(data[..|data| - 1], window)
      + if |data| >= window && IsOffCentre(LayoutAfter(data, window)) then 1 else 0
  }

  lemma NoSamplesYet(data: seq<int>, window: nat)
    requires window >= 1
    ensures LayoutAfter(data[..0], window) == map[] && TurnOf(0, window) == 0 && Failures(data[..0], window) == 0
  {}

  lemma OneSampleMore(data: seq<int>, i: nat, window: nat)
    requires window >= 1 && i < |data|
    ensures LayoutAfter(data[..i + 1], window) == Pushed(LayoutAfter(data[..i], window), TurnOf(i, window), data[i])
    ensures TurnOf(i + 1, window) == if TurnOf(i, window) + 1 == window then 0 else TurnOf(i, window) + 1
    ensures Failures(data[..i + 1], window) == Failures(data[..i], window)
              + if i + 1 >= window && IsOffCentre(LayoutAfter(data[..i + 1], window)) then 1 else 0
  {
    assert data[..i + 1][..i] == data[..i];
    hide Pushed, IsOffCentre, LayoutAfter, Failures;
    LayoutOfMore(data[..i + 1], window);
    FailuresOfMore(data[..i + 1], window);
  }

  lemma LayoutOfMore(data: seq<int>, window: nat)
    requires window >= 1 && data != []
    ensures var n := |data| - 1;
            LayoutAfter(data, window) == Pushed(LayoutAfter(data[..n], window), TurnOf(n, window), data[n])
  {
    hide Pushed;
  }

  lemma FailuresOfMore(data: seq<int>, window: nat)
    requires window >= 1 && data != []
    ensures Failures(data, window) == Failures(data[..|data| - 1], window)
              + if |data| >= window && IsOffCentre(LayoutAfter(data, window)) then 1 else 0
  {
    hide LayoutAfter, IsOffCentre;
  }

  // Every full window holds distinct samples.
  ghost predicate AllDistinct(data: seq<int>, window: nat) {
    forall k | window <= k <= |data| :: Distinct(Last(data[..k], window))
  }

  lemma DistinctAt(data: seq<int>, window: nat, k: nat)
    requires AllDistinct(data, window) && window <= k <= |data|
    ensures Distinct(Last(data[..k], window))
  {}

  method AccuracyTest(data: seq<int>, window: nat) returns (medians: seq<int>, fail: nat)
    requires window >= 1
    ensures |medians| == |data|
    ensures forall k | 0 <= k < |data| :: medians[k] == Middle(Last(data[..k + 1], window))
    ensures fail == Failures(data, window)
    ensures AllDistinct(data, window) ==> fail == 0
  {
    hide *;
    var test := new DoubleHeapTest(window);
    var vector1 := [];
    medians, fail := [], 0;
    LastOfNone(data, window);
    NoSamplesYet(data, window);
    for i := 0 to |data|
      invariant fresh(test.heap) && fresh(test.heap.heap.data) && fresh(test.heap.insertionOrder)
      invariant test.heap.Valid() && test.heap.Fits() && test.heap.max == window
      invariant test.heap.Contents() == LayoutAfter(data[..i], window)
      invariant test.heap.insertionOrderIndex == TurnOf(i, window)
      invariant test.heap.Window() == Last(data[..i], window)
      invariant IsReverse(vector1, Last(data[..i], window - 1))
      invariant |medians| == i
      invariant forall k | 0 <= k < i :: medians[k] == Middle(Last(data[..k + 1], window))
      invariant fail == Failures(data[..i], window)
      invariant AllDistinct(data, window) ==> fail == 0
    {
      ghost var recent := Last(data[..i], window - 1);
      LastOfPrefix(data, i, window);
      OneSampleMore(data, i, window);
      test.heap.Push(data[i]);
      var median := test.heap.Median();
      MiddleIsMedian(test.heap.Window(), test.heap.Window());
      ValidHeap(test);
      medians := medians + [median];
      ReverseGrows(vector1, recent, data[i]);
      vector1 := [data[i]] + vector1;
      LastShrinks(data[..i + 1], window);
      if |vector1| >= window {
        ReverseIsPermutation(vector1, test.heap.Window());
        var failed := Compare(test, vector1);
        if AllDistinct(data, window) {
          DistinctAt(data, window, i + 1);
        }
        if failed {
          fail := fail + 1;
        }
        ReverseDropsLast(vector1, test.heap.Window());
        vector1 := vector1[..|vector1| - 1];
      }
    }
    assert data[..|data|] == data;
  }
}
