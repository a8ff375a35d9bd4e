/** A series of samples in which a value sinks past two equal neighbours. */
module EqualNeighbours {
  import opened DoubleHeapOrder
  import opened DoubleHeapRuns
  import opened DoubleHeapTests
  import opened EqualSiblings
  import opened RunningMedianTests
  import opened Ranks
  import opened SampleCounts

  // The seventh sample sinks from the root past two neighbours that both hold 3.
  function Tied(): seq<int> {
    [6, 3, 2, 8, 3, 4, 1, 5, 6]
  }

  // ---------- Layouts as rows ----------

  // The layout with the given nodes at the positions from low on.
  function Laid(nodes: seq<Node>, low: int): Layout {
    map p | low <= p < low + |nodes| && Within(nodes, low, p) :: nodes[p - low]
  }

  predicate Within(nodes: seq<Node>, low: int, p: int) {
    low <= p < low + |nodes|
  }

  function Exchanged(nodes: seq<Node>, low: int, i: int, j: int): seq<Node>
    requires low <= i < low + |nodes| && low <= j < low + |nodes|
  {
    nodes[i - low := nodes[j - low]][j - low := nodes[i - low]]
  }

  lemma ExchangedIsSwapped(nodes: seq<Node>, low: int, i: int, j: int)
    requires low <= i < low + |nodes| && low <= j < low + |nodes|
    ensures Swapped(Laid(nodes, low), i, j) == Laid(Exchanged(nodes, low, i, j), low)
  {}

  // Slot s of the insertion order is unused, and its place is next to those in use.
  ghost predicate IsNext(nodes: seq<Node>, low: int, s: nat) {
    && (forall k | 0 <= k < |nodes| :: nodes[k].order != s)
    && (Schedule(s) == low - 1 || Schedule(s) == low + |nodes|)
  }

  lemma PushedNext(nodes: seq<Node>, low: int, s: nat, x: int)
    requires IsNext(nodes, low, s)
    ensures Schedule(s) == low + |nodes| ==>
              Pushed(Laid(nodes, low), s, x) == Balanced(Laid(nodes + [Node(x, s)], low), Schedule(s))
    ensures Schedule(s) == low - 1 ==>
              Pushed(Laid(nodes, low), s, x) == Balanced(Laid([Node(x, s)] + nodes, low - 1), Schedule(s))
  {
    hide Balanced, Schedule;
    assert PlaceOf(Laid(nodes, low), s) == Schedule(s);
    if Schedule(s) == low + |nodes| {
      assert Laid(nodes, low)[Schedule(s) := Node(x, s)] == Laid(nodes + [Node(x, s)], low);
    }
    if Schedule(s) == low - 1 {
      assert Laid(nodes, low)[Schedule(s) := Node(x, s)] == Laid([Node(x, s)] + nodes, low - 1);
    }
  }

  lemma RisesTo(nodes: seq<Node>, low: int, i: int, j: int)
    requires low <= i < low + |nodes| && low <= j < low + |nodes| && i != 0 && j == Inward(i)
    requires !Before(nodes[j - low], nodes[i - low], i)
    ensures Risen(Laid(nodes, low), i) == Risen(Laid(Exchanged(nodes, low, i, j), low), j)
  {
    hide Inward;
    ExchangedIsSwapped(nodes, low, i, j);
  }

  lemma RisesNoFurther(nodes: seq<Node>, low: int, i: int)
    requires low <= 0 < low + |nodes| && low <= i < low + |nodes|
    requires i != 0 ==> low <= Inward(i) < low + |nodes| && Before(nodes[Inward(i) - low], nodes[i - low], i)
    ensures Risen(Laid(nodes, low), i) == Carried(Laid(nodes, low), i)
  {}

  lemma SinksTo(nodes: seq<Node>, low: int, i: int, j: int)
    requires low <= i < low + |nodes| && low <= j < low + |nodes|
    requires var h := Laid(nodes, low);
             (GoesT2(h, i) && j == OutwardT2(h, i)) || (!GoesT2(h, i) && GoesT1(h, i) && j == OutwardT1(h, i))
    ensures Sunk(Laid(nodes, low), i) == Sunk(Laid(Exchanged(nodes, low, i, j), low), j)
  {
    hide GoesT2, GoesT1, OutwardT1, OutwardT2;
    ExchangedIsSwapped(nodes, low, i, j);
  }

  lemma SinksNoFurther(nodes: seq<Node>, low: int, i: int)
    requires var h := Laid(nodes, low); !GoesT2(h, i) && !GoesT1(h, i)
    ensures Sunk(Laid(nodes, low), i) == Carried(Laid(nodes, low), i)
  {}

  // ---------- The nine pushes ----------

  // After 2 samples.
  function After2(): seq<Node> {
    [Node(6, 0), Node(3, 1)]
  }

  // After 3 samples.
  function After3(): seq<Node> {
    [Node(6, 0), Node(3, 1), Node(2, 2)]
  }

  // After 4 samples.
  function After4(): seq<Node> {
    [Node(8, 3), Node(6, 0), Node(2, 2), Node(3, 1)]
  }

  // After 5 samples.
  function After5(): seq<Node> {
    [Node(6, 0), Node(8, 3), Node(3, 4), Node(2, 2), Node(3, 1)]
  }

  // After 6 samples.
  function After6(): seq<Node> {
    [Node(6, 0), Node(8, 3), Node(4, 5), Node(3, 4), Node(3, 1), Node(2, 2)]
  }

  // After 7 samples.
  function After7(): seq<Node> {
    [Node(8, 3), Node(6, 0), Node(4, 5), Node(3, 4), Node(2, 2), Node(3, 1), Node(1, 6)]
  }

  // After 8 samples.
  function After8(): seq<Node> {
    [Node(8, 3), Node(6, 0), Node(5, 7), Node(4, 5), Node(3, 4), Node(3, 1), Node(1, 6), Node(2, 2)]
  }

  // After 9 samples.
  function After9(): seq<Node> {
    [Node(6, 8), Node(8, 3), Node(6, 0), Node(5, 7), Node(4, 5), Node(3, 4), Node(3, 1), Node(1, 6), Node(2, 2)]
  }

  lemma ThirdPush(nodes: seq<Node>)
    requires nodes == After2()
    ensures Pushed(Laid(nodes, 0), 2, 2) == Laid(After3(), -1)
  {
    hide Risen, Sunk, Pushed, Swapped, Laid, After3;
    PushedNext(nodes, 0, 2, 2);
    var grown := [Node(2, 2), Node(6, 0), Node(3, 1)];
    assert [Node(2, 2)] + nodes == grown;
    RisesTo(grown, -1, -1, 0);
    var row1 := [Node(6, 0), Node(2, 2), Node(3, 1)];
    assert Exchanged(grown, -1, -1, 0) == row1;
    RisesNoFurther(row1, -1, 0);
    ThirdSinks(row1);
  }

  lemma ThirdSinks(risen: seq<Node>)
    requires risen == [Node(6, 0), Node(2, 2), Node(3, 1)]
    ensures Sunk(Laid(risen, -1), 0).layout == Laid(After3(), -1)
  {
    hide Sunk, Swapped;
    SinksTo(risen, -1, 0, 1);
    var row2 := [Node(6, 0), Node(3, 1), Node(2, 2)];
    assert Exchanged(risen, -1, 0, 1) == row2;
    SinksNoFurther(row2, -1, 1);
  }

  lemma FourthPush(nodes: seq<Node>)
    requires nodes == After3()
    ensures Pushed(Laid(nodes, -1), 3, 8) == Laid(After4(), -1)
  {
    hide Risen, Sunk, Pushed, Swapped, Laid, After4;
    PushedNext(nodes, -1, 3, 8);
    var grown := [Node(6, 0), Node(3, 1), Node(2, 2), Node(8, 3)];
    assert nodes + [Node(8, 3)] == grown;
    RisesTo(grown, -1, 2, 0);
    var row1 := [Node(6, 0), Node(8, 3), Node(2, 2), Node(3, 1)];
    assert Exchanged(grown, -1, 2, 0) == row1;
    RisesNoFurther(row1, -1, 0);
    FourthSinks(row1);
  }

  lemma FourthSinks(risen: seq<Node>)
    requires risen == [Node(6, 0), Node(8, 3), Node(2, 2), Node(3, 1)]
    ensures Sunk(Laid(risen, -1), 0).layout == Laid(After4(), -1)
  {
    hide Sunk, Swapped;
    SinksTo(risen, -1, 0, -1);
    var row2 := [Node(8, 3), Node(6, 0), Node(2, 2), Node(3, 1)];
    assert Exchanged(risen, -1, 0, -1) == row2;
    SinksNoFurther(row2, -1, -1);
  }

  lemma FifthPush(nodes: seq<Node>)
    requires nodes == After4()
    ensures Pushed(Laid(nodes, -1), 4, 3) == Laid(After5(), -2)
  {
    hide Risen, Sunk, Pushed, Swapped, Laid, After5;
    PushedNext(nodes, -1, 4, 3);
    var grown := [Node(3, 4), Node(8, 3), Node(6, 0), Node(2, 2), Node(3, 1)];
    assert [Node(3, 4)] + nodes == grown;
    RisesTo(grown, -2, -2, 0);
    var row1 := [Node(6, 0), Node(8, 3), Node(3, 4), Node(2, 2), Node(3, 1)];
    assert Exchanged(grown, -2, -2, 0) == row1;
    RisesNoFurther(row1, -2, 0);
    FifthSinks(row1);
  }

  lemma FifthSinks(risen: seq<Node>)
    requires risen == [Node(6, 0), Node(8, 3), Node(3, 4), Node(2, 2), Node(3, 1)]
    ensures Sunk(Laid(risen, -2), 0).layout == Laid(After5(), -2)
  {
    hide Sunk, Swapped;
    SinksNoFurther(risen, -2, 0);
  }

  lemma SixthPush(nodes: seq<Node>)
    requires nodes == After5()
    ensures Pushed(Laid(nodes, -2), 5, 4) == Laid(After6(), -2)
  {
    hide Risen, Sunk, Pushed, Swapped, Laid, After6;
    PushedNext(nodes, -2, 5, 4);
    var grown := [Node(6, 0), Node(8, 3), Node(3, 4), Node(2, 2), Node(3, 1), Node(4, 5)];
    assert nodes + [Node(4, 5)] == grown;
    RisesTo(grown, -2, 3, 1);
    var row1 := [Node(6, 0), Node(8, 3), Node(3, 4), Node(4, 5), Node(3, 1), Node(2, 2)];
    assert Exchanged(grown, -2, 3, 1) == row1;
    RisesTo(row1, -2, 1, 0);
    var row2 := [Node(6, 0), Node(8, 3), Node(4, 5), Node(3, 4), Node(3, 1), Node(2, 2)];
    assert Exchanged(row1, -2, 1, 0) == row2;
    RisesNoFurther(row2, -2, 0);
    SixthSinks(row2);
  }

  lemma SixthSinks(risen: seq<Node>)
    requires risen == [Node(6, 0), Node(8, 3), Node(4, 5), Node(3, 4), Node(3, 1), Node(2, 2)]
    ensures Sunk(Laid(risen, -2), 0).layout == Laid(After6(), -2)
  {
    hide Sunk, Swapped;
    SinksNoFurther(risen, -2, 0);
  }

  lemma SeventhRises(grown: seq<Node>, row1: seq<Node>, row2: seq<Node>)
    requires grown == [Node(1, 6), Node(6, 0), Node(8, 3), Node(4, 5), Node(3, 4), Node(3, 1), Node(2, 2)]
    requires row1 == [Node(8, 3), Node(6, 0), Node(1, 6), Node(4, 5), Node(3, 4), Node(3, 1), Node(2, 2)]
    requires row2 == [Node(8, 3), Node(6, 0), Node(4, 5), Node(1, 6), Node(3, 4), Node(3, 1), Node(2, 2)]
    ensures Risen(Laid(grown, -3), -3) == Carried(Laid(row2, -3), 0)
  {
    hide Risen, Swapped, Laid;
    RisesTo(grown, -3, -3, -1);
    assert Exchanged(grown, -3, -3, -1) == row1;
    SeventhRisesOn(row1, row2);
  }

  lemma SeventhRisesOn(row1: seq<Node>, row2: seq<Node>)
    requires row1 == [Node(8, 3), Node(6, 0), Node(1, 6), Node(4, 5), Node(3, 4), Node(3, 1), Node(2, 2)]
    requires row2 == [Node(8, 3), Node(6, 0), Node(4, 5), Node(1, 6), Node(3, 4), Node(3, 1), Node(2, 2)]
    ensures Risen(Laid(row1, -3), -1) == Carried(Laid(row2, -3), 0)
  {
    hide Risen, Swapped, Laid;
    RisesTo(row1, -3, -1, 0);
    assert Exchanged(row1, -3, -1, 0) == row2;
    RisesNoFurther(row2, -3, 0);
  }

  lemma SeventhPush(nodes: seq<Node>)
    requires nodes == After6()
    ensures Pushed(Laid(nodes, -2), 6, 1) == Laid(After7(), -3)
  {
    hide Risen, Sunk, Pushed, Swapped, Laid, After7, Inward;
    PushedNext(nodes, -2, 6, 1);
    var grown := [Node(1, 6), Node(6, 0), Node(8, 3), Node(4, 5), Node(3, 4), Node(3, 1), Node(2, 2)];
    assert [Node(1, 6)] + nodes == grown;
    var row1 := [Node(8, 3), Node(6, 0), Node(1, 6), Node(4, 5), Node(3, 4), Node(3, 1), Node(2, 2)];
    var row2 := [Node(8, 3), Node(6, 0), Node(4, 5), Node(1, 6), Node(3, 4), Node(3, 1), Node(2, 2)];
    SeventhRises(grown, row1, row2);
    SeventhSinks(row2);
  }

  lemma SeventhSinks(risen: seq<Node>)
    requires risen == [Node(8, 3), Node(6, 0), Node(4, 5), Node(1, 6), Node(3, 4), Node(3, 1), Node(2, 2)]
    ensures Sunk(Laid(risen, -3), 0).layout == Laid(After7(), -3)
  {
    hide Sunk, Swapped;
    SinksTo(risen, -3, 0, 1);
    var row3 := [Node(8, 3), Node(6, 0), Node(4, 5), Node(3, 4), Node(1, 6), Node(3, 1), Node(2, 2)];
    assert Exchanged(risen, -3, 0, 1) == row3;
    SinksTo(row3, -3, 1, 3);
    var row4 := [Node(8, 3), Node(6, 0), Node(4, 5), Node(3, 4), Node(2, 2), Node(3, 1), Node(1, 6)];
    assert Exchanged(row3, -3, 1, 3) == row4;
    SinksNoFurther(row4, -3, 3);
  }

  lemma EighthPush(nodes: seq<Node>)
    requires nodes == After7()
    ensures Pushed(Laid(nodes, -3), 7, 5) == Laid(After8(), -3)
  {
    hide Risen, Sunk, Pushed, Swapped, Laid, After8;
    PushedNext(nodes, -3, 7, 5);
    var grown := [Node(8, 3), Node(6, 0), Node(4, 5), Node(3, 4), Node(2, 2), Node(3, 1), Node(1, 6), Node(5, 7)];
    assert nodes + [Node(5, 7)] == grown;
    RisesTo(grown, -3, 4, 1);
    var row1 := [Node(8, 3), Node(6, 0), Node(4, 5), Node(3, 4), Node(5, 7), Node(3, 1), Node(1, 6), Node(2, 2)];
    assert Exchanged(grown, -3, 4, 1) == row1;
    RisesTo(row1, -3, 1, 0);
    var row2 := [Node(8, 3), Node(6, 0), Node(4, 5), Node(5, 7), Node(3, 4), Node(3, 1), Node(1, 6), Node(2, 2)];
    assert Exchanged(row1, -3, 1, 0) == row2;
    RisesNoFurther(row2, -3, 0);
    EighthSinks(row2);
  }

  lemma EighthSinks(risen: seq<Node>)
    requires risen == [Node(8, 3), Node(6, 0), Node(4, 5), Node(5, 7), Node(3, 4), Node(3, 1), Node(1, 6), Node(2, 2)]
    ensures Sunk(Laid(risen, -3), 0).layout == Laid(After8(), -3)
  {
    hide Sunk, Swapped;
    SinksTo(risen, -3, 0, -1);
    var row3 := [Node(8, 3), Node(6, 0), Node(5, 7), Node(4, 5), Node(3, 4), Node(3, 1), Node(1, 6), Node(2, 2)];
    assert Exchanged(risen, -3, 0, -1) == row3;
    SinksNoFurther(row3, -3, -1);
  }

  lemma NinthPush(nodes: seq<Node>)
    requires nodes == After8()
    ensures Pushed(Laid(nodes, -3), 8, 6) == Laid(After9(), -4)
  {
    hide Risen, Sunk, Pushed, Swapped, Laid, After9;
    PushedNext(nodes, -3, 8, 6);
    var grown := [Node(6, 8), Node(8, 3), Node(6, 0), Node(5, 7), Node(4, 5), Node(3, 4), Node(3, 1),
                  Node(1, 6), Node(2, 2)];
    assert [Node(6, 8)] + nodes == grown;
    RisesNoFurther(grown, -4, -4);
    NinthSinks(grown);
  }

  lemma NinthSinks(risen: seq<Node>)
    requires risen == [Node(6, 8), Node(8, 3), Node(6, 0), Node(5, 7), Node(4, 5), Node(3, 4), Node(3, 1),
                       Node(1, 6), Node(2, 2)]
    ensures Sunk(Laid(risen, -4), -4).layout == Laid(After9(), -4)
  {
    hide Sunk, Swapped;
    SinksNoFurther(risen, -4, -4);
  }

  // After the first n samples, in a window of nine, the nodes are those.
  ghost predicate IsAfter(data: seq<int>, n: nat, nodes: seq<Node>, low: int) {
    n <= |data| && LayoutAfter(data[..n], 9) == Laid(nodes, low)
  }

  lemma NextLayout(data: seq<int>, n: nat, x: int, nodes: seq<Node>, low: int, next: seq<Node>, nextLow: int)
    requires n < |data| && n < 9 && data[n] == x && IsAfter(data, n, nodes, low)
    requires Pushed(Laid(nodes, low), n, x) == Laid(next, nextLow)
    ensures IsAfter(data, n + 1, next, nextLow)
  {
    hide Laid, LayoutAfter, Pushed, TurnOf, Failures;
    FirstRound(n, 9);
    OneSampleMore(data, n, 9);
  }

  lemma FirstTwoInPlace(data: seq<int>)
    requires data == [6, 3]
    ensures LayoutAfter(data, 9) == Laid(After2(), 0)
  {
    assert Filled(data) == Laid(After2(), 0);
    assert HeapOrdered(Filled(data));
    hide *;
    assert |data| == 2;
    FillsInPlace(data, 9);
  }

  lemma TiedLayout(data: seq<int>)
    requires data == Tied()
    ensures LayoutAfter(data, 9) == Laid(After9(), -4)
  {
    assert data[..2] == [6, 3] && data[..9] == data;
    FirstTwoInPlace(data[..2]);
    hide Laid, LayoutAfter;
    AllPushes(data);
  }

  lemma AllPushes(data: seq<int>)
    requires |data| == 9 && data[2] == 2 && data[3] == 8 && data[4] == 3 && data[5] == 4
    requires data[6] == 1 && data[7] == 5 && data[8] == 6 && IsAfter(data, 2, After2(), 0)
    ensures IsAfter(data, 9, After9(), -4)
  {
    hide *;
    ThirdPush(After2());
    NextLayout(data, 2, 2, After2(), 0, After3(), -1);
    FourthPush(After3());
    NextLayout(data, 3, 8, After3(), -1, After4(), -1);
    FifthPush(After4());
    NextLayout(data, 4, 3, After4(), -1, After5(), -2);
    SixthPush(After5());
    NextLayout(data, 5, 4, After5(), -2, After6(), -2);
    SeventhPush(After6());
    NextLayout(data, 6, 1, After6(), -2, After7(), -3);
    EighthPush(After7());
    NextLayout(data, 7, 5, After7(), -3, After8(), -3);
    NinthPush(After8());
    NextLayout(data, 8, 6, After8(), -3, After9(), -4);
  }

  // ---------- The failure ----------

  ghost predicate HoldsTied(h: Layout) {
    && (forall p :: p in h <==> -4 <= p <= 4)
    && h[0].data == 4 && h[1].data == h[2].data == 3 && h[3].data == 1 && h[4].data == 2
    && h[-1].data == 5 && h[-2].data == 6 && h[-3].data == 8 && h[-4].data == 6
  }

  lemma TiedData(h: Layout)
    requires h == Laid(After9(), -4)
    ensures HoldsTied(h)
  {
    assert forall p :: p in h <==> Within(After9(), -4, p);
  }

  lemma TiedInOrder(h: Layout)
    requires HoldsTied(h)
    ensures Spans(h, -5, 5) && 0 in h && HeapOrdered(h)
    ensures forall p | p in h && p != 0 :: h[p].data != h[0].data
    ensures h[0].data == 4 && 1 in h && 2 in h && h[1].data == h[2].data == 3
  {
    hide Inward;
    forall p | p in h && p != 0 ensures EdgeHolds(h, p) {
      InwardOfNine(p);
    }
  }

  lemma TiedEntered(h: Layout)
    requires HoldsTied(h)
    ensures 0 in h && EnteredSide(h, 0, 1, {}) == 6 && EnteredSide(h, 0, -1, {}) == 4 && Entered(h, 0, {}) == 11
  {
    LeafIsEnteredOnce(h, 3);
    LeafIsEnteredOnce(h, 4);
    LeafIsEnteredOnce(h, -2);
    LeafIsEnteredOnce(h, -3);
    LeafIsEnteredOnce(h, -4);
    assert Entered(h, 1, {}) == 3 && Entered(h, -1, {}) == 3;
  }

  // The equal neighbours end up side by side: the walk collects one twice and the other never, and the
  // median is not in the middle of the eleven values.
  lemma EqualNeighboursMislead(h: Layout)
    requires h == LayoutAfter(Tied(), 9)
    ensures Spans(h, -5, 5) && 0 in h && h[0].data == 4 && 1 in h && 2 in h && h[1].data == h[2].data == 3
    ensures |Visits(h, -5, 5, 0)| == 11 && Middle(Values(h, Visits(h, -5, 5, 0))) != 4
    ensures !Centred(h) && Failures(Tied(), 9) == 1
  {
    hide *;
    TiedLayout(Tied());
    TiedData(h);
    TiedInOrder(h);
    TiedEntered(h);
    CentredWithoutTies(h, -5, 5);
    CentredIffMiddle(h, -5, 5);
    VisitsAreEntered(h, -5, 5);
    TiedFail(h);
  }

  lemma VisitsAreEntered(h: Layout, low: int, high: int)
    requires Spans(h, low, high) && 0 in h
    ensures |Visits(h, low, high, 0)| == Entered(h, 0, {})
  {
    EnteredIsCollected(h, low, high, 0, {});
    hide Visits, Entered;
    CountButNone(Values(h, Visits(h, low, high, 0)), {});
  }

  lemma TiedFail(h: Layout)
    requires h == LayoutAfter(Tied(), 9) && 0 in h && !Centred(h)
    ensures Failures(Tied(), 9) == 1
  {
    var tied := Tied();
    assert |tied| == 9;
    assert IsOffCentre(h);
    hide *;
    FirstFullWindow(tied, 9);
  }}
