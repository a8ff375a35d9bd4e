/** How many samples the traversal of a double heap collects, and when the median is in the middle of
them. */
module SampleCounts {
  import opened DoubleHeapOrder
  import opened DoubleHeapRuns
  import opened DoubleHeapTests
  import opened Ranks

  lemma FewerOuterKids(h: Layout, i: int, side: int)
    requires HasSide(i, side)
    ensures Near(i, side) in h ==> Outer(h, Near(i, side)) < Outer(h, i)
    ensures Far(i, side) in h ==> Outer(h, Far(i, side)) < Outer(h, i)
  {
    if Near(i, side) in h {
      FewerOuter(h, i, Near(i, side), h);
    }
    if Far(i, side) in h {
      FewerOuter(h, i, Far(i, side), h);
    }
  }

  // How often the traversal from i enters a position, not counting those whose data is in but.
  function Entered(h: Layout, i: int, but: set<int>): nat
    requires i in h
    decreases Outer(h, i), 1
  {
    (if h[i].data in but then 0 else 1) + EnteredSide(h, i, 1, but) + EnteredSide(h, i, -1, but)
  }

  // On one side: with equal data at both neighbours the near one's tree is entered twice and the
  // far one's not at all.
  function EnteredSide(h: Layout, i: int, side: int, but: set<int>): nat
    requires i in h
    decreases Outer(h, i), 0
  {
    if !HasSide(i, side) then 0
    else
      var near, far := Near(i, side), Far(i, side);
      FewerOuterKids(h, i, side);
      var nearCount := if near in h then Entered(h, near, but) else 0;
      var farCount := if far in h then Entered(h, far, but) else 0;
      if near in h && far in h && h[near].data == h[far].data then 2 * nearCount else nearCount + farCount
  }

  // How many of the values are not in but.
  function CountBut(s: seq<int>, but: set<int>): nat {
    if s == [] then 0 else (if s[0] in but then 0 else 1) + CountBut(s[1..], but)
  }

  lemma {:induction false} CountButConcat(a: seq<int>, b: seq<int>, but: set<int>)
    ensures CountBut(a + b, but) == CountBut(a, but) + CountBut(b, but)
  {
    if a == [] {
      assert a + b == b;
    } else {
      assert (a + b)[1..] == a[1..] + b;
      CountButConcat(a[1..], b, but);
    }
  }

  lemma {:induction false} CountButNone(s: seq<int>, but: set<int>)
    requires forall k | 0 <= k < |s| :: s[k] !in but
    ensures CountBut(s, but) == |s|
  {
    if s != [] {
      CountButNone(s[1..], but);
    }
  }

  // The counts are those of the data the traversal collects.
  lemma {:induction false} EnteredIsCollected(h: Layout, low: int, high: int, i: int, but: set<int>)
    requires Spans(h, low, high) && i in h
    ensures CountBut(Values(h, Visits(h, low, high, i)), but) == Entered(h, i, but)
    decreases high - low - Abs(i), 1
  {
    var up, down := SideVisits(h, low, high, i, 1), SideVisits(h, low, high, i, -1);
    VisitsAroundMiddle(h, low, high, i);
    if i >= 0 {
      SideIsCollected(h, low, high, i, 1, but);
    }
    if i <= 0 {
      SideIsCollected(h, low, high, i, -1, but);
    }
    hide Visits, VisitsSide;
    ValuesOfConcat(h, up, [i]);
    ValuesOfConcat(h, up + [i], down);
    CountButConcat(Values(h, up), Values(h, [i]), but);
    CountButConcat(Values(h, up + [i]), Values(h, down), but);
    assert Values(h, [i]) == [h[i].data];
  }

  lemma {:induction false} SideIsCollected(h: Layout, low: int, high: int, i: int, side: int, but: set<int>)
    requires Spans(h, low, high) && i in h && HasSide(i, side)
    ensures CountBut(Values(h, VisitsSide(h, low, high, i, side)), but) == EnteredSide(h, i, side, but)
    decreases high - low - Abs(i), 0
  {
    var near, far := Near(i, side), Far(i, side);
    TreeSideSplits(h, low, high, i, side);
    KidsAreOuter(i, side, near);
    KidsAreOuter(i, side, far);
    hide Near, Far, Tree, TreeSide, Visits, Entered, HasSide;
    if near in h {
      EnteredIsCollected(h, low, high, near, but);
    }
    if far in h {
      EnteredIsCollected(h, low, high, far, but);
      var s, l := Smaller(h, far, near), Larger(h, far, near);
      ValuesOfConcat(h, Visits(h, low, high, s), Visits(h, low, high, l));
      CountButConcat(Values(h, Visits(h, low, high, s)), Values(h, Visits(h, low, high, l)), but);
    }
  }

  // At most half of the positions entered hold less than the root, and fewer than the other half more.
  predicate Centred(h: Layout)
    requires 0 in h
  {
    var root := {h[0].data};
    var all := 1 + EnteredSide(h, 0, 1, {}) + EnteredSide(h, 0, -1, {});
    EnteredSide(h, 0, 1, root) <= all / 2 && EnteredSide(h, 0, -1, root) < all - all / 2
  }

  // What the traversal from the root collects on one side: as many values as positions entered, none
  // of them on the wrong side of the root's, and all but the ties on the right side.
  lemma SideOfRoot(h: Layout, low: int, high: int, side: int)
    requires Spans(h, low, high) && HeapOrdered(h) && HasSide(0, side)
    ensures var s := Values(h, VisitsSide(h, low, high, 0, side));
            && |s| == EnteredSide(h, 0, side, {})
            && CountBelow(s, h[0].data) == (if side > 0 then EnteredSide(h, 0, 1, {h[0].data}) else 0)
            && CountAbove(s, h[0].data) == (if side > 0 then 0 else EnteredSide(h, 0, -1, {h[0].data}))
  {
    var s, x := Values(h, VisitsSide(h, low, high, 0, side)), h[0].data;
    SideIsCollected(h, low, high, 0, side, {});
    SideIsCollected(h, low, high, 0, side, {x});
    SideIsBeyondRoot(h, low, high, side);
    hide *;
    CountButNone(s, {});
    CountOneSided(s, x);
    CountNone(s, x);
  }

  lemma SideIsBeyondRoot(h: Layout, low: int, high: int, side: int)
    requires Spans(h, low, high) && HeapOrdered(h) && HasSide(0, side)
    ensures forall y | y in Values(h, VisitsSide(h, low, high, 0, side)) ::
              if side > 0 then y <= h[0].data else y >= h[0].data
  {
    var visits := VisitsSide(h, low, high, 0, side);
    VisitsSideStay(h, low, high, 0, side);
    forall k | 0 <= k < |visits|
      ensures if side > 0 then DataAt(h, visits[k]) <= h[0].data else DataAt(h, visits[k]) >= h[0].data
    {
      assert visits[k] in visits;
      RootSeparates(h, low, high, visits[k]);
    }
    hide VisitsSide, HeapOrdered;
  }

  lemma {:induction false} CountOneSided(s: seq<int>, x: int)
    ensures (forall y | y in s :: y <= x) ==> CountBelow(s, x) == CountBut(s, {x})
    ensures (forall y | y in s :: y >= x) ==> CountAbove(s, x) == CountBut(s, {x})
  {
    if s != [] {
      assert s[0] in s;
      assert forall y | y in s[1..] :: y in s;
      CountOneSided(s[1..], x);
    }
  }

  // The median is in the middle of the collected samples exactly if the layout is centred.
  lemma CentredIffMiddle(h: Layout, low: int, high: int)
    requires Spans(h, low, high) && HeapOrdered(h)
    ensures Middle(Values(h, Visits(h, low, high, 0))) == h[0].data <==> Centred(h)
  {
    var x := h[0].data;
    var up, down := VisitsSide(h, low, high, 0, 1), VisitsSide(h, low, high, 0, -1);
    assert Visits(h, low, high, 0) == up + [0] + down;
    assert Values(h, [0]) == [x];
    SideOfRoot(h, low, high, 1);
    SideOfRoot(h, low, high, -1);
    hide Visits, VisitsSide, Middle, HeapOrdered, Values, EnteredSide;
    ValuesOfConcat(h, up, [0]);
    ValuesOfConcat(h, up + [0], down);
    CountConcat(Values(h, up), [x], x);
    CountConcat(Values(h, up) + [x], Values(h, down), x);
    MiddleByCounting(Values(h, up) + [x] + Values(h, down), x);
  }

  // Where no other value equals the root's, a layout is centred exactly if as many positions are
  // entered above the root as below it, or one more below.
  lemma CentredWithoutTies(h: Layout, low: int, high: int)
    requires Spans(h, low, high) && forall p | p in h && p != 0 :: h[p].data != h[0].data
    ensures Centred(h) <==> 0 <= EnteredSide(h, 0, 1, {}) - EnteredSide(h, 0, -1, {}) <= 1
  {
    UntiedSide(h, low, high, 1);
    UntiedSide(h, low, high, -1);
    hide EnteredSide;
  }

  lemma UntiedSide(h: Layout, low: int, high: int, side: int)
    requires Spans(h, low, high) && HasSide(0, side) && forall p | p in h && p != 0 :: h[p].data != h[0].data
    ensures EnteredSide(h, 0, side, {h[0].data}) == EnteredSide(h, 0, side, {})
  {
    var visits, x := VisitsSide(h, low, high, 0, side), h[0].data;
    VisitsSideStay(h, low, high, 0, side);
    assert forall k | 0 <= k < |visits| :: visits[k] in visits;
    assert forall k | 0 <= k < |visits| :: Values(h, visits)[k] != x;
    SideIsCollected(h, low, high, 0, side, {});
    SideIsCollected(h, low, high, 0, side, {x});
    hide *;
    CountButNone(Values(h, visits), {});
    CountButNone(Values(h, visits), {x});
  }
}
