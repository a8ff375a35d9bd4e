/** Where a sinking value goes, and what it leaves behind. */
module Sinking {
  import opened DoubleHeapOrder
  import opened DoubleHeapRuns
  import opened DoubleHeapTests

  // Of two outer neighbours the far one is taken only if it has to come first: between equal ones
  // it is the near one.
  lemma FarOnlyIfFirst(h: Layout, i: int)
    ensures OutwardT1(h, i) == Daughter(i) <==>
              Daughter(i) in h && Son(i) in h && h[Daughter(i)].data > h[Son(i)].data
    ensures OutwardT1(h, i) != Daughter(i) ==> OutwardT1(h, i) == Son(i)
    ensures OutwardT2(h, i) == Mother(i) <==>
              Mother(i) in h && Father(i) in h && h[Mother(i)].data < h[Father(i)].data
    ensures OutwardT2(h, i) != Mother(i) ==> OutwardT2(h, i) == Father(i)
  {}

  // g differs from h only in the tree that hangs from i.
  ghost predicate SameOutside(h: Layout, g: Layout, i: int) {
    g.Keys == h.Keys && forall p | p in h && !Under(p, i) :: g[p] == h[p]
  }

  lemma OutwardIsUnder(h: Layout, i: int)
    ensures i >= 0 ==> OutwardT1(h, i) > i && Inward(OutwardT1(h, i)) == i
    ensures i <= 0 ==> OutwardT2(h, i) < i && Inward(OutwardT2(h, i)) == i
  {
    InwardOfOuter(i);
    FarOnlyIfFirst(h, i);
    hide Inward, OutwardT1, OutwardT2;
  }

  // After one swap, the rest happens in the tree it leads into.
  lemma OneSwapOutward(h: Layout, g: Layout, i: int, j: int)
    requires i in h && j in h && j != 0 && Inward(j) == i && SameOutside(Swapped(h, i, j), g, j)
    ensures SameOutside(h, g, i) && g[i] == h[j]
    ensures forall p | p in h && p != i && !Under(p, j) :: g[p] == h[p]
  {
    assert !Under(i, j) by {
      if Under(i, j) {
        UnderIsFurtherOut(i, j);
      }
    }
    assert Under(i, i);
    forall p | Under(p, j) ensures Under(p, i) {
      UnderIsTransitive(p, j, i);
    }
    hide Under, Inward;
  }

  // A value sinks within the tree that hangs from it.
  lemma {:induction false} SinksInItsTree(h: Layout, i: int)
    ensures SameOutside(h, Sunk(h, i).layout, i)
    decreases Outer(h, i)
  {
    if GoesT2(h, i) || GoesT1(h, i) {
      var j := if GoesT2(h, i) then OutwardT2(h, i) else OutwardT1(h, i);
      OutwardIsUnder(h, i);
      FewerOuter(h, i, j, Swapped(h, i, j));
      SinksInItsTree(Swapped(h, i, j), j);
      hide SameOutside, Inward, OutwardT1, OutwardT2, Swapped;
      OneSwapOutward(h, Sunk(Swapped(h, i, j), j).layout, i, j);
    }
  }

  // A value that has to sink moves the neighbour that comes first inward by one, and leaves everything
  // outside that neighbour's tree where it was.
  lemma SinkingMovesOneIn(h: Layout, i: int)
    requires GoesT2(h, i) || GoesT1(h, i)
    ensures var j := if GoesT2(h, i) then OutwardT2(h, i) else OutwardT1(h, i);
            var g := Sunk(h, i).layout;
            && g.Keys == h.Keys && g[i] == h[j]
            && forall p | p in h && p != i && !Under(p, j) :: g[p] == h[p]
  {
    var j := if GoesT2(h, i) then OutwardT2(h, i) else OutwardT1(h, i);
    OutwardIsUnder(h, i);
    SinksInItsTree(Swapped(h, i, j), j);
    hide Inward, OutwardT1, OutwardT2, Under, Swapped;
    OneSwapOutward(h, Sunk(Swapped(h, i, j), j).layout, i, j);
  }

  // Past two equal neighbours it sinks on the near side: the near one moves in, the far one and its tree stay.
  lemma SinksPastEqual(h: Layout, i: int, side: int)
    requires HasSide(i, side) && Near(i, side) in h && Far(i, side) in h
    requires h[Near(i, side)].data == h[Far(i, side)].data
    requires if side < 0 then GoesT2(h, i) else GoesT1(h, i) && !GoesT2(h, i)
    ensures var g := Sunk(h, i).layout;
            && g.Keys == h.Keys && g[i] == h[Near(i, side)]
            && forall p | p in h && Under(p, Far(i, side)) :: g[p] == h[p]
  {
    var near, far := Near(i, side), Far(i, side);
    FarOnlyIfFirst(h, i);
    SinkingMovesOneIn(h, i);
    KidsAreOuter(i, side, near);
    KidsAreOuter(i, side, far);
    hide OutwardT1, OutwardT2, Inward, Sunk;
    forall p | Under(p, far) ensures !Under(p, near) && p != i {
      SiblingsShareNothing(p, near, far);
      UnderIsFurtherOut(p, far);
    }
  }
}
