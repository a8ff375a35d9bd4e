/** The double heap's own checks: a validator of its order and a traversal of its samples. */
module DoubleHeapTests {
  import opened DoubleHeapOrder
  import opened DoubleHeaps
  import opened Sequences
  import opened Sorting

  // The two neighbours of i one level further out, on the given side of the root.
  function Near(i: int, side: int): int {
    if side > 0 then Son(i) else Father(i)
  }

  function Far(i: int, side: int): int {
    if side > 0 then Daughter(i) else Mother(i)
  }

  function Abs(i: int): nat {
    if i < 0 then -i else i
  }

  // p lies in the part of the tree hanging from i.
  ghost predicate Under(p: int, i: int)
    decreases Abs(p)
  {
    p == i || (p != 0 && Under(Inward(p), i))
  }

  // Whether the tree at i continues on the given side.
  predicate HasSide(i: int, side: int) {
    (side == 1 && i >= 0) || (side == -1 && i <= 0)
  }

  lemma {:induction false} UnderIsFurtherOut(p: int, i: int)
    requires Under(p, i)
    ensures Abs(i) <= Abs(p) && (i != 0 ==> SameSide(p, i))
    decreases Abs(p)
  {
    if p != i {
      UnderIsFurtherOut(Inward(p), i);
    }
  }

  function SideOf(p: int): int {
    if p > 0 then 1 else -1
  }

  lemma {:induction false} UnderGoesThrough(p: int, i: int)
    requires Under(p, i) && p != i
    ensures HasSide(i, SideOf(p))
    ensures Under(p, Near(i, SideOf(p))) || Under(p, Far(i, SideOf(p)))
    decreases Abs(p)
  {
    if Inward(p) == i {
      assert p == Near(i, SideOf(p)) || p == Far(i, SideOf(p));
    } else {
      UnderGoesThrough(Inward(p), i);
    }
  }

  lemma {:induction false} UnderIsTransitive(p: int, k: int, i: int)
    requires Under(p, k) && Under(k, i)
    ensures Under(p, i)
    decreases Abs(p)
  {
    if p != k {
      UnderIsTransitive(Inward(p), k, i);
    }
  }

  lemma {:induction false} EverythingIsUnderRoot(p: int)
    ensures Under(p, 0)
    decreases Abs(p)
  {
    if p != 0 {
      EverythingIsUnderRoot(Inward(p));
    }
  }

  // The trees at two neighbours on the same level share no position.
  lemma {:induction false} SiblingsShareNothing(p: int, j: int, k: int)
    requires j != 0 && k != 0 && j != k && Inward(j) == Inward(k)
    ensures !(Under(p, j) && Under(p, k))
    decreases Abs(p)
  {
    if Under(p, j) && Under(p, k) {
      UnderIsFurtherOut(p, j);
      UnderIsFurtherOut(p, k);
      if p == j {
        UnderIsFurtherOut(Inward(p), k);
      } else if p == k {
        UnderIsFurtherOut(Inward(p), j);
      } else {
        SiblingsShareNothing(Inward(p), j, k);
      }
    }
  }

  // All edges in the tree at i hold.
  ghost predicate OrderedUnder(h: Layout, i: int) {
    forall p | p in h && p != 0 && p != i && Under(p, i) :: EdgeHolds(h, p)
  }

  // ---------- Validation ----------

  // validate: whether none of its assertions fails from position i outward.
  predicate Validates(h: Layout, low: int, high: int, i: int)
    requires Spans(h, low, high) && i in h
    decreases high - low - Abs(i), 1
  {
    (i <= 0 ==> ValidatesSide(h, low, high, i, -1)) && (i >= 0 ==> ValidatesSide(h, low, high, i, 1))
  }

  predicate ValidatesSide(h: Layout, low: int, high: int, i: int, side: int)
    requires Spans(h, low, high) && i in h && HasSide(i, side)
    decreases high - low - Abs(i), 0
  {
    var far, near := Far(i, side), Near(i, side);
    && (far in h ==> Before(h[i], h[far], side) && Validates(h, low, high, far))
    && (near in h ==> Before(h[i], h[near], side) && Validates(h, low, high, near))
  }

  ghost predicate KidsOrdered(h: Layout, i: int, side: int) {
    HasSide(i, side) ==>
      && (Far(i, side) in h ==> EdgeHolds(h, Far(i, side)) && OrderedUnder(h, Far(i, side)))
      && (Near(i, side) in h ==> EdgeHolds(h, Near(i, side)) && OrderedUnder(h, Near(i, side)))
  }

  lemma OrderedUnderKids(h: Layout, low: int, high: int, i: int)
    requires Spans(h, low, high) && i in h
    ensures OrderedUnder(h, i) <==> KidsOrdered(h, i, 1) && KidsOrdered(h, i, -1)
  {
    if KidsOrdered(h, i, 1) && KidsOrdered(h, i, -1) {
      forall p | p in h && p != 0 && p != i && Under(p, i) ensures EdgeHolds(h, p) {
        UnderGoesThrough(p, i);
        var side := SideOf(p);
        var k := if Under(p, Near(i, side)) then Near(i, side) else Far(i, side);
        UnderIsFurtherOut(p, k);
      }
    }
    if OrderedUnder(h, i) {
      OrderedUnderKid(h, i, 1);
      OrderedUnderKid(h, i, -1);
    }
  }

  lemma KidsAreOuter(i: int, side: int, k: int)
    requires HasSide(i, side) && (k == Near(i, side) || k == Far(i, side))
    ensures k != 0 && Inward(k) == i && Under(k, i) && SameSide(k, side) && Abs(i) < Abs(k)
  {
    assert k != 0 && SameSide(k, side) && Abs(i) < Abs(k);
    InwardOfOuter(i);
    assert Inward(k) == i by {
      hide Inward;
    }
    hide Inward, Near, Far;
    assert Under(i, i);
  }

  lemma OrderedUnderKid(h: Layout, i: int, side: int)
    requires OrderedUnder(h, i) && (side == 1 || side == -1)
    ensures KidsOrdered(h, i, side)
  {
    if HasSide(i, side) {
      OrderedUnderOuter(h, i, side, Near(i, side));
      OrderedUnderOuter(h, i, side, Far(i, side));
    }
  }

  lemma OrderedUnderOuter(h: Layout, i: int, side: int, k: int)
    requires OrderedUnder(h, i) && HasSide(i, side)
    requires k == Near(i, side) || k == Far(i, side)
    ensures OrderedUnder(h, k) && (k in h ==> k != 0 && EdgeHolds(h, k))
  {
    KidsAreOuter(i, side, k);
    hide EdgeHolds, Near, Far, Inward, Under;
    forall p | p in h && p != 0 && p != k && Under(p, k) ensures EdgeHolds(h, p) {
      UnderIsTransitive(p, k, i);
      UnderIsFurtherOut(p, k);
    }
  }

  // Validation from i outward succeeds exactly when every edge further out holds.
  lemma {:induction false} ValidatesIffOrderedUnder(h: Layout, low: int, high: int, i: int)
    requires Spans(h, low, high) && i in h
    ensures Validates(h, low, high, i) <==> OrderedUnder(h, i)
    decreases high - low - Abs(i), 1
  {
    OrderedUnderKids(h, low, high, i);
    hide OrderedUnder, KidsOrdered, ValidatesSide, EdgeHolds;
    if i >= 0 {
      ValidatesSideIffKidsOrdered(h, low, high, i, 1);
    }
    if i <= 0 {
      ValidatesSideIffKidsOrdered(h, low, high, i, -1);
    }
    NoKidsThere(h, i);
  }

  lemma NoKidsThere(h: Layout, i: int)
    ensures i > 0 ==> KidsOrdered(h, i, -1)
    ensures i < 0 ==> KidsOrdered(h, i, 1)
  {}

  lemma {:induction false} ValidatesSideIffKidsOrdered(h: Layout, low: int, high: int, i: int, side: int)
    requires Spans(h, low, high) && i in h && HasSide(i, side)
    ensures ValidatesSide(h, low, high, i, side) <==> KidsOrdered(h, i, side)
    decreases high - low - Abs(i), 0
  {
    var near, far := Near(i, side), Far(i, side);
    KidsAreOuter(i, side, near);
    KidsAreOuter(i, side, far);
    hide OrderedUnder, Validates, Near, Far, Inward, Under;
    if far in h {
      ValidatesIffOrderedUnder(h, low, high, far);
    }
    if near in h {
      ValidatesIffOrderedUnder(h, low, high, near);
    }
  }

  lemma ValidatesIffHeapOrdered(h: Layout, low: int, high: int)
    requires Spans(h, low, high)
    ensures Validates(h, low, high, 0) <==> HeapOrdered(h)
  {
    ValidatesIffOrderedUnder(h, low, high, 0);
    forall p ensures Under(p, 0) {
      EverythingIsUnderRoot(p);
    }
  }

  // ---------- Collecting the samples ----------

  // getSamples: the positions visited from i outward, in order.
  function Visits(h: Layout, low: int, high: int, i: int): seq<int>
    requires Spans(h, low, high) && i in h
    decreases high - low - Abs(i), 1
  {
    if i > 0 then VisitsSide(h, low, high, i, 1) + [i]
    else if i < 0 then [i] + VisitsSide(h, low, high, i, -1)
    else VisitsSide(h, low, high, i, 1) + [i] + VisitsSide(h, low, high, i, -1)
  }

  function VisitsSide(h: Layout, low: int, high: int, i: int, side: int): seq<int>
    requires Spans(h, low, high) && i in h && HasSide(i, side)
    decreases high - low - Abs(i), 0
  {
    var far, near := Far(i, side), Near(i, side);
    if far in h then
      Visits(h, low, high, Smaller(h, far, near)) + Visits(h, low, high, Larger(h, far, near))
    else if near in h then
      Visits(h, low, high, near)
    else
      []
  }

  ghost function Tree(h: Layout, i: int): set<int> {
    set p | p in h && Under(p, i)
  }

  ghost function TreeSide(h: Layout, i: int, side: int): set<int> {
    set p | p in h && p != i && SameSide(p, side) && Under(p, i)
  }

  // No two neighbours on the same level hold equal data, anywhere in the tree at i.
  ghost predicate SiblingsDiffer(h: Layout, i: int) {
    forall p | p in Tree(h, i) :: SiblingsDifferAt(h, p, 1) && SiblingsDifferAt(h, p, -1)
  }

  ghost predicate SiblingsDifferAt(h: Layout, i: int, side: int) {
    HasSide(i, side) && Far(i, side) in h && Near(i, side) in h ==>
      h[Far(i, side)].data != h[Near(i, side)].data
  }

  // Every position of the tree at i is visited exactly once, and no other.
  ghost predicate Once(h: Layout, low: int, high: int, i: int)
    requires Spans(h, low, high) && i in h
  {
    multiset(Visits(h, low, high, i)) == multiset(Tree(h, i))
  }

  ghost predicate OnceSide(h: Layout, low: int, high: int, i: int, side: int)
    requires Spans(h, low, high) && i in h && HasSide(i, side)
  {
    multiset(VisitsSide(h, low, high, i, side)) == multiset(TreeSide(h, i, side))
  }

  lemma TreeSplits(h: Layout, i: int)
    requires i in h
    ensures Tree(h, i) == {i} + TreeSide(h, i, 1) + TreeSide(h, i, -1)
    ensures i > 0 ==> TreeSide(h, i, -1) == {}
    ensures i < 0 ==> TreeSide(h, i, 1) == {}
  {
    forall p | p in Tree(h, i) && p != i ensures SameSide(p, 1) || SameSide(p, -1) {
      UnderIsFurtherOut(p, i);
    }
    forall p | p in h && i != 0 && Under(p, i) ensures SameSide(p, i) {
      UnderIsFurtherOut(p, i);
    }
  }

  lemma TreeSideSplits(h: Layout, low: int, high: int, i: int, side: int)
    requires Spans(h, low, high) && i in h && HasSide(i, side)
    ensures TreeSide(h, i, side) == Tree(h, Near(i, side)) + Tree(h, Far(i, side))
    ensures Tree(h, Near(i, side)) !! Tree(h, Far(i, side))
    ensures Near(i, side) !in h ==> Tree(h, Near(i, side)) == {}
    ensures Far(i, side) !in h ==> Tree(h, Far(i, side)) == {}
    ensures Far(i, side) in h ==> Near(i, side) in h
  {
    var near, far := Near(i, side), Far(i, side);
    assert far in h ==> near in h;
    assert near != far;
    KidsAreOuter(i, side, near);
    KidsAreOuter(i, side, far);
    hide Near, Far, Inward, Under;
    forall p ensures !(p in Tree(h, near) && p in Tree(h, far)) {
      SiblingsShareNothing(p, near, far);
    }
    forall p | p in h
      ensures Under(p, near) || Under(p, far) <==> p != i && SameSide(p, side) && Under(p, i)
      ensures Under(p, near) ==> near in h
      ensures Under(p, far) ==> far in h
    {
      TreeSideMember(h, low, high, i, side, p);
    }
  }

  lemma TreeSideMember(h: Layout, low: int, high: int, i: int, side: int, p: int)
    requires Spans(h, low, high) && i in h && HasSide(i, side) && p in h
    ensures Under(p, Near(i, side)) || Under(p, Far(i, side))
       <==> p != i && SameSide(p, side) && Under(p, i)
    ensures Under(p, Near(i, side)) ==> Near(i, side) in h
    ensures Under(p, Far(i, side)) ==> Far(i, side) in h
  {
    UnderOuter(h, low, high, i, side, Near(i, side), p);
    UnderOuter(h, low, high, i, side, Far(i, side), p);
    hide Inward, Under, Near, Far;
    if p != i && SameSide(p, side) && Under(p, i) {
      UnderGoesThrough(p, i);
    }
  }

  lemma UnderOuter(h: Layout, low: int, high: int, i: int, side: int, k: int, p: int)
    requires Spans(h, low, high) && i in h && HasSide(i, side) && p in h
    requires k == Near(i, side) || k == Far(i, side)
    ensures Under(p, k) ==> p != i && SameSide(p, side) && Under(p, i) && k in h
  {
    hide Inward, Under, Near, Far;
    KidsAreOuter(i, side, k);
    if Under(p, k) {
      UnderIsFurtherOut(p, k);
      UnderIsTransitive(p, k, i);
    }
  }

  ghost predicate Inside(v: seq<int>, s: set<int>) {
    forall x | x in v :: x in s
  }

  // Two disjoint parts are each listed once exactly when their union is.
  lemma PartsOfUnion(a: seq<int>, b: seq<int>, s: set<int>, t: set<int>)
    requires s !! t && Inside(a, s) && Inside(b, t)
    ensures multiset(a + b) == multiset(s + t)
       <==> multiset(a) == multiset(s) && multiset(b) == multiset(t)
  {
    if multiset(a + b) == multiset(s + t) {
      forall x ensures multiset(a)[x] == multiset(s)[x] && multiset(b)[x] == multiset(t)[x] {
        assert multiset(a + b)[x] == multiset(a)[x] + multiset(b)[x];
        assert x in a <==> x in multiset(a);
        assert x in b <==> x in multiset(b);
      }
    } else {
      assert multiset(s + t) == multiset(s) + multiset(t);
    }
  }

  lemma {:induction false} VisitsStay(h: Layout, low: int, high: int, i: int)
    requires Spans(h, low, high) && i in h
    ensures Inside(Visits(h, low, high, i), Tree(h, i))
    decreases high - low - Abs(i), 1
  {
    TreeSplits(h, i);
    hide Tree, TreeSide, VisitsSide;
    if i >= 0 {
      VisitsSideStay(h, low, high, i, 1);
    }
    if i <= 0 {
      VisitsSideStay(h, low, high, i, -1);
    }
  }

  lemma {:induction false} VisitsSideStay(h: Layout, low: int, high: int, i: int, side: int)
    requires Spans(h, low, high) && i in h && HasSide(i, side)
    ensures Inside(VisitsSide(h, low, high, i, side), TreeSide(h, i, side))
    decreases high - low - Abs(i), 0
  {
    TreeSideSplits(h, low, high, i, side);
    KidsAreOuter(i, side, Near(i, side));
    KidsAreOuter(i, side, Far(i, side));
    hide Tree, TreeSide, Visits, Near, Far, Inward, Under;
    if Near(i, side) in h {
      VisitsStay(h, low, high, Near(i, side));
    }
    if Far(i, side) in h {
      VisitsStay(h, low, high, Far(i, side));
    }
  }

  // The traversal from i visits each position of its tree exactly once if and only if no two
  // siblings in it hold equal data.
  lemma {:induction false} OnceIffSiblingsDiffer(h: Layout, low: int, high: int, i: int)
    requires Spans(h, low, high) && i in h
    ensures Once(h, low, high, i) <==> SiblingsDiffer(h, i)
    decreases high - low - Abs(i), 1
  {
    OnceIffSides(h, low, high, i);
    TreeSplits(h, i);
    hide Once, OnceSide, SiblingsDiffer, SiblingsDifferAt, Tree, TreeSide;
    if i >= 0 {
      OnceSideIffSiblingsDiffer(h, low, high, i, 1);
    }
    if i <= 0 {
      OnceSideIffSiblingsDiffer(h, low, high, i, -1);
    }
    SiblingsDifferSplits(h, i);
  }

  ghost predicate SiblingsDifferOn(h: Layout, i: int, side: int) {
    SiblingsDifferAt(h, i, side)
    && forall p | p in TreeSide(h, i, side) :: SiblingsDifferAt(h, p, 1) && SiblingsDifferAt(h, p, -1)
  }

  lemma SiblingsDifferSplits(h: Layout, i: int)
    requires i in h
    ensures SiblingsDiffer(h, i) <==>
              (i >= 0 ==> SiblingsDifferOn(h, i, 1)) && (i <= 0 ==> SiblingsDifferOn(h, i, -1))
  {
    TreeSplits(h, i);
    assert i > 0 ==> SiblingsDifferAt(h, i, -1);
    assert i < 0 ==> SiblingsDifferAt(h, i, 1);
    hide SiblingsDifferAt, Tree, TreeSide;
  }

  // VisitsSide, or nothing where the tree does not continue.
  function SideVisits(h: Layout, low: int, high: int, i: int, side: int): seq<int>
    requires Spans(h, low, high) && i in h
  {
    if HasSide(i, side) then VisitsSide(h, low, high, i, side) else []
  }

  lemma VisitsAroundMiddle(h: Layout, low: int, high: int, i: int)
    requires Spans(h, low, high) && i in h
    ensures Visits(h, low, high, i)
         == SideVisits(h, low, high, i, 1) + [i] + SideVisits(h, low, high, i, -1)
  {
    hide VisitsSide;
  }

  lemma SideVisitsStay(h: Layout, low: int, high: int, i: int, side: int)
    requires Spans(h, low, high) && i in h
    ensures Inside(SideVisits(h, low, high, i, side), TreeSide(h, i, side))
  {
    if HasSide(i, side) {
      VisitsSideStay(h, low, high, i, side);
    }
  }

  lemma OnceIffSides(h: Layout, low: int, high: int, i: int)
    requires Spans(h, low, high) && i in h
    ensures Once(h, low, high, i) <==>
              (i >= 0 ==> OnceSide(h, low, high, i, 1)) && (i <= 0 ==> OnceSide(h, low, high, i, -1))
  {
    TreeSplits(h, i);
    VisitsAroundMiddle(h, low, high, i);
    SideVisitsStay(h, low, high, i, 1);
    SideVisitsStay(h, low, high, i, -1);
    var up, down := TreeSide(h, i, 1), TreeSide(h, i, -1);
    assert i !in up && i !in down && up !! down;
    assert {i} + up + down == up + {i} + down;
    hide Tree, TreeSide, VisitsSide, Visits, Inside;
    PartsAroundMiddle(SideVisits(h, low, high, i, 1), i, SideVisits(h, low, high, i, -1), up, down);
  }

  lemma PartsAroundMiddle(a: seq<int>, x: int, b: seq<int>, s: set<int>, t: set<int>)
    requires x !in s && x !in t && s !! t && Inside(a, s) && Inside(b, t)
    ensures multiset(a + [x] + b) == multiset(s + {x} + t)
       <==> multiset(a) == multiset(s) && multiset(b) == multiset(t)
  {
    assert multiset([x]) == multiset({x});
    PartsOfUnion(a, [x], s, {x});
    PartsOfUnion(a + [x], b, s + {x}, t);
  }

  lemma {:induction false} OnceSideIffSiblingsDiffer(h: Layout, low: int, high: int, i: int, side: int)
    requires Spans(h, low, high) && i in h && HasSide(i, side)
    ensures OnceSide(h, low, high, i, side) <==> SiblingsDifferOn(h, i, side)
    decreases high - low - Abs(i), 0
  {
    var near, far := Near(i, side), Far(i, side);
    TreeSideSplits(h, low, high, i, side);
    KidsAreOuter(i, side, near);
    KidsAreOuter(i, side, far);
    hide Near, Far, Inward, Under, Once, SiblingsDiffer, Tree, TreeSide, Visits;
    DifferOnSplits(h, low, high, i, side);
    if far in h {
      OnceIffSiblingsDiffer(h, low, high, near);
      OnceIffSiblingsDiffer(h, low, high, far);
      OnceSideOfTwo(h, low, high, i, side);
    } else if near in h {
      OnceIffSiblingsDiffer(h, low, high, near);
      OnceSideOfOne(h, low, high, i, side);
    } else {
      OnceSideOfNone(h, low, high, i, side);
    }
  }

  lemma DifferOnSplits(h: Layout, low: int, high: int, i: int, side: int)
    requires Spans(h, low, high) && i in h && HasSide(i, side)
    ensures Far(i, side) in h ==> Near(i, side) in h
    ensures SiblingsDifferOn(h, i, side) <==>
              && (Far(i, side) in h ==>
                    h[Far(i, side)].data != h[Near(i, side)].data && SiblingsDiffer(h, Far(i, side)))
              && (Near(i, side) in h ==> SiblingsDiffer(h, Near(i, side)))
  {
    TreeSideSplits(h, low, high, i, side);
    var near, far := Near(i, side), Far(i, side);
    assert SiblingsDifferAt(h, i, side) <==> (far in h ==> h[far].data != h[near].data);
    hide Near, Far, Tree, TreeSide, SiblingsDifferAt;
  }

  lemma OnceSideOfTwo(h: Layout, low: int, high: int, i: int, side: int)
    requires Spans(h, low, high) && i in h && HasSide(i, side)
    requires Far(i, side) in h && Near(i, side) in h
    ensures OnceSide(h, low, high, i, side) <==>
              && h[Far(i, side)].data != h[Near(i, side)].data
              && Once(h, low, high, Far(i, side)) && Once(h, low, high, Near(i, side))
  {
    var near, far := Near(i, side), Far(i, side);
    TreeSideSplits(h, low, high, i, side);
    KidsAreOuter(i, side, far);
    assert far in Tree(h, far);
    hide Near, Far, Inward, Under, Tree, TreeSide, Visits;
    VisitsStay(h, low, high, near);
    VisitsStay(h, low, high, far);
    var vn, vf := Visits(h, low, high, near), Visits(h, low, high, far);
    PartsOfUnion(vn, vf, Tree(h, near), Tree(h, far));
    PartsOfUnion(vf, vn, Tree(h, far), Tree(h, near));
    assert Tree(h, near) + Tree(h, far) == Tree(h, far) + Tree(h, near);
    if h[far].data == h[near].data {
      assert far !in vn + vn;
      assert multiset(vn + vn)[far] == 0;
      assert far in TreeSide(h, i, side);
    }
  }

  lemma OnceSideOfOne(h: Layout, low: int, high: int, i: int, side: int)
    requires Spans(h, low, high) && i in h && HasSide(i, side)
    requires Far(i, side) !in h && Near(i, side) in h
    ensures OnceSide(h, low, high, i, side) <==> Once(h, low, high, Near(i, side))
  {
    TreeSideSplits(h, low, high, i, side);
    hide Near, Far, Tree, TreeSide, Visits;
  }

  lemma OnceSideOfNone(h: Layout, low: int, high: int, i: int, side: int)
    requires Spans(h, low, high) && i in h && HasSide(i, side)
    requires Far(i, side) !in h && Near(i, side) !in h
    ensures OnceSide(h, low, high, i, side)
  {
    TreeSideSplits(h, low, high, i, side);
    hide Near, Far, Tree, TreeSide, Visits;
  }

  function DataAt(h: Layout, i: int): int {
    if i in h then h[i].data else 0
  }

  // The data at a list of positions.
  function Values(h: Layout, positions: seq<int>): (r: seq<int>)
    ensures |r| == |positions|
  {
    seq(|positions|, k requires 0 <= k < |positions| => DataAt(h, positions[k]))
  }

  lemma ValuesOfConcat(h: Layout, a: seq<int>, b: seq<int>)
    ensures Values(h, a + b) == Values(h, a) + Values(h, b)
  {}

  lemma NoRepeats(v: seq<int>, s: set<int>, i: int, j: int)
    requires multiset(v) == multiset(s) && 0 <= i < j < |v|
    ensures v[i] != v[j]
  {
    assert v == v[..j] + [v[j]] + v[j + 1..];
    assert v[i] in v[..j];
    assert multiset(v)[v[j]] == multiset(v[..j])[v[j]] + 1 + multiset(v[j + 1..])[v[j]];
    assert multiset(v)[v[j]] == multiset(s)[v[j]] <= 1;
  }

  lemma {:induction false} RangeSize(s: set<int>, low: int, high: int)
    requires low < high && forall p :: p in s <==> low < p < high
    ensures |s| == high - low - 1
    decreases high - low
  {
    if low + 1 < high {
      RangeSize(s - {high - 1}, low, high - 1);
    } else {
      assert forall p :: p !in s;
      assert s == {};
    }
  }

  // If siblings differ, the samples collected from the root are exactly the data at the filled
  // positions, with the root's in the middle.
  lemma SamplesFromRoot(h: Layout, low: int, high: int)
    requires Spans(h, low, high) && SiblingsDiffer(h, 0)
    ensures var visits := Visits(h, low, high, 0);
            && |visits| == high - low - 1 && visits[high - 1] == 0
            && multiset(Values(h, visits)) == multiset(Row(h, low, high))
  {
    var visits := Visits(h, low, high, 0);
    OnceIffSiblingsDiffer(h, low, high, 0);
    AllUnderRoot(h, low, high);
    RootInTheMiddle(h, low, high);
    hide SiblingsDiffer, Visits, Tree, Inward, SiblingsDifferAt;
    assert |visits| == |multiset(visits)| == |multiset(h.Keys)|;
    RangeSize(h.Keys, low, high);
    ListedOnceIsRow(h, low, high, visits);
  }

  lemma ListedOnceIsRow(h: Layout, low: int, high: int, v: seq<int>)
    requires Spans(h, low, high) && multiset(v) == multiset(h.Keys) && |v| == high - low - 1
    ensures multiset(Values(h, v)) == multiset(Row(h, low, high))
  {
    forall k | 0 <= k < |v| ensures v[k] in h {
      assert v[k] in multiset(v);
    }
    var f := seq(|v|, k requires 0 <= k < |v| => high - 1 - v[k]);
    forall i, j | 0 <= i < j < |f| ensures f[i] != f[j] {
      NoRepeats(v, h.Keys, i, j);
    }
    ReindexedIsPermutation(Values(h, v), Row(h, low, high), f);
  }

  lemma AllUnderRoot(h: Layout, low: int, high: int)
    requires Spans(h, low, high)
    ensures Tree(h, 0) == h.Keys
    ensures forall p :: p in TreeSide(h, 0, 1) <==> 0 < p < high
  {
    forall p ensures Under(p, 0) {
      EverythingIsUnderRoot(p);
    }
  }

  lemma RootInTheMiddle(h: Layout, low: int, high: int)
    requires Spans(h, low, high) && SiblingsDiffer(h, 0)
    ensures |Visits(h, low, high, 0)| >= high && Visits(h, low, high, 0)[high - 1] == 0
  {
    AllUnderRoot(h, low, high);
    OnceIffSiblingsDiffer(h, low, high, 0);
    OnceIffSides(h, low, high, 0);
    hide SiblingsDiffer, VisitsSide, Tree, TreeSide;
    assert |multiset(VisitsSide(h, low, high, 0, 1))| == |multiset(TreeSide(h, 0, 1))|;
    RangeSize(TreeSide(h, 0, 1), 0, high);
  }

  lemma {:induction false} DistinctCount(s: seq<int>, x: int)
    requires Distinct(s)
    ensures multiset(s)[x] <= 1
  {
    if s != [] {
      var n := |s| - 1;
      assert s == s[..n] + [s[n]];
      DistinctCount(s[..n], x);
      if s[n] == x {
        assert multiset(s[..n])[x] == 0;
      }
    }
  }

  lemma TwiceInRow(row: seq<int>, i: int, j: int)
    requires 0 <= i < j < |row| && row[i] == row[j]
    ensures multiset(row)[row[j]] >= 2
  {
    assert row == row[..j] + [row[j]] + row[j + 1..];
    assert row[i] in row[..j];
  }

  // Distinct samples have distinct siblings.
  lemma DistinctSiblings(h: Layout, low: int, high: int, w: seq<int>)
    requires Spans(h, low, high) && Distinct(w) && multiset(Row(h, low, high)) == multiset(w)
    ensures SiblingsDiffer(h, 0)
  {
    var row := Row(h, low, high);
    forall p, q | p in h && q in h && p < q ensures h[p].data != h[q].data {
      DistinctCount(w, h[p].data);
      assert row[high - 1 - p] == h[p].data && row[high - 1 - q] == h[q].data;
      if h[p].data == h[q].data {
        TwiceInRow(row, high - 1 - q, high - 1 - p);
      }
    }
    forall p, side | p in h && HasSide(p, side) && Far(p, side) in h && Near(p, side) in h
      ensures h[Far(p, side)].data != h[Near(p, side)].data
    {
      assert Far(p, side) != Near(p, side);
    }
  }

  class Vector {
    var items: seq<int>

    constructor ()
      ensures items == []
    {
      items := [];
    }

    method PushBack(x: int)
      modifies this
      ensures items == old(items) + [x]
    {
      items := items + [x];
    }
  }

  class DoubleHeapTest {
    const heap: DoubleHeap

    constructor (window: nat)
      requires window >= 1
      ensures fresh(heap) && fresh(heap.heap) && fresh(heap.heap.data) && fresh(heap.insertionOrder)
      ensures heap.Valid() && heap.Fits() && heap.max == window && heap.Window() == []
      ensures heap.Contents() == map[] && heap.insertionOrderIndex == 0
    {
      heap := new DoubleHeap(window);
    }

    // What the heap looks like to the recursions below.
    lemma Reading(i: int)
      requires heap.Fits()
      ensures heap.Exists(i) <==> i in heap.Layout()
      ensures heap.Exists(i) ==> heap.Data(i) == heap.Layout()[i].data
      ensures heap.Exists(i) ==> Abs(i) < heap.upperK - heap.lowerK
    {}

    // Whether no assertion of the validation fails.
    method Validate(i: int) returns (ok: bool)
      requires heap.Fits() && heap.Exists(i)
      ensures i in heap.Layout()
      ensures ok == Validates(heap.Layout(), heap.lowerK, heap.upperK, i)
      decreases heap.upperK - heap.lowerK - Abs(i), 1
    {
      Reading(i);
      ok := true;
      if i <= 0 {
        ok := ValidateSide(i, -1);
      }
      if ok && i >= 0 {
        ok := ValidateSide(i, 1);
      }
    }

    // The two checks on one side: mother and father, or daughter and son.
    method ValidateSide(i: int, side: int) returns (ok: bool)
      requires heap.Fits() && heap.Exists(i) && HasSide(i, side)
      ensures i in heap.Layout()
      ensures ok == ValidatesSide(heap.Layout(), heap.lowerK, heap.upperK, i, side)
      decreases heap.upperK - heap.lowerK - Abs(i), 0
    {
      var far, near := Far(i, side), Near(i, side);
      KidsAreOuter(i, side, near);
      KidsAreOuter(i, side, far);
      Reading(i);
      Reading(near);
      Reading(far);
      hide Far, Near, Inward, Under, HasSide, Validates;
      ok := true;
      if heap.Exists(far) {
        if !InOrder(heap.Data(i), heap.Data(far), side) { return false; }
        ok := Validate(far);
        if !ok { return; }
      }
      if heap.Exists(near) {
        if !InOrder(heap.Data(i), heap.Data(near), side) { return false; }
        ok := Validate(near);
      }
    }

    predicate InOrder(inner: int, outer: int, side: int) {
      (side > 0 ==> outer <= inner) && (side < 0 ==> outer >= inner)
    }

    // Appends the samples of the tree at i to data.
    method GetSamples(i: int, data: Vector)
      requires heap.Fits() && heap.Exists(i)
      modifies data
      ensures i in heap.Layout()
      ensures data.items == old(data.items)
                + Values(heap.Layout(), Visits(heap.Layout(), heap.lowerK, heap.upperK, i))
      decreases heap.upperK - heap.lowerK - Abs(i), 1
    {
      ghost var items := data.items;
      ghost var up, down := AllReading(i, items);
      hide *;
      if i > 0 {
        GetSide(i, 1, data);
        data.PushBack(heap.Data(i));
      } else if i < 0 {
        data.PushBack(heap.Data(i));
        GetSide(i, -1, data);
      } else {
        GetSide(i, 1, data);
        data.PushBack(heap.Data(i));
        GetSide(i, -1, data);
      }
    }

    lemma AllReading(i: int, items: seq<int>) returns (up: seq<int>, down: seq<int>)
      requires heap.Fits() && heap.Exists(i)
      ensures i in heap.Layout()
      ensures (i >= 0 ==> HasSide(i, 1)) && (i <= 0 ==> HasSide(i, -1))
      ensures i >= 0 ==>
                up == Values(heap.Layout(), VisitsSide(heap.Layout(), heap.lowerK, heap.upperK, i, 1))
      ensures i <= 0 ==>
                down == Values(heap.Layout(), VisitsSide(heap.Layout(), heap.lowerK, heap.upperK, i, -1))
      ensures items + Values(heap.Layout(), Visits(heap.Layout(), heap.lowerK, heap.upperK, i))
           == if i > 0 then items + up + [heap.Data(i)]
              else if i < 0 then items + [heap.Data(i)] + down
              else items + up + [heap.Data(i)] + down
    {
      var h, low, high := heap.Layout(), heap.lowerK, heap.upperK;
      var visitsUp, visitsDown := SideVisits(h, low, high, i, 1), SideVisits(h, low, high, i, -1);
      up, down := Values(h, visitsUp), Values(h, visitsDown);
      VisitsAroundMiddle(h, low, high, i);
      hide Visits, VisitsSide;
      ValuesOfConcat(h, visitsUp, [i]);
      ValuesOfConcat(h, visitsUp + [i], visitsDown);
      assert items + (up + [heap.Data(i)] + down) == items + up + [heap.Data(i)] + down;
    }

    // The branch of getSamples that continues on one side.
    method GetSide(i: int, side: int, data: Vector)
      requires heap.Fits() && heap.Exists(i) && HasSide(i, side)
      modifies data
      ensures i in heap.Layout()
      ensures data.items == old(data.items)
                + Values(heap.Layout(), VisitsSide(heap.Layout(), heap.lowerK, heap.upperK, i, side))
      decreases heap.upperK - heap.lowerK - Abs(i), 0
    {
      var far, near := Far(i, side), Near(i, side);
      ghost var items := data.items;
      SideReading(i, side, near, far);
      hide *;
      if heap.Exists(far) {
        BothReading(i, side, near, far, items);
        GetSamples(heap.Smaller(far, near), data);
        GetSamples(heap.Larger(far, near), data);
      } else if heap.Exists(near) {
        NearReading(i, side, near, far);
        GetSamples(near, data);
      } else {
        NoneReading(i, side, near, far, items);
      }
    }

    // Where the tree continues, seen from the array.
    lemma SideReading(i: int, side: int, near: int, far: int)
      requires heap.Fits() && heap.Exists(i) && HasSide(i, side)
      requires near == Near(i, side) && far == Far(i, side)
      ensures i in heap.Layout() && Abs(i) < Abs(near) && Abs(i) < Abs(far)
      ensures heap.Exists(near) ==> near in heap.Layout() && Abs(near) <= heap.upperK - heap.lowerK
      ensures heap.Exists(far) ==>
                && far in heap.Layout() && heap.Exists(near) && Abs(far) <= heap.upperK - heap.lowerK
                && heap.heap.Valid() && heap.heap.InBounds(far) && heap.heap.InBounds(near)
                && heap.Smaller(far, near) == Smaller(heap.Layout(), far, near)
                && heap.Larger(far, near) == Larger(heap.Layout(), far, near)
      ensures !heap.Exists(far) ==> far !in heap.Layout()
      ensures !heap.Exists(near) ==> near !in heap.Layout()
    {
      TreeSideSplits(heap.Layout(), heap.lowerK, heap.upperK, i, side);
      KidsAreOuter(i, side, near);
      KidsAreOuter(i, side, far);
      Reading(i);
      Reading(near);
      Reading(far);
      heap.ReadsLayout(near, far);
      hide Far, Near, Inward, Under, HasSide;
    }

    // Both neighbours exist: the smaller one's tree comes first.
    lemma BothReading(i: int, side: int, near: int, far: int, items: seq<int>)
      requires heap.Fits() && i in heap.Layout() && HasSide(i, side)
      requires near == Near(i, side) && far == Far(i, side)
      requires near in heap.Layout() && far in heap.Layout()
      ensures var (h, low, high) := (heap.Layout(), heap.lowerK, heap.upperK);
              var (s, l) := (Smaller(h, far, near), Larger(h, far, near));
              && (s == near || s == far) && (l == near || l == far)
              && items + Values(h, Visits(h, low, high, s)) + Values(h, Visits(h, low, high, l))
              == items + Values(h, VisitsSide(h, low, high, i, side))
    {
      var h, low, high := heap.Layout(), heap.lowerK, heap.upperK;
      var s, l := Smaller(h, far, near), Larger(h, far, near);
      hide Near, Far, Visits;
      assert VisitsSide(h, low, high, i, side) == Visits(h, low, high, s) + Visits(h, low, high, l);
      hide VisitsSide;
      ValuesOfConcat(h, Visits(h, low, high, s), Visits(h, low, high, l));
      Associative(items, Values(h, Visits(h, low, high, s)), Values(h, Visits(h, low, high, l)));
    }

    lemma NearReading(i: int, side: int, near: int, far: int)
      requires heap.Fits() && i in heap.Layout() && HasSide(i, side)
      requires near == Near(i, side) && far == Far(i, side)
      requires near in heap.Layout() && far !in heap.Layout()
      ensures VisitsSide(heap.Layout(), heap.lowerK, heap.upperK, i, side)
           == Visits(heap.Layout(), heap.lowerK, heap.upperK, near)
    {
      hide Near, Far, Visits;
    }

    lemma NoneReading(i: int, side: int, near: int, far: int, items: seq<int>)
      requires heap.Fits() && i in heap.Layout() && HasSide(i, side)
      requires near == Near(i, side) && far == Far(i, side)
      requires near !in heap.Layout() && far !in heap.Layout()
      ensures items + Values(heap.Layout(), VisitsSide(heap.Layout(), heap.lowerK, heap.upperK, i, side)) == items
    {
      hide Near, Far, Visits;
    }

    // All samples, as collected from the root.
    method Samples() returns (data: Vector)
      requires heap.Fits()
      ensures fresh(data)
      ensures data.items
           == Values(heap.Layout(), Visits(heap.Layout(), heap.lowerK, heap.upperK, 0))
    {
      data := new Vector();
      GetSamples(0, data);
    }
  }
}
