/** Where a value stands in the sorted order of a sequence, told by counting. */
module Ranks {
  import opened Sorting

  // The element at half the size of the sorted sequence.
  function Middle(s: seq<int>): int {
    SortKeepsLength(s);
    if s == [] then 0 else Sort(s)[|s| / 2]
  }

  lemma SortKeepsLength(s: seq<int>)
    ensures |Sort(s)| == |s|
  {
    EqualMultisetsEqualLengths(Sort(s), s);
  }

  function CountBelow(s: seq<int>, x: int): (n: nat)
    ensures n <= |s|
  {
    if s == [] then 0 else (if s[0] < x then 1 else 0) + CountBelow(s[1..], x)
  }

  function CountAbove(s: seq<int>, x: int): (n: nat)
    ensures n <= |s|
  {
    if s == [] then 0 else (if s[0] > x then 1 else 0) + CountAbove(s[1..], x)
  }

  lemma {:induction false} CountConcat(a: seq<int>, b: seq<int>, x: int)
    ensures CountBelow(a + b, x) == CountBelow(a, x) + CountBelow(b, x)
    ensures CountAbove(a + b, x) == CountAbove(a, x) + CountAbove(b, x)
  {
    if a == [] {
      assert a + b == b;
    } else {
      assert (a + b)[1..] == a[1..] + b;
      CountConcat(a[1..], b, x);
    }
  }

  lemma {:induction false} CountInserted(y: int, s: seq<int>, x: int)
    requires Sorted(s)
    ensures CountBelow(Insert(y, s), x) == CountBelow([y], x) + CountBelow(s, x)
    ensures CountAbove(Insert(y, s), x) == CountAbove([y], x) + CountAbove(s, x)
  {
    if s == [] || y <= s[0] {
      CountConcat([y], s, x);
    } else {
      assert Insert(y, s) == [s[0]] + Insert(y, s[1..]);
      assert s == [s[0]] + s[1..];
      CountInserted(y, s[1..], x);
      hide *;
      CountConcat([s[0]], Insert(y, s[1..]), x);
      CountConcat([s[0]], s[1..], x);
    }
  }

  // Sorting changes no counts.
  lemma {:induction false} CountSorted(s: seq<int>, x: int)
    ensures CountBelow(Sort(s), x) == CountBelow(s, x)
    ensures CountAbove(Sort(s), x) == CountAbove(s, x)
  {
    if s != [] {
      CountSorted(s[1..], x);
      CountInserted(s[0], Sort(s[1..]), x);
      CountConcat([s[0]], s[1..], x);
    }
  }

  lemma {:induction false} CountNone(s: seq<int>, x: int)
    ensures (forall y | y in s :: y >= x) ==> CountBelow(s, x) == 0
    ensures (forall y | y in s :: y <= x) ==> CountAbove(s, x) == 0
    ensures (forall y | y in s :: y > x) ==> CountAbove(s, x) == |s|
  {
    if s != [] {
      assert forall y | y in s[1..] :: y in s;
      assert s[0] in s;
      CountNone(s[1..], x);
    }
  }

  // In a sorted sequence the values below x come first and those above it last.
  lemma {:induction false} RankInSorted(s: seq<int>, x: int, m: nat)
    requires Sorted(s) && m < |s|
    ensures s[m] < x <==> m < CountBelow(s, x)
    ensures s[m] > x <==> m >= |s| - CountAbove(s, x)
  {
    CountNone(s, x);
    assert forall y | y in s :: s[0] <= y;
    if m > 0 {
      RankInSorted(s[1..], x, m - 1);
    }
  }

  // x is in the middle exactly if at most half of the values lie below it and fewer than the other
  // half above it.
  lemma MiddleByCounting(s: seq<int>, x: int)
    requires s != []
    ensures Middle(s) == x <==> CountBelow(s, x) <= |s| / 2 < |s| - CountAbove(s, x)
  {
    SortKeepsLength(s);
    CountSorted(s, x);
    RankInSorted(Sort(s), x, |s| / 2);
    hide Sort, CountBelow, CountAbove;
  }
}
