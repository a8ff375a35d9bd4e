/** Sorted sequences of integers: the std::sort the median oracle relies on. */
module Sorting {
  import opened Sequences


  ghost predicate Sorted(s: seq<int>) {
    forall i, j :: 0 <= i < j < |s| ==> s[i] <= s[j]
  }

  lemma ConcatIsSorted(a: seq<int>, b: seq<int>)
    requires Sorted(a) && Sorted(b)
    requires forall x, y :: x in a && y in b ==> x <= y
    ensures Sorted(a + b)
  {
    forall i, j | 0 <= i < j < |a + b| ensures (a + b)[i] <= (a + b)[j] {
      if i < |a| <= j {
        assert a[i] in a && b[j - |a|] in b;
      }
    }
  }

  lemma SameElements<T>(a: seq<T>, b: seq<T>, x: T)
    requires multiset(a) == multiset(b)
    ensures x in a <==> x in b
  {
    assert x in a <==> x in multiset(a);
    assert x in b <==> x in multiset(b);
  }

  function Insert(x: int, s: seq<int>): (r: seq<int>)
    requires Sorted(s)
    ensures Sorted(r)
    ensures multiset(r) == multiset([x] + s)
  {
    if s == [] || x <= s[0] then
      [x] + s
    else
      var r := Insert(x, s[1..]);
      InsertFront(x, s, r);
      [s[0]] + r
  }

  lemma InsertFront(x: int, s: seq<int>, r: seq<int>)
    requires Sorted(s) && s != [] && s[0] <= x
    requires Sorted(r) && multiset(r) == multiset([x] + s[1..])
    ensures Sorted([s[0]] + r)
    ensures multiset([s[0]] + r) == multiset([x] + s)
  {
    forall y | y in r ensures s[0] <= y {
      SameElements(r, [x] + s[1..], y);
    }
    ConcatIsSorted([s[0]], r);
    assert s == [s[0]] + s[1..];
  }

  function Sort(s: seq<int>): (r: seq<int>)
    ensures Sorted(r)
    ensures multiset(r) == multiset(s)
  {
    if s == [] then []
    else
      assert s == [s[0]] + s[1..];
      Insert(s[0], Sort(s[1..]))
  }

  lemma EqualMultisetsEqualLengths<T>(a: seq<T>, b: seq<T>)
    requires multiset(a) == multiset(b)
    ensures |a| == |b|
  {
    assert |a| == |multiset(a)| == |multiset(b)| == |b|;
  }

  lemma FirstIsLeast(a: seq<int>, b: seq<int>)
    requires Sorted(a) && multiset(a) == multiset(b) && b != []
    ensures a != [] && a[0] <= b[0]
  {
    assert b[0] in multiset(a);
    assert b[0] in a;
  }

  // A sorted sequence is determined by its multiset of elements.
  lemma {:induction false} SortedIsUnique(a: seq<int>, b: seq<int>)
    requires Sorted(a) && Sorted(b) && multiset(a) == multiset(b)
    ensures a == b
  {
    EqualMultisetsEqualLengths(a, b);
    if a != [] {
      FirstIsLeast(a, b);
      FirstIsLeast(b, a);
      assert a == [a[0]] + a[1..] && b == [b[0]] + b[1..];
      assert multiset(a[1..]) == multiset(a) - multiset{a[0]} == multiset(b[1..]);
      SortedIsUnique(a[1..], b[1..]);
    }
  }

  // Everything left of k is at most s[k] and everything right of it at least s[k].
  ghost predicate IsPivot(s: seq<int>, k: nat) {
    && k < |s|
    && (forall i :: 0 <= i < k ==> s[i] <= s[k])
    && forall i :: k < i < |s| ==> s[k] <= s[i]
  }

  // Then sorting leaves s[k] where it is.
  lemma {:induction false} PivotStaysPut(s: seq<int>, k: nat)
    requires IsPivot(s, k)
    ensures |Sort(s)| == |s| && Sort(s)[k] == s[k]
  {
    hide Sort;
    var below, above := Sort(s[..k]), Sort(s[k + 1..]);
    var t := below + [s[k]] + above;
    EqualMultisetsEqualLengths(below, s[..k]);
    forall x | x in below ensures x <= s[k] {
      SameElements(below, s[..k], x);
    }
    forall x | x in above ensures s[k] <= x {
      SameElements(above, s[k + 1..], x);
    }
    assert Sorted(t) by {
      ConcatIsSorted(below, [s[k]]);
      ConcatIsSorted(below + [s[k]], above);
    }
    SplitAround(s, k);
    EqualMultisetsEqualLengths(Sort(s), s);
    SortedIsUnique(t, Sort(s));
  }

  lemma SplitAround<T>(s: seq<T>, k: nat)
    requires k < |s|
    ensures multiset(s) == multiset(s[..k]) + multiset{s[k]} + multiset(s[k + 1..])
  {
    assert s == s[..k] + [s[k]] + s[k + 1..];
  }

  lemma SortOfPermutation(a: seq<int>, b: seq<int>)
    requires multiset(a) == multiset(b)
    ensures Sort(a) == Sort(b)
    ensures |a| == |b|
  {
    SortedIsUnique(Sort(a), Sort(b));
    EqualMultisetsEqualLengths(a, b);
  }

  // a is b read through a list of different indices.
  ghost predicate ReadsThrough<T>(a: seq<T>, b: seq<T>, f: seq<int>) {
    && |a| == |b| == |f| && Distinct(f)
    && forall i :: 0 <= i < |f| ==> 0 <= f[i] < |b| && a[i] == b[f[i]]
  }

  // The indices once the k-th element is taken out.
  ghost function Shifted(f: seq<int>, k: int): seq<int> {
    seq(|f|, i requires 0 <= i < |f| => if f[i] < k then f[i] else f[i] - 1)
  }

  lemma OneIndexLess<T>(a: seq<T>, b: seq<T>, f: seq<int>, n: nat)
    requires ReadsThrough(a, b, f) && |a| == n + 1
    ensures ReadsThrough(a[..n], b[..f[n]] + b[f[n] + 1..], Shifted(f[..n], f[n]))
  {}

  // A read through a list of different indices covering all of b is a rearrangement of b.
  lemma {:induction false} ReindexedIsPermutation<T>(a: seq<T>, b: seq<T>, f: seq<int>)
    requires ReadsThrough(a, b, f)
    ensures multiset(a) == multiset(b)
  {
    if a != [] {
      var n := |a| - 1;
      OneIndexLess(a, b, f, n);
      ReindexedIsPermutation(a[..n], b[..f[n]] + b[f[n] + 1..], Shifted(f[..n], f[n]));
      hide ReadsThrough, Shifted;
      assert a == a[..n] + [a[n]];
      SplitAround(b, f[n]);
    }
  }
}
