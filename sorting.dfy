/**
 * What the utilities use of Go's `sort` package, over any three-way
 * comparator: the stable sort (insertion of each element in turn, as
 * sort.SliceStable does on short inputs), the removal of neighbours that
 * compare equal, reversal, and the facts that pin a stable sort's result.
 */
module Sorting {

  /**
   * The comparator orders the elements of `u` as a sort needs: "less" and
   * "greater" are each other's mirror, and "at most" is transitive.
   */
  ghost predicate WeakOrder<T>(cmp: (T, T) -> int, u: seq<T>)
  {
    (forall a, b {:trigger cmp(a, b)} :: a in u && b in u ==> (cmp(a, b) < 0 <==> cmp(b, a) > 0))
    && (forall a, b, c {:trigger Chain(cmp, a, b, c)} :: a in u && b in u && c in u ==> Chain(cmp, a, b, c))
  }

  /** Transitivity of "compares at most" for one triple. */
  predicate Chain<T>(cmp: (T, T) -> int, a: T, b: T, c: T)
  {
    cmp(a, b) <= 0 && cmp(b, c) <= 0 ==> cmp(a, c) <= 0
  }

  lemma Trans<T>(cmp: (T, T) -> int, u: seq<T>, a: T, b: T, c: T)
    requires WeakOrder(cmp, u) && a in u && b in u && c in u && cmp(a, b) <= 0 && cmp(b, c) <= 0
    ensures cmp(a, c) <= 0
  {
    assert Chain(cmp, a, b, c);
  }

  predicate Within<T(==)>(s: seq<T>, u: seq<T>)
  {
    forall x :: x in s ==> x in u
  }

  /** One insertion step: the new element moves left while it compares less than its left neighbour. */
  function Insert<T(==)>(cmp: (T, T) -> int, t: seq<T>, x: T): (r: seq<T>)
    ensures multiset(r) == multiset(t) + multiset{x}
    decreases |t|
  {
    if t == [] || cmp(x, t[|t| - 1]) >= 0 then t + [x]
    else
      assert t == t[..|t| - 1] + [t[|t| - 1]];
      Insert(cmp, t[..|t| - 1], x) + [t[|t| - 1]]
  }

  /** The stable sort: each element in turn is inserted into the sorted elements before it. */
  function StableSort<T(==)>(cmp: (T, T) -> int, s: seq<T>): (r: seq<T>)
    ensures multiset(r) == multiset(s)
  {
    if s == [] then []
    else
      assert s == s[..|s| - 1] + [s[|s| - 1]];
      Insert(cmp, StableSort(cmp, s[..|s| - 1]), s[|s| - 1])
  }

  /** Every pair of elements, in order, compares at most. */
  ghost predicate Sorted<T>(cmp: (T, T) -> int, r: seq<T>)
  {
    forall i, j :: 0 <= i < j < |r| ==> cmp(r[i], r[j]) <= 0
  }

  /** Every neighbouring pair compares at most. */
  predicate AdjacentSorted<T(==)>(cmp: (T, T) -> int, r: seq<T>)
  {
    forall i :: 1 <= i < |r| ==> cmp(r[i - 1], r[i]) <= 0
  }

  /** The elements of `s` that compare equal to `y`, in their order in `s`. */
  function EqualRun<T(==)>(cmp: (T, T) -> int, s: seq<T>, y: T): seq<T>
  {
    if s == [] then []
    else EqualRun(cmp, s[..|s| - 1], y) + (if cmp(s[|s| - 1], y) == 0 then [s[|s| - 1]] else [])
  }

  /**
   * Removal of equal neighbours: an element is kept when it does not compare
   * equal to the last element kept. Neighbours in the result never compare equal.
   */
  function Dedup<T(==)>(cmp: (T, T) -> int, s: seq<T>): (r: seq<T>)
    ensures |r| <= |s| && (r == [] <==> s == [])
    ensures s != [] ==> r[0] == s[0]
    ensures Within(r, s)
    ensures forall i :: 1 <= i < |r| ==> cmp(r[i - 1], r[i]) != 0
  {
    if |s| <= 1 then s
    else
      var d := Dedup(cmp, s[..|s| - 1]);
      assert Within(s[..|s| - 1], s);
      if cmp(d[|d| - 1], s[|s| - 1]) != 0 then d + [s[|s| - 1]] else d
  }

  /** One step of the scan: the next element is kept when it differs from the last one kept. */
  lemma DedupSnoc<T>(cmp: (T, T) -> int, s: seq<T>, i: nat, d: seq<T>)
    requires 0 < i < |s| && d == Dedup(cmp, s[..i])
    ensures Dedup(cmp, s[..i + 1]) == if cmp(d[|d| - 1], s[i]) != 0 then d + [s[i]] else d
  {
    assert s[..i + 1][..i] == s[..i];
  }

  function Reverse<T>(s: seq<T>): (r: seq<T>)
    ensures |r| == |s|
    ensures forall i :: 0 <= i < |s| ==> r[i] == s[|s| - 1 - i]
  {
    if s == [] then [] else Reverse(s[1..]) + [s[0]]
  }

  /** The reversal holds every element as often as the input does. */
  lemma {:induction false} ReverseMultiset<T>(s: seq<T>)
    ensures multiset(Reverse(s)) == multiset(s)
    decreases |s|
  {
    if s != [] {
      ReverseMultiset(s[1..]);
      assert s == [s[0]] + s[1..];
    }
  }

  lemma WeakOrderWithin<T>(cmp: (T, T) -> int, u: seq<T>, s: seq<T>)
    requires WeakOrder(cmp, u) && Within(s, u)
    ensures WeakOrder(cmp, s)
  {
  }

  /** Inserting into sorted elements keeps them sorted. */
  lemma {:induction false} InsertSorted<T>(cmp: (T, T) -> int, u: seq<T>, t: seq<T>, x: T)
    requires WeakOrder(cmp, u) && Within(t, u) && x in u
    requires Sorted(cmp, t)
    ensures Sorted(cmp, Insert(cmp, t, x))
    decreases |t|
  {
    if t != [] {
      var last := t[|t| - 1];
      if cmp(x, last) >= 0 {
        var r := t + [x];
        forall i, j | 0 <= i < j < |r|
          ensures cmp(r[i], r[j]) <= 0
        {
          if j == |t| {
            assert cmp(last, x) <= 0;
            if i < |t| - 1 {
              assert cmp(t[i], last) <= 0;
              Trans(cmp, u, t[i], last, x);
            }
          }
        }
      } else {
        var front := t[..|t| - 1];
        assert Within(front, u);
        InsertSorted(cmp, u, front, x);
        var q := Insert(cmp, front, x);
        var r := q + [last];
        forall i, j | 0 <= i < j < |r|
          ensures cmp(r[i], r[j]) <= 0
        {
          if j == |q| && r[i] != x {
            assert r[i] in multiset(q);
            var k :| 0 <= k < |front| && front[k] == r[i];
            assert cmp(t[k], t[|t| - 1]) <= 0;
          }
        }
      }
    }
  }

  /** The stable sort is sorted whenever the comparator is a weak order on the elements. */
  lemma {:induction false} SortSorted<T>(cmp: (T, T) -> int, s: seq<T>)
    requires WeakOrder(cmp, s)
    ensures Sorted(cmp, StableSort(cmp, s))
    decreases |s|
  {
    if s != [] {
      var front := s[..|s| - 1];
      assert Within(front, s);
      WeakOrderWithin(cmp, s, front);
      var sorted := StableSort(cmp, front);
      assert Within(sorted, s) by {
        assert forall x :: x in sorted ==> x in multiset(front);
      }
      SortSorted(cmp, front);
      InsertSorted(cmp, s, sorted, s[|s| - 1]);
    }
  }

  lemma EqualRunSnoc<T>(cmp: (T, T) -> int, s: seq<T>, e: T, y: T)
    ensures EqualRun(cmp, s + [e], y) == EqualRun(cmp, s, y) + (if cmp(e, y) == 0 then [e] else [])
  {
    assert (s + [e])[..|s|] == s;
  }

  /** An element less than another is never in the same class as it. */
  lemma ClassesApart<T>(cmp: (T, T) -> int, u: seq<T>, x: T, z: T, y: T)
    requires WeakOrder(cmp, u) && x in u && z in u && y in u && cmp(x, z) < 0
    ensures !(cmp(x, y) == 0 && cmp(z, y) == 0)
  {
    if cmp(x, y) == 0 && cmp(z, y) == 0 {
      assert cmp(y, x) == 0;
      Trans(cmp, u, z, y, x);
    }
  }

  /** Moving an element left past elements of other classes leaves every class's order as it was. */
  lemma {:induction false} InsertStable<T>(cmp: (T, T) -> int, u: seq<T>, t: seq<T>, x: T, y: T)
    requires WeakOrder(cmp, u) && Within(t, u) && x in u && y in u
    ensures EqualRun(cmp, Insert(cmp, t, x), y) == EqualRun(cmp, t + [x], y)
    decreases |t|
  {
    if t != [] && cmp(x, t[|t| - 1]) < 0 {
      var front := t[..|t| - 1];
      var last := t[|t| - 1];
      assert t == front + [last];
      assert Within(front, u);
      var q := Insert(cmp, front, x);
      var ex := if cmp(x, y) == 0 then [x] else [];
      var el := if cmp(last, y) == 0 then [last] else [];
      ClassesApart(cmp, u, x, last, y);
      calc {
        EqualRun(cmp, Insert(cmp, t, x), y);
        EqualRun(cmp, q + [last], y);
        { EqualRunSnoc(cmp, q, last, y); }
        EqualRun(cmp, q, y) + el;
        { InsertStable(cmp, u, front, x, y); }
        EqualRun(cmp, front + [x], y) + el;
        { EqualRunSnoc(cmp, front, x, y); }
        EqualRun(cmp, front, y) + ex + el;
        EqualRun(cmp, front, y) + el + ex;
        { EqualRunSnoc(cmp, front, last, y); }
        EqualRun(cmp, t, y) + ex;
        { EqualRunSnoc(cmp, t, x, y); }
        EqualRun(cmp, t + [x], y);
      }
    }
  }

  /** Stability: the elements that compare equal to any given element keep their relative order. */
  lemma {:induction false} SortStable<T>(cmp: (T, T) -> int, u: seq<T>, s: seq<T>, y: T)
    requires WeakOrder(cmp, u) && Within(s, u) && y in u
    ensures EqualRun(cmp, StableSort(cmp, s), y) == EqualRun(cmp, s, y)
    decreases |s|
  {
    if s != [] {
      var front := s[..|s| - 1];
      var last := s[|s| - 1];
      assert s == front + [last];
      assert Within(front, u);
      var sorted := StableSort(cmp, front);
      assert Within(sorted, u) by {
        assert forall x :: x in sorted ==> x in multiset(front);
      }
      var el := if cmp(last, y) == 0 then [last] else [];
      calc {
        EqualRun(cmp, StableSort(cmp, s), y);
        EqualRun(cmp, Insert(cmp, sorted, last), y);
        { InsertStable(cmp, u, sorted, last, y); }
        EqualRun(cmp, sorted + [last], y);
        { EqualRunSnoc(cmp, sorted, last, y); }
        EqualRun(cmp, sorted, y) + el;
        { SortStable(cmp, u, front, y); }
        EqualRun(cmp, front, y) + el;
        { EqualRunSnoc(cmp, front, last, y); }
        EqualRun(cmp, s, y);
      }
    }
  }

  lemma EqualRunWithin<T>(cmp: (T, T) -> int, s: seq<T>, y: T)
    ensures Within(EqualRun(cmp, s, y), s)
    ensures forall x :: x in EqualRun(cmp, s, y) ==> cmp(x, y) == 0
    decreases |s|
  {
    if s != [] {
      EqualRunWithin(cmp, s[..|s| - 1], y);
    }
  }

  /** No element of the class: an empty run. */
  lemma {:induction false} EqualRunNone<T>(cmp: (T, T) -> int, s: seq<T>, y: T)
    requires forall x :: x in s ==> cmp(x, y) != 0
    ensures EqualRun(cmp, s, y) == []
    decreases |s|
  {
    if s != [] {
      assert Within(s[..|s| - 1], s);
      EqualRunNone(cmp, s[..|s| - 1], y);
    }
  }

  /** Equivalent elements name the same class. */
  lemma {:induction false} EqualRunClass<T>(cmp: (T, T) -> int, u: seq<T>, s: seq<T>, y: T, z: T)
    requires WeakOrder(cmp, u) && Within(s, u) && y in u && z in u && cmp(y, z) == 0
    ensures EqualRun(cmp, s, y) == EqualRun(cmp, s, z)
    decreases |s|
  {
    if s != [] {
      assert Within(s[..|s| - 1], u);
      EqualRunClass(cmp, u, s[..|s| - 1], y, z);
      var e := s[|s| - 1];
      assert e in u;
      SameClassCompare(cmp, u, y, z, e);
      assert cmp(e, y) == 0 <==> cmp(y, e) == 0;
      assert cmp(e, z) == 0 <==> cmp(z, e) == 0;
    }
  }

  /** An element in a weak order is in its own class, so its run is never empty. */
  lemma {:induction false} EqualRunOfMember<T>(cmp: (T, T) -> int, u: seq<T>, s: seq<T>, y: T)
    requires WeakOrder(cmp, u) && y in u && y in s
    ensures EqualRun(cmp, s, y) != []
    decreases |s|
  {
    var front := s[..|s| - 1];
    if s[|s| - 1] != y {
      assert s == front + [s[|s| - 1]];
      EqualRunOfMember(cmp, u, front, y);
    } else {
      assert cmp(y, y) == 0;
    }
  }

  /** In sorted elements, every element compares at most the last one. */
  lemma SortedLast<T>(cmp: (T, T) -> int, u: seq<T>, r: seq<T>, x: T)
    requires WeakOrder(cmp, u) && Within(r, u) && Sorted(cmp, r) && x in r
    ensures cmp(x, r[|r| - 1]) <= 0
  {
    var k :| 0 <= k < |r| && r[k] == x;
    if k < |r| - 1 {
      assert cmp(r[k], r[|r| - 1]) <= 0;
    }
  }

  /** A common last element can be cut off two equal runs. */
  lemma EqualRunCancel<T>(cmp: (T, T) -> int, f1: seq<T>, f2: seq<T>, a: T, y: T)
    requires EqualRun(cmp, f1 + [a], y) == EqualRun(cmp, f2 + [a], y)
    ensures EqualRun(cmp, f1, y) == EqualRun(cmp, f2, y)
  {
    EqualRunSnoc(cmp, f1, a, y);
    EqualRunSnoc(cmp, f2, a, y);
    var e := if cmp(a, y) == 0 then [a] else [];
    var x1, x2 := EqualRun(cmp, f1, y), EqualRun(cmp, f2, y);
    assert x1 == (x1 + e)[..|x1|] && x2 == (x2 + e)[..|x2|];
  }

  lemma SortedFront<T>(cmp: (T, T) -> int, r: seq<T>)
    requires r != [] && Sorted(cmp, r)
    ensures Sorted(cmp, r[..|r| - 1])
  {
    var f := r[..|r| - 1];
    forall i, j | 0 <= i < j < |f|
      ensures cmp(f[i], f[j]) <= 0
    {
      assert f[i] == r[i] && f[j] == r[j];
    }
  }

  lemma MultisetCancel<T>(m1: multiset<T>, m2: multiset<T>, x: T)
    requires m1 + multiset{x} == m2 + multiset{x}
    ensures m1 == m2
  {
    assert forall z :: m1[z] == (m1 + multiset{x})[z] - (if z == x then 1 else 0);
    assert forall z :: m2[z] == (m2 + multiset{x})[z] - (if z == x then 1 else 0);
  }

  /** Under a weak order, two elements that compare at most each other are equivalent, and each is equivalent to itself. */
  lemma Equivalent<T>(cmp: (T, T) -> int, u: seq<T>, a: T, b: T)
    requires WeakOrder(cmp, u) && a in u && b in u && cmp(a, b) <= 0 && cmp(b, a) <= 0
    ensures cmp(a, a) == 0 && cmp(b, a) == 0
  {
  }

  lemma SplitLast<T>(r: seq<T>)
    requires r != []
    ensures r == r[..|r| - 1] + [r[|r| - 1]]
    ensures multiset(r) == multiset(r[..|r| - 1]) + multiset{r[|r| - 1]}
  {
    assert r == r[..|r| - 1] + [r[|r| - 1]];
  }

  /** Two runs of the class of `a`, ending in `a` and in an element of its class, end alike. */
  lemma LastOfRuns<T>(cmp: (T, T) -> int, f1: seq<T>, a: T, f2: seq<T>, b: T)
    requires cmp(a, a) == 0 && cmp(b, a) == 0
    requires EqualRun(cmp, f1 + [a], a) == EqualRun(cmp, f2 + [b], a)
    ensures a == b
  {
    EqualRunSnoc(cmp, f1, a, a);
    EqualRunSnoc(cmp, f2, b, a);
    var x1, x2 := EqualRun(cmp, f1, a), EqualRun(cmp, f2, a);
    assert (x1 + [a])[|x1|] == a && (x2 + [b])[|x2|] == b;
  }

  /**
   * Two sorted arrangements of the same elements in which every class appears
   * in the same order are the same: a stable sort has only one possible result.
   */
  lemma {:induction false} SortedStableUnique<T>(cmp: (T, T) -> int, u: seq<T>, r1: seq<T>, r2: seq<T>)
    requires WeakOrder(cmp, u) && Within(r1, u) && Within(r2, u)
    requires multiset(r1) == multiset(r2) && Sorted(cmp, r1) && Sorted(cmp, r2)
    requires forall y :: y in u ==> EqualRun(cmp, r1, y) == EqualRun(cmp, r2, y)
    ensures r1 == r2
    decreases |r1|
  {
    assert |r1| == |multiset(r1)| == |r2|;
    if r1 != [] {
      var a, b := r1[|r1| - 1], r2[|r2| - 1];
      var f1, f2 := r1[..|r1| - 1], r2[..|r2| - 1];
      SplitLast(r1);
      SplitLast(r2);
      assert b in multiset(r1) && a in multiset(r2);
      SortedLast(cmp, u, r1, b);
      SortedLast(cmp, u, r2, a);
      Equivalent(cmp, u, a, b);
      LastOfRuns(cmp, f1, a, f2, b);
      forall y | y in u
        ensures EqualRun(cmp, f1, y) == EqualRun(cmp, f2, y)
      {
        EqualRunCancel(cmp, f1, f2, a, y);
      }
      assert Within(f1, u) && Within(f2, u);
      SortedFront(cmp, r1);
      SortedFront(cmp, r2);
      MultisetCancel(multiset(f1), multiset(f2), a);
      SortedStableUnique(cmp, u, f1, f2);
    }
  }

  /**
   * When only equal elements compare equal, two sorted arrangements of the
   * same elements are the same: every sort returns the same result.
   */
  lemma {:induction false} SortedUnique<T>(cmp: (T, T) -> int, u: seq<T>, r1: seq<T>, r2: seq<T>)
    requires WeakOrder(cmp, u) && Within(r1, u) && Within(r2, u)
    requires forall a, b :: a in u && b in u && cmp(a, b) == 0 ==> a == b
    requires multiset(r1) == multiset(r2) && Sorted(cmp, r1) && Sorted(cmp, r2)
    ensures r1 == r2
    decreases |r1|
  {
    assert |r1| == |multiset(r1)| == |r2|;
    if r1 != [] {
      var a, b := r1[|r1| - 1], r2[|r2| - 1];
      var f1, f2 := r1[..|r1| - 1], r2[..|r2| - 1];
      SplitLast(r1);
      SplitLast(r2);
      assert b in multiset(r1) && a in multiset(r2);
      SortedLast(cmp, u, r1, b);
      SortedLast(cmp, u, r2, a);
      Equivalent(cmp, u, a, b);
      assert a == b;
      assert Within(f1, u) && Within(f2, u);
      SortedFront(cmp, r1);
      SortedFront(cmp, r2);
      MultisetCancel(multiset(f1), multiset(f2), a);
      SortedUnique(cmp, u, f1, f2);
    }
  }

  /**
   * The stable sort is the only sorted arrangement of the elements that keeps
   * every class in input order; any stable sorting algorithm returns it.
   */
  lemma StableSortUnique<T>(cmp: (T, T) -> int, s: seq<T>, r: seq<T>)
    requires WeakOrder(cmp, s) && multiset(r) == multiset(s) && Sorted(cmp, r)
    requires forall y :: y in s ==> EqualRun(cmp, r, y) == EqualRun(cmp, s, y)
    ensures r == StableSort(cmp, s)
  {
    var sorted := StableSort(cmp, s);
    SortSorted(cmp, s);
    assert Within(s, s);
    forall y | y in s
      ensures EqualRun(cmp, r, y) == EqualRun(cmp, sorted, y)
    {
      SortStable(cmp, s, s, y);
    }
    assert Within(r, s) by {
      assert forall x :: x in r ==> x in multiset(s);
    }
    assert Within(sorted, s) by {
      assert forall x :: x in sorted ==> x in multiset(s);
    }
    SortedStableUnique(cmp, s, r, sorted);
  }

  /** Under a weak order, checking neighbours is checking every pair. */
  lemma {:induction false} AdjacentSortedIsSorted<T>(cmp: (T, T) -> int, r: seq<T>)
    requires WeakOrder(cmp, r)
    ensures AdjacentSorted(cmp, r) <==> Sorted(cmp, r)
    decreases |r|
  {
    if |r| >= 2 && AdjacentSorted(cmp, r) {
      var front := r[..|r| - 1];
      assert Within(front, r);
      WeakOrderWithin(cmp, r, front);
      AdjacentSortedIsSorted(cmp, front);
      forall i, j | 0 <= i < j < |r|
        ensures cmp(r[i], r[j]) <= 0
      {
        if j == |r| - 1 && i < |r| - 2 {
          assert cmp(front[i], front[|r| - 2]) <= 0;
          assert cmp(r[|r| - 2], r[|r| - 1]) <= 0;
          Trans(cmp, r, r[i], r[|r| - 2], r[|r| - 1]);
        }
      }
    }
  }

  /** The last element kept is in the class of the last element. */
  lemma DedupLast<T>(cmp: (T, T) -> int, s: seq<T>)
    requires WeakOrder(cmp, s) && s != []
    ensures var d := Dedup(cmp, s); cmp(d[|d| - 1], s[|s| - 1]) == 0
  {
    assert cmp(s[|s| - 1], s[|s| - 1]) == 0;
  }

  /** Reversing sorted elements gives them in descending order. */
  lemma ReverseSorted<T>(cmp: (T, T) -> int, s: seq<T>)
    requires Sorted(cmp, s)
    ensures forall i, j :: 0 <= i < j < |s| ==> cmp(Reverse(s)[j], Reverse(s)[i]) <= 0
  {
    var r := Reverse(s);
    forall i, j | 0 <= i < j < |s|
      ensures cmp(r[j], r[i]) <= 0
    {
      assert r[j] == s[|s| - 1 - j] && r[i] == s[|s| - 1 - i];
    }
  }

  /** Removing neighbours that compare equal from a sorted list leaves it sorted. */
  lemma {:induction false} DedupSorted<T>(cmp: (T, T) -> int, s: seq<T>)
    requires Sorted(cmp, s)
    ensures Sorted(cmp, Dedup(cmp, s))
    decreases |s|
  {
    if |s| >= 2 {
      var front := s[..|s| - 1];
      var last := s[|s| - 1];
      assert Sorted(cmp, front);
      DedupSorted(cmp, front);
      var d := Dedup(cmp, front);
      var r := Dedup(cmp, s);
      assert r == if cmp(d[|d| - 1], last) != 0 then d + [last] else d;
      forall i, j | 0 <= i < j < |r|
        ensures cmp(r[i], r[j]) <= 0
      {
        if j == |d| {
          assert r[i] == d[i] && d[i] in front;
          var k :| 0 <= k < |front| && front[k] == d[i];
          assert s[k] == r[i];
        } else {
          assert r[i] == d[i] && r[j] == d[j];
        }
      }
    }
  }

  /** The elements that start a run of neighbours comparing equal, in order. */
  function FirstOfRuns<T>(cmp: (T, T) -> int, s: seq<T>): seq<T>
  {
    if |s| <= 1 then s
    else FirstOfRuns(cmp, s[..|s| - 1]) + (if cmp(s[|s| - 2], s[|s| - 1]) != 0 then [s[|s| - 1]] else [])
  }

  /**
   * Comparing each element with the last one kept, as removeDuplicates does,
   * keeps exactly the first element of every run of equal neighbours when the
   * comparator is a weak order.
   */
  lemma {:induction false} DedupFirstOfRuns<T>(cmp: (T, T) -> int, s: seq<T>)
    requires WeakOrder(cmp, s)
    ensures Dedup(cmp, s) == FirstOfRuns(cmp, s)
    decreases |s|
  {
    if |s| >= 2 {
      var front := s[..|s| - 1];
      assert Within(front, s);
      WeakOrderWithin(cmp, s, front);
      DedupFirstOfRuns(cmp, front);
      LastKeptClass(cmp, s);
      RunsStep(cmp, s);
    }
  }

  /** Under a weak order the last element kept is equal to the next element exactly when its neighbour is. */
  lemma LastKeptClass<T>(cmp: (T, T) -> int, s: seq<T>)
    requires |s| >= 2 && WeakOrder(cmp, s)
    ensures var d := Dedup(cmp, s[..|s| - 1]);
      cmp(d[|d| - 1], s[|s| - 1]) == 0 <==> cmp(s[|s| - 2], s[|s| - 1]) == 0
  {
    var front := s[..|s| - 1];
    assert Within(front, s);
    WeakOrderWithin(cmp, s, front);
    DedupLast(cmp, front);
    var d := Dedup(cmp, front);
    assert front[|front| - 1] == s[|s| - 2];
    assert s[|s| - 2] in s && d[|d| - 1] in s && s[|s| - 1] in s;
    SameClassCompare(cmp, s, d[|d| - 1], s[|s| - 2], s[|s| - 1]);
  }

  /** When both scans agree on the front and on the last step, they agree on the whole. */
  lemma RunsStep<T>(cmp: (T, T) -> int, s: seq<T>)
    requires |s| >= 2 && Dedup(cmp, s[..|s| - 1]) == FirstOfRuns(cmp, s[..|s| - 1])
    requires var d := Dedup(cmp, s[..|s| - 1]);
      cmp(d[|d| - 1], s[|s| - 1]) == 0 <==> cmp(s[|s| - 2], s[|s| - 1]) == 0
    ensures Dedup(cmp, s) == FirstOfRuns(cmp, s)
  {
  }

  /** Equivalent elements are equal to the same elements. */
  lemma SameClassCompare<T>(cmp: (T, T) -> int, u: seq<T>, a: T, b: T, x: T)
    requires WeakOrder(cmp, u) && a in u && b in u && x in u && cmp(a, b) == 0
    ensures cmp(a, x) == 0 <==> cmp(b, x) == 0
  {
    assert cmp(b, a) == 0;
    if cmp(a, x) == 0 {
      assert cmp(x, a) == 0;
      Trans(cmp, u, b, a, x);
      Trans(cmp, u, x, a, b);
      assert cmp(b, x) <= 0 && cmp(x, b) <= 0;
    }
    if cmp(b, x) == 0 {
      assert cmp(x, b) == 0;
      Trans(cmp, u, a, b, x);
      Trans(cmp, u, x, b, a);
      assert cmp(a, x) <= 0 && cmp(x, a) <= 0;
    }
  }

  /**
   * Three elements that compare less in a cycle: each neighbouring pair is in
   * order, yet no weak order holds among them.
   */
  lemma CycleBreaksWeakOrder<T>(cmp: (T, T) -> int, s: seq<T>)
    requires |s| == 3 && cmp(s[0], s[1]) < 0 && cmp(s[1], s[2]) < 0 && cmp(s[2], s[0]) < 0
    ensures !WeakOrder(cmp, s) && AdjacentSorted(cmp, s)
  {
    if WeakOrder(cmp, s) {
      Trans(cmp, s, s[0], s[1], s[2]);
      assert false;
    }
  }

  // ------------------------------------------------------------ in place

  /**
   * removeDuplicates: a write index `j` trails the read index `i`, and an
   * element is copied down when it differs from lines[j]. The result is the
   * prefix of length `n`.
   */
  method RemoveDuplicates<T(==)>(cmp: (T, T) -> int, lines: array<T>) returns (n: nat)
    modifies lines
    ensures n <= lines.Length
    ensures lines[..n] == Dedup(cmp, old(lines[..]))
  {
    ghost var s := lines[..];
    if lines.Length == 0 {
      return 0;
    }
    var j := 0;
    var i := 1;
    while i < lines.Length
      invariant 1 <= i <= lines.Length && 0 <= j < i
      invariant lines[..j + 1] == Dedup(cmp, s[..i])
      invariant forall k :: i <= k < lines.Length ==> lines[k] == s[k]
    {
      ghost var before := lines[..j + 1];
      DedupSnoc(cmp, s, i, before);
      if cmp(lines[j], lines[i]) != 0 {
        j := j + 1;
        ghost var pre := lines[..];
        lines[j] := lines[i];
        assert lines[..] == pre[j := s[i]];
        UpdatePrefix(pre, j, s[i]);
        assert lines[..j + 1] == before + [s[i]];
      }
      i := i + 1;
    }
    assert s[..lines.Length] == s;
    return j + 1;
  }

  /** The in-place reversal of the first n elements by swapping from both ends. */
  method ReversePrefix<T>(lines: array<T>, n: nat)
    requires n <= lines.Length
    modifies lines
    ensures lines[..n] == Reverse(old(lines[..n]))
    ensures lines[n..] == old(lines[n..])
  {
    ghost var s := lines[..];
    SwapEnds(lines, n);
    MirrorIsReverse(s[..n], lines[..n]);
  }

  /** The swap loop: the i-th and (n-1-i)-th elements trade places until the indices meet. */
  method SwapEnds<T>(lines: array<T>, n: nat)
    requires n <= lines.Length
    modifies lines
    ensures forall k :: 0 <= k < n ==> lines[k] == old(lines[n - 1 - k])
    ensures forall k :: n <= k < lines.Length ==> lines[k] == old(lines[k])
  {
    var i, j := 0, n - 1;
    while i < j
      invariant 0 <= i <= n && j == n - 1 - i && i <= j + 1
      invariant forall k :: 0 <= k < lines.Length ==> lines[k] == old(lines[Swapped(k, i, n)])
    {
      lines[i], lines[j] := lines[j], lines[i];
      i, j := i + 1, j - 1;
    }
  }

  /** Writing index j of a sequence and keeping the first j + 1 elements. */
  lemma UpdatePrefix<T>(pre: seq<T>, j: nat, x: T)
    requires j < |pre|
    ensures pre[j := x][..j + 1] == pre[..j] + [x]
  {
  }

  /** Where element k of a prefix of length n comes from once its first and last i elements are swapped. */
  function Swapped(k: int, i: int, n: int): int
  {
    if k < i || (n - i <= k < n) then n - 1 - k else k
  }

  /** A sequence holding the elements of `t` back to front is the reversal of `t`. */
  lemma MirrorIsReverse<T>(t: seq<T>, r: seq<T>)
    requires |r| == |t| && forall k :: 0 <= k < |t| ==> r[k] == t[|t| - 1 - k]
    ensures r == Reverse(t)
  {
  }
}
