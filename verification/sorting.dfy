/** A stable insertion sort by a three-way comparator, the model of
    `Array.prototype.sort` (stable since ECMAScript 2019) with a consistent
    comparator. Generic in the comparator so that the facts proved here never
    depend on how a particular comparator is computed. */
module Sorting {

  /** `a`, `b`, `c` are in non-decreasing order. */
  ghost predicate Chain<T>(cmp: (T, T) -> int, a: T, b: T, c: T) {
    cmp(a, b) <= 0 && cmp(b, c) <= 0
  }

  /** `cmp` orders consistently: a total preorder given as a three-way result.
      (Transitivity is only instantiated where a proof names a `Chain`.) */
  ghost predicate IsTotalPreorder<T(!new)>(cmp: (T, T) -> int) {
    && (forall a, b :: cmp(a, b) < 0 <==> cmp(b, a) > 0)
    && (forall a, b :: cmp(a, b) == 0 <==> cmp(b, a) == 0)
    && (forall a :: cmp(a, a) == 0)
    && (forall a, b, c {:trigger Chain(cmp, a, b, c)} :: Chain(cmp, a, b, c) ==> cmp(a, c) <= 0)
  }

  ghost predicate SortedBy<T>(t: seq<T>, cmp: (T, T) -> int) {
    forall i, j :: 0 <= i < j < |t| ==> cmp(t[i], t[j]) <= 0
  }

  /** Stable insertion: `x` goes before every element that does not sort
      strictly ahead of it. */
  function Insert<T>(x: T, t: seq<T>, cmp: (T, T) -> int): (r: seq<T>)
    ensures multiset(r) == multiset(t) + multiset{x}
    ensures |r| == |t| + 1
  {
    if |t| == 0 || cmp(x, t[0]) <= 0 then [x] + t
    else
      var r := [t[0]] + Insert(x, t[1..], cmp);
      assert t == [t[0]] + t[1..];
      r
  }

  /** Sorts by inserting each element, last first, into the sorted rest. */
  function SortBy<T>(s: seq<T>, cmp: (T, T) -> int): (r: seq<T>)
    ensures multiset(r) == multiset(s)
    ensures |r| == |s|
  {
    if |s| == 0 then []
    else
      var r := Insert(s[0], SortBy(s[1..], cmp), cmp);
      assert s == [s[0]] + s[1..];
      r
  }

  lemma {:induction false} InsertSorted<T(!new)>(x: T, t: seq<T>, cmp: (T, T) -> int)
    requires IsTotalPreorder(cmp)
    requires SortedBy(t, cmp)
    ensures SortedBy(Insert(x, t, cmp), cmp)
  {
    var r := Insert(x, t, cmp);
    if |t| > 0 && cmp(x, t[0]) > 0 {
      var tail := Insert(x, t[1..], cmp);
      TailSorted(t, cmp);
      InsertSorted(x, t[1..], cmp);
      assert r == [t[0]] + tail;
      InsertAbove(t[0], x, t[1..], cmp);
      forall i, j | 0 <= i < j < |r|
        ensures cmp(r[i], r[j]) <= 0
      {
        assert r[j] == tail[j - 1];
        if i > 0 {
          assert r[i] == tail[i - 1];
        }
      }
    } else if |t| > 0 {
      assert r == [x] + t;
      forall i, j | 0 <= i < j < |r|
        ensures cmp(r[i], r[j]) <= 0
      {
        if i == 0 {
          assert cmp(x, t[0]) <= 0;
          if j > 1 {
            assert cmp(t[0], t[j - 1]) <= 0;
            assert Chain(cmp, x, t[0], t[j - 1]);
          }
        } else {
          assert r[i] == t[i - 1] && r[j] == t[j - 1];
        }
      }
    }
  }

  /** Inserting an element at or above a lower bound of `t` keeps the bound. */
  lemma {:induction false} InsertAbove<T>(b: T, x: T, t: seq<T>, cmp: (T, T) -> int)
    requires cmp(b, x) <= 0
    requires forall k :: 0 <= k < |t| ==> cmp(b, t[k]) <= 0
    ensures forall j :: 0 <= j < |Insert(x, t, cmp)| ==> cmp(b, Insert(x, t, cmp)[j]) <= 0
  {
    if |t| > 0 && cmp(x, t[0]) > 0 {
      InsertAbove(b, x, t[1..], cmp);
      var r := Insert(x, t, cmp);
      forall j | 0 <= j < |r| ensures cmp(b, r[j]) <= 0 {
        if j > 0 {
          assert r[j] == Insert(x, t[1..], cmp)[j - 1];
        }
      }
    } else {
      var r := Insert(x, t, cmp);
      forall j | 0 <= j < |r| ensures cmp(b, r[j]) <= 0 {
        if j > 0 {
          assert r[j] == t[j - 1];
        }
      }
    }
  }

  /** The result is a permutation of the input, in comparator order. */
  lemma {:induction false} SortBySorted<T(!new)>(s: seq<T>, cmp: (T, T) -> int)
    requires IsTotalPreorder(cmp)
    ensures SortedBy(SortBy(s, cmp), cmp)
    ensures multiset(SortBy(s, cmp)) == multiset(s)
  {
    if |s| > 0 {
      SortBySorted(s[1..], cmp);
      InsertSorted(s[0], SortBy(s[1..], cmp), cmp);
    }
  }

  /** The elements comparing equal to `y`, in sequence order. */
  function EquivalentTo<T>(t: seq<T>, y: T, cmp: (T, T) -> int): (r: seq<T>)
    ensures forall i :: 0 <= i < |r| ==> cmp(r[i], y) == 0
  {
    if |t| == 0 then []
    else (if cmp(t[0], y) == 0 then [t[0]] else []) + EquivalentTo(t[1..], y, cmp)
  }

  lemma {:induction false} InsertKeepsEquivalentOrder<T(!new)>(x: T, t: seq<T>, y: T, cmp: (T, T) -> int)
    requires IsTotalPreorder(cmp)
    ensures EquivalentTo(Insert(x, t, cmp), y, cmp)
      == (if cmp(x, y) == 0 then [x] else []) + EquivalentTo(t, y, cmp)
  {
    var r := Insert(x, t, cmp);
    if |t| > 0 && cmp(x, t[0]) > 0 {
      InsertKeepsEquivalentOrder(x, t[1..], y, cmp);
      assert r[1..] == Insert(x, t[1..], cmp);
      if cmp(x, y) == 0 {
        // t[0] sorts strictly before x, hence strictly before y too
        assert cmp(t[0], y) != 0 by {
          if cmp(t[0], y) == 0 {
            assert Chain(cmp, x, y, t[0]);
          }
        }
      }
    } else {
      assert r[1..] == t;
    }
  }

  /** Stability: elements that compare equal keep their input order. */
  lemma {:induction false} SortByStable<T(!new)>(s: seq<T>, y: T, cmp: (T, T) -> int)
    requires IsTotalPreorder(cmp)
    ensures EquivalentTo(SortBy(s, cmp), y, cmp) == EquivalentTo(s, y, cmp)
  {
    if |s| > 0 {
      SortByStable(s[1..], y, cmp);
      InsertKeepsEquivalentOrder(s[0], SortBy(s[1..], cmp), y, cmp);
    }
  }

  /** The head of a sorted sequence sorts no later than any of its elements. */
  lemma HeadIsLeast<T>(a: seq<T>, x: T, cmp: (T, T) -> int)
    requires |a| > 0 && SortedBy(a, cmp) && x in multiset(a)
    requires cmp(a[0], a[0]) == 0
    ensures cmp(a[0], x) <= 0
  {
    var i :| 0 <= i < |a| && a[i] == x;
  }

  lemma TailSorted<T>(a: seq<T>, cmp: (T, T) -> int)
    requires |a| > 0 && SortedBy(a, cmp)
    ensures SortedBy(a[1..], cmp)
  {
    forall i, j | 0 <= i < j < |a[1..]| ensures cmp(a[1..][i], a[1..][j]) <= 0 {
      assert a[1..][i] == a[i + 1] && a[1..][j] == a[j + 1];
    }
  }

  lemma ConsMultiset<T>(a: seq<T>)
    requires |a| > 0
    ensures multiset(a) == multiset{a[0]} + multiset(a[1..])
  {
    assert a == [a[0]] + a[1..];
  }

  lemma TailMultiset<T>(a: seq<T>, b: seq<T>)
    requires |a| > 0 && |b| > 0 && a[0] == b[0] && multiset(a) == multiset(b)
    ensures multiset(a[1..]) == multiset(b[1..])
  {
    ConsMultiset(a);
    ConsMultiset(b);
    assert multiset(a[1..]) == multiset(a) - multiset{a[0]};
  }

  /** Only equal elements of `t` compare equal. */
  ghost predicate TiesAreEqual<T(!new)>(t: seq<T>, cmp: (T, T) -> int) {
    forall x, y :: x in t && y in t && cmp(x, y) == 0 ==> x == y
  }

  /** Sorted arrangements of the same elements start with the same element when
      only equal elements compare equal. */
  lemma SameHead<T(!new)>(a: seq<T>, b: seq<T>, cmp: (T, T) -> int)
    requires IsTotalPreorder(cmp)
    requires |a| > 0 && |b| > 0
    requires SortedBy(a, cmp) && SortedBy(b, cmp) && multiset(a) == multiset(b)
    requires TiesAreEqual(a, cmp)
    ensures a[0] == b[0]
  {
    assert b[0] in multiset(a) && a[0] in multiset(b);
    HeadIsLeast(a, b[0], cmp);
    HeadIsLeast(b, a[0], cmp);
  }

  lemma TailTiesAreEqual<T(!new)>(a: seq<T>, cmp: (T, T) -> int)
    requires |a| > 0 && TiesAreEqual(a, cmp)
    ensures TiesAreEqual(a[1..], cmp)
  {
    assert forall x :: x in a[1..] ==> x in a;
  }

  /** Two sorted arrangements of the same elements are equal when only equal
      elements compare equal. */
  lemma {:induction false} SortedUnique<T(!new)>(a: seq<T>, b: seq<T>, cmp: (T, T) -> int)
    requires IsTotalPreorder(cmp)
    requires SortedBy(a, cmp) && SortedBy(b, cmp) && multiset(a) == multiset(b)
    requires TiesAreEqual(a, cmp)
    ensures a == b
  {
    assert |b| == |a| by { assert |multiset(a)| == |multiset(b)|; }
    if |a| > 0 {
      SameHead(a, b, cmp);
      TailSorted(a, cmp);
      TailSorted(b, cmp);
      TailMultiset(a, b);
      TailTiesAreEqual(a, cmp);
      SortedUnique(a[1..], b[1..], cmp);
      assert a == [a[0]] + a[1..] && b == [b[0]] + b[1..];
    }
  }

  /** With only equal elements tying, the sorted result depends on the elements
      alone, not on the order they came in. */
  lemma SortByIgnoresInputOrder<T(!new)>(a: seq<T>, b: seq<T>, cmp: (T, T) -> int)
    requires IsTotalPreorder(cmp)
    requires multiset(a) == multiset(b) && TiesAreEqual(a, cmp)
    ensures SortBy(a, cmp) == SortBy(b, cmp)
  {
    SortBySorted(a, cmp);
    SortBySorted(b, cmp);
    var sa := SortBy(a, cmp);
    assert forall x :: x in sa ==> x in multiset(a);
    SortedUnique(sa, SortBy(b, cmp), cmp);
  }

  lemma TiesAreEqualOfSameElements<T(!new)>(a: seq<T>, b: seq<T>, cmp: (T, T) -> int)
    requires multiset(a) == multiset(b) && TiesAreEqual(b, cmp)
    ensures TiesAreEqual(a, cmp)
  {
    forall x, y | x in a && y in a && cmp(x, y) == 0 ensures x == y {
      assert x in multiset(b) && y in multiset(b);
    }
  }

  lemma ThreeInOrder<T(!new)>(x: T, y: T, z: T, cmp: (T, T) -> int)
    requires IsTotalPreorder(cmp)
    requires cmp(x, y) < 0 && cmp(y, z) < 0
    ensures SortedBy([x, y, z], cmp) && TiesAreEqual([x, y, z], cmp)
  {
    assert Chain(cmp, x, y, z);
    assert cmp(z, x) <= 0 ==> Chain(cmp, y, z, x);
  }

  /** Three elements in strictly increasing order come out in that order,
      whatever order they are given in. */
  lemma SortThree<T(!new)>(x: T, y: T, z: T, s: seq<T>, cmp: (T, T) -> int)
    requires IsTotalPreorder(cmp)
    requires cmp(x, y) < 0 && cmp(y, z) < 0
    requires multiset(s) == multiset{x, y, z}
    ensures SortBy(s, cmp) == [x, y, z]
  {
    var t := [x, y, z];
    ThreeInOrder(x, y, z, cmp);
    SortBySorted(s, cmp);
    var r := SortBy(s, cmp);
    assert multiset(t) == multiset{x, y, z};
    TiesAreEqualOfSameElements(r, t, cmp);
    SortedUnique(r, t, cmp);
  }
}
