/**
 * The stable sort behind sortEmployees and sortPositions: sort.SliceStable with a
 * comparator of the form "key of x is less than key of y".
 *
 * The module is generic in the element type T, the key function and the order on
 * keys, so that it states what sort.SliceStable promises for any such comparator.
 * SortedBy is the specification: a stable insertion sort written as a function.
 * Its meaning is proved once and for all: when the order on keys is a strict total
 * order, the result is sorted, is a permutation of the input, keeps the input order
 * inside every group of equal keys, and is the only sequence with those three
 * properties. So every stable sort with this comparator, whatever its algorithm,
 * produces exactly SortedBy. InsertionSort is an in-place algorithm on an array,
 * proved to compute SortedBy.
 */
module StableSort {

  /** less is a strict total order: irreflexive, transitive, and any two keys are equal or ordered. */
  ghost predicate StrictTotalOrder<K(!new)>(less: (K, K) -> bool)
  {
    && (forall a :: !less(a, a))
    && (forall a, b, c :: less(a, b) && less(b, c) ==> less(a, c))
    && (forall a, b :: less(a, b) || a == b || less(b, a))
  }

  /** No element is followed by one with a strictly smaller key. */
  ghost predicate Sorted<T, K>(s: seq<T>, key: T -> K, less: (K, K) -> bool)
  {
    forall i, j :: 0 <= i < j < |s| ==> !less(key(s[j]), key(s[i]))
  }

  /** The elements of s whose key is k, in the order they have in s. */
  ghost function WithKey<T, K>(s: seq<T>, key: T -> K, k: K): seq<T>
  {
    if s == [] then []
    else WithKey(s[..|s| - 1], key, k) + (if key(s[|s| - 1]) == k then [s[|s| - 1]] else [])
  }

  /** t is a stable sort of s: sorted, a permutation, and every group of equal keys in input order. */
  ghost predicate IsStableSortOf<T, K(!new)>(t: seq<T>, s: seq<T>, key: T -> K, less: (K, K) -> bool)
  {
    && Sorted(t, key, less)
    && multiset(t) == multiset(s)
    && forall k :: WithKey(t, key, k) == WithKey(s, key, k)
  }

  /** Places x after the trailing elements of t whose key is strictly greater than x's. */
  ghost function Insert<T, K>(t: seq<T>, x: T, key: T -> K, less: (K, K) -> bool): seq<T>
  {
    if t == [] || !less(key(x), key(t[|t| - 1])) then t + [x]
    else Insert(t[..|t| - 1], x, key, less) + [t[|t| - 1]]
  }

  /** Stable insertion sort: each element in turn is inserted into the sorted prefix before it. */
  ghost function SortedBy<T, K>(s: seq<T>, key: T -> K, less: (K, K) -> bool): seq<T>
  {
    if s == [] then [] else Insert(SortedBy(s[..|s| - 1], key, less), s[|s| - 1], key, less)
  }

  /** The elements of WithKey(s, key, k) are exactly the elements of s with key k. */
  lemma {:induction false} WithKeyMembers<T, K>(s: seq<T>, key: T -> K, k: K)
    ensures forall e :: e in WithKey(s, key, k) <==> e in s && key(e) == k
  {
    if s != [] {
      var s' := s[..|s| - 1];
      WithKeyMembers(s', key, k);
      assert s == s' + [s[|s| - 1]];
    }
  }

  lemma {:induction false} InsertPermutes<T, K>(t: seq<T>, x: T, key: T -> K, less: (K, K) -> bool)
    ensures multiset(Insert(t, x, key, less)) == multiset(t) + multiset{x}
  {
    if t != [] && less(key(x), key(t[|t| - 1])) {
      var t' := t[..|t| - 1];
      InsertPermutes(t', x, key, less);
      assert t == t' + [t[|t| - 1]];
    }
  }

  lemma {:induction false} InsertKeepsSorted<T, K(!new)>(t: seq<T>, x: T, key: T -> K, less: (K, K) -> bool)
    requires StrictTotalOrder(less)
    requires Sorted(t, key, less)
    ensures Sorted(Insert(t, x, key, less), key, less)
  {
    if t != [] {
      var n := |t| - 1;
      var last := t[n];
      if !less(key(x), key(last)) {
        var r := t + [x];
        assert forall i :: 0 <= i < |t| ==> r[i] == t[i];
        assert forall i :: 0 <= i < n ==> !less(key(last), key(t[i]));
      } else {
        var t' := t[..n];
        assert Sorted(t', key, less);
        InsertKeepsSorted(t', x, key, less);
        InsertPermutes(t', x, key, less);
        var r' := Insert(t', x, key, less);
        forall i | 0 <= i < |r'|
          ensures !less(key(last), key(r'[i]))
        {
          assert r'[i] in multiset(r');
          if r'[i] != x {
            assert r'[i] in t';
            var j :| 0 <= j < n && t'[j] == r'[i];
            assert t[j] == r'[i];
          }
        }
        var r := r' + [last];
        assert forall i :: 0 <= i < |r'| ==> r[i] == r'[i];
      }
    }
  }

  lemma {:induction false} InsertKeepsGroups<T, K(!new)>(t: seq<T>, x: T, key: T -> K, less: (K, K) -> bool, k: K)
    requires StrictTotalOrder(less)
    ensures WithKey(Insert(t, x, key, less), key, k) == WithKey(t, key, k) + (if key(x) == k then [x] else [])
  {
    if t == [] || !less(key(x), key(t[|t| - 1])) {
      assert (t + [x])[..|t|] == t;
    } else {
      var t' := t[..|t| - 1];
      var last := t[|t| - 1];
      var r' := Insert(t', x, key, less);
      InsertKeepsGroups(t', x, key, less, k);
      assert (r' + [last])[..|r'|] == r';
    }
  }

  lemma {:induction false} SortedBySorted<T, K(!new)>(s: seq<T>, key: T -> K, less: (K, K) -> bool)
    requires StrictTotalOrder(less)
    ensures Sorted(SortedBy(s, key, less), key, less)
  {
    if s != [] {
      SortedBySorted(s[..|s| - 1], key, less);
      InsertKeepsSorted(SortedBy(s[..|s| - 1], key, less), s[|s| - 1], key, less);
    }
  }

  lemma {:induction false} SortedByPermutes<T, K>(s: seq<T>, key: T -> K, less: (K, K) -> bool)
    ensures multiset(SortedBy(s, key, less)) == multiset(s)
  {
    if s != [] {
      var s' := s[..|s| - 1];
      SortedByPermutes(s', key, less);
      InsertPermutes(SortedBy(s', key, less), s[|s| - 1], key, less);
      assert s == s' + [s[|s| - 1]];
    }
  }

  lemma {:induction false} SortedByKeepsGroups<T, K(!new)>(s: seq<T>, key: T -> K, less: (K, K) -> bool, k: K)
    requires StrictTotalOrder(less)
    ensures WithKey(SortedBy(s, key, less), key, k) == WithKey(s, key, k)
  {
    if s != [] {
      var s' := s[..|s| - 1];
      SortedByKeepsGroups(s', key, less, k);
      InsertKeepsGroups(SortedBy(s', key, less), s[|s| - 1], key, less, k);
    }
  }

  /** SortedBy is a stable sort. */
  lemma SortedByIsStableSort<T, K(!new)>(s: seq<T>, key: T -> K, less: (K, K) -> bool)
    requires StrictTotalOrder(less)
    ensures IsStableSortOf(SortedBy(s, key, less), s, key, less)
  {
    SortedBySorted(s, key, less);
    SortedByPermutes(s, key, less);
    forall k
      ensures WithKey(SortedBy(s, key, less), key, k) == WithKey(s, key, k)
    {
      SortedByKeepsGroups(s, key, less, k);
    }
  }

  /** Sorting a sorted sequence changes nothing. */
  lemma {:induction false} SortedIsFixed<T, K>(s: seq<T>, key: T -> K, less: (K, K) -> bool)
    requires Sorted(s, key, less)
    ensures SortedBy(s, key, less) == s
  {
    if s != [] {
      var s', last := s[..|s| - 1], s[|s| - 1];
      assert Sorted(s', key, less) by {
        forall i, j | 0 <= i < j < |s'| ensures !less(key(s'[j]), key(s'[i])) {
          assert s'[i] == s[i] && s'[j] == s[j];
        }
      }
      SortedIsFixed(s', key, less);
      if s' != [] {
        assert !less(key(last), key(s'[|s'| - 1])) by {
          assert s'[|s'| - 1] == s[|s| - 2];
        }
      }
      assert Insert(s', last, key, less) == s' + [last];
      assert s == s' + [last];
    }
  }

  /** Sorting twice is sorting once. */
  lemma SortedByIdempotent<T, K(!new)>(s: seq<T>, key: T -> K, less: (K, K) -> bool)
    requires StrictTotalOrder(less)
    ensures SortedBy(SortedBy(s, key, less), key, less) == SortedBy(s, key, less)
  {
    SortedBySorted(s, key, less);
    SortedIsFixed(SortedBy(s, key, less), key, less);
  }

  /** The last element of a sorted sequence has a key no smaller than that of any element. */
  lemma LastIsGreatest<T, K(!new)>(u: seq<T>, e: T, key: T -> K, less: (K, K) -> bool)
    requires StrictTotalOrder(less)
    requires Sorted(u, key, less) && e in u
    ensures !less(key(u[|u| - 1]), key(e))
  {
    var i :| 0 <= i < |u| && u[i] == e;
    if i < |u| - 1 {
      assert !less(key(u[|u| - 1]), key(u[i]));
    }
  }

  /** The key of the last element of a non-empty sequence has a non-empty group. */
  lemma LastKeyHasGroup<T, K>(s: seq<T>, key: T -> K)
    requires s != []
    ensures WithKey(s, key, key(s[|s| - 1])) != []
  {
  }

  /**
   * Two non-empty sorted sequences with the same groups end in elements with the same key:
   * the last element of each is in the other, so neither last key is below the other.
   */
  lemma LastKeysAgree<T, K(!new)>(t: seq<T>, u: seq<T>, key: T -> K, less: (K, K) -> bool)
    requires StrictTotalOrder(less)
    requires t != [] && u != []
    requires Sorted(t, key, less) && Sorted(u, key, less)
    requires forall k :: WithKey(t, key, k) == WithKey(u, key, k)
    ensures key(t[|t| - 1]) == key(u[|u| - 1])
  {
    var tl, ul := t[|t| - 1], u[|u| - 1];
    var kt, ku := key(tl), key(ul);
    assert WithKey(t, key, kt) == WithKey(t[..|t| - 1], key, kt) + [tl];
    assert WithKey(u, key, ku) == WithKey(u[..|u| - 1], key, ku) + [ul];
    WithKeyMembers(u, key, kt);
    LastIsGreatest(u, tl, key, less);
    WithKeyMembers(t, key, ku);
    LastIsGreatest(t, ul, key, less);
  }

  /** Two sorted sequences with the same groups of equal keys are the same sequence. */
  lemma {:induction false} SameGroupsSameOrder<T, K(!new)>(t: seq<T>, u: seq<T>, key: T -> K, less: (K, K) -> bool)
    requires StrictTotalOrder(less)
    requires Sorted(t, key, less) && Sorted(u, key, less)
    requires forall k :: WithKey(t, key, k) == WithKey(u, key, k)
    ensures t == u
    decreases |t| + |u|
  {
    if t == [] || u == [] {
      // The empty one has no groups at all, so the other one is empty too.
      if t != [] {
        LastKeyHasGroup(t, key);
      } else if u != [] {
        LastKeyHasGroup(u, key);
      }
    } else {
      var t', u' := t[..|t| - 1], u[..|u| - 1];
      var tl, ul := t[|t| - 1], u[|u| - 1];
      var kt, ku := key(tl), key(ul);
      LastKeysAgree(t, u, key, less);
      // Both last elements are then the last of the same group.
      var gt, gu := WithKey(t', key, kt), WithKey(u', key, kt);
      assert gt + [tl] == gu + [ul];
      assert tl == ul && gt == gu by {
        assert (gt + [tl])[|gt|] == tl && (gu + [ul])[|gu|] == ul;
        assert (gt + [tl])[..|gt|] == gt && (gu + [ul])[..|gu|] == gu;
      }
      forall k
        ensures WithKey(t', key, k) == WithKey(u', key, k)
      {
        if k != kt {
          assert WithKey(t, key, k) == WithKey(t', key, k);
          assert WithKey(u, key, k) == WithKey(u', key, k);
        }
      }
      assert Sorted(t', key, less) && Sorted(u', key, less);
      SameGroupsSameOrder(t', u', key, less);
      assert t == t' + [tl] && u == u' + [ul];
    }
  }

  /** Any stable sort of s is SortedBy(s): the stable order is unique. */
  lemma StableSortIsUnique<T, K(!new)>(s: seq<T>, t: seq<T>, key: T -> K, less: (K, K) -> bool)
    requires StrictTotalOrder(less)
    requires IsStableSortOf(t, s, key, less)
    ensures t == SortedBy(s, key, less)
  {
    SortedByIsStableSort(s, key, less);
    SameGroupsSameOrder(t, SortedBy(s, key, less), key, less);
  }

  /** One swap of InsertAt: x passes over t[j - 1], whose key is greater. */
  lemma InsertStep<T, K>(t: seq<T>, x: T, j: nat, key: T -> K, less: (K, K) -> bool)
    requires 0 < j <= |t| && less(key(x), key(t[j - 1]))
    ensures Insert(t[..j], x, key, less) + t[j..] == Insert(t[..j - 1], x, key, less) + t[j - 1..]
  {
    assert t[..j][..j - 1] == t[..j - 1];
    assert t[j - 1..] == [t[j - 1]] + t[j..];
  }

  /**
   * One step of insertion sort: a[..i] is sorted, and a[i] moves left past every element
   * whose key is strictly greater, by adjacent swaps.
   */
  method InsertAt<T, K>(a: array<T>, i: nat, key: T -> K, less: (K, K) -> bool)
    requires i < a.Length
    modifies a
    ensures a[..i + 1] == Insert(old(a[..i]), old(a[i]), key, less)
    ensures a[i + 1..] == old(a[i + 1..])
  {
    ghost var t := a[..i];
    ghost var rest := a[i + 1..];
    var x := a[i];
    var j := i;
    assert t[..j] == t && t[j..] == [];
    while j > 0 && less(key(x), key(a[j - 1]))
      invariant 0 <= j <= i
      invariant forall m :: 0 <= m < j ==> a[m] == t[m]
      invariant a[j] == x
      invariant forall m :: j < m <= i ==> a[m] == t[m - 1]
      invariant a[i + 1..] == rest
      invariant Insert(t, x, key, less) == Insert(t[..j], x, key, less) + t[j..]
    {
      InsertStep(t, x, j, key, less);
      a[j - 1], a[j] := a[j], a[j - 1];
      j := j - 1;
    }
    assert Insert(t[..j], x, key, less) == t[..j] + [x];
    assert a[..i + 1] == t[..j] + [x] + t[j..];
  }

  /** In-place stable insertion sort of a, by the comparator "key of x is less than key of y". */
  method InsertionSort<T, K>(a: array<T>, key: T -> K, less: (K, K) -> bool)
    modifies a
    ensures a[..] == SortedBy(old(a[..]), key, less)
  {
    ghost var s0 := a[..];
    for i := 0 to a.Length
      invariant a[..i] == SortedBy(s0[..i], key, less)
      invariant a[i..] == s0[i..]
    {
      assert a[i] == s0[i];
      InsertAt(a, i, key, less);
      assert s0[..i + 1][..i] == s0[..i];
    }
    assert s0[..a.Length] == s0;
  }
}
