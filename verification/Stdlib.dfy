/** Heap sort and binary search for any three-way comparison. Heap positions count from 1. */
module Stdlib {
  import opened Common

  type Compare<!T> = (T, T) -> int

  /** A strcmp-like comparison: antisymmetric in sign and transitive. */
  ghost predicate Lawful<T(!new)>(cmp: Compare<T>) {
    && (forall a, b :: cmp(a, b) > 0 <==> cmp(b, a) < 0)
    && (forall a, b, c :: cmp(a, b) <= 0 && cmp(b, c) <= 0 ==> cmp(a, c) <= 0)
  }

  predicate Sorted<T>(cmp: Compare<T>, s: seq<T>) {
    forall i, j :: 0 <= i < j < |s| ==> cmp(s[i], s[j]) <= 0
  }

  // ----- heaps -----

  /** The element at position `k` does not exceed the one at position `g`. */
  predicate Under<T>(cmp: Compare<T>, s: seq<T>, k: nat, g: nat)
    requires 1 <= k <= |s| && 1 <= g <= |s|
  {
    cmp(s[k - 1], s[g - 1]) <= 0
  }

  /** The element at position `k` does not exceed its parent. */
  predicate Below<T>(cmp: Compare<T>, s: seq<T>, k: nat)
    requires 2 <= k <= |s|
  {
    Under(cmp, s, k, k / 2)
  }

  /** Heap order for all positions up to `cnt` whose parent is at `from` or later. */
  predicate HeapFrom<T>(cmp: Compare<T>, s: seq<T>, from: nat, cnt: nat)
    requires cnt <= |s|
  {
    forall k :: 2 <= k <= cnt && from <= k / 2 ==> Below(cmp, s, k)
  }

  /** Heap order except between `hole` and its children, which still do not exceed the hole's parent. */
  predicate HeapBut<T>(cmp: Compare<T>, s: seq<T>, from: nat, cnt: nat, hole: nat)
    requires cnt <= |s| && 1 <= from <= hole
  {
    && (forall k :: 2 <= k <= cnt && from <= k / 2 && k / 2 != hole ==> Below(cmp, s, k))
    && (forall k :: 2 <= k <= cnt && k / 2 == hole && from <= hole / 2 ==> Under(cmp, s, k, hole / 2))
  }

  function Swapped<T>(s: seq<T>, a: nat, b: nat): seq<T>
    requires 1 <= a <= |s| && 1 <= b <= |s|
  {
    s[a - 1 := s[b - 1]][b - 1 := s[a - 1]]
  }

  lemma SwappedElements<T>(s: seq<T>, a: nat, b: nat)
    requires 1 <= a <= |s| && 1 <= b <= |s|
    ensures multiset(Swapped(s, a, b)) == multiset(s)
  {
  }

  /** The larger child moved up: the hole moves down to it. */
  lemma HoleMoves<T(!new)>(cmp: Compare<T>, s: seq<T>, from: nat, cnt: nat, hole: nat, max: nat)
    requires Lawful(cmp) && cnt <= |s| && 1 <= from <= hole && HeapBut(cmp, s, from, cnt, hole)
    requires max <= cnt && (max == 2 * hole || max == 2 * hole + 1) && cmp(s[max - 1], s[hole - 1]) >= 0
    requires forall k :: 2 <= k <= cnt && k / 2 == hole ==> Under(cmp, s, k, max)
    ensures HeapBut(cmp, Swapped(s, hole, max), from, cnt, max)
  {
    var t := Swapped(s, hole, max);
    forall k | 2 <= k <= cnt && from <= k / 2 && k / 2 != max
      ensures Below(cmp, t, k)
    {
      if k / 2 == hole {
        assert Under(cmp, s, k, max) && t[hole - 1] == s[max - 1];
      } else if k == hole {
        assert max / 2 == hole && Under(cmp, s, max, hole / 2);
      } else {
        assert Below(cmp, s, k);
      }
    }
    forall k | 2 <= k <= cnt && k / 2 == max
      ensures Under(cmp, t, k, max / 2)
    {
      assert Below(cmp, s, k);
      assert t[k - 1] == s[k - 1] && t[hole - 1] == s[max - 1];
    }
  }

  lemma HoleFilled<T(!new)>(cmp: Compare<T>, s: seq<T>, from: nat, cnt: nat, hole: nat)
    requires cnt <= |s| && 1 <= from <= hole && HeapBut(cmp, s, from, cnt, hole)
    requires forall k :: 2 <= k <= cnt && k / 2 == hole ==> Below(cmp, s, k)
    ensures HeapFrom(cmp, s, from, cnt)
  {
  }

  /** The first element of a heap is the largest. */
  lemma {:induction false} RootIsLargest<T(!new)>(cmp: Compare<T>, s: seq<T>, cnt: nat, k: nat)
    requires Lawful(cmp) && cnt <= |s| && HeapFrom(cmp, s, 1, cnt) && 1 <= k <= cnt
    ensures cmp(s[k - 1], s[0]) <= 0
  {
    if k > 1 {
      RootIsLargest(cmp, s, cnt, k / 2);
      assert Below(cmp, s, k);
    }
  }

  // ----- in place -----

  method DoSwap<T>(a: array<T>, i: nat, j: nat)
    requires 1 <= i <= a.Length && 1 <= j <= a.Length
    modifies a
    ensures a[..] == Swapped(old(a[..]), i, j)
  {
    a[i - 1], a[j - 1] := a[j - 1], a[i - 1];
  }

  /** Position of the largest among `i` and its children. */
  method LargestOf<T(!new)>(cmp: Compare<T>, a: array<T>, i: nat, cnt: nat) returns (max: nat)
    requires Lawful(cmp) && 1 <= i <= cnt <= a.Length
    ensures max == i || (max <= cnt && (max == 2 * i || max == 2 * i + 1))
    ensures cmp(a[max - 1], a[i - 1]) >= 0
    ensures forall k :: 2 <= k <= cnt && k / 2 == i ==> Under(cmp, a[..], k, max)
  {
    max := i;
    if 2 * i <= cnt && cmp(a[2 * i - 1], a[max - 1]) > 0 {
      max := 2 * i;
    }
    ghost var left := max;
    if 2 * i + 1 <= cnt && cmp(a[2 * i], a[max - 1]) > 0 {
      max := 2 * i + 1;
    }
    assert cmp(a[left - 1], a[max - 1]) <= 0 && cmp(a[i - 1], a[left - 1]) <= 0;
    forall k | 2 <= k <= cnt && k / 2 == i
      ensures Under(cmp, a[..], k, max)
    {
      assert k == 2 * i || k == 2 * i + 1;
    }
  }

  /** heapify: restores heap order from position `i` on, permuting only the heap. */
  method Heapify<T(!new)>(cmp: Compare<T>, a: array<T>, i: nat, cnt: nat)
    requires Lawful(cmp) && 1 <= i <= cnt <= a.Length && HeapFrom(cmp, a[..], i + 1, cnt)
    modifies a
    ensures HeapFrom(cmp, a[..], i, cnt)
    ensures multiset(a[..cnt]) == multiset(old(a[..cnt])) && a[cnt..] == old(a[cnt..])
  {
    var j := i;
    while true
      invariant i <= j <= cnt && HeapBut(cmp, a[..], i, cnt, j)
      invariant multiset(a[..cnt]) == multiset(old(a[..cnt])) && a[cnt..] == old(a[cnt..])
      decreases cnt - j
    {
      var max := LargestOf(cmp, a, j, cnt);
      if max == j {
        HoleFilled(cmp, a[..], i, cnt, j);
        break;
      }
      HoleMoves(cmp, a[..], i, cnt, j, max);
      SwapInside(a[..], j, max, cnt);
      DoSwap(a, j, max);
      j := max;
    }
  }

  lemma SwapInside<T>(s: seq<T>, i: nat, j: nat, cnt: nat)
    requires 1 <= i <= cnt <= |s| && 1 <= j <= cnt
    ensures multiset(Swapped(s, i, j)[..cnt]) == multiset(s[..cnt]) && Swapped(s, i, j)[cnt..] == s[cnt..]
  {
    assert Swapped(s, i, j)[..cnt] == Swapped(s[..cnt], i, j);
    SwappedElements(s[..cnt], i, j);
  }

  // ----- sorting -----

  /** Every element of the heap is at most every element after it. */
  predicate Bounded<T>(cmp: Compare<T>, s: seq<T>, cnt: nat)
    requires cnt <= |s|
  {
    forall i, j :: 0 <= i < cnt <= j < |s| ==> cmp(s[i], s[j]) <= 0
  }

  /** Permuting the part before `cnt` keeps it below the rest. */
  lemma BoundedPermuted<T>(cmp: Compare<T>, s: seq<T>, t: seq<T>, cnt: nat)
    requires cnt <= |s| == |t| && multiset(t[..cnt]) == multiset(s[..cnt]) && t[cnt..] == s[cnt..] && Bounded(cmp, s, cnt)
    ensures Bounded(cmp, t, cnt)
  {
    forall i, j | 0 <= i < cnt <= j < |t|
      ensures cmp(t[i], t[j]) <= 0
    {
      assert t[..cnt][i] in multiset(t[..cnt]);
      var k :| 0 <= k < cnt && s[..cnt][k] == t[i];
      assert t[j] == t[cnt..][j - cnt] == s[cnt..][j - cnt] == s[j];
    }
  }

  predicate SortedFrom<T>(cmp: Compare<T>, s: seq<T>, n: nat) {
    forall i, j :: n <= i < j < |s| ==> cmp(s[i], s[j]) <= 0
  }

  /** Moving the root of the heap behind it keeps the heap below the rest, */
  lemma RootBounds<T(!new)>(cmp: Compare<T>, s: seq<T>, n: nat)
    requires Lawful(cmp) && 2 <= n <= |s| && HeapFrom(cmp, s, 1, n) && Bounded(cmp, s, n)
    ensures Bounded(cmp, Swapped(s, 1, n), n - 1)
  {
    var t := Swapped(s, 1, n);
    forall i, j | 0 <= i < n - 1 <= j < |t|
      ensures cmp(t[i], t[j]) <= 0
    {
      var k := if i == 0 then n else i + 1;
      assert t[i] == s[k - 1];
      if j == n - 1 {
        RootIsLargest(cmp, s, n, k);
      }
    }
  }

  /** extends the sorted part, */
  lemma RootExtends<T(!new)>(cmp: Compare<T>, s: seq<T>, n: nat)
    requires 2 <= n <= |s| && Bounded(cmp, s, n) && SortedFrom(cmp, s, n)
    ensures SortedFrom(cmp, Swapped(s, 1, n), n - 1)
  {
    var t := Swapped(s, 1, n);
    forall i, j | n - 1 <= i < j < |t|
      ensures cmp(t[i], t[j]) <= 0
    {
      assert t[j] == s[j] && (i > n - 1 ==> t[i] == s[i]) && t[n - 1] == s[0];
    }
  }

  /** and disturbs the heap order only at the root. */
  lemma RootHole<T>(cmp: Compare<T>, s: seq<T>, n: nat)
    requires 2 <= n <= |s| && HeapFrom(cmp, s, 1, n)
    ensures HeapFrom(cmp, Swapped(s, 1, n), 2, n - 1)
  {
    forall k | 2 <= k <= n - 1 && 2 <= k / 2
      ensures Below(cmp, Swapped(s, 1, n), k)
    {
      assert Below(cmp, s, k);
    }
  }

  /** sort: leaves a sorted permutation of the input. */
  method Sort<T(!new)>(cmp: Compare<T>, a: array<T>)
    requires Lawful(cmp)
    modifies a
    ensures Sorted(cmp, a[..]) && multiset(a[..]) == multiset(old(a[..]))
  {
    BuildHeap(cmp, a);
    var n: nat := a.Length;
    while n > 1
      invariant n <= a.Length && HeapFrom(cmp, a[..], 1, n) && Bounded(cmp, a[..], n) && SortedFrom(cmp, a[..], n)
      invariant multiset(a[..]) == multiset(old(a[..]))
    {
      TakeRoot(cmp, a, n);
      n := n - 1;
    }
  }

  method BuildHeap<T(!new)>(cmp: Compare<T>, a: array<T>)
    requires Lawful(cmp)
    modifies a
    ensures HeapFrom(cmp, a[..], 1, a.Length) && multiset(a[..]) == multiset(old(a[..]))
  {
    var cnt := a.Length;
    var i: nat := cnt / 2;
    while i > 0
      invariant i <= cnt / 2 && HeapFrom(cmp, a[..], i + 1, cnt)
      invariant multiset(a[..]) == multiset(old(a[..]))
    {
      ghost var before := a[..];
      Heapify(cmp, a, i, cnt);
      assert a[..cnt] == a[..] && before[..cnt] == before;
      i := i - 1;
    }
  }

  lemma WholeFromParts<T>(s: seq<T>, t: seq<T>, n: nat)
    requires n <= |s| == |t| && multiset(t[..n]) == multiset(s[..n]) && t[n..] == s[n..]
    ensures multiset(t) == multiset(s)
    ensures forall j :: n <= j < |s| ==> t[j] == s[j]
  {
    assert t == t[..n] + t[n..] && s == s[..n] + s[n..];
    forall j | n <= j < |s|
      ensures t[j] == s[j]
    {
      assert t[j] == t[n..][j - n] && s[j] == s[n..][j - n];
    }
  }

  method TakeRoot<T(!new)>(cmp: Compare<T>, a: array<T>, n: nat)
    requires Lawful(cmp) && 2 <= n <= a.Length
    requires HeapFrom(cmp, a[..], 1, n) && Bounded(cmp, a[..], n) && SortedFrom(cmp, a[..], n)
    modifies a
    ensures HeapFrom(cmp, a[..], 1, n - 1) && Bounded(cmp, a[..], n - 1) && SortedFrom(cmp, a[..], n - 1)
    ensures multiset(a[..]) == multiset(old(a[..]))
  {
    ghost var s := a[..];
    RootBounds(cmp, s, n);
    RootExtends(cmp, s, n);
    RootHole(cmp, s, n);
    SwappedElements(s, 1, n);
    DoSwap(a, 1, n);
    FloatRoot(cmp, a, n - 1);
  }

  method FloatRoot<T(!new)>(cmp: Compare<T>, a: array<T>, n: nat)
    requires Lawful(cmp) && 1 <= n <= a.Length
    requires HeapFrom(cmp, a[..], 2, n) && Bounded(cmp, a[..], n) && SortedFrom(cmp, a[..], n)
    modifies a
    ensures HeapFrom(cmp, a[..], 1, n) && Bounded(cmp, a[..], n) && SortedFrom(cmp, a[..], n)
    ensures multiset(a[..]) == multiset(old(a[..]))
  {
    ghost var s := a[..];
    Heapify(cmp, a, 1, n);
    assert a[..n] == a[..][..n] && a[n..] == a[..][n..];
    WholeFromParts(s, a[..], n);
    BoundedPermuted(cmp, s, a[..], n);
  }

  /** binary_search: finds an element equal to the key exactly when there is one. */
  method BinarySearch<T(!new)>(cmp: Compare<T>, key: T, a: array<T>) returns (r: Option<nat>)
    requires Lawful(cmp) && Sorted(cmp, a[..])
    ensures r.Some? ==> r.value < a.Length && cmp(key, a[r.value]) == 0
    ensures r.None? ==> forall i :: 0 <= i < a.Length ==> cmp(key, a[i]) != 0
  {
    var first: nat, last: nat := 0, a.Length;
    while first < last
      invariant first <= last <= a.Length
      invariant forall i :: 0 <= i < first ==> cmp(key, a[i]) > 0
      invariant forall i :: last <= i < a.Length ==> cmp(key, a[i]) < 0
    {
      var middle := first + (last - first) / 2;
      Split(cmp, key, a[..], middle);
      if cmp(key, a[middle]) < 0 {
        last := middle;
      } else if cmp(key, a[middle]) > 0 {
        first := middle + 1;
      } else {
        return Some(middle);
      }
    }
    return None;
  }

  lemma LessThenAtMost<T(!new)>(cmp: Compare<T>, a: T, b: T, c: T)
    requires Lawful(cmp) && cmp(b, c) <= 0
    ensures cmp(a, b) < 0 ==> cmp(a, c) < 0
    ensures cmp(a, c) > 0 ==> cmp(a, b) > 0
  {
    assert cmp(c, a) <= 0 ==> cmp(b, a) <= 0;
    assert cmp(a, b) <= 0 ==> cmp(a, c) <= 0;
  }

  /** A comparison with one element of a sorted sequence decides one side of it. */
  lemma Split<T(!new)>(cmp: Compare<T>, key: T, s: seq<T>, m: nat)
    requires Lawful(cmp) && Sorted(cmp, s) && m < |s|
    ensures cmp(key, s[m]) < 0 ==> forall i :: m <= i < |s| ==> cmp(key, s[i]) < 0
    ensures cmp(key, s[m]) > 0 ==> forall i :: 0 <= i <= m ==> cmp(key, s[i]) > 0
  {
    forall i | m < i < |s|
      ensures cmp(key, s[m]) < 0 ==> cmp(key, s[i]) < 0
    {
      LessThenAtMost(cmp, key, s[m], s[i]);
    }
    forall i | 0 <= i < m
      ensures cmp(key, s[m]) > 0 ==> cmp(key, s[i]) > 0
    {
      LessThenAtMost(cmp, key, s[i], s[m]);
    }
  }
}
