/** Runs and merging of sequences of list elements: what the natural merge sort computes. */
module ListTheory {
  /** An intrusive list element.  `value` stands for the structure it is embedded in. */
  class Elem<T> {
    const value: T
    var prev: Elem?<T>
    var next: Elem?<T>

    constructor (v: T)
      ensures value == v && prev == null && next == null
    {
      value, prev, next := v, null, null;
    }
  }

  /** What list_less_func must be. */
  ghost predicate StrictWeakOrder<T(!new)>(less: (T, T) -> bool) {
    && (forall a, b :: less(a, b) ==> !less(b, a))
    && (forall a, b, c :: !less(a, b) && !less(b, c) ==> !less(a, c))
  }

  ghost predicate Ordered<T>(less: (T, T) -> bool, s: seq<Elem<T>>) {
    forall i, j :: 0 <= i < j < |s| ==> !less(s[j].value, s[i].value)
  }

  /** The elements of `s` equivalent to `v`, in order. */
  function Class<T>(less: (T, T) -> bool, v: T, s: seq<Elem<T>>): seq<Elem<T>> {
    if s == [] then [] else
    (if !less(v, s[0].value) && !less(s[0].value, v) then [s[0]] else []) + Class(less, v, s[1..])
  }

  /** `r` is `s` sorted, with equivalent elements in their original order. */
  ghost predicate IsStableSort<T(!new)>(less: (T, T) -> bool, s: seq<Elem<T>>, r: seq<Elem<T>>) {
    && Ordered(less, r)
    && multiset(r) == multiset(s)
    && forall v :: Class(less, v, r) == Class(less, v, s)
  }

  // ----- merging -----

  function Merge<T>(less: (T, T) -> bool, a: seq<Elem<T>>, b: seq<Elem<T>>): seq<Elem<T>>
    decreases |a| + |b|
  {
    if a == [] then b
    else if b == [] then a
    else if !less(b[0].value, a[0].value) then [a[0]] + Merge(less, a[1..], b)
    else [b[0]] + Merge(less, a, b[1..])
  }

  lemma {:induction false} MergeElements<T>(less: (T, T) -> bool, a: seq<Elem<T>>, b: seq<Elem<T>>)
    ensures multiset(Merge(less, a, b)) == multiset(a) + multiset(b)
    ensures |Merge(less, a, b)| == |a| + |b|
    decreases |a| + |b|
  {
    if a != [] && b != [] {
      var a', b' := a[1..], b[1..];
      assert a == [a[0]] + a' && b == [b[0]] + b';
      if !less(b[0].value, a[0].value) {
        MergeElements(less, a', b);
        assert Merge(less, a, b) == [a[0]] + Merge(less, a', b);
      } else {
        MergeElements(less, a, b');
        assert Merge(less, a, b) == [b[0]] + Merge(less, a, b');
      }
    }
  }

  /** Every element of the merge comes from one of the two sides. */
  lemma MergeMember<T>(less: (T, T) -> bool, a: seq<Elem<T>>, b: seq<Elem<T>>, k: nat)
    requires k < |Merge(less, a, b)|
    ensures Merge(less, a, b)[k] in a || Merge(less, a, b)[k] in b
  {
    MergeElements(less, a, b);
    assert Merge(less, a, b)[k] in multiset(Merge(less, a, b));
  }

  lemma {:induction false} MergeOrdered<T(!new)>(less: (T, T) -> bool, a: seq<Elem<T>>, b: seq<Elem<T>>)
    requires StrictWeakOrder(less) && Ordered(less, a) && Ordered(less, b)
    ensures Ordered(less, Merge(less, a, b))
    decreases |a| + |b|
  {
    if a != [] && b != [] {
      if !less(b[0].value, a[0].value) {
        MergeOrdered(less, a[1..], b);
        OrderedCons(less, a[0], a[1..], b);
      } else {
        MergeOrdered(less, a, b[1..]);
        OrderedCons(less, b[0], a, b[1..]);
      }
    }
  }

  /** An element not above anything on either side can be put in front of their merge. */
  lemma OrderedCons<T(!new)>(less: (T, T) -> bool, x: Elem<T>, a: seq<Elem<T>>, b: seq<Elem<T>>)
    requires StrictWeakOrder(less) && Ordered(less, Merge(less, a, b))
    requires Ordered(less, [x] + a) || (a != [] && !less(a[0].value, x.value) && Ordered(less, a))
    requires Ordered(less, [x] + b) || (b != [] && !less(b[0].value, x.value) && Ordered(less, b))
    ensures Ordered(less, [x] + Merge(less, a, b))
  {
    var m := Merge(less, a, b);
    forall k | 0 <= k < |m|
      ensures !less(m[k].value, x.value)
    {
      MergeMember(less, a, b, k);
      if m[k] in a {
        Below(less, x, a, m[k]);
      } else {
        Below(less, x, b, m[k]);
      }
    }
  }

  lemma Below<T(!new)>(less: (T, T) -> bool, x: Elem<T>, a: seq<Elem<T>>, y: Elem<T>)
    requires StrictWeakOrder(less) && y in a
    requires Ordered(less, [x] + a) || (a != [] && !less(a[0].value, x.value) && Ordered(less, a))
    ensures !less(y.value, x.value)
  {
    var k :| 0 <= k < |a| && a[k] == y;
    assert ([x] + a)[k + 1] == y && ([x] + a)[0] == x;
    if a != [] && !less(a[0].value, x.value) && Ordered(less, a) {
      assert !less(a[k].value, a[0].value);
    }
  }

  lemma {:induction false} ClassAppend<T>(less: (T, T) -> bool, v: T, a: seq<Elem<T>>, b: seq<Elem<T>>)
    ensures Class(less, v, a + b) == Class(less, v, a) + Class(less, v, b)
  {
    if a == [] {
      assert a + b == b;
    } else {
      var x, t := a[0], a[1..];
      ClassAppend(less, v, t, b);
      ClassCons(less, v, x, t);
      ClassCons(less, v, x, t + b);
      assert a == [x] + t;
      assert a + b == [x] + (t + b);
    }
  }

  lemma ClassCons<T>(less: (T, T) -> bool, v: T, x: Elem<T>, t: seq<Elem<T>>)
    ensures Class(less, v, [x] + t) ==
            (if !less(v, x.value) && !less(x.value, v) then [x] else []) + Class(less, v, t)
  {
    assert ([x] + t)[1..] == t;
  }

  lemma {:induction false} ClassEmpty<T>(less: (T, T) -> bool, v: T, s: seq<Elem<T>>)
    requires forall e :: e in s ==> less(v, e.value)
    ensures Class(less, v, s) == []
  {
    if s != [] {
      ClassEmpty(less, v, s[1..]);
    }
  }

  /** Merging keeps equivalent elements in order, those of `a` before those of `b`. */
  lemma {:induction false} MergeStable<T(!new)>(less: (T, T) -> bool, v: T, a: seq<Elem<T>>, b: seq<Elem<T>>)
    requires StrictWeakOrder(less) && Ordered(less, a) && Ordered(less, b)
    ensures Class(less, v, Merge(less, a, b)) == Class(less, v, a) + Class(less, v, b)
    decreases |a| + |b|
  {
    if a != [] && b != [] {
      var x, y, a', b' := a[0], b[0], a[1..], b[1..];
      assert a == [x] + a' && b == [y] + b';
      if !less(y.value, x.value) {
        MergeStable(less, v, a', b);
        ClassCons(less, v, x, a');
        ClassCons(less, v, x, Merge(less, a', b));
      } else {
        MergeStable(less, v, a, b');
        ClassCons(less, v, y, b');
        ClassCons(less, v, y, Merge(less, a, b'));
        if !less(v, y.value) && !less(y.value, v) {
          ClassAbove(less, v, y, a);
        }
      }
    }
  }

  /** Nothing in a sorted sequence that starts above `y` is equivalent to what `y` is equivalent to. */
  lemma ClassAbove<T(!new)>(less: (T, T) -> bool, v: T, y: Elem<T>, a: seq<Elem<T>>)
    requires StrictWeakOrder(less) && Ordered(less, a) && a != [] && less(y.value, a[0].value)
    requires !less(v, y.value) && !less(y.value, v)
    ensures Class(less, v, a) == []
  {
    forall e | e in a
      ensures less(v, e.value)
    {
      assert !less(e.value, a[0].value);
      assert less(y.value, e.value);
    }
    ClassEmpty(less, v, a);
  }

  // ----- runs -----

  /** Length of the longest nondecreasing run at the front. */
  function RunLen<T>(less: (T, T) -> bool, s: seq<Elem<T>>): (r: nat)
    requires s != []
    ensures 1 <= r <= |s|
  {
    if |s| == 1 || less(s[1].value, s[0].value) then 1 else 1 + RunLen(less, s[1..])
  }

  predicate NoStepDown<T>(less: (T, T) -> bool, s: seq<Elem<T>>, r: nat)
    requires r <= |s|
  {
    forall k :: 0 < k < r ==> !less(s[k].value, s[k - 1].value)
  }

  /** RunLen is characterised by: no step down before it, one right after it. */
  lemma {:induction false} RunLenIff<T>(less: (T, T) -> bool, s: seq<Elem<T>>, r: nat)
    requires s != [] && 1 <= r <= |s|
    ensures r == RunLen(less, s) <==> NoStepDown(less, s, r) && (r < |s| ==> less(s[r].value, s[r - 1].value))
  {
    if |s| > 1 && !less(s[1].value, s[0].value) {
      if r > 1 {
        RunLenIff(less, s[1..], r - 1);
        assert NoStepDown(less, s, r) <==> NoStepDown(less, s[1..], r - 1) by {
          if NoStepDown(less, s[1..], r - 1) {
            forall k | 0 < k < r
              ensures !less(s[k].value, s[k - 1].value)
            {
              assert k > 1 ==> s[1..][k - 1] == s[k] && s[1..][k - 2] == s[k - 1];
            }
          }
          if NoStepDown(less, s, r) {
            forall k | 0 < k < r - 1
              ensures !less(s[1..][k].value, s[1..][k - 1].value)
            {
              assert s[1..][k] == s[k + 1];
            }
          }
        }
      }
    }
  }

  function Descents<T>(less: (T, T) -> bool, s: seq<Elem<T>>): nat {
    if |s| < 2 then 0 else (if less(s[1].value, s[0].value) then 1 else 0) + Descents(less, s[1..])
  }

  /** Number of maximal nondecreasing runs. */
  function RunCount<T>(less: (T, T) -> bool, s: seq<Elem<T>>): nat {
    if s == [] then 0 else 1 + Descents(less, s)
  }

  lemma {:induction false} AdjacentOrdered<T(!new)>(less: (T, T) -> bool, s: seq<Elem<T>>)
    requires StrictWeakOrder(less) && NoStepDown(less, s, |s|)
    ensures Ordered(less, s)
  {
    if |s| > 1 {
      var t := s[..|s| - 1];
      AdjacentOrdered(less, t);
      assert !less(s[|s| - 1].value, s[|s| - 2].value);
      forall i | 0 <= i < |s| - 1
        ensures !less(s[|s| - 1].value, s[i].value)
      {
        assert t[i] == s[i] && t[|s| - 2] == s[|s| - 2];
      }
    }
  }

  lemma RunOrdered<T(!new)>(less: (T, T) -> bool, s: seq<Elem<T>>)
    requires StrictWeakOrder(less) && s != []
    ensures Ordered(less, s[..RunLen(less, s)])
  {
    var r := RunLen(less, s);
    RunLenIff(less, s, r);
    AdjacentOrdered(less, s[..r]);
  }

  lemma {:induction false} RunNoDescents<T>(less: (T, T) -> bool, s: seq<Elem<T>>)
    requires NoStepDown(less, s, |s|)
    ensures Descents(less, s) == 0
  {
    if |s| >= 2 {
      assert !less(s[1].value, s[0].value);
      forall k | 0 < k < |s| - 1
        ensures !less(s[1..][k].value, s[1..][k - 1].value)
      {
        assert s[1..][k] == s[k + 1];
      }
      RunNoDescents(less, s[1..]);
    }
  }

  lemma {:induction false} DescentsAppend<T>(less: (T, T) -> bool, a: seq<Elem<T>>, b: seq<Elem<T>>)
    requires a != [] && b != []
    ensures Descents(less, a + b) ==
            Descents(less, a) + Descents(less, b) + if less(b[0].value, a[|a| - 1].value) then 1 else 0
  {
    if |a| == 1 {
      assert (a + b)[1..] == b;
    } else {
      DescentsAppend(less, a[1..], b);
      assert (a + b)[1..] == a[1..] + b;
    }
  }

  lemma RunCountAppend<T>(less: (T, T) -> bool, a: seq<Elem<T>>, b: seq<Elem<T>>)
    ensures RunCount(less, a + b) <= RunCount(less, a) + RunCount(less, b)
  {
    if a == [] {
      assert a + b == b;
    } else if b == [] {
      assert a + b == a;
    } else {
      DescentsAppend(less, a, b);
    }
  }

  /** The first run accounts for exactly one. */
  lemma RunCountSplit<T>(less: (T, T) -> bool, s: seq<Elem<T>>)
    requires s != []
    ensures RunCount(less, s) == 1 + RunCount(less, s[RunLen(less, s)..])
  {
    var r := RunLen(less, s);
    RunLenIff(less, s, r);
    RunNoDescents(less, s[..r]);
    if r == |s| {
      assert s[..r] == s;
    } else {
      assert s == s[..r] + s[r..];
      DescentsAppend(less, s[..r], s[r..]);
    }
  }

  // ----- one pass -----

  /** The list after merging adjacent runs pairwise, once, from left to right. */
  function Pass<T>(less: (T, T) -> bool, s: seq<Elem<T>>): seq<Elem<T>> {
    if s == [] then []
    else
      var m := RunLen(less, s);
      if m == |s| then s
      else
        var more := s[m..];
        var n := RunLen(less, more);
        Merge(less, s[..m], more[..n]) + Pass(less, more[n..])
  }

  /** Number of runs a pass writes: its loop's iteration count. */
  function PassCount<T>(less: (T, T) -> bool, s: seq<Elem<T>>): nat {
    if s == [] then 0
    else
      var m := RunLen(less, s);
      if m == |s| then 1
      else
        var more := s[m..];
        1 + PassCount(less, more[RunLen(less, more)..])
  }

  lemma PassDef<T>(less: (T, T) -> bool, s: seq<Elem<T>>, m: nat, more: seq<Elem<T>>, n: nat)
    requires s != [] && m == RunLen(less, s) && m < |s| && more == s[m..] && n == RunLen(less, more)
    ensures Pass(less, s) == Merge(less, s[..m], more[..n]) + Pass(less, more[n..])
    ensures PassCount(less, s) == 1 + PassCount(less, more[n..])
  {
  }

  /** A pass halves the number of runs, rounding up. */
  lemma {:induction false} PassCountHalves<T>(less: (T, T) -> bool, s: seq<Elem<T>>)
    ensures PassCount(less, s) == (RunCount(less, s) + 1) / 2
  {
    if s != [] {
      var m := RunLen(less, s);
      RunCountSplit(less, s);
      if m < |s| {
        var more := s[m..];
        var n := RunLen(less, more);
        RunCountSplit(less, more);
        PassCountHalves(less, more[n..]);
        assert PassCount(less, s) == 1 + PassCount(less, more[n..]);
      } else {
        assert RunCount(less, s) == 1 && PassCount(less, s) == 1;
      }
    }
  }

  /** The result of a pass has at most as many runs as it wrote; a single one is sorted. */
  lemma {:induction false} PassRuns<T(!new)>(less: (T, T) -> bool, s: seq<Elem<T>>)
    requires StrictWeakOrder(less)
    ensures RunCount(less, Pass(less, s)) <= PassCount(less, s)
    ensures PassCount(less, s) <= 1 ==> Ordered(less, Pass(less, s))
  {
    if s != [] {
      var m := RunLen(less, s);
      RunOrdered(less, s);
      if m == |s| {
        assert s[..m] == s;
        RunNoDescents(less, s);
      } else {
        var more := s[m..];
        var n := RunLen(less, more);
        var first, rest := Merge(less, s[..m], more[..n]), more[n..];
        assert Pass(less, s) == first + Pass(less, rest) && PassCount(less, s) == 1 + PassCount(less, rest);
        RunOrdered(less, more);
        MergeOrdered(less, s[..m], more[..n]);
        PassRuns(less, rest);
        RunNoDescents(less, first);
        RunCountAppend(less, first, Pass(less, rest));
        if PassCount(less, s) <= 1 {
          assert rest == [];
        }
      }
    }
  }

  lemma StableStep<T(!new)>(less: (T, T) -> bool, v: T, a: seq<Elem<T>>, b: seq<Elem<T>>, rest: seq<Elem<T>>,
                            rest': seq<Elem<T>>)
    requires StrictWeakOrder(less) && Ordered(less, a) && Ordered(less, b)
    requires Class(less, v, rest') == Class(less, v, rest)
    ensures Class(less, v, Merge(less, a, b) + rest') == Class(less, v, a + (b + rest))
  {
    MergeStable(less, v, a, b);
    ClassAppend(less, v, Merge(less, a, b), rest');
    ClassAppend(less, v, a, b + rest);
    ClassAppend(less, v, b, rest);
  }

  /** A pass permutes the list and keeps equivalent elements in order. */
  lemma {:induction false} PassStable<T(!new)>(less: (T, T) -> bool, s: seq<Elem<T>>)
    requires StrictWeakOrder(less)
    ensures multiset(Pass(less, s)) == multiset(s)
    ensures forall v :: Class(less, v, Pass(less, s)) == Class(less, v, s)
  {
    if s != [] {
      var m := RunLen(less, s);
      if m < |s| {
        var more := s[m..];
        var n := RunLen(less, more);
        var a, b, rest := s[..m], more[..n], more[n..];
        assert s == a + more && more == b + rest;
        RunOrdered(less, s);
        RunOrdered(less, more);
        PassStable(less, rest);
        MergeElements(less, a, b);
        assert Pass(less, s) == Merge(less, a, b) + Pass(less, rest);
        forall v
          ensures Class(less, v, Pass(less, s)) == Class(less, v, s)
        {
          StableStep(less, v, a, b, rest, Pass(less, rest));
          assert a + (b + rest) == s;
        }
      }
    }
  }
}
