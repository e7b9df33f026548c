/** The kernel's doubly linked list: two header elements, links rewritten in place, and a natural merge sort
    that needs no extra space. */
module KernelList {
  import opened ListTheory

  /** The elements of `f` are distinct and linked to each other in this order, with null links at both ends. */
  ghost predicate Linked<T>(f: seq<Elem<T>>)
    reads f
  {
    && |f| >= 2
    && (forall i, j :: 0 <= i < j < |f| ==> f[i] != f[j])
    && (forall i {:trigger f[i].next} :: 0 <= i < |f| - 1 ==> f[i].next == f[i + 1])
    && (forall i {:trigger f[i].prev} :: 1 <= i < |f| ==> f[i].prev == f[i - 1])
    && f[0].prev == null && f[|f| - 1].next == null
  }

  /** Moving the range i..j of `f` to just before position k, which lies outside it. */
  function Spliced<T>(f: seq<T>, k: nat, i: nat, j: nat): seq<T>
    requires i <= j <= |f| && (k <= i || j <= k <= |f|)
  {
    if k <= i then f[..k] + f[i..j] + f[k..i] + f[j..] else f[..i] + f[j..k] + f[i..j] + f[k..]
  }

  /** Where position `x` of the spliced sequence was before. */
  function Origin(k: nat, i: nat, j: nat, x: nat): int
  {
    if k <= i then
      if x < k then x else if x < k + (j - i) then x - k + i else if x < j then x - (j - i) else x
    else
      if x < i then x else if x < i + (k - j) then x - i + j else if x < k then x - (k - j) else x
  }

  lemma MovedBack<T>(f: seq<T>, k: nat, i: nat, j: nat, x: nat)
    requires k <= i <= j <= |f| && x < |f|
    ensures |Spliced(f, k, i, j)| == |f| && 0 <= Origin(k, i, j, x) < |f| && Spliced(f, k, i, j)[x] == f[Origin(k, i, j, x)]
  {
  }

  lemma MovedOn<T>(f: seq<T>, k: nat, i: nat, j: nat, x: nat)
    requires i <= j <= k <= |f| && i < k && x < |f|
    ensures |Spliced(f, k, i, j)| == |f| && 0 <= Origin(k, i, j, x) < |f| && Spliced(f, k, i, j)[x] == f[Origin(k, i, j, x)]
  {
  }

  lemma SplicedAt<T>(f: seq<T>, k: nat, i: nat, j: nat)
    requires i <= j <= |f| && (k <= i || j <= k <= |f|)
    ensures |Spliced(f, k, i, j)| == |f|
    ensures forall x :: 0 <= x < |f| ==> 0 <= Origin(k, i, j, x) < |f| && Spliced(f, k, i, j)[x] == f[Origin(k, i, j, x)]
  {
    forall x | 0 <= x < |f|
      ensures 0 <= Origin(k, i, j, x) < |f| && Spliced(f, k, i, j)[x] == f[Origin(k, i, j, x)]
    {
      if k <= i {
        MovedBack(f, k, i, j, x);
      } else {
        MovedOn(f, k, i, j, x);
      }
    }
  }

  /** The six links a splice changes, the rest as they were. */
  ghost predicate SplicedLinks<T>(f: seq<Elem<T>>, k: nat, i: nat, j: nat)
    requires 1 <= i < j < |f| && 1 <= k < |f|
    reads f
  {
    && f[0].prev == null && f[|f| - 1].next == null
    && (forall x {:trigger f[x].next} :: 0 <= x < |f| - 1 ==>
          f[x].next == if x == i - 1 then f[j] else if x == j - 1 then f[k] else if x == k - 1 then f[i] else f[x + 1])
    && (forall x {:trigger f[x].prev} :: 1 <= x < |f| ==>
          f[x].prev == if x == j then f[i - 1] else if x == i then f[k - 1] else if x == k then f[j - 1] else f[x - 1])
  }

  lemma SplicedNext<T>(f: seq<Elem<T>>, k: nat, i: nat, j: nat, x: nat)
    requires 1 <= i < j < |f| && 1 <= k < |f| && (k < i || j < k) && SplicedLinks(f, k, i, j)
    requires x < |f| - 1
    ensures |Spliced(f, k, i, j)| == |f| && Spliced(f, k, i, j)[x].next == Spliced(f, k, i, j)[x + 1]
  {
    SplicedAt(f, k, i, j);
    assert f[Origin(k, i, j, x)].next == f[Origin(k, i, j, x + 1)];
  }

  lemma SplicedPrev<T>(f: seq<Elem<T>>, k: nat, i: nat, j: nat, x: nat)
    requires 1 <= i < j < |f| && 1 <= k < |f| && (k < i || j < k) && SplicedLinks(f, k, i, j)
    requires 1 <= x < |f|
    ensures |Spliced(f, k, i, j)| == |f| && Spliced(f, k, i, j)[x].prev == Spliced(f, k, i, j)[x - 1]
  {
    SplicedAt(f, k, i, j);
    assert f[Origin(k, i, j, x)].prev == f[Origin(k, i, j, x - 1)];
  }

  lemma SplicedDistinct<T>(f: seq<T>, k: nat, i: nat, j: nat)
    requires i <= j <= |f| && (k <= i || j <= k <= |f|)
    requires forall x, y :: 0 <= x < y < |f| ==> f[x] != f[y]
    ensures var g := Spliced(f, k, i, j); |g| == |f| && forall x, y :: 0 <= x < y < |g| ==> g[x] != g[y]
  {
    var g := Spliced(f, k, i, j);
    SplicedAt(f, k, i, j);
    forall x, y | 0 <= x < y < |f|
      ensures g[x] != g[y]
    {
      var a, b := Origin(k, i, j, x), Origin(k, i, j, y);
      assert g[x] == f[a] && g[y] == f[b];
      OriginInjective(k, i, j, x, y);
    }
  }

  lemma OriginInjective(k: nat, i: nat, j: nat, x: nat, y: nat)
    requires i <= j && (k <= i || j <= k) && x != y
    ensures Origin(k, i, j, x) != Origin(k, i, j, y)
  {
  }

  lemma SplicedLinksLinked<T>(f: seq<Elem<T>>, k: nat, i: nat, j: nat)
    requires 1 <= i < j < |f| && 1 <= k < |f| && (k < i || j < k)
    requires forall x, y :: 0 <= x < y < |f| ==> f[x] != f[y]
    requires SplicedLinks(f, k, i, j)
    ensures Linked(Spliced(f, k, i, j))
  {
    SplicedAt(f, k, i, j);
    SplicedDistinct(f, k, i, j);
    forall x | 0 <= x < |f| - 1
      ensures Spliced(f, k, i, j)[x].next == Spliced(f, k, i, j)[x + 1]
    {
      SplicedNext(f, k, i, j, x);
    }
    forall x | 1 <= x < |f|
      ensures Spliced(f, k, i, j)[x].prev == Spliced(f, k, i, j)[x - 1]
    {
      SplicedPrev(f, k, i, j, x);
    }
  }

  lemma SplicedNowhere<T>(f: seq<T>, k: nat, i: nat, j: nat)
    requires i <= j <= |f| && (k <= i || j <= k <= |f|)
    requires i == j || k == j
    ensures Spliced(f, k, i, j) == f
  {
    SplicedAt(f, k, i, j);
  }

  /** The link assignments of a splice. */
  method Relink<T>(before: Elem<T>, first: Elem<T>, end: Elem<T>,
                   ghost f: seq<Elem<T>>, ghost k: nat, ghost i: nat, ghost j: nat)
    requires Linked(f) && 1 <= i < j < |f| && 1 <= k < |f| && (k < i || j <= k)
    requires f[i] == first && f[j - 1] == end && f[k] == before
    modifies f
    ensures k == j ==> Linked(f)
    ensures k != j ==> SplicedLinks(f, k, i, j)
  {
    assert first.prev == f[i - 1] && end.next == f[j] && before.prev == f[k - 1];
    first.prev.next := end.next;
    end.next.prev := first.prev;
    first.prev := before.prev;
    end.next := before;
    before.prev.next := first;
    before.prev := end;
  }

  /** Moves the elements from `first` up to `last` to just before `before`. */
  method ListSplice<T>(before: Elem<T>, first: Elem<T>, last: Elem<T>,
                       ghost f: seq<Elem<T>>, ghost k: nat, ghost i: nat, ghost j: nat)
    requires Linked(f) && 1 <= i <= j < |f| && 1 <= k < |f| && (k < i || j <= k)
    requires f[i] == first && f[j] == last && f[k] == before
    modifies f
    ensures Linked(Spliced(f, k, i, j))
  {
    if first == last {
      SplicedNowhere(f, k, i, j);
      return;
    }
    Relink(before, first, last.prev, f, k, i, j);
    if before == last {
      SplicedNowhere(f, k, i, j);
    } else {
      SplicedLinksLinked(f, k, i, j);
    }
  }

  ghost predicate AllDiffer<T>(f: seq<Elem<T>>, g: seq<Elem<T>>) {
    && (forall x, y :: 0 <= x < y < |f| ==> f[x] != f[y]) && (forall x, y :: 0 <= x < y < |g| ==> g[x] != g[y])
    && (forall x, y :: 0 <= x < |f| && 0 <= y < |g| ==> f[x] != g[y])
  }

  /** The links after the range i..j of `g` has been put before position k of `f`. */
  ghost predicate MovedLinks<T>(f: seq<Elem<T>>, k: nat, g: seq<Elem<T>>, i: nat, j: nat)
    requires 1 <= i < j < |g| && 1 <= k < |f|
    reads f, g
  {
    && f[0].prev == null && f[|f| - 1].next == null && g[0].prev == null && g[|g| - 1].next == null
    && (forall x {:trigger f[x].next} :: 0 <= x < |f| - 1 ==> f[x].next == if x == k - 1 then g[i] else f[x + 1])
    && (forall x {:trigger f[x].prev} :: 1 <= x < |f| ==> f[x].prev == if x == k then g[j - 1] else f[x - 1])
    && (forall x {:trigger g[x].next} :: 0 <= x < |g| - 1 ==>
          g[x].next == if x == i - 1 then g[j] else if x == j - 1 then f[k] else g[x + 1])
    && (forall x {:trigger g[x].prev} :: 1 <= x < |g| ==>
          g[x].prev == if x == j then g[i - 1] else if x == i then f[k - 1] else g[x - 1])
  }

  lemma MovedIntoAt<T>(f: seq<T>, k: nat, g: seq<T>, i: nat, j: nat, x: nat)
    requires i < j <= |g| && k <= |f| && x < |f| + j - i
    ensures (f[..k] + g[i..j] + f[k..])[x] == if x < k then f[x] else if x < k + j - i then g[x - k + i] else f[x - (j - i)]
  {
  }

  lemma MovedInto<T>(f: seq<Elem<T>>, k: nat, g: seq<Elem<T>>, i: nat, j: nat)
    requires 1 <= i < j < |g| && 1 <= k < |f| && AllDiffer(f, g) && MovedLinks(f, k, g, i, j)
    ensures Linked(f[..k] + g[i..j] + f[k..])
  {
    var f', n := f[..k] + g[i..j] + f[k..], j - i;
    forall x | 0 <= x < |f'|
      ensures f'[x] == if x < k then f[x] else if x < k + n then g[x - k + i] else f[x - n]
    {
      MovedIntoAt(f, k, g, i, j, x);
    }
    assert forall x {:trigger f'[x].next} :: 0 <= x < |f'| - 1 ==> f'[x].next == f'[x + 1];
    assert forall x {:trigger f'[x].prev} :: 1 <= x < |f'| ==> f'[x].prev == f'[x - 1];
  }

  lemma MovedOut<T>(f: seq<Elem<T>>, k: nat, g: seq<Elem<T>>, i: nat, j: nat)
    requires 1 <= i < j < |g| && 1 <= k < |f| && AllDiffer(f, g) && MovedLinks(f, k, g, i, j)
    ensures Linked(g[..i] + g[j..])
  {
    var g' := g[..i] + g[j..];
    assert forall x :: 0 <= x < |g'| ==> g'[x] == g[if x < i then x else x - i + j];
  }

  /** Moves the elements from `first` up to `last` out of one list to just before an element of another. */
  method SpliceFrom<T>(before: Elem<T>, first: Elem<T>, last: Elem<T>,
                             ghost f: seq<Elem<T>>, ghost k: nat, ghost g: seq<Elem<T>>, ghost i: nat, ghost j: nat)
    requires Linked(f) && Linked(g) && AllDiffer(f, g) && 1 <= i <= j < |g| && 1 <= k < |f|
    requires g[i] == first && g[j] == last && f[k] == before
    modifies f, g
    ensures Linked(f[..k] + g[i..j] + f[k..]) && Linked(g[..i] + g[j..])
  {
    if first == last {
      assert f[..k] + g[i..j] + f[k..] == f && g[..i] + g[j..] == g;
      return;
    }
    RelinkFrom(before, first, last.prev, f, k, g, i, j);
    MovedInto(f, k, g, i, j);
    MovedOut(f, k, g, i, j);
  }

  method RelinkFrom<T>(before: Elem<T>, first: Elem<T>, end: Elem<T>,
                             ghost f: seq<Elem<T>>, ghost k: nat, ghost g: seq<Elem<T>>, ghost i: nat, ghost j: nat)
    requires Linked(f) && Linked(g) && AllDiffer(f, g) && 1 <= i < j < |g| && 1 <= k < |f|
    requires g[i] == first && g[j - 1] == end && f[k] == before
    modifies f, g
    ensures MovedLinks(f, k, g, i, j)
  {
    assert first.prev == g[i - 1] && end.next == g[j] && before.prev == f[k - 1];
    first.prev.next := end.next;
    end.next.prev := first.prev;
    first.prev := before.prev;
    end.next := before;
    before.prev.next := first;
    before.prev := end;
  }

  /** Splicing out of a concatenation. */
  lemma SplicedConcat<T>(p: seq<T>, a: seq<T>, b: seq<T>, c: seq<T>)
    ensures Spliced(p + a + b + c, |p|, |p + a|, |p + a + b|) == p + b + a + c
  {
    var f := p + a + b + c;
    assert f[..|p|] == p && f[|p|..|p + a|] == a && f[|p + a|..|p + a + b|] == b && f[|p + a + b|..] == c;
  }

  /** First element of `s`, or what comes after it. */
  function First<T>(s: seq<T>, after: T): T {
    if s == [] then after else s[0]
  }

  lemma NextIs<T>(q: seq<Elem<T>>, x: Elem<T>, z: seq<Elem<T>>)
    requires Linked(q + [x] + z) && z != []
    ensures x.next == z[0] && x != z[0]
  {
    var f := q + [x] + z;
    assert f[|q|] == x && f[|q| + 1] == z[0];
  }

  lemma PrevIs<T>(q: seq<Elem<T>>, x: Elem<T>, z: seq<Elem<T>>)
    requires Linked(q + [x] + z) && q != []
    ensures x.prev == q[|q| - 1]
  {
    var f := q + [x] + z;
    assert f[|q|] == x && f[|q| - 1] == q[|q| - 1];
  }

  lemma AllDistinct<T>(q: seq<Elem<T>>, a: seq<Elem<T>>, b: seq<Elem<T>>)
    requires Linked(q + a + b) && b != []
    ensures a != [] ==> a[0] != b[0]
  {
    var f := q + a + b;
    if a != [] {
      assert f[|q|] == a[0] && f[|q + a|] == b[0];
    }
  }

  /** The links of `f` with position `k` taken out. */
  lemma RemovedLinked<T>(f: seq<Elem<T>>, k: nat)
    requires 1 <= k < |f| - 1
    requires forall i, j :: 0 <= i < j < |f| ==> f[i] != f[j]
    requires f[0].prev == null && f[|f| - 1].next == null
    requires forall x {:trigger f[x].next} :: 0 <= x < |f| - 1 && x != k ==>
               f[x].next == if x == k - 1 then f[k + 1] else f[x + 1]
    requires forall x {:trigger f[x].prev} :: 1 <= x < |f| && x != k ==>
               f[x].prev == if x == k + 1 then f[k - 1] else f[x - 1]
    ensures Linked(f[..k] + f[k + 1..])
  {
    var g := f[..k] + f[k + 1..];
    forall x | 0 <= x < |g| - 1
      ensures g[x].next == g[x + 1]
    {
      assert f[if x < k then x else x + 1].next == g[x + 1];
    }
    forall x | 1 <= x < |g|
      ensures g[x].prev == g[x - 1]
    {
      assert f[if x < k then x else x + 1].prev == g[x - 1];
    }
  }

  /** The links of `f` with `e` put in at position `k`. */
  lemma InsertedLinked<T>(f: seq<Elem<T>>, k: nat, e: Elem<T>)
    requires 1 <= k < |f| && e !in f && e.prev == f[k - 1] && e.next == f[k]
    requires forall i, j :: 0 <= i < j < |f| ==> f[i] != f[j]
    requires f[0].prev == null && f[|f| - 1].next == null
    requires forall x {:trigger f[x].next} :: 0 <= x < |f| - 1 ==> f[x].next == if x == k - 1 then e else f[x + 1]
    requires forall x {:trigger f[x].prev} :: 1 <= x < |f| ==> f[x].prev == if x == k then e else f[x - 1]
    ensures Linked(f[..k] + [e] + f[k..])
  {
    var g := f[..k] + [e] + f[k..];
    forall x | 0 <= x < |g| - 1
      ensures g[x].next == g[x + 1]
    {
      assert x == k || f[if x < k then x else x - 1].next == g[x + 1];
    }
    forall x | 1 <= x < |g|
      ensures g[x].prev == g[x - 1]
    {
      assert x == k || f[if x < k then x else x - 1].prev == g[x - 1];
    }
  }

  class List<T(!new)> {
    const head: Elem<T>
    const tail: Elem<T>
    ghost var full: seq<Elem<T>>    // the elements with the two headers around them

    ghost predicate Valid()
      reads this, full
    {
      Linked(full) && full[0] == head && full[|full| - 1] == tail
    }

    /** The elements proper, in order. */
    ghost function Contents(): seq<Elem<T>>
      reads this
      requires |full| >= 2
    {
      full[1..|full| - 1]
    }

    ghost function Elems(): set<Elem<T>>
      reads this
    {
      set e | e in full
    }

    constructor (v: T)
      ensures Valid() && Contents() == [] && fresh(head) && fresh(tail)
    {
      head := new Elem(v);
      tail := new Elem(v);
      new;
      head.next := tail;
      tail.prev := head;
      full := [head, tail];
    }

    /** Inserts `elem` just before `before`. */
    method Insert(before: Elem<T>, elem: Elem<T>, ghost q: seq<Elem<T>>, ghost z: seq<Elem<T>>)
      requires Valid() && full == q + z && q != [] && z != [] && before == z[0] && elem !in Elems()
      modifies this, Elems(), elem
      ensures Valid() && full == q + [elem] + z
    {
      ghost var k := |q|;
      ghost var f := full;
      assert before == f[k] && before.prev == f[k - 1];
      elem.prev := before.prev;
      elem.next := before;
      before.prev.next := elem;
      before.prev := elem;
      full := q + [elem] + z;
      assert forall e :: e in f ==> e != elem;
      InsertedLinked(f, k, elem);
      assert full == f[..k] + [elem] + f[k..];
    }

    /** Unlinks `elem` and returns the element after it. */
    method Remove(elem: Elem<T>, ghost q: seq<Elem<T>>, ghost z: seq<Elem<T>>) returns (next: Elem<T>)
      requires Valid() && full == q + [elem] + z && q != [] && z != []
      modifies this, Elems()
      ensures Valid() && full == q + z && next == z[0]
    {
      ghost var k := |q|;
      ghost var f := full;
      assert elem == f[k] && elem.prev == f[k - 1] && elem.next == f[k + 1];
      elem.prev.next := elem.next;
      elem.next.prev := elem.prev;
      full := q + z;
      RemovedLinked(f, k);
      assert full == f[..k] + f[k + 1..];
      next := elem.next;
    }

    /** The end of the run that starts at `a`, the first of the elements `s` that reach to the tail. */
    method FindEndOfRun(a: Elem<T>, less: (T, T) -> bool, ghost q: seq<Elem<T>>, ghost s: seq<Elem<T>>)
      returns (end: Elem<T>)
      requires Valid() && full == q + s + [tail] && s != [] && a == s[0]
      ensures end == First(s[RunLen(less, s)..], tail)
    {
      ghost var k, r := |q|, 1;
      assert full[k] == a && full[k + 1] == (s + [tail])[1];
      end := a.next;
      while end != tail && !less(end.value, end.prev.value)
        invariant 1 <= r <= |s| && end == full[k + r]
        invariant NoStepDown(less, s, r)
        decreases |s| - r
      {
        assert full[k + |s|] == tail;
        assert end == s[r] && full[k + r - 1] == s[r - 1];
        end, r := end.next, r + 1;
      }
      if r < |s| {
        assert full[k + |s|] == tail && end == s[r] && full[k + r - 1] == s[r - 1];
      }
      RunLenIff(less, s, r);
      assert full[k + |s|] == tail && (r < |s| ==> full[k + r] == s[r]);
    }

    /** Moves the single element `elem` over the elements `l` that precede it. */
    method MoveBefore(before: Elem<T>, elem: Elem<T>, ghost q: seq<Elem<T>>, ghost l: seq<Elem<T>>, ghost z: seq<Elem<T>>)
      requires Valid() && full == q + l + [elem] + z && q != [] && l != [] && z != [] && before == l[0]
      modifies this, Elems()
      ensures Valid() && full == q + [elem] + l + z && Elems() == old(Elems())
    {
      ghost var f := full;
      NextIs(q + l, elem, z);
      assert f[|q|] == before && f[|q + l|] == elem && f[|q + l| + 1] == z[0];
      ListSplice(before, elem, elem.next, f, |q|, |q + l|, |q + l| + 1);
      SplicedConcat(q, l, [elem], z);
      full := q + [elem] + l + z;
      assert full[0] == f[0] && full[|full| - 1] == f[|f| - 1];
    }

    /** Stepping over the first element of the left range. */
    lemma StepLeft(q: seq<Elem<T>>, l: seq<Elem<T>>, r: seq<Elem<T>>, z: seq<Elem<T>>)
      requires Valid() && full == q + l + r + z && l != [] && z != []
      ensures l[0].next == First(l[1..], First(r, z[0]))
      ensures full == (q + [l[0]]) + l[1..] + r + z
    {
      var x, t := l[0], l[1..] + r + z;
      assert l == [x] + l[1..];
      assert full == q + [x] + t;
      NextIs(q, x, t);
    }

    /** Moves the first element of the right range in front of the left one and returns its successor. */
    method TakeRight(a: Elem<T>, b: Elem<T>, ghost q: seq<Elem<T>>, ghost l: seq<Elem<T>>, ghost r: seq<Elem<T>>,
                     ghost z: seq<Elem<T>>)
      returns (next: Elem<T>)
      requires Valid() && full == q + l + r + z && q != [] && l != [] && r != [] && z != [] && a == l[0] && b == r[0]
      modifies this, Elems()
      ensures Valid() && full == (q + [b]) + l + r[1..] + z && Elems() == old(Elems()) && next == First(r[1..], z[0])
    {
      ghost var t := r[1..] + z;
      assert r == [b] + r[1..];
      assert full == q + l + [b] + t;
      NextIs(q + l, b, t);
      next := b.next;
      assert next.prev == b by {
        assert full == (q + l + [b]) + [next] + t[1..];
        PrevIs(q + l + [b], next, t[1..]);
      }
      MoveBefore(a, next.prev, q, l, t);
    }

    /** The ranges are told apart by their first elements. */
    lemma FirstsDiffer(q: seq<Elem<T>>, l: seq<Elem<T>>, r: seq<Elem<T>>, z: seq<Elem<T>>)
      requires Valid() && full == q + l + r + z && z != []
      ensures First(l, First(r, z[0])) == First(r, z[0]) <==> l == []
      ensures First(r, z[0]) == z[0] <==> r == []
    {
      assert full == q + l + (r + z);
      AllDistinct(q, l, r + z);
      AllDistinct(q + l, r, z);
    }

    /** Merges the ranges `left` and `right`, which lie between `pre` and `z`, in place. */
    method InplaceMerge(a0: Elem<T>, a1b0: Elem<T>, b1: Elem<T>, less: (T, T) -> bool, ghost pre: seq<Elem<T>>,
                        ghost left: seq<Elem<T>>, ghost right: seq<Elem<T>>, ghost z: seq<Elem<T>>)
      requires Valid() && full == pre + left + right + z && pre != [] && z != []
      requires b1 == z[0] && a1b0 == First(right, b1) && a0 == First(left, a1b0)
      modifies this, Elems()
      ensures Valid() && Elems() == old(Elems()) && full == pre + Merge(less, left, right) + z
    {
      var a, b := a0, a1b0;
      ghost var q, l, r := pre, left, right;
      FirstsDiffer(q, l, r, z);
      while a != b && b != b1
        invariant Valid() && Elems() == old(Elems()) && full == q + l + r + z && q != []
        invariant b == First(r, b1) && a == First(l, b)
        invariant a == b <==> l == []
        invariant b == b1 <==> r == []
        invariant q + Merge(less, l, r) == pre + Merge(less, left, right)
        decreases |l| + |r|
      {
        MergeUnfold(less, q, l, r);
        if !less(b.value, a.value) {
          StepLeft(q, l, r, z);
          a, q, l := a.next, q + [l[0]], l[1..];
        } else {
          b := TakeRight(a, b, q, l, r, z);
          q, r := q + [r[0]], r[1..];
        }
        FirstsDiffer(q, l, r, z);
      }
      MergeOver(less, q, l, r, z);
    }

    /** One step of a merge, with what precedes it. */
    static lemma MergeUnfold(less: (T, T) -> bool, q: seq<Elem<T>>, l: seq<Elem<T>>, r: seq<Elem<T>>)
      requires l != [] && r != []
      ensures q + Merge(less, l, r) ==
              if !less(r[0].value, l[0].value) then (q + [l[0]]) + Merge(less, l[1..], r)
              else (q + [r[0]]) + Merge(less, l, r[1..])
    {
    }

    static lemma MergeOver(less: (T, T) -> bool, q: seq<Elem<T>>, l: seq<Elem<T>>, r: seq<Elem<T>>, z: seq<Elem<T>>)
      requires l == [] || r == []
      ensures q + l + r + z == q + Merge(less, l, r) + z
    {
      assert l + r == Merge(less, l, r);
      assert q + l + r + z == q + (l + r) + z;
    }

    /** Merges the next two runs and returns what follows them, or finds that only one run is left. */
    method MergeNext(a0: Elem<T>, less: (T, T) -> bool, ghost q: seq<Elem<T>>, ghost rest: seq<Elem<T>>)
      returns (b1: Elem<T>, last: bool, ghost q': seq<Elem<T>>, ghost rest': seq<Elem<T>>)
      requires Valid() && full == q + rest + [tail] && q != [] && rest != [] && a0 == rest[0]
      modifies this, Elems()
      ensures Valid() && Elems() == old(Elems())
      ensures last ==> full == old(full) && RunLen(less, rest) == |rest|
      ensures !last ==> && full == q' + rest' + [tail] && b1 == First(rest', tail) && q' != [] && |rest'| < |rest|
                        && q + Pass(less, rest) == q' + Pass(less, rest')
                        && PassCount(less, rest) == 1 + PassCount(less, rest')
    {
      var a1b0 := FindEndOfRun(a0, less, q, rest);
      ghost var m := RunLen(less, rest);
      NotTail(q, rest, m);
      last := a1b0 == tail;
      b1, q', rest' := a1b0, q, rest;
      if !last {
        ghost var l, more := rest[..m], rest[m..];
        Regroup(q, rest, m);
        b1 := FindEndOfRun(a1b0, less, q + l, more);
        ghost var n := RunLen(less, more);
        ghost var r := more[..n];
        rest' := more[n..];
        Regroup(q + l, more, n);
        RegroupEnd(q, l, r, rest');
        InplaceMerge(a0, a1b0, b1, less, q, l, r, rest' + [tail]);
        q' := q + Merge(less, l, r);
        Assoc(q', rest', [tail]);
        PassDef(less, rest, m, more, n);
        Assoc(q, Merge(less, l, r), Pass(less, rest'));
      }
    }

    /** One pass: merges adjacent runs pairwise and counts the runs written. */
    method MergePass(less: (T, T) -> bool) returns (outputRunCnt: nat)
      requires Valid()
      modifies this, Elems()
      ensures Valid() && Elems() == old(Elems())
      ensures Contents() == Pass(less, old(Contents())) && outputRunCnt == PassCount(less, old(Contents()))
    {
      ghost var s := Contents();
      ghost var q, rest := [head], s;
      Opening(s);
      outputRunCnt := 0;
      var a0 := head.next;
      while a0 != tail
        invariant Valid() && Elems() == old(Elems()) && full == q + rest + [tail] && q != []
        invariant a0 == First(rest, tail) && (a0 == tail <==> rest == [])
        invariant q + Pass(less, rest) == [head] + Pass(less, s)
        invariant outputRunCnt + PassCount(less, rest) == PassCount(less, s)
        decreases |rest|
      {
        outputRunCnt := outputRunCnt + 1;
        var b1, last;
        ghost var q', rest';
        b1, last, q', rest' := MergeNext(a0, less, q, rest);
        if last {
          break;
        }
        a0, q, rest := b1, q', rest';
        NotTail(q, rest, 0);
      }
      Closing(less, q, rest, s);
    }

    lemma Opening(s: seq<Elem<T>>)
      requires Valid() && s == Contents()
      ensures full == [head] + s + [tail] && head.next == First(s, tail) && (First(s, tail) == tail <==> s == [])
    {
      assert full[1] == First(s, tail);
    }

    lemma Closing(less: (T, T) -> bool, q: seq<Elem<T>>, rest: seq<Elem<T>>, s: seq<Elem<T>>)
      requires Valid() && full == q + rest + [tail]
      requires q + Pass(less, rest) == [head] + Pass(less, s)
      requires rest == [] || RunLen(less, rest) == |rest|
      ensures Contents() == Pass(less, s)
    {
      assert Pass(less, rest) == rest;
      assert full == [head] + Pass(less, s) + [tail];
    }

    lemma NotTail(q: seq<Elem<T>>, rest: seq<Elem<T>>, m: nat)
      requires Valid() && full == q + rest + [tail] && m <= |rest|
      ensures m < |rest| ==> rest[m] != tail
    {
      if m < |rest| {
        assert full[|q| + m] == rest[m] && full[|q| + |rest|] == tail;
      }
    }

    lemma Regroup(q: seq<Elem<T>>, rest: seq<Elem<T>>, m: nat)
      requires full == q + rest + [tail] && m <= |rest|
      ensures full == (q + rest[..m]) + rest[m..] + [tail]
    {
      assert rest == rest[..m] + rest[m..];
    }

    lemma RegroupEnd(q: seq<Elem<T>>, l: seq<Elem<T>>, r: seq<Elem<T>>, rest: seq<Elem<T>>)
      requires full == (q + l + r) + rest + [tail]
      ensures full == q + l + r + (rest + [tail])
    {
    }

    static lemma Assoc(q: seq<Elem<T>>, a: seq<Elem<T>>, b: seq<Elem<T>>)
      ensures q + (a + b) == (q + a) + b
    {
    }

    /** Sorts the list: passes are repeated until one writes a single run. */
    method Sort(less: (T, T) -> bool)
      requires Valid() && StrictWeakOrder(less)
      modifies this, Elems()
      ensures Valid() && Elems() == old(Elems()) && IsStableSort(less, old(Contents()), Contents())
    {
      ghost var s := Contents();
      var outputRunCnt := 2;
      while outputRunCnt > 1
        invariant Valid() && Elems() == old(Elems()) && multiset(Contents()) == multiset(s)
        invariant forall v :: Class(less, v, Contents()) == Class(less, v, s)
        invariant outputRunCnt <= 1 ==> Ordered(less, Contents())
        decreases if outputRunCnt > 1 then 1 + RunCount(less, Contents()) else 0
      {
        PassCountHalves(less, Contents());
        PassRuns(less, Contents());
        PassStable(less, Contents());
        outputRunCnt := MergePass(less);
      }
    }
  }
}
