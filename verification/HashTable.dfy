/** The hash table as it runs: an array of bucket lists, searched and updated in place, resized as it grows. */
module HashTable {
  import opened Common
  import opened BitWords
  import opened HashSpec

  /** The bucket count rehash aims at: lowest bits are turned off until one is left. */
  method NewBucketCount(elemCnt: nat) returns (n: nat)
    ensures IsLargestPower(n, Target(elemCnt)) && n >= 4
  {
    n := elemCnt / 2;
    if n < 4 {
      n := 4;
    }
    ghost var k := TopBit(n);
    assert Pow2(2) == 4;
    while And(n, n - 1) != 0
      invariant Pow2(k) <= n <= Target(elemCnt) < Pow2(k + 1) && n >= 4
      decreases n
    {
      OffKeepsTop(n, k);
      TopAtLeast(k, Target(elemCnt));
      n := And(n, n - 1);
    }
    PowerIff(n);
    OnePower(n, k);
  }

  lemma TopAtLeast(k: nat, x: nat)
    requires Pow2(k) <= x < Pow2(k + 1) && x >= 4
    ensures Pow2(k) >= 4
  {
    assert Pow2(0) == 1 && Pow2(1) == 2 && Pow2(2) == 4;
    if k >= 2 {
      Pow2Monotonic(2, k);
    }
  }

  /** Between two successive powers only the lower is one. */
  lemma OnePower(n: nat, k: nat)
    requires IsPower(n) && Pow2(k) <= n < Pow2(k + 1)
    ensures n == Pow2(k)
  {
    var j :| 0 <= j <= n && n == Pow2(j);
    if j < k {
      Pow2Monotonic(j + 1, k);
    } else if j > k {
      Pow2Monotonic(k + 1, j);
    }
  }

  class HashTable<T(!new)> {
    const o: Ops<T>
    var buckets: array<seq<T>>
    var elemCnt: nat

    ghost predicate IsValid()
      reads this, buckets
    {
      Lawful(o) && Valid(o, buckets[..], elemCnt)
    }

    ghost predicate Contains(x: T)
      reads this, buckets
    {
      Has(buckets[..], x)
    }

    /** hash_init: an empty table, or none when there is no memory for its buckets. */
    static method Init(ops: Ops<T>, mem: bool) returns (h: Option<HashTable<T>>)
      requires Lawful(ops)
      ensures h.Some? <==> mem
      ensures h.Some? ==> fresh(h.value) && fresh(h.value.buckets) && h.value.o == ops && h.value.IsValid()
      ensures h.Some? ==> h.value.elemCnt == 0 && forall x :: !h.value.Contains(x)
    {
      if !mem {
        return None;
      }
      var table := new HashTable<T>(ops);
      h := Some(table);
    }

    /** Four empty buckets. */
    constructor (ops: Ops<T>)
      requires Lawful(ops)
      ensures o == ops && IsValid() && fresh(buckets) && elemCnt == 0 && forall x :: !Contains(x)
    {
      o, elemCnt := ops, 0;
      var b: array<seq<T>> := new seq<T>[4](_ => []);
      buckets := b;
      new;
      FlattenEmpty(buckets[..]);
      PowIsPower(2);
      assert Pow2(2) == 4;
    }

    /** find_elem */
    method FindElem(s: seq<T>, e: T) returns (r: Option<nat>)
      ensures r == FindIn(o, s, e)
    {
      var k := 0;
      while k < |s|
        invariant k <= |s| && forall j :: 0 <= j < k ==> !Same(o, s[j], e)
      {
        if Same(o, s[k], e) {
          FirstFound(o, s, e, k);
          return Some(k);
        }
        k := k + 1;
      }
      return None;
    }

    /** hash_find: an equal element, if the table has one. */
    method Find(e: T) returns (r: Option<T>)
      requires IsValid()
      ensures r.Some? ==> Contains(r.value) && Same(o, r.value, e)
      ensures r.None? ==> forall x :: Contains(x) ==> !Same(o, x, e)
    {
      FindIsComplete(o, buckets[..], elemCnt, e);
      var s := buckets[BucketOf(o, buckets.Length, e)];
      var j := FindElem(s, e);
      r := if j.Some? then Some(s[j.value]) else None;
    }

    method InsertElem(e: T)
      requires IsValid() && forall x :: Contains(x) ==> !Same(o, x, e)
      modifies this`elemCnt, buckets
      ensures IsValid() && elemCnt == old(elemCnt) + 1 && forall x :: Contains(x) <==> old(Contains(x)) || x == e
    {
      PushValid(o, buckets[..], elemCnt, e);
      ghost var before := buckets[..];
      var i := BucketOf(o, buckets.Length, e);
      buckets[i] := [e] + buckets[i];
      elemCnt := elemCnt + 1;
      assert buckets[..] == Push(o, before, e);
      forall x
        ensures Contains(x) <==> old(Contains(x)) || x == e
      {
        PushHas(o, before, e, x);
      }
    }

    method RemoveElem(i: nat, j: nat)
      requires IsValid() && i < buckets.Length && j < |buckets[i]|
      modifies this`elemCnt, buckets
      ensures IsValid() && elemCnt == old(elemCnt) - 1
      ensures forall x :: Contains(x) <==> old(Contains(x)) && x != old(buckets[i][j])
    {
      CutValid(o, buckets[..], elemCnt, i, j);
      ghost var before := buckets[..];
      buckets[i] := buckets[i][..j] + buckets[i][j + 1..];
      elemCnt := elemCnt - 1;
      assert buckets[..] == before[i := Cut(before[i], j)];
      forall x
        ensures Contains(x) <==> old(Contains(x)) && x != before[i][j]
      {
        CutHas(o, before, elemCnt + 1, i, j, x);
      }
    }

    /** rehash: a table of the right size with the same elements; without memory, no change. */
    method Rehash(mem: bool)
      requires IsValid()
      modifies this`buckets
      ensures IsValid() && elemCnt == old(elemCnt) && (forall x :: Contains(x) <==> old(Contains(x)))
      ensures buckets == old(buckets) || fresh(buckets)
      ensures mem ==> IsLargestPower(buckets.Length, Target(elemCnt))
      ensures !mem ==> buckets == old(buckets)
    {
      var cnt := NewBucketCount(elemCnt);
      if cnt == buckets.Length || !mem {
        return;
      }
      ghost var all := Flatten(buckets[..]);
      var rebuilt := Redistribute(cnt);
      FlattenUnique(o, buckets[..], elemCnt);
      DistributeValid(o, all, cnt);
      buckets := rebuilt;
    }

    method Redistribute(cnt: nat) returns (b: array<seq<T>>)
      requires IsPower(cnt)
      ensures fresh(b) && b[..] == Distribute(o, Flatten(buckets[..]), cnt)
    {
      b := new seq<T>[cnt](_ => []);
      assert b[..] == Distribute(o, [], cnt);
      var i := 0;
      while i < buckets.Length
        invariant i <= buckets.Length && fresh(b) && b.Length == cnt
        invariant b[..] == Distribute(o, Flatten(buckets[..i]), cnt)
      {
        MoveBucket(buckets[i], b, Flatten(buckets[..i]));
        FlattenSnoc(buckets[..], i);
        assert buckets[..][..i] == buckets[..i] && buckets[..][..i + 1] == buckets[..i + 1];
        i := i + 1;
      }
      assert buckets[..i] == buckets[..];
    }

    /** Moves the elements of one old bucket, in order, to the front of their new ones. */
    method MoveBucket(s: seq<T>, b: array<seq<T>>, ghost done: seq<T>)
      requires IsPower(b.Length) && b[..] == Distribute(o, done, b.Length)
      modifies b
      ensures b[..] == Distribute(o, done + s, b.Length)
    {
      var j := 0;
      assert done + s[..0] == done;
      while j < |s|
        invariant j <= |s| && b[..] == Distribute(o, done + s[..j], b.Length)
      {
        BucketInRange(o, b.Length, s[j]);
        DistributeSnoc(o, done + s[..j], s[j], b.Length);
        assert done + s[..j] + [s[j]] == done + s[..j + 1];
        ghost var before := b[..];
        var i := BucketOf(o, b.Length, s[j]);
        b[i] := [s[j]] + b[i];
        assert b[..] == Push(o, before, s[j]);
        j := j + 1;
      }
      assert s[..j] == s;
    }

    /** hash_insert: adds the element unless an equal one is there, which is then returned. */
    method Insert(e: T, mem: bool) returns (found: Option<T>)
      requires IsValid()
      modifies this`elemCnt, this`buckets, buckets
      ensures IsValid() && (buckets == old(buckets) || fresh(buckets))
      ensures found.Some? ==> old(Contains(found.value)) && Same(o, found.value, e) && forall x :: Contains(x) <==> old(Contains(x))
      ensures found.None? ==> (forall x :: old(Contains(x)) ==> !Same(o, x, e)) && forall x :: Contains(x) <==> old(Contains(x)) || x == e
      ensures elemCnt == old(elemCnt) + if found.None? then 1 else 0
      ensures mem ==> IsLargestPower(buckets.Length, Target(elemCnt))
    {
      found := Find(e);
      if found.None? {
        InsertElem(e);
      }
      Rehash(mem);
    }

    /** hash_replace: the element takes the place of an equal one, which is returned. */
    method Replace(e: T, mem: bool) returns (found: Option<T>)
      requires IsValid()
      modifies this`elemCnt, this`buckets, buckets
      ensures IsValid() && (buckets == old(buckets) || fresh(buckets))
      ensures found.Some? ==> old(Contains(found.value)) && Same(o, found.value, e)
      ensures found.None? ==> forall x :: old(Contains(x)) ==> !Same(o, x, e)
      ensures forall x :: Contains(x) <==> (old(Contains(x)) && !Same(o, x, e)) || x == e
      ensures elemCnt == old(elemCnt) + if found.None? then 1 else 0
      ensures mem ==> IsLargestPower(buckets.Length, Target(elemCnt))
    {
      found := Take(e);
      InsertElem(e);
      Rehash(mem);
    }

    /** Finds and removes an equal element, without rehashing. */
    method Take(e: T) returns (found: Option<T>)
      requires IsValid()
      modifies this`elemCnt, buckets
      ensures IsValid()
      ensures found.Some? ==> old(Contains(found.value)) && Same(o, found.value, e)
      ensures found.None? ==> forall x :: old(Contains(x)) ==> !Same(o, x, e)
      ensures forall x :: Contains(x) <==> old(Contains(x)) && !Same(o, x, e)
      ensures elemCnt == old(elemCnt) - if found.None? then 0 else 1
    {
      FindIsComplete(o, buckets[..], elemCnt, e);
      var i := BucketOf(o, buckets.Length, e);
      var j := FindElem(buckets[i], e);
      if j.None? {
        return None;
      }
      found := Some(buckets[i][j.value]);
      forall x | Contains(x) && Same(o, x, e)
        ensures x == found.value
      {
        OnlyOne(o, buckets[..], elemCnt, x, found.value);
      }
      RemoveElem(i, j.value);
    }

    /** hash_delete: removes and returns an equal element, if there is one. */
    method Delete(e: T, mem: bool) returns (found: Option<T>)
      requires IsValid()
      modifies this`elemCnt, this`buckets, buckets
      ensures IsValid() && (buckets == old(buckets) || fresh(buckets))
      ensures found.Some? ==> old(Contains(found.value)) && Same(o, found.value, e)
      ensures found.None? ==> forall x :: old(Contains(x)) ==> !Same(o, x, e)
      ensures forall x :: Contains(x) <==> old(Contains(x)) && !Same(o, x, e)
      ensures elemCnt == old(elemCnt) - if found.None? then 0 else 1
      ensures mem && found.Some? ==> IsLargestPower(buckets.Length, Target(elemCnt))
    {
      found := Take(e);
      if found.Some? {
        Rehash(mem);
      }
    }
  }

  lemma {:induction false} FirstFound<T>(o: Ops<T>, s: seq<T>, e: T, k: nat)
    requires k < |s| && Same(o, s[k], e) && forall j :: 0 <= j < k ==> !Same(o, s[j], e)
    ensures FindIn(o, s, e) == Some(k)
  {
    if k > 0 {
      assert forall j :: 0 <= j < k - 1 ==> s[1..][j] == s[j + 1];
      FirstFound(o, s[1..], e, k - 1);
    }
  }

  lemma DistributeSnoc<T>(o: Ops<T>, s: seq<T>, e: T, cnt: nat)
    requires IsPower(cnt)
    ensures BucketOf(o, cnt, e) < cnt && Distribute(o, s + [e], cnt) == Push(o, Distribute(o, s, cnt), e)
  {
    BucketInRange(o, cnt, e);
    assert (s + [e])[..|s|] == s;
  }

  // ----- iterating -----

  /** hash_next: the next element, or none once every element has been returned. */
  method Next<T>(b: Buckets<T>, bucket: nat, pos: int) returns (elem: Option<T>, bucket': nat, pos': int)
    requires bucket < |b| && -1 <= pos < |b[bucket]|
    ensures elem.None? ==> Remaining(b, bucket, pos) == []
    ensures elem.Some? ==> bucket' < |b| && 0 <= pos' < |b[bucket']| && elem.value == b[bucket'][pos']
    ensures elem.Some? ==> Remaining(b, bucket, pos) == [elem.value] + Remaining(b, bucket', pos')
  {
    bucket', pos' := bucket, pos + 1;
    while pos' == |b[bucket']|
      invariant bucket' < |b| && 0 <= pos' <= |b[bucket']|
      invariant Remaining(b, bucket, pos) == b[bucket'][pos'..] + Flatten(b[bucket' + 1..])
      decreases |b| - bucket'
    {
      bucket' := bucket' + 1;
      if bucket' >= |b| {
        return None, bucket', pos';
      }
      FlattenStep(b, bucket');
      pos' := 0;
    }
    elem := Some(b[bucket'][pos']);
  }

  /** A full walk from hash_first returns every element exactly once. */
  method Walk<T>(b: Buckets<T>) returns (seen: seq<T>)
    requires |b| > 0
    ensures seen == Flatten(b)
  {
    seen := [];
    var bucket: nat, pos: int := 0, -1;
    FlattenStep(b, 0);
    assert b[0..] == b;
    var more := true;
    while more
      invariant bucket < |b| && -1 <= pos < |b[bucket]|
      invariant more ==> seen + Remaining(b, bucket, pos) == Flatten(b)
      invariant !more ==> seen == Flatten(b)
      decreases more, |Remaining(b, bucket, pos)|
    {
      var elem, bucket', pos' := Next(b, bucket, pos);
      if elem.None? {
        more := false;
      } else {
        seen := seen + [elem.value];
        bucket, pos := bucket', pos';
      }
    }
  }
}
