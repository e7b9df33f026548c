/** The chained hash table as a value: buckets of elements, and the set of elements it stands for. */
module HashSpec {
  import opened Common
  import opened BitWords
  import Arithmetic
  import opened ListTheory

  // ----- powers of two -----

  predicate IsPower(n: nat) {
    exists k :: 0 <= k <= n && n == Pow2(k)
  }

  lemma {:induction false} AndSelf(a: nat)
    ensures And(a, a) == a
  {
    if a > 0 {
      AndSelf(a / 2);
    }
  }

  /** Turning off the lowest bit. */
  lemma OffOdd(x: nat)
    requires x % 2 == 1
    ensures And(x, x - 1) == x - 1
  {
    var h := x / 2;
    assert x == 2 * h + 1 && (x - 1) / 2 == h && (x - 1) % 2 == 0;
    AndSelf(h);
  }

  lemma OffEven(x: nat)
    requires x > 0 && x % 2 == 0
    ensures And(x, x - 1) == 2 * And(x / 2, x / 2 - 1)
  {
    assert (x - 1) / 2 == x / 2 - 1;
  }

  lemma {:induction false} PowGrows(k: nat)
    ensures k < Pow2(k)
  {
    if k > 0 {
      PowGrows(k - 1);
    }
  }

  lemma PowIsPower(k: nat)
    ensures IsPower(Pow2(k))
  {
    PowGrows(k);
  }

  lemma EvenPower(x: nat)
    requires x > 0 && x % 2 == 0
    ensures IsPower(x) <==> IsPower(x / 2)
  {
    if IsPower(x) {
      var k :| 0 <= k <= x && x == Pow2(k);
      PowIsPower(k - 1);
    }
    if IsPower(x / 2) {
      var k :| 0 <= k <= x / 2 && x / 2 == Pow2(k);
      PowIsPower(k + 1);
    }
  }

  /** A number is a power of two exactly when turning off its lowest bit leaves nothing. */
  lemma {:induction false} PowerIff(x: nat)
    requires x > 0
    ensures And(x, x - 1) == 0 <==> IsPower(x)
  {
    if x % 2 == 1 {
      OffOdd(x);
      if IsPower(x) {
        var k :| 0 <= k <= x && x == Pow2(k);
        assert k == 0;
      }
      if x == 1 {
        PowIsPower(0);
      }
    } else {
      OffEven(x);
      EvenPower(x);
      PowerIff(x / 2);
    }
  }

  /** Turning off the lowest of several bits keeps the highest. */
  lemma {:induction false} OffKeepsTop(x: nat, k: nat)
    requires Pow2(k) <= x < Pow2(k + 1) && And(x, x - 1) != 0
    ensures Pow2(k) <= And(x, x - 1) < x
  {
    if x % 2 == 1 {
      OffOdd(x);
      assert k > 0;
    } else {
      OffEven(x);
      OffKeepsTop(x / 2, k - 1);
    }
  }

  lemma {:induction false} TopBit(x: nat) returns (k: nat)
    requires x > 0
    ensures Pow2(k) <= x < Pow2(k + 1)
  {
    if x == 1 {
      k := 0;
    } else {
      k := TopBit(x / 2);
      k := k + 1;
    }
  }

  /** Masking with one less than a power of two is the remainder. */
  lemma {:induction false} MaskIsRemainder(x: nat, k: nat)
    ensures And(x, Pow2(k) - 1) == x % Pow2(k)
    decreases k
  {
    if k == 0 {
      WithZero(x);
    } else {
      MaskIsRemainder(x / 2, k - 1);
      assert (Pow2(k) - 1) / 2 == Pow2(k - 1) - 1;
      HalfRemainder(x, Pow2(k - 1));
    }
  }

  lemma HalfRemainder(x: nat, p: nat)
    requires p > 0
    ensures x % (2 * p) == 2 * (x / 2 % p) + x % 2
  {
    var h := x / 2;
    var q, r := h / p, h % p;
    assert h == q * p + r && r < p;
    RemainderUnique(x, 2 * p, q, 2 * r + x % 2);
  }

  lemma RemainderUnique(x: nat, d: nat, q: nat, r: nat)
    requires d > 0 && x == q * d + r && r < d
    ensures x % d == r
  {
    Arithmetic.QuotientUnique(x, d, q);
  }

  // ----- tables -----

  /** The functions a table is made with. */
  datatype Ops<!T> = Ops(hash: T -> nat, less: (T, T) -> bool)

  predicate Same<T>(o: Ops<T>, a: T, b: T) {
    !o.less(a, b) && !o.less(b, a)
  }

  /** What the table demands of its functions: a strict weak order, and equal hashes for equal elements. */
  ghost predicate Lawful<T(!new)>(o: Ops<T>) {
    StrictWeakOrder(o.less) && forall a, b :: Same(o, a, b) ==> o.hash(a) == o.hash(b)
  }

  type Buckets<T> = seq<seq<T>>

  function BucketOf<T>(o: Ops<T>, cnt: nat, e: T): nat
    requires cnt > 0
  {
    And(o.hash(e), cnt - 1)
  }

  lemma BucketInRange<T>(o: Ops<T>, cnt: nat, e: T)
    requires IsPower(cnt)
    ensures cnt > 0 && BucketOf(o, cnt, e) == o.hash(e) % cnt < cnt
  {
    var k :| 0 <= k <= cnt && cnt == Pow2(k);
    MaskIsRemainder(o.hash(e), k);
  }

  /** All elements, bucket after bucket: the order of iteration. */
  function Flatten<T>(b: Buckets<T>): seq<T> {
    if b == [] then [] else b[0] + Flatten(b[1..])
  }

  lemma {:induction false} InFlatten<T>(b: Buckets<T>, e: T)
    ensures e in Flatten(b) <==> exists i :: 0 <= i < |b| && e in b[i]
  {
    if b != [] {
      InFlatten(b[1..], e);
      if exists i :: 0 <= i < |b| && e in b[i] {
        var i :| 0 <= i < |b| && e in b[i];
        if i > 0 {
          assert e in b[1..][i - 1];
        }
      }
      if e in Flatten(b[1..]) {
        var i :| 0 <= i < |b[1..]| && e in b[1..][i];
        assert e in b[i + 1];
      }
    }
  }

  lemma {:induction false} FlattenUpdate<T>(b: Buckets<T>, i: nat, s: seq<T>)
    requires i < |b|
    ensures |Flatten(b[i := s])| == |Flatten(b)| - |b[i]| + |s|
  {
    if i > 0 {
      FlattenUpdate(b[1..], i - 1, s);
      assert b[i := s][1..] == b[1..][i - 1 := s];
    } else {
      assert b[i := s][1..] == b[1..];
    }
  }

  /** Each element sits in the bucket its hash selects. */
  predicate Placed<T>(o: Ops<T>, b: Buckets<T>) {
    |b| > 0 && forall i, j :: 0 <= i < |b| && 0 <= j < |b[i]| ==> BucketOf(o, |b|, b[i][j]) == i
  }

  /** No two elements of a bucket are equal. */
  predicate Unique<T>(o: Ops<T>, s: seq<T>) {
    forall i, j :: 0 <= i < j < |s| ==> !Same(o, s[i], s[j])
  }

  predicate Valid<T>(o: Ops<T>, b: Buckets<T>, elemCnt: nat) {
    && |b| >= 4 && IsPower(|b|) && elemCnt == |Flatten(b)|
    && Placed(o, b) && (forall i :: 0 <= i < |b| ==> Unique(o, b[i]))
  }

  ghost predicate Has<T>(b: Buckets<T>, e: T) {
    e in Flatten(b)
  }

  /** Index in a bucket of the first element equal to `e`. */
  function FindIn<T>(o: Ops<T>, s: seq<T>, e: T): (r: Option<nat>)
    ensures r.Some? ==> r.value < |s| && Same(o, s[r.value], e)
    ensures r.None? ==> forall i :: 0 <= i < |s| ==> !Same(o, s[i], e)
  {
    if s == [] then None
    else if Same(o, s[0], e) then Some(0)
    else match FindIn(o, s[1..], e) case None => None case Some(i) => Some(i + 1)
  }

  lemma FlattenMember<T>(b: Buckets<T>, i: nat, e: T)
    requires i < |b| && e in b[i]
    ensures Has(b, e)
  {
    InFlatten(b, e);
  }

  /** An element of the table is found in its own bucket. */
  lemma HasIsPlaced<T>(o: Ops<T>, b: Buckets<T>, e: T)
    requires Placed(o, b) && Has(b, e)
    ensures BucketOf(o, |b|, e) < |b| && e in b[BucketOf(o, |b|, e)]
  {
    InFlatten(b, e);
    var i :| 0 <= i < |b| && e in b[i];
    var j :| 0 <= j < |b[i]| && b[i][j] == e;
    assert BucketOf(o, |b|, b[i][j]) == i;
  }

  /** Searching one bucket finds an equal element of the whole table, if there is one. */
  lemma FindIsComplete<T(!new)>(o: Ops<T>, b: Buckets<T>, elemCnt: nat, e: T)
    requires Lawful(o) && Valid(o, b, elemCnt)
    ensures BucketOf(o, |b|, e) < |b|
    ensures var s := b[BucketOf(o, |b|, e)];
            match FindIn(o, s, e)
            case Some(j) => Has(b, s[j]) && Same(o, s[j], e)
            case None => forall x :: Has(b, x) ==> !Same(o, x, e)
  {
    BucketInRange(o, |b|, e);
    var s := b[BucketOf(o, |b|, e)];
    match FindIn(o, s, e)
    case Some(j) => FlattenMember(b, BucketOf(o, |b|, e), s[j]);
    case None =>
      forall x | Has(b, x)
        ensures !Same(o, x, e)
      {
        HasIsPlaced(o, b, x);
        assert Same(o, x, e) ==> o.hash(x) == o.hash(e);
      }
  }

  /** Equal elements of a table are one element. */
  lemma OnlyOne<T(!new)>(o: Ops<T>, b: Buckets<T>, elemCnt: nat, x: T, y: T)
    requires Lawful(o) && Valid(o, b, elemCnt) && Has(b, x) && Has(b, y) && Same(o, x, y)
    ensures x == y
  {
    HasIsPlaced(o, b, x);
    HasIsPlaced(o, b, y);
    assert o.hash(x) == o.hash(y);
    var s := b[BucketOf(o, |b|, x)];
    assert Unique(o, s) && y in s;
    var i, j :| 0 <= i < |s| && 0 <= j < |s| && s[i] == x && s[j] == y;
    UniqueIndex(o, s, i, j);
  }

  lemma UniqueIndex<T>(o: Ops<T>, s: seq<T>, i: nat, j: nat)
    requires Unique(o, s) && i < |s| && j < |s| && Same(o, s[i], s[j])
    ensures i == j
  {
  }

  // ----- changing one bucket -----

  lemma UpdateHas<T>(b: Buckets<T>, i: nat, s: seq<T>, x: T)
    requires i < |b|
    ensures Has(b[i := s], x) <==> x in s || exists j :: 0 <= j < |b| && j != i && x in b[j]
  {
    var b' := b[i := s];
    InFlatten(b', x);
    if x in s {
      assert x in b'[i];
    }
    if exists j :: 0 <= j < |b| && j != i && x in b[j] {
      var j :| 0 <= j < |b| && j != i && x in b[j];
      assert x in b'[j];
    }
    if exists j :: 0 <= j < |b'| && x in b'[j] {
      var j :| 0 <= j < |b'| && x in b'[j];
      assert j != i ==> x in b[j];
    }
  }

  function Push<T>(o: Ops<T>, b: Buckets<T>, e: T): Buckets<T>
    requires |b| > 0 && BucketOf(o, |b|, e) < |b|
  {
    b[BucketOf(o, |b|, e) := [e] + b[BucketOf(o, |b|, e)]]
  }

  lemma PushHas<T>(o: Ops<T>, b: Buckets<T>, e: T, x: T)
    requires |b| > 0 && BucketOf(o, |b|, e) < |b|
    ensures Has(Push(o, b, e), x) <==> Has(b, x) || x == e
  {
    var i := BucketOf(o, |b|, e);
    UpdateHas(b, i, [e] + b[i], x);
    InFlatten(b, x);
  }

  /** insert_elem of an element that equals none in the table. */
  lemma PushValid<T(!new)>(o: Ops<T>, b: Buckets<T>, elemCnt: nat, e: T)
    requires Lawful(o) && Valid(o, b, elemCnt) && forall x :: Has(b, x) ==> !Same(o, x, e)
    ensures BucketOf(o, |b|, e) < |b| && Valid(o, Push(o, b, e), elemCnt + 1)
  {
    BucketInRange(o, |b|, e);
    var i := BucketOf(o, |b|, e);
    FlattenUpdate(b, i, [e] + b[i]);
    forall j | 0 <= j < |b[i]|
      ensures !Same(o, e, b[i][j])
    {
      FlattenMember(b, i, b[i][j]);
    }
    assert Unique(o, b[i]);
  }

  function Cut<T>(s: seq<T>, j: nat): seq<T>
    requires j < |s|
  {
    s[..j] + s[j + 1..]
  }

  lemma CutUnique<T>(o: Ops<T>, s: seq<T>, j: nat)
    requires j < |s| && Unique(o, s)
    ensures Unique(o, Cut(s, j))
  {
    var r := Cut(s, j);
    forall p, q | 0 <= p < q < |r|
      ensures !Same(o, r[p], r[q])
    {
      var p', q' := if p < j then p else p + 1, if q < j then q else q + 1;
      assert r[p] == s[p'] && r[q] == s[q'];
    }
  }

  /** remove_elem */
  lemma CutValid<T>(o: Ops<T>, b: Buckets<T>, elemCnt: nat, i: nat, j: nat)
    requires Valid(o, b, elemCnt) && i < |b| && j < |b[i]|
    ensures elemCnt > 0 && Valid(o, b[i := Cut(b[i], j)], elemCnt - 1)
  {
    var b' := b[i := Cut(b[i], j)];
    FlattenUpdate(b, i, Cut(b[i], j));
    assert Unique(o, b[i]);
    CutUnique(o, b[i], j);
    forall p, q | 0 <= p < |b'| && 0 <= q < |b'[p]|
      ensures BucketOf(o, |b'|, b'[p][q]) == p
    {
      assert p == i ==> b'[p][q] == b[i][if q < j then q else q + 1];
    }
  }

  lemma CutHas<T(!new)>(o: Ops<T>, b: Buckets<T>, elemCnt: nat, i: nat, j: nat, x: T)
    requires Lawful(o) && Valid(o, b, elemCnt) && i < |b| && j < |b[i]|
    ensures Has(b[i := Cut(b[i], j)], x) <==> Has(b, x) && x != b[i][j]
  {
    var s := b[i];
    UpdateHas(b, i, Cut(s, j), x);
    InFlatten(b, x);
    FlattenMember(b, i, s[j]);
    if Has(b, x) {
      HasIsPlaced(o, b, x);
      HasIsPlaced(o, b, s[j]);
    }
    CutMembers(o, s, j, x);
  }

  lemma CutMembers<T(!new)>(o: Ops<T>, s: seq<T>, j: nat, x: T)
    requires Lawful(o) && j < |s| && Unique(o, s)
    ensures x in Cut(s, j) <==> x in s && x != s[j]
  {
    var r := Cut(s, j);
    if x in r {
      var q :| 0 <= q < |r| && r[q] == x;
      var q' := if q < j then q else q + 1;
      assert s[q'] == x && q' != j;
      assert q' < j ==> !Same(o, s[q'], s[j]);
      assert j < q' ==> !Same(o, s[j], s[q']);
    }
    if x in s && x != s[j] {
      var q :| 0 <= q < |s| && s[q] == x;
      assert r[if q < j then q else q - 1] == x;
    }
  }

  // ----- rehashing -----

  /** The largest power of two that is at most `x`. */
  predicate IsLargestPower(p: nat, x: nat) {
    IsPower(p) && p <= x < 2 * p
  }

  /** What the bucket count aims at: an element for every two buckets, four buckets at least. */
  function Target(elemCnt: nat): nat {
    if elemCnt / 2 < 4 then 4 else elemCnt / 2
  }

  /** Elements pushed one after the other onto empty buckets. */
  function Distribute<T>(o: Ops<T>, s: seq<T>, cnt: nat): (b: Buckets<T>)
    requires IsPower(cnt)
    ensures |b| == cnt
  {
    if s == [] then seq(cnt, _ => [])
    else BucketInRange(o, cnt, s[|s| - 1]); Push(o, Distribute(o, s[..|s| - 1], cnt), s[|s| - 1])
  }

  lemma {:induction false} FlattenEmpty<T>(b: Buckets<T>)
    requires forall i :: 0 <= i < |b| ==> b[i] == []
    ensures Flatten(b) == []
  {
    if b != [] {
      FlattenEmpty(b[1..]);
    }
  }

  /** Redistributing elements that are pairwise different gives a valid table of exactly those elements. */
  lemma {:induction false} DistributeValid<T(!new)>(o: Ops<T>, s: seq<T>, cnt: nat)
    requires Lawful(o) && IsPower(cnt) && cnt >= 4 && Unique(o, s)
    ensures Valid(o, Distribute(o, s, cnt), |s|)
    ensures forall x :: Has(Distribute(o, s, cnt), x) <==> x in s
  {
    if s == [] {
      FlattenEmpty(Distribute(o, s, cnt));
    } else {
      var init, e := s[..|s| - 1], s[|s| - 1];
      DistributeValid(o, init, cnt);
      var b := Distribute(o, init, cnt);
      PushValid(o, b, |init|, e) by {
        forall x | Has(b, x)
          ensures !Same(o, x, e)
        {
          var i :| 0 <= i < |init| && init[i] == x;
          assert !Same(o, s[i], s[|s| - 1]);
        }
      }
      assert s == init + [e];
      forall x
        ensures Has(Distribute(o, s, cnt), x) <==> x in s
      {
        PushHas(o, b, e, x);
      }
    }
  }

  lemma {:induction false} FlattenUniqueFrom<T(!new)>(o: Ops<T>, b: Buckets<T>, k: nat)
    requires Lawful(o) && Placed(o, b) && k <= |b| && forall i :: 0 <= i < |b| ==> Unique(o, b[i])
    ensures Unique(o, Flatten(b[k..]))
    decreases |b| - k
  {
    if k < |b| {
      FlattenUniqueFrom(o, b, k + 1);
      var rest := Flatten(b[k + 1..]);
      assert b[k..][1..] == b[k + 1..] && b[k..][0] == b[k];
      forall i, j | 0 <= i < |b[k]| && 0 <= j < |rest|
        ensures !Same(o, b[k][i], rest[j])
      {
        InFlatten(b[k + 1..], rest[j]);
        var m :| 0 <= m < |b[k + 1..]| && rest[j] in b[k + 1..][m];
        var q :| 0 <= q < |b[k + 1 + m]| && b[k + 1 + m][q] == rest[j];
        assert BucketOf(o, |b|, b[k + 1 + m][q]) == k + 1 + m && BucketOf(o, |b|, b[k][i]) == k;
        assert o.hash(b[k][i]) != o.hash(rest[j]);
      }
      UniqueJoin(o, b[k], rest);
    }
  }

  lemma UniqueJoin<T>(o: Ops<T>, s: seq<T>, t: seq<T>)
    requires Unique(o, s) && Unique(o, t)
    requires forall i, j :: 0 <= i < |s| && 0 <= j < |t| ==> !Same(o, s[i], t[j])
    ensures Unique(o, s + t)
  {
  }

  /** A valid table holds no two equal elements anywhere. */
  lemma FlattenUnique<T(!new)>(o: Ops<T>, b: Buckets<T>, elemCnt: nat)
    requires Lawful(o) && Valid(o, b, elemCnt)
    ensures Unique(o, Flatten(b))
  {
    FlattenUniqueFrom(o, b, 0);
    assert b[0..] == b;
  }

  lemma {:induction false} FlattenSnoc<T>(b: Buckets<T>, k: nat)
    requires k < |b|
    ensures Flatten(b[..k + 1]) == Flatten(b[..k]) + b[k]
  {
    if k > 0 {
      FlattenSnoc(b[1..], k - 1);
      assert b[..k + 1][1..] == b[1..][..k] && b[..k][1..] == b[1..][..k - 1];
    } else {
      assert b[..1][1..] == [];
      assert b[..0] == [];
    }
  }

  // ----- iterating -----

  /** Elements an iterator at this position has not yet returned. */
  function Remaining<T>(b: Buckets<T>, bucket: nat, pos: int): seq<T>
    requires bucket < |b| && -1 <= pos < |b[bucket]|
  {
    b[bucket][pos + 1..] + Flatten(b[bucket + 1..])
  }

  lemma FlattenStep<T>(b: Buckets<T>, k: nat)
    requires k < |b|
    ensures Flatten(b[k..]) == b[k] + Flatten(b[k + 1..])
  {
    assert b[k..][1..] == b[k + 1..];
  }
}
