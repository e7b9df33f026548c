/** What a bitmap is from the outside: a sequence of booleans, searched for runs and filled by runs. */
module BitmapSpec {
  import opened Common

  predicate RunAt(b: seq<bool>, i: nat, cnt: nat, v: bool) {
    i + cnt <= |b| && forall k :: i <= k < i + cnt ==> b[k] == v
  }

  function Fill(b: seq<bool>, start: nat, cnt: nat, v: bool): (r: seq<bool>)
    requires start + cnt <= |b|
    ensures |r| == |b|
    ensures forall k :: 0 <= k < |b| ==> r[k] == if start <= k < start + cnt then v else b[k]
  {
    seq(|b|, k requires 0 <= k < |b| => if start <= k < start + cnt then v else b[k])
  }

  /** Least `i` at or after `start` where `cnt` bits equal `v`, if there is one. */
  function FirstRun(b: seq<bool>, start: nat, cnt: nat, v: bool): (r: Option<nat>)
    ensures r.Some? ==> start <= r.value && RunAt(b, r.value, cnt, v) && forall i :: start <= i < r.value ==> !RunAt(b, i, cnt, v)
    ensures r.None? ==> forall i :: start <= i ==> !RunAt(b, i, cnt, v)
    decreases |b| - start
  {
    if start + cnt > |b| then None
    else if RunAt(b, start, cnt, v) then Some(start)
    else FirstRun(b, start + 1, cnt, v)
  }

  /** An empty group is found at the starting point itself, wherever that is. */
  lemma EmptyGroup(b: seq<bool>, start: nat, v: bool)
    requires start <= |b|
    ensures FirstRun(b, start, 0, v) == Some(start)
  {
    assert RunAt(b, start, 0, v);
  }
}
