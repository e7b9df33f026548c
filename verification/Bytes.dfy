/** Bytes, and overwriting part of a byte sequence. */
module Bytes {
  import opened Common

  /** `s` with the bytes from `at` on replaced by `b`. */
  function Patch(s: seq<Byte>, at: nat, b: seq<Byte>): (r: seq<Byte>)
    requires at + |b| <= |s|
    ensures |r| == |s|
    ensures forall i :: 0 <= i < |s| ==> r[i] == if at <= i < at + |b| then b[i - at] else s[i]
  {
    s[..at] + b + s[at + |b|..]
  }

  lemma PatchMore(s: seq<Byte>, at: nat, b: seq<Byte>, c: seq<Byte>)
    requires at + |b| + |c| <= |s|
    ensures Patch(Patch(s, at, b), at + |b|, c) == Patch(s, at, b + c)
  {
  }

  /** A patch puts its bytes where they are found again, and changes no other byte. */
  lemma PatchThenRead(s: seq<Byte>, at: nat, b: seq<Byte>)
    requires at + |b| <= |s|
    ensures Patch(s, at, b)[at..at + |b|] == b
    ensures Patch(s, at, b)[..at] == s[..at] && Patch(s, at, b)[at + |b|..] == s[at + |b|..]
  {
  }

  lemma PatchElsewhere(s: seq<Byte>, at: nat, b: seq<Byte>, lo: nat, hi: nat)
    requires at + |b| <= |s| && lo <= hi <= |s| && (hi <= at || at + |b| <= lo)
    ensures Patch(s, at, b)[lo..hi] == s[lo..hi]
  {
  }
}
