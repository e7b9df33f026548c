/** Bits packed into 32-bit words. */
module Bitmap {
  import opened Common
  import opened BitmapSpec
  import opened BitWords

  type Word = x: int | 0 <= x < 0x1_0000_0000

  function ElemCnt(bitCnt: nat): nat {
    (bitCnt + 31) / 32
  }

  lemma WordLimit()
    ensures Pow2(32) == 0x1_0000_0000
  {
    assert Pow2(8) == 256;
    Pow2Add(8, 8);
    Pow2Add(16, 16);
  }

  /** The mask of bit `idx` within its word. */
  function Mask(idx: nat): (m: Word)
    ensures m == Pow2(idx % 32)
  {
    WordLimit();
    Pow2Monotonic(idx % 32 + 1, 32);
    Pow2(idx % 32)
  }

  function Marked(w: Word, idx: nat): (r: Word) {
    WordLimit();
    WordBounds(w, Mask(idx), 32);
    Or(w, Mask(idx))
  }

  function Cleared(w: Word, idx: nat): (r: Word) {
    WordLimit();
    WordBounds(w, Mask(idx), 32);
    AndNot(w, Mask(idx))
  }

  /** The bits in use in the last word of a bitmap of `bitCnt` bits. */
  function LastMask(bitCnt: nat): Word {
    WordLimit();
    if bitCnt % 32 != 0 then
      Pow2Monotonic(bitCnt % 32 + 1, 32);
      Pow2(bitCnt % 32) - 1
    else 0xFFFF_FFFF
  }

  /** The first `n` bits of the words of `ws`. */
  function Bits(ws: seq<Word>, n: nat): (r: seq<bool>)
    requires n <= 32 * |ws|
    ensures |r| == n && forall i :: 0 <= i < n ==> r[i] == Bit(ws[i / 32], i % 32)
  {
    seq(n, i requires 0 <= i < n => Bit(ws[i / 32], i % 32))
  }

  /** Storing a word that differs in one bit changes that bit of the bitmap only. */
  lemma BitsUpdate(ws: seq<Word>, n: nat, idx: nat, v: bool, w: Word)
    requires idx < n <= 32 * |ws|
    requires w == if v then Marked(ws[idx / 32], idx) else Cleared(ws[idx / 32], idx)
    ensures Bits(ws[idx / 32 := w], n) == Bits(ws, n)[idx := v]
  {
    var before, after := Bits(ws, n), Bits(ws[idx / 32 := w], n);
    forall i | 0 <= i < n
      ensures after[i] == before[idx := v][i]
    {
      if i / 32 == idx / 32 {
        OrBit(ws[idx / 32], Mask(idx), i % 32);
        AndNotBit(ws[idx / 32], Mask(idx), i % 32);
        PowBit(idx % 32, i % 32);
      }
    }
  }

  // ----- the bitmap as bytes of a file -----

  function ByteOf(w: Word, k: nat): Byte
    requires k < 4
  {
    if k == 0 then w % 256 else if k == 1 then w / 256 % 256 else if k == 2 then w / 65536 % 256 else w / 16777216
  }

  function Bytes(ws: seq<Word>): (b: seq<Byte>)
    ensures |b| == 4 * |ws|
    ensures forall i :: 0 <= i < |b| ==> b[i] == ByteOf(ws[i / 4], i % 4)
  {
    seq(4 * |ws|, i requires 0 <= i < 4 * |ws| => ByteOf(ws[i / 4], i % 4))
  }

  function Join(a: int, b: int, c: int, d: int): int {
    a + 256 * b + 65536 * c + 16777216 * d
  }

  lemma JoinBytes(w: Word)
    ensures Join(ByteOf(w, 0), ByteOf(w, 1), ByteOf(w, 2), ByteOf(w, 3)) == w
  {
    var x := w / 256;
    var y := x / 256;
    assert w / 65536 == y && w / 16777216 == y / 256;
  }

  function WordAt(b: seq<Byte>, i: nat): Word
    requires 4 * i + 4 <= |b|
  {
    Join(b[4 * i], b[4 * i + 1], b[4 * i + 2], b[4 * i + 3])
  }

  function Words(b: seq<Byte>): (ws: seq<Word>)
    requires |b| % 4 == 0
    ensures |ws| == |b| / 4
    ensures forall i :: 0 <= i < |ws| ==> ws[i] == WordAt(b, i)
  {
    seq(|b| / 4, i requires 0 <= i < |b| / 4 => WordAt(b, i))
  }

  lemma BytesAt(ws: seq<Word>, b: seq<Byte>, i: nat)
    requires b == Bytes(ws) && i < |ws|
    ensures b[4 * i] == ByteOf(ws[i], 0) && b[4 * i + 1] == ByteOf(ws[i], 1)
    ensures b[4 * i + 2] == ByteOf(ws[i], 2) && b[4 * i + 3] == ByteOf(ws[i], 3)
  {
    Quarter(i, 0);
    Quarter(i, 1);
    Quarter(i, 2);
    Quarter(i, 3);
  }

  lemma Quarter(i: nat, k: nat)
    requires k < 4
    ensures (4 * i + k) / 4 == i && (4 * i + k) % 4 == k
  {
  }

  lemma WordsBytes(ws: seq<Word>)
    ensures Words(Bytes(ws)) == ws
  {
    var b := Bytes(ws);
    forall i | 0 <= i < |ws|
      ensures WordAt(b, i) == ws[i]
    {
      BytesAt(ws, b, i);
      JoinBytes(ws[i]);
    }
  }

  lemma ByteOfBit(w: Word, j: nat)
    requires j < 32
    ensures Bit(w, j) == Bit(ByteOf(w, j / 8), j % 8)
  {
    ByteBits(w, j);
    if j >= 8 {
      ByteBits(w, j - 8);
      ByteBits(w / 256, j - 8);
      if j >= 16 {
        ByteBits(w / 256, j - 16);
        ByteBits(w / 65536, j - 16);
        if j >= 24 {
          ByteBits(w / 65536, j - 24);
        }
      }
    }
  }

  /** In the file bit `k` of the map is bit k % 8 of byte k / 8. */
  lemma FileBit(ws: seq<Word>, n: nat, k: nat)
    requires k < n <= 32 * |ws|
    ensures k / 8 < |Bytes(ws)| && Bits(ws, n)[k] == Bit(Bytes(ws)[k / 8], k % 8)
  {
    ByteOfBit(ws[k / 32], k % 32);
    assert k / 8 / 4 == k / 32 && k / 8 % 4 == k % 32 / 8 && k % 32 % 8 == k % 8;
  }

  /** Overwrites the front of `dst` with as much of `src` as it has room for. */
  function Overlay(dst: seq<Byte>, src: seq<Byte>): (r: seq<Byte>)
    ensures |r| == |dst|
  {
    if |src| <= |dst| then src + dst[|src|..] else src[..|dst|]
  }

  /** Clears the bits of the last word that are not in use. */
  function MaskLast(ws: seq<Word>, n: nat): (r: seq<Word>)
    ensures |r| == |ws|
  {
    if ws == [] then ws else
    WordLimit();
    WordBounds(ws[|ws| - 1], LastMask(n), 32);
    ws[|ws| - 1 := And(ws[|ws| - 1], LastMask(n))]
  }

  lemma MaskLastKeepsBits(ws: seq<Word>, n: nat)
    requires |ws| == ElemCnt(n)
    ensures Bits(MaskLast(ws, n), n) == Bits(ws, n)
  {
    var before, after := Bits(ws, n), Bits(MaskLast(ws, n), n);
    forall i | 0 <= i < n
      ensures after[i] == before[i]
    {
      var last := |ws| - 1;
      if i / 32 == last {
        AndBit(ws[last], LastMask(n), i % 32);
        WordLimit();
        LowMaskBit(if n % 32 != 0 then n % 32 else 32, i % 32);
      }
    }
  }

  /** What bitmap_read leaves in memory when the file holds `file`. */
  function ReadBack(ws: seq<Word>, file: seq<Byte>, n: nat): (r: seq<Word>)
    ensures |r| == |ws|
  {
    MaskLast(Words(Overlay(Bytes(ws), file)), n)
  }

  /** Writing a bitmap to a file that is long enough and reading it back into any bitmap of its size gives
      the same bits. */
  lemma WriteThenRead(ws: seq<Word>, other: seq<Word>, file: seq<Byte>, n: nat)
    requires |ws| == |other| == ElemCnt(n) && 4 * |ws| <= |file|
    ensures Bits(ReadBack(other, Overlay(file, Bytes(ws)), n), n) == Bits(ws, n)
  {
    var written := Overlay(file, Bytes(ws));
    assert Overlay(Bytes(other), written) == Bytes(ws) by {
      if |written| == 4 * |ws| {
        assert written == Bytes(ws);
      } else {
        assert written[..4 * |ws|] == Bytes(ws);
      }
    }
    WordsBytes(ws);
    MaskLastKeepsBits(ws, n);
  }

  // ----- the bitmap object -----

  class Bitmap {
    const bitCnt: nat
    const bits: array<Word>

    ghost predicate Valid() {
      bits.Length == ElemCnt(bitCnt)
    }

    /** The bitmap as seen from outside. */
    ghost function View(): seq<bool>
      reads bits
      requires Valid()
    {
      Bits(bits[..], bitCnt)
    }

    constructor (n: nat)
      ensures Valid() && fresh(bits) && bitCnt == n && View() == seq(n, _ => false)
    {
      bitCnt := n;
      bits := new Word[ElemCnt(n)](_ => 0);
      new;
      SetMultiple(0, n, false);
    }

    method Set(idx: nat, value: bool)
      requires Valid() && idx < bitCnt
      modifies bits
      ensures View() == old(View())[idx := value]
    {
      ghost var ws := bits[..];
      var e := idx / 32;
      var w := if value then Marked(bits[e], idx) else Cleared(bits[e], idx);
      BitsUpdate(ws, bitCnt, idx, value, w);
      bits[e] := w;
      assert bits[..] == ws[e := w];
    }

    method Test(idx: nat) returns (r: bool)
      requires Valid() && idx < bitCnt
      ensures r == View()[idx]
    {
      r := And(bits[idx / 32], Mask(idx)) != 0;
      TestBit(bits[idx / 32], idx % 32);
    }

    method SetMultiple(start: nat, cnt: nat, value: bool)
      requires Valid() && start + cnt <= bitCnt
      modifies bits
      ensures View() == Fill(old(View()), start, cnt, value)
    {
      ghost var b := View();
      var i := 0;
      assert View() == Fill(b, start, 0, value);
      while i < cnt
        invariant 0 <= i <= cnt && View() == Fill(b, start, i, value)
      {
        Set(start + i, value);
        assert Fill(b, start, i, value)[start + i := value] == Fill(b, start, i + 1, value);
        i := i + 1;
      }
    }

    /** Whether any of the `cnt` bits from `start` equals `value`. */
    method Contains(start: nat, cnt: nat, value: bool) returns (r: bool)
      requires Valid() && start + cnt <= bitCnt
      ensures r == !RunAt(View(), start, cnt, !value)
    {
      var i := 0;
      while i < cnt
        invariant 0 <= i <= cnt && RunAt(View(), start, i, !value)
      {
        var t := Test(start + i);
        if t == value {
          return true;
        }
        i := i + 1;
      }
      r := false;
    }

    /** The first group of `cnt` bits equal to `value` at or after `start`. */
    method Scan(start: nat, cnt: nat, value: bool) returns (r: Option<nat>)
      requires Valid() && start <= bitCnt
      ensures r == FirstRun(View(), start, cnt, value)
    {
      if cnt <= bitCnt {
        var last := bitCnt - cnt;
        var i := start;
        while i <= last
          invariant start <= i && FirstRun(View(), start, cnt, value) == FirstRun(View(), i, cnt, value)
          decreases bitCnt + 1 - i
        {
          var c := Contains(i, cnt, !value);
          if !c {
            return Some(i);
          }
          i := i + 1;
        }
      }
      r := None;
    }

    method ScanFlip(start: nat, cnt: nat, value: bool) returns (r: Option<nat>)
      requires Valid() && start <= bitCnt
      modifies bits
      ensures r == FirstRun(old(View()), start, cnt, value)
      ensures View() == match r case None => old(View()) case Some(i) => Fill(old(View()), i, cnt, !value)
    {
      r := Scan(start, cnt, value);
      if r.Some? {
        SetMultiple(r.value, cnt, !value);
      }
    }

    /** Writes the words to the front of `file`, which does not grow. */
    method Write(file: seq<Byte>) returns (success: bool, file': seq<Byte>)
      requires Valid()
      ensures file' == Overlay(file, Bytes(bits[..])) && (success <==> 4 * ElemCnt(bitCnt) <= |file|)
    {
      var b := Bytes(bits[..]);
      file' := Overlay(file, b);
      success := |b| <= |file|;
    }

    /** Reads the words back from `file` and clears the unused bits of the last one. */
    method Read(file: seq<Byte>) returns (success: bool)
      requires Valid()
      modifies bits
      ensures bits[..] == ReadBack(old(bits[..]), file, bitCnt)
      ensures success <==> 4 * ElemCnt(bitCnt) <= |file|
    {
      success := true;
      ghost var ws := bits[..];
      if bitCnt > 0 {
        var image := Words(Overlay(Bytes(bits[..]), file));
        success := 4 * bits.Length <= |file|;
        Load(image);
        var masked := MaskLast(image, bitCnt);
        bits[bits.Length - 1] := masked[|masked| - 1];
        assert bits[..] == masked;
      }
    }

    method Load(image: seq<Word>)
      requires |image| == bits.Length
      modifies bits
      ensures bits[..] == image
    {
      var i := 0;
      while i < bits.Length
        invariant 0 <= i <= bits.Length && bits[..i] == image[..i]
      {
        bits[i] := image[i];
        i := i + 1;
        assert bits[..i] == bits[..i - 1] + [image[i - 1]];
      }
    }
  }
}
