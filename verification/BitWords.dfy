/** Bitwise operations on naturals, and what they do to each bit. */
module BitWords {
  function Pow2(k: nat): (p: nat)
    ensures p >= 1
  {
    if k == 0 then 1 else 2 * Pow2(k - 1)
  }

  lemma {:induction false} Pow2Monotonic(a: nat, b: nat)
    requires a <= b
    ensures Pow2(a) <= Pow2(b)
    decreases b
  {
    if a < b {
      Pow2Monotonic(a, b - 1);
    }
  }

  lemma {:induction false} Pow2Add(a: nat, b: nat)
    ensures Pow2(a + b) == Pow2(a) * Pow2(b)
  {
    if a > 0 {
      Pow2Add(a - 1, b);
      assert Pow2(a + b) == 2 * Pow2(a - 1 + b);
    }
  }

  predicate Bit(w: nat, k: nat) {
    if k == 0 then w % 2 == 1 else Bit(w / 2, k - 1)
  }

  function Or(a: nat, b: nat): nat
    decreases a + b
  {
    if a == 0 && b == 0 then 0
    else 2 * Or(a / 2, b / 2) + if a % 2 == 1 || b % 2 == 1 then 1 else 0
  }

  function And(a: nat, b: nat): nat
    decreases a + b
  {
    if a == 0 && b == 0 then 0
    else 2 * And(a / 2, b / 2) + if a % 2 == 1 && b % 2 == 1 then 1 else 0
  }

  /** `a & ~b` */
  function AndNot(a: nat, b: nat): nat
    decreases a + b
  {
    if a == 0 && b == 0 then 0
    else 2 * AndNot(a / 2, b / 2) + if a % 2 == 1 && b % 2 == 0 then 1 else 0
  }

  lemma {:induction false} ZeroBit(k: nat)
    ensures !Bit(0, k)
  {
    if k > 0 {
      ZeroBit(k - 1);
    }
  }

  lemma OrParts(a: nat, b: nat)
    ensures Or(a, b) / 2 == Or(a / 2, b / 2)
    ensures Or(a, b) % 2 == 1 <==> a % 2 == 1 || b % 2 == 1
  {
    var h := Or(a / 2, b / 2);
    assert a + b > 0 ==> Or(a, b) == 2 * h + if a % 2 == 1 || b % 2 == 1 then 1 else 0;
  }

  lemma {:induction false} OrBit(a: nat, b: nat, k: nat)
    ensures Bit(Or(a, b), k) <==> Bit(a, k) || Bit(b, k)
    decreases k
  {
    OrParts(a, b);
    if k > 0 {
      OrBit(a / 2, b / 2, k - 1);
    }
  }

  lemma AndParts(a: nat, b: nat)
    ensures And(a, b) / 2 == And(a / 2, b / 2)
    ensures And(a, b) % 2 == 1 <==> a % 2 == 1 && b % 2 == 1
  {
    var h := And(a / 2, b / 2);
    assert a + b > 0 ==> And(a, b) == 2 * h + if a % 2 == 1 && b % 2 == 1 then 1 else 0;
  }

  lemma {:induction false} AndBit(a: nat, b: nat, k: nat)
    ensures Bit(And(a, b), k) <==> Bit(a, k) && Bit(b, k)
    decreases k
  {
    AndParts(a, b);
    if k > 0 {
      AndBit(a / 2, b / 2, k - 1);
    }
  }

  lemma AndNotParts(a: nat, b: nat)
    ensures AndNot(a, b) / 2 == AndNot(a / 2, b / 2)
    ensures AndNot(a, b) % 2 == 1 <==> a % 2 == 1 && b % 2 == 0
  {
    var h := AndNot(a / 2, b / 2);
    assert a + b > 0 ==> AndNot(a, b) == 2 * h + if a % 2 == 1 && b % 2 == 0 then 1 else 0;
  }

  lemma {:induction false} AndNotBit(a: nat, b: nat, k: nat)
    ensures Bit(AndNot(a, b), k) <==> Bit(a, k) && !Bit(b, k)
    decreases k
  {
    AndNotParts(a, b);
    if k > 0 {
      AndNotBit(a / 2, b / 2, k - 1);
    }
  }

  /** A power of two has a single bit. */
  lemma {:induction false} PowBit(k: nat, j: nat)
    ensures Bit(Pow2(k), j) <==> j == k
    decreases j
  {
    if k == 0 {
      if j > 0 {
        ZeroBit(j - 1);
      }
    } else if j > 0 {
      assert Pow2(k) / 2 == Pow2(k - 1);
      PowBit(k - 1, j - 1);
    }
  }

  /** One less than a power of two has all the lower bits. */
  lemma {:induction false} LowMaskBit(k: nat, j: nat)
    ensures Bit(Pow2(k) - 1, j) <==> j < k
    decreases j
  {
    if k == 0 {
      ZeroBit(j);
    } else if j > 0 {
      assert (Pow2(k) - 1) / 2 == Pow2(k - 1) - 1;
      LowMaskBit(k - 1, j - 1);
    }
  }

  /** The operations stay within a word. */
  lemma {:induction false} WordBounds(a: nat, b: nat, n: nat)
    requires a < Pow2(n) && b < Pow2(n)
    ensures Or(a, b) < Pow2(n) && And(a, b) <= a && AndNot(a, b) <= a
    decreases n
  {
    if n > 0 && !(a == 0 && b == 0) {
      WordBounds(a / 2, b / 2, n - 1);
    }
  }

  /** Words with the same bits are equal. */
  lemma {:induction false} BitsDetermine(a: nat, b: nat, n: nat)
    requires a < Pow2(n) && b < Pow2(n)
    requires forall k :: 0 <= k < n ==> Bit(a, k) == Bit(b, k)
    ensures a == b
    decreases n
  {
    if n > 0 {
      assert Bit(a, 0) == Bit(b, 0);
      forall k | 0 <= k < n - 1
        ensures Bit(a / 2, k) == Bit(b / 2, k)
      {
        assert Bit(a, k + 1) == Bit(b, k + 1);
      }
      BitsDetermine(a / 2, b / 2, n - 1);
    }
  }

  // ----- high and low parts -----

  function High(w: nat, n: nat): nat
    decreases n
  {
    if n == 0 then w else High(w / 2, n - 1)
  }

  function Low(w: nat, n: nat): nat
    decreases n
  {
    if n == 0 then 0 else w % 2 + 2 * Low(w / 2, n - 1)
  }

  function Shl(w: nat, n: nat): nat
    decreases n
  {
    if n == 0 then w else 2 * Shl(w, n - 1)
  }

  /** Bitwise operations act on the high and the low bits of a word separately. */
  lemma {:induction false} AndSplit(a: nat, b: nat, n: nat)
    ensures And(a, b) == Shl(And(High(a, n), High(b, n)), n) + And(Low(a, n), Low(b, n))
    decreases n
  {
    if n > 0 {
      AndSplit(a / 2, b / 2, n - 1);
      var c := if a % 2 == 1 && b % 2 == 1 then 1 else 0;
      assert And(a, b) == 2 * And(a / 2, b / 2) + c by {
        LowStep(a % 2, b % 2, a / 2, b / 2);
        assert a == a % 2 + 2 * (a / 2) && b == b % 2 + 2 * (b / 2);
      }
      assert And(Low(a, n), Low(b, n)) == 2 * And(Low(a / 2, n - 1), Low(b / 2, n - 1)) + c by {
        LowStep(a % 2, b % 2, Low(a / 2, n - 1), Low(b / 2, n - 1));
      }
    }
  }

  lemma {:induction false} OrSplit(a: nat, b: nat, n: nat)
    ensures Or(a, b) == Shl(Or(High(a, n), High(b, n)), n) + Or(Low(a, n), Low(b, n))
    decreases n
  {
    if n > 0 {
      OrSplit(a / 2, b / 2, n - 1);
      var c := if a % 2 == 1 || b % 2 == 1 then 1 else 0;
      assert Or(a, b) == 2 * Or(a / 2, b / 2) + c by {
        LowStep(a % 2, b % 2, a / 2, b / 2);
        assert a == a % 2 + 2 * (a / 2) && b == b % 2 + 2 * (b / 2);
      }
      assert Or(Low(a, n), Low(b, n)) == 2 * Or(Low(a / 2, n - 1), Low(b / 2, n - 1)) + c by {
        LowStep(a % 2, b % 2, Low(a / 2, n - 1), Low(b / 2, n - 1));
      }
    }
  }

  lemma {:induction false} AndNotSplit(a: nat, b: nat, n: nat)
    ensures AndNot(a, b) == Shl(AndNot(High(a, n), High(b, n)), n) + AndNot(Low(a, n), Low(b, n))
    decreases n
  {
    if n > 0 {
      AndNotSplit(a / 2, b / 2, n - 1);
      var c := if a % 2 == 1 && b % 2 == 0 then 1 else 0;
      assert AndNot(a, b) == 2 * AndNot(a / 2, b / 2) + c by {
        LowStep(a % 2, b % 2, a / 2, b / 2);
        assert a == a % 2 + 2 * (a / 2) && b == b % 2 + 2 * (b / 2);
      }
      assert AndNot(Low(a, n), Low(b, n)) == 2 * AndNot(Low(a / 2, n - 1), Low(b / 2, n - 1)) + c by {
        LowStep(a % 2, b % 2, Low(a / 2, n - 1), Low(b / 2, n - 1));
      }
    }
  }

  lemma LowStep(x: nat, y: nat, a: nat, b: nat)
    requires x < 2 && y < 2
    ensures And(x + 2 * a, y + 2 * b) == 2 * And(a, b) + (if x == 1 && y == 1 then 1 else 0)
    ensures Or(x + 2 * a, y + 2 * b) == 2 * Or(a, b) + (if x == 1 || y == 1 then 1 else 0)
    ensures AndNot(x + 2 * a, y + 2 * b) == 2 * AndNot(a, b) + (if x == 1 && y == 0 then 1 else 0)
  {
    assert (x + 2 * a) / 2 == a && (x + 2 * a) % 2 == x && (y + 2 * b) / 2 == b && (y + 2 * b) % 2 == y;
  }

  lemma {:induction false} WithZero(a: nat)
    ensures And(a, 0) == 0 && And(0, a) == 0 && Or(a, 0) == a && Or(0, a) == a && AndNot(a, 0) == a && AndNot(0, a) == 0
  {
    if a > 0 {
      WithZero(a / 2);
    }
  }

  lemma {:induction false} Parts(w: nat, n: nat)
    ensures w == Shl(High(w, n), n) + Low(w, n) && Low(w, n) < Shl(1, n)
    decreases n
  {
    if n > 0 {
      Parts(w / 2, n - 1);
    }
  }

  /** Shifting twice. */
  lemma {:induction false} ShlAdd(x: nat, m: nat, n: nat)
    ensures Shl(x, m + n) == Shl(Shl(x, m), n)
    decreases n
  {
    if n > 0 {
      ShlAdd(x, m, n - 1);
    }
  }

  lemma ShlFive(x: nat)
    ensures Shl(x, 5) == 32 * x
  {
    assert Shl(x, 2) == 4 * x;
    assert Shl(x, 4) == 16 * x;
  }

  lemma ShlTen(x: nat)
    ensures Shl(x, 10) == 1024 * x
  {
    ShlFive(x);
    ShlFive(32 * x);
    ShlAdd(x, 5, 5);
  }

  lemma ShlPage(x: nat)
    ensures Shl(x, 12) == 4096 * x
  {
    ShlTen(x);
    ShlAdd(x, 10, 2);
    assert Shl(1024 * x, 2) == 4 * (1024 * x);
  }

  lemma ShlTwenty(x: nat)
    ensures Shl(x, 20) == 0x10_0000 * x
  {
    ShlTen(x);
    ShlTen(1024 * x);
    ShlAdd(x, 10, 10);
  }

  /** The parts of a word at bit 12, where the page offset ends. */
  lemma PageParts(w: nat)
    ensures High(w, 12) == w / 4096 && Low(w, 12) == w % 4096
  {
    Parts(w, 12);
    ShlPage(High(w, 12));
    ShlPage(1);
  }

  lemma TenParts(w: nat)
    ensures High(w, 10) == w / 1024 && Low(w, 10) == w % 1024
  {
    Parts(w, 10);
    ShlTen(High(w, 10));
    ShlTen(1);
  }

  /** Masking with `n` one bits leaves the low part. */
  lemma {:induction false} MaskLow(x: nat, n: nat)
    ensures Shl(1, n) >= 1 && And(x, Shl(1, n) - 1) == Low(x, n)
    decreases n
  {
    if n == 0 {
      WithZero(x);
    } else {
      MaskLow(x / 2, n - 1);
      LowStep(x % 2, 1, x / 2, Shl(1, n - 1) - 1);
    }
  }

  /** Testing one bit with its mask. */
  lemma {:induction false} TestBit(w: nat, k: nat)
    ensures And(w, Pow2(k)) != 0 <==> Bit(w, k)
    decreases k
  {
    if k == 0 {
      WithZero(w / 2);
      LowStep(w % 2, 1, w / 2, 0);
    } else {
      TestBit(w / 2, k - 1);
      LowStep(w % 2, 0, w / 2, Pow2(k - 1));
    }
  }

  // ----- words split at the page offset -----

  lemma PageMultiple(h: nat)
    ensures High(4096 * h, 12) == h && Low(4096 * h, 12) == 0
  {
    PageParts(4096 * h);
  }

  lemma PageRest(m: nat)
    requires m < 4096
    ensures High(m, 12) == 0 && Low(m, 12) == m
  {
    PageParts(m);
  }

  lemma AndHigh(x: nat, h: nat)
    ensures And(x, 4096 * h) == 4096 * And(High(x, 12), h)
  {
    assert And(x, 4096 * h) == Shl(And(High(x, 12), h), 12) + And(Low(x, 12), 0) by {
      AndSplit(x, 4096 * h, 12);
      PageMultiple(h);
    }
    WithZero(Low(x, 12));
    ShlPage(And(High(x, 12), h));
  }

  lemma OrLow(x: nat, m: nat)
    requires m < 4096
    ensures Or(x, m) == 4096 * High(x, 12) + Or(Low(x, 12), m)
  {
    assert Or(x, m) == Shl(Or(High(x, 12), 0), 12) + Or(Low(x, 12), m) by {
      OrSplit(x, m, 12);
      PageRest(m);
    }
    WithZero(High(x, 12));
    ShlPage(High(x, 12));
  }

  lemma AndNotLow(x: nat, m: nat)
    requires m < 4096
    ensures AndNot(x, m) == 4096 * High(x, 12) + AndNot(Low(x, 12), m)
  {
    assert AndNot(x, m) == Shl(AndNot(High(x, 12), 0), 12) + AndNot(Low(x, 12), m) by {
      AndNotSplit(x, m, 12);
      PageRest(m);
    }
    WithZero(High(x, 12));
    ShlPage(High(x, 12));
  }

  lemma {:induction false} AllLow(x: nat, n: nat)
    requires x < Shl(1, n)
    ensures High(x, n) == 0 && Low(x, n) == x
    decreases n
  {
    if n > 0 {
      AllLow(x / 2, n - 1);
    }
  }

  /** Masking a number that fits with all ones changes nothing. */
  lemma MaskAll(x: nat, m: nat, n: nat)
    requires m + 1 == Shl(1, n) && x <= m
    ensures And(x, m) == x
  {
    MaskLow(x, n);
    AllLow(x, n);
  }

  // ----- bits of the parts of a word -----

  lemma {:induction false} LowBit(w: nat, n: nat, j: nat)
    requires j < n
    ensures Bit(Low(w, n), j) == Bit(w, j)
    decreases n
  {
    if j > 0 {
      LowBit(w / 2, n - 1, j - 1);
    }
  }

  lemma {:induction false} HighBit(w: nat, n: nat, j: nat)
    ensures Bit(High(w, n), j) == Bit(w, n + j)
    decreases n
  {
    if n > 0 {
      HighBit(w / 2, n - 1, j);
    }
  }

  lemma ByteParts(w: nat)
    ensures High(w, 8) == w / 256 && Low(w, 8) == w % 256
  {
    Parts(w, 8);
    assert Shl(High(w, 8), 8) == 256 * High(w, 8) && Shl(1, 8) == 256;
  }

  /** Bits of the lowest byte and of the rest. */
  lemma ByteBits(w: nat, j: nat)
    ensures j < 8 ==> Bit(w, j) == Bit(w % 256, j)
    ensures Bit(w, 8 + j) == Bit(w / 256, j)
  {
    ByteParts(w);
    HighBit(w, 8, j);
    if j < 8 {
      LowBit(w, 8, j);
    }
  }
}
