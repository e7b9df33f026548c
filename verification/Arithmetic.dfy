/** 64-bit division built on a divide instruction that takes a 64-bit dividend and a 32-bit divisor and traps
    when the quotient does not fit in 32 bits. */
module Arithmetic {
  import opened BitWords

  const B32: int := 0x1_0000_0000
  const B63: int := 0x8000_0000_0000_0000
  const B64: int := 0x1_0000_0000_0000_0000

  type U32 = x: int | 0 <= x < B32
  type U64 = x: int | 0 <= x < B64
  type I32 = x: int | -0x8000_0000 <= x < 0x8000_0000
  type I64 = x: int | -B63 <= x < B63

  function Wrap32(x: int): U32 { x % 0x1_0000_0000 }

  function Wrap64(x: int): U64 { x % 0x1_0000_0000_0000_0000 }

  /** Two's complement reading of the low 64 bits. */
  function Signed64(x: int): I64 {
    if Wrap64(x) < B63 then Wrap64(x) else Wrap64(x) - B64
  }

  function Signed32(x: int): I32 {
    if Wrap32(x) < 0x8000_0000 then Wrap32(x) else Wrap32(x) - B32
  }

  /** Logical right shift. */
  function Shr(x: nat, k: nat): (r: nat)
    ensures r <= x
  {
    DivLess(x, Pow2(k));
    x / Pow2(k)
  }

  lemma DivLess(x: nat, p: nat)
    requires p >= 1
    ensures 0 <= x / p <= x
  {
    var q := x / p;
    assert x == q * p + x % p;
    if q < 0 {
      MulMonotonic(p, q, -1);
    } else {
      MulMonotonic(q, 1, p);
    }
  }

  // ----- primitives -----

  /** The divide instruction.  Its precondition is what keeps it from trapping. */
  method Divl(n: U64, d: U32) returns (q: U32)
    requires d != 0 && n / d < B32
    ensures q == n / d
  {
    DivLess(n, d);
    q := n / d;
  }

  /** Number of leading zero bits of a nonzero word. */
  function LeadingZeros(x: U32): (n: nat)
    requires x > 0
    ensures n < 32 && B32 / 2 <= x * Pow2(n) < B32
    decreases B32 - x
  {
    if x >= B32 / 2 then 0 else
    var n := LeadingZeros(2 * x);
    assert x * Pow2(n + 1) == 2 * x * Pow2(n);
    LeadingZerosBound(x, n + 1);
    n + 1
  }

  lemma LeadingZerosBound(x: int, n: nat)
    requires x >= 1 && x * Pow2(n) < B32
    ensures n < 32
  {
    var p := Pow2(n);
    MulMonotonic(p, 1, x);
    assert p < B32;
    Pow2Values();
    if n >= 32 {
      Pow2Monotonic(32, n);
    }
  }

  lemma Pow2Values()
    ensures Pow2(1) == 2 && Pow2(2) == 4 && Pow2(4) == 16 && Pow2(8) == 256 && Pow2(16) == 65536
    ensures Pow2(31) == 0x8000_0000 && Pow2(32) == B32
  {
    Pow2Add(16, 16);
  }

  /** Only one shift normalises a word. */
  lemma {:induction false} NormalisingShiftUnique(x: U32, a: nat, b: nat)
    requires x > 0 && B32 / 2 <= x * Pow2(a) < B32 && B32 / 2 <= x * Pow2(b) < B32
    ensures a == b
  {
    if a < b {
      Doubling(x, a, b);
    } else if b < a {
      Doubling(x, b, a);
    }
  }

  lemma Doubling(x: nat, a: nat, b: nat)
    requires a < b
    ensures x * Pow2(b) >= 2 * (x * Pow2(a))
  {
    var p, q := Pow2(a), Pow2(b - 1);
    Pow2Monotonic(a, b - 1);
    MulMonotonic(x, p, q);
    Regroup2(x, q);
  }

  lemma Regroup2(x: int, q: int)
    ensures x * (2 * q) == 2 * (x * q)
  {
  }

  /** Shifting left by `k` more places. */
  lemma ShiftMore(x: int, n: nat, k: nat)
    ensures x * Pow2(n + k) == x * Pow2(n) * Pow2(k)
  {
    var p, q := Pow2(n), Pow2(k);
    Pow2Add(n, k);
    MulAssoc(x, p, q);
  }

  lemma MulAssoc(a: int, b: int, c: int)
    ensures a * (b * c) == (a * b) * c
  {
  }

  lemma MulMonotonic(x: nat, a: int, b: int)
    requires a <= b
    ensures x * a <= x * b
  {
  }

  /** nlz: five conditional shifts. */
  method Nlz(x0: U32) returns (n: nat)
    requires x0 > 0
    ensures n == LeadingZeros(x0)
  {
    var x: int;
    assert Normalising(x0, 0, x0, 1);
    x, n := ShiftIfSmall(x0, x0, 0, 16, 65536);
    x, n := ShiftIfSmall(x0, x, n, 8, 256);
    x, n := ShiftIfSmall(x0, x, n, 4, 16);
    x, n := ShiftIfSmall(x0, x, n, 2, 4);
    x, n := ShiftIfSmall(x0, x, n, 1, 2);
    NormalisingShiftUnique(x0, n, LeadingZeros(x0));
  }

  /** One of nlz's steps: shifts by `k` places, a factor of `f`, if the top `k` bits are zero. */
  method ShiftIfSmall(ghost x0: U32, x: int, n: nat, k: nat, f: nat) returns (x': int, n': nat)
    requires (k, f) in {(1, 2), (2, 4), (4, 16), (8, 256), (16, 65536)}
    requires Normalising(x0, n, x, B32 / (f * f))
    ensures Normalising(x0, n', x', B32 / f)
  {
    x', n' := x, n;
    if x <= B32 / f - 1 {
      ShiftedBy(x0, n, k, f);
      x', n' := x * f, n + k;
    }
  }

  /** `x` is `x0` shifted left by `n`, and has at most the leading zeros that `least` has. */
  predicate Normalising(x0: int, n: nat, x: int, least: int) {
    x == x0 * Pow2(n) && least <= x < B32
  }

  lemma ShiftedBy(x: int, n: nat, k: nat, f: nat)
    requires (k, f) in {(1, 2), (2, 4), (4, 16), (8, 256), (16, 65536)}
    ensures x * Pow2(n + k) == x * Pow2(n) * f
  {
    Pow2Values();
    ShiftMore(x, n, k);
  }

  // ----- unsigned division -----

  /** Quotients are determined by their defining inequality. */
  lemma QuotientUnique(n: int, d: int, q: int)
    requires d > 0 && q * d <= n < (q + 1) * d
    ensures n / d == q
  {
    var q', r := n / d, n % d;
    assert n == q' * d + r;
    if q' > q {
      MulMonotonic(d, q + 1, q');
    } else if q' < q {
      MulMonotonic(d, q' + 1, q);
    }
  }

  lemma QuotientBounds(n: int, d: int)
    requires d > 0
    ensures n / d * d <= n < (n / d + 1) * d
  {
  }

  /** Narrow divisor: long division by two-digit numbers in base 2^32, neither digit of which overflows. */
  lemma NarrowDivision(n: U64, d: U32)
    requires d > 0
    ensures var n1, n0 := n / B32, n % B32;
            var m := B32 * (n1 % d) + n0;
            0 <= m < B64 && m / d < B32 && n / d == m / d + B32 * (n1 / d)
  {
    var n1, n0 := n / B32, n % B32;
    var m := B32 * (n1 % d) + n0;
    var t, u := m / d, n1 / d;
    QuotientBounds(m, d);
    QuotientBounds(n1, d);
    assert n1 == u * d + n1 % d;
    assert n == m + B32 * (u * d);
    var q := t + B32 * u;
    assert q * d == t * d + B32 * (u * d);
    assert (q + 1) * d == q * d + d && (t + 1) * d == t * d + d;
    QuotientUnique(n, d, q);
    assert t * d < B32 * d;
    CancelMul(t, B32, d);
  }

  lemma CancelMul(a: int, b: int, c: nat)
    requires a * c < b * c
    ensures a < b
  {
    if b <= a {
      MulMonotonic(c, b, a);
    }
  }

  /** Dividing twice is dividing by the product. */
  lemma DivTwice(n: nat, a: nat, b: nat)
    requires a > 0 && b > 0
    ensures a * b > 0 && n / a / b == n / (a * b)
  {
    var x := n / a;
    var y := x / b;
    QuotientBounds(n, a);
    QuotientBounds(x, b);
    MulMonotonic(a, y * b, x);
    MulMonotonic(a, x + 1, (y + 1) * b);
    MulAssoc(a, y, b);
    assert y * (a * b) == a * (y * b) && (y + 1) * (a * b) == a * ((y + 1) * b);
    QuotientUnique(n, a * b, y);
  }

  /** A divisor cut off below a unit `w` gives the true quotient or one more.  `w` times `k` is 2^33. */
  lemma EstimateBounds(n: U64, d: U64, w: nat, k: nat, e: nat)
    requires w >= 2 && w * k == 2 * B32 && B32 / 2 * w <= e <= d < e + w && n >= d
    ensures n / d <= n / e <= n / d + 1
  {
    var q, x, delta := n / d, n / e, d - e;
    QuotientBounds(n, d);
    QuotientBounds(n, e);
    MulMonotonic(q, e, d);
    CancelMul(q, x + 1, e);
    QuotientSmall(n, d, w, k, q);
    CutSmall(d, w, k, e, q, delta);
    assert (q + 2) * e == (q + 2) * d - (q + 2) * delta;
    assert (q + 2) * d == (q + 1) * d + d;
    CancelMul(x, q + 2, e);
  }

  lemma QuotientSmall(n: U64, d: U64, w: nat, k: nat, q: nat)
    requires w * k == 2 * B32 && B32 / 2 * w <= d && q * d <= n
    ensures q < k
  {
    MulMonotonic(k, B32 / 2 * w, d);
    assert k * (B32 / 2 * w) == B32 / 2 * (w * k);
    CancelMul(q, k, d);
  }

  /** What was cut off, times the quotient, does not reach the divisor. */
  lemma CutSmall(d: U64, w: nat, k: nat, e: nat, q: nat, delta: nat)
    requires w >= 2 && w * k == 2 * B32 && B32 / 2 * w <= e && e + delta == d && delta < w
    requires q < k
    ensures (q + 2) * delta <= d
  {
    var a, b, c := (q + 2) * delta, (k + 1) * delta, k * delta;
    assert a <= b by { MulMonotonic(delta, q + 2, k + 1); }
    assert b == c + delta by { OneMore(k, delta); }
    assert c <= 2 * B32 - k by { CutOnce(w, k, delta); }
    EnoughLeft(w, k, e);
  }

  lemma OneMore(k: int, x: int)
    ensures (k + 1) * x == k * x + x
  {
  }

  lemma CutOnce(w: nat, k: nat, delta: nat)
    requires w * k == 2 * B32 && delta < w
    ensures k * delta <= 2 * B32 - k
  {
    MulMonotonic(k, delta, w - 1);
    assert k * (w - 1) == w * k - k;
  }

  lemma EnoughLeft(w: nat, k: nat, e: nat)
    requires w >= 2 && w * k == 2 * B32 && B32 / 2 * w <= e
    ensures 2 * B32 - k <= e
  {
    if w == 2 {
      assert k == B32;
    } else if w == 3 {
      assert 3 * k == 2 * B32;
    }
  }

  /** Facts about the normalised divisor `v`: multiplying by `p` normalises `d`, and `w` is the unit cut off. */
  predicate Normalised(d: U64, p: nat, w: nat, v: int) {
    && p > 0 && w >= 2 && p * w == B32
    && B32 / 2 <= v < B32 && B32 / 2 * w <= v * w <= d < v * w + w
  }

  lemma NormalisedDivisor(d: U64, p: nat, w: nat, v: int)
    requires d >= B32 && p > 0 && w >= 2 && p * w == B32 && B32 / 2 <= d / B32 * p < B32 && v == d * p / B32
    ensures Normalised(d, p, w, v) && d * p < B64
  {
    DivLess(d, w);
    DivCancel(d, w, p);
    QuotientBounds(d, w);
    DivisorTop(d, p, w, v);
    assert (v + 1) * w == v * w + w;
  }

  lemma ShiftProduct(s: nat)
    requires s < 32
    ensures Pow2(s) * (2 * Pow2(31 - s)) == B32
  {
    var p, h := Pow2(s), Pow2(31 - s);
    Pow2Values();
    Pow2Add(s, 31 - s);
    Regroup2(p, h);
  }

  /** Halving, dividing by `v` and dividing by `h` is dividing by `v` units of `2 * h`. */
  lemma EstimateQuotient(n: U64, v: nat, h: nat, e: nat)
    requires v > 0 && h > 0 && e == v * (2 * h)
    ensures e > 0 && n / 2 / v / h == n / e
  {
    DivTwice(n, 2, v);
    DivTwice(n, 2 * v, h);
    MulAssoc(2, v, h);
    Regroup2(v, h);
  }

  lemma NoWrap(a: nat, b: nat)
    requires a * b < B64
    ensures Wrap64(a * b) == a * b
  {
  }

  /** The estimating division does not trap. */
  lemma WideNoTrap(n: U64, d: U64, s: nat, v: int)
    requires d >= B32 && s == LeadingZeros(d / B32) && v == d * Pow2(s) / B32
    ensures 0 < v < B32 && d * Pow2(s) < B64 && n / 2 / v < B32
  {
    ShiftProduct(s);
    NormalisedDivisor(d, Pow2(s), 2 * Pow2(31 - s), v);
    EstimateFits(n, v);
  }

  /** Shifted back, the estimate is the true quotient or one more. */
  lemma WideEstimate(n: U64, d: U64, s: nat, v: nat, q1: nat)
    requires d >= B32 && n >= d && s == LeadingZeros(d / B32) && v == d * Pow2(s) / B32
    requires v > 0 && q1 == n / 2 / v
    ensures n / d <= Shr(q1, 31 - s) <= n / d + 1
  {
    var p, h := Pow2(s), Pow2(31 - s);
    var w := 2 * h;
    ShiftProduct(s);
    NormalisedDivisor(d, p, w, v);
    EstimateStep(n, d, p, w, v);
    EstimateQuotient(n, v, h, v * w);
  }

  lemma EstimateStep(n: U64, d: U64, p: nat, w: nat, v: nat)
    requires Normalised(d, p, w, v) && n >= d
    ensures v * w > 0 && n / d <= n / (v * w) <= n / d + 1
  {
    Regroup2(w, p);
    EstimateBounds(n, d, w, 2 * p, v * w);
  }

  lemma DivCancel(d: nat, w: nat, p: nat)
    requires w > 0 && p > 0
    ensures p * w > 0 && d * p / (p * w) == d / w
  {
    var x := d / w;
    QuotientBounds(d, w);
    MulMonotonic(p, x * w, d);
    MulMonotonic(p, d + 1, (x + 1) * w);
    assert x * (p * w) == p * (x * w) && (x + 1) * (p * w) == p * ((x + 1) * w);
    assert p * (d + 1) == p * d + p;
    QuotientUnique(d * p, p * w, x);
  }

  /** The top 32 bits of the normalised divisor. */
  lemma DivisorTop(d: U64, p: nat, w: nat, v: nat)
    requires d >= B32 && p > 0 && p * w == B32 && v * w <= d < (v + 1) * w
    requires B32 / 2 <= d / B32 * p < B32
    ensures B32 / 2 <= v < B32 && d * p < B64 && B32 / 2 * w <= v * w
  {
    var d1 := d / B32;
    var x := d1 * p;
    MulAssoc(d1, p, w);
    assert x * w <= d < (v + 1) * w;
    CancelMul(x, v + 1, w);
    MulMonotonic(w, B32 / 2, v);
    CancelMul(d1, w, p);
    DivisorBelow(d, p, w, d1);
    CancelMul(v, B32, w);
    MulMonotonic(p, d, B32 * w - 1);
    MulAssoc(p, w, B32);
  }

  lemma DivisorBelow(d: U64, p: nat, w: nat, d1: nat)
    requires p > 0 && p * w == B32 && d1 == d / B32 && d1 < w
    ensures d < B32 * w
  {
    MulMonotonic(B32, d1 + 1, w);
  }

  lemma EstimateFits(n: U64, v: nat)
    requires v >= B32 / 2
    ensures n / 2 / v < B32
  {
    var x := n / 2 / v;
    QuotientBounds(n / 2, v);
    MulMonotonic(B32, B32 / 2, v);
    CancelMul(x, B32, v);
  }

  /** Comparing the remainder left by q - 1 with the divisor settles which of the two it is; nothing wraps. */
  method Corrected(n: U64, d: U64, q: U64) returns (r: U64)
    requires 0 < d <= n && n / d <= q <= n / d + 1
    ensures r == n / d
  {
    CorrectionExact(n, d, q, n / d);
    var m: int := Wrap64(q - 1);
    assert m == q - 1;
    var product := m * d;
    assert 0 <= product <= n;
    var rest := Wrap64(n - Wrap64(product));
    assert rest == n - product;
    r := if rest < d then m else q;
  }

  /** What q - 1 leaves over is below the divisor exactly when q is one too many. */
  lemma CorrectionExact(n: int, d: int, q: int, t: int)
    requires 0 < d <= n && t == n / d && t <= q <= t + 1
    ensures q >= 1 && 0 <= (q - 1) * d <= n
    ensures n - (q - 1) * d < d <==> q == t + 1
  {
    QuotientBounds(n, d);
    QuotientPositive(n, d, t);
    var p := t * d;
    assert (t + 1) * d == p + d && (t - 1) * d == p - d;
    MulMonotonic(d, 0, q - 1);
  }

  lemma QuotientPositive(n: int, d: int, t: int)
    requires 0 < d <= n && n < (t + 1) * d
    ensures t >= 1
  {
    CancelMul(1, t + 1, d);
  }

  /** udiv64 is floor division on all 64-bit operands, and neither divide instruction it issues can trap. */
  method Udiv64(n: U64, d: U64) returns (r: U64)
    requires d != 0
    ensures r == n / d
  {
    DivLess(n, d);
    if d / B32 == 0 {
      r := UdivNarrow(n, d);
    } else if n < d {
      QuotientUnique(n, d, 0);
      r := 0;
    } else {
      r := UdivWide(n, d);
    }
  }

  /** The branch for divisors that fit in 32 bits. */
  method UdivNarrow(n: U64, d: U32) returns (r: U64)
    requires d != 0
    ensures r == n / d
  {
    var n1, n0 := n / B32, n % B32;
    NarrowDivision(n, d);
    var q := Divl(B32 * (n1 % d) + n0, d);
    DivLess(n, d);
    r := q + B32 * (n1 / d);
  }

  /** The branch for wide divisors: normalise, estimate, correct by one. */
  method UdivWide(n: U64, d: U64) returns (r: U64)
    requires B32 <= d <= n
    ensures r == n / d
  {
    var d1 := d / B32;
    var s := Nlz(d1);
    var shifted := Wrap64(d * Pow2(s));
    var v := shifted / B32;
    WideNoTrap(n, d, s, d * Pow2(s) / B32);
    assert shifted == d * Pow2(s) by { NoWrap(d, Pow2(s)); }
    var q1 := Divl(n / 2, v);
    WideEstimate(n, d, s, v, q1);
    var q := Shr(q1, 31 - s);
    r := Corrected(n, d, q);
  }

  /** umod64 returns the low half of the remainder, which is the remainder exactly when that is below 2^32. */
  method Umod64(n: U64, d: U64) returns (r: U32)
    requires d != 0
    ensures r == n % d % B32
    ensures r == n % d <==> n % d < B32
  {
    var q := Udiv64(n, d);
    var rest := Rest(n, d, q);
    r := Wrap32(rest);
  }

  method Rest(n: U64, d: U64, q: U64) returns (r: U64)
    requires d != 0 && q == n / d
    ensures r == n % d
  {
    DivMod(n, d, q, n % d);
    r := Wrap64(n - d * q);
  }

  lemma DivMod(n: int, d: int, q: int, r: int)
    requires d > 0 && q == n / d && r == n % d
    ensures n - d * q == r && 0 <= r < d
  {
  }

  /** A remainder that does not fit: that of 2^32 by 2^33, which comes out as 0. */
  method UmodTruncates() returns (r: U32)
    ensures r == 0 && B32 % (2 * B32) == B32
  {
    r := Umod64(B32, 2 * B32);
  }

  // ----- signed division -----

  function Abs(n: int): nat {
    if n >= 0 then n else -n
  }

  /** C's division: the quotient rounded toward zero. */
  function TruncDiv(n: int, d: int): int
    requires d != 0
  {
    if (n < 0) == (d < 0) then Abs(n) / Abs(d) else -(Abs(n) / Abs(d))
  }

  /** C's remainder, which has the sign of the dividend. */
  function TruncMod(n: int, d: int): int
    requires d != 0
  {
    n - d * TruncDiv(n, d)
  }

  /** sdiv64 truncates toward zero on every pair of operands except INT64_MIN / -1, which wraps to INT64_MIN. */
  method Sdiv64(n: I64, d: I64) returns (r: I64)
    requires d != 0
    ensures r == TruncDiv(n, d) <==> !(n == -B63 && d == -1)
    ensures n == -B63 && d == -1 ==> r == -B63
  {
    var nAbs := Magnitude(n);
    var dAbs := Magnitude(d);
    var q := Udiv64(nAbs, dAbs);
    QuotientTop(nAbs, dAbs, q);
    TruncDivIs(n, d, q);
    r := WithSign((n < 0) == (d < 0), q);
  }

  /** The absolute value, negating in unsigned arithmetic. */
  method Magnitude(n: I64) returns (a: U64)
    ensures a == Abs(n)
  {
    a := if n >= 0 then n else Wrap64(0 - Wrap64(n) as int);
  }

  method WithSign(positive: bool, q: U64) returns (r: I64)
    requires q <= B63
    ensures r == if positive && q == B63 then -B63 else if positive then q else 0 - q as int
  {
    r := if positive then Signed64(q) else Signed64(0 - Signed64(q) as int);
  }

  lemma TruncDivIs(n: int, d: int, q: int)
    requires d != 0 && q == Abs(n) / Abs(d)
    ensures TruncDiv(n, d) == if (n < 0) == (d < 0) then q else -q
  {
  }

  /** A quotient of magnitudes reaches 2^63 only for 2^63 / 1. */
  lemma QuotientTop(a: nat, b: nat, q: int)
    requires a <= B63 && b >= 1 && q == a / b
    ensures 0 <= q <= B63 && (q == B63 <==> a == B63 && b == 1)
  {
    DivLess(a, b);
    if b >= 2 {
      QuotientBounds(a, b);
      MulMonotonic(q, 2, b);
    }
  }

  lemma TruncModBounds(n: int, d: int)
    requires d != 0
    ensures Abs(TruncMod(n, d)) < Abs(d) && Abs(TruncMod(n, d)) <= Abs(n)
    ensures Abs(d * TruncDiv(n, d)) <= Abs(n)
  {
    var a: int, b: int := Abs(n), Abs(d);
    var q, r := a / b, a % b;
    DivMod(a, b, q, r);
    DivLess(a, b);
    SignedProduct(n, d, q);
    MulMonotonic(b, 0, q);
  }

  lemma SignedProduct(n: int, d: int, q: nat)
    requires d != 0 && q == Abs(n) / Abs(d)
    ensures d * TruncDiv(n, d) == if n >= 0 then Abs(d) * q else -(Abs(d) * q)
  {
  }

  /** smod64 is the remainder truncated to 32 bits; it is the remainder exactly when that fits an int. */
  method Smod64(n: I64, d: I64) returns (r: I32)
    requires d != 0
    ensures r == Signed32(TruncMod(n, d))
    ensures r == TruncMod(n, d) <==> -0x8000_0000 <= TruncMod(n, d) < 0x8000_0000
  {
    var q := Sdiv64(n, d);
    var rest := SignedRest(n, d, q);
    FitsInt(rest);
    r := Signed32(rest);
  }

  lemma FitsInt(x: int)
    ensures Signed32(x) == x <==> -0x8000_0000 <= x < 0x8000_0000
  {
  }

  /** n - d * q in 64-bit arithmetic. */
  method SignedRest(n: I64, d: I64, q: I64) returns (r: I64)
    requires d != 0
    requires if n == -B63 && d == -1 then q == -B63 else q == TruncDiv(n, d)
    ensures r == TruncMod(n, d)
  {
    var p := Signed64(d * q);
    if n == -B63 && d == -1 {
      assert TruncDiv(n, d) == B63;
    } else {
      TruncModBounds(n, d);
      SmallSigned(n, d * q);
    }
    r := Signed64(n - p);
  }

  /** A remainder that does not fit: that of 2^31 by 2^33, which comes out negative. */
  method SmodTruncates() returns (r: I32)
    ensures r == -0x8000_0000 && TruncMod(0x8000_0000, 2 * B32) == 0x8000_0000
  {
    r := Smod64(0x8000_0000, 2 * B32);
  }

  lemma SmallSigned(n: I64, p: int)
    requires Abs(p) <= Abs(n) && Abs(n - p) <= Abs(n) && p != B63
    ensures Signed64(p) == p && Signed64(n - p) == n - p
  {
  }
}
