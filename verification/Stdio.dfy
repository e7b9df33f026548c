/** format_integer: an integer rendered in a base, with sign, prefix, grouping, precision and padding. */
module Stdio {
  import opened Common

  const ZERO_CHAR: Byte := 48
  const SPACE_CHAR: Byte := 32
  const COMMA: Byte := 44
  const BUF_SIZE: nat := 64

  /** Base, digit characters, the `x` character or 0, and the number of digits in a group. */
  datatype Base = Base(base: nat, digits: seq<Byte>, x: Byte, group: nat)

  datatype Conv = Conv(minus: bool, plus: bool, space: bool, pound: bool, zero: bool, grouped: bool,
                       width: int, precision: int)

  predicate ValidBase(b: Base) {
    8 <= b.base <= 16 && |b.digits| == b.base && b.group > 0
  }

  // ----- numerals -----

  /** Value of digits, most significant first. */
  function Value(d: seq<nat>, base: nat): nat {
    if d == [] then 0 else Value(d[..|d| - 1], base) * base + d[|d| - 1]
  }

  /** Digits of a value without leading zeros, most significant first. */
  function Render(v: nat, base: nat): seq<nat>
    requires base >= 2
  {
    if v == 0 then [] else Render(v / base, base) + [v % base]
  }

  function Pow(base: nat, n: nat): nat {
    if n == 0 then 1 else base * Pow(base, n - 1)
  }

  function Zeros(n: nat): seq<nat> {
    seq(n, _ => 0)
  }

  predicate Digits(d: seq<nat>, base: nat) {
    forall i :: 0 <= i < |d| ==> d[i] < base
  }

  lemma DivMod(v: nat, base: nat)
    requires base >= 2
    ensures v == v / base * base + v % base && v % base < base
  {
  }

  lemma ValueSnoc(d: seq<nat>, x: nat, base: nat)
    ensures Value(d + [x], base) == Value(d, base) * base + x
  {
    assert (d + [x])[..|d|] == d;
  }

  /** Rendering is inverted by reading the digits back. */
  lemma {:induction false} RenderValue(v: nat, base: nat)
    requires base >= 2
    ensures Value(Render(v, base), base) == v && Digits(Render(v, base), base)
  {
    if v > 0 {
      var q, r := LastDigit(v, base);
      RenderValue(q, base);
      ValueSnoc(Render(q, base), r, base);
    }
  }

  lemma LastDigit(v: nat, base: nat) returns (q: nat, r: nat)
    requires base >= 2 && v > 0
    ensures v == q * base + r && r < base && q < v
    ensures Render(v, base) == Render(q, base) + [r]
  {
    q, r := v / base, v % base;
    assert v == q * base + r && r < base by { DivMod(v, base); }
    QuotientLess(v, q, base, r);
  }

  lemma QuotientLess(v: nat, q: nat, base: nat, r: nat)
    requires v == q * base + r && base >= 2 && v > 0
    ensures q < v
  {
    MulLess(2, base, q);
  }

  lemma {:induction false} LeadingZeros(n: nat, d: seq<nat>, base: nat)
    ensures Value(Zeros(n) + d, base) == Value(d, base)
  {
    var s := Zeros(n) + d;
    if d != [] {
      LeadingZeros(n, d[..|d| - 1], base);
      assert s[..|s| - 1] == Zeros(n) + d[..|d| - 1];
    } else if n > 0 {
      LeadingZeros(n - 1, [], base);
      assert s[..|s| - 1] == Zeros(n - 1) + [];
      assert s == Zeros(n);
    }
  }

  /** A value below base^n has at most n digits. */
  lemma {:induction false} RenderLength(v: nat, base: nat, n: nat)
    requires base >= 2 && v < Pow(base, n)
    ensures |Render(v, base)| <= n
  {
    if v > 0 {
      DivPow(v, base, Pow(base, n - 1));
      RenderLength(v / base, base, n - 1);
    }
  }

  lemma DivPow(v: nat, base: nat, p: nat)
    requires base >= 2 && v < base * p
    ensures v / base < p
  {
    if v / base >= p {
      MulLess(p, v / base, base);
      assert false;
    }
  }

  lemma MulLess(a: nat, b: nat, c: nat)
    requires a <= b
    ensures c * a <= c * b
  {
  }

  // ----- format_integer -----

  /** The digit buffer, least significant digit first, from the `k`-th digit on. */
  function DigitBuf(v: nat, b: Base, grouped: bool, k: nat): seq<Byte>
    requires ValidBase(b)
    decreases v
  {
    if v == 0 then [] else
    (if grouped && k > 0 && k % b.group == 0 then [COMMA] else []) + [b.digits[v % b.base]] + DigitBuf(v / b.base, b, grouped, k + 1)
  }

  function Repeat(x: Byte, n: int): seq<Byte> {
    if n <= 0 then [] else seq(n, _ => x)
  }

  /** Zeros up to the precision, and for octal with `#` a leading zero. */
  function Padded(buf: seq<Byte>, b: Base, c: Conv): seq<Byte> {
    var p := if c.precision < 0 then 1 else c.precision;
    var buf := buf + Repeat(ZERO_CHAR, Min(p, BUF_SIZE - 1) - |buf|);
    if c.pound && b.base == 8 && (buf == [] || buf[|buf| - 1] != ZERO_CHAR) then buf + [ZERO_CHAR] else buf
  }

  function SignOf(isSigned: bool, negative: bool, c: Conv): seq<Byte> {
    if !isSigned then []
    else if c.plus then [if negative then 45 else 43]
    else if c.space then [if negative then 45 else SPACE_CHAR]
    else if negative then [45] else []
  }

  function PrefixOf(v: nat, b: Base, c: Conv): seq<Byte> {
    if c.pound && v != 0 && b.x != 0 then [ZERO_CHAR, b.x] else []
  }

  function Reversed(s: seq<Byte>): (r: seq<Byte>)
    ensures |r| == |s|
  {
    if s == [] then [] else Reversed(s[1..]) + [s[0]]
  }

  /** What format_integer outputs. */
  function Formatted(v: nat, isSigned: bool, negative: bool, b: Base, c: Conv): seq<Byte>
    requires ValidBase(b)
  {
    var buf := Padded(DigitBuf(v, b, c.grouped, 0), b, c);
    var sign, x := SignOf(isSigned, negative, c), PrefixOf(v, b, c);
    var pad := c.width - |buf| - |x| - |sign|;
    Laid(sign, x, buf, c, pad)
  }

  function Laid(sign: seq<Byte>, x: seq<Byte>, buf: seq<Byte>, c: Conv, pad: int): seq<Byte> {
    Leading(c, pad) + sign + x + Zeroed(c, pad) + Reversed(buf) + Trailing(c, pad)
  }

  function Leading(c: Conv, pad: int): seq<Byte> {
    if c.minus || c.zero then [] else Repeat(SPACE_CHAR, pad)
  }

  function Zeroed(c: Conv, pad: int): seq<Byte> {
    if c.zero then Repeat(ZERO_CHAR, pad) else []
  }

  function Trailing(c: Conv, pad: int): seq<Byte> {
    if c.minus then Repeat(SPACE_CHAR, pad) else []
  }

  lemma PowBound(v: nat, b: Base, n: nat)
    requires ValidBase(b) && 0 < v < Pow(8, n)
    ensures n > 0 && v / b.base < Pow(8, n - 1)
  {
    MulLess(8, b.base, Pow(8, n - 1));
    DivPow(v, b.base, Pow(8, n - 1));
  }

  lemma DigitStep(v: nat, b: Base, grouped: bool, k: nat, done: seq<Byte>)
    requires ValidBase(b) && v > 0
    ensures var comma := if grouped && k > 0 && k % b.group == 0 then [COMMA] else [];
            done + DigitBuf(v, b, grouped, k) == done + comma + [b.digits[v % b.base]] + DigitBuf(v / b.base, b, grouped, k + 1)
  {
  }

  lemma {:induction false} PowAdd(b: nat, m: nat, n: nat)
    ensures Pow(b, m + n) == Pow(b, m) * Pow(b, n)
  {
    if m > 0 {
      PowAdd(b, m - 1, n);
      MulAssoc(b, Pow(b, m - 1), Pow(b, n));
    }
  }

  lemma MulAssoc(a: nat, b: nat, c: nat)
    ensures a * (b * c) == (a * b) * c
  {
  }

  /** 22 octal digits hold any 64-bit value. */
  lemma EnoughDigits()
    ensures 0x1_0000_0000_0000_0000 <= Pow(8, 22)
  {
    assert Pow(8, 1) == 8 && Pow(8, 2) == 64 && Pow(8, 3) == 512;
    assert Pow(8, 4) == 4096 && Pow(8, 5) == 32768;
    PowAdd(8, 5, 5);
    PowAdd(8, 10, 1);
    assert Pow(8, 11) == 0x2_0000_0000;
    PowAdd(8, 11, 11);
  }

  /** The digit loop: a 64-bit value with its group separators fits the buffer with room to spare. */
  method FillDigits(v: nat, b: Base, grouped: bool, buf: array<Byte>) returns (cp: nat)
    requires ValidBase(b) && v < 0x1_0000_0000_0000_0000 && buf.Length == BUF_SIZE
    modifies buf
    ensures cp <= 44 && buf[..cp] == DigitBuf(v, b, grouped, 0)
  {
    var value: nat, digitCnt: nat := v, 0;
    cp := 0;
    ghost var n: nat := 22;
    EnoughDigits();
    while value > 0
      invariant value < Pow(8, n) && cp + 2 * n <= 44
      invariant buf[..cp] + DigitBuf(value, b, grouped, digitCnt) == DigitBuf(v, b, grouped, 0)
      decreases value
    {
      cp, value := PutDigit(value, b, grouped, digitCnt, buf, cp, n);
      digitCnt := digitCnt + 1;
      n := n - 1;
    }
    assert buf[..cp] + [] == buf[..cp];
  }

  /** One digit, and the separator before it. */
  method PutDigit(v: nat, b: Base, grouped: bool, k: nat, buf: array<Byte>, cp: nat, ghost n: nat) returns (cp': nat, v': nat)
    requires ValidBase(b) && 0 < v < Pow(8, n) && buf.Length == BUF_SIZE && cp + 2 <= BUF_SIZE
    modifies buf
    ensures n > 0 && v' < Pow(8, n - 1) && v' < v && cp' <= cp + 2
    ensures buf[..cp'] + DigitBuf(v', b, grouped, k + 1) == old(buf[..cp]) + DigitBuf(v, b, grouped, k)
  {
    PowBound(v, b, n);
    DigitStep(v, b, grouped, k, buf[..cp]);
    cp' := cp;
    if grouped && k > 0 && k % b.group == 0 {
      buf[cp'] := COMMA;
      cp' := cp' + 1;
    }
    assert buf[..cp'] == old(buf[..cp]) + if grouped && k > 0 && k % b.group == 0 then [COMMA] else [];
    var digit, rest := SplitDigit(v, b);
    buf[cp'] := digit;
    assert buf[..cp' + 1] == buf[..cp'] + [digit];
    cp', v' := cp' + 1, rest;
  }

  method SplitDigit(v: nat, b: Base) returns (digit: Byte, rest: nat)
    requires ValidBase(b) && v > 0
    ensures digit == b.digits[v % b.base] && rest == v / b.base < v
  {
    var q, r := v / b.base, v % b.base;
    DivMod(v, b.base);
    QuotientLess(v, q, b.base, r);
    digit, rest := b.digits[r], q;
  }

  method FillZeros(b: Base, c: Conv, buf: array<Byte>, start: nat) returns (cp: nat)
    requires buf.Length == BUF_SIZE && start <= 44
    modifies buf
    ensures start <= cp <= BUF_SIZE && buf[..cp] == Padded(old(buf[..start]), b, c)
  {
    var precision := if c.precision < 0 then 1 else c.precision;
    cp := start;
    ghost var digits := buf[..start];
    while cp < precision && cp < BUF_SIZE - 1
      invariant start <= cp <= BUF_SIZE - 1 && (cp > start ==> cp <= precision)
      invariant buf[..cp] == digits + Repeat(ZERO_CHAR, cp - start)
    {
      buf[cp] := ZERO_CHAR;
      assert buf[..cp + 1] == buf[..cp] + [ZERO_CHAR];
      cp := cp + 1;
    }
    assert buf[..cp] == digits + Repeat(ZERO_CHAR, Min(precision, BUF_SIZE - 1) - start);
    if c.pound && b.base == 8 && (cp == 0 || buf[cp - 1] != ZERO_CHAR) {
      buf[cp] := ZERO_CHAR;
      cp := cp + 1;
      assert buf[..cp] == buf[..cp - 1] + [ZERO_CHAR];
    }
  }

  method OutputDup(out: seq<Byte>, ch: Byte, cnt: int) returns (r: seq<Byte>)
    ensures r == out + Repeat(ch, cnt)
  {
    r := out;
    var i := 0;
    while i < cnt
      invariant 0 <= i && (i <= cnt || i == 0) && r == out + Repeat(ch, i)
    {
      r := r + [ch];
      i := i + 1;
    }
  }

  /** format_integer, appending to `out`. */
  method FormatInteger(v: nat, isSigned: bool, negative: bool, b: Base, c: Conv) returns (out: seq<Byte>)
    requires ValidBase(b) && v < 0x1_0000_0000_0000_0000
    ensures out == Formatted(v, isSigned, negative, b, c)
  {
    var buf := new Byte[BUF_SIZE];
    var cp := FillDigits(v, b, c.grouped, buf);
    cp := FillZeros(b, c, buf, cp);
    var sign, x := SignOf(isSigned, negative, c), PrefixOf(v, b, c);
    out := Output(sign, x, buf[..cp], c, c.width - cp - |x| - |sign|);
  }

  /** The output calls in their order: padding, sign, prefix, zeros, digits, padding. */
  method Output(sign: seq<Byte>, x: seq<Byte>, text: seq<Byte>, c: Conv, pad: int) returns (out: seq<Byte>)
    ensures out == Laid(sign, x, text, c, pad)
  {
    out := [];
    if !c.minus && !c.zero {
      out := OutputDup(out, SPACE_CHAR, pad);
    }
    assert out == Leading(c, pad);
    out := out + sign + x;
    ghost var head := out;
    if c.zero {
      out := OutputDup(out, ZERO_CHAR, pad);
    }
    assert out == head + Zeroed(c, pad);
    out := OutputReversed(out, text);
    ghost var body := out;
    if c.minus {
      out := OutputDup(out, SPACE_CHAR, pad);
    }
    assert out == body + Trailing(c, pad);
  }

  /** The buffer output from its end. */
  method OutputReversed(out: seq<Byte>, text: seq<Byte>) returns (r: seq<Byte>)
    ensures r == out + Reversed(text)
  {
    r := out;
    var cp := |text|;
    assert text[..cp] == text;
    while cp > 0
      invariant cp <= |text| && r + Reversed(text[..cp]) == out + Reversed(text)
    {
      ReversedSnoc(text[..cp - 1], text[cp - 1]);
      assert text[..cp] == text[..cp - 1] + [text[cp - 1]];
      cp := cp - 1;
      r := r + [text[cp]];
    }
    assert r + [] == r;
  }

  lemma {:induction false} ReversedSnoc(s: seq<Byte>, x: Byte)
    ensures Reversed(s + [x]) == [x] + Reversed(s)
  {
    if s != [] {
      ReversedSnoc(s[1..], x);
      assert (s + [x])[1..] == s[1..] + [x];
    }
  }

  // ----- what the digits mean -----

  /** The characters of digits. */
  function Through(digits: seq<Byte>, d: seq<nat>): (r: seq<Byte>)
    requires Digits(d, |digits|)
    ensures |r| == |d| && forall i :: 0 <= i < |d| ==> r[i] == digits[d[i]]
  {
    seq(|d|, i requires 0 <= i < |d| => digits[d[i]])
  }

  lemma ThroughSnoc(digits: seq<Byte>, d: seq<nat>, x: nat)
    requires Digits(d, |digits|) && x < |digits|
    ensures Digits(d + [x], |digits|) && Through(digits, d + [x]) == Through(digits, d) + [digits[x]]
  {
  }

  lemma ReversedCons(x: Byte, s: seq<Byte>)
    ensures Reversed([x] + s) == Reversed(s) + [x]
  {
    assert ([x] + s)[1..] == s;
  }

  lemma FirstDigit(v: nat, b: Base, k: nat)
    requires ValidBase(b) && v > 0
    ensures v % b.base < b.base && DigitBuf(v, b, false, k) == [b.digits[v % b.base]] + DigitBuf(v / b.base, b, false, k + 1)
  {
  }

  /** Without grouping the buffer, output from its end, is the value's digits in the base; they read back as the
      value. */
  lemma {:induction false} DigitsAreOfValue(v: nat, b: Base, k: nat)
    requires ValidBase(b)
    ensures Digits(Render(v, b.base), b.base) && Value(Render(v, b.base), b.base) == v
    ensures Reversed(DigitBuf(v, b, false, k)) == Through(b.digits, Render(v, b.base))
  {
    RenderValue(v, b.base);
    if v > 0 {
      var q, r := LastDigit(v, b.base);
      assert q == v / b.base && r == v % b.base by { QuotientIs(v, b.base, q, r); }
      var rest := DigitBuf(q, b, false, k + 1);
      DigitsAreOfValue(q, b, k + 1);
      assert Reversed(DigitBuf(v, b, false, k)) == Reversed(rest) + [b.digits[r]] by {
        FirstDigit(v, b, k);
        ReversedCons(b.digits[r], rest);
      }
      ThroughSnoc(b.digits, Render(q, b.base), r);
    }
  }

  lemma QuotientIs(v: nat, base: nat, q: nat, r: nat)
    requires base >= 2 && v == q * base + r && r < base
    ensures q == v / base && r == v % base
  {
    DivMod(v, base);
    SameQuotient(q, r, v / base, v % base, base);
  }

  lemma SameQuotient(q: nat, r: nat, q': nat, r': nat, base: nat)
    requires q * base + r == q' * base + r' && r < base && r' < base
    ensures q == q'
  {
    if q < q' {
      MulLess(q + 1, q', base);
    } else if q' < q {
      MulLess(q' + 1, q, base);
    }
  }

  /** Different digit sequences have different texts, so the text determines the value. */
  lemma TextDeterminesValue(v: nat, w: nat, b: Base)
    requires ValidBase(b) && NoDup(b.digits)
    requires DigitBuf(v, b, false, 0) == DigitBuf(w, b, false, 0)
    ensures v == w
  {
    DigitsAreOfValue(v, b, 0);
    DigitsAreOfValue(w, b, 0);
    ThroughInjective(b.digits, Render(v, b.base), Render(w, b.base));
  }

  lemma ThroughInjective(digits: seq<Byte>, d: seq<nat>, e: seq<nat>)
    requires NoDup(digits) && Digits(d, |digits|) && Digits(e, |digits|) && Through(digits, d) == Through(digits, e)
    ensures d == e
  {
    assert |Through(digits, d)| == |Through(digits, e)|;
    forall i | 0 <= i < |d|
      ensures d[i] == e[i]
    {
      assert Through(digits, d)[i] == Through(digits, e)[i];
    }
  }

  /** A text without its group separators. */
  function Ungrouped(s: seq<Byte>): seq<Byte> {
    if s == [] then [] else (if s[0] == COMMA then [] else [s[0]]) + Ungrouped(s[1..])
  }

  lemma UngroupedStep(comma: bool, x: Byte, rest: seq<Byte>)
    requires x != COMMA
    ensures Ungrouped((if comma then [COMMA] else []) + [x] + rest) == [x] + Ungrouped(rest)
  {
    assert ([x] + rest)[1..] == rest;
    if comma {
      assert [COMMA] + [x] + rest == [COMMA] + ([x] + rest);
      assert ([COMMA] + ([x] + rest))[1..] == [x] + rest;
    } else {
      assert [] + [x] + rest == [x] + rest;
    }
  }

  lemma FirstGrouped(v: nat, b: Base, k: nat, q: nat, r: nat)
    requires ValidBase(b) && v > 0 && q == v / b.base && r == v % b.base
    ensures r < b.base
    ensures DigitBuf(v, b, true, k) ==
            (if k > 0 && k % b.group == 0 then [COMMA] else []) + [b.digits[r]] + DigitBuf(q, b, true, k + 1)
  {
  }

  /** Grouping only adds separators. */
  lemma {:induction false} GroupingAddsSeparators(v: nat, b: Base, k: nat)
    requires ValidBase(b) && COMMA !in b.digits
    ensures Ungrouped(DigitBuf(v, b, true, k)) == DigitBuf(v, b, false, k)
    decreases v
  {
    if v > 0 {
      var q, r := LastDigit(v, b.base);
      QuotientIs(v, b.base, q, r);
      GroupingAddsSeparators(q, b, k + 1);
      assert Ungrouped(DigitBuf(v, b, true, k)) == [b.digits[r]] + Ungrouped(DigitBuf(q, b, true, k + 1)) by {
        FirstGrouped(v, b, k, q, r);
        UngroupedStep(k > 0 && k % b.group == 0, b.digits[r], DigitBuf(q, b, true, k + 1));
      }
      FirstDigit(v, b, k);
    }
  }

  // ----- where everything stands -----

  /** The characters of a sign: '-' for a negative signed value, otherwise '+' or a space if asked for. */
  lemma SignIs(negative: bool, c: Conv)
    ensures SignOf(true, true, c) == [45] && SignOf(false, negative, c) == []
    ensures SignOf(true, false, c) == if c.plus then [43] else if c.space then [32] else []
  {
  }

  lemma RepeatIs(x: Byte, n: int)
    ensures |Repeat(x, n)| == (if n < 0 then 0 else n) && forall i :: 0 <= i < |Repeat(x, n)| ==> Repeat(x, n)[i] == x
  {
  }

  lemma FormattedIs(v: nat, isSigned: bool, negative: bool, b: Base, c: Conv, sign: seq<Byte>, x: seq<Byte>, buf: seq<Byte>)
    requires ValidBase(b) && sign == SignOf(isSigned, negative, c) && buf == Padded(DigitBuf(v, b, c.grouped, 0), b, c)
    requires x == if c.pound && v != 0 && b.x != 0 then [48, b.x] else []
    ensures Formatted(v, isSigned, negative, b, c) == Laid(sign, x, buf, c, c.width - |sign| - |x| - |buf|)
  {
    assert x == PrefixOf(v, b, c);
  }

  /** The text is the sign, then "0x" or "0X" if asked for and the value is not 0, then the digits. Padding to the width
      is spaces before all of it, with the minus flag spaces after it, with the zero flag zeros before the digits. */
  lemma TextLayout(v: nat, isSigned: bool, negative: bool, b: Base, c: Conv, sign: seq<Byte>, x: seq<Byte>, buf: seq<Byte>)
    requires ValidBase(b) && sign == SignOf(isSigned, negative, c) && buf == Padded(DigitBuf(v, b, c.grouped, 0), b, c)
    requires x == if c.pound && v != 0 && b.x != 0 then [48, b.x] else []
    ensures var text, pad := Formatted(v, isSigned, negative, b, c), c.width - |sign| - |x| - |buf|;
            && (!c.minus && !c.zero ==> text == Repeat(32, pad) + (sign + x + Reversed(buf)))
            && (c.minus && !c.zero ==> text == (sign + x + Reversed(buf)) + Repeat(32, pad))
            && (!c.minus && c.zero ==> text == (sign + x) + (Repeat(48, pad) + Reversed(buf)))
  {
    FormattedIs(v, isSigned, negative, b, c, sign, x, buf);
    Assembled(sign, x, buf, c, c.width - |sign| - |x| - |buf|);
  }

  lemma Assembled(sign: seq<Byte>, x: seq<Byte>, buf: seq<Byte>, c: Conv, pad: int)
    ensures !c.minus && !c.zero ==> Laid(sign, x, buf, c, pad) == Repeat(32, pad) + (sign + x + Reversed(buf))
    ensures c.minus && !c.zero ==> Laid(sign, x, buf, c, pad) == (sign + x + Reversed(buf)) + Repeat(32, pad)
    ensures !c.minus && c.zero ==> Laid(sign, x, buf, c, pad) == (sign + x) + (Repeat(48, pad) + Reversed(buf))
  {
  }

  /** A text without both paddings at once is as long as the width asks for, or as its contents need. */
  lemma TextLength(v: nat, isSigned: bool, negative: bool, b: Base, c: Conv, sign: seq<Byte>, x: seq<Byte>, buf: seq<Byte>)
    requires ValidBase(b) && sign == SignOf(isSigned, negative, c) && buf == Padded(DigitBuf(v, b, c.grouped, 0), b, c)
    requires x == (if c.pound && v != 0 && b.x != 0 then [48, b.x] else []) && !(c.minus && c.zero)
    ensures var needed := |sign| + |x| + |buf|;
            |Formatted(v, isSigned, negative, b, c)| == if c.width < needed then needed else c.width
  {
    TextLayout(v, isSigned, negative, b, c, sign, x, buf);
    RepeatIs(32, c.width - |sign| - |x| - |buf|);
    RepeatIs(48, c.width - |sign| - |x| - |buf|);
  }

  /** Zeros fill the digits up to the precision, 1 if none is given and 63 at most; octal with `#` starts with a zero. */
  lemma PrecisionZeros(buf: seq<Byte>, b: Base, c: Conv)
    ensures var p := Min(if c.precision < 0 then 1 else c.precision, 63);
            var r := Padded(buf, b, c);
            && buf <= r && (forall i :: |buf| <= i < |r| ==> r[i] == 48)
            && (!(c.pound && b.base == 8) ==> |r| == if |buf| < p then p else |buf|)
            && (c.pound && b.base == 8 ==> r != [] && r[|r| - 1] == 48)
  {
  }

  // ----- zero-padded octal -----

  const OCTAL: Base := Base(8, [48, 49, 50, 51, 52, 53, 54, 55], 0, 3)

  /** The conversion that `%0<width>o` asks for. */
  function ZeroOctal(width: nat): Conv {
    Conv(false, false, false, false, true, false, width, -1)
  }

  function Chars(d: seq<nat>): (r: seq<Byte>)
    requires Digits(d, 8)
    ensures |r| == |d| && forall i :: 0 <= i < |d| ==> r[i] == 48 + d[i]
  {
    seq(|d|, i requires 0 <= i < |d| => (48 + d[i]) as Byte)
  }

  function Max(a: int, b: int): int {
    if a < b then b else a
  }

  /** The digits of a value filled up with zeros to the width, one at least. */
  function OctalDigits(v: nat, width: nat): seq<nat> {
    Zeros(Max(Max(width, 1) - |Render(v, 8)|, 0)) + Render(v, 8)
  }

  lemma OctalDigitsValue(v: nat, width: nat)
    ensures Digits(OctalDigits(v, width), 8) && Value(OctalDigits(v, width), 8) == v
    ensures |OctalDigits(v, width)| == Max(Max(width, 1), |Render(v, 8)|)
  {
    RenderValue(v, 8);
    LeadingZeros(Max(Max(width, 1) - |Render(v, 8)|, 0), Render(v, 8), 8);
  }

  lemma ReversedDigits(v: nat, k: nat)
    ensures Digits(Render(v, 8), 8) && Reversed(DigitBuf(v, OCTAL, false, k)) == Chars(Render(v, 8))
  {
    DigitsAreOfValue(v, OCTAL, k);
    assert Through(OCTAL.digits, Render(v, 8)) == Chars(Render(v, 8));
  }

  lemma PaddedOctal(v: nat, width: nat)
    ensures Padded(DigitBuf(v, OCTAL, false, 0), OCTAL, ZeroOctal(width)) ==
            if v == 0 then [ZERO_CHAR] else DigitBuf(v, OCTAL, false, 0)
  {
    var digits := DigitBuf(v, OCTAL, false, 0);
    if v == 0 {
      assert digits == [];
    } else {
      assert |digits| >= 1;
      assert digits + [] == digits;
    }
  }

  /** With the zero flag alone nothing but zeros stands before the digits. */
  lemma ZeroFlagOnly(v: nat, width: nat)
    ensures var buf := Padded(DigitBuf(v, OCTAL, false, 0), OCTAL, ZeroOctal(width));
            Formatted(v, false, false, OCTAL, ZeroOctal(width)) == Repeat(ZERO_CHAR, width - |buf|) + Reversed(buf)
  {
    var buf := Padded(DigitBuf(v, OCTAL, false, 0), OCTAL, ZeroOctal(width));
    var zeros := Repeat(ZERO_CHAR, width - |buf|);
    assert [] + [] + [] + zeros == zeros;
    assert zeros + Reversed(buf) + [] == zeros + Reversed(buf);
  }

  lemma ZerosThenDigits(n: int, d: seq<nat>)
    requires Digits(d, 8)
    ensures Digits(Zeros(Max(n, 0)) + d, 8) && Repeat(ZERO_CHAR, n) + Chars(d) == Chars(Zeros(Max(n, 0)) + d)
  {
  }

  lemma ZeroDigits(width: nat)
    ensures OctalDigits(0, width) == Zeros(Max(width - 1, 0)) + [0]
  {
  }

  lemma ZeroText(width: nat)
    ensures Digits(OctalDigits(0, width), 8)
    ensures Repeat(ZERO_CHAR, width - 1) + [ZERO_CHAR] == Chars(OctalDigits(0, width))
  {
    ZeroDigits(width);
    ZerosThenDigits(width - 1, [0]);
    assert Chars([0]) == [ZERO_CHAR];
  }

  /** `%0<width>o` prints the value's octal digits, filled up with zeros. */
  lemma FormattedOctal(v: nat, width: nat)
    ensures Digits(OctalDigits(v, width), 8)
    ensures Formatted(v, false, false, OCTAL, ZeroOctal(width)) == Chars(OctalDigits(v, width))
  {
    OctalDigitsValue(v, width);
    FormattedText(v, width);
    if v == 0 {
      ZeroText(width);
    } else {
      assert |Render(v, 8)| >= 1;
      ZerosThenDigits(width - |Render(v, 8)|, Render(v, 8)) by { ReversedDigits(v, 0); }
    }
  }

  lemma FormattedText(v: nat, width: nat)
    ensures Digits(Render(v, 8), 8)
    ensures Formatted(v, false, false, OCTAL, ZeroOctal(width)) ==
            if v == 0 then Repeat(ZERO_CHAR, width - 1) + [ZERO_CHAR]
            else Repeat(ZERO_CHAR, width - |Render(v, 8)|) + Chars(Render(v, 8))
  {
    ReversedDigits(v, 0);
    PaddedOctal(v, width);
    if v == 0 {
      ReversedCons(ZERO_CHAR, []);
      assert [ZERO_CHAR] + [] == [ZERO_CHAR];
    }
    ZeroFlagOnly(v, width);
  }
}
