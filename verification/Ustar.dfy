/** ustar archive headers: made from a name, a type and a size, and parsed back. */
module Ustar {
  import opened Common
  import opened Bytes
  import opened Stdio

  const HEADER_SIZE: nat := 512
  const ULONG_MAX: nat := 0xFFFF_FFFF
  const INT_MAX: nat := 0x7FFF_FFFF

  const REGULAR: Byte := 48
  const DIRECTORY: Byte := 53

  // ----- names -----

  /** Starts with "/", "./" or "../". */
  predicate Antisocial(s: seq<Byte>) {
    [47] <= s || [46, 47] <= s || [46, 46, 47] <= s
  }

  function AfterSlash(s: seq<Byte>): (r: seq<Byte>)
    requires 47 in s
    ensures |r| < |s| && r == s[|s| - |r|..]
  {
    if s[0] == 47 then s[1..] else AfterSlash(s[1..])
  }

  lemma AntisocialHasSlash(s: seq<Byte>)
    requires Antisocial(s)
    ensures 47 in s
  {
    assert [47] <= s ==> s[0] == 47;
    assert [46, 47] <= s ==> s[1] == 47;
    assert [46, 46, 47] <= s ==> s[2] == 47;
  }

  /** strip_antisocial_prefixes */
  function Strip(s: seq<Byte>): seq<Byte>
    decreases |s|
  {
    if Antisocial(s) then AntisocialHasSlash(s); Strip(AfterSlash(s))
    else if s == [] || s == [46, 46] then [46] else s
  }

  /** A stripped name leads nowhere outside the directory it is extracted to by its first component. */
  lemma {:induction false} StripIsSafe(s: seq<Byte>)
    ensures !Antisocial(Strip(s)) && Strip(s) != [] && Strip(s) != [46, 46]
    ensures 0 !in s ==> 0 !in Strip(s)
    decreases |s|
  {
    if Antisocial(s) {
      AntisocialHasSlash(s);
      StripIsSafe(AfterSlash(s));
      assert forall x :: x in AfterSlash(s) ==> x in s;
    } else if s == [] || s == [46, 46] {
      assert Strip(s) == [46] && Strip(s)[0] != 47;
    }
  }

  /** Stripping is idempotent. */
  lemma StripTwice(s: seq<Byte>)
    ensures Strip(Strip(s)) == Strip(s)
  {
    StripIsSafe(s);
  }

  // ----- fields -----

  /** A string cut to fit `n` bytes with its terminator, as strlcpy and snprintf store it. */
  function StringField(s: seq<Byte>, n: nat): (r: seq<Byte>)
    requires n > 0
    ensures |r| <= n
  {
    (if |s| < n then s else s[..n - 1]) + [0]
  }

  /** A value printed in octal to fill `n` bytes. */
  function OctalField(v: nat, n: nat): (r: seq<Byte>)
    requires n > 0
    ensures |r| <= n
  {
    FormattedOctal(v, n - 1);
    StringField(Chars(OctalDigits(v, n - 1)), n)
  }

  lemma OctalFieldDigits(v: nat, n: nat)
    requires n > 1 && v < Pow(8, n - 1)
    ensures Digits(OctalDigits(v, n - 1), 8) && Value(OctalDigits(v, n - 1), 8) == v && |OctalDigits(v, n - 1)| == n - 1
    ensures OctalField(v, n) == Chars(OctalDigits(v, n - 1)) + [0]
  {
    OctalDigitsValue(v, n - 1);
    RenderLength(v, 8, n - 1);
  }

  function Sum(h: seq<Byte>, n: nat): nat
    requires n <= |h|
  {
    if n == 0 then 0 else Sum(h, n - 1) + if 148 <= n - 1 < 156 then 32 else h[n - 1]
  }

  /** The sum of the header's bytes, its checksum field taken as spaces. */
  function Checksum(h: seq<Byte>): nat
    requires |h| == HEADER_SIZE
  {
    Sum(h, HEADER_SIZE)
  }

  lemma {:induction false} SumBound(h: seq<Byte>, n: nat)
    requires n <= |h|
    ensures Sum(h, n) <= 255 * n
  {
    if n > 0 {
      SumBound(h, n - 1);
    }
  }

  /** The checksum does not depend on what the checksum field holds. */
  lemma {:induction false} SumIgnoresField(h: seq<Byte>, b: seq<Byte>, n: nat)
    requires |h| == HEADER_SIZE && |b| <= 8 && n <= HEADER_SIZE
    ensures Sum(Patch(h, 148, b), n) == Sum(h, n)
  {
    if n > 0 {
      SumIgnoresField(h, b, n - 1);
    }
  }

  // ----- making -----

  /** An int as the unsigned value that an octal conversion prints. */
  function Unsigned(size: int): nat {
    size % (ULONG_MAX + 1)
  }

  /** A header after memset. */
  function Blank(): seq<Byte> {
    seq(HEADER_SIZE, _ => 0)
  }

  const ID: seq<Byte> := [48, 48, 48, 48, 48, 48, 48]
  const MAGIC: seq<Byte> := [117, 115, 116, 97, 114]
  const ROOT: seq<Byte> := [114, 111, 111, 116]

  /** The fields in front of the checksum. */
  function Front(name: seq<Byte>, kind: Byte, size: int): (r: seq<Byte>)
    ensures |r| == HEADER_SIZE
  {
    var h1 := Patch(Blank(), 0, StringField(name, 100));
    var h2 := Patch(h1, 100, OctalField(if kind == REGULAR then 420 else 493, 8));
    var h3 := Patch(h2, 108, StringField(ID, 8));
    var h4 := Patch(h3, 116, StringField(ID, 8));
    var h5 := Patch(h4, 124, OctalField(Unsigned(size), 12));
    Patch(h5, 136, OctalField(1136102400, 12))
  }

  /** The fields after it. */
  function WithBack(h: seq<Byte>, kind: Byte): (r: seq<Byte>)
    requires |h| == HEADER_SIZE
    ensures |r| == HEADER_SIZE && forall i :: 0 <= i < 156 ==> r[i] == h[i]
  {
    var h7 := Patch(h, 156, [kind]);
    var h8 := Patch(h7, 257, StringField(MAGIC, 6));
    var h9 := Patch(h8, 263, [48, 48]);
    var h10 := Patch(h9, 297, StringField(ROOT, 32));
    Patch(h10, 265, StringField(ROOT, 32))
  }

  /** The header before its checksum, filled in field by field. */
  function Filled(name: seq<Byte>, kind: Byte, size: int): (r: seq<Byte>)
    ensures |r| == HEADER_SIZE
  {
    WithBack(Front(name, kind, size), kind)
  }

  /** The header ustar_make_header composes for a stripped name. */
  function Header(name: seq<Byte>, kind: Byte, size: int): (r: seq<Byte>)
    ensures |r| == HEADER_SIZE
  {
    var h := Filled(name, kind, size);
    Patch(h, 148, OctalField(Checksum(h), 8))
  }

  // ----- parsing -----

  function ParseOctal(s: seq<Byte>, ofs: nat, value: nat): Option<nat>
    decreases |s| - ofs
  {
    if ofs >= |s| then None
    else if 48 <= s[ofs] <= 55 then
      if value > ULONG_MAX / 8 then None else ParseOctal(s, ofs + 1, s[ofs] - 48 + value * 8)
    else if s[ofs] == 32 || s[ofs] == 0 then (if ofs > 0 then Some(value) else None)
    else None
  }

  function CString(s: seq<Byte>): (r: seq<Byte>)
    ensures r <= s && 0 !in r
  {
    if s == [] || s[0] == 0 then [] else [s[0]] + CString(s[1..])
  }

  datatype Error = NotUstar | BadVersion | CorruptChecksum | ChecksumMismatch | NameTooLong | BadType | CorruptSize | TooLarge

  datatype Parsed = Eof | Failed(error: Error) | Entry(name: seq<Byte>, kind: Byte, size: nat)

  /** ustar_parse_header, its tests in order. */
  function Parse(h: seq<Byte>): Parsed
    requires |h| == HEADER_SIZE
  {
    var chksum := ParseOctal(h[148..156], 0, 0);
    var size := if h[156] == REGULAR then ParseOctal(h[124..136], 0, 0) else Some(0);
    if forall i :: 0 <= i < |h| ==> h[i] == 0 then Eof
    else if h[257..263] != MAGIC + [0] then Failed(NotUstar)
    else if h[263] != 48 || h[264] != 48 then Failed(BadVersion)
    else if chksum.None? then Failed(CorruptChecksum)
    else if chksum.value != Checksum(h) then Failed(ChecksumMismatch)
    else if h[99] != 0 || h[345] != 0 then Failed(NameTooLong)
    else if h[156] != REGULAR && h[156] != DIRECTORY then Failed(BadType)
    else if size.None? then Failed(CorruptSize)
    else if size.value > INT_MAX then Failed(TooLarge)
    else Entry(Strip(CString(h[..100])), h[156], size.value)
  }

  // ----- parsing inverts making -----

  lemma {:induction false} PrefixValue(d: seq<nat>, k: nat)
    requires k <= |d|
    ensures Value(d[..k], 8) <= Value(d, 8)
    ensures k < |d| ==> 8 * Value(d[..k], 8) <= Value(d, 8)
  {
    if k < |d| {
      var init := d[..|d| - 1];
      PrefixValue(init, k);
      assert init[..k] == d[..k];
    } else {
      assert d[..k] == d;
    }
  }

  /** Reading an octal field from its `k`-th digit on. */
  lemma {:induction false} ParseFrom(d: seq<nat>, k: nat)
    requires Digits(d, 8) && Value(d, 8) <= ULONG_MAX && k <= |d| && d != []
    ensures ParseOctal(Chars(d) + [0], k, Value(d[..k], 8)) == Some(Value(d, 8))
    decreases |d| - k
  {
    if k < |d| {
      PrefixValue(d, k);
      ValueSnoc(d[..k], d[k], 8);
      assert d[..k] + [d[k]] == d[..k + 1];
      ParseFrom(d, k + 1);
    } else {
      assert d[..k] == d;
    }
  }

  /** An octal field is read back as the value it was made from. */
  lemma OctalRoundTrip(v: nat, n: nat)
    requires n > 1 && v < Pow(8, n - 1) && v <= ULONG_MAX
    ensures |OctalField(v, n)| == n && ParseOctal(OctalField(v, n), 0, 0) == Some(v)
  {
    OctalFieldDigits(v, n);
    var d := OctalDigits(v, n - 1);
    ParseFrom(d, 0);
    assert d[..0] == [];
  }

  lemma SizeFits(size: int)
    ensures Unsigned(size) < Pow(8, 11) && Unsigned(size) <= ULONG_MAX
  {
    assert Pow(8, 5) == 32768 && Pow(8, 6) == 262144;
    PowAdd(8, 5, 6);
  }

  lemma FilledName(name: seq<Byte>, kind: Byte, size: int, i: nat)
    requires |name| <= 99 && i < 100
    ensures Filled(name, kind, size)[i] == if i < |name| then name[i] else 0
  {
  }

  lemma FilledSize(name: seq<Byte>, kind: Byte, size: int)
    requires |name| <= 99
    ensures Filled(name, kind, size)[124..136] == OctalField(Unsigned(size), 12)
  {
    SizeFits(size);
    OctalRoundTrip(Unsigned(size), 12);
  }

  /** Nothing is written between the fields after the checksum. */
  lemma BackIs(h: seq<Byte>, kind: Byte)
    requires |h| == HEADER_SIZE
    ensures var r := WithBack(h, kind);
            r[156] == kind && r[263] == 48 && r[264] == 48 && r[345] == h[345] && r[257..263] == MAGIC + [0]
  {
  }

  lemma FrontEnds(name: seq<Byte>, kind: Byte, size: int)
    ensures Front(name, kind, size)[345] == 0
  {
  }

  lemma FilledKind(name: seq<Byte>, kind: Byte, size: int)
    requires |name| <= 99
    ensures var h := Filled(name, kind, size); h[156] == kind && h[263] == 48 && h[264] == 48 && h[345] == 0
  {
    BackIs(Front(name, kind, size), kind);
    FrontEnds(name, kind, size);
  }

  lemma FilledMagic(name: seq<Byte>, kind: Byte, size: int)
    requires |name| <= 99
    ensures Filled(name, kind, size)[257..263] == MAGIC + [0]
  {
    BackIs(Front(name, kind, size), kind);
  }

  lemma {:induction false} CStringOf(s: seq<Byte>, n: nat)
    requires n < |s| && s[n] == 0 && 0 !in s[..n]
    ensures CString(s) == s[..n]
  {
    if n > 0 {
      assert s[0] == s[..n][0];
      assert s[1..][..n - 1] == s[..n][1..];
      CStringOf(s[1..], n - 1);
    }
  }

  lemma HeaderName(name: seq<Byte>, kind: Byte, size: int)
    requires |name| <= 99 && 0 !in name
    ensures var h := Header(name, kind, size); CString(h[..100]) == name && h[99] == 0
  {
    var h := Header(name, kind, size);
    forall i | 0 <= i < 100
      ensures h[i] == if i < |name| then name[i] else 0
    {
      FilledName(name, kind, size, i);
    }
    assert h[..100][..|name|] == name;
    CStringOf(h[..100], |name|);
  }

  lemma HeaderFields(name: seq<Byte>, kind: Byte, size: int)
    requires |name| <= 99
    ensures var h := Header(name, kind, size);
            && h[156] == kind && h[263] == 48 && h[264] == 48 && h[345] == 0
            && h[257..263] == MAGIC + [0] && h[124..136] == OctalField(Unsigned(size), 12)
  {
    var f := Filled(name, kind, size);
    var b := OctalField(Checksum(f), 8);
    FilledKind(name, kind, size);
    FilledMagic(name, kind, size);
    FilledSize(name, kind, size);
    PatchElsewhere(f, 148, b, 257, 263);
    PatchElsewhere(f, 148, b, 124, 136);
  }

  /** The checksum field holds the checksum of the finished header. */
  lemma HeaderChecksum(name: seq<Byte>, kind: Byte, size: int)
    ensures var h := Header(name, kind, size); ParseOctal(h[148..156], 0, 0) == Some(Checksum(h))
  {
    var f := Filled(name, kind, size);
    SumBound(f, HEADER_SIZE);
    assert Pow(8, 4) == 4096 && Pow(8, 7) >= 255 * 512 by { assert Pow(8, 3) == 512; PowAdd(8, 4, 3); }
    OctalRoundTrip(Checksum(f), 8);
    var b := OctalField(Checksum(f), 8);
    PatchThenRead(f, 148, b);
    SumIgnoresField(f, b, HEADER_SIZE);
  }

  predicate IsInt(size: int) {
    -0x8000_0000 <= size <= INT_MAX
  }

  lemma HeaderSize(name: seq<Byte>, kind: Byte, size: int)
    requires |name| <= 99
    ensures ParseOctal(Header(name, kind, size)[124..136], 0, 0) == Some(Unsigned(size))
  {
    var field := Header(name, kind, size)[124..136];
    assert field == OctalField(Unsigned(size), 12) by { HeaderFields(name, kind, size); }
    SizeFits(size);
    OctalRoundTrip(Unsigned(size), 12);
  }

  /** What the tests of the parser find in a header. */
  predicate Holds(h: seq<Byte>, name: seq<Byte>, kind: Byte, size: nat) {
    && |h| == HEADER_SIZE && h[156] == kind
    && h[263] == 48 && h[264] == 48 && h[345] == 0 && h[257..263] == MAGIC + [0] && h[99] == 0
    && ParseOctal(h[148..156], 0, 0) == Some(Checksum(h))
    && ParseOctal(h[124..136], 0, 0) == Some(size) && CString(h[..100]) == name
  }

  lemma HeaderHolds(name: seq<Byte>, kind: Byte, size: int)
    requires |name| <= 99 && 0 !in name
    ensures Holds(Header(name, kind, size), name, kind, Unsigned(size))
  {
    HeaderName(name, kind, size);
    HeaderFields(name, kind, size);
    HeaderChecksum(name, kind, size);
    HeaderSize(name, kind, size);
  }

  lemma ParseHolds(h: seq<Byte>, name: seq<Byte>, kind: Byte, size: nat)
    requires Holds(h, name, kind, size) && (kind == REGULAR || kind == DIRECTORY)
    ensures Parse(h) == if kind == REGULAR && size > INT_MAX then Failed(TooLarge)
                        else Entry(Strip(name), kind, if kind == REGULAR then size else 0)
  {
  }

  lemma UnsignedRange(size: int)
    requires IsInt(size)
    ensures Unsigned(size) > INT_MAX <==> size < 0
    ensures size >= 0 ==> Unsigned(size) == size
  {
  }

  /** Parsing inverts making for every name, both types and every int size, except that a regular file of
      negative size is refused. */
  lemma ParseInvertsMake(fileName: seq<Byte>, kind: Byte, size: int)
    requires 0 !in fileName && |Strip(fileName)| <= 99 && (kind == REGULAR || kind == DIRECTORY) && IsInt(size)
    ensures Parse(Header(Strip(fileName), kind, size)) ==
            if kind == REGULAR && size < 0 then Failed(TooLarge)
            else Entry(Strip(fileName), kind, if kind == REGULAR then size else 0)
  {
    var name := Strip(fileName);
    StripIsSafe(fileName);
    StripTwice(fileName);
    UnsignedRange(size);
    var h := Header(name, kind, size);
    assert Parse(h) == (if kind == REGULAR && Unsigned(size) > INT_MAX then Failed(TooLarge)
                        else Entry(Strip(name), kind, if kind == REGULAR then Unsigned(size) else 0)) by {
      HeaderHolds(name, kind, size);
      ParseHolds(h, name, kind, Unsigned(size));
    }
  }

  /** A name that parsing yields never starts at the root or above the directory. */
  lemma ParsedNameIsSafe(h: seq<Byte>)
    requires |h| == HEADER_SIZE && Parse(h).Entry?
    ensures var n := Parse(h).name; !Antisocial(n) && n != [] && n != [46, 46] && 0 !in n
  {
    StripIsSafe(CString(h[..100]));
  }

  // ----- as the code runs -----

  method CopyInto(header: array<Byte>, at: nat, b: seq<Byte>)
    requires at + |b| <= header.Length
    modifies header
    ensures header[..] == Patch(old(header[..]), at, b)
  {
    var i := 0;
    while i < |b|
      invariant i <= |b|
      invariant forall k :: 0 <= k < header.Length ==> header[k] == if at <= k < at + i then b[k - at] else old(header[k])
    {
      header[at + i] := b[i];
      i := i + 1;
    }
  }

  /** strlcpy into a field. */
  method PutString(header: array<Byte>, at: nat, n: nat, s: seq<Byte>)
    requires n > 0 && at + n <= header.Length
    modifies header
    ensures header[..] == Patch(old(header[..]), at, StringField(s, n))
  {
    CopyInto(header, at, StringField(s, n));
  }

  method PrintOctal(v: nat, n: nat) returns (text: seq<Byte>)
    requires n > 0 && v <= ULONG_MAX
    ensures text == OctalField(v, n)
  {
    FormattedOctal(v, n - 1);
    var digits := FormatInteger(v, false, false, OCTAL, ZeroOctal(n - 1));
    assert digits == Chars(OctalDigits(v, n - 1));
    text := StringField(digits, n);
  }

  /** snprintf of `%0<n-1>o` into a field. */
  method PutOctal(header: array<Byte>, at: nat, n: nat, v: nat)
    requires n > 0 && at + n <= header.Length && v <= ULONG_MAX
    modifies header
    ensures header[..] == Patch(old(header[..]), at, OctalField(v, n))
  {
    var text := PrintOctal(v, n);
    CopyInto(header, at, text);
  }

  /** calculate_chksum */
  method CalculateChecksum(header: array<Byte>) returns (chksum: nat)
    requires header.Length == HEADER_SIZE
    ensures chksum == Checksum(header[..])
  {
    chksum := 0;
    var i := 0;
    while i < HEADER_SIZE
      invariant i <= HEADER_SIZE && chksum == Sum(header[..], i)
    {
      chksum := chksum + if 148 <= i < 156 then 32 else header[i];
      i := i + 1;
    }
  }

  /** ustar_make_header: fails exactly when the stripped name is too long. */
  method MakeHeader(fileName: seq<Byte>, kind: Byte, size: int, header: array<Byte>) returns (ok: bool)
    requires (kind == REGULAR || kind == DIRECTORY) && header.Length == HEADER_SIZE
    modifies header
    ensures ok <==> |Strip(fileName)| <= 99
    ensures header[..] == if ok then Header(Strip(fileName), kind, size) else old(header[..])
  {
    var name := Strip(fileName);
    if |name| > 99 {
      return false;
    }
    FillHeader(name, kind, size, header);
    var chksum := CalculateChecksum(header);
    SumBound(header[..], HEADER_SIZE);
    PutOctal(header, 148, 8, chksum);
    ok := true;
  }

  method FillHeader(name: seq<Byte>, kind: Byte, size: int, header: array<Byte>)
    requires header.Length == HEADER_SIZE
    modifies header
    ensures header[..] == Filled(name, kind, size)
  {
    var i := 0;
    while i < HEADER_SIZE
      invariant i <= HEADER_SIZE && forall k :: 0 <= k < i ==> header[k] == 0
    {
      header[i] := 0;
      i := i + 1;
    }
    assert header[..] == Blank();
    PutString(header, 0, 100, name);
    PutOctal(header, 100, 8, if kind == REGULAR then 420 else 493);
    PutString(header, 108, 8, ID);
    PutString(header, 116, 8, ID);
    PutOctal(header, 124, 12, Unsigned(size));
    PutOctal(header, 136, 12, 1136102400);
    CopyInto(header, 156, [kind]);
    PutString(header, 257, 6, MAGIC);
    CopyInto(header, 263, [48, 48]);
    PutString(header, 297, 32, ROOT);
    PutString(header, 265, 32, ROOT);
  }

  /** parse_octal_field */
  method ParseOctalField(s: seq<Byte>) returns (value: Option<nat>)
    ensures value == ParseOctal(s, 0, 0)
  {
    var v: nat, ofs: nat := 0, 0;
    while ofs < |s|
      invariant ofs <= |s| && ParseOctal(s, ofs, v) == ParseOctal(s, 0, 0)
    {
      if 48 <= s[ofs] <= 55 {
        if v > ULONG_MAX / 8 {
          return None;
        }
        v := s[ofs] - 48 + v * 8;
      } else {
        return if (s[ofs] == 32 || s[ofs] == 0) && ofs > 0 then Some(v) else None;
      }
      ofs := ofs + 1;
    }
    value := None;
  }

  method IsAllZeros(header: array<Byte>) returns (yes: bool)
    ensures yes <==> forall i :: 0 <= i < header.Length ==> header[i] == 0
  {
    var i := 0;
    while i < header.Length
      invariant i <= header.Length && forall k :: 0 <= k < i ==> header[k] == 0
    {
      if header[i] != 0 {
        return false;
      }
      i := i + 1;
    }
    yes := true;
  }

  /** ustar_parse_header */
  method ParseHeader(header: array<Byte>) returns (r: Parsed)
    requires header.Length == HEADER_SIZE
    ensures r == Parse(header[..])
  {
    ghost var h := header[..];
    var empty := IsAllZeros(header);
    if empty {
      return Eof;
    }
    if header[257..263] != MAGIC + [0] {
      return Failed(NotUstar);
    }
    if header[263] != 48 || header[264] != 48 {
      return Failed(BadVersion);
    }
    assert header[148..156] == h[148..156] && header[124..136] == h[124..136];
    var chksum := ParseOctalField(header[148..156]);
    if chksum.None? {
      return Failed(CorruptChecksum);
    }
    var sum := CalculateChecksum(header);
    if chksum.value != sum {
      return Failed(ChecksumMismatch);
    }
    if header[99] != 0 || header[345] != 0 {
      return Failed(NameTooLong);
    }
    var kind := header[156];
    if kind != REGULAR && kind != DIRECTORY {
      return Failed(BadType);
    }
    var size := Some(0);
    if kind == REGULAR {
      size := ParseOctalField(header[124..136]);
      if size.None? {
        return Failed(CorruptSize);
      }
      if size.value > INT_MAX {
        return Failed(TooLarge);
      }
    }
    r := Entry(Strip(CString(header[..100])), kind, size.value);
  }

  // ----- what stripping and parsing answer -----

  /** "." stands for a name that is empty or "..". */
  function Named(s: seq<Byte>): seq<Byte> {
    if s == [] || s == [46, 46] then [46] else s
  }

  /** A suffix that is not antisocial and comes after only antisocial ones. */
  predicate FirstGood(s: seq<Byte>, k: nat) {
    k <= |s| && !Antisocial(s[k..]) && Skipped(s, k)
  }

  /** The first `k` suffixes are antisocial. */
  predicate Skipped(s: seq<Byte>, k: nat)
    requires k <= |s|
  {
    forall j :: 0 <= j < k ==> Antisocial(s[j..])
  }

  /** Every suffix that a step of the stripping skips is antisocial. */
  lemma SkipsAntisocial(s: seq<Byte>)
    requires Antisocial(s) && 47 in s
    ensures var m := |s| - |AfterSlash(s)|;
            AfterSlash(s) == s[m..] && 0 < m <= 3 && forall j :: 0 <= j < m ==> Antisocial(s[j..])
  {
    if s[0] != 47 {
      assert s[0] == 46 && |s| >= 2;
      if s[1] != 47 {
        assert s[1] == 46 && s[2] == 47;
        assert AfterSlash(s[1..]) == AfterSlash(s[1..][1..]) == s[1..][1..][1..] == s[3..];
        assert [46, 47] <= s[1..] && [47] <= s[2..];
      } else {
        assert AfterSlash(s[1..]) == s[1..][1..] == s[2..];
        assert [47] <= s[1..];
      }
    }
  }

  lemma StripSkips(s: seq<Byte>) returns (m: nat)
    requires Antisocial(s)
    ensures 0 < m <= |s| && Strip(s) == Strip(s[m..]) && Skipped(s, m)
  {
    AntisocialHasSlash(s);
    SkipsAntisocial(s);
    m := |s| - |AfterSlash(s)|;
  }

  lemma SkipsJoin(s: seq<Byte>, m: nat, rest: nat)
    requires m <= |s| && FirstGood(s[m..], rest) && Skipped(s, m)
    ensures FirstGood(s, m + rest) && s[m + rest..] == s[m..][rest..]
  {
    assert s[m + rest..] == s[m..][rest..];
    forall j | 0 <= j < m + rest
      ensures Antisocial(s[j..])
    {
      if j >= m {
        assert s[j..] == s[m..][j - m..];
      }
    }
  }

  lemma {:induction false} LongestOf(s: seq<Byte>, r: seq<Byte>) returns (k: nat)
    requires r == Strip(s)
    ensures FirstGood(s, k) && r == Named(s[k..])
    decreases |s|
  {
    if Antisocial(s) {
      var m := StripSkips(s);
      k := LongestOf(s[m..], r);
      SkipsJoin(s, m, k);
      k := m + k;
    } else {
      k := 0;
      StripDone(s);
    }
  }

  /** The stripped name is the longest suffix that is not antisocial, or "." where that is empty or "..". */
  lemma StripIsLongest(s: seq<Byte>)
    ensures exists k :: 0 <= k <= |s| && FirstGood(s, k) && Strip(s) == Named(s[k..])
  {
    var k := LongestOf(s, Strip(s));
  }

  lemma StripDone(s: seq<Byte>)
    requires !Antisocial(s)
    ensures FirstGood(s, 0) && Strip(s) == Named(s[0..])
  {
    assert s[0..] == s;
  }

  /** A name that is not antisocial, not empty and not ".." is left alone. */
  lemma GoodNameKept(s: seq<Byte>)
    ensures Strip(s) == s <==> !Antisocial(s) && s != [] && s != [46, 46]
  {
    StripIsSafe(s);
  }

  /** An entry is read exactly from a header with the magic, version "00", a checksum field that equals the sum of the
      bytes, a terminated name without prefix, a known type and for a regular file a size that fits an int. */
  lemma EntryIff(h: seq<Byte>)
    requires |h| == HEADER_SIZE
    ensures Parse(h).Entry? <==>
            && h[257..263] == [117, 115, 116, 97, 114, 0] && h[263] == 48 && h[264] == 48
            && ParseOctal(h[148..156], 0, 0) == Some(Checksum(h)) && h[99] == 0 && h[345] == 0
            && (h[156] == 53 || (h[156] == 48 && ParseOctal(h[124..136], 0, 0).Some? && ParseOctal(h[124..136], 0, 0).value <= INT_MAX))
    ensures Parse(h).Entry? ==>
              && Parse(h).kind == h[156] && Parse(h).name == Strip(CString(h[..100]))
              && Parse(h).size == if h[156] == 48 then ParseOctal(h[124..136], 0, 0).value else 0
  {
    assert h[257..263] == [117, 115, 116, 97, 114, 0] ==> h[257] == 117;
  }

  /** The end of an archive is a header of zeros and nothing else. */
  lemma EofIff(h: seq<Byte>)
    requires |h| == HEADER_SIZE
    ensures Parse(h) == Eof <==> forall i :: 0 <= i < HEADER_SIZE ==> h[i] == 0
  {
  }

  lemma ModeField(v: nat)
    requires v < 512
    ensures |OctalField(v, 8)| == 8 && ParseOctal(OctalField(v, 8), 0, 0) == Some(v)
  {
    assert Pow(8, 3) == 512 && Pow(8, 4) == 4096;
    PowAdd(8, 3, 4);
    OctalRoundTrip(v, 8);
  }

  /** The remaining fields: mode 0644 for a file and 0755 for a directory, owner and group number 0, one fixed time, and
      "root" as owner and group name. */
  lemma OtherFields(name: seq<Byte>, kind: Byte, size: int)
    requires |name| <= 99
    ensures var h := Header(name, kind, size);
            && ParseOctal(h[100..108], 0, 0) == Some(if kind == REGULAR then 420 else 493)
            && h[108..116] == [48, 48, 48, 48, 48, 48, 48, 0] && h[116..124] == [48, 48, 48, 48, 48, 48, 48, 0]
            && h[265..270] == [114, 111, 111, 116, 0] && h[297..302] == [114, 111, 111, 116, 0]
            && ParseOctal(h[136..148], 0, 0) == Some(1136102400)
  {
    var f := Filled(name, kind, size);
    var b := OctalField(Checksum(f), 8);
    var mode := if kind == REGULAR then 420 else 493;
    ModeField(mode);
    FilledMode(name, kind, size, OctalField(mode, 8));
    FilledTime(name, kind, size);
    PatchElsewhere(f, 148, b, 136, 148);
    FilledIds(name, kind, size);
    FilledRoots(name, kind, size);
    PatchElsewhere(f, 148, b, 100, 108);
    PatchElsewhere(f, 148, b, 108, 116);
    PatchElsewhere(f, 148, b, 116, 124);
    PatchElsewhere(f, 148, b, 265, 270);
    PatchElsewhere(f, 148, b, 297, 302);
  }

  lemma FilledMode(name: seq<Byte>, kind: Byte, size: int, mode: seq<Byte>)
    requires |name| <= 99 && mode == OctalField(if kind == REGULAR then 420 else 493, 8) && |mode| == 8
    ensures Filled(name, kind, size)[100..108] == mode
  {
    forall i | 100 <= i < 108
      ensures Filled(name, kind, size)[i] == mode[i - 100]
    {
    }
  }

  lemma FilledTime(name: seq<Byte>, kind: Byte, size: int)
    requires |name| <= 99
    ensures ParseOctal(Filled(name, kind, size)[136..148], 0, 0) == Some(1136102400)
  {
    SizeFits(1136102400);
    OctalRoundTrip(1136102400, 12);
    TimeAt(name, kind, size, OctalField(1136102400, 12));
  }

  lemma TimeAt(name: seq<Byte>, kind: Byte, size: int, time: seq<Byte>)
    requires |name| <= 99 && time == OctalField(1136102400, 12) && |time| == 12
    ensures Filled(name, kind, size)[136..148] == time
  {
    forall i | 136 <= i < 148
      ensures Filled(name, kind, size)[i] == time[i - 136]
    {
    }
  }

  lemma FilledIds(name: seq<Byte>, kind: Byte, size: int)
    requires |name| <= 99
    ensures var h := Filled(name, kind, size);
            h[108..116] == [48, 48, 48, 48, 48, 48, 48, 0] && h[116..124] == [48, 48, 48, 48, 48, 48, 48, 0]
  {
    IdsIn(name, kind, size);
    var f, h := Front(name, kind, size), Filled(name, kind, size);
    assert h[108..116] == f[108..116] && h[116..124] == f[116..124];
  }

  lemma IdsIn(name: seq<Byte>, kind: Byte, size: int)
    ensures var f := Front(name, kind, size);
            f[108..116] == [48, 48, 48, 48, 48, 48, 48, 0] && f[116..124] == [48, 48, 48, 48, 48, 48, 48, 0]
  {
  }

  lemma FilledRoots(name: seq<Byte>, kind: Byte, size: int)
    requires |name| <= 99
    ensures var h := Filled(name, kind, size);
            h[265..270] == [114, 111, 111, 116, 0] && h[297..302] == [114, 111, 111, 116, 0]
  {
    RootsIn(Front(name, kind, size), kind);
  }

  lemma RootsIn(h: seq<Byte>, kind: Byte)
    requires |h| == HEADER_SIZE
    ensures WithBack(h, kind)[265..270] == [114, 111, 111, 116, 0] && WithBack(h, kind)[297..302] == [114, 111, 111, 116, 0]
  {
  }

  // ----- what the checksum and the octal fields mean -----

  lemma {:induction false} SumChanges(h: seq<Byte>, i: nat, b: Byte, n: nat)
    requires |h| == HEADER_SIZE && n <= HEADER_SIZE && i < HEADER_SIZE && !(148 <= i < 156)
    ensures Sum(h[i := b], n) == Sum(h, n) + if i < n then b - h[i] else 0
  {
    if n > 0 {
      SumChanges(h, i, b, n - 1);
    }
  }

  /** Changing one byte outside the checksum field changes the checksum by the same amount, so a header with one such
      byte changed is not read as an entry. */
  lemma OneByteDetected(h: seq<Byte>, i: nat, b: Byte)
    requires |h| == HEADER_SIZE && i < HEADER_SIZE && !(148 <= i < 156)
    ensures Checksum(h[i := b]) == Checksum(h) + b - h[i]
    ensures Parse(h).Entry? && b != h[i] ==> !Parse(h[i := b]).Entry?
  {
    SumChanges(h, i, b, HEADER_SIZE);
    EntryIff(h);
    EntryIff(h[i := b]);
    assert h[i := b][148..156] == h[148..156];
  }

  /** The field of zero bytes counts as eight spaces. */
  lemma {:induction false} SumOfZeros(n: nat)
    requires n <= HEADER_SIZE
    ensures Sum(Blank(), n) == if n <= 148 then 0 else if n < 156 then 32 * (n - 148) else 256
  {
    if n > 0 {
      SumOfZeros(n - 1);
    }
  }

  lemma OctalStep(s: seq<Byte>, k: nat, v: nat)
    requires k < |s| && 48 <= s[k] <= 55 && v <= ULONG_MAX / 8
    ensures ParseOctal(s, k, v) == ParseOctal(s, k + 1, s[k] - 48 + v * 8)
  {
  }

  lemma OctalEnd(s: seq<Byte>, k: nat, v: nat)
    requires 0 < k < |s| && !(48 <= s[k] <= 55)
    ensures ParseOctal(s, k, v) == if s[k] == 32 || s[k] == 0 then Some(v) else None
  {
  }

  lemma {:induction false} ReadsFrom(s: seq<Byte>, d: seq<nat>, k: nat)
    requires Digits(d, 8) && Value(d, 8) <= ULONG_MAX && k <= |d| < |s| && d != [] && !(48 <= s[|d|] <= 55)
    requires forall i :: 0 <= i < |d| ==> s[i] == 48 + d[i]
    ensures ParseOctal(s, k, Value(d[..k], 8)) == if s[|d|] == 32 || s[|d|] == 0 then Some(Value(d, 8)) else None
    decreases |d| - k
  {
    if k < |d| {
      var v := Value(d[..k], 8);
      assert v <= ULONG_MAX / 8 by { PrefixValue(d, k); }
      OctalStep(s, k, v);
      assert s[k] - 48 + v * 8 == Value(d[..k + 1], 8) by {
        ValueSnoc(d[..k], d[k], 8);
        assert d[..k] + [d[k]] == d[..k + 1];
      }
      ReadsFrom(s, d, k + 1);
    } else {
      assert d[..k] == d;
      OctalEnd(s, k, Value(d, 8));
    }
  }

  /** A field is read as its digits up to a space or a null, whatever follows; with any other byte after the digits it
      is refused. */
  lemma ReadsOctal(d: seq<nat>, end: Byte, rest: seq<Byte>)
    requires Digits(d, 8) && Value(d, 8) <= ULONG_MAX && d != [] && !(48 <= end <= 55)
    ensures ParseOctal(Chars(d) + [end] + rest, 0, 0) == if end == 32 || end == 0 then Some(Value(d, 8)) else None
  {
    assert d[..0] == [];
    ReadsFrom(Chars(d) + [end] + rest, d, 0);
  }

  /** A field that does not start with an octal digit is refused. */
  lemma RefusesOctal(s: seq<Byte>)
    ensures s == [] || !(48 <= s[0] <= 55) ==> ParseOctal(s, 0, 0) == None
  {
  }
}
