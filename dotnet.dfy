/** The pieces of the .NET base class library and of C#'s integer semantics that the page's
    code relies on: `String.IndexOf`, `String.Substring`, `Convert.ToInt32(string, 16)`,
    32-bit `int` and `byte` arithmetic with `&` and `>>`, and `int.ToString()`. Each is
    written out so that its edge cases (the -1 of a failed search, the exceptions of an
    out-of-range substring or a malformed number, wrap-around) are part of the model. */
module DotNet {
  import opened Wrappers

  /** The exceptions the modelled code throws or runs into. */
  datatype Exception =
    | ArgumentOutOfRange        // System.ArgumentOutOfRangeException
    | IndexOutOfRange           // System.IndexOutOfRangeException
    | Argument                  // System.ArgumentException
    | Format                    // System.FormatException
    | Overflow                  // System.OverflowException
    | NullReference             // System.NullReferenceException
    | Thrown(message: string)   // new Exception(message)

  // ---------------------------------------------------------------------------
  // 32-bit integers

  const INT32_MIN: int := -0x8000_0000
  const INT32_MAX: int := 0x7FFF_FFFF
  const TWO_POW_32: int := 0x1_0000_0000

  /** C#'s `int`. */
  type int32 = x: int | -0x8000_0000 <= x < 0x8000_0000

  /** C#'s `byte`. */
  type byte = x: int | 0 <= x < 0x100

  /** Two's-complement wrap-around: the `int` with the same low 32 bits as `x`. This is what
      unchecked C# arithmetic produces, and how a 32-bit pattern reads as a signed `int`. */
  function Wrap32(x: int): (r: int32)
    ensures (r - x) % TWO_POW_32 == 0
    ensures INT32_MIN <= x <= INT32_MAX ==> r == x
  {
    var u := x % TWO_POW_32;
    if u < 0x8000_0000 then u else u - TWO_POW_32
  }

  /** Values with the same low 32 bits wrap to the same `int`. */
  lemma Wrap32Congruent(x: int, y: int)
    requires (x - y) % TWO_POW_32 == 0
    ensures Wrap32(x) == Wrap32(y)
  {
    var k := (x - y) / TWO_POW_32;
    var q, r := y / TWO_POW_32, y % TWO_POW_32;
    assert x == TWO_POW_32 * (q + k) + r;
    DivModUnique(x, TWO_POW_32, q + k, r);
  }

  /** C#'s unchecked `x++` on an `int`: one more, except that `int.MaxValue` wraps round to
      `int.MinValue`. */
  function Increment32(x: int32): (r: int32)
    ensures x < INT32_MAX ==> r == x + 1
    ensures x == INT32_MAX ==> r == INT32_MIN
    ensures (r - (x + 1)) % TWO_POW_32 == 0
  {
    Wrap32(x + 1)
  }

  /** The 32-bit pattern of an `int`, read as unsigned. */
  function Bits32(x: int32): (u: nat)
    ensures u < TWO_POW_32
    ensures Wrap32(u) == x
    ensures x >= 0 ==> u == x
  {
    x % TWO_POW_32
  }

  function Pow2(k: nat): (p: nat)
    ensures p >= 1
  {
    if k == 0 then 1 else 2 * Pow2(k - 1)
  }

  lemma Pow2Plus4(k: nat)
    ensures Pow2(k + 4) == 16 * Pow2(k)
  {
    assert Pow2(k + 4) == 2 * Pow2(k + 3) == 4 * Pow2(k + 2) == 8 * Pow2(k + 1);
  }

  lemma Pow2Bytes()
    ensures Pow2(8) == 0x100 && Pow2(16) == 0x1_0000 && Pow2(24) == 0x100_0000
  {
    Pow2Plus4(0);
    Pow2Plus4(4);
    Pow2Plus4(8);
    Pow2Plus4(12);
    Pow2Plus4(16);
    Pow2Plus4(20);
  }

  /** Bitwise AND of two non-negative numbers, one bit at a time from the least significant. */
  function BitAnd(a: nat, b: nat): (r: nat)
    ensures r <= a && r <= b
  {
    if a == 0 || b == 0 then 0
    else 2 * BitAnd(a / 2, b / 2) + (if a % 2 == 1 && b % 2 == 1 then 1 else 0)
  }

  /** C#'s `x & y` on `int`: the AND of the two 32-bit patterns, read back as an `int`. */
  function And(x: int32, y: int32): (r: int32)
    ensures Bits32(r) == BitAnd(Bits32(x), Bits32(y))
    ensures y >= 0 ==> 0 <= r <= y
  {
    var v := BitAnd(Bits32(x), Bits32(y));
    assert Bits32(Wrap32(v)) == v by {
      Wrap32Congruent(Bits32(Wrap32(v)), v);
      Bits32Unique(Bits32(Wrap32(v)), v);
    }
    Wrap32(v)
  }

  /** Two 32-bit patterns that wrap to the same `int` are the same. */
  lemma Bits32Unique(u: nat, v: nat)
    requires u < TWO_POW_32 && v < TWO_POW_32 && Wrap32(u) == Wrap32(v)
    ensures u == v
  {
    DivModUnique(u, TWO_POW_32, 0, u);
    DivModUnique(v, TWO_POW_32, 0, v);
  }

  /** C#'s `x >> n` on `int`: an arithmetic shift (floor division by a power of two), with
      the shift count taken modulo 32 as C# does. */
  function ShiftRight(x: int32, n: nat): (r: int32)
    ensures Pow2(n % 32) * r <= x < Pow2(n % 32) * (r + 1)
    ensures x >= 0 ==> 0 <= r <= x
  {
    assert Pow2(n % 32) * (x / Pow2(n % 32)) + x % Pow2(n % 32) == x;
    DivBounds(x, Pow2(n % 32));
    x / Pow2(n % 32)
  }

  /** C#'s unchecked `(byte)x`: the low 8 bits. */
  function ToByte(x: int): (r: byte)
    ensures (r - x) % 0x100 == 0
    ensures 0 <= x < 0x100 ==> r == x
  {
    x % 0x100
  }

  lemma MulFacts(p: int, q: int)
    requires p >= 1
    ensures q >= 0 ==> p * q >= q
    ensures q >= 1 ==> p * q >= p
    ensures q <= -1 ==> p * q <= -p
    ensures q <= 0 ==> p * q <= q
  {
  }
  /** Division with remainder is unique. */
  lemma DivModUnique(a: int, d: int, q: int, r: int)
    requires d > 0 && a == d * q + r && 0 <= r < d
    ensures a / d == q && a % d == r
  {
    var q', r' := a / d, a % d;
    assert d * (q - q') == r' - r;
    MulFacts(d, q - q');
  }
  lemma DivBounds(x: int, p: nat)
    requires p >= 1
    ensures x >= 0 ==> 0 <= x / p <= x
    ensures x < 0 ==> x <= x / p < 0
  {
    if x >= 0 {
      DivOfNonNegative(x, p);
    } else {
      DivOfNegative(x, p);
    }
  }
  lemma DivOfNonNegative(x: int, p: int)
    requires p >= 1 && x >= 0
    ensures 0 <= x / p <= x
  {
    var q, r := x / p, x % p;
    assert x == p * q + r && 0 <= r < p;
    MulFacts(p, q);
  }
  lemma DivOfNegative(x: int, p: int)
    requires p >= 1 && x < 0
    ensures x <= x / p < 0
  {
    var q, r := x / p, x % p;
    assert x == p * q + r && 0 <= r < p;
    MulFacts(p, q);
    MulFacts(p, q + 1);
    assert p * (q + 1) == p * q + p;
  }

  lemma ModDouble(a: nat, p: nat)
    requires p >= 1
    ensures a % (2 * p) == 2 * ((a / 2) % p) + a % 2
    ensures a / (2 * p) == (a / 2) / p
  {
    var t, s := (a / 2) / p, (a / 2) % p;
    assert a / 2 == p * t + s;
    assert a == (2 * p) * t + (2 * s + a % 2);
    DivModUnique(a, 2 * p, t, 2 * s + a % 2);
  }

  lemma BitAndOdd(a: nat, p: nat)
    requires a > 0 && p >= 1
    ensures BitAnd(a, 2 * p - 1) == 2 * BitAnd(a / 2, p - 1) + a % 2
  {
    assert (2 * p - 1) / 2 == p - 1;
  }

  lemma BitAndHalve(a: nat, c: nat)
    ensures BitAnd(a, 2 * c) == 2 * BitAnd(a / 2, c)
  {
    if a > 0 && c > 0 {
      assert (2 * c) / 2 == c && (2 * c) % 2 == 0;
    }
  }

  /** Masking with 2^k - 1 keeps the low k bits: `a & (2^k - 1) == a % 2^k`. */
  lemma {:induction false} BitAndLowMask(a: nat, k: nat)
    ensures BitAnd(a, Pow2(k) - 1) == a % Pow2(k)
  {
    if k == 0 {
      DivModUnique(a, 1, a, 0);
    } else if a == 0 {
      DivModUnique(0, Pow2(k), 0, 0);
    } else {
      var p := Pow2(k - 1);
      assert Pow2(k) == 2 * p;
      BitAndOdd(a, p);
      BitAndLowMask(a / 2, k - 1);
      ModDouble(a, p);
    }
  }

  /** Masking with 0xFF00 keeps the second byte in place:
      `a & 0xFF00 == ((a >> 8) & 0xFF) << 8`. */
  lemma BitAndSecondByte(a: nat)
    ensures BitAnd(a, 0xFF00) == BitAnd(a / 0x100, 0xFF) * 0x100
  {
    var a1, a2, a3, a4 := a / 2, a / 4, a / 8, a / 16;
    var a5, a6, a7, a8 := a / 32, a / 64, a / 128, a / 256;
    assert a1 / 2 == a2 && a2 / 2 == a3 && a3 / 2 == a4 && a4 / 2 == a5;
    assert a5 / 2 == a6 && a6 / 2 == a7 && a7 / 2 == a8;
    BitAndHalve(a, 0x7F80);
    BitAndHalve(a1, 0x3FC0);
    BitAndHalve(a2, 0x1FE0);
    BitAndHalve(a3, 0xFF0);
    BitAndHalve(a4, 0x7F8);
    BitAndHalve(a5, 0x3FC);
    BitAndHalve(a6, 0x1FE);
    BitAndHalve(a7, 0xFF);
  }

  // ---------------------------------------------------------------------------
  // Strings

  /** `value` occurs in `s` at position `k`. */
  predicate IsAt(s: string, value: string, k: int) {
    0 <= k && k + |value| <= |s| && s[k..k + |value|] == value
  }

  lemma IsAtShift(s: string, value: string, d: nat, j: nat)
    requires d <= |s|
    ensures IsAt(s[d..], value, j) <==> IsAt(s, value, j + d)
  {
    if j + |value| <= |s| - d {
      assert s[d..][j..j + |value|] == s[j + d..j + d + |value|];
    }
  }

  /** `s.IndexOf(value)` (ordinal): the position of the first occurrence of `value`, or -1
      when there is none. */
  function IndexOf(s: string, value: string): (r: int)
    ensures -1 <= r <= |s|
    ensures r >= 0 ==> IsAt(s, value, r)
    ensures forall j :: (r < 0 || j < r) ==> !IsAt(s, value, j)
    decreases |s|
  {
    if |s| < |value| then -1
    else if s[..|value|] == value then 0
    else
      var k := IndexOf(s[1..], value);
      assert !IsAt(s, value, 0);
      forall j | 1 <= j ensures IsAt(s[1..], value, j - 1) <==> IsAt(s, value, j) {
        IsAtShift(s, value, 1, j - 1);
      }
      if k < 0 then -1 else k + 1
  }

  /** `s.Substring(start)`: the text from `start` on; `ArgumentOutOfRangeException` unless
      `0 <= start <= |s|`. */
  function Substring(s: string, start: int): (r: Result<string, Exception>)
    ensures r.Ok? <==> 0 <= start <= |s|
    ensures r.Ok? ==> s == s[..start] + r.value
    ensures r.Err? ==> r.error == ArgumentOutOfRange
  {
    if 0 <= start <= |s| then Ok(s[start..]) else Err(ArgumentOutOfRange)
  }

  /** `s.Substring(start, length)`: `length` characters from `start`;
      `ArgumentOutOfRangeException` unless both are non-negative and fit in `s`. */
  function SubstringOfLength(s: string, start: int, length: int): (r: Result<string, Exception>)
    ensures r.Ok? <==> 0 <= start && 0 <= length && start + length <= |s|
    ensures r.Ok? ==> |r.value| == length && forall i :: 0 <= i < length ==> r.value[i] == s[start + i]
    ensures r.Err? ==> r.error == ArgumentOutOfRange
  {
    if 0 <= start && 0 <= length && start + length <= |s| then Ok(s[start..start + length])
    else Err(ArgumentOutOfRange)
  }

  // ---------------------------------------------------------------------------
  // Hexadecimal numbers: Convert.ToInt32(s, 16)

  predicate IsHexDigit(c: char) {
    '0' <= c <= '9' || 'A' <= c <= 'F' || 'a' <= c <= 'f'
  }

  predicate AllHexDigits(s: string) {
    forall i :: 0 <= i < |s| ==> IsHexDigit(s[i])
  }

  function HexDigitValue(c: char): (d: nat)
    requires IsHexDigit(c)
    ensures d < 16
  {
    if '0' <= c <= '9' then c as int - '0' as int
    else if 'A' <= c <= 'F' then c as int - 'A' as int + 10
    else c as int - 'a' as int + 10
  }

  /** The value of a string of hexadecimal digits, most significant first. */
  function HexValue(s: string): (v: nat)
    requires AllHexDigits(s)
    ensures v < Pow2(4 * |s|)
  {
    if s == [] then 0
    else
      var init := s[..|s| - 1];
      assert AllHexDigits(init);
      Pow2Plus4(4 * |init|);
      HexValue(init) * 16 + HexDigitValue(s[|s| - 1])
  }

  /** The length of the longest prefix of `s` made of hexadecimal digits. */
  function HexRun(s: string): (n: nat)
    ensures n <= |s| && AllHexDigits(s[..n])
    ensures n < |s| ==> !IsHexDigit(s[n])
  {
    if s == [] || !IsHexDigit(s[0]) then 0
    else
      var n := 1 + HexRun(s[1..]);
      assert s[..n] == [s[0]] + s[1..][..n - 1];
      n
  }

  /** What `Convert.ToInt32(s, 16)` reads digits from: `s` after an optional '+' sign and
      then an optional "0x" or "0X" prefix. */
  function HexBody(s: string): (body: string)
    ensures |body| <= |s|
  {
    var i := if |s| > 0 && s[0] == '+' then 1 else 0;
    if i + 1 < |s| && s[i] == '0' && (s[i + 1] == 'x' || s[i + 1] == 'X') then s[i + 2..] else s[i..]
  }

  /** `Convert.ToInt32(s, 16)`. An empty string is out of range; a '-' sign is an argument
      error for base 16; the digits are gathered after an optional '+' and "0x"; a value that
      needs more than 32 bits overflows as soon as it is gathered; no digits, or anything left
      after them, is a format error. A value of 2^31 or more reads as a negative `int` with the
      same 32 bits. */
  function ToInt32Base16(s: string): (r: Result<int32, Exception>)
    ensures |s| == 0 ==> r == Err(ArgumentOutOfRange)
    ensures r.Ok? <==> (&& |s| > 0 && s[0] != '-'
                      && |HexBody(s)| > 0 && AllHexDigits(HexBody(s))
                      && HexValue(HexBody(s)) < TWO_POW_32)
    ensures r.Ok? ==> Bits32(r.value) == HexValue(HexBody(s))
  {
    if |s| == 0 then Err(ArgumentOutOfRange)
    else if s[0] == '-' then Err(Argument)
    else
      var body := HexBody(s);
      var n := HexRun(body);
      assert AllHexDigits(body) ==> n == |body| && body[..n] == body;
      if HexValue(body[..n]) >= TWO_POW_32 then Err(Overflow)
      else if n == 0 || n < |body| then Err(Format)
      else
        assert body[..n] == body;
        Ok(Wrap32(HexValue(body)))
  }

  /** Upper-case hexadecimal digits of `u`, without leading zeros: the form in which a
      colour's `#RRGGBB` digits are written. */
  function ToHexString(u: nat): (s: string)
    ensures |s| > 0 && AllHexDigits(s)
  {
    var digit := "0123456789ABCDEF"[u % 16];
    if u < 16 then [digit] else ToHexString(u / 16) + [digit]
  }

  lemma {:induction false} HexValueOfToHexString(u: nat)
    ensures HexValue(ToHexString(u)) == u
  {
    var s := ToHexString(u);
    assert s[..|s| - 1] == if u < 16 then [] else ToHexString(u / 16);
    if u >= 16 {
      HexValueOfToHexString(u / 16);
    }
  }

  /** Parsing what `ToHexString` writes gives the number back, as the `int` with its bits. */
  lemma ToInt32Base16OfToHexString(u: nat)
    requires u < TWO_POW_32
    ensures ToInt32Base16(ToHexString(u)) == Ok(Wrap32(u))
  {
    HexValueOfToHexString(u);
    ToInt32Base16OfDigits(ToHexString(u));
  }

  /** Plain hexadecimal digits that fit in 32 bits are read with no sign, prefix or error. */
  lemma ToInt32Base16OfDigits(digits: string)
    requires |digits| > 0 && AllHexDigits(digits) && HexValue(digits) < TWO_POW_32
    ensures ToInt32Base16(digits).Ok?
    ensures Bits32(ToInt32Base16(digits).value) == HexValue(digits)
    ensures ToInt32Base16(digits) == Ok(Wrap32(HexValue(digits)))
  {
    HexBodyOfDigits(digits);
    var r := ToInt32Base16(digits);
    assert r.Ok?;
    assert Wrap32(Bits32(r.value)) == r.value;
  }

  /** Hexadecimal digits carry neither a '+' nor a "0x". */
  lemma HexBodyOfDigits(digits: string)
    requires AllHexDigits(digits)
    ensures HexBody(digits) == digits
  {
    assert |digits| > 0 ==> IsHexDigit(digits[0]);
    assert |digits| > 1 ==> IsHexDigit(digits[1]);
  }

  lemma ShiftDigitIn(x: int, p: int, y: int, d: int)
    ensures (x * p + y) * 16 + d == x * (16 * p) + (y * 16 + d)
  {
  }

  /** The digits of a concatenation: `HexValue(a + b) == HexValue(a) * 16^|b| + HexValue(b)`. */
  lemma {:induction false} HexValueAppend(a: string, b: string)
    requires AllHexDigits(a) && AllHexDigits(b)
    ensures AllHexDigits(a + b)
    ensures HexValue(a + b) == HexValue(a) * Pow2(4 * |b|) + HexValue(b)
  {
    assert AllHexDigits(a + b);
    if b == [] {
      assert a + b == a;
    } else {
      var b' := b[..|b| - 1];
      var c := b[|b| - 1];
      assert AllHexDigits(b');
      assert (a + b)[..|a + b| - 1] == a + b';
      HexValueAppend(a, b');
      Pow2Plus4(4 * |b'|);
      assert HexValue(a + b) == HexValue(a + b') * 16 + HexDigitValue(c);
      assert HexValue(b) == HexValue(b') * 16 + HexDigitValue(c);
      ShiftDigitIn(HexValue(a), Pow2(4 * |b'|), HexValue(b'), HexDigitValue(c));
    }
  }

  // ---------------------------------------------------------------------------
  // Decimal text: int.ToString()

  /** The decimal digits of `n`, without leading zeros. */
  function NatToString(n: nat): (s: string)
    ensures |s| > 0 && forall i :: 0 <= i < |s| ==> '0' <= s[i] <= '9'
    ensures |s| > 1 ==> s[0] != '0'
  {
    var digit := "0123456789"[n % 10];
    if n < 10 then [digit] else NatToString(n / 10) + [digit]
  }

  /** `x.ToString()` for an `int`, with the invariant culture's '-' as the negative sign. */
  function Int32ToString(x: int32): (s: string)
    ensures |s| > 0
    ensures s[0] == '-' <==> x < 0
  {
    if x < 0 then "-" + NatToString(-(x as int)) else NatToString(x)
  }

  /** The value of a string of decimal digits, most significant first. */
  function DecimalValue(s: string): nat
    requires forall i :: 0 <= i < |s| ==> '0' <= s[i] <= '9'
  {
    if s == [] then 0 else DecimalValue(s[..|s| - 1]) * 10 + (s[|s| - 1] as int - '0' as int)
  }

  /** Reading back the digits `NatToString` writes gives the number. */
  lemma {:induction false} DecimalValueOfNatToString(n: nat)
    ensures DecimalValue(NatToString(n)) == n
  {
    var s := NatToString(n);
    assert s[..|s| - 1] == if n < 10 then [] else NatToString(n / 10);
    if n >= 10 {
      DecimalValueOfNatToString(n / 10);
    }
  }

  /** An optional '-' followed by decimal digits. */
  predicate IsSignedDecimal(s: string) {
    forall i :: (if |s| > 0 && s[0] == '-' then 1 else 0) <= i < |s| ==> '0' <= s[i] <= '9'
  }

  /** The value of `x.ToString()`'s text. */
  function SignedDecimalValue(s: string): int
    requires IsSignedDecimal(s)
  {
    if |s| > 0 && s[0] == '-' then 0 - (DecimalValue(s[1..]) as int) else DecimalValue(s)
  }

  /** `Int32ToString` writes a sign and digits that read back as the number. */
  lemma Int32ToStringReadsBack(x: int32)
    ensures IsSignedDecimal(Int32ToString(x))
    ensures SignedDecimalValue(Int32ToString(x)) == x
  {
    if x < 0 {
      NegativeReadsBack(-(x as int));
    } else {
      DecimalValueOfNatToString(x);
    }
  }

  lemma NegativeReadsBack(n: nat)
    requires n > 0
    ensures IsSignedDecimal("-" + NatToString(n))
    ensures SignedDecimalValue("-" + NatToString(n)) == -(n as int)
  {
    var digits := NatToString(n);
    var s := "-" + digits;
    assert s[0] == '-' && s[1..] == digits;
    DecimalValueOfNatToString(n);
  }
}
