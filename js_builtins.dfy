/**
 * The JavaScript built-ins the library leans on, stated over exact reals:
 * truncating `%`, Math.round, Number.prototype.toFixed, Number.prototype.toString(16),
 * parseInt(_, 16) and the 32-bit `>>`/`&` operators. The transcendental functions of
 * Math are not given a definition: they arrive as the fields of a `Transcendental` value.
 */
module JsBuiltins {
  import opened Results

  /** Math.sqrt, Math.atan2, Math.cos, Math.sin and Math.pow, left uninterpreted. */
  datatype Transcendental = Transcendental(
    sqrt: real -> real,
    atan2: (real, real) -> real,
    cos: real -> real,
    sin: real -> real,
    pow: (real, real) -> real)

  function Abs(x: real): (r: real)
    ensures r >= 0.0 && (r == x || r == -x)
  {
    if x < 0.0 then -x else x
  }

  function Max(a: real, b: real): (r: real)
    ensures r >= a && r >= b && (r == a || r == b)
  {
    if a >= b then a else b
  }

  function Min(a: real, b: real): (r: real)
    ensures r <= a && r <= b && (r == a || r == b)
  {
    if a <= b then a else b
  }

  /** Math.ceil */
  function Ceil(x: real): (r: int)
    ensures x <= r as real < x + 1.0
  {
    -((-x).Floor)
  }

  /** Integer part of q, rounding toward zero (what `%` uses). */
  function Trunc(q: real): (r: int)
    ensures q >= 0.0 ==> r == q.Floor
    ensures q < 0.0 ==> r == Ceil(q)
  {
    if q >= 0.0 then q.Floor else Ceil(q)
  }

  /** k times d: k laps of a circle of perimeter d, or k whole divisors. */
  function Times(k: int, d: real): real { k as real * d }

  /** The `%` operator of JavaScript: the remainder of a truncating division, signed like the dividend. */
  function JsRem(dividend: real, divisor: real): (r: real)
    requires divisor != 0.0
    ensures dividend - r == Times(Trunc(dividend / divisor), divisor)
  {
    dividend - Times(Trunc(dividend / divisor), divisor)
  }

  /** For a positive divisor the remainder has the dividend's sign and is smaller than the divisor. */
  lemma JsRemBounds(dividend: real, divisor: real)
    requires divisor != 0.0
    ensures divisor > 0.0 && dividend >= 0.0 ==> 0.0 <= JsRem(dividend, divisor) < divisor
    ensures divisor > 0.0 && dividend < 0.0 ==> -divisor < JsRem(dividend, divisor) <= 0.0
  {
    if divisor < 0.0 { return; }
    var q := dividend / divisor;
    var t := Trunc(q) as real;
    var r := JsRem(dividend, divisor);
    assert r == (q - t) * divisor;
    if dividend >= 0.0 {
      QuotientSign(dividend, divisor);
      ScaleBelowOne(r, q - t, divisor);
    } else {
      QuotientSign(dividend, divisor);
      ScaleBelowOne(-r, t - q, divisor);
    }
  }

  lemma QuotientSign(dividend: real, divisor: real)
    requires divisor > 0.0
    ensures dividend >= 0.0 <==> dividend / divisor >= 0.0
  {
  }

  lemma ScaleBelowOne(r: real, a: real, b: real)
    requires r == a * b && 0.0 <= a < 1.0 && b > 0.0
    ensures 0.0 <= r < b
  {
  }

  /** Math.round: the nearest integer, ties toward +infinity. */
  function Round(x: real): (r: int)
    ensures x - 0.5 <= r as real && r as real - 0.5 <= x
    ensures r as real - 0.5 < x || r as real - 0.5 == x
    ensures x - 0.5 < r as real
  {
    (x + 0.5).Floor
  }

  lemma RoundOfInteger(n: int)
    ensures Round(n as real) == n
  {
  }

  function Pow10(n: nat): (r: nat)
    ensures r >= 1
  {
    if n == 0 then 1 else 10 * Pow10(n - 1)
  }

  function Pow2(n: nat): (r: nat)
    ensures r >= 1
  {
    if n == 0 then 1 else 2 * Pow2(n - 1)
  }

  // ---------------------------------------------------------------- decimal numerals

  predicate IsDecimalDigit(c: char) { '0' <= c <= '9' }

  function DigitChar(d: nat): (c: char)
    requires d < 10
    ensures IsDecimalDigit(c) && (c == '0' <==> d == 0)
  {
    "0123456789"[d]
  }

  /** Number.prototype.toString() of a non-negative integer: its decimal digits, no leading zero. */
  function Decimal(n: nat): (s: string)
    ensures |s| >= 1
    ensures forall i :: 0 <= i < |s| ==> IsDecimalDigit(s[i])
    ensures (forall i :: 0 <= i < |s| ==> s[i] == '0') <==> n == 0
    decreases n
  {
    if n < 10 then
      var s := [DigitChar(n)];
      assert s[0] == DigitChar(n);
      s
    else
      var head := Decimal(n / 10);
      var s := head + [DigitChar(n % 10)];
      assert n / 10 > 0;
      var i :| 0 <= i < |head| && head[i] != '0';
      assert s[i] == head[i];
      s
  }

  function Zeros(k: nat): (s: string)
    ensures |s| == k && forall i :: 0 <= i < k ==> s[i] == '0'
  {
    if k == 0 then "" else "0" + Zeros(k - 1)
  }

  /** The integer toFixed(f) prints for x: |x|·10^f rounded to nearest, ties up. */
  function FixedMagnitude(x: real, f: nat): (n: nat)
    ensures Abs(x) * Pow10(f) as real - 0.5 < n as real <= Abs(x) * Pow10(f) as real + 0.5
  {
    assert Abs(x) * Pow10(f) as real >= 0.0;
    Round(Abs(x) * Pow10(f) as real)
  }

  /** The number denoted by the string toFixed(f) prints for x. */
  function FixedValue(x: real, f: nat): real
  {
    var q := FixedMagnitude(x, f) as real / Pow10(f) as real;
    if x < 0.0 then -q else q
  }

  /** The printed number is x to within half a unit in the last place. */
  lemma FixedValueClose(x: real, f: nat)
    ensures Abs(FixedValue(x, f) - x) <= 0.5 / Pow10(f) as real
  {
    var p := Pow10(f) as real;
    var n := FixedMagnitude(x, f) as real;
    var q := n / p;
    WithinHalfUnit(Abs(x), n, p, q);
  }

  lemma WithinHalfUnit(a: real, n: real, p: real, q: real)
    requires p >= 1.0 && a * p - 0.5 < n <= a * p + 0.5 && q == n / p
    ensures -(0.5 / p) < q - a <= 0.5 / p
  {
    assert q - a == (n - a * p) / p;
  }

  /** A whole number is printed exactly. */
  lemma FixedValueOfInteger(k: nat, f: nat)
    ensures FixedValue(k as real, f) == k as real
  {
    var p := Pow10(f);
    assert k as real * p as real == (k * p) as real;
    RoundOfInteger(k * p);
    assert FixedMagnitude(k as real, f) == k * p;
  }

  predicate IsFixedChar(c: char) { IsDecimalDigit(c) || c == '.' || c == '-' }

  /**
   * Number.prototype.toFixed(f): an optional '-', the digits of FixedMagnitude(x, f)
   * left-padded with zeros to at least f + 1 digits, and a '.' before the last f of them
   * when f > 0. (The exponential form toFixed uses from 1e21 upward is not modelled.)
   */
  function ToFixed(x: real, f: nat): (s: string)
    ensures |s| >= 1
    ensures forall i :: 0 <= i < |s| ==> IsFixedChar(s[i])
  {
    var body := FixedDigits(FixedMagnitude(x, f), f);
    if x < 0.0 then "-" + body else body
  }

  /** The digits of n, zero-padded to at least f + 1 of them, with a '.' before the last f when f > 0. */
  function FixedDigits(n: nat, f: nat): (s: string)
    ensures |s| >= 1
    ensures forall i :: 0 <= i < |s| ==> IsFixedChar(s[i])
  {
    var padded := PaddedDecimal(n, f);
    if f == 0 then padded else padded[..|padded| - f] + "." + padded[|padded| - f..]
  }

  /** The decimal digits of n, left-padded with zeros to at least f + 1 of them. */
  function PaddedDecimal(n: nat, f: nat): (s: string)
    ensures |s| >= f + 1
    ensures forall i :: 0 <= i < |s| ==> IsDecimalDigit(s[i])
    ensures IsZeroNumeral(s) <==> n == 0
  {
    var digits := Decimal(n);
    if |digits| <= f then
      var zeros := Zeros(f + 1 - |digits|);
      ZeroPaddedNumeral(zeros, digits);
      zeros + digits
    else
      ZeroPaddedNumeral("", digits);
      assert "" + digits == digits;
      digits
  }

  /** How `parseFloat(s) === 0` reads a numeral printed by toFixed: every digit is zero. */
  predicate IsZeroNumeral(s: string)
  {
    forall i :: 0 <= i < |s| ==> s[i] == '0' || s[i] == '.' || s[i] == '-'
  }

  /** parseFloat of toFixed's output is zero exactly when the printed magnitude is zero. */
  lemma FixedZeroNumeral(x: real, f: nat)
    ensures IsZeroNumeral(ToFixed(x, f)) <==> FixedMagnitude(x, f) == 0
  {
    var body := FixedDigits(FixedMagnitude(x, f), f);
    FixedDigitsZero(FixedMagnitude(x, f), f);
    if x < 0.0 {
      ZeroNumeralWithSign(body);
    }
  }

  lemma FixedDigitsZero(n: nat, f: nat)
    ensures IsZeroNumeral(FixedDigits(n, f)) <==> n == 0
  {
    if f != 0 {
      var padded := PaddedDecimal(n, f);
      ZeroNumeralWithPoint(padded, |padded| - f);
    }
  }

  /** A run of zeros followed by digits reads as zero exactly when the digits do. */
  lemma ZeroPaddedNumeral(zeros: string, digits: string)
    requires forall i :: 0 <= i < |zeros| ==> zeros[i] == '0'
    requires forall i :: 0 <= i < |digits| ==> IsDecimalDigit(digits[i])
    ensures IsZeroNumeral(zeros + digits) <==> forall i :: 0 <= i < |digits| ==> digits[i] == '0'
  {
    var s := zeros + digits;
    assert forall i :: 0 <= i < |digits| ==> s[|zeros| + i] == digits[i];
  }

  lemma ZeroNumeralWithPoint(padded: string, k: nat)
    requires k <= |padded|
    ensures IsZeroNumeral(padded[..k] + "." + padded[k..]) <==> IsZeroNumeral(padded)
  {
    var body := padded[..k] + "." + padded[k..];
    assert forall i :: 0 <= i < k ==> body[i] == padded[i];
    assert forall i :: k <= i < |padded| ==> body[i + 1] == padded[i];
  }

  lemma ZeroNumeralWithSign(body: string)
    ensures IsZeroNumeral("-" + body) <==> IsZeroNumeral(body)
  {
    var s := "-" + body;
    assert forall i :: 0 <= i < |body| ==> s[i + 1] == body[i];
  }

  // ---------------------------------------------------------------- hexadecimal numerals

  predicate IsHexDigit(c: char)
  {
    '0' <= c <= '9' || 'a' <= c <= 'f' || 'A' <= c <= 'F'
  }

  function HexDigitValue(c: char): (v: nat)
    requires IsHexDigit(c)
    ensures v < 16
  {
    if '0' <= c <= '9' then c as int - '0' as int
    else if 'a' <= c <= 'f' then c as int - 'a' as int + 10
    else c as int - 'A' as int + 10
  }

  function LowerHexDigit(d: nat): (c: char)
    requires d < 16
    ensures IsHexDigit(c) && HexDigitValue(c) == d && !('A' <= c <= 'F')
  {
    if d < 10 then ('0' as int + d) as char else ('a' as int + d - 10) as char
  }

  /** Number.prototype.toString(16) of a non-negative integer, lower-case, no leading zero. */
  function ToHexString(n: nat): (s: string)
    ensures |s| >= 1
    ensures forall i :: 0 <= i < |s| ==> IsHexDigit(s[i]) && !('A' <= s[i] <= 'F')
    ensures n < 16 <==> |s| == 1
    ensures 16 <= n < 256 ==> |s| == 2
    decreases n
  {
    if n < 16 then [LowerHexDigit(n)] else ToHexString(n / 16) + [LowerHexDigit(n % 16)]
  }

  predicate AllHexDigits(s: string)
  {
    forall i :: 0 <= i < |s| ==> IsHexDigit(s[i])
  }

  /** The value of a string of hex digits, most significant first. */
  function HexNumeralValue(s: string): (v: nat)
    requires AllHexDigits(s)
    ensures v < Pow16(|s|)
  {
    if s == [] then 0 else 16 * HexNumeralValue(s[..|s| - 1]) + HexDigitValue(s[|s| - 1])
  }

  function Pow16(n: nat): (r: nat)
    ensures r >= 1
  {
    if n == 0 then 1 else 16 * Pow16(n - 1)
  }

  /** StrWhiteSpaceChar of ECMAScript: white space and line terminators. */
  predicate IsJsWhiteSpace(c: char)
  {
    var k := c as int;
    k == 0x9 || k == 0xA || k == 0xB || k == 0xC || k == 0xD || k == 0x20 || k == 0xA0
    || k == 0x1680 || (0x2000 <= k <= 0x200A) || k == 0x2028 || k == 0x2029
    || k == 0x202F || k == 0x205F || k == 0x3000 || k == 0xFEFF
  }

  function TrimStart(s: string): (r: string)
    ensures |r| <= |s| && r == s[|s| - |r|..]
    ensures r != [] ==> !IsJsWhiteSpace(r[0])
  {
    if s != [] && IsJsWhiteSpace(s[0]) then TrimStart(s[1..]) else s
  }

  /** The longest prefix of s made of hex digits. */
  function HexPrefix(s: string): (r: string)
    ensures |r| <= |s| && r == s[..|r|]
    ensures forall i :: 0 <= i < |r| ==> IsHexDigit(r[i])
    ensures |r| < |s| ==> !IsHexDigit(s[|r|])
  {
    if s != [] && IsHexDigit(s[0]) then [s[0]] + HexPrefix(s[1..]) else []
  }

  /** An optional leading sign removed. */
  function StripSign(t: string): string
  {
    if t != [] && (t[0] == '-' || t[0] == '+') then t[1..] else t
  }

  /** An optional leading "0x" or "0X" removed. */
  function StripRadixPrefix(u: string): string
  {
    if |u| >= 2 && u[0] == '0' && (u[1] == 'x' || u[1] == 'X') then u[2..] else u
  }

  /**
   * parseInt(s, 16): skip leading white space, take an optional sign and an optional
   * "0x"/"0X", then the longest run of hex digits; NaN when that run is empty.
   */
  function ParseInt16(s: string): (r: Num)
    ensures r.Finite? ==> r.r == r.r.Floor as real
  {
    var t := TrimStart(s);
    var negative := t != [] && t[0] == '-';
    var z := HexPrefix(StripRadixPrefix(StripSign(t)));
    if z == [] then NaN
    else
      var magnitude: int := HexNumeralValue(z);
      var v := if negative then -magnitude else magnitude;
      Finite(v as real)
  }

  /**
   * `(n >> shift) & (2^width - 1)` on a JavaScript number that holds an integer (NaN reads
   * as 0): both operators first take the value modulo 2^32, so the result is the bit field
   * [shift, shift + width) of that 32-bit pattern.
   */
  function BitField(n: Num, shift: nat, width: nat): (r: nat)
    requires n.Finite? ==> n.r == n.r.Floor as real
    requires shift + width <= 32
    ensures r < Pow2(width)
  {
    var k: int := if n.NaN? then 0 else n.r.Floor;
    ((k % Pow2(32)) / Pow2(shift)) % Pow2(width)
  }

  // ---------------------------------------------------------------- facts about hex numerals


  lemma HexDigitsConcat(a: string, b: string)
    requires AllHexDigits(a) && AllHexDigits(b)
    ensures AllHexDigits(a + b)
  {
    var ab := a + b;
    forall i | 0 <= i < |ab| ensures IsHexDigit(ab[i]) {
      if i < |a| { assert ab[i] == a[i]; } else { assert ab[i] == b[i - |a|]; }
    }
  }

  lemma HexDigitsSlice(s: string, i: nat, j: nat)
    requires AllHexDigits(s) && i <= j <= |s|
    ensures AllHexDigits(s[i..j])
  {
    forall k | 0 <= k < j - i ensures IsHexDigit(s[i..j][k]) { assert s[i..j][k] == s[i + k]; }
  }

  /** The value of a concatenation: the first part shifted left by the digits of the second. */
  lemma {:induction false} HexValueConcat(a: string, b: string)
    requires AllHexDigits(a) && AllHexDigits(b)
    ensures AllHexDigits(a + b)
    ensures HexNumeralValue(a + b) == HexNumeralValue(a) * Pow16(|b|) + HexNumeralValue(b)
    decreases |b|
  {
    HexDigitsConcat(a, b);
    if b == [] {
      assert a + b == a;
    } else {
      var b' := b[..|b| - 1];
      assert AllHexDigits(b');
      HexValueConcat(a, b');
      HexValueAppend(a, b, b');
    }
  }

  /** One more digit on the right: the step of HexValueConcat. */
  lemma HexValueAppend(a: string, b: string, b': string)
    requires AllHexDigits(a) && AllHexDigits(b) && b != [] && b' == b[..|b| - 1] && AllHexDigits(b')
    requires AllHexDigits(a + b) && AllHexDigits(a + b')
    requires HexNumeralValue(a + b') == HexNumeralValue(a) * Pow16(|b'|) + HexNumeralValue(b')
    ensures HexNumeralValue(a + b) == HexNumeralValue(a) * Pow16(|b|) + HexNumeralValue(b)
  {
    var d := HexDigitValue(b[|b| - 1]);
    AppendedDigit(a, b, b');
    assert HexNumeralValue(b) == 16 * HexNumeralValue(b') + d;
    assert Pow16(|b|) == 16 * Pow16(|b'|);
    ShiftStep(HexNumeralValue(a + b), HexNumeralValue(a + b'), HexNumeralValue(a), Pow16(|b'|), Pow16(|b|),
              HexNumeralValue(b'), d, HexNumeralValue(b));
  }

  lemma AppendedDigit(a: string, b: string, b': string)
    requires AllHexDigits(b) && b != [] && b' == b[..|b| - 1]
    requires AllHexDigits(a + b) && AllHexDigits(a + b')
    ensures HexNumeralValue(a + b) == 16 * HexNumeralValue(a + b') + HexDigitValue(b[|b| - 1])
  {
    var ab := a + b;
    var init := ab[..|ab| - 1];
    assert init == a + b';
    assert ab[|ab| - 1] == b[|b| - 1];
    HexValueLast(ab, init);
  }

  /** The value of a non-empty numeral: sixteen times the value of all but its last digit, plus that digit. */
  lemma HexValueLast(s: string, init: string)
    requires AllHexDigits(s) && s != [] && init == s[..|s| - 1] && AllHexDigits(init)
    ensures HexNumeralValue(s) == 16 * HexNumeralValue(init) + HexDigitValue(s[|s| - 1])
  {
  }

  lemma ShiftStep(x: int, y: int, a: int, p: int, q: int, b: int, d: int, z: int)
    requires x == 16 * y + d && y == a * p + b && z == 16 * b + d && q == 16 * p
    ensures x == a * q + z
  {
  }
  /** toString(16) and the hex value are inverse. */
  lemma {:induction false} ToHexStringValue(n: nat)
    ensures AllHexDigits(ToHexString(n)) && HexNumeralValue(ToHexString(n)) == n
    decreases n
  {
    var s := ToHexString(n);
    if n >= 16 {
      ToHexStringValue(n / 16);
      assert s[..|s| - 1] == ToHexString(n / 16);
    }
  }

  /** Every Euclidean division has a unique quotient and remainder. */
  lemma DivModUnique(q: int, r: int, d: int)
    requires d > 0 && 0 <= r < d
    ensures (q * d + r) / d == q && (q * d + r) % d == r
  {
    var x := q * d + r;
    var q', r' := x / d, x % d;
    assert (q' - q) * d == r - r';
    var k := q' - q;
    if k != 0 {
      MultipleAtLeastDivisor(if k > 0 then k else -k, d);
    }
  }

  lemma MultipleAtLeastDivisor(k: int, d: int)
    requires k >= 1 && d > 0
    ensures k * d >= d
  {
    assert k * d == d + (k - 1) * d;
  }

  lemma {:induction false} Pow2Pow16(k: nat)
    ensures Pow2(4 * k) == Pow16(k)
  {
    if k > 0 {
      Pow2Pow16(k - 1);
      var j := 4 * (k - 1);
      assert Pow2(j + 4) == 2 * Pow2(j + 3) == 4 * Pow2(j + 2) == 8 * Pow2(j + 1) == 16 * Pow2(j);
    }
  }

  lemma {:induction false} Pow16Monotone(i: nat, j: nat)
    requires i <= j
    ensures Pow16(i) <= Pow16(j)
    decreases j
  {
    if i < j { Pow16Monotone(i, j - 1); }
  }

  /**
   * parseInt(s, 16) of a non-empty string of hex digits is its value: there is no white
   * space, sign or "0x" prefix to skip and every character is taken.
   */
  lemma ParseInt16OfDigits(s: string)
    requires |s| >= 1 && AllHexDigits(s)
    ensures ParseInt16(s) == Finite(HexNumeralValue(s) as real)
  {
    assert IsHexDigit(s[0]) && !IsJsWhiteSpace(s[0]);
    var t := TrimStart(s);
    assert t == s;
    assert t[0] != '-' && t[0] != '+';
    var u := StripSign(t);
    assert u == s;
    assert |s| >= 2 ==> IsHexDigit(s[1]);
    var w := StripRadixPrefix(u);
    assert w == s;
    HexPrefixOfDigits(s);
  }

  lemma HexPrefixOfDigits(s: string)
    requires AllHexDigits(s)
    ensures HexPrefix(s) == s
  {
    var r := HexPrefix(s);
    assert r == s[..|s|];
  }

  /**
   * `(n >> 4j) & (16^w - 1)` on the value n of at most eight hex digits a + b + c picks out
   * the w digits b that end j = |c| places from the end.
   */
  lemma {:induction false} BitFieldOfParts(a: string, b: string, c: string)
    requires AllHexDigits(a) && AllHexDigits(b) && AllHexDigits(c)
    requires |a| + |b| + |c| <= 8
    ensures AllHexDigits(a + b + c)
    ensures BitField(Finite(HexNumeralValue(a + b + c) as real), 4 * |c|, 4 * |b|) == HexNumeralValue(b)
  {
    HexValueConcat(a, b);
    HexValueConcat(a + b, c);
    var abc := a + b + c;
    NumeralField(HexNumeralValue(abc), HexNumeralValue(a), HexNumeralValue(b), HexNumeralValue(c), |abc|, |b|, |c|);
  }

  /** The bit field of a value below 16^len, len <= 8, built from groups of lb and lc hex digits. */
  lemma NumeralField(n: nat, A: nat, B: nat, C: nat, len: nat, lb: nat, lc: nat)
    requires n == (A * Pow16(lb) + B) * Pow16(lc) + C && n < Pow16(len) && len <= 8
    requires B < Pow16(lb) && C < Pow16(lc) && lb + lc <= 8
    ensures BitField(Finite(n as real), 4 * lc, 4 * lb) == B
  {
    assert n < Pow2(32) by { Pow16Monotone(len, 8); Pow2Of32(); }
    assert Pow16(lb) == Pow2(4 * lb) by { Pow2Pow16(lb); }
    assert Pow16(lc) == Pow2(4 * lc) by { Pow2Pow16(lc); }
    assert (n / Pow16(lc)) % Pow16(lb) == B by { MiddleDigits(n, A, B, C, Pow16(lb), Pow16(lc)); }
    FieldOfQuotient(n, B, Pow16(lb), Pow16(lc), 4 * lc, 4 * lb);
  }

  /** 2^32 = 16^8, the bound of the 32-bit integers the shift operators work on. */
  lemma Pow2Of32()
    ensures Pow16(8) == 0x1_0000_0000 && Pow2(32) == 0x1_0000_0000
  {
    assert Pow16(2) == 0x100;
    assert Pow16(4) == 0x1_0000;
    assert Pow16(6) == 0x100_0000;
    Pow2Pow16(8);
  }

  /** The middle group B of n = (A * pb + B) * pc + C is the quotient by pc reduced modulo pb. */
  lemma MiddleDigits(n: int, A: int, B: int, C: int, pb: int, pc: int)
    requires n == (A * pb + B) * pc + C && 0 <= B < pb && 0 <= C < pc
    ensures (n / pc) % pb == B
  {
    DivModUnique(A * pb + B, C, pc);
    DivModUnique(A, B, pb);
  }

  /** For n below 2^32 the bit field at `shift` of width `width` is the quotient by 2^shift modulo 2^width. */
  lemma FieldOfQuotient(n: nat, B: nat, pb: nat, pc: nat, shift: nat, width: nat)
    requires n < Pow2(32) && pb == Pow2(width) && pc == Pow2(shift) && shift + width <= 32
    requires (n / pc) % pb == B
    ensures BitField(Finite(n as real), shift, width) == B
  {
    assert (n as real).Floor == n;
    DivModUnique(0, n, Pow2(32));
  }

  /** The leading group of a numeral of at most eight digits is its top bit field. */
  lemma LeadingField(a: string, rest: string)
    requires AllHexDigits(a) && AllHexDigits(rest)
    requires |a| + |rest| <= 8
    ensures AllHexDigits(a + rest)
    ensures BitField(Finite(HexNumeralValue(a + rest) as real), 4 * |rest|, 4 * |a|) == HexNumeralValue(a)
  {
    var e: string := [];
    BitFieldOfParts(e, a, rest);
    assert e + a == a;
  }

  /** The trailing group of a numeral of at most eight digits is its bottom bit field. */
  lemma TrailingField(rest: string, c: string)
    requires AllHexDigits(rest) && AllHexDigits(c)
    requires |rest| + |c| <= 8
    ensures AllHexDigits(rest + c)
    ensures BitField(Finite(HexNumeralValue(rest + c) as real), 0, 4 * |c|) == HexNumeralValue(c)
  {
    var e: string := [];
    BitFieldOfParts(rest, c, e);
    assert rest + c + e == rest + c;
  }
}
