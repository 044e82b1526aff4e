/** cooper/util/LogStream.cpp, convert and convertHex: integers to text, digit by digit. */
module Numerals {
  import opened Powers

  const DIGITS := "9876543210123456789"
  const DIGITS_HEX := "0123456789ABCDEF"

  datatype Base = Ten | Sixteen {
    function Radix(): nat {
      match this case Ten => 10 case Sixteen => 16
    }

    function High(n: nat): nat {
      match this case Ten => n / 10 case Sixteen => n / 16
    }

    function Low(n: nat): nat {
      match this case Ten => n % 10 case Sixteen => n % 16
    }

    /** `v` with one more digit. */
    function Shift(v: int, digit: int): int {
      match this case Ten => v * 10 + digit case Sixteen => v * 16 + digit
    }
  }

  function DigitChar(d: nat): char
    requires d < 16
  {
    if d < 10 then ('0' as int + d) as char else ('A' as int + d - 10) as char
  }

  /** The text of `n`, most significant digit first. */
  function Numeral(base: Base, n: nat): (s: string)
    ensures |s| > 0
    decreases n
  {
    if n < base.Radix() then [DigitChar(n)] else Numeral(base, base.High(n)) + [DigitChar(base.Low(n))]
  }

  function Decimal(v: int): string {
    if v < 0 then ['-'] + Numeral(Ten, Abs(v)) else Numeral(Ten, Abs(v))
  }

  function DigitValue(c: char): int {
    if '0' <= c <= '9' then c as int - '0' as int
    else if 'A' <= c <= 'F' then c as int - 'A' as int + 10
    else -1
  }

  /** Digits only, and no superfluous zero in front. */
  predicate IsNumeral(base: Base, s: string) {
    && s != []
    && (forall i :: 0 <= i < |s| ==> 0 <= DigitValue(s[i]) < base.Radix())
    && (|s| > 1 ==> s[0] != '0')
  }

  function Value(base: Base, s: string): int {
    if s == [] then 0 else base.Shift(Value(base, s[..|s| - 1]), DigitValue(s[|s| - 1]))
  }

  function ParseDecimal(s: string): int {
    if s != [] && s[0] == '-' then -Value(Ten, s[1..]) else Value(Ten, s)
  }

  lemma DigitRoundTrip(d: nat)
    requires d < 16
    ensures DigitValue(DigitChar(d)) == d
    ensures DigitChar(d) == '0' <==> d == 0
  {}

  lemma DigitOfValue(c: char)
    requires 0 <= DigitValue(c)
    ensures DigitValue(c) < 16 && DigitChar(DigitValue(c)) == c
  {}

  /** One turn of the digit loop. */
  lemma NumeralStep(base: Base, n: nat)
    ensures Numeral(base, n)
            == (if base.High(n) == 0 then "" else Numeral(base, base.High(n))) + [DigitChar(base.Low(n))]
    ensures base.High(n) == 0 || base.High(n) < n
  {}

  lemma NumeralShift(base: Base, v: nat, d: nat)
    requires v > 0 && d < base.Radix()
    ensures base.Shift(v, d) > 0
    ensures Numeral(base, base.Shift(v, d)) == Numeral(base, v) + [DigitChar(d)]
  {
    assert base.High(base.Shift(v, d)) == v && base.Low(base.Shift(v, d)) == d;
  }

  lemma ValueAppend(base: Base, s: string, c: char)
    ensures Value(base, s + [c]) == base.Shift(Value(base, s), DigitValue(c))
  {
    assert (s + [c])[..|s|] == s;
  }

  lemma IsNumeralAppend(base: Base, s: string, c: char)
    requires 0 <= DigitValue(c) < base.Radix()
    ensures s == [] || (IsNumeral(base, s) && s[0] != '0') ==> IsNumeral(base, s + [c])
    ensures s != [] && IsNumeral(base, s + [c]) ==> IsNumeral(base, s) && s[0] != '0'
  {
    assert forall i :: 0 <= i < |s| ==> (s + [c])[i] == s[i];
  }

  /** A numeral reads back as its value. */
  lemma {:induction false} NumeralRoundTrip(base: Base, n: nat)
    ensures Value(base, Numeral(base, n)) == n
    ensures IsNumeral(base, Numeral(base, n))
    ensures n > 0 ==> Numeral(base, n)[0] != '0'
    decreases n
  {
    var high := if n < base.Radix() then [] else Numeral(base, base.High(n));
    var low := base.Low(n);
    DigitRoundTrip(low);
    ValueAppend(base, high, DigitChar(low));
    IsNumeralAppend(base, high, DigitChar(low));
    if n >= base.Radix() { NumeralRoundTrip(base, base.High(n)); }
    assert Numeral(base, n) == high + [DigitChar(low)];
  }

  /** Every text without a superfluous zero is the numeral of its value. */
  lemma {:induction false} NumeralOfValue(base: Base, s: string)
    requires IsNumeral(base, s)
    ensures Value(base, s) >= 0 && Numeral(base, Value(base, s)) == s
    ensures s[0] != '0' ==> Value(base, s) > 0
  {
    var high, last := s[..|s| - 1], s[|s| - 1];
    assert s == high + [last];
    if |s| == 1 {
      OneDigit(base, last);
    } else {
      DigitOfValue(last);
      ValueAppend(base, high, last);
      IsNumeralAppend(base, high, last);
      NumeralOfValue(base, high);
      NumeralShift(base, Value(base, high), DigitValue(last));
    }
  }

  lemma OneDigit(base: Base, c: char)
    requires 0 <= DigitValue(c) < base.Radix()
    ensures Value(base, [c]) == DigitValue(c) && Numeral(base, DigitValue(c)) == [c]
    ensures c != '0' ==> DigitValue(c) > 0
  {
    DigitOfValue(c);
    ValueAppend(base, [], c);
    assert [] + [c] == [c];
  }

  /** How long a numeral is. */
  lemma {:induction false} NumeralFits(base: Base, n: nat, k: nat)
    requires k >= 1
    ensures |Numeral(base, n)| <= k <==> n < Pow(base.Radix(), k)
  {
    assert Pow(base.Radix(), k) == base.Radix() * Pow(base.Radix(), k - 1);
    if k > 1 && n >= base.Radix() {
      NumeralFits(base, base.High(n), k - 1);
    }
  }

  /** What `convert` writes parses back, for every integer of either sign. */
  lemma DecimalRoundTrip(v: int)
    ensures ParseDecimal(Decimal(v)) == v
    ensures v < 0 <==> Decimal(v)[0] == '-'
  {
    NumeralRoundTrip(Ten, Abs(v));
  }

  /** The integer types that LogStream prints. */
  datatype Width = Int32 | UInt32 | Int64 | UInt64

  predicate InRange(w: Width, v: int) {
    match w
    case Int32 => -0x8000_0000 <= v < 0x8000_0000
    case UInt32 => 0 <= v < 0x1_0000_0000
    case Int64 => -0x8000_0000_0000_0000 <= v < 0x8000_0000_0000_0000
    case UInt64 => 0 <= v < 0x1_0000_0000_0000_0000
  }

  /** std::numeric_limits<T>::digits10 */
  function Digits10(w: Width): nat {
    match w
    case Int32 => 9
    case UInt32 => 9
    case Int64 => 18
    case UInt64 => 19
  }

  /** Sign, digits and the terminating NUL fit in the room that formatInteger provides. */
  lemma DecimalFits(w: Width, v: int)
    requires InRange(w, v)
    ensures |Decimal(v)| + 1 < Digits10(w) + 4
  {
    NumeralFits(Ten, Abs(v), Digits10(w) + 1);
    TenTo10();
  }

  lemma TenTo10()
    ensures Pow(10, 10) == 1_0000000000
    ensures Pow(10, 19) == 1_000000000_0000000000 && Pow(10, 20) == 1_0000000000_0000000000
  {
    assert Pow(10, 5) == 100000;
    assert Pow(10, 10) == 1_0000000000;
    assert Pow(10, 15) == 1_00000_0000000000;
  }

  /** A pointer is "0x" and at most 16 hexadecimal digits. */
  lemma PointerFits(v: nat)
    requires v < 0x1_0000_0000_0000_0000
    ensures |Numeral(Sixteen, v)| + 3 < 64 / 4 + 4
  {
    NumeralFits(Sixteen, v, 16);
    assert Pow(16, 8) == 0x1_0000_0000;
    assert Pow(16, 16) == 0x1_0000_0000_0000_0000;
  }

  /** C++ division and remainder round toward zero. */
  function TruncDiv(x: int, d: nat): int
    requires d > 0
  {
    if x < 0 then -(-x / d) else x / d
  }

  function TruncMod(x: int, d: nat): int
    requires d > 0
  {
    x - TruncDiv(x, d) * d
  }

  function Abs(x: int): nat { if x < 0 then -x else x }

  lemma TruncatedDigit(i: int)
    ensures -9 <= TruncMod(i, 10) <= 9 && Abs(TruncDiv(i, 10)) == Abs(i) / 10
    ensures DIGITS[9 + TruncMod(i, 10)] == DigitChar(Abs(i) % 10)
  {}

  /** The table holds the digits that the numerals are written with. */
  lemma HexDigit(d: nat)
    requires d < 16
    ensures DIGITS_HEX[d] == DigitChar(d) == "0123456789ABCDEF"[d]
  {}
}
