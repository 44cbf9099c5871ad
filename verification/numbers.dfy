/** Decimal text of JVM integers: Kotlin's `toString()` on `Int`/`Long`, and
    `String.toInt()` / `String.toLong()` (Java's `Integer.parseInt` and
    `Long.parseLong`), which throw `NumberFormatException` on bad input. */
module Numbers {
  import opened Base

  const INT_MIN: int := -0x8000_0000
  const INT_MAX: int := 0x7fff_ffff
  const LONG_MIN: int := -0x8000_0000_0000_0000
  const LONG_MAX: int := 0x7fff_ffff_ffff_ffff

  predicate IsDigit(c: char) {
    '0' <= c <= '9'
  }

  predicate AllDigits(s: string) {
    forall i :: 0 <= i < |s| ==> IsDigit(s[i])
  }

  function DigitChar(d: nat): (c: char)
    requires d < 10
    ensures IsDigit(c)
  {
    (48 + d) as char
  }

  function DigitValue(c: char): (d: nat)
    requires IsDigit(c)
    ensures d < 10 && DigitChar(d) == c
  {
    c as int - 48
  }

  /** Decimal digits of `n`, most significant first, without leading zeros. */
  function NatToString(n: nat): (r: string)
    ensures |r| > 0 && AllDigits(r)
    ensures r[0] == '0' ==> n == 0
  {
    if n < 10 then [DigitChar(n)]
    else NatToString(n / 10) + [DigitChar(n % 10)]
  }

  /** Kotlin's `Int.toString()` / `Long.toString()`: an optional minus sign
      followed by the digits of the magnitude. */
  function IntToString(n: int): (r: string)
    ensures |r| > 0
    ensures forall i :: 0 <= i < |r| ==> IsDigit(r[i]) || r[i] == '-'
    ensures r[0] == '-' <==> n < 0
  {
    if n < 0 then "-" + NatToString(-n) else NatToString(n)
  }

  /** The value of a string of decimal digits. */
  function DigitsValue(s: string): nat
    requires AllDigits(s)
  {
    if |s| == 0 then 0
    else DigitsValue(s[..|s| - 1]) * 10 + DigitValue(s[|s| - 1])
  }

  /** Java's `parseInt`/`parseLong` with bounds `lo..hi`: an optional sign,
      then at least one digit, and the value must lie within the bounds;
      anything else is a number-format failure. */
  function ParseDecimal(s: string, lo: int, hi: int): (r: Option<int>)
    ensures r.Some? ==> lo <= r.value <= hi
    ensures r.Some? ==> |s| > 0 && (s[0] == '-' || s[0] == '+' || IsDigit(s[0]))
    ensures r.Some? && s[0] == '-' ==> r.value <= 0
    ensures r.Some? && s[0] != '-' ==> r.value >= 0
  {
    if |s| == 0 then None
    else
      var body := if s[0] == '-' || s[0] == '+' then s[1..] else s;
      if |body| == 0 || !AllDigits(body) then None
      else
        var v: int := if s[0] == '-' then -(DigitsValue(body) as int) else DigitsValue(body);
        if lo <= v <= hi then Some(v) else None
  }

  /** Kotlin's `String.toInt()`. */
  function ToInt(s: string): Result<int> {
    match ParseDecimal(s, INT_MIN, INT_MAX)
    case Some(v) => Success(v)
    case None => Failure(NumberFormatException(s))
  }

  /** Kotlin's `String.toLong()`. */
  function ToLong(s: string): Result<int> {
    match ParseDecimal(s, LONG_MIN, LONG_MAX)
    case Some(v) => Success(v)
    case None => Failure(NumberFormatException(s))
  }

  lemma {:induction false} DigitsOfNat(n: nat)
    ensures DigitsValue(NatToString(n)) == n
    decreases n
  {
    if n >= 10 {
      DigitsOfNat(n / 10);
      var s := NatToString(n);
      assert s[..|s| - 1] == NatToString(n / 10);
    }
  }

  /** Parsing the decimal text of an in-range number gives the number back. */
  lemma ParseOfToString(n: int, lo: int, hi: int)
    requires lo <= n <= hi
    ensures ParseDecimal(IntToString(n), lo, hi) == Some(n)
  {
    var s := IntToString(n);
    if n < 0 {
      DigitsOfNat(-n);
      assert s[1..] == NatToString(-n);
    } else {
      DigitsOfNat(n);
    }
  }

  /** `toInt()` inverts `Int.toString()` on every 32-bit value. */
  lemma ToIntOfToString(n: int)
    requires INT_MIN <= n <= INT_MAX
    ensures ToInt(IntToString(n)) == Success(n)
  {
    ParseOfToString(n, INT_MIN, INT_MAX);
  }

  /** `toLong()` inverts `Long.toString()` on every 64-bit value. */
  lemma ToLongOfToString(n: int)
    requires LONG_MIN <= n <= LONG_MAX
    ensures ToLong(IntToString(n)) == Success(n)
  {
    ParseOfToString(n, LONG_MIN, LONG_MAX);
  }

  /** Distinct numbers have distinct decimal texts. */
  lemma IntToStringInjective(a: int, b: int)
    requires a != b
    ensures IntToString(a) != IntToString(b)
  {
    var lo := if a < b then a else b;
    var hi := if a < b then b else a;
    ParseOfToString(a, lo, hi);
    ParseOfToString(b, lo, hi);
  }
}
