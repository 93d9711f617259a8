/**
 * Go's integer and floating-point conversions, written out exactly.
 * Go floats are modelled as exact reals; only the rounding rules of the
 * conversions are kept.
 */
module GoNum {

  /** 2^64, the modulus of Go's `uint` on a 64-bit platform. */
  const TwoTo64: int := 0x1_0000_0000_0000_0000

  /** Go's `uint8`; arithmetic on it must stay in range unless a wrap is written out. */
  newtype Byte = x: int | 0 <= x < 256

  /** `uint(x)` for an `int` x: two's-complement reinterpretation. */
  function ToUint(x: int): (r: nat)
    ensures r < TwoTo64
    ensures 0 <= x < TwoTo64 ==> r == x
    ensures -TwoTo64 <= x < 0 ==> r == x + TwoTo64
  {
    if 0 <= x < TwoTo64 then x else x % TwoTo64
  }

  /** Go's `a / b` on `int`: the quotient truncated toward zero. */
  function Quot(a: int, b: int): (q: int)
    requires b > 0
    ensures a >= 0 ==> q == a / b
    ensures a < 0 ==> q == -((-a) / b)
  {
    if a >= 0 then a / b else -((-a) / b)
  }

  /** Go's `a % b` on `int`: the remainder takes the sign of the dividend. */
  function Rem(a: int, b: int): (r: int)
    requires b > 0
    ensures a == Quot(a, b) * b + r
    ensures a >= 0 ==> 0 <= r < b
    ensures a < 0 ==> -b < r <= 0
  {
    if a >= 0 then a % b else -((-a) % b)
  }

  /** `int(x)` for a float x: truncation toward zero. */
  function Trunc(x: real): (r: int)
    ensures x >= 0.0 ==> r >= 0 && r as real <= x < r as real + 1.0
    ensures x < 0.0 ==> r as real - 1.0 < x <= r as real
  {
    if x >= 0.0 then x.Floor else -((-x).Floor)
  }

  /** `math.Round(x)`: the nearest integer, halfway cases away from zero. */
  function Round(x: real): (r: int)
    ensures x >= 0.0 ==> r >= 0 && r as real - 0.5 <= x < r as real + 0.5
    ensures x < 0.0 ==> r <= 0 && r as real - 0.5 < x <= r as real + 0.5
  {
    if x >= 0.0 then (x + 0.5).Floor else -((-x + 0.5).Floor)
  }

  /** `math.Floor(x)` for a float x. */
  function Floor(x: real): (r: int)
    ensures r as real <= x < r as real + 1.0
  {
    x.Floor
  }

  /** The decimal digit d as a character. */
  function DigitChar(d: int): (ch: char)
    requires 0 <= d < 10
    ensures '0' <= ch <= '9' && ch as int - '0' as int == d
  {
    ('0' as int + d) as char
  }

  predicate AllDigits(s: string)
  {
    forall i | 0 <= i < |s| :: '0' <= s[i] <= '9'
  }

  /** The decimal digits of n, most significant first, without leading zeros. */
  function Digits(n: nat): (s: string)
    ensures |s| >= 1 && AllDigits(s)
    ensures s[0] == '0' <==> n == 0
  {
    if n < 10 then [DigitChar(n)] else Digits(n / 10) + [DigitChar(n % 10)]
  }

  /** The number a string of decimal digits denotes. */
  function DigitsValue(s: string): nat
    requires AllDigits(s)
  {
    if |s| == 0 then 0 else DigitsValue(s[..|s| - 1]) * 10 + (s[|s| - 1] as int - '0' as int)
  }

  /** Reading back the digits of n gives n. */
  lemma {:induction false} DigitsRoundTrip(n: nat)
    ensures DigitsValue(Digits(n)) == n
  {
    if n >= 10 {
      DigitsRoundTrip(n / 10);
      var s := Digits(n);
      assert s[..|s| - 1] == Digits(n / 10);
    }
  }

  /** fmt's %d for an int: a minus sign for negative values, then the digits. */
  function FormatInt(n: int): (s: string)
    ensures |s| >= 1 && (s[0] == '-' <==> n < 0)
  {
    if n < 0 then "-" + Digits(-n) else Digits(n)
  }

  /** Reading a %d string back: the sign, then the digits. */
  function ParseInt(s: string): int
    requires |s| >= 1 && AllDigits(if s[0] == '-' then s[1..] else s)
  {
    if s[0] == '-' then -(DigitsValue(s[1..]) as int) else DigitsValue(s)
  }

  /** %d is one-to-one: parsing it back gives the number. */
  lemma FormatIntRoundTrip(n: int)
    ensures AllDigits(if FormatInt(n)[0] == '-' then FormatInt(n)[1..] else FormatInt(n))
    ensures ParseInt(FormatInt(n)) == n
  {
    if n < 0 {
      assert FormatInt(n)[1..] == Digits(-n);
      DigitsRoundTrip(-n);
    } else {
      DigitsRoundTrip(n);
    }
  }
}
