/**
 * Kotlin's `String.toLong()` in radix 10, as used for the `-n` value:
 * an optional '+' or '-' followed by one or more decimal digits whose value
 * lies in the 64-bit signed range. Every other string fails (the source turns
 * the thrown NumberFormatException into the value -1).
 */
module KotlinLong {
  import opened Options

  const LongMin: int := -0x8000_0000_0000_0000
  const LongMax: int := 0x7FFF_FFFF_FFFF_FFFF

  predicate IsDigit(c: char) { '0' <= c <= '9' }

  predicate AllDigits(s: string) {
    forall i :: 0 <= i < |s| ==> IsDigit(s[i])
  }

  function DigitValue(c: char): (d: nat)
    requires IsDigit(c)
    ensures d < 10
  {
    c as int - '0' as int
  }

  function DigitChar(d: nat): (c: char)
    requires d < 10
    ensures IsDigit(c) && DigitValue(c) == d
  {
    ('0' as int + d) as char
  }

  /** The value of a string of decimal digits, most significant digit first. */
  function DigitsValue(s: string): nat
    requires AllDigits(s)
  {
    if s == [] then 0 else 10 * DigitsValue(s[..|s| - 1]) + DigitValue(s[|s| - 1])
  }

  /** `s.toLong()`, with `None` for the NumberFormatException. */
  function ToLong(s: string): (r: Option<int>)
    ensures r.Some? ==> LongMin <= r.value <= LongMax
    ensures r.Some? ==> |s| > 0 && IsDigit(s[|s| - 1])
    ensures r.Some? && r.value < 0 ==> s[0] == '-'
  {
    if |s| == 0 then None
    else
      var digits := if s[0] == '-' || s[0] == '+' then s[1..] else s;
      if |digits| == 0 || !AllDigits(digits) then None
      else
        var v: int := if s[0] == '-' then 0 - DigitsValue(digits) as int else DigitsValue(digits);
        if LongMin <= v <= LongMax then Some(v) else None
  }

  /** The canonical decimal rendering of a natural number (`n.toString()`). */
  function NatDecimal(n: nat): string
  {
    if n < 10 then [DigitChar(n)] else NatDecimal(n / 10) + [DigitChar(n % 10)]
  }

  /** The canonical decimal rendering of an integer (`n.toString()`). */
  function Decimal(n: int): string
  {
    if n < 0 then "-" + NatDecimal(-n) else NatDecimal(n)
  }

  lemma {:induction false} NatDecimalValue(n: nat)
    ensures |NatDecimal(n)| > 0 && AllDigits(NatDecimal(n))
    ensures DigitsValue(NatDecimal(n)) == n
  {
    var s := NatDecimal(n);
    if n >= 10 {
      NatDecimalValue(n / 10);
      assert s[..|s| - 1] == NatDecimal(n / 10);
    }
  }

  /** Every 64-bit value survives `toString()` followed by `toLong()`. */
  lemma ToLongDecimal(n: int)
    requires LongMin <= n <= LongMax
    ensures ToLong(Decimal(n)) == Some(n)
  {
    var m := if n < 0 then -n else n;
    NatDecimalValue(m);
    if n < 0 {
      assert Decimal(n)[1..] == NatDecimal(m);
    }
  }

  /** A value outside the 64-bit range, written in decimal, fails to parse. */
  lemma ToLongOutOfRange(n: int)
    requires n < LongMin || LongMax < n
    ensures ToLong(Decimal(n)) == None
  {
    var m := if n < 0 then -n else n;
    NatDecimalValue(m);
    if n < 0 {
      assert Decimal(n)[1..] == NatDecimal(m);
    }
  }

  function Zeros(k: nat): (z: string)
    ensures |z| == k && AllDigits(z)
  {
    seq(k, _ => '0')
  }

  lemma {:induction false} LeadingZerosValue(k: nat, s: string)
    requires AllDigits(s)
    ensures AllDigits(Zeros(k) + s) && DigitsValue(Zeros(k) + s) == DigitsValue(s)
    decreases |s|, k
  {
    var t := Zeros(k) + s;
    if s == [] {
      assert t == Zeros(k);
      if k > 0 {
        assert t[..|t| - 1] == Zeros(k - 1) + [];
        LeadingZerosValue(k - 1, []);
      }
    } else {
      assert t[..|t| - 1] == Zeros(k) + s[..|s| - 1];
      LeadingZerosValue(k, s[..|s| - 1]);
    }
  }

  /**
   * A leading '+' and leading zeros do not change the value: the sign as
   * written, any number of zeros and then the digits of |n| parse to n.
   */
  lemma ToLongPadded(n: int, plus: bool, k: nat)
    requires LongMin <= n <= LongMax
    requires plus ==> 0 <= n
    ensures ToLong((if n < 0 then "-" else if plus then "+" else "") + Zeros(k) + NatDecimal(if n < 0 then -n else n)) == Some(n)
  {
    var m := if n < 0 then -n else n;
    var sign := if n < 0 then "-" else if plus then "+" else "";
    NatDecimalValue(m);
    LeadingZerosValue(k, NatDecimal(m));
    var body := Zeros(k) + NatDecimal(m);
    var s := sign + Zeros(k) + NatDecimal(m);
    assert s == sign + body;
    if sign != "" {
      assert s[1..] == body;
    } else {
      assert s == body && IsDigit(s[0]);
    }
  }

  /** A sign with no digits after it, or any non-digit after the sign, fails. */
  lemma ToLongRejects(s: string, k: nat)
    requires k < |s| && !IsDigit(s[k])
    requires k > 0 || (s[0] != '-' && s[0] != '+') || |s| == 1
    ensures ToLong(s) == None
  {
  }
}
