/** Decimal rendering of counters, as Python's `f"{n:04d}"` does it for a
    non-negative `n`, together with the parser that inverts it. */
module Decimal {

  import opened Text

  predicate AllDigits(s: string) {
    forall i :: 0 <= i < |s| ==> IsDigit(s[i])
  }

  function DigitChar(d: nat): (c: char)
    requires d < 10
    ensures IsDigit(c)
  {
    ('0' as int + d) as char
  }

  function DigitValue(c: char): (d: nat)
    requires IsDigit(c)
    ensures d < 10
  {
    c as int - '0' as int
  }

  /** `str(n)`: most significant digit first, no leading zeros. */
  function ToDecimal(n: nat): (r: string)
    ensures 1 <= |r| && AllDigits(r)
    decreases n
  {
    if n < 10 then [DigitChar(n)] else ToDecimal(n / 10) + [DigitChar(n % 10)]
  }

  /** The value of a string of decimal digits, as `int(s)` reads it. */
  function Parse(s: string): nat
    requires AllDigits(s)
    decreases |s|
  {
    if s == [] then 0 else Parse(s[..|s| - 1]) * 10 + DigitValue(s[|s| - 1])
  }

  /** Parsing undoes rendering. */
  lemma {:induction false} ParseToDecimal(n: nat)
    ensures Parse(ToDecimal(n)) == n
    decreases n
  {
    if n >= 10 {
      var r := ToDecimal(n);
      assert r[..|r| - 1] == ToDecimal(n / 10);
      ParseToDecimal(n / 10);
    }
  }

  function Pow10(k: nat): (p: nat)
    ensures p >= 1
  {
    if k == 0 then 1 else 10 * Pow10(k - 1)
  }

  /** A number below `10^k` needs at most `k` digits. */
  lemma {:induction false} ToDecimalLength(n: nat, k: nat)
    requires 1 <= k && n < Pow10(k)
    ensures |ToDecimal(n)| <= k
    decreases k
  {
    if n >= 10 {
      assert Pow10(1) == 10;
      assert k >= 2;
      assert n / 10 < Pow10(k - 1);
      ToDecimalLength(n / 10, k - 1);
    }
  }

  lemma ShortNumbersFitFour(n: nat)
    ensures n < 10000 ==> |ToDecimal(n)| <= 4
  {
    if n < 10000 {
      assert Pow10(4) == 10000;
      ToDecimalLength(n, 4);
    }
  }

  function Zeros(k: nat): (r: string)
    ensures |r| == k && AllDigits(r)
    ensures forall i :: 0 <= i < k ==> r[i] == '0'
  {
    seq(k, _ => '0')
  }

  /** Leading zeros do not change the value read. */
  lemma {:induction false} ParseLeadingZeros(k: nat, s: string)
    requires AllDigits(s)
    ensures Parse(Zeros(k) + s) == Parse(s)
    decreases |s|, k
  {
    var z := Zeros(k) + s;
    if s == [] {
      assert z == Zeros(k);
      if k > 0 {
        assert z[..|z| - 1] == Zeros(k - 1);
        ParseLeadingZeros(k - 1, []);
        assert Zeros(k - 1) + [] == Zeros(k - 1);
      }
    } else {
      assert z[..|z| - 1] == Zeros(k) + s[..|s| - 1];
      ParseLeadingZeros(k, s[..|s| - 1]);
    }
  }

  /** `f"{n:04d}"`: the decimal digits of `n`, left-padded with zeros to four
      characters and never truncated; it reads back as `n`. */
  function Format04(n: nat): (r: string)
    ensures AllDigits(r) && Parse(r) == n
    ensures |r| == Max(4, |ToDecimal(n)|)
    ensures n < 10000 ==> |r| == 4
  {
    var d := ToDecimal(n);
    ParseToDecimal(n);
    ShortNumbersFitFour(n);
    if |d| >= 4 then d
    else
      ParseLeadingZeros(4 - |d|, d);
      Zeros(4 - |d|) + d
  }
}
