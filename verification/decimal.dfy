/** Decimal text of integers, and the 64-bit parse that undoes it. */
module Decimal {
  import opened Text

  const INT64_MIN: int := -0x8000_0000_0000_0000
  const INT64_MAX: int := 0x7FFF_FFFF_FFFF_FFFF

  predicate InInt64(n: int) {
    INT64_MIN <= n <= INT64_MAX
  }

  type Int64 = n: int | InInt64(n) witness 0

  /** The signed 64-bit value an overflowing result wraps to. */
  function Wrap64(n: int): (w: int)
    ensures InInt64(w)
    ensures w == n <==> InInt64(n)
    ensures (n - w) % 0x1_0000_0000_0000_0000 == 0
  {
    (n - INT64_MIN) % 0x1_0000_0000_0000_0000 + INT64_MIN
  }

  predicate IsDigit(c: char) {
    '0' <= c <= '9'
  }

  predicate AllDigits(s: string) {
    forall i | 0 <= i < |s| :: IsDigit(s[i])
  }

  function DigitOf(d: nat): (c: char)
    requires d < 10
    ensures IsDigit(c) && DigitValue(c) == d
  {
    ('0' as int + d) as char
  }

  function DigitValue(c: char): nat
    requires IsDigit(c)
  {
    c as int - '0' as int
  }

  /** The number a run of digits denotes, most significant digit first. */
  function DigitsValue(s: string): nat
    requires AllDigits(s)
  {
    if |s| == 0 then 0 else DigitsValue(s[..|s| - 1]) * 10 + DigitValue(s[|s| - 1])
  }

  function FormatNat(n: nat): (s: string)
    ensures |s| > 0 && AllDigits(s)
    ensures DigitsValue(s) == n
  {
    if n < 10 then
      assert DigitsValue([DigitOf(n)]) == DigitsValue([]) * 10 + n by { assert [DigitOf(n)][..0] == []; }
      [DigitOf(n)]
    else
      var front := FormatNat(n / 10);
      assert (front + [DigitOf(n % 10)])[..|front|] == front;
      front + [DigitOf(n % 10)]
  }

  function FormatInt(n: int): (s: string)
    ensures |s| > 0
  {
    if n < 0 then "-" + FormatNat(-n) else FormatNat(n)
  }

  /** Reads an optional sign and at least one digit; anything else, or a value past 64 bits, is refused. */
  function ParseInt64(s: string): Option<Int64> {
    var signed := |s| > 0 && (s[0] == '-' || s[0] == '+');
    var digits := if signed then s[1..] else s;
    if |digits| == 0 || !AllDigits(digits) then None
    else
      var magnitude: int := DigitsValue(digits);
      var n := if signed && s[0] == '-' then -magnitude else magnitude;
      if InInt64(n) then Some(n) else None
  }

  /** The parse undoes the rendering exactly on the 64-bit range. */
  lemma ParseFormat(n: int)
    ensures ParseInt64(FormatInt(n)) == if InInt64(n) then Some(n) else None
  {
    var s := FormatInt(n);
    if n < 0 {
      assert s[1..] == FormatNat(-n);
    } else {
      assert IsDigit(s[0]);
    }
  }

  lemma FormatFree(n: int, sep: char)
    requires !IsDigit(sep) && sep != '-'
    ensures Free(FormatInt(n), sep)
  {
    var s := FormatInt(n);
    forall i | 0 <= i < |s|
      ensures s[i] != sep
    {
      if n < 0 && i > 0 {
        assert s[i] == FormatNat(-n)[i - 1];
      }
    }
  }

  /** The last width digits of n, with leading zeros. */
  function Padded(n: nat, width: nat): (s: string)
    ensures |s| == width && AllDigits(s)
  {
    if width == 0 then "" else Padded(n / 10, width - 1) + [DigitOf(n % 10)]
  }

  function Pow10(k: nat): (p: nat)
    ensures p > 0
  {
    if k == 0 then 1 else 10 * Pow10(k - 1)
  }

  lemma {:induction false} PaddedValue(n: nat, width: nat)
    requires n < Pow10(width)
    ensures DigitsValue(Padded(n, width)) == n
  {
    if width > 0 {
      PaddedValue(n / 10, width - 1);
      assert Padded(n, width)[..width - 1] == Padded(n / 10, width - 1);
    }
  }

  /** The digit of n at the place 10^k, counted from the right. */
  lemma {:induction false} FormatDigit(n: nat, k: nat)
    requires k < |FormatNat(n)|
    ensures var s := FormatNat(n); s[|s| - 1 - k] as int - '0' as int == n / Pow10(k) % 10
  {
    if k > 0 {
      FormatDigit(n / 10, k - 1);
      Quotients(n, Pow10(k - 1));
    }
  }

  lemma {:induction false} FirstDigit(n: nat)
    ensures n > 0 ==> FormatNat(n)[0] != '0'
  {
    if n >= 10 {
      FirstDigit(n / 10);
    }
  }

  lemma Quotients(n: nat, p: nat)
    requires p > 0
    ensures n / 10 / p == n / (10 * p)
  {
    var q, r := n / 10 / p, n / 10 % p;
    assert n == 10 * (q * p + r) + n % 10;
    assert n == q * (10 * p) + (10 * r + n % 10);
    QuotientIs(n, 10 * p, q, 10 * r + n % 10);
  }

  lemma QuotientIs(n: int, m: int, q: int, r: int)
    requires n == q * m + r && 0 <= r < m
    ensures n / m == q
  {
    var d := n / m - q;
    assert d * m == r - n % m;
    if d >= 1 {
      Times(d, m);
    } else if d <= -1 {
      Times(-d, m);
    }
  }

  lemma Times(k: int, m: int)
    requires k >= 1 && m >= 0
    ensures k * m >= m && -k * m <= -m
  {
  }

  /** What parses: digits that denote a number of 64 bits, with a sign in front or none. */
  lemma ParseIs(digits: string)
    requires |digits| > 0 && AllDigits(digits)
    ensures var n: int := DigitsValue(digits);
            && ParseInt64(digits) == ParseInt64("+" + digits) == (if n <= INT64_MAX then Some(n) else None)
            && ParseInt64("-" + digits) == (if n <= INT64_MAX + 1 then Some(-n) else None)
  {
    assert IsDigit(digits[0]);
    assert ("+" + digits)[1..] == digits && ("-" + digits)[1..] == digits;
  }

  /** Nothing else does. */
  lemma ParseRefuses(s: string)
    requires s == "" || !AllDigits(s[1..]) || (!IsDigit(s[0]) && (|s| == 1 || (s[0] != '+' && s[0] != '-')))
    ensures ParseInt64(s).None?
  {
  }

  /** Leading zeros change nothing. */
  lemma {:induction false} LeadingZero(s: string)
    requires AllDigits(s)
    ensures AllDigits("0" + s) && DigitsValue("0" + s) == DigitsValue(s)
  {
    if |s| > 0 {
      var front := s[..|s| - 1];
      LeadingZero(front);
      assert ("0" + s)[..|s|] == "0" + front;
      assert ("0" + s)[|s|] == s[|s| - 1];
    } else {
      assert "0" + s == "0" && "0"[..0] == "";
    }
  }
}
