/** Decimal numbers as text: printing them, and reading them back through a check of the characters followed
    by an extraction that stops at the limits of 64 bits. */
module Decimals {

  const INT64_MAX: int := 0x7FFF_FFFF_FFFF_FFFF
  const INT64_MIN: int := -0x8000_0000_0000_0000

  predicate IsDigit(c: char) { '0' <= c <= '9' }

  function DigitOf(d: nat): (c: char)
    requires d < 10
    ensures IsDigit(c) && DigitValue(c) == d
  {
    (48 + d) as char
  }

  function DigitValue(c: char): (d: nat)
    requires IsDigit(c)
    ensures d < 10
  {
    c as int - 48
  }

  function Decimal(n: nat): (s: string)
    ensures |s| > 0 && forall i :: 0 <= i < |s| ==> IsDigit(s[i])
  {
    if n < 10 then [DigitOf(n)] else Decimal(n / 10) + [DigitOf(n % 10)]
  }

  function ToString(n: int): (s: string)
    ensures |s| > 0 && forall i :: 0 <= i < |s| ==> IsDigit(s[i]) || (i == 0 && s[i] == '-')
  {
    if n < 0 then "-" + Decimal(-n) else Decimal(n)
  }

  /** The characters the check lets through: digits, and a sign in front. */
  predicate Numeric(s: string) {
    forall i :: 0 <= i < |s| ==> IsDigit(s[i]) || (i == 0 && (s[i] == '-' || s[i] == '+'))
  }

  predicate Digits(s: string) { forall i :: 0 <= i < |s| ==> IsDigit(s[i]) }

  function Value(s: string): nat
    requires Digits(s)
  {
    if s == [] then 0 else Value(s[..|s| - 1]) * 10 + DigitValue(s[|s| - 1])
  }

  function Saturate(n: int): int { if n > INT64_MAX then INT64_MAX else if n < INT64_MIN then INT64_MIN else n }

  /** What the extraction makes of them, into a number that was zero: zero if there is no digit. */
  function Number(s: string): (n: int)
    requires Numeric(s)
    ensures INT64_MIN <= n <= INT64_MAX
  {
    assert s != [] ==> Digits(s[1..]);
    if s == [] then 0
    else if s[0] == '-' then var v: int := Value(s[1..]); Saturate(-v)
    else if s[0] == '+' then Saturate(Value(s[1..]))
    else Saturate(Value(s))
  }

  /** The number is left alone when the check fails, and also when there is no text to extract it from. */
  method String2Int64(str: string, num: int) returns (res: int, num': int)
    ensures res == (if Numeric(str) then 1 else -1) && num' == if Numeric(str) && str != "" then Number(str) else num
    ensures num == 0 && Numeric(str) ==> num' == Number(str)
  {
    num' := num;
    for i := 0 to |str|
      invariant Numeric(str[..i])
    {
      assert str[..i + 1] == str[..i] + [str[i]];
      if str[i] > '9' || str[i] < '0' {
        if i == 0 && (str[i] == '-' || str[i] == '+') {
          continue;
        }
        return -1, num;
      }
    }
    assert str[..|str|] == str;
    if str == "" {
      return 1, num;
    }
    return 1, Number(str);
  }

  lemma {:induction false} ValueOfDecimal(n: nat)
    ensures Value(Decimal(n)) == n
  {
    if n < 10 {
      assert Value([DigitOf(n)]) == n by { assert [DigitOf(n)][..0] == []; }
    } else {
      ValueOfDecimal(n / 10);
      var s := Decimal(n / 10) + [DigitOf(n % 10)];
      assert s[..|s| - 1] == Decimal(n / 10);
    }
  }

  /** Printing and reading a 64-bit number gives it back. */
  lemma ReadPrinted(n: int)
    requires INT64_MIN <= n <= INT64_MAX
    ensures Numeric(ToString(n)) && Number(ToString(n)) == n
  {
    hide Decimal, Value;
    if n < 0 {
      ValueOfDecimal(-n);
      assert ToString(n)[1..] == Decimal(-n);
    } else {
      ValueOfDecimal(n);
    }
  }

  function Pow10(k: nat): nat { if k == 0 then 1 else 10 * Pow10(k - 1) }

  lemma {:induction false} DecimalLength(n: nat, k: nat)
    requires 0 < k && n < Pow10(k)
    ensures |Decimal(n)| <= k
    decreases k
  {
    if n >= 10 { DecimalLength(n / 10, k - 1); }
  }
}
