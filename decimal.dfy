/** Decimal text of integers, as String.Format prints an Int32, and the inverse reading. */
module Decimal {
  import opened Wrappers
  import opened Strings

  predicate IsDigit(c: char) {
    '0' <= c <= '9'
  }

  predicate AllDigits(s: string) {
    forall i :: 0 <= i < |s| ==> IsDigit(s[i])
  }

  function DigitChar(d: nat): (c: char)
    requires d < 10
    ensures IsDigit(c) && c as int - '0' as int == d
  {
    (d + '0' as int) as char
  }

  function DigitValue(c: char): (d: nat)
    requires IsDigit(c)
    ensures d < 10
  {
    c as int - '0' as int
  }

  /** The shortest decimal text of `n`: digits only, no leading zero. */
  function NatText(n: nat): (s: string)
    ensures |s| >= 1 && AllDigits(s)
    ensures s[0] == '0' ==> s == "0"
    decreases n
  {
    if n < 10 then [DigitChar(n)]
    else NatText(n / 10) + [DigitChar(n % 10)]
  }

  /** The number that a string of decimal digits denotes. */
  function DigitsValue(s: string): nat
    requires AllDigits(s)
  {
    if s == [] then 0 else 10 * DigitsValue(s[..|s| - 1]) + DigitValue(s[|s| - 1])
  }

  /** String.Format("{0}", i) for an Int32 `i` under the invariant culture. */
  function IntText(i: int): (s: string)
    ensures |s| >= 1 && Free(s, ' ')
  {
    if i < 0 then "-" + NatText(-i) else NatText(i)
  }

  /** Reads back an optionally signed run of decimal digits. */
  function ParseIntText(s: string): Option<int> {
    if |s| >= 2 && s[0] == '-' && AllDigits(s[1..]) then Some(-(DigitsValue(s[1..]) as int))
    else if |s| >= 1 && AllDigits(s) then Some(DigitsValue(s))
    else None
  }

  lemma {:induction false} NatTextValue(n: nat)
    ensures DigitsValue(NatText(n)) == n
    decreases n
  {
    if n >= 10 {
      NatTextValue(n / 10);
      var s := NatText(n);
      assert s[..|s| - 1] == NatText(n / 10);
    }
  }

  /** Formatting an integer and reading it back gives the integer. */
  lemma IntTextRoundTrip(i: int)
    ensures ParseIntText(IntText(i)) == Some(i)
  {
    var s := IntText(i);
    if i < 0 {
      var digits := NatText(-i);
      NatTextValue(-i);
      assert s == "-" + digits && s[0] == '-' && s[1..] == digits;
      assert ParseIntText(s) == Some(-(DigitsValue(digits) as int));
    } else {
      NatTextValue(i);
      assert IsDigit(s[0]);
      assert ParseIntText(s) == Some(DigitsValue(s));
    }
  }
}
