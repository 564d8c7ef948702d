/** Decimal numerals, as JavaScript writes a non-negative integer into a template string and Number() reads it back. */
module Decimal {

  function Digit(d: int): char
    requires 0 <= d < 10
  {
    '0' + d as char
  }

  predicate IsNumeral(s: string) {
    |s| > 0 && forall k :: 0 <= k < |s| ==> '0' <= s[k] <= '9'
  }

  function ToString(n: nat): (s: string)
    ensures IsNumeral(s)
  {
    if n < 10 then [Digit(n)] else ToString(n / 10) + [Digit(n % 10)]
  }

  function ToNumber(s: string): nat
    requires IsNumeral(s)
  {
    var last := s[|s| - 1] as int - '0' as int;
    if |s| == 1 then last else ToNumber(s[..|s| - 1]) * 10 + last
  }

  lemma {:induction false} RoundTrip(n: nat)
    ensures ToNumber(ToString(n)) == n
  {
    if n >= 10 {
      RoundTrip(n / 10);
      assert ToString(n)[..|ToString(n)| - 1] == ToString(n / 10);
    }
  }

  /** Two template strings with the same prefix agree only on the same number. */
  lemma Injective(prefix: string, m: nat, n: nat)
    requires prefix + ToString(m) == prefix + ToString(n)
    ensures m == n
  {
    assert (prefix + ToString(m))[|prefix|..] == ToString(m);
    assert (prefix + ToString(n))[|prefix|..] == ToString(n);
    RoundTrip(m);
    RoundTrip(n);
  }

  /** The ten digits, and how a longer numeral grows. */
  lemma Numerals(n: nat)
    ensures n < 10 ==> ToString(n) == ["0123456789"[n]]
    ensures n >= 10 ==> ToString(n) == ToString(n / 10) + ToString(n % 10)
  {
  }
}
