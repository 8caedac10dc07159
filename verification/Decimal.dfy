/** Natural numbers written in decimal, as character codes, and the greatest the
    source takes for an exact integer. */
module Decimal {
  /** Number.MAX_SAFE_INTEGER: 2^53 - 1. */
  const MAX_SAFE_INTEGER: nat := 9007199254740991

  type Digit = d: nat | 48 <= d <= 57 witness 48

  function Digits(n: nat): (r: seq<Digit>)
    ensures r != []
  {
    if n < 10 then [48 + n] else Digits(n / 10) + [48 + n % 10]
  }

  /** The number a string of digits spells, leading zeros allowed. */
  function Value(digits: seq<Digit>): nat {
    if digits == [] then 0 else 10 * Value(digits[..|digits| - 1]) + digits[|digits| - 1] - 48
  }

  lemma {:induction false} ValueOfDigits(n: nat)
    ensures Value(Digits(n)) == n
  {
    if n < 10 {
      assert [48 + n][..0] == [];
    } else {
      ValueOfDigits(n / 10);
      assert Digits(n)[..|Digits(n)| - 1] == Digits(n / 10);
    }
  }

  function Power(k: nat): nat {
    if k == 0 then 1 else 10 * Power(k - 1)
  }

  /** A number below 10^k has at most k digits. */
  lemma {:induction false} DigitCount(n: nat, k: nat)
    requires 0 < k && n < Power(k)
    ensures |Digits(n)| <= k
  {
    if n >= 10 {
      assert Power(k) == 10 * Power(k - 1);
      assert k > 1;
      DigitCount(n / 10, k - 1);
    }
  }
}
