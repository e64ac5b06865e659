/**
 * Python's `str(n)` for an `int` `n`: decimal digits with no leading zero,
 * and a leading `-` for a negative number.
 */
module Decimal {

  const Digits: string := "0123456789"

  function DigitChar(d: int): (c: char)
    requires 0 <= d < 10
    ensures c in Digits && c as int == '0' as int + d
  {
    assert Digits[d] as int == '0' as int + d;
    Digits[d]
  }

  /** The value of a digit character. */
  function DigitValue(c: char): (d: nat)
    requires c in Digits
    ensures d < 10 && DigitChar(d) == c
  {
    c as int - '0' as int
  }

  /** `str(n)` for `n >= 0`. */
  function NatToString(n: nat): (s: string)
    ensures |s| >= 1
    ensures forall i | 0 <= i < |s| :: s[i] in Digits
    ensures |s| > 1 ==> s[0] != '0'
    decreases n
  {
    if n < 10 then [DigitChar(n)]
    else NatToString(n / 10) + [DigitChar(n % 10)]
  }

  /** `str(n)`. */
  function IntToString(n: int): (s: string)
    ensures |s| >= 1 && (s[0] == '-' <==> n < 0)
  {
    if n < 0 then "-" + NatToString(-n) else NatToString(n)
  }

  /** The number a string of decimal digits denotes. */
  function DigitsValue(s: string): nat
    requires forall i | 0 <= i < |s| :: s[i] in Digits
    decreases |s|
  {
    if s == [] then 0
    else 10 * DigitsValue(s[..|s| - 1]) + DigitValue(s[|s| - 1])
  }

  /** Reading back the digits of `str(n)` gives `n`. */
  lemma {:induction false} NatToStringValue(n: nat)
    ensures DigitsValue(NatToString(n)) == n
    decreases n
  {
    if n < 10 {
      assert NatToString(n)[..0] == [];
    } else {
      var s := NatToString(n);
      NatToStringValue(n / 10);
      assert s[..|s| - 1] == NatToString(n / 10);
    }
  }

  /**
   * `str(n)` is one of the forms Python prints and determines `n`: a
   * non-empty string of digits and, exactly for negatives, a leading `-`;
   * its digits read back as `|n|`.
   */
  lemma IntToStringShape(n: int)
    ensures var s := IntToString(n);
      && |s| >= 1
      && (s[0] == '-' <==> n < 0)
      && (forall i | (if n < 0 then 1 else 0) <= i < |s| :: s[i] in Digits)
      && DigitsValue(s[(if n < 0 then 1 else 0)..]) == (if n < 0 then -n else n)
  {
    var s := IntToString(n);
    var k := if n < 0 then 1 else 0;
    var m: nat := if n < 0 then -n else n;
    SignThenDigits(s, k, NatToString(m));
    NatToStringValue(m);
  }

  /** A sign prefix of length `k` followed by the digits `t`. */
  lemma SignThenDigits(s: string, k: nat, t: string)
    requires k <= |s| && s[k..] == t && forall i | 0 <= i < |t| :: t[i] in Digits
    ensures forall i | k <= i < |s| :: s[i] in Digits
  {
    forall i | k <= i < |s| ensures s[i] in Digits {
      assert s[i] == t[i - k];
    }
  }

  /** Different numbers print differently. */
  lemma IntToStringInjective(m: int, n: int)
    requires IntToString(m) == IntToString(n)
    ensures m == n
  {
    IntToStringShape(m);
    IntToStringShape(n);
  }

  /** Every character of `str(n)` is a digit or `-`. */
  lemma IntToStringChars(n: int)
    ensures forall i | 0 <= i < |IntToString(n)| :: IntToString(n)[i] in "-0123456789"
  {
    var s := IntToString(n);
    forall i | 0 <= i < |s| ensures s[i] in "-0123456789" {
      if n < 0 && i > 0 {
        assert s[i] == NatToString(-n)[i - 1];
      }
    }
  }
}
