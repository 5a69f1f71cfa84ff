/** The `%d` conversion of `printf`, as the renderer uses it for pids. */
module Printf {

  /** The character of a decimal digit. */
  function DigitChar(d: nat): (c: char)
    requires d < 10
    ensures '0' <= c <= '9' && (c as int) - ('0' as int) == d
  {
    "0123456789"[d]
  }

  /** Decimal digits of n, most significant first, without leading zeros. */
  function NatDigits(n: nat): (r: string)
    ensures |r| > 0 && IsDigit(r[0])
    decreases n
  {
    if n < 10 then [DigitChar(n)] else NatDigits(n / 10) + [DigitChar(n % 10)]
  }

  /** `printf("%d", n)`: a minus sign for negative values, then the digits. */
  function FormatInt(n: int): (r: string)
    ensures |r| > 0
    ensures r[0] == '-' <==> n < 0
  {
    if n < 0 then "-" + NatDigits(-n) else NatDigits(n)
  }

  predicate IsDigit(c: char)
  {
    '0' <= c <= '9'
  }

  /** The value of a string of decimal digits, read left to right. */
  function DigitsValue(s: string): (v: int)
  {
    if s == [] then 0 else 10 * DigitsValue(s[..|s| - 1]) + ((s[|s| - 1] as int) - ('0' as int))
  }

  /** The number a `%d` output stands for: the inverse of `FormatInt`. */
  function ReadInt(s: string): (n: int)
  {
    if |s| > 0 && s[0] == '-' then -DigitsValue(s[1..]) else DigitsValue(s)
  }

  /** The digits are digits, never empty, and have no leading zero. */
  lemma {:induction false} NatDigitsShape(n: nat)
    ensures |NatDigits(n)| > 0
    ensures forall i :: 0 <= i < |NatDigits(n)| ==> IsDigit(NatDigits(n)[i])
    ensures NatDigits(n)[0] == '0' <==> n == 0
    decreases n
  {
    if n >= 10 {
      NatDigitsShape(n / 10);
    }
  }

  /** Reading the digits back gives the number. */
  lemma {:induction false} NatDigitsRoundTrip(n: nat)
    ensures DigitsValue(NatDigits(n)) == n
    decreases n
  {
    if n >= 10 {
      var s := NatDigits(n);
      NatDigitsRoundTrip(n / 10);
      assert s[..|s| - 1] == NatDigits(n / 10);
    } else {
      assert NatDigits(n)[..0] == [];
    }
  }

  /** `%d` output identifies its value: reading it back is the identity. */
  lemma FormatIntRoundTrip(n: int)
    ensures ReadInt(FormatInt(n)) == n
  {
    if n < 0 {
      NatDigitsRoundTrip(-n);
      assert FormatInt(n)[1..] == NatDigits(-n);
    } else {
      NatDigitsRoundTrip(n);
      NatDigitsShape(n);
    }
  }

  /** `%d` never prints a line break or a parenthesis, so a pid suffix
      cannot be confused with the line structure around it. */
  lemma FormatIntIsNumeric(n: int)
    ensures |FormatInt(n)| > 0
    ensures forall i :: 0 <= i < |FormatInt(n)| ==> IsDigit(FormatInt(n)[i]) || (i == 0 && n < 0)
    ensures n < 0 ==> FormatInt(n)[0] == '-'
  {
    var m: nat := if n < 0 then -n else n;
    NatDigitsShape(m);
    if n < 0 {
      assert forall i :: 1 <= i < |FormatInt(n)| ==> FormatInt(n)[i] == NatDigits(m)[i - 1];
    }
  }
}
