/** Decimal text of natural numbers: `format!("{n}")` and `str::parse`. */
module Decimals {

  predicate IsDigit(c: char) {
    '0' <= c <= '9'
  }

  predicate AllDigits(text: string) {
    forall i :: 0 <= i < |text| ==> IsDigit(text[i])
  }

  function DigitValue(c: char): nat
    requires IsDigit(c)
  {
    c as int - '0' as int
  }

  function DigitChar(n: nat): (c: char)
    requires n < 10
    ensures IsDigit(c) && DigitValue(c) == n
  {
    '0' + n as char
  }

  function Decimal(n: nat): (text: string)
    ensures |text| > 0 && AllDigits(text)
    ensures |text| > 1 ==> text[0] != '0'
    ensures n > 0 ==> text[0] != '0'
    ensures DecimalValue(text) == n
  {
    if n < 10 then [DigitChar(n)]
    else
      var prefix := Decimal(n / 10);
      assert (prefix + [DigitChar(n % 10)])[..|prefix|] == prefix;
      prefix + [DigitChar(n % 10)]
  }

  /** Value of a digit string; leading zeros are allowed, as `str::parse` does. */
  function DecimalValue(text: string): nat
    requires AllDigits(text)
  {
    if text == [] then 0
    else 10 * DecimalValue(text[..|text| - 1]) + DigitValue(text[|text| - 1])
  }

  /** Digits only, not empty, and no leading zero unless the text is "0". */
  predicate Canonical(text: string) {
    |text| > 0 && AllDigits(text) && (|text| > 1 ==> text[0] != '0')
  }

  /** A canonical digit string is the decimal text of its value. */
  lemma {:induction false} CanonicalIsPrinted(text: string)
    requires Canonical(text)
    ensures Decimal(DecimalValue(text)) == text
    ensures |text| > 1 ==> DecimalValue(text) > 0
  {
    var n := |text|;
    var prefix, last := text[..n - 1], DigitValue(text[n - 1]);
    if n == 1 {
      assert DecimalValue(prefix) == 0;
    } else {
      CanonicalIsPrinted(prefix);
      assert DecimalValue(prefix) > 0 by {
        if n == 2 {
          assert prefix == [text[0]] && prefix[..0] == [];
          assert DecimalValue(prefix[..0]) == 0;
        }
      }
      assert DecimalValue(text) / 10 == DecimalValue(prefix);
      assert DecimalValue(text) % 10 == last;
      assert text == prefix + [text[n - 1]];
    }
  }

  lemma DecimalInjective(a: nat, b: nat)
    requires Decimal(a) == Decimal(b)
    ensures a == b
  {
    assert DecimalValue(Decimal(a)) == a;
  }
}
