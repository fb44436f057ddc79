// Whole numbers in decimal notation, as both the JSON text and the command line
// read and write them.

module Numerals {

  predicate IsDigit(c: char) {
    '0' <= c <= '9'
  }

  predicate AreDigits(text: string) {
    forall i :: 0 <= i < |text| ==> IsDigit(text[i])
  }

  function Digits(n: nat): (digits: string)
    ensures digits != [] && AreDigits(digits)
  {
    if n < 10 then ["0123456789"[n]] else Digits(n / 10) + ["0123456789"[n % 10]]
  }

  function DigitsValue(digits: string): (value: nat)
    requires AreDigits(digits)
  {
    if digits == [] then 0
    else
      assert IsDigit(digits[|digits| - 1]);
      DigitsValue(digits[..|digits| - 1]) * 10 + (digits[|digits| - 1] as int - '0' as int)
  }

  lemma {:induction false} DigitsReadBack(n: nat)
    ensures DigitsValue(Digits(n)) == n
  {
    if n >= 10 {
      DigitsReadBack(n / 10);
      var digits := Digits(n);
      assert digits[..|digits| - 1] == Digits(n / 10);
    } else {
      var digits := Digits(n);
      assert digits[..|digits| - 1] == [];
    }
  }

  /** Decimal notation: another digit behind a number makes it ten times as large, and more by the digit. */
  lemma DigitsAreDecimal(n: nat, digit: nat)
    requires digit < 10
    ensures Digits(digit) == ["0123456789"[digit]]
    ensures n > 0 ==> Digits(10 * n + digit) == Digits(n) + ["0123456789"[digit]]
  {
    assert (10 * n + digit) / 10 == n && (10 * n + digit) % 10 == digit;
  }
}
