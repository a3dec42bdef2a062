/**
 * The optional check digit of an HOTP value (`_getDigitForChecksum` and
 * `_checksumCalculation` in hotp.c), the Luhn-style `calcChecksum` of the
 * reference code in Appendix C of RFC 4226.
 */
module Checksum {
  import opened Common
  import opened Numeric

  /** Substitution applied to every other digit: d maps to the digit sum of 2d. */
  const CHECKSUM_TABLE: seq<int> := [0, 2, 4, 6, 8, 1, 3, 5, 7, 9]

  /** `_getDigitForChecksum`: the table lookup, i.e. the sum of the digits of 2 * digit. */
  function ChecksumDigit(digit: int): (r: int)
    requires 0 <= digit <= 9
    ensures 0 <= r <= 9
    ensures r == 2 * digit / 10 + 2 * digit % 10
  {
    CHECKSUM_TABLE[digit]
  }

  /** The substitution is a permutation of 0..9. */
  lemma ChecksumTableIsPermutation(a: int, b: int)
    requires 0 <= a <= 9 && 0 <= b <= 9
    ensures a != b ==> ChecksumDigit(a) != ChecksumDigit(b)
    ensures exists c :: 0 <= c <= 9 && ChecksumDigit(c) == a
  {
    var c := if a % 2 == 0 then a / 2 else (a + 9) / 2;
    assert ChecksumDigit(c) == a;
  }

  /**
   * Sum of the low `digits` decimal digits of `otp`, least significant
   * first, where the digits in the positions met while `doubleDigit` holds
   * (alternating, starting with the least significant one when it is true)
   * go through the substitution table.
   */
  function LuhnSum(otp: nat, digits: nat, doubleDigit: bool): nat
    decreases digits
  {
    if digits == 0 then 0
    else Substitute(otp % 10, doubleDigit) + LuhnSum(otp / 10, digits - 1, !doubleDigit)
  }

  /** What one digit contributes to the sum: its substitute in a doubled position, itself otherwise. */
  function Substitute(digit: nat, doubleDigit: bool): (r: nat)
    requires digit <= 9
    ensures r <= 9
  {
    if doubleDigit then ChecksumDigit(digit) else digit
  }

  /** Distinct digits contribute distinctly, since the substitution is a permutation. */
  lemma SubstituteInjective(d: nat, e: nat, doubleDigit: bool)
    requires d <= 9 && e <= 9 && d != e
    ensures Substitute(d, doubleDigit) != Substitute(e, doubleDigit)
  {
    ChecksumTableIsPermutation(d, e);
  }

  /**
   * The check digit of the low `digits` digits of `otp`: the digit that
   * brings their substituted sum to a multiple of ten.
   */
  function CheckDigit(otp: nat, digits: nat): (r: nat)
    ensures r <= 9
    ensures (LuhnSum(otp, digits, true) + r) % 10 == 0
  {
    var rest := LuhnSum(otp, digits, true) % 10;
    if rest > 0 then 10 - rest else 0
  }

  /**
   * `_checksumCalculation`: a loop over exactly `digits` digits of `otp`,
   * least significant first, substituting the 1st, 3rd, 5th ... of them.
   */
  method ChecksumCalculation(otp: int, digits: uint32) returns (result: int)
    requires otp >= 0
    ensures result == CheckDigit(otp, digits)
  {
    var doubleDigit := true;
    var total := 0;
    var rest: nat := otp;
    var left: nat := digits;
    while 0 < left
      invariant 0 <= rest && left <= digits
      invariant total + LuhnSum(rest, left, doubleDigit) == LuhnSum(otp, digits, true)
    {
      left := left - 1;
      var digit := rest % 10;
      rest := rest / 10;
      if doubleDigit {
        digit := ChecksumDigit(digit);
      }
      total := total + digit;
      doubleDigit := !doubleDigit;
    }
    result := total % 10;
    if result > 0 {
      result := 10 - result;
    }
  }

  /**
   * A value below 10^digits has a zero in position `digits`, and a zero is
   * its own substitute, so one more digit does not change the sum.
   */
  lemma {:induction false} LuhnSumLeadingZero(otp: nat, digits: nat, doubleDigit: bool)
    requires otp < Pow10(digits)
    ensures LuhnSum(otp, digits + 1, doubleDigit) == LuhnSum(otp, digits, doubleDigit)
  {
    if digits == 0 {
      assert otp == 0;
      assert LuhnSum(0, 1, doubleDigit) == ChecksumDigit(0) + LuhnSum(0, 0, !doubleDigit);
    } else {
      LuhnSumLeadingZero(otp / 10, digits - 1, !doubleDigit);
    }
  }

  /**
   * The generator asks for the check digit over digits + 1 positions of a
   * value below 10^digits; that is the check digit over `digits` positions.
   */
  lemma CheckDigitLeadingZero(otp: nat, digits: nat)
    requires otp < Pow10(digits)
    ensures CheckDigit(otp, digits + 1) == CheckDigit(otp, digits)
  {
    LuhnSumLeadingZero(otp, digits, true);
  }

  /**
   * The code with its check digit appended passes the Luhn test: summing all
   * digits + 1 digits, substituting every second digit from the right (the
   * check digit itself is not substituted), gives a multiple of ten.
   */
  lemma LuhnCodeVerifies(otp: nat, digits: nat)
    ensures LuhnSum(otp * 10 + CheckDigit(otp, digits), digits + 1, false) % 10 == 0
  {
    var code := otp * 10 + CheckDigit(otp, digits);
    assert code % 10 == CheckDigit(otp, digits) && code / 10 == otp;
  }

  /** The code with its check digit appended as a new least significant digit. */
  function AppendCheckDigit(otp: nat, digits: nat): (code: nat)
    requires otp < Pow10(digits)
    ensures code < Pow10(digits + 1)
    ensures code / 10 == otp
  {
    AppendDigit(otp, CheckDigit(otp, digits), digits);
    otp * 10 + CheckDigit(otp, digits)
  }

  /** The appended digit is the check digit, and the longer code passes the Luhn test. */
  lemma AppendCheckDigitVerifies(otp: nat, digits: nat)
    requires otp < Pow10(digits)
    ensures AppendCheckDigit(otp, digits) % 10 == CheckDigit(otp, digits)
    ensures LuhnSum(AppendCheckDigit(otp, digits), digits + 1, false) % 10 == 0
  {
    LuhnCodeVerifies(otp, digits);
    AppendDigit(otp, CheckDigit(otp, digits), digits);
  }

  /** Digit j of x, counting from the least significant digit as digit 0. */
  function DigitAt(x: nat, j: nat): (d: nat)
    ensures d <= 9
    decreases j
  {
    if j == 0 then x % 10 else DigitAt(x / 10, j - 1)
  }

  /** Two values that agree on their low n digits have the same sum over them. */
  lemma {:induction false} LuhnSumSameDigits(x: nat, y: nat, n: nat, doubleDigit: bool)
    requires forall j :: 0 <= j < n ==> DigitAt(x, j) == DigitAt(y, j)
    ensures LuhnSum(x, n, doubleDigit) == LuhnSum(y, n, doubleDigit)
  {
    if n > 0 {
      assert DigitAt(x, 0) == DigitAt(y, 0);
      forall j | 0 <= j < n - 1
        ensures DigitAt(x / 10, j) == DigitAt(y / 10, j)
      {
        assert DigitAt(x, j + 1) == DigitAt(y, j + 1);
      }
      LuhnSumSameDigits(x / 10, y / 10, n - 1, !doubleDigit);
    }
  }

  /**
   * Changing the least significant digit changes the sum modulo ten when
   * the other digits contribute the same.
   */
  lemma LuhnDetectsLowDigitError(x: nat, y: nat, n: nat, doubleDigit: bool)
    requires 0 < n
    requires x % 10 != y % 10
    requires LuhnSum(x / 10, n - 1, !doubleDigit) == LuhnSum(y / 10, n - 1, !doubleDigit)
    ensures LuhnSum(x, n, doubleDigit) % 10 != LuhnSum(y, n, doubleDigit) % 10
  {
    SubstituteInjective(x % 10, y % 10, doubleDigit);
    AddDistinctModTen(Substitute(x % 10, doubleDigit), Substitute(y % 10, doubleDigit), LuhnSum(x / 10, n - 1, !doubleDigit));
  }

  lemma AddDistinctModTen(a: int, b: int, c: nat)
    requires 0 <= a <= 9 && 0 <= b <= 9 && a != b
    ensures (a + c) % 10 != (b + c) % 10
  {
    var q, r := c / 10, c % 10;
    assert a + c == 10 * q + (a + r) && b + c == 10 * q + (b + r);
    if a + r < 10 && b + r < 10 {
      DivModUnique(a + c, 10, q, a + r);
      DivModUnique(b + c, 10, q, b + r);
    } else if a + r < 10 {
      DivModUnique(a + c, 10, q, a + r);
      DivModUnique(b + c, 10, q + 1, b + r - 10);
    } else if b + r < 10 {
      DivModUnique(a + c, 10, q + 1, a + r - 10);
      DivModUnique(b + c, 10, q, b + r);
    } else {
      DivModUnique(a + c, 10, q + 1, a + r - 10);
      DivModUnique(b + c, 10, q + 1, b + r - 10);
    }
  }

  /**
   * The check digit catches every single-digit error: two values whose low
   * n digits differ in exactly one position have different sums modulo ten.
   */
  lemma {:induction false} LuhnDetectsSingleDigitError(x: nat, y: nat, n: nat, k: nat, doubleDigit: bool)
    requires k < n
    requires DigitAt(x, k) != DigitAt(y, k)
    requires forall j :: 0 <= j < n && j != k ==> DigitAt(x, j) == DigitAt(y, j)
    ensures LuhnSum(x, n, doubleDigit) % 10 != LuhnSum(y, n, doubleDigit) % 10
  {
    DropLowDigit(x, y, n, k);
    if k == 0 {
      LuhnSumSameDigits(x / 10, y / 10, n - 1, !doubleDigit);
      LuhnDetectsLowDigitError(x, y, n, doubleDigit);
    } else {
      assert DigitAt(x, 0) == DigitAt(y, 0);
      assert DigitAt(x / 10, k - 1) != DigitAt(y / 10, k - 1);
      LuhnDetectsSingleDigitError(x / 10, y / 10, n - 1, k - 1, !doubleDigit);
      LuhnDetectsHighDigitError(x, y, n, doubleDigit);
    }
  }

  /**
   * With the same least significant digit, sums that differ modulo ten over
   * the other digits still differ once that digit is added.
   */
  lemma LuhnDetectsHighDigitError(x: nat, y: nat, n: nat, doubleDigit: bool)
    requires 0 < n
    requires x % 10 == y % 10
    requires LuhnSum(x / 10, n - 1, !doubleDigit) % 10 != LuhnSum(y / 10, n - 1, !doubleDigit) % 10
    ensures LuhnSum(x, n, doubleDigit) % 10 != LuhnSum(y, n, doubleDigit) % 10
  {
    AddDistinctModTenGeneral(LuhnSum(x / 10, n - 1, !doubleDigit), LuhnSum(y / 10, n - 1, !doubleDigit),
                             Substitute(x % 10, doubleDigit));
  }

  /** Dropping the least significant digit of both values shifts the positions where they agree. */
  lemma DropLowDigit(x: nat, y: nat, n: nat, k: int)
    requires forall j :: 0 <= j < n && j != k ==> DigitAt(x, j) == DigitAt(y, j)
    ensures forall j :: 0 <= j < n - 1 && j != k - 1 ==> DigitAt(x / 10, j) == DigitAt(y / 10, j)
  {
    forall j | 0 <= j < n - 1 && j != k - 1
      ensures DigitAt(x / 10, j) == DigitAt(y / 10, j)
    {
      assert DigitAt(x, j + 1) == DigitAt(y, j + 1);
    }
  }

  /** Adding the same amount keeps two values apart modulo ten. */
  lemma AddDistinctModTenGeneral(u: nat, v: nat, c: nat)
    requires u % 10 != v % 10
    ensures (u + c) % 10 != (v + c) % 10
  {
    AddDistinctModTen(u % 10, v % 10, c);
    DivModUnique(u + c, 10, u / 10 + (u % 10 + c) / 10, (u % 10 + c) % 10);
    DivModUnique(v + c, 10, v / 10 + (v % 10 + c) / 10, (v % 10 + c) % 10);
  }
}
