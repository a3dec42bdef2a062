/**
 * Decimal text as the generator prints it with `snprintf(.., "%.*ld", p, v)`:
 * the digits of a non-negative value, left-padded with zeros to at least p
 * characters. The C library routine itself is not part of this model; this
 * is the rendering it performs for non-negative values.
 */
module Decimal {
  import opened Numeric

  predicate IsDigit(c: char) {
    '0' <= c <= '9'
  }

  predicate IsDecimal(s: seq<char>) {
    forall i :: 0 <= i < |s| ==> IsDigit(s[i])
  }

  function DigitChar(d: nat): (c: char)
    requires d < 10
    ensures IsDigit(c) && c as int - '0' as int == d
  {
    (48 + d) as char
  }

  /** The value of a string of decimal digits, most significant first. */
  function DecimalValue(s: seq<char>): nat
    requires IsDecimal(s)
  {
    if s == [] then 0 else DecimalValue(s[..|s| - 1]) * 10 + (s[|s| - 1] as int - '0' as int)
  }

  /**
   * `"%.*ld"` with precision p applied to v >= 0: every digit of v, and at
   * least p characters, zero-padded on the left (with precision 0 the value
   * 0 prints as nothing).
   */
  function Render(v: nat, p: nat): (s: seq<char>)
    ensures IsDecimal(s) && |s| >= p
    decreases v, p
  {
    if v == 0 && p == 0 then []
    else Render(v / 10, if p == 0 then 0 else p - 1) + [DigitChar(v % 10)]
  }

  /** When v fits in p digits the rendering has exactly p characters. */
  lemma {:induction false} RenderLength(v: nat, p: nat)
    requires v < Pow10(p)
    ensures |Render(v, p)| == p
    decreases v, p
  {
    if !(v == 0 && p == 0) {
      RenderLength(v / 10, p - 1);
    }
  }

  /** Reading the rendering back gives the value printed. */
  lemma {:induction false} RenderValue(v: nat, p: nat)
    ensures DecimalValue(Render(v, p)) == v
    decreases v, p
  {
    if !(v == 0 && p == 0) {
      var s := Render(v, p);
      assert s[..|s| - 1] == Render(v / 10, if p == 0 then 0 else p - 1);
      RenderValue(v / 10, if p == 0 then 0 else p - 1);
    }
  }
}
