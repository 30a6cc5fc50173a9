/**
 * Decimal digits: the value of a run of digits (what `int()` computes for the
 * text a date directive matched) and fixed-width zero padding (what `strftime`
 * writes for `%d`, `%m` and `%Y`).
 */
module Digits {

  predicate IsDigit(c: char) {
    '0' <= c <= '9'
  }

  function DigitValue(c: char): (v: nat)
    requires IsDigit(c)
    ensures v < 10
  {
    c as int - '0' as int
  }

  function DigitChar(v: nat): (c: char)
    requires v < 10
    ensures IsDigit(c) && DigitValue(c) == v
  {
    ('0' as int + v) as char
  }

  predicate AllDigits(t: string) {
    forall i :: 0 <= i < |t| ==> IsDigit(t[i])
  }

  /** The number a run of decimal digits denotes, most significant first. */
  function DecimalValue(t: string): nat
    requires AllDigits(t)
  {
    if t == [] then 0 else DecimalValue(t[..|t| - 1]) * 10 + DigitValue(t[|t| - 1])
  }

  function Pow10(n: nat): (p: nat)
    ensures p >= 1
  {
    if n == 0 then 1 else 10 * Pow10(n - 1)
  }

  /** The last `width` decimal digits of `v`, with leading zeros. */
  function Pad(v: nat, width: nat): string {
    if width == 0 then [] else Pad(v / 10, width - 1) + [DigitChar(v % 10)]
  }

  /** Leading blanks are skipped, as `int()` skips them. */
  function StripLeadingSpaces(t: string): (r: string)
    ensures |r| <= |t| && (r == [] || r[0] != ' ')
  {
    if |t| > 0 && t[0] == ' ' then StripLeadingSpaces(t[1..]) else t
  }

  /** Text that `int()` reads as a non-negative decimal number: at least one digit, after leading blanks. */
  predicate Numeral(t: string) {
    StripLeadingSpaces(t) != [] && AllDigits(StripLeadingSpaces(t))
  }

  function IntValue(t: string): nat
    requires Numeral(t)
  {
    DecimalValue(StripLeadingSpaces(t))
  }

  /** Padding a number that fits the width gives exactly `width` digits that denote it. */
  lemma {:induction false} PadDecimal(v: nat, width: nat)
    requires v < Pow10(width)
    ensures |Pad(v, width)| == width && AllDigits(Pad(v, width))
    ensures DecimalValue(Pad(v, width)) == v
  {
    if width > 0 {
      PadDecimal(v / 10, width - 1);
      var p := Pad(v, width);
      assert p[..|p| - 1] == Pad(v / 10, width - 1);
    }
  }

  /** Conversely, a run of digits is the padding of the number it denotes. */
  lemma {:induction false} DecimalPad(t: string)
    requires AllDigits(t)
    ensures DecimalValue(t) < Pow10(|t|) && Pad(DecimalValue(t), |t|) == t
  {
    if t != [] {
      var init := t[..|t| - 1];
      DecimalPad(init);
      var v := DecimalValue(t);
      assert v / 10 == DecimalValue(init);
      assert v % 10 == DigitValue(t[|t| - 1]);
      assert t == init + [t[|t| - 1]];
    }
  }

  lemma OneDigit(t: string)
    requires |t| == 1 && IsDigit(t[0])
    ensures DecimalValue(t) == DigitValue(t[0])
  {
    assert t[..|t| - 1] == [];
  }

  lemma TwoDigits(t: string)
    requires |t| == 2 && AllDigits(t)
    ensures DecimalValue(t) == DigitValue(t[0]) * 10 + DigitValue(t[1])
  {
    var head := t[..1];
    assert head[..0] == [] && head[0] == t[0];
    assert DecimalValue(head) == DigitValue(t[0]);
    assert t[..|t| - 1] == head;
  }
}
