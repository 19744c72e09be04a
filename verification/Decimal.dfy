/** Decimal text in ASCII. */
module Decimal {
  import opened Base

  const ZERO: byte := 0x30

  predicate IsDigit(b: byte) { 0x30 <= b <= 0x39 }

  predicate AllDigits(text: Bytes) { forall i :: 0 <= i < |text| ==> IsDigit(text[i]) }

  function Digits(n: nat): (text: Bytes)
    ensures text != [] && AllDigits(text)
  {
    if n < 10 then [ZERO + n] else Digits(n / 10) + [ZERO + n % 10]
  }

  function Value(text: Bytes): nat
    requires AllDigits(text)
  {
    if text == [] then 0 else 10 * Value(text[..|text| - 1]) + (text[|text| - 1] - ZERO)
  }

  lemma {:induction false} DigitsValue(n: nat)
    ensures Value(Digits(n)) == n
  {
    if n >= 10 {
      DigitsValue(n / 10);
      assert Digits(n)[..|Digits(n)| - 1] == Digits(n / 10);
    }
  }

  /** Exactly `w` digits, with leading zeroes. */
  function Padded(n: nat, w: nat): (text: Bytes)
    ensures |text| == w && AllDigits(text)
  {
    if w == 0 then [] else Padded(n / 10, w - 1) + [ZERO + n % 10]
  }

  function Pow10(w: nat): (p: nat)
    ensures p >= 1
  {
    if w == 0 then 1 else 10 * Pow10(w - 1)
  }

  lemma {:induction false} PaddedValue(n: nat, w: nat)
    requires n < Pow10(w)
    ensures Value(Padded(n, w)) == n
  {
    if w > 0 {
      PaddedValue(n / 10, w - 1);
      assert Padded(n, w)[..w - 1] == Padded(n / 10, w - 1);
    }
  }

  /** Text of a fixed width is the padded form of its value. */
  lemma {:induction false} ValuePadded(text: Bytes)
    requires AllDigits(text)
    ensures Value(text) < Pow10(|text|) && Padded(Value(text), |text|) == text
    decreases |text|
  {
    if text != [] {
      var shorter := text[..|text| - 1];
      ValuePadded(shorter);
      var d := text[|text| - 1] - ZERO;
      assert Value(text) / 10 == Value(shorter) && Value(text) % 10 == d;
      assert text == shorter + [text[|text| - 1]];
    }
  }
}
