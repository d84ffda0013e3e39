/** Decimal numbers as text: fixed width, zero padded. */
module Digits {
  import opened TextOrder

  function Pow10(w: nat): (p: nat)
    ensures p >= 1
  {
    if w == 0 then 1 else 10 * Pow10(w - 1)
  }

  predicate IsDigit(c: char) {
    '0' <= c <= '9'
  }

  function DigitChar(d: nat): (c: char)
    requires d < 10
    ensures IsDigit(c) && DigitValue(c) == d
  {
    ('0' as int + d) as char
  }

  function DigitValue(c: char): (d: nat)
    requires IsDigit(c)
    ensures d < 10
  {
    c as int - '0' as int
  }

  /** n in exactly w digits. */
  function Fixed(n: nat, w: nat): (s: string)
    requires n < Pow10(w)
    ensures |s| == w && AllDigits(s)
  {
    if w == 0 then [] else Fixed(n / 10, w - 1) + [DigitChar(n % 10)]
  }

  predicate AllDigits(s: string) {
    forall i :: 0 <= i < |s| ==> IsDigit(s[i])
  }

  function Number(s: string): nat
    requires AllDigits(s)
  {
    if s == [] then 0 else 10 * Number(s[..|s| - 1]) + DigitValue(s[|s| - 1])
  }

  lemma {:induction false} NumberOfFixed(n: nat, w: nat)
    requires n < Pow10(w)
    ensures Number(Fixed(n, w)) == n
  {
    if w > 0 {
      NumberOfFixed(n / 10, w - 1);
      assert Fixed(n, w)[..w - 1] == Fixed(n / 10, w - 1);
    }
  }

  lemma {:induction false} FixedOfNumber(s: string)
    requires AllDigits(s)
    ensures Number(s) < Pow10(|s|)
    ensures Fixed(Number(s), |s|) == s
  {
    if s != [] {
      var front, last := s[..|s| - 1], s[|s| - 1];
      FixedOfNumber(front);
      assert Number(s) == 10 * Number(front) + DigitValue(last);
      assert Number(s) / 10 == Number(front) && Number(s) % 10 == DigitValue(last);
      assert s == front + [last];
    }
  }

  /** Padding to one width makes text order numeric order. */
  lemma {:induction false} FixedOrder(m: nat, n: nat, w: nat)
    requires m < Pow10(w) && n < Pow10(w)
    ensures Less(Fixed(m, w), Fixed(n, w)) <==> m < n
    ensures Fixed(m, w) == Fixed(n, w) <==> m == n
  {
    if w > 0 {
      FixedOrder(m / 10, n / 10, w - 1);
      LessByPrefix(Fixed(m / 10, w - 1), Fixed(n / 10, w - 1), [DigitChar(m % 10)], [DigitChar(n % 10)]);
      assert Less([DigitChar(m % 10)], [DigitChar(n % 10)]) <==> m % 10 < n % 10;
      NumberOfFixed(m, w);
      NumberOfFixed(n, w);
    }
  }
}
