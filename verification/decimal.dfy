/** Decimal rendering of the non-negative integers the producer patches
    into the binary (`value.toString()` in `injectPlaceholder`), with the
    digit-string reading it is the inverse of. */
module Decimal {

  predicate IsDigit(c: char)
  {
    '0' <= c <= '9'
  }

  function DigitChar(d: nat): (c: char)
    requires d < 10
    ensures IsDigit(c) && c as int - '0' as int == d
  {
    ('0' as int + d) as char
  }

  /** `n.toString()`: the shortest decimal numeral of `n`. */
  function Text(n: nat): (s: string)
    ensures 1 <= |s|
    ensures forall i :: 0 <= i < |s| ==> IsDigit(s[i])
    ensures |s| > 1 ==> s[0] != '0'
  {
    if n < 10 then [DigitChar(n)] else Text(n / 10) + [DigitChar(n % 10)]
  }

  /** The number a digit string denotes (reading most significant first). */
  function Value(s: string): nat
    requires forall i :: 0 <= i < |s| ==> IsDigit(s[i])
  {
    if s == [] then 0
    else
      assert IsDigit(s[|s| - 1]);
      Value(s[..|s| - 1]) * 10 + (s[|s| - 1] as int - '0' as int)
  }

  function Pow10(k: nat): (p: nat)
    ensures p >= 1
  {
    if k == 0 then 1 else 10 * Pow10(k - 1)
  }

  /** Reading back the rendered numeral gives the number. */
  lemma {:induction false} ValueOfText(n: nat)
    ensures Value(Text(n)) == n
  {
    var s := Text(n);
    if n >= 10 {
      ValueOfText(n / 10);
      assert s[..|s| - 1] == Text(n / 10);
    }
  }

  /** A numeral fits in `k` characters exactly when the number is below
      10^k; this is what decides whether a patch value overflows its
      placeholder. */
  lemma {:induction false} TextFits(n: nat, k: nat)
    requires k >= 1
    ensures |Text(n)| <= k <==> n < Pow10(k)
  {
    if n >= 10 {
      assert |Text(n)| == |Text(n / 10)| + 1;
      if k == 1 {
        assert Pow10(1) == 10;
      } else {
        TextFits(n / 10, k - 1);
        assert n / 10 < Pow10(k - 1) <==> n < 10 * Pow10(k - 1);
      }
    } else {
      assert Pow10(k) == 10 * Pow10(k - 1);
    }
  }
}
