/** Arithmetic that several modules need. */
module Arithmetic {

  /** A register, byte or word as the set of the numbers of its bits that are set. */
  type bits = set<nat>

  function Min(a: nat, b: nat): nat { if a < b then a else b }

  function Power2(n: nat): (p: nat)
    ensures p > 0
  {
    if n == 0 then 1 else 2 * Power2(n - 1)
  }

  /** Binary digit `i` of a number is 1: halved `i` times the number is odd. */
  predicate Digit(x: nat, i: nat) {
    if i == 0 then x % 2 == 1 else Digit(x / 2, i - 1)
  }

  /** The digits of two fields that are joined into one number. */
  lemma {:induction false} DigitsJoined(low: nat, n: nat, high: nat, i: nat)
    requires low < Power2(n)
    ensures Digit(low + high * Power2(n), i) <==> if i < n then Digit(low, i) else Digit(high, i - n)
    decreases n
  {
    if n == 0 {
    } else {
      var rest := high * Power2(n - 1);
      assert high * Power2(n) == 2 * rest;
      assert (low + 2 * rest) / 2 == low / 2 + rest;
      if i > 0 {
        DigitsJoined(low / 2, n - 1, high, i - 1);
      }
    }
  }

  /** A number of `n` digits all of which are 1. */
  lemma {:induction false} DigitsOfOnes(n: nat, i: nat)
    ensures Digit(Power2(n) - 1, i) <==> i < n
    decreases i
  {
    if i == 0 {
    } else if n == 0 {
      DigitsOfOnes(0, i - 1);
    } else {
      assert (Power2(n) - 1) / 2 == Power2(n - 1) - 1;
      DigitsOfOnes(n - 1, i - 1);
    }
  }

  lemma MultipleBound(n: int, d: int)
    requires n > 0
    ensures d >= 1 ==> n * d >= n
    ensures d <= -1 ==> n * d <= -n
  {
  }

  /** Two fields joined into one number. */
  lemma Fields(low: int, n: int, high: int)
    requires 0 <= low < n
    ensures (low + high * n) % n == low && (low + high * n) / n == high
  {
    var q := (low + high * n) / n;
    assert low + high * n == q * n + (low + high * n) % n;
    assert n * (q - high) == low - (low + high * n) % n;
    MultipleBound(n, q - high);
  }

  lemma HalvedQuotient(x: nat, q: nat)
    requires q > 0
    ensures x / (2 * q) == x / 2 / q
  {
    var a, b := x / 2 / q, x / 2 % q;
    assert x / 2 == q * a + b;
    assert x == (2 * b + x % 2) + a * (2 * q) by {
      assert 2 * (q * a) == a * (2 * q);
    }
    Fields(2 * b + x % 2, 2 * q, a);
  }

  /** A binary digit as a quotient. */
  lemma {:induction false} DigitIsQuotient(x: nat, i: nat)
    ensures Digit(x, i) <==> x / Power2(i) % 2 == 1
  {
    if i == 0 {
      assert Power2(0) == 1;
    } else {
      HalvedQuotient(x, Power2(i - 1));
      DigitIsQuotient(x / 2, i - 1);
    }
  }
}
