// Bitwise operators on n-bit unsigned values, defined bit by bit on
// integers, with the identities the constant-time helpers rely on.
module Bits {
  import opened Arith

  /** a & b on n-bit unsigned values. */
  function And(a: nat, b: nat, n: nat): nat
  {
    if n == 0 then 0
    else 2 * And(a / 2, b / 2, n - 1) + (if a % 2 == 1 && b % 2 == 1 then 1 else 0)
  }

  /** a | b on n-bit unsigned values. */
  function Or(a: nat, b: nat, n: nat): nat
  {
    if n == 0 then 0
    else 2 * Or(a / 2, b / 2, n - 1) + (if a % 2 == 1 || b % 2 == 1 then 1 else 0)
  }

  /** a | b fits n bits. */
  lemma {:induction false} OrBound(a: nat, b: nat, n: nat)
    ensures Or(a, b, n) < Pow(2, n)
  {
    if n > 0 {
      OrBound(a / 2, b / 2, n - 1);
    }
  }

  /** ~a on n-bit unsigned values. */
  function Not(a: nat, n: nat): (r: nat)
    requires a < Pow(2, n)
    ensures r < Pow(2, n) && a + r == Pow(2, n) - 1
  {
    Pow(2, n) - 1 - a
  }

  /** Taking a remainder modulo 2p peels off the lowest bit. */
  lemma ModDouble(a: nat, p: nat)
    requires p > 0
    ensures a % (2 * p) == 2 * ((a / 2) % p) + a % 2
  {
    var h, s := a / 2, (a / 2) % p;
    assert h == (h / p) * p + s;
    assert a == (h / p) * (2 * p) + (2 * s + a % 2);
    DivModUnique(a, 2 * p, h / p, 2 * s + a % 2);
  }

  /** ANDing with zero clears every bit. */
  lemma {:induction false} AndZero(a: nat, n: nat)
    ensures And(a, 0, n) == 0 && And(0, a, n) == 0
  {
    if n > 0 {
      AndZero(a / 2, n - 1);
    }
  }

  /** a & b == b & a. */
  lemma {:induction false} AndCommutes(a: nat, b: nat, n: nat)
    ensures And(a, b, n) == And(b, a, n)
  {
    if n > 0 {
      AndCommutes(a / 2, b / 2, n - 1);
    }
  }

  /** ANDing with a mask of k low ones keeps the k low bits, from either side. */
  lemma {:induction false} AndOnes(a: nat, k: nat, n: nat)
    requires k <= n
    ensures And(a, Pow(2, k) - 1, n) == a % Pow(2, k)
    ensures And(Pow(2, k) - 1, a, n) == a % Pow(2, k)
  {
    if k == 0 {
      AndZero(a, n);
    } else {
      var p := Pow(2, k - 1);
      AndOnes(a / 2, k - 1, n - 1);
      assert Pow(2, k) == 2 * p;
      AndOnesStep(a, p, n);
      AndCommutes(a, Pow(2, k) - 1, n);
    }
  }

  /** One more low one in the mask keeps one more low bit. */
  lemma AndOnesStep(a: nat, p: nat, n: nat)
    requires p >= 1 && n >= 1 && And(a / 2, p - 1, n - 1) == (a / 2) % p
    ensures And(a, 2 * p - 1, n) == a % (2 * p)
  {
    DivModUnique(2 * p - 1, 2, p - 1, 1);
    ModDouble(a, p);
  }

  /** ANDing with 1 keeps the lowest bit. */
  lemma AndOne(a: nat, n: nat)
    requires n >= 1
    ensures And(a, 1, n) == a % 2
  {
    AndZero(a / 2, n - 1);
  }

  /** ORing with zero keeps every bit of an n-bit value, from either side. */
  lemma {:induction false} OrZero(a: nat, n: nat)
    ensures Or(a, 0, n) == a % Pow(2, n) && Or(0, a, n) == a % Pow(2, n)
  {
    if n > 0 {
      OrZero(a / 2, n - 1);
      ModDouble(a, Pow(2, n - 1));
    }
  }
}
