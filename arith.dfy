// Integer facts shared by the byte-order and big-number models: powers,
// and the division/modulo identities that Z3 does not find on its own.
module Arith {

  function Pow(b: nat, e: nat): (r: nat)
    ensures b > 0 ==> r > 0
  {
    if e == 0 then 1 else b * Pow(b, e - 1)
  }

  const TwoTo32: nat := 0x1_0000_0000
  const TwoTo63: nat := 0x8000_0000_0000_0000
  const TwoTo64: nat := 0x1_0000_0000_0000_0000

  /** Multiplying by a non-negative factor keeps the order. */
  lemma MulLe(a: int, b: int, m: int)
    requires m >= 0 && a <= b
    ensures a * m <= b * m
  {
    assert b * m == a * m + (b - a) * m;
  }

  /** Division and remainder are determined by any decomposition x == q*m + r with 0 <= r < m. */
  lemma DivModUnique(x: int, m: int, q: int, r: int)
    requires m > 0 && 0 <= r < m && x == q * m + r
    ensures x / m == q && x % m == r
  {
    var q', r' := x / m, x % m;
    assert x == q' * m + r';
    if q' > q {
      MulLe(q + 1, q', m);
    } else if q' < q {
      MulLe(q' + 1, q, m);
    }
  }

  lemma {:induction false} PowAdd(b: nat, e1: nat, e2: nat)
    ensures Pow(b, e1 + e2) == Pow(b, e1) * Pow(b, e2)
  {
    if e1 > 0 {
      PowAdd(b, e1 - 1, e2);
      assert Pow(b, e1 + e2) == b * Pow(b, e1 - 1 + e2);
      MulAssoc(b, Pow(b, e1 - 1), Pow(b, e2));
    }
  }

  lemma MulAssoc(a: int, b: int, c: int)
    ensures a * (b * c) == (a * b) * c
  {
  }

  lemma {:induction false} PowMonotone(b: nat, e1: nat, e2: nat)
    requires b > 0 && e1 <= e2
    ensures Pow(b, e1) <= Pow(b, e2)
  {
    if e1 < e2 {
      PowMonotone(b, e1, e2 - 1);
      assert Pow(b, e2) == b * Pow(b, e2 - 1);
    }
  }

  lemma Pow256Is2To32()
    ensures Pow(256, 4) == TwoTo32
  {
    assert Pow(256, 2) == 0x1_0000;
  }

  lemma Pow256Is2To64()
    ensures Pow(256, 8) == TwoTo64 && Pow(256, 4) == TwoTo32
  {
    assert Pow(256, 1) == 256;
    assert Pow(256, 2) == 0x1_0000;
    assert Pow(256, 3) == 0x100_0000;
    assert Pow(256, 4) == 0x1_0000_0000;
    assert Pow(256, 5) == 0x100_0000_0000;
    assert Pow(256, 6) == 0x1_0000_0000_0000;
    assert Pow(256, 7) == 0x100_0000_0000_0000;
  }

  /** Eight more base-256 digits weigh 2^64 more. */
  lemma Pow256Shift8(j: nat)
    ensures Pow(256, j + 8) == TwoTo64 * Pow(256, j)
  {
    Pow256Is2To64();
    PowAdd(256, 8, j);
  }

  /** 2^64 split at byte i of a word. */
  lemma Pow256Split(i: nat)
    requires i <= 8
    ensures Pow(256, i) * Pow(256, 8 - i) == TwoTo64
  {
    Pow256Is2To64();
    PowAdd(256, i, 8 - i);
  }

  /** Eight binary digits make one base-256 digit. */
  lemma {:induction false} Pow2To8k(k: nat)
    ensures Pow(2, 8 * k) == Pow(256, k)
  {
    if k > 0 {
      Pow2To8k(k - 1);
      PowAdd(2, 8, 8 * (k - 1));
      assert Pow(2, 8) == 256;
    }
  }

  lemma Pow2To64()
    ensures Pow(2, 64) == TwoTo64
  {
    Pow256Is2To64();
    Pow2To8k(8);
  }

  lemma MulAddDistrib(t: int, x: int, p: int, y: int)
    ensures t * (x + p * y) == t * x + (t * p) * y
  {
  }

  /** A top digit decides whether low + b*hi stays below b*p. */
  lemma TopDigitBelow(low: nat, b: nat, hi: nat, p: nat)
    requires low < b && p > 0
    ensures low + b * hi < b * p <==> hi / p == 0
  {
    if hi < p {
      DivModUnique(hi, p, 0, hi);
      MulLe(hi, p - 1, b);
    } else {
      DivAtLeast(hi, p, 1);
      MulLe(p, hi, b);
    }
  }

  /** Dividing twice is dividing by the product. */
  lemma DivDiv(x: nat, a: nat, b: nat)
    requires a > 0 && b > 0
    ensures x / a / b == x / (a * b)
  {
    var q, r := x / a, x % a;
    var q2, r2 := q / b, q % b;
    assert q == q2 * b + r2;
    assert x == q * a + r;
    assert q * a == q2 * (a * b) + r2 * a by {
      assert q * a == (q2 * b + r2) * a;
    }
    MulLe(r2, b - 1, a);
    assert r2 * a + r < a * b;
    DivModUnique(x, a * b, q2, r2 * a + r);
  }

  /** Adding a multiple of m shifts the quotient and leaves the remainder. */
  lemma AddMultiple(x: int, m: int, k: int)
    requires m > 0
    ensures (x + m * k) / m == x / m + k && (x + m * k) % m == x % m
  {
    DivModUnique(x + m * k, m, x / m + k, x % m);
  }

  /** Dividing w + t*rest, with w a digit below t, by t*q drops the digit. */
  lemma HighDigits(w: nat, t: nat, rest: nat, q: nat)
    requires w < t && q > 0
    ensures (w + t * rest) / (t * q) == rest / q
  {
    DivDiv(w + t * rest, t, q);
    AddMultiple(w, t, rest);
    DivModUnique(w, t, 0, w);
  }

  lemma MulSub(a: int, b: int, c: int)
    ensures a * (b - c) == a * b - a * c
  {
  }

  /** A product of three factors, regrouped around a fourth. */
  lemma MulRegroup(t: int, p: int, m: int, c: int, k: int)
    requires t == p * (m * c)
    ensures t * k == p * (m * (c * k))
  {
  }

  /** Adding a multiple of p*m leaves digit x/p modulo m unchanged. */
  lemma DigitOfSum(x: int, p: int, m: int, k: int)
    requires p > 0 && m > 0
    ensures ((x + p * (m * k)) / p) % m == (x / p) % m
  {
    AddMultiple(x, p, m * k);
    AddMultiple(x / p, m, k);
  }

  /** A value below m*p has a quotient by m below p. */
  lemma DivBelow(x: nat, m: nat, p: nat)
    requires m > 0 && x < m * p
    ensures x / m < p
  {
  }

  /** A value at least m*p has a quotient by m at least p. */
  lemma DivAtLeast(x: nat, m: nat, p: nat)
    requires m > 0 && x >= m * p
    ensures x / m >= p
  {
    var q := x / m;
    assert x == q * m + x % m;
    if q < p {
      MulLe(q + 1, p, m);
    }
  }
}
