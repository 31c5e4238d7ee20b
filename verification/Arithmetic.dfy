/** Multiplication and division of natural numbers. */
module Arithmetic {
  const MAX_U64: nat := 0xffff_ffff_ffff_ffff

  function Power(base: nat, k: nat): (r: nat)
    ensures base > 0 ==> r > 0
  {
    if k == 0 then 1 else base * Power(base, k - 1)
  }

  lemma Associates(a: nat, b: nat, c: nat)
    ensures a * (b * c) == (a * b) * c
  {
  }

  lemma {:induction false} PowerSum(base: nat, a: nat, b: nat)
    ensures Power(base, a + b) == Power(base, a) * Power(base, b)
  {
    if a > 0 {
      PowerSum(base, a - 1, b);
      assert a + b - 1 == a - 1 + b;
      Associates(base, Power(base, a - 1), Power(base, b));
    }
  }

  lemma Monotone(a: nat, x: nat, y: nat)
    requires x <= y
    ensures a * x <= a * y
  {
  }

  lemma QuotientOf(x: nat, m: nat, q: nat, low: nat)
    requires m > 0 && x == m * q + low && low < m
    ensures x / m == q && x % m == low
  {
    var e := x / m;
    assert x == m * e + x % m;
    assert m * (e + 1) == m * e + m && m * (q + 1) == m * q + m;
    if e < q {
      Monotone(m, e + 1, q);
    } else if e > q {
      Monotone(m, q + 1, e);
    }
  }

  function Quotient(a: nat, b: nat): (q: nat)
    requires b > 0
    ensures q == a / b && q * b <= a < q * b + b
  {
    a / b
  }

  function Remainder(a: nat, b: nat): (r: nat)
    requires b > 0
    ensures r == a % b && r < b && a == Quotient(a, b) * b + r
  {
    a % b
  }

  lemma Multiple(a: nat, b: nat)
    requires b > 0
    ensures (a * b) % b == 0 && (a * b) / b == a
  {
    assert a * b == b * a + 0;
    QuotientOf(a * b, b, a, 0);
  }

  /** A product is bounded exactly when a factor is bounded by the quotient. */
  lemma ProductBound(a: nat, b: nat, limit: nat)
    requires b > 0
    ensures a * b <= limit <==> a <= limit / b
  {
    var q := Quotient(limit, b);
    assert b * (q + 1) == q * b + b && a * b == b * a && q * b == b * q;
    if a <= q {
      Monotone(b, a, q);
    } else {
      Monotone(b, q + 1, a);
    }
  }

  lemma AtLeast(a: nat, b: nat)
    requires b > 0
    ensures a <= a * b
  {
  }

  lemma Cancel(a: nat, b: nat, c: nat)
    requires c > 0
    ensures a * c == b * c <==> a == b
    ensures a * c <= b * c <==> a <= b
  {
    if a < b {
      assert (b - a) * c > 0;
      assert b * c == a * c + (b - a) * c;
    } else if b < a {
      assert (a - b) * c > 0;
      assert a * c == b * c + (a - b) * c;
    }
  }
}
