/**
 Greatest common divisor by Euclid's algorithm, with the facts `reduce` needs:
 the gcd divides both arguments, every common divisor divides it, dividing by it
 leaves coprime parts, and (Gauss) a number coprime to p that divides p * s
 divides s.
 */
module Divisibility {

  /** `d` is a positive divisor of `x`. */
  predicate Divides(d: int, x: int) {
    d > 0 && x % d == 0
  }

  /** Euclid's algorithm on non-negative integers; Gcd(0, 0) is 0. */
  function Gcd(a: nat, b: nat): (g: nat)
    ensures a > 0 || b > 0 ==> Divides(g, a) && Divides(g, b)
    ensures g == 0 <==> a == 0 && b == 0
    decreases b
  {
    if b == 0 then
      a
    else
      var g := Gcd(b, a % b);
      ModAsCombination(a, b);
      DividesCombination(g, b, a % b, a / b);
      g
  }

  lemma MulNonNegative(x: int, y: int)
    requires x >= 0 && y >= 0
    ensures x * y >= 0
  {
  }

  lemma MulGrows(x: int, y: int)
    requires x > 0 && y > 1
    ensures x * y > x
  {
    MulNonNegative(x, y - 2);
  }

  /** Quotient and remainder bounds of a non-negative dividend. */
  lemma NatDivBounds(a: nat, b: int)
    requires b > 0
    ensures 0 <= a - (a / b) * b < b
    ensures 0 <= a / b <= a
  {
    var q, r := a / b, a % b;
    assert a == q * b + r && 0 <= r < b;
    MulNonNegative(q, b - 1);
    assert q * (b - 1) == q * b - q;
  }

  /** A positive factor cancels from both sides of an equation. */
  lemma MulCancel(k: int, a: int, b: int)
    requires k > 0 && a * k == b * k
    ensures a == b
  {
    if a < b {
      MulNonNegative(b - a - 1, k);
    } else if a > b {
      MulNonNegative(a - b - 1, k);
    }
  }

  /** Euclidean remainders are unique. */
  lemma ModUnique(x: int, m: int, q: int, r: int)
    requires m > 0 && 0 <= r < m && x == q * m + r
    ensures x % m == r && x / m == q
  {
    var q', r' := x / m, x % m;
    assert (q - q') * m == r' - r;
    if q - q' >= 1 {
      MulNonNegative(q - q' - 1, m);
    } else if q' - q >= 1 {
      MulNonNegative(q' - q - 1, m);
    }
  }

  lemma ModAsCombination(a: int, b: int)
    requires b > 0
    ensures a % b == a - (a / b) * b
  {
  }

  /** A multiple of `d` leaves no remainder. */
  lemma MultipleDivides(d: int, k: int)
    requires d > 0
    ensures Divides(d, d * k)
  {
    ModUnique(d * k, d, k, 0);
  }

  /** The quotient of an exact division times the divisor is the dividend. */
  lemma DividesQuotient(d: int, x: int)
    requires Divides(d, x)
    ensures x == d * (x / d)
  {
  }

  /** A common divisor of x and y divides y - k * x. */
  lemma DividesCombination(d: int, x: int, y: int, k: int)
    requires Divides(d, x) && Divides(d, y)
    ensures Divides(d, y + k * x)
  {
    var i, j := x / d, y / d;
    DividesQuotient(d, x);
    DividesQuotient(d, y);
    assert y + k * x == d * (j + k * i) by {
      assert k * x == d * (k * i);
    }
    MultipleDivides(d, j + k * i);
  }

  /** If d divides x and e divides x / d, then d * e divides x. */
  lemma DividesProduct(d: int, e: int, x: int)
    requires Divides(d, x) && Divides(e, x / d)
    ensures Divides(d * e, x)
  {
    DividesQuotient(d, x);
    DividesQuotient(e, x / d);
    var k := (x / d) / e;
    assert x == (d * e) * k;
    MulNonNegative(d - 1, e);
    MultipleDivides(d * e, k);
  }

  /** A positive number has no positive divisor larger than itself. */
  lemma DivisorAtMost(d: int, x: int)
    requires Divides(d, x) && x > 0
    ensures d <= x
  {
    if d > x {
      ModUnique(x, d, 0, x);
    }
  }

  /** Every common divisor of a and b divides their gcd. */
  lemma {:induction false} GcdGreatest(a: nat, b: nat, d: int)
    requires Divides(d, a) && Divides(d, b)
    ensures Divides(d, Gcd(a, b))
    decreases b
  {
    if b != 0 {
      var q, r := a / b, a % b;
      ModAsCombination(a, b);
      assert r == a + (-q) * b;
      DividesCombination(d, b, a, -q);
      GcdGreatest(b, r, d);
      assert Gcd(a, b) == Gcd(b, r);
    }
  }

  /** Dividing both arguments by their gcd leaves coprime parts. */
  lemma DivideByGcdCoprime(a: nat, b: nat)
    requires b > 0
    ensures Gcd(a / Gcd(a, b), b / Gcd(a, b)) == 1
  {
    var g := Gcd(a, b);
    DividesQuotient(g, b);
    var a', b' := a / g, b / g;
    assert b' > 0 by {
      if b' <= 0 {
        MulNonNegative(g, -b');
      }
    }
    var h := Gcd(a', b');
    DividesProduct(g, h, a);
    DividesProduct(g, h, b);
    GcdGreatest(a, b, g * h);
    DivisorAtMost(g * h, g);
    if h > 1 {
      MulGrows(g, h);
    }
  }

  /** Scaling both arguments scales the gcd. */
  lemma {:induction false} GcdScale(k: nat, a: nat, b: nat)
    requires k > 0
    ensures Gcd(k * a, k * b) == k * Gcd(a, b)
    decreases b
  {
    MulNonNegative(k, a);
    MulNonNegative(k, b);
    if b == 0 {
      assert k * b == 0;
    } else {
      MulNonNegative(k, b - 1);
      assert k * b == k * (b - 1) + k;
      var q, r := a / b, a % b;
      assert k * a == q * (k * b) + k * r by {
        assert a == q * b + r;
      }
      MulNonNegative(k, r);
      MulNonNegative(k, b - r - 1);
      assert k * b - k * r == k * (b - r - 1) + k;
      ModUnique(k * a, k * b, q, k * r);
      GcdScale(k, b, r);
    }
  }

  /** Gauss's lemma: if q is coprime to p and divides p * s, it divides s. */
  lemma CoprimeDividesFactor(p: nat, q: nat, s: nat)
    requires q > 0 && s > 0 && Gcd(p, q) == 1
    requires Divides(q, p * s)
    ensures Divides(q, s)
  {
    var ps: nat, qs: nat := p * s, q * s;
    assert s * p == ps && s * q == qs;
    GcdScale(s, p, q);
    assert Gcd(ps, qs) == s;
    MultipleDivides(q, s);
    assert Divides(q, qs);
    GcdGreatest(ps, qs, q);
  }
}
