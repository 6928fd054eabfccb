/** Exact fractions with a positive denominator, kept in lowest terms, and
    the real-number facts that connect a fraction to the value it denotes. */
module Rationals {
  import opened NumberTheory

  type Pos = n: int | n > 0 witness 1

  /** num / den, with den > 0. */
  datatype Fraction = Fraction(num: int, den: Pos)

  function Abs(x: int): nat
  {
    if x < 0 then -x else x
  }

  /** The exact number a fraction denotes. */
  function Value(f: Fraction): real
  {
    f.num as real / f.den as real
  }

  /** Numerator and denominator share no factor other than 1. */
  predicate Reduced(f: Fraction)
  {
    Gcd(Abs(f.num), f.den) == 1
  }

  /** A fraction in lowest terms: the one representation of its value. */
  type Canonical = f: Fraction | Reduced(f) witness Fraction(0, 1)

  /** x / y is unchanged when both are multiplied by the same positive g. */
  lemma CancelFactor(x: int, y: int, g: int)
    requires y > 0 && g > 0
    ensures (g * x) as real / (g * y) as real == x as real / y as real
  {
    var v := x as real / y as real;
    assert x as real == v * y as real;
    assert (g * x) as real == g as real * x as real;
    assert (g * y) as real == g as real * y as real;
    assert (g * x) as real == v * (g * y) as real;
  }

  lemma NegateQuotient(m: int, p: int)
    requires p > 0
    ensures (-m) as real / p as real == -(m as real / p as real)
  {
  }

  /** Multiplying a / d by s is multiplying its numerator by s. */
  lemma ScaleQuotient(a: int, d: int, s: int)
    requires d > 0
    ensures (a * s) as real / d as real == (a as real / d as real) * s as real
  {
    var v := a as real / d as real;
    assert a as real == v * d as real;
    assert (a * s) as real == a as real * s as real;
  }

  /** Dividing a / b by a non-zero n puts |n| into the denominator and the sign of n into the numerator. */
  lemma DivideQuotient(a: int, b: int, n: int)
    requires b > 0 && n != 0
    ensures (if n > 0 then a else -a) as real / (b * Abs(n)) as real == (a as real / b as real) / n as real
  {
    var w := (a as real / b as real) / n as real;
    var num := if n > 0 then a else -a;
    assert w * n as real * b as real == a as real;
    assert (b * Abs(n)) as real == b as real * Abs(n) as real;
    assert num as real == w * (b * Abs(n)) as real;
  }

  /** Two fractions denote the same value exactly when they cross-multiply equal. */
  lemma CrossMultiply(a: int, b: int, c: int, d: int)
    requires b > 0 && d > 0
    ensures a as real / b as real == c as real / d as real <==> a * d == c * b
  {
    var v, w := a as real / b as real, c as real / d as real;
    assert a as real == v * b as real && c as real == w * d as real;
    assert (a * d) as real == a as real * d as real;
    assert (c * b) as real == c as real * b as real;
    assert (a * d) as real == v * (b as real * d as real);
    assert (c * b) as real == w * (b as real * d as real);
    assert b as real * d as real > 0.0;
  }

  /** The same, for order: a/b <= c/d exactly when a * d <= c * b. */
  lemma CrossMultiplyOrder(a: int, b: int, c: int, d: int)
    requires b > 0 && d > 0
    ensures a as real / b as real <= c as real / d as real <==> a * d <= c * b
  {
    var v, w := a as real / b as real, c as real / d as real;
    var bd := b as real * d as real;
    assert a as real == v * b as real && c as real == w * d as real;
    assert (a * d) as real == a as real * d as real;
    assert (c * b) as real == c as real * b as real;
    assert (a * d) as real == v * bd;
    assert (c * b) as real == w * bd;
    assert bd > 0.0;
  }

  /** Adding two quotients over the product of their denominators. */
  lemma SumOfQuotients(a: int, b: int, c: int, d: int)
    requires b > 0 && d > 0
    ensures (a * d + c * b) as real / (b * d) as real == a as real / b as real + c as real / d as real
  {
    var v, w := a as real / b as real, c as real / d as real;
    var bd := b as real * d as real;
    assert a as real == v * b as real && c as real == w * d as real;
    assert (a * d + c * b) as real == a as real * d as real + c as real * b as real;
    assert (a * d + c * b) as real == (v + w) * bd;
    assert (b * d) as real == bd;
  }

  /** Integer division by a positive divisor is the floor of the exact quotient. */
  lemma FloorOfQuotient(m: int, d: int)
    requires d > 0
    ensures m / d == (m as real / d as real).Floor
  {
    var q, r := m / d, m % d;
    assert m == q * d + r * 1;
    SumOfQuotients(q, 1, r, d);
    var x := m as real / d as real;
    assert x == q as real + r as real / d as real;
    CrossMultiplyOrder(0, 1, r, d);
    CrossMultiplyOrder(1, 1, r, d);
    assert q as real <= x < q as real + 1.0;
  }

  /** The lowest-terms fraction denoting n / d. */
  function Normalize(n: int, d: Pos): (f: Canonical)
    ensures Value(f) == n as real / d as real
  {
    var g := Gcd(Abs(n), d);
    assert g > 0 && Abs(n) % g == 0 && d % g == 0 by {
      GcdDivides(Abs(n), d);
    }
    var a, b := Abs(n) / g, d / g;
    var num := if n < 0 then -a else a;
    assert b > 0 && Abs(num) == a && Gcd(a, b) == 1 by {
      CoprimeAfterDivision(Abs(n), d);
      FactorOut(d, g);
      ProductBounds(g, b);
    }
    assert num as real / b as real == n as real / d as real by {
      FactorOut(Abs(n), g);
      FactorOut(d, g);
      assert g * num == if n < 0 then -(g * a) else g * a;
      CancelFactor(num, b, g);
    }
    Fraction(num, b)
  }

  /** Lowest terms are unique: two reduced fractions with one value are equal. */
  lemma ReducedUnique(f: Canonical, h: Canonical)
    requires Value(f) == Value(h)
    ensures f == h
  {
    CrossMultiply(f.num, f.den, h.num, h.den);
    var a, c := Abs(f.num), Abs(h.num);
    assert a * h.den == c * f.den by {
      AbsOfProducts(f.num, h.den, h.num, f.den);
    }
    DenominatorDivides(f.den, a, h.den, c);
    DenominatorDivides(h.den, c, f.den, a);
    DivisorAtMost(f.den, h.den);
    DivisorAtMost(h.den, f.den);
    assert f.num * f.den == h.num * f.den;
    MultipleMod(f.den, f.num);
    MultipleMod(f.den, h.num);
    assert f.den * f.num == f.num * f.den && f.den * h.num == h.num * f.den;
  }

  /** Equal cross products stay equal when every factor is replaced by its magnitude. */
  lemma AbsOfProducts(x: int, e: Pos, y: int, d: Pos)
    requires x * e == y * d
    ensures Abs(x) * e == Abs(y) * d
  {
    if x < 0 {
      assert -(x * e) == (-x) * e;
      assert -(y * d) == (-y) * d;
    }
  }

  /** When a * e == c * d and a is coprime to d, d divides e. */
  lemma DenominatorDivides(d: Pos, a: nat, e: Pos, c: nat)
    requires Gcd(a, d) == 1 && a * e == c * d
    ensures e % d == 0
  {
    assert (a * e) % d == 0 by {
      MultipleMod(d, c);
      assert c * d == d * c;
    }
    CoprimeDividesProduct(d, a, e);
  }
}
