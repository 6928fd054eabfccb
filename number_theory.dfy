/** Integer facts behind lowest-terms fractions: Euclid's greatest common
    divisor and the uniqueness of quotient and remainder. */
module NumberTheory {

  /** Greatest common divisor, computed by Euclid's algorithm. */
  function Gcd(a: nat, b: nat): nat
    decreases b
  {
    if b == 0 then a else Gcd(b, a % b)
  }

  /** Quotient and remainder are unique: any decomposition x == d * q + r
      with 0 <= r < d is the one Dafny's / and % give. */
  lemma DivModUnique(x: int, d: int, q: int, r: int)
    requires d > 0 && 0 <= r < d && x == d * q + r
    ensures x / d == q && x % d == r
  {
    var q', r' := x / d, x % d;
    assert x == d * q' + r';
    assert d * (q - q') == r' - r;
    ProductBounds(d, q - q');
  }

  /** A positive factor d keeps a non-zero integer t at least d away from zero. */
  lemma ProductBounds(d: int, t: int)
    requires d > 0
    ensures t >= 1 ==> d * t >= d
    ensures t <= -1 ==> d * t <= -d
    ensures t == 0 ==> d * t == 0
  {
    if t >= 1 {
      assert d * t == d * (t - 1) + d;
    } else if t <= -1 {
      assert d * t == -(d * (-t - 1)) - d;
    }
  }

  lemma MultipleMod(d: int, k: int)
    requires d > 0
    ensures (d * k) % d == 0 && (d * k) / d == k
  {
    DivModUnique(d * k, d, k, 0);
  }

  /** A positive number is at least as large as each of its divisors. */
  lemma DivisorAtMost(d: int, n: int)
    requires d > 0 && n > 0 && n % d == 0
    ensures d <= n
  {
    var k := n / d;
    assert n == d * k;
    ProductBounds(d, k);
  }

  /** Euclid's algorithm yields a common divisor, positive unless both inputs are zero. */
  lemma {:induction false} GcdDivides(a: nat, b: nat)
    requires a > 0 || b > 0
    ensures Gcd(a, b) > 0 && a % Gcd(a, b) == 0 && b % Gcd(a, b) == 0
    decreases b
  {
    if b == 0 {
      MultipleMod(a, 1);
      MultipleMod(a, 0);
    } else {
      GcdDivides(b, a % b);
      var g, q := Gcd(b, a % b), a / b;
      var kb, kr := b / g, (a % b) / g;
      assert a == g * (kb * q + kr) by {
        FactorOut(b, g);
        FactorOut(a % b, g);
        assert a == b * q + a % b;
        Distribute(g, kb, q, kr);
      }
      MultipleMod(g, kb * q + kr);
    }
  }

  /** A multiple of g is g times its quotient by g. */
  lemma FactorOut(x: int, g: int)
    requires g > 0 && x % g == 0
    ensures x == g * (x / g)
  {
  }

  lemma Distribute(g: int, x: int, q: int, y: int)
    ensures (g * x) * q + g * y == g * (x * q + y)
  {
  }

  /** Every common divisor of a and b divides Gcd(a, b). */
  lemma {:induction false} GcdGreatest(a: nat, b: nat, c: int)
    requires c > 0 && a % c == 0 && b % c == 0
    ensures Gcd(a, b) % c == 0
    decreases b
  {
    if b != 0 {
      var ka, kb := a / c, b / c;
      assert a == c * ka && b == c * kb;
      assert a % b == a - b * (a / b);
      assert a % b == c * (ka - kb * (a / b));
      MultipleMod(c, ka - kb * (a / b));
      GcdGreatest(b, a % b, c);
    }
  }

  /** Scaling both arguments scales the greatest common divisor. */
  lemma {:induction false} GcdScale(a: nat, b: nat, k: nat)
    requires k > 0
    ensures Gcd(k * a, k * b) == k * Gcd(a, b)
    decreases b
  {
    if b != 0 {
      var q, r := a / b, a % b;
      assert k * a == (k * b) * q + k * r;
      assert 0 <= k * r < k * b;
      DivModUnique(k * a, k * b, q, k * r);
      GcdScale(b, r, k);
    }
  }

  /** Dividing out the greatest common divisor leaves coprime numbers. */
  lemma {:induction false} CoprimeAfterDivision(a: nat, b: nat)
    requires b > 0
    ensures Gcd(a, b) > 0 && a % Gcd(a, b) == 0 && b % Gcd(a, b) == 0
    ensures Gcd(a / Gcd(a, b), b / Gcd(a, b)) == 1
  {
    GcdDivides(a, b);
    var g := Gcd(a, b);
    var a', b' := a / g, b / g;
    assert a == g * a' && b == g * b';
    GcdScale(a', b', g);
    var x := Gcd(a', b');
    assert g == g * x;
    MultipleMod(g, x);
    MultipleMod(g, 1);
  }

  /** Euclid's lemma in the form used here: if d divides n * m and is
      coprime to n, then d divides m. */
  lemma {:induction false} CoprimeDividesProduct(d: nat, n: nat, m: nat)
    requires d > 0 && m > 0 && Gcd(n, d) == 1 && (n * m) % d == 0
    ensures m % d == 0
  {
    var nm: nat, dm: nat := m * n, m * d;
    assert Gcd(nm, dm) == m by {
      GcdScale(n, d, m);
    }
    assert dm % d == 0 by {
      MultipleMod(d, m);
      assert dm == d * m;
    }
    assert nm % d == 0 by {
      assert nm == n * m;
    }
    GcdGreatest(nm, dm, d);
  }

  /** Dividing m * k by d and then by k is dividing m by d. */
  lemma NestedDivision(m: int, d: int, k: int)
    requires d > 0 && k > 0
    ensures (m * k) / d / k == m / d
  {
    var p, r := m / d, m % d;
    var t, u := (r * k) / d, (r * k) % d;
    ScaledDecomposition(m, d, k, p, r, t, u);
    DivModUnique(m * k, d, p * k + t, u);
    RemainderQuotientBelow(r, d, k, t, u);
    DivModUnique(p * k + t, k, p, t);
  }

  /** Multiplying m == d * p + r by k, with r * k == d * t + u. */
  lemma ScaledDecomposition(m: int, d: int, k: int, p: int, r: int, t: int, u: int)
    requires m == d * p + r && r * k == d * t + u
    ensures m * k == d * (p * k + t) + u
  {
    assert m * k == (d * p) * k + r * k;
    assert (d * p) * k == d * (p * k);
    assert d * (p * k + t) == d * (p * k) + d * t;
  }

  /** With 0 <= r < d, the quotient of r * k by d lies in [0, k). */
  lemma RemainderQuotientBelow(r: int, d: int, k: int, t: int, u: int)
    requires 0 <= r < d && k > 0 && r * k == d * t + u && 0 <= u < d
    ensures 0 <= t < k
  {
    assert r * k < d * k by {
      ProductBounds(k, d - r);
      assert k * (d - r) == k * d - k * r;
    }
    assert r * k >= 0 by {
      ProductBounds(k, r);
    }
    ProductBounds(d, t + 1);
    ProductBounds(d, t - k);
    assert d * (t - k) == d * t - d * k;
    assert d * (t + 1) == d * t + d;
  }
}
