/** The BPS value type: an exact, immutable quantity measured in amounts,
    where 1 amount = 100% = 10,000 basis points = 20,000 half basis points
    = 100,000 deci basis points = 10^6 ppm = 10^9 ppb. */
module Bps {
  import opened NumberTheory
  import opened Rationals
  import opened Units
  import opened Wrappers

  /** A quantity of amounts, held as a fraction in lowest terms so that two
      values are equal exactly when their representations are. */
  datatype BPS = BPS(value: Canonical)

  /** The Go zero value `BPS{}`, which every operation reads as 0. */
  const ZERO: BPS := BPS(Fraction(0, 1))

  /** The exact number of amounts b stands for. */
  function Exact(b: BPS): real
  {
    Value(b.value)
  }

  // Construction

  /** n units of a scale with `scale` units per amount. */
  function NewFromScaled(n: int, scale: Pos): (r: BPS)
    ensures Exact(r) == n as real / scale as real
  {
    BPS(Normalize(n, scale))
  }

  function NewFromAmount(n: int): (r: BPS)
    ensures Exact(r) == n as real
  {
    NewFromScaled(n, 1)
  }

  function NewFromPercentage(n: int): (r: BPS)
    ensures Exact(r) == n as real / 100.0
  {
    NewFromScaled(n, Scale(Percentage))
  }

  function NewFromBasisPoint(n: int): (r: BPS)
    ensures Exact(r) == n as real / 10_000.0
  {
    NewFromScaled(n, Scale(BasisPoint))
  }

  function NewFromDeciBasisPoint(n: int): (r: BPS)
    ensures Exact(r) == n as real / 100_000.0
  {
    NewFromScaled(n, Scale(DeciBasisPoint))
  }

  /** A nil big integer (None) is read as zero. */
  function NewFromPPM(n: Option<int>): (r: BPS)
    ensures n.None? ==> r == ZERO
    ensures n.Some? ==> Exact(r) == n.value as real / 1_000_000.0
  {
    match n
    case None => ZERO
    case Some(k) => NewFromScaled(k, Scale(PPM))
  }

  /** A nil big integer (None) is read as zero. */
  function NewFromPPB(n: Option<int>): (r: BPS)
    ensures n.None? ==> r == ZERO
    ensures n.Some? ==> Exact(r) == n.value as real / 1_000_000_000.0
  {
    match n
    case None => ZERO
    case Some(k) => NewFromScaled(k, Scale(PPB))
  }

  // Accessors: each reports how many whole units b holds, rounding down

  function Floored(b: BPS, scale: Pos): (r: int)
    ensures r == (Exact(b) * scale as real).Floor
  {
    var m := b.value.num * scale;
    FloorOfQuotient(m, b.value.den);
    ScaleQuotient(b.value.num, b.value.den, scale);
    m / b.value.den
  }

  function Amounts(b: BPS): (r: int)
    ensures r == Exact(b).Floor
  {
    Floored(b, 1)
  }

  function Percentages(b: BPS): (r: int)
    ensures r == (Exact(b) * 100.0).Floor
  {
    Floored(b, Scale(Percentage))
  }

  function BasisPoints(b: BPS): (r: int)
    ensures r == (Exact(b) * 10_000.0).Floor
  {
    Floored(b, Scale(BasisPoint))
  }

  function HalfBasisPoints(b: BPS): (r: int)
    ensures r == (Exact(b) * 20_000.0).Floor
  {
    Floored(b, Scale(HalfBasisPoint))
  }

  function DeciBasisPoints(b: BPS): (r: int)
    ensures r == (Exact(b) * 100_000.0).Floor
  {
    Floored(b, Scale(DeciBasisPoint))
  }

  function PPMs(b: BPS): (r: int)
    ensures r == (Exact(b) * 1_000_000.0).Floor
  {
    Floored(b, Scale(PPM))
  }

  function PPBs(b: BPS): (r: int)
    ensures r == (Exact(b) * 1_000_000_000.0).Floor
  {
    Floored(b, Scale(PPB))
  }

  /** The exact rational, in lowest terms. */
  function Rat(b: BPS): (r: Fraction)
    ensures Reduced(r) && Value(r) == Exact(b)
  {
    b.value
  }

  // Arithmetic

  function Add(a: BPS, b: BPS): (r: BPS)
    ensures Exact(r) == Exact(a) + Exact(b)
  {
    var x, y := a.value, b.value;
    SumOfQuotients(x.num, x.den, y.num, y.den);
    BPS(Normalize(x.num * y.den + y.num * x.den, x.den * y.den))
  }

  /** Exact division by a non-zero integer; the model leaves division by
      zero out. */
  function Div(b: BPS, n: int): (r: BPS)
    requires n != 0
    ensures Exact(r) == Exact(b) / n as real
  {
    var x := b.value;
    var num, den := if n > 0 then x.num else -x.num, x.den * Abs(n);
    assert num as real / den as real == Exact(b) / n as real by {
      DivideQuotient(x.num, x.den, n);
    }
    BPS(Normalize(num, den))
  }

  /** Compares the two values by cross-multiplication. */
  function Equal(a: BPS, b: BPS): (r: bool)
    ensures r <==> Exact(a) == Exact(b)
    ensures r <==> a == b
  {
    CrossMultiply(a.value.num, a.value.den, b.value.num, b.value.den);
    assert Exact(a) == Exact(b) ==> a == b by {
      if Exact(a) == Exact(b) {
        ReducedUnique(a.value, b.value);
      }
    }
    a.value.num * b.value.den == b.value.num * a.value.den
  }

  // Properties

  /** Reading a value back in the unit it was built from gives the count back. */
  lemma ScaledRoundTrip(n: int, scale: Pos)
    ensures Floored(NewFromScaled(n, scale), scale) == n
  {
    var f := NewFromScaled(n, scale).value;
    CrossMultiply(f.num, f.den, n, scale);
    assert f.num * scale == f.den * n;
    MultipleMod(f.den, n);
  }

  /** An accessor is the largest count whose value does not exceed b:
      n units fit in b exactly when n is at most what the accessor reports. */
  lemma FlooredIsLargestFit(b: BPS, scale: Pos, n: int)
    ensures n <= Floored(b, scale) <==> Exact(NewFromScaled(n, scale)) <= Exact(b)
  {
    var num, d := b.value.num, b.value.den;
    var m := num * scale;
    var q := Floored(b, scale);
    assert n <= q <==> n * d <= m by {
      assert q == m / d;
      assert d * q <= m < d * q + d;
      ProductBounds(d, q - n);
      ProductBounds(d, n - q);
      assert d * (q - n) == d * q - n * d;
      assert d * (n - q) == n * d - d * q;
    }
    assert Exact(NewFromScaled(n, scale)) <= Exact(b) <==> n * d <= num * scale by {
      CrossMultiplyOrder(n, scale, num, d);
    }
  }

  /** Reading in a unit k times finer and dividing by k agrees with reading
      in the coarser unit: e.g. BasisPoints(b) == PPBs(b) / 100,000. */
  lemma FlooredCoarsen(b: BPS, scale: Pos, k: Pos)
    ensures Floored(b, scale * k) / k == Floored(b, scale)
  {
    var m := b.value.num * scale;
    assert b.value.num * (scale * k) == m * k;
    NestedDivision(m, b.value.den, k);
  }

  /** Addition does not depend on operand order. */
  lemma AddCommutative(a: BPS, b: BPS)
    ensures Add(a, b) == Add(b, a)
  {
    ReducedUnique(Add(a, b).value, Add(b, a).value);
  }

  /** Repeated addition does not depend on grouping. */
  lemma AddAssociative(a: BPS, b: BPS, c: BPS)
    ensures Add(Add(a, b), c) == Add(a, Add(b, c))
  {
    ReducedUnique(Add(Add(a, b), c).value, Add(a, Add(b, c)).value);
  }

  /** The zero value is the identity of addition. */
  lemma AddZero(a: BPS)
    ensures Add(ZERO, a) == a
  {
    ReducedUnique(Add(ZERO, a).value, a.value);
  }

  /** Scaling count and scale by the same factor builds the same value:
      the scale a value was built in leaves no trace on it. */
  lemma ScaledCancel(n: int, scale: Pos, k: Pos)
    ensures NewFromScaled(n * k, scale * k) == NewFromScaled(n, scale)
  {
    CancelFactor(n, scale, k);
    assert k * n == n * k && k * scale == scale * k;
    ReducedUnique(NewFromScaled(n * k, scale * k).value, NewFromScaled(n, scale).value);
  }

  /** Every unit constructor agrees with the others on the same quantity:
      n units equals n * (10^9 / scale) ppb. */
  lemma ScaledToPPB(n: int, u: Unit)
    ensures NewFromScaled(n, Scale(u)) == NewFromPPB(Some(n * (1_000_000_000 / Scale(u))))
  {
    var s := Scale(u);
    var k := 1_000_000_000 / s;
    assert s * k == 1_000_000_000;
    ScaledCancel(n, s, k);
  }

  /** n of a unit u, read in ppb, is n * (10^9 / Scale(u)). */
  lemma PPBsOfUnit(n: int, u: Unit)
    ensures PPBs(NewFromScaled(n, Scale(u))) == n * (1_000_000_000 / Scale(u))
  {
    var k := 1_000_000_000 / Scale(u);
    ScaledToPPB(n, u);
    ScaledRoundTrip(n * k, Scale(PPB));
  }
}
