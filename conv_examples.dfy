/** The accessor cases of bps/conv_test.go, stated as lemmas and as one
    method that walks BaseUnit through every unit. */
module ConvExamples {
  import opened Rationals
  import opened Units
  import opened Wrappers
  import opened Bps
  import opened Config

  function Ppb(n: int): BPS
  {
    NewFromPPB(Some(n))
  }

  /** Amounts rounds down: 1,999,999,999 ppb is still 1 amount. */
  lemma AmountsCases()
    ensures Amounts(Ppb(1_000_000_000)) == 1
    ensures Amounts(Ppb(1_999_999_999)) == 1
    ensures Amounts(Ppb(2_000_000_000)) == 2
    ensures Amounts(Ppb(999_999_999)) == 0
  {
  }

  lemma PercentagesCases()
    ensures Percentages(Ppb(1_000_000_000)) == 100
    ensures Percentages(Ppb(1_009_999_999)) == 100
    ensures Percentages(Ppb(1_010_000_000)) == 101
    ensures Percentages(Ppb(10_000_000)) == 1
    ensures Percentages(Ppb(999_999)) == 0
  {
  }

  lemma BasisPointsCases()
    ensures BasisPoints(Ppb(1_000_000_000)) == 10_000
    ensures BasisPoints(Ppb(1_000_099_999)) == 10_000
    ensures BasisPoints(Ppb(1_000_100_000)) == 10_001
    ensures BasisPoints(Ppb(99_999)) == 0
  {
  }

  lemma HalfBasisPointsCases()
    ensures HalfBasisPoints(Ppb(1_000_000_000)) == 20_000
    ensures HalfBasisPoints(Ppb(1_000_049_999)) == 20_000
    ensures HalfBasisPoints(Ppb(1_000_050_000)) == 20_001
    ensures HalfBasisPoints(Ppb(49_999)) == 0
  {
  }

  lemma DeciBasisPointsCases()
    ensures DeciBasisPoints(Ppb(1_000_000_000)) == 100_000
    ensures DeciBasisPoints(Ppb(1_000_009_999)) == 100_000
    ensures DeciBasisPoints(Ppb(1_000_010_000)) == 100_001
    ensures DeciBasisPoints(Ppb(9_999)) == 0
  {
  }

  lemma PPMsCases()
    ensures PPMs(Ppb(1_000_000)) == 1_000
    ensures PPMs(Ppb(1_000)) == 1
    ensures PPMs(Ppb(1_999)) == 1
    ensures PPMs(Ppb(2_001)) == 2
    ensures PPMs(Ppb(999)) == 0
  {
  }

  /** PPBs gives back what NewFromPPB was given, and nil reads as 0. */
  lemma PPBsCases()
    ensures PPBs(Ppb(1_000)) == 1_000
    ensures PPBs(Ppb(1)) == 1
    ensures PPBs(Ppb(5)) == 5
    ensures PPBs(NewFromPPB(None)) == 0
  {
  }

  /** PPBs inverts NewFromPPB for every count, not only the tabled ones. */
  lemma PPBsInvertsNewFromPPB(n: int)
    ensures PPBs(NewFromPPB(Some(n))) == n
  {
    ScaledRoundTrip(n, Scale(PPB));
  }

  /** Rat yields the exact value, and, being in lowest terms, the very
      fraction the table compares against (5 bp is 1/2000, not 5/10000). */
  lemma RatCases()
    ensures Rat(Ppb(10)) == Fraction(1, 100_000_000)
    ensures Rat(NewFromPPM(Some(10))) == Fraction(1, 100_000)
    ensures Rat(NewFromDeciBasisPoint(8)) == Fraction(1, 12_500)
    ensures Value(Rat(NewFromDeciBasisPoint(8))) == 8.0 / 100_000.0
    ensures Value(Rat(NewFromBasisPoint(5))) == 5.0 / 10_000.0
    ensures Rat(NewFromBasisPoint(5)) == Fraction(1, 2_000)
    ensures Rat(NewFromPercentage(20)) == Fraction(1, 5)
    ensures Rat(NewFromAmount(3)) == Fraction(3, 1)
    ensures Rat(ZERO) == Fraction(0, 1)
  {
    ReducedUnique(Rat(Ppb(10)), Fraction(1, 100_000_000));
    ReducedUnique(Rat(NewFromPPM(Some(10))), Fraction(1, 100_000));
    ReducedUnique(Rat(NewFromDeciBasisPoint(8)), Fraction(1, 12_500));
    ReducedUnique(Rat(NewFromBasisPoint(5)), Fraction(1, 2_000));
    ReducedUnique(Rat(NewFromPercentage(20)), Fraction(1, 5));
    ReducedUnique(Rat(NewFromAmount(3)), Fraction(3, 1));
  }

  /** One amount divided by 4 is exactly a quarter; divided by 3 it reads
      as 333,333,333 ppb. */
  lemma DivCases()
    ensures Exact(Div(NewFromAmount(1), 4)) == 0.25
    ensures Div(NewFromAmount(1), 4) == NewFromPercentage(25)
    ensures PPBs(Div(NewFromAmount(1), 3)) == 333_333_333
  {
    ReducedUnique(Div(NewFromAmount(1), 4).value, NewFromPercentage(25).value);
  }

  /** n% read in a unit u is n * (Scale(u) / 100) units, for every unit. */
  lemma PercentagesInUnit(n: int, u: Unit)
    ensures Floored(NewFromPercentage(n), Scale(u)) == n * (Scale(u) / 100)
  {
    var k := Scale(u) / 100;
    assert 100 * k == Scale(u);
    ScaledCancel(n, 100, k);
    ScaledRoundTrip(n * k, Scale(u));
  }

  /** Reads 15% under each BaseUnit in turn, the way ExampleBPS_BaseUnitAmounts
      does, and puts BaseUnit back afterwards. */
  method ExampleBaseUnitAmounts() returns (out: seq<int>)
    ensures out == [15_000, 150_000_000, 150_000, 3_000, 1_500, 15]
  {
    var settings := new Settings();
    var saved := settings.baseUnit;
    var b := NewFromPercentage(15);
    forall u: Unit {
      PercentagesInUnit(15, u);
    }
    out := [settings.BaseUnitAmounts(b)];
    settings.baseUnit := PPB;
    out := out + [settings.BaseUnitAmounts(b)];
    settings.baseUnit := PPM;
    out := out + [settings.BaseUnitAmounts(b)];
    settings.baseUnit := HalfBasisPoint;
    out := out + [settings.BaseUnitAmounts(b)];
    settings.baseUnit := BasisPoint;
    out := out + [settings.BaseUnitAmounts(b)];
    settings.baseUnit := Percentage;
    out := out + [settings.BaseUnitAmounts(b)];
    settings.baseUnit := saved;
  }
}
