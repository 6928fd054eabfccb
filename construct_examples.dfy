/** The constructor, parser and addition cases of bps/construct_test.go. */
module ConstructExamples {
  import opened Rationals
  import opened Units
  import opened Wrappers
  import opened Bps
  import opened Config
  import opened Parse

  /** Every unit constructor builds the same one amount. */
  lemma OneAmountEquality()
    ensures Equal(NewFromAmount(1), NewFromPercentage(100))
    ensures Equal(NewFromAmount(1), NewFromBasisPoint(10_000))
    ensures Equal(NewFromAmount(1), NewFromDeciBasisPoint(100_000))
    ensures Equal(NewFromAmount(1), NewFromPPM(Some(1_000_000)))
    ensures Equal(NewFromAmount(1), NewFromPPB(Some(1_000_000_000)))
  {
  }

  /** The text of a well-formed numeral parses to its signed digits over
      10^(number of fraction digits). */
  lemma ParsesScaled(s: string, n: Numeral, m: int)
    requires WellFormed(n) && Render(n) == s
    requires var magnitude := DigitsValue(n.whole) * Pow10(|n.frac|) + DigitsValue(n.frac);
      m == if n.negative then -magnitude else magnitude
    ensures NewFromString(s) == Ok(NewFromScaled(m, Pow10(|n.frac|)))
  {
    ParseRoundTrip(n);
  }

  /** Each unit constructor is NewFromScaled at that unit's scale. */
  lemma ConstructorsAreScaled(n: int)
    ensures NewFromAmount(n) == NewFromScaled(n, 1)
    ensures NewFromPercentage(n) == NewFromScaled(n, 100)
    ensures NewFromBasisPoint(n) == NewFromScaled(n, 10_000)
    ensures NewFromDeciBasisPoint(n) == NewFromScaled(n, 100_000)
    ensures NewFromPPM(Some(n)) == NewFromScaled(n, 1_000_000)
    ensures NewFromPPB(Some(n)) == NewFromScaled(n, 1_000_000_000)
  {
  }

  lemma Digits123456()
    ensures DigitsValue("123") == 123 && DigitsValue("456") == 456 && Pow10(3) == 1_000
  {
    assert "123"[..2] == "12" && "12"[..1] == "1" && "1"[..0] == "";
    assert "456"[..2] == "45" && "45"[..1] == "4" && "4"[..0] == "";
  }

  lemma Parses123p456()
    ensures NewFromString("123.456") == Ok(NewFromScaled(123_456, 1_000))
  {
    Digits123456();
    ParsesScaled("123.456", Numeral(false, "123", true, "456"), 123_456);
  }

  lemma ParsesMinus123p456()
    ensures NewFromString("-123.456") == Ok(NewFromScaled(-123_456, 1_000))
  {
    Digits123456();
    ParsesScaled("-123.456", Numeral(true, "123", true, "456"), -123_456);
  }

  lemma Parses123()
    ensures NewFromString("123") == Ok(NewFromScaled(123, 1))
  {
    Digits123456();
    ParsesScaled("123", Numeral(false, "123", false, ""), 123);
  }

  lemma AcceptsP1234()
    ensures NewFromString(".1234") == Ok(NewFromBasisPoint(1_234))
  {
    assert DigitsValue("1234") == 1_234 && Pow10(4) == 10_000 by {
      Digits123456();
      assert "1234"[..3] == "123";
    }
    ParsesScaled(".1234", Numeral(false, "", true, "1234"), 1_234);
    ConstructorsAreScaled(1_234);
  }

  lemma DigitsOfZero()
    ensures DigitsValue("0") == 0 && Pow10(1) == 10
  {
    assert "0"[..0] == "";
  }

  lemma ParsesZero()
    ensures NewFromString("0.0") == Ok(NewFromScaled(0, 10))
  {
    DigitsOfZero();
    ParsesScaled("0.0", Numeral(false, "0", true, "0"), 0);
  }

  lemma ParsesPointZero()
    ensures NewFromString(".0") == Ok(NewFromScaled(0, 10))
  {
    DigitsOfZero();
    ParsesScaled(".0", Numeral(false, "", true, "0"), 0);
  }

  lemma Accepts123p456()
    ensures NewFromString("123.456") == Ok(NewFromBasisPoint(1_234_560))
  {
    Parses123p456();
    ScaledCancel(123_456, 1_000, 10);
  }

  lemma Accepts123()
    ensures NewFromString("123") == Ok(NewFromBasisPoint(1_230_000))
  {
    Parses123();
    ScaledCancel(123, 1, 10_000);
  }

  lemma AcceptsMinus123p456()
    ensures NewFromString("-123.456") == Ok(NewFromBasisPoint(-1_234_560))
  {
    ParsesMinus123p456();
    ScaledCancel(-123_456, 1_000, 10);
  }

  lemma AcceptsZeros()
    ensures NewFromString("0.0") == Ok(NewFromAmount(0))
    ensures NewFromString(".0") == Ok(NewFromAmount(0))
  {
    ParsesZero();
    ParsesPointZero();
    ScaledCancel(0, 1, 10);
  }

  /** The accepted texts of TestNewFromString and the values they denote. */
  lemma NewFromStringAccepts()
    ensures NewFromString("123.456") == Ok(NewFromBasisPoint(1_234_560))
    ensures NewFromString("123") == Ok(NewFromBasisPoint(1_230_000))
    ensures NewFromString(".1234") == Ok(NewFromBasisPoint(1_234))
    ensures NewFromString("-123.456") == Ok(NewFromBasisPoint(-1_234_560))
    ensures NewFromString("0.0") == Ok(NewFromAmount(0))
    ensures NewFromString(".0") == Ok(NewFromAmount(0))
  {
    Accepts123p456();
    Accepts123();
    AcceptsP1234();
    AcceptsMinus123p456();
    AcceptsZeros();
  }

  /** The refused texts of TestNewFromString: two points, and base prefixes. */
  lemma NewFromStringRejects()
    ensures NewFromString("123.45.6") == Err(InvalidFormat)
    ensures NewFromString("0b11") == Err(InvalidFormat)
    ensures NewFromString("0o75") == Err(InvalidFormat)
    ensures NewFromString("0xF5") == Err(InvalidFormat)
  {
    RejectsSecondPoint("123.45.6");
    RejectsForeignCharacter("0b11", 1);
    RejectsForeignCharacter("0o75", 1);
    RejectsForeignCharacter("0xF5", 1);
  }

  /** TestMustFromString: the same texts, with a panic in place of the error. */
  lemma MustFromStringCases()
    ensures MustFromString("123.456") == Returned(NewFromBasisPoint(1_234_560))
    ensures MustFromString("123") == Returned(NewFromBasisPoint(1_230_000))
    ensures MustFromString(".1234") == Returned(NewFromBasisPoint(1_234))
    ensures MustFromString("-123.456") == Returned(NewFromBasisPoint(-1_234_560))
    ensures MustFromString("0.0") == Returned(NewFromAmount(0))
    ensures MustFromString(".0") == Returned(NewFromAmount(0))
    ensures MustFromString("123.45.6") == Panicked
    ensures MustFromString("0b11") == Panicked
    ensures MustFromString("0o75") == Panicked
    ensures MustFromString("0xF5") == Panicked
  {
    NewFromStringAccepts();
    NewFromStringRejects();
  }

  /** Every fractional digit is kept: 0.15 is 15%. */
  lemma ParsesFifteenHundredths()
    ensures NewFromString("0.15") == Ok(NewFromPercentage(15))
    ensures Percentages(NewFromString("0.15").value) == 15
  {
    assert DigitsValue("0") == 0 && DigitsValue("15") == 15 && Pow10(2) == 100 by {
      assert "0"[..0] == "" && "15"[..1] == "1" && "1"[..0] == "";
    }
    ParsesScaled("0.15", Numeral(false, "0", true, "15"), 15);
    ConstructorsAreScaled(15);
    ScaledRoundTrip(15, 100);
  }

  lemma DigitsOfDeciBasisPoints()
    ensures DigitsValue("0") == 0 && DigitsValue("02645") == 2_645 && Pow10(5) == 100_000
  {
    assert "0"[..0] == "";
    assert "02645"[..4] == "0264" && "0264"[..3] == "026" && "026"[..2] == "02" && "02"[..1] == "0";
  }

  /** Every fractional digit is kept: 0.02645 is 2645 deci basis points. */
  lemma ParsesDeciBasisPoints()
    ensures NewFromString("0.02645") == Ok(NewFromDeciBasisPoint(2_645))
    ensures DeciBasisPoints(NewFromString("0.02645").value) == 2_645
  {
    DigitsOfDeciBasisPoints();
    ParsesScaled("0.02645", Numeral(false, "0", true, "02645"), 2_645);
    ConstructorsAreScaled(2_645);
    ScaledRoundTrip(2_645, 100_000);
  }

  /** ".01" is one hundredth of an amount, i.e. 1%. */
  lemma OneHundredth()
    ensures MustFromString(".01") == Returned(NewFromPercentage(1))
  {
    assert DigitsValue("01") == 1 && Pow10(2) == 100 by {
      assert "01"[..1] == "0" && "0"[..0] == "";
    }
    ParsesScaled(".01", Numeral(false, "", true, "01"), 1);
    ConstructorsAreScaled(1);
  }

  lemma DigitsOfMillionth()
    ensures DigitsValue("000001") == 1 && Pow10(6) == 1_000_000
  {
    assert "000001"[..5] == "00000" && "00000"[..4] == "0000" && "0000"[..3] == "000";
    assert "000"[..2] == "00" && "00"[..1] == "0" && "0"[..0] == "";
  }

  /** ".000001" is one millionth of an amount, i.e. 1 ppm. */
  lemma OneMillionth()
    ensures NewFromString(".000001") == Ok(NewFromPPM(Some(1)))
  {
    DigitsOfMillionth();
    ParsesScaled(".000001", Numeral(false, "", true, "000001"), 1);
    ConstructorsAreScaled(1);
  }

  /** 10^12 amounts plus one ppm, read in ppm, is 10^18 + 1. */
  lemma TrillionAndOneMillionth()
    ensures PPMs(Add(NewFromAmount(1_000_000_000_000), NewFromPPM(Some(1)))) == 1_000_000_000_000_000_001
  {
    var sum := Add(NewFromAmount(1_000_000_000_000), NewFromPPM(Some(1)));
    var expected := NewFromPPM(Some(1_000_000_000_000_000_001));
    ReducedUnique(sum.value, expected.value);
    ScaledRoundTrip(1_000_000_000_000_000_001, Scale(PPM));
  }

  /** Adds one hundredth `count` times to zero, as the loop in
      ExampleMustFromString does a thousand times; nothing drifts. */
  method SumOfHundredths(count: nat) returns (n: BPS)
    ensures Exact(n) == count as real / 100.0
    ensures Percentages(n) == count
    ensures Amounts(n) == count / 100
  {
    OneHundredth();
    var cent := MustFromString(".01").value;
    n := NewFromAmount(0);
    var i := 0;
    while i < count
      invariant 0 <= i <= count
      invariant Exact(n) == i as real / 100.0
    {
      n := Add(n, cent);
      i := i + 1;
    }
    assert n == NewFromPercentage(count) by {
      ReducedUnique(n.value, NewFromPercentage(count).value);
    }
    ScaledRoundTrip(count, Scale(Percentage));
    assert Amounts(n) == count / 100 by {
      FlooredCoarsen(n, 1, 100);
    }
  }

  /** ExampleMustFromString: 0.15 is 15%, 0.02645 is 2645 deci bp,
      10^12 amounts plus .000001 is 10^18 + 1 ppm (read with BaseUnit set to
      PPM), and a thousand hundredths make 10 amounts. */
  method ExampleMustFromString() returns (pct: int, deci: int, ppm: int, amounts: int)
    ensures pct == 15 && deci == 2_645
    ensures ppm == 1_000_000_000_000_000_001
    ensures amounts == 10
  {
    ParsesFifteenHundredths();
    ParsesDeciBasisPoints();
    pct := Percentages(MustFromString("0.15").value);
    deci := DeciBasisPoints(MustFromString("0.02645").value);

    var settings := new Settings();
    OneMillionth();
    TrillionAndOneMillionth();
    var b := NewFromString(".000001").value;
    settings.baseUnit := PPM;
    ppm := settings.BaseUnitAmounts(Add(NewFromAmount(1_000_000_000_000), b));
    settings.baseUnit := DeciBasisPoint;

    var n := SumOfHundredths(1_000);
    amounts := Amounts(n);
  }

  /** n deci basis points are 10n ppm. */
  lemma OfDeciBasisPoints(n: int)
    ensures PPMs(NewFromScaled(n, Scale(DeciBasisPoint))) == n * 10
  {
    var b := NewFromScaled(n, Scale(DeciBasisPoint));
    PPBsOfUnit(n, DeciBasisPoint);
    FlooredCoarsen(b, Scale(PPM), 1_000);
    assert (n * 10_000) / 1_000 == n * 10;
  }

  /** Builds 15 of the current BaseUnit under each unit in turn, as
      ExampleNewFromBaseUnit does, and reads the result back in ppm or ppb. */
  method ExampleNewFromBaseUnit() returns (out: seq<int>)
    ensures out == [150, 15, 15_000, 750_000, 1_500_000, 150_000_000]
  {
    var settings := new Settings();
    var saved := settings.baseUnit;
    var deci := PPMs(settings.NewFromBaseUnit(15));
    assert deci == 150 by {
      OfDeciBasisPoints(15);
    }
    settings.baseUnit := PPB;
    var ppb := PPBs(settings.NewFromBaseUnit(15));
    assert ppb == 15 by {
      PPBsOfUnit(15, PPB);
    }
    settings.baseUnit := PPM;
    var ppm := PPBs(settings.NewFromBaseUnit(15));
    assert ppm == 15_000 by {
      PPBsOfUnit(15, PPM);
    }
    settings.baseUnit := HalfBasisPoint;
    var half := PPBs(settings.NewFromBaseUnit(15));
    assert half == 750_000 by {
      PPBsOfUnit(15, HalfBasisPoint);
    }
    settings.baseUnit := BasisPoint;
    var bp := PPBs(settings.NewFromBaseUnit(15));
    assert bp == 1_500_000 by {
      PPBsOfUnit(15, BasisPoint);
    }
    settings.baseUnit := Percentage;
    var pct := PPBs(settings.NewFromBaseUnit(15));
    assert pct == 150_000_000 by {
      PPBsOfUnit(15, Percentage);
    }
    out := [deci, ppb, ppm, half, bp, pct];
    settings.baseUnit := saved;
  }
}
