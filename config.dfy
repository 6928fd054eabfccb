/** The package-level BaseUnit variable and the two operations that read it. */
module Config {
  import opened Units
  import opened Bps

  /** Holds BaseUnit. Programs assign `baseUnit` directly, as Go code assigns
      the package variable; existing BPS values are immutable and unaffected. */
  class Settings {
    var baseUnit: Unit

    /** The state at program start: BaseUnit is DeciBasisPoint. */
    constructor ()
      ensures baseUnit == DEFAULT_BASE_UNIT
    {
      baseUnit := DEFAULT_BASE_UNIT;
    }

    /** n of whatever unit BaseUnit currently selects. */
    function NewFromBaseUnit(n: int): (r: BPS)
      reads this
      ensures Exact(r) == n as real / Scale(baseUnit) as real
    {
      NewFromScaled(n, Scale(baseUnit))
    }

    /** How many whole units of the current BaseUnit b holds, rounding down. */
    function BaseUnitAmounts(b: BPS): (r: int)
      reads this
      ensures r == (Exact(b) * Scale(baseUnit) as real).Floor
    {
      Floored(b, Scale(baseUnit))
    }
  }

  /** Under one BaseUnit, reading back what NewFromBaseUnit built gives n. */
  lemma BaseUnitRoundTrip(s: Settings, n: int)
    ensures s.BaseUnitAmounts(s.NewFromBaseUnit(n)) == n
  {
    ScaledRoundTrip(n, Scale(s.baseUnit));
  }

  /** BaseUnitAmounts is the named accessor of whichever unit BaseUnit selects. */
  lemma BaseUnitAmountsIsNamedAccessor(s: Settings, b: BPS)
    ensures s.baseUnit == Percentage ==> s.BaseUnitAmounts(b) == Percentages(b)
    ensures s.baseUnit == BasisPoint ==> s.BaseUnitAmounts(b) == BasisPoints(b)
    ensures s.baseUnit == HalfBasisPoint ==> s.BaseUnitAmounts(b) == HalfBasisPoints(b)
    ensures s.baseUnit == DeciBasisPoint ==> s.BaseUnitAmounts(b) == DeciBasisPoints(b)
    ensures s.baseUnit == PPM ==> s.BaseUnitAmounts(b) == PPMs(b)
    ensures s.baseUnit == PPB ==> s.BaseUnitAmounts(b) == PPBs(b)
  {
  }

  /** Whatever BaseUnit is, n of it read in ppb is n times the ppb in one unit. */
  lemma BaseUnitInPPB(s: Settings, n: int)
    ensures PPBs(s.NewFromBaseUnit(n)) == n * (1_000_000_000 / Scale(s.baseUnit))
  {
    PPBsOfUnit(n, s.baseUnit);
  }
}
