/** The named unit scales of the package. */
module Units {

  /** The units the package-wide BaseUnit variable can select. */
  datatype Unit = Percentage | BasisPoint | HalfBasisPoint | DeciBasisPoint | PPM | PPB

  /** How many of the unit make one amount (1 amount = 100%). */
  function Scale(u: Unit): (s: int)
    ensures s > 0
    ensures 1_000_000_000 % s == 0
  {
    match u
    case Percentage => 100
    case BasisPoint => 10_000
    case HalfBasisPoint => 20_000
    case DeciBasisPoint => 100_000
    case PPM => 1_000_000
    case PPB => 1_000_000_000
  }

  /** The value BaseUnit holds when a program starts. */
  const DEFAULT_BASE_UNIT: Unit := DeciBasisPoint
}
