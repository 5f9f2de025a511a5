/** Rounding a non-negative magnitude to a whole number of hundredths. Both
    tie rules the program uses are symmetric about zero, so a signed value is
    rounded by rounding its magnitude and keeping its sign bit. */
module Rounding {

  /** How an exact tie between two neighbouring hundredths is broken. */
  datatype TieRule =
    | HalfUp    // decimal.ROUND_HALF_UP: away from zero
    | HalfEven  // builtin round(x, 2): towards the even last digit

  /** `100 * x` lies exactly half-way between two integers. */
  predicate IsTie(x: real) {
    (100.0 * x).Floor as real + 0.5 == 100.0 * x
  }

  /** `k` hundredths is a correct rounding of `x` under `rule`: no farther
      than half a hundredth from `x`, and on a tie on the side `rule` picks. */
  predicate Nearest(x: real, rule: TieRule, k: int) {
    && -0.5 <= k as real - 100.0 * x <= 0.5
    && (IsTie(x) ==>
          match rule
          case HalfUp => k as real > 100.0 * x
          case HalfEven => k % 2 == 0)
  }

  /** `x` rounded to hundredths, as a count of hundredths. */
  function RoundHundredths(x: real, rule: TieRule): (h: nat)
    requires x >= 0.0
    ensures Nearest(x, rule, h)
  {
    var y := 100.0 * x;
    var f := y.Floor;
    var d := y - f as real;
    if d > 0.5 then f + 1
    else if d < 0.5 then f
    else
      match rule
      case HalfUp => f + 1
      case HalfEven => if f % 2 == 0 then f else f + 1
  }

  /** There is exactly one correct rounding: any count of hundredths that
      satisfies `Nearest` is the one `RoundHundredths` computes. */
  lemma RoundingUnique(x: real, rule: TieRule, k: int)
    requires x >= 0.0
    requires Nearest(x, rule, k)
    ensures k == RoundHundredths(x, rule)
  {
  }

  /** The two tie rules disagree exactly on ties whose lower neighbour is an
      even number of hundredths (0.125 gives 0.13 one way and 0.12 the other). */
  lemma TieRulesDisagree(x: real)
    requires x >= 0.0
    ensures (RoundHundredths(x, HalfUp) != RoundHundredths(x, HalfEven))
        == (IsTie(x) && (100.0 * x).Floor % 2 == 0)
  {
  }
}
