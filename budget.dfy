/** The monthly target comparison: how the month's net flow (income minus
    expense over every category) measures up against the budget target.
    The target is a desired net flow, not a spending cap; it may be zero
    or even negative. */
module Budget {

  /** The three severities of the progress bar ("danger", "warning", "success"). */
  datatype Status = OverBudget | BelowTarget | OnTarget

  /** The status branch: a negative net flow is a deficit whatever the
      target; a non-negative one short of the target is below target;
      anything else has met it. With a zero target, breaking even already
      meets it. */
  function Classify(netFlow: int, target: int): (s: Status)
    ensures s == OverBudget <==> netFlow < 0
    ensures s == BelowTarget <==> 0 <= netFlow < target
    ensures s == OnTarget <==> 0 <= netFlow && target <= netFlow
    ensures target == 0 ==> (s == OnTarget <==> netFlow >= 0)
  {
    if netFlow < 0 then OverBudget
    else if netFlow < target then BelowTarget
    else OnTarget
  }

  /** `Math.round`: the nearest integer, halves rounded up. */
  function RoundHalfUp(x: real): (r: int)
    ensures r as real - 0.5 <= x < r as real + 0.5
  {
    (x + 0.5).Floor
  }

  /** `(netFlow / target) * 100`, computed exactly: the percentage of the
      target that the net flow makes up. */
  function Ratio(netFlow: int, target: int): (q: real)
    requires target != 0
    ensures q * target as real == 100.0 * netFlow as real
  {
    var r := netFlow as real / target as real;
    assert r * target as real == netFlow as real;
    r * 100.0
  }

  /** The achievement percentage shown next to the target: the ratio
      rounded to the nearest integer, and 0 for a zero target. */
  function Percent(netFlow: int, target: int): (p: int)
    ensures target == 0 ==> p == 0
    ensures target != 0 ==> p as real - 0.5 <= Ratio(netFlow, target) < p as real + 0.5
  {
    if target != 0 then RoundHalfUp(Ratio(netFlow, target)) else 0
  }

  /** The width of the progress bar, in percent: the ratio, never below
      zero, and 0 for a zero target. */
  function ProgressWidth(netFlow: int, target: int): (w: real)
    ensures w >= 0.0
    ensures target == 0 ==> w == 0.0
    ensures target != 0 ==> w >= Ratio(netFlow, target)
    ensures target != 0 ==> w == 0.0 || w == Ratio(netFlow, target)
  {
    var width := if target != 0 then Ratio(netFlow, target) else 0.0;
    if width < 0.0 then 0.0 else width
  }

  /** Floor division, whatever the sign of the divisor. */
  function FloorDiv(a: int, b: int): int
    requires b != 0
  {
    if b > 0 then a / b else (-a) / (-b)
  }

  /** The quotient of two integers, taken as reals, rounds down to their
      floor division. */
  lemma FloorOfQuotient(a: int, b: int)
    requires b > 0
    ensures (a as real / b as real).Floor == a / b
  {
    var q, r := a / b, a % b;
    assert a == b * q + r && 0 <= r < b;
    assert a as real == b as real * q as real + r as real;
    assert a as real / b as real == q as real + r as real / b as real;
    assert 0.0 <= r as real / b as real < 1.0;
  }

  /** A real that multiplies back to `y` is the quotient `y / b`. */
  lemma QuotientUnique(x: real, y: real, b: real)
    requires b != 0.0 && x * b == y
    ensures x == y / b
  {
  }

  /** With a non-zero target, the percentage is an exact integer formula:
      the floor of (200 * netFlow + target) / (2 * target). */
  lemma PercentExact(netFlow: int, target: int)
    requires target != 0
    ensures Percent(netFlow, target) == FloorDiv(200 * netFlow + target, 2 * target)
  {
    var a, b := 200 * netFlow + target, 2 * target;
    var q := netFlow as real / target as real;
    assert q * target as real == netFlow as real;
    assert (Ratio(netFlow, target) + 0.5) * b as real == a as real;
    QuotientUnique(Ratio(netFlow, target) + 0.5, a as real, b as real);
    if b > 0 {
      FloorOfQuotient(a, b);
    } else {
      assert a as real / b as real == (-a) as real / (-b) as real;
      FloorOfQuotient(-a, -b);
    }
  }

  /** With a positive target the bar is empty exactly when the month did
      not gain anything, and it reaches the full width exactly when the
      target is met. */
  lemma ProgressAgainstPositiveTarget(netFlow: int, target: int)
    requires target > 0
    ensures ProgressWidth(netFlow, target) == 0.0 <==> netFlow <= 0
    ensures ProgressWidth(netFlow, target) >= 100.0 <==> Classify(netFlow, target) == OnTarget
  {
    var q := netFlow as real / target as real;
    assert q * target as real == netFlow as real;
    assert q <= 0.0 <==> netFlow <= 0;
    assert q >= 1.0 <==> netFlow >= target;
  }
}
