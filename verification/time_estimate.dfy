/**
  The "time remaining" estimate printed next to each in-progress research.

  The estimate is computed from the research progress still to go and the
  research time constant `unit` (BASE_RESEARCH_TIME, a positive constant).
  One displayed hour is `2 * unit` progress units and one quarter hour is
  `unit / 2` units.  The source computes on doubles; here the same steps are
  written over exact integers, with Java's truncating `(int)` cast, the
  sign-of-dividend remainder of `%` on doubles, and `Math.ceil` each spelled
  out.  Division by `unit / 2` is written as `2 * x / unit`, which is the same
  rational number.
 */
module TimeEstimate {

  /** A displayed duration "hours:minutes". */
  datatype Duration = Duration(hours: int, minutes: int)

  /** Java's `(int)` cast of a quotient: rounds toward zero. */
  function TruncDiv(a: int, b: int): int
    requires b > 0
  {
    if a >= 0 then a / b else -((-a) / b)
  }

  /** Java's `%` on doubles: the remainder keeps the sign of the dividend. */
  function JavaRem(a: int, b: int): int
    requires b > 0
  {
    a - b * TruncDiv(a, b)
  }

  /** `Math.ceil(a / b)` for a positive divisor: the least `c` with `b * c >= a`. */
  function CeilDiv(a: int, b: int): (c: int)
    requires b > 0
    ensures a <= b * c < a + b
  {
    var f := (-a) / b;
    assert -a == b * f + (-a) % b;
    assert b * -f == -(b * f);
    -f
  }

  /**
    The estimate exactly as the command computes it: whole hours, then
    quarter-hour increments of the rest rounded up, four increments carrying
    into the hours.  For a non-negative remainder this is the remaining time
    in quarter hours, rounded up, shown as hours and minutes.
   */
  function Estimate(remaining: int, unit: int): (d: Duration)
    requires unit > 0
    ensures remaining >= 0 ==> d == FromQuarters(Quarters(remaining, unit))
  {
    var hours := TruncDiv(remaining, 2 * unit);
    var increments := CeilDiv(2 * JavaRem(remaining, 2 * unit), unit);
    var d := if increments == 4 then Duration(hours + 1, 0) else Duration(hours, increments * 15);
    if remaining < 0 then
      d
    else
      SplitIsQuarters(remaining, unit);
      FromQuartersOfSplit(hours, increments);
      d
  }

  /** Reference definition: the remaining time in quarter hours, rounded up. */
  function Quarters(remaining: int, unit: int): (q: int)
    requires unit > 0
    ensures 2 * remaining <= unit * q < 2 * remaining + unit
  {
    CeilDiv(2 * remaining, unit)
  }

  /** Reference definition: a whole number of quarter hours shown as hours and minutes. */
  function FromQuarters(q: int): Duration
  {
    Duration(q / 4, (q % 4) * 15)
  }

  /** The quarter hours a displayed duration stands for. */
  function DisplayedQuarters(d: Duration): int
  {
    4 * d.hours + d.minutes / 15
  }

  lemma MulCancelLt(b: int, x: int, y: int)
    requires b > 0 && b * x < b * y
    ensures x < y
  {
  }

  lemma CeilDivUnique(a: int, b: int, c: int)
    requires b > 0
    requires a <= b * c < a + b
    ensures CeilDiv(a, b) == c
  {
    var c' := CeilDiv(a, b);
    assert b * (c + 1) == b * c + b;
    assert b * (c' + 1) == b * c' + b;
    MulCancelLt(b, c', c + 1);
    MulCancelLt(b, c, c' + 1);
  }

  /**
    Hours and increments as the command computes them: the increments are
    between 0 and 4, and together they count the quarter hours rounded up.
   */
  lemma SplitIsQuarters(remaining: int, unit: int)
    requires unit > 0 && remaining >= 0
    ensures var k := CeilDiv(2 * JavaRem(remaining, 2 * unit), unit);
      && 0 <= k <= 4
      && Quarters(remaining, unit) == 4 * TruncDiv(remaining, 2 * unit) + k
  {
    var d := 2 * unit;
    var h := remaining / d;
    var m := remaining % d;
    assert TruncDiv(remaining, d) == h;
    assert remaining == d * h + m && 0 <= m < d;
    assert JavaRem(remaining, d) == m;
    var k := CeilDiv(2 * m, unit);
    MulCancelLt(unit, -1, k);
    MulCancelLt(unit, k, 5);
    assert unit * (4 * h + k) == 2 * (d * h) + unit * k;
    CeilDivUnique(2 * remaining, unit, 4 * h + k);
  }

  /** Four increments carry into the hours; fewer are shown as 15 minutes each. */
  lemma FromQuartersOfSplit(h: int, k: int)
    requires 0 <= k <= 4
    ensures FromQuarters(4 * h + k) == if k == 4 then Duration(h + 1, 0) else Duration(h, k * 15)
  {
    if k == 4 {
      assert (4 * h + 4) / 4 == h + 1;
      assert (4 * h + 4) % 4 == 0;
    } else {
      assert (4 * h + k) / 4 == h;
      assert (4 * h + k) % 4 == k;
    }
  }

  /**
    For a non-negative remainder: the minutes part is 0, 15, 30 or 45 (a full
    fourth quarter carries into the hours, never shows as 60), the hours are
    non-negative, and the displayed time is the remaining time rounded up to a
    quarter hour: at least the remaining time and less than one quarter hour
    above it.
   */
  lemma EstimateRoundsUpToQuarterHour(remaining: int, unit: int)
    requires unit > 0 && remaining >= 0
    ensures var d := Estimate(remaining, unit);
      && d.hours >= 0
      && (d.minutes == 0 || d.minutes == 15 || d.minutes == 30 || d.minutes == 45)
      && DisplayedQuarters(d) == Quarters(remaining, unit)
      && 2 * remaining <= unit * DisplayedQuarters(d) < 2 * remaining + unit
  {
    var q := Quarters(remaining, unit);
    MulCancelLt(unit, -1, q);
    assert q == 4 * (q / 4) + q % 4;
  }

  /** Nothing left to do is shown as 0:00. */
  lemma EstimateOfZero(unit: int)
    requires unit > 0
    ensures Estimate(0, unit) == Duration(0, 0)
  {
    assert TruncDiv(0, 2 * unit) == 0;
    assert JavaRem(0, 2 * unit) == 0;
    assert CeilDiv(0, unit) == 0;
  }

  lemma QuartersExact(remaining: int, unit: int)
    requires unit > 0 && (2 * remaining) % unit == 0
    ensures unit * Quarters(remaining, unit) == 2 * remaining
  {
    var c := (2 * remaining) / unit;
    assert 2 * remaining == unit * c + (2 * remaining) % unit;
    CeilDivUnique(2 * remaining, unit, c);
  }

  lemma QuartersMonotone(r1: int, r2: int, unit: int)
    requires unit > 0 && r1 <= r2
    ensures Quarters(r1, unit) <= Quarters(r2, unit)
  {
    var q1 := Quarters(r1, unit);
    var q2 := Quarters(r2, unit);
    assert unit * (q2 + 1) == unit * q2 + unit;
    MulCancelLt(unit, q1, q2 + 1);
  }

  /** A remainder that is a whole number of quarter hours is shown exactly, not rounded up. */
  lemma EstimateExactOnQuarterBoundary(remaining: int, unit: int)
    requires unit > 0 && remaining >= 0
    requires (2 * remaining) % unit == 0
    ensures unit * DisplayedQuarters(Estimate(remaining, unit)) == 2 * remaining
  {
    EstimateRoundsUpToQuarterHour(remaining, unit);
    QuartersExact(remaining, unit);
  }

  /** More work left never shows a shorter estimate. */
  lemma EstimateMonotone(r1: int, r2: int, unit: int)
    requires unit > 0 && 0 <= r1 <= r2
    ensures DisplayedQuarters(Estimate(r1, unit)) <= DisplayedQuarters(Estimate(r2, unit))
  {
    EstimateRoundsUpToQuarterHour(r1, unit);
    EstimateRoundsUpToQuarterHour(r2, unit);
    QuartersMonotone(r1, r2, unit);
  }

  /** A worked case: with unit 60, 75 units left is two and a half quarters, shown as 0:45. */
  lemma EstimateSeventyFiveOfSixty()
    ensures Estimate(75, 60) == Duration(0, 45)
  {
  }
}
