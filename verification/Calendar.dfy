/** The proleptic Gregorian calendar, counted from 1970, and the arithmetic that
    Source/tzdb.h uses in its place. */
module Calendar {
  const EPOCH_YEAR := 1970
  const EPOCH_WDAY := 4
  const TM_YEAR_BASE := 1900
  const SECSPERDAY := 86400
  const YEARSPERREPEAT := 400
  const AVGSECSPERYEAR := 31556952
  const SECSPERREPEAT := YEARSPERREPEAT * AVGSECSPERYEAR
  const DAYSPERREPEAT := 146097

  // C's % and Dafny's agree on whether a remainder is zero.
  predicate IsLeap(y: int) {
    y % 4 == 0 && (y % 100 != 0 || y % 400 == 0)
  }

  function YearLength(y: int): int {
    if IsLeap(y) then 366 else 365
  }

  function MonthLength(leap: bool, m: int): int
    requires 0 <= m < 12
  {
    if m == 1 then if leap then 29 else 28
    else if m == 3 || m == 5 || m == 8 || m == 10 then 30
    else 31
  }

  // Days of the year before month m begins.
  function MonthStart(leap: bool, m: int): int
    requires 0 <= m <= 12
  {
    if m == 0 then 0 else MonthStart(leap, m - 1) + MonthLength(leap, m - 1)
  }

  /** The calendar itself: the day number of 1 January of year y, where 1 January
      1970 is day 0, laid out year by year in both directions. */
  function YearStart(y: int): int
    decreases if y < EPOCH_YEAR then EPOCH_YEAR - y else y - EPOCH_YEAR
  {
    if y == EPOCH_YEAR then 0
    else if y > EPOCH_YEAR then YearStart(y - 1) + YearLength(y - 1)
    else YearStart(y + 1) - YearLength(y)
  }

  function LeapsThruEndOfNonneg(y: nat): int {
    y / 4 - y / 100 + y / 400
  }

  function LeapsThruEndOf(y: int): int {
    if y < 0 then -1 - LeapsThruEndOfNonneg(-1 - y) else LeapsThruEndOfNonneg(y)
  }

  lemma YearStartStep(y: int)
    ensures YearStart(y + 1) == YearStart(y) + YearLength(y)
  {
  }

  /** The mirrored count for negative years is the same formula with floored
      quotients. */
  lemma LeapsFloor(y: int)
    ensures LeapsThruEndOf(y) == y / 4 - y / 100 + y / 400
  {
    if y < 0 {
      FloorMirror(y, 4);
      FloorMirror(y, 100);
      FloorMirror(y, 400);
    }
  }

  lemma FloorMirror(y: int, k: int)
    requires y < 0 && k > 0
    ensures y / k == -1 - (-1 - y) / k
  {
    var q, r := (-1 - y) / k, (-1 - y) % k;
    assert y == (-1 - q) * k + (k - 1 - r);
    FloorIs(y, k, -1 - q, k - 1 - r);
  }

  lemma FloorIs(y: int, k: int, q: int, r: int)
    requires k > 0 && 0 <= r < k && y == q * k + r
    ensures y / k == q && y % k == r
  {
    var d := y / k - q;
    assert d * k == r - y % k;
    MultipleBound(d, k);
  }

  lemma MultipleBound(d: int, k: int)
    requires k > 0
    ensures d >= 1 ==> d * k >= k
    ensures d <= -1 ==> d * k <= -k
  {
  }

  lemma FloorStep(y: int, k: int)
    requires k > 0
    ensures y / k - (y - 1) / k == if y % k == 0 then 1 else 0
  {
    var q, r := y / k, y % k;
    if r == 0 {
      FloorIs(y - 1, k, q - 1, k - 1);
    } else {
      FloorIs(y - 1, k, q, r - 1);
    }
  }

  lemma LeapCases(y: int)
    ensures y % 100 == 0 ==> y % 4 == 0
    ensures y % 400 == 0 ==> y % 100 == 0
  {
    if y % 100 == 0 {
      FloorIs(y, 4, 25 * (y / 100), 0);
    }
    if y % 400 == 0 {
      FloorIs(y, 100, 4 * (y / 400), 0);
    }
  }

  /** The count of leap years grows by one exactly at a leap year, negative years
      included. */
  lemma LeapsStep(y: int)
    ensures LeapsThruEndOf(y) - LeapsThruEndOf(y - 1) == if IsLeap(y) then 1 else 0
  {
    hide LeapsThruEndOf;
    LeapsFloor(y);
    LeapsFloor(y - 1);
    FloorStep(y, 4);
    FloorStep(y, 100);
    FloorStep(y, 400);
    LeapCases(y);
  }

  /** The arithmetic used in place of the calendar is the calendar. */
  lemma {:induction false} YearStartClosed(y: int)
    ensures YearStart(y) ==
            365 * (y - EPOCH_YEAR) + LeapsThruEndOf(y - 1) - LeapsThruEndOf(EPOCH_YEAR - 1)
    decreases if y < EPOCH_YEAR then EPOCH_YEAR - y else y - EPOCH_YEAR
  {
    if y > EPOCH_YEAR {
      YearStartClosed(y - 1);
      LeapsStep(y - 1);
    } else if y < EPOCH_YEAR {
      YearStartClosed(y + 1);
      LeapsStep(y);
    }
  }

  lemma {:induction false} YearSpan(y1: int, y2: int)
    requires y1 <= y2
    ensures 365 * (y2 - y1) <= YearStart(y2) - YearStart(y1) <= 366 * (y2 - y1)
    decreases y2 - y1
  {
    if y1 < y2 {
      YearSpan(y1, y2 - 1);
      YearStartStep(y2 - 1);
    }
  }

  lemma LeapPeriod(y: int)
    ensures IsLeap(y + YEARSPERREPEAT) == IsLeap(y)
  {
    FloorIs(y + 400, 4, y / 4 + 100, y % 4);
    FloorIs(y + 400, 100, y / 100 + 4, y % 100);
    FloorIs(y + 400, 400, y / 400 + 1, y % 400);
  }

  /** Every 400 years the calendar repeats, weekdays included. */
  lemma {:induction false} YearStartPeriod(y: int)
    ensures YearStart(y + YEARSPERREPEAT) == YearStart(y) + DAYSPERREPEAT
    ensures DAYSPERREPEAT % 7 == 0 && DAYSPERREPEAT * SECSPERDAY == SECSPERREPEAT
  {
    hide *;
    YearStartClosed(y);
    YearStartClosed(y + YEARSPERREPEAT);
    LeapsPeriod(y - 1);
    assert y + YEARSPERREPEAT - 1 == y - 1 + YEARSPERREPEAT;
    CycleLength();
  }

  lemma CycleLength()
    ensures YEARSPERREPEAT == 400 && DAYSPERREPEAT == 365 * 400 + 97
    ensures DAYSPERREPEAT % 7 == 0 && DAYSPERREPEAT * SECSPERDAY == SECSPERREPEAT
  {
  }

  lemma {:induction false} YearStartCycles(y: int, cycles: int)
    ensures YearStart(y + cycles * YEARSPERREPEAT) == YearStart(y) + cycles * DAYSPERREPEAT
    ensures IsLeap(y + cycles * YEARSPERREPEAT) == IsLeap(y)
    decreases if cycles < 0 then -cycles else cycles
  {
    if cycles > 0 {
      YearStartCycles(y, cycles - 1);
      YearStartPeriod(y + (cycles - 1) * YEARSPERREPEAT);
      LeapPeriod(y + (cycles - 1) * YEARSPERREPEAT);
    } else if cycles < 0 {
      YearStartCycles(y, cycles + 1);
      YearStartPeriod(y + cycles * YEARSPERREPEAT);
      LeapPeriod(y + cycles * YEARSPERREPEAT);
    }
  }

  lemma LeapsPeriod(y: int)
    ensures LeapsThruEndOf(y + YEARSPERREPEAT) == LeapsThruEndOf(y) + 97
  {
    LeapsFloor(y);
    LeapsFloor(y + YEARSPERREPEAT);
    FloorIs(y + 400, 4, y / 4 + 100, y % 4);
    FloorIs(y + 400, 100, y / 100 + 4, y % 100);
    FloorIs(y + 400, 400, y / 400 + 1, y % 400);
  }

  // The year that holds day d.
  function YearOf(d: int): (y: int)
    ensures YearStart(y) <= d < YearStart(y + 1)
  {
    YearFrom(EPOCH_YEAR, d)
  }

  function YearFrom(y: int, d: int): (r: int)
    ensures YearStart(r) <= d < YearStart(r + 1)
    decreases d < YearStart(y), if d < YearStart(y) then YearStart(y) - d else d - YearStart(y)
  {
    YearStartStep(y);
    YearStartStep(y - 1);
    if d < YearStart(y) then YearFrom(y - 1, d)
    else if d >= YearStart(y + 1) then YearFrom(y + 1, d)
    else y
  }

  lemma YearOfUnique(y: int, d: int)
    requires YearStart(y) <= d < YearStart(y + 1)
    ensures y == YearOf(d)
  {
    var z := YearOf(d);
    if y < z {
      YearSpan(y + 1, z);
    } else if z < y {
      YearSpan(z + 1, y);
    }
  }
}
