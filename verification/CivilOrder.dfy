/** What the fields that timesub makes say about the times they came from: each local
    second has one set of fields, fields are ordered as their times are, and 400 years
    later the same fields come round again. */
module CivilOrder {
  import opened Calendar
  import opened CivilTime

  // Calendar order of the broken-down fields.
  predicate Before(a: Tm, b: Tm) {
    || a.year < b.year
    || (a.year == b.year && a.mon < b.mon)
    || (a.year == b.year && a.mon == b.mon && a.mday < b.mday)
    || (a.year == b.year && a.mon == b.mon && a.mday == b.mday && ClockBefore(a, b))
  }

  predicate ClockBefore(a: Tm, b: Tm) {
    || a.hour < b.hour
    || (a.hour == b.hour && a.min < b.min)
    || (a.hour == b.hour && a.min == b.min && a.sec < b.sec)
  }

  predicate SameFields(a: Tm, b: Tm) {
    a == b.(isdst := a.isdst, gmtoff := a.gmtoff)
  }

  // The month that holds the day yday of the year, counting up from m.
  function MonthOf(leap: bool, m: int, yday: int): (r: int)
    requires 0 <= m < 12
    requires MonthStart(leap, m) <= yday < MonthStart(leap, 12)
    ensures m <= r < 12 && MonthStart(leap, r) <= yday < MonthStart(leap, r + 1)
    decreases 12 - m
  {
    if yday < MonthStart(leap, m + 1) then m else MonthOf(leap, m + 1, yday)
  }

  // The fields of a local second.
  function Fields(local: int, inserted: bool): (tm: Tm)
    ensures Shows(tm, local, inserted)
  {
    var d, secs := local / SECSPERDAY, local % SECSPERDAY;
    var date := DateOf(d);
    ClockSplits(secs);
    Tm(secs % 60 + (if inserted then 1 else 0), secs / 60 % 60, secs / 3600,
       date.mday, date.mon, date.year - TM_YEAR_BASE, (EPOCH_WDAY + d) % 7, d - YearStart(date.year), false, 0)
  }

  datatype Date = Date(year: int, mon: int, mday: int)

  // The date of a day number.
  function DateOf(d: int): (r: Date)
    ensures 0 <= r.mon < 12 && 1 <= r.mday <= MonthLength(IsLeap(r.year), r.mon)
    ensures d == YearStart(r.year) + MonthStart(IsLeap(r.year), r.mon) + r.mday - 1
  {
    var y := YearOf(d);
    YearStartStep(y);
    MonthStarts(IsLeap(y));
    var mon := MonthOf(IsLeap(y), 0, d - YearStart(y));
    Date(y, mon, d - YearStart(y) - MonthStart(IsLeap(y), mon) + 1)
  }

  lemma ClockSplits(secs: int)
    requires 0 <= secs < SECSPERDAY
    ensures secs == secs / 3600 * 3600 + secs / 60 % 60 * 60 + secs % 60
    ensures 0 <= secs / 3600 < 24
  {
    assert secs / 60 / 60 == secs / 3600;
  }

  lemma MonthStartMonotone(leap: bool, m: int, n: int)
    requires 0 <= m <= n <= 12
    ensures MonthStart(leap, m) <= MonthStart(leap, n)
    decreases n - m
  {
    if m < n {
      MonthStartMonotone(leap, m, n - 1);
    }
  }

  // The year of fields is the year of their day, and their clock splits at the minute.
  lemma ShowsParts(tm: Tm, local: int, inserted: bool)
    requires Shows(tm, local, inserted)
    ensures tm.year + TM_YEAR_BASE == YearOf(DayNumber(tm))
    ensures DayNumber(tm) == local / SECSPERDAY
    ensures tm.hour * 60 + tm.min == local % SECSPERDAY / 60
    ensures tm.sec == local % 60 + (if inserted then 1 else 0)
  {
    var y, leap := tm.year + TM_YEAR_BASE, IsLeap(tm.year + TM_YEAR_BASE);
    MonthStarts(leap);
    MonthStartMonotone(leap, 0, tm.mon);
    MonthStartMonotone(leap, tm.mon + 1, 12);
    YearStartStep(y);
    YearOfUnique(y, DayNumber(tm));
    var secs := local - DayNumber(tm) * SECSPERDAY;
    FloorIs(local, SECSPERDAY, DayNumber(tm), secs);
    FloorIs(secs, 60, tm.hour * 60 + tm.min, secs - (tm.hour * 60 + tm.min) * 60);
    FloorIs(local, 60, DayNumber(tm) * 1440 + tm.hour * 60 + tm.min, secs - (tm.hour * 60 + tm.min) * 60);
  }

  /** A later day is a later date. */
  lemma DateOrder(a: Tm, i: int, ins: bool, b: Tm, j: int, jns: bool)
    requires Shows(a, i, ins) && Shows(b, j, jns)
    requires DayNumber(a) < DayNumber(b)
    ensures Before(a, b)
  {
    ShowsParts(a, i, ins);
    ShowsParts(b, j, jns);
    if b.year < a.year {
      YearSpan(b.year + TM_YEAR_BASE + 1, a.year + TM_YEAR_BASE);
    } else if a.year == b.year && b.mon < a.mon {
      MonthStartMonotone(IsLeap(a.year + TM_YEAR_BASE), b.mon + 1, a.mon);
    }
  }

  /** Fields are ordered as their local seconds are, provided an inserted second
      comes at the end of its minute. */
  lemma FieldsOrder(a: Tm, i: int, ins: bool, b: Tm, j: int, jns: bool)
    requires Shows(a, i, ins) && Shows(b, j, jns)
    requires i < j || (i == j && !ins && jns)
    requires ins ==> i % 60 == 59
    ensures Before(a, b)
  {
    ShowsParts(a, i, ins);
    ShowsParts(b, j, jns);
    if i / SECSPERDAY < j / SECSPERDAY {
      DateOrder(a, i, ins, b, j, jns);
    } else {
      SameDay(a, i, ins, b, j, jns);
    }
  }

  lemma SameDay(a: Tm, i: int, ins: bool, b: Tm, j: int, jns: bool)
    requires Shows(a, i, ins) && Shows(b, j, jns)
    requires i / SECSPERDAY == j / SECSPERDAY && i <= j
    ensures a.year == b.year && a.mon == b.mon && a.mday == b.mday && a.yday == b.yday
    ensures i / 60 < j / 60 ==> ClockBefore(a, b)
    ensures i / 60 == j / 60 ==> a.hour == b.hour && a.min == b.min
    ensures i / 60 <= j / 60
  {
    ShowsParts(a, i, ins);
    ShowsParts(b, j, jns);
    ShownRanges(a, i, ins);
    ShownRanges(b, j, jns);
    hide *;
    SameDate(a, b);
    MinuteOfDay(i);
    MinuteOfDay(j);
    ClockOrder(a, b, i / SECSPERDAY * 1440, i / 60, j / 60);
  }

  lemma ShownRanges(tm: Tm, local: int, inserted: bool)
    requires Shows(tm, local, inserted)
    ensures 0 <= tm.mon < 12 && 0 <= tm.hour < 24 && 0 <= tm.min < 60
    ensures var leap := IsLeap(tm.year + TM_YEAR_BASE);
            1 <= tm.mday <= MonthLength(leap, tm.mon) && tm.yday == MonthStart(leap, tm.mon) + tm.mday - 1
    ensures DayNumber(tm) == YearStart(tm.year + TM_YEAR_BASE) + tm.yday
  {
    hide MonthLength, MonthStart, YearStart, IsLeap, Encode;
  }

  // A day has one date.
  lemma SameDate(a: Tm, b: Tm)
    requires a.year + TM_YEAR_BASE == b.year + TM_YEAR_BASE && a.yday == b.yday && 0 <= a.mon < 12 && 0 <= b.mon < 12
    requires var leap := IsLeap(a.year + TM_YEAR_BASE);
             && 1 <= a.mday <= MonthLength(leap, a.mon) && a.yday == MonthStart(leap, a.mon) + a.mday - 1
             && 1 <= b.mday <= MonthLength(leap, b.mon) && b.yday == MonthStart(leap, b.mon) + b.mday - 1
    ensures a.mon == b.mon && a.mday == b.mday
  {
    hide IsLeap;
    if a.mon < b.mon {
      MonthStartMonotone(IsLeap(a.year + TM_YEAR_BASE), a.mon + 1, b.mon);
    } else if b.mon < a.mon {
      MonthStartMonotone(IsLeap(a.year + TM_YEAR_BASE), b.mon + 1, a.mon);
    }
  }

  lemma MinuteOfDay(i: int)
    ensures i / 60 == i / SECSPERDAY * 1440 + i % SECSPERDAY / 60
  {
    var day, rest := i / SECSPERDAY, i % SECSPERDAY;
    FloorIs(i, 60, day * 1440 + rest / 60, rest % 60);
  }

  lemma ClockOrder(a: Tm, b: Tm, day: int, i: int, j: int)
    requires 0 <= a.min < 60 && 0 <= b.min < 60
    requires i == day + (a.hour * 60 + a.min) && j == day + (b.hour * 60 + b.min)
    ensures i < j ==> ClockBefore(a, b)
    ensures i == j ==> a.hour == b.hour && a.min == b.min
  {
  }

  /** A local second has exactly one set of fields. */
  lemma FieldsUnique(a: Tm, b: Tm, local: int, inserted: bool)
    requires Shows(a, local, inserted) && Shows(b, local, inserted)
    ensures SameFields(a, b)
  {
    ShowsParts(a, local, inserted);
    ShowsParts(b, local, inserted);
    SameDay(a, local, inserted, b, local, inserted);
  }

  /** After whole 400-year cycles the fields are the same but for the year. */
  lemma FieldsPeriod(tm: Tm, local: int, inserted: bool, cycles: int)
    requires Shows(tm, local, inserted)
    ensures Shows(tm.(year := tm.year + cycles * YEARSPERREPEAT), local + cycles * SECSPERREPEAT, inserted)
  {
    YearStartCycles(tm.year + TM_YEAR_BASE, cycles);
    var later := tm.(year := tm.year + cycles * YEARSPERREPEAT);
    assert DayNumber(later) == DayNumber(tm) + 7 * (cycles * 20871);
    assert Encode(later) == Encode(tm) + cycles * SECSPERREPEAT;
    FloorIs(EPOCH_WDAY + DayNumber(later), 7, (EPOCH_WDAY + DayNumber(tm)) / 7 + cycles * 20871, tm.wday);
  }
}
