/** Yearly rules of POSIX TZ strings, and transtime, which finds the moment of a
    year that a rule names. */
module Rules {
  import opened CArith
  import opened Calendar
  import opened CivilTime

  datatype RuleType = JulianDay | DayOfYear | MonthNthDayOfWeek

  datatype Rule = Rule(kind: RuleType, day: int, week: int, mon: int, time: int)

  predicate InRange(rule: Rule) {
    match rule.kind
    case JulianDay => 1 <= rule.day <= 365
    case DayOfYear => 0 <= rule.day <= 365
    case MonthNthDayOfWeek => 0 <= rule.day <= 6 && 1 <= rule.week <= 5 && 1 <= rule.mon <= 12
  }

  // The weekday of the first of month m (0 for January), Sunday being 0.
  function FirstWeekday(year: int, m: int): int
    requires 0 <= m < 12
  {
    (EPOCH_WDAY + YearStart(year) + MonthStart(IsLeap(year), m)) % 7
  }

  // Day number `day` (from 1) of a common year and day yday (from 0) of this year
  // are the same day of month m.
  predicate SameDate(m: int, day: int, leap: bool, yday: int)
    requires 0 <= m < 12
  {
    && 0 <= day - 1 - MonthStart(false, m) < MonthLength(false, m)
    && yday - MonthStart(leap, m) == day - 1 - MonthStart(false, m)
  }

  /** What a rule means: whether yday is the day of the year it names. Jn is the
      date that is day n of a common year; n counts from 1 January; Mm.w.d is the
      w-th weekday d of the month, or the last one for w = 5. */
  ghost predicate IsRuleDay(year: int, rule: Rule, yday: int)
    requires InRange(rule)
  {
    match rule.kind
    case JulianDay =>
      exists m :: 0 <= m < 12 && SameDate(m, rule.day, IsLeap(year), yday)
    case DayOfYear => yday == rule.day
    case MonthNthDayOfWeek =>
      var m, leap := rule.mon - 1, IsLeap(year);
      var k := yday - MonthStart(leap, m);
      && 0 <= k < MonthLength(leap, m)
      && (EPOCH_WDAY + YearStart(year) + yday) % 7 == rule.day
      && if rule.week == 5 then k + 7 >= MonthLength(leap, m) else k / 7 == rule.week - 1
  }

  // The day of the month, from 0, of the week-th given weekday in a month that
  // begins on weekday dow.
  function NthWeekday(day: int, week: int, dow: int, length: int): int {
    var d := (day - dow) % 7 + 7 * (week - 1);
    if d >= length then d - 7 else d
  }

  // The day of the year of a rule, given the weekday its month begins on.
  function RuleDayFrom(year: int, rule: Rule, dow: int): int
    requires InRange(rule)
  {
    match rule.kind
    case JulianDay => if IsLeap(year) && rule.day >= 60 then rule.day else rule.day - 1
    case DayOfYear => rule.day
    case MonthNthDayOfWeek =>
      MonthStart(IsLeap(year), rule.mon - 1)
      + NthWeekday(rule.day, rule.week, dow, MonthLength(IsLeap(year), rule.mon - 1))
  }

  function RuleDay(year: int, rule: Rule): (yday: int)
    requires InRange(rule)
  {
    RuleDayFrom(year, rule, if rule.kind.MonthNthDayOfWeek? then FirstWeekday(year, rule.mon - 1) else 0)
  }

  // Seconds into the year of the rule's moment, less the offset from UT.
  function RuleTime(year: int, rule: Rule): int
    requires InRange(rule)
  {
    RuleDay(year, rule) * SECSPERDAY + rule.time
  }

  /** RuleDay is the one day of the year that the rule names. */
  lemma RuleDayIs(year: int, rule: Rule, yday: int)
    requires InRange(rule)
    ensures IsRuleDay(year, rule, yday) <==> yday == RuleDay(year, rule)
  {
    match rule.kind {
      case JulianDay =>
        JulianSplit(IsLeap(year), rule.day);
      case DayOfYear =>
      case MonthNthDayOfWeek =>
        var m, leap := rule.mon - 1, IsLeap(year);
        NthWeekdayIs(EPOCH_WDAY + YearStart(year) + MonthStart(leap, m), rule.day, rule.week,
                     MonthLength(leap, m), yday - MonthStart(leap, m));
    }
  }

  lemma NthWeekdayIs(first: int, day: int, week: int, length: int, k: int)
    requires 0 <= day <= 6 && 1 <= week <= 5 && 28 <= length <= 31
    ensures (&& 0 <= k < length && (first + k) % 7 == day
             && if week == 5 then k + 7 >= length else k / 7 == week - 1)
            <==> k == NthWeekday(day, week, first % 7, length)
  {
    WeekdayOffset(first, day, k);
    WeekdayOffset(first, day, NthWeekday(day, week, first % 7, length));
  }

  // Day k falls on the given weekday when it is whole weeks past the first such day.
  lemma WeekdayOffset(first: int, day: int, k: int)
    requires 0 <= day <= 6
    ensures (first + k) % 7 == day <==> k % 7 == (day - first % 7) % 7
  {
    var a, b := first % 7, k % 7;
    SameWeekday(first + k, a + b, first / 7 + k / 7);
    SmallOffset(a, b, day);
  }

  lemma SmallOffset(a: int, b: int, day: int)
    requires 0 <= a <= 6 && 0 <= b <= 6 && 0 <= day <= 6
    ensures (a + b) % 7 == day <==> b == (day - a) % 7
  {
  }

  lemma JulianSplit(leap: bool, day: int)
    requires 1 <= day <= 365
    ensures var yday := if leap && day >= 60 then day else day - 1;
            && (exists m :: 0 <= m < 12 && SameDate(m, day, leap, yday))
            && (forall m, y :: 0 <= m < 12 && SameDate(m, day, leap, y) ==> y == yday)
  {
    MonthStarts(false);
    var yday := if leap && day >= 60 then day else day - 1;
    var m := MonthFrom(0, day - 1);
    LeapShift(leap, m);
    LeapShift(leap, m + 1);
    assert SameDate(m, day, leap, yday);
    forall m, y | 0 <= m < 12 && SameDate(m, day, leap, y)
      ensures y == yday
    {
      LeapShift(leap, m);
      LeapShift(leap, m + 1);
    }
  }

  function MonthFrom(m: int, yday: int): (r: int)
    requires 0 <= m < 12
    requires MonthStart(false, m) <= yday < MonthStart(false, 12)
    ensures 0 <= r < 12 && MonthStart(false, r) <= yday < MonthStart(false, r + 1)
    decreases 12 - m
  {
    if yday < MonthStart(false, m + 1) then m else MonthFrom(m + 1, yday)
  }

  lemma {:induction false} LeapShift(leap: bool, m: int)
    requires 0 <= m <= 12
    ensures MonthStart(leap, m) == MonthStart(false, m) + if leap && m >= 2 then 1 else 0
    ensures m >= 2 ==> MonthStart(false, m) >= 59
    ensures m <= 1 ==> MonthStart(false, m) <= 31
    decreases m
  {
    if m > 0 {
      LeapShift(leap, m - 1);
    }
  }

  // Zeller's congruence as transtime computes it, for month mon (1 for January).
  function Zeller(year: int, mon: int): (dow: int)
    requires 1 <= mon <= 12
  {
    var m1 := (mon + 9) % 12 + 1;
    var yy0 := if mon <= 2 then year - 1 else year;
    var yy1 := Quot(yy0, 100);
    var yy2 := Rem(yy0, 100);
    var dow := Rem(Quot(26 * m1 - 2, 10) + 1 + yy2 + Quot(yy2, 4) + Quot(yy1, 4) - 2 * yy1, 7);
    if dow < 0 then dow + 7 else dow
  }

  // Years, begun in March, for which truncated quotients do no harm.
  predicate ZellerExact(year: int, mon: int) {
    var yy0 := if mon <= 2 then year - 1 else year;
    yy0 >= 0 || IsLeap(yy0)
  }

  lemma ZellerExactIs(year: int, mon: int)
    ensures var yy0 := if mon <= 2 then year - 1 else year; ZellerExact(year, mon) <==> yy0 >= 0 || IsLeap(yy0)
  {
    hide IsLeap;
  }

  // The year terms of the congruence against the calendar, modulo 7.
  lemma ZellerYear(yy0: int) returns (n: int)
    ensures var yy1, yy2 := Quot(yy0, 100), Rem(yy0, 100);
            365 * yy0 + LeapsThruEndOf(yy0)
            == yy2 + Quot(yy2, 4) + Quot(yy1, 4) - 2 * yy1 + 7 * n
               - if yy0 >= 0 || IsLeap(yy0) then 0 else 1
  {
    var yy1, yy2 := Quot(yy0, 100), Rem(yy0, 100);
    n := 5218 * yy1 + 52 * yy2;
    if yy0 >= 0 {
      ZellerSince(yy0);
    } else {
      ZellerBefore(yy0);
    }
  }

  lemma ZellerSince(yy0: int)
    requires yy0 >= 0
    ensures yy0 == 100 * Quot(yy0, 100) + Rem(yy0, 100)
    ensures LeapsThruEndOf(yy0) == 24 * Quot(yy0, 100) + Quot(Rem(yy0, 100), 4) + Quot(Quot(yy0, 100), 4)
  {
    Centuries(yy0);
  }

  lemma ZellerBefore(yy0: int)
    requires yy0 < 0
    ensures yy0 == 100 * Quot(yy0, 100) + Rem(yy0, 100)
    ensures LeapsThruEndOf(yy0) == 24 * Quot(yy0, 100) + Quot(Rem(yy0, 100), 4) + Quot(Quot(yy0, 100), 4)
                                   - if IsLeap(yy0) then 0 else 1
  {
    hide LeapsThruEndOf;
    LeapsFloor(yy0);
    TruncatedQuotient(yy0, 4);
    TruncatedQuotient(yy0, 100);
    TruncatedQuotient(yy0, 400);
    Centuries(-yy0);
  }

  lemma Centuries(y: nat)
    ensures y / 4 == 25 * (y / 100) + y % 100 / 4
    ensures y / 400 == y / 100 / 4
  {
  }

  lemma TruncatedQuotient(y: int, k: int)
    requires y < 0 && k > 0
    ensures y / k == Quot(y, k) - if y % k == 0 then 0 else 1
    ensures y % k == 0 <==> -y % k == 0
  {
    var q, r := -y / k, -y % k;
    if r == 0 {
      FloorIs(y, k, -q, 0);
    } else {
      FloorIs(y, k, -q - 1, k - r);
    }
  }

  // The calendar's weekday of the first of a month, with the year terms set apart.
  lemma FirstWeekdayYear(year: int, mon: int) returns (n: int)
    requires 1 <= mon <= 12
    ensures var m1 := (mon + 9) % 12 + 1;
            var yy0 := if mon <= 2 then year - 1 else year;
            EPOCH_WDAY + YearStart(year) + MonthStart(IsLeap(year), mon - 1)
            == Quot(26 * m1 - 2, 10) + 1 + 365 * yy0 + LeapsThruEndOf(yy0) + 7 * n
  {
    hide YearStart, LeapsThruEndOf, MonthStart, IsLeap;
    YearStartClosed(year);
    LeapsStep(year);
    assert LeapsThruEndOf(EPOCH_YEAR - 1) == 477 by {
      LeapsFloor(EPOCH_YEAR - 1);
    }
    LeapShift(IsLeap(year), mon - 1);
    var m := MonthTerm(mon);
    n := m - 102789;
  }

  lemma MonthTerm(mon: int) returns (n: int)
    requires 1 <= mon <= 12
    ensures MonthStart(false, mon - 1) + (if mon <= 2 then 365 else 0)
            == Quot(26 * ((mon + 9) % 12 + 1) - 2, 10) + 1 + 7 * n
  {
    assert MonthStart(false, 1) == 31;
    assert MonthStart(false, 2) == 59;
    assert MonthStart(false, 3) == 90;
    assert MonthStart(false, 4) == 120;
    assert MonthStart(false, 5) == 151;
    assert MonthStart(false, 6) == 181;
    assert MonthStart(false, 7) == 212;
    assert MonthStart(false, 8) == 243;
    assert MonthStart(false, 9) == 273;
    assert MonthStart(false, 10) == 304;
    assert MonthStart(false, 11) == 334;
    n := match mon
      case 1 => 48 case 2 => 52 case 3 => 8 case 4 => 12 case 5 => 16 case 6 => 20
      case 7 => 24 case 8 => 28 case 9 => 32 case 10 => 36 case 11 => 40 case _ => 44;
  }

  /** Zeller's congruence in C arithmetic gives the calendar's weekday exactly when
      the year, begun in March, is not negative or is a leap year; otherwise it is
      one day ahead. */
  lemma ZellerIsCalendar(year: int, mon: int)
    requires 1 <= mon <= 12
    ensures 0 <= Zeller(year, mon) <= 6
    ensures ZellerExact(year, mon) ==> Zeller(year, mon) == FirstWeekday(year, mon - 1)
    ensures !ZellerExact(year, mon) ==> Zeller(year, mon) == (FirstWeekday(year, mon - 1) + 1) % 7
  {
    hide *;
    var m1 := (mon + 9) % 12 + 1;
    var yy0 := if mon <= 2 then year - 1 else year;
    var yy1, yy2 := Quot(yy0, 100), Rem(yy0, 100);
    var sum := Quot(26 * m1 - 2, 10) + 1 + yy2 + Quot(yy2, 4) + Quot(yy1, 4) - 2 * yy1;
    var first := EPOCH_WDAY + YearStart(year) + MonthStart(IsLeap(year), mon - 1);
    var a := ZellerYear(yy0);
    var b := FirstWeekdayYear(year, mon);
    ZellerExactIs(year, mon);
    var slip := if ZellerExact(year, mon) then 0 else 1;
    SameWeekday(first + slip, sum, a + b);
    SameWeekday(first + slip, first % 7 + slip, first / 7);
    ZellerIs(year, mon, sum, first, slip);
  }

  lemma ZellerIs(year: int, mon: int, sum: int, first: int, slip: int)
    requires 1 <= mon <= 12 && first == EPOCH_WDAY + YearStart(year) + MonthStart(IsLeap(year), mon - 1)
    requires var (yy0, m1) := (if mon <= 2 then year - 1 else year, (mon + 9) % 12 + 1);
             sum == Quot(26 * m1 - 2, 10) + 1 + Rem(yy0, 100) + Quot(Rem(yy0, 100), 4) + Quot(Quot(yy0, 100), 4) - 2 * Quot(yy0, 100)
    requires (first + slip) % 7 == if Rem(sum, 7) < 0 then Rem(sum, 7) + 7 else Rem(sum, 7)
    ensures Zeller(year, mon) == (first + slip) % 7 && FirstWeekday(year, mon - 1) == first % 7
  {
    hide Quot, Rem, YearStart, MonthStart, IsLeap;
  }

  /** Source/tzdb.h:1414-1499. The result is the moment the rule names, in every
      year from 1 on and in every earlier year for which the congruence is exact,
      and in no other. */
  method Transtime(year: int, rule: Rule, offset: int) returns (value: int)
    requires InRange(rule)
    ensures rule.kind.MonthNthDayOfWeek? ==>
              value == RuleDayFrom(year, rule, Zeller(year, rule.mon)) * SECSPERDAY + rule.time + offset
    ensures value == RuleTime(year, rule) + offset
            <==> !rule.kind.MonthNthDayOfWeek? || ZellerExact(year, rule.mon)
  {
    var leapyear := IsLeap(year);
    match rule.kind
    case JulianDay =>
      value := (rule.day - 1) * SECSPERDAY;
      if leapyear && rule.day >= 60 {
        value := value + SECSPERDAY;
      }
      value := value + rule.time + offset;
    case DayOfYear =>
      value := rule.day * SECSPERDAY;
      value := value + rule.time + offset;
    case MonthNthDayOfWeek =>
      var dow := Zeller(year, rule.mon);
      ZellerIsCalendar(year, rule.mon);
      ZellerMatters(year, rule);
      var length := MonthLength(leapyear, rule.mon - 1);
      var d := WeekdayOfMonth(rule.day, rule.week, dow, length);
      value := d * SECSPERDAY;
      var i := 0;
      while i < rule.mon - 1
        invariant 0 <= i <= rule.mon - 1
        invariant value == (d + MonthStart(leapyear, i)) * SECSPERDAY
      {
        value := value + MonthLength(leapyear, i) * SECSPERDAY;
        i := i + 1;
      }
      value := value + rule.time + offset;
  }

  // A weekday one day off names another day.
  lemma ZellerMatters(year: int, rule: Rule)
    requires InRange(rule) && rule.kind.MonthNthDayOfWeek?
    ensures RuleDayFrom(year, rule, Zeller(year, rule.mon)) == RuleDay(year, rule)
            <==> ZellerExact(year, rule.mon)
  {
    ZellerIsCalendar(year, rule.mon);
    NthWeekdayDiffers(rule.day, rule.week, FirstWeekday(year, rule.mon - 1), MonthLength(IsLeap(year), rule.mon - 1));
  }

  lemma NthWeekdayDiffers(day: int, week: int, dow: int, length: int)
    requires 0 <= day <= 6 && 0 <= dow <= 6 && 1 <= week <= 5 && 28 <= length <= 31
    ensures NthWeekday(day, week, dow, length) != NthWeekday(day, week, (dow + 1) % 7, length)
  {
    hide NthWeekday;
    var k := NthWeekday(day, week, dow, length);
    NthWeekdayIs(dow, day, week, length, k);
    NthWeekdayIs(dow + 1, day, week, length, k);
  }

  /** Source/tzdb.h:1466-1478: the day of the month, from 0. */
  method WeekdayOfMonth(day: int, week: int, dow: int, length: int) returns (d: int)
    requires 0 <= day <= 6 && 0 <= dow <= 6 && 1 <= week <= 5 && 28 <= length <= 31
    ensures d == NthWeekday(day, week, dow, length)
  {
    d := day - dow;
    if d < 0 {
      d := d + 7;
    }
    ghost var first := d;
    var i := 1;
    while i < week
      invariant 1 <= i <= week
      invariant d == first + 7 * (i - 1) < length
    {
      if d + 7 >= length {
        break;
      }
      d := d + 7;
      i := i + 1;
    }
  }

  /** The rule's day of the year has a 400-year period. */
  lemma RuleDayPeriod(year: int, rule: Rule)
    requires InRange(rule)
    ensures RuleDay(year + YEARSPERREPEAT, rule) == RuleDay(year, rule)
  {
    LeapPeriod(year);
    YearStartPeriod(year);
    if rule.kind.MonthNthDayOfWeek? {
      var first := EPOCH_WDAY + YearStart(year) + MonthStart(IsLeap(year), rule.mon - 1);
      SameWeekday(first + DAYSPERREPEAT, first, DAYSPERREPEAT / 7);
    }
  }
}
