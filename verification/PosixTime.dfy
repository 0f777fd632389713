/** The fields that timesub makes against formulas of their own, with their own numbers:
    the Seconds Since the Epoch of POSIX, and the day of the year of a date. */
module PosixTime {
  import opened CArith
  import opened Calendar
  import opened CivilTime
  import opened CivilOrder
  import opened Wrappers
  import opened ZoneState
  import opened LocalTime

  // The day of the year of a date: months of 30.6 days from March on.
  function DayOfDate(mon: int, mday: int, leap: bool): int {
    if mon < 2 then 31 * mon + mday - 1
    else (153 * (mon - 2) + 2) / 5 + 59 + (if leap then 1 else 0) + mday - 1
  }

  /** The formula of POSIX gives back the local second that the fields are made from, and
      one more at an inserted second. Month and day are those of the day of the year, and the
      weekday goes round once in seven days from Thursday, 1 January 1970. */
  lemma FieldsArePosix(tm: Tm, local: int, inserted: bool)
    requires Shows(tm, local, inserted)
    ensures PosixSeconds(tm) == local + if inserted then 1 else 0
    ensures var y := tm.year + 1900;
            tm.yday == DayOfDate(tm.mon, tm.mday, y % 4 == 0 && (y % 100 != 0 || y % 400 == 0))
    ensures 0 <= tm.mon <= 11 && 1 <= tm.mday <= 31 && 0 <= tm.yday <= 365 && 0 <= tm.hour <= 23 && 0 <= tm.min <= 59
    ensures 0 <= tm.sec <= 60 && (tm.sec == 60 ==> inserted) && tm.wday == (4 + local / 86400) % 7
  {
    hide *;
    ShowsParts(tm, local, inserted);
    ShowsIs(tm, local, inserted);
    ShowsPosix(tm, local, inserted);
    DateIs(tm.mon, tm.mday, IsLeap(tm.year + 1900));
    LeapIs(tm.year + 1900);
  }

  lemma ShowsIs(tm: Tm, local: int, inserted: bool)
    requires Shows(tm, local, inserted)
    ensures 0 <= tm.mon < 12 && 1 <= tm.mday <= MonthLength(IsLeap(tm.year + 1900), tm.mon)
    ensures tm.yday == MonthStart(IsLeap(tm.year + 1900), tm.mon) + tm.mday - 1
    ensures 0 <= tm.hour < 24 && 0 <= tm.min < 60 && DayNumber(tm) == YearStart(tm.year + 1900) + tm.yday
    ensures (if inserted then 1 else 0) <= tm.sec < 60 + (if inserted then 1 else 0)
    ensures tm.wday == (4 + DayNumber(tm)) % 7 && SECSPERDAY == 86400
    ensures DayNumber(tm) * 86400 + tm.hour * 3600 + tm.min * 60 + tm.sec == local + if inserted then 1 else 0
  {
    hide YearStart, MonthStart, MonthLength, IsLeap;
  }

  lemma LeapIs(y: int)
    ensures IsLeap(y) <==> y % 4 == 0 && (y % 100 != 0 || y % 400 == 0)
  {
  }

  lemma DateIs(mon: int, mday: int, leap: bool)
    requires 0 <= mon < 12 && 1 <= mday <= MonthLength(leap, mon)
    ensures MonthStart(leap, mon) + mday - 1 == DayOfDate(mon, mday, leap) && mday <= 31
    ensures 0 <= DayOfDate(mon, mday, leap) <= 365
  {
    var l := if leap then 1 else 0;
    assert MonthStart(leap, 1) == 31;
    assert MonthStart(leap, 2) == 59 + l;
    assert MonthStart(leap, 3) == 90 + l;
    assert MonthStart(leap, 4) == 120 + l;
    assert MonthStart(leap, 5) == 151 + l;
    assert MonthStart(leap, 6) == 181 + l;
    assert MonthStart(leap, 7) == 212 + l;
    assert MonthStart(leap, 8) == 243 + l;
    assert MonthStart(leap, 9) == 273 + l;
    assert MonthStart(leap, 10) == 304 + l;
    assert MonthStart(leap, 11) == 334 + l;
  }

  /** What localsub answers from a state without leap seconds, however far off: the clock
      of t under the offset of the type looked up. */
  lemma LocalIsPosix(sp: State, t: int, r: Option<Local>)
    requires Usable(sp) && sp.leapcnt == 0 && Answers(sp, t, r) && r.Some?
    ensures PosixSeconds(r.value.tm) == t + r.value.tm.gmtoff && Shows(r.value.tm, t + r.value.tm.gmtoff, false)
  {
    hide Shows, Answers, Folds, PosixSeconds, Searched;
    AnswerOf(sp, t, r);
    FoldIsExact(sp, t, r);
    FieldsArePosix(r.value.tm, t + r.value.tm.gmtoff, false);
  }

  /** Time 0 is midnight at the beginning of Thursday, 1 January, of year 70. */
  lemma Epoch(tm: Tm)
    ensures Shows(tm, 0, false) <==> tm == Tm(0, 0, 0, 1, 0, 70, 4, 0, tm.isdst, tm.gmtoff)
  {
    var epoch := Tm(0, 0, 0, 1, 0, 70, 4, 0, tm.isdst, tm.gmtoff);
    assert Shows(epoch, 0, false);
    if Shows(tm, 0, false) {
      FieldsUnique(tm, epoch, 0, false);
    }
  }

  /** And 951782400 is midnight at the beginning of Tuesday, 29 February 2000. */
  lemma LeapDay(tm: Tm)
    ensures Shows(tm, 951782400, false) <==> tm == Tm(0, 0, 0, 29, 1, 100, 2, 59, tm.isdst, tm.gmtoff)
  {
    var day := Tm(0, 0, 0, 29, 1, 100, 2, 59, tm.isdst, tm.gmtoff);
    YearIsPosix(100);
    assert YearStart(2000) == 10957;
    hide YearStart;
    assert MonthStart(true, 1) == 31 && IsLeap(2000);
    assert DayNumber(day) == 10957 + 59;
    assert Encode(day) == 951782400;
    assert Shows(day, 951782400, false);
    if Shows(tm, 951782400, false) {
      FieldsUnique(tm, day, 951782400, false);
    }
  }

  lemma FarYears()
    ensures YearStart(-0x8000_0000) == -784353015833 && YearStart(0x8000_0000) == 784351576777
    ensures YearStart(1900 - 0x8000_0000) == -784352321872
  {
    hide YearStart;
    YearStartClosed(-0x8000_0000);
    YearStartClosed(0x8000_0000);
    YearStartClosed(1900 - 0x8000_0000);
  }

  /** When timesub has no answer, in numbers: if the local second is not in a year whose
      tm_year is an int, which is before 1 January -2147481748 or after 2147483647; or the
      day of UT is not in a year that is one. */
  lemma OutOfRangeIff(t: int, local: int)
    ensures OutOfRange(t, local) <==>
              || !(-67768040609740800 <= local <= 67767976233532799)
              || !(-784353015833 <= Quot(t, 86400) < 784351576777)
  {
    hide YearOf, YearStart, Quot;
    FarYears();
    var d, u := local / 86400, Quot(t, 86400);
    YearAround(-0x8000_0000, u);
    YearAround(0x8000_0000, u);
    YearAround(-0x8000_0000, d);
    YearAround(0x8000_0000, d);
    YearAround(1900 - 0x8000_0000, d);
  }

  /** The correction is that of the last leap second not after t, none before the first. */
  lemma CorrectionIs(lsis: seq<LeapInfo>, t: int, i: nat)
    requires i <= |lsis| && (i > 0 ==> lsis[i - 1].trans <= t) && forall k :: i <= k < |lsis| ==> t < lsis[k].trans
    ensures Correction(lsis, t) == if i == 0 then 0 else lsis[i - 1].corr
    ensures Inserted(lsis, t) <==> i > 0 && lsis[i - 1].trans == t && lsis[i - 1].corr > if i == 1 then 0 else lsis[i - 2].corr
  {
    hide LeapIndex;
    var j := LeapIndex(lsis, t);
    assert j == i - 1;
  }

  /** With leap seconds, inside the table: the leap seconds so far are taken out, and an
      inserted second counts with the next one. */
  lemma LocalWithLeaps(sp: State, t: int, r: Option<Local>)
    requires Usable(sp) && Folds(sp, t) == 0 && Answers(sp, t, r) && r.Some?
    ensures PosixSeconds(r.value.tm)
            == t + r.value.tm.gmtoff - Correction(sp.Leaps(), t) + if Inserted(sp.Leaps(), t) then 1 else 0
  {
    hide Shows, Folds, Lands, PosixSeconds, Searched, Correction, Inserted, OutOfRange;
    AnswerOf(sp, t, r);
    ShowsPosix(r.value.tm, LocalAt(sp, t), Inserted(sp.Leaps(), t));
  }
}
