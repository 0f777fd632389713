/** Broken-down time: timesub, which turns a time into calendar fields, and what
    those fields mean. */
module CivilTime {
  import opened CArith
  import opened Calendar
  import opened Wrappers

  // A leap second record: from ls_trans on, ls_corr leap seconds have passed.
  datatype LeapInfo = LeapInfo(trans: int, corr: int)

  datatype Tm = Tm(sec: int, min: int, hour: int, mday: int, mon: int, year: int,
                   wday: int, yday: int, isdst: bool, gmtoff: int)

  // The last record in force at t, or -1.
  function LeapIndex(lsis: seq<LeapInfo>, t: int): (i: int)
    ensures -1 <= i < |lsis|
    ensures i >= 0 ==> lsis[i].trans <= t
    ensures forall k :: i < k < |lsis| ==> t < lsis[k].trans
  {
    if lsis == [] then -1
    else if t >= lsis[|lsis| - 1].trans then |lsis| - 1
    else LeapIndex(lsis[..|lsis| - 1], t)
  }

  function CorrectionAt(lsis: seq<LeapInfo>, i: int): int
    requires -1 <= i < |lsis|
  {
    if i < 0 then 0 else lsis[i].corr
  }

  // Leap seconds counted up to and including t.
  function Correction(lsis: seq<LeapInfo>, t: int): int {
    CorrectionAt(lsis, LeapIndex(lsis, t))
  }

  // Whether t itself is an inserted second.
  predicate Inserted(lsis: seq<LeapInfo>, t: int) {
    var i := LeapIndex(lsis, t);
    i >= 0 && t == lsis[i].trans && CorrectionAt(lsis, i - 1) < lsis[i].corr
  }

  // Seconds from 1970-01-01 00:00:00 on the local clock, leap seconds not counted.
  function LocalSeconds(t: int, offset: int, lsis: seq<LeapInfo>): int {
    t + offset - Correction(lsis, t)
  }

  // The day number and the second count the fields stand for.
  function DayNumber(tm: Tm): int {
    YearStart(tm.year + TM_YEAR_BASE) + tm.yday
  }

  function Encode(tm: Tm): int {
    DayNumber(tm) * SECSPERDAY + tm.hour * 3600 + tm.min * 60 + tm.sec
  }

  /** The fields are those of the local second `local`; an inserted second shows
      one past it. */
  ghost predicate Shows(tm: Tm, local: int, inserted: bool) {
    var extra := if inserted then 1 else 0;
    var leap := IsLeap(tm.year + TM_YEAR_BASE);
    && 0 <= tm.mon < 12
    && 1 <= tm.mday <= MonthLength(leap, tm.mon)
    && tm.yday == MonthStart(leap, tm.mon) + tm.mday - 1
    && 0 <= tm.hour < 24
    && 0 <= tm.min < 60
    && extra <= tm.sec < 60 + extra
    && Encode(tm) == local + extra
    && tm.wday == (EPOCH_WDAY + DayNumber(tm)) % 7
  }

  /** The Seconds Since the Epoch of POSIX (Base Definitions, section 4.16), with floored
      quotients. */
  function PosixSeconds(tm: Tm): int {
    tm.sec + tm.min * 60 + tm.hour * 3600 + tm.yday * 86400
    + (tm.year - 70) * 31536000 + (tm.year - 69) / 4 * 86400
    - (tm.year - 1) / 100 * 86400 + (tm.year + 299) / 400 * 86400
  }

  /** What fields show is their Seconds Since the Epoch. */
  lemma ShowsPosix(tm: Tm, local: int, inserted: bool)
    requires Shows(tm, local, inserted)
    ensures PosixSeconds(tm) == local + if inserted then 1 else 0
  {
    YearIsPosix(tm.year);
    hide YearStart, MonthStart, MonthLength, IsLeap;
  }

  lemma YearIsPosix(year: int)
    ensures YearStart(year + 1900) == (year - 70) * 365 + (year - 69) / 4 - (year - 1) / 100 + (year + 299) / 400
  {
    hide YearStart, LeapsThruEndOf;
    YearStartClosed(year + 1900);
    LeapsFloor(year + 1899);
    LeapsFloor(1969);
    FloorIs(year + 1899, 4, (year - 69) / 4 + 492, (year - 69) % 4);
    FloorIs(year + 1899, 100, (year - 1) / 100 + 19, (year - 1) % 100);
    FloorIs(year + 1899, 400, (year + 299) / 400 + 4, (year + 299) % 400);
  }

  /** The years for which timesub reports EOVERFLOW: the year of the uncorrected
      UT day, then the local year, kept in an int first as such and then less 1900. */
  predicate OutOfRange(t: int, local: int) {
    var y := YearOf(local / SECSPERDAY);
    !IsInt(YearOf(Quot(t, SECSPERDAY))) || !IsInt(y) || !IsInt(y - TM_YEAR_BASE)
  }

  /** Source/tzdb.h:1936-1956, the search timesub makes through the leap records. */
  method FindLeap(t: int, lsis: seq<LeapInfo>) returns (corr: int, hit: bool)
    ensures corr == Correction(lsis, t)
    ensures hit == Inserted(lsis, t)
  {
    corr, hit := 0, false;
    var i := |lsis| - 1;
    while i >= 0
      invariant -1 <= i < |lsis|
      invariant LeapIndex(lsis, t) == LeapIndex(lsis[..i + 1], t)
    {
      var lp := lsis[i];
      assert lsis[..i + 1][..i] == lsis[..i];
      if t >= lp.trans {
        corr := lp.corr;
        hit := t == lp.trans && (if i == 0 then 0 else lsis[i - 1].corr) < corr;
        return;
      }
      i := i - 1;
    }
  }

  method LeapCorr(lsis: seq<LeapInfo>, t: int) returns (corr: int)
    ensures corr == Correction(lsis, t)
  {
    var i := |lsis| - 1;
    while i >= 0
      invariant -1 <= i < |lsis|
      invariant LeapIndex(lsis, t) == LeapIndex(lsis[..i + 1], t)
    {
      assert lsis[..i + 1][..i] == lsis[..i];
      if t >= lsis[i].trans {
        return lsis[i].corr;
      }
      i := i - 1;
    }
    corr := 0;
  }

  // The year the guessing loop has reached lies between 1970 and the year sought.
  ghost predicate Approaching(y: int, d: int) {
    var target := YearOf(d);
    if d >= 0 then EPOCH_YEAR <= y <= target else target <= y <= EPOCH_YEAR
  }

  ghost function Distance(y: int, d: int): nat {
    var target := YearOf(d);
    if y < target then target - y else y - target
  }

  lemma StartsApproaching(d: int)
    ensures Approaching(EPOCH_YEAR, d) && YearStart(EPOCH_YEAR) == 0
  {
    if d >= 0 && YearOf(d) < EPOCH_YEAR {
      YearSpan(YearOf(d) + 1, EPOCH_YEAR);
    } else if d < 0 && YearOf(d) > EPOCH_YEAR {
      YearSpan(EPOCH_YEAR, YearOf(d));
    }
  }

  // The step timesub takes from year y, tdays days short of the goal.
  function YearGuess(tdays: int): int {
    var idelta := Quot(tdays, 366);
    if idelta == 0 then if tdays < 0 then -1 else 1 else idelta
  }

  /** A step towards the year sought never passes it. */
  lemma GuessApproaches(y: int, d: int)
    requires Approaching(y, d)
    requires !(YearStart(y) <= d < YearStart(y) + YearLength(y))
    ensures var newy := y + YearGuess(d - YearStart(y));
            Approaching(newy, d) && Distance(newy, d) < Distance(y, d)
  {
    var target, tdays := YearOf(d), d - YearStart(y);
    YearStartStep(y);
    if d >= 0 {
      YearSpan(y, target);
      if y == target {
      } else {
        YearSpan(y + 1, target);
        YearSpan(y, target + 1);
        assert tdays < 366 * (target + 1 - y);
      }
    } else {
      YearSpan(target, y);
      if y == target {
      } else {
        YearSpan(target + 1, y);
        assert -tdays <= 366 * (y - target);
      }
    }
  }

  /** A guess too large for an int is not made for a year that is an int. */
  lemma GuessFits(y: int, d: int)
    requires Approaching(y, d) && IsInt(YearOf(d))
    ensures IsInt(Quot(d - YearStart(y), 366))
  {
    hide *;
    var target := YearOf(d);
    ApproachingMeans(y, d);
    if d >= 0 {
      YearSpan(y, target);
      YearSpan(y, target + 1);
    } else {
      LeastYear();
      YearSpan(INT_MIN, target);
      YearSpan(y, EPOCH_YEAR);
      if target < y {
        YearSpan(target + 1, y);
      } else {
        YearSpan(y, y + 1);
      }
    }
    QuotFits(d - YearStart(y));
  }

  lemma ApproachingMeans(y: int, d: int)
    requires Approaching(y, d) && IsInt(YearOf(d))
    ensures YearStart(YearOf(d)) <= d < YearStart(YearOf(d) + 1) && YearStart(EPOCH_YEAR) == 0
    ensures d >= 0 ==> EPOCH_YEAR <= y <= YearOf(d) <= INT_MAX
    ensures d < 0 ==> INT_MIN <= YearOf(d) <= y <= EPOCH_YEAR
    ensures INT_MIN == -0x8000_0000 && INT_MAX == 0x7FFF_FFFF && EPOCH_YEAR == 1970
  {
  }

  // The first year that is an int.
  lemma LeastYear()
    ensures YearStart(INT_MIN) >= 366 * INT_MIN
  {
    YearStartClosed(INT_MIN);
  }

  lemma QuotFits(n: int)
    requires 366 * INT_MIN <= n <= 366 * INT_MAX
    ensures IsInt(Quot(n, 366))
  {
  }

  /** Source/tzdb.h:1957-1981: the year of day d, and the day within it. */
  method SplitYear(d: int) returns (r: Option<(int, int)>)
    ensures r.None? <==> !IsInt(YearOf(d))
    ensures r.Some? ==> r.value == (YearOf(d), d - YearStart(YearOf(d)))
  {
    hide YearStart, YearOf, LeapsThruEndOf;
    var y, tdays := EPOCH_YEAR, d;
    StartsApproaching(d);
    while tdays < 0 || tdays >= YearLength(y)
      invariant IsInt(y)
      invariant Approaching(y, d)
      invariant tdays == d - YearStart(y)
      decreases Distance(y, d)
    {
      var tdelta := Quot(tdays, 366);
      if !(INT_MIN <= tdelta && tdelta <= INT_MAX) {
        if IsInt(YearOf(d)) {
          GuessFits(y, d);
        }
        return None;
      }
      var idelta := tdelta;
      if idelta == 0 {
        idelta := if tdays < 0 then -1 else 1;
      }
      GuessApproaches(y, d);
      var overflow, newy := IncrementOverflow(y, idelta);
      if overflow {
        return None;
      }
      var leapdays := LeapsThruEndOf(newy - 1) - LeapsThruEndOf(y - 1);
      YearStartClosed(y);
      YearStartClosed(newy);
      tdays := tdays - (newy - y) * 365;
      tdays := tdays - leapdays;
      y := newy;
    }
    YearStartStep(y);
    YearOfUnique(y, d);
    r := Some((y, tdays));
  }

  /** Source/tzdb.h:1985-1993: carries seconds into days. */
  method CarrySeconds(tdays: int, rem0: int) returns (idays: int, rem: int)
    ensures idays == tdays + rem0 / SECSPERDAY && rem == rem0 % SECSPERDAY
  {
    idays, rem := tdays, rem0;
    while rem < 0
      invariant rem < SECSPERDAY || rem == rem0
      invariant (idays - tdays) * SECSPERDAY + rem == rem0
      decreases -rem
    {
      rem := rem + SECSPERDAY;
      idays := idays - 1;
    }
    while rem >= SECSPERDAY
      invariant 0 <= rem
      invariant (idays - tdays) * SECSPERDAY + rem == rem0
    {
      rem := rem - SECSPERDAY;
      idays := idays + 1;
    }
  }

  /** Source/tzdb.h:1994-2004: carries days into years, then checks tm_year. */
  method CarryDays(y0: int, idays0: int) returns (r: Option<(int, int)>)
    requires IsInt(y0)
    ensures var d := YearStart(y0) + idays0;
            var y := YearOf(d);
            && (r.None? <==> !IsInt(y) || !IsInt(y - TM_YEAR_BASE))
            && (r.Some? ==> r.value == (y, d - YearStart(y)))
  {
    var y, idays := y0, idays0;
    ghost var goal := YearStart(y0) + idays0;
    ghost var target := YearOf(goal);
    YearAround(y, goal);
    while idays < 0
      invariant IsInt(y) && y <= y0
      invariant YearStart(y) + idays == goal
      invariant idays < 0 <==> target < y
      decreases -idays
    {
      YearStartStep(y - 1);
      var overflow, prev := IncrementOverflow(y, -1);
      if overflow {
        return None;
      }
      y := prev;
      idays := idays + YearLength(y);
      YearAround(y, goal);
    }
    while idays >= YearLength(y)
      invariant IsInt(y) && idays >= 0
      invariant YearStart(y) + idays == goal
      invariant y <= target
    {
      YearStartStep(y);
      idays := idays - YearLength(y);
      YearAround(y + 1, goal);
      var overflow, next := IncrementOverflow(y, 1);
      if overflow {
        assert !IsInt(target);
        return None;
      }
      y := next;
    }
    YearStartStep(y);
    YearOfUnique(y, goal);
    var overflow, year := IncrementOverflow(y, -TM_YEAR_BASE);
    if overflow {
      return None;
    }
    r := Some((y, idays));
  }

  lemma YearAround(y: int, d: int)
    ensures d < YearStart(y) <==> YearOf(d) < y
  {
    var z := YearOf(d);
    if z < y {
      YearSpan(z + 1, y);
    } else {
      YearSpan(y, z);
    }
  }

  /** Source/tzdb.h:2009-2020: the weekday, computed so that no term is large. */
  method Weekday(y: int, idays: int) returns (wday: int)
    ensures wday == (EPOCH_WDAY + YearStart(y) + idays) % 7
  {
    wday := EPOCH_WDAY + Rem(y - EPOCH_YEAR, 7) * (365 % 7)
            + LeapsThruEndOf(y - 1) - LeapsThruEndOf(EPOCH_YEAR - 1) + idays;
    ghost var sevens := Sevens(y - EPOCH_YEAR);
    YearStartClosed(y);
    SameWeekday(EPOCH_WDAY + YearStart(y) + idays, wday, sevens);
    wday := Rem(wday, 7);
    if wday < 0 {
      wday := wday + 7;
    }
  }

  lemma Sevens(k: int) returns (n: int)
    ensures 365 * k - Rem(k, 7) * (365 % 7) == 7 * n
  {
    n := 52 * k + Quot(k, 7);
  }

  lemma SameWeekday(a: int, b: int, n: int)
    requires a - b == 7 * n
    ensures a % 7 == b % 7
    ensures b % 7 == if Rem(b, 7) < 0 then Rem(b, 7) + 7 else Rem(b, 7)
  {
    FloorIs(a, 7, b / 7 + n, b % 7);
    if b < 0 {
      var q, r := -b / 7, -b % 7;
      if r == 0 {
        FloorIs(b, 7, -q, 0);
      } else {
        FloorIs(b, 7, -q - 1, 7 - r);
      }
    }
  }

  /** Source/tzdb.h:2021-2028. */
  method Clock(secs: int, hit: bool) returns (hour: int, min: int, sec: int)
    requires 0 <= secs < SECSPERDAY
    ensures 0 <= hour < 24 && 0 <= min < 60
    ensures var extra := if hit then 1 else 0;
            extra <= sec < 60 + extra && hour * 3600 + min * 60 + sec == secs + extra
  {
    hour := Quot(secs, 3600);
    var rem := Rem(secs, 3600);
    min := Quot(rem, 60);
    sec := Rem(rem, 60) + (if hit then 1 else 0);
  }

  /** Source/tzdb.h:2029-2032. */
  method SplitMonth(leap: bool, yday: int) returns (mon: int, mday: int)
    requires 0 <= yday < if leap then 366 else 365
    ensures 0 <= mon < 12 && 1 <= mday <= MonthLength(leap, mon)
    ensures yday == MonthStart(leap, mon) + mday - 1
  {
    var idays := yday;
    mon := 0;
    MonthStarts(leap);
    while idays >= MonthLength(leap, mon)
      invariant 0 <= mon < 12 && 0 <= idays
      invariant yday == MonthStart(leap, mon) + idays
      decreases 12 - mon
    {
      idays := idays - MonthLength(leap, mon);
      mon := mon + 1;
    }
    mday := idays + 1;
  }

  lemma MonthStarts(leap: bool)
    ensures MonthStart(leap, 12) == if leap then 366 else 365
  {
    var l := if leap then 1 else 0;
    assert MonthStart(leap, 1) == 31;
    assert MonthStart(leap, 2) == 59 + l;
    assert MonthStart(leap, 4) == 120 + l;
    assert MonthStart(leap, 6) == 181 + l;
    assert MonthStart(leap, 8) == 243 + l;
    assert MonthStart(leap, 10) == 304 + l;
  }

  lemma SplitDay(t: int, shift: int)
    ensures var d, rem := Quot(t, SECSPERDAY), Rem(t, SECSPERDAY) + shift;
            d + rem / SECSPERDAY == (t + shift) / SECSPERDAY
            && rem % SECSPERDAY == (t + shift) % SECSPERDAY
  {
    var d, rem := Quot(t, SECSPERDAY), Rem(t, SECSPERDAY) + shift;
    assert t + shift == d * SECSPERDAY + rem;
    FloorIs(t + shift, SECSPERDAY, d + rem / SECSPERDAY, rem % SECSPERDAY);
  }

  /** Source/tzdb.h:1929-2034. */
  method Timesub(t: int, offset: int, lsis: seq<LeapInfo>) returns (r: Option<Tm>)
    requires IsTime(t)
    ensures r.None? <==> OutOfRange(t, LocalSeconds(t, offset, lsis))
    ensures r.Some? ==> Shows(r.value, LocalSeconds(t, offset, lsis), Inserted(lsis, t))
    ensures r.Some? ==> PosixSeconds(r.value) == t + offset - Correction(lsis, t) + if Inserted(lsis, t) then 1 else 0
    ensures r.Some? ==> r.value.gmtoff == offset && !r.value.isdst
  {
    hide LeapIndex, CorrectionAt, YearOf, YearFrom, YearStart, MonthStart, MonthLength, PosixSeconds;
    var corr, hit := FindLeap(t, lsis);
    var rem := Rem(t, SECSPERDAY);
    var year := SplitYear(Quot(t, SECSPERDAY));
    if year.None? {
      return None;
    }
    var (y0, tdays) := year.value;
    rem := rem + (offset - corr);
    SplitDay(t, offset - corr);
    var idays;
    idays, rem := CarrySeconds(tdays, rem);
    var day := CarryDays(y0, idays);
    if day.None? {
      return None;
    }
    var y;
    y, idays := day.value.0, day.value.1;
    var wday := Weekday(y, idays);
    var hour, min, sec := Clock(rem, hit);
    YearStartStep(y);
    var mon, mday := SplitMonth(IsLeap(y), idays);
    r := Some(Tm(sec, min, hour, mday, mon, y - TM_YEAR_BASE, wday, idays, false, offset));
    ShowsPosix(r.value, LocalSeconds(t, offset, lsis), hit);
  }
}
