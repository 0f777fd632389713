/** The table tzparse unrolls from a pair of yearly rules. */
module RuleTable {
  import opened Calendar
  import opened CivilTime
  import opened CivilOrder
  import opened Rules
  import opened ZoneState

  // The rules of a POSIX TZ string; offsets are seconds west of UT.
  datatype Zone = Zone(stdoffset: int, dstoffset: int, start: Rule, end: Rule)

  // getsecs accepts up to 167:59:60.
  const MAX_OFFSET := 168 * 3600

  predicate ValidZone(z: Zone) {
    && -MAX_OFFSET <= z.stdoffset <= MAX_OFFSET
    && -MAX_OFFSET - 3600 <= z.dstoffset <= MAX_OFFSET
    && InRange(z.start) && -MAX_OFFSET <= z.start.time <= MAX_OFFSET
    && InRange(z.end) && -MAX_OFFSET <= z.end.time <= MAX_OFFSET
  }

  function StartAt(z: Zone, y: int): int
    requires ValidZone(z)
  {
    YearStart(y) * SECSPERDAY + RuleTime(y, z.start) + z.stdoffset
  }

  function EndAt(z: Zone, y: int): int
    requires ValidZone(z)
  {
    YearStart(y) * SECSPERDAY + RuleTime(y, z.end) + z.dstoffset
  }

  predicate Reversed(z: Zone, y: int)
    requires ValidZone(z)
  {
    EndAt(z, y) < StartAt(z, y)
  }

  /** Years whose two changes tzparse keeps: those with daylight time at both ends, and
      those with some that does not last as long as the year and the difference of the
      offsets (Source/tzdb.h:1669-1673). */
  predicate Kept(z: Zone, y: int)
    requires ValidZone(z)
  {
    || Reversed(z, y)
    || (&& StartAt(z, y) < EndAt(z, y)
        && EndAt(z, y) - StartAt(z, y) < YearLength(y) * SECSPERDAY + (z.stdoffset - z.dstoffset))
  }

  // The earlier and the later change of year y; type 1 is daylight time.
  function First(z: Zone, y: int): Transition
    requires ValidZone(z)
  {
    if Reversed(z, y) then Transition(EndAt(z, y), 0) else Transition(StartAt(z, y), 1)
  }

  function Second(z: Zone, y: int): Transition
    requires ValidZone(z)
  {
    if Reversed(z, y) then Transition(StartAt(z, y), 1) else Transition(EndAt(z, y), 0)
  }

  // The changes of the years lo to hi - 1.
  function Unrolled(z: Zone, lo: int, hi: int): (s: seq<Transition>)
    requires ValidZone(z)
    ensures |s| % 2 == 0 && (lo < hi ==> |s| <= 2 * (hi - lo))
    decreases hi - lo
  {
    hide Kept, First, Second;
    if hi <= lo then []
    else Unrolled(z, lo, hi - 1) + if Kept(z, hi - 1) then [First(z, hi - 1), Second(z, hi - 1)] else []
  }

  /** No year's changes run into the next year's, or touch them. */
  ghost predicate Spaced(z: Zone)
    requires ValidZone(z)
  {
    forall y :: Second(z, y).at < First(z, y + 1).at
  }

  /** No kept year's changes run into the next year's, if that is kept too. */
  ghost predicate Parted(z: Zone)
    requires ValidZone(z)
  {
    forall y :: Kept(z, y) && Kept(z, y + 1) ==> Second(z, y).at <= First(z, y + 1).at
  }

  const SLACK := 2 * MAX_OFFSET + 3600

  // A year's changes are near that year.
  lemma ChangesNearYear(z: Zone, y: int)
    requires ValidZone(z)
    ensures var day0 := YearStart(y) * SECSPERDAY;
            && day0 - SLACK <= First(z, y).at <= Second(z, y).at <= day0 + 365 * SECSPERDAY + SLACK
  {
    RuleDayBound(y, z.start);
    RuleDayBound(y, z.end);
  }

  lemma RuleDayBound(y: int, rule: Rule)
    requires InRange(rule)
    ensures 0 <= RuleDay(y, rule) <= 365
  {
    hide MonthStart, MonthLength, FirstWeekday, IsLeap;
    if rule.kind.MonthNthDayOfWeek? {
      var leap := IsLeap(y);
      MonthStarts(leap);
      MonthStartStep(leap, rule.mon - 1);
      MonthStartBound(leap, rule.mon - 1);
      MonthStartBound(leap, rule.mon);
    }
  }

  lemma MonthStartStep(leap: bool, m: int)
    requires 0 <= m < 12
    ensures MonthStart(leap, m + 1) == MonthStart(leap, m) + MonthLength(leap, m) && 28 <= MonthLength(leap, m) <= 31
  {
  }

  lemma MonthStartBound(leap: bool, m: int)
    requires 0 <= m <= 12
    ensures 0 <= MonthStart(leap, m)
    ensures MonthStart(leap, m) <= MonthStart(leap, 12)
  {
    MonthStartMonotone(leap, 0, m);
    MonthStartMonotone(leap, m, 12);
  }

  lemma FirstBeforeSecond(z: Zone, y: int)
    requires ValidZone(z)
    ensures First(z, y).at <= Second(z, y).at
    ensures Kept(z, y) ==> First(z, y).at < Second(z, y).at
  {
  }

  lemma ChangeTypes(z: Zone, y: int)
    requires ValidZone(z)
    ensures 0 <= First(z, y).ty <= 1 && 0 <= Second(z, y).ty <= 1
  {
  }

  // Changes of years that are not neighbours do not come near each other.
  lemma FarApart(z: Zone, y: int, y': int)
    requires ValidZone(z) && y + 1 < y'
    ensures Second(z, y).at < First(z, y').at
  {
    hide First, Second;
    YearSpan(y, y');
    ChangesNearYear(z, y);
    ChangesNearYear(z, y');
  }

  /** The changes of different kept years come in the order of the years; those of years
      that are not neighbours, whether kept or not. */
  lemma KeptOrder(z: Zone, y: int, y': int)
    requires ValidZone(z) && y < y' && (y + 1 < y' || (Parted(z) && Kept(z, y) && Kept(z, y')))
    ensures Second(z, y).at <= First(z, y').at
    ensures y + 1 < y' || Spaced(z) ==> Second(z, y).at < First(z, y').at
  {
    hide First, Second, Kept;
    if y' > y + 1 {
      FarApart(z, y, y');
    }
  }

  /** The rule has a 400-year period. */
  lemma ChangePeriod(z: Zone, y: int)
    requires ValidZone(z)
    ensures Kept(z, y + YEARSPERREPEAT) == Kept(z, y)
    ensures First(z, y + YEARSPERREPEAT) == First(z, y).(at := First(z, y).at + SECSPERREPEAT)
    ensures Second(z, y + YEARSPERREPEAT) == Second(z, y).(at := Second(z, y).at + SECSPERREPEAT)
  {
    RuleDayPeriod(y, z.start);
    RuleDayPeriod(y, z.end);
    YearStartPeriod(y);
    LeapPeriod(y);
  }

  lemma {:induction false} ChangeCycles(z: Zone, y: int, cycles: int)
    requires ValidZone(z)
    ensures Kept(z, y + cycles * YEARSPERREPEAT) == Kept(z, y)
    ensures First(z, y + cycles * YEARSPERREPEAT) == First(z, y).(at := First(z, y).at + cycles * SECSPERREPEAT)
    ensures Second(z, y + cycles * YEARSPERREPEAT) == Second(z, y).(at := Second(z, y).at + cycles * SECSPERREPEAT)
    decreases if cycles < 0 then -cycles else cycles
  {
    hide *;
    if cycles > 0 {
      var near := y + (cycles - 1) * YEARSPERREPEAT;
      ChangeCycles(z, y, cycles - 1);
      ChangePeriod(z, near);
      OneMore(cycles, YEARSPERREPEAT);
      OneMore(cycles, SECSPERREPEAT);
    } else if cycles < 0 {
      var far := y + cycles * YEARSPERREPEAT;
      ChangeCycles(z, y, cycles + 1);
      ChangePeriod(z, far);
      OneMore(cycles + 1, YEARSPERREPEAT);
      OneMore(cycles + 1, SECSPERREPEAT);
    } else {
      NoCycles();
    }
  }

  lemma OneMore(k: int, n: int)
    ensures (k - 1) * n + n == k * n
  {
  }

  lemma NoCycles()
    ensures 0 * YEARSPERREPEAT == 0 && 0 * SECSPERREPEAT == 0
  {
  }

  /** Checking one 400-year cycle is enough to know that kept years do not run into each
      other. */
  lemma PartedByCycle(z: Zone)
    requires ValidZone(z)
    requires forall y :: EPOCH_YEAR <= y < EPOCH_YEAR + YEARSPERREPEAT && Kept(z, y) && Kept(z, y + 1) ==>
                           Second(z, y).at <= First(z, y + 1).at
    ensures Parted(z)
  {
    hide First, Second, Kept;
    forall y | Kept(z, y) && Kept(z, y + 1)
      ensures Second(z, y).at <= First(z, y + 1).at
    {
      var c := -((y - EPOCH_YEAR) / YEARSPERREPEAT);
      var near := y + c * YEARSPERREPEAT;
      ChangeCycles(z, y, c);
      ChangeCycles(z, y + 1, c);
      assert EPOCH_YEAR <= near < EPOCH_YEAR + YEARSPERREPEAT && y + 1 + c * YEARSPERREPEAT == near + 1;
    }
  }

  // Where the table holds the changes of year y.
  lemma {:induction false} UnrolledHas(z: Zone, lo: int, hi: int, y: int)
    requires ValidZone(z) && lo <= y < hi && Kept(z, y)
    ensures var s, i := Unrolled(z, lo, hi), |Unrolled(z, lo, y)|;
            i + 1 < |s| && s[i] == First(z, y) && s[i + 1] == Second(z, y)
    decreases hi - lo
  {
    hide First, Second, Kept;
    if y < hi - 1 {
      UnrolledHas(z, lo, hi - 1, y);
    }
  }

  // The year whose change entry i is.
  lemma {:induction false} UnrolledYear(z: Zone, lo: int, hi: int, i: nat) returns (y: int)
    requires ValidZone(z) && i < |Unrolled(z, lo, hi)|
    ensures lo <= y < hi && Kept(z, y)
    ensures i == |Unrolled(z, lo, y)| || i == |Unrolled(z, lo, y)| + 1
    decreases hi - lo
  {
    hide First, Second, Kept;
    if i < |Unrolled(z, lo, hi - 1)| {
      y := UnrolledYear(z, lo, hi - 1, i);
    } else {
      y := hi - 1;
    }
  }

  lemma {:induction false} UnrolledGrows(z: Zone, lo: int, y: int, hi: int)
    requires ValidZone(z) && lo <= y <= hi
    ensures |Unrolled(z, lo, y)| <= |Unrolled(z, lo, hi)|
    ensures y < hi && Kept(z, y) ==> |Unrolled(z, lo, y)| + 2 <= |Unrolled(z, lo, hi)|
    decreases hi - lo
  {
    hide First, Second, Kept;
    if y < hi {
      UnrolledGrows(z, lo, y, hi - 1);
    }
  }

  // Entries i < j of the table.
  lemma EntryOrder(z: Zone, lo: int, hi: int, i: nat, j: nat)
    requires ValidZone(z) && Parted(z) && i < j < |Unrolled(z, lo, hi)|
    ensures Unrolled(z, lo, hi)[i].at <= Unrolled(z, lo, hi)[j].at
    ensures Spaced(z) ==> Unrolled(z, lo, hi)[i].at < Unrolled(z, lo, hi)[j].at
  {
    hide First, Second, Kept, Unrolled;
    var y := UnrolledYear(z, lo, hi, i);
    var y' := UnrolledYear(z, lo, hi, j);
    UnrolledHas(z, lo, hi, y);
    UnrolledHas(z, lo, hi, y');
    FirstBeforeSecond(z, y);
    FirstBeforeSecond(z, y');
    if y < y' {
      KeptOrder(z, y, y');
    } else if y' < y {
      UnrolledGrows(z, lo, y', y);
    }
  }

  /** The table is in order; strictly so if no years touch. */
  lemma UnrolledOrdered(z: Zone, lo: int, hi: int)
    requires ValidZone(z) && Parted(z)
    ensures NonDecreasing(Unrolled(z, lo, hi))
    ensures Spaced(z) ==> Increasing(Unrolled(z, lo, hi))
  {
    forall i, j | 0 <= i < j < |Unrolled(z, lo, hi)|
      ensures Unrolled(z, lo, hi)[i].at <= Unrolled(z, lo, hi)[j].at
      ensures Spaced(z) ==> Unrolled(z, lo, hi)[i].at < Unrolled(z, lo, hi)[j].at
    {
      EntryOrder(z, lo, hi, i, j);
    }
  }

  /** A full table is in order exactly then. */
  lemma TableOrderedIff(z: Zone, lo: int, hi: int)
    requires ValidZone(z) && |Unrolled(z, lo, hi)| == TZ_MAX_TIMES
    ensures NonDecreasing(Unrolled(z, lo, hi)) <==> Parted(z)
  {
    hide First, Second, Kept, Unrolled;
    if Parted(z) {
      UnrolledOrdered(z, lo, hi);
    } else {
      var y :| Kept(z, y) && Kept(z, y + 1) && Second(z, y).at > First(z, y + 1).at;
      RunsInto(z, lo, hi, y);
    }
  }

  // Years that run into each other are in the table, as others whole cycles away.
  lemma RunsInto(z: Zone, lo: int, hi: int, y: int)
    requires ValidZone(z) && |Unrolled(z, lo, hi)| == TZ_MAX_TIMES
    requires Kept(z, y) && Kept(z, y + 1) && Second(z, y).at > First(z, y + 1).at
    ensures !NonDecreasing(Unrolled(z, lo, hi))
  {
    hide First, Second, Kept;
    var c := (lo - y) / YEARSPERREPEAT + 1;
    var near := y + c * YEARSPERREPEAT;
    assert lo <= near <= lo + YEARSPERREPEAT;
    ChangeCycles(z, y, c);
    ChangeCycles(z, y + 1, c);
    assert y + 1 + c * YEARSPERREPEAT == near + 1;
    UnrolledHas(z, lo, hi, near);
    UnrolledHas(z, lo, hi, near + 1);
    assert Unrolled(z, lo, near + 1) == Unrolled(z, lo, near) + [First(z, near), Second(z, near)];
    var s, i := Unrolled(z, lo, hi), |Unrolled(z, lo, near)|;
    assert s[i + 1].at > s[i + 2].at;
  }

  /** Inside the years of the table, Pick finds the last change not after t. */
  lemma {:induction false} PickUnrolled(z: Zone, lo: int, hi: int, default: int, t: int) returns (y: int)
    requires ValidZone(z)
    requires var s := Unrolled(z, lo, hi); s != [] && s[0].at <= t
    ensures lo <= y < hi && Kept(z, y) && First(z, y).at <= t
    ensures forall y' :: y < y' < hi && Kept(z, y') ==> t < First(z, y').at
    ensures Pick(Unrolled(z, lo, hi), default, t)
            == if t < Second(z, y).at then First(z, y).ty else Second(z, y).ty
    decreases hi - lo
  {
    hide First, Second, Kept;
    var s, front := Unrolled(z, lo, hi), Unrolled(z, lo, hi - 1);
    if !Kept(z, hi - 1) {
      assert s == front;
      y := PickUnrolled(z, lo, hi - 1, default, t);
    } else {
      FirstBeforeSecond(z, hi - 1);
      PickPair(front, First(z, hi - 1), Second(z, hi - 1), default, t);
      if t >= First(z, hi - 1).at {
        y := hi - 1;
      } else {
        y := PickUnrolled(z, lo, hi - 1, default, t);
      }
    }
  }

  /** A full table reaches over more than 400 years. */
  lemma FullTableSpan(z: Zone, lo: int, hi: int)
    requires ValidZone(z) && |Unrolled(z, lo, hi)| == TZ_MAX_TIMES
    ensures var s := Unrolled(z, lo, hi); s[0].at + SECSPERREPEAT <= s[|s| - 1].at
  {
    hide First, Second, Kept;
    var s := Unrolled(z, lo, hi);
    var y := UnrolledYear(z, lo, hi, 0);
    var last := UnrolledYear(z, lo, hi, |s| - 1);
    UnrolledHas(z, lo, hi, y);
    UnrolledHas(z, lo, hi, last);
    UnrolledFrom(z, lo, y, last);
    ChangePeriod(z, y);
    FirstBeforeSecond(z, last);
    FirstBeforeSecond(z, y + YEARSPERREPEAT);
    FarApart(z, y + YEARSPERREPEAT, last);
  }

  lemma {:induction false} UnrolledFrom(z: Zone, lo: int, y: int, hi: int)
    requires ValidZone(z) && lo <= y && |Unrolled(z, lo, y)| == 0
    ensures |Unrolled(z, lo, hi)| <= if hi <= y then 0 else 2 * (hi - y)
    decreases hi - lo
  {
    hide First, Second, Kept;
    if hi > y {
      UnrolledFrom(z, lo, y, hi - 1);
    } else if lo < hi {
      UnrolledGrows(z, lo, hi, y);
    }
  }

  // 400-year cycles that localsub moves t by to bring it into the table.
  function Cycles(s: seq<Transition>, t: int): int {
    if s == [] then 0
    else if t < s[0].at then (s[0].at - t - 1) / SECSPERREPEAT + 1
    else if t > s[|s| - 1].at then -((t - s[|s| - 1].at - 1) / SECSPERREPEAT + 1)
    else 0
  }

  lemma CyclesReach(s: seq<Transition>, t: int)
    requires s != [] && s[0].at + SECSPERREPEAT <= s[|s| - 1].at
    ensures s[0].at <= t + Cycles(s, t) * SECSPERREPEAT <= s[|s| - 1].at
    ensures t + Cycles(s, t) * SECSPERREPEAT == s[|s| - 1].at
            <==> s[|s| - 1].at <= t && (t - s[|s| - 1].at) % SECSPERREPEAT == 0
  {
  }
}
