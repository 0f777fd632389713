/** The endless calendar of changes that yearly rules make, and when the table stands
    for it. */
module YearRules {
  import opened Calendar
  import opened Rules
  import opened ZoneState
  import opened RuleTable

  // The changes of all years, two in each, counted through.
  function Change(z: Zone, n: int): Transition
    requires ValidZone(z)
  {
    if n % 2 == 0 then First(z, n / 2) else Second(z, n / 2)
  }

  // Change n is the last one not after t; of changes at one instant the later counts.
  ghost predicate Latest(z: Zone, n: int, t: int)
    requires ValidZone(z)
  {
    && Change(z, n).at <= t
    && forall m :: Change(z, m).at <= t ==>
         Change(z, m).at < Change(z, n).at || (Change(z, m).at == Change(z, n).at && m <= n)
  }

  /** The rule itself, over all years, whatever a table may hold: the type in force at t
      is the one that the last change not after t began. */
  ghost predicate RuleInForce(z: Zone, t: int, ty: int)
    requires ValidZone(z)
  {
    exists n :: Latest(z, n, t) && ty == Change(z, n).ty
  }

  /** At any time at most one type is in force. */
  lemma RuleInForceUnique(z: Zone, t: int, ty: int, ty': int)
    requires ValidZone(z) && RuleInForce(z, t, ty) && RuleInForce(z, t, ty')
    ensures ty == ty'
  {
    var n :| Latest(z, n, t) && ty == Change(z, n).ty;
    var m :| Latest(z, m, t) && ty' == Change(z, m).ty;
    assert n == m;
  }

  lemma ChangeOfYear(z: Zone, y: int)
    requires ValidZone(z)
    ensures Change(z, 2 * y) == First(z, y) && Change(z, 2 * y + 1) == Second(z, y)
  {
  }

  /** The rule has a 400-year period. */
  lemma RuleInForceCycles(z: Zone, t: int, ty: int, cycles: int)
    requires ValidZone(z) && RuleInForce(z, t, ty)
    ensures RuleInForce(z, t + cycles * SECSPERREPEAT, ty)
  {
    hide *;
    AllShift(z, cycles);
    InForceShifts(z, t, ty, 2 * (cycles * YEARSPERREPEAT), cycles * SECSPERREPEAT);
  }

  lemma AllShift(z: Zone, cycles: int)
    requires ValidZone(z)
    ensures forall m :: ShiftsBy(z, m, 2 * (cycles * YEARSPERREPEAT), cycles * SECSPERREPEAT)
  {
    hide Change;
    forall m
      ensures ShiftsBy(z, m, 2 * (cycles * YEARSPERREPEAT), cycles * SECSPERREPEAT)
    {
      ChangeShifts(z, m, cycles);
    }
  }

  lemma InForceShifts(z: Zone, t: int, ty: int, k: int, d: int)
    requires ValidZone(z) && RuleInForce(z, t, ty) && forall m :: ShiftsBy(z, m, k, d)
    ensures RuleInForce(z, t + d, ty)
  {
    hide Change, Latest;
    var n :| Latest(z, n, t) && ty == Change(z, n).ty;
    LatestShifts(z, n, t, k, d);
    assert ShiftsBy(z, n, k, d);
  }

  // Change n comes again k changes and d seconds later.
  predicate ShiftsBy(z: Zone, n: int, k: int, d: int)
    requires ValidZone(z)
  {
    Change(z, n + k) == Change(z, n).(at := Change(z, n).at + d)
  }

  lemma LatestShifts(z: Zone, n: int, t: int, k: int, d: int)
    requires ValidZone(z) && Latest(z, n, t) && forall m :: ShiftsBy(z, m, k, d)
    ensures Latest(z, n + k, t + d)
  {
    hide Change;
    assert ShiftsBy(z, n, k, d);
    forall m | Change(z, m).at <= t + d
      ensures Change(z, m).at < Change(z, n + k).at || (Change(z, m).at == Change(z, n + k).at && m <= n + k)
    {
      assert ShiftsBy(z, m - k, k, d) && m - k + k == m;
      assert Change(z, m - k).at <= t;
    }
  }

  lemma ChangeShifts(z: Zone, n: int, cycles: int)
    requires ValidZone(z)
    ensures Change(z, n + 2 * (cycles * YEARSPERREPEAT)) == Change(z, n).(at := Change(z, n).at + cycles * SECSPERREPEAT)
  {
    ChangeCycles(z, n / 2, cycles);
    hide First, Second, Kept;
    var c := cycles * YEARSPERREPEAT;
    assert (n + 2 * c) / 2 == n / 2 + c && (n + 2 * c) % 2 == n % 2;
  }

  // The day of the year of a rule is much the same in all years.
  lemma RuleDayVaries(rule: Rule, y: int, y': int)
    requires InRange(rule)
    ensures RuleDay(y, rule) - RuleDay(y', rule) <= 8
  {
    if rule.kind.MonthNthDayOfWeek? {
      var m := rule.mon - 1;
      LeapShift(IsLeap(y), m);
      LeapShift(IsLeap(y'), m);
      NthWeekdayRange(rule.day, rule.week, FirstWeekday(y, m), MonthLength(IsLeap(y), m));
      NthWeekdayRange(rule.day, rule.week, FirstWeekday(y', m), MonthLength(IsLeap(y'), m));
    }
  }

  lemma NthWeekdayRange(day: int, week: int, dow: int, length: int)
    requires 0 <= day <= 6 && 0 <= dow <= 6 && 1 <= week <= 5 && 28 <= length <= 31
    ensures var d := NthWeekday(day, week, dow, length);
            if week < 5 then 7 * week - 7 <= d < 7 * week else length - 7 <= d < length
  {
  }

  // Daylight time begins, and ends, later in a later year.
  lemma LaterNextYear(z: Zone, y: int)
    requires ValidZone(z)
    ensures StartAt(z, y) < StartAt(z, y + 1) && EndAt(z, y) < EndAt(z, y + 1)
  {
    RuleDayVaries(z.start, y, y + 1);
    RuleDayVaries(z.end, y, y + 1);
    YearStartStep(y);
    hide RuleDay, YearStart;
  }

  // Daylight time that lasts about a year in one year is not cut in two in another.
  lemma LongNotReversed(z: Zone, y: int, y': int)
    requires ValidZone(z) && StartAt(z, y) < EndAt(z, y) && !Kept(z, y)
    ensures !Reversed(z, y')
  {
    RuleDayVaries(z.end, y, y');
    RuleDayVaries(z.start, y', y);
    hide RuleDay, YearStart;
  }

  // The year in which, or after whose changes, t falls.
  lemma YearAt(z: Zone, t: int) returns (y: int)
    requires ValidZone(z)
    ensures First(z, y).at <= t < First(z, y + 1).at
  {
    var d := YearOf(t / SECSPERDAY);
    YearNear(z, t, d);
    hide First;
    y := if t < First(z, d - 1).at then d - 2 else if t < First(z, d).at then d - 1 else if t < First(z, d + 1).at then d else d + 1;
  }

  lemma YearNear(z: Zone, t: int, d: int)
    requires ValidZone(z) && YearStart(d) <= t / SECSPERDAY < YearStart(d + 1)
    ensures First(z, d - 2).at <= t < First(z, d + 2).at
  {
    hide First, Second, YearStart;
    YearSpan(d - 2, d);
    YearSpan(d, d + 1);
    YearSpan(d + 1, d + 2);
    ChangesNearYear(z, d + 2);
    ChangesNearYear(z, d - 2);
  }

  // Each change of a later year is later than its counterpart.
  lemma ChangesGrow(z: Zone, y: int, y': int)
    requires ValidZone(z) && y < y'
    ensures First(z, y).at < First(z, y').at && Second(z, y).at < Second(z, y').at
  {
    if y + 1 < y' {
      hide First, Second;
      FarApart(z, y, y');
      FirstBeforeSecond(z, y);
      FirstBeforeSecond(z, y');
    } else {
      LaterNextYear(z, y);
    }
  }

  // The type that the changes of year y and of the year before leave in force at t, t
  // being past the first change of y and not of the next year.
  function TypeOfYear(z: Zone, y: int, t: int): int
    requires ValidZone(z)
  {
    if Second(z, y).at <= t then Second(z, y).ty
    else if First(z, y).at < Second(z, y - 1).at <= t then Second(z, y - 1).ty
    else First(z, y).ty
  }

  // The last change not after t, by its number.
  function LatestOfYear(z: Zone, y: int, t: int): int
    requires ValidZone(z)
  {
    if Second(z, y).at <= t then 2 * y + 1
    else if First(z, y).at < Second(z, y - 1).at <= t then 2 * (y - 1) + 1
    else 2 * y
  }

  lemma LatestIs(z: Zone, y: int, t: int)
    requires ValidZone(z) && First(z, y).at <= t < First(z, y + 1).at
    ensures Latest(z, LatestOfYear(z, y, t), t) && Change(z, LatestOfYear(z, y, t)).ty == TypeOfYear(z, y, t)
  {
    hide First, Second, Change;
    var n := LatestOfYear(z, y, t);
    ChangeOfYear(z, y);
    ChangeOfYear(z, y - 1);
    forall m | Change(z, m).at <= t
      ensures Change(z, m).at < Change(z, n).at || (Change(z, m).at == Change(z, n).at && m <= n)
    {
      ChangeOfYear(z, m / 2);
      assert m == 2 * (m / 2) || m == 2 * (m / 2) + 1;
      OthersBefore(z, y, t, m / 2);
    }
  }

  // The changes not after t of any year are before those of y, but for the second of the
  // year before.
  lemma OthersBefore(z: Zone, y: int, t: int, w: int)
    requires ValidZone(z) && First(z, y).at <= t < First(z, y + 1).at
    ensures w > y ==> First(z, w).at > t && Second(z, w).at > t
    ensures w < y ==> First(z, w).at < First(z, y).at
    ensures w < y - 1 ==> Second(z, w).at < First(z, y).at
    ensures Second(z, y - 1).at < Second(z, y).at && First(z, y).at <= Second(z, y).at
  {
    hide First, Second;
    ChangesGrow(z, y - 1, y);
    FirstBeforeSecond(z, w);
    FirstBeforeSecond(z, y);
    if w > y {
      if w > y + 1 {
        ChangesGrow(z, y + 1, w);
      }
    } else if w < y {
      ChangesGrow(z, w, y);
      if w < y - 1 {
        FarApart(z, w, y);
      }
    }
  }

  /** Which type is in force, from the changes of two years. */
  lemma InForceIff(z: Zone, y: int, t: int, ty: int)
    requires ValidZone(z) && First(z, y).at <= t < First(z, y + 1).at
    ensures RuleInForce(z, t, ty) <==> ty == TypeOfYear(z, y, t)
  {
    LatestIs(z, y, t);
    hide First, Second, Change, Latest, TypeOfYear, LatestOfYear;
    assert RuleInForce(z, t, TypeOfYear(z, y, t)) by {
      var n := LatestOfYear(z, y, t);
      assert Latest(z, n, t) && TypeOfYear(z, y, t) == Change(z, n).ty;
    }
    if RuleInForce(z, t, ty) {
      RuleInForceUnique(z, t, ty, TypeOfYear(z, y, t));
    }
  }

  /** A year whose changes matter though tzparse does not keep them. Daylight time of no
      length matters if daylight time is on when the year begins. Daylight time that lasts
      too long to be kept matters, unless it merely goes on while that of the kept year
      before is still on, and does not reach that of the year after, if that is kept. */
  predicate Lost(z: Zone, y: int)
    requires ValidZone(z)
  {
    && !Kept(z, y)
    && if StartAt(z, y) < EndAt(z, y) then
         !(&& Kept(z, y - 1) && StartAt(z, y) < EndAt(z, y - 1)
           && !(Kept(z, y + 1) && StartAt(z, y + 1) < EndAt(z, y)))
       else Reversed(z, y - 1)
  }

  ghost predicate NothingLost(z: Zone)
    requires ValidZone(z)
  {
    forall y :: !Lost(z, y)
  }

  /** Whether a year is lost can be seen in one 400-year cycle. */
  lemma LostPeriod(z: Zone, y: int, cycles: int)
    requires ValidZone(z)
    ensures Lost(z, y + cycles * YEARSPERREPEAT) == Lost(z, y)
  {
    hide *;
    var d := cycles * YEARSPERREPEAT;
    ChangeCycles(z, y, cycles);
    ChangeCycles(z, y - 1, cycles);
    ChangeCycles(z, y + 1, cycles);
    LostFromChanges(z, y);
    LostFromChanges(z, y + d);
    assert y - 1 + d == y + d - 1 && y + 1 + d == y + d + 1;
  }

  // A lost year, in terms of changes.
  lemma LostFromChanges(z: Zone, y: int)
    requires ValidZone(z)
    ensures !Kept(z, y) ==> First(z, y).ty == 1 && Second(z, y).ty == 0
    ensures !Kept(z, y) && First(z, y).at < Second(z, y).at ==> forall w :: First(z, w).ty == 1 && Second(z, w).ty == 0
    ensures Lost(z, y) <==>
              && !Kept(z, y)
              && if First(z, y).at < Second(z, y).at then
                   !(&& Kept(z, y - 1) && First(z, y).at < Second(z, y - 1).at
                     && !(Kept(z, y + 1) && First(z, y + 1).at < Second(z, y).at))
                 else Second(z, y - 1).ty == 1
  {
    if !Kept(z, y) && StartAt(z, y) < EndAt(z, y) {
      forall w
        ensures !Reversed(z, w)
      {
        LongNotReversed(z, y, w);
      }
    }
  }

  // What a lookup at t, folded by 400-year cycles into the table, gives.
  function Looked(z: Zone, lo: int, hi: int, default: int, t: int): int
    requires ValidZone(z)
  {
    var s := Unrolled(z, lo, hi);
    Searched(s, default, t + Cycles(s, t) * SECSPERREPEAT)
  }

  /** The years lo to hi - 1 fill the table, and hi is the first year left out. */
  predicate Fills(z: Zone, lo: int, hi: int)
    requires ValidZone(z)
  {
    |Unrolled(z, lo, hi)| == TZ_MAX_TIMES && Kept(z, hi)
  }

  /** The instants at which the table ends while the next year begins: the last entry's,
      if the first year left out touches it, and those whole cycles later. */
  predicate AtSeam(z: Zone, lo: int, hi: int, t: int)
    requires ValidZone(z)
  {
    var s := Unrolled(z, lo, hi);
    s != [] && s[|s| - 1].at == First(z, hi).at <= t && (t - First(z, hi).at) % SECSPERREPEAT == 0
  }

  // The last year of the table.
  lemma LastYear(z: Zone, lo: int, hi: int) returns (y: int)
    requires ValidZone(z) && Unrolled(z, lo, hi) != []
    ensures lo <= y < hi && Kept(z, y) && Unrolled(z, lo, hi)[|Unrolled(z, lo, hi)| - 1] == Second(z, y)
    ensures Parted(z) && Kept(z, hi) ==> Second(z, y).at <= First(z, hi).at
    ensures Second(z, y).at == First(z, hi).at ==> y == hi - 1
    ensures |Unrolled(z, lo, hi)| <= |Unrolled(z, lo, y)| + 2
  {
    hide First, Second, Kept;
    y := UnrolledYear(z, lo, hi, |Unrolled(z, lo, hi)| - 1);
    UnrolledHas(z, lo, hi, y);
    if y < hi - 1 {
      FarApart(z, y, hi);
    }
  }

  // Years that meet do so with daylight time on both sides, or on neither.
  lemma MeetingTypes(z: Zone, y: int)
    requires ValidZone(z) && Second(z, y).at >= First(z, y + 1).at
    ensures Second(z, y).ty != First(z, y + 1).ty
  {
    LaterNextYear(z, y);
  }

  // From the last kept year p, no year up to y being kept after it: the type that its
  // changes give is that of the rules.
  lemma KeptTypeStands(z: Zone, p: int, y: int, u: int)
    requires ValidZone(z) && Parted(z) && NothingLost(z) && Kept(z, p) && p <= y
    requires First(z, y).at <= u < First(z, y + 1).at && forall w :: p < w <= y ==> !Kept(z, w)
    ensures TypeOfYear(z, y, u) == if u < Second(z, p).at then First(z, p).ty else Second(z, p).ty
  {
    hide First, Second, Kept, Lost;
    assert !Lost(z, y) && !Lost(z, p + 1) && !Lost(z, y - 1);
    LostFromChanges(z, y);
    LostFromChanges(z, y - 1);
    ChangesGrow(z, y - 1, y);
    FirstBeforeSecond(z, y - 1);
    FirstBeforeSecond(z, y);
    ChangeTypes(z, p);
    if p < y {
      LostFromChanges(z, p + 1);
      FirstBeforeSecond(z, p + 1);
      if p < y - 1 {
        FarApart(z, p, y);
      }
    }
  }

  /** Inside the table, and up to the first year left out, a lookup gives the type in
      force, provided no year is lost. */
  lemma TableInForce(z: Zone, lo: int, hi: int, default: int, u: int)
    requires ValidZone(z) && Parted(z) && NothingLost(z)
    requires var s := Unrolled(z, lo, hi); s != [] && s[0].at <= u < First(z, hi).at
    ensures RuleInForce(z, u, Pick(Unrolled(z, lo, hi), default, u))
  {
    hide *;
    var p := PickUnrolled(z, lo, hi, default, u);
    var y := YearAt(z, u);
    if y < p {
      if y + 1 < p {
        ChangesGrow(z, y + 1, p);
      }
      assert false;
    }
    if hi <= y {
      if hi < y {
        ChangesGrow(z, hi, y);
      }
      assert false;
    }
    forall w | p < w <= y
      ensures !Kept(z, w)
    {
      if w < y {
        ChangesGrow(z, w, y);
      }
    }
    KeptTypeStands(z, p, y, u);
    InForceIff(z, y, u, Pick(Unrolled(z, lo, hi), default, u));
  }

  // At the seam it gives the other type.
  lemma SeamIsWrong(z: Zone, lo: int, hi: int, default: int, u: int)
    requires ValidZone(z) && Kept(z, hi)
    requires var s := Unrolled(z, lo, hi); s != [] && u == s[|s| - 1].at == First(z, hi).at
    ensures !RuleInForce(z, u, Pick(Unrolled(z, lo, hi), default, u))
  {
    hide *;
    var last := LastYear(z, lo, hi);
    PickAtEnd(Unrolled(z, lo, hi), default, u);
    MeetingTypes(z, hi - 1);
    FirstBeforeSecond(z, hi);
    ChangesGrow(z, hi, hi + 1);
    AtFirst(z, hi);
    InForceIff(z, hi, u, Second(z, last).ty);
  }

  // When a year's first change comes it is in force, if it is not the second as well.
  lemma AtFirst(z: Zone, y: int)
    requires ValidZone(z)
    ensures First(z, y).at < Second(z, y).at ==> TypeOfYear(z, y, First(z, y).at) == First(z, y).ty
    ensures First(z, y).at == Second(z, y).at ==> TypeOfYear(z, y, First(z, y).at) == Second(z, y).ty
  {
    hide First, Second;
  }

  lemma PickAtEnd(s: seq<Transition>, default: int, t: int)
    requires s != [] && s[|s| - 1].at <= t
    ensures Pick(s, default, t) == s[|s| - 1].ty
  {
  }

  lemma SeamIs(z: Zone, lo: int, hi: int, t: int)
    requires ValidZone(z) && Fills(z, lo, hi)
    ensures var s := Unrolled(z, lo, hi);
            var u := t + Cycles(s, t) * SECSPERREPEAT;
            && s != [] && s[0].at <= u <= s[|s| - 1].at
            && (AtSeam(z, lo, hi, t) <==> u == s[|s| - 1].at == First(z, hi).at)
  {
    hide First, Second, Kept, Cycles, Unrolled;
    FullTableSpan(z, lo, hi);
    CyclesReach(Unrolled(z, lo, hi), t);
  }

  lemma LookedIs(z: Zone, lo: int, hi: int, default: int, t: int)
    requires ValidZone(z)
    ensures var s := Unrolled(z, lo, hi);
            Looked(z, lo, hi, default, t) == Searched(s, default, t + Cycles(s, t) * SECSPERREPEAT)
    ensures Fills(z, lo, hi) ==> Kept(z, hi) && |Unrolled(z, lo, hi)| == TZ_MAX_TIMES == 2000
  {
    hide Unrolled, Kept, Searched, Cycles;
  }

  lemma InForceBothWays(z: Zone, t: int, ty: int, k: int)
    requires ValidZone(z)
    ensures RuleInForce(z, t, ty) <==> RuleInForce(z, t + k * SECSPERREPEAT, ty)
  {
    hide *;
    var u := t + k * SECSPERREPEAT;
    if RuleInForce(z, t, ty) {
      RuleInForceCycles(z, t, ty, k);
    }
    if RuleInForce(z, u, ty) {
      RuleInForceCycles(z, u, ty, -k);
      Back(t, k);
    }
  }

  lemma Back(t: int, k: int)
    ensures t + k * SECSPERREPEAT + -k * SECSPERREPEAT == t
  {
  }

  lemma NotBoth(z: Zone, t: int, ty: int, ty': int)
    requires ValidZone(z) && RuleInForce(z, t, ty) && ty != ty'
    ensures !RuleInForce(z, t, ty')
  {
    if RuleInForce(z, t, ty') {
      RuleInForceUnique(z, t, ty, ty');
    }
  }

  /** The finite table stands for the endless rule: if kept years do not run into each
      other and no year is lost, at every time, however far off, the type that the folded
      lookup gives is the one in force, the seam excepted. */
  lemma TableStandsForRule(z: Zone, lo: int, hi: int, default: int, t: int)
    requires ValidZone(z) && Parted(z) && NothingLost(z) && Fills(z, lo, hi)
    ensures RuleInForce(z, t, Looked(z, lo, hi, default, t)) <==> !AtSeam(z, lo, hi, t)
  {
    hide *;
    var s := Unrolled(z, lo, hi);
    SeamIs(z, lo, hi, t);
    LookedIs(z, lo, hi, default, t);
    UnrolledOrdered(z, lo, hi);
    var k := Cycles(s, t);
    var u := t + k * SECSPERREPEAT;
    SearchedIsPick(s, default, u);
    var last := LastYear(z, lo, hi);
    if u == First(z, hi).at {
      SeamIsWrong(z, lo, hi, default, u);
    } else {
      TableInForce(z, lo, hi, default, u);
    }
    InForceBothWays(z, t, Looked(z, lo, hi, default, t), k);
  }

  // A year of the table, whole cycles away from y, with some of the table before it and
  // after it.
  lemma Inside(z: Zone, lo: int, hi: int, y: int) returns (w: int, c: int)
    requires ValidZone(z) && Fills(z, lo, hi)
    ensures w == y + c * YEARSPERREPEAT && lo < w
    ensures var s := Unrolled(z, lo, hi);
            && s != [] && s[0].at <= First(z, w - 1).at && Second(z, w + 1).at < s[|s| - 1].at && w + 2 < hi
  {
    hide First, Second, Kept, Unrolled;
    c := (lo - y + YEARSPERREPEAT - 1) / YEARSPERREPEAT + 1;
    w := y + c * YEARSPERREPEAT;
    TableIsLong(z, lo, hi);
    assert lo + 400 <= w < lo + 800;
    var start := UnrolledYear(z, lo, hi, 0);
    UnrolledHas(z, lo, hi, start);
    var last := LastYear(z, lo, hi);
    StartsSoon(z, lo, hi, start);
    UnrolledFrom(z, lo, lo, last);
    if start < w - 1 {
      ChangesGrow(z, start, w - 1);
    }
    ChangesGrow(z, w + 1, last);
  }

  lemma TableIsLong(z: Zone, lo: int, hi: int)
    requires ValidZone(z) && Fills(z, lo, hi)
    ensures |Unrolled(z, lo, lo)| == 0 && |Unrolled(z, lo, hi)| == 2000 && YEARSPERREPEAT == 400
  {
    hide Kept, First, Second;
  }

  // The table begins within 400 years.
  lemma StartsSoon(z: Zone, lo: int, hi: int, start: int)
    requires ValidZone(z) && Fills(z, lo, hi) && lo <= start < hi && |Unrolled(z, lo, start)| == 0
    ensures start < lo + YEARSPERREPEAT
  {
    hide First, Second, Kept, Unrolled;
    if lo + YEARSPERREPEAT <= start {
      var c := -((hi - lo) / YEARSPERREPEAT);
      var near := hi + c * YEARSPERREPEAT;
      ChangeCycles(z, hi, c);
      assert lo <= near < lo + YEARSPERREPEAT;
      UnrolledHas(z, lo, start, near);
    }
  }

  // Kept years that run into each other: when the earlier ends, the table still shows the
  // type that the later began.
  lemma RunsIntoIsWrong(z: Zone, lo: int, hi: int, default: int, y: int)
    requires ValidZone(z) && Fills(z, lo, hi) && Kept(z, y) && Kept(z, y + 1) && Second(z, y).at > First(z, y + 1).at
    ensures exists t :: !AtSeam(z, lo, hi, t) && !RuleInForce(z, t, Looked(z, lo, hi, default, t))
  {
    hide *;
    var w, c := Inside(z, lo, hi, y);
    ChangeCycles(z, y, c);
    ChangeCycles(z, y + 1, c);
    assert y + 1 + c * YEARSPERREPEAT == w + 1;
    var s, t := Unrolled(z, lo, hi), Second(z, w).at;
    ChangesGrow(z, w - 1, w);
    ChangesGrow(z, w, w + 1);
    FirstBeforeSecond(z, w);
    InTable(z, lo, hi, default, t);
    var k := SplitAt(z, lo, hi, w);
    SearchedSplit(s, default, t, k);
    FarApart(z, w, w + 2);
    MeetingTypes(z, w);
    GoesOn(z, w);
    InForceIff(z, w + 1, t, First(z, w + 1).ty);
  }

  lemma GoesOn(z: Zone, w: int)
    requires ValidZone(z) && First(z, w + 1).at < Second(z, w).at < Second(z, w + 1).at
    ensures TypeOfYear(z, w + 1, Second(z, w).at) == Second(z, w).ty
  {
    hide First, Second;
  }

  // Times inside the table are looked up as they are, and not at the seam.
  lemma InTable(z: Zone, lo: int, hi: int, default: int, t: int)
    requires ValidZone(z) && Fills(z, lo, hi)
    requires var s := Unrolled(z, lo, hi); s != [] && s[0].at <= t < s[|s| - 1].at
    ensures Looked(z, lo, hi, default, t) == Searched(Unrolled(z, lo, hi), default, t) && !AtSeam(z, lo, hi, t)
  {
    hide Unrolled, Kept, First, Searched;
  }

  // The entry of the first change of w + 1: those up to it are not after the second change
  // of w, those past it are.
  lemma SplitAt(z: Zone, lo: int, hi: int, w: int) returns (k: int)
    requires ValidZone(z) && lo <= w && w + 1 < hi && Kept(z, w) && Kept(z, w + 1) && First(z, w + 1).at < Second(z, w).at
    ensures var (s, t) := (Unrolled(z, lo, hi), Second(z, w).at);
            && 0 <= k < |s| && s[k] == First(z, w + 1)
            && (forall i :: 0 <= i <= k ==> s[i].at <= t) && forall i :: k < i < |s| ==> t < s[i].at
  {
    hide First, Second, Kept;
    var s, t := Unrolled(z, lo, hi), Second(z, w).at;
    UnrolledHas(z, lo, hi, w);
    UnrolledHas(z, lo, hi, w + 1);
    k := |Unrolled(z, lo, w + 1)|;
    assert k == |Unrolled(z, lo, w)| + 2;
    hide Unrolled;
    forall i | 0 <= i < |s|
      ensures i <= k ==> s[i].at <= t
      ensures k < i ==> t < s[i].at
    {
      SideOf(z, lo, hi, w, i);
    }
  }

  lemma SideOf(z: Zone, lo: int, hi: int, w: int, i: nat)
    requires ValidZone(z) && lo <= w && w + 1 < hi && Kept(z, w) && Kept(z, w + 1) && First(z, w + 1).at < Second(z, w).at
    requires i < |Unrolled(z, lo, hi)|
    ensures i <= |Unrolled(z, lo, w + 1)| ==> Unrolled(z, lo, hi)[i].at <= Second(z, w).at
    ensures i > |Unrolled(z, lo, w + 1)| ==> Second(z, w).at < Unrolled(z, lo, hi)[i].at
  {
    hide First, Second, Kept, Unrolled;
    var v := UnrolledYear(z, lo, hi, i);
    UnrolledHas(z, lo, hi, v);
    FirstBeforeSecond(z, v);
    ChangesGrow(z, w, w + 1);
    if v <= w {
      UnrolledGrows(z, lo, v, w + 1);
      if v < w {
        ChangesGrow(z, v, w);
      }
    } else if v > w + 1 {
      UnrolledGrows(z, lo, w + 1, v);
      FarApart(z, w, v);
    }
  }

  // A time at which a lost year's changes matter: when it begins, or when it ends.
  lemma LostIsWrong(z: Zone, lo: int, hi: int, default: int, y: int)
    requires ValidZone(z) && Parted(z) && Fills(z, lo, hi) && Lost(z, y)
    ensures exists t :: !AtSeam(z, lo, hi, t) && !RuleInForce(z, t, Looked(z, lo, hi, default, t))
  {
    hide *;
    var w, c := Inside(z, lo, hi, y);
    LostPeriod(z, y, c);
    LostFromChanges(z, w);
    FirstBeforeSecond(z, w);
    ChangesGrow(z, w - 1, w);
    ChangesGrow(z, w, w + 1);
    if First(z, w).at < Second(z, w).at && Kept(z, w - 1) && First(z, w).at < Second(z, w - 1).at {
      FarApart(z, w, w + 2);
      LostEnd(z, lo, hi, default, w);
    } else {
      LostBegin(z, lo, hi, default, w);
    }
  }

  // In a table in order, a time after the first change of a kept year w and before any
  // of the next kept year.
  lemma PickIn(z: Zone, lo: int, hi: int, default: int, w: int, t: int)
    requires ValidZone(z) && lo <= w < hi && Kept(z, w) && First(z, w).at <= t
    requires forall v :: w < v < hi && Kept(z, v) ==> t < First(z, v).at
    requires var s := Unrolled(z, lo, hi); s != [] && s[0].at <= t
    ensures Pick(Unrolled(z, lo, hi), default, t) == if t < Second(z, w).at then First(z, w).ty else Second(z, w).ty
  {
    hide *;
    var p := PickUnrolled(z, lo, hi, default, t);
  }

  lemma LostEnd(z: Zone, lo: int, hi: int, default: int, w: int)
    requires ValidZone(z) && Parted(z) && Fills(z, lo, hi) && Lost(z, w) && lo < w && w + 2 < hi
    requires First(z, w).at < Second(z, w).at && Kept(z, w - 1) && First(z, w).at < Second(z, w - 1).at
    requires var s := Unrolled(z, lo, hi); s != [] && s[0].at <= First(z, w).at && Second(z, w + 1).at < s[|s| - 1].at
    ensures var t := Second(z, w).at; !AtSeam(z, lo, hi, t) && !RuleInForce(z, t, Looked(z, lo, hi, default, t))
  {
    hide *;
    var t := Second(z, w).at;
    LostFromChanges(z, w);
    ChangesGrow(z, w, w + 1);
    InTable(z, lo, hi, default, t);
    UnrolledOrdered(z, lo, hi);
    SearchedIsPick(Unrolled(z, lo, hi), default, t);
    forall v | w + 1 < v < hi && Kept(z, v)
      ensures t < First(z, v).at
    {
      FarApart(z, w, v);
    }
    PickIn(z, lo, hi, default, w + 1, t);
    FarApart(z, w, w + 2);
    GoesOn(z, w);
    InForceIff(z, w + 1, t, First(z, w + 1).ty);
  }

  lemma LostBegin(z: Zone, lo: int, hi: int, default: int, w: int)
    requires ValidZone(z) && Parted(z) && Fills(z, lo, hi) && Lost(z, w) && lo < w && w + 2 < hi
    requires !(First(z, w).at < Second(z, w).at && Kept(z, w - 1) && First(z, w).at < Second(z, w - 1).at)
    requires var s := Unrolled(z, lo, hi); s != [] && s[0].at <= First(z, w - 1).at && Second(z, w + 1).at < s[|s| - 1].at
    ensures var t := First(z, w).at; !AtSeam(z, lo, hi, t) && !RuleInForce(z, t, Looked(z, lo, hi, default, t))
  {
    hide *;
    var t := First(z, w).at;
    LostFromChanges(z, w);
    FirstBeforeSecond(z, w);
    ChangesGrow(z, w - 1, w);
    ChangesGrow(z, w, w + 1);
    InTable(z, lo, hi, default, t);
    UnrolledOrdered(z, lo, hi);
    SearchedIsPick(Unrolled(z, lo, hi), default, t);
    var p := PickUnrolled(z, lo, hi, default, t);
    if w < p {
      ChangesGrow(z, w, p);
      assert false;
    }
    if p < w - 1 {
      FarApart(z, p, w);
    }
    AtFirst(z, w);
    var ty := Pick(Unrolled(z, lo, hi), default, t);
    forall v | p < v < w
      ensures !Kept(z, v)
    {
      ChangesGrow(z, v, w);
    }
    NotBefore(z, w, p);
    InForceIff(z, w, t, ty);
  }

  // What a lost year begins, and what the kept year before left on.
  lemma NotBefore(z: Zone, w: int, p: int)
    requires ValidZone(z) && Lost(z, w) && Kept(z, p) && p < w && forall v :: p < v < w ==> !Kept(z, v)
    ensures Second(z, p).ty == if First(z, w).at < Second(z, w).at then 0 else 1
  {
    hide First, Second, Kept, Lost;
    LostFromChanges(z, w);
    ChangeTypes(z, p);
    if p < w - 1 {
      LostFromChanges(z, w - 1);
    }
  }

  /** The finite table stands for the endless rule at all times but the seam if and only
      if kept years do not run into each other and no year is lost. */
  lemma TableFollowsIff(z: Zone, lo: int, hi: int, default: int)
    requires ValidZone(z) && Fills(z, lo, hi)
    ensures (forall t :: !AtSeam(z, lo, hi, t) ==> RuleInForce(z, t, Looked(z, lo, hi, default, t)))
            <==> Parted(z) && NothingLost(z)
  {
    hide RuleInForce, Looked, AtSeam, Lost, Fills, First, Second, Kept;
    if !Parted(z) {
      var y :| Kept(z, y) && Kept(z, y + 1) && Second(z, y).at > First(z, y + 1).at;
      RunsIntoIsWrong(z, lo, hi, default, y);
    } else if y :| Lost(z, y) {
      LostIsWrong(z, lo, hi, default, y);
    } else {
      forall t | !AtSeam(z, lo, hi, t)
        ensures RuleInForce(z, t, Looked(z, lo, hi, default, t))
      {
        TableStandsForRule(z, lo, hi, default, t);
      }
    }
  }

  /** At every time some type is in force. */
  lemma SomeTypeInForce(z: Zone, t: int) returns (ty: int)
    requires ValidZone(z)
    ensures RuleInForce(z, t, ty) && 0 <= ty <= 1
  {
    var y := YearAt(z, t);
    ty := TypeOfYear(z, y, t);
    ChangeTypes(z, y);
    ChangeTypes(z, y - 1);
    hide RuleInForce, First, Second;
    InForceIff(z, y, t, ty);
  }

  /** If no year is kept, daylight time is in force for ever, as the one type left says,
      if and only if each year's ends when the next one's begins. */
  lemma PerpetualIff(z: Zone)
    requires ValidZone(z) && forall y :: !Kept(z, y)
    ensures (forall t :: RuleInForce(z, t, 1)) <==> forall y :: EndAt(z, y) == StartAt(z, y + 1)
  {
    if y :| EndAt(z, y) != StartAt(z, y + 1) {
      EndInForce(z, y);
      NotBoth(z, EndAt(z, y), 0, 1);
    } else {
      forall t
        ensures RuleInForce(z, t, 1)
      {
        AlwaysOn(z, t);
      }
    }
  }

  // Years without end.
  lemma AlwaysOn(z: Zone, t: int)
    requires ValidZone(z) && forall y :: !Kept(z, y) && EndAt(z, y) == StartAt(z, y + 1)
    ensures RuleInForce(z, t, 1)
  {
    hide *;
    var y := YearAt(z, t);
    EndsAtNext(z, y);
    EndsAtNext(z, y - 1);
    OnInBetween(z, y, t);
    InForceIff(z, y, t, 1);
  }

  lemma EndsAtNext(z: Zone, y: int)
    requires ValidZone(z) && forall w :: !Kept(z, w) && EndAt(z, w) == StartAt(z, w + 1)
    ensures Second(z, y).at == First(z, y + 1).at && First(z, y).ty == 1
  {
    assert !Kept(z, y) && !Kept(z, y + 1) && EndAt(z, y) == StartAt(z, y + 1);
  }

  lemma OnInBetween(z: Zone, y: int, t: int)
    requires ValidZone(z) && First(z, y).at <= t < First(z, y + 1).at && First(z, y).ty == 1
    requires Second(z, y).at == First(z, y + 1).at && Second(z, y - 1).at == First(z, y).at
    ensures TypeOfYear(z, y, t) == 1
  {
    hide First, Second;
  }

  lemma EndInForce(z: Zone, y: int)
    requires ValidZone(z) && (forall y' :: !Kept(z, y')) && EndAt(z, y) != StartAt(z, y + 1)
    ensures RuleInForce(z, EndAt(z, y), 0)
  {
    assert !Kept(z, y) && !Kept(z, y + 1) && !Kept(z, y + 2);
    LaterNextYear(z, y);
    hide RuleInForce;
    FarApart(z, y, y + 2);
    if EndAt(z, y) < StartAt(z, y + 1) {
      InForceIff(z, y, EndAt(z, y), 0);
    } else {
      InForceIff(z, y + 1, EndAt(z, y), 0);
    }
  }
}
