/** Yearly rules of the usual kind: daylight time every year, which ends before the next
    year's begins. Local time by tzparse and localsub is what such rules say. */
module UsualRules {
  import opened CArith
  import opened Calendar
  import opened CivilTime
  import opened Wrappers
  import opened Rules
  import opened ZoneState
  import opened RuleTable
  import opened YearRules
  import opened LocalTime
  import opened RuleText
  import opened TzString
  import opened TzParse
  import opened TzAbbrs
  import opened TzFooter
  import opened PosixTime

  /** Daylight time goes over the end of year y, as in the south; or it begins and ends in
      it, and does not last all year. */
  predicate DaylightPart(z: Zone, y: int)
    requires ValidZone(z)
  {
    || EndAt(z, y) < StartAt(z, y)
    || 0 < EndAt(z, y) - StartAt(z, y) < YearLength(y) * 86400 + z.stdoffset - z.dstoffset
  }

  // The later change of a year comes no later than the earlier one of the next.
  predicate DoneBefore(z: Zone, y: int)
    requires ValidZone(z)
  {
    && StartAt(z, y) <= StartAt(z, y + 1) && StartAt(z, y) <= EndAt(z, y + 1)
    && EndAt(z, y) <= StartAt(z, y + 1) && EndAt(z, y) <= EndAt(z, y + 1)
  }

  ghost predicate Usual(z: Zone) {
    ValidZone(z) && forall y :: DaylightPart(z, y) && DoneBefore(z, y)
  }

  /** The one class of instants that goes wrong: the table, of the years from 1770 to 2769,
      ends as the next year's first change comes; and 400-year cycles after that. */
  predicate AtTableEnd(z: Zone, t: int)
    requires ValidZone(z)
  {
    var (a, b) := (StartAt(z, 2770), EndAt(z, 2770));
    var next := if b < a then b else a;
    && (StartAt(z, 2769) == next || EndAt(z, 2769) == next)
    && next <= t && (t - next) % 12622780800 == 0
  }

  lemma UsualKept(z: Zone)
    requires Usual(z)
    ensures (forall y :: Kept(z, y)) && Parted(z) && NothingLost(z)
  {
    hide RuleTime;
    forall y
      ensures Kept(z, y) && Second(z, y).at <= First(z, y + 1).at
    {
      assert DaylightPart(z, y) && DoneBefore(z, y) && DaylightPart(z, y + 1);
    }
    hide Kept, First, Second;
  }

  lemma {:induction false} AllUnrolled(z: Zone, lo: int, y: int)
    requires ValidZone(z) && lo <= y && forall v :: Kept(z, v)
    ensures |Unrolled(z, lo, y)| == 2 * (y - lo)
    ensures lo < y ==> Unrolled(z, lo, y)[2 * (y - lo) - 1] == Second(z, y - 1)
    decreases y - lo
  {
    hide First, Second, Kept;
    if lo < y {
      AllUnrolled(z, lo, y - 1);
    }
  }

  lemma UsualStop(z: Zone, stop: int)
    requires Usual(z) && Fills(z, FIRST_YEAR, stop)
    ensures stop == 2770 && forall t :: AtSeam(z, FIRST_YEAR, stop, t) <==> AtTableEnd(z, t)
  {
    hide *;
    TableNumbers();
    ValidUsual(z);
    UsualKept(z);
    FullIs(z, stop);
    AllUnrolled(z, FIRST_YEAR, stop);
    SeamIsTableEnd(z);
  }

  lemma FullIs(z: Zone, stop: int)
    requires ValidZone(z) && Fills(z, FIRST_YEAR, stop)
    ensures |Unrolled(z, FIRST_YEAR, stop)| == 2000 && FIRST_YEAR <= stop
  {
    hide Kept, First, Second;
  }

  lemma SeamIsTableEnd(z: Zone)
    requires Usual(z) && ValidZone(z) && |Unrolled(z, FIRST_YEAR, 2770)| == 2000 && Unrolled(z, FIRST_YEAR, 2770)[1999] == Second(z, 2769)
    ensures forall t :: AtSeam(z, FIRST_YEAR, 2770, t) <==> AtTableEnd(z, t)
  {
    hide Unrolled, RuleTime, FIRST_YEAR;
    assert SECSPERREPEAT == 12622780800;
    assert DaylightPart(z, 2769) && DoneBefore(z, 2769) && DaylightPart(z, 2770);
  }

  /** By such rules daylight time is in force from its beginning in a year to its end, and
      standard time from that to the next beginning. */
  lemma InForceBetween(z: Zone, y: int, t: int)
    requires Usual(z)
    ensures StartAt(z, y) <= t < EndAt(z, y) ==> RuleInForce(z, t, 1)
    ensures EndAt(z, y) <= t < StartAt(z, y) ==> RuleInForce(z, t, 0)
    ensures StartAt(z, y) < EndAt(z, y) <= t < StartAt(z, y + 1) ==> RuleInForce(z, t, 0)
    ensures EndAt(z, y) < StartAt(z, y) <= t < EndAt(z, y + 1) ==> RuleInForce(z, t, 1)
  {
    hide RuleTime, RuleInForce;
    assert DaylightPart(z, y) && DaylightPart(z, y + 1) && DaylightPart(z, y - 1);
    assert DoneBefore(z, y) && DoneBefore(z, y + 1) && DoneBefore(z, y - 1);
    if First(z, y).at <= t < First(z, y + 1).at {
      InForceIff(z, y, t, TypeOfYear(z, y, t));
    } else if First(z, y + 1).at <= t < First(z, y + 2).at {
      InForceIff(z, y + 1, t, TypeOfYear(z, y + 1, t));
    }
  }

  // What tzparse has made of a string that reads as that text.
  ghost predicate MadeFrom(sp: State, s: string, text: TzText, stop: int)
    reads sp, sp.ats, sp.types, sp.ttis, sp.chars
  {
    && NoNul(s) && ParseTz(s) == Some(text) && NamesInside(s, text)
    && Named(sp, s, text) && Filled(sp, text, stop)
  }

  /** The clock of t so many seconds west of UT, its kind and its name. */
  ghost predicate ShowsClock(sp: State, r: Local, t: int, west: int, isdst: bool, name: string)
    reads sp, sp.chars
  {
    && PosixSeconds(r.tm) == t - west && r.tm.gmtoff == -west && r.tm.isdst == isdst
    && CString(sp.chars[..], r.zone) == name
  }

  // Standard time or daylight time, as the string has them.
  ghost predicate ShowsKind(sp: State, r: Local, s: string, text: TzText, t: int, ty: int)
    requires text.Alternating? && NamesInside(s, text)
    reads sp, sp.chars
  {
    if ty == 0 then ShowsClock(sp, r, t, text.zone.stdoffset, false, s[text.std.begin..text.std.end])
    else ShowsClock(sp, r, t, text.zone.dstoffset, true, s[text.dst.begin..text.dst.end])
  }

  // The two types of a state with rules.
  ghost predicate TwoTypes(sp: State, s: string, text: TzText)
    requires text.Alternating? && NamesInside(s, text)
    reads sp, sp.ttis, sp.chars
  {
    && sp.Shaped() && sp.leapcnt == 0
    && sp.ttis[0].utoff == -text.zone.stdoffset && !sp.ttis[0].isdst
    && sp.ttis[1].utoff == -text.zone.dstoffset && sp.ttis[1].isdst
    && CString(sp.chars[..], sp.ttis[0].desigidx) == s[text.std.begin..text.std.end]
    && CString(sp.chars[..], sp.ttis[1].desigidx) == s[text.dst.begin..text.dst.end]
  }

  lemma MadeParts(sp: State, s: string, text: TzText, stop: int)
    requires MadeFrom(sp, s, text, stop)
    ensures NamesInside(s, text) && GoodText(s, text) && NoNul(s) && Named(sp, s, text) && Filled(sp, text, stop)
  {
    ParsedIsGood(s);
    hide ParseTz, Filled, Named, GoodText, NoNul;
  }

  lemma RuleParts(sp: State, text: TzText, stop: int)
    requires Filled(sp, text, stop) && text.Alternating? && ValidZone(text.zone) && exists y :: Kept(text.zone, y)
    ensures var z := text.zone;
            && RuleState(sp, z, stop) && Fills(z, FIRST_YEAR, stop) && sp.leapcnt == 0
            && sp.Shaped() && sp.typecnt == 2
            && sp.ttis[0].utoff == -z.stdoffset && !sp.ttis[0].isdst && sp.ttis[0].desigidx == 0
            && sp.ttis[1].utoff == -z.dstoffset && sp.ttis[1].isdst
            && sp.ttis[1].desigidx == text.std.end - text.std.begin + 1
  {
    hide Kept, Unrolled, InRange, Fills;
    assert sp.Infos()[1] == sp.ttis[1];
  }

  lemma NamesPlaced(sp: State, s: string, text: TzText)
    requires NoNul(s) && GoodText(s, text) && NamesInside(s, text) && Named(sp, s, text) && text.Alternating? && sp.Shaped()
    ensures CString(sp.chars[..], 0) == s[text.std.begin..text.std.end]
    ensures CString(sp.chars[..], text.std.end - text.std.begin + 1) == s[text.dst.begin..text.dst.end]
  {
    hide CString, NoNul, InRange;
    NameFound(sp, s, text.std, 0);
    NameFound(sp, s, text.dst, text.std.end - text.std.begin + 1);
  }

  lemma TypesFound(sp: State, s: string, text: TzText, stop: int)
    requires MadeFrom(sp, s, text, stop) && text.Alternating? && ValidZone(text.zone) && exists y :: Kept(text.zone, y)
    ensures NamesInside(s, text) && TwoTypes(sp, s, text)
    ensures RuleState(sp, text.zone, stop) && Fills(text.zone, FIRST_YEAR, stop)
  {
    hide MadeFrom, RuleState, Fills, GoodText, NamesInside, NoNul, Named, Filled, Kept, CString;
    MadeParts(sp, s, text, stop);
    RuleParts(sp, text, stop);
    NamesPlaced(sp, s, text);
  }

  /** Whatever the rules, what localsub shows is one of the two kinds, with its clock and
      its name. */
  lemma ShowsOneKind(sp: State, s: string, text: TzText, stop: int, t: int, r: Option<Local>)
    requires MadeFrom(sp, s, text, stop) && text.Alternating? && ValidZone(text.zone) && exists y :: Kept(text.zone, y)
    requires Usable(sp) && Answers(sp, t, r) && r.Some?
    ensures NamesInside(s, text)
    ensures var ty := Looked(text.zone, FIRST_YEAR, stop, 0, t);
            0 <= ty <= 1 && ShowsKind(sp, r.value, s, text, t, ty)
  {
    hide *;
    TypesFound(sp, s, text, stop);
    NoLeapSeconds(sp, s, text);
    LocalIsPosix(sp, t, r);
    LooksUp(sp, text.zone, stop, t, r);
    KindIs(sp, s, text, t, r.value, Looked(text.zone, FIRST_YEAR, stop, 0, t));
  }

  lemma NoLeapSeconds(sp: State, s: string, text: TzText)
    requires text.Alternating? && NamesInside(s, text) && TwoTypes(sp, s, text)
    ensures sp.Shaped() && sp.leapcnt == 0
  {
    hide CString;
  }

  lemma KindIs(sp: State, s: string, text: TzText, t: int, r: Local, ty: int)
    requires sp.Shaped() && text.Alternating? && NamesInside(s, text) && 0 <= ty <= 1 && TwoTypes(sp, s, text)
    requires PosixSeconds(r.tm) == t + r.tm.gmtoff && r.tm.gmtoff == sp.ttis[ty].utoff
    requires r.tm.isdst == sp.ttis[ty].isdst && r.zone == sp.ttis[ty].desigidx
    ensures ShowsKind(sp, r, s, text, t, ty)
  {
    hide PosixSeconds, CString;
  }

  lemma LooksUp(sp: State, z: Zone, stop: int, t: int, r: Option<Local>)
    requires ValidZone(z) && RuleState(sp, z, stop) && (exists y :: Kept(z, y))
    requires Usable(sp) && Answers(sp, t, r) && r.Some?
    ensures var ty := Looked(z, FIRST_YEAR, stop, 0, t);
            && sp.Shaped() && 0 <= ty <= 1 && r.value.tm.gmtoff == sp.ttis[ty].utoff
            && r.value.tm.isdst == sp.ttis[ty].isdst && r.value.zone == sp.ttis[ty].desigidx
  {
    hide Shows, Unrolled, OutOfRange, Cycles, Inserted, LocalSeconds, Kept, Searched, Fills;
    TypeExists(sp, t + Folds(sp, t) * SECSPERREPEAT);
    FoldsIsCycles(sp, t);
    AnswerOf(sp, t, r);
  }

  lemma InTable(sp: State, z: Zone, stop: int, t: int)
    requires ValidZone(z) && RuleState(sp, z, stop) && (exists y :: Kept(z, y)) && Usable(sp)
    ensures Lands(sp, t) && sp.leapcnt == 0 && sp.Shaped()
    ensures -0x1000_0000_0000 < t + Folds(sp, t) * SECSPERREPEAT < 0x1000_0000_0000
  {
    RuleStateFoldable(sp, z, stop);
    LandsIff(sp);
    hide Kept, First, Second, Unrolled, Lands, Usable;
    FullTableSpan(z, FIRST_YEAR, stop);
    var s := Unrolled(z, FIRST_YEAR, stop);
    CyclesReach(s, t);
    FoldsIsCycles(sp, t);
    TableFar(z, stop, 0);
    TableFar(z, stop, |s| - 1);
  }

  lemma TableFar(z: Zone, stop: int, i: nat)
    requires ValidZone(z) && i < |Unrolled(z, FIRST_YEAR, stop)| && stop <= 500000
    ensures -0x1000_0000_0000 < Unrolled(z, FIRST_YEAR, stop)[i].at < 0x1000_0000_0000
  {
    hide Kept, First, Second, Unrolled;
    var y := UnrolledYear(z, FIRST_YEAR, stop, i);
    UnrolledHas(z, FIRST_YEAR, stop, y);
    TableYearFits(z, y);
  }

  /** And localsub has an answer exactly if the year is one for tm_year: from the year
      -2147481748 to 2147485547, on the local clock. */
  lemma AnsweredIff(sp: State, z: Zone, stop: int, t: int, r: Option<Local>)
    requires ValidZone(z) && RuleState(sp, z, stop) && (exists y :: Kept(z, y))
    requires Usable(sp) && Answers(sp, t, r)
    ensures var west := if Looked(z, FIRST_YEAR, stop, 0, t) == 0 then z.stdoffset else z.dstoffset;
            r.Some? <==> -67768040609740800 <= t - west <= 67768036191676799
  {
    hide *;
    InTable(sp, z, stop, t);
    var k := Folds(sp, t);
    var u := t + k * SECSPERREPEAT;
    ClockAt(sp, z, stop, t);
    AnswerHas(sp, t, r);
    var west := if Looked(z, FIRST_YEAR, stop, 0, t) == 0 then z.stdoffset else z.dstoffset;
    OutOfRangeIff(u, u - west);
    NearQuot(u);
    SmallOffsets(z, west);
    ShiftedYear(t - west, k);
    YearFits((t - west) / SECSPERDAY);
    DayBounds(t - west);
  }

  lemma AnswerHas(sp: State, t: int, r: Option<Local>)
    requires Usable(sp) && Answers(sp, t, r) && Lands(sp, t)
    ensures var (k, u) := (Folds(sp, t), t + Folds(sp, t) * SECSPERREPEAT); var local := LocalAt(sp, u);
            r.None? <==> OutOfRange(u, local) || !(-0x8000_0000 <= YearOf(local / SECSPERDAY) - 1900 - k * YEARSPERREPEAT <= 0x7fff_ffff)
  {
    hide Folds, Lands, LocalAt, OutOfRange, YearOf, Shows, Usable;
  }

  // The clock of the folded time.
  lemma ClockAt(sp: State, z: Zone, stop: int, t: int)
    requires ValidZone(z) && RuleState(sp, z, stop) && (exists y :: Kept(z, y)) && Usable(sp)
    ensures var west := if Looked(z, FIRST_YEAR, stop, 0, t) == 0 then z.stdoffset else z.dstoffset;
            LocalAt(sp, t + Folds(sp, t) * SECSPERREPEAT) == t + Folds(sp, t) * SECSPERREPEAT - west
  {
    hide Unrolled, Cycles, Kept, Searched, Fills;
    TypeExists(sp, t + Folds(sp, t) * SECSPERREPEAT);
    FoldsIsCycles(sp, t);
    LocalTime.NoLeaps(sp, t + Folds(sp, t) * SECSPERREPEAT);
  }

  lemma NearQuot(u: int)
    requires -0x1000_0000_0000 < u < 0x1000_0000_0000
    ensures -784353015833 <= Quot(u, 86400) < 784351576777
  {
  }

  lemma SmallOffsets(z: Zone, west: int)
    requires ValidZone(z) && (west == z.stdoffset || west == z.dstoffset)
    ensures -700000 < west < 700000 && SECSPERDAY == 86400 && YEARSPERREPEAT == 400
  {
  }

  lemma ShiftedYear(local: int, k: int)
    ensures YearOf((local + k * SECSPERREPEAT) / SECSPERDAY) == YearOf(local / SECSPERDAY) + k * YEARSPERREPEAT
  {
    var d := local / SECSPERDAY;
    var y := YearOf(d);
    hide YearOf, YearStart;
    assert SECSPERREPEAT == 146097 * 86400 && DAYSPERREPEAT == 146097;
    FloorIs(local + k * SECSPERREPEAT, SECSPERDAY, d + k * DAYSPERREPEAT, local % SECSPERDAY);
    YearStartCycles(y, k);
    YearStartCycles(y + 1, k);
    assert y + 1 + k * YEARSPERREPEAT == y + k * YEARSPERREPEAT + 1;
    YearOfUnique(y + k * YEARSPERREPEAT, d + k * DAYSPERREPEAT);
  }

  lemma YearFits(d: int)
    ensures -0x8000_0000 <= YearOf(d) - 1900 <= 0x7fff_ffff <==> -784352321872 <= d < 784352270737
  {
    hide YearOf, YearStart;
    FarYears();
    LastYears();
    YearAround(1900 - 0x8000_0000, d);
    YearAround(1900 + 0x8000_0000, d);
  }

  lemma LastYears()
    ensures YearStart(1900 + 0x8000_0000) == 784352270737
  {
    hide YearStart;
    YearStartClosed(1900 + 0x8000_0000);
  }

  lemma DayBounds(local: int)
    ensures -784352321872 <= local / 86400 < 784352270737 <==> -67768040609740800 <= local <= 67768036191676799
  {
  }

  /** Local time by usual rules: at every time, however far off, but for that one class, it
      is the time that the rules put in force, with its clock, its kind and its name. */
  lemma UsualRulesFollowed(sp: State, s: string, text: TzText, stop: int, t: int, r: Option<Local>)
    requires MadeFrom(sp, s, text, stop) && text.Alternating? && Usual(text.zone)
    requires Usable(sp) && Answers(sp, t, r) && r.Some? && !AtTableEnd(text.zone, t)
    ensures NamesInside(s, text)
    ensures RuleInForce(text.zone, t, 0) ==> ShowsKind(sp, r.value, s, text, t, 0)
    ensures RuleInForce(text.zone, t, 1) ==> ShowsKind(sp, r.value, s, text, t, 1)
  {
    hide *;
    var z := text.zone;
    ValidUsual(z);
    UsualKept(z);
    assert Kept(z, 0);
    TypesFound(sp, s, text, stop);
    UsualStop(z, stop);
    ShowsOneKind(sp, s, text, stop, t, r);
    TableStandsForRule(z, FIRST_YEAR, stop, 0, t);
    var ty := Looked(z, FIRST_YEAR, stop, 0, t);
    NotBoth(z, t, ty, 1 - ty);
  }

  lemma ValidUsual(z: Zone)
    requires Usual(z)
    ensures ValidZone(z)
  {
    hide DaylightPart, DoneBefore;
  }

  /** And so from the beginning of daylight time in a year to its end the clock is that of
      daylight time, and from its end to the next beginning that of standard time. */
  lemma UsualClock(sp: State, s: string, text: TzText, stop: int, y: int, t: int, r: Option<Local>)
    requires MadeFrom(sp, s, text, stop) && text.Alternating? && Usual(text.zone)
    requires Usable(sp) && Answers(sp, t, r) && r.Some? && !AtTableEnd(text.zone, t)
    ensures NamesInside(s, text)
    ensures var (a, b) := (StartAt(text.zone, y), EndAt(text.zone, y));
            && (a <= t < b || b < a <= t < EndAt(text.zone, y + 1) ==> ShowsKind(sp, r.value, s, text, t, 1))
            && (b <= t < a || a < b <= t < StartAt(text.zone, y + 1) ==> ShowsKind(sp, r.value, s, text, t, 0))
  {
    hide *;
    ValidUsual(text.zone);
    InForceBetween(text.zone, y, t);
    UsualRulesFollowed(sp, s, text, stop, t, r);
  }

  /** A string without daylight time shows its one clock, under its name, at all times. */
  lemma FixedClock(sp: State, s: string, text: TzText, stop: int, t: int, r: Option<Local>)
    requires MadeFrom(sp, s, text, stop) && text.Standard?
    requires Usable(sp) && Answers(sp, t, r) && r.Some?
    ensures NamesInside(s, text)
    ensures ShowsClock(sp, r.value, t, text.stdoffset, false, s[text.std.begin..text.std.end])
  {
    hide ParseTz, CString, Shows, OutOfRange, Cycles, Inserted, LocalSeconds, PosixSeconds, NoNul;
    MadeParts(sp, s, text, stop);
    NameFound(sp, s, text.std, 0);
    LocalIsPosix(sp, t, r);
    AnswerOf(sp, t, r);
  }

  /** A year has no daylight time, or so much of it that its end is that of the year, or
      later, by the new clock. */
  predicate NoPart(z: Zone, y: int)
    requires ValidZone(z)
  {
    StartAt(z, y) == EndAt(z, y) || EndAt(z, y) - StartAt(z, y) >= YearLength(y) * 86400 + z.stdoffset - z.dstoffset
  }

  /** If that is so every year, and daylight time never ends before it begins, localsub shows
      the clock of daylight time, under its name, at all times. */
  lemma PerpetualClock(sp: State, s: string, text: TzText, stop: int, t: int, r: Option<Local>)
    requires MadeFrom(sp, s, text, stop) && text.Alternating? && ValidZone(text.zone)
    requires forall y :: NoPart(text.zone, y) && StartAt(text.zone, y) <= EndAt(text.zone, y)
    requires Usable(sp) && Answers(sp, t, r) && r.Some?
    ensures NamesInside(s, text) && ShowsKind(sp, r.value, s, text, t, 1)
  {
    var z := text.zone;
    forall y
      ensures !Kept(z, y)
    {
      assert NoPart(z, y) && StartAt(z, y) <= EndAt(z, y);
    }
    hide *;
    MadeParts(sp, s, text, stop);
    OneTypeLeft(sp, s, text, stop, t, r);
    NamesPlaced(sp, s, text);
    LocalIsPosix(sp, t, r);
    OneKind(sp, r.value, s, text, t);
  }

  lemma OneTypeLeft(sp: State, s: string, text: TzText, stop: int, t: int, r: Option<Local>)
    requires Filled(sp, text, stop) && text.Alternating? && ValidZone(text.zone) && forall y :: !Kept(text.zone, y)
    requires Usable(sp) && Answers(sp, t, r) && r.Some?
    ensures sp.Shaped() && sp.leapcnt == 0 && r.value.tm.gmtoff == -text.zone.dstoffset && r.value.tm.isdst
    ensures r.value.zone == text.std.end - text.std.begin + 1
  {
    hide Kept, Unrolled, InRange, Fills, Shows, OutOfRange, Cycles, Inserted, LocalSeconds;
    assert sp.Infos()[0] == sp.ttis[0];
    AnswerOf(sp, t, r);
  }

  lemma OneKind(sp: State, r: Local, s: string, text: TzText, t: int)
    requires text.Alternating? && NamesInside(s, text) && PosixSeconds(r.tm) == t + r.tm.gmtoff
    requires r.tm.gmtoff == -text.zone.dstoffset && r.tm.isdst && r.zone == text.std.end - text.std.begin + 1
    requires CString(sp.chars[..], text.std.end - text.std.begin + 1) == s[text.dst.begin..text.dst.end]
    ensures ShowsKind(sp, r, s, text, t, 1)
  {
    hide PosixSeconds, CString;
  }
}
