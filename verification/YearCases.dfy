/** TZ strings whose yearly rules the table does not follow, one that it follows but for
    the seam, and one whose table is not in order. */
module YearCases {
  import opened Calendar
  import opened Rules
  import opened RuleText
  import opened TzString
  import opened ZoneState
  import opened RuleTable
  import opened YearRules

  // XXX5YYY6,0/0,364/22:30: from 1 January, 0:00 to the 365th day, 22:30.
  const Long := Zone(18000, 21600, Rule(DayOfYear, 0, 0, 0, 0), Rule(DayOfYear, 364, 0, 0, 81000))

  // EST5EDT,J1/1,J1: daylight time begins and ends at one instant.
  const Empty := Zone(18000, 14400, Rule(JulianDay, 1, 0, 0, 3600), Rule(JulianDay, 1, 0, 0, 7200))

  // EST5EDT,0/0,J365/25: daylight time all year (RFC 8536, section 3.3.1).
  const AllYear := Zone(18000, 14400, Rule(DayOfYear, 0, 0, 0, 0), Rule(JulianDay, 365, 0, 0, 90000))

  // XXX0YYY,J365/167,J1/-167: daylight time from a week after each year to a week before it.
  const Across := Zone(0, -3600, Rule(JulianDay, 365, 0, 0, 601200), Rule(JulianDay, 1, 0, 0, -601200))

  predicate Reads(s: string, z: Zone) {
    ParseTz(s).Some? && ParseTz(s).value.Alternating? && ParseTz(s).value.zone == z
  }

  // Numbers as they are written.
  lemma OneDigit(n: nat)
    requires n < 10
    ensures Digits(n) == [['0', '1', '2', '3', '4', '5', '6', '7', '8', '9'][n]]
  {
  }

  lemma MoreDigits(n: nat, s: string, last: string)
    requires n >= 10 && Digits(n / 10) == s && Digits(n % 10) == last
    ensures Digits(n) == s + last
  {
  }

  lemma WholeHours(hours: nat)
    ensures WriteOffset(hours * 3600) == Digits(hours)
  {
    hide Digits;
    var secs, mins := hours * 3600, hours * 60;
    assert secs == mins * 60 && secs / 60 == mins && secs % 60 == 0;
    assert mins % 60 == 0 && secs / 3600 == hours;
  }

  lemma LongRules()
    ensures InRange(Long.start) && InRange(Long.end)
    ensures WriteRule(Long.start) == "0/0" && WriteRule(Long.end) == "364/22:30"
  {
    OneDigit(0);
    OneDigit(2);
    OneDigit(3);
    OneDigit(4);
    OneDigit(6);
    MoreDigits(36, "3", "6");
    MoreDigits(364, "36", "4");
    MoreDigits(22, "2", "2");
    MoreDigits(30, "3", "0");
    WholeHours(0);
    hide Digits;
  }

  lemma EmptyRules()
    ensures InRange(Empty.start) && InRange(Empty.end)
    ensures WriteRule(Empty.start) == "J1/1" && WriteRule(Empty.end) == "J1"
  {
    OneDigit(1);
    WholeHours(1);
    hide Digits;
  }

  lemma AllYearRules()
    ensures InRange(AllYear.start) && InRange(AllYear.end)
    ensures WriteRule(AllYear.start) == "0/0" && WriteRule(AllYear.end) == "J365/25"
  {
    OneDigit(0);
    OneDigit(2);
    OneDigit(3);
    OneDigit(5);
    OneDigit(6);
    MoreDigits(36, "3", "6");
    MoreDigits(365, "36", "5");
    MoreDigits(25, "2", "5");
    WholeHours(0);
    WholeHours(25);
    hide Digits;
  }

  lemma WrittenReads(std: string, dst: string, z: Zone, o: string, p: string, start: string, end: string, s: string)
    requires PlainName(std) && PlainName(dst) && WritableZone(z) && |std| == |dst| == 3
    requires WriteOffset(z.stdoffset) == o && WriteDst(z) == p && WriteRule(z.start) == start && WriteRule(z.end) == end
    requires s == std + o + dst + p + ("," + start + "," + end)
    ensures Reads(s, z) && Gives(s, ParseTz(s), std, dst, z)
  {
    TzRoundTrip(std, dst, z);
    hide ParseTz, WriteOffset, WriteRule, WriteDst, PlainName;
  }

  lemma ThreeLetters(name: string)
    requires |name| == 3 && forall k :: 0 <= k < 3 ==> 'A' <= name[k] <= 'Z'
    ensures PlainName(name)
  {
  }

  lemma LongOffsets()
    ensures WriteOffset(Long.stdoffset) == "5" && WriteDst(Long) == "6" && WritableZone(Long)
  {
    OneDigit(5);
    OneDigit(6);
    WholeHours(5);
    WholeHours(6);
    hide Digits, WriteOffset;
  }

  lemma EmptyOffsets()
    ensures WriteOffset(Empty.stdoffset) == "5" && WriteDst(Empty) == "" && WritableZone(Empty)
    ensures WriteOffset(AllYear.stdoffset) == "5" && WriteDst(AllYear) == "" && WritableZone(AllYear)
  {
    OneDigit(5);
    WholeHours(5);
    hide Digits, WriteOffset;
  }

  /** They are the zones of these strings. */
  lemma LongString()
    ensures Reads("XXX5YYY6,0/0,364/22:30", Long)
  {
    hide *;
    ThreeLetters("XXX");
    ThreeLetters("YYY");
    LongOffsets();
    LongRules();
    WrittenReads("XXX", "YYY", Long, "5", "6", "0/0", "364/22:30", "XXX5YYY6,0/0,364/22:30");
  }

  lemma EmptyString()
    ensures Reads("EST5EDT,J1/1,J1", Empty)
  {
    hide *;
    ThreeLetters("EST");
    ThreeLetters("EDT");
    EmptyOffsets();
    EmptyRules();
    WrittenReads("EST", "EDT", Empty, "5", "", "J1/1", "J1", "EST5EDT,J1/1,J1");
  }

  lemma AllYearString()
    ensures Reads("EST5EDT,0/0,J365/25", AllYear)
  {
    hide *;
    ThreeLetters("EST");
    ThreeLetters("EDT");
    EmptyOffsets();
    AllYearRules();
    WrittenReads("EST", "EDT", AllYear, "5", "", "0/0", "J365/25", "EST5EDT,0/0,J365/25");
  }

  lemma LongChanges(y: int)
    ensures ValidZone(Long)
    ensures StartAt(Long, y) == YearStart(y) * SECSPERDAY + 18000
    ensures EndAt(Long, y) == YearStart(y) * SECSPERDAY + 365 * SECSPERDAY + 16200
    ensures Kept(Long, y) <==> IsLeap(y)
    ensures Second(Long, y).at < First(Long, y + 1).at
  {
    YearStartStep(y);
  }

  /** In the first zone daylight time is in force for all but half an hour of common
      years, which are lost: at its beginning in 2021 every lookup gives standard time. */
  lemma LongYearsAreLost(lo: int, hi: int, default: int)
    requires ValidZone(Long) && Fills(Long, lo, hi)
    ensures Parted(Long) && Lost(Long, 2021)
    ensures var t := StartAt(Long, 2021); RuleInForce(Long, t, 1) && Looked(Long, lo, hi, default, t) == 0
    ensures var t := StartAt(Long, 2021); !RuleInForce(Long, t, Looked(Long, lo, hi, default, t))
  {
    forall y | Kept(Long, y) && Kept(Long, y + 1)
      ensures Second(Long, y).at <= First(Long, y + 1).at
    {
      LongChanges(y);
    }
    LongChanges(2021);
    LongChanges(2020);
    hide *;
    LongLookup(lo, hi, default);
    NotBoth(Long, StartAt(Long, 2021), 1, 0);
  }

  // The same as above whole cycles away, inside the table.
  lemma LongLookup(lo: int, hi: int, default: int)
    requires ValidZone(Long) && Fills(Long, lo, hi) && Parted(Long) && Lost(Long, 2021)
    ensures var t := StartAt(Long, 2021); RuleInForce(Long, t, 1) && Looked(Long, lo, hi, default, t) == 0
  {
    hide *;
    var t := First(Long, 2021).at;
    LongIs(2021);
    SeamIs(Long, lo, hi, t);
    LookedIs(Long, lo, hi, default, t);
    UnrolledOrdered(Long, lo, hi);
    var s := Unrolled(Long, lo, hi);
    var c := Cycles(s, t);
    var w := 2021 + c * YEARSPERREPEAT;
    ChangeCycles(Long, 2021, c);
    LostPeriod(Long, 2021, c);
    LongIs(w - 1);
    LongIs(w);
    SearchedIsPick(s, default, t + c * SECSPERREPEAT);
    LongPick(lo, hi, default, w);
    AtFirst(Long, 2021);
    ChangesGrow(Long, 2021, 2022);
    InForceIff(Long, 2021, t, 1);
  }

  lemma LongIs(y: int)
    ensures ValidZone(Long) && StartAt(Long, y) == First(Long, y).at < Second(Long, y).at < First(Long, y + 1).at
    ensures First(Long, y).ty == 1 && Second(Long, y).ty == 0
  {
    LongChanges(y);
  }

  lemma LongPick(lo: int, hi: int, default: int, w: int)
    requires ValidZone(Long) && Lost(Long, w)
    requires var s, t := Unrolled(Long, lo, hi), First(Long, w).at; s != [] && s[0].at <= t
    ensures Pick(Unrolled(Long, lo, hi), default, First(Long, w).at) == 0
  {
    hide *;
    var t := First(Long, w).at;
    var p := PickUnrolled(Long, lo, hi, default, t);
    LostFromChanges(Long, w);
    LongIs(p);
    LongIs(w - 1);
    if w < p {
      ChangesGrow(Long, w, p);
      assert false;
    }
    if p < w - 1 {
      FarApart(Long, p, w);
    }
  }

  lemma EmptyChanges(y: int)
    ensures ValidZone(Empty) && !Kept(Empty, y)
    ensures First(Empty, y).at == Second(Empty, y).at < First(Empty, y + 1).at && Second(Empty, y).ty == 0
  {
    YearStartStep(y);
  }

  /** In the second zone standard time is in force at all times. No year is kept, so that
      what is left is daylight time for ever. */
  lemma EmptyYearsAreDropped(t: int)
    ensures ValidZone(Empty) && RuleInForce(Empty, t, 0) && !RuleInForce(Empty, t, 1)
    ensures forall y :: !Kept(Empty, y)
  {
    forall y
      ensures ValidZone(Empty) && !Kept(Empty, y)
    {
      EmptyChanges(y);
    }
    var y := YearAt(Empty, t);
    EmptyChanges(y);
    hide RuleInForce;
    InForceIff(Empty, y, t, 0);
    NotBoth(Empty, t, 0, 1);
  }

  lemma AllYearChanges(y: int)
    ensures ValidZone(AllYear) && Kept(AllYear, y)
    ensures First(AllYear, y).at < Second(AllYear, y).at == First(AllYear, y + 1).at && First(AllYear, y).ty == 1
  {
    YearStartStep(y);
  }

  /** In the third zone years touch, all are kept, and daylight time is in force at all
      times. Every lookup gives it, but at the end of the table, and at all times whole
      400-year cycles later, it gives standard time. */
  lemma AllYearButTheSeam(lo: int, hi: int, default: int, t: int)
    requires ValidZone(AllYear) && Fills(AllYear, lo, hi)
    ensures RuleInForce(AllYear, t, 1) && Parted(AllYear) && NothingLost(AllYear)
    ensures Looked(AllYear, lo, hi, default, t) == 1
            <==> !(First(AllYear, hi).at <= t && (t - First(AllYear, hi).at) % SECSPERREPEAT == 0)
  {
    hide *;
    forall y
      ensures Kept(AllYear, y) && Second(AllYear, y).at == First(AllYear, y + 1).at
    {
      AllYearChanges(y);
    }
    AllYearParted();
    var y := YearAt(AllYear, t);
    AllYearChanges(y);
    AllYearChanges(y - 1);
    AllYearOn(y, t);
    InForceIff(AllYear, y, t, 1);
    TableStandsForRule(AllYear, lo, hi, default, t);
    AllYearSeam(lo, hi, t);
    if Looked(AllYear, lo, hi, default, t) != 1 {
      NotBoth(AllYear, t, 1, Looked(AllYear, lo, hi, default, t));
    }
  }

  lemma AllYearOn(y: int, t: int)
    requires ValidZone(AllYear) && First(AllYear, y).at <= t < First(AllYear, y + 1).at && First(AllYear, y).ty == 1
    requires Second(AllYear, y).at == First(AllYear, y + 1).at && Second(AllYear, y - 1).at == First(AllYear, y).at
    ensures TypeOfYear(AllYear, y, t) == 1
  {
    hide First, Second;
  }

  lemma AllYearParted()
    requires ValidZone(AllYear)
    ensures Parted(AllYear) && NothingLost(AllYear)
  {
    forall y
      ensures Kept(AllYear, y) && Second(AllYear, y).at <= First(AllYear, y + 1).at && !Lost(AllYear, y)
    {
      AllYearChanges(y);
      AllYearNotLost(y);
    }
  }

  lemma AllYearNotLost(y: int)
    requires ValidZone(AllYear)
    ensures !Lost(AllYear, y)
  {
    AllYearChanges(y);
  }

  lemma AllYearSeam(lo: int, hi: int, t: int)
    requires ValidZone(AllYear) && Fills(AllYear, lo, hi)
    ensures AtSeam(AllYear, lo, hi, t) <==> First(AllYear, hi).at <= t && (t - First(AllYear, hi).at) % SECSPERREPEAT == 0
  {
    hide First, Second, Kept;
    AllYearChanges(hi - 1);
  }

  lemma AcrossRules()
    ensures InRange(Across.start) && InRange(Across.end)
    ensures WriteRule(Across.start) == "J365/167" && WriteRule(Across.end) == "J1/-167"
  {
    OneDigit(1);
    OneDigit(3);
    OneDigit(5);
    OneDigit(6);
    OneDigit(7);
    MoreDigits(36, "3", "6");
    MoreDigits(365, "36", "5");
    MoreDigits(16, "1", "6");
    MoreDigits(167, "16", "7");
    WholeHours(167);
    hide Digits, WriteSecs;
    assert WriteOffset(-601200) == "-" + WriteOffset(601200);
  }

  lemma AcrossOffsets()
    ensures WriteOffset(Across.stdoffset) == "0" && WriteDst(Across) == "" && WritableZone(Across)
  {
    OneDigit(0);
    WholeHours(0);
    hide Digits, WriteOffset;
  }

  lemma AcrossString()
    ensures Reads("XXX0YYY,J365/167,J1/-167", Across)
    ensures var s := "XXX0YYY,J365/167,J1/-167"; Gives(s, ParseTz(s), "XXX", "YYY", Across)
  {
    hide *;
    ThreeLetters("XXX");
    ThreeLetters("YYY");
    AcrossOffsets();
    AcrossRules();
    WrittenReads("XXX", "YYY", Across, "0", "", "J365/167", "J1/-167", "XXX0YYY,J365/167,J1/-167");
  }

  /** In the fourth zone each year's changes run into the next year's, so that no full
      table is in order. */
  lemma AcrossOutOfOrder(lo: int, hi: int)
    requires ValidZone(Across) && |Unrolled(Across, lo, hi)| == TZ_MAX_TIMES
    ensures !Parted(Across) && !NonDecreasing(Unrolled(Across, lo, hi))
  {
    AcrossChanges(lo);
    AcrossChanges(lo + 1);
    TableOrderedIff(Across, lo, hi);
  }

  lemma AcrossChanges(y: int)
    ensures ValidZone(Across) && Kept(Across, y) && Second(Across, y).at > First(Across, y + 1).at
    ensures First(Across, y).at < Second(Across, y).at && First(Across, y).ty == 0 && Second(Across, y).ty == 1
  {
    YearStartStep(y);
  }

  /** By its rules daylight time is in force from a week after a year begins to a week
      before the next does, every year. Every lookup gives standard time, but at the end of
      the table, and at all times whole 400-year cycles later. */
  lemma AcrossShowsStandard(lo: int, hi: int, default: int, y: int, t: int)
    requires ValidZone(Across) && Fills(Across, lo, hi) && Second(Across, y).at <= t < First(Across, y + 2).at
    ensures RuleInForce(Across, t, 1)
    ensures Looked(Across, lo, hi, default, t) == 0
            <==> !(Second(Across, hi - 1).at <= t && (t - Second(Across, hi - 1).at) % SECSPERREPEAT == 0)
  {
    hide *;
    AcrossChanges(y);
    ChangesGrow(Across, y, y + 1);
    GoesOnTo(y, t);
    InForceIff(Across, y + 1, t, 1);
    AcrossLookup(lo, hi, default, t);
  }

  lemma GoesOnTo(y: int, t: int)
    requires ValidZone(Across) && First(Across, y + 1).at < Second(Across, y).at <= t < First(Across, y + 2).at
    requires Second(Across, y).ty == 1
    ensures TypeOfYear(Across, y + 1, t) == 1 && First(Across, y + 1).at <= t
  {
    hide First, Second;
    AcrossChanges(y + 1);
  }

  lemma AcrossLookup(lo: int, hi: int, default: int, t: int)
    requires ValidZone(Across) && Fills(Across, lo, hi)
    ensures Looked(Across, lo, hi, default, t) == 0
            <==> !(Second(Across, hi - 1).at <= t && (t - Second(Across, hi - 1).at) % SECSPERREPEAT == 0)
  {
    hide *;
    var s := Unrolled(Across, lo, hi);
    LookedIs(Across, lo, hi, default, t);
    FullTableSpan(Across, lo, hi);
    AcrossEnd(lo, hi);
    CyclesReach(s, t);
    var u := t + Cycles(s, t) * SECSPERREPEAT;
    if u == s[|s| - 1].at {
      SearchedSplit(s, default, u, |s| - 1);
    } else {
      var k := SearchedAt(s, default, u);
      AcrossPasses(lo, hi, u, k);
    }
  }

  // The last entry is the latest of all.
  lemma AcrossEnd(lo: int, hi: int)
    requires ValidZone(Across) && |Unrolled(Across, lo, hi)| == TZ_MAX_TIMES
    ensures var s := Unrolled(Across, lo, hi);
            s != [] && s[|s| - 1] == Second(Across, hi - 1) && s[|s| - 1].ty == 1
            && forall i :: 0 <= i < |s| ==> s[i].at <= s[|s| - 1].at
  {
    var s := Unrolled(Across, lo, hi);
    hide First, Second, Kept;
    AcrossChanges(hi - 1);
    forall i | 0 <= i < |s|
      ensures s[i].at <= s[|s| - 1].at
    {
      var v := UnrolledYear(Across, lo, hi, i);
      UnrolledHas(Across, lo, hi, v);
      FirstBeforeSecond(Across, v);
      if v < hi - 1 {
        ChangesGrow(Across, v, hi - 1);
      }
    }
  }

  // Before that the table passes u only at the end of a year's daylight time.
  lemma AcrossPasses(lo: int, hi: int, u: int, k: int)
    requires ValidZone(Across) && Passes(Unrolled(Across, lo, hi), u, k) && k + 1 < |Unrolled(Across, lo, hi)|
    ensures Unrolled(Across, lo, hi)[k].ty == 0
  {
    hide First, Second, Kept, Unrolled;
    var v := UnrolledYear(Across, lo, hi, k);
    UnrolledHas(Across, lo, hi, v);
    AcrossChanges(v);
    if k == |Unrolled(Across, lo, v)| + 1 {
      if v + 1 < hi {
        AcrossChanges(v + 1);
        UnrolledHas(Across, lo, hi, v + 1);
        NextStarts(lo, v);
      } else {
        NextStarts(lo, v);
      }
      assert false;
    }
  }

  lemma NextStarts(lo: int, v: int)
    requires ValidZone(Across) && lo <= v && Kept(Across, v)
    ensures |Unrolled(Across, lo, v + 1)| == |Unrolled(Across, lo, v)| + 2
  {
    hide First, Second, Kept;
  }
}
