/** Two usual zones, from their strings to the clock: the United States' east coast, by the
    rules that tzparse has for strings without rules, and Sydney. */
module UsualZones {
  import opened Wrappers
  import opened Calendar
  import opened CivilTime
  import opened CivilOrder
  import opened Rules
  import opened RuleText
  import opened ZoneState
  import opened RuleTable
  import opened YearRules
  import opened LocalTime
  import opened TzString
  import opened TzGrammar
  import opened TzParse
  import opened TzAbbrs
  import opened PosixTime
  import opened UsualRules

  // The second Sunday in March at two, the first in November at two.
  const Eastern := Zone(18000, 14400, Rule(MonthNthDayOfWeek, 0, 2, 3, 7200), Rule(MonthNthDayOfWeek, 0, 1, 11, 7200))

  // The first Sunday in October at two, the first in April at three.
  const Sydney := Zone(-36000, -39600, Rule(MonthNthDayOfWeek, 0, 1, 10, 7200), Rule(MonthNthDayOfWeek, 0, 1, 4, 10800))

  // The string reads as that zone with those names.
  ghost predicate ReadsAs(s: string, z: Zone, std: string, dst: string) {
    NoNul(s) && Gives(s, ParseTz(s), std, dst, z)
  }

  lemma Numbers()
    ensures Numeral("0", 0, 6) && Numeral("1", 1, 5) && Numeral("2", 1, 5) && Numeral("3", 1, 12) && Numeral("4", 1, 12)
    ensures Numeral("10", 1, 12) && Numeral("11", 1, 12) && Numeral("3", 0, 167) && Numeral("5", 0, 167) && Numeral("10", 0, 167)
    ensures Value("0") == 0 && Value("1") == 1 && Value("2") == 2 && Value("3") == 3 && Value("4") == 4 && Value("5") == 5
    ensures Value("10") == 10 && Value("11") == 11
  {
    assert "10"[..1] == "1" && "11"[..1] == "1";
    assert Value("1") == 1;
    assert Value("10") == 10 && Value("11") == 11;
  }

  // What a string with bare names says.
  lemma BareIsRead(std: string, offset: Shift, dst: string, rules: Option<Pair>, s: string, z: Zone)
    requires var p := Changing(Bare(std), offset, Bare(dst), None, rules);
             GoodSpelling(p) && Text(p) == s && Meaning(p) == z && NoNul(s)
    ensures ReadsAs(s, z, std, dst)
  {
    SpellingIsRead(Changing(Bare(std), offset, Bare(dst), None, rules));
    hide ParseTz, GoodSpelling, Text, Meaning, NoNul;
  }

  // M3.2.0 and the like.
  function Sunday(mon: string, week: string, time: Option<Shift>): Moment {
    Moment(Month(mon, week, "0"), time)
  }

  lemma SundayMeans(mon: string, week: string, time: Option<Shift>)
    requires Numeral(mon, 1, 12) && Numeral(week, 1, 5) && Numeral("0", 0, 6) && Value("0") == 0
    requires time.Some? ==> GoodShift(time.value)
    ensures GoodMoment(Sunday(mon, week, time))
    ensures MomentRule(Sunday(mon, week, time))
            == Rule(MonthNthDayOfWeek, 0, Value(week), Value(mon), if time.Some? then ShiftSecs(time.value) else 7200)
    ensures MomentText(Sunday(mon, week, time))
            == "M" + mon + "." + week + "." + "0" + if time.Some? then "/" + ShiftText(time.value) else ""
  {
    hide Value, GoodShift, ShiftText, ShiftSecs;
  }

  lemma WholeHour(sign: string, h: string)
    requires (sign == "" || sign == "-") && Numeral(h, 0, 167)
    ensures GoodShift(Shift(sign, Hours(h))) && ShiftText(Shift(sign, Hours(h))) == sign + h
    ensures ShiftSecs(Shift(sign, Hours(h))) == if sign == "-" then -(Value(h) * 3600) else Value(h) * 3600
  {
    hide Value;
  }

  // A name that stands for itself.
  predicate BareName(n: string) {
    0 < |n| < 20 && n[0] != ':' && n[0] != '<' && forall k :: 0 <= k < |n| ==> !EndsName(n[k])
  }

  lemma BareLabel(n: string)
    requires BareName(n)
    ensures GoodLabel(Bare(n)) && LabelText(Bare(n)) == n && 0 < |n| < 20 && n[0] != ':'
  {
    hide EndsName;
  }

  // A spelling with bare names and no offset of daylight time, and what it means.
  lemma BareMeans(std: string, offset: Shift, dst: string, pair: Pair)
    requires BareName(std) && BareName(dst) && GoodShift(offset) && GoodPair(pair) && pair.sep == ","
    ensures var p := Changing(Bare(std), offset, Bare(dst), None, Some(pair));
            && GoodSpelling(p) && Text(p) == std + ShiftText(offset) + dst + PairText(pair)
            && Meaning(p) == Zone(ShiftSecs(offset), ShiftSecs(offset) - 3600, MomentRule(pair.start), MomentRule(pair.end))
    ensures var p := Changing(Bare(std), offset, Bare(dst), None, None);
            && GoodSpelling(p) && Text(p) == std + ShiftText(offset) + dst && GoodPair(DefaultPair)
            && Meaning(p) == Zone(ShiftSecs(offset), ShiftSecs(offset) - 3600, MomentRule(DefaultPair.start), MomentRule(DefaultPair.end))
  {
    BareLabel(std);
    BareLabel(dst);
    DefaultIsGood();
    hide GoodShift, ShiftText, ShiftSecs, GoodPair, PairText, MomentRule, BareName, GoodLabel, LabelText;
    BareText(std, ShiftText(offset), dst, PairText(pair));
  }

  lemma BareText(a: string, b: string, c: string, d: string)
    ensures a + b + (c + "" + d) == a + b + c + d && a + b + (c + "" + "") == a + b + c
  {
  }

  /** The two strings of the first zone, without its rules and with them, and that of the
      other. */
  lemma EasternIsRead()
    ensures ReadsAs("EST5EDT", Eastern, "EST", "EDT")
    ensures ReadsAs("EST5EDT,M3.2.0,M11.1.0", Eastern, "EST", "EDT")
  {
    hide *;
    Numbers();
    var five, pair := Shift("", Hours("5")), Pair(",", Sunday("3", "2", None), Sunday("11", "1", None));
    WholeHour("", "5");
    SundayMeans("3", "2", None);
    SundayMeans("11", "1", None);
    PairMeans(pair);
    PlainNames();
    BareMeans("EST", five, "EDT", pair);
    EasternTexts(five, pair);
    BareIsRead("EST", five, "EDT", None, "EST5EDT", Eastern);
    BareIsRead("EST", five, "EDT", Some(pair), "EST5EDT,M3.2.0,M11.1.0", Eastern);
  }

  lemma PairMeans(p: Pair)
    requires p.sep == "," && GoodMoment(p.start) && GoodMoment(p.end)
    ensures GoodPair(p) && PairText(p) == "," + MomentText(p.start) + "," + MomentText(p.end)
  {
    hide GoodMoment, MomentText;
  }

  lemma PlainNames()
    ensures BareName("EST") && BareName("EDT") && BareName("AEST") && BareName("AEDT")
  {
  }

  lemma EasternTexts(five: Shift, pair: Pair)
    requires ShiftText(five) == "" + "5"
    requires pair == Pair(",", Sunday("3", "2", None), Sunday("11", "1", None))
    requires MomentText(pair.start) == "M" + "3" + "." + "2" + "." + "0" + ""
    requires MomentText(pair.end) == "M" + "11" + "." + "1" + "." + "0" + ""
    requires PairText(pair) == "," + MomentText(pair.start) + "," + MomentText(pair.end)
    ensures "EST" + ShiftText(five) + "EDT" == "EST5EDT"
    ensures "EST" + ShiftText(five) + "EDT" + PairText(pair) == "EST5EDT,M3.2.0,M11.1.0"
    ensures DefaultPair == pair && NoNul("EST5EDT") && NoNul("EST5EDT,M3.2.0,M11.1.0")
    ensures Eastern == Zone(5 * 3600, 5 * 3600 - 3600, Rule(MonthNthDayOfWeek, 0, 2, 3, 7200), Rule(MonthNthDayOfWeek, 0, 1, 11, 7200))
  {
    hide ShiftText, PairText, MomentText;
    assert MomentText(pair.start) == "M3.2.0";
    assert MomentText(pair.end) == "M11.1.0";
    assert PairText(pair) == ",M3.2.0,M11.1.0";
    assert "EST" + ShiftText(five) + "EDT" == "EST5EDT";
  }

  lemma SydneyIsRead()
    ensures ReadsAs("AEST-10AEDT,M10.1.0,M4.1.0/3", Sydney, "AEST", "AEDT")
  {
    hide *;
    var ten, three := Shift("-", Hours("10")), Some(Shift("", Hours("3")));
    var pair := Pair(",", Sunday("10", "1", None), Sunday("4", "1", three));
    SydneyPieces(ten, three, pair);
    PlainNames();
    BareMeans("AEST", ten, "AEDT", pair);
    BareIsRead("AEST", ten, "AEDT", Some(pair), "AEST-10AEDT,M10.1.0,M4.1.0/3", Sydney);
  }

  lemma SydneyPieces(ten: Shift, three: Option<Shift>, pair: Pair)
    requires ten == Shift("-", Hours("10")) && three == Some(Shift("", Hours("3")))
    requires pair == Pair(",", Sunday("10", "1", None), Sunday("4", "1", three))
    ensures GoodShift(ten) && GoodPair(pair) && pair.sep == "," && NoNul("AEST-10AEDT,M10.1.0,M4.1.0/3")
    ensures "AEST" + ShiftText(ten) + "AEDT" + PairText(pair) == "AEST-10AEDT,M10.1.0,M4.1.0/3"
    ensures Sydney == Zone(ShiftSecs(ten), ShiftSecs(ten) - 3600, MomentRule(pair.start), MomentRule(pair.end))
  {
    hide *;
    Numbers();
    WholeHour("-", "10");
    WholeHour("", "3");
    SundayMeans("10", "1", None);
    SundayMeans("4", "1", three);
    PairMeans(pair);
    SydneyTexts(ten, three, pair);
  }

  lemma SydneyTexts(ten: Shift, three: Option<Shift>, pair: Pair)
    requires ShiftText(ten) == "-" + "10" && three.Some? && ShiftText(three.value) == "" + "3"
    requires pair == Pair(",", Sunday("10", "1", None), Sunday("4", "1", three))
    requires MomentText(pair.start) == "M" + "10" + "." + "1" + "." + "0" + ""
    requires MomentText(pair.end) == "M" + "4" + "." + "1" + "." + "0" + ("/" + ShiftText(three.value))
    requires PairText(pair) == "," + MomentText(pair.start) + "," + MomentText(pair.end)
    ensures "AEST" + ShiftText(ten) + "AEDT" + PairText(pair) == "AEST-10AEDT,M10.1.0,M4.1.0/3"
    ensures NoNul("AEST-10AEDT,M10.1.0,M4.1.0/3")
    ensures Sydney == Zone(-(10 * 3600), -(10 * 3600) - 3600, Rule(MonthNthDayOfWeek, 0, 1, 10, 7200),
                           Rule(MonthNthDayOfWeek, 0, 1, 4, 3 * 3600))
  {
    hide ShiftText, PairText, MomentText, NoNul;
    SydneyMoments(three, pair);
    assert PairText(pair) == ",M10.1.0,M4.1.0/3";
    assert "AEST" + ShiftText(ten) + "AEDT" == "AEST-10AEDT";
    SydneyLetters();
  }

  lemma SydneyLetters()
    ensures NoNul("AEST-10AEDT,M10.1.0,M4.1.0/3")
  {
  }

  lemma SydneyMoments(three: Option<Shift>, pair: Pair)
    requires three.Some? && ShiftText(three.value) == "" + "3"
    requires MomentText(pair.start) == "M" + "10" + "." + "1" + "." + "0" + ""
    requires MomentText(pair.end) == "M" + "4" + "." + "1" + "." + "0" + ("/" + ShiftText(three.value))
    ensures MomentText(pair.start) == "M10.1.0" && MomentText(pair.end) == "M4.1.0/3"
  {
    hide ShiftText, MomentText;
  }

  /** A zone without daylight time, its name a number in brackets: three hours east. */
  lemma MoscowIsRead() returns (text: TzText)
    ensures NoNul("<+03>-3") && ParseTz("<+03>-3") == Some(text) && text.Standard? && text.stdoffset == -10800
    ensures text.std.begin <= text.std.end <= 7 && "<+03>-3"[text.std.begin..text.std.end] == "+03"
  {
    hide ParseTz, Value, Numeral;
    Numbers();
    WholeHour("-", "3");
    MoscowSpelt(Fixed(Quoted("+03"), Shift("-", Hours("3"))));
    SpellingIsRead(Fixed(Quoted("+03"), Shift("-", Hours("3"))));
    text := ParseTz("<+03>-3").value;
  }

  lemma MoscowSpelt(p: Spelling)
    requires p == Fixed(Quoted("+03"), Shift("-", Hours("3"))) && GoodShift(p.offset) && ShiftText(p.offset) == "-" + "3"
    ensures GoodSpelling(p) && Text(p) == "<+03>-3"
  {
    hide GoodShift, ShiftText;
  }

  // The w-th Sunday of a month is in the w-th week.
  lemma SundayIn(y: int, rule: Rule)
    requires InRange(rule) && rule.kind.MonthNthDayOfWeek? && rule.day == 0 && rule.week < 5
    ensures var first := MonthStart(IsLeap(y), rule.mon - 1);
            first + 7 * rule.week - 7 <= RuleDay(y, rule) < first + 7 * rule.week
  {
    hide MonthStart;
    MonthStartStep(IsLeap(y), rule.mon - 1);
    NthWeekdayRange(0, rule.week, FirstWeekday(y, rule.mon - 1), MonthLength(IsLeap(y), rule.mon - 1));
  }

  lemma Starts(leap: bool)
    ensures var l := if leap then 1 else 0;
            && MonthStart(leap, 2) == 59 + l && MonthStart(leap, 3) == 90 + l
            && MonthStart(leap, 9) == 273 + l && MonthStart(leap, 10) == 304 + l
  {
    var l := if leap then 1 else 0;
    assert MonthStart(leap, 1) == 31;
    assert MonthStart(leap, 2) == 59 + l;
    assert MonthStart(leap, 4) == 120 + l;
    assert MonthStart(leap, 6) == 181 + l;
    assert MonthStart(leap, 8) == 243 + l;
  }

  lemma EasternChanges(y: int)
    ensures ValidZone(Eastern)
    ensures var day0 := YearStart(y) * 86400;
            && day0 + 66 * 86400 < StartAt(Eastern, y) < day0 + 75 * 86400
            && day0 + 304 * 86400 < EndAt(Eastern, y) < day0 + 313 * 86400
  {
    hide RuleDay, MonthStart, YearStart;
    SundayIn(y, Eastern.start);
    SundayIn(y, Eastern.end);
    Starts(IsLeap(y));
  }

  lemma SydneyChanges(y: int)
    ensures ValidZone(Sydney)
    ensures var day0 := YearStart(y) * 86400;
            && day0 + 89 * 86400 < EndAt(Sydney, y) < day0 + 98 * 86400
            && day0 + 272 * 86400 < StartAt(Sydney, y) < day0 + 281 * 86400
  {
    hide RuleDay, MonthStart, YearStart;
    SundayIn(y, Sydney.start);
    SundayIn(y, Sydney.end);
    Starts(IsLeap(y));
  }

  /** Both are usual, and their tables end between changes: local time follows their rules
      without exception. */
  lemma BothUsual()
    ensures Usual(Eastern) && forall t :: !AtTableEnd(Eastern, t)
    ensures Usual(Sydney) && forall t :: !AtTableEnd(Sydney, t)
  {
    hide RuleTime, YearStart;
    forall y
      ensures ValidZone(Eastern) && DaylightPart(Eastern, y) && DoneBefore(Eastern, y)
      ensures ValidZone(Sydney) && DaylightPart(Sydney, y) && DoneBefore(Sydney, y)
    {
      EasternChanges(y);
      EasternChanges(y + 1);
      SydneyChanges(y);
      SydneyChanges(y + 1);
      YearStartStep(y);
    }
    EasternChanges(2769);
    EasternChanges(2770);
    SydneyChanges(2769);
    SydneyChanges(2770);
    YearStartStep(2769);
  }

  lemma Year2021()
    ensures YearStart(2021) == 18628 && !IsLeap(2021)
  {
    hide YearStart;
    YearStartClosed(2021);
  }

  // A Sunday of 2021.
  lemma SundayOf2021(rule: Rule, first: int, d: int)
    requires InRange(rule) && rule.kind.MonthNthDayOfWeek? && rule.day == 0 && first == MonthStart(false, rule.mon - 1)
    requires d == (0 - (4 + 18628 + first) % 7) % 7 + 7 * (rule.week - 1) < 28
    ensures RuleDay(2021, rule) == first + d
  {
    Year2021();
    hide YearStart, MonthStart, IsLeap;
  }

  lemma DaysOf2021()
    ensures ValidZone(Eastern) && RuleDay(2021, Eastern.start) == 72 && RuleDay(2021, Eastern.end) == 310
    ensures ValidZone(Sydney) && RuleDay(2021, Sydney.end) == 93 && RuleDay(2021, Sydney.start) == 275
  {
    Starts(false);
    hide MonthStart, RuleDay;
    SundayOf2021(Eastern.start, 59, 13);
    SundayOf2021(Eastern.end, 304, 6);
    SundayOf2021(Sydney.start, 273, 2);
    SundayOf2021(Sydney.end, 90, 3);
  }

  /** The changes of 2021, in seconds since the epoch. */
  lemma ChangesOf2021()
    ensures ValidZone(Eastern) && StartAt(Eastern, 2021) == 1615705200 && EndAt(Eastern, 2021) == 1636264800
    ensures ValidZone(Sydney) && EndAt(Sydney, 2021) == 1617465600 && StartAt(Sydney, 2021) == 1633190400
  {
    Year2021();
    DaysOf2021();
    hide YearStart, RuleDay;
  }

  lemma TextIs(sp: State, s: string, text: TzText, stop: int, z: Zone, std: string, dst: string)
    requires MadeFrom(sp, s, text, stop) && ReadsAs(s, z, std, dst)
    ensures text.Alternating? && text.zone == z && NamesInside(s, text)
    ensures s[text.std.begin..text.std.end] == std && s[text.dst.begin..text.dst.end] == dst
  {
    hide ParseTz, NoNul, Named, Filled;
  }

  // The year 2021 of the first zone, and where its winters are.
  lemma EasternYear(t: int)
    ensures ValidZone(Eastern)
    ensures 1609459200 <= t < 1615705200 ==> StartAt(Eastern, 2020) < EndAt(Eastern, 2020) <= t < StartAt(Eastern, 2021)
    ensures 1636264800 <= t < 1640995200 ==> StartAt(Eastern, 2021) < EndAt(Eastern, 2021) <= t < StartAt(Eastern, 2022)
  {
    hide StartAt, EndAt, YearStart;
    EasternChanges(2020);
    EasternChanges(2022);
    ChangesOf2021();
    Year2021();
    YearStartStep(2020);
    YearStartStep(2021);
  }

  lemma OffsetsAre()
    ensures Eastern.stdoffset == 18000 && Eastern.dstoffset == 14400
    ensures Sydney.stdoffset == -36000 && Sydney.dstoffset == -39600
  {
  }

  // The kinds of the text are these clocks.
  lemma KindOf(sp: State, r: Local, s: string, text: TzText, t: int, ty: int, west: int, isdst: bool, name: string)
    requires text.Alternating? && NamesInside(s, text) && ShowsKind(sp, r, s, text, t, ty) && 0 <= ty <= 1 && isdst == (ty == 1)
    requires west == if ty == 0 then text.zone.stdoffset else text.zone.dstoffset
    requires name == if ty == 0 then s[text.std.begin..text.std.end] else s[text.dst.begin..text.dst.end]
    ensures ShowsClock(sp, r, t, west, isdst, name)
  {
    hide ShowsClock;
  }

  /** From the string EST5EDT to the clock of 2021: daylight time from 1615705200 to
      1636264800, and Eastern Standard Time before and after. */
  lemma EasternClock(sp: State, text: TzText, stop: int, t: int, r: Option<Local>)
    requires MadeFrom(sp, "EST5EDT", text, stop) && Usable(sp) && Answers(sp, t, r) && r.Some?
    ensures 1615705200 <= t < 1636264800 ==> ShowsClock(sp, r.value, t, 14400, true, "EDT")
    ensures 1609459200 <= t < 1615705200 || 1636264800 <= t < 1640995200 ==> ShowsClock(sp, r.value, t, 18000, false, "EST")
  {
    hide *;
    EasternIsRead();
    BothUsual();
    ChangesOf2021();
    OffsetsAre();
    EasternYear(t);
    TextIs(sp, "EST5EDT", text, stop, Eastern, "EST", "EDT");
    if 1615705200 <= t < 1636264800 {
      UsualClock(sp, "EST5EDT", text, stop, 2021, t, r);
      KindOf(sp, r.value, "EST5EDT", text, t, 1, 14400, true, "EDT");
    } else if 1609459200 <= t < 1640995200 {
      UsualClock(sp, "EST5EDT", text, stop, if t < 1615705200 then 2020 else 2021, t, r);
      KindOf(sp, r.value, "EST5EDT", text, t, 0, 18000, false, "EST");
    }
  }

  /** And in Sydney: standard time from 1617465600 to 1633190400, and daylight time before
      and after. */
  lemma SydneyClock(sp: State, text: TzText, stop: int, t: int, r: Option<Local>)
    requires MadeFrom(sp, "AEST-10AEDT,M10.1.0,M4.1.0/3", text, stop) && Usable(sp) && Answers(sp, t, r) && r.Some?
    ensures 1617465600 <= t < 1633190400 ==> ShowsClock(sp, r.value, t, -36000, false, "AEST")
    ensures 1609459200 <= t < 1617465600 || 1633190400 <= t < 1640995200 ==> ShowsClock(sp, r.value, t, -39600, true, "AEDT")
  {
    hide *;
    SydneyIsRead();
    BothUsual();
    ChangesOf2021();
    OffsetsAre();
    SydneyYear(t);
    var s := "AEST-10AEDT,M10.1.0,M4.1.0/3";
    TextIs(sp, s, text, stop, Sydney, "AEST", "AEDT");
    if 1617465600 <= t < 1633190400 {
      UsualClock(sp, s, text, stop, 2021, t, r);
      KindOf(sp, r.value, s, text, t, 0, -36000, false, "AEST");
    } else if 1609459200 <= t < 1640995200 {
      UsualClock(sp, s, text, stop, if t < 1617465600 then 2020 else 2021, t, r);
      KindOf(sp, r.value, s, text, t, 1, -39600, true, "AEDT");
    }
  }

  lemma SydneyYear(t: int)
    ensures ValidZone(Sydney)
    ensures 1609459200 <= t < 1617465600 ==> EndAt(Sydney, 2020) < StartAt(Sydney, 2020) <= t < EndAt(Sydney, 2021)
    ensures 1633190400 <= t < 1640995200 ==> EndAt(Sydney, 2021) < StartAt(Sydney, 2021) <= t < EndAt(Sydney, 2022)
  {
    hide StartAt, EndAt, YearStart;
    SydneyChanges(2020);
    SydneyChanges(2022);
    ChangesOf2021();
    Year2021();
    YearStartStep(2020);
    YearStartStep(2021);
  }

  /** All the fields at 1610000000: Thursday, 7 January 2021, 1:13:20, by EST5EDT. */
  lemma EasternFields(sp: State, text: TzText, stop: int, r: Option<Local>)
    requires MadeFrom(sp, "EST5EDT", text, stop) && Usable(sp) && Answers(sp, 1610000000, r)
    ensures r.Some? && r.value.tm == Tm(20, 13, 1, 7, 0, 121, 4, 6, false, -18000)
    ensures CString(sp.chars[..], r.value.zone) == "EST"
  {
    hide *;
    EasternIsRead();
    BothUsual();
    OffsetsAre();
    TextIs(sp, "EST5EDT", text, stop, Eastern, "EST", "EDT");
    ValidUsual(Eastern);
    UsualKept(Eastern);
    assert Kept(Eastern, 0);
    TypesFound(sp, "EST5EDT", text, stop);
    AnsweredIff(sp, Eastern, stop, 1610000000, r);
    EasternClock(sp, text, stop, 1610000000, r);
    NoLeapSeconds(sp, "EST5EDT", text);
    LocalIsPosix(sp, 1610000000, r);
    ClockParts(sp, r.value, 1610000000, 18000, false, "EST");
    FieldsAt(r.value.tm);
  }

  lemma ClockParts(sp: State, r: Local, t: int, west: int, isdst: bool, name: string)
    requires ShowsClock(sp, r, t, west, isdst, name)
    ensures r.tm.gmtoff == -west && r.tm.isdst == isdst && CString(sp.chars[..], r.zone) == name
  {
    hide PosixSeconds, CString;
  }

  lemma FieldsAt(tm: Tm)
    requires Shows(tm, 1609982000, false) && tm.gmtoff == -18000 && !tm.isdst
    ensures tm == Tm(20, 13, 1, 7, 0, 121, 4, 6, false, -18000)
  {
    var day := Tm(20, 13, 1, 7, 0, 121, 4, 6, false, -18000);
    FieldsShow(day);
    hide *;
    FieldsUnique(tm, day, 1609982000, false);
    SameTm(tm, day);
  }

  lemma SameTm(tm: Tm, day: Tm)
    requires SameFields(tm, day) && tm.gmtoff == day.gmtoff && tm.isdst == day.isdst
    ensures tm == day
  {
  }

  lemma FieldsShow(day: Tm)
    requires day == Tm(20, 13, 1, 7, 0, 121, 4, 6, false, -18000)
    ensures Shows(day, 1609982000, false)
  {
    Year2021();
    hide YearStart;
    assert DayNumber(day) == 18634;
    assert Encode(day) == 1609982000;
  }
}
