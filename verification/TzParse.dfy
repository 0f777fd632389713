/** tzparse: fills a state from the two yearly rules of a POSIX TZ string. */
module TzParse {
  import opened CArith
  import opened Calendar
  import opened CivilTime
  import opened Rules
  import opened ZoneState
  import opened RuleTable
  import opened YearRules
  import opened LocalTime
  import opened TzString
  import opened RuleText
  import opened Wrappers

  const FIRST_YEAR := EPOCH_YEAR - YEARSPERREPEAT / 2

  /** Source/tzdb.h:1636-1644: 1 January of the first year of the table. */
  method FirstJanuary() returns (yearbeg: int, janfirst: int, janoffset: int)
    ensures yearbeg == FIRST_YEAR && janfirst == YearStart(FIRST_YEAR) * SECSPERDAY && janoffset == 0
  {
    yearbeg, janfirst, janoffset := EPOCH_YEAR, 0, 0;
    while true
      invariant FIRST_YEAR < yearbeg <= EPOCH_YEAR
      invariant janfirst == YearStart(yearbeg) * SECSPERDAY && janoffset == 0
      invariant 366 * (yearbeg - EPOCH_YEAR) <= YearStart(yearbeg) <= 0
      decreases yearbeg
    {
      YearStartStep(yearbeg - 1);
      var yearsecs := YearLength(yearbeg - 1) * SECSPERDAY;
      yearbeg := yearbeg - 1;
      var overflow;
      overflow, janfirst := IncrementOverflowTime(janfirst, -yearsecs);
      if overflow {
        janoffset := -yearsecs;
        break;
      }
      if !(FIRST_YEAR < yearbeg) {
        break;
      }
    }
  }

  // The table holds the changes of the years up to `stop`, where it was found full,
  // or where 400 years had gone by without a change.
  ghost predicate StoppedAt(z: Zone, stop: int, full: bool)
    requires ValidZone(z)
  {
    if full then Fills(z, FIRST_YEAR, stop)
    else FIRST_YEAR + YEARSPERREPEAT < stop && (forall y :: stop - YEARSPERREPEAT <= y < stop ==> !Kept(z, y))
  }

  /** Either no year has changes, or the table is filled and a year is left out. */
  lemma StopMeansFullOrNone(z: Zone, stop: int)
    requires ValidZone(z) && StoppedAt(z, stop, false)
    ensures forall y :: !Kept(z, y)
  {
    forall y
      ensures !Kept(z, y)
    {
      var c := (stop - 1 - y) / YEARSPERREPEAT;
      ChangeCycles(z, y, c);
      assert stop - YEARSPERREPEAT <= y + c * YEARSPERREPEAT < stop;
    }
  }

  lemma {:induction false} NothingUnrolled(z: Zone, lo: int, hi: int)
    requires ValidZone(z) && forall y :: !Kept(z, y)
    ensures Unrolled(z, lo, hi) == []
    decreases hi - lo
  {
    if lo < hi {
      NothingUnrolled(z, lo, hi - 1);
    }
  }

  // Years of the table and their changes are far from the ends of time.
  lemma TableYearFits(z: Zone, y: int)
    requires ValidZone(z) && FIRST_YEAR <= y <= 500000
    ensures IsTime(YearStart(y) * SECSPERDAY) && IsTime(YearStart(y + 1) * SECSPERDAY)
    ensures IsTime(First(z, y).at) && IsTime(Second(z, y).at)
    ensures -0x1000_0000_0000 < First(z, y).at <= Second(z, y).at < 0x1000_0000_0000
    ensures IsInt(First(z, y).at - YearStart(y) * SECSPERDAY) && IsInt(Second(z, y).at - YearStart(y) * SECSPERDAY)
  {
    hide First, Second;
    YearStartStep(y);
    YearSpan(FIRST_YEAR, y);
    YearSpan(FIRST_YEAR, EPOCH_YEAR);
    ChangesNearYear(z, y);
  }

  /** Source/tzdb.h:1648-1669: one year's changes, in order, as seconds into the
      year, and whether they are to be kept. */
  method YearChanges(z: Zone, year: int) returns (starttime: int, endtime: int, reversed: bool, kept: bool)
    requires ValidZone(z) && FIRST_YEAR <= year
    ensures kept == Kept(z, year)
    ensures First(z, year) == Transition(YearStart(year) * SECSPERDAY + starttime, if reversed then 0 else 1)
    ensures Second(z, year) == Transition(YearStart(year) * SECSPERDAY + endtime, if reversed then 1 else 0)
  {
    starttime := Transtime(year, z.start, z.stdoffset);
    endtime := Transtime(year, z.end, z.dstoffset);
    hide RuleTime, YearStart;
    var yearsecs := YearLength(year) * SECSPERDAY;
    reversed := endtime < starttime;
    if reversed {
      starttime, endtime := endtime, starttime;
    }
    kept := reversed || (starttime < endtime && endtime - starttime < yearsecs + (z.stdoffset - z.dstoffset));
  }

  /** Source/tzdb.h:1664-1684: the year's two changes put at the end of the table
      unless they are not kept or there is no room. */
  method AddYear(sp: State, z: Zone, year: int, janfirst: int, janoffset: int, timecnt0: int)
    returns (timecnt: int, added: bool, full: bool)
    requires sp.Shaped() && ValidZone(z)
    requires FIRST_YEAR <= year <= 500000
    requires janfirst == YearStart(year) * SECSPERDAY && janoffset == 0
    requires 0 <= timecnt0 <= TZ_MAX_TIMES && timecnt0 % 2 == 0
    modifies sp.ats, sp.types
    ensures full <==> Kept(z, year) && timecnt0 == TZ_MAX_TIMES
    ensures added <==> Kept(z, year) && !full
    ensures timecnt == timecnt0 + if added then 2 else 0
    ensures timecnt <= TZ_MAX_TIMES
    ensures Zip(sp.ats[..timecnt], sp.types[..timecnt])
            == old(Zip(sp.ats[..timecnt0], sp.types[..timecnt0]))
               + if added then [First(z, year), Second(z, year)] else []
  {
    hide *;
    TableRoom(sp);
    timecnt, added, full := timecnt0, false, false;
    var starttime, endtime, reversed, kept := YearChanges(z, year);
    TableYearFits(z, year);
    if kept {
      if TZ_MAX_TIMES - 2 < timecnt {
        return timecnt, false, true;
      }
      var overflow;
      overflow, timecnt := AddChange(sp, janfirst, janoffset + starttime, if reversed then 0 else 1, timecnt);
      overflow, timecnt := AddChange(sp, janfirst, janoffset + endtime, if reversed then 1 else 0, timecnt);
      added := !overflow;
    }
  }

  lemma TableRoom(sp: State)
    requires sp.Shaped()
    ensures sp.ats.Length == sp.types.Length == TZ_MAX_TIMES == 2000 && sp.ats != sp.types
  {
  }

  // One change put at the end of the table, if its time does not overflow.
  method AddChange(sp: State, janfirst: int, seconds: int, ty: int, timecnt0: int) returns (overflow: bool, timecnt: int)
    requires sp.Shaped() && 0 <= timecnt0 < TZ_MAX_TIMES && IsTime(janfirst) && IsInt(seconds)
    modifies sp.ats, sp.types
    ensures overflow <==> !IsTime(janfirst + seconds)
    ensures timecnt == timecnt0 + if overflow then 0 else 1
    ensures Zip(sp.ats[..timecnt], sp.types[..timecnt])
            == old(Zip(sp.ats[..timecnt0], sp.types[..timecnt0]))
               + if overflow then [] else [Transition(janfirst + seconds, ty)]
  {
    timecnt := timecnt0;
    sp.ats[timecnt] := janfirst;
    var at;
    overflow, at := IncrementOverflowTime(sp.ats[timecnt], seconds);
    sp.ats[timecnt] := at;
    if !overflow {
      sp.types[timecnt] := ty;
      timecnt := timecnt + 1;
    }
    assert sp.ats[..timecnt0] == old(sp.ats[..timecnt0]) && sp.types[..timecnt0] == old(sp.types[..timecnt0]);
  }

  /** Source/tzdb.h:1636-1689: the changes of consecutive years, until the table is
      full or 400 years have gone by without one. */
  method UnrollYears(sp: State, z: Zone) returns (timecnt: int, year: int, yearbeg: int)
    requires sp.Shaped() && ValidZone(z)
    modifies sp.ats, sp.types
    ensures yearbeg == FIRST_YEAR
    ensures 0 <= timecnt <= TZ_MAX_TIMES
    ensures Zip(sp.ats[..timecnt], sp.types[..timecnt]) == Unrolled(z, FIRST_YEAR, year)
    ensures StoppedAt(z, year, timecnt == TZ_MAX_TIMES)
    ensures year <= 500000
  {
    hide *;
    TableRoom(sp);
    TableNumbers();
    timecnt := 0;
    var janfirst, janoffset;
    yearbeg, janfirst, janoffset := FirstJanuary();
    var yearlim := yearbeg + YEARSPERREPEAT + 1;
    year := yearbeg;
    EmptyZip(sp.ats[..0], sp.types[..0]);
    UnrolledNone(z, FIRST_YEAR);
    while year < yearlim
      invariant FIRST_YEAR <= year <= yearlim <= FIRST_YEAR + 401 + 201 * timecnt
      invariant FIRST_YEAR + 401 <= yearlim
      invariant 0 <= timecnt <= TZ_MAX_TIMES && timecnt % 2 == 0
      invariant janfirst == YearStart(year) * SECSPERDAY && janoffset == 0
      invariant Zip(sp.ats[..timecnt], sp.types[..timecnt]) == Unrolled(z, FIRST_YEAR, year)
      invariant |Unrolled(z, FIRST_YEAR, year)| == timecnt
      invariant forall y :: yearlim - YEARSPERREPEAT <= y < year ==> !Kept(z, y)
      invariant timecnt > 0 ==> Kept(z, yearlim - YEARSPERREPEAT - 1)
      decreases TZ_MAX_TIMES - timecnt, yearlim - year
    {
      var added, full;
      timecnt, added, full := AddYear(sp, z, year, janfirst, janoffset, timecnt);
      if full {
        break;
      }
      if added {
        yearlim := year + YEARSPERREPEAT + 1;
      }
      UnrolledNext(z, FIRST_YEAR, year);
      YearStartStep(year);
      YearSecondsFit(year);
      TableYearFits(z, year);
      var overflow;
      overflow, janfirst := IncrementOverflowTime(janfirst, janoffset + YearLength(year) * SECSPERDAY);
      if overflow {
        break;
      }
      janoffset := 0;
      year := year + 1;
    }
    if timecnt == TZ_MAX_TIMES && year == yearlim {
      KeptAgain(z, year);
    }
    StopIs(z, year, timecnt == TZ_MAX_TIMES);
  }

  lemma TableNumbers()
    ensures YEARSPERREPEAT == 400 && TZ_MAX_TIMES == 2000 && SECSPERDAY == 86400 && FIRST_YEAR == 1770
  {
  }

  lemma UnrolledNone(z: Zone, lo: int)
    requires ValidZone(z)
    ensures Unrolled(z, lo, lo) == []
  {
  }

  lemma UnrolledNext(z: Zone, lo: int, y: int)
    requires ValidZone(z) && lo <= y
    ensures Unrolled(z, lo, y + 1) == Unrolled(z, lo, y) + if Kept(z, y) then [First(z, y), Second(z, y)] else []
  {
    hide Kept, First, Second;
  }

  lemma YearSecondsFit(y: int)
    ensures IsInt(YearLength(y) * SECSPERDAY)
  {
  }

  lemma StopIs(z: Zone, stop: int, full: bool)
    requires ValidZone(z)
    requires if full then |Unrolled(z, FIRST_YEAR, stop)| == TZ_MAX_TIMES && Kept(z, stop)
             else FIRST_YEAR + YEARSPERREPEAT < stop && forall y :: stop - YEARSPERREPEAT <= y < stop ==> !Kept(z, y)
    ensures StoppedAt(z, stop, full)
  {
    hide Kept, Unrolled;
  }

  // A year like a kept one comes within 400 years.
  lemma KeptAgain(z: Zone, year: int)
    requires ValidZone(z) && Kept(z, year - YEARSPERREPEAT - 1)
    ensures Kept(z, year - 1)
  {
    ChangePeriod(z, year - YEARSPERREPEAT - 1);
  }

  lemma EmptyZip(a: seq<int>, b: seq<int>)
    requires |a| == |b| == 0
    ensures Zip(a, b) == []
  {
  }

  /** A state made from yearly rules: its table stands for them. */
  ghost predicate RuleState(sp: State, z: Zone, stop: int)
    requires ValidZone(z)
    reads sp, sp.ats, sp.types, sp.ttis
  {
    && sp.Shaped() && sp.leapcnt == 0 && sp.defaulttype == 0
    && sp.Transitions() == Unrolled(z, FIRST_YEAR, stop) && stop <= 500000
    && if exists y :: Kept(z, y) then
         && Fills(z, FIRST_YEAR, stop) && sp.goback && sp.goahead && sp.typecnt == 2
         && sp.ttis[0].utoff == -z.stdoffset && !sp.ttis[0].isdst && sp.ttis[0].desigidx == 0
         && sp.ttis[1].utoff == -z.dstoffset && sp.ttis[1].isdst
       else
         && sp.timecnt == 0 && !sp.goback && !sp.goahead && sp.typecnt == 1
         && sp.ttis[0].utoff == -z.dstoffset && sp.ttis[0].isdst
  }

  // The local time types of two rules: standard and daylight time, or daylight time only.
  ghost function RuleTypes(z: Zone, stdlen: nat): seq<TtInfo>
    requires ValidZone(z)
  {
    var dst := TtInfo(-z.dstoffset, true, stdlen + 1, false, false);
    if exists y :: Kept(z, y) then [TtInfo(-z.stdoffset, false, 0, false, false), dst] else [dst]
  }

  /** Source/tzdb.h:1626-1699. The table is the changes of consecutive years from
      1770 on. If any year has changes, it is filled and folded on both sides; if
      none has, a single type, perpetual daylight time, is left. */
  method UnrollRules(sp: State, z: Zone, stdlen: nat) returns (ghost stop: int)
    requires sp.Shaped() && ValidZone(z)
    requires sp.leapcnt == 0 && !sp.goback && !sp.goahead
    modifies sp, sp.ats, sp.types, sp.ttis
    ensures RuleState(sp, z, stop) && sp.charcnt == old(sp.charcnt)
    ensures sp.Infos() == RuleTypes(z, stdlen)
  {
    hide Kept, Zip;
    sp.typecnt := 2;
    sp.ttis[0] := TtInfo(-z.stdoffset, false, 0, false, false);
    sp.ttis[1] := TtInfo(-z.dstoffset, true, stdlen + 1, false, false);
    sp.defaulttype := 0;
    var timecnt, year, yearbeg := UnrollYears(sp, z);
    stop := year;
    sp.timecnt := timecnt;
    if timecnt == 0 {
      sp.ttis[0] := sp.ttis[1];
      sp.typecnt := 1;
    } else if YEARSPERREPEAT < year - yearbeg {
      sp.goback, sp.goahead := true, true;
    }
    assert |sp.Transitions()| == timecnt;
    if timecnt != TZ_MAX_TIMES {
      StopMeansFullOrNone(z, stop);
      NothingUnrolled(z, FIRST_YEAR, stop);
    } else {
      var y := UnrolledYear(z, FIRST_YEAR, stop, 0);
    }
  }

  /** A state of one type for all time. */
  ghost predicate FixedState(sp: State, utoff: int, isdst: bool)
    reads sp, sp.ttis
  {
    && sp.Shaped() && sp.leapcnt == 0 && sp.timecnt == 0 && sp.typecnt == 1 && sp.defaulttype == 0
    && !sp.goback && !sp.goahead
    && sp.ttis[0].utoff == utoff && sp.ttis[0].isdst == isdst && sp.ttis[0].desigidx == 0
  }

  // The abbreviations, each ended by a nul.
  function Abbreviations(s: string, text: TzText): string
    requires text.std.begin <= text.std.end <= |s|
    requires text.Alternating? ==> text.dst.begin <= text.dst.end <= |s|
  {
    var std := s[text.std.begin..text.std.end] + ['\0'];
    match text
    case Standard(_, _) => std
    case Alternating(_, _, _) => std + s[text.dst.begin..text.dst.end] + ['\0']
  }

  /** Source/tzdb.h:1514-1634: the text of a TZ string taken apart, the file
      posixrules not being loaded. */
  method ScanTz(s: string) returns (r: Option<TzText>)
    ensures r == ParseTz(s)
    ensures r.Some? ==> NamesInside(s, r.value)
  {
    hide ParseName, Offset, ParseRules, At;
    var std := ScanName(s, 0);
    if std.None? {
      return None;
    }
    var off := Offset(s, std.value.next);
    if off.None? {
      return None;
    }
    var (stdoffset, name) := off.value;
    var charcnt := std.value.end - std.value.begin + 1;
    if TZ_MAX_CHARS_OR_NAMES < charcnt {
      return None;
    }
    if At(s, name) == '\0' {
      return Some(Standard(std.value, stdoffset));
    }
    var dst := ScanName(s, name);
    if dst.None? {
      return None;
    }
    charcnt := charcnt + (dst.value.end - dst.value.begin + 1);
    if TZ_MAX_CHARS_OR_NAMES < charcnt {
      return None;
    }
    name := dst.value.next;
    var dstoffset := stdoffset - 3600;
    if At(s, name) != '\0' && At(s, name) != ',' && At(s, name) != ';' {
      off := Offset(s, name);
      if off.None? {
        return None;
      }
      dstoffset, name := off.value.0, off.value.1;
    }
    var rules := DstRules(s, name);
    if rules.None? {
      return None;
    }
    r := Some(Alternating(std.value, dst.value, Zone(stdoffset, dstoffset, rules.value.0, rules.value.1)));
  }

  // The state holds the abbreviations of the text, and their count.
  ghost predicate Named(sp: State, s: string, text: TzText)
    requires NamesInside(s, text)
    reads sp, sp.chars
  {
    && sp.Shaped()
    && sp.charcnt == |Abbreviations(s, text)|
    && sp.chars[..sp.charcnt] == Abbreviations(s, text)
  }

  /** Source/tzdb.h:1503-1806, with the file posixrules not loaded. A string is
      accepted exactly when it is a POSIX TZ string; the state then has its offsets,
      its abbreviations, and the table of its rules. */
  method Tzparse(s: string, sp: State) returns (ok: bool, ghost stop: int)
    requires sp.Shaped()
    modifies sp, sp.ats, sp.types, sp.ttis, sp.chars
    ensures sp.Shaped()
    ensures ok <==> ParseTz(s).Some?
    ensures ok ==> NamesInside(s, ParseTz(s).value) && Named(sp, s, ParseTz(s).value)
    ensures ok ==> Filled(sp, ParseTz(s).value, stop)
  {
    ghost var parsed := ParseTz(s);
    ParseTzValid(s);
    ParseTzSizes(s);
    stop := 0;
    sp.goback, sp.goahead := false, false;
    var r := ScanTz(s);
    assert r == parsed;
    hide ParseTz, Unrolled, Zip, Abbreviations, InRange, Kept, NamesInside, Filled, Named;
    if r.None? {
      return false, stop;
    }
    stop := FillTypes(sp, r.value);
    CopyNames(sp, s, r.value);
    ok := true;
  }

  // The state for the offsets and rules of a text.
  ghost predicate Filled(sp: State, text: TzText, stop: int)
    reads sp, sp.ats, sp.types, sp.ttis
  {
    match text
    case Standard(_, stdoffset) =>
      FixedState(sp, -stdoffset, false) && sp.Infos() == [TtInfo(-stdoffset, false, 0, false, false)]
    case Alternating(std, _, z) =>
      && ValidZone(z) && RuleState(sp, z, stop)
      && std.begin <= std.end && sp.Infos() == RuleTypes(z, std.end - std.begin)
  }

  function CharCount(text: TzText): int {
    text.std.end - text.std.begin + 1 + if text.Alternating? then text.dst.end - text.dst.begin + 1 else 0
  }

  // Source/tzdb.h:1590-1795: the offsets and rules of a text put into the state.
  method FillTypes(sp: State, text: TzText) returns (ghost stop: int)
    requires sp.Shaped() && !sp.goback && !sp.goahead
    requires text.std.begin <= text.std.end
    requires text.Alternating? ==> text.dst.begin <= text.dst.end && ValidZone(text.zone)
    requires CharCount(text) <= TZ_MAX_CHARS_OR_NAMES
    modifies sp, sp.ats, sp.types, sp.ttis
    ensures Filled(sp, text, stop)
    ensures sp.Shaped() && sp.charcnt == CharCount(text)
  {
    hide Unrolled, Zip, InRange, Kept;
    stop := 0;
    sp.leapcnt := 0;
    sp.charcnt := CharCount(text);
    match text {
      case Standard(_, stdoffset) =>
        sp.typecnt, sp.timecnt, sp.defaulttype := 1, 0, 0;
        sp.ttis[0] := TtInfo(-stdoffset, false, 0, false, false);
        sp.ttis[1] := TtInfo(0, false, 0, false, false);
      case Alternating(std, _, z) =>
        stop := UnrollRules(sp, z, std.end - std.begin);
    }
  }

  /** Source/tzdb.h:1796-1804. */
  method CopyNames(sp: State, s: string, text: TzText)
    requires sp.Shaped() && NamesInside(s, text)
    requires sp.charcnt == CharCount(text) <= TZ_MAX_CHARS_OR_NAMES
    modifies sp.chars
    ensures Named(sp, s, text)
  {
    hide *;
    NameSizes(sp, s, text);
    var stdlen := text.std.end - text.std.begin;
    CopyName(sp, s, text.std, 0);
    if text.Alternating? {
      ghost var first := sp.chars[..stdlen + 1];
      CopyName(sp, s, text.dst, stdlen + 1);
      CopiedBoth(sp, stdlen + 1, sp.charcnt, first, s[text.dst.begin..text.dst.end] + ['\0']);
    }
    NameSizes(sp, s, text);
  }

  lemma CopiedBoth(sp: State, i: int, j: int, first: string, second: string)
    requires 0 <= i <= j <= sp.chars.Length && sp.chars[..i] == first && sp.chars[i..j] == second
    ensures sp.chars[..j] == first + second
  {
    var c := sp.chars[..];
    assert c[..i] == sp.chars[..i] && c[i..j] == sp.chars[i..j] && c[..j] == sp.chars[..j];
    JoinNames(c, i, j, first, second);
  }

  lemma NameSizes(sp: State, s: string, text: TzText)
    requires sp.Shaped() && NamesInside(s, text)
    requires sp.charcnt == CharCount(text) <= TZ_MAX_CHARS_OR_NAMES
    ensures sp.charcnt <= sp.chars.Length == TZ_MAX_CHARS_OR_NAMES
    ensures text.std.begin <= text.std.end <= |s| && (text.Alternating? ==> text.dst.begin <= text.dst.end <= |s|)
    ensures var n := text.std.end - text.std.begin + 1;
            sp.charcnt == n + if text.Alternating? then text.dst.end - text.dst.begin + 1 else 0
    ensures Named(sp, s, text) <==>
              sp.chars[..sp.charcnt] == s[text.std.begin..text.std.end] + ['\0']
                                        + if text.Alternating? then s[text.dst.begin..text.dst.end] + ['\0'] else []
  {
  }

  lemma JoinNames(c: seq<char>, i: int, j: int, first: string, second: string)
    requires 0 <= i <= j <= |c| && c[..i] == first && c[i..j] == second
    ensures c[..j] == first + second
  {
  }

  lemma ParseTzSizes(s: string)
    ensures ParseTz(s).Some? ==> CharCount(ParseTz(s).value) <= TZ_MAX_CHARS_OR_NAMES
  {
    hide ParseName, Offset, DstOffset, DstRules, At;
  }

  ghost predicate NamesInside(s: string, text: TzText) {
    && text.std.begin <= text.std.end <= |s|
    && (text.Alternating? ==> text.dst.begin <= text.dst.end <= |s|)
  }

  /** Source/tzdb.h:1517-1533 and 1559-1575. */
  method ScanName(s: string, i: nat) returns (r: Option<Name>)
    ensures r == ParseName(s, i)
    ensures r.Some? ==> r.value.begin <= r.value.end <= |s|
  {
    if At(s, i) == '<' {
      var e := Getqzname(s, i + 1);
      if At(s, e) != '>' {
        return None;
      }
      if e == i + 1 {
        return None;
      }
      return Some(Name(i + 1, e, e + 1));
    }
    var e := Getzname(s, i);
    if e == i {
      return None;
    }
    assert !EndsName(At(s, e - 1));
    r := Some(Name(i, e, e));
  }

  /** Source/tzdb.h:1796-1803: a name and its nul put into chars at cp. */
  method CopyName(sp: State, s: string, name: Name, cp: nat)
    requires sp.Shaped()
    requires name.begin <= name.end <= |s| && cp + (name.end - name.begin) < TZ_MAX_CHARS_OR_NAMES
    modifies sp.chars
    ensures sp.chars[..cp] == old(sp.chars[..cp])
    ensures sp.chars[cp..cp + (name.end - name.begin) + 1] == s[name.begin..name.end] + ['\0']
  {
    var len := name.end - name.begin;
    forall k | 0 <= k < len {
      sp.chars[cp + k] := s[name.begin + k];
    }
    sp.chars[cp + len] := '\0';
    ghost var placed, written := sp.chars[cp..cp + len + 1], s[name.begin..name.end] + ['\0'];
    assert |placed| == |written|;
    forall k | 0 <= k <= len
      ensures placed[k] == written[k]
    {
      assert placed[k] == sp.chars[cp + k];
    }
  }

  // The table of a zone holds times that fit, and the two types.
  lemma UnrolledInBounds(z: Zone, stop: int)
    requires ValidZone(z) && stop <= 500000
    ensures InBounds(Unrolled(z, FIRST_YEAR, stop), 2)
  {
    var s := Unrolled(z, FIRST_YEAR, stop);
    hide Kept, First, Second;
    forall i | 0 <= i < |s|
      ensures IsTime(s[i].at) && 0 <= s[i].ty < 2
    {
      var y := UnrolledYear(z, FIRST_YEAR, stop, i);
      UnrolledHas(z, FIRST_YEAR, stop, y);
      TableYearFits(z, y);
      ChangeTypes(z, y);
    }
  }

  /** Whatever the rules, all times can be folded into the table. */
  lemma RuleStateFoldable(sp: State, z: Zone, stop: int)
    requires ValidZone(z) && RuleState(sp, z, stop)
    ensures Foldable(sp)
  {
    UnrolledInBounds(z, stop);
    hide Kept, First, Second, Unrolled;
    if exists y :: Kept(z, y) {
      FullTableSpan(z, FIRST_YEAR, stop);
    }
    InBoundsFoldable(sp);
  }

  lemma InBoundsFoldable(sp: State)
    requires sp.Shaped() && 0 <= sp.defaulttype < sp.typecnt
    requires sp.timecnt > 0 ==> InBounds(sp.Transitions(), sp.typecnt)
    requires sp.goback || sp.goahead ==> Spans(sp.Transitions())
    ensures Foldable(sp)
  {
    var s := sp.Transitions();
    forall i | 0 <= i < sp.timecnt
      ensures 0 <= sp.types[i] < sp.typecnt && IsTime(sp.ats[i])
    {
      assert s[i] == Transition(sp.ats[i], sp.types[i]);
    }
  }

  // What localsub shows at t under a local time type of the rules.
  ghost predicate ShowsType(tm: Tm, z: Zone, t: int, ty: int) {
    && 0 <= ty <= 1 && tm.isdst == (ty == 1)
    && Shows(tm, t - (if ty == 1 then z.dstoffset else z.stdoffset), false)
  }

  /** Local time follows the rule. What localsub answers at any time t, however far off,
      from the state of a TZ string with rules is the clock of t under one of the two
      types. If kept years do not run into each other and no year is lost, it is the one
      that the yearly rules put in force at t, the seam of the table excepted; and not for
      all t otherwise, as YearRules.TableFollowsIff says. */
  lemma LocalTimeFollowsRule(sp: State, z: Zone, stop: int, t: int, r: Option<Local>)
    requires ValidZone(z) && RuleState(sp, z, stop) && exists y :: Kept(z, y)
    requires Usable(sp)
    requires Answers(sp, t, r) && r.Some?
    ensures var ty := Looked(z, FIRST_YEAR, stop, 0, t);
            && ShowsType(r.value.tm, z, t, ty)
            && (Parted(z) && NothingLost(z) ==> (RuleInForce(z, t, ty) <==> !AtSeam(z, FIRST_YEAR, stop, t)))
  {
    hide Shows, RuleInForce, Unrolled, OutOfRange, Cycles, Inserted, LocalSeconds, Lost, AtSeam, Kept, Parted, Searched;
    TypeExists(sp, t + Folds(sp, t) * SECSPERREPEAT);
    FoldsIsCycles(sp, t);
    AnswerOf(sp, t, r);
    FoldIsExact(sp, t, r);
    if Parted(z) && NothingLost(z) {
      TableStandsForRule(z, FIRST_YEAR, stop, 0, t);
    }
  }

  lemma FoldsIsCycles(sp: State, t: int)
    requires sp.Shaped() && sp.goback && sp.goahead
    ensures Folds(sp, t) == Cycles(sp.Transitions(), t)
  {
  }

  /** If no year is kept, localsub shows daylight time at all times. */
  lemma LocalTimePerpetual(sp: State, z: Zone, stop: int, t: int, r: Option<Local>)
    requires ValidZone(z) && RuleState(sp, z, stop) && forall y :: !Kept(z, y)
    requires Usable(sp)
    requires Answers(sp, t, r) && r.Some?
    ensures ShowsType(r.value.tm, z, t, 1)
  {
    hide Shows, Unrolled, OutOfRange, Cycles, Inserted, LocalSeconds, Kept;
    AnswerOf(sp, t, r);
    FoldIsExact(sp, t, r);
  }
}
