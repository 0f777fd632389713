/** Where folding by 400-year cycles lands: exactly when it does in loaded states, and a
    file of which the table is marked for folding and too short for it. */
module FoldCases {
  import opened Bytes
  import opened CArith
  import opened Calendar
  import opened Wrappers
  import opened ZoneState
  import opened RuleTable
  import opened YearRules
  import opened YearCases
  import opened LocalTime
  import opened TzParse
  import opened TzSplice
  import opened TzRepeat
  import opened TzAbbrs
  import opened TzFooter
  import opened TzLoaded

  /** In a loaded state every time can be folded, of those that the code can be asked for,
      exactly if its table has every second of 400 years, or does not repeat on a side that
      has times beyond it. */
  lemma LoadedLandsIff(sp: State, l: Loaded)
    requires IsLoaded(sp, l) && FoldMarked(sp, l) && Usable(sp)
    ensures (forall t :: IsTime(t) ==> Lands(sp, t)) <==>
              var s := l.table;
              ((FirstRepeats(s, l.infos, l.area) && s != [] && TIME_T_MIN < s[0].at)
               || (LastRepeats(s, l.infos, l.area) && s != [] && s[|s| - 1].at < TIME_T_MAX)
               ==> Spans(s))
  {
    hide Lands, FirstRepeats, LastRepeats, IsDefault;
    LandsIff(sp);
  }

  // 1198 transitions, a second apart, from ten seconds after the first change of 2021 by
  // Across.
  function LateTable(): (s: seq<Transition>)
    requires ValidZone(Across)
    ensures |s| == 1198
  {
    seq(1198, k requires 0 <= k < 1198 => Transition(First(Across, 2021).at + 10 + k, k % 2))
  }

  lemma LateEnds()
    requires ValidZone(Across)
    ensures var (s, a) := (LateTable(), First(Across, 2021).at);
            && s[0].at == a + 10 && s[1197].at == a + 1207 && Trimmed(s) == s && TZ_MAX_TIMES == 2000
  {
    hide First;
  }

  // All years are kept, so that the table holds a thousand.
  lemma {:induction false} AcrossCount(lo: int, y: int)
    requires ValidZone(Across) && lo <= y
    ensures |Unrolled(Across, lo, y)| == 2 * (y - lo)
    decreases y - lo
  {
    hide First, Second, Kept;
    if lo < y {
      AcrossCount(lo, y - 1);
      AcrossChanges(y - 1);
    }
  }

  lemma AcrossEntry(foot: seq<Transition>, stop: int, y: int)
    requires ValidZone(Across) && foot == Unrolled(Across, FIRST_YEAR, stop) && FIRST_YEAR <= y < stop
    ensures var i := 2 * (y - FIRST_YEAR); i + 1 < |foot| && foot[i] == First(Across, y) && foot[i + 1] == Second(Across, y)
  {
    hide First, Second, Kept, Unrolled;
    AcrossCount(FIRST_YEAR, y);
    AcrossChanges(y);
    UnrolledHas(Across, FIRST_YEAR, stop, y);
  }

  // Of the footer's transitions number 501 is the first past that table.
  lemma FirstPastLate(foot: seq<Transition>, stop: int)
    requires ValidZone(Across) && foot == Unrolled(Across, FIRST_YEAR, stop) && Fills(Across, FIRST_YEAR, stop)
    ensures |foot| == 2000 && stop == 2770
    ensures FirstPast(LateTable(), ShiftAll(foot, [], 2), 0) == 501
  {
    hide First, Second, Kept, Unrolled, FirstPast;
    TableNumbers();
    AcrossFull(stop);
    var s, ts := LateTable(), ShiftAll(foot, [], 2);
    LateEnds();
    AcrossGap(2020);
    AcrossEntry(foot, stop, 2020);
    forall j | 0 <= j < 501
      ensures ts[j].at <= s[1197].at
    {
      BeforeLate(foot, stop, j);
    }
    assert ts[501].at == Second(Across, 2020).at > s[1197].at;
    var k := FirstPast(s, ts, 0);
    assert k <= 501;
    assert !(k < 501);
  }

  lemma AcrossFull(stop: int)
    requires ValidZone(Across) && Fills(Across, FIRST_YEAR, stop)
    ensures |Unrolled(Across, FIRST_YEAR, stop)| == 2000 && stop == 2770
  {
    hide First, Second, Kept;
    if FIRST_YEAR <= stop {
      AcrossCount(FIRST_YEAR, stop);
    }
  }

  lemma AcrossGap(y: int)
    ensures ValidZone(Across) && Second(Across, y).at == First(Across, y + 1).at + 1119600
  {
    YearStartStep(y);
  }

  lemma BeforeLate(foot: seq<Transition>, stop: int, j: nat)
    requires ValidZone(Across) && foot == Unrolled(Across, FIRST_YEAR, stop) && stop == 2770 && |foot| == 2000 && j < 501
    ensures foot[j].at <= First(Across, 2021).at
  {
    hide First, Second, Kept, Unrolled;
    TableNumbers();
    var y := FIRST_YEAR + j / 2;
    AcrossEntry(foot, stop, y);
    FirstBeforeSecond(Across, y);
    if y < 2020 {
      FarApart(Across, y, 2021);
    } else {
      ChangesGrow(Across, 2020, 2021);
    }
  }

  /** The table that such transitions and the footer XXX0YYY,J365/167,J1/-167 make: its last
      entry repeats one 400 years earlier, which is before the table's first in time. */
  lemma LateSpliced(foot: seq<Transition>, stop: int)
    requires ValidZone(Across) && foot == Unrolled(Across, FIRST_YEAR, stop) && Fills(Across, FIRST_YEAR, stop)
    ensures var (s, a) := (Spliced(LateTable(), ShiftAll(foot, [], 2)), First(Across, 2021).at);
            && |s| == 2000 && s[0].at == a + 10
            && s[1199] == Transition(a, 2) && s[1999] == Transition(a + SECSPERREPEAT, 2) && !Spans(s)
  {
    hide First, Second, Kept, Unrolled, FirstPast;
    TableNumbers();
    FirstPastLate(foot, stop);
    LateEnds();
    AcrossEntry(foot, stop, 2021);
    AcrossEntry(foot, stop, 2421);
    AcrossChanges(2021);
    ChangePeriod(Across, 2021);
    var ts := ShiftAll(foot, [], 2);
    assert ts[502] == Transition(foot[502].at, 2 + foot[502].ty) && ts[1302] == Transition(foot[1302].at, 2 + foot[1302].ty);
    var b := Appended(LateTable(), ts);
    assert b == ts[501..1303];
    assert b[1] == ts[502] && b[801] == ts[1302];
  }

  /** Not every marked state can be folded. A file with those transitions, two types, that
      footer and no leap seconds is marked for folding after its end; a second later the
      fold misses the table, and localsub has no answer. */
  lemma LateFileMisses(file: seq<Byte>, foot: seq<Transition>, stop: int, sp: State)
    requires Acceptable(file) && Uses(file, true) && FootOf(file, true, foot, stop)
    requires ValidZone(Across) && OwnOf(file).table == LateTable() && OwnOf(file).leaps == [] && |OwnOf(file).infos| == 2
    requires FooterOf(file).value.text.Alternating? && FooterOf(file).value.text.zone == Across
    requires IsLoaded(sp, LoadedOf(file, true, foot)) && FoldMarked(sp, LoadedOf(file, true, foot)) && Usable(sp)
    ensures var t := First(Across, 2421).at + 1;
            sp.goahead && IsTime(t) && !Lands(sp, t) && Answers(sp, t, None) && !Foldable(sp)
  {
    hide *;
    TableNumbers();
    LateEnds();
    LateFooter(file);
    FootIsFull(file, foot, stop);
    LateLoaded(file, foot, stop);
    LateSpliced(foot, stop);
    LateMarked(sp, LoadedOf(file, true, foot), First(Across, 2021).at);
    ChangePeriod(Across, 2021);
    TableYearFits(Across, 2421);
    LateTime(First(Across, 2421).at);
    NotLanded(sp, First(Across, 2421).at + 1);
  }

  lemma LateFooter(file: seq<Byte>)
    requires Acceptable(file) && Uses(file, true)
    ensures FooterOf(file).Some?
  {
    hide FooterOf, PlacingOf;
  }

  lemma LateTime(at: int)
    requires -0x1000_0000_0000 < at < 0x1000_0000_0000
    ensures IsTime(at + 1)
  {
  }

  lemma FootIsFull(file: seq<Byte>, foot: seq<Transition>, stop: int)
    requires Acceptable(file) && Uses(file, true) && FootOf(file, true, foot, stop) && ValidZone(Across)
    requires FooterOf(file).Some? && FooterOf(file).value.text.Alternating? && FooterOf(file).value.text.zone == Across
    ensures foot == Unrolled(Across, FIRST_YEAR, stop) && Fills(Across, FIRST_YEAR, stop)
  {
    hide OwnOf, FooterOf, PlacingOf, Unrolled, Fills, Kept;
    AcrossChanges(0);
  }

  lemma LateLoaded(file: seq<Byte>, foot: seq<Transition>, stop: int)
    requires Acceptable(file) && Uses(file, true) && FooterOf(file).Some? && FooterOf(file).value.text.Alternating?
    requires |OwnOf(file).table| <= TZ_MAX_TIMES && |OwnOf(file).infos| == 2 && OwnOf(file).leaps == []
    ensures var l := LoadedOf(file, true, foot);
            l.table == Spliced(OwnOf(file).table, ShiftAll(foot, [], 2)) && |l.infos| > 2
  {
    SameCount(FooterOf(file).value.source, FooterOf(file).value.text);
    hide OwnOf, FooterOf, Spliced, ShiftAll, NamesOf, PlaceAll;
  }

  lemma LateMarked(sp: State, l: Loaded, a: int)
    requires IsLoaded(sp, l) && FoldMarked(sp, l) && Usable(sp) && |l.infos| > 2
    requires var s := l.table;
             && |s| == 2000 && s[0].at == a + 10 && s[1199] == Transition(a, 2) && s[1999] == Transition(a + SECSPERREPEAT, 2)
    ensures sp.goahead && !Lands(sp, a + SECSPERREPEAT + 1) && !Foldable(sp)
  {
    hide CString, Cycles, FirstRepeats, IsDefault;
    var s := l.table;
    assert Repeats(s[1199], s[1999], l.infos, l.area);
    FirstMissed(s);
  }
}
