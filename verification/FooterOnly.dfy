/** A file that leaves everything to its footer: it has types of its own, and no transitions
    or leap seconds. Local time is that of the footer's rules, for ever in both directions. */
module FooterOnly {
  import opened Bytes
  import opened Calendar
  import opened CivilTime
  import opened Wrappers
  import opened ZoneState
  import opened RuleTable
  import opened YearRules
  import opened LocalTime
  import opened PosixTime
  import opened TzParse
  import opened UsualRules
  import opened TzSplice
  import opened TzAbbrs
  import opened TzFooter
  import opened TzRepeat
  import opened TzLoaded
  import opened TzLookup
  import opened TzEver

  // A file of which all transitions are its footer's.
  ghost predicate OnlyFooter(file: seq<Byte>, foot: seq<Transition>, stop: int)
    requires Acceptable(file)
  {
    && OwnOf(file).table == [] && OwnOf(file).leaps == []
    && Uses(file, true) && FootOf(file, true, foot, stop)
    && FooterOf(file).value.text.Alternating? && Usual(FooterOf(file).value.text.zone)
  }

  // The transitions of the rules, with the file's numbers of types.
  lemma TableIsFoot(ts: seq<Transition>)
    requires |ts| == 2000
    ensures Spliced([], ts) == ts
  {
    assert Trimmed([]) == [] && FirstPast([], ts, 0) == 0;
    assert ts[0..] == ts && [] + ts == ts;
  }

  lemma {:induction false} AllKeptAt(z: Zone, foot: seq<Transition>, y: int)
    requires Usual(z) && ValidZone(z) && foot == Unrolled(z, FIRST_YEAR, 2770) && 1770 <= y < 2770
    ensures |foot| == 2000 && foot[2 * (y - 1770)] == First(z, y) && foot[2 * (y - 1770) + 1] == Second(z, y)
  {
    hide First, Second, Kept, Unrolled, Usual;
    TableNumbers();
    UsualKept(z);
    AllUnrolled(z, FIRST_YEAR, 2770);
    AllUnrolled(z, FIRST_YEAR, y);
    UnrolledHas(z, FIRST_YEAR, 2770, y);
  }

  // It repeats at both ends, 400 years on and 400 years back.
  lemma RepeatsBothWays(z: Zone, foot: seq<Transition>, n: int, infos: seq<TtInfo>, chars: seq<char>)
    requires Usual(z) && ValidZone(z) && foot == Unrolled(z, FIRST_YEAR, 2770) && 0 <= n && n + 2 <= |infos|
    ensures var ts := ShiftAll(foot, [], n);
            |ts| == 2000 && FirstRepeats(ts, infos, chars) && LastRepeats(ts, infos, chars)
  {
    hide First, Second, Kept, Unrolled, Usual, CString;
    AllKeptAt(z, foot, 1770);
    AllKeptAt(z, foot, 2170);
    AllKeptAt(z, foot, 2369);
    AllKeptAt(z, foot, 2769);
    ChangePeriod(z, 1770);
    ChangePeriod(z, 2369);
    ChangeTypes(z, 1770);
    ChangeTypes(z, 2769);
    assert YEARSPERREPEAT == 400;
    ShiftNone(foot, n);
    var ts := ShiftAll(foot, [], n);
    assert Repeats(ts[0], ts[800], infos, chars);
    assert Repeats(ts[1199], ts[1999], infos, chars);
  }

  // A lookup on the file's numbers of types.
  lemma SearchedShifted(foot: seq<Transition>, n: int, default: int, u: int)
    requires foot != [] && foot[0].at <= u
    ensures |ShiftAll(foot, [], n)| == |foot| && Searched(ShiftAll(foot, [], n), default, u) == n + Searched(foot, 0, u)
  {
    ShiftNone(foot, n);
    hide ShiftAll;
    SameBisect(foot, ShiftAll(foot, [], n), u, 1, |foot|);
  }

  lemma {:induction false} SameBisect(s: seq<Transition>, ts: seq<Transition>, t: int, lo: int, hi: int)
    requires 1 <= lo <= hi <= |s| == |ts| && forall i :: 0 <= i < |s| ==> ts[i].at == s[i].at
    ensures Bisect(s, t, lo, hi) == Bisect(ts, t, lo, hi)
    decreases hi - lo
  {
    if lo < hi {
      var mid := (lo + hi) / 2;
      SameBisect(s, ts, t, lo, mid);
      SameBisect(s, ts, t, mid + 1, hi);
    }
  }

  // The clock of t so many seconds west of UT, and its kind.
  ghost predicate Clock(tm: Tm, t: int, west: int, isdst: bool) {
    PosixSeconds(tm) == t - west && tm.gmtoff == -west && tm.isdst == isdst
  }

  lemma OnlyParts(file: seq<Byte>, foot: seq<Transition>, stop: int)
    requires Acceptable(file) && OnlyFooter(file, foot, stop)
    ensures FooterOf(file).Some? && FooterOf(file).value.text.Alternating?
    ensures var (z, own, l) := (FooterOf(file).value.text.zone, OwnOf(file), LoadedOf(file, true, foot));
            && ValidZone(z) && Usual(z) && Alternates(file, true, foot, stop)
            && foot == Unrolled(z, FIRST_YEAR, stop) && Fills(z, FIRST_YEAR, stop)
            && l.table == Spliced([], ShiftAll(foot, [], |own.infos|)) && l.leaps == [] && |l.infos| == |own.infos| + 2
            && l.infos[|own.infos|].utoff == -z.stdoffset && !l.infos[|own.infos|].isdst
            && l.infos[|own.infos| + 1].utoff == -z.dstoffset && l.infos[|own.infos| + 1].isdst
  {
    hide *;
    OnlyIs(file, foot, stop);
    var z := FooterOf(file).value.text.zone;
    ValidUsual(z);
    UsualKept(z);
    assert Kept(z, 0);
    MakesAlternating(file, foot, stop);
    FootFacts(file, true, foot, stop);
    UsedTable(file, true, foot);
    OnFileIs(file, foot);
    FooterTypes(file, true, foot, 0);
    FooterTypes(file, true, foot, 1);
    SameLeaps(file, foot);
  }

  lemma OnlyIs(file: seq<Byte>, foot: seq<Transition>, stop: int)
    requires Acceptable(file) && OnlyFooter(file, foot, stop)
    ensures OwnOf(file).table == [] && OwnOf(file).leaps == [] && Uses(file, true) && FootOf(file, true, foot, stop)
    ensures FooterOf(file).Some? && FooterOf(file).value.text.Alternating? && Usual(FooterOf(file).value.text.zone)
  {
    hide OwnOf, FooterOf, FootOf, PlacingOf, Usual;
  }

  lemma MakesAlternating(file: seq<Byte>, foot: seq<Transition>, stop: int)
    requires Acceptable(file) && Uses(file, true) && FootOf(file, true, foot, stop) && FooterOf(file).Some?
    requires FooterOf(file).value.text.Alternating? && ValidZone(FooterOf(file).value.text.zone)
    requires Parted(FooterOf(file).value.text.zone) && exists y :: Kept(FooterOf(file).value.text.zone, y)
    ensures Alternates(file, true, foot, stop)
  {
    hide OwnOf, FooterOf, FootOf, PlacingOf, Parted, Kept, Uses;
  }

  lemma SameLeaps(file: seq<Byte>, foot: seq<Transition>)
    requires Acceptable(file) && Uses(file, true)
    ensures LoadedOf(file, true, foot).leaps == OwnOf(file).leaps
  {
    UsedIs(file, true, foot);
    hide OwnOf, FooterOf, LoadedOf, PlacingOf, TypesOf, NamesOf, Spliced, ShiftAll;
  }

  /** Whatever the time, localsub shows what the footer's rules say, but for the one class of
      instants at the table's end: as from the footer's text in TZ itself. */
  lemma FooterIsAll(file: seq<Byte>, foot: seq<Transition>, stop: int, sp: State, t: int, r: Option<Local>)
    requires Acceptable(file) && OnlyFooter(file, foot, stop)
    requires IsLoaded(sp, LoadedOf(file, true, foot)) && FoldMarked(sp, LoadedOf(file, true, foot)) && Usable(sp)
    requires Answers(sp, t, r) && r.Some?
    ensures FooterOf(file).Some? && ValidZone(FooterOf(file).value.text.zone)
    ensures var z := FooterOf(file).value.text.zone;
            !AtTableEnd(z, t) ==>
              && (RuleInForce(z, t, 0) ==> Clock(r.value.tm, t, z.stdoffset, false))
              && (RuleInForce(z, t, 1) ==> Clock(r.value.tm, t, z.dstoffset, true))
  {
    hide *;
    OnlyParts(file, foot, stop);
    var z, n, l := FooterOf(file).value.text.zone, |OwnOf(file).infos|, LoadedOf(file, true, foot);
    UsualStop(z, stop);
    RepeatsBothWays(z, foot, n, l.infos, l.area);
    TableIsFoot(ShiftAll(foot, [], n));
    BothMarked(sp, l);
    var k := FoldsInto(sp, l, z, foot, n, t);
    NoLeaps(sp, l);
    LocalIsPosix(sp, t, r);
    ShownType(sp, l, t, r);
    UsualKept(z);
    TableStandsForRule(z, FIRST_YEAR, stop, 0, t);
    if !AtTableEnd(z, t) {
      NotBoth(z, t, k, 1 - k);
      ClockIs(r.value.tm, t, z, k, l.infos[n + k]);
    }
  }

  lemma BothMarked(sp: State, l: Loaded)
    requires IsLoaded(sp, l) && FoldMarked(sp, l) && FirstRepeats(l.table, l.infos, l.area) && LastRepeats(l.table, l.infos, l.area)
    ensures sp.goback && sp.goahead && sp.Shaped() && sp.Transitions() == l.table
  {
    hide FirstRepeats, LastRepeats, IsDefault;
  }

  lemma NoLeaps(sp: State, l: Loaded)
    requires IsLoaded(sp, l) && l.leaps == []
    ensures sp.Shaped() && sp.leapcnt == 0
  {
    assert |sp.Leaps()| == 0;
  }

  // The fold into the table, and what is found there.
  lemma FoldsInto(sp: State, l: Loaded, z: Zone, foot: seq<Transition>, n: int, t: int) returns (k: int)
    requires sp.Shaped() && sp.goback && sp.goahead && sp.Transitions() == l.table == ShiftAll(foot, [], n)
    requires Usual(z) && ValidZone(z) && foot == Unrolled(z, FIRST_YEAR, 2770) && |ShiftAll(foot, [], n)| == 2000
    ensures TypeAt(sp, t + Folds(sp, t) * SECSPERREPEAT) == n + k && k == Looked(z, FIRST_YEAR, 2770, 0, t) && 0 <= k <= 1
  {
    hide First, Second, Kept, Unrolled, Usual, ShiftAll, Searched;
    ShiftNone(foot, n);
    FullTableSpan(z, FIRST_YEAR, 2770);
    CyclesReach(foot, t);
    var u := t + Cycles(foot, t) * SECSPERREPEAT;
    SearchedShifted(foot, n, sp.defaulttype, u);
    k := Searched(foot, 0, u);
    UnrolledInBounds(z, 2770);
    FoundType(foot, u);
  }

  lemma FoundType(foot: seq<Transition>, u: int)
    requires InBounds(foot, 2) && foot != [] && foot[0].at <= u
    ensures 0 <= Searched(foot, 0, u) <= 1
  {
    hide Bisect;
  }

  lemma ShownType(sp: State, l: Loaded, t: int, r: Option<Local>)
    requires IsLoaded(sp, l) && Usable(sp) && Answers(sp, t, r) && r.Some?
    ensures sp.Shaped()
    ensures var k := TypeAt(sp, t + Folds(sp, t) * SECSPERREPEAT);
            0 <= k < |l.infos| && r.value.tm.gmtoff == l.infos[k].utoff && r.value.tm.isdst == l.infos[k].isdst
  {
    hide Folds, Lands, Searched, Shows, OutOfRange;
    var k := TypeAt(sp, t + Folds(sp, t) * SECSPERREPEAT);
    TypeExists(sp, t + Folds(sp, t) * SECSPERREPEAT);
    AnswerOf(sp, t, r);
    assert sp.ttis[k] == sp.Infos()[k];
  }

  lemma ClockIs(tm: Tm, t: int, z: Zone, k: int, info: TtInfo)
    requires 0 <= k <= 1 && PosixSeconds(tm) == t + tm.gmtoff && tm.gmtoff == info.utoff && tm.isdst == info.isdst
    requires info.utoff == -(if k == 0 then z.stdoffset else z.dstoffset) && info.isdst == (k == 1)
    ensures k == 0 ==> Clock(tm, t, z.stdoffset, false)
    ensures k == 1 ==> Clock(tm, t, z.dstoffset, true)
  {
    hide PosixSeconds;
  }
}
