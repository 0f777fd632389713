/** A loaded file after the end of its table: where the table ends in enough of the
    footer's part it repeats, and the footer's rules hold for ever. */
module TzEver {
  import opened Bytes
  import opened Calendar
  import opened CivilTime
  import opened LeapSeconds
  import opened Wrappers
  import opened ZoneState
  import opened RuleTable
  import opened YearRules
  import opened LocalTime
  import opened TzString
  import opened TzParse
  import opened TzBytes
  import opened TzSplice
  import opened TzAbbrs
  import opened TzNames
  import opened TzFooter
  import opened TzRepeat
  import opened TzLoaded
  import opened TzLookup

  // A file without leap seconds whose footer alternates.
  ghost predicate Unleaped(file: seq<Byte>, doextend: bool, foot: seq<Transition>, stop: int)
    requires Acceptable(file)
  {
    Alternates(file, doextend, foot, stop) && OwnOf(file).leaps == []
  }

  // Without leap seconds shifting only renumbers.
  lemma ShiftNone(foot: seq<Transition>, n: int)
    ensures |ShiftAll(foot, [], n)| == |foot|
    ensures forall i :: 0 <= i < |foot| ==> ShiftAll(foot, [], n)[i] == Transition(foot[i].at, n + foot[i].ty)
  {
  }

  // The footer's part reaches over the last 400 years of the table.
  ghost predicate LongPart(file: seq<Byte>, foot: seq<Transition>)
    requires Acceptable(file)
  {
    var b := FooterPart(file, foot);
    b != [] && b[0].at + SECSPERREPEAT <= b[|b| - 1].at + 1
  }

  // The last of the footer's part is the last of the table.
  lemma PartIsEnd(file: seq<Byte>, doextend: bool, foot: seq<Transition>)
    requires Acceptable(file) && Uses(file, doextend) && FooterPart(file, foot) != []
    ensures var (b, s) := (FooterPart(file, foot), LoadedOf(file, doextend, foot).table); s != [] && s[|s| - 1] == b[|b| - 1]
  {
    hide *;
    UsedTable(file, doextend, foot);
    FooterPartIs(file, foot);
    SplicedIs(OwnOf(file).table, OnFile(file, foot));
    EndOf(Trimmed(OwnOf(file).table), FooterPart(file, foot));
  }

  lemma EndOf(a: seq<Transition>, b: seq<Transition>)
    requires b != []
    ensures a + b != [] && (a + b)[|a + b| - 1] == b[|b| - 1]
  {
  }

  lemma UsedTable(file: seq<Byte>, doextend: bool, foot: seq<Transition>)
    requires Acceptable(file) && Uses(file, doextend)
    ensures |OwnOf(file).table| <= TZ_MAX_TIMES
    ensures LoadedOf(file, doextend, foot).table == Spliced(OwnOf(file).table, OnFile(file, foot))
  {
    OwnFacts(file);
    SameCount(FooterOf(file).value.source, FooterOf(file).value.text);
    hide OwnOf, FooterOf, ShiftAll, Spliced, NamesOf, TypesOf, PlacingOf, WellFormed, InBounds, Accepted, Increasing;
  }

  lemma CyclesBack(s: seq<Transition>, t: int)
    requires s != [] && t > s[|s| - 1].at && s[0].at <= s[|s| - 1].at
    ensures s[|s| - 1].at - SECSPERREPEAT < t + Cycles(s, t) * SECSPERREPEAT <= s[|s| - 1].at
  {
  }

  // Each transition of the footer's part that has one 400 years earlier in it, repeats it.
  lemma PartRepeats(s: seq<Transition>, foot: seq<Transition>, n: int, z: Zone, stop: int) returns (i: nat)
    requires |s| <= TZ_MAX_TIMES && NonDecreasing(ShiftAll(foot, [], n))
    requires ValidZone(z) && Parted(z) && foot == Unrolled(z, FIRST_YEAR, stop)
    requires OverFourHundredYears(Appended(s, ShiftAll(foot, [], n)), z)
    ensures var b := Appended(s, ShiftAll(foot, [], n));
            i < |b| - 1 && b[i].at + SECSPERREPEAT == b[|b| - 1].at && b[i].ty == b[|b| - 1].ty
  {
    hide *;
    var ts := ShiftAll(foot, [], n);
    var b, k := Appended(s, ts), FirstPast(s, ts, 0);
    var last := k + |b| - 1;
    AppendedFrom(s, ts);
    OverMeans(b, z);
    PartInside(s, ts);
    ShiftNone(foot, n);
    assert b[|b| - 1] == ts[last] && b[0] == ts[k];
    var e := EarlierEntry(z, stop, foot, last, b[0].at);
    PastStart(s, ts, e);
    i := e - k;
    assert b[i] == ts[e];
  }

  lemma OverMeans(b: seq<Transition>, z: Zone)
    requires ValidZone(z) && OverFourHundredYears(b, z)
    ensures b != [] && b[0].at + SECSPERREPEAT + (if Spaced(z) then 0 else 1) <= b[|b| - 1].at
  {
    hide Spaced;
  }

  lemma PastStart(s: seq<Transition>, ts: seq<Transition>, e: nat)
    requires var k := FirstPast(s, ts, 0); e < |ts| && k < |ts| && ts[k].at <= ts[e].at
    ensures FirstPast(s, ts, 0) <= e
  {
  }

  // The entry 400 years before entry e, which is in the table if it is not before at.
  lemma EarlierEntry(z: Zone, stop: int, foot: seq<Transition>, e: nat, at: int) returns (d: nat)
    requires ValidZone(z) && Parted(z) && foot == Unrolled(z, FIRST_YEAR, stop) && e < |foot| && foot[0].at <= at
    requires at + SECSPERREPEAT + (if Spaced(z) then 0 else 1) <= foot[e].at
    ensures d < e && foot[d].at + SECSPERREPEAT == foot[e].at && foot[d].ty == foot[e].ty
  {
    hide First, Second, Kept, Parted, Spaced, Unrolled;
    var y := UnrolledYear(z, FIRST_YEAR, stop, e);
    var start := UnrolledYear(z, FIRST_YEAR, stop, 0);
    UnrolledHas(z, FIRST_YEAR, stop, y);
    UnrolledHas(z, FIRST_YEAR, stop, start);
    var back := y - YEARSPERREPEAT;
    ChangePeriod(z, back);
    FirstBeforeSecond(z, back);
    if back < FIRST_YEAR {
      KeptOrder(z, back, start);
      assert false;
    }
    UnrolledHas(z, FIRST_YEAR, stop, back);
    UnrolledGrows(z, FIRST_YEAR, back, y);
    d := |Unrolled(z, FIRST_YEAR, back)| + (e - |Unrolled(z, FIRST_YEAR, y)|);
  }

  // Times 400 years apart, or more than that if years touch.
  ghost predicate OverFourHundredYears(b: seq<Transition>, z: Zone)
    requires ValidZone(z)
  {
    b != [] && b[0].at + SECSPERREPEAT + (if Spaced(z) then 0 else 1) <= b[|b| - 1].at
  }

  /** A footer's part that is long enough makes the table repeat. */
  lemma LongPartRepeats(file: seq<Byte>, doextend: bool, foot: seq<Transition>, stop: int)
    requires Acceptable(file) && Unleaped(file, doextend, foot, stop)
    requires ValidZone(FooterOf(file).value.text.zone)
    requires OverFourHundredYears(FooterPart(file, foot), FooterOf(file).value.text.zone)
    ensures var l := LoadedOf(file, doextend, foot); LastRepeats(l.table, l.infos, l.area)
  {
    hide *;
    UnleapedIs(file, doextend, foot, stop);
    FootFacts(file, doextend, foot, stop);
    AlternatesIs(file, doextend, foot, stop);
    var z, own, l := FooterOf(file).value.text.zone, OwnOf(file), LoadedOf(file, doextend, foot);
    UsedTable(file, doextend, foot);
    FooterPartIs(file, foot);
    TrimmedShorter(own.table);
    var i := PartRepeats(Trimmed(own.table), foot, |own.infos|, z, stop);
    SplicedIs(own.table, OnFile(file, foot));
    FooterTypes(file, doextend, foot, 0);
    PartTypes(Trimmed(own.table), foot, |own.infos|);
    EndRepeats(Trimmed(own.table), FooterPart(file, foot), i, l);
  }

  lemma UnleapedIs(file: seq<Byte>, doextend: bool, foot: seq<Transition>, stop: int)
    requires Acceptable(file) && Unleaped(file, doextend, foot, stop)
    ensures Alternates(file, doextend, foot, stop) && OwnOf(file).leaps == []
  {
    hide OwnOf, Alternates;
  }

  lemma PartTypes(s: seq<Transition>, foot: seq<Transition>, n: int)
    requires |s| <= TZ_MAX_TIMES && InBounds(foot, 2)
    ensures var b := Appended(s, ShiftAll(foot, [], n)); forall i :: 0 <= i < |b| ==> n <= b[i].ty < n + 2
  {
    var ts, b := ShiftAll(foot, [], n), Appended(s, ShiftAll(foot, [], n));
    AppendedFrom(s, ts);
    ShiftNone(foot, n);
    hide ShiftAll, Appended, FirstPast;
    forall i | 0 <= i < |b|
      ensures n <= b[i].ty < n + 2
    {
      assert b[i] == ts[FirstPast(s, ts, 0) + i];
    }
  }

  lemma EndRepeats(a: seq<Transition>, b: seq<Transition>, i: nat, l: Loaded)
    requires l.table == a + b && i < |b| - 1 && b[i].at + SECSPERREPEAT == b[|b| - 1].at && b[i].ty == b[|b| - 1].ty
    requires 0 <= b[i].ty < |l.infos|
    ensures LastRepeats(l.table, l.infos, l.area)
  {
    hide CString;
    var s := l.table;
    assert s[|s| - 1] == b[|b| - 1] && s[|a| + i] == b[i];
    assert Repeats(s[|a| + i], s[|s| - 1], l.infos, l.area);
  }

  /** After a table that ends in 400 years of the footer's part, and so repeats, the
      footer's rules hold for ever: at every later time, however far off, localsub shows
      the clock under the type that they put in force, with its kind, if no year is lost;
      if years touch, times whole 400-year cycles after the end are left out. */
  lemma FooterForEver(file: seq<Byte>, doextend: bool, foot: seq<Transition>, stop: int, sp: State, t: int, r: Option<Local>)
    requires Acceptable(file) && Unleaped(file, doextend, foot, stop) && ValidZone(FooterOf(file).value.text.zone)
    requires OverFourHundredYears(FooterPart(file, foot), FooterOf(file).value.text.zone) || (LongPart(file, foot) && sp.goahead)
    requires IsLoaded(sp, LoadedOf(file, doextend, foot)) && FoldMarked(sp, LoadedOf(file, doextend, foot)) && Usable(sp)
    requires AfterTable(sp, FooterOf(file).value.text.zone, t)
    requires Answers(sp, t, r) && r.Some?
    ensures FollowsRule(r.value.tm, FooterOf(file).value.text.zone, t)
  {
    hide *;
    LoadedNoLeaps(sp, file, doextend, foot, stop);
    var z := FooterOf(file).value.text.zone;
    if OverFourHundredYears(FooterPart(file, foot), z) {
      LongPartRepeats(file, doextend, foot, stop);
      MarkedAhead(sp, LoadedOf(file, doextend, foot));
      OverIsLong(file, foot, z);
    }
    TableOrdered(file, doextend, foot, stop);
    AnswerOf(sp, t, r);
    EverFrom(file, doextend, foot, stop, sp, LoadedOf(file, doextend, foot), z, t, Folds(sp, t), r);
  }

  lemma TableOrdered(file: seq<Byte>, doextend: bool, foot: seq<Transition>, stop: int)
    requires Acceptable(file) && Unleaped(file, doextend, foot, stop)
    ensures NonDecreasing(LoadedOf(file, doextend, foot).table)
  {
    hide OwnOf, LoadedOf, FooterOf, FootOf, Uses, FooterParted, NonDecreasing;
    LoadedOrdered(file, doextend, foot, stop);
  }

  lemma MarkedAhead(sp: State, l: Loaded)
    requires FoldMarked(sp, l) && LastRepeats(l.table, l.infos, l.area)
    ensures sp.goahead
  {
    hide LastRepeats, FirstRepeats, IsDefault;
  }

  lemma OverIsLong(file: seq<Byte>, foot: seq<Transition>, z: Zone)
    requires Acceptable(file) && ValidZone(z) && OverFourHundredYears(FooterPart(file, foot), z)
    ensures LongPart(file, foot)
  {
    hide FooterPart, Spaced;
  }

  /** What is shown at t is one of the two types, the one in force if no year is lost. */
  ghost predicate FollowsRule(tm: Tm, z: Zone, t: int)
    requires ValidZone(z)
  {
    exists ty :: ShowsType(tm, z, t, ty) && (NothingLost(z) ==> RuleInForce(z, t, ty))
  }

  lemma Follows(tm: Tm, z: Zone, t: int, ty: int)
    requires ValidZone(z) && ShowsType(tm, z, t, ty) && (NothingLost(z) ==> RuleInForce(z, t, ty))
    ensures FollowsRule(tm, z, t)
  {
  }

  // t is past the table; if years touch, not by whole cycles.
  ghost predicate AfterTable(sp: State, z: Zone, t: int)
    requires sp.Shaped() && ValidZone(z)
    reads sp, sp.ats, sp.types
  {
    var s := sp.Transitions();
    && s != [] && t > s[|s| - 1].at
    && (Spaced(z) || t + Cycles(s, t) * SECSPERREPEAT < s[|s| - 1].at)
  }

  lemma EverFrom(file: seq<Byte>, doextend: bool, foot: seq<Transition>, stop: int, sp: State, l: Loaded, z: Zone,
                 t: int, k: int, r: Option<Local>)
    requires Acceptable(file) && Unleaped(file, doextend, foot, stop) && LongPart(file, foot) && ValidZone(z)
    requires FooterOf(file).Some? && FooterOf(file).value.text.Alternating?
    requires l == LoadedOf(file, doextend, foot) && FooterOf(file).value.text.zone == z && NonDecreasing(l.table)
    requires IsLoaded(sp, l) && Usable(sp) && sp.goahead && sp.leapcnt == 0 && k == Folds(sp, t)
    requires AfterTable(sp, z, t) && LocalAnswer(sp, t + k * SECSPERREPEAT, k, r) && r.Some?
    ensures FollowsRule(r.value.tm, z, t)
  {
    hide *;
    var u := t + k * SECSPERREPEAT;
    AfterFacts(sp, l, z, t);
    AfterEnd(file, doextend, foot, stop, sp.defaulttype, u);
    var ty := TellsType(file, doextend, foot, TypeAt(sp, u), u);
    ShowsInfo(sp, l, t, r);
    InForceBothWays(z, t, ty, k);
    TypeIsShown(r.value.tm, z, t, ty, l.infos[TypeAt(sp, u)]);
    Follows(r.value.tm, z, t, ty);
  }

  lemma AfterFacts(sp: State, l: Loaded, z: Zone, t: int)
    requires IsLoaded(sp, l) && Usable(sp) && NonDecreasing(l.table) && sp.goahead && ValidZone(z) && AfterTable(sp, z, t)
    ensures var (s, u) := (l.table, t + Folds(sp, t) * SECSPERREPEAT);
            && s != [] && s[|s| - 1].at - SECSPERREPEAT < u <= s[|s| - 1].at && (Spaced(z) || u < s[|s| - 1].at)
            && TypeAt(sp, u) == Pick(s, sp.defaulttype, u)
    ensures sp.Shaped()
  {
    hide Cycles, Pick, Spaced, Searched;
    FoldsAhead(sp, t);
    SearchedIsPick(l.table, sp.defaulttype, t + Folds(sp, t) * SECSPERREPEAT);
  }

  lemma TypeIsShown(tm: Tm, z: Zone, t: int, ty: int, info: TtInfo)
    requires 0 <= ty <= 1 && info.utoff == -(if ty == 1 then z.dstoffset else z.stdoffset) && info.isdst == (ty == 1)
    requires tm.isdst == info.isdst && Shows(tm, t + info.utoff, false)
    ensures ShowsType(tm, z, t, ty)
  {
  }

  lemma FoldsAhead(sp: State, t: int)
    requires Usable(sp) && NonDecreasing(sp.Transitions()) && sp.goahead && sp.Transitions() != []
    requires t > sp.Transitions()[|sp.Transitions()| - 1].at
    ensures var s := sp.Transitions();
            && Folds(sp, t) == Cycles(s, t)
            && s[|s| - 1].at - SECSPERREPEAT < t + Cycles(s, t) * SECSPERREPEAT <= s[|s| - 1].at
  {
    var s := sp.Transitions();
    assert s[0].at <= s[|s| - 1].at;
    CyclesBack(s, t);
  }

  // A lookup in the last 400 years of the table.
  lemma AfterEnd(file: seq<Byte>, doextend: bool, foot: seq<Transition>, stop: int, default: int, u: int)
    requires Acceptable(file) && Unleaped(file, doextend, foot, stop) && LongPart(file, foot)
    requires var s := LoadedOf(file, doextend, foot).table;
             && s != [] && s[|s| - 1].at - SECSPERREPEAT < u <= s[|s| - 1].at
             && (Spaced(FooterOf(file).value.text.zone) || u < s[|s| - 1].at)
    ensures Tells(file, doextend, foot, Pick(LoadedOf(file, doextend, foot).table, default, u), u)
  {
    hide *;
    UnleapedIs(file, doextend, foot, stop);
    AlternatesIs(file, doextend, foot, stop);
    LongStart(file, foot);
    PartIsEnd(file, doextend, foot);
    PartInTime(file, doextend, foot, stop, u);
    FooterInForce(file, doextend, foot, stop, default, u, u);
  }

  lemma LongStart(file: seq<Byte>, foot: seq<Transition>)
    requires Acceptable(file) && LongPart(file, foot)
    ensures var b := FooterPart(file, foot); b != [] && b[0].at + SECSPERREPEAT <= b[|b| - 1].at + 1
  {
    hide FooterPart;
  }

  // Times of the footer's part are before what is left out of the table, the end excepted
  // if years touch.
  lemma PartInTime(file: seq<Byte>, doextend: bool, foot: seq<Transition>, stop: int, u: int)
    requires Acceptable(file) && Unleaped(file, doextend, foot, stop) && ValidZone(FooterOf(file).value.text.zone)
    requires var b := FooterPart(file, foot);
             && b != [] && b[0].at <= u <= b[|b| - 1].at
             && (Spaced(FooterOf(file).value.text.zone) || u < b[|b| - 1].at)
    ensures InTime(file, foot, u) && u < First(FooterOf(file).value.text.zone, stop).at && CountsAs(OwnOf(file).leaps, u, u)
  {
    hide *;
    UnleapedIs(file, doextend, foot, stop);
    FootFacts(file, doextend, foot, stop);
    AlternatesIs(file, doextend, foot, stop);
    FooterPartIs(file, foot);
    InTimeIs(file, foot, u);
    var own, z := OwnOf(file), FooterOf(file).value.text.zone;
    TrimmedShorter(own.table);
    PartIn(Trimmed(own.table), foot, |own.infos|, z, stop, u);
    NoneCounted(u);
  }

  lemma NoneCounted(u: int)
    ensures CountsAs([], u, u)
  {
  }

  lemma PartIn(s: seq<Transition>, foot: seq<Transition>, n: int, z: Zone, stop: int, t: int)
    requires ValidZone(z) && |s| <= TZ_MAX_TIMES && NonDecreasing(ShiftAll(foot, [], n)) && (Spaced(z) ==> Increasing(foot))
    requires Parted(z) && foot == Unrolled(z, FIRST_YEAR, stop) && foot != [] && Fills(z, FIRST_YEAR, stop)
    requires var b := Appended(s, ShiftAll(foot, [], n));
             b != [] && b[0].at <= t <= b[|b| - 1].at && (Spaced(z) || t < b[|b| - 1].at)
    ensures BeforeLeftOut(s, ShiftAll(foot, [], n), t) && t < First(z, stop).at
  {
    hide Kept, Unrolled, First, Second, Parted, Spaced, ShiftAll, Appended, BeforeLeftOut, Pick, NonDecreasing;
    ShiftNone(foot, n);
    assert Spaced(z) ==> Increasing(ShiftAll(foot, [], n));
    AppendedInTime(s, ShiftAll(foot, [], n), t);
    PartInside(s, ShiftAll(foot, [], n));
    var last := LastYear(z, FIRST_YEAR, stop);
    if Spaced(z) {
      SpacedEnd(z, last, stop);
    }
  }

  lemma SpacedEnd(z: Zone, last: int, stop: int)
    requires ValidZone(z) && Spaced(z) && last < stop
    ensures Second(z, last).at < First(z, stop).at
  {
    hide First, Second;
    if last + 1 < stop {
      FarApart(z, last, stop);
    }
  }

  /** What localsub shows from a loaded state without leap seconds: the clock at t under
      the offset of the type looked up, its kind, and where its name is. */
  lemma ShowsInfo(sp: State, l: Loaded, t: int, r: Option<Local>)
    requires IsLoaded(sp, l) && Usable(sp) && sp.leapcnt == 0
    requires LocalAnswer(sp, t + Folds(sp, t) * SECSPERREPEAT, Folds(sp, t), r) && r.Some?
    ensures var k := TypeAt(sp, t + Folds(sp, t) * SECSPERREPEAT);
            && 0 <= k < |l.infos| && Shows(r.value.tm, t + l.infos[k].utoff, false)
            && r.value.tm.isdst == l.infos[k].isdst && r.value.zone == l.infos[k].desigidx
  {
    hide Shows, OutOfRange, Inserted, LocalSeconds, Folds, Searched;
    var k := TypeAt(sp, t + Folds(sp, t) * SECSPERREPEAT);
    FoldIsExact(sp, t, r);
    TypeExists(sp, t + Folds(sp, t) * SECSPERREPEAT);
    assert sp.ttis[k] == sp.Infos()[k];
  }

  lemma LoadedNoLeaps(sp: State, file: seq<Byte>, doextend: bool, foot: seq<Transition>, stop: int)
    requires Acceptable(file) && Unleaped(file, doextend, foot, stop) && IsLoaded(sp, LoadedOf(file, doextend, foot))
    ensures sp.Shaped() && sp.leapcnt == 0 && FooterOf(file).Some? && FooterOf(file).value.text.Alternating?
    ensures ValidZone(FooterOf(file).value.text.zone)
  {
    OwnFacts(file);
    hide OwnOf, FooterOf, PlacingOf, WellFormed, Spliced, ShiftAll, NamesOf, TypesOf;
    SameCount(FooterOf(file).value.source, FooterOf(file).value.text);
    assert |sp.Leaps()| == 0;
  }

  lemma TellsType(file: seq<Byte>, doextend: bool, foot: seq<Transition>, k: int, t: int) returns (ty: int)
    requires Acceptable(file) && FooterOf(file).Some? && Tells(file, doextend, foot, k, t)
    ensures var (l, z) := (LoadedOf(file, doextend, foot), FooterOf(file).value.text.zone);
            && 0 <= ty <= 1 && 0 <= k < |l.infos|
            && l.infos[k].utoff == -(if ty == 1 then z.dstoffset else z.stdoffset) && l.infos[k].isdst == (ty == 1)
            && (NothingLost(z) ==> RuleInForce(z, t, ty))
  {
    hide OwnOf, FooterOf, LoadedOf, NamesOf, NothingLost, RuleInForce, Spoiled, NameOf;
    var f := FooterOf(file).value;
    ty :| StandsFor(LoadedOf(file, doextend, foot), k, OwnOf(file), f.text.zone, NamesOf(f.source, f.text), ty)
          && (NothingLost(f.text.zone) ==> RuleInForce(f.text.zone, t, ty));
  }
}
