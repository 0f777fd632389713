/** What a TZif file is loaded as, as a function of its bytes, and what lookups in it
    tell. */
module TzLoaded {
  import opened Bytes
  import opened CArith
  import opened CivilTime
  import opened LeapSeconds
  import opened Rules
  import opened ZoneState
  import opened RuleTable
  import opened YearRules
  import opened LocalTime
  import opened Wrappers
  import opened RuleText
  import opened TzString
  import opened TzParse
  import opened TzBytes
  import opened TzFile
  import opened TzSplice
  import opened TzAbbrs
  import opened TzFooter
  import opened TzRepeat

  // What follows a block.
  ghost function Rest(buf: seq<Byte>, stored: int): seq<Byte>
    requires WellFormed(buf, stored)
  {
    BlockSizeFits(buf, stored);
    buf[BlockSize(buf, stored)..]
  }

  lemma BlockSizeFits(buf: seq<Byte>, stored: int)
    requires WellFormed(buf, stored)
    ensures TZHEADSIZE <= BlockSize(buf, stored) <= |buf|
  {
    FitFacts(buf, stored);
  }

  /** The files that are accepted: both blocks, or the one of a version 1 file, are well
      formed. */
  ghost predicate Acceptable(file: seq<Byte>) {
    WellFormed(file, 4) && (file[4] != 0 ==> WellFormed(Rest(file, 4), 8))
  }

  // The block that counts, the width of its times, and what is left after it.
  ghost function BlockOf(file: seq<Byte>): seq<Byte>
    requires Acceptable(file)
  {
    if file[4] == 0 then file else Rest(file, 4)
  }

  ghost function WidthOf(file: seq<Byte>): int
    requires Acceptable(file)
  {
    if file[4] == 0 then 4 else 8
  }

  ghost function LeftOf(file: seq<Byte>): seq<Byte>
    requires Acceptable(file)
  {
    var block := BlockOf(file);
    if block[4] == 0 then block else Rest(block, WidthOf(file))
  }

  // A state's parts that a file determines.
  datatype Loaded = Loaded(table: seq<Transition>, infos: seq<TtInfo>, area: seq<char>, charcnt: int,
                           leaps: seq<LeapInfo>)

  ghost predicate IsLoaded(sp: State, l: Loaded)
    reads sp, sp.ats, sp.types, sp.ttis, sp.chars, sp.lsis
  {
    && sp.Shaped() && sp.Transitions() == l.table && sp.Infos() == l.infos
    && Holds(sp, l.area) && sp.charcnt == l.charcnt && sp.Leaps() == l.leaps
  }

  // The state is marked for folding exactly where the loaded table repeats, and has its
  // default type.
  ghost predicate FoldMarked(sp: State, l: Loaded)
    reads sp
  {
    && sp.goback == FirstRepeats(l.table, l.infos, l.area) && sp.goahead == LastRepeats(l.table, l.infos, l.area)
    && IsDefault(l.table, l.infos, sp.defaulttype)
  }

  /** What the last block says. */
  ghost function OwnOf(file: seq<Byte>): Loaded
    requires Acceptable(file)
  {
    var (block, width) := (BlockOf(file), WidthOf(file));
    FitFacts(block, width);
    Loaded(Compact(FileTransitions(block, width)), FileInfos(block, width), FileChars(block, width) + ['\0'],
           CharCnt(block), FileLeaps(block, width))
  }

  ghost function FileInfos(block: seq<Byte>, width: int): seq<TtInfo>
    requires BlockFits(block, width)
  {
    FitFacts(block, width);
    seq(TypeCnt(block), i requires 0 <= i < TypeCnt(block) => FileInfo(block, width, i))
  }

  // A footer that tzparse takes: its text, and what that means.
  datatype Footer = Footer(source: string, text: TzText)

  /** The footer, if there is one between newlines, there is room for two more types, and
      tzparse takes it. */
  ghost function FooterOf(file: seq<Byte>): (f: Option<Footer>)
    requires Acceptable(file)
    ensures f.Some? ==> GoodText(f.value.source, f.value.text) && NoNul(f.value.source)
  {
    var left := LeftOf(file);
    if |left| > 2 && left[0] == 10 && left[|left| - 1] == 10 && TypeCnt(BlockOf(file)) + 2 <= TZ_MAX_TYPES then
      var source := FooterText(left[1..|left| - 1]);
      FooterTextNoNul(left[1..|left| - 1]);
      if ParseTz(source).None? then None
      else
        ParsedIsGood(source);
        Some(Footer(source, ParseTz(source).value))
    else None
  }

  lemma OwnFacts(file: seq<Byte>)
    requires Acceptable(file)
    ensures var own := OwnOf(file);
            && |own.table| <= TZ_MAX_TIMES && Increasing(own.table) && Accepted(own.leaps) && |own.leaps| <= TZ_MAX_LEAPS
            && InBounds(own.table, |own.infos|) && |own.infos| == TypeCnt(BlockOf(file)) <= TZ_MAX_TYPES
            && Fits(Placing(own.area, own.charcnt, [])) && |own.area| == own.charcnt + 1 && own.charcnt < TZ_MAX_CHARS
            && forall k :: 0 <= k < |own.infos| ==> 0 <= own.infos[k].desigidx < own.charcnt
  {
    hide *;
    BlockFacts(file);
    OwnTable(file);
    OwnArea(file);
  }

  lemma BlockFacts(file: seq<Byte>)
    requires Acceptable(file)
    ensures WellFormed(BlockOf(file), WidthOf(file))
  {
  }

  lemma OwnTable(file: seq<Byte>)
    requires Acceptable(file)
    ensures var own := OwnOf(file);
            && |own.table| <= TZ_MAX_TIMES && Increasing(own.table) && Accepted(own.leaps) && |own.leaps| <= TZ_MAX_LEAPS
            && InBounds(own.table, |own.infos|) && |own.infos| == TypeCnt(BlockOf(file)) <= TZ_MAX_TYPES
  {
    var block, width := BlockOf(file), WidthOf(file);
    FitFacts(block, width);
    CompactShorter(FileTransitions(block, width));
    CompactIncreasing(FileTransitions(block, width));
    OwnInBounds(block, width);
    hide FileTransitions, Compact, CountsFit, BlockSize, Int32, FileLeaps, FileChars, FileInfo, Accepted, InBounds, Increasing,
      InfosFit, FlagsFit;
  }

  lemma OwnArea(file: seq<Byte>)
    requires Acceptable(file)
    ensures var own := OwnOf(file);
            && Fits(Placing(own.area, own.charcnt, [])) && |own.area| == own.charcnt + 1 && own.charcnt < TZ_MAX_CHARS
            && forall k :: 0 <= k < |own.infos| ==> 0 <= own.infos[k].desigidx < own.charcnt
  {
    var block, width := BlockOf(file), WidthOf(file);
    FitFacts(block, width);
    hide FileTransitions, Compact, CountsFit, BlockSize, Int32, FileLeaps, WellFormed, FileInfo;
    forall k | 0 <= k < TypeCnt(block)
      ensures 0 <= FileInfo(block, width, k).desigidx < CharCnt(block)
    {
      IndexInside(block, width, k);
    }
  }

  lemma IndexInside(block: seq<Byte>, width: int, k: int)
    requires WellFormed(block, width) && 0 <= k < TypeCnt(block)
    ensures 0 <= FileInfo(block, width, k).desigidx < CharCnt(block)
  {
    FitFacts(block, width);
    hide FileTransitions, CountsFit, BlockSize, Int32, FileLeaps, Accepted, FlagsFit;
    assert InfoFits(block, width, k);
  }

  // Where the abbreviations of the footer's types are placed.
  ghost function PlacingOf(file: seq<Byte>): (p: Placing)
    requires Acceptable(file) && FooterOf(file).Some?
    ensures Fits(p) && |p.indexes| == |NamesOf(FooterOf(file).value.source, FooterOf(file).value.text)|
  {
    var f := FooterOf(file).value;
    OwnFacts(file);
    PlaceAll(OwnOf(file).area, OwnOf(file).charcnt, NamesOf(f.source, f.text))
  }

  /** Whether the footer is used: if it is asked for, there is one, and all its
      abbreviations could be placed. */
  ghost predicate Uses(file: seq<Byte>, doextend: bool)
    requires Acceptable(file)
  {
    doextend && FooterOf(file).Some? && AllPlaced(PlacingOf(file))
  }

  // The state with a footer's transitions and types added.
  ghost function Extended(own: Loaded, p: Placing, types: seq<TtInfo>, foot: seq<Transition>): Loaded
    requires |own.table| <= TZ_MAX_TIMES && |types| == |p.indexes|
  {
    Loaded(Spliced(own.table, ShiftAll(foot, own.leaps, |own.infos|)), own.infos + Renamed(types, p.indexes),
           p.area, p.charcnt, own.leaps)
  }

  lemma SameCount(s: string, text: TzText)
    requires GoodText(s, text)
    ensures |NamesOf(s, text)| == |TypesOf(text)|
  {
  }

  /** What a file is loaded as, given the transitions of its footer's rules. A footer not
      used may yet have left abbreviations behind. */
  ghost function LoadedOf(file: seq<Byte>, doextend: bool, foot: seq<Transition>): Loaded
    requires Acceptable(file)
  {
    OwnFacts(file);
    if !doextend || FooterOf(file).None? then OwnOf(file)
    else
      SameCount(FooterOf(file).value.source, FooterOf(file).value.text);
      if Uses(file, doextend) then Extended(OwnOf(file), PlacingOf(file), TypesOf(FooterOf(file).value.text), foot)
      else OwnOf(file).(area := PlacingOf(file).area)
  }

  // The transitions of the footer's rules, if the footer is used.
  ghost predicate FootOf(file: seq<Byte>, doextend: bool, foot: seq<Transition>, stop: int)
    requires Acceptable(file)
  {
    Uses(file, doextend) ==> FooterTable(foot, FooterOf(file).value.text, stop)
  }

  lemma CompactShorter(s: seq<Transition>)
    ensures |Compact(s)| <= |s|
  {
  }

  lemma {:induction false} SupersededMembers(s: seq<Transition>, n: int, typecnt: int)
    requires (0 <= n < |s| || n == 0) && InBounds(s, typecnt)
    ensures InBounds(Superseded(s, n), typecnt)
    decreases n
  {
    if n > 0 {
      SupersededMembers(s, n - 1, typecnt);
    }
  }

  lemma FileTimeFits(block: seq<Byte>, width: int, i: int)
    requires BlockFits(block, width) && 0 <= i < TimeCnt(block)
    ensures IsTime(FileTime(block, width, i))
  {
    hide *;
    FileTimeIs(block, width, i);
    if width == 4 {
      Int32Range(block, TZHEADSIZE + 4 * i);
      IntIsTime(Int32(block, TZHEADSIZE + 4 * i));
    } else {
      Int64Range(block, TZHEADSIZE + 8 * i);
    }
  }

  lemma FileTimeIs(block: seq<Byte>, width: int, i: int)
    requires BlockFits(block, width) && 0 <= i < TimeCnt(block)
    ensures TZHEADSIZE >= 0 && width != 4 ==> TZHEADSIZE + 8 * i + 8 <= |block|
    ensures TZHEADSIZE >= 0 && TZHEADSIZE + 4 * i + 4 <= |block|
    ensures FileTime(block, width, i) == if width == 4 then Int32(block, TZHEADSIZE + 4 * i) else Int64(block, TZHEADSIZE + 8 * i)
  {
    hide BlockFits, TimeCnt, Int32, Int64;
    TimeInside(block, width, i);
  }

  lemma TimeInside(block: seq<Byte>, width: int, i: int)
    requires BlockFits(block, width) && 0 <= i < TimeCnt(block)
    ensures TZHEADSIZE == 44 && 44 + 4 * i + 4 <= |block| && (width == 8 || width == 4) && (width == 8 ==> 44 + 8 * i + 8 <= |block|)
  {
    FitFacts(block, width);
    hide CountsFit, BlockFits, TypesAt, InfosAt, CharsAt, LeapsAt, StdsAt, UtsAt, BlockSize, TimeCnt, TypeCnt, CharCnt,
      LeapCnt, TtisstdCnt, TtisutCnt;
  }

  lemma IntIsTime(i: int)
    requires IsInt(i)
    ensures IsTime(i)
  {
  }

  lemma OwnInBounds(block: seq<Byte>, width: int)
    requires WellFormed(block, width)
    ensures InBounds(Compact(FileTransitions(block, width)), TypeCnt(block))
  {
    hide *;
    FileInBounds(block, width);
    CompactInBounds(FileTransitions(block, width), TypeCnt(block));
  }

  lemma FileInBounds(block: seq<Byte>, width: int)
    requires WellFormed(block, width)
    ensures TZHEADSIZE <= |block| && BlockFits(block, width)
    ensures InBounds(FileTransitions(block, width), TypeCnt(block))
  {
    var s := FileTransitions(block, width);
    hide CountsFit, BlockSize, TypesAt, FileTime, RestFits, Int32;
    forall i | 0 <= i < |s|
      ensures IsTime(s[i].at) && 0 <= s[i].ty < TypeCnt(block)
    {
      FileTimeFits(block, width, i);
    }
  }

  lemma CompactInBounds(s: seq<Transition>, typecnt: int)
    requires InBounds(s, typecnt)
    ensures InBounds(Compact(s), typecnt)
  {
    if s != [] {
      SupersededMembers(s, |s| - 1, typecnt);
    }
    hide InBounds, Superseded;
  }

  lemma FootEntry(foot: seq<Transition>, text: TzText, stop: int, i: nat)
    requires FooterTable(foot, text, stop) && i < |foot|
    ensures -0x1000_0000_0000 < foot[i].at < 0x1000_0000_0000 && 0 <= foot[i].ty <= 1
  {
    hide Kept, First, Second, InRange, Fills;
    var z := text.zone;
    var y := UnrolledYear(z, FIRST_YEAR, stop, i);
    UnrolledHas(z, FIRST_YEAR, stop, y);
    TableYearFits(z, y);
    ChangeTypes(z, y);
  }

  lemma FootInBounds(foot: seq<Transition>, text: TzText, stop: int, leaps: seq<LeapInfo>, typecnt: int, n: int)
    requires FooterTable(foot, text, stop) && Accepted(leaps) && |leaps| <= TZ_MAX_LEAPS && 0 <= typecnt
    requires foot != [] ==> n == 2
    ensures InBounds(ShiftAll(foot, leaps, typecnt), typecnt + n)
  {
    forall i | 0 <= i < |foot|
      ensures var x := Shifted(foot[i], leaps, typecnt); IsTime(x.at) && 0 <= x.ty < typecnt + n
    {
      FootEntry(foot, text, stop, i);
      hide FooterTable;
      CorrectionSteps(leaps, -1, LeapIndex(leaps, foot[i].at));
    }
  }

  lemma SplicedInBounds(own: seq<Transition>, foot: seq<Transition>, n: int, m: int)
    requires InBounds(own, n) && InBounds(foot, m) && n <= m && |own| <= TZ_MAX_TIMES
    ensures InBounds(Spliced(own, foot), m)
  {
  }

  lemma SplicedIs(s: seq<Transition>, ts: seq<Transition>)
    requires |s| <= TZ_MAX_TIMES
    ensures Spliced(s, ts) == Trimmed(s) + Appended(Trimmed(s), ts)
  {
  }

  lemma FootOrdered(foot: seq<Transition>, text: TzText, stop: int)
    requires FooterTable(foot, text, stop) && (text.Alternating? ==> Parted(text.zone))
    ensures NonDecreasing(foot) && (text.Alternating? && Spaced(text.zone) ==> Increasing(foot))
  {
    if text.Alternating? {
      UnrolledOrdered(text.zone, FIRST_YEAR, stop);
    }
  }

  // The rules of the footer: no kept year's changes run into the next year's.
  ghost predicate FooterParted(file: seq<Byte>)
    requires Acceptable(file) && FooterOf(file).Some?
  {
    var text := FooterOf(file).value.text;
    text.Alternating? ==> Parted(text.zone)
  }

  ghost predicate FooterSpaced(file: seq<Byte>, foot: seq<Transition>)
    requires Acceptable(file) && FooterOf(file).Some?
  {
    var text := FooterOf(file).value.text;
    (text.Alternating? ==> Spaced(text.zone)) && (OwnOf(file).leaps == [] || Apart(foot))
  }

  /** The table of a loaded file is in order if no kept year of its footer's rules runs
      into the next; strictly so if they do not touch either and, where there are leap
      seconds, its transitions are two seconds apart. */
  lemma LoadedOrdered(file: seq<Byte>, doextend: bool, foot: seq<Transition>, stop: int)
    requires Acceptable(file) && FootOf(file, doextend, foot, stop)
    requires Uses(file, doextend) ==> FooterParted(file)
    ensures NonDecreasing(LoadedOf(file, doextend, foot).table)
    ensures (Uses(file, doextend) ==> FooterSpaced(file, foot)) ==> Increasing(LoadedOf(file, doextend, foot).table)
  {
    OwnFacts(file);
    if Uses(file, doextend) {
      hide OwnOf, Spliced, Unrolled, ShiftAll, FooterOf, PlacingOf, Parted, Spaced;
      var own, text := OwnOf(file), FooterOf(file).value.text;
      FootOrdered(foot, text, stop);
      if text.Standard? {
        assert foot == [];
      }
      ShiftOrdered(foot, own.leaps, |own.infos|);
      SplicedOrdered(own.table, ShiftAll(foot, own.leaps, |own.infos|));
    }
  }
}
