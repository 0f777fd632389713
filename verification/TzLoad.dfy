/** tzloadbody1 as a whole: blocks, footer, repetition and default type. */
module TzLoad {
  import opened Bytes
  import opened Calendar
  import opened CivilTime
  import opened LeapSeconds
  import opened ZoneState
  import opened RuleTable
  import opened YearRules
  import opened LocalTime
  import opened TzBytes
  import opened TzFile
  import opened TzSplice
  import opened TzString
  import opened TzParse
  import opened TzAbbrs
  import opened TzFooter
  import opened TzRepeat
  import opened TzLoaded
  import opened Wrappers

  /** Source/tzdb.h:1023-1047: the table is marked for folding before its start if
      its first entry comes again 400 years later, and after its end if its last
      entry came 400 years before. */
  method ScanRepeats(sp: State)
    requires sp.Shaped() && !sp.goback && !sp.goahead
    modifies sp`goback, sp`goahead
    ensures sp.goback == FirstRepeats(sp.Transitions(), sp.Infos(), sp.chars[..])
    ensures sp.goahead == LastRepeats(sp.Transitions(), sp.Infos(), sp.chars[..])
  {
    ghost var s, infos, chars := sp.Transitions(), sp.Infos(), sp.chars[..];
    if sp.timecnt > 1 {
      var i := 1;
      while i < sp.timecnt
        invariant 1 <= i <= sp.timecnt && !sp.goback && !sp.goahead
        invariant forall k :: 0 < k < i ==> !Repeats(s[0], s[k], infos, chars)
      {
        var equiv := TypesEquiv(sp.ttis[..sp.typecnt], sp.chars[..], sp.types[i], sp.types[0]);
        if equiv {
          if sp.ats[i] - sp.ats[0] == SECSPERREPEAT {
            assert Repeats(s[0], s[i], infos, chars);
            sp.goback := true;
            break;
          }
        }
        assert !Repeats(s[0], s[i], infos, chars);
        i := i + 1;
      }
      assert sp.goback == FirstRepeats(s, infos, chars);
      ScanAhead(sp);
    }
  }

  method ScanAhead(sp: State)
    requires sp.Shaped() && sp.timecnt > 1 && !sp.goahead
    modifies sp`goahead
    ensures sp.goahead == LastRepeats(sp.Transitions(), sp.Infos(), sp.chars[..])
  {
    ghost var s, infos, chars := sp.Transitions(), sp.Infos(), sp.chars[..];
    var last := sp.timecnt - 1;
    var i := sp.timecnt - 2;
    while i >= 0
      invariant -1 <= i <= sp.timecnt - 2 && !sp.goahead
      invariant forall k :: i < k < last ==> !Repeats(s[k], s[last], infos, chars)
    {
      var equiv := TypesEquiv(sp.ttis[..sp.typecnt], sp.chars[..], sp.types[last], sp.types[i]);
      if equiv {
        if sp.ats[last] - sp.ats[i] == SECSPERREPEAT {
          assert Repeats(s[i], s[last], infos, chars);
          sp.goahead := true;
          break;
        }
      }
      assert !Repeats(s[i], s[last], infos, chars);
      i := i - 1;
    }
  }

  /** Source/tzdb.h:1049-1099: the type to use before the first transition. */
  method DefaultType(sp: State) returns (i: int)
    requires sp.Shaped() && 0 < sp.typecnt
    requires forall k :: 0 <= k < sp.timecnt ==> 0 <= sp.types[k] < sp.typecnt
    ensures 0 <= i < sp.typecnt && IsDefault(sp.Transitions(), sp.Infos(), i)
  {
    ghost var s, infos := sp.Transitions(), sp.Infos();
    assert forall k :: 0 <= k < sp.timecnt ==> s[k].ty == sp.types[k];
    i := 0;
    while i < sp.timecnt
      invariant 0 <= i <= sp.timecnt
      invariant forall k :: 0 <= k < i ==> s[k].ty != 0
    {
      if sp.types[i] == 0 {
        break;
      }
      i := i + 1;
    }
    if i == sp.timecnt {
      return 0;
    }
    assert s[i].ty == 0;
    i := -1;
    if sp.timecnt > 0 && sp.ttis[sp.types[0]].isdst {
      i := StandardBelow(sp, sp.types[0]);
      if i >= 0 {
        return;
      }
    }
    i := FirstStandard(sp);
  }

  // Source/tzdb.h:1073-1078: the greatest standard type below, or -1.
  method StandardBelow(sp: State, top: int) returns (i: int)
    requires sp.Shaped() && 0 <= top < sp.typecnt
    ensures if exists k :: k < top && StandardType(sp.Infos(), k)
            then i < top && StandardType(sp.Infos(), i) && forall k :: i < k < top ==> !StandardType(sp.Infos(), k)
            else i == -1
  {
    i := top - 1;
    while i >= 0
      invariant -1 <= i < top
      invariant forall k :: i < k < top ==> !StandardType(sp.Infos(), k)
    {
      if !sp.ttis[i].isdst {
        assert StandardType(sp.Infos(), i);
        return;
      }
      i := i - 1;
    }
  }

  // Source/tzdb.h:1084-1091: the least standard type, or 0.
  method FirstStandard(sp: State) returns (i: int)
    requires sp.Shaped() && 0 < sp.typecnt
    ensures 0 <= i < sp.typecnt
    ensures if exists k :: StandardType(sp.Infos(), k)
            then StandardType(sp.Infos(), i) && forall k :: k < i ==> !StandardType(sp.Infos(), k)
            else i == 0
  {
    i := 0;
    while sp.ttis[i].isdst
      invariant 0 <= i < sp.typecnt
      invariant forall k :: k < i ==> !StandardType(sp.Infos(), k)
      decreases sp.typecnt - i
    {
      assert !StandardType(sp.Infos(), i);
      i := i + 1;
      if i >= sp.typecnt {
        return 0;
      }
    }
    assert StandardType(sp.Infos(), i);
  }

  /** Source/tzdb.h:994-1001. */
  method TrimNoOps(sp: State)
    requires sp.Shaped()
    modifies sp`timecnt
    ensures sp.Shaped() && sp.Transitions() == Trimmed(old(sp.Transitions()))
  {
    hide Trimmed;
    while 1 < sp.timecnt && sp.types[sp.timecnt - 1] == sp.types[sp.timecnt - 2]
      invariant sp.Shaped()
      invariant Trimmed(sp.Transitions()) == Trimmed(old(sp.Transitions()))
      decreases sp.timecnt
    {
      ghost var s := sp.Transitions();
      sp.timecnt := sp.timecnt - 1;
      assert sp.Transitions() == s[..|s| - 1];
      TrimOne(s);
    }
    TrimOne(sp.Transitions());
  }

  lemma TrimOne(s: seq<Transition>)
    ensures Trimmed(s) == if |s| > 1 && s[|s| - 1].ty == s[|s| - 2].ty then Trimmed(s[..|s| - 1]) else s
  {
  }

  /** Source/tzdb.h:1003-1020: the footer's transitions that are past the end of the
      table are appended as far as there is room, on the clock that counts leap
      seconds, and the footer's types after the file's. */
  method AppendFooter(sp: State, ts: State)
    requires sp.Shaped() && ts.Shaped() && sp.typecnt + ts.typecnt <= TZ_MAX_TYPES
    requires Separate(sp, ts)
    modifies sp`timecnt, sp`typecnt, sp.ats, sp.types, sp.ttis
    ensures sp.Shaped()
    ensures sp.Transitions() == old(sp.Transitions())
              + Appended(old(sp.Transitions()), ShiftAll(ts.Transitions(), sp.Leaps(), old(sp.typecnt)))
    ensures sp.typecnt == old(sp.typecnt) + ts.typecnt
    ensures sp.Infos() == old(sp.Infos()) + ts.Infos()
  {
    ghost var s, leaps := sp.Transitions(), sp.Leaps();
    ghost var foot := ShiftAll(ts.Transitions(), leaps, sp.typecnt);
    var i := SkipPast(sp, ts);
    AppendTimes(sp, ts, i);
    assert sp.Transitions() == s + Appended(s, foot) by {
      hide ShiftAll, FirstPast, Zip;
    }
    AppendTypes(sp, ts);
  }

  // Source/tzdb.h:1018-1019.
  method AppendTypes(sp: State, ts: State)
    requires sp.Shaped() && ts.Shaped() && sp.typecnt + ts.typecnt <= TZ_MAX_TYPES
    requires Separate(sp, ts)
    modifies sp`typecnt, sp.ttis
    ensures sp.Shaped() && sp.Transitions() == old(sp.Transitions())
    ensures sp.typecnt == old(sp.typecnt) + ts.typecnt
    ensures sp.Infos() == old(sp.Infos()) + ts.Infos()
  {
    var i := 0;
    while i < ts.typecnt
      invariant 0 <= i <= ts.typecnt && sp.Shaped()
      invariant sp.typecnt == old(sp.typecnt) + i
      invariant sp.ttis[..sp.typecnt] == old(sp.ttis[..sp.typecnt]) + ts.ttis[..i]
    {
      sp.ttis[sp.typecnt] := ts.ttis[i];
      sp.typecnt := sp.typecnt + 1;
      i := i + 1;
    }
  }

  // Source/tzdb.h:1003-1007: the first footer transition past the end of the table.
  method SkipPast(sp: State, ts: State) returns (i: nat)
    requires sp.Shaped() && ts.Shaped()
    ensures i == FirstPast(sp.Transitions(), ShiftAll(ts.Transitions(), sp.Leaps(), sp.typecnt), 0) <= ts.timecnt
  {
    hide FirstPast, Correction, Increasing;
    ghost var s, leaps := sp.Transitions(), sp.Leaps();
    ghost var foot := ShiftAll(ts.Transitions(), leaps, sp.typecnt);
    i := 0;
    while i < ts.timecnt
      invariant 0 <= i <= ts.timecnt
      invariant FirstPast(s, foot, i) == FirstPast(s, foot, 0)
    {
      var corr := LeapCorr(sp.lsis[..sp.leapcnt], ts.ats[i]);
      FirstPastStep(s, foot, i);
      if sp.timecnt == 0 || sp.ats[sp.timecnt - 1] < ts.ats[i] + corr {
        return;
      }
      i := i + 1;
    }
    FirstPastEnd(s, foot);
  }

  lemma FirstPastStep(s: seq<Transition>, ts: seq<Transition>, i: nat)
    requires i < |ts|
    ensures FirstPast(s, ts, i) == if s == [] || s[|s| - 1].at < ts[i].at then i else FirstPast(s, ts, i + 1)
  {
  }

  lemma FirstPastEnd(s: seq<Transition>, ts: seq<Transition>)
    ensures FirstPast(s, ts, |ts|) == |ts|
  {
  }

  // Source/tzdb.h:1008-1017: the footer's transitions from k on, while there is room.
  method AppendTimes(sp: State, ts: State, k: nat)
    requires sp.Shaped() && ts.Shaped() && k <= ts.timecnt
    requires Separate(sp, ts)
    modifies sp`timecnt, sp.ats, sp.types
    ensures sp.Shaped()
    ensures var foot := ShiftAll(ts.Transitions(), sp.Leaps(), sp.typecnt);
            var room := TZ_MAX_TIMES - old(sp.timecnt);
            sp.Transitions() == old(sp.Transitions()) + foot[k..if ts.timecnt - k <= room then ts.timecnt else k + room]
  {
    hide *;
    SeparateParts(sp, ts);
    ShapedCounts(sp);
    ShapedCounts(ts);
    ghost var s, leaps, own := sp.Transitions(), sp.lsis[..sp.leapcnt], ts.Transitions();
    ghost var foot := ShiftAll(own, leaps, sp.typecnt);
    ShiftedLength(own, leaps, sp.typecnt);
    var i := k;
    assert s + foot[k..i] == s;
    while i < ts.timecnt && sp.timecnt < TZ_MAX_TIMES
      invariant k <= i <= ts.timecnt && sp.Shaped() && sp.timecnt <= TZ_MAX_TIMES
      invariant sp.timecnt == |s| + (i - k) && sp.lsis[..sp.leapcnt] == leaps && ts.Shaped() && ts.Transitions() == own
      invariant sp.Transitions() == s + foot[k..i]
    {
      ShapedCounts(sp);
      NextShifted(sp, ts, i);
      var corr := LeapCorr(sp.lsis[..sp.leapcnt], ts.ats[i]);
      AppendOne(sp, ts.ats[i] + corr, sp.typecnt + ts.types[i]);
      SliceNext(s, foot, k, i);
      i := i + 1;
    }
    ShapedCounts(sp);
  }

  lemma ShapedCounts(sp: State)
    requires sp.Shaped()
    ensures sp.ats.Length == sp.types.Length == TZ_MAX_TIMES && 0 <= sp.timecnt <= TZ_MAX_TIMES
    ensures sp.lsis.Length == TZ_MAX_LEAPS && 0 <= sp.leapcnt <= TZ_MAX_LEAPS
    ensures |sp.Transitions()| == sp.timecnt && sp.Leaps() == sp.lsis[..sp.leapcnt]
  {
  }

  lemma ShiftedLength(ts: seq<Transition>, leaps: seq<LeapInfo>, typecnt: int)
    ensures |ShiftAll(ts, leaps, typecnt)| == |ts|
  {
  }

  // Transition i of the footer, put on the file's clock.
  lemma NextShifted(sp: State, ts: State, i: nat)
    requires sp.Shaped() && ts.Shaped() && i < ts.timecnt
    ensures var foot := ShiftAll(ts.Transitions(), sp.Leaps(), sp.typecnt);
            && i < |foot| && sp.leapcnt <= sp.lsis.Length && sp.Leaps() == sp.lsis[..sp.leapcnt] && 0 <= sp.leapcnt
            && foot[i] == Transition(ts.ats[i] + Correction(sp.lsis[..sp.leapcnt], ts.ats[i]), sp.typecnt + ts.types[i])
  {
    hide Correction;
  }

  lemma SliceNext(s: seq<Transition>, foot: seq<Transition>, k: nat, i: nat)
    requires k <= i < |foot|
    ensures s + foot[k..i + 1] == s + foot[k..i] + [foot[i]]
  {
    assert foot[k..i + 1] == foot[k..i] + [foot[i]];
  }

  method AppendOne(sp: State, at: int, ty: int)
    requires sp.Shaped() && sp.timecnt < TZ_MAX_TIMES
    modifies sp`timecnt, sp.ats, sp.types
    ensures sp.Shaped() && sp.timecnt == old(sp.timecnt) + 1
    ensures sp.Transitions() == old(sp.Transitions()) + [Transition(at, ty)]
  {
    sp.ats[sp.timecnt] := at;
    sp.types[sp.timecnt] := ty;
    sp.timecnt := sp.timecnt + 1;
  }

  /** Source/tzdb.h:800-951: both blocks of a file, or the one of a version 1 file. A
      file is accepted exactly when they are well formed. What is left in the buffer
      is what follows the second block. */
  method LoadBlocks(file: seq<Byte>, sp: State) returns (ok: bool, buf: seq<Byte>)
    requires sp.Shaped()
    modifies sp, sp.ats, sp.types, sp.ttis, sp.chars, sp.lsis
    ensures sp.Shaped() && sp.goback == old(sp.goback) && sp.goahead == old(sp.goahead)
    ensures ok <==> Acceptable(file)
    ensures ok ==> Decoded(sp, BlockOf(file), WidthOf(file)) && buf == LeftOf(file)
  {
    hide Decoded, TransitionsFit, RestFits, CountsFit, Int32;
    buf := file;
    var stored := 4;
    while stored <= 8
      invariant stored == 4 || stored == 8 || stored == 16
      invariant sp.Shaped() && sp.goback == old(sp.goback) && sp.goahead == old(sp.goahead)
      invariant stored == 4 ==> buf == file
      invariant stored > 4 ==> WellFormed(file, 4) && file[4] != 0
      invariant stored == 8 ==> buf == Rest(file, 4)
      invariant stored == 16 ==> Acceptable(file) && BlockOf(file)[4] != 0
                                 && Decoded(sp, BlockOf(file), WidthOf(file)) && buf == LeftOf(file)
    {
      var p;
      ok, p := DecodeBlock(sp, buf, stored);
      if !ok {
        return;
      }
      BlockSizeFits(buf, stored);
      if buf[4] == 0 {
        return;
      }
      buf := buf[p..];
      stored := stored * 2;
    }
    ok := true;
  }

  // A decoded state is what the block says.
  lemma DecodedIsOwn(sp: State, file: seq<Byte>)
    requires Acceptable(file) && Decoded(sp, BlockOf(file), WidthOf(file))
    ensures IsLoaded(sp, OwnOf(file)) && sp.charcnt < TZ_MAX_CHARS && sp.chars[sp.charcnt] == '\0'
    ensures sp.typecnt == TypeCnt(BlockOf(file))
  {
    FitFacts(BlockOf(file), WidthOf(file));
    hide FileTransitions, Compact, FileLeaps, FileInfo, TransitionsFit, CountsFit, Int32, BlockSize, FileChars;
    assert sp.Infos() == FileInfos(BlockOf(file), WidthOf(file));
    assert sp.chars[..sp.charcnt + 1] == sp.chars[..sp.charcnt] + ['\0'];
  }

  /** Source/tzdb.h:952-963: the footer is parsed exactly if there is one. */
  method ParseFooter(ts: State, buf: seq<Byte>, typecnt: int, ghost file: seq<Byte>)
    returns (parsed: bool, ghost stop: int)
    requires ts.Shaped() && Acceptable(file) && buf == LeftOf(file) && typecnt == TypeCnt(BlockOf(file))
    modifies ts, ts.ats, ts.types, ts.ttis, ts.chars
    ensures ts.Shaped() && (parsed <==> FooterOf(file).Some?)
    ensures parsed ==>
              var f := FooterOf(file).value;
              && FooterTable(ts.Transitions(), f.text, stop)
              && ts.Infos() == TypesOf(f.text) && Names(ts.Infos(), ts.chars[..]) == NamesOf(f.source, f.text)
              && ts.typecnt <= 2
  {
    parsed, stop := false, 0;
    if |buf| > 2 && buf[0] == 10 && buf[|buf| - 1] == 10 && typecnt + 2 <= TZ_MAX_TYPES {
      ghost var source := FooterText(buf[1..|buf| - 1]);
      FooterTextNoNul(buf[1..|buf| - 1]);
      parsed, stop := Tzparse(FooterText(buf[1..|buf| - 1]), ts);
      if parsed {
        ParsedIsGood(source);
        assert FooterOf(file) == Some(Footer(source, ParseTz(source).value));
        hide FooterOf, ParseTz, FooterText, LeftOf, NamesOf, TypesOf, Names, FooterTable, Filled, Named, TypeCnt;
        FilledParts(ts, FooterOf(file).value.text, stop);
        FilledNames(ts, source, FooterOf(file).value.text);
      }
    }
  }

  lemma SeparateParts(sp: State, ts: State)
    requires Separate(sp, ts)
    ensures ts != sp && ts.ats != sp.ats && ts.types != sp.types && ts.ats != sp.types && ts.types != sp.ats
    ensures ts.ttis != sp.ttis && ts.chars != sp.chars && ts.lsis != sp.lsis
  {
  }

  lemma FitsBound(p: Placing)
    requires Fits(p)
    ensures 0 <= p.charcnt <= TZ_MAX_CHARS && NulEnded(p.area)
  {
  }

  lemma Arrays(sp: State, own: Loaded)
    requires IsLoaded(sp, own)
    ensures sp.Shaped() && sp.typecnt == |own.infos| && sp.timecnt == |own.table|
  {
  }

  /** Source/tzdb.h:964-1020: the footer's transitions and types are spliced on if all its
      abbreviations can be placed. */
  method SpliceFooter(sp: State, ts: State, ghost own: Loaded, ghost p: Placing) returns (used: bool)
    requires sp.Shaped() && ts.Shaped() && Separate(sp, ts)
    requires IsLoaded(sp, own) && |own.area| == own.charcnt + 1 && own.charcnt < TZ_MAX_CHARS && NulEnded(own.area)
    requires Fits(Placing(own.area, own.charcnt, []))
    requires p == PlaceAll(own.area, own.charcnt, Names(ts.Infos(), ts.chars[..]))
    requires sp.typecnt + ts.typecnt <= TZ_MAX_TYPES
    modifies sp`timecnt, sp`typecnt, sp`charcnt, sp.ats, sp.types, sp.ttis, sp.chars, ts.ttis
    ensures used <==> AllPlaced(p)
    ensures IsLoaded(sp, if used then Extended(own, p, old(ts.Infos()), old(ts.Transitions())) else own.(area := p.area))
  {
    hide Spliced, ShiftAll, Trimmed, Appended, Zip, CString, PlaceAll, Names, Renamed, Fits;
    ghost var foot, types := ts.Transitions(), ts.Infos();
    assert sp.chars[..sp.charcnt + 1] == own.area;
    assert sp.chars[sp.charcnt] == own.area[sp.charcnt];
    var gotabbr, charcnt := ReuseAbbrs(sp, ts);
    used := gotabbr == ts.typecnt;
    if used {
      FitsBound(p);
      sp.charcnt := charcnt;
      TrimNoOps(sp);
      AppendFooter(sp, ts);
      SplicedIs(own.table, ShiftAll(foot, own.leaps, |own.infos|));
    }
  }

  /** Source/tzdb.h:794-1102. A file is loaded exactly if its blocks are well formed and
      it comes to have a type. The state is then what the file says: its last block's
      table, types, abbreviations and leap seconds, and those of its footer if that is
      used; it is marked for folding where, and only where, it repeats. If its times are
      in order it can be folded safely. */
  method Load(file: seq<Byte>, sp: State, ts: State, doextend: bool)
    returns (ok: bool, ghost foot: seq<Transition>, ghost stop: int)
    requires sp.Shaped() && ts.Shaped() && !sp.goback && !sp.goahead
    requires Separate(sp, ts)
    modifies sp, sp.ats, sp.types, sp.ttis, sp.chars, sp.lsis
    modifies ts, ts.ats, ts.types, ts.ttis, ts.chars
    ensures sp.Shaped()
    ensures ok <==> Acceptable(file) && (TypeCnt(BlockOf(file)) > 0 || Uses(file, doextend))
    ensures ok ==> FootOf(file, doextend, foot, stop) && IsLoaded(sp, LoadedOf(file, doextend, foot))
    ensures ok ==> FoldMarked(sp, LoadedOf(file, doextend, foot))
    ensures ok ==> Usable(sp) && (NonDecreasing(sp.Transitions()) ==> Foldable(sp))
  {
    hide IsLoaded, LoadedOf, FoldMarked, Uses, FootOf, Acceptable, BlockOf, TypeCnt, Foldable, Usable, NonDecreasing, Bounded;
    ok, foot, stop := LoadTable(file, sp, ts, doextend);
    if !ok {
      return;
    }
    Arrays(sp, LoadedOf(file, doextend, foot));
    LoadedTypes(file, doextend, foot, stop);
    if sp.typecnt == 0 {
      ok := false;
      return;
    }
    Finish(sp, LoadedOf(file, doextend, foot));
  }

  /** Source/tzdb.h:794-1021. */
  method LoadTable(file: seq<Byte>, sp: State, ts: State, doextend: bool)
    returns (ok: bool, ghost foot: seq<Transition>, ghost stop: int)
    requires sp.Shaped() && ts.Shaped() && Separate(sp, ts)
    modifies sp, sp.ats, sp.types, sp.ttis, sp.chars, sp.lsis
    modifies ts, ts.ats, ts.types, ts.ttis, ts.chars
    ensures sp.goback == old(sp.goback) && sp.goahead == old(sp.goahead) && (!ok ==> sp.Shaped())
    ensures ok <==> Acceptable(file)
    ensures ok ==> FootOf(file, doextend, foot, stop) && IsLoaded(sp, LoadedOf(file, doextend, foot))
  {
    hide *;
    SeparateParts(sp, ts);
    foot, stop := [], 0;
    var buf;
    ok, buf := LoadBlocks(file, sp);
    if ok {
      DecodedIsOwn(sp, file);
      foot, stop := ExtendIf(file, sp, ts, buf, doextend);
    }
  }

  method ExtendIf(file: seq<Byte>, sp: State, ts: State, buf: seq<Byte>, doextend: bool)
    returns (ghost foot: seq<Transition>, ghost stop: int)
    requires sp.Shaped() && ts.Shaped() && Separate(sp, ts)
    requires Acceptable(file) && IsLoaded(sp, OwnOf(file)) && buf == LeftOf(file)
    requires sp.typecnt == TypeCnt(BlockOf(file))
    modifies sp`timecnt, sp`typecnt, sp`charcnt, sp.ats, sp.types, sp.ttis, sp.chars
    modifies ts, ts.ats, ts.types, ts.ttis, ts.chars
    ensures FootOf(file, doextend, foot, stop) && IsLoaded(sp, LoadedOf(file, doextend, foot))
  {
    hide *;
    foot, stop := [], 0;
    if doextend {
      foot, stop := Extend(file, sp, ts, buf);
    } else {
      NotExtended(file);
    }
  }

  lemma NotExtended(file: seq<Byte>)
    requires Acceptable(file)
    ensures LoadedOf(file, false, []) == OwnOf(file) && FootOf(file, false, [], 0)
  {
  }

  lemma NoFooter(file: seq<Byte>)
    requires Acceptable(file) && FooterOf(file).None?
    ensures LoadedOf(file, true, []) == OwnOf(file) && FootOf(file, true, [], 0)
  {
  }

  lemma WithFooter(file: seq<Byte>, foot: seq<Transition>, types: seq<TtInfo>, stop: int)
    requires Acceptable(file) && FooterOf(file).Some? && types == TypesOf(FooterOf(file).value.text)
    requires FooterTable(foot, FooterOf(file).value.text, stop)
    ensures FootOf(file, true, foot, stop) && |OwnOf(file).table| <= TZ_MAX_TIMES && |types| == |PlacingOf(file).indexes|
    ensures LoadedOf(file, true, foot) ==
            if AllPlaced(PlacingOf(file)) then Extended(OwnOf(file), PlacingOf(file), types, foot)
            else OwnOf(file).(area := PlacingOf(file).area)
  {
    OwnFacts(file);
    hide OwnOf, FooterOf, PlacingOf, TypesOf, NamesOf, FooterTable, Extended, AllPlaced, WellFormed;
    SameCount(FooterOf(file).value.source, FooterOf(file).value.text);
  }

  // Source/tzdb.h:952-1021: the footer made use of, if there is one.
  method Extend(file: seq<Byte>, sp: State, ts: State, buf: seq<Byte>) returns (ghost foot: seq<Transition>, ghost stop: int)
    requires sp.Shaped() && ts.Shaped() && Separate(sp, ts)
    requires Acceptable(file) && IsLoaded(sp, OwnOf(file)) && buf == LeftOf(file)
    requires sp.typecnt == TypeCnt(BlockOf(file))
    modifies sp`timecnt, sp`typecnt, sp`charcnt, sp.ats, sp.types, sp.ttis, sp.chars
    modifies ts, ts.ats, ts.types, ts.ttis, ts.chars
    ensures FootOf(file, true, foot, stop) && IsLoaded(sp, LoadedOf(file, true, foot))
  {
    hide *;
    SeparateParts(sp, ts);
    OwnFits(file);
    var parsed;
    parsed, stop := ParseFooter(ts, buf, sp.typecnt, file);
    foot := ts.Transitions();
    if parsed {
      PlacingIs(file);
      WithFooter(file, foot, ts.Infos(), stop);
      var used := SpliceFooter(sp, ts, OwnOf(file), PlacingOf(file));
    } else {
      foot, stop := [], 0;
      NoFooter(file);
    }
  }

  lemma PlacingIs(file: seq<Byte>)
    requires Acceptable(file) && FooterOf(file).Some?
    ensures var (own, f) := (OwnOf(file), FooterOf(file).value);
            && Fits(Placing(own.area, own.charcnt, []))
            && PlacingOf(file) == PlaceAll(own.area, own.charcnt, NamesOf(f.source, f.text))
    ensures TypeCnt(BlockOf(file)) + 2 <= TZ_MAX_TYPES
  {
    OwnFacts(file);
  }

  lemma OwnFits(file: seq<Byte>)
    requires Acceptable(file)
    ensures var own := OwnOf(file); NulEnded(own.area) && |own.area| == own.charcnt + 1 && own.charcnt < TZ_MAX_CHARS
  {
    OwnFacts(file);
    hide OwnOf;
  }

  // The types and indexes of a loaded state are within bounds.
  ghost predicate Bounded(l: Loaded) {
    && InBounds(l.table, |l.infos|) && NulEnded(l.area)
    && forall k :: 0 <= k < |l.infos| ==> 0 <= l.infos[k].desigidx < |l.area|
  }

  lemma LoadedTypes(file: seq<Byte>, doextend: bool, foot: seq<Transition>, stop: int)
    requires Acceptable(file) && FootOf(file, doextend, foot, stop)
    ensures Bounded(LoadedOf(file, doextend, foot))
    ensures |LoadedOf(file, doextend, foot).infos| > 0 <==> TypeCnt(BlockOf(file)) > 0 || Uses(file, doextend)
  {
    hide *;
    OwnBounded(file);
    if !doextend {
      NotExtendedIs(file, foot);
    } else if FooterOf(file).None? {
      NoFooterIs(file, foot);
    } else if !Uses(file, doextend) {
      PlacingIs(file);
      NotUsedIs(file, foot);
    } else {
      UsedBounded(file, foot, stop);
    }
  }

  lemma OwnBounded(file: seq<Byte>)
    requires Acceptable(file)
    ensures Bounded(OwnOf(file)) && |OwnOf(file).infos| == TypeCnt(BlockOf(file))
  {
    OwnFacts(file);
    hide OwnOf, InBounds, Accepted, Increasing;
  }

  lemma NotExtendedIs(file: seq<Byte>, foot: seq<Transition>)
    requires Acceptable(file)
    ensures LoadedOf(file, false, foot) == OwnOf(file) && !Uses(file, false)
  {
  }

  lemma NoFooterIs(file: seq<Byte>, foot: seq<Transition>)
    requires Acceptable(file) && FooterOf(file).None?
    ensures LoadedOf(file, true, foot) == OwnOf(file) && !Uses(file, true)
  {
  }

  lemma NotUsedIs(file: seq<Byte>, foot: seq<Transition>)
    requires Acceptable(file) && FooterOf(file).Some? && !Uses(file, true) && Bounded(OwnOf(file))
    ensures Bounded(LoadedOf(file, true, foot)) && |LoadedOf(file, true, foot).infos| == |OwnOf(file).infos|
  {
    OwnFacts(file);
    hide OwnOf, FooterOf, InBounds, Accepted, Increasing, NamesOf, TypesOf, PlaceAll, WellFormed;
    var own := OwnOf(file);
    assert LoadedOf(file, true, foot) == own.(area := PlacingOf(file).area) by {
      SameCount(FooterOf(file).value.source, FooterOf(file).value.text);
    }
    assert |PlacingOf(file).area| >= own.charcnt;
  }

  lemma UsedBounded(file: seq<Byte>, foot: seq<Transition>, stop: int)
    requires Acceptable(file) && Uses(file, true) && FootOf(file, true, foot, stop)
    ensures Bounded(LoadedOf(file, true, foot)) && |LoadedOf(file, true, foot).infos| > 0
  {
    hide *;
    UsesMeans(file, foot, stop);
    var own, f, p := OwnOf(file), FooterOf(file).value, PlacingOf(file);
    var types, onFile := TypesOf(f.text), ShiftAll(foot, own.leaps, |own.infos|);
    OwnFacts(file);
    OwnBounded(file);
    PlacingIs(file);
    PlacesWithin(own.area, own.charcnt, NamesOf(f.source, f.text));
    FooterSizes(foot, f.text, stop);
    FootInBounds(foot, f.text, stop, own.leaps, |own.infos|, |types|);
    SplicedInBounds(own.table, onFile, |own.infos|, |own.infos| + |types|);
    WithFooter(file, foot, types, stop);
    ExtendedBounded(own, p, types, foot);
  }

  lemma UsesMeans(file: seq<Byte>, foot: seq<Transition>, stop: int)
    requires Acceptable(file) && Uses(file, true) && FootOf(file, true, foot, stop)
    ensures FooterOf(file).Some? && AllPlaced(PlacingOf(file)) && Fits(PlacingOf(file))
    ensures var f := FooterOf(file).value;
            && GoodText(f.source, f.text) && (f.text.Alternating? ==> ValidZone(f.text.zone)) && NamesInside(f.source, f.text)
            && (f.text.Alternating? ==> f.text.std.begin <= f.text.std.end)
            && FooterTable(foot, f.text, stop) && |TypesOf(f.text)| == |PlacingOf(file).indexes| > 0
  {
    SameCount(FooterOf(file).value.source, FooterOf(file).value.text);
    hide PlacingOf, FooterOf, TypesOf, NamesOf, FooterTable;
  }

  lemma ExtendedBounded(own: Loaded, p: Placing, types: seq<TtInfo>, foot: seq<Transition>)
    requires |own.table| <= TZ_MAX_TIMES && |types| == |p.indexes| && Fits(p) && AllPlaced(p) && types != []
    requires own.charcnt <= p.charcnt && forall k :: 0 <= k < |own.infos| ==> 0 <= own.infos[k].desigidx < own.charcnt
    requires forall i :: 0 <= i < |types| && p.indexes[i].Some? ==> 0 <= p.indexes[i].value < p.charcnt
    requires InBounds(Spliced(own.table, ShiftAll(foot, own.leaps, |own.infos|)), |own.infos| + |types|)
    ensures Bounded(Extended(own, p, types, foot)) && |Extended(own, p, types, foot).infos| > 0
  {
    hide Spliced, ShiftAll, InBounds;
  }

  lemma FooterSizes(foot: seq<Transition>, text: TzText, stop: int)
    requires FooterTable(foot, text, stop) && (text.Alternating? ==> text.std.begin <= text.std.end)
    ensures foot != [] ==> |TypesOf(text)| == 2
  {
    hide Kept, Unrolled, Fills;
  }

  // Places are inside the characters in use.
  lemma {:induction false} PlacesWithin(area: seq<char>, charcnt: int, abbrs: seq<string>)
    requires Fits(Placing(area, charcnt, []))
    ensures var p := PlaceAll(area, charcnt, abbrs);
            forall i :: 0 <= i < |abbrs| && p.indexes[i].Some? ==> 0 <= p.indexes[i].value < p.charcnt
    decreases |abbrs|
  {
    if abbrs != [] {
      var n := |abbrs| - 1;
      PlacesWithin(area, charcnt, abbrs[..n]);
      var p := PlaceAll(area, charcnt, abbrs[..n]);
      hide CString, PlaceAll;
      var q := PlaceOne(p, abbrs[n]);
      assert q.indexes[..n] == p.indexes;
      assert forall i :: 0 <= i < n ==> q.indexes[i] == q.indexes[..n][i];
      PlaceLast(area, charcnt, abbrs);
    }
  }

  lemma PlaceLast(area: seq<char>, charcnt: int, abbrs: seq<string>)
    requires Fits(Placing(area, charcnt, [])) && abbrs != []
    ensures PlaceAll(area, charcnt, abbrs) == PlaceOne(PlaceAll(area, charcnt, abbrs[..|abbrs| - 1]), abbrs[|abbrs| - 1])
  {
  }

  // Source/tzdb.h:1023-1101: repetition and default type.
  method Finish(sp: State, ghost l: Loaded)
    requires IsLoaded(sp, l) && Bounded(l) && |l.infos| > 0 && !sp.goback && !sp.goahead
    modifies sp`goback, sp`goahead, sp`defaulttype
    ensures IsLoaded(sp, l) && FoldMarked(sp, l)
    ensures Usable(sp) && (NonDecreasing(sp.Transitions()) ==> Foldable(sp))
  {
    hide FirstRepeats, LastRepeats, CString, IsDefault;
    assert l.area <= sp.chars[..];
    RepeatsWithin(l.table, l.infos, sp.chars[..], l.area);
    ScanRepeats(sp);
    ghost var s := sp.Transitions();
    assert forall k :: 0 <= k < sp.timecnt ==> s[k].ty == sp.types[k];
    sp.defaulttype := DefaultType(sp);
    ScannedFoldable(sp);
  }
}
