/** What lookups in a loaded file tell: the file's own types, and after them those of the
    footer's rules. */
module TzLookup {
  import opened Bytes
  import opened CivilTime
  import opened LeapSeconds
  import opened Wrappers
  import opened ZoneState
  import opened RuleTable
  import opened YearRules
  import opened LocalTime
  import opened RuleText
  import opened TzString
  import opened TzParse
  import opened TzBytes
  import opened TzFile
  import opened TzSplice
  import opened TzAbbrs
  import opened TzNames
  import opened TzFooter
  import opened TzLoaded

  // The footer's transitions on the file's clock, with the file's numbers of types.
  ghost function OnFile(file: seq<Byte>, foot: seq<Transition>): seq<Transition>
    requires Acceptable(file)
  {
    ShiftAll(foot, OwnOf(file).leaps, |OwnOf(file).infos|)
  }

  // Those that were put at the end of the file's own.
  ghost function FooterPart(file: seq<Byte>, foot: seq<Transition>): seq<Transition>
    requires Acceptable(file)
  {
    OwnFacts(file);
    Appended(Trimmed(OwnOf(file).table), OnFile(file, foot))
  }

  ghost predicate InTime(file: seq<Byte>, foot: seq<Transition>, t: int)
    requires Acceptable(file)
  {
    OwnFacts(file);
    BeforeLeftOut(Trimmed(OwnOf(file).table), OnFile(file, foot), t)
  }

  /** What a loaded table says at t: before the footer's part, what the file's own list
      says, which names the later of two entries at the same time; in it, what the
      footer's rules say, by the file's count of leap seconds and its numbers of types. */
  lemma LoadedPicks(file: seq<Byte>, doextend: bool, foot: seq<Transition>, stop: int, default: int, default': int, t: int)
    requires Acceptable(file) && FootOf(file, doextend, foot, stop)
    requires Uses(file, doextend) ==> FooterParted(file)
    ensures var (b, table) := (FooterPart(file, foot), LoadedOf(file, doextend, foot).table);
            && (!Uses(file, doextend) || b == [] || t < b[0].at ==>
                  Pick(table, default, t) == Pick(FileTransitions(BlockOf(file), WidthOf(file)), default, t))
            && (Uses(file, doextend) && b != [] && b[0].at <= t && InTime(file, foot, t) ==>
                  Pick(table, default, t) == Pick(OnFile(file, foot), default', t))
  {
    var own := OwnOf(file);
    OwnFacts(file);
    CompactPicks(FileTransitions(BlockOf(file), WidthOf(file)), default, t);
    assert own.table == Compact(FileTransitions(BlockOf(file), WidthOf(file)));
    hide OwnOf, FooterOf, PlacingOf, FileTransitions, Compact, Spliced, ShiftAll, Appended, Trimmed, Pick, Parted,
      Spaced, Accepted, BeforeLeftOut, WellFormed;
    if Uses(file, doextend) {
      FootOrdered(foot, FooterOf(file).value.text, stop);
      ShiftOrdered(foot, own.leaps, |own.infos|);
      SplicedLookups(own.table, OnFile(file, foot), default, default', t);
    }
  }

  lemma SplicedLookups(s: seq<Transition>, ts: seq<Transition>, default: int, default': int, t: int)
    requires |s| <= TZ_MAX_TIMES && NonDecreasing(s) && NonDecreasing(ts)
    ensures var b := Appended(Trimmed(s), ts);
            && (b == [] || t < b[0].at ==> Pick(Spliced(s, ts), default, t) == Pick(s, default, t))
            && (b != [] && b[0].at <= t && BeforeLeftOut(Trimmed(s), ts, t) ==>
                  Pick(Spliced(s, ts), default, t) == Pick(ts, default', t))
  {
    SplicedPicks(s, ts, default, t);
    var b := Appended(Trimmed(s), ts);
    hide Appended, Pick, Spliced, BeforeLeftOut;
    if b != [] && b[0].at <= t && BeforeLeftOut(Trimmed(s), ts, t) {
      AppendedPicks(Trimmed(s), ts, default, default', t);
    }
  }

  // The name of a type.
  function NameOf(l: Loaded, k: int): string
    requires 0 <= k < |l.infos|
  {
    CString(l.area, l.infos[k].desigidx)
  }

  // The footer puts abbreviations of its own after the block's.
  ghost predicate Adds(file: seq<Byte>, doextend: bool)
    requires Acceptable(file)
  {
    doextend && FooterOf(file).Some?
    && var (own, f) := (OwnOf(file), FooterOf(file).value); !NoneWanted(own.area, own.charcnt, NamesOf(f.source, f.text))
  }

  /** The file's own types are those that the block lists. Their names are the block's,
      too, if its characters end with a nul or nothing is put after them, and not all of
      them otherwise. */
  lemma OwnTypes(file: seq<Byte>, doextend: bool, foot: seq<Transition>)
    requires Acceptable(file)
    ensures var (own, l) := (OwnOf(file), LoadedOf(file, doextend, foot));
            && |own.infos| <= |l.infos|
            && (forall k :: 0 <= k < |own.infos| ==> l.infos[k] == FileInfo(BlockOf(file), WidthOf(file), k))
            && (KeepsAbbrs(l.area, own.area, own.charcnt) <==> Terminated(own.area, own.charcnt) || !Adds(file, doextend))
            && (KeepsAbbrs(l.area, own.area, own.charcnt) ==>
                  forall k :: 0 <= k < |own.infos| ==> NameOf(l, k) == NameOf(own, k))
  {
    OwnFacts(file);
    LoadedParts(file, doextend, foot);
    OwnInfos(file);
    hide *;
    AddsIs(file, doextend);
    if doextend && FooterOf(file).Some? {
      PlacedArea(file);
    } else {
      KeepsItself(OwnOf(file).area, OwnOf(file).charcnt);
    }
    KeptNames(OwnOf(file), LoadedOf(file, doextend, foot));
  }

  lemma AddsIs(file: seq<Byte>, doextend: bool)
    requires Acceptable(file)
    ensures Adds(file, doextend) <==>
              doextend && FooterOf(file).Some?
              && var (own, f) := (OwnOf(file), FooterOf(file).value);
                 !NoneWanted(own.area, own.charcnt, NamesOf(f.source, f.text))
  {
    hide OwnOf, FooterOf, NamesOf, NoneWanted;
  }

  lemma OwnInfos(file: seq<Byte>)
    requires Acceptable(file)
    ensures var own := OwnOf(file);
            forall k :: 0 <= k < |own.infos| ==>
              0 <= k < TypeCnt(BlockOf(file)) && own.infos[k] == FileInfo(BlockOf(file), WidthOf(file), k)
  {
  }

  // The loaded state's own types and its characters.
  lemma LoadedParts(file: seq<Byte>, doextend: bool, foot: seq<Transition>)
    requires Acceptable(file)
    ensures var (own, l) := (OwnOf(file), LoadedOf(file, doextend, foot));
            && |own.infos| <= |l.infos| && (forall k :: 0 <= k < |own.infos| ==> l.infos[k] == own.infos[k])
            && l.area == if doextend && FooterOf(file).Some? then PlacingOf(file).area else own.area
  {
    hide *;
    if Uses(file, doextend) {
      UsedIs(file, doextend, foot);
      ExtendedParts(OwnOf(file), PlacingOf(file), TypesOf(FooterOf(file).value.text), foot);
      UsesIs(file, doextend);
    } else {
      NotUsedIs(file, doextend, foot);
    }
  }

  lemma UsesIs(file: seq<Byte>, doextend: bool)
    requires Acceptable(file) && Uses(file, doextend)
    ensures doextend && FooterOf(file).Some?
  {
    hide FooterOf, PlacingOf, Acceptable;
  }

  lemma NotUsedIs(file: seq<Byte>, doextend: bool, foot: seq<Transition>)
    requires Acceptable(file) && !Uses(file, doextend)
    ensures var (own, l) := (OwnOf(file), LoadedOf(file, doextend, foot));
            && l.infos == own.infos
            && l.area == if doextend && FooterOf(file).Some? then PlacingOf(file).area else own.area
  {
    hide OwnOf, FooterOf, PlacingOf, Uses, Acceptable, TypesOf, NamesOf, GoodText, Extended, Fits;
  }

  lemma ExtendedParts(own: Loaded, p: Placing, types: seq<TtInfo>, foot: seq<Transition>)
    requires |own.table| <= TZ_MAX_TIMES && |types| == |p.indexes|
    ensures var l := Extended(own, p, types, foot);
            && |own.infos| <= |l.infos| && (forall k :: 0 <= k < |own.infos| ==> l.infos[k] == own.infos[k])
            && l.area == p.area
  {
    hide Spliced, ShiftAll;
  }

  lemma PlacedArea(file: seq<Byte>)
    requires Acceptable(file) && FooterOf(file).Some?
    ensures var (own, f, area) := (OwnOf(file), FooterOf(file).value, PlacingOf(file).area);
            KeepsAbbrs(area, own.area, own.charcnt) <==>
              Terminated(own.area, own.charcnt) || NoneWanted(own.area, own.charcnt, NamesOf(f.source, f.text))
  {
    var own, f := OwnOf(file), FooterOf(file).value;
    OwnFacts(file);
    NamesArePlain(f.source, f.text);
    hide OwnOf, FooterOf, NamesOf, WellFormed, CString, Increasing, Accepted, InBounds, PlaceAll, KeepsAbbrs, NoneWanted;
    AbbrsKeptIff(own.area, own.charcnt, NamesOf(f.source, f.text));
  }

  lemma KeepsItself(area: seq<char>, n: int)
    ensures KeepsAbbrs(area, area, n)
  {
  }

  lemma KeptNames(own: Loaded, l: Loaded)
    requires |own.infos| <= |l.infos|
    requires forall k :: 0 <= k < |own.infos| ==> l.infos[k] == own.infos[k] && 0 <= own.infos[k].desigidx < own.charcnt
    ensures KeepsAbbrs(l.area, own.area, own.charcnt) ==>
              forall k :: 0 <= k < |own.infos| ==> NameOf(l, k) == NameOf(own, k)
  {
    hide CString;
  }

  lemma NamesArePlain(s: string, text: TzText)
    requires GoodText(s, text) && NoNul(s)
    ensures forall i :: 0 <= i < |NamesOf(s, text)| ==> Plain(NamesOf(s, text)[i])
  {
  }

  /** The footer's types come after them, with the offsets of its TZ string. Each has the
      name that the string gives it exactly if that is not spoiled; none is if the block's
      characters end with a nul. */
  lemma FooterTypes(file: seq<Byte>, doextend: bool, foot: seq<Transition>, j: nat)
    requires Acceptable(file) && Uses(file, doextend) && j < |TypesOf(FooterOf(file).value.text)|
    ensures var (own, l, f) := (OwnOf(file), LoadedOf(file, doextend, foot), FooterOf(file).value);
            && |l.infos| == |own.infos| + |TypesOf(f.text)|
            && l.infos[|own.infos| + j].utoff == TypesOf(f.text)[j].utoff
            && l.infos[|own.infos| + j].isdst == TypesOf(f.text)[j].isdst
            && j < |NamesOf(f.source, f.text)|
            && (NameOf(l, |own.infos| + j) == NamesOf(f.source, f.text)[j] <==>
                  !Spoiled(own.area, own.charcnt, NamesOf(f.source, f.text), j))
            && (Terminated(own.area, own.charcnt) ==> !Spoiled(own.area, own.charcnt, NamesOf(f.source, f.text), j))
  {
    hide *;
    UsedIs(file, doextend, foot);
    var own, f, p := OwnOf(file), FooterOf(file).value, PlacingOf(file);
    OwnFacts(file);
    NamesArePlain(f.source, f.text);
    PlacedIff(own.area, own.charcnt, NamesOf(f.source, f.text));
    ExtendedType(own, p, TypesOf(f.text), NamesOf(f.source, f.text), foot, j);
  }

  lemma UsedIs(file: seq<Byte>, doextend: bool, foot: seq<Transition>)
    requires Acceptable(file) && Uses(file, doextend)
    ensures FooterOf(file).Some? && AllPlaced(PlacingOf(file)) && |OwnOf(file).table| <= TZ_MAX_TIMES
    ensures var (own, f) := (OwnOf(file), FooterOf(file).value);
            && GoodText(f.source, f.text) && NoNul(f.source) && (f.text.Alternating? ==> ValidZone(f.text.zone))
            && NamesInside(f.source, f.text) && (f.text.Alternating? ==> f.text.std.begin <= f.text.std.end)
            && |TypesOf(f.text)| == |PlacingOf(file).indexes| == |NamesOf(f.source, f.text)|
            && Fits(Placing(own.area, own.charcnt, []))
            && PlacingOf(file) == PlaceAll(own.area, own.charcnt, NamesOf(f.source, f.text))
            && LoadedOf(file, doextend, foot) == Extended(own, PlacingOf(file), TypesOf(f.text), foot)
  {
    OwnFacts(file);
    SameCount(FooterOf(file).value.source, FooterOf(file).value.text);
    hide OwnOf, FooterOf, TypesOf, NamesOf, Extended, WellFormed, Accepted, InBounds, Increasing, PlaceAll, Fits;
  }

  // The j-th type added, and its name if that is found where it was placed.
  lemma ExtendedType(own: Loaded, p: Placing, types: seq<TtInfo>, names: seq<string>, foot: seq<Transition>, j: nat)
    requires |own.table| <= TZ_MAX_TIMES && |types| == |p.indexes| == |names| && AllPlaced(p) && j < |types|
    ensures var l := Extended(own, p, types, foot);
            && |l.infos| == |own.infos| + |types|
            && l.infos[|own.infos| + j].utoff == types[j].utoff && l.infos[|own.infos| + j].isdst == types[j].isdst
            && (FoundUnlessSpoiled(own.area, own.charcnt, names, p) ==>
                  (NameOf(l, |own.infos| + j) == names[j] <==> !Spoiled(own.area, own.charcnt, names, j)))
  {
    hide CString, Spliced, ShiftAll, Spoiled;
  }

  // A footer with two rules, some year of which is kept, and none running into the next.
  ghost predicate Alternates(file: seq<Byte>, doextend: bool, foot: seq<Transition>, stop: int)
    requires Acceptable(file)
  {
    && Uses(file, doextend) && FootOf(file, doextend, foot, stop) && FooterParted(file)
    && FooterOf(file).value.text.Alternating? && exists y :: Kept(FooterOf(file).value.text.zone, y)
  }

  // What type k of a loaded state is to be when type ty of the footer is in force.
  ghost predicate StandsFor(l: Loaded, k: int, own: Loaded, z: Zone, names: seq<string>, ty: int)
    requires |names| == 2
  {
    && 0 <= ty <= 1 && k == |own.infos| + ty && 0 <= k < |l.infos|
    && l.infos[k].utoff == -(if ty == 1 then z.dstoffset else z.stdoffset) && l.infos[k].isdst == (ty == 1)
    && (NameOf(l, k) == names[ty] <==> !Spoiled(own.area, own.charcnt, names, ty))
  }

  // A lookup on the file's clock is one on the footer's.
  lemma {:induction false} PickShifted(foot: seq<Transition>, leaps: seq<LeapInfo>, n: int, default: int, t: int, u: int)
    requires CountsAs(leaps, t, u)
    ensures |ShiftAll(foot, leaps, n)| == |foot|
    ensures Pick(ShiftAll(foot, leaps, n), n + default, t) == n + Pick(foot, default, u)
    decreases |foot|
  {
    hide Correction;
    if foot != [] {
      PickShifted(foot[..|foot| - 1], leaps, n, default, t, u);
      assert ShiftAll(foot, leaps, n)[..|foot| - 1] == ShiftAll(foot[..|foot| - 1], leaps, n);
    }
  }

  // The appended part runs from one of the footer's transitions to another.
  lemma PartInside(s: seq<Transition>, ts: seq<Transition>)
    requires |s| <= TZ_MAX_TIMES && NonDecreasing(ts) && Appended(s, ts) != []
    ensures var b := Appended(s, ts); ts != [] && ts[0].at <= b[0].at && b[|b| - 1].at <= ts[|ts| - 1].at
  {
    var k, b := FirstPast(s, ts, 0), Appended(s, ts);
    assert b[0] == ts[k] && b[|b| - 1] == ts[k + |b| - 1];
  }

  lemma FootFacts(file: seq<Byte>, doextend: bool, foot: seq<Transition>, stop: int)
    requires Acceptable(file) && Alternates(file, doextend, foot, stop)
    ensures var (f, own) := (FooterOf(file).value, OwnOf(file)); var z := f.text.zone;
            && ValidZone(z) && Parted(z) && foot == Unrolled(z, FIRST_YEAR, stop) && Fills(z, FIRST_YEAR, stop) && foot != []
            && |NamesOf(f.source, f.text)| == 2 && |TypesOf(f.text)| == 2
            && (forall ty :: 0 <= ty < 2 ==> TypesOf(f.text)[ty].utoff == -(if ty == 1 then z.dstoffset else z.stdoffset)
                                             && TypesOf(f.text)[ty].isdst == (ty == 1))
            && InBounds(foot, 2) && NonDecreasing(foot) && (Spaced(z) ==> Increasing(foot))
            && Accepted(own.leaps) && OnFile(file, foot) == ShiftAll(foot, own.leaps, |own.infos|)
            && NonDecreasing(OnFile(file, foot))
  {
    hide *;
    AlternatesIs(file, doextend, foot, stop);
    FootIs(FooterOf(file).value, foot, stop);
    FootOrdered(foot, FooterOf(file).value.text, stop);
    ShiftOrdered(foot, OwnOf(file).leaps, |OwnOf(file).infos|);
    OnFileIs(file, foot);
  }

  lemma OnFileIs(file: seq<Byte>, foot: seq<Transition>)
    requires Acceptable(file)
    ensures OnFile(file, foot) == ShiftAll(foot, OwnOf(file).leaps, |OwnOf(file).infos|)
  {
  }

  lemma FootIs(f: Footer, foot: seq<Transition>, stop: int)
    requires GoodText(f.source, f.text) && f.text.Alternating? && NamesInside(f.source, f.text)
    requires (exists y :: Kept(f.text.zone, y)) && FooterTable(foot, f.text, stop)
    ensures var z := f.text.zone;
            && foot == Unrolled(z, FIRST_YEAR, stop) && Fills(z, FIRST_YEAR, stop) && foot != [] && InBounds(foot, 2)
            && |NamesOf(f.source, f.text)| == 2 && |TypesOf(f.text)| == 2
            && forall ty :: 0 <= ty < 2 ==> TypesOf(f.text)[ty].utoff == -(if ty == 1 then z.dstoffset else z.stdoffset)
                                            && TypesOf(f.text)[ty].isdst == (ty == 1)
  {
    UnrolledInBounds(f.text.zone, stop);
    hide Kept, Unrolled, InBounds;
  }

  lemma InTimeIs(file: seq<Byte>, foot: seq<Transition>, t: int)
    requires Acceptable(file)
    ensures |Trimmed(OwnOf(file).table)| <= TZ_MAX_TIMES
    ensures InTime(file, foot, t) <==> BeforeLeftOut(Trimmed(OwnOf(file).table), OnFile(file, foot), t)
  {
    OwnFacts(file);
    hide OwnOf, BeforeLeftOut, OnFile, WellFormed, InBounds, Accepted, Increasing, Fits;
  }

  lemma FootPick(foot: seq<Transition>, t: int)
    requires InBounds(foot, 2)
    ensures 0 <= Pick(foot, 0, t) <= 1
  {
    PickWithin(foot, 0, t, 2);
  }

  // The footer's part begins with one of its changes.
  lemma PartBegins(s: seq<Transition>, foot: seq<Transition>, leaps: seq<LeapInfo>, n: int, t: int, u: int)
    requires |s| <= TZ_MAX_TIMES && NonDecreasing(foot) && CountsAs(leaps, t, u)
    requires var b := Appended(s, ShiftAll(foot, leaps, n)); b != [] && b[0].at <= t
    ensures foot != [] && foot[0].at <= u
  {
    hide Correction;
    var ts := ShiftAll(foot, leaps, n);
    AppendedFrom(s, ts);
    var k := FirstPast(s, ts, 0);
    assert Appended(s, ts)[0] == ts[k] == Shifted(foot[k], leaps, n);
    hide Appended, FirstPast, ShiftAll;
    assert foot[k].at <= u && foot[0].at <= foot[k].at;
  }

  lemma TrimmedShorter(s: seq<Transition>)
    ensures |Trimmed(s)| <= |s|
  {
  }

  lemma FooterPartIs(file: seq<Byte>, foot: seq<Transition>)
    requires Acceptable(file)
    ensures |OwnOf(file).table| <= TZ_MAX_TIMES
    ensures FooterPart(file, foot) == Appended(Trimmed(OwnOf(file).table), OnFile(file, foot))
  {
    OwnFacts(file);
  }

  /** From the beginning of the footer's part on a lookup at t gives the offset and the kind
      of the type that the footer's rules put in force, if no year is lost, and its name
      exactly if that is not spoiled: at the second u that the footer's clock has reached,
      which is t itself if there are no leap seconds, up to what is left out of the table. */
  lemma FooterInForce(file: seq<Byte>, doextend: bool, foot: seq<Transition>, stop: int, default: int, t: int, u: int)
    requires Acceptable(file) && Alternates(file, doextend, foot, stop) && CountsAs(OwnOf(file).leaps, t, u)
    requires var b := FooterPart(file, foot); b != [] && b[0].at <= t && InTime(file, foot, t)
    requires u < First(FooterOf(file).value.text.zone, stop).at
    ensures Tells(file, doextend, foot, Pick(LoadedOf(file, doextend, foot).table, default, t), u)
  {
    hide *;
    FootFacts(file, doextend, foot, stop);
    AlternatesIs(file, doextend, foot, stop);
    FooterPartIs(file, foot);
    var own, z := OwnOf(file), FooterOf(file).value.text.zone;
    TrimmedShorter(own.table);
    PartBegins(Trimmed(own.table), foot, own.leaps, |own.infos|, t, u);
    PickShifted(foot, own.leaps, |own.infos|, 0, t, u);
    FootPick(foot, u);
    var ty := Pick(foot, 0, u);
    LookupIs(file, doextend, foot, stop, default, |own.infos|, t);
    RuleLookup(z, stop, u);
    FooterTells(file, doextend, foot, stop, |own.infos| + ty, ty, u);
  }

  lemma LookupIs(file: seq<Byte>, doextend: bool, foot: seq<Transition>, stop: int, default: int, n: int, t: int)
    requires Acceptable(file) && Alternates(file, doextend, foot, stop)
    requires var b := FooterPart(file, foot); b != [] && b[0].at <= t && InTime(file, foot, t)
    ensures Pick(LoadedOf(file, doextend, foot).table, default, t) == Pick(OnFile(file, foot), n, t)
  {
    hide OwnOf, FooterOf, LoadedOf, FooterPart, OnFile, WellFormed, InTime, FooterTable, FooterParted;
    LoadedPicks(file, doextend, foot, stop, default, n, t);
  }

  lemma RuleLookup(z: Zone, stop: int, t: int)
    requires ValidZone(z) && Parted(z)
    requires var s := Unrolled(z, FIRST_YEAR, stop); s != [] && s[0].at <= t < First(z, stop).at
    ensures NothingLost(z) ==> RuleInForce(z, t, Pick(Unrolled(z, FIRST_YEAR, stop), 0, t))
  {
    hide *;
    if NothingLost(z) {
      TableInForce(z, FIRST_YEAR, stop, 0, t);
    }
  }

  lemma FooterTells(file: seq<Byte>, doextend: bool, foot: seq<Transition>, stop: int, k: int, ty: int, t: int)
    requires Acceptable(file) && Alternates(file, doextend, foot, stop) && 0 <= ty <= 1 && k == |OwnOf(file).infos| + ty
    requires ValidZone(FooterOf(file).value.text.zone)
    requires NothingLost(FooterOf(file).value.text.zone) ==> RuleInForce(FooterOf(file).value.text.zone, t, ty)
    ensures Tells(file, doextend, foot, k, t)
  {
    hide *;
    AlternatesIs(file, doextend, foot, stop);
    FootFacts(file, doextend, foot, stop);
    FooterTypes(file, doextend, foot, ty);
    TypeStands(file, doextend, foot, FooterOf(file).value, ty);
    TellsIs(file, doextend, foot, k, ty, t);
  }

  lemma TypeStands(file: seq<Byte>, doextend: bool, foot: seq<Transition>, f: Footer, ty: nat)
    requires Acceptable(file) && FooterOf(file) == Some(f) && f.text.Alternating? && ty < 2 == |NamesOf(f.source, f.text)|
    requires var (own, l, z) := (OwnOf(file), LoadedOf(file, doextend, foot), f.text.zone); var k := |own.infos| + ty;
             && k < |l.infos|
             && l.infos[k].utoff == -(if ty == 1 then z.dstoffset else z.stdoffset) && l.infos[k].isdst == (ty == 1)
             && (NameOf(l, k) == NamesOf(f.source, f.text)[ty] <==>
                   !Spoiled(own.area, own.charcnt, NamesOf(f.source, f.text), ty))
    ensures StandsFor(LoadedOf(file, doextend, foot), |OwnOf(file).infos| + ty, OwnOf(file), f.text.zone,
                      NamesOf(f.source, f.text), ty)
  {
    hide OwnOf, LoadedOf, NamesOf, CString, FooterOf, Spoiled;
  }

  lemma TellsIs(file: seq<Byte>, doextend: bool, foot: seq<Transition>, k: int, ty: int, t: int)
    requires Acceptable(file) && FooterOf(file).Some? && FooterOf(file).value.text.Alternating?
    requires |NamesOf(FooterOf(file).value.source, FooterOf(file).value.text)| == 2
    requires var f := FooterOf(file).value;
             && StandsFor(LoadedOf(file, doextend, foot), k, OwnOf(file), f.text.zone, NamesOf(f.source, f.text), ty)
             && (NothingLost(f.text.zone) ==> RuleInForce(f.text.zone, t, ty))
    ensures Tells(file, doextend, foot, k, t)
  {
    hide OwnOf, LoadedOf, NamesOf, CString, FooterOf, StandsFor, NothingLost, RuleInForce;
  }

  lemma AlternatesIs(file: seq<Byte>, doextend: bool, foot: seq<Transition>, stop: int)
    requires Acceptable(file) && Alternates(file, doextend, foot, stop)
    ensures FooterOf(file).Some? && FooterOf(file).value.text.Alternating? && Uses(file, doextend)
    ensures var (f, own) := (FooterOf(file).value, OwnOf(file)); var z := f.text.zone;
            && GoodText(f.source, f.text) && NoNul(f.source) && NamesInside(f.source, f.text) && ValidZone(z)
            && f.text.std.begin <= f.text.std.end
            && Parted(z) && (exists y :: Kept(z, y)) && FooterTable(foot, f.text, stop) && Accepted(own.leaps)
  {
    hide OwnOf, FooterOf, PlacingOf, FooterTable, Parted, Kept, WellFormed, NamesOf, TypesOf;
    OwnFacts(file);
  }

  /** Type k of the loaded state is that of the footer's type in force at t, by its own
      clock. */
  ghost predicate Tells(file: seq<Byte>, doextend: bool, foot: seq<Transition>, k: int, t: int)
    requires Acceptable(file) && FooterOf(file).Some?
  {
    var f := FooterOf(file).value;
    && |NamesOf(f.source, f.text)| == 2 && (f.text.Alternating?)
    && exists ty ::
         && StandsFor(LoadedOf(file, doextend, foot), k, OwnOf(file), f.text.zone, NamesOf(f.source, f.text), ty)
         && (NothingLost(f.text.zone) ==> RuleInForce(f.text.zone, t, ty))
  }
}
