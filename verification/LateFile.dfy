/** A TZif file of which the table is marked for folding and too short for it. */
module LateFile {
  import opened Bytes
  import opened CArith
  import opened Calendar
  import opened Wrappers
  import opened ZoneState
  import opened RuleTable
  import opened YearCases
  import opened LocalTime
  import opened TzString
  import opened TzParse
  import opened TzBytes
  import opened TzFile
  import opened TzAbbrs
  import opened TzFooter
  import opened TzLoaded
  import opened TzWrite
  import opened TzWritten
  import opened TzWhole
  import opened FoldCases

  const FOOTER := "XXX0YYY,J365/167,J1/-167"

  // First(Across, 2021).at.
  const LATE := 1608854400

  // The first block says nothing.
  function NoBlock(): Block {
    Block(Front(50), [], [], [], [], [], None, None)
  }

  // The second: a transition each second, two types of no offset, and an abbreviation.
  function LateBlock(): (d: Block)
    ensures |d.times| == |d.types| == 1198
  {
    Block(Front(50), seq(1198, i requires 0 <= i < 1198 => LATE + 10 + i), seq(1198, i requires 0 <= i < 1198 => i % 2),
          [Kind(0, false, 0), Kind(0, false, 0)], [88, 88, 88, 0], [], None, None)
  }

  function LateFooter(): seq<Byte> {
    [10] + Text(FOOTER) + [10]
  }

  /** The file. */
  function LateBytes(): seq<Byte> {
    FileTwo(NoBlock(), LateBlock(), LateFooter())
  }

  lemma LateIsGood()
    ensures GoodTwo(NoBlock(), LateBlock())
  {
  }

  lemma LateIs()
    ensures ValidZone(Across) && First(Across, 2021).at == LATE
  {
    hide YearStart;
    LateYear();
  }

  lemma LateYear()
    ensures YearStart(2021) == 18628
  {
    hide YearStart;
    YearStartClosed(2021);
  }

  // Strictly increasing times are all kept.
  lemma {:induction false} NoneSuperseded(s: seq<Transition>, n: nat)
    requires n < |s| && forall i :: 0 < i < |s| ==> s[i - 1].at < s[i].at
    ensures Superseded(s, n) == s[..n]
  {
    if n > 0 {
      NoneSuperseded(s, n - 1);
    }
  }

  lemma LateAccepted()
    ensures Acceptable(LateBytes()) && BlockOf(LateBytes()) == Written(LateBlock(), 8) + LateFooter()
    ensures WidthOf(LateBytes()) == 8 && LeftOf(LateBytes()) == LateFooter()
  {
    hide *;
    LateIsGood();
    TwoIsAccepted(NoBlock(), LateBlock(), LateFooter());
    LateBytesAre();
  }

  lemma LateBytesAre()
    ensures LateBytes() == FileTwo(NoBlock(), LateBlock(), LateFooter())
  {
    hide FileTwo, NoBlock, LateBlock, LateFooter;
  }

  lemma LateTableIs()
    ensures ValidZone(Across) && Compact(SaidTransitions(LateBlock())) == LateTable()
  {
    hide First, Superseded;
    LateIs();
    var s := SaidTransitions(LateBlock());
    NoneSuperseded(s, 1197);
    assert s == LateTable();
  }

  lemma GoodSecond(first: Block, d: Block)
    requires GoodTwo(first, d)
    ensures Good(d, 8)
  {
    hide Good;
  }

  lemma LateOwn()
    ensures Acceptable(LateBytes()) && ValidZone(Across) && SaysBlock(OwnOf(LateBytes()), LateBlock())
    ensures var own := OwnOf(LateBytes()); own.table == LateTable() && own.leaps == [] && |own.infos| == 2 && own.charcnt == 4
  {
    hide *;
    LateAccepted();
    LateIsGood();
    GoodSecond(NoBlock(), LateBlock());
    Cut(Written(LateBlock(), 8), LateFooter());
    LoadsWhatIsWritten(LateBytes(), LateBlock(), 8);
    LateTableIs();
    LateSays(OwnOf(LateBytes()));
  }

  lemma LateSays(own: Loaded)
    requires SaysBlock(own, LateBlock())
    ensures own.table == Compact(SaidTransitions(LateBlock())) && own.leaps == [] && |own.infos| == 2 && own.charcnt == 4
  {
    hide Compact, SaidTransitions;
  }

  lemma BlockTypes(file: seq<Byte>)
    requires Acceptable(file) && BlockOf(file) == Written(LateBlock(), 8) + LateFooter()
    ensures TypeCnt(BlockOf(file)) == 2
  {
    hide *;
    LateIsGood();
    GoodSecond(NoBlock(), LateBlock());
    Cut(Written(LateBlock(), 8), LateFooter());
    GoodSizes(LateBlock(), 8);
    PartsOf(BlockOf(file), LateBlock(), 8);
    CountsRead(BlockOf(file), LateBlock(), 8);
    TwoKinds();
  }

  lemma TwoKinds()
    ensures |LateBlock().kinds| == 2
  {
  }

  lemma FooterLetters()
    ensures |FOOTER| == 24 && forall k :: 0 <= k < |FOOTER| ==> '\0' < FOOTER[k] < 256 as char
  {
  }

  lemma LateText() returns (text: TzText)
    ensures Acceptable(LateBytes()) && FooterOf(LateBytes()) == Some(Footer(FOOTER, text))
    ensures text.Alternating? && text.zone == Across && Gives(FOOTER, Some(text), "XXX", "YYY", Across)
  {
    hide *;
    text := AcrossText();
    LateAccepted();
    BlockTypes(LateBytes());
    FooterLetters();
    LateFooterIs();
    FooterIsRead(LateBytes(), FOOTER);
  }

  lemma AcrossText() returns (text: TzText)
    ensures ParseTz(FOOTER) == Some(text) && Gives(FOOTER, Some(text), "XXX", "YYY", Across)
    ensures FOOTER != "" && text.Alternating? && text.zone == Across
  {
    hide ParseTz;
    AcrossString();
    text := ParseTz(FOOTER).value;
  }

  lemma LateFooterIs()
    ensures LateFooter() == [10] + Text(FOOTER) + [10]
  {
  }

  lemma RoomForOne(p: Placing, abbr: string)
    requires Fits(p) && p.charcnt <= 40 && |abbr| == 3 && AllPlaced(p)
    ensures var q := PlaceOne(p, abbr); AllPlaced(q) && q.charcnt <= p.charcnt + 4
  {
    hide CString, FindAbbr;
  }

  // Few names of three letters have room.
  lemma {:induction false} RoomForFew(area: seq<char>, charcnt: int, names: seq<string>)
    requires Fits(Placing(area, charcnt, [])) && charcnt == 4 && |names| <= 2
    requires forall i :: 0 <= i < |names| ==> |names[i]| == 3
    ensures var p := PlaceAll(area, charcnt, names); AllPlaced(p) && p.charcnt <= 4 + 4 * |names|
  {
    hide PlaceOne;
    if names != [] {
      var front := names[..|names| - 1];
      RoomForFew(area, charcnt, front);
      RoomForOne(PlaceAll(area, charcnt, front), names[|names| - 1]);
    }
  }

  lemma ThreeLetterNames(s: string, text: TzText, std: string, dst: string)
    requires Gives(s, Some(text), std, dst, Across) && |std| == |dst| == 3 && ValidZone(Across)
    ensures NamesInside(s, text) && |NamesOf(s, text)| <= 2
    ensures forall i :: 0 <= i < |NamesOf(s, text)| ==> |NamesOf(s, text)[i]| == 3
  {
    hide Kept;
  }

  lemma LateUses()
    ensures Acceptable(LateBytes()) && Uses(LateBytes(), true)
  {
    hide OwnOf, FooterOf, ParseTz, LateBytes, Acceptable, PlaceAll, AllPlaced, NamesOf, FOOTER, Gives;
    var text := LateText();
    LateOwn();
    ThreeLetterNames(FOOTER, text, "XXX", "YYY");
    OwnFacts(LateBytes());
    RoomForFew(OwnOf(LateBytes()).area, 4, NamesOf(FOOTER, text));
  }

  /** The file is accepted, and its footer XXX0YYY,J365/167,J1/-167 is used. A state that
      it is loaded into is marked for folding after the table's end; a second after that,
      in the year 2420, localsub has no answer. */
  lemma LateBytesMiss(foot: seq<Transition>, stop: int, sp: State)
    requires Acceptable(LateBytes()) ==> FootOf(LateBytes(), true, foot, stop)
    requires Acceptable(LateBytes()) ==>
               var l := LoadedOf(LateBytes(), true, foot); IsLoaded(sp, l) && FoldMarked(sp, l) && Usable(sp)
    ensures Acceptable(LateBytes()) && Uses(LateBytes(), true) && sp.goahead && Usable(sp)
    ensures IsTime(14231635201) && !Lands(sp, 14231635201) && Answers(sp, 14231635201, None)
  {
    hide *;
    LateUses();
    LateOwn();
    var _ := LateText();
    LateIs();
    CycleLater();
    LateFileMisses(LateBytes(), foot, stop, sp);
  }

  lemma CycleLater()
    ensures ValidZone(Across) && First(Across, 2421).at + 1 == 14231635201
  {
    LateIs();
    ChangePeriod(Across, 2021);
  }
}
