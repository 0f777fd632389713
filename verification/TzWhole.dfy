/** Whole TZif files, written field by field and loaded: the state says what was written, and
    so do the clocks that localsub shows from it. */
module TzWhole {
  import opened Bytes
  import opened CivilTime
  import opened Wrappers
  import opened ZoneState
  import opened LocalTime
  import opened PosixTime
  import opened TzString
  import opened TzBytes
  import opened TzFile
  import opened TzFooter
  import opened TzLoaded
  import opened TzWrite
  import opened TzWritten
  import opened TzAccepted

  /** A file of version 1: one block, with times of four bytes. */
  function FileOne(d: Block, rest: seq<Byte>): seq<Byte> {
    Written(d, 4) + rest
  }

  /** A file of a later version: a block with times of four bytes, one with times of eight,
      which counts, and a footer. */
  function FileTwo(first: Block, d: Block, rest: seq<Byte>): seq<Byte> {
    Written(first, 4) + (Written(d, 8) + rest)
  }

  ghost predicate GoodOne(d: Block) {
    Good(d, 4) && d.front[4] == 0
  }

  ghost predicate GoodFirst(d: Block) {
    Good(d, 4) && d.front[4] != 0
  }

  ghost predicate GoodTwo(first: Block, d: Block) {
    GoodFirst(first) && Good(d, 8) && d.front[4] != 0
  }

  lemma Cut(a: seq<Byte>, b: seq<Byte>)
    ensures a <= a + b && (a + b)[|a|..] == b
  {
  }

  lemma OneIsAccepted(d: Block, rest: seq<Byte>)
    requires GoodOne(d)
    ensures var file := FileOne(d, rest);
            Acceptable(file) && BlockOf(file) == file && WidthOf(file) == 4 && LeftOf(file) == file
  {
    hide Good, Written, WellFormed, BlockSize;
    Cut(Written(d, 4), rest);
    WrittenIsWellFormed(FileOne(d, rest), d, 4);
    WrittenLong(FileOne(d, rest), 4);
  }

  lemma WrittenLong(buf: seq<Byte>, width: int)
    requires WellFormed(buf, width)
    ensures 44 <= |buf|
  {
    hide TransitionsFit, RestFits, CountsFit, BlockSize;
  }

  lemma TwoIsAccepted(first: Block, d: Block, rest: seq<Byte>)
    requires GoodTwo(first, d)
    ensures var file := FileTwo(first, d, rest);
            && Acceptable(file) && BlockOf(file) == Written(d, 8) + rest && WidthOf(file) == 8 && LeftOf(file) == rest
  {
    hide Good, Written, WellFormed, BlockSize;
    var file, block := FileTwo(first, d, rest), Written(d, 8) + rest;
    Cut(Written(first, 4), block);
    Cut(Written(d, 8), rest);
    WrittenIsWellFormed(file, first, 4);
    WrittenIsWellFormed(block, d, 8);
    WrittenLong(file, 4);
    WrittenLong(block, 8);
  }

  // What a block loads as.
  ghost predicate SaysBlock(own: Loaded, d: Block) {
    && |d.times| == |d.types| && FlagsFor(d.std, |d.kinds|) && FlagsFor(d.ut, |d.kinds|)
    && own.table == Compact(SaidTransitions(d)) && |own.infos| == |d.kinds|
    && (forall i :: 0 <= i < |d.kinds| ==> own.infos[i] == SaidInfo(d, i))
    && own.area == SaidChars(d) + ['\0'] && own.charcnt == |d.chars| && own.leaps == d.leaps
  }

  /** What is loaded of a file is what its last block says: each type with its offset, kind,
      name and flags, the characters, the leap seconds, and the transitions, the later of two
      at one time counting. */
  lemma LoadsWhatIsWritten(file: seq<Byte>, d: Block, width: nat)
    requires Acceptable(file) && Good(d, width) && WidthOf(file) == width && Written(d, width) <= BlockOf(file)
    ensures SaysBlock(OwnOf(file), d)
  {
    hide *;
    var buf := BlockOf(file);
    GoodSizes(d, width);
    TransitionsRead(buf, d, width);
    CharsRead(buf, d, width);
    LeapsReadBack(buf, d, width);
    WrittenIsWellFormed(buf, d, width);
    PartsOf(buf, d, width);
    CountsRead(buf, d, width);
    OwnParts(file);
    forall i | 0 <= i < |d.kinds|
      ensures OwnOf(file).infos[i] == SaidInfo(d, i)
    {
      InfoRead(buf, d, width, i);
    }
    SaysIs(OwnOf(file), d);
  }

  lemma OwnParts(file: seq<Byte>)
    requires Acceptable(file)
    ensures var (own, buf, width) := (OwnOf(file), BlockOf(file), WidthOf(file));
            && BlockFits(buf, width) && own.table == Compact(FileTransitions(buf, width)) && |own.infos| == TypeCnt(buf)
            && (forall i :: 0 <= i < TypeCnt(buf) ==> own.infos[i] == FileInfo(buf, width, i))
            && own.area == FileChars(buf, width) + ['\0'] && own.charcnt == CharCnt(buf) && own.leaps == FileLeaps(buf, width)
  {
    hide Compact, FileTransitions, FileInfo, FileChars, FileLeaps, Rest, BlockSize, CountsFit, TransitionsFit, RestFits, CharCnt, TypeCnt;
    FitFacts(BlockOf(file), WidthOf(file));
  }

  lemma SaysIs(own: Loaded, d: Block)
    requires |d.times| == |d.types| && FlagsFor(d.std, |d.kinds|) && FlagsFor(d.ut, |d.kinds|)
    requires own.table == Compact(SaidTransitions(d)) && |own.infos| == |d.kinds|
    requires forall i :: 0 <= i < |d.kinds| ==> own.infos[i] == SaidInfo(d, i)
    requires own.area == SaidChars(d) + ['\0'] && own.charcnt == |d.chars| && own.leaps == d.leaps
    ensures SaysBlock(own, d)
  {
    hide Compact, SaidTransitions, SaidInfo, SaidChars, FlagsFor;
  }

  /** The files accepted are those that can be written so, whatever follows the last block. */
  lemma AcceptableIffWritten(file: seq<Byte>)
    ensures Acceptable(file) <==>
              || (exists d, rest :: GoodOne(d) && file == FileOne(d, rest))
              || (exists first, d, rest :: GoodFirst(first) && Good(d, 8) && file == FileTwo(first, d, rest))
  {
    hide Good, Written, WellFormed, BlockSize;
    AcceptedIffWritten(file, 4);
    if Acceptable(file) {
      var d :| Good(d, 4) && Written(d, 4) <= file;
      SplitFile(file, d, 4);
      if file[4] == 0 {
        assert GoodOne(d) && file == FileOne(d, file[|Written(d, 4)|..]);
      } else {
        AcceptedIffWritten(Rest(file, 4), 8);
        var e :| Good(e, 8) && Written(e, 8) <= Rest(file, 4);
        SplitFile(Rest(file, 4), e, 8);
        assert file == FileTwo(d, e, Rest(file, 4)[|Written(e, 8)|..]);
      }
    }
    if d, rest :| GoodOne(d) && file == FileOne(d, rest) {
      OneIsAccepted(d, rest);
    }
    if first, d, rest :| GoodFirst(first) && Good(d, 8) && file == FileTwo(first, d, rest) {
      TwoAccepted(first, d, rest);
    }
  }

  lemma SplitFile(buf: seq<Byte>, d: Block, width: nat)
    requires Good(d, width) && Written(d, width) <= buf
    ensures WellFormed(buf, width) && buf[4] == d.front[4] && |buf| > 4
    ensures buf == Written(d, width) + buf[|Written(d, width)|..] && (width == 4 ==> Rest(buf, 4) == buf[|Written(d, width)|..])
  {
    hide Good, Written, WellFormed, BlockSize;
    WrittenIsWellFormed(buf, d, width);
    WrittenLong(buf, width);
  }

  lemma TwoAccepted(first: Block, d: Block, rest: seq<Byte>)
    requires GoodFirst(first) && Good(d, 8)
    ensures Acceptable(FileTwo(first, d, rest))
  {
    hide Good, Written, WellFormed, BlockSize;
    var file, block := FileTwo(first, d, rest), Written(d, 8) + rest;
    Cut(Written(first, 4), block);
    Cut(Written(d, 8), rest);
    WrittenIsWellFormed(file, first, 4);
    WrittenIsWellFormed(block, d, 8);
    WrittenLong(file, 4);
  }

  // Letters as bytes.
  function Text(s: string): (b: seq<Byte>)
    ensures |b| == |s|
  {
    seq(|s|, i requires 0 <= i < |s| => s[i] as int % 256)
  }

  lemma {:induction false} TextRead(s: string, i: nat)
    requires i <= |s| && forall k :: 0 <= k < |s| ==> '\0' < s[k] < 256 as char
    ensures FooterText(Text(s)[i..]) == s[i..]
    decreases |s| - i
  {
    if i < |s| {
      TextRead(s, i + 1);
      assert Text(s)[i..][1..] == Text(s)[i + 1..] && Text(s)[i..][0] == s[i] as int % 256;
    }
  }

  /** A footer written between newlines is read, if tzparse takes it and there is room for
      two more types; and not otherwise. */
  lemma FooterIsRead(file: seq<Byte>, source: string)
    requires Acceptable(file) && LeftOf(file) == [10] + Text(source) + [10]
    requires source != "" && forall k :: 0 <= k < |source| ==> '\0' < source[k] < 256 as char
    ensures TZHEADSIZE <= |BlockOf(file)|
    ensures FooterOf(file) == if TypeCnt(BlockOf(file)) <= 254 && ParseTz(source).Some? then Some(Footer(source, ParseTz(source).value)) else None
  {
    hide ParseTz, BlockOf, WidthOf, LeftOf, Acceptable, TypeCnt, FooterText, Text, WellFormed;
    BlockFacts(file);
    WrittenLong(BlockOf(file), WidthOf(file));
    TextRead(source, 0);
    var left, t := LeftOf(file), Text(source);
    assert left[1..|left| - 1] == t[0..] && source[0..] == source;
  }

  // The i-th transition written is the last one not after t.
  predicate LastWritten(d: Block, t: int, i: nat) {
    && i < |d.times| == |d.types| && d.times[i] <= t && (i + 1 < |d.times| ==> t < d.times[i + 1])
    && d.types[i] < |d.kinds|
  }

  /** From a file without leap seconds, of which no footer is used, localsub shows at t what
      was written: the clock under the offset of the type that the last transition not after
      t begins, its kind, and its name. This is up to the last transition, and after it if
      the table does not repeat. */
  lemma WrittenIsShown(file: seq<Byte>, d: Block, width: nat, sp: State, t: int, i: nat, r: Option<Local>)
    requires Acceptable(file) && Good(d, width) && WidthOf(file) == width && Written(d, width) <= BlockOf(file) && d.leaps == []
    requires IsLoaded(sp, OwnOf(file)) && Usable(sp) && Answers(sp, t, r) && r.Some?
    requires LastWritten(d, t, i) && (t <= d.times[|d.times| - 1] || !sp.goahead)
    ensures var k := d.kinds[d.types[i]];
            && PosixSeconds(r.value.tm) == t + k.utoff && r.value.tm.gmtoff == k.utoff && r.value.tm.isdst == k.isdst
            && r.value.zone == k.desigidx && k.desigidx < |d.chars| && sp.chars[..|d.chars|] == SaidChars(d)
  {
    hide *;
    LoadsWhatIsWritten(file, d, width);
    LoadedSays(sp, OwnOf(file), d, width);
    GoodSizes(d, width);
    TimesAscend(d, width);
    TableFinds(sp, OwnOf(file), d, t, i);
    LocalIsPosix(sp, t, r);
    ShowsTypeAt(sp, t, r);
    KindInside(d, width, t, i);
  }

  lemma KindInside(d: Block, width: nat, t: int, i: nat)
    requires Good(d, width) && LastWritten(d, t, i)
    ensures i < |d.types| && d.types[i] < |d.kinds| && d.kinds[d.types[i]].desigidx < |d.chars|
  {
    hide FitsBytes, GoodLeap;
  }

  lemma ShowsTypeAt(sp: State, t: int, r: Option<Local>)
    requires Usable(sp) && Answers(sp, t, r) && r.Some? && Folds(sp, t) == 0
    ensures 0 <= TypeAt(sp, t) < sp.ttis.Length && r.value.tm.gmtoff == sp.ttis[TypeAt(sp, t)].utoff
    ensures r.value.tm.isdst == sp.ttis[TypeAt(sp, t)].isdst && r.value.zone == sp.ttis[TypeAt(sp, t)].desigidx
  {
    hide Folds, Lands, Searched, Shows, OutOfRange;
    TypeExists(sp, t);
    AnswerOf(sp, t, r);
  }

  lemma TimesAscend(d: Block, width: nat)
    requires Good(d, width)
    ensures |SaidTransitions(d)| == |d.times| == |d.types| && Ascends(SaidTransitions(d)) && NonDecreasing(SaidTransitions(d))
    ensures forall i :: 0 <= i < |d.times| ==> SaidTransitions(d)[i] == Transition(d.times[i], d.types[i])
  {
    hide FitsBytes, GoodLeap;
  }

  lemma LoadedSays(sp: State, own: Loaded, d: Block, width: nat)
    requires IsLoaded(sp, own) && SaysBlock(own, d)
    ensures sp.Shaped() && sp.Transitions() == Compact(SaidTransitions(d)) && sp.typecnt == |d.kinds| && sp.leapcnt == |d.leaps|
    ensures forall i :: 0 <= i < |d.kinds| ==>
              i < sp.ttis.Length && sp.ttis[i].utoff == d.kinds[i].utoff && sp.ttis[i].isdst == d.kinds[i].isdst
              && sp.ttis[i].desigidx == d.kinds[i].desigidx
    ensures |d.chars| <= sp.chars.Length && sp.chars[..|d.chars|] == SaidChars(d)
  {
    hide Compact, SaidTransitions, FlagsFor;
    assert forall i :: 0 <= i < sp.typecnt ==> sp.ttis[i] == sp.Infos()[i];
    assert |sp.Leaps()| == sp.leapcnt;
    var area := own.area;
    assert sp.chars[..|area|][..|d.chars|] == area[..|d.chars|] == SaidChars(d);
  }

  // The search finds the type of the last transition written that is not after t.
  lemma TableFinds(sp: State, own: Loaded, d: Block, t: int, i: nat)
    requires |d.times| == |d.types| && Usable(sp) && sp.Shaped() && sp.Transitions() == Compact(SaidTransitions(d))
    requires |SaidTransitions(d)| == |d.times| == |d.types| && Ascends(SaidTransitions(d)) && NonDecreasing(SaidTransitions(d))
    requires forall i :: 0 <= i < |d.times| ==> SaidTransitions(d)[i] == Transition(d.times[i], d.types[i])
    requires LastWritten(d, t, i) && (t <= d.times[|d.times| - 1] || !sp.goahead)
    ensures Folds(sp, t) == 0 && TypeAt(sp, t) == d.types[i]
  {
    hide Compact, Pick, Searched, SaidTransitions;
    var s, c := SaidTransitions(d), Compact(SaidTransitions(d));
    CompactPicks(s, sp.defaulttype, t);
    PickAt(s, sp.defaulttype, t, i);
    CompactIncreasing(s);
    CompactEnds(s);
    SearchedIsPick(c, sp.defaulttype, t);
    assert s[0].at <= s[i].at;
  }

  // What is kept begins no later, and ends with the same.
  lemma CompactEnds(s: seq<Transition>)
    requires s != [] && NonDecreasing(s)
    ensures var c := Compact(s); c != [] && c[0].at <= s[0].at && c[|c| - 1] == s[|s| - 1]
  {
    SupersededFirst(s, |s| - 1);
  }

  lemma {:induction false} SupersededFirst(s: seq<Transition>, n: nat)
    requires n < |s| && NonDecreasing(s)
    ensures (Superseded(s, n) + [s[n]])[0].at <= s[0].at
  {
    if n > 0 {
      SupersededFirst(s, n - 1);
      var f := Superseded(s, n - 1);
      if s[n - 1].at < s[n].at {
        assert (f + [s[n - 1]] + [s[n]])[0] == (f + [s[n - 1]])[0];
      } else {
        assert Superseded(s, n) == f;
        assert f != [] ==> (f + [s[n]])[0] == (f + [s[n - 1]])[0];
      }
    }
  }
}
