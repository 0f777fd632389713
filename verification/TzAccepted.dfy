/** Which blocks the loader accepts: those that could be written, and no others. */
module TzAccepted {
  import opened Bytes
  import opened CivilTime
  import opened LeapSeconds
  import opened Wrappers
  import opened ZoneState
  import opened TzBytes
  import opened TzFile
  import opened TzWrite
  import opened TzWritten

  // What a well-formed block says.
  ghost function BlockIn(buf: seq<Byte>, width: nat): (d: Block)
    requires WellFormed(buf, width)
  {
    hide CountsFit, TypesAt, InfosAt, CharsAt, LeapsAt, StdsAt, UtsAt, BlockSize, TimeCnt, TypeCnt, CharCnt, LeapCnt, TtisstdCnt,
      TtisutCnt, TransitionsFit, RestFits;
    FitFacts(buf, width);
    Block(buf[..20],
          seq(TimeCnt(buf), i requires 0 <= i < TimeCnt(buf) => FileTime(buf, width, i)),
          seq(TimeCnt(buf), i requires 0 <= i < TimeCnt(buf) => FileType(buf, width, i)),
          seq(TypeCnt(buf), i requires 0 <= i < TypeCnt(buf) => KindIn(buf, width, i)),
          buf[CharsAt(buf, width)..LeapsAt(buf, width)],
          FileLeaps(buf, width),
          FlagsIn(buf, StdsAt(buf, width), TtisstdCnt(buf)), FlagsIn(buf, UtsAt(buf, width), TtisutCnt(buf)))
  }

  function KindIn(buf: seq<Byte>, width: nat, i: nat): Kind
    requires BlockFits(buf, width) && i < TypeCnt(buf)
  {
    FitFacts(buf, width);
    var p := InfosAt(buf, width) + 6 * i;
    Kind(Int32(buf, p), buf[p + 4] == 1, buf[p + 5])
  }

  function FlagsIn(buf: seq<Byte>, p: nat, n: nat): (f: Option<seq<bool>>)
    requires p + n <= |buf|
    ensures FlagCount(f) == n
  {
    if n == 0 then None else Some(seq(n, i requires 0 <= i < n => buf[p + i] == 1))
  }

  lemma {:induction false} FlatIs(parts: seq<seq<Byte>>, size: nat, s: seq<Byte>)
    requires (forall p :: p in parts ==> |p| == size) && |s| == Sizes(size, |parts|)
    requires forall i :: 0 <= i < |parts| ==> PieceIs(s, Sizes(size, i), parts[i])
    ensures Flat(parts) == s
    decreases |parts|
  {
    hide *;
    if parts == [] {
      FlatNone(size);
    } else {
      var n := |parts| - 1;
      FlatLast(parts);
      OneMore(size, n);
      var front, t := parts[..n], s[..Sizes(size, n)];
      assert parts[n] in parts;
      assert PieceIs(s, Sizes(size, n), parts[n]);
      LastPiece(s, Sizes(size, n), parts[n]);
      forall i | 0 <= i < n
        ensures PieceIs(t, Sizes(size, i), front[i])
      {
        assert PieceIs(s, Sizes(size, i), parts[i]) && parts[i] in parts;
        Within(size, i, n);
        FrontPiece(s, Sizes(size, n), Sizes(size, i), parts[i]);
      }
      FlatIs(front, size, t);
    }
  }

  // The piece is at that place.
  predicate PieceIs(s: seq<Byte>, at: nat, piece: seq<Byte>) {
    at + |piece| <= |s| && s[at..at + |piece|] == piece
  }

  lemma LastPiece(s: seq<Byte>, at: nat, piece: seq<Byte>)
    requires PieceIs(s, at, piece) && |s| == at + |piece|
    ensures s == s[..at] + piece
  {
  }

  lemma FrontPiece(s: seq<Byte>, n: nat, at: nat, piece: seq<Byte>)
    requires PieceIs(s, at, piece) && at + |piece| <= n <= |s|
    ensures PieceIs(s[..n], at, piece)
  {
  }

  // A part of the buffer made of pieces.
  lemma PartIsFlat(buf: seq<Byte>, lo: nat, hi: nat, parts: seq<seq<Byte>>, size: nat)
    requires lo <= hi <= |buf| && hi - lo == Sizes(size, |parts|) && forall p :: p in parts ==> |p| == size
    requires forall i :: 0 <= i < |parts| ==> PieceIs(buf, lo + Sizes(size, i), parts[i])
    ensures Flat(parts) == buf[lo..hi]
  {
    hide *;
    forall i | 0 <= i < |parts|
      ensures PieceIs(buf[lo..hi], Sizes(size, i), parts[i])
    {
      assert parts[i] in parts && PieceIs(buf, lo + Sizes(size, i), parts[i]);
      Within(size, i, |parts|);
      InnerPiece(buf, lo, hi, Sizes(size, i), parts[i]);
    }
    FlatIs(parts, size, buf[lo..hi]);
  }

  lemma InnerPiece(buf: seq<Byte>, lo: nat, hi: nat, at: nat, piece: seq<Byte>)
    requires lo <= hi <= |buf| && PieceIs(buf, lo + at, piece) && at + |piece| <= hi - lo
    ensures PieceIs(buf[lo..hi], at, piece)
  {
    SubSlice(buf, lo, hi, at, |piece|);
  }

  // Two pieces side by side.
  lemma JoinPieces(buf: seq<Byte>, at: nat, a: seq<Byte>, b: seq<Byte>)
    requires PieceIs(buf, at, a) && PieceIs(buf, at + |a|, b)
    ensures PieceIs(buf, at, a + b)
  {
    var p, q := at + |a|, at + |a| + |b|;
    assert buf[at..q] == buf[at..p] + buf[p..q];
  }

  // The sizes and counts of a block that fits, and where its parts are.
  lemma Fitting(buf: seq<Byte>, width: nat) returns (m: Marks)
    requires BlockFits(buf, width)
    ensures (width == 4 || width == 8) && TZHEADSIZE <= |buf|
    ensures 0 <= TimeCnt(buf) < 2000 && 0 <= TypeCnt(buf) < 256 && 0 <= CharCnt(buf) < 50 && 0 <= LeapCnt(buf) < 50
    ensures TtisstdCnt(buf) == TypeCnt(buf) || TtisstdCnt(buf) == 0
    ensures TtisutCnt(buf) == TypeCnt(buf) || TtisutCnt(buf) == 0
    ensures 44 <= m.types <= m.kinds <= m.chars <= m.leaps <= m.std <= m.ut <= m.end <= |buf| && Placed(buf, width, m)
    ensures TypesAt(buf, width) == m.types && InfosAt(buf, width) == m.kinds && CharsAt(buf, width) == m.chars
    ensures LeapsAt(buf, width) == m.leaps && StdsAt(buf, width) == m.std && UtsAt(buf, width) == m.ut
    ensures BlockSize(buf, width) == m.end
    ensures m.types - 44 == Sizes(width, TimeCnt(buf)) && m.kinds - m.types == TimeCnt(buf) && m.chars - m.kinds == Sizes(6, TypeCnt(buf))
    ensures m.leaps - m.chars == CharCnt(buf) && m.std - m.leaps == Sizes(width + 4, LeapCnt(buf))
    ensures m.ut - m.std == TtisstdCnt(buf) && m.end - m.ut == TtisutCnt(buf)
  {
    FitFacts(buf, width);
    hide BlockFits, CountsFit, TypesAt, InfosAt, CharsAt, LeapsAt, StdsAt, UtsAt, BlockSize, TimeCnt, TypeCnt, CharCnt, LeapCnt,
      TtisstdCnt, TtisutCnt, Sizes;
    m := MarksOf(width, TimeCnt(buf), TypeCnt(buf), CharCnt(buf), LeapCnt(buf), TtisstdCnt(buf), TtisutCnt(buf));
    Multiple(width, TimeCnt(buf));
    Multiple(width, TypeCnt(buf));
    Multiple(width, LeapCnt(buf));
  }

  lemma BlockParts(buf: seq<Byte>, width: nat)
    requires WellFormed(buf, width)
    ensures var d := BlockIn(buf, width);
            && BlockFits(buf, width) && d.front == buf[..20]
            && |d.times| == |d.types| == TimeCnt(buf) && |d.kinds| == TypeCnt(buf) && |d.chars| == CharCnt(buf)
            && d.leaps == FileLeaps(buf, width) && |d.leaps| == LeapCnt(buf)
            && FlagCount(d.std) == TtisstdCnt(buf) && FlagCount(d.ut) == TtisutCnt(buf)
            && (forall i :: 0 <= i < |d.times| ==> d.times[i] == FileTime(buf, width, i) && d.types[i] == FileType(buf, width, i))
            && (forall i :: 0 <= i < |d.kinds| ==> d.kinds[i] == KindIn(buf, width, i))
            && 0 <= CharsAt(buf, width) <= LeapsAt(buf, width) <= |buf| && d.chars == buf[CharsAt(buf, width)..LeapsAt(buf, width)]
  {
    FitFacts(buf, width);
    hide BlockFits, CountsFit, TypesAt, InfosAt, CharsAt, LeapsAt, StdsAt, UtsAt, BlockSize, TimeCnt, TypeCnt, CharCnt, LeapCnt,
      TtisstdCnt, TtisutCnt, FileTime, FileType, KindIn, TransitionsFit, RestFits;
  }

  lemma FlagParts(buf: seq<Byte>, width: nat)
    requires WellFormed(buf, width)
    ensures BlockFits(buf, width) && 0 <= StdsAt(buf, width) && 0 <= UtsAt(buf, width)
    ensures 0 <= TtisstdCnt(buf) && StdsAt(buf, width) + TtisstdCnt(buf) <= |buf|
    ensures 0 <= TtisutCnt(buf) && UtsAt(buf, width) + TtisutCnt(buf) <= |buf|
    ensures BlockIn(buf, width).std == FlagsIn(buf, StdsAt(buf, width), TtisstdCnt(buf))
    ensures BlockIn(buf, width).ut == FlagsIn(buf, UtsAt(buf, width), TtisutCnt(buf))
  {
    FitFacts(buf, width);
    hide BlockFits, CountsFit, TypesAt, InfosAt, CharsAt, LeapsAt, StdsAt, UtsAt, BlockSize, TimeCnt, TypeCnt, CharCnt, LeapCnt,
      TtisstdCnt, TtisutCnt, FileTime, FileType, KindIn, TransitionsFit, RestFits, FlagsIn;
  }

  // The bytes of each part are those that the block is written as.
  lemma TimesAre(buf: seq<Byte>, width: nat)
    requires WellFormed(buf, width)
    ensures BlockFits(buf, width) && 44 <= TypesAt(buf, width) <= |buf|
    ensures Flat(TimeFields(BlockIn(buf, width), width)) == buf[44..TypesAt(buf, width)]
    ensures forall i :: 0 <= i < |BlockIn(buf, width).times| ==> FitsBytes(BlockIn(buf, width).times[i], width)
  {
    hide *;
    BlockParts(buf, width);
    var d := BlockIn(buf, width);
    var m := Fitting(buf, width);
    forall i | 0 <= i < |d.times|
      ensures FitsBytes(d.times[i], width) && PieceIs(buf, 44 + Sizes(width, i), TimeFields(d, width)[i])
    {
      TimeAt(buf, width, i, m);
      Multiple(width, i);
      WideIs(i, width);
      TimeIsField(buf, 44 + Wide(i, width), width, d.times[i]);
      OneTime(d, width, i);
      PieceHere(buf, 44 + Wide(i, width), Field(d.times[i], width));
    }
    PartIsFlat(buf, 44, m.types, TimeFields(d, width), width);
  }

  lemma OneTime(d: Block, width: nat, i: nat)
    requires i < |d.times|
    ensures TimeFields(d, width)[i] == Field(d.times[i], width)
  {
    hide Field;
  }

  lemma PieceHere(buf: seq<Byte>, at: nat, piece: seq<Byte>)
    requires at + |piece| <= |buf| && buf[at..at + |piece|] == piece
    ensures PieceIs(buf, at, piece)
  {
  }

  lemma KindsAre(buf: seq<Byte>, width: nat)
    requires WellFormed(buf, width)
    ensures BlockFits(buf, width) && 0 <= InfosAt(buf, width) <= CharsAt(buf, width) <= |buf|
    ensures Flat(KindFields(BlockIn(buf, width))) == buf[InfosAt(buf, width)..CharsAt(buf, width)]
    ensures var d := BlockIn(buf, width);
            forall i :: 0 <= i < |d.kinds| ==> FitsBytes(d.kinds[i].utoff, 4) && d.kinds[i].desigidx < |d.chars|
  {
    hide *;
    BlockParts(buf, width);
    var d := BlockIn(buf, width);
    var m := Fitting(buf, width);
    forall i | 0 <= i < |d.kinds|
      ensures FitsBytes(d.kinds[i].utoff, 4) && d.kinds[i].desigidx < |d.chars|
      ensures PieceIs(buf, m.kinds + Sizes(6, i), KindFields(d)[i])
    {
      KindAt(buf, width, i);
      Multiple(width, i);
      var p := m.kinds + 6 * i;
      IntIsField(buf, p, d.kinds[i].utoff);
      OneKind(d, i);
      PieceHere(buf, p, Field(d.kinds[i].utoff, 4));
      PieceHere(buf, p + 4, [if d.kinds[i].isdst then 1 else 0, d.kinds[i].desigidx]);
      JoinPieces(buf, p, Field(d.kinds[i].utoff, 4), [if d.kinds[i].isdst then 1 else 0, d.kinds[i].desigidx]);
    }
    PartIsFlat(buf, m.kinds, m.chars, KindFields(d), 6);
  }

  lemma OneKind(d: Block, i: nat)
    requires i < |d.kinds|
    ensures KindFields(d)[i] == Field(d.kinds[i].utoff, 4) + [if d.kinds[i].isdst then 1 else 0, d.kinds[i].desigidx]
  {
    hide Field;
  }

  lemma KindAt(buf: seq<Byte>, width: nat, i: nat)
    requires WellFormed(buf, width) && i < TypeCnt(buf)
    ensures BlockFits(buf, width) && 0 <= InfosAt(buf, width)
    ensures var (p, k) := (InfosAt(buf, width) + 6 * i, KindIn(buf, width, i));
            && p + 6 <= |buf| && Int32(buf, p) == k.utoff
            && buf[p + 4..p + 6] == [if k.isdst then 1 else 0, k.desigidx] && k.desigidx < CharCnt(buf)
  {
    FitFacts(buf, width);
    hide BlockFits, CountsFit, TypesAt, InfosAt, CharsAt, LeapsAt, StdsAt, UtsAt, BlockSize, TimeCnt, TypeCnt, CharCnt, LeapCnt,
      TtisstdCnt, TtisutCnt, Int32, TransitionsFit, FlagsFit, Accepted, FileLeaps;
    assert InfoFits(buf, width, i);
  }

  lemma LeapsAre(buf: seq<Byte>, width: nat)
    requires WellFormed(buf, width)
    ensures BlockFits(buf, width) && 0 <= LeapsAt(buf, width) <= StdsAt(buf, width) <= |buf|
    ensures Flat(LeapFields(BlockIn(buf, width), width)) == buf[LeapsAt(buf, width)..StdsAt(buf, width)]
    ensures var d := BlockIn(buf, width);
            forall i :: 0 <= i < |d.leaps| ==> FitsBytes(d.leaps[i].trans, width) && FitsBytes(d.leaps[i].corr, 4)
  {
    hide *;
    BlockParts(buf, width);
    var d := BlockIn(buf, width);
    var m := Fitting(buf, width);
    LeapsOf(buf, width);
    forall i | 0 <= i < |d.leaps|
      ensures FitsBytes(d.leaps[i].trans, width) && FitsBytes(d.leaps[i].corr, 4)
      ensures PieceIs(buf, m.leaps + Sizes(width + 4, i), LeapFields(d, width)[i])
    {
      LeapIs(buf, width, i, m);
      Multiple(width, i);
      var p := m.leaps + Wide(i, width) + 4 * i;
      TimeIsField(buf, p, width, d.leaps[i].trans);
      IntIsField(buf, p + width, d.leaps[i].corr);
      OneLeap(d, width, i);
      PieceHere(buf, p, Field(d.leaps[i].trans, width));
      PieceHere(buf, p + width, Field(d.leaps[i].corr, 4));
      JoinPieces(buf, p, Field(d.leaps[i].trans, width), Field(d.leaps[i].corr, 4));
    }
    PartIsFlat(buf, m.leaps, m.std, LeapFields(d, width), width + 4);
  }

  lemma OneLeap(d: Block, width: nat, i: nat)
    requires i < |d.leaps|
    ensures LeapFields(d, width)[i] == Field(d.leaps[i].trans, width) + Field(d.leaps[i].corr, 4)
  {
    hide Field;
  }

  lemma FlagsAre(buf: seq<Byte>, p: nat, n: nat)
    requires p + n <= |buf| && FlagsFit(buf, p, n, n != 0)
    ensures Flags(FlagsIn(buf, p, n)) == buf[p..p + n]
  {
    var f, b := Flags(FlagsIn(buf, p, n)), buf[p..p + n];
    forall i | 0 <= i < n
      ensures f[i] == b[i]
    {
      assert buf[p + i] < 2;
    }
  }

  // The flags of a block that is accepted.
  lemma FlagsFitting(buf: seq<Byte>, width: nat)
    requires WellFormed(buf, width)
    ensures BlockFits(buf, width) && 0 <= StdsAt(buf, width) <= UtsAt(buf, width) <= BlockSize(buf, width) <= |buf|
    ensures var d := BlockIn(buf, width);
            && Flags(d.std) == buf[StdsAt(buf, width)..UtsAt(buf, width)] && Flags(d.ut) == buf[UtsAt(buf, width)..BlockSize(buf, width)]
            && FlagsFor(d.std, |d.kinds|) && FlagsFor(d.ut, |d.kinds|)
  {
    hide *;
    BlockParts(buf, width);
    FlagParts(buf, width);
    var m := Fitting(buf, width);
    WellFormedIs(buf, width);
    SameFit(buf, m.std, TypeCnt(buf), TtisstdCnt(buf));
    SameFit(buf, m.ut, TypeCnt(buf), TtisutCnt(buf));
    FlagsAre(buf, m.std, TtisstdCnt(buf));
    FlagsAre(buf, m.ut, TtisutCnt(buf));
    FlagsForIn(buf, m.std, TtisstdCnt(buf), TypeCnt(buf));
    FlagsForIn(buf, m.ut, TtisutCnt(buf), TypeCnt(buf));
  }

  lemma SameFit(buf: seq<Byte>, p: nat, n: nat, count: nat)
    requires (count == n || count == 0) && p + count <= |buf|
    requires count != 0 ==> p + n <= |buf|
    requires FlagsFit(buf, p, n, count != 0)
    ensures FlagsFit(buf, p, count, count != 0)
  {
  }

  lemma FlagsForIn(buf: seq<Byte>, p: nat, count: nat, n: nat)
    requires (count == n || count == 0) && p + count <= |buf|
    ensures FlagsFor(FlagsIn(buf, p, count), n)
  {
  }

  lemma HeaderIs(buf: seq<Byte>, width: nat)
    requires WellFormed(buf, width)
    ensures 44 <= |buf| && Header(BlockIn(buf, width)) == buf[..44]
  {
    hide *;
    BlockParts(buf, width);
    var d := BlockIn(buf, width);
    var m := Fitting(buf, width);
    HeadNumbers(buf);
    IntIsField(buf, 20, FlagCount(d.ut));
    IntIsField(buf, 24, FlagCount(d.std));
    IntIsField(buf, 28, |d.leaps|);
    IntIsField(buf, 32, |d.times|);
    IntIsField(buf, 36, |d.kinds|);
    IntIsField(buf, 40, |d.chars|);
    HeadBytes(buf, d);
  }

  lemma HeadNumbers(buf: seq<Byte>)
    requires 44 <= |buf|
    ensures TtisutCnt(buf) == Int32(buf, 20) && TtisstdCnt(buf) == Int32(buf, 24) && LeapCnt(buf) == Int32(buf, 28)
    ensures TimeCnt(buf) == Int32(buf, 32) && TypeCnt(buf) == Int32(buf, 36) && CharCnt(buf) == Int32(buf, 40)
  {
    hide Int32;
  }

  lemma HeadBytes(buf: seq<Byte>, d: Block)
    requires 44 <= |buf| && d.front == buf[..20]
    requires buf[20..24] == Field(FlagCount(d.ut), 4) && buf[24..28] == Field(FlagCount(d.std), 4)
    requires buf[28..32] == Field(|d.leaps|, 4) && buf[32..36] == Field(|d.times|, 4)
    requires buf[36..40] == Field(|d.kinds|, 4) && buf[40..44] == Field(|d.chars|, 4)
    ensures Header(d) == buf[..44]
  {
    hide Field, FlagCount;
    assert buf[..44] == buf[..20] + (buf[20..24] + buf[24..28] + buf[28..32] + buf[32..36] + buf[36..40] + buf[40..44]);
  }

  lemma {:induction false} InOrderFrom(s: seq<Transition>, i: nat, j: nat)
    requires Ascends(s) && i <= j < |s|
    ensures s[i].at <= s[j].at
    decreases j - i
  {
    if i < j {
      InOrderFrom(s, i, j - 1);
    }
  }

  lemma TimesInOrder(buf: seq<Byte>, width: nat)
    requires WellFormed(buf, width)
    ensures var d := BlockIn(buf, width);
            && (forall i, j :: 0 <= i < j < |d.times| ==> d.times[i] <= d.times[j])
            && forall i :: 0 <= i < |d.types| ==> d.types[i] < |d.kinds|
  {
    hide *;
    BlockParts(buf, width);
    WellFormedIs(buf, width);
    var m := Fitting(buf, width);
    var d, s := BlockIn(buf, width), FileTransitions(buf, width);
    EntriesAre(buf, width);
    BelowIs(s, TypeCnt(buf));
    forall i, j | 0 <= i < j < |d.times|
      ensures d.times[i] <= d.times[j]
    {
      InOrderFrom(s, i, j);
    }
  }

  lemma BelowIs(s: seq<Transition>, n: int)
    requires TypesBelow(s, n)
    ensures forall i :: 0 <= i < |s| ==> s[i].ty < n
  {
  }

  lemma EntriesAre(buf: seq<Byte>, width: nat)
    requires BlockFits(buf, width)
    ensures |FileTransitions(buf, width)| == TimeCnt(buf)
    ensures forall i :: 0 <= i < TimeCnt(buf) ==>
              FileTransitions(buf, width)[i] == Transition(FileTime(buf, width, i), FileType(buf, width, i))
  {
    hide FileTime, FileType, BlockFits, TimeCnt;
  }

  lemma GoodIn(buf: seq<Byte>, width: nat)
    requires WellFormed(buf, width)
    ensures Good(BlockIn(buf, width), width)
  {
    hide *;
    BlockParts(buf, width);
    var d := BlockIn(buf, width);
    var m := Fitting(buf, width);
    FlagsFitting(buf, width);
    TimesAre(buf, width);
    KindsAre(buf, width);
    LeapsAre(buf, width);
    TimesInOrder(buf, width);
    WellFormedIs(buf, width);
    forall i | 0 <= i < |d.leaps|
      ensures GoodLeap(d.leaps, i, width)
    {
      LeapFollows(d.leaps, i, width);
    }
    GoodIs(d, width);
  }

  lemma LeapFollows(leaps: seq<LeapInfo>, i: nat, width: nat)
    requires i < |leaps| && Accepted(leaps) && FitsBytes(leaps[i].trans, width) && FitsBytes(leaps[i].corr, 4)
    ensures GoodLeap(leaps, i, width)
  {
    hide FitsBytes;
    assert Follows(leaps, i);
  }

  lemma GoodIs(d: Block, width: nat)
    requires (width == 4 || width == 8) && |d.front| == 20
    requires |d.times| == |d.types| < 2000 && |d.kinds| < 256 && |d.chars| < 50 && |d.leaps| < 50
    requires FlagsFor(d.std, |d.kinds|) && FlagsFor(d.ut, |d.kinds|)
    requires forall i :: 0 <= i < |d.times| ==> FitsBytes(d.times[i], width)
    requires forall i :: 0 <= i < |d.types| ==> d.types[i] < |d.kinds|
    requires forall i, j :: 0 <= i < j < |d.times| ==> d.times[i] <= d.times[j]
    requires forall i :: 0 <= i < |d.kinds| ==> FitsBytes(d.kinds[i].utoff, 4) && d.kinds[i].desigidx < |d.chars|
    requires forall i :: 0 <= i < |d.leaps| ==> GoodLeap(d.leaps, i, width)
    ensures Good(d, width)
  {
    hide FitsBytes, FlagsFor, GoodLeap;
  }

  /** The loader accepts exactly the blocks that can be written: a buffer is a well-formed
      block if and only if it begins with a good one. */
  lemma AcceptedIffWritten(buf: seq<Byte>, width: nat)
    ensures WellFormed(buf, width) <==> exists d :: Good(d, width) && Written(d, width) <= buf
  {
    hide *;
    if WellFormed(buf, width) {
      GoodIn(buf, width);
      AllWritten(buf, width);
    }
    if d :| Good(d, width) && Written(d, width) <= buf {
      WrittenIsWellFormed(buf, d, width);
    }
  }

  lemma AllWritten(buf: seq<Byte>, width: nat)
    requires WellFormed(buf, width)
    ensures Written(BlockIn(buf, width), width) <= buf
  {
    hide *;
    BlockParts(buf, width);
    var d := BlockIn(buf, width);
    var m := Fitting(buf, width);
    HeaderIs(buf, width);
    FlagsFitting(buf, width);
    TimesAre(buf, width);
    KindsAre(buf, width);
    LeapsAre(buf, width);
    TypesAre(buf, width, m);
    WrittenIs(d, width);
    SlicesJoin(buf, m);
    WholePrefix(buf, m.end);
  }

  lemma TypesAre(buf: seq<Byte>, width: nat, m: Marks)
    requires WellFormed(buf, width) && 44 <= |buf| && Placed(buf, width, m) && 0 <= m.types && m.types + TimeCnt(buf) == m.kinds <= |buf|
    ensures BlockIn(buf, width).types == buf[m.types..m.kinds]
  {
    BlockParts(buf, width);
    hide WellFormed, BlockFits, CountsFit, TypesAt, InfosAt, CharsAt, LeapsAt, StdsAt, UtsAt, BlockSize, TimeCnt, TypeCnt, CharCnt,
      LeapCnt, TtisstdCnt, TtisutCnt, FileTime, BlockIn;
    var d := BlockIn(buf, width);
    forall i | 0 <= i < |d.types|
      ensures d.types[i] == buf[m.types..m.kinds][i]
    {
      assert d.types[i] == FileType(buf, width, i) && d.times[i] == FileTime(buf, width, i);
      SliceAt(buf, m.types, m.kinds, i);
    }
  }

  lemma SlicesJoin(buf: seq<Byte>, m: Marks)
    requires 44 <= m.types <= m.kinds <= m.chars <= m.leaps <= m.std <= m.ut <= m.end <= |buf|
    ensures buf[..44] + buf[44..m.types] + buf[m.types..m.kinds] + buf[m.kinds..m.chars] + buf[m.chars..m.leaps]
            + buf[m.leaps..m.std] + buf[m.std..m.ut] + buf[m.ut..m.end] == buf[..m.end]
  {
    assert buf[..44] + buf[44..m.types] == buf[..m.types];
    assert buf[..m.types] + buf[m.types..m.kinds] == buf[..m.kinds];
    assert buf[..m.kinds] + buf[m.kinds..m.chars] == buf[..m.chars];
    assert buf[..m.chars] + buf[m.chars..m.leaps] == buf[..m.leaps];
    assert buf[..m.leaps] + buf[m.leaps..m.std] == buf[..m.std];
    assert buf[..m.std] + buf[m.std..m.ut] == buf[..m.ut];
    assert buf[..m.ut] + buf[m.ut..m.end] == buf[..m.end];
  }

  lemma WholePrefix(buf: seq<Byte>, n: nat)
    requires n <= |buf|
    ensures buf[..n] <= buf
  {
  }
}
