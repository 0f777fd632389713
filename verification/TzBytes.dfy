/** The layout of a TZif block (RFC 8536, sections 3.1 and 3.2) as tzloadbody1
    reads it: a header of counts, then tables of the sizes those counts give. */
module TzBytes {
  import opened Bytes
  import opened CArith
  import opened CivilTime
  import opened LeapSeconds
  import opened ZoneState

  const TZHEADSIZE := 44

  function BigEndian(b: seq<Byte>): nat {
    if b == [] then 0 else 256 * BigEndian(b[..|b| - 1]) + b[|b| - 1]
  }

  // A two's-complement number whose sign bit weighs -signWeight.
  function TwosComplement(b: seq<Byte>, signWeight: int): int
    requires b != []
  {
    BigEndian([b[0] % 128] + b[1..]) - if b[0] >= 128 then signWeight else 0
  }

  function Int32(buf: seq<Byte>, i: nat): int
    requires i + 4 <= |buf|
  {
    TwosComplement(buf[i..i + 4], 0x8000_0000)
  }

  function Int64(buf: seq<Byte>, i: nat): int
    requires i + 8 <= |buf|
  {
    TwosComplement(buf[i..i + 8], 0x8000_0000_0000_0000)
  }

  lemma {:induction false} BigEndianBound(b: seq<Byte>)
    ensures |b| == 4 ==> BigEndian(b) <= 0x100_0000 * (b[0] as int) + 0xff_ffff
    ensures |b| == 8 ==> BigEndian(b) <= 0x100_0000_0000_0000 * (b[0] as int) + 0xff_ffff_ffff_ffff
  {
    if |b| == 4 {
      Unfold4(b);
    } else if |b| == 8 {
      Unfold4(b[..4]);
      assert b[..7][..6] == b[..6] && b[..6][..5] == b[..5] && b[..5][..4] == b[..4];
      assert BigEndian(b[..5]) == 256 * BigEndian(b[..4]) + b[4];
      assert BigEndian(b[..6]) == 256 * BigEndian(b[..5]) + b[5];
      assert BigEndian(b[..7]) == 256 * BigEndian(b[..6]) + b[6];
    }
  }

  lemma Unfold4(b: seq<Byte>)
    requires |b| == 4
    ensures BigEndian(b) == 0x100_0000 * (b[0] as int) + 0x1_0000 * (b[1] as int) + 0x100 * (b[2] as int) + b[3]
  {
    assert b[..3][..2] == b[..2] && b[..2][..1] == b[..1] && b[..1][..0] == [];
    assert BigEndian(b[..1]) == b[0];
    assert BigEndian(b[..2]) == 256 * BigEndian(b[..1]) + b[1];
    assert BigEndian(b[..3]) == 256 * BigEndian(b[..2]) + b[2];
  }

  lemma Int32Range(buf: seq<Byte>, i: nat)
    requires i + 4 <= |buf|
    ensures IsInt(Int32(buf, i))
  {
    var b := buf[i..i + 4];
    BigEndianBound([b[0] % 128] + b[1..]);
  }

  lemma Int64Range(buf: seq<Byte>, i: nat)
    requires i + 8 <= |buf|
    ensures IsTime(Int64(buf, i))
  {
    var b := buf[i..i + 8];
    BigEndianBound([b[0] % 128] + b[1..]);
  }

  /** Source/tzdb.h:677-699. */
  method Detzcode(buf: seq<Byte>, codep: nat) returns (result: int)
    requires codep + 4 <= |buf|
    ensures result == Int32(buf, codep) && IsInt(result)
  {
    ghost var b := buf[codep..codep + 4];
    ghost var positive := [b[0] % 128] + b[1..];
    result := buf[codep] % 128;
    var i := 1;
    assert positive[..1] == [b[0] % 128];
    while i < 4
      invariant 1 <= i <= 4
      invariant result == BigEndian(positive[..i])
    {
      assert positive[..i + 1][..i] == positive[..i] && positive[i] == buf[codep + i];
      result := result * 256 + buf[codep + i];
      i := i + 1;
    }
    assert positive[..4] == positive;
    if buf[codep] >= 128 {
      result := result + INT_MIN;
    }
    Int32Range(buf, codep);
  }

  /** Source/tzdb.h:701-723. */
  method Detzcode64(buf: seq<Byte>, codep: nat) returns (result: int)
    requires codep + 8 <= |buf|
    ensures result == Int64(buf, codep) && IsTime(result)
  {
    ghost var b := buf[codep..codep + 8];
    ghost var positive := [b[0] % 128] + b[1..];
    result := buf[codep] % 128;
    var i := 1;
    assert positive[..1] == [b[0] % 128];
    while i < 8
      invariant 1 <= i <= 8
      invariant result == BigEndian(positive[..i])
    {
      assert positive[..i + 1][..i] == positive[..i] && positive[i] == buf[codep + i];
      result := result * 256 + buf[codep + i];
      i := i + 1;
    }
    assert positive[..8] == positive;
    if buf[codep] >= 128 {
      result := result + TIME_T_MIN;
    }
    Int64Range(buf, codep);
  }

  // Widths of stored times: 4 bytes in the first block, 8 in the second.
  predicate Width(stored: int) {
    stored == 4 || stored == 8
  }

  function Wide(n: int, stored: int): int {
    if stored == 4 then 4 * n else 8 * n
  }

  function Time(buf: seq<Byte>, i: nat, stored: int): int
    requires Width(stored) && i + stored <= |buf|
  {
    if stored == 4 then Int32(buf, i) else Int64(buf, i)
  }

  // Header counts.
  function TtisutCnt(buf: seq<Byte>): int requires TZHEADSIZE <= |buf| { Int32(buf, 20) }
  function TtisstdCnt(buf: seq<Byte>): int requires TZHEADSIZE <= |buf| { Int32(buf, 24) }
  function LeapCnt(buf: seq<Byte>): int requires TZHEADSIZE <= |buf| { Int32(buf, 28) }
  function TimeCnt(buf: seq<Byte>): int requires TZHEADSIZE <= |buf| { Int32(buf, 32) }
  function TypeCnt(buf: seq<Byte>): int requires TZHEADSIZE <= |buf| { Int32(buf, 36) }
  function CharCnt(buf: seq<Byte>): int requires TZHEADSIZE <= |buf| { Int32(buf, 40) }

  predicate CountsFit(buf: seq<Byte>)
    requires TZHEADSIZE <= |buf|
  {
    && 0 <= LeapCnt(buf) < TZ_MAX_LEAPS
    && 0 <= TypeCnt(buf) < TZ_MAX_TYPES
    && 0 <= TimeCnt(buf) < TZ_MAX_TIMES
    && 0 <= CharCnt(buf) < TZ_MAX_CHARS
    && (TtisstdCnt(buf) == TypeCnt(buf) || TtisstdCnt(buf) == 0)
    && (TtisutCnt(buf) == TypeCnt(buf) || TtisutCnt(buf) == 0)
  }

  // Where the tables of a block begin.
  function TypesAt(buf: seq<Byte>, stored: int): int requires TZHEADSIZE <= |buf| {
    TZHEADSIZE + Wide(TimeCnt(buf), stored)
  }
  function InfosAt(buf: seq<Byte>, stored: int): int requires TZHEADSIZE <= |buf| {
    TypesAt(buf, stored) + TimeCnt(buf)
  }
  function CharsAt(buf: seq<Byte>, stored: int): int requires TZHEADSIZE <= |buf| {
    InfosAt(buf, stored) + 6 * TypeCnt(buf)
  }
  function LeapsAt(buf: seq<Byte>, stored: int): int requires TZHEADSIZE <= |buf| {
    CharsAt(buf, stored) + CharCnt(buf)
  }
  function StdsAt(buf: seq<Byte>, stored: int): int requires TZHEADSIZE <= |buf| {
    LeapsAt(buf, stored) + Wide(LeapCnt(buf), stored) + 4 * LeapCnt(buf)
  }
  function UtsAt(buf: seq<Byte>, stored: int): int requires TZHEADSIZE <= |buf| {
    StdsAt(buf, stored) + TtisstdCnt(buf)
  }
  function BlockSize(buf: seq<Byte>, stored: int): int requires TZHEADSIZE <= |buf| {
    UtsAt(buf, stored) + TtisutCnt(buf)
  }

  predicate BlockFits(buf: seq<Byte>, stored: int) {
    Width(stored) && TZHEADSIZE <= |buf| && CountsFit(buf) && BlockSize(buf, stored) <= |buf|
  }

  // The transition times and types as the file lists them.
  function FileTime(buf: seq<Byte>, stored: int, i: int): int
    requires BlockFits(buf, stored) && 0 <= i < TimeCnt(buf)
  {
    Time(buf, TZHEADSIZE + Wide(i, stored), stored)
  }

  function FileType(buf: seq<Byte>, stored: int, i: int): int
    requires BlockFits(buf, stored) && 0 <= i < TimeCnt(buf)
  {
    buf[TypesAt(buf, stored) + i]
  }

  function FileTransitions(buf: seq<Byte>, stored: int): (s: seq<Transition>)
    requires BlockFits(buf, stored)
    ensures |s| == TimeCnt(buf)
  {
    seq(TimeCnt(buf), i requires 0 <= i < TimeCnt(buf) => Transition(FileTime(buf, stored, i), FileType(buf, stored, i)))
  }

  function FileInfo(buf: seq<Byte>, stored: int, i: int): TtInfo
    requires BlockFits(buf, stored) && 0 <= i < TypeCnt(buf)
  {
    var p := InfosAt(buf, stored) + 6 * i;
    TtInfo(Int32(buf, p), buf[p + 4] == 1, buf[p + 5],
           TtisstdCnt(buf) != 0 && buf[StdsAt(buf, stored) + i] == 1,
           TtisutCnt(buf) != 0 && buf[UtsAt(buf, stored) + i] == 1)
  }

  function FileLeap(buf: seq<Byte>, stored: int, i: int): LeapInfo
    requires BlockFits(buf, stored) && 0 <= i < LeapCnt(buf)
  {
    var p := LeapsAt(buf, stored) + Wide(i, stored) + 4 * i;
    LeapInfo(Time(buf, p, stored), Int32(buf, p + stored))
  }

  function FileLeaps(buf: seq<Byte>, stored: int): (s: seq<LeapInfo>)
    requires BlockFits(buf, stored)
    ensures |s| == LeapCnt(buf)
  {
    seq(LeapCnt(buf), i requires 0 <= i < LeapCnt(buf) => FileLeap(buf, stored, i))
  }

  ghost predicate TypesBelow(s: seq<Transition>, typecnt: int) {
    forall i :: 0 <= i < |s| ==> s[i].ty < typecnt
  }

  predicate InfoFits(buf: seq<Byte>, stored: int, i: int)
    requires BlockFits(buf, stored) && 0 <= i < TypeCnt(buf)
  {
    var p := InfosAt(buf, stored) + 6 * i;
    buf[p + 4] < 2 && buf[p + 5] < CharCnt(buf)
  }

  ghost predicate InfosFit(buf: seq<Byte>, stored: int)
    requires BlockFits(buf, stored)
  {
    forall i :: 0 <= i < TypeCnt(buf) ==> InfoFits(buf, stored, i)
  }

  // n flags from p on, if the file has any.
  ghost predicate FlagsFit(buf: seq<Byte>, p: nat, n: nat, present: bool)
    requires present ==> p + n <= |buf|
  {
    present ==> forall k :: p <= k < p + n ==> buf[k] < 2
  }

  ghost predicate Ascends(s: seq<Transition>) {
    forall i :: 0 < i < |s| ==> s[i - 1].at <= s[i].at
  }

  ghost predicate TransitionsFit(buf: seq<Byte>, stored: int)
    requires BlockFits(buf, stored)
  {
    && Ascends(FileTransitions(buf, stored))
    && TypesBelow(FileTransitions(buf, stored), TypeCnt(buf))
  }

  ghost predicate RestFits(buf: seq<Byte>, stored: int)
    requires BlockFits(buf, stored)
  {
    && InfosFit(buf, stored)
    && FlagsFit(buf, StdsAt(buf, stored), TypeCnt(buf), TtisstdCnt(buf) != 0)
    && FlagsFit(buf, UtsAt(buf, stored), TypeCnt(buf), TtisutCnt(buf) != 0)
    && Accepted(FileLeaps(buf, stored))
  }

  /** The blocks the loader accepts: those that are as long as their counts say, with
      times in order, types and abbreviations that exist, flags that are flags, and
      leap seconds that can be. */
  ghost predicate WellFormed(buf: seq<Byte>, stored: int) {
    BlockFits(buf, stored) && TransitionsFit(buf, stored) && RestFits(buf, stored)
  }
}
