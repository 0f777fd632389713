/** TZif blocks written field by field (RFC 8536, section 3), to compare with what the
    loader reads. */
module TzWrite {
  import opened Bytes
  import opened Wrappers
  import opened CivilTime

  // The last k bytes of n, the greatest place first.
  function Low(n: nat, k: nat): (b: seq<Byte>)
    ensures |b| == k
  {
    if k == 0 then [] else Low(n / 256, k - 1) + [n % 256]
  }

  // 256 to the k.
  function Power(k: nat): nat {
    if k == 0 then 1 else 256 * Power(k - 1)
  }

  /** A number as k bytes in two's complement. */
  function Signed(n: int, k: nat): (b: seq<Byte>)
    requires 0 <= n || 0 <= n + Power(k)
    ensures |b| == k
  {
    Low(if n < 0 then n + Power(k) else n, k)
  }

  function Flat(parts: seq<seq<Byte>>): seq<Byte> {
    if parts == [] then [] else Flat(parts[..|parts| - 1]) + parts[|parts| - 1]
  }

  // So many pieces of one size.
  function Sizes(size: nat, n: nat): nat {
    size * n
  }

  lemma {:induction false} FlatSize(parts: seq<seq<Byte>>, size: nat)
    requires forall p :: p in parts ==> |p| == size
    ensures |Flat(parts)| == Sizes(size, |parts|)
    decreases |parts|
  {
    hide *;
    if parts != [] {
      var n := |parts| - 1;
      FlatLast(parts);
      FlatSize(parts[..n], size);
      assert parts[n] in parts;
      OneMore(size, n);
    } else {
      FlatNone(size);
    }
  }

  lemma FlatNone(size: nat)
    ensures Flat([]) == [] && Sizes(size, 0) == 0
  {
  }

  lemma FlatLast(parts: seq<seq<Byte>>)
    requires parts != []
    ensures Flat(parts) == Flat(parts[..|parts| - 1]) + parts[|parts| - 1]
  {
  }

  lemma OneMore(size: nat, n: nat)
    ensures Sizes(size, n + 1) == Sizes(size, n) + size
  {
  }

  lemma Within(size: nat, i: nat, n: nat)
    requires i < n
    ensures Sizes(size, i) + size <= Sizes(size, n)
  {
    OneMore(size, i);
    AtLeast(size, i + 1, n);
  }

  lemma {:induction false} AtLeast(size: nat, i: nat, n: nat)
    requires i <= n
    ensures Sizes(size, i) <= Sizes(size, n)
    decreases n - i
  {
    hide *;
    if i < n {
      OneMore(size, n - 1);
      AtLeast(size, i, n - 1);
    }
  }

  // Pieces of one size are found where they were put.
  lemma {:induction false} FlatAt(parts: seq<seq<Byte>>, size: nat, i: nat)
    requires (forall p :: p in parts ==> |p| == size) && i < |parts|
    ensures |Flat(parts)| == Sizes(size, |parts|) && Sizes(size, i) + size <= Sizes(size, |parts|)
    ensures Flat(parts)[Sizes(size, i)..Sizes(size, i) + size] == parts[i]
    decreases |parts|
  {
    hide *;
    var n := |parts| - 1;
    var front := parts[..n];
    FlatSize(parts, size);
    FlatSize(front, size);
    FlatLast(parts);
    assert parts[n] in parts;
    Within(size, i, |parts|);
    OneMore(size, n);
    if i < n {
      Within(size, i, n);
      FlatAt(front, size, i);
      FrontSlice(Flat(front), parts[n], Sizes(size, i), Sizes(size, i) + size);
    } else {
      BackSlice(Flat(front), parts[n]);
    }
  }

  lemma FrontSlice(x: seq<Byte>, y: seq<Byte>, a: nat, b: nat)
    requires a <= b <= |x|
    ensures (x + y)[a..b] == x[a..b]
  {
  }

  lemma BackSlice(x: seq<Byte>, y: seq<Byte>)
    ensures (x + y)[|x|..|x| + |y|] == y
  {
  }

  // A local time type: its offset, whether it is daylight time, and where its name is.
  datatype Kind = Kind(utoff: int, isdst: bool, desigidx: Byte)

  /** What a block says, after twenty bytes in front: when which type begins, the types, the
      characters of the names, the leap seconds, and for each type whether its times are
      standard time and UT. */
  datatype Block = Block(front: seq<Byte>, times: seq<int>, types: seq<Byte>, kinds: seq<Kind>, chars: seq<Byte>,
                         leaps: seq<LeapInfo>, std: Option<seq<bool>>, ut: Option<seq<bool>>)

  predicate FitsBytes(n: int, width: nat) {
    if width == 8 then -0x8000_0000_0000_0000 <= n < 0x8000_0000_0000_0000 else -0x8000_0000 <= n < 0x8000_0000
  }

  predicate FlagsFor(flags: Option<seq<bool>>, n: nat) {
    flags.Some? ==> |flags.value| == n
  }

  /** Blocks that may be written: with room in the tables, with times in order, types and
      names that exist, and leap seconds one at a time, 28 days less a second apart. */
  ghost predicate Good(d: Block, width: nat) {
    && (width == 4 || width == 8) && |d.front| == 20
    && |d.times| == |d.types| < 2000 && |d.kinds| < 256 && |d.chars| < 50 && |d.leaps| < 50
    && FlagsFor(d.std, |d.kinds|) && FlagsFor(d.ut, |d.kinds|)
    && (forall i :: 0 <= i < |d.times| ==> FitsBytes(d.times[i], width) && d.types[i] < |d.kinds|)
    && (forall i, j :: 0 <= i < j < |d.times| ==> d.times[i] <= d.times[j])
    && (forall i :: 0 <= i < |d.kinds| ==> FitsBytes(d.kinds[i].utoff, 4) && d.kinds[i].desigidx < |d.chars|)
    && (forall i :: 0 <= i < |d.leaps| ==> GoodLeap(d.leaps, i, width))
  }

  predicate GoodLeap(leaps: seq<LeapInfo>, i: nat, width: nat)
    requires i < |leaps|
  {
    var (t, c) := if i == 0 then (0, 0) else (leaps[i - 1].trans, leaps[i - 1].corr);
    && FitsBytes(leaps[i].trans, width) && FitsBytes(leaps[i].corr, 4)
    && leaps[i].trans - t >= 2419199 && leaps[i].trans >= 0 && (leaps[i].corr - c == 1 || leaps[i].corr - c == -1)
  }

  // A field, or nothing that could be written.
  function Field(n: int, width: nat): (b: seq<Byte>)
    ensures |b| == width
  {
    if 0 <= n || 0 <= n + Power(width) then Signed(n, width) else Low(0, width)
  }

  function FlagCount(flags: Option<seq<bool>>): nat {
    if flags.Some? then |flags.value| else 0
  }

  function Flags(flags: Option<seq<bool>>): (b: seq<Byte>)
    ensures |b| == FlagCount(flags)
  {
    if flags.None? then []
    else seq(|flags.value|, i requires 0 <= i < |flags.value| => if flags.value[i] then 1 else 0)
  }

  /** The front of a block of some version: TZif, the version, and fifteen bytes not used. The
      loader looks at the version alone. */
  function Front(version: Byte): (b: seq<Byte>)
    ensures |b| == 20 && b[4] == version
  {
    [84, 90, 105, 102, version] + [0, 0, 0, 0, 0, 0, 0, 0, 0, 0, 0, 0, 0, 0, 0]
  }

  function Header(d: Block): (b: seq<Byte>)
    ensures |b| == |d.front| + 24
  {
    d.front + Counts(d)
  }

  function Counts(d: Block): (b: seq<Byte>)
    ensures |b| == 24
  {
    Field(FlagCount(d.ut), 4) + Field(FlagCount(d.std), 4) + Field(|d.leaps|, 4)
    + Field(|d.times|, 4) + Field(|d.kinds|, 4) + Field(|d.chars|, 4)
  }

  function TimeFields(d: Block, width: nat): (p: seq<seq<Byte>>)
    ensures |p| == |d.times| && forall b :: b in p ==> |b| == width
  {
    seq(|d.times|, i requires 0 <= i < |d.times| => Field(d.times[i], width))
  }

  function KindFields(d: Block): (p: seq<seq<Byte>>)
    ensures |p| == |d.kinds| && forall b :: b in p ==> |b| == 6
  {
    seq(|d.kinds|, i requires 0 <= i < |d.kinds| =>
      Field(d.kinds[i].utoff, 4) + [if d.kinds[i].isdst then 1 else 0, d.kinds[i].desigidx])
  }

  function LeapFields(d: Block, width: nat): (p: seq<seq<Byte>>)
    ensures |p| == |d.leaps| && forall b :: b in p ==> |b| == width + 4
  {
    seq(|d.leaps|, i requires 0 <= i < |d.leaps| => Field(d.leaps[i].trans, width) + Field(d.leaps[i].corr, 4))
  }

  /** A block in bytes, times being so many bytes wide. */
  function Written(d: Block, width: nat): seq<Byte> {
    Header(d) + Flat(TimeFields(d, width)) + d.types + Flat(KindFields(d)) + d.chars
    + Flat(LeapFields(d, width)) + Flags(d.std) + Flags(d.ut)
  }
}
