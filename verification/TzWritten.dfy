/** A block that is written is accepted, and is read back field by field; and a block that is
    accepted is one that could be written. */
module TzWritten {
  import opened Bytes
  import opened CivilTime
  import opened LeapSeconds
  import opened Wrappers
  import opened ZoneState
  import opened TzBytes
  import opened TzFile
  import opened TzWrite

  // Numbers read back.
  lemma {:induction false} LowRead(n: nat, k: nat)
    requires n < Power(k)
    ensures BigEndian(Low(n, k)) == n
    decreases k
  {
    if k > 0 {
      LowRead(n / 256, k - 1);
      assert Low(n, k)[..k - 1] == Low(n / 256, k - 1);
    }
  }

  lemma {:induction false} LowAgain(b: seq<Byte>)
    ensures BigEndian(b) < Power(|b|) && Low(BigEndian(b), |b|) == b
    decreases |b|
  {
    if b != [] {
      LowAgain(b[..|b| - 1]);
      assert b == b[..|b| - 1] + [b[|b| - 1]];
    }
  }

  // The first byte and the rest.
  lemma {:induction false} FirstByte(b: seq<Byte>)
    requires b != []
    ensures BigEndian(b) == b[0] * Power(|b| - 1) + BigEndian(b[1..])
    decreases |b|
  {
    hide *;
    var n := |b| - 1;
    LastByte(b);
    if n == 0 {
      OneByte(b);
    } else {
      FirstByte(b[..n]);
      LastByte(b[1..]);
      assert b[..n][1..] == b[1..][..n - 1] && b[1..][n - 1] == b[n] && b[..n][0] == b[0];
      PowerIs(n);
      Scaled(b[0], Power(n - 1), BigEndian(b[..n][1..]), b[n]);
    }
  }

  lemma LastByte(b: seq<Byte>)
    requires b != []
    ensures BigEndian(b) == 256 * BigEndian(b[..|b| - 1]) + b[|b| - 1]
  {
  }

  lemma OneByte(b: seq<Byte>)
    requires |b| == 1
    ensures BigEndian(b) == b[0] * Power(0) + BigEndian(b[1..])
  {
    assert b[..0] == [] && b[1..] == [];
  }

  lemma Scaled(a: nat, p: nat, r: nat, c: nat)
    ensures 256 * (a * p + r) + c == a * (256 * p) + (256 * r + c)
  {
  }

  // A number in two's complement, and the bytes it is written as.
  lemma SignedRead(b: seq<Byte>, k: nat, n: int)
    requires 0 < k == |b|
    ensures var half := 128 * Power(k - 1);
            -half <= n < half && b == Field(n, k) <==> TwosComplement(b, half) == n
  {
    hide *;
    var half := 128 * Power(k - 1);
    LowAgain(b);
    LowAgain(b[1..]);
    FirstByte(b);
    var p := [b[0] % 128] + b[1..];
    FirstByte(p);
    assert p[1..] == b[1..] && |p| == k;
    ComplementIs(b, half);
    PowerIs(k);
    Halves(b[0], Power(k - 1), BigEndian(b[1..]));
    FieldIs(n, k);
    if -half <= n < half {
      LowRead(if n < 0 then n + Power(k) else n, k);
    }
  }

  lemma ComplementIs(b: seq<Byte>, half: int)
    requires b != []
    ensures TwosComplement(b, half) == BigEndian([b[0] % 128] + b[1..]) - if b[0] >= 128 then half else 0
  {
    hide BigEndian;
  }

  lemma PowerIs(k: nat)
    requires 0 < k
    ensures Power(k) == 256 * Power(k - 1) && Power(k - 1) > 0
  {
    PowerPositive(k - 1);
  }

  lemma {:induction false} PowerPositive(k: nat)
    ensures Power(k) > 0
  {
    if k > 0 {
      PowerPositive(k - 1);
    }
  }

  lemma Halves(first: Byte, p: nat, rest: nat)
    requires rest < p
    ensures first >= 128 <==> first * p + rest >= 128 * p
    ensures first * p + rest == first % 128 * p + rest + if first >= 128 then 128 * p else 0
    ensures first % 128 * p + rest < 128 * p
  {
    var low := first % 128;
    assert first == low + if first >= 128 then 128 else 0;
    Product(low, 127, p);
    Product(first, 127, p);
    Product(128, first, p);
    assert (low + 128) * p == low * p + 128 * p;
    if first >= 128 {
      assert first * p == (low + 128) * p;
    } else {
      assert first == low;
    }
  }

  lemma Product(a: nat, b: nat, p: nat)
    ensures a <= b ==> a * p <= b * p
  {
  }

  lemma FieldIs(n: int, k: nat)
    ensures 0 <= n + Power(k) ==> Field(n, k) == Low(if n < 0 then n + Power(k) else n, k)
  {
    hide Low, Power;
  }

  lemma Powers()
    ensures Power(3) == 0x100_0000 && Power(7) == 0x100_0000_0000_0000
  {
    assert Power(2) == 0x1_0000;
    assert Power(5) == 0x100_0000_0000;
  }

  // A field of so many bytes at i is that number.
  lemma TimeIsField(buf: seq<Byte>, i: nat, width: nat, n: int)
    requires (width == 4 || width == 8) && i + width <= |buf|
    ensures FitsBytes(n, width) && buf[i..i + width] == Field(n, width) <==> Time(buf, i, width) == n
  {
    Powers();
    SignedRead(buf[i..i + width], width, n);
    hide Field, TwosComplement, Power;
  }

  lemma IntIsField(buf: seq<Byte>, i: nat, n: int)
    requires i + 4 <= |buf|
    ensures FitsBytes(n, 4) && buf[i..i + 4] == Field(n, 4) <==> Int32(buf, i) == n
  {
    TimeIsField(buf, i, 4, n);
    hide Field, Int32;
  }

  // Where the parts of a block are, its counts given.
  datatype Marks = Marks(types: int, kinds: int, chars: int, leaps: int, std: int, ut: int, end: int)

  function MarksOf(width: nat, times: nat, kinds: nat, chars: nat, leaps: nat, std: nat, ut: nat): Marks {
    var a := 44 + Wide(times, width);
    var b := a + times;
    var c := b + 6 * kinds;
    var d := c + chars;
    var e := d + Wide(leaps, width) + 4 * leaps;
    Marks(a, b, c, d, e, e + std, e + std + ut)
  }

  function MarksIn(d: Block, width: nat): Marks {
    MarksOf(width, |d.times|, |d.kinds|, |d.chars|, |d.leaps|, FlagCount(d.std), FlagCount(d.ut))
  }

  // Where parts that follow each other are.
  lemma TwoParts(buf: seq<Byte>, front: seq<Byte>, part: seq<Byte>)
    requires front + part <= buf
    ensures front <= buf && |front| + |part| <= |buf| && buf[|front|..|front| + |part|] == part
  {
    var w := front + part;
    assert buf[..|w|] == w && w[..|front|] == front && w[|front|..] == part;
  }

  lemma EightParts(buf: seq<Byte>, a: seq<Byte>, b: seq<Byte>, c: seq<Byte>, d: seq<Byte>, e: seq<Byte>, f: seq<Byte>,
                   g: seq<Byte>, h: seq<Byte>, m: Marks)
    requires a + b + c + d + e + f + g + h <= buf
    requires |a| == 44 && m.types == 44 + |b| && m.kinds == m.types + |c| && m.chars == m.kinds + |d| && m.leaps == m.chars + |e|
    requires m.std == m.leaps + |f| && m.ut == m.std + |g| && m.end == m.ut + |h|
    ensures 44 <= m.types <= m.kinds <= m.chars <= m.leaps <= m.std <= m.ut <= m.end <= |buf|
    ensures buf[..44] == a && buf[44..m.types] == b && buf[m.types..m.kinds] == c && buf[m.kinds..m.chars] == d
    ensures buf[m.chars..m.leaps] == e && buf[m.leaps..m.std] == f && buf[m.std..m.ut] == g && buf[m.ut..m.end] == h
  {
    TwoParts(buf, a + b + c + d + e + f + g, h);
    TwoParts(buf, a + b + c + d + e + f, g);
    TwoParts(buf, a + b + c + d + e, f);
    TwoParts(buf, a + b + c + d, e);
    TwoParts(buf, a + b + c, d);
    TwoParts(buf, a + b, c);
    TwoParts(buf, a, b);
  }

  // A written block in its parts.
  lemma PartsOf(buf: seq<Byte>, d: Block, width: nat)
    requires (width == 4 || width == 8) && |d.front| == 20 && Written(d, width) <= buf && |d.times| == |d.types|
    ensures var m := MarksIn(d, width);
            && 44 <= m.types <= m.kinds <= m.chars <= m.leaps <= m.std <= m.ut <= m.end <= |buf|
            && |Written(d, width)| == m.end
            && buf[..44] == Header(d) && buf[44..m.types] == Flat(TimeFields(d, width)) && buf[m.types..m.kinds] == d.types
            && buf[m.kinds..m.chars] == Flat(KindFields(d)) && buf[m.chars..m.leaps] == d.chars
            && buf[m.leaps..m.std] == Flat(LeapFields(d, width)) && buf[m.std..m.ut] == Flags(d.std) && buf[m.ut..m.end] == Flags(d.ut)
  {
    hide *;
    var a, b, c, e := Header(d), Flat(TimeFields(d, width)), Flat(KindFields(d)), Flat(LeapFields(d, width));
    WrittenIs(d, width);
    MarksAre(d, width);
    EightParts(buf, a, b, d.types, c, d.chars, e, Flags(d.std), Flags(d.ut), MarksIn(d, width));
  }

  lemma WrittenIs(d: Block, width: nat)
    ensures Written(d, width)
            == Header(d) + Flat(TimeFields(d, width)) + d.types + Flat(KindFields(d)) + d.chars + Flat(LeapFields(d, width))
               + Flags(d.std) + Flags(d.ut)
  {
    hide Flat, TimeFields, KindFields, LeapFields, Flags, Header;
  }

  // The parts have their sizes.
  lemma MarksAre(d: Block, width: nat)
    requires |d.times| == |d.types| && (width == 4 || width == 8)
    ensures |Header(d)| == |d.front| + 24
    ensures var (m, b, c, e) := (MarksIn(d, width), |Flat(TimeFields(d, width))|, |Flat(KindFields(d))|, |Flat(LeapFields(d, width))|);
            && m.types == 44 + b && m.kinds == m.types + |d.types| && m.chars == m.kinds + c && m.leaps == m.chars + |d.chars|
            && m.std == m.leaps + e && m.ut == m.std + |Flags(d.std)| && m.end == m.ut + |Flags(d.ut)|
  {
    FlatSize(TimeFields(d, width), width);
    FlatSize(KindFields(d), 6);
    FlatSize(LeapFields(d, width), width + 4);
    hide Flat, TimeFields, KindFields, LeapFields, Flags;
    Multiple(width, |d.times|);
    Multiple(width, |d.kinds|);
    Multiple(width, |d.leaps|);
  }

  lemma Multiple(width: nat, n: nat)
    requires width == 4 || width == 8
    ensures Sizes(width, n) == Wide(n, width) && Sizes(width + 4, n) == Wide(n, width) + 4 * n && Sizes(6, n) == 6 * n
  {
  }

  lemma HeaderParts(buf: seq<Byte>, d: Block)
    requires 44 <= |buf| && |d.front| == 20 && buf[..44] == Header(d)
    ensures buf[4] == d.front[4]
    ensures buf[20..24] == Field(FlagCount(d.ut), 4) && buf[24..28] == Field(FlagCount(d.std), 4)
    ensures buf[28..32] == Field(|d.leaps|, 4) && buf[32..36] == Field(|d.times|, 4)
    ensures buf[36..40] == Field(|d.kinds|, 4) && buf[40..44] == Field(|d.chars|, 4)
  {
    hide Field;
    var h, c := Header(d), Counts(d);
    assert h[20..] == c && buf[20..44] == c;
    CountParts(c, d);
    forall i, j | 20 <= i <= j <= 44
      ensures buf[i..j] == c[i - 20..j - 20]
    {
      SubSlice(buf, 20, 44, i - 20, j - i);
    }
  }

  lemma CountParts(c: seq<Byte>, d: Block)
    requires c == Counts(d)
    ensures c[0..4] == Field(FlagCount(d.ut), 4) && c[4..8] == Field(FlagCount(d.std), 4) && c[8..12] == Field(|d.leaps|, 4)
    ensures c[12..16] == Field(|d.times|, 4) && c[16..20] == Field(|d.kinds|, 4) && c[20..24] == Field(|d.chars|, 4)
  {
    hide Field;
  }

  // The counts of a header are those of the block, and so its parts are where they are read.
  lemma CountsRead(buf: seq<Byte>, d: Block, width: nat)
    requires Good(d, width) && 44 <= |buf| && buf[..44] == Header(d)
    ensures TimeCnt(buf) == |d.times| && TypeCnt(buf) == |d.kinds| && CharCnt(buf) == |d.chars| && LeapCnt(buf) == |d.leaps|
    ensures TtisstdCnt(buf) == FlagCount(d.std) && TtisutCnt(buf) == FlagCount(d.ut) && buf[4] == d.front[4]
    ensures CountsFit(buf) && Placed(buf, width, MarksIn(d, width))
  {
    HeaderParts(buf, d);
    IntIsField(buf, 20, FlagCount(d.ut));
    IntIsField(buf, 24, FlagCount(d.std));
    IntIsField(buf, 28, |d.leaps|);
    IntIsField(buf, 32, |d.times|);
    IntIsField(buf, 36, |d.kinds|);
    IntIsField(buf, 40, |d.chars|);
    hide Int32, Field, Header;
  }

  // The loader reads the parts of a block there.
  predicate Placed(buf: seq<Byte>, width: nat, m: Marks)
    requires 44 <= |buf|
  {
    && TypesAt(buf, width) == m.types && InfosAt(buf, width) == m.kinds && CharsAt(buf, width) == m.chars
    && LeapsAt(buf, width) == m.leaps && StdsAt(buf, width) == m.std && UtsAt(buf, width) == m.ut
    && BlockSize(buf, width) == m.end
  }

  lemma SubSlice(buf: seq<Byte>, lo: nat, hi: nat, off: nat, len: nat)
    requires lo <= hi <= |buf| && off + len <= hi - lo
    ensures buf[lo..hi][off..off + len] == buf[lo + off..lo + off + len]
  {
    var a, b := buf[lo..hi][off..off + len], buf[lo + off..lo + off + len];
    forall k | 0 <= k < len
      ensures a[k] == b[k]
    {
      SliceAt(buf, lo, hi, off + k);
    }
  }

  lemma SliceAt(buf: seq<Byte>, lo: nat, hi: nat, k: nat)
    requires lo <= hi <= |buf| && k < hi - lo
    ensures buf[lo..hi][k] == buf[lo + k]
  {
  }

  // The i-th piece of a part.
  lemma PieceAt(buf: seq<Byte>, lo: nat, hi: nat, parts: seq<seq<Byte>>, size: nat, i: nat)
    requires lo <= hi <= |buf| && buf[lo..hi] == Flat(parts) && (forall p :: p in parts ==> |p| == size) && i < |parts|
    ensures lo + Sizes(size, i) + size <= hi && buf[lo + Sizes(size, i)..lo + Sizes(size, i) + size] == parts[i]
  {
    hide *;
    FlatAt(parts, size, i);
    PieceFrom(buf, lo, hi, Flat(parts), Sizes(size, i), Sizes(size, i) + size, parts[i]);
  }

  lemma PieceFrom(buf: seq<Byte>, lo: nat, hi: nat, flat: seq<Byte>, a: nat, b: nat, piece: seq<Byte>)
    requires lo <= hi <= |buf| && buf[lo..hi] == flat && a <= b <= |flat| && flat[a..b] == piece
    ensures lo + b <= hi && buf[lo + a..lo + b] == piece
  {
    SubSlice(buf, lo, hi, a, b - a);
  }

  lemma BlockFitsWritten(buf: seq<Byte>, d: Block, width: nat)
    requires Good(d, width) && Written(d, width) <= buf
    ensures BlockFits(buf, width) && BlockSize(buf, width) == |Written(d, width)|
  {
    hide *;
    GoodSizes(d, width);
    PartsOf(buf, d, width);
    CountsRead(buf, d, width);
    FitsIs(buf, width, MarksIn(d, width));
  }

  lemma GoodSizes(d: Block, width: nat)
    requires Good(d, width)
    ensures (width == 4 || width == 8) && |d.front| == 20 && |d.times| == |d.types| < 2000 && |d.kinds| < 256 && |d.chars| < 50 && |d.leaps| < 50
    ensures FlagsFor(d.std, |d.kinds|) && FlagsFor(d.ut, |d.kinds|)
  {
  }

  lemma FitsIs(buf: seq<Byte>, width: nat, m: Marks)
    requires (width == 4 || width == 8) && 44 <= |buf| && CountsFit(buf) && Placed(buf, width, m) && m.end <= |buf|
    ensures BlockFits(buf, width) && BlockSize(buf, width) == m.end
  {
    hide CountsFit, BlockSize, TypesAt, InfosAt, CharsAt, LeapsAt, StdsAt, UtsAt;
  }

  // What a written block says.
  function SaidTransitions(d: Block): (s: seq<Transition>)
    requires |d.times| == |d.types|
    ensures |s| == |d.times|
  {
    seq(|d.times|, i requires 0 <= i < |d.times| => Transition(d.times[i], d.types[i]))
  }

  function SaidInfo(d: Block, i: nat): TtInfo
    requires i < |d.kinds| && FlagsFor(d.std, |d.kinds|) && FlagsFor(d.ut, |d.kinds|)
  {
    TtInfo(d.kinds[i].utoff, d.kinds[i].isdst, d.kinds[i].desigidx, d.std.Some? && d.std.value[i], d.ut.Some? && d.ut.value[i])
  }

  function SaidChars(d: Block): (s: seq<char>)
    ensures |s| == |d.chars|
  {
    seq(|d.chars|, i requires 0 <= i < |d.chars| => d.chars[i] as char)
  }

  lemma TimeRead(buf: seq<Byte>, d: Block, width: nat, i: nat)
    requires Good(d, width) && Written(d, width) <= buf && i < |d.times|
    ensures BlockFits(buf, width) && TimeCnt(buf) == |d.times|
    ensures FileTime(buf, width, i) == d.times[i] && FileType(buf, width, i) == d.types[i]
  {
    hide *;
    GoodSizes(d, width);
    PartsOf(buf, d, width);
    CountsRead(buf, d, width);
    BlockFitsWritten(buf, d, width);
    var m := MarksIn(d, width);
    TimePiece(buf, d, width, i, m);
    SubSlice(buf, m.types, m.kinds, i, 1);
    TimeAt(buf, width, i, m);
  }

  lemma TimePiece(buf: seq<Byte>, d: Block, width: nat, i: nat, m: Marks)
    requires Good(d, width) && i < |d.times| && 44 <= m.types <= |buf| && buf[44..m.types] == Flat(TimeFields(d, width))
    requires width == 4 || width == 8
    ensures var p := 44 + Wide(i, width); 44 <= p && p + width <= m.types && Time(buf, p, width) == d.times[i]
  {
    hide *;
    Multiple(width, i);
    PieceAt(buf, 44, m.types, TimeFields(d, width), width, i);
    TimeFieldIs(d, width, i);
    WideIs(i, width);
    TimeIsField(buf, 44 + Wide(i, width), width, d.times[i]);
  }

  lemma WideIs(i: nat, width: nat)
    ensures Wide(i, width) >= 0 && (width == 4 ==> Wide(i, width) == 4 * i) && (width == 8 ==> Wide(i, width) == 8 * i)
  {
  }

  lemma TimeFieldIs(d: Block, width: nat, i: nat)
    requires Good(d, width) && i < |d.times|
    ensures TimeFields(d, width)[i] == Field(d.times[i], width) && FitsBytes(d.times[i], width)
  {
    hide Field, FitsBytes, GoodLeap;
  }

  lemma TimeAt(buf: seq<Byte>, width: nat, i: nat, m: Marks)
    requires BlockFits(buf, width) && Placed(buf, width, m) && i < TimeCnt(buf)
    ensures var p := 44 + Wide(i, width);
            44 <= p && p + width <= |buf| && Width(width) && FileTime(buf, width, i) == Time(buf, p, width)
    ensures 0 <= m.types && m.types + i < |buf| && FileType(buf, width, i) == buf[m.types + i]
  {
    FitFacts(buf, width);
    hide BlockFits, BlockSize, CountsFit, TypesAt, InfosAt, CharsAt, LeapsAt, StdsAt, UtsAt, TimeCnt, TypeCnt, CharCnt, LeapCnt,
      TtisstdCnt, TtisutCnt, Int32, Int64;
  }

  /** The transitions read are those written. */
  lemma TransitionsRead(buf: seq<Byte>, d: Block, width: nat)
    requires Good(d, width) && Written(d, width) <= buf
    ensures BlockFits(buf, width) && FileTransitions(buf, width) == SaidTransitions(d)
  {
    hide *;
    GoodSizes(d, width);
    BlockFitsWritten(buf, d, width);
    PartsOf(buf, d, width);
    CountsRead(buf, d, width);
    var s := FileTransitions(buf, width);
    forall i | 0 <= i < |d.times|
      ensures s[i] == SaidTransitions(d)[i]
    {
      TimeRead(buf, d, width, i);
      TransitionIs(buf, width, i);
      SaidIs(d, i);
    }
  }

  lemma TransitionIs(buf: seq<Byte>, width: nat, i: nat)
    requires BlockFits(buf, width) && i < TimeCnt(buf)
    ensures FileTransitions(buf, width)[i] == Transition(FileTime(buf, width, i), FileType(buf, width, i))
  {
    hide FileTime, FileType, BlockFits, TimeCnt;
  }

  lemma SaidIs(d: Block, i: nat)
    requires |d.times| == |d.types| && i < |d.times|
    ensures SaidTransitions(d)[i] == Transition(d.times[i], d.types[i])
  {
  }

  // The fields of a type, where the loader looks for them.
  predicate InfoWritten(buf: seq<Byte>, m: Marks, d: Block, i: nat) {
    var p := m.kinds + 6 * i;
    && i < |d.kinds| && FlagsFor(d.std, |d.kinds|) && FlagsFor(d.ut, |d.kinds|)
    && 0 <= m.kinds && p + 6 <= |buf| && 0 <= m.std && 0 <= m.ut
    && Int32(buf, p) == d.kinds[i].utoff && buf[p + 4] == (if d.kinds[i].isdst then 1 else 0)
    && buf[p + 5] == d.kinds[i].desigidx < |d.chars|
    && (d.std.Some? ==> m.std + i < |buf| && buf[m.std + i] == if d.std.value[i] then 1 else 0)
    && (d.ut.Some? ==> m.ut + i < |buf| && buf[m.ut + i] == if d.ut.value[i] then 1 else 0)
  }

  /** A type read is the one written, its flags with it. */
  lemma InfoRead(buf: seq<Byte>, d: Block, width: nat, i: nat)
    requires Good(d, width) && Written(d, width) <= buf && i < |d.kinds|
    ensures BlockFits(buf, width) && TypeCnt(buf) == |d.kinds| && FlagsFor(d.std, |d.kinds|) && FlagsFor(d.ut, |d.kinds|)
    ensures FileInfo(buf, width, i) == SaidInfo(d, i) && InfoFits(buf, width, i)
  {
    hide *;
    GoodSizes(d, width);
    PartsOf(buf, d, width);
    CountsRead(buf, d, width);
    BlockFitsWritten(buf, d, width);
    InfoLaid(buf, d, width, i, MarksIn(d, width));
    InfoIs(buf, width, i, MarksIn(d, width), d);
  }

  lemma InfoLaid(buf: seq<Byte>, d: Block, width: nat, i: nat, m: Marks)
    requires Good(d, width) && i < |d.kinds| && 0 <= m.kinds <= m.chars <= |buf| && buf[m.kinds..m.chars] == Flat(KindFields(d))
    requires 0 <= m.std <= m.ut <= m.end <= |buf| && buf[m.std..m.ut] == Flags(d.std) && buf[m.ut..m.end] == Flags(d.ut)
    ensures InfoWritten(buf, m, d, i)
  {
    hide Good, Flat, KindFields, Flags, Int32, FlagCount;
    GoodSizes(d, width);
    KindPiece(buf, d, width, i, m);
    FlagRead(buf, m.std, m.ut, d.std, i);
    FlagRead(buf, m.ut, m.end, d.ut, i);
  }

  lemma FlagRead(buf: seq<Byte>, lo: nat, hi: nat, flags: Option<seq<bool>>, i: nat)
    requires lo <= hi <= |buf| && buf[lo..hi] == Flags(flags) && (flags.Some? ==> i < |flags.value|)
    ensures flags.Some? ==> lo + i < |buf| && buf[lo + i] == if flags.value[i] then 1 else 0
  {
    if flags.Some? {
      assert buf[lo + i] == buf[lo..hi][i] == Flags(flags)[i];
    }
  }

  lemma KindPiece(buf: seq<Byte>, d: Block, width: nat, i: nat, m: Marks)
    requires Good(d, width) && i < |d.kinds| && 0 <= m.kinds <= m.chars <= |buf| && buf[m.kinds..m.chars] == Flat(KindFields(d))
    ensures var (p, k) := (m.kinds + 6 * i, d.kinds[i]);
            && 0 <= p && p + 6 <= |buf| && Int32(buf, p) == k.utoff
            && buf[p + 4] == (if k.isdst then 1 else 0) && buf[p + 5] == k.desigidx < |d.chars|
  {
    hide *;
    Multiple(4, i);
    PieceAt(buf, m.kinds, m.chars, KindFields(d), 6, i);
    KindFieldIs(d, width, i);
    var p := m.kinds + 6 * i;
    SubSlice(buf, p, p + 6, 0, 4);
    SliceAt(buf, p, p + 6, 4);
    SliceAt(buf, p, p + 6, 5);
    IntIsField(buf, p, d.kinds[i].utoff);
  }

  lemma KindFieldIs(d: Block, width: nat, i: nat)
    requires Good(d, width) && i < |d.kinds|
    ensures var (f, k) := (KindFields(d)[i], d.kinds[i]);
            && |f| == 6 && f[0..4] == Field(k.utoff, 4) && f[4] == (if k.isdst then 1 else 0) && f[5] == k.desigidx
            && FitsBytes(k.utoff, 4) && k.desigidx < |d.chars|
  {
    hide Field, FitsBytes, GoodLeap;
  }

  lemma InfoIs(buf: seq<Byte>, width: nat, i: nat, m: Marks, d: Block)
    requires BlockFits(buf, width) && Placed(buf, width, m) && i < TypeCnt(buf) == |d.kinds| && InfoWritten(buf, m, d, i)
    requires TtisstdCnt(buf) == FlagCount(d.std) && TtisutCnt(buf) == FlagCount(d.ut) && CharCnt(buf) == |d.chars|
    ensures FileInfo(buf, width, i) == SaidInfo(d, i) && InfoFits(buf, width, i)
  {
    hide BlockFits, BlockSize, CountsFit, TypesAt, InfosAt, CharsAt, LeapsAt, StdsAt, UtsAt, TimeCnt, TypeCnt, CharCnt, LeapCnt,
      TtisstdCnt, TtisutCnt, Int32, Int64;
  }

  /** The characters read are those written. */
  lemma CharsRead(buf: seq<Byte>, d: Block, width: nat)
    requires Good(d, width) && Written(d, width) <= buf
    ensures BlockFits(buf, width) && FileChars(buf, width) == SaidChars(d)
  {
    hide *;
    GoodSizes(d, width);
    PartsOf(buf, d, width);
    CountsRead(buf, d, width);
    BlockFitsWritten(buf, d, width);
    CharsAre(buf, width, MarksIn(d, width), d.chars);
    SaidAre(d);
  }

  lemma SaidAre(d: Block)
    ensures forall i :: 0 <= i < |d.chars| ==> SaidChars(d)[i] == d.chars[i] as char
  {
  }

  lemma CharsAre(buf: seq<Byte>, width: nat, m: Marks, chars: seq<Byte>)
    requires BlockFits(buf, width) && Placed(buf, width, m) && 0 <= CharCnt(buf) == |chars|
    requires 0 <= m.chars <= m.leaps <= |buf| && buf[m.chars..m.leaps] == chars
    ensures |FileChars(buf, width)| == |chars| && forall i :: 0 <= i < |chars| ==> FileChars(buf, width)[i] == chars[i] as char
  {
    hide BlockFits, BlockSize, CountsFit, TypesAt, InfosAt, CharsAt, LeapsAt, StdsAt, UtsAt, TimeCnt, TypeCnt, CharCnt, LeapCnt,
      TtisstdCnt, TtisutCnt, Int32;
    assert forall i :: 0 <= i < |chars| ==> buf[m.chars + i] == buf[m.chars..m.leaps][i];
  }

  lemma LeapRead(buf: seq<Byte>, d: Block, width: nat, i: nat)
    requires Good(d, width) && Written(d, width) <= buf && i < |d.leaps|
    ensures BlockFits(buf, width) && LeapCnt(buf) == |d.leaps| && FileLeap(buf, width, i) == d.leaps[i]
  {
    hide *;
    GoodSizes(d, width);
    PartsOf(buf, d, width);
    CountsRead(buf, d, width);
    BlockFitsWritten(buf, d, width);
    var m := MarksIn(d, width);
    LeapPiece(buf, d, width, i, m);
    LeapIs(buf, width, i, m);
  }

  lemma LeapPiece(buf: seq<Byte>, d: Block, width: nat, i: nat, m: Marks)
    requires Good(d, width) && i < |d.leaps| && 0 <= m.leaps <= m.std <= |buf| && buf[m.leaps..m.std] == Flat(LeapFields(d, width))
    requires width == 4 || width == 8
    ensures var p := m.leaps + Wide(i, width) + 4 * i;
            && 0 <= p && p + width + 4 <= m.std
            && Time(buf, p, width) == d.leaps[i].trans && Int32(buf, p + width) == d.leaps[i].corr
  {
    hide *;
    Multiple(width, i);
    WideIs(i, width);
    PieceAt(buf, m.leaps, m.std, LeapFields(d, width), width + 4, i);
    LeapFieldIs(d, width, i);
    var p := m.leaps + Wide(i, width) + 4 * i;
    SubSlice(buf, p, p + width + 4, 0, width);
    SubSlice(buf, p, p + width + 4, width, 4);
    TimeIsField(buf, p, width, d.leaps[i].trans);
    IntIsField(buf, p + width, d.leaps[i].corr);
  }

  lemma LeapFieldIs(d: Block, width: nat, i: nat)
    requires Good(d, width) && i < |d.leaps|
    ensures var (f, l) := (LeapFields(d, width)[i], d.leaps[i]);
            && |f| == width + 4 && f[0..width] == Field(l.trans, width) && f[width..width + 4] == Field(l.corr, 4)
            && FitsBytes(l.trans, width) && FitsBytes(l.corr, 4)
  {
    hide Field, FitsBytes;
    assert GoodLeap(d.leaps, i, width);
  }

  lemma LeapIs(buf: seq<Byte>, width: nat, i: nat, m: Marks)
    requires BlockFits(buf, width) && Placed(buf, width, m) && i < LeapCnt(buf) && 0 <= m.leaps
    ensures var p := m.leaps + Wide(i, width) + 4 * i;
            && 0 <= p && p + width + 4 <= |buf| && Width(width)
            && FileLeap(buf, width, i) == LeapInfo(Time(buf, p, width), Int32(buf, p + width))
  {
    LeapAt(buf, width, i);
    hide BlockFits, BlockSize, CountsFit, TypesAt, InfosAt, CharsAt, LeapsAt, StdsAt, UtsAt, TimeCnt, TypeCnt, CharCnt, LeapCnt,
      TtisstdCnt, TtisutCnt, Int32, Int64, Time;
  }

  /** The leap seconds read are those written. */
  lemma LeapsReadBack(buf: seq<Byte>, d: Block, width: nat)
    requires Good(d, width) && Written(d, width) <= buf
    ensures BlockFits(buf, width) && FileLeaps(buf, width) == d.leaps
  {
    hide *;
    GoodSizes(d, width);
    BlockFitsWritten(buf, d, width);
    PartsOf(buf, d, width);
    CountsRead(buf, d, width);
    LeapsOf(buf, width);
    forall i | 0 <= i < |d.leaps|
      ensures FileLeap(buf, width, i) == d.leaps[i]
    {
      LeapRead(buf, d, width, i);
    }
    assert FileLeaps(buf, width) == d.leaps;
  }

  lemma LeapsOf(buf: seq<Byte>, width: nat)
    requires BlockFits(buf, width)
    ensures forall i :: 0 <= i < LeapCnt(buf) ==> FileLeaps(buf, width)[i] == FileLeap(buf, width, i)
    ensures |FileLeaps(buf, width)| == LeapCnt(buf)
  {
    hide FileLeap, BlockFits, LeapCnt;
  }

  lemma FlagsWritten(buf: seq<Byte>, d: Block, width: nat)
    requires Good(d, width) && Written(d, width) <= buf
    ensures BlockFits(buf, width) && 0 <= StdsAt(buf, width) && 0 <= UtsAt(buf, width) && 0 <= TypeCnt(buf)
    ensures FlagsFit(buf, StdsAt(buf, width), TypeCnt(buf), TtisstdCnt(buf) != 0)
    ensures FlagsFit(buf, UtsAt(buf, width), TypeCnt(buf), TtisutCnt(buf) != 0)
  {
    hide *;
    GoodSizes(d, width);
    BlockFitsWritten(buf, d, width);
    PartsOf(buf, d, width);
    CountsRead(buf, d, width);
    var m := MarksIn(d, width);
    PlacedAt(buf, width, m);
    FlagBytes(buf, m.std, m.ut, d.std, |d.kinds|);
    FlagBytes(buf, m.ut, m.end, d.ut, |d.kinds|);
  }

  lemma PlacedAt(buf: seq<Byte>, width: nat, m: Marks)
    requires 44 <= |buf| && Placed(buf, width, m)
    ensures StdsAt(buf, width) == m.std && UtsAt(buf, width) == m.ut
  {
    hide TypesAt, InfosAt, CharsAt, LeapsAt, StdsAt, UtsAt, BlockSize;
  }

  lemma FlagBytes(buf: seq<Byte>, lo: nat, hi: nat, flags: Option<seq<bool>>, n: nat)
    requires lo <= hi <= |buf| && buf[lo..hi] == Flags(flags) && FlagsFor(flags, n)
    ensures FlagCount(flags) != 0 ==> lo + n <= |buf|
    ensures FlagsFit(buf, lo, n, FlagCount(flags) != 0)
  {
    if FlagCount(flags) != 0 {
      forall k | lo <= k < lo + n
        ensures buf[k] < 2
      {
        FlagRead(buf, lo, hi, flags, k - lo);
      }
    }
  }

  /** Every block that is written is accepted, and the loader finds its end. */
  lemma WrittenIsWellFormed(buf: seq<Byte>, d: Block, width: nat)
    requires Good(d, width) && Written(d, width) <= buf
    ensures WellFormed(buf, width) && BlockSize(buf, width) == |Written(d, width)| && buf[4] == d.front[4]
  {
    hide *;
    GoodSizes(d, width);
    BlockFitsWritten(buf, d, width);
    PartsOf(buf, d, width);
    CountsRead(buf, d, width);
    TransitionsRead(buf, d, width);
    SaidInOrder(d, width);
    LeapsReadBack(buf, d, width);
    GoodLeapsAccepted(d, width);
    FlagsWritten(buf, d, width);
    forall i | 0 <= i < |d.kinds|
      ensures InfoFits(buf, width, i)
    {
      InfoRead(buf, d, width, i);
    }
    WellFormedIs(buf, width);
  }

  lemma WellFormedIs(buf: seq<Byte>, width: nat)
    requires BlockFits(buf, width)
    ensures WellFormed(buf, width) <==>
              && Ascends(FileTransitions(buf, width)) && TypesBelow(FileTransitions(buf, width), TypeCnt(buf))
              && (forall i :: 0 <= i < TypeCnt(buf) ==> InfoFits(buf, width, i))
              && FlagsFit(buf, StdsAt(buf, width), TypeCnt(buf), TtisstdCnt(buf) != 0)
              && FlagsFit(buf, UtsAt(buf, width), TypeCnt(buf), TtisutCnt(buf) != 0)
              && Accepted(FileLeaps(buf, width))
  {
    hide Ascends, TypesBelow, InfoFits, FlagsFit, Accepted, BlockFits, FileTransitions, FileLeaps, StdsAt, UtsAt, TypeCnt,
      TtisstdCnt, TtisutCnt;
  }

  lemma SaidInOrder(d: Block, width: nat)
    requires Good(d, width)
    ensures Ascends(SaidTransitions(d)) && TypesBelow(SaidTransitions(d), |d.kinds|)
  {
    hide FitsBytes, GoodLeap;
  }

  lemma GoodLeapsAccepted(d: Block, width: nat)
    requires Good(d, width)
    ensures Accepted(d.leaps)
  {
    forall i | 0 <= i < |d.leaps|
      ensures Follows(d.leaps, i)
    {
      assert GoodLeap(d.leaps, i, width);
    }
  }
}
