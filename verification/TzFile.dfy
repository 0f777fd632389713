/** tzloadbody1: a TZif file decoded into a state. */
module TzFile {
  import opened Bytes
  import opened CArith
  import opened Calendar
  import opened CivilTime
  import opened LeapSeconds
  import opened ZoneState
  import opened TzBytes

  // The transitions before index n that are followed by a later time.
  function Superseded(s: seq<Transition>, n: int): (r: seq<Transition>)
    requires 0 <= n < |s| || n == 0
    ensures |r| <= n
  {
    if n == 0 then []
    else Superseded(s, n - 1) + if s[n - 1].at < s[n].at then [s[n - 1]] else []
  }

  /** The transitions without those that another at the same time supersedes. */
  function Compact(s: seq<Transition>): seq<Transition> {
    if s == [] then [] else Superseded(s, |s| - 1) + [s[|s| - 1]]
  }

  lemma {:induction false} SupersededPrefix(s: seq<Transition>, n: int, m: int)
    requires 0 <= n < m <= |s|
    ensures Superseded(s[..m], n) == Superseded(s, n)
    decreases n
  {
    if n > 0 {
      SupersededPrefix(s, n - 1, m);
    }
  }

  lemma {:induction false} SupersededBefore(s: seq<Transition>, n: int)
    requires Ascends(s) && 0 <= n < |s|
    ensures Increasing(Superseded(s, n))
    ensures forall k :: 0 <= k < |Superseded(s, n)| ==> Superseded(s, n)[k].at < s[n].at
    decreases n
  {
    if n > 0 {
      SupersededBefore(s, n - 1);
    }
  }

  /** What is left has strictly increasing times. */
  lemma CompactIncreasing(s: seq<Transition>)
    requires Ascends(s)
    ensures Increasing(Compact(s))
  {
    if s != [] {
      SupersededBefore(s, |s| - 1);
    }
  }

  /** And the same lookups: at every time the type of the file's last transition not
      after it, the later entry counting when times are equal. */
  lemma {:induction false} CompactPicks(s: seq<Transition>, default: int, t: int)
    requires Ascends(s)
    ensures Pick(Compact(s), default, t) == Pick(s, default, t)
  {
    if s != [] {
      var n := |s| - 1;
      var front := Superseded(s, n);
      assert (front + [s[n]])[..|front|] == front;
      if t < s[n].at {
        SupersededPicks(s, n, default, t);
      }
    }
  }

  lemma {:induction false} SupersededPicks(s: seq<Transition>, n: int, default: int, t: int)
    requires Ascends(s) && 0 <= n < |s| && t < s[n].at
    ensures Pick(Superseded(s, n), default, t) == Pick(s[..n], default, t)
    decreases n
  {
    if n > 0 {
      var front := Superseded(s, n - 1);
      assert s[..n][..n - 1] == s[..n - 1];
      assert (front + [s[n - 1]])[..|front|] == front && front + [] == front;
      if t < s[n - 1].at {
        SupersededPicks(s, n - 1, default, t);
      }
    }
  }

  // Keep marks, as the first pass leaves them in types: whether entry k is not
  // superseded within the first n entries.
  function Mark(s: seq<Transition>, k: int, n: int): int
    requires 0 <= k < n <= |s|
  {
    if k == n - 1 || s[k].at < s[k + 1].at then 1 else 0
  }

  function Times(s: seq<Transition>): seq<int> {
    seq(|s|, i requires 0 <= i < |s| => s[i].at)
  }

  function Types(s: seq<Transition>): seq<int> {
    seq(|s|, i requires 0 <= i < |s| => s[i].ty)
  }

  lemma TimesSteps(c: seq<Transition>, x: Transition)
    ensures |Times(c)| == |c| && (c != [] ==> Times(c)[|c| - 1] == c[|c| - 1].at)
    ensures Times(c + [x]) == Times(c) + [x.at]
    ensures c != [] ==> Times(c[..|c| - 1] + [x]) == Times(c)[..|c| - 1] + [x.at]
    ensures Times([x]) == [x.at]
  {
  }

  // The first i entries of a file, read: times kept and marks made.
  ghost predicate Reading(sp: State, file: seq<Transition>, i: int, timecnt: int)
    requires sp.Shaped() && 0 <= i <= |file| <= TZ_MAX_TIMES
    reads sp, sp.ats, sp.types
  {
    && 0 <= timecnt <= i
    && (forall k :: 0 <= k < i ==> sp.types[k] == Mark(file, k, i))
    && sp.ats[..timecnt] == Times(Compact(file[..i]))
  }

  /** Source/tzdb.h:846-858: one more time kept, over the last one if equal to it;
      refused if earlier. */
  method KeepTime(sp: State, i: int, attime: int, timecnt0: int, ghost file: seq<Transition>)
    returns (ok: bool, timecnt: int)
    requires sp.Shaped() && 0 <= i < |file| <= TZ_MAX_TIMES
    requires Reading(sp, file, i, timecnt0) && attime == file[i].at
    modifies sp.ats, sp.types
    ensures ok <==> i == 0 || file[i - 1].at <= file[i].at
    ensures ok ==> Reading(sp, file, i + 1, timecnt)
  {
    hide Compact, Times;
    CompactStep(file, i);
    ghost var c := Compact(file[..i]);
    TimesSteps(c, file[i]);
    ok, timecnt := true, timecnt0;
    sp.types[i] := 1;
    if timecnt != 0 && attime <= sp.ats[timecnt - 1] {
      if attime < sp.ats[timecnt - 1] {
        return false, timecnt;
      }
      sp.types[i - 1] := 0;
      timecnt := timecnt - 1;
    }
    sp.ats[timecnt] := attime;
    timecnt := timecnt + 1;
    assert sp.ats[..timecnt] == sp.ats[..timecnt - 1] + [attime];
  }

  /** Source/tzdb.h:838-860: reads the times, each over the last one kept if equal
      to it, and marks in types the entries kept. */
  method ReadTimes(sp: State, buf: seq<Byte>, stored: int) returns (ok: bool, timecnt: int)
    requires sp.Shaped() && BlockFits(buf, stored)
    modifies sp.ats, sp.types
    ensures var file := FileTransitions(buf, stored);
            && (ok <==> Ascends(file))
            && (ok ==> Reading(sp, file, |file|, timecnt))
  {
    hide TypesAt, InfosAt, CharsAt, LeapsAt, StdsAt, UtsAt, BlockSize, BlockFits, TimeCnt, TypeCnt, CharCnt, LeapCnt, TtisstdCnt, TtisutCnt, Int32, Int64, Mark, Compact, Times;
    ghost var file := FileTransitions(buf, stored);
    FitFacts(buf, stored);
    var n := TimeCnt(buf);
    ok, timecnt := true, 0;
    var i, p := 0, TZHEADSIZE;
    StartReading(sp, file);
    while i < n
      invariant 0 <= i <= n && p == TZHEADSIZE + Wide(i, stored)
      invariant forall k :: 0 < k < i ==> file[k - 1].at <= file[k].at
      invariant Reading(sp, file, i, timecnt)
    {
      var at := ReadTime(buf, stored, p);
      assert at == file[i].at;
      sp.types[i] := if at <= TIME_T_MAX then 1 else 0;
      if sp.types[i] != 0 {
        var attime := if at < TIME_T_MIN then TIME_T_MIN else at;
        ok, timecnt := KeepTime(sp, i, attime, timecnt, file);
        if !ok {
          return;
        }
      }
      p := p + stored;
      i := i + 1;
    }
  }

  lemma StartReading(sp: State, file: seq<Transition>)
    requires sp.Shaped() && |file| <= TZ_MAX_TIMES
    ensures Reading(sp, file, 0, 0)
  {
    assert file[..0] == [];
  }

  // What the size check of a block gives.
  lemma FitFacts(buf: seq<Byte>, stored: int)
    requires BlockFits(buf, stored)
    ensures 0 <= TimeCnt(buf) < TZ_MAX_TIMES && 0 <= TypeCnt(buf) < TZ_MAX_TYPES
    ensures 0 <= CharCnt(buf) < TZ_MAX_CHARS && 0 <= LeapCnt(buf) < TZ_MAX_LEAPS
    ensures TtisstdCnt(buf) == TypeCnt(buf) || TtisstdCnt(buf) == 0
    ensures TtisutCnt(buf) == TypeCnt(buf) || TtisutCnt(buf) == 0
    ensures Width(stored) && TZHEADSIZE <= |buf| && BlockSize(buf, stored) <= |buf|
    ensures TypesAt(buf, stored) == TZHEADSIZE + Wide(TimeCnt(buf), stored)
    ensures InfosAt(buf, stored) == TypesAt(buf, stored) + TimeCnt(buf)
    ensures CharsAt(buf, stored) == InfosAt(buf, stored) + 6 * TypeCnt(buf)
    ensures LeapsAt(buf, stored) == CharsAt(buf, stored) + CharCnt(buf)
    ensures StdsAt(buf, stored) == LeapsAt(buf, stored) + Wide(LeapCnt(buf), stored) + 4 * LeapCnt(buf)
    ensures UtsAt(buf, stored) == StdsAt(buf, stored) + TtisstdCnt(buf)
    ensures BlockSize(buf, stored) == UtsAt(buf, stored) + TtisutCnt(buf)
  {
    hide Int32;
  }

  // One more entry: it goes after those kept, or over the last if at the same time.
  lemma CompactStep(s: seq<Transition>, i: int)
    requires 0 <= i < |s|
    ensures var c, c' := Compact(s[..i]), Compact(s[..i + 1]);
            && (i > 0 ==> c != [] && c[|c| - 1] == s[i - 1])
            && (i == 0 ==> c == [] && c' == [s[0]])
            && (i > 0 && s[i - 1].at < s[i].at ==> c' == c + [s[i]])
            && (i > 0 && s[i - 1].at >= s[i].at ==> c' == c[..|c| - 1] + [s[i]])
  {
    hide *;
    CompactOf(s, i + 1);
    if i > 0 {
      CompactOf(s, i);
      SupersededNext(s, i);
    } else {
      CompactNone(s);
    }
  }

  // The first m transitions compacted, from those of s superseded.
  lemma CompactOf(s: seq<Transition>, m: int)
    requires 0 < m <= |s|
    ensures Compact(s[..m]) == Superseded(s, m - 1) + [s[m - 1]]
  {
    SupersededPrefix(s, m - 1, m);
    hide Superseded;
  }

  lemma CompactNone(s: seq<Transition>)
    ensures Compact(s[..0]) == [] && (s != [] ==> Superseded(s, 0) == [])
  {
  }

  lemma SupersededNext(s: seq<Transition>, i: int)
    requires 0 < i < |s|
    ensures Superseded(s, i) == Superseded(s, i - 1) + if s[i - 1].at < s[i].at then [s[i - 1]] else []
  {
  }

  // The entries before i that are marked.
  function Marked(s: seq<Transition>, i: int): seq<Transition>
    requires 0 <= i <= |s|
  {
    if i < |s| then Superseded(s, i) else Compact(s)
  }

  // The first i types of a file, read and found good: those of marked entries moved
  // down.
  ghost predicate Moving(sp: State, file: seq<Transition>, typecnt: int, i: int, timecnt: int)
    requires sp.Shaped() && 0 <= i <= |file| <= TZ_MAX_TIMES
    reads sp, sp.types
  {
    && timecnt == |Marked(file, i)| <= i
    && sp.types[..timecnt] == Types(Marked(file, i))
    && (forall k :: i <= k < |file| ==> sp.types[k] == Mark(file, k, |file|))
    && (forall k :: 0 <= k < i ==> file[k].ty < typecnt)
  }

  ghost predicate AllMarked(sp: State, file: seq<Transition>)
    requires sp.Shaped() && |file| <= TZ_MAX_TIMES
    reads sp, sp.types
  {
    forall k :: 0 <= k < |file| ==> sp.types[k] == Mark(file, k, |file|)
  }

  method MoveType(sp: State, i: int, typ: int, typecnt: int, timecnt0: int, ghost file: seq<Transition>)
    returns (timecnt: int)
    requires sp.Shaped() && 0 <= i < |file| <= TZ_MAX_TIMES
    requires Moving(sp, file, typecnt, i, timecnt0) && typ == file[i].ty < typecnt
    modifies sp.types
    ensures Moving(sp, file, typecnt, i + 1, timecnt)
  {
    hide Marked, Types, Mark;
    timecnt := timecnt0;
    MarkedStep(file, i);
    if sp.types[i] != 0 {
      sp.types[timecnt] := typ;
      timecnt := timecnt + 1;
      assert sp.types[..timecnt] == sp.types[..timecnt - 1] + [typ];
    }
  }

  lemma MarkedEnds(s: seq<Transition>)
    ensures Marked(s, 0) == [] && Types([]) == [] && Marked(s, |s|) == Compact(s)
  {
  }

  lemma MarkedStep(s: seq<Transition>, i: int)
    requires 0 <= i < |s|
    ensures Mark(s, i, |s|) != 0 ==> Marked(s, i + 1) == Marked(s, i) + [s[i]]
    ensures Mark(s, i, |s|) == 0 ==> Marked(s, i + 1) == Marked(s, i)
    ensures |Marked(s, i)| <= i
    ensures Types(Marked(s, i) + [s[i]]) == Types(Marked(s, i)) + [s[i].ty]
  {
    assert Marked(s, i) + [] == Marked(s, i);
  }

  /** Source/tzdb.h:862-870: reads the types, from p on, moving those of marked
      entries down over the marks. */
  method ReadTypes(sp: State, buf: seq<Byte>, p: nat, n: nat, typecnt: int, ghost file: seq<Transition>)
    returns (ok: bool, timecnt: int)
    requires sp.Shaped() && n == |file| <= TZ_MAX_TIMES && p + n <= |buf|
    requires TypesFrom(buf, p, file) && AllMarked(sp, file)
    modifies sp.types
    ensures ok <==> TypesBelow(file, typecnt)
    ensures ok ==> Moving(sp, file, typecnt, n, timecnt)
  {
    StartMoving(sp, file, typecnt);
    hide Moving, AllMarked;
    ok, timecnt := true, 0;
    var i := 0;
    while i < n
      invariant 0 <= i <= n
      invariant Moving(sp, file, typecnt, i, timecnt)
    {
      var typ := buf[p + i];
      if typecnt <= typ {
        return false, timecnt;
      }
      timecnt := MoveType(sp, i, typ, typecnt, timecnt, file);
      i := i + 1;
    }
    AllFit(sp, file, typecnt, timecnt);
  }

  ghost predicate TypesFrom(buf: seq<Byte>, p: nat, file: seq<Transition>)
    requires p + |file| <= |buf|
  {
    forall k :: 0 <= k < |file| ==> file[k].ty == buf[p + k]
  }

  lemma AllFit(sp: State, file: seq<Transition>, typecnt: int, timecnt: int)
    requires sp.Shaped() && |file| <= TZ_MAX_TIMES
    requires Moving(sp, file, typecnt, |file|, timecnt)
    ensures TypesBelow(file, typecnt)
  {
  }

  lemma FileTypesFrom(buf: seq<Byte>, stored: int)
    requires BlockFits(buf, stored)
    ensures TZHEADSIZE <= TypesAt(buf, stored) && TypesAt(buf, stored) + TimeCnt(buf) <= |buf|
    ensures TypesFrom(buf, TypesAt(buf, stored), FileTransitions(buf, stored))
  {
    FitFacts(buf, stored);
  }

  lemma StartMoving(sp: State, file: seq<Transition>, typecnt: int)
    requires sp.Shaped() && |file| <= TZ_MAX_TIMES
    requires AllMarked(sp, file)
    ensures Moving(sp, file, typecnt, 0, 0)
  {
    MarkedEnds(file);
  }

  // Whether a state's type has what the file has, but for the two flags.
  predicate MatchesInfo(a: TtInfo, b: TtInfo) {
    a.utoff == b.utoff && a.isdst == b.isdst && a.desigidx == b.desigidx
  }

  // The first n types, read and found good, all but their flags.
  ghost predicate InfosRead(sp: State, buf: seq<Byte>, stored: int, n: int)
    requires sp.Shaped() && BlockFits(buf, stored) && 0 <= n <= TypeCnt(buf)
    reads sp, sp.ttis
  {
    forall k :: 0 <= k < n ==> MatchesInfo(sp.ttis[k], FileInfo(buf, stored, k)) && InfoFits(buf, stored, k)
  }

  lemma NoInfosRead(sp: State, buf: seq<Byte>, stored: int)
    requires sp.Shaped() && BlockFits(buf, stored) && 0 <= TypeCnt(buf)
    ensures InfosRead(sp, buf, stored, 0)
  {
  }

  lemma InfosReadFit(sp: State, buf: seq<Byte>, stored: int)
    requires sp.Shaped() && BlockFits(buf, stored) && 0 <= TypeCnt(buf)
    requires InfosRead(sp, buf, stored, TypeCnt(buf))
    ensures InfosFit(buf, stored)
  {
    hide FileInfo, InfoFits, MatchesInfo, TypeCnt, BlockFits;
  }

  method SetInfo(sp: State, buf: seq<Byte>, stored: int, i: int, info: TtInfo)
    requires sp.Shaped() && BlockFits(buf, stored) && 0 <= i < TypeCnt(buf) < TZ_MAX_TYPES
    requires InfosRead(sp, buf, stored, i)
    requires InfoFits(buf, stored, i) && MatchesInfo(info, FileInfo(buf, stored, i))
    modifies sp.ttis
    ensures InfosRead(sp, buf, stored, i + 1)
  {
    hide FileInfo, InfoFits, MatchesInfo, TypeCnt, BlockFits;
    sp.ttis[i] := info;
  }

  // One type, read at p.
  method ReadInfo(buf: seq<Byte>, stored: int, i: int, p: int, old': TtInfo) returns (ok: bool, info: TtInfo)
    requires BlockFits(buf, stored) && 0 <= i < TypeCnt(buf) && p == InfosAt(buf, stored) + 6 * i
    ensures ok <==> InfoFits(buf, stored, i)
    ensures ok ==> MatchesInfo(info, FileInfo(buf, stored, i))
  {
    FitFacts(buf, stored);
    hide TypesAt, InfosAt, CharsAt, LeapsAt, StdsAt, UtsAt, BlockSize, BlockFits, TimeCnt, TypeCnt, CharCnt, LeapCnt, TtisstdCnt, TtisutCnt, Int32, Int64;
    info := old';
    var utoff := Detzcode(buf, p);
    var isdst := buf[p + 4];
    if !(isdst < 2) {
      return false, info;
    }
    var desigidx := buf[p + 5];
    if !(desigidx < CharCnt(buf)) {
      return false, info;
    }
    ok := true;
    info := info.(utoff := utoff, isdst := isdst == 1, desigidx := desigidx);
  }

  /** Source/tzdb.h:872-888: the local time types, but for their two flags. */
  method ReadInfos(sp: State, buf: seq<Byte>, stored: int) returns (ok: bool)
    requires sp.Shaped() && BlockFits(buf, stored)
    modifies sp.ttis
    ensures 0 <= TypeCnt(buf)
    ensures ok <==> InfosFit(buf, stored)
    ensures ok ==> InfosRead(sp, buf, stored, TypeCnt(buf))
  {
    FitFacts(buf, stored);
    hide InfosRead, InfoFits, FileInfo, MatchesInfo, TypesAt, InfosAt, CharsAt, LeapsAt, StdsAt, UtsAt, BlockSize, BlockFits, TimeCnt, TypeCnt, CharCnt, LeapCnt, TtisstdCnt, TtisutCnt, Int32, Int64;
    var n := TypeCnt(buf);
    var i, p := 0, InfosAt(buf, stored);
    NoInfosRead(sp, buf, stored);
    ok := true;
    while i < n
      invariant 0 <= i <= n && p == InfosAt(buf, stored) + 6 * i
      invariant InfosRead(sp, buf, stored, i)
    {
      var info;
      ok, info := ReadInfo(buf, stored, i, p, sp.ttis[i]);
      if !ok {
        return;
      }
      SetInfo(sp, buf, stored, i, info);
      p := p + 6;
      i := i + 1;
    }
    InfosReadFit(sp, buf, stored);
  }

  function FileChars(buf: seq<Byte>, stored: int): seq<char>
    requires BlockFits(buf, stored)
  {
    seq(CharCnt(buf), i requires 0 <= i < CharCnt(buf) => buf[CharsAt(buf, stored) + i] as char)
  }

  /** Source/tzdb.h:889-891. */
  method ReadChars(sp: State, buf: seq<Byte>, stored: int)
    requires sp.Shaped() && BlockFits(buf, stored)
    modifies sp.chars
    ensures 0 <= CharCnt(buf) < TZ_MAX_CHARS
    ensures sp.chars[..CharCnt(buf)] == FileChars(buf, stored) && sp.chars[CharCnt(buf)] == '\0'
  {
    FitFacts(buf, stored);
    hide TypesAt, InfosAt, CharsAt, LeapsAt, StdsAt, UtsAt, BlockSize, BlockFits, TimeCnt, TypeCnt, CharCnt, LeapCnt, TtisstdCnt, TtisutCnt, Int32, Int64;
    var i, p := 0, CharsAt(buf, stored);
    while i < CharCnt(buf)
      invariant 0 <= i <= CharCnt(buf) && p == CharsAt(buf, stored) + i
      invariant forall k :: 0 <= k < i ==> sp.chars[k] == FileChars(buf, stored)[k]
    {
      sp.chars[i] := buf[p] as char;
      p := p + 1;
      i := i + 1;
    }
    sp.chars[i] := '\0';
  }

  method ReadLeap(buf: seq<Byte>, stored: int, i: int) returns (leap: LeapInfo)
    requires BlockFits(buf, stored) && 0 <= i < LeapCnt(buf)
    ensures leap == FileLeaps(buf, stored)[i] && leap.trans <= TIME_T_MAX
  {
    hide *;
    LeapAt(buf, stored, i);
    var p := LeapsAt(buf, stored) + Wide(i, stored) + 4 * i;
    var tr := ReadTime(buf, stored, p);
    var corr := Detzcode(buf, p + stored);
    leap := LeapInfo(tr, corr);
  }

  // A transition time, of four bytes or eight.
  method ReadTime(buf: seq<Byte>, stored: int, p: nat) returns (at: int)
    requires Width(stored) && p + stored <= |buf|
    ensures at == Time(buf, p, stored) && IsTime(at) && at <= TIME_T_MAX
  {
    hide Int32, Int64;
    if stored == 4 {
      at := Detzcode(buf, p);
    } else {
      at := Detzcode64(buf, p);
    }
  }

  lemma LeapAt(buf: seq<Byte>, stored: int, i: int)
    requires BlockFits(buf, stored) && 0 <= i < LeapCnt(buf)
    ensures Width(stored) && (stored == 4 || stored == 8) && TZHEADSIZE <= |buf|
    ensures var p := LeapsAt(buf, stored) + Wide(i, stored) + 4 * i;
            && 0 <= p && p + stored + 4 <= |buf| && i < |FileLeaps(buf, stored)|
            && FileLeaps(buf, stored)[i] == LeapInfo(Time(buf, p, stored), Int32(buf, p + stored))
  {
    FitFacts(buf, stored);
    hide BlockFits, LeapsAt, LeapCnt, Int32, Int64, Time;
  }

  // The first n leap seconds, read and found good.
  ghost predicate LeapsRead(sp: State, file: seq<LeapInfo>, n: int, prevtr: int, prevcorr: int)
    requires sp.Shaped() && 0 <= n <= |file| <= TZ_MAX_LEAPS
    reads sp, sp.lsis
  {
    && prevtr == (if n == 0 then 0 else file[n - 1].trans)
    && prevcorr == (if n == 0 then 0 else file[n - 1].corr)
    && forall k :: 0 <= k < n ==> Follows(file, k) && sp.lsis[k] == file[k]
  }

  // One more leap second, refused unless it is a good one.
  method KeepLeap(sp: State, i: int, leap: LeapInfo, prevtr: int, prevcorr: int, ghost file: seq<LeapInfo>)
    returns (ok: bool)
    requires sp.Shaped() && 0 <= i < |file| <= TZ_MAX_LEAPS && leap == file[i]
    requires LeapsRead(sp, file, i, prevtr, prevcorr)
    modifies sp.lsis
    ensures ok <==> Follows(file, i)
    ensures ok ==> LeapsRead(sp, file, i + 1, leap.trans, leap.corr)
  {
    hide Follows;
    FollowsIff(file, i, prevtr, prevcorr);
    if leap.trans < 0 {
      return false;
    }
    if leap.trans - prevtr < 28 * SECSPERDAY - 1 || (leap.corr != prevcorr - 1 && leap.corr != prevcorr + 1) {
      return false;
    }
    sp.lsis[i] := leap;
    ok := true;
  }

  lemma FollowsIff(file: seq<LeapInfo>, i: int, prevtr: int, prevcorr: int)
    requires 0 <= i < |file|
    requires prevtr == (if i == 0 then 0 else file[i - 1].trans) && prevcorr == (if i == 0 then 0 else file[i - 1].corr)
    ensures Follows(file, i) <==>
              !(file[i].trans < 0) && !(file[i].trans - prevtr < 28 * SECSPERDAY - 1
                                        || (file[i].corr != prevcorr - 1 && file[i].corr != prevcorr + 1))
  {
  }

  method NextLeap(sp: State, buf: seq<Byte>, stored: int, i: int, prevtr: int, prevcorr: int)
    returns (ok: bool, leap: LeapInfo)
    requires sp.Shaped() && BlockFits(buf, stored) && 0 <= i < LeapCnt(buf) < TZ_MAX_LEAPS
    requires LeapsRead(sp, FileLeaps(buf, stored), i, prevtr, prevcorr)
    modifies sp.lsis
    ensures !ok ==> !Accepted(FileLeaps(buf, stored))
    ensures ok ==> LeapsRead(sp, FileLeaps(buf, stored), i + 1, leap.trans, leap.corr)
  {
    hide LeapsRead, FileLeap, Follows, Accepted, LeapsAt, BlockSize, Int32, Int64, CountsFit;
    leap := ReadLeap(buf, stored, i);
    ok := KeepLeap(sp, i, leap, prevtr, prevcorr, FileLeaps(buf, stored));
    if !ok {
      LeapRefused(FileLeaps(buf, stored), i);
    }
  }

  /** Source/tzdb.h:893-920: the leap seconds, refused unless they are at least 28
      days apart, less a second, and one second each. No 64-bit time is past
      TIME_T_MAX, so none is left out. */
  method ReadLeaps(sp: State, buf: seq<Byte>, stored: int) returns (ok: bool, leapcnt: int)
    requires sp.Shaped() && BlockFits(buf, stored)
    modifies sp.lsis
    ensures ok <==> Accepted(FileLeaps(buf, stored))
    ensures ok ==> leapcnt == |FileLeaps(buf, stored)| <= TZ_MAX_LEAPS && sp.lsis[..leapcnt] == FileLeaps(buf, stored)
  {
    hide *;
    LeapsCount(buf, stored);
    ghost var file := FileLeaps(buf, stored);
    var n := LeapCnt(buf);
    var prevtr, prevcorr := 0, 0;
    NoLeapsRead(sp, file);
    ok, leapcnt := true, 0;
    while leapcnt < n
      invariant 0 <= leapcnt <= n
      invariant LeapsRead(sp, file, leapcnt, prevtr, prevcorr)
    {
      var leap;
      ok, leap := NextLeap(sp, buf, stored, leapcnt, prevtr, prevcorr);
      if !ok {
        return;
      }
      prevtr, prevcorr := leap.trans, leap.corr;
      leapcnt := leapcnt + 1;
    }
    AllLeapsRead(sp, file, prevtr, prevcorr);
  }

  lemma LeapsCount(buf: seq<Byte>, stored: int)
    requires BlockFits(buf, stored)
    ensures TZHEADSIZE <= |buf| && 0 <= LeapCnt(buf) == |FileLeaps(buf, stored)| < TZ_MAX_LEAPS
  {
  }

  lemma NoLeapsRead(sp: State, file: seq<LeapInfo>)
    requires sp.Shaped() && |file| <= TZ_MAX_LEAPS
    ensures LeapsRead(sp, file, 0, 0, 0)
  {
  }

  lemma LeapRefused(file: seq<LeapInfo>, i: int)
    requires 0 <= i < |file| && !Follows(file, i)
    ensures !Accepted(file)
  {
  }

  lemma AllLeapsRead(sp: State, file: seq<LeapInfo>, prevtr: int, prevcorr: int)
    requires sp.Shaped() && |file| <= TZ_MAX_LEAPS && LeapsRead(sp, file, |file|, prevtr, prevcorr)
    ensures Accepted(file) && sp.lsis[..|file|] == file
  {
  }

  // The first i types have the flag that the file gives them.
  ghost predicate FlagsSet(sp: State, old': seq<TtInfo>, buf: seq<Byte>, p: nat, n: nat, i: nat, present: bool, std: bool)
    requires sp.Shaped() && i <= n <= TZ_MAX_TYPES && |old'| == TZ_MAX_TYPES && (present ==> p + n <= |buf|)
    reads sp, sp.ttis
  {
    && (forall k :: 0 <= k < i ==>
          var flag := present && buf[p + k] == 1;
          sp.ttis[k] == if std then old'[k].(ttisstd := flag) else old'[k].(ttisut := flag))
    && (forall k :: i <= k < n ==> sp.ttis[k] == old'[k])
  }

  /** Source/tzdb.h:922-944: one of the two flags of each type, from p on; false
      when the file has none. */
  method ReadFlags(sp: State, buf: seq<Byte>, p0: nat, n: nat, present: bool, std: bool) returns (ok: bool, p: nat)
    requires sp.Shaped() && n <= TZ_MAX_TYPES && (present ==> p0 + n <= |buf|)
    modifies sp.ttis
    ensures ok <==> FlagsFit(buf, p0, n, present)
    ensures ok ==> p == p0 + (if present then n else 0)
    ensures ok ==> FlagsSet(sp, old(sp.ttis[..]), buf, p0, n, n, present, std)
  {
    ok, p := true, p0;
    var i := 0;
    while i < n
      invariant 0 <= i <= n && p == p0 + (if present then i else 0)
      invariant FlagsFit(buf, p0, i, present)
      invariant FlagsSet(sp, old(sp.ttis[..]), buf, p0, n, i, present, std)
    {
      var flag := false;
      if present {
        if buf[p] != 1 && buf[p] != 0 {
          return false, p;
        }
        flag := buf[p] == 1;
        p := p + 1;
      }
      sp.ttis[i] := if std then sp.ttis[i].(ttisstd := flag) else sp.ttis[i].(ttisut := flag);
      i := i + 1;
    }
  }

  /** The state of a decoded block: its transitions without the superseded ones, its
      types, its abbreviations and its leap seconds. */
  ghost predicate Decoded(sp: State, buf: seq<Byte>, stored: int)
    requires BlockFits(buf, stored)
    reads sp, sp.ats, sp.types, sp.ttis, sp.chars, sp.lsis
  {
    && sp.Shaped()
    && sp.Transitions() == Compact(FileTransitions(buf, stored))
    && RestDecoded(sp, buf, stored)
  }

  ghost predicate RestDecoded(sp: State, buf: seq<Byte>, stored: int)
    requires sp.Shaped() && BlockFits(buf, stored)
    reads sp, sp.ttis, sp.chars, sp.lsis
  {
    && InfosDecoded(sp, buf, stored)
    && CharsDecoded(sp, buf, stored)
    && sp.Leaps() == FileLeaps(buf, stored)
  }

  ghost predicate InfosDecoded(sp: State, buf: seq<Byte>, stored: int)
    requires sp.Shaped() && BlockFits(buf, stored)
    reads sp, sp.ttis
  {
    sp.typecnt == TypeCnt(buf) && forall i :: 0 <= i < sp.typecnt ==> sp.ttis[i] == FileInfo(buf, stored, i)
  }

  ghost predicate CharsDecoded(sp: State, buf: seq<Byte>, stored: int)
    requires sp.Shaped() && BlockFits(buf, stored)
    reads sp, sp.chars
  {
    && sp.charcnt == CharCnt(buf) < TZ_MAX_CHARS
    && sp.chars[..sp.charcnt] == FileChars(buf, stored) && sp.chars[sp.charcnt] == '\0'
  }

  // Types read and then given their flags are the file's.
  lemma FlagsComplete(sp: State, base: seq<TtInfo>, stds: seq<TtInfo>, buf: seq<Byte>, stored: int)
    requires sp.Shaped() && BlockFits(buf, stored) && |base| == |stds| == TZ_MAX_TYPES
    requires 0 <= TypeCnt(buf) < TZ_MAX_TYPES
    requires forall k :: 0 <= k < TypeCnt(buf) ==> MatchesInfo(base[k], FileInfo(buf, stored, k))
    requires forall k :: 0 <= k < TypeCnt(buf) ==>
               stds[k] == base[k].(ttisstd := FileInfo(buf, stored, k).ttisstd)
    requires forall k :: 0 <= k < TypeCnt(buf) ==>
               sp.ttis[k] == stds[k].(ttisut := FileInfo(buf, stored, k).ttisut)
    ensures forall k :: 0 <= k < TypeCnt(buf) ==> sp.ttis[k] == FileInfo(buf, stored, k)
  {
    hide FileInfo, TypeCnt, BlockFits;
  }

  /** Source/tzdb.h:871-944: types, abbreviations, leap seconds and flags. */
  method DecodeRest(sp: State, buf: seq<Byte>, stored: int) returns (ok: bool, p: int)
    requires sp.Shaped() && BlockFits(buf, stored)
    requires sp.typecnt == TypeCnt(buf) && sp.charcnt == CharCnt(buf) && sp.leapcnt == LeapCnt(buf)
    modifies sp.ttis, sp.chars, sp.lsis
    ensures ok <==> RestFits(buf, stored)
    ensures ok ==> p == BlockSize(buf, stored) && RestDecoded(sp, buf, stored)
  {
    FitFacts(buf, stored);
    hide BlockFits, FileLeaps, FileChars, FileInfo, InfoFits, MatchesInfo, Accepted, InfosFit, FlagsFit, TypesAt, InfosAt, CharsAt, LeapsAt, StdsAt, UtsAt, BlockSize, TimeCnt, TypeCnt, CharCnt, LeapCnt, TtisstdCnt, TtisutCnt, Int32, Int64;
    p := 0;
    ok := ReadInfos(sp, buf, stored);
    if !ok {
      return;
    }
    ReadChars(sp, buf, stored);
    var leapcnt;
    ok, leapcnt := ReadLeaps(sp, buf, stored);
    if !ok {
      return;
    }
    ok, p := DecodeFlags(sp, buf, stored);
  }

  /** Source/tzdb.h:922-944: both flags of every type. */
  method DecodeFlags(sp: State, buf: seq<Byte>, stored: int) returns (ok: bool, p: int)
    requires sp.Shaped() && BlockFits(buf, stored) && 0 <= TypeCnt(buf)
    requires InfosRead(sp, buf, stored, TypeCnt(buf))
    modifies sp.ttis
    ensures 0 <= StdsAt(buf, stored) && 0 <= UtsAt(buf, stored)
    ensures ok <==> && FlagsFit(buf, StdsAt(buf, stored), TypeCnt(buf), TtisstdCnt(buf) != 0)
                    && FlagsFit(buf, UtsAt(buf, stored), TypeCnt(buf), TtisutCnt(buf) != 0)
    ensures ok ==> p == BlockSize(buf, stored)
                   && forall i :: 0 <= i < TypeCnt(buf) ==> sp.ttis[i] == FileInfo(buf, stored, i)
  {
    hide BlockFits, FlagsFit, TypesAt, InfosAt, CharsAt, LeapsAt, StdsAt, UtsAt, BlockSize, TimeCnt, TypeCnt, CharCnt, LeapCnt, TtisstdCnt, TtisutCnt, Int32, Int64;
    FitFacts(buf, stored);
    ghost var base := sp.ttis[..];
    ok, p := ReadFlags(sp, buf, StdsAt(buf, stored), TypeCnt(buf), TtisstdCnt(buf) != 0, true);
    if !ok {
      return;
    }
    ghost var stds := sp.ttis[..];
    ok, p := ReadFlags(sp, buf, p, TypeCnt(buf), TtisutCnt(buf) != 0, false);
    if ok {
      FlagsComplete(sp, base, stds, buf, stored);
    }
  }

  lemma ZipOfParts(c: seq<Transition>)
    ensures |Times(c)| == |Types(c)| == |c| && Zip(Times(c), Types(c)) == c
  {
  }

  lemma FullySliced(s: seq<Transition>)
    ensures s[..|s|] == s
  {
  }

  /** Source/tzdb.h:834-870: the two passes over times and types leave, aligned, the
      transitions that are not superseded. */
  method DecodeTransitions(sp: State, buf: seq<Byte>, stored: int) returns (ok: bool)
    requires sp.Shaped() && BlockFits(buf, stored)
    modifies sp`timecnt, sp.ats, sp.types
    ensures sp.Shaped()
    ensures ok <==> TransitionsFit(buf, stored)
    ensures ok ==> sp.Transitions() == Compact(FileTransitions(buf, stored))
  {
    FitFacts(buf, stored);
    FileTypesFrom(buf, stored);
    ghost var file := FileTransitions(buf, stored);
    var timecnt;
    ok, timecnt := ReadTimes(sp, buf, stored);
    if !ok {
      return;
    }
    hide BlockFits, FileTransitions, Ascends, TypesBelow, Compact, Mark, Zip, TypesAt, InfosAt, CharsAt, LeapsAt, StdsAt, UtsAt, BlockSize, TimeCnt, TypeCnt, CharCnt, LeapCnt, TtisstdCnt, TtisutCnt, Int32, Int64;
    ok, timecnt := ReadTypes(sp, buf, TypesAt(buf, stored), TimeCnt(buf), TypeCnt(buf), file);
    if !ok {
      return;
    }
    MarkedEnds(file);
    FullySliced(file);
    ZipOfParts(Compact(file));
    sp.timecnt := timecnt;
  }

  /** Source/tzdb.h:800-949, one pass: a block is accepted exactly when it is well
      formed; the cursor then stands where the size check said the block ends. */
  method DecodeBlock(sp: State, buf: seq<Byte>, stored: int) returns (ok: bool, p: int)
    requires sp.Shaped() && Width(stored)
    modifies sp, sp.ats, sp.types, sp.ttis, sp.chars, sp.lsis
    ensures sp.Shaped() && sp.goback == old(sp.goback) && sp.goahead == old(sp.goahead)
    ensures ok <==> WellFormed(buf, stored)
    ensures ok ==> p == BlockSize(buf, stored) && Decoded(sp, buf, stored)
  {
    ok, p := false, 0;
    if |buf| < TZHEADSIZE || !CountsFit(buf) || |buf| < BlockSize(buf, stored) {
      return;
    }
    FitFacts(buf, stored);
    hide BlockFits, CountsFit, TransitionsFit, RestFits, RestDecoded, FileTransitions, Compact, Zip, TypesAt, InfosAt, CharsAt, LeapsAt, StdsAt, UtsAt, BlockSize, TimeCnt, TypeCnt, CharCnt, LeapCnt, TtisstdCnt, TtisutCnt, Int32, Int64;
    sp.leapcnt, sp.timecnt, sp.typecnt, sp.charcnt := LeapCnt(buf), TimeCnt(buf), TypeCnt(buf), CharCnt(buf);
    ok := DecodeTransitions(sp, buf, stored);
    if !ok {
      return;
    }
    ok, p := DecodeRest(sp, buf, stored);
  }
}
