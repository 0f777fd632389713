/** struct state: a time zone as a table of transitions between local time types. */
module ZoneState {
  import opened CivilTime

  const TZ_MAX_TIMES := 2000
  const TZ_MAX_TYPES := 256
  const TZ_MAX_CHARS := 50
  const TZ_MAX_CHARS_OR_NAMES := 512
  const TZ_MAX_LEAPS := 50

  // struct _ttinfo: a local time type.
  datatype TtInfo = TtInfo(utoff: int, isdst: bool, desigidx: int, ttisstd: bool, ttisut: bool)

  // A change of local time type: the time it happens and the type from then on.
  datatype Transition = Transition(at: int, ty: int)

  class State {
    var leapcnt: int
    var timecnt: int
    var typecnt: int
    var charcnt: int
    var goback: bool
    var goahead: bool
    const ats: array<int>
    const types: array<int>
    const ttis: array<TtInfo>
    const chars: array<char>
    const lsis: array<LeapInfo>
    var defaulttype: int

    constructor ()
      ensures Shaped() && fresh(ats) && fresh(types) && fresh(ttis) && fresh(chars) && fresh(lsis)
      ensures timecnt == 0 && leapcnt == 0 && !goback && !goahead
    {
      leapcnt, timecnt, typecnt, charcnt, defaulttype := 0, 0, 0, 0, 0;
      goback, goahead := false, false;
      ats := new int[TZ_MAX_TIMES];
      types := new int[TZ_MAX_TIMES];
      ttis := new TtInfo[TZ_MAX_TYPES];
      chars := new char[TZ_MAX_CHARS_OR_NAMES];
      lsis := new LeapInfo[TZ_MAX_LEAPS];
    }

    // The arrays have their sizes and the counts stay within them.
    ghost predicate Shaped()
      reads this
    {
      && ats.Length == types.Length == TZ_MAX_TIMES && ats != types
      && ttis.Length == TZ_MAX_TYPES && chars.Length == TZ_MAX_CHARS_OR_NAMES
      && lsis.Length == TZ_MAX_LEAPS
      && 0 <= timecnt <= TZ_MAX_TIMES && 0 <= typecnt <= TZ_MAX_TYPES
      && 0 <= charcnt <= TZ_MAX_CHARS_OR_NAMES && 0 <= leapcnt <= TZ_MAX_LEAPS
    }

    ghost function Transitions(): (s: seq<Transition>)
      requires Shaped()
      reads this, ats, types
      ensures |s| == timecnt
    {
      Zip(ats[..timecnt], types[..timecnt])
    }

    ghost function Infos(): seq<TtInfo>
      requires Shaped()
      reads this, ttis
    {
      ttis[..typecnt]
    }

    ghost function Leaps(): seq<LeapInfo>
      requires Shaped()
      reads this, lsis
    {
      lsis[..leapcnt]
    }
  }

  function Zip(ats: seq<int>, types: seq<int>): seq<Transition>
    requires |ats| == |types|
  {
    seq(|ats|, i requires 0 <= i < |ats| => Transition(ats[i], types[i]))
  }

  ghost predicate Increasing(s: seq<Transition>) {
    forall i, j :: 0 <= i < j < |s| ==> s[i].at < s[j].at
  }

  ghost predicate NonDecreasing(s: seq<Transition>) {
    forall i, j :: 0 <= i < j < |s| ==> s[i].at <= s[j].at
  }

  /** The type in force at t: that of the last transition not after t, or the given
      default before them all. */
  function Pick(s: seq<Transition>, default: int, t: int): int {
    if s == [] then default
    else if s[|s| - 1].at <= t then s[|s| - 1].ty
    else Pick(s[..|s| - 1], default, t)
  }

  lemma {:induction false} PickAt(s: seq<Transition>, default: int, t: int, i: int)
    requires 0 <= i < |s| && s[i].at <= t
    requires forall j :: i < j < |s| ==> t < s[j].at
    ensures Pick(s, default, t) == s[i].ty
    decreases |s|
  {
    if i < |s| - 1 {
      PickAt(s[..|s| - 1], default, t, i);
    }
  }

  lemma {:induction false} PickDefault(s: seq<Transition>, default: int, t: int)
    requires forall j :: 0 <= j < |s| ==> t < s[j].at
    ensures Pick(s, default, t) == default
  {
    if s != [] {
      PickDefault(s[..|s| - 1], default, t);
    }
  }

  /** The entry that the binary search between lo and hi ends at. */
  function Bisect(s: seq<Transition>, t: int, lo: int, hi: int): (k: int)
    requires 1 <= lo <= hi <= |s|
    ensures lo - 1 <= k < hi
    decreases hi - lo
  {
    if lo == hi then lo - 1
    else
      var mid := (lo + hi) / 2;
      if t < s[mid].at then Bisect(s, t, lo, mid) else Bisect(s, t, mid + 1, hi)
  }

  // The type that is found at t.
  function Searched(s: seq<Transition>, default: int, t: int): int {
    if s == [] || t < s[0].at then default else s[Bisect(s, t, 1, |s|)].ty
  }

  // At entry k the table passes t.
  predicate Passes(s: seq<Transition>, t: int, k: int) {
    0 <= k < |s| && s[k].at <= t && (k + 1 < |s| ==> t < s[k + 1].at)
  }

  lemma {:induction false} BisectPasses(s: seq<Transition>, t: int, lo: int, hi: int)
    requires 1 <= lo <= hi <= |s| && s[lo - 1].at <= t && (hi < |s| ==> t < s[hi].at)
    ensures Passes(s, t, Bisect(s, t, lo, hi))
    decreases hi - lo
  {
    if lo < hi {
      var mid := (lo + hi) / 2;
      if t < s[mid].at {
        BisectPasses(s, t, lo, mid);
      } else {
        BisectPasses(s, t, mid + 1, hi);
      }
    }
  }

  /** In a table in any order, the search finds the type of an entry at which the table
      passes t, or the default type before the first. */
  lemma SearchedPasses(s: seq<Transition>, default: int, t: int)
    ensures if s == [] || t < s[0].at then Searched(s, default, t) == default
            else exists k :: Passes(s, t, k) && Searched(s, default, t) == s[k].ty
  {
    if s != [] && s[0].at <= t {
      BisectPasses(s, t, 1, |s|);
    }
  }

  lemma SearchedAt(s: seq<Transition>, default: int, t: int) returns (k: int)
    requires s != [] && s[0].at <= t
    ensures 0 <= k < |s| && s[k].at <= t && (k + 1 < |s| ==> t < s[k + 1].at) && Passes(s, t, k)
    ensures Searched(s, default, t) == s[k].ty
  {
    BisectPasses(s, t, 1, |s|);
    k := Bisect(s, t, 1, |s|);
  }

  /** In a table in order that is the last entry not after t. */
  lemma SearchedIsPick(s: seq<Transition>, default: int, t: int)
    requires NonDecreasing(s)
    ensures Searched(s, default, t) == Pick(s, default, t)
  {
    if s == [] || t < s[0].at {
      PickDefault(s, default, t);
    } else {
      BisectPasses(s, t, 1, |s|);
      PickAt(s, default, t, Bisect(s, t, 1, |s|));
    }
  }

  // A table that t splits in two.
  lemma SearchedSplit(s: seq<Transition>, default: int, t: int, k: int)
    requires 0 <= k < |s| && (forall i :: 0 <= i <= k ==> s[i].at <= t) && forall i :: k < i < |s| ==> t < s[i].at
    ensures Searched(s, default, t) == s[k].ty
  {
    BisectPasses(s, t, 1, |s|);
  }

  // One year's two changes at the end of the sequence.
  lemma PickPair(s: seq<Transition>, a: Transition, b: Transition, default: int, t: int)
    ensures Pick(s + [a, b], default, t)
            == if b.at <= t then b.ty else if a.at <= t then a.ty else Pick(s, default, t)
  {
    var r := s + [a, b];
    assert r[..|r| - 1] == s + [a];
    assert (s + [a])[..|s|] == s;
  }

  // Two states that share no storage.
  ghost predicate Separate(sp: State, ts: State) {
    && ts != sp
    && ts.ats != sp.ats && ts.types != sp.types && ts.ats != sp.types && ts.types != sp.ats
    && ts.ttis != sp.ttis && ts.chars != sp.chars && ts.lsis != sp.lsis
  }
}
