/** The repetition of a table after 400 years, which lets it be folded. */
module TzRepeat {
  import opened Calendar
  import opened ZoneState
  import opened LocalTime
  import opened TzAbbrs

  predicate AlikeInfos(a: TtInfo, b: TtInfo, chars: seq<char>) {
    && a.utoff == b.utoff && a.isdst == b.isdst
    && a.ttisstd == b.ttisstd && a.ttisut == b.ttisut
    && CString(chars, a.desigidx) == CString(chars, b.desigidx)
  }

  /** Source/tzdb.h:1175-1198: whether two local time types are alike. */
  predicate TypesEquiv(infos: seq<TtInfo>, chars: seq<char>, a: int, b: int) {
    0 <= a < |infos| && 0 <= b < |infos| && AlikeInfos(infos[a], infos[b], chars)
  }

  // Two transitions to like types, one 400-year cycle apart.
  predicate Repeats(x: Transition, y: Transition, infos: seq<TtInfo>, chars: seq<char>) {
    TypesEquiv(infos, chars, y.ty, x.ty) && y.at - x.at == SECSPERREPEAT
  }

  /** The first transition comes again 400 years later. */
  ghost predicate FirstRepeats(s: seq<Transition>, infos: seq<TtInfo>, chars: seq<char>) {
    exists i :: 0 < i < |s| && Repeats(s[0], s[i], infos, chars)
  }

  /** The last transition came 400 years before. */
  ghost predicate LastRepeats(s: seq<Transition>, infos: seq<TtInfo>, chars: seq<char>) {
    s != [] && var last := s[|s| - 1]; exists i :: 0 <= i < |s| - 1 && Repeats(s[i], last, infos, chars)
  }

  predicate StandardType(infos: seq<TtInfo>, k: int) {
    0 <= k < |infos| && !infos[k].isdst
  }

  /** Which type is used before the first transition: type 0, if no transition is to it;
      or else the greatest standard type below that of a first transition to daylight
      time; or else the least standard type; or else type 0. */
  ghost predicate IsDefault(s: seq<Transition>, infos: seq<TtInfo>, i: int) {
    if forall k :: 0 <= k < |s| ==> s[k].ty != 0 then i == 0
    else if StartsWithDst(s, infos) && (exists k :: k < s[0].ty && StandardType(infos, k)) then
      i < s[0].ty && StandardType(infos, i) && forall k :: i < k < s[0].ty ==> !StandardType(infos, k)
    else if exists k :: StandardType(infos, k) then StandardType(infos, i) && forall k :: k < i ==> !StandardType(infos, k)
    else i == 0
  }

  predicate StartsWithDst(s: seq<Transition>, infos: seq<TtInfo>) {
    s != [] && 0 <= s[0].ty < |infos| && infos[s[0].ty].isdst
  }

  /** Whatever is read from a file, the state can be looked up in; and if its table is in
      order, it is at least 400 years long where it is marked for folding, so that every
      time can be folded. */
  lemma ScannedFoldable(sp: State)
    requires sp.Shaped() && InBounds(sp.Transitions(), sp.typecnt) && 0 <= sp.defaulttype < sp.typecnt
    requires sp.goback ==> FirstRepeats(sp.Transitions(), sp.Infos(), sp.chars[..])
    requires sp.goahead ==> LastRepeats(sp.Transitions(), sp.Infos(), sp.chars[..])
    ensures Usable(sp) && (NonDecreasing(sp.Transitions()) ==> Foldable(sp))
  {
    hide CString;
    var s, infos, chars := sp.Transitions(), sp.Infos(), sp.chars[..];
    assert forall i :: 0 <= i < sp.timecnt ==> s[i] == Transition(sp.ats[i], sp.types[i]);
    if NonDecreasing(s) {
      if sp.goback {
        var i :| 0 < i < sp.timecnt && Repeats(s[0], s[i], infos, chars);
        assert s[i].at <= s[sp.timecnt - 1].at;
      }
      if sp.goahead {
        var i :| 0 <= i < sp.timecnt - 1 && Repeats(s[i], s[sp.timecnt - 1], infos, chars);
        assert s[0].at <= s[i].at;
      }
    }
  }

  // What repeats does not depend on what lies past the nul that ends the characters.
  lemma RepeatsWithin(s: seq<Transition>, infos: seq<TtInfo>, chars: seq<char>, area: seq<char>)
    requires NulEnded(area) && area <= chars && forall k :: 0 <= k < |infos| ==> 0 <= infos[k].desigidx < |area|
    ensures FirstRepeats(s, infos, chars) == FirstRepeats(s, infos, area)
    ensures LastRepeats(s, infos, chars) == LastRepeats(s, infos, area)
  {
    forall a, b
      ensures TypesEquiv(infos, chars, a, b) == TypesEquiv(infos, area, a, b)
    {
      if 0 <= a < |infos| && 0 <= b < |infos| {
        CStringFrame(area, chars, infos[a].desigidx, |area|);
        CStringFrame(area, chars, infos[b].desigidx, |area|);
      }
    }
    hide TypesEquiv;
    assert forall x, y :: Repeats(x, y, infos, chars) == Repeats(x, y, infos, area);
    hide Repeats;
  }

  // A type, by whether it is of daylight time.
  function TypeOf(isdst: bool): TtInfo {
    TtInfo(0, isdst, 0, false, false)
  }

  /** Which type is used before the first transition, in the four cases: no transition is to
      type 0; a first transition to daylight time has standard types below it, the nearest of
      which counts; it has none, and the first standard type counts; there is none at all. */
  lemma DefaultCases(i: int)
    ensures IsDefault([Transition(5, 1)], [TypeOf(true), TypeOf(false)], i) <==> i == 0
    ensures IsDefault([Transition(5, 3), Transition(6, 0)], [TypeOf(false), TypeOf(false), TypeOf(true), TypeOf(true)], i) <==> i == 1
    ensures IsDefault([Transition(5, 0)], [TypeOf(true), TypeOf(false), TypeOf(false)], i) <==> i == 1
    ensures IsDefault([Transition(5, 0)], [TypeOf(true), TypeOf(true)], i) <==> i == 0
  {
    var std, dst := TypeOf(false), TypeOf(true);
    var s, four := [Transition(5, 3), Transition(6, 0)], [std, std, dst, dst];
    assert s[1].ty == 0 && StartsWithDst(s, four) && StandardType(four, 1) && StandardType(four, 0);
    assert !StandardType(four, 2) && !StandardType(four, 3);
    var one, three, two := [Transition(5, 0)], [dst, std, std], [dst, dst];
    assert one[0].ty == 0 && StandardType(three, 1) && !StandardType(three, 0) && StandardType(three, 2);
    assert !StandardType(two, 0) && !StandardType(two, 1);
  }

  /** Alike types show the same: the same clock, kind and name. */
  lemma AlikeShowSame(infos: seq<TtInfo>, chars: seq<char>, a: int, b: int)
    requires 0 <= a < |infos| && 0 <= b < |infos|
    ensures TypesEquiv(infos, chars, a, b) ==>
              infos[a].utoff == infos[b].utoff && infos[a].isdst == infos[b].isdst
              && CString(chars, infos[a].desigidx) == CString(chars, infos[b].desigidx)
    ensures infos[a].(desigidx := infos[b].desigidx) == infos[b] && CString(chars, infos[a].desigidx) == CString(chars, infos[b].desigidx)
            ==> TypesEquiv(infos, chars, a, b)
  {
    hide CString;
  }

  /** Two transitions 400 years apart are a table that repeats at both ends exactly if their
      types are alike. */
  lemma TwoRepeat(at: int, a: int, b: int, infos: seq<TtInfo>, chars: seq<char>)
    requires 0 <= a < |infos| && 0 <= b < |infos|
    ensures var s := [Transition(at, a), Transition(at + 146097 * 86400, b)];
            && (FirstRepeats(s, infos, chars) <==> TypesEquiv(infos, chars, b, a))
            && (LastRepeats(s, infos, chars) <==> TypesEquiv(infos, chars, b, a))
  {
    hide TypesEquiv;
    var s := [Transition(at, a), Transition(at + 146097 * 86400, b)];
    assert Repeats(s[0], s[1], infos, chars) <==> TypesEquiv(infos, chars, b, a);
  }
}
