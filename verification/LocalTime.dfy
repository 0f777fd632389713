/** localsub: local time from a table of transitions, folded by 400-year cycles
    outside it. */
module LocalTime {
  import opened CArith
  import opened Calendar
  import opened CivilTime
  import opened CivilOrder
  import opened Wrappers
  import opened ZoneState
  import opened RuleTable

  // Broken-down local time and the index of its abbreviation in chars.
  datatype Local = Local(tm: Tm, zone: int)

  // Transitions whose times and types are in range.
  ghost predicate InBounds(s: seq<Transition>, typecnt: int) {
    forall i :: 0 <= i < |s| ==> IsTime(s[i].at) && 0 <= s[i].ty < typecnt
  }

  /** What localsub takes for granted of a state: its types exist, and a table that is to
      be folded is not empty. The table may be in any order, and of any length. */
  ghost predicate Usable(sp: State)
    reads sp, sp.ats, sp.types
  {
    && sp.Shaped()
    && (forall i :: 0 <= i < sp.timecnt ==> 0 <= sp.types[i] < sp.typecnt && IsTime(sp.ats[i]))
    && 0 <= sp.defaulttype < sp.typecnt
    && (sp.goback || sp.goahead ==> 0 < sp.timecnt)
  }

  /** From its first entry to its last the table has every second of 400 years. */
  predicate Spans(s: seq<Transition>) {
    s != [] && s[0].at + SECSPERREPEAT - 1 <= s[|s| - 1].at
  }

  /** The states of which every time can be folded into the table. */
  ghost predicate Foldable(sp: State)
    reads sp, sp.ats, sp.types
  {
    Usable(sp) && (sp.goback || sp.goahead ==> Spans(sp.Transitions()))
  }

  // 400-year cycles that localsub adds to t.
  ghost function Folds(sp: State, t: int): int
    requires sp.Shaped()
    reads sp, sp.ats, sp.types
  {
    var s := sp.Transitions();
    if s != [] && ((sp.goback && t < s[0].at) || (sp.goahead && t > s[|s| - 1].at)) then Cycles(s, t) else 0
  }

  /** A time that is folded lands between the first and the last entry. */
  ghost predicate Lands(sp: State, t: int)
    requires sp.Shaped()
    reads sp, sp.ats, sp.types
  {
    var (s, k) := (sp.Transitions(), Folds(sp, t));
    k != 0 ==> s != [] && s[0].at <= t + k * SECSPERREPEAT <= s[|s| - 1].at
  }

  ghost function TypeAt(sp: State, t: int): int
    requires sp.Shaped()
    reads sp, sp.ats, sp.types
  {
    Searched(sp.Transitions(), sp.defaulttype, t)
  }

  ghost function InfoAt(sp: State, t: int): TtInfo
    requires Usable(sp)
    reads sp, sp.ats, sp.types, sp.ttis
  {
    TypeExists(sp, t);
    sp.ttis[TypeAt(sp, t)]
  }

  // The local clock at t, t being inside the folded range.
  ghost function LocalAt(sp: State, t: int): int
    requires Usable(sp)
    reads sp, sp.ats, sp.types, sp.ttis, sp.lsis
  {
    LocalSeconds(t, InfoAt(sp, t).utoff, sp.Leaps())
  }

  lemma TypeExists(sp: State, t: int)
    requires Usable(sp)
    ensures 0 <= TypeAt(sp, t) < sp.typecnt
  {
    var s := sp.Transitions();
    assert forall k :: 0 <= k < |s| ==> s[k].ty == sp.types[k];
  }

  lemma {:induction false} PickWithin(s: seq<Transition>, default: int, t: int, n: int)
    requires 0 <= default < n
    requires forall i :: 0 <= i < |s| ==> 0 <= s[i].ty < n
    ensures 0 <= Pick(s, default, t) < n
  {
    if s != [] {
      PickWithin(s[..|s| - 1], default, t, n);
    }
  }

  /** Source/tzdb.h:1874-1893: the binary search for the type at t, in a table in any
      order. */
  method FindType(sp: State, t: int) returns (i: int)
    requires Usable(sp)
    ensures i == TypeAt(sp, t) && 0 <= i < sp.typecnt
  {
    hide *;
    TypeExists(sp, t);
    TableEntries(sp);
    ghost var s := sp.Transitions();
    TypeAtIs(sp, t);
    if sp.timecnt == 0 || t < sp.ats[0] {
      i := sp.defaulttype;
    } else {
      var lo, hi := 1, sp.timecnt;
      while lo < hi
        invariant 1 <= lo <= hi <= sp.timecnt
        invariant Bisect(s, t, lo, hi) == Bisect(s, t, 1, |s|)
      {
        var mid := (lo + hi) / 2;
        BisectStep(s, t, lo, hi);
        if t < sp.ats[mid] {
          hi := mid;
        } else {
          lo := mid + 1;
        }
      }
      BisectStep(s, t, lo, hi);
      i := sp.types[lo - 1];
    }
  }

  lemma TableEntries(sp: State)
    requires Usable(sp)
    ensures sp.Shaped() && 0 <= sp.timecnt == |sp.Transitions()| <= sp.ats.Length == sp.types.Length
    ensures forall k :: 0 <= k < sp.timecnt ==> sp.Transitions()[k] == Transition(sp.ats[k], sp.types[k])
  {
  }

  lemma TypeAtIs(sp: State, t: int)
    requires Usable(sp)
    ensures sp.Shaped()
    ensures var s := sp.Transitions();
            TypeAt(sp, t) == if s == [] || t < s[0].at then sp.defaulttype else s[Bisect(s, t, 1, |s|)].ty
  {
    hide Bisect;
  }

  lemma BisectStep(s: seq<Transition>, t: int, lo: int, hi: int)
    requires 1 <= lo <= hi <= |s|
    ensures Bisect(s, t, lo, hi)
            == if lo == hi then lo - 1
               else if t < s[(lo + hi) / 2].at then Bisect(s, t, lo, (lo + hi) / 2) else Bisect(s, t, (lo + hi) / 2 + 1, hi)
  {
  }

  /** The local clock of u, shown with the years of `cycles` 400-year cycles put
      back; None when a year on the way does not fit an int. */
  ghost predicate LocalAnswer(sp: State, u: int, cycles: int, r: Option<Local>)
    requires Usable(sp)
    reads sp, sp.ats, sp.types, sp.ttis, sp.lsis
  {
    var local := LocalAt(sp, u);
    && (r.None? <==> OutOfRange(u, local)
                     || !IsInt(YearOf(local / SECSPERDAY) - TM_YEAR_BASE - cycles * YEARSPERREPEAT))
    && (r.Some? ==>
          && Shows(r.value.tm.(year := r.value.tm.year + cycles * YEARSPERREPEAT), local, Inserted(sp.Leaps(), u))
          && r.value.tm.isdst == InfoAt(sp, u).isdst
          && r.value.tm.gmtoff == InfoAt(sp, u).utoff
          && r.value.zone == InfoAt(sp, u).desigidx)
  }

  /** Source/tzdb.h:1813-1906. The answer is the local clock of t folded into the
      table, with the folded years put back; the fold is made at most once. If it does
      not land inside the table there is no answer. */
  method Localsub(sp: State, t: int) returns (r: Option<Local>)
    requires Usable(sp) && IsTime(t)
    ensures Answers(sp, t, r)
    decreases Folds(sp, t) != 0
  {
    hide *;
    TableEntries(sp);
    FoldsBeyond(sp, t);
    if (sp.goback && t < sp.ats[0]) || (sp.goahead && t > sp.ats[sp.timecnt - 1]) {
      var newt, years := Fold(sp, t);
      if newt < sp.ats[0] || newt > sp.ats[sp.timecnt - 1] {
        NotLanded(sp, t);
        return None;
      }
      LandedIsTime(sp, newt);
      var inner := Localsub(sp, newt);
      NotFolded(sp, newt, inner);
      r := PutBack(sp, inner, if t < sp.ats[0] then -years else years, newt, Folds(sp, t));
      FoldedAnswer(sp, t, newt, r);
      return;
    }
    var i := FindType(sp, t);
    r := LocalOfType(sp, t, i);
    FoldedAnswer(sp, t, t, r);
  }

  lemma FoldsBeyond(sp: State, t: int)
    requires Usable(sp)
    ensures sp.Shaped() && (sp.goback || sp.goahead ==> 0 < sp.timecnt)
    ensures var s := sp.Transitions();
            (s != [] && ((sp.goback && t < s[0].at) || (sp.goahead && t > s[|s| - 1].at))) || (Folds(sp, t) == 0 && Lands(sp, t))
  {
    hide Cycles;
  }

  lemma LandedIsTime(sp: State, t: int)
    requires Usable(sp) && 0 < sp.timecnt && sp.Shaped() && sp.ats[0] <= t <= sp.ats[sp.timecnt - 1]
    ensures IsTime(t)
  {
  }

  /** The answer at t is the local clock of t folded into the table, the years put back;
      there is none if the fold misses the table. */
  ghost predicate Answers(sp: State, t: int, r: Option<Local>)
    requires Usable(sp)
    reads sp, sp.ats, sp.types, sp.ttis, sp.lsis
  {
    var u := t + Folds(sp, t) * SECSPERREPEAT;
    if Lands(sp, t) then IsTime(u) && Folds(sp, u) == 0 && LocalAnswer(sp, u, Folds(sp, t), r) else r.None?
  }

  lemma FoldedAnswer(sp: State, t: int, u: int, r: Option<Local>)
    requires Usable(sp) && IsTime(u) && u == t + Folds(sp, t) * SECSPERREPEAT && Folds(sp, u) == 0 && Lands(sp, t)
    requires LocalAnswer(sp, u, Folds(sp, t), r)
    ensures Answers(sp, t, r)
  {
    hide LocalAnswer, Folds, Lands;
  }

  lemma AnswerOf(sp: State, t: int, r: Option<Local>)
    requires Usable(sp) && Answers(sp, t, r) && r.Some?
    ensures Lands(sp, t) && LocalAnswer(sp, t + Folds(sp, t) * SECSPERREPEAT, Folds(sp, t), r)
  {
    hide LocalAnswer, Folds, Lands;
  }

  lemma NotLanded(sp: State, t: int)
    requires Usable(sp) && !Lands(sp, t)
    ensures Answers(sp, t, None)
  {
    hide LocalAnswer, Folds, Lands;
  }

  lemma NotFolded(sp: State, t: int, r: Option<Local>)
    requires Usable(sp) && Folds(sp, t) == 0 && Answers(sp, t, r)
    ensures LocalAnswer(sp, t, 0, r)
  {
    hide LocalAnswer, Usable, Folds;
  }

  /** Source/tzdb.h:1852-1866: the folded years are put back, if the year then fits. */
  method PutBack(sp: State, inner: Option<Local>, years: int, ghost u: int, ghost cycles: int) returns (r: Option<Local>)
    requires Usable(sp) && LocalAnswer(sp, u, 0, inner) && years == -cycles * YEARSPERREPEAT
    ensures LocalAnswer(sp, u, cycles, r)
  {
    hide LocalAnswer, Usable;
    r := inner;
    if r.Some? {
      var newy := r.value.tm.year + years;
      if !(INT_MIN <= newy && newy <= INT_MAX) {
        r := None;
      } else {
        r := Some(r.value.(tm := r.value.tm.(year := newy)));
      }
    }
    Refold(sp, u, cycles, inner, r);
  }

  // Putting the folded years back into the answer for the folded time.
  lemma Refold(sp: State, u: int, cycles: int, inner: Option<Local>, r: Option<Local>)
    requires Usable(sp) && LocalAnswer(sp, u, 0, inner)
    requires inner.None? ==> r.None?
    requires inner.Some? ==>
               var newy := inner.value.tm.year - cycles * YEARSPERREPEAT;
               r == if IsInt(newy) then Some(inner.value.(tm := inner.value.tm.(year := newy))) else None
    ensures LocalAnswer(sp, u, cycles, r)
  {
    if inner.Some? {
      ShowsYear(inner.value.tm, LocalAt(sp, u), Inserted(sp.Leaps(), u));
      if r.Some? {
        assert r.value.tm.(year := r.value.tm.year + cycles * YEARSPERREPEAT) == inner.value.tm;
      }
    }
  }

  /** Source/tzdb.h:1828-1847: t moved by whole 400-year cycles towards the table. */
  method Fold(sp: State, t: int) returns (newt: int, years: int)
    requires Usable(sp) && IsTime(t)
    requires (sp.goback && t < sp.ats[0]) || (sp.goahead && t > sp.ats[sp.timecnt - 1])
    ensures Folds(sp, t) * YEARSPERREPEAT == if t < sp.ats[0] then years else -years
    ensures Folds(sp, t) != 0 && newt == t + Folds(sp, t) * SECSPERREPEAT
    ensures Lands(sp, t) <==> sp.ats[0] <= newt <= sp.ats[sp.timecnt - 1]
    ensures Lands(sp, t) ==> Folds(sp, newt) == 0
  {
    newt := t;
    var seconds;
    if t < sp.ats[0] {
      seconds := sp.ats[0] - t;
    } else {
      seconds := t - sp.ats[sp.timecnt - 1];
    }
    seconds := seconds - 1;
    years := (seconds / SECSPERREPEAT + 1) * YEARSPERREPEAT;
    seconds := years * AVGSECSPERYEAR;
    if t < sp.ats[0] {
      newt := newt + seconds;
    } else {
      newt := newt - seconds;
    }
  }

  /** A fold lands whatever the time, of those that the code can be asked for, exactly if
      the table has every second of 400 years, or there is no time beyond a side that is
      marked. */
  lemma LandsIff(sp: State)
    requires Usable(sp)
    ensures (forall t :: IsTime(t) ==> Lands(sp, t)) <==>
              var s := sp.Transitions();
              ((sp.goback && s != [] && TIME_T_MIN < s[0].at) || (sp.goahead && s != [] && s[|s| - 1].at < TIME_T_MAX)
               ==> Spans(s))
    ensures Foldable(sp) ==> forall t :: Lands(sp, t)
  {
    var s := sp.Transitions();
    hide Cycles;
    if Spans(s) {
      forall t
        ensures Lands(sp, t)
      {
        SpanLands(s, t);
      }
    } else if s != [] {
      FirstMissed(s);
      assert sp.goback && TIME_T_MIN < s[0].at ==> IsTime(s[0].at - 1) && !Lands(sp, s[0].at - 1);
      assert sp.goahead && s[|s| - 1].at < TIME_T_MAX ==> IsTime(s[|s| - 1].at + 1) && !Lands(sp, s[|s| - 1].at + 1);
    }
  }

  lemma SpanLands(s: seq<Transition>, t: int)
    requires Spans(s)
    ensures s[0].at <= t + Cycles(s, t) * SECSPERREPEAT <= s[|s| - 1].at
  {
  }

  // The times next to a table that is too short are folded past it.
  lemma FirstMissed(s: seq<Transition>)
    requires s != [] && !Spans(s)
    ensures var t := s[0].at - 1; Cycles(s, t) != 0 && !(s[0].at <= t + Cycles(s, t) * SECSPERREPEAT <= s[|s| - 1].at)
    ensures var t := s[|s| - 1].at + 1;
            Cycles(s, t) != 0 && !(s[0].at <= t + Cycles(s, t) * SECSPERREPEAT <= s[|s| - 1].at)
  {
  }

  /** Source/tzdb.h:1894-1905: the local clock at t under type i. */
  method LocalOfType(sp: State, t: int, i: int) returns (r: Option<Local>)
    requires Usable(sp) && IsTime(t) && i == TypeAt(sp, t)
    ensures LocalAnswer(sp, t, 0, r)
  {
    hide *;
    TypeExists(sp, t);
    TypeInArray(sp, t);
    var ttisp := sp.ttis[i];
    var tm := Timesub(t, ttisp.utoff, sp.lsis[..sp.leapcnt]);
    if tm.Some? {
      r := Some(Local(tm.value.(isdst := ttisp.isdst), ttisp.desigidx));
    } else {
      r := None;
    }
    AnswerIs(sp, t, tm, r);
  }

  lemma TypeInArray(sp: State, t: int)
    requires Usable(sp)
    ensures sp.Shaped() && sp.typecnt <= sp.ttis.Length && 0 <= sp.leapcnt <= sp.lsis.Length
  {
  }

  // What timesub answers under the type at t, with the kind and the name of that type.
  lemma AnswerIs(sp: State, t: int, tm: Option<Tm>, r: Option<Local>)
    requires Usable(sp) && 0 <= TypeAt(sp, t) < sp.typecnt <= sp.ttis.Length && 0 <= sp.leapcnt <= sp.lsis.Length
    requires var (info, lsis) := (sp.ttis[TypeAt(sp, t)], sp.lsis[..sp.leapcnt]); var local := LocalSeconds(t, info.utoff, lsis);
             && (tm.None? <==> OutOfRange(t, local))
             && (tm.Some? ==> Shows(tm.value, local, Inserted(lsis, t)) && tm.value.gmtoff == info.utoff)
             && (tm.Some? ==> r == Some(Local(tm.value.(isdst := info.isdst), info.desigidx))) && (tm.None? ==> r.None?)
    ensures LocalAnswer(sp, t, 0, r)
  {
    hide TypeAt, LocalSeconds, Inserted, YearOf, YearStart, MonthStart, MonthLength, IsLeap;
    if tm.Some? {
      var local := LocalSeconds(t, sp.ttis[TypeAt(sp, t)].utoff, sp.lsis[..sp.leapcnt]);
      ShowsYear(tm.value, local, Inserted(sp.lsis[..sp.leapcnt], t));
    }
  }

  lemma ShowsYear(tm: Tm, local: int, inserted: bool)
    requires Shows(tm, local, inserted)
    ensures tm.year == YearOf(local / SECSPERDAY) - TM_YEAR_BASE
  {
    ShowsParts(tm, local, inserted);
  }

  /** Without leap seconds the fold is exact: the answer shows the very clock that t
      has under the type picked. */
  lemma FoldIsExact(sp: State, t: int, r: Option<Local>)
    requires Usable(sp) && sp.leapcnt == 0
    requires LocalAnswer(sp, t + Folds(sp, t) * SECSPERREPEAT, Folds(sp, t), r) && r.Some?
    ensures Shows(r.value.tm, t + InfoAt(sp, t + Folds(sp, t) * SECSPERREPEAT).utoff, false)
  {
    hide Shows, Folds, Searched, Cycles;
    var k := Folds(sp, t);
    var u := t + k * SECSPERREPEAT;
    var tm := r.value.tm;
    var folded := tm.(year := tm.year + k * YEARSPERREPEAT);
    NoLeaps(sp, u);
    FieldsPeriod(folded, LocalAt(sp, u), false, -k);
    assert folded.(year := folded.year + -k * YEARSPERREPEAT) == tm;
    assert LocalAt(sp, u) + -k * SECSPERREPEAT == t + InfoAt(sp, u).utoff;
  }

  lemma NoLeaps(sp: State, u: int)
    requires Usable(sp) && sp.leapcnt == 0
    ensures LocalAt(sp, u) == u + InfoAt(sp, u).utoff && !Inserted(sp.Leaps(), u)
  {
    hide Searched;
    assert sp.Leaps() == [];
  }
}
