/** The normal form of a character sequence: what GSeq_normalize makes of it, and
    when doing it twice makes no difference. */
module CharNormal {
  import opened Wrappers
  import opened MarkOrder
  import opened Decompose

  // The first unit that may be composed, or the end.
  function Base(s: seq<Unit>): (b: nat)
    ensures b <= |s| && (b < |s| ==> s[b] >= 0xC0) && forall i :: 0 <= i < b ==> s[i] < 0xC0
  {
    if s == [] || s[0] >= 0xC0 then 0 else 1 + Base(s[1..])
  }

  // The first nul from i on, or the end.
  function NulFrom(s: seq<Unit>, i: nat): (e: nat)
    requires i <= |s|
    ensures i <= e <= |s| && (e < |s| ==> s[e] == 0) && forall k :: i <= k < e ==> s[k] != 0
    decreases |s| - i
  {
    if i == |s| || s[i] == 0 then i else NulFrom(s, i + 1)
  }

  // The units that the expansion goes over.
  function Reach(s: seq<Unit>): seq<Unit> {
    s[Base(s)..NulFrom(s, Base(s))]
  }

  // The units before them, the units they expand to, and a nul.
  ghost function Expansion(T: Tables, s: seq<Unit>): seq<Unit>
    requires Sound(T)
  {
    s[..Base(s)] + Expand(T, Reach(s), T.maxDepth) + [0]
  }

  /** The normal form. A sequence with no unit from 0x00C0 up is its own; otherwise
      what follows the first such unit is expanded up to a nul, a nul is counted in,
      and the marks are put in order. */
  ghost function Normal(T: Tables, s: seq<Unit>): seq<Unit>
    requires Sound(T)
  {
    if Base(s) == |s| then s else Sort(T.cop, Expansion(T, s))
  }

  /** Whether the expansion of s leaves nothing composed. */
  ghost predicate NormalSettles(T: Tables, s: seq<Unit>)
    requires Sound(T)
  {
    Settles(T, Reach(s), T.maxDepth)
  }

  lemma {:induction false} InsertMembers(cop: ClassOf, s: seq<Unit>, u: Unit)
    ensures forall x :: x in Insert(cop, s, u) <==> x in s || x == u
    decreases |s|
  {
    if s == [] || !Mark(cop, u) || Less(cop, s[|s| - 1], u) {
    } else {
      assert s == s[..|s| - 1] + [s[|s| - 1]];
      if s[|s| - 1] != u {
        InsertMembers(cop, s[..|s| - 1], u);
      }
    }
  }

  lemma {:induction false} SortMembers(cop: ClassOf, s: seq<Unit>)
    ensures forall x :: x in Sort(cop, s) <==> x in s
    decreases |s|
  {
    if s != [] {
      SortMembers(cop, s[..|s| - 1]);
      InsertMembers(cop, Sort(cop, s[..|s| - 1]), s[|s| - 1]);
      assert s == s[..|s| - 1] + [s[|s| - 1]];
    }
  }

  // A starter at the end stays there.
  lemma SortStarter(cop: ClassOf, s: seq<Unit>, u: Unit)
    requires !Mark(cop, u)
    ensures Sort(cop, s + [u]) == Sort(cop, s) + [u]
  {
    assert (s + [u])[..|s|] == s;
  }

  // Starters at the front stay there.
  lemma {:induction false} InsertAfterStarters(cop: ClassOf, a: seq<Unit>, s: seq<Unit>, u: Unit)
    requires forall x :: x in a ==> !Mark(cop, x)
    ensures Insert(cop, a + s, u) == a + Insert(cop, s, u)
    decreases |s|
  {
    if s == [] {
      assert a + s == a;
      assert a != [] ==> a[|a| - 1] in a;
    } else {
      assert (a + s)[|a + s| - 1] == s[|s| - 1];
      if Mark(cop, u) && !Less(cop, s[|s| - 1], u) && s[|s| - 1] != u {
        assert (a + s)[..|a + s| - 1] == a + s[..|s| - 1];
        InsertAfterStarters(cop, a, s[..|s| - 1], u);
      }
      assert a + s + [u] == a + (s + [u]);
    }
  }

  lemma {:induction false} SortAfterStarters(cop: ClassOf, a: seq<Unit>, s: seq<Unit>)
    requires forall x :: x in a ==> !Mark(cop, x)
    ensures Sort(cop, a + s) == a + Sort(cop, s)
    decreases |a| + |s|
  {
    hide *;
    if s == [] {
      assert a + s == a;
      SortNone(cop);
      if a != [] {
        var b, u := a[..|a| - 1], a[|a| - 1];
        assert u in a && forall x :: x in b ==> x in a;
        SortAfterStarters(cop, b, []);
        assert b + [] == b && a == b + [u];
        SortStarter(cop, b, u);
        assert a + [] == a;
      }
    } else {
      var r, u := s[..|s| - 1], s[|s| - 1];
      assert a + s == (a + r) + [u];
      SortAfterStarters(cop, a, r);
      SortNext(cop, a + r, u);
      SortNext(cop, r, u);
      assert s == r + [u];
      InsertAfterStarters(cop, a, Sort(cop, r), u);
    }
  }

  lemma SortNone(cop: ClassOf)
    ensures Sort(cop, []) == []
  {
  }

  lemma SortNext(cop: ClassOf, s: seq<Unit>, u: Unit)
    ensures Sort(cop, s + [u]) == Insert(cop, Sort(cop, s), u)
  {
    hide Insert;
    assert (s + [u])[..|s|] == s;
  }

  // The bound on depth does not matter to the result.
  lemma {:induction false} ExpandBound(T: Tables, s: seq<Unit>, n: nat, m: nat)
    requires Sound(T) && Within(T, s, n) && Within(T, s, m)
    ensures Expand(T, s, n) == Expand(T, s, m)
    decreases n
  {
    hide *;
    if FirstComposed(T, s) < |s| {
      var head, lead, tail := Round(T, s, n);
      var head', lead', tail' := Round(T, s, m);
      SameParts(head, lead, tail, head', lead', tail');
      ExpandBound(T, tail, n - 1, m - 1);
    } else {
      FirstIs(T, s);
      NoRound(T, s, n);
      NoRound(T, s, m);
    }
  }

  lemma RoundIs(T: Tables, s: seq<Unit>, n: nat)
    requires Sound(T) && Within(T, s, n) && FirstComposed(T, s) < |s|
    ensures var k := FirstComposed(T, s);
            && n > 0 && k < |Once(T, s)| && Within(T, Once(T, s)[k + 1..], n - 1)
            && Expand(T, s, n) == Once(T, s)[..k + 1] + Expand(T, Once(T, s)[k + 1..], n - 1)
  {
    hide *;
    var head, lead, tail := Round(T, s, n);
    CutParts(head, lead, tail);
  }

  lemma CutParts(a: seq<Unit>, x: Unit, b: seq<Unit>)
    ensures (a + [x] + b)[..|a| + 1] == a + [x] && (a + [x] + b)[|a| + 1..] == b
  {
  }

  lemma SameParts(a: seq<Unit>, x: Unit, b: seq<Unit>, a': seq<Unit>, x': Unit, b': seq<Unit>)
    requires |a| == |a'| && a + [x] + b == a' + [x'] + b'
    ensures a == a' && x == x' && b == b'
  {
    var s := a + [x] + b;
    assert s[..|a|] == a && s[|a|] == x && s[|a| + 1..] == b;
    assert s[..|a|] == a' && s[|a|] == x' && s[|a| + 1..] == b';
  }

  // After a round no composed unit is as deep as the deepest was.
  lemma {:induction false} ExpandWithin(T: Tables, s: seq<Unit>, n: nat)
    requires Sound(T) && Within(T, s, n)
    ensures Within(T, Expand(T, s, n), if n == 0 then 0 else n - 1)
    decreases n
  {
    hide *;
    if FirstComposed(T, s) < |s| {
      var head, lead, tail := Round(T, s, n);
      ExpandWithin(T, tail, n - 1);
      var rest := Expand(T, tail, n - 1);
      WithinMore(T, rest, if n == 1 then 0 else n - 2, n - 1);
      WithinAppend(T, head, [lead], n - 1);
      WithinAppend(T, head + [lead], rest, n - 1);
    } else {
      NoRound(T, s, n);
      WithinMore(T, s, 0, if n == 0 then 0 else n - 1);
    }
  }

  lemma {:induction false} ExpandNoNul(T: Tables, s: seq<Unit>, n: nat)
    requires Sound(T) && Within(T, s, n) && 0 !in s
    ensures 0 !in Expand(T, s, n)
    decreases n
  {
    hide *;
    if FirstComposed(T, s) < |s| {
      var head, lead, tail := Round(T, s, n);
      ExpandNoNul(T, tail, n - 1);
      assert 0 !in head + [lead];
    } else {
      NoRound(T, s, n);
    }
  }

  // The normal form taken apart: what is before the reach, sorted expansion, nul.
  lemma NormalParts(T: Tables, s: seq<Unit>) returns (p: seq<Unit>, y: seq<Unit>)
    requires Sound(T) && Base(s) < |s|
    ensures p == s[..Base(s)] && y == Sort(T.cop, Expand(T, Reach(s), T.maxDepth))
    ensures Normal(T, s) == p + y + [0] && Sort(T.cop, Normal(T, s)) == Normal(T, s)
    ensures 0 !in y && forall u :: u in p ==> u < 0xC0
    ensures Plain(T, y) <==> NormalSettles(T, s)
  {
    var x := Expand(T, Reach(s), T.maxDepth);
    p, y := s[..Base(s)], Sort(T.cop, x);
    assert p + x + [0] == (p + x) + [0];
    SortStarter(T.cop, p + x, 0);
    SortAfterStarters(T.cop, p, x);
    ExpandNoNul(T, Reach(s), T.maxDepth);
    SortMembers(T.cop, x);
    SettlesIffPlain(T, Reach(s), T.maxDepth);
    SortIdempotent(T.cop, Expansion(T, s));
  }

  // A sequence of plain start, nul-free middle and nul: its reach.
  lemma ReachOf(p: seq<Unit>, y: seq<Unit>)
    requires 0 !in y && forall u :: u in p ==> u < 0xC0
    ensures var r, b := p + y + [0], Base(p + y + [0]);
            && b >= |p| && (b < |r| ==> b < |r| - 1 && Reach(r) == y[b - |p|..])
            && (forall k :: 0 <= k < b ==> r[k] < 0xC0)
            && (b == |r| ==> forall u :: u in y ==> u < 0xC0)
  {
    var r: seq<Unit>, b := p + y + [0], Base(p + y + [0]);
    assert forall k :: 0 <= k < |p| ==> r[k] == p[k] && p[k] in p;
    assert forall k :: 0 <= k < |y| ==> r[|p| + k] == y[k];
    if b < |r| {
      var e := NulFrom(r, b);
      assert e == |r| - 1 by {
        assert r[|r| - 1] == 0;
      }
    } else {
      forall u | u in y
        ensures u < 0xC0
      {
        var k :| 0 <= k < |y| && y[k] == u;
        assert r[|p| + k] == u;
      }
    }
  }

  /** Normalising a second time changes nothing exactly when the first time left
      nothing composed. */
  lemma NormalIdempotentIff(T: Tables, s: seq<Unit>)
    requires Sound(T)
    ensures Normal(T, Normal(T, s)) == Normal(T, s) <==> Base(s) == |s| || NormalSettles(T, s)
  {
    hide *;
    if Base(s) < |s| {
      var p, y := NormalParts(T, s);
      var r := Normal(T, s);
      ReachOf(p, y);
      if Base(r) < |r| {
        SecondTime(T, p, y, r, Base(r));
      } else {
        NormalOfLow(T, r);
        LowIsPlain(T, y);
      }
    } else {
      NormalOfLow(T, s);
    }
  }

  lemma NormalOfLow(T: Tables, r: seq<Unit>)
    requires Sound(T) && Base(r) == |r|
    ensures Normal(T, r) == r
  {
  }

  lemma LowIsPlain(T: Tables, y: seq<Unit>)
    requires Sound(T) && forall u :: u in y ==> u < 0xC0
    ensures Plain(T, y)
  {
  }

  lemma NormalOfHigh(T: Tables, r: seq<Unit>)
    requires Sound(T) && Base(r) < |r|
    ensures Normal(T, r) == Sort(T.cop, r[..Base(r)] + Expand(T, Reach(r), T.maxDepth) + [0])
  {
    AllWithin(T, Reach(r));
  }

  lemma ExpandPlain(T: Tables, s: seq<Unit>, n: nat)
    requires Sound(T) && Within(T, s, n) && Plain(T, s)
    ensures Expand(T, s, n) == s
  {
    assert forall k :: 0 <= k < |s| ==> s[k] in s;
  }

  lemma SecondTime(T: Tables, p: seq<Unit>, y: seq<Unit>, r: seq<Unit>, b: nat)
    requires Sound(T) && r == p + y + [0] && Base(r) == b && |p| <= b < |r| - 1
    requires Reach(r) == y[b - |p|..] && forall k :: 0 <= k < b ==> r[k] < 0xC0
    requires Sort(T.cop, r) == r
    ensures Normal(T, r) == r <==> Plain(T, y)
  {
    hide *;
    var tail := Reach(r);
    AllWithin(T, tail);
    NormalOfHigh(T, r);
    HeadPlain(T, p, y, r, b);
    if Plain(T, tail) {
      ExpandPlain(T, tail, T.maxDepth);
    } else if Normal(T, r) == r {
      SortMembers(T.cop, r[..b] + Expand(T, tail, T.maxDepth) + [0]);
      Drains(T, r[..b], tail, T.maxDepth);
    }
  }

  lemma HeadPlain(T: Tables, p: seq<Unit>, y: seq<Unit>, r: seq<Unit>, b: nat)
    requires Sound(T) && r == p + y + [0] && |p| <= b < |r| - 1
    requires forall k :: 0 <= k < b ==> r[k] < 0xC0
    ensures r[..b] + y[b - |p|..] + [0] == r
    ensures Plain(T, y) <==> Plain(T, y[b - |p|..])
    ensures forall u :: u in y[b - |p|..] ==> u in r
  {
    hide *;
    var head, tail := y[..b - |p|], y[b - |p|..];
    assert y == head + tail;
    assert r[..b] == p + head;
    assert r == p + head + tail + [0];
    forall u | u in head
      ensures u < 0xC0
    {
      LowUnit(r, b, p + head, u);
    }
    LowIsPlain(T, head);
    PlainAppend(T, head, tail);
  }

  lemma LowUnit(r: seq<Unit>, b: nat, q: seq<Unit>, u: Unit)
    requires b <= |r| && r[..b] == q && u in q && forall k :: 0 <= k < b ==> r[k] < 0xC0
    ensures u < 0xC0
  {
    var k :| 0 <= k < |q| && q[k] == u;
    assert r[k] == r[..b][k];
  }

  // If expansion brings back every composed unit there was, there was none.
  lemma {:induction false} Drains(T: Tables, p: seq<Unit>, s: seq<Unit>, n: nat)
    requires Sound(T) && Within(T, s, n) && forall k :: 0 <= k < |p| ==> p[k] < 0xC0
    requires forall u :: u in s ==> u in p + Expand(T, s, n) + [0]
    ensures Plain(T, s)
    decreases n
  {
    hide *;
    if n > 0 {
      ExpandWithin(T, s, n);
      ComesBack(T, p, s, Expand(T, s, n), n - 1);
      ExpandBound(T, s, n, n - 1);
      Drains(T, p, s, n - 1);
    } else {
      OnceWithin(T, s, n);
    }
  }

  lemma ComesBack(T: Tables, p: seq<Unit>, s: seq<Unit>, e: seq<Unit>, n: nat)
    requires Sound(T) && Within(T, e, n) && forall k :: 0 <= k < |p| ==> p[k] < 0xC0
    requires forall u :: u in s ==> u in p + e + [0]
    ensures Within(T, s, n)
  {
    hide SoundEntry;
    forall u | u in s && Composed(T, u)
      ensures T.depth(u) <= n
    {
      assert u in p || u in e || u == 0;
    }
  }

  /** What the normal form is ordered from, when the expansion is full. */
  function Counted(T: Tables, s: seq<Unit>): seq<Unit> {
    if Base(s) == |s| then s else s[..Base(s)] + Full(T, Reach(s)) + [0]
  }

  lemma NormalIsSorted(T: Tables, s: seq<Unit>)
    requires Sound(T) && NormalSettles(T, s)
    ensures Normal(T, s) == Sort(T.cop, Counted(T, s))
  {
    AllWithin(T, Reach(s));
    if Base(s) == |s| {
      SortIs(T.cop, s, s);
    } else {
      hide Sort, Expand, Full, Settles;
      ExpandFullIff(T, Reach(s), T.maxDepth);
    }
  }

  /** Sequences that settle have the same normal form exactly when their full
      decompositions, with the nul that is counted in, have the same starters with the
      same sets of marks. */
  lemma NormalIsCanonical(T: Tables, s: seq<Unit>, t: seq<Unit>)
    requires Sound(T) && NormalSettles(T, s) && NormalSettles(T, t)
    ensures Normal(T, s) == Normal(T, t) <==> Runs(T.cop, Counted(T, s)) == Runs(T.cop, Counted(T, t))
  {
    hide *;
    NormalIsSorted(T, s);
    NormalIsSorted(T, t);
    SortCanonical(T.cop, Counted(T, s), Counted(T, t));
  }

  // Without a nul in it the sequence is decomposed to its end.
  lemma CountedNulFree(T: Tables, s: seq<Unit>)
    requires Sound(T) && 0 !in s
    ensures Counted(T, s) == Full(T, s) + if Base(s) == |s| then [] else [0]
  {
    hide *;
    NulFreeParts(T, s);
    CountedIs(T, s);
    if Base(s) == |s| {
      FullPlain(T, s);
    } else {
      FullAppend(T, s[..Base(s)], s[Base(s)..]);
    }
  }

  lemma CountedIs(T: Tables, s: seq<Unit>)
    ensures Counted(T, s) == if Base(s) == |s| then s else s[..Base(s)] + Full(T, Reach(s)) + [0]
    ensures s + [] == s && Base(s) <= |s|
  {
  }

  lemma NulFreeParts(T: Tables, s: seq<Unit>)
    requires Sound(T) && 0 !in s
    ensures var b := Base(s);
            b <= |s| && s == s[..b] + s[b..] && Reach(s) == s[b..] && Plain(T, s[..b]) && (b == |s| ==> Plain(T, s))
  {
    hide *;
    LowPart(T, s);
    NulFromFree(s, Base(s));
    ReachFrom(s);
    CutAt(s, Base(s));
  }

  lemma ReachFrom(s: seq<Unit>)
    ensures Base(s) <= |s| && Reach(s) == s[Base(s)..NulFrom(s, Base(s))]
  {
  }

  lemma CutAt(s: seq<Unit>, i: nat)
    requires i <= |s|
    ensures s == s[..i] + s[i..] && s[i..|s|] == s[i..] && (i == |s| ==> s[..i] == s)
  {
  }

  lemma LowPart(T: Tables, s: seq<Unit>)
    requires Sound(T)
    ensures Base(s) <= |s| && Plain(T, s[..Base(s)])
  {
    LowIsPlain(T, s[..Base(s)]);
  }

  lemma NulFromFree(s: seq<Unit>, i: nat)
    requires 0 !in s && i <= |s|
    ensures NulFrom(s, i) == |s|
  {
    hide NulFrom;
    var e := NulFrom(s, i);
  }

  lemma FullPlain(T: Tables, s: seq<Unit>)
    requires Plain(T, s)
    ensures Full(T, s) == s && s + [] == s
  {
    TimesPlain(T, s, T.maxDepth);
  }

  lemma RunsCounted(T: Tables, a: seq<Unit>, b: seq<Unit>)
    requires Sound(T)
    ensures Runs(T.cop, a + [0]) == Runs(T.cop, b + [0]) <==> Runs(T.cop, a) == Runs(T.cop, b)
  {
    RunsLast(T.cop, a + [0]);
    RunsLast(T.cop, b + [0]);
    assert (a + [0])[..|a|] == a && (b + [0])[..|b|] == b;
    var r, q := Runs(T.cop, a), Runs(T.cop, b);
    assert !Mark(T.cop, 0);
    hide Runs;
    assert Step(T.cop, r, 0)[..|r|] == r && Step(T.cop, q, 0)[..|q|] == q;
  }

  // Whether a nul is counted in can be seen in the normal form.
  lemma NulShows(T: Tables, s: seq<Unit>)
    requires Sound(T) && 0 !in s
    ensures 0 in Normal(T, s) <==> Base(s) < |s|
  {
    if Base(s) < |s| {
      var p, y := NormalParts(T, s);
      assert (p + y + [0])[|p + y|] == 0;
    }
  }

  /** For sequences without nuls: the same normal form means the same full decomposition
      up to the order and repetition of marks, and also that both or neither have a unit
      from 0x00C0 up. */
  lemma NormalIffNulFree(T: Tables, s: seq<Unit>, t: seq<Unit>)
    requires Sound(T) && NormalSettles(T, s) && NormalSettles(T, t) && 0 !in s && 0 !in t
    ensures Normal(T, s) == Normal(T, t)
            <==> Runs(T.cop, Full(T, s)) == Runs(T.cop, Full(T, t)) && (Base(s) == |s| <==> Base(t) == |t|)
  {
    hide *;
    NulShows(T, s);
    NulShows(T, t);
    BaseWithin(s);
    BaseWithin(t);
    NormalIsCanonical(T, s, t);
    CountedNulFree(T, s);
    CountedNulFree(T, t);
    RunsCounted(T, Full(T, s), Full(T, t));
    assert Full(T, s) + [] == Full(T, s) && Full(T, t) + [] == Full(T, t);
  }

  lemma BaseWithin(s: seq<Unit>)
    ensures Base(s) <= |s|
  {
  }

  /** In a normal form the combining classes rise along each run of marks, and among marks
      of one class the codes. */
  lemma NormalByClass(T: Tables, s: seq<Unit>)
    requires Sound(T)
    ensures var r := Normal(T, s);
            forall i :: 0 < i < |r| && T.cop(r[i]) != 0 ==>
              T.cop(r[i - 1]) < T.cop(r[i]) || (T.cop(r[i - 1]) == T.cop(r[i]) && r[i - 1] < r[i])
  {
    hide Sort, Expansion;
    if Base(s) == |s| {
      assert Normal(T, s) == s && forall i :: 0 <= i < |s| ==> !Mark(T.cop, s[i]);
    } else {
      SortByClass(T.cop, Expansion(T, s));
      assert Normal(T, s) == Sort(T.cop, Expansion(T, s));
    }
  }

  /** For example: U+0323, the dot below, is of class 220, and U+0301, the acute accent, of
      class 230. The accent before the dot is put after it. */
  lemma DotBeforeAccent(T: Tables)
    requires Sound(T) && T.cop(0x301) == 230 && T.cop(0x323) == 220
    requires T.decomp(0x301).None? && T.decomp(0x323).None?
    ensures Normal(T, [0x61, 0x301, 0x323]) == [0x61, 0x323, 0x301, 0]
  {
    var tail: seq<Unit> := [0x301, 0x323];
    MarksAfterLetter(T, 0x61, tail);
    assert [0x61] + tail == [0x61, 0x301, 0x323] && [0x61] + tail + [0] == [0x61, 0x301, 0x323, 0];
    DotRuns(T, [0x61, 0x323, 0x301, 0]);
    hide *;
    SortIs(T.cop, [0x61, 0x301, 0x323, 0], [0x61, 0x323, 0x301, 0]);
  }

  // A letter with marks on it, of which none is composed.
  lemma MarksAfterLetter(T: Tables, a: Unit, tail: seq<Unit>)
    requires Sound(T) && a < 0xC0 && tail != [] && Plain(T, tail) && 0 !in tail && tail[0] >= 0xC0
    ensures Normal(T, [a] + tail) == Sort(T.cop, [a] + tail + [0])
  {
    var s := [a] + tail;
    hide Normal, Expand, Sort;
    assert a != 0 ==> 0 !in s;
    BaseFirst(s, 1);
    NulAtEnd(s, 1);
    assert s[1..|s|] == tail && s[..1] == [a];
    AllWithin(T, tail);
    ExpandPlain(T, tail, T.maxDepth);
    NormalOf(T, s);
  }

  lemma NulAtEnd(s: seq<Unit>, i: nat)
    requires i <= |s| && forall k :: i <= k < |s| ==> s[k] != 0
    ensures NulFrom(s, i) == |s|
  {
    hide NulFrom;
    var e := NulFrom(s, i);
  }

  lemma DotRuns(T: Tables, r: seq<Unit>)
    requires Sound(T) && T.cop(0x301) == 230 && T.cop(0x323) == 220 && r == [0x61, 0x323, 0x301, 0]
    ensures Ordered(T.cop, r) && Runs(T.cop, r) == Runs(T.cop, [0x61, 0x301, 0x323, 0])
  {
    SwapKeepsRuns(T.cop, [0x61], 0x323, 0x301, [0]);
    assert [0x61] + [0x323, 0x301] + [0] == r && [0x61] + [0x301, 0x323] + [0] == [0x61, 0x301, 0x323, 0];
  }

  /** For example, c, U+00E9, b: the letter with an accent becomes the letter and the accent. */
  lemma AccentTakenApart(T: Tables)
    requires Sound(T) && T.decomp(0xE9) == Some([0x65, 0x301]) && T.decomp(0x301).None? && T.cop(0x301) == 230 && T.cop(0xE9) == 0
    ensures Normal(T, [0x63, 0xE9, 0x62]) == [0x63, 0x65, 0x301, 0x62, 0]
  {
    hide *;
    var s, tail: seq<Unit> := [0x63, 0xE9, 0x62], [0xE9, 0x62];
    AccentPlaces(s, tail);
    BaseFirst(s, 1);
    NulAtEnd(s, 1);
    AccentExpands(T, tail);
    NormalOf(T, s);
    assert [0x63] + [0x65, 0x301, 0x62] + [0] == [0x63, 0x65, 0x301, 0x62, 0];
    AccentOrdered(T);
    SortIs(T.cop, [0x63, 0x65, 0x301, 0x62, 0], [0x63, 0x65, 0x301, 0x62, 0]);
  }

  lemma AccentPlaces(s: seq<Unit>, tail: seq<Unit>)
    requires s == [0x63, 0xE9, 0x62] && tail == [0xE9, 0x62]
    ensures s[1] >= 0xC0 && (forall i :: 0 <= i < 1 ==> s[i] < 0xC0) && (forall k :: 1 <= k < 3 ==> s[k] != 0)
    ensures s[1..3] == tail && s[..1] == [0x63]
  {
  }

  lemma AccentExpands(T: Tables, tail: seq<Unit>)
    requires Sound(T) && T.decomp(0xE9) == Some([0x65, 0x301]) && T.decomp(0x301).None? && tail == [0xE9, 0x62]
    ensures Within(T, tail, T.maxDepth) && Expand(T, tail, T.maxDepth) == [0x65, 0x301, 0x62]
  {
    var parts, rest: seq<Unit> := [0x65, 0x301], [0x301, 0x62];
    assert SoundEntry(T, 0xE9, parts);
    AllWithin(T, tail);
    OnceWithin(T, tail, T.maxDepth);
    AccentOnce(T, tail);
    var once := Once(T, tail);
    assert once[..1] == [0x65] && once[1..] == rest && Plain(T, rest);
    hide Once;
    ExpandPlain(T, rest, T.maxDepth - 1);
    assert parts[0] in parts && T.depth(parts[0]) < T.depth(0xE9) <= T.maxDepth;
    assert FirstComposed(T, tail) == 0;
    assert Expand(T, tail, T.maxDepth) == [0x65] + rest;
  }

  lemma AccentOnce(T: Tables, tail: seq<Unit>)
    requires Sound(T) && T.decomp(0xE9) == Some([0x65, 0x301]) && tail == [0xE9, 0x62]
    ensures Once(T, tail) == [0x65, 0x301, 0x62]
  {
    var b: seq<Unit> := [0x62];
    assert tail[1..] == b && b[1..] == [] && Once(T, b) == b;
    assert Once(T, tail) == [0x65, 0x301] + b;
  }

  lemma AccentOrdered(T: Tables)
    requires Sound(T) && T.cop(0x301) == 230
    ensures Ordered(T.cop, [0x63, 0x65, 0x301, 0x62, 0])
  {
    var b: Unit, c: Unit, e: Unit, z: Unit := 0x62, 0x63, 0x65, 0;
    assert !Mark(T.cop, b) && !Mark(T.cop, c) && !Mark(T.cop, e) && !Mark(T.cop, z);
  }

  /** A nul after the first unit from 0x00C0 up ends the sequence: what follows it is lost. */
  lemma NulCuts(T: Tables, p: seq<Unit>, q: seq<Unit>)
    requires Sound(T) && 0 !in p && exists i :: 0 <= i < |p| && p[i] >= 0xC0
    ensures Normal(T, p + [0] + q) == Normal(T, p)
  {
    hide *;
    var s, b := p + [0] + q, Base(p);
    NulParts(p, q, b);
    BaseFirst(s, b);
    NulFromFree(p, b);
    NulFirst(s, b, |p|);
    NormalOf(T, s);
    NormalOf(T, p);
  }

  lemma NulParts(p: seq<Unit>, q: seq<Unit>, b: nat)
    requires b == Base(p) && 0 !in p && exists i :: 0 <= i < |p| && p[i] >= 0xC0
    ensures var s := p + [0] + q;
            && b < |p| < |s| && s[b] >= 0xC0 && (forall i :: 0 <= i < b ==> s[i] < 0xC0)
            && s[|p|] == 0 && (forall k :: b <= k < |p| ==> s[k] != 0)
            && s[b..|p|] == p[b..|p|] && s[..b] == p[..b]
  {
    hide Base;
  }

  lemma BaseFirst(s: seq<Unit>, b: nat)
    requires b < |s| && s[b] >= 0xC0 && forall i :: 0 <= i < b ==> s[i] < 0xC0
    ensures Base(s) == b
  {
    hide Base;
    var c := Base(s);
    assert c < |s| ==> s[c] >= 0xC0;
  }

  lemma NulFirst(s: seq<Unit>, i: nat, e: nat)
    requires i <= e < |s| && s[e] == 0 && forall k :: i <= k < e ==> s[k] != 0
    ensures NulFrom(s, i) == e
  {
    hide NulFrom;
    var f := NulFrom(s, i);
    assert f < |s| ==> s[f] == 0;
  }

  lemma NormalOf(T: Tables, s: seq<Unit>)
    requires Sound(T) && Base(s) < |s|
    ensures Normal(T, s) == Sort(T.cop, s[..Base(s)] + Expand(T, s[Base(s)..NulFrom(s, Base(s))], T.maxDepth) + [0])
  {
    hide Expand, Sort;
  }

  /** The second condition matters. The tables decompose U+212A to U+004B; these two have
      the same full decomposition, and different normal forms. */
  lemma KelvinIsNotK(T: Tables)
    requires Sound(T) && T.decomp(0x212A) == Some([0x4B])
    ensures NormalSettles(T, [0x212A]) && NormalSettles(T, [0x4B])
    ensures Full(T, [0x212A]) == [0x4B] == Full(T, [0x4B])
    ensures Normal(T, [0x212A]) == [0x4B, 0] && Normal(T, [0x4B]) == [0x4B]
  {
    var k, a: seq<Unit> := [0x4B], [0x212A];
    assert SoundEntry(T, 0x212A, k);
    assert a[1..] == [] && k[1..] == [];
    assert Once(T, a) == k && Once(T, k) == k;
    TimesPlain(T, k, T.maxDepth);
    FullIsPlain(T, a);
    assert FirstComposed(T, k) == 1 && FirstComposed(T, a) == 0;
    AllWithin(T, a);
    OnceWithin(T, a, T.maxDepth);
    assert NulFrom(a, 0) == 1 && a[0..1] == a && Reach(a) == a;
    assert Base(k) == 1 && Reach(k) == [];
    assert Expand(T, a, T.maxDepth) == k;
    SortIs(T.cop, [0x4B, 0], [0x4B, 0]);
    assert Expansion(T, a) == [0x4B, 0];
  }
}
