/** The order of marks in composed character sequences: the code's own normal form,
    in which each run of marks is sorted by combining class and code and holds no
    mark twice. */
module MarkOrder {
  import opened Wrappers

  type Unit = u: int | 0 <= u < 0x1_0000

  // The combining class of a unit; zero for what is not a mark.
  type ClassOf = Unit -> nat

  // Class first, then code.
  predicate Less(cop: ClassOf, a: Unit, b: Unit) {
    cop(a) < cop(b) || (cop(a) == cop(b) && a < b)
  }

  predicate Mark(cop: ClassOf, u: Unit) {
    cop(u) != 0
  }

  /** Every mark comes after a smaller mark or after a unit that is no mark. */
  predicate Ordered(cop: ClassOf, s: seq<Unit>) {
    forall i :: 0 < i < |s| && Mark(cop, s[i]) ==> Less(cop, s[i - 1], s[i])
  }

  // A starter and the set of the marks on it; the first run may have no starter.
  datatype Run = Run(starter: Option<Unit>, marks: set<Unit>)

  function Step(cop: ClassOf, r: seq<Run>, u: Unit): (q: seq<Run>)
    requires r != []
    ensures q != []
  {
    if Mark(cop, u) then r[..|r| - 1] + [r[|r| - 1].(marks := r[|r| - 1].marks + {u})]
    else r + [Run(Some(u), {})]
  }

  function RunsFrom(cop: ClassOf, r: seq<Run>, s: seq<Unit>): (q: seq<Run>)
    requires r != []
    ensures q != []
    decreases |s|
  {
    if s == [] then r else RunsFrom(cop, Step(cop, r, s[0]), s[1..])
  }

  /** What normalising is to keep: the starters in order, each with its set of marks. */
  function Runs(cop: ClassOf, s: seq<Unit>): (r: seq<Run>)
    ensures r != []
  {
    RunsFrom(cop, [Run(None, {})], s)
  }

  lemma {:induction false} RunsSplit(cop: ClassOf, r: seq<Run>, s: seq<Unit>, t: seq<Unit>)
    requires r != []
    ensures RunsFrom(cop, r, s + t) == RunsFrom(cop, RunsFrom(cop, r, s), t)
    decreases |s|
  {
    if s == [] {
      assert s + t == t;
    } else {
      assert (s + t)[1..] == s[1..] + t;
      RunsSplit(cop, Step(cop, r, s[0]), s[1..], t);
    }
  }

  lemma RunsLast(cop: ClassOf, s: seq<Unit>)
    requires s != []
    ensures Runs(cop, s) == Step(cop, Runs(cop, s[..|s| - 1]), s[|s| - 1])
  {
    assert s == s[..|s| - 1] + [s[|s| - 1]];
    RunsSplit(cop, [Run(None, {})], s[..|s| - 1], [s[|s| - 1]]);
  }

  /** Exchanging two neighbouring marks keeps the runs. */
  lemma SwapKeepsRuns(cop: ClassOf, a: seq<Unit>, x: Unit, y: Unit, b: seq<Unit>)
    requires Mark(cop, x) && Mark(cop, y)
    ensures Runs(cop, a + [x, y] + b) == Runs(cop, a + [y, x] + b)
  {
    var r := Runs(cop, a);
    RunsSplit(cop, [Run(None, {})], a + [x, y], b);
    RunsSplit(cop, [Run(None, {})], a + [y, x], b);
    RunsSplit(cop, [Run(None, {})], a, [x, y]);
    RunsSplit(cop, [Run(None, {})], a, [y, x]);
    TwoSteps(cop, r, x, y);
    TwoSteps(cop, r, y, x);
    StepsCommute(cop, r, x, y);
  }

  lemma StepsCommute(cop: ClassOf, r: seq<Run>, x: Unit, y: Unit)
    requires r != [] && Mark(cop, x) && Mark(cop, y)
    ensures Step(cop, Step(cop, r, x), y) == Step(cop, Step(cop, r, y), x)
  {
    var m := r[|r| - 1].marks;
    assert m + {x} + {y} == m + {y} + {x};
    assert Step(cop, r, x)[..|r| - 1] == r[..|r| - 1] == Step(cop, r, y)[..|r| - 1];
  }

  lemma TwoSteps(cop: ClassOf, r: seq<Run>, x: Unit, y: Unit)
    requires r != []
    ensures RunsFrom(cop, r, [x, y]) == Step(cop, Step(cop, r, x), y)
  {
    assert [x, y][1..] == [y] && [y][1..] == [];
    assert RunsFrom(cop, r, [x, y]) == RunsFrom(cop, Step(cop, r, x), [y]);
  }

  /** Dropping repetitions of a mark keeps the runs. */
  lemma {:induction false} DropKeepsRuns(cop: ClassOf, a: seq<Unit>, x: Unit, c: seq<Unit>, b: seq<Unit>)
    requires Mark(cop, x) && forall k :: 0 <= k < |c| ==> c[k] == x
    ensures Runs(cop, a + [x] + c + b) == Runs(cop, a + [x] + b)
    decreases |c|
  {
    if c == [] {
      assert a + [x] + c + b == a + [x] + b;
    } else {
      var d := c[1..];
      assert a + [x] + c + b == a + [x, x] + (d + b);
      assert a + [x] + (d + b) == a + [x] + d + b;
      RunsSplit(cop, [Run(None, {})], a + [x, x], d + b);
      RunsSplit(cop, [Run(None, {})], a + [x], d + b);
      RunsSplit(cop, [Run(None, {})], a, [x, x]);
      RunsSplit(cop, [Run(None, {})], a, [x]);
      var r := Runs(cop, a);
      TwoSteps(cop, r, x, x);
      assert RunsFrom(cop, r, [x]) == Step(cop, r, x);
      assert Step(cop, Step(cop, r, x), x) == Step(cop, r, x);
      DropKeepsRuns(cop, a, x, d, b);
    }
  }

  function LastMarks(cop: ClassOf, s: seq<Unit>): set<Unit> {
    var r := Runs(cop, s);
    r[|r| - 1].marks
  }

  predicate AllLess(cop: ClassOf, marks: set<Unit>, u: Unit) {
    forall x :: x in marks ==> Less(cop, x, u)
  }

  // In an ordered sequence the marks of the last run come before a last mark.
  lemma {:induction false} LastMarkIsMax(cop: ClassOf, s: seq<Unit>)
    requires Ordered(cop, s) && s != []
    ensures Mark(cop, s[|s| - 1]) ==> AllLess(cop, LastMarks(cop, s[..|s| - 1]), s[|s| - 1])
    decreases |s|
  {
    var front := s[..|s| - 1];
    if front != [] {
      LastMarkIsMax(cop, front);
      RunsLast(cop, front);
    }
  }

  /** An ordered sequence is determined by its runs. */
  lemma {:induction false} OrderedUnique(cop: ClassOf, s: seq<Unit>, t: seq<Unit>)
    requires Ordered(cop, s) && Ordered(cop, t) && Runs(cop, s) == Runs(cop, t)
    ensures s == t
    decreases |s| + |t|
  {
    if s == [] && t == [] {
    } else if s == [] || t == [] {
      RunsNotEmpty(cop, if s == [] then t else s);
    } else {
      var a, b := s[|s| - 1], t[|t| - 1];
      var front, back := s[..|s| - 1], t[..|t| - 1];
      RunsLast(cop, s);
      RunsLast(cop, t);
      LastMarkIsMax(cop, s);
      LastMarkIsMax(cop, t);
      LastAgrees(cop, Runs(cop, front), a, Runs(cop, back), b);
      OrderedUnique(cop, front, back);
    }
  }

  lemma RunsNotEmpty(cop: ClassOf, s: seq<Unit>)
    requires s != []
    ensures Runs(cop, s) != Runs(cop, [])
  {
    RunsLast(cop, s);
    var q := Runs(cop, s);
    assert s[|s| - 1] in q[|q| - 1].marks || |q| >= 2;
    assert Runs(cop, []) == [Run(None, {})];
  }

  // One step back: the last unit and the runs before it can be read off the runs.
  lemma LastAgrees(cop: ClassOf, r: seq<Run>, a: Unit, t: seq<Run>, b: Unit)
    requires r != [] && t != [] && Step(cop, r, a) == Step(cop, t, b)
    requires Mark(cop, a) ==> AllLess(cop, r[|r| - 1].marks, a)
    requires Mark(cop, b) ==> AllLess(cop, t[|t| - 1].marks, b)
    ensures a == b && r == t
  {
    var q, w := Step(cop, r, a), Step(cop, t, b);
    if Mark(cop, a) {
      assert !Less(cop, a, a) && !Less(cop, b, b);
      assert a in q[|q| - 1].marks;
      assert Mark(cop, b);
      assert b in w[|w| - 1].marks;
      assert a == b || (Less(cop, a, b) && Less(cop, b, a));
      assert r[|r| - 1].marks == q[|q| - 1].marks - {a};
      assert t[|t| - 1].marks == w[|w| - 1].marks - {b};
      assert r[..|r| - 1] == q[..|q| - 1];
      assert t[..|t| - 1] == w[..|w| - 1];
      assert r == r[..|r| - 1] + [r[|r| - 1]];
      assert t == t[..|t| - 1] + [t[|t| - 1]];
    } else {
      assert q[|q| - 1].marks == {};
      assert r == q[..|q| - 1];
      assert t == w[..|w| - 1];
    }
  }

  // Putting a unit after an ordered sequence: a mark sinks to its place, a repeated
  // mark is dropped.
  function Insert(cop: ClassOf, s: seq<Unit>, u: Unit): seq<Unit> {
    if s == [] || !Mark(cop, u) || Less(cop, s[|s| - 1], u) then s + [u]
    else if s[|s| - 1] == u then s
    else Insert(cop, s[..|s| - 1], u) + [s[|s| - 1]]
  }

  /** The normal form of a sequence of marks and starters. */
  function Sort(cop: ClassOf, s: seq<Unit>): seq<Unit> {
    if s == [] then [] else Insert(cop, Sort(cop, s[..|s| - 1]), s[|s| - 1])
  }

  predicate EndsWith(s: seq<Unit>, u: Unit) {
    s != [] && s[|s| - 1] == u
  }

  lemma {:induction false} InsertOrdered(cop: ClassOf, s: seq<Unit>, u: Unit)
    requires Ordered(cop, s)
    ensures Ordered(cop, Insert(cop, s, u))
    ensures EndsWith(Insert(cop, s, u), u) || (s != [] && EndsWith(Insert(cop, s, u), s[|s| - 1]))
    decreases |s|
  {
    if s == [] || !Mark(cop, u) || Less(cop, s[|s| - 1], u) {
    } else if s[|s| - 1] != u {
      InsertOrdered(cop, s[..|s| - 1], u);
    }
  }

  lemma {:induction false} InsertRuns(cop: ClassOf, s: seq<Unit>, u: Unit)
    requires Ordered(cop, s)
    ensures Runs(cop, Insert(cop, s, u)) == Step(cop, Runs(cop, s), u)
    decreases |s|
  {
    if s == [] || !Mark(cop, u) || Less(cop, s[|s| - 1], u) {
      RunsLast(cop, s + [u]);
      assert (s + [u])[..|s|] == s;
    } else {
      var front, last := s[..|s| - 1], s[|s| - 1];
      RunsLast(cop, s);
      if last == u {
        assert Step(cop, Runs(cop, s), u) == Runs(cop, s);
      } else {
        InsertRuns(cop, front, u);
        var r := Insert(cop, front, u);
        assert (r + [last])[..|r|] == r;
        RunsLast(cop, r + [last]);
        StepsCommute(cop, Runs(cop, front), u, last);
      }
    }
  }

  /** Sorting gives an ordered sequence with the same runs. */
  lemma {:induction false} SortSound(cop: ClassOf, s: seq<Unit>)
    ensures Ordered(cop, Sort(cop, s)) && Runs(cop, Sort(cop, s)) == Runs(cop, s)
    decreases |s|
  {
    if s != [] {
      SortSound(cop, s[..|s| - 1]);
      InsertOrdered(cop, Sort(cop, s[..|s| - 1]), s[|s| - 1]);
      InsertRuns(cop, Sort(cop, s[..|s| - 1]), s[|s| - 1]);
      RunsLast(cop, s);
    }
  }

  /** In the normal form the combining classes rise along each run of marks, and among
      marks of one class the codes. */
  lemma SortByClass(cop: ClassOf, s: seq<Unit>)
    ensures var r := Sort(cop, s);
            forall i :: 0 < i < |r| && cop(r[i]) != 0 ==>
              cop(r[i - 1]) < cop(r[i]) || (cop(r[i - 1]) == cop(r[i]) && r[i - 1] < r[i])
  {
    SortSound(cop, s);
  }

  /** Two sequences have the same normal form exactly when they have the same starters
      with the same sets of marks, however the marks are arranged or repeated. */
  lemma SortCanonical(cop: ClassOf, s: seq<Unit>, t: seq<Unit>)
    ensures Sort(cop, s) == Sort(cop, t) <==> Runs(cop, s) == Runs(cop, t)
  {
    SortSound(cop, s);
    SortSound(cop, t);
    if Runs(cop, s) == Runs(cop, t) {
      OrderedUnique(cop, Sort(cop, s), Sort(cop, t));
    }
  }

  lemma SortIs(cop: ClassOf, s: seq<Unit>, r: seq<Unit>)
    requires Ordered(cop, r) && Runs(cop, r) == Runs(cop, s)
    ensures r == Sort(cop, s)
  {
    SortSound(cop, s);
    OrderedUnique(cop, r, Sort(cop, s));
  }

  /** Sorting a second time changes nothing. */
  lemma SortIdempotent(cop: ClassOf, s: seq<Unit>)
    ensures Sort(cop, Sort(cop, s)) == Sort(cop, s)
  {
    SortSound(cop, s);
    SortIs(cop, Sort(cop, s), Sort(cop, s));
  }

  /** The starters keep their order. */
  function Starters(cop: ClassOf, s: seq<Unit>): seq<Unit> {
    if s == [] then []
    else Starters(cop, s[..|s| - 1]) + (if Mark(cop, s[|s| - 1]) then [] else [s[|s| - 1]])
  }

  function RunStarters(r: seq<Run>): seq<Unit> {
    if r == [] then []
    else RunStarters(r[..|r| - 1]) + (if r[|r| - 1].starter.Some? then [r[|r| - 1].starter.value] else [])
  }

  lemma {:induction false} StartersOfRuns(cop: ClassOf, s: seq<Unit>)
    ensures Starters(cop, s) == RunStarters(Runs(cop, s))
    decreases |s|
  {
    if s == [] {
      assert RunStarters([Run(None, {})]) == RunStarters([Run(None, {})][..0]);
    } else {
      StartersOfRuns(cop, s[..|s| - 1]);
      RunsLast(cop, s);
      var r, q := Runs(cop, s[..|s| - 1]), Runs(cop, s);
      if Mark(cop, s[|s| - 1]) {
        assert q[..|q| - 1] == r[..|r| - 1];
      } else {
        assert q[..|q| - 1] == r;
      }
    }
  }

  lemma SortKeepsStarters(cop: ClassOf, s: seq<Unit>)
    ensures Starters(cop, Sort(cop, s)) == Starters(cop, s)
  {
    SortSound(cop, s);
    StartersOfRuns(cop, s);
    StartersOfRuns(cop, Sort(cop, s));
  }
}
