/** The order of sequences that GSeq_compare gives, and when it is one. */
module CharOrder {
  import opened Wrappers
  import opened MarkOrder
  import opened Decompose
  import opened CharNormal

  datatype Order = Ascending | Same | Descending

  /** Unit by unit; a proper prefix comes first. */
  function Lex(a: seq<Unit>, b: seq<Unit>): Order {
    if a == [] && b == [] then Same
    else if a == [] then Ascending
    else if b == [] then Descending
    else if a[0] < b[0] then Ascending
    else if a[0] > b[0] then Descending
    else Lex(a[1..], b[1..])
  }

  function Opposite(o: Order): Order {
    match o
    case Ascending => Descending
    case Same => Same
    case Descending => Ascending
  }

  lemma {:induction false} LexSameIff(a: seq<Unit>, b: seq<Unit>)
    ensures Lex(a, b) == Same <==> a == b
    decreases |a|
  {
    if a != [] && b != [] {
      LexSameIff(a[1..], b[1..]);
      assert a == [a[0]] + a[1..] && b == [b[0]] + b[1..];
    }
  }

  lemma {:induction false} LexOpposite(a: seq<Unit>, b: seq<Unit>)
    ensures Lex(b, a) == Opposite(Lex(a, b))
    decreases |a|
  {
    if a != [] && b != [] {
      LexOpposite(a[1..], b[1..]);
    }
  }

  lemma {:induction false} LexTransitive(a: seq<Unit>, b: seq<Unit>, c: seq<Unit>)
    requires Lex(a, b) != Descending && Lex(b, c) != Descending
    ensures Lex(a, c) != Descending
    ensures Lex(a, c) == Same ==> Lex(a, b) == Same && Lex(b, c) == Same
    decreases |a|
  {
    if a != [] && b != [] && c != [] {
      if a[0] == b[0] == c[0] {
        LexTransitive(a[1..], b[1..], c[1..]);
      }
    }
  }

  lemma {:induction false} LexCommon(p: seq<Unit>, a: seq<Unit>, b: seq<Unit>)
    ensures Lex(p + a, p + b) == Lex(a, b)
    decreases |p|
  {
    if p == [] {
      assert p + a == a && p + b == b;
    } else {
      assert (p + a)[1..] == p[1..] + a && (p + b)[1..] == p[1..] + b;
      LexCommon(p[1..], a, b);
    }
  }

  // The first difference decides.
  lemma LexAt(a: seq<Unit>, b: seq<Unit>, i: nat)
    requires i <= |a| && i <= |b| && a[..i] == b[..i]
    ensures Lex(a, b) == Lex(a[i..], b[i..])
  {
    assert a == a[..i] + a[i..] && b == b[..i] + b[i..];
    LexCommon(a[..i], a[i..], b[i..]);
  }

  // What a sequence is compared by.
  ghost function SortKey(T: Tables, s: seq<Unit>, normalized: bool): seq<Unit>
    requires Sound(T)
  {
    if normalized then s else Normal(T, s)
  }

  /** What comparing gives. */
  ghost function Answer(T: Tables, s: seq<Unit>, sn: bool, t: seq<Unit>, tn: bool): Order
    requires Sound(T)
  {
    if s == t then Same else Lex(SortKey(T, s, sn), SortKey(T, t, tn))
  }

  /** The short cut for equal units disagrees with the comparison of normal forms only
      if one of two equal sequences is marked as normalised and is not normal. */
  lemma ShortCutAgreesIff(T: Tables, s: seq<Unit>, sn: bool, t: seq<Unit>, tn: bool)
    requires Sound(T)
    ensures Answer(T, s, sn, t, tn) == Lex(SortKey(T, s, sn), SortKey(T, t, tn))
            <==> !(s == t && sn != tn && Normal(T, s) != s)
  {
    LexSameIff(SortKey(T, s, sn), SortKey(T, t, tn));
  }

  /** Which sequences may be compared: all unmarked ones, and of the marked ones these. */
  ghost predicate Admitted(marked: iset<seq<Unit>>, s: seq<Unit>, normalized: bool) {
    normalized ==> s in marked
  }

  // What is not after what is not after v is not after v.
  ghost predicate Transitive(T: Tables, s: seq<Unit>, sn: bool, t: seq<Unit>, tn: bool, v: seq<Unit>, vn: bool)
    requires Sound(T)
  {
    Answer(T, s, sn, t, tn) != Descending && Answer(T, t, tn, v, vn) != Descending
    ==> Answer(T, s, sn, v, vn) != Descending
  }

  /** The comparison is transitive. */
  ghost predicate Orders(T: Tables, marked: iset<seq<Unit>>)
    requires Sound(T)
  {
    forall s, sn, t, tn, v, vn ::
      Admitted(marked, s, sn) && Admitted(marked, t, tn) && Admitted(marked, v, vn)
      ==> Transitive(T, s, sn, t, tn, v, vn)
  }

  /** The comparison is that of the normal forms. */
  ghost predicate ByNormalForm(T: Tables, marked: iset<seq<Unit>>)
    requires Sound(T)
  {
    forall s, sn, t, tn :: Admitted(marked, s, sn) && Admitted(marked, t, tn)
      ==> Answer(T, s, sn, t, tn) == Lex(Normal(T, s), Normal(T, t))
  }

  /** What is marked is normal. */
  ghost predicate Truthful(T: Tables, marked: iset<seq<Unit>>)
    requires Sound(T)
  {
    forall s :: s in marked ==> Normal(T, s) == s
  }

  /** The answer is the opposite when the sequences change places, whatever their marks. */
  lemma AnswerOpposite(T: Tables, s: seq<Unit>, sn: bool, t: seq<Unit>, tn: bool)
    requires Sound(T)
    ensures Answer(T, t, tn, s, sn) == Opposite(Answer(T, s, sn, t, tn))
  {
    hide Normal, Sound;
    LexOpposite(SortKey(T, s, sn), SortKey(T, t, tn));
  }

  /** The comparison is transitive exactly when all that is marked is normal, and then
      it is that of the normal forms. */
  lemma OrdersIff(T: Tables, marked: iset<seq<Unit>>)
    requires Sound(T)
    ensures Orders(T, marked) <==> Truthful(T, marked)
    ensures ByNormalForm(T, marked) <==> Truthful(T, marked)
  {
    hide *;
    if Truthful(T, marked) {
      TruthfulOrders(T, marked);
    } else {
      var r := Untruthful(T, marked);
      MarkBreaksOrder(T, marked, r);
    }
  }

  lemma Untruthful(T: Tables, marked: iset<seq<Unit>>) returns (r: seq<Unit>)
    requires Sound(T) && !Truthful(T, marked)
    ensures r in marked && Normal(T, r) != r
  {
    hide Normal, Sound;
    r :| r in marked && Normal(T, r) != r;
  }

  lemma TruthfulOrders(T: Tables, marked: iset<seq<Unit>>)
    requires Sound(T) && Truthful(T, marked)
    ensures Orders(T, marked) && ByNormalForm(T, marked)
  {
    hide Normal, Sound, Lex;
    forall s, sn, t, tn | Admitted(marked, s, sn) && Admitted(marked, t, tn)
      ensures Answer(T, s, sn, t, tn) == Lex(Normal(T, s), Normal(T, t))
    {
      LexSameIff(Normal(T, s), Normal(T, t));
    }
    forall s, sn, t, tn, v, vn | Admitted(marked, s, sn) && Admitted(marked, t, tn) && Admitted(marked, v, vn)
      ensures Transitive(T, s, sn, t, tn, v, vn)
    {
      var a, b, c := Normal(T, s), Normal(T, t), Normal(T, v);
      if Lex(a, b) != Descending && Lex(b, c) != Descending {
        LexTransitive(a, b, c);
      }
    }
  }

  // A nul put after s adds nothing to what is expanded.
  lemma NulAfter(T: Tables, s: seq<Unit>)
    requires Sound(T) && Base(s) < |s|
    ensures Normal(T, s + [0]) == Normal(T, s)
  {
    hide *;
    SameReach(s, s + [0]);
    NormalOfHigh(T, s);
    NormalOfHigh(T, s + [0]);
  }

  lemma SameReach(s: seq<Unit>, q: seq<Unit>)
    requires Base(s) < |s| && q == s + [0]
    ensures Base(q) == Base(s) && q[..Base(s)] == s[..Base(s)] && Reach(q) == Reach(s)
  {
    hide Base, NulFrom;
    var b, e := Base(s), NulFrom(s, Base(s));
    BaseFirst(q, b);
    NulFirst(q, b, e);
    assert q[b..e] == s[b..e];
  }

  // A marked sequence that is not normal, the same one unmarked, and the same with a nul
  // after it.
  lemma MarkBreaksOrder(T: Tables, marked: iset<seq<Unit>>, r: seq<Unit>)
    requires Sound(T) && r in marked && Normal(T, r) != r
    ensures !Transitive(T, r, true, r, false, r + [0], false) || !Transitive(T, r + [0], false, r, false, r, true)
    ensures !Orders(T, marked) && !ByNormalForm(T, marked)
  {
    hide Normal, Sound, Lex;
    var q, m := r + [0], Normal(T, r);
    assert Base(r) < |r| by {
      NormalOfLowOnly(T, r);
    }
    NulAfter(T, r);
    LexSameIff(r, m);
    LexSameIff(m, m);
    LexOpposite(r, m);
    assert Answer(T, r, true, q, false) == Lex(r, m) && Answer(T, q, false, r, true) == Lex(m, r);
    assert Admitted(marked, r, true) && Admitted(marked, r, false) && Admitted(marked, q, false);
  }

  lemma NormalOfLowOnly(T: Tables, r: seq<Unit>)
    requires Sound(T)
    ensures Base(r) <= |r| && (Base(r) == |r| ==> Normal(T, r) == r)
  {
  }

  /** What the code marks: what has been made of a sequence that is not empty. */
  ghost function CodeMarks(T: Tables): iset<seq<Unit>>
    requires Sound(T)
  {
    iset w: seq<Unit> | w != [] :: Normal(T, w)
  }

  /** With the marks that normalising sets, the comparison is a total preorder, that of
      the normal forms, exactly when no decomposition in the tables begins with a
      composed unit. */
  lemma CodeOrdersIff(T: Tables)
    requires Sound(T)
    ensures Orders(T, CodeMarks(T)) <==> PlainLeads(T)
    ensures ByNormalForm(T, CodeMarks(T)) <==> PlainLeads(T)
  {
    hide *;
    OrdersIff(T, CodeMarks(T));
    if PlainLeads(T) {
      PlainLeadsTruthful(T);
    } else {
      LeadsUntruthful(T);
    }
  }

  lemma PlainLeadsTruthful(T: Tables)
    requires Sound(T) && PlainLeads(T)
    ensures Truthful(T, CodeMarks(T))
  {
    hide Normal, Sound, PlainLeads, Settles, Expand;
    forall s | s in CodeMarks(T)
      ensures Normal(T, s) == s
    {
      var w :| w != [] && Normal(T, w) == s;
      AllWithin(T, Reach(w));
      PlainLeadsSettle(T, Reach(w), T.maxDepth);
      NormalIdempotentIff(T, w);
    }
  }

  lemma LeadsUntruthful(T: Tables)
    requires Sound(T) && !PlainLeads(T)
    ensures !Truthful(T, CodeMarks(T))
  {
    hide Normal, Sound, Settles, Expand, Composed;
    var u: Unit, lead: Unit :| LedBy(T, u, lead) && Composed(T, lead);
    LeadUnsettled(T, u, lead);
    var w := [u];
    BaseFirst(w, 0);
    assert NulFrom(w, 1) == 1 && w[0..1] == w;
    NormalIdempotentIff(T, w);
    assert Normal(T, w) in CodeMarks(T);
  }

  /** The tables fail it. U+01D5 normalises to U+00DC U+0304 and a nul, marked. That is
      the same as itself unmarked by the short cut, which is the same as U+00DC U+0304;
      and yet the marked one comes after that. */
  lemma LeadBreaksOrder(T: Tables)
    requires Sound(T)
    requires T.decomp(0x1D5) == Some([0xDC, 0x304]) && T.decomp(0xDC) == Some([0x55, 0x308])
    requires !Composed(T, 0x304) && !Composed(T, 0x308)
    requires T.cop(0xDC) == 0 && T.cop(0x304) == 230 == T.cop(0x308)
    ensures !PlainLeads(T)
    ensures Normal(T, [0x1D5]) == [0xDC, 0x304, 0] && [0xDC, 0x304, 0] in CodeMarks(T)
    ensures Normal(T, [0xDC, 0x304, 0]) == [0x55, 0x304, 0x308, 0] == Normal(T, [0xDC, 0x304])
    ensures Answer(T, [0xDC, 0x304, 0], true, [0xDC, 0x304, 0], false) == Same
    ensures Lex(SortKey(T, [0xDC, 0x304, 0], true), SortKey(T, [0xDC, 0x304, 0], false)) == Descending
    ensures Answer(T, [0xDC, 0x304, 0], false, [0xDC, 0x304], false) == Same
    ensures Answer(T, [0xDC, 0x304, 0], true, [0xDC, 0x304], false) == Descending
  {
    hide *;
    var b, r: seq<Unit> := [0xDC, 0x304], [0xDC, 0x304, 0];
    LeadIsComposed(T);
    LeadForms(T);
    assert b + [0] == r;
    BaseFirst(b, 0);
    NulAfter(T, b);
    IsCodeMark(T, [0x1D5]);
    FirstDecides(r, [0x55, 0x304, 0x308, 0]);
    KeyOf(T, r);
    AnswerIs(T, r, true, b, false);
    AnswerIs(T, r, false, b, false);
    AnswerIs(T, r, true, r, false);
    LexSameIff(Normal(T, r), Normal(T, b));
  }

  lemma LeadIsComposed(T: Tables)
    requires Sound(T) && T.decomp(0x1D5) == Some([0xDC, 0x304]) && T.decomp(0xDC).Some?
    ensures !PlainLeads(T)
  {
    assert LedBy(T, 0x1D5, 0xDC);
  }

  lemma LeadForms(T: Tables)
    requires Sound(T)
    requires T.decomp(0x1D5) == Some([0xDC, 0x304]) && T.decomp(0xDC) == Some([0x55, 0x308])
    requires !Composed(T, 0x304) && !Composed(T, 0x308)
    requires T.cop(0xDC) == 0 && T.cop(0x304) == 230 == T.cop(0x308)
    ensures Normal(T, [0x1D5]) == [0xDC, 0x304, 0] && Normal(T, [0xDC, 0x304]) == [0x55, 0x304, 0x308, 0]
  {
    hide *;
    AllWithin(T, [0x1D5]);
    AllWithin(T, [0xDC, 0x304]);
    LeadStaysComposed(T);
    LeadSorted(T);
    SortTwoMarks(T);
    NormalAll(T, [0x1D5], [0xDC, 0x304]);
    NormalAll(T, [0xDC, 0x304], [0x55, 0x308, 0x304]);
    assert [0xDC, 0x304] + [0] == [0xDC, 0x304, 0];
    assert [0x55, 0x308, 0x304] + [0] == [0x55, 0x308, 0x304, 0];
  }

  lemma LeadSorted(T: Tables)
    requires Sound(T) && T.cop(0xDC) == 0
    ensures Sort(T.cop, [0xDC, 0x304, 0]) == [0xDC, 0x304, 0]
  {
    assert !Mark(T.cop, 0);
    SortsTo(T.cop, [0xDC, 0x304, 0]);
  }

  lemma IsCodeMark(T: Tables, w: seq<Unit>)
    requires Sound(T) && w != []
    ensures Normal(T, w) in CodeMarks(T)
  {
    hide Normal, Sound;
  }

  lemma FirstDecides(a: seq<Unit>, b: seq<Unit>)
    requires a != [] && b != [] && a[0] > b[0]
    ensures Lex(a, b) == Descending
  {
  }

  lemma KeyOf(T: Tables, s: seq<Unit>)
    requires Sound(T)
    ensures SortKey(T, s, true) == s && SortKey(T, s, false) == Normal(T, s)
  {
    hide Normal;
  }

  lemma AnswerIs(T: Tables, s: seq<Unit>, sn: bool, t: seq<Unit>, tn: bool)
    requires Sound(T)
    ensures Answer(T, s, sn, t, tn) == if s == t then Same else Lex(SortKey(T, s, sn), SortKey(T, t, tn))
    ensures SortKey(T, t, false) == Normal(T, t)
  {
    hide Normal, Lex;
  }

  // The normal form of a sequence expanded from its first unit to its end.
  lemma NormalAll(T: Tables, s: seq<Unit>, x: seq<Unit>)
    requires Sound(T) && s != [] && s[0] >= 0xC0 && 0 !in s
    requires Within(T, s, T.maxDepth) && Expand(T, s, T.maxDepth) == x
    ensures Normal(T, s) == Sort(T.cop, x + [0])
  {
    hide Expand, Sort;
    BaseFirst(s, 0);
    NulFromFree(s, 0);
    assert s[0..|s|] == s && s[..0] + x == x;
  }

  lemma SortsTo(cop: ClassOf, s: seq<Unit>)
    requires Ordered(cop, s)
    ensures Sort(cop, s) == s
  {
    SortIs(cop, s, s);
  }

  lemma SortTwoMarks(T: Tables)
    requires Sound(T) && T.cop(0x304) == 230 == T.cop(0x308)
    ensures Sort(T.cop, [0x55, 0x308, 0x304, 0]) == [0x55, 0x304, 0x308, 0]
  {
    var s, t: seq<Unit> := [0x55, 0x308, 0x304, 0], [0x55, 0x304, 0x308, 0];
    assert s == [0x55] + [0x308, 0x304] + [0] && t == [0x55] + [0x304, 0x308] + [0];
    SwapKeepsRuns(T.cop, [0x55], 0x308, 0x304, [0]);
    SortIs(T.cop, s, t);
  }

  /** When two sequences without nuls that settle, not marked as normalised, compare the
      same. */
  lemma SameIff(T: Tables, s: seq<Unit>, t: seq<Unit>)
    requires Sound(T) && NormalSettles(T, s) && NormalSettles(T, t) && 0 !in s && 0 !in t
    ensures Answer(T, s, false, t, false) == Same
            <==> Runs(T.cop, Full(T, s)) == Runs(T.cop, Full(T, t)) && (Base(s) == |s| <==> Base(t) == |t|)
  {
    hide Runs, Full, Settles, Expand, Sort;
    NormalIffNulFree(T, s, t);
    LexSameIff(Normal(T, s), Normal(T, t));
  }

  /** U+004B comes before U+212A, which decomposes to it. */
  lemma KelvinIsAfterK(T: Tables)
    requires Sound(T) && T.decomp(0x212A) == Some([0x4B])
    ensures Answer(T, [0x4B], false, [0x212A], false) == Ascending
  {
    KelvinIsNotK(T);
    var k, r: seq<Unit> := [0x4B], [0x4B, 0];
    assert k[1..] == [] && r[1..] == [0];
    assert Lex(k, r) == Lex([], [0]) == Ascending;
  }

  /** By that order a with U+0301 and U+0323 comes after a with U+0302, marked or not: the
      dot below is put first. */
  lemma DotBelowComesAfter(T: Tables)
    requires Sound(T) && T.cop(0x301) == 230 && T.cop(0x302) == 230 && T.cop(0x323) == 220
    requires T.decomp(0x301).None? && T.decomp(0x302).None? && T.decomp(0x323).None?
    ensures Answer(T, [0x61, 0x301, 0x323], false, [0x61, 0x302], false) == Descending
  {
    DotBeforeAccent(T);
    OneAccent(T);
    var a, b: seq<Unit> := [0x61, 0x323, 0x301, 0], [0x61, 0x302, 0];
    assert a[1..] == [0x323, 0x301, 0] && b[1..] == [0x302, 0];
    hide Normal;
    assert Lex(a, b) == Lex(a[1..], b[1..]) == Descending;
  }

  lemma OneAccent(T: Tables)
    requires Sound(T) && T.cop(0x302) == 230 && T.decomp(0x302).None?
    ensures Normal(T, [0x61, 0x302]) == [0x61, 0x302, 0]
  {
    var tail: seq<Unit> := [0x302];
    MarksAfterLetter(T, 0x61, tail);
    assert [0x61] + tail == [0x61, 0x302] && [0x61] + tail + [0] == [0x61, 0x302, 0];
    OneAccentOrdered(T);
    hide *;
    SortIs(T.cop, [0x61, 0x302, 0], [0x61, 0x302, 0]);
  }

  lemma OneAccentOrdered(T: Tables)
    requires Sound(T) && T.cop(0x302) == 230
    ensures Ordered(T.cop, [0x61, 0x302, 0])
  {
    var a: Unit, z: Unit := 0x61, 0;
    assert !Mark(T.cop, a) && !Mark(T.cop, z);
  }

  /** The order of units is the order of dictionaries: the first difference decides, and
      a beginning comes before the whole. */
  lemma {:induction false} LexAscendingIff(a: seq<Unit>, b: seq<Unit>)
    ensures Lex(a, b) == Ascending <==>
              exists i :: 0 <= i <= |a| && i < |b| && a[..i] == b[..i] && (i == |a| || a[i] < b[i])
    decreases |a|
  {
    if a != [] && b != [] && a[0] == b[0] {
      LexAscendingIff(a[1..], b[1..]);
      var c, d := a[1..], b[1..];
      if i :| 0 <= i <= |c| && i < |d| && c[..i] == d[..i] && (i == |c| || c[i] < d[i]) {
        assert a[..i + 1] == [a[0]] + c[..i] && b[..i + 1] == [b[0]] + d[..i];
        assert i + 1 == |a| || a[i + 1] < b[i + 1];
      }
      if i :| 0 <= i <= |a| && i < |b| && a[..i] == b[..i] && (i == |a| || a[i] < b[i]) {
        assert i > 0;
        assert c[..i - 1] == a[..i][1..] && d[..i - 1] == b[..i][1..];
      }
    } else if b != [] && (a == [] || a[0] < b[0]) {
      assert a[..0] == b[..0];
    } else {
      forall i | 0 < i <= |a| && i < |b|
        ensures a[..i] != b[..i]
      {
        assert a[..i][0] == a[0] && b[..i][0] == b[0];
      }
    }
  }
}
