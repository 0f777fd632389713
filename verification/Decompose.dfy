/** Decomposition of composed characters as GSeq_normalize does it, and full
    decomposition, which it reaches under an exact condition. */
module Decompose {
  import opened Wrappers
  import opened MarkOrder

  const MAXDEC := 18

  /** The character tables: decompositions, combining classes and lower case. The
      depth of a unit is a bound on how often it can be decomposed in turn; only
      proofs speak of it. */
  datatype Tables = Tables(decomp: Unit -> Option<seq<Unit>>, cop: ClassOf, lower: Unit -> Unit,
                           depth: Unit -> nat, maxDepth: nat)

  predicate Composed(T: Tables, u: Unit) {
    T.decomp(u).Some?
  }

  /** What the code takes for granted of its tables: nothing below 0x00C0 is composed
      or a mark; a decomposition is not empty, holds no nul, and leads to no circle. */
  ghost predicate Sound(T: Tables) {
    && (forall u: Unit :: u < 0xC0 ==> !Composed(T, u) && !Mark(T.cop, u))
    && (forall u: Unit :: T.depth(u) <= T.maxDepth && T.cop(u) < 256)
    && (forall u: Unit :: Composed(T, u) ==> SoundEntry(T, u, T.decomp(u).value))
  }

  ghost predicate SoundEntry(T: Tables, u: Unit, d: seq<Unit>) {
    d != [] && forall v :: v in d ==> v != 0 && T.depth(v) < T.depth(u)
  }

  // One unit, decomposed once.
  function Parts(T: Tables, u: Unit): seq<Unit> {
    if Composed(T, u) then T.decomp(u).value else [u]
  }

  function Once(T: Tables, s: seq<Unit>): seq<Unit> {
    if s == [] then [] else Parts(T, s[0]) + Once(T, s[1..])
  }

  function FirstComposed(T: Tables, s: seq<Unit>): (k: nat)
    ensures k <= |s| && (k < |s| ==> Composed(T, s[k]))
    ensures forall i :: 0 <= i < k ==> !Composed(T, s[i])
  {
    if s == [] || Composed(T, s[0]) then 0 else 1 + FirstComposed(T, s[1..])
  }

  // No composed unit of s is deeper than n.
  ghost predicate Within(T: Tables, s: seq<Unit>, n: nat) {
    forall u :: u in s && Composed(T, u) ==> T.depth(u) <= n
  }

  ghost predicate Plain(T: Tables, s: seq<Unit>) {
    forall u :: u in s ==> !Composed(T, u)
  }

  lemma {:induction false} OnceAppend(T: Tables, a: seq<Unit>, b: seq<Unit>)
    ensures Once(T, a + b) == Once(T, a) + Once(T, b)
    decreases |a|
  {
    if a == [] {
      assert a + b == b;
    } else {
      assert (a + b)[1..] == a[1..] + b;
      OnceAppend(T, a[1..], b);
    }
  }

  lemma {:induction false} OncePlain(T: Tables, s: seq<Unit>)
    requires Plain(T, s)
    ensures Once(T, s) == s
    decreases |s|
  {
    if s != [] {
      OncePlain(T, s[1..]);
      assert s == [s[0]] + s[1..];
    }
  }

  lemma {:induction false} OnceWithin(T: Tables, s: seq<Unit>, n: nat)
    requires Sound(T) && Within(T, s, n)
    ensures Within(T, Once(T, s), if n == 0 then 0 else n - 1)
    ensures n == 0 ==> Once(T, s) == s && Plain(T, s)
    decreases |s|
  {
    if s != [] {
      OnceWithin(T, s[1..], n);
      var u := s[0];
      if Composed(T, u) {
        var d := T.decomp(u).value;
        assert SoundEntry(T, u, d);
        assert d[0] in d;
      }
      assert s == [s[0]] + s[1..];
    }
  }

  lemma OnceHead(T: Tables, s: seq<Unit>)
    requires Sound(T) && s != [] && Composed(T, s[0])
    ensures Once(T, s) != [] && Parts(T, s[0]) != [] && Once(T, s)[0] == Parts(T, s[0])[0]
  {
    assert SoundEntry(T, s[0], T.decomp(s[0]).value);
  }

  lemma CutAtFirst(T: Tables, s: seq<Unit>)
    ensures var k := FirstComposed(T, s);
            && k <= |s| && s == s[..k] + s[k..] && Plain(T, s[..k])
            && (k < |s| ==> s[k..] != [] && s[k..][0] == s[k] && Composed(T, s[k]))
  {
    hide FirstComposed;
  }

  // The parts of the first composed unit, and of the units after it.
  lemma OnceParts(T: Tables, s: seq<Unit>)
    requires Sound(T) && FirstComposed(T, s) < |s|
    ensures var k, once := FirstComposed(T, s), Once(T, s);
            k < |once| && once[..k] == s[..k] && Parts(T, s[k]) != [] && once[k] == Parts(T, s[k])[0]
  {
    hide *;
    var k := FirstComposed(T, s);
    CutAtFirst(T, s);
    OnceHead(T, s[k..]);
    OnceAppend(T, s[..k], s[k..]);
    OncePlain(T, s[..k]);
  }

  /** What the expansion loop makes of s (Source/GSeq.h:112-154): all units are
      decomposed once; the first unit of the first decomposition is then left as it
      is, and the loop goes on after it. */
  ghost function Expand(T: Tables, s: seq<Unit>, n: nat): seq<Unit>
    requires Sound(T) && Within(T, s, n)
    decreases n
  {
    var k := FirstComposed(T, s);
    if k == |s| then s
    else
      OnceWithin(T, s, n);
      OnceParts(T, s);
      var once := Once(T, s);
      once[..k + 1] + Expand(T, once[k + 1..], n - 1)
  }

  // Decomposing n times over.
  function Times(T: Tables, s: seq<Unit>, n: nat): seq<Unit>
    decreases n
  {
    if n == 0 then s else Times(T, Once(T, s), n - 1)
  }

  /** Full decomposition. */
  function Full(T: Tables, s: seq<Unit>): seq<Unit> {
    Times(T, s, T.maxDepth)
  }

  lemma {:induction false} TimesAppend(T: Tables, a: seq<Unit>, b: seq<Unit>, n: nat)
    ensures Times(T, a + b, n) == Times(T, a, n) + Times(T, b, n)
    decreases n
  {
    if n > 0 {
      OnceAppend(T, a, b);
      TimesAppend(T, Once(T, a), Once(T, b), n - 1);
    }
  }

  lemma {:induction false} TimesPlain(T: Tables, s: seq<Unit>, n: nat)
    requires Plain(T, s)
    ensures Times(T, s, n) == s
    decreases n
  {
    if n > 0 {
      OncePlain(T, s);
      TimesPlain(T, s, n - 1);
    }
  }

  // Once is enough more or less, when n times are enough.
  lemma {:induction false} TimesSettled(T: Tables, s: seq<Unit>, n: nat)
    requires Sound(T) && Within(T, s, n)
    ensures Times(T, s, n) == Times(T, s, n + 1)
    ensures Plain(T, Times(T, s, n))
    decreases n
  {
    OnceWithin(T, s, n);
    if n > 0 {
      TimesSettled(T, Once(T, s), n - 1);
    } else {
      TimesPlain(T, s, 1);
    }
  }

  /** Full decomposition leaves nothing composed, and is its own fixed point. */
  lemma FullIsPlain(T: Tables, s: seq<Unit>)
    requires Sound(T)
    ensures Plain(T, Full(T, s))
    ensures Full(T, Once(T, s)) == Full(T, s)
  {
    TimesSettled(T, s, T.maxDepth);
  }

  /** When the loop decomposes fully: at each round, the first composed unit must have
      a decomposition that begins with a unit that is not composed. */
  ghost predicate Settles(T: Tables, s: seq<Unit>, n: nat)
    requires Sound(T) && Within(T, s, n)
    decreases n
  {
    var k := FirstComposed(T, s);
    if k == |s| then true
    else
      OnceWithin(T, s, n);
      OnceParts(T, s);
      var once := Once(T, s);
      !Composed(T, once[k]) && Settles(T, once[k + 1..], n - 1)
  }

  lemma PlainAppend(T: Tables, a: seq<Unit>, b: seq<Unit>)
    ensures Plain(T, a + b) <==> Plain(T, a) && Plain(T, b)
  {
    assert forall u :: u in a + b <==> u in a || u in b;
  }

  // The decomposition of u begins with lead.
  predicate LedBy(T: Tables, u: Unit, lead: Unit) {
    Composed(T, u) && Parts(T, u) != [] && Parts(T, u)[0] == lead
  }

  // One round of the loop: plain units, the lead that is left, and what is gone over
  // again.
  lemma Round(T: Tables, s: seq<Unit>, n: nat) returns (head: seq<Unit>, lead: Unit, tail: seq<Unit>)
    requires Sound(T) && Within(T, s, n) && FirstComposed(T, s) < |s|
    ensures n > 0 && |head| == FirstComposed(T, s) && Once(T, s) == head + [lead] + tail
    ensures Plain(T, head) && Within(T, tail, n - 1)
    ensures Within(T, head, n - 1) && Within(T, [lead], n - 1) && (0 !in s ==> 0 !in head && lead != 0 && 0 !in tail)
    ensures Expand(T, s, n) == head + [lead] + Expand(T, tail, n - 1)
    ensures Settles(T, s, n) <==> !Composed(T, lead) && Settles(T, tail, n - 1)
    ensures LedBy(T, s[FirstComposed(T, s)], lead)
  {
    hide *;
    var k, once := FirstComposed(T, s), Once(T, s);
    OnceWithin(T, s, n);
    FirstNotPlain(T, s);
    OnceParts(T, s);
    head, lead, tail := once[..k], once[k], once[k + 1..];
    assert once == head + [lead] + tail && head + [lead] == once[..k + 1];
    WithinAppend(T, head + [lead], tail, n - 1);
    WithinAppend(T, head, [lead], n - 1);
    OnceNoNul(T, s);
    CutAtFirst(T, s);
    Leads(T, s[k], lead);
    Rounded(T, s, n);
  }

  lemma FirstNotPlain(T: Tables, s: seq<Unit>)
    requires FirstComposed(T, s) < |s|
    ensures Composed(T, s[FirstComposed(T, s)]) && !Plain(T, s)
  {
  }

  lemma Leads(T: Tables, u: Unit, lead: Unit)
    requires Sound(T) && Composed(T, u) && Parts(T, u) != [] && lead == Parts(T, u)[0]
    ensures LedBy(T, u, lead)
  {
  }

  lemma Rounded(T: Tables, s: seq<Unit>, n: nat)
    requires Sound(T) && Within(T, s, n) && FirstComposed(T, s) < |s|
    requires var (k, once) := (FirstComposed(T, s), Once(T, s)); n > 0 && k < |once| && Within(T, once[k + 1..], n - 1)
    ensures var (k, once) := (FirstComposed(T, s), Once(T, s));
            && Expand(T, s, n) == once[..k + 1] + Expand(T, once[k + 1..], n - 1)
            && (Settles(T, s, n) <==> !Composed(T, once[k]) && Settles(T, once[k + 1..], n - 1))
  {
    hide Once, FirstComposed, Sound, Within, Composed;
  }

  lemma {:induction false} OnceNoNul(T: Tables, s: seq<Unit>)
    requires Sound(T)
    ensures 0 !in s ==> 0 !in Once(T, s)
    decreases |s|
  {
    if s != [] {
      OnceNoNul(T, s[1..]);
      if Composed(T, s[0]) {
        assert SoundEntry(T, s[0], T.decomp(s[0]).value);
      }
      assert s == [s[0]] + s[1..];
    }
  }

  lemma WithinAppend(T: Tables, a: seq<Unit>, b: seq<Unit>, n: nat)
    ensures Within(T, a + b, n) <==> Within(T, a, n) && Within(T, b, n)
  {
    assert forall u :: u in a + b <==> u in a || u in b;
  }

  lemma WithinMore(T: Tables, s: seq<Unit>, n: nat, m: nat)
    requires Within(T, s, n) && n <= m
    ensures Within(T, s, m)
  {
  }

  lemma AllWithin(T: Tables, s: seq<Unit>)
    requires Sound(T)
    ensures Within(T, s, T.maxDepth)
  {
  }

  /** It then leaves nothing composed, and only then. */
  lemma {:induction false} SettlesIffPlain(T: Tables, s: seq<Unit>, n: nat)
    requires Sound(T) && Within(T, s, n)
    ensures Settles(T, s, n) <==> Plain(T, Expand(T, s, n))
    decreases n
  {
    if FirstComposed(T, s) < |s| {
      var head, lead, tail := Round(T, s, n);
      hide *;
      SettlesIffPlain(T, tail, n - 1);
      PlainAppend(T, head + [lead], Expand(T, tail, n - 1));
      PlainAppend(T, head, [lead]);
      PlainOne(T, lead);
    }
  }

  /** The result is the full decomposition exactly when that condition holds. */
  lemma {:induction false} ExpandFullIff(T: Tables, s: seq<Unit>, n: nat)
    requires Sound(T) && Within(T, s, n)
    ensures Expand(T, s, n) == Full(T, s) <==> Settles(T, s, n)
    decreases n
  {
    FullIsPlain(T, s);
    SettlesIffPlain(T, s, n);
    if Settles(T, s, n) {
      SettledIsFull(T, s, n);
    }
  }

  lemma {:induction false} SettledIsFull(T: Tables, s: seq<Unit>, n: nat)
    requires Sound(T) && Within(T, s, n) && Settles(T, s, n)
    ensures Expand(T, s, n) == Full(T, s)
    decreases n
  {
    hide *;
    FullIsPlain(T, s);
    if FirstComposed(T, s) == |s| {
      NoRound(T, s, n);
    } else {
      var head, lead, tail := Round(T, s, n);
      SettledIsFull(T, tail, n - 1);
      PlainAppend(T, head, [lead]);
      PlainOne(T, lead);
      FullAppend(T, head + [lead], tail);
    }
  }

  lemma FullAppend(T: Tables, a: seq<Unit>, b: seq<Unit>)
    requires Plain(T, a)
    ensures Full(T, a + b) == a + Full(T, b)
  {
    TimesAppend(T, a, b, T.maxDepth);
    TimesPlain(T, a, T.maxDepth);
  }

  lemma PlainOne(T: Tables, u: Unit)
    ensures Plain(T, [u]) <==> !Composed(T, u)
  {
  }

  // Without composed units the loop ends.
  lemma NoRound(T: Tables, s: seq<Unit>, n: nat)
    requires Sound(T) && Within(T, s, n) && FirstComposed(T, s) == |s|
    ensures Expand(T, s, n) == s == Full(T, s) && Plain(T, s) && Within(T, s, 0)
  {
    TimesPlain(T, s, T.maxDepth);
  }

  /** No decomposition in the tables begins with a composed unit. */
  ghost predicate PlainLeads(T: Tables)
    requires Sound(T)
  {
    forall u: Unit, lead: Unit :: LedBy(T, u, lead) ==> !Composed(T, lead)
  }

  /** The loop decomposes every sequence fully exactly under that condition. */
  lemma AlwaysSettlesIff(T: Tables)
    requires Sound(T)
    ensures (forall s :: Within(T, s, T.maxDepth) ==> Settles(T, s, T.maxDepth)) <==> PlainLeads(T)
  {
    hide Settles, Sound;
    if PlainLeads(T) {
      forall s | Within(T, s, T.maxDepth)
        ensures Settles(T, s, T.maxDepth)
      {
        PlainLeadsSettle(T, s, T.maxDepth);
      }
    } else {
      var u: Unit, lead: Unit :| LedBy(T, u, lead) && Composed(T, lead);
      LeadUnsettled(T, u, lead);
    }
  }

  lemma {:induction false} PlainLeadsSettle(T: Tables, s: seq<Unit>, n: nat)
    requires Sound(T) && Within(T, s, n) && PlainLeads(T)
    ensures Settles(T, s, n)
    decreases n
  {
    hide *;
    if FirstComposed(T, s) < |s| {
      var head, lead, tail := Round(T, s, n);
      LeadPlain(T, s[FirstComposed(T, s)], lead);
      PlainLeadsSettle(T, tail, n - 1);
    } else {
      FirstIs(T, s);
      NoRound(T, s, n);
      SettlesIffPlain(T, s, n);
    }
  }

  lemma FirstIs(T: Tables, s: seq<Unit>)
    ensures FirstComposed(T, s) <= |s|
  {
  }

  lemma LeadPlain(T: Tables, u: Unit, lead: Unit)
    requires Sound(T) && PlainLeads(T) && LedBy(T, u, lead)
    ensures !Composed(T, lead)
  {
  }

  // A unit whose decomposition begins with a composed one is not decomposed fully.
  lemma LeadUnsettled(T: Tables, u: Unit, lead: Unit)
    requires Sound(T) && LedBy(T, u, lead) && Composed(T, lead)
    ensures u >= 0xC0 && Within(T, [u], T.maxDepth) && !Settles(T, [u], T.maxDepth)
  {
    var s := [u];
    var head, other, tail := Round(T, s, T.maxDepth);
    assert FirstComposed(T, s) == 0;
  }

  /** The tables do hold such decompositions: with the entries for U+01D5 and U+00DC,
      the former is expanded to U+00DC U+0304 and no further, and what comes out is
      expanded differently the second time. */
  lemma LeadStaysComposed(T: Tables)
    requires Sound(T)
    requires T.decomp(0x1D5) == Some([0xDC, 0x304]) && T.decomp(0xDC) == Some([0x55, 0x308])
    requires !Composed(T, 0x304) && !Composed(T, 0x308)
    ensures Expand(T, [0x1D5], T.maxDepth) == [0xDC, 0x304]
    ensures Expand(T, [0xDC, 0x304], T.maxDepth) == [0x55, 0x308, 0x304] == Full(T, [0x1D5])
  {
    LeadOnce(T);
    hide *;
    var a, b, c: seq<Unit> := [0x1D5], [0xDC, 0x304], [0x55, 0x308, 0x304];
    AllWithin(T, a);
    AllWithin(T, b);
    var head, lead, tail := Round(T, a, T.maxDepth);
    assert head + [lead] + tail == b && |head| == 0;
    assert lead == b[0] && tail == b[1..];
    NoRound(T, tail, T.maxDepth - 1);
    var head', lead', tail' := Round(T, b, T.maxDepth);
    assert head' + [lead'] + tail' == c && |head'| == 0;
    assert lead' == c[0] && tail' == c[1..];
    NoRound(T, tail', T.maxDepth - 1);
    FullIsPlain(T, a);
    FullIsPlain(T, b);
    AllWithin(T, c);
    NoRound(T, c, T.maxDepth);
  }

  lemma LeadOnce(T: Tables)
    requires Sound(T)
    requires T.decomp(0x1D5) == Some([0xDC, 0x304]) && T.decomp(0xDC) == Some([0x55, 0x308])
    requires !Composed(T, 0x304) && !Composed(T, 0x308)
    ensures Once(T, [0x1D5]) == [0xDC, 0x304] && Once(T, [0xDC, 0x304]) == [0x55, 0x308, 0x304]
    ensures FirstComposed(T, [0x1D5]) == 0 && FirstComposed(T, [0xDC, 0x304]) == 0
    ensures FirstComposed(T, [0xDC, 0x304][1..]) == 1 && FirstComposed(T, [0x55, 0x308, 0x304][1..]) == 2
    ensures FirstComposed(T, [0x55, 0x308, 0x304]) == 3
  {
    var a, b: seq<Unit> := [0x1D5], [0xDC, 0x304];
    assert a[1..] == [] && b[1..] == [0x304] && b[1..][1..] == [];
    assert Once(T, [0x304]) == [0x304];
    assert [0x55, 0x308] + [0x304] == [0x55, 0x308, 0x304];
    assert [0x55, 0x308, 0x304][1..] == [0x308, 0x304] && [0x308, 0x304][1..] == [0x304];
    assert FirstComposed(T, [0x304]) == 1;
  }
}
