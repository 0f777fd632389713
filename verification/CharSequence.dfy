/** The sequence object of Source/GSeq.h: normalising it in place, and comparing two. */
module CharSequence {
  import opened Wrappers
  import opened MarkOrder
  import opened Decompose
  import opened CharNormal
  import opened CharOrder
  import opened MarkSorting

  /** What MAXDEC promises: a unit fully decomposed has fewer units than that. */
  ghost predicate Room(T: Tables) {
    forall u: Unit :: |Full(T, [u])| < MAXDEC
  }

  lemma {:induction false} OnceGrows(T: Tables, s: seq<Unit>)
    requires Sound(T)
    ensures |Once(T, s)| >= |s|
    decreases |s|
  {
    if s != [] {
      OnceGrows(T, s[1..]);
      assert Composed(T, s[0]) ==> SoundEntry(T, s[0], T.decomp(s[0]).value);
    }
  }

  lemma {:induction false} TimesGrows(T: Tables, s: seq<Unit>, n: nat)
    requires Sound(T)
    ensures |Times(T, s, n)| >= |s|
    decreases n
  {
    if n > 0 {
      OnceGrows(T, s);
      TimesGrows(T, Once(T, s), n - 1);
    }
  }

  lemma FullGrows(T: Tables, s: seq<Unit>)
    requires Sound(T)
    ensures |Full(T, s)| >= |s|
  {
    TimesGrows(T, s, T.maxDepth);
  }

  lemma FullParts(T: Tables, a: seq<Unit>, b: seq<Unit>)
    ensures Full(T, a + b) == Full(T, a) + Full(T, b)
  {
    TimesAppend(T, a, b, T.maxDepth);
  }

  // The loop makes no more of s than full decomposition would, and no less than one
  // round makes.
  lemma {:induction false} ExpandSize(T: Tables, s: seq<Unit>, n: nat)
    requires Sound(T) && Within(T, s, n)
    ensures |s| <= |Once(T, s)| <= |Expand(T, s, n)| <= |Full(T, s)|
    decreases n
  {
    hide *;
    OnceGrows(T, s);
    if FirstComposed(T, s) < |s| {
      var head, lead, tail := Round(T, s, n);
      ExpandSize(T, tail, n - 1);
      FullIsPlain(T, s);
      FullParts(T, head + [lead], tail);
      FullGrows(T, head + [lead]);
    } else {
      NoRound(T, s, n);
      OncePlain(T, s);
    }
  }

  lemma {:induction false} FullFits(T: Tables, s: seq<Unit>)
    requires Sound(T) && Room(T)
    ensures |Full(T, s)| <= (MAXDEC - 1) * |s|
    decreases |s|
  {
    if s == [] {
      TimesPlain(T, s, T.maxDepth);
    } else {
      FullFits(T, s[1..]);
      assert s == [s[0]] + s[1..];
      FullParts(T, [s[0]], s[1..]);
    }
  }

  /** The room that MAXDEC units a unit give is enough, the counted nul included. */
  lemma ExpansionFits(T: Tables, s: seq<Unit>)
    requires Sound(T) && Room(T) && Base(s) < |s|
    ensures |Expansion(T, s)| <= MAXDEC * |s|
  {
    AllWithin(T, Reach(s));
    ExpandSize(T, Reach(s), T.maxDepth);
    FullFits(T, Reach(s));
    assert Reach(s) != [];
  }

  // Where the expansion loop is: the units before base are done, those from base to the
  // next nul are still to be expanded.
  ghost predicate Pending(T: Tables, s: seq<Unit>, base: nat, n: nat, whole: seq<Unit>)
    requires Sound(T)
  {
    && base < |s| && NulFrom(s, base) < |s| && Within(T, s[base..NulFrom(s, base)], n)
    && whole == s[..base] + Expand(T, s[base..NulFrom(s, base)], n) + [0]
  }

  ghost predicate Roomy(n: nat, chars: array<Unit>, target: array<Unit>) {
    n < chars.Length && n <= target.Length && chars != target
  }

  lemma NulFromIs(s: seq<Unit>, i: nat, e: nat)
    requires i <= e < |s| && s[e] == 0 && forall k :: i <= k < e ==> s[k] != 0
    ensures NulFrom(s, i) == e
    decreases |s| - i
  {
  }

  // One round leaves the same whole pending, one level down.
  lemma PendingRound(T: Tables, a: seq<Unit>, u: seq<Unit>, n: nat)
    requires Sound(T) && Within(T, u, n) && 0 !in u && FirstComposed(T, u) < |u|
    ensures n > 0
    ensures Pending(T, a + Once(T, u) + [0], |a| + FirstComposed(T, u) + 1, n - 1, a + Expand(T, u, n) + [0])
  {
    hide *;
    RoundIs(T, u, n);
    OnceNoNul(T, u);
    var k, once := FirstComposed(T, u), Once(T, u);
    SplitAt(once, k + 1);
    PendingAt(T, a, once[..k + 1], once[k + 1..], n - 1);
    Regroup(a, once[..k + 1], once[k + 1..]);
    Regroup(a, once[..k + 1], Expand(T, once[k + 1..], n - 1));
  }

  lemma SplitAt(s: seq<Unit>, i: nat)
    requires i <= |s|
    ensures s == s[..i] + s[i..] && |s[..i]| == i && (0 !in s ==> 0 !in s[i..])
  {
  }

  lemma Regroup(a: seq<Unit>, b: seq<Unit>, c: seq<Unit>)
    ensures a + (b + c) == a + b + c
  {
  }

  lemma PendingAt(T: Tables, a: seq<Unit>, done: seq<Unit>, rest: seq<Unit>, n: nat)
    requires Sound(T) && Within(T, rest, n) && 0 !in rest
    ensures Pending(T, a + done + rest + [0], |a| + |done|, n, a + done + Expand(T, rest, n) + [0])
  {
    hide Expand, Within, Sound, NulFrom;
    var s: seq<Unit>, b := a + done + rest + [0], |a| + |done|;
    assert s[..b] == a + done;
    assert s[b..b + |rest|] == rest;
    assert forall i :: b <= i < b + |rest| ==> s[i] == rest[i - b] && rest[i - b] in rest;
    NulFromIs(s, b, b + |rest|);
  }

  // The last round.
  lemma PendingDone(T: Tables, s: seq<Unit>, base: nat, n: nat, whole: seq<Unit>)
    requires Sound(T) && Pending(T, s, base, n, whole)
    requires var u := s[base..NulFrom(s, base)]; FirstComposed(T, u) == |u|
    ensures whole == s[..base] + Once(T, s[base..NulFrom(s, base)]) + [0]
  {
    var u := s[base..NulFrom(s, base)];
    NoRound(T, u, n);
    OncePlain(T, u);
  }

  lemma PendingSize(T: Tables, s: seq<Unit>, base: nat, n: nat, whole: seq<Unit>)
    requires Sound(T) && Pending(T, s, base, n, whole)
    ensures base + |Once(T, s[base..NulFrom(s, base)])| + 1 <= |whole|
  {
    ExpandSize(T, s[base..NulFrom(s, base)], n);
  }

  // One unit or its decomposition is written.
  method PutParts(T: Tables, u: Unit, target: array<Unit>, at: nat) returns (next: nat)
    requires at + |Parts(T, u)| <= target.Length
    modifies target
    ensures next == at + |Parts(T, u)| && target[..next] == old(target[..at]) + Parts(T, u)
  {
    if T.decomp(u).None? {
      target[at] := u;
      return at + 1;
    }
    var d := T.decomp(u).value;
    next := at;
    while next - at < |d|
      invariant at <= next <= at + |d|
      invariant target[..next] == old(target[..at]) + d[..next - at]
    {
      target[next] := d[next - at];
      next := next + 1;
    }
  }

  // Units moved back from the scratch buffer.
  method CopyBack(chars: array<Unit>, target: array<Unit>, base: nat, count: nat)
    requires base <= count < chars.Length && count <= target.Length && chars != target
    modifies chars
    ensures chars[..count] == old(chars[..base]) + target[base..count] && chars[count] == 0
  {
    for i := base to count
      invariant chars[..i] == old(chars[..base]) + target[base..i]
    {
      chars[i] := target[i];
    }
    chars[count] := 0;
  }

  lemma OnceNext(T: Tables, u: seq<Unit>, i: nat)
    requires i < |u|
    ensures Once(T, u[..i + 1]) == Once(T, u[..i]) + Parts(T, u[i])
    ensures |Once(T, u[..i + 1])| <= |Once(T, u)|
  {
    assert u[..i + 1] == u[..i] + [u[i]] && u == u[..i + 1] + u[i + 1..];
    OnceAppend(T, u[..i], [u[i]]);
    OnceAppend(T, u[..i + 1], u[i + 1..]);
    assert [u[i]][1..] == [];
  }

  lemma OnceNul(T: Tables, u: seq<Unit>)
    requires Sound(T)
    ensures Once(T, u + [0]) == Once(T, u) + [0]
  {
    OnceNext(T, u + [0], |u|);
    assert (u + [0])[..|u|] == u && (u + [0])[..|u| + 1] == u + [0];
  }

  // Where the first composed unit is, looking at one more.
  lemma FirstNext(T: Tables, u: seq<Unit>, i: nat)
    requires i < |u|
    ensures FirstComposed(T, u[..i + 1]) == if FirstComposed(T, u[..i]) < i then FirstComposed(T, u[..i])
                                            else if Composed(T, u[i]) then i else i + 1
  {
    var v, w := u[..i], u[..i + 1];
    var k, k' := FirstComposed(T, v), FirstComposed(T, w);
    assert forall j :: 0 <= j < i ==> v[j] == w[j] == u[j];
  }

  lemma FirstNul(T: Tables, u: seq<Unit>)
    requires Sound(T)
    ensures FirstComposed(T, u + [0]) == if FirstComposed(T, u) < |u| then FirstComposed(T, u) else |u| + 1
  {
    FirstNext(T, u + [0], |u|);
    assert (u + [0])[..|u|] == u && (u + [0])[..|u| + 1] == u + [0];
  }

  // One more unit: what is written, and the new base if it is the first composed one.
  lemma Unroll(T: Tables, u: seq<Unit>, i: nat, base: nat)
    requires i < |u|
    ensures Once(T, u[..i + 1]) == Once(T, u[..i]) + Parts(T, u[i])
    ensures |Once(T, u[..i + 1])| <= |Once(T, u)|
    ensures Newbase(T, u[..i + 1], base) ==
            if Composed(T, u[i]) && Newbase(T, u[..i], base) == 0 then base + i + 1 else Newbase(T, u[..i], base)
  {
    OnceNext(T, u, i);
    FirstNext(T, u, i);
  }

  method PutNext(T: Tables, u: Unit, base: nat, spoint: nat, newbase0: nat, target: array<Unit>, at: nat)
    returns (next: nat, newbase: nat)
    requires base <= at && at + |Parts(T, u)| <= target.Length
    modifies target
    ensures next == at + |Parts(T, u)| && target[base..next] == old(target[base..at]) + Parts(T, u)
    ensures newbase == if Composed(T, u) && newbase0 == 0 then spoint + 1 else newbase0
  {
    next := PutParts(T, u, target, at);
    assert target[base..next] == target[..next][base..];
    newbase := if T.decomp(u).Some? && newbase0 <= 0 then spoint + 1 else newbase0;
  }

  // u with its nul stands in chars from base on.
  ghost predicate Holds(s: seq<Unit>, base: nat, u: seq<Unit>) {
    base + |u| <= |s| && u != [] && s[base..base + |u|] == u && forall i :: 0 <= i < |u| ==> (u[i] == 0 <==> i == |u| - 1)
  }

  method Gather(T: Tables, chars: array<Unit>, base: nat, target: array<Unit>, ghost u: seq<Unit>)
    returns (tpoint: nat, newbase: nat)
    requires Holds(chars[..], base, u) && Roomy(base + |Once(T, u)|, chars, target)
    modifies target
    ensures tpoint == base + |Once(T, u)| && target[base..tpoint] == Once(T, u)
    ensures newbase == Newbase(T, u, base)
  {
    hide Once, Newbase, Parts, Composed;
    NothingYet(T, u, base);
    var spoint, more := base, true;
    tpoint, newbase := base, 0;
    while more
      invariant base <= spoint <= base + |u| && (more <==> spoint < base + |u|)
      invariant tpoint == base + |Once(T, u[..spoint - base])| <= target.Length
      invariant target[base..tpoint] == Once(T, u[..spoint - base])
      invariant newbase == Newbase(T, u[..spoint - base], base)
      decreases base + |u| - spoint
    {
      ghost var i := spoint - base;
      Unroll(T, u, i, base);
      assert chars[..][base..base + |u|][i] == chars[spoint];
      tpoint, newbase := PutNext(T, chars[spoint], base, spoint, newbase, target, tpoint);
      more := chars[spoint] != 0;
      spoint := spoint + 1;
    }
    assert u[..spoint - base] == u;
  }

  lemma NothingYet(T: Tables, u: seq<Unit>, base: nat)
    ensures Once(T, u[..0]) == [] && Newbase(T, u[..0], base) == 0
  {
  }

  // What stands at base up to the nul, in terms of the units before it.
  lemma NulReached(T: Tables, s: seq<Unit>, base: nat)
    requires Sound(T) && base < |s| && NulFrom(s, base) < |s|
    ensures var u := s[base..NulFrom(s, base)];
            && Holds(s, base, u + [0]) && Once(T, u + [0]) == Once(T, u) + [0]
            && Newbase(T, u + [0], base) == if FirstComposed(T, u) < |u| then base + FirstComposed(T, u) + 1 else 0
  {
    OnceNul(T, s[base..NulFrom(s, base)]);
    FirstNul(T, s[base..NulFrom(s, base)]);
  }

  /** Source/GSeq.h:112-152, one time round: all units from base up to a nul are
      decomposed once. The new base is after the first composed one, or the end. */
  method Again(T: Tables, chars: array<Unit>, base: nat, target: array<Unit>) returns (count: nat, newbase: nat)
    requires Sound(T) && base < chars.Length && NulFrom(chars[..], base) < chars.Length
    requires Roomy(base + |Once(T, chars[base..NulFrom(chars[..], base)])| + 1, chars, target)
    modifies chars, target
    ensures var s := old(chars[..]); var u := s[base..NulFrom(s, base)];
            && count < chars.Length && chars[count] == 0
            && chars[..count] == s[..base] + Once(T, u) + [0]
            && newbase == if FirstComposed(T, u) < |u| then base + FirstComposed(T, u) + 1 else count
  {
    ghost var s := chars[..];
    ghost var u := s[base..NulFrom(s, base)];
    NulReached(T, s, base);
    hide Once, Newbase, FirstComposed, Sound, NulFrom, Holds;
    count, newbase := Gather(T, chars, base, target, u + [0]);
    CopyBack(chars, target, base, count);
    newbase := if newbase > 0 then newbase else count;
  }

  function Newbase(T: Tables, u: seq<Unit>, base: nat): nat {
    if FirstComposed(T, u) < |u| then base + FirstComposed(T, u) + 1 else 0
  }

  // A sequence of units that are done, units to expand, a nul, and whatever follows.
  lemma PendingOf(T: Tables, s: seq<Unit>, base: nat, e: nat, n: nat)
    requires Sound(T) && base <= e < |s| && s[e] == 0 && Within(T, s[base..e], n)
    requires forall k :: base <= k < e ==> s[k] != 0
    ensures Pending(T, s, base, n, s[..base] + Expand(T, s[base..e], n) + [0])
  {
    hide Expand, Sound, Within;
    NulFromIs(s, base, e);
  }

  // The loop begins with the whole sequence pending.
  lemma PendingFirst(T: Tables, s: seq<Unit>, rest: seq<Unit>)
    requires Sound(T) && Base(s) < |s| && rest != [] && rest[0] == 0
    ensures Pending(T, s + rest, Base(s), T.maxDepth, Expansion(T, s))
  {
    var b := Base(s);
    var e := NulFrom(s, b);
    AllWithin(T, Reach(s));
    ReachIs(s);
    ExpansionIs(T, s);
    hide *;
    PendingWithRest(T, s, rest, b, e, T.maxDepth);
  }

  lemma ExpansionIs(T: Tables, s: seq<Unit>)
    requires Sound(T)
    ensures Within(T, Reach(s), T.maxDepth)
    ensures Expansion(T, s) == s[..Base(s)] + Expand(T, Reach(s), T.maxDepth) + [0]
  {
  }

  lemma PendingWithRest(T: Tables, s: seq<Unit>, rest: seq<Unit>, b: nat, e: nat, n: nat)
    requires Sound(T) && b <= e <= |s| && Within(T, s[b..e], n)
    requires if e < |s| then s[e] == 0 else rest != [] && rest[0] == 0
    requires forall k :: b <= k < e ==> s[k] != 0
    ensures Pending(T, s + rest, b, n, s[..b] + Expand(T, s[b..e], n) + [0])
  {
    hide *;
    var r := s + rest;
    assert r[b..e] == s[b..e] && r[..b] == s[..b];
    assert forall k :: b <= k < e ==> r[k] == s[k];
    PendingOf(T, r, b, e, n);
  }

  lemma ReachIs(s: seq<Unit>)
    requires Base(s) < |s|
    ensures var b, e := Base(s), NulFrom(s, Base(s));
            b <= e <= |s| && Reach(s) == s[b..e] && (e < |s| ==> s[e] == 0) && forall k :: b <= k < e ==> s[k] != 0
  {
  }

  lemma PendingMore(T: Tables, s: seq<Unit>, base: nat, n: nat, whole: seq<Unit>, rest: seq<Unit>)
    requires Sound(T) && Pending(T, s, base, n, whole)
    ensures Pending(T, s + rest, base, n, whole)
  {
    var e := NulFrom(s, base);
    hide Expand, Sound, Within, NulFrom;
    var r := s + rest;
    assert r[base..e] == s[base..e] && r[..base] == s[..base];
    assert forall k :: base <= k < e ==> r[k] == s[k];
    PendingOf(T, r, base, e, n);
  }

  // The first nul cuts the units to expand off.
  lemma PendingMeans(T: Tables, s: seq<Unit>, base: nat, n: nat, whole: seq<Unit>)
    requires Sound(T) && Pending(T, s, base, n, whole)
    ensures base < |s| && NulFrom(s, base) < |s|
    ensures var u := s[base..NulFrom(s, base)];
            |u| == NulFrom(s, base) - base && 0 !in u && Within(T, u, n) && whole == s[..base] + Expand(T, u, n) + [0]
  {
  }

  // After a round: either all is done, or the same whole is pending one level down.
  lemma AfterRound(T: Tables, s: seq<Unit>, base: nat, n: nat, whole: seq<Unit>, s': seq<Unit>, rest: seq<Unit>)
    requires Sound(T) && Pending(T, s, base, n, whole) && base < |s|
    requires s' == s[..base] + Once(T, s[base..NulFrom(s, base)]) + [0]
    ensures FirstComposed(T, s[base..NulFrom(s, base)]) == NulFrom(s, base) - base ==> s' == whole
    ensures FirstComposed(T, s[base..NulFrom(s, base)]) < NulFrom(s, base) - base ==>
              n > 0 && Pending(T, s' + rest, base + FirstComposed(T, s[base..NulFrom(s, base)]) + 1, n - 1, whole)
  {
    hide *;
    var u := s[base..NulFrom(s, base)];
    PendingMeans(T, s, base, n, whole);
    FirstWithin(T, u);
    if FirstComposed(T, u) == |u| {
      PendingDone(T, s, base, n, whole);
    } else {
      PendingRound(T, s[..base], u, n);
      PendingMore(T, s', base + FirstComposed(T, u) + 1, n - 1, whole, rest);
    }
  }

  lemma PendingIn(T: Tables, s: seq<Unit>, base: nat, n: nat, whole: seq<Unit>)
    requires Sound(T) && Pending(T, s, base, n, whole)
    ensures base < |s| && NulFrom(s, base) < |s|
  {
  }

  /** Source/GSeq.h:112-153: rounds of expansion until nothing composed is found from
      base on. They end after as many rounds as the tables are deep, and leave the
      expansion. */
  method ExpandAll(T: Tables, chars: array<Unit>, base0: nat, count0: nat) returns (count: nat)
    requires Sound(T) && Room(T) && count0 < chars.Length && MAXDEC * count0 < chars.Length
    requires chars[count0] == 0 && base0 == Base(chars[..count0]) < count0
    modifies chars
    ensures count < chars.Length && chars[..count] == Expansion(T, old(chars[..count0]))
  {
    ghost var s0 := chars[..count0];
    ghost var whole := Expansion(T, s0);
    ghost var n: nat := T.maxDepth;
    ExpansionFits(T, s0);
    PendingFirst(T, s0, chars[count0..]);
    assert chars[..] == s0 + chars[count0..];
    hide *;
    var target := new Unit[count0 * MAXDEC + 1];
    IsRoomy(|whole|, chars, target);
    var base: nat := base0;
    count := count0;
    while base < count
      invariant base <= count < chars.Length && fresh(target)
      invariant Roomy(|whole|, chars, target)
      invariant base < count ==> Pending(T, chars[..], base, n, whole)
      invariant base == count ==> chars[..count] == whole
      decreases if base < count then n + 1 else 0
    {
      ghost var deep;
      count, base, deep := Deeper(T, chars, base, target, n, whole);
      n := deep;
    }
  }

  // A round with what is pending before and after it.
  method Deeper(T: Tables, chars: array<Unit>, base0: nat, target: array<Unit>, ghost n0: nat, ghost whole: seq<Unit>)
    returns (count: nat, base: nat, ghost n: nat)
    requires Sound(T) && Pending(T, chars[..], base0, n0, whole) && Roomy(|whole|, chars, target)
    modifies chars, target
    ensures base <= count < chars.Length
    ensures if base == count then chars[..count] == whole else n < n0 && Pending(T, chars[..], base, n, whole)
  {
    hide *;
    ghost var s := chars[..];
    PendingIn(T, s, base0, n0, whole);
    PendingSize(T, s, base0, n0, whole);
    Roomier(base0 + |Once(T, s[base0..NulFrom(s, base0)])| + 1, |whole|, chars, target);
    count, base := Again(T, chars, base0, target);
    AfterRound(T, s, base0, n0, whole, chars[..count], chars[count..]);
    assert chars[..] == chars[..count] + chars[count..];
    FirstWithin(T, s[base0..NulFrom(s, base0)]);
    OnceGrows(T, s[base0..NulFrom(s, base0)]);
    n := if n0 > 0 then n0 - 1 else 0;
  }

  lemma IsRoomy(n: nat, chars: array<Unit>, target: array<Unit>)
    requires n < chars.Length && n <= target.Length && chars != target
    ensures Roomy(n, chars, target)
  {
  }

  lemma Roomier(n: nat, m: nat, chars: array<Unit>, target: array<Unit>)
    requires n <= m && Roomy(m, chars, target)
    ensures Roomy(n, chars, target)
  {
  }

  lemma FirstWithin(T: Tables, u: seq<Unit>)
    ensures FirstComposed(T, u) <= |u|
  {
  }

  class GSeq {
    const chars: array<Unit>
    var count: nat
    var normalized: bool

    ghost predicate Valid()
      reads this
    {
      count < chars.Length && (!normalized ==> MAXDEC * count < chars.Length)
    }

    ghost function Content(): seq<Unit>
      requires Valid()
      reads this, chars
    {
      chars[..count]
    }

    /** A sequence as GSEQ_MAKE sets it up (Source/GSeq.h:70-72). */
    constructor (units: seq<Unit>)
      ensures Valid() && fresh(chars) && !normalized && Content() == units
    {
      var buf := new Unit[|units| * MAXDEC + 1];
      for i := 0 to |units|
        invariant buf[..i] == units[..i]
      {
        buf[i] := units[i];
      }
      chars, count, normalized := buf, |units|, false;
      new;
      assert chars[..count] == units;
    }

    /** GSeq_normalize (Source/GSeq.h:79-220): the content becomes its normal form. An
        empty sequence is left alone, and not marked. */
    method Normalize(T: Tables)
      requires Valid() && Sound(T) && Room(T) && MAXDEC * count < chars.Length
      modifies this, chars
      ensures Valid() && Content() == Normal(T, old(Content())) && normalized == (old(normalized) || old(count) > 0)
      ensures forall i :: 0 < i < |Content()| && T.cop(Content()[i]) != 0 ==>
                var (a, b) := (Content()[i - 1], Content()[i]); T.cop(a) < T.cop(b) || (T.cop(a) == T.cop(b) && a < b)
    {
      NormalByClass(T, chars[..count]);
      if count > 0 {
        var base := 0;
        while base < count && chars[base] < 0xC0
          invariant base <= count && forall i :: 0 <= i < base ==> chars[i] < 0xC0
        {
          base := base + 1;
        }
        BaseIs(chars[..count], base);
        chars[count] := 0;
        if base < count {
          count := ExpandAll(T, chars, base, count);
          var sorted := SortMarks(T.cop, chars, count);
          count := sorted;
        }
        normalized := true;
      }
    }

    /** GSeq_compare (Source/GSeq.h:226-273). */
    static method Compare(T: Tables, s0: GSeq, s1: GSeq) returns (order: Order)
      requires s0.Valid() && s1.Valid() && Sound(T) && Room(T)
      requires s0 == s1 || s0.chars != s1.chars
      modifies s0, s1, s0.chars, s1.chars
      ensures s0.Valid() && s1.Valid()
      ensures order == Answer(T, old(s0.Content()), old(s0.normalized), old(s1.Content()), old(s1.normalized))
      ensures if old(s0.Content()) == old(s1.Content())
              then s0.Content() == s1.Content() == old(s0.Content())
                   && s0.normalized == old(s0.normalized) && s1.normalized == old(s1.normalized)
              else s0.Content() == SortKey(T, old(s0.Content()), old(s0.normalized))
                   && s1.Content() == SortKey(T, old(s1.Content()), old(s1.normalized))
                   && s0.normalized == (old(s0.normalized) || old(s0.count) > 0)
                   && s1.normalized == (old(s1.normalized) || old(s1.count) > 0)
    {
      if s0.count == s1.count {
        var i := 0;
        while i < s1.count && s0.chars[i] == s1.chars[i]
          invariant i <= s1.count && s0.chars[..i] == s1.chars[..i]
        {
          i := i + 1;
        }
        if i == s0.count {
          return Same;
        }
        assert s0.Content()[i] != s1.Content()[i];
      }
      if !s0.normalized {
        s0.Normalize(T);
      }
      if !s1.normalized {
        s1.Normalize(T);
      }
      order := LexOf(s0.chars, s0.count, s1.chars, s1.count);
    }
  }

  lemma BaseIs(s: seq<Unit>, b: nat)
    requires b <= |s| && (b < |s| ==> s[b] >= 0xC0) && forall i :: 0 <= i < b ==> s[i] < 0xC0
    ensures Base(s) == b
  {
  }

  // Source/GSeq.h:255-272.
  method LexOf(c0: array<Unit>, len0: nat, c1: array<Unit>, len1: nat) returns (order: Order)
    requires len0 <= c0.Length && len1 <= c1.Length
    ensures order == Lex(c0[..len0], c1[..len1])
  {
    ghost var a, b := c0[..len0], c1[..len1];
    var end := if len0 < len1 then len0 else len1;
    for i := 0 to end
      invariant a[..i] == b[..i]
    {
      LexAt(a, b, i);
      if c0[i] < c1[i] {
        return Ascending;
      }
      if c0[i] > c1[i] {
        return Descending;
      }
    }
    LexAt(a, b, end);
    order := if len0 < len1 then Ascending else if len0 > len1 then Descending else Same;
  }
}
