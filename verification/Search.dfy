/** Literal search and comparison of strings of units (the literal branches of
    GSEQ_STRRANGE and GSEQ_STRCOMP). */
module Search {
  import opened Wrappers
  import opened MarkOrder
  import opened CharOrder

  type Lower = Unit -> Unit

  predicate Equal(lower: Lower, caseless: bool, a: Unit, b: Unit) {
    a == b || (caseless && lower(a) == lower(b))
  }

  // o is found in s at k.
  predicate Matches(lower: Lower, caseless: bool, s: seq<Unit>, o: seq<Unit>, k: nat) {
    k + |o| <= |s| && forall i :: 0 <= i < |o| ==> Equal(lower, caseless, s[k + i], o[i])
  }

  // The places to look at: where o fits in the range, or only the one at its end.
  predicate Candidate(o: seq<Unit>, location: nat, length: nat, backward: bool, anchored: bool, k: nat) {
    && location <= k && k + |o| <= location + length
    && (anchored ==> k == if backward then location + length - |o| else location)
  }

  /** A search is right: it gives the least match, or searching backward the greatest,
      and none only if there is none. An empty string is never found. */
  ghost predicate Found(lower: Lower, caseless: bool, s: seq<Unit>, o: seq<Unit>, location: nat, length: nat,
                  backward: bool, anchored: bool, r: Option<nat>)
  {
    match r
    case None =>
      o == [] || forall k: nat :: Candidate(o, location, length, backward, anchored, k) ==> !Matches(lower, caseless, s, o, k)
    case Some(m) =>
      && o != [] && Candidate(o, location, length, backward, anchored, m) && Matches(lower, caseless, s, o, m)
      && forall k: nat :: Candidate(o, location, length, backward, anchored, k) && Matches(lower, caseless, s, o, k)
           ==> if backward then k <= m else m <= k
  }

  // The inner loop, the same in all branches (for example Source/GSeq.h:735-749).
  method MatchAt(lower: Lower, caseless: bool, s: seq<Unit>, o: seq<Unit>, myIndex: nat, rangeEnd: nat)
    returns (yes: bool)
    requires 0 < |o| && myIndex < rangeEnd <= |s| && myIndex + |o| <= rangeEnd
    ensures yes == Matches(lower, caseless, s, o, myIndex)
  {
    var i, myCharacter, strCharacter := 1, s[myIndex], o[0];
    while true
      invariant 1 <= i <= |o| && myCharacter == s[myIndex + i - 1] && strCharacter == o[i - 1]
      invariant forall j :: 0 <= j < i - 1 ==> Equal(lower, caseless, s[myIndex + j], o[j])
      decreases |o| - i
    {
      if myCharacter != strCharacter && !(caseless && lower(myCharacter) == lower(strCharacter)) {
        return false;
      }
      if i == |o| {
        return true;
      }
      if myIndex + i >= rangeEnd {
        return false;
      }
      myCharacter, strCharacter := s[myIndex + i], o[i];
      i := i + 1;
    }
  }

  /** GSEQ_STRRANGE with a literal mask (Source/GSeq.h:653-859); only the index of the
      range found is given, its length is that of o. */
  method FindRange(lower: Lower, s: seq<Unit>, o: seq<Unit>, location: nat, length: nat,
                   caseless: bool, backward: bool, anchored: bool) returns (r: Option<nat>)
    requires location + length <= |s|
    ensures Found(lower, caseless, s, o, location, length, backward, anchored, r)
  {
    if |o| > length || |o| == 0 {
      return None;
    }
    var rangeEnd := location + length;
    var myIndex, myEndIndex := location, rangeEnd - |o|;
    if backward {
      myIndex, myEndIndex := myEndIndex, myIndex;
    }
    if anchored {
      myEndIndex := myIndex;
    }
    ghost var start := myIndex;
    while true
      invariant if backward then myEndIndex <= myIndex <= start else start <= myIndex <= myEndIndex
      invariant forall k :: (if backward then myIndex < k <= start else start <= k < myIndex)
                  ==> !Matches(lower, caseless, s, o, k)
      decreases if backward then myIndex - myEndIndex else myEndIndex - myIndex
    {
      var yes := MatchAt(lower, caseless, s, o, myIndex, rangeEnd);
      if yes {
        return Some(myIndex);
      }
      if myIndex == myEndIndex {
        return None;
      }
      myIndex := if backward then myIndex - 1 else myIndex + 1;
    }
  }

  function Lowered(lower: Lower, s: seq<Unit>): seq<Unit> {
    seq(|s|, i requires 0 <= i < |s| => lower(s[i]))
  }

  // An answer is found by any other, and not after it.
  lemma FoundAtLeast(lower: Lower, caseless: bool, s: seq<Unit>, o: seq<Unit>, location: nat, length: nat,
                     backward: bool, anchored: bool, r: Option<nat>, q: Option<nat>)
    requires Found(lower, caseless, s, o, location, length, backward, anchored, r)
    requires Found(lower, caseless, s, o, location, length, backward, anchored, q)
    ensures q.Some? ==> r.Some? && if backward then r.value >= q.value else r.value <= q.value
  {
    if q.Some? {
      assert Candidate(o, location, length, backward, anchored, q.value);
      assert Matches(lower, caseless, s, o, q.value);
    }
  }

  /** There is one right answer. */
  lemma FoundUnique(lower: Lower, caseless: bool, s: seq<Unit>, o: seq<Unit>, location: nat, length: nat,
                    backward: bool, anchored: bool, r: Option<nat>, q: Option<nat>)
    requires Found(lower, caseless, s, o, location, length, backward, anchored, r)
    requires Found(lower, caseless, s, o, location, length, backward, anchored, q)
    ensures r == q
  {
    FoundAtLeast(lower, caseless, s, o, location, length, backward, anchored, r, q);
    FoundAtLeast(lower, caseless, s, o, location, length, backward, anchored, q, r);
  }

  /** What an exact search finds, in terms of parts of the string. Anchored, it looks only
      at the beginning of the range, or backward at its end. */
  lemma AnchoredFinds(lower: Lower, s: seq<Unit>, o: seq<Unit>, location: nat, length: nat, backward: bool, r: Option<nat>)
    requires location + length <= |s| && Found(lower, false, s, o, location, length, backward, true, r)
    ensures var k := if backward then location + length - |o| else location;
            r == if o != [] && |o| <= length && s[k..k + |o|] == o then Some(k) else None
  {
    var k := if backward then location + length - |o| else location;
    if |o| <= length {
      assert Candidate(o, location, length, backward, true, k);
      MatchIsPart(lower, s, o, k);
    }
  }

  // The string is the part of s at k, inside the range.
  predicate PartAt(s: seq<Unit>, o: seq<Unit>, location: nat, length: nat, k: nat)
    requires location + length <= |s|
  {
    location <= k && k + |o| <= location + length && s[k..k + |o|] == o
  }

  /** Not anchored, it finds the string if and only if that is a part of the range, and
      then the first such place, or backward the last. */
  lemma SearchFinds(lower: Lower, s: seq<Unit>, o: seq<Unit>, location: nat, length: nat, backward: bool, r: Option<nat>)
    requires location + length <= |s| && Found(lower, false, s, o, location, length, backward, false, r)
    ensures r.Some? <==> o != [] && exists k: nat :: PartAt(s, o, location, length, k)
    ensures r.Some? ==> PartAt(s, o, location, length, r.value)
    ensures r.Some? ==> forall k: nat :: PartAt(s, o, location, length, k) ==> if backward then k <= r.value else r.value <= k
  {
    forall k: nat
      ensures Candidate(o, location, length, backward, false, k) && Matches(lower, false, s, o, k)
              <==> PartAt(s, o, location, length, k)
    {
      if k + |o| <= |s| {
        MatchIsPart(lower, s, o, k);
      }
    }
  }

  lemma MatchIsPart(lower: Lower, s: seq<Unit>, o: seq<Unit>, k: nat)
    requires k + |o| <= |s|
    ensures Matches(lower, false, s, o, k) <==> s[k..k + |o|] == o
  {
    var t := s[k..k + |o|];
    assert forall i :: 0 <= i < |o| ==> t[i] == s[k + i];
  }

  /** A caseless search is an exact search of the strings in lower case. */
  lemma CaselessIsLowered(lower: Lower, s: seq<Unit>, o: seq<Unit>, location: nat, length: nat,
                          backward: bool, anchored: bool, r: Option<nat>)
    ensures Found(lower, true, s, o, location, length, backward, anchored, r)
            <==> Found(lower, false, Lowered(lower, s), Lowered(lower, o), location, length, backward, anchored, r)
  {
    var s', o' := Lowered(lower, s), Lowered(lower, o);
    assert o == [] <==> o' == [];
    forall k: nat
      ensures Matches(lower, true, s, o, k) <==> Matches(lower, false, s', o', k)
      ensures Candidate(o, location, length, backward, anchored, k) <==> Candidate(o', location, length, backward, anchored, k)
    {
      if Matches(lower, false, s', o', k) {
        forall i | 0 <= i < |o|
          ensures Equal(lower, true, s[k + i], o[i])
        {
          assert Equal(lower, false, s'[k + i], o'[i]);
        }
      }
    }
  }

  /** Searching forward and backward succeed together, and forward finds no later. */
  lemma ForwardBackward(lower: Lower, caseless: bool, s: seq<Unit>, o: seq<Unit>, location: nat, length: nat,
                        f: Option<nat>, b: Option<nat>)
    requires Found(lower, caseless, s, o, location, length, false, false, f)
    requires Found(lower, caseless, s, o, location, length, true, false, b)
    ensures f.Some? <==> b.Some?
    ensures f.Some? ==> f.value <= b.value
  {
    forall k
      ensures Candidate(o, location, length, false, false, k) <==> Candidate(o, location, length, true, false, k)
    {
    }
    if f.Some? {
      assert Candidate(o, location, length, true, false, f.value);
    }
    if b.Some? {
      assert Candidate(o, location, length, false, false, b.value);
    }
  }

  // What units are compared by.
  function Cased(lower: Lower, caseless: bool, s: seq<Unit>): seq<Unit> {
    if caseless then Lowered(lower, s) else s
  }

  /** GSEQ_STRCOMP with a literal mask (Source/GSeq.h:394-557), for units: it is the
      lexicographic order, of the strings in lower case if caseless. */
  method CompareRange(lower: Lower, s: seq<Unit>, o: seq<Unit>, location: nat, length: nat, caseless: bool)
    returns (order: Order)
    requires location + length <= |s|
    ensures order == Lex(Cased(lower, caseless, s[location..location + length]), Cased(lower, caseless, o))
  {
    if length == 0 {
      return if |o| == 0 then Same else Ascending;
    } else if |o| == 0 {
      return Descending;
    }
    var sBuf := s[location..location + length];
    ghost var a, b := Cased(lower, caseless, sBuf), Cased(lower, caseless, o);
    CasedUnits(lower, caseless, sBuf);
    CasedUnits(lower, caseless, o);
    hide Cased;
    var end := if |o| < length then |o| else length;
    for i := 0 to end
      invariant a[..i] == b[..i]
    {
      LexAt(a, b, i);
      var c1 := if caseless then lower(sBuf[i]) else sBuf[i];
      var c2 := if caseless then lower(o[i]) else o[i];
      if c1 < c2 {
        return Ascending;
      }
      if c1 > c2 {
        return Descending;
      }
    }
    LexAt(a, b, end);
    return if length > |o| then Descending else if length < |o| then Ascending else Same;
  }

  lemma CasedUnits(lower: Lower, caseless: bool, s: seq<Unit>)
    ensures var a := Cased(lower, caseless, s);
            |a| == |s| && forall i :: 0 <= i < |s| ==> a[i] == if caseless then lower(s[i]) else s[i]
  {
  }

  /** Search and comparison agree: o is found at k exactly if the units there compare
      the same as o. */
  lemma SearchAgreesWithOrder(lower: Lower, caseless: bool, s: seq<Unit>, o: seq<Unit>, k: nat)
    requires k + |o| <= |s|
    ensures Matches(lower, caseless, s, o, k)
            <==> Lex(Cased(lower, caseless, s[k..k + |o|]), Cased(lower, caseless, o)) == Same
  {
    var t := s[k..k + |o|];
    var a, b := Cased(lower, caseless, t), Cased(lower, caseless, o);
    LexSameIff(a, b);
    assert |a| == |b| == |o|;
    assert forall i :: 0 <= i < |o| ==> t[i] == s[k + i];
    forall i | 0 <= i < |o|
      ensures a[i] == b[i] <==> Equal(lower, caseless, s[k + i], o[i])
    {
    }
    if Matches(lower, caseless, s, o, k) {
      assert forall i :: 0 <= i < |o| ==> Equal(lower, caseless, s[k + i], o[i]) && a[i] == b[i];
    } else {
      var i :| 0 <= i < |o| && !Equal(lower, caseless, s[k + i], o[i]);
      assert a[i] != b[i];
    }
  }
}
