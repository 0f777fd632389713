/** The loop that puts marks in order in place: exchanges of neighbours, and removal
    of repeated marks. */
module MarkSorting {
  import opened MarkOrder

  function Key(cop: ClassOf, u: Unit): nat {
    cop(u) * 0x1_0000 + u
  }

  // Grows with every exchange of neighbours that are out of order.
  function Weight(cop: ClassOf, s: seq<Unit>): nat
    decreases |s|
  {
    if s == [] then 0 else Weight(cop, s[..|s| - 1]) + (|s| - 1) * Key(cop, s[|s| - 1])
  }

  function Swapped(s: seq<Unit>, i: nat): seq<Unit>
    requires 0 < i < |s|
  {
    s[i - 1 := s[i]][i := s[i - 1]]
  }

  lemma {:induction false} WeightSwapped(cop: ClassOf, s: seq<Unit>, i: nat)
    requires 0 < i < |s|
    ensures Weight(cop, Swapped(s, i)) == Weight(cop, s) + Key(cop, s[i - 1]) - Key(cop, s[i])
    decreases |s|
  {
    hide *;
    var n := |s| - 1;
    var r := s[i - 1 := s[i]][i := s[i - 1]];
    SwappedIs(s, i);
    WeightLast(cop, s);
    WeightLast(cop, r);
    if i == n {
      assert r[..n][..n - 1] == s[..n][..n - 1];
      WeightLast(cop, s[..n]);
      WeightLast(cop, r[..n]);
      Exchanged(n, Key(cop, s[n - 1]), Key(cop, s[n]));
    } else {
      SwappedIs(s[..n], i);
      assert r[..n] == s[..n][i - 1 := s[i]][i := s[i - 1]];
      WeightSwapped(cop, s[..n], i);
    }
  }

  lemma SwappedIs(s: seq<Unit>, i: nat)
    requires 0 < i < |s|
    ensures Swapped(s, i) == s[i - 1 := s[i]][i := s[i - 1]]
  {
  }

  lemma WeightLast(cop: ClassOf, s: seq<Unit>)
    requires s != []
    ensures Weight(cop, s) == Weight(cop, s[..|s| - 1]) + (|s| - 1) * Key(cop, s[|s| - 1])
  {
    hide Key;
  }

  lemma Exchanged(n: int, a: int, b: int)
    ensures (n - 1) * b + n * a == (n - 1) * a + n * b + a - b
  {
  }

  lemma {:induction false} WeightBound(cop: ClassOf, s: seq<Unit>, k: nat)
    requires forall u :: u in s ==> Key(cop, u) <= k
    ensures Weight(cop, s) <= |s| * |s| * k
    decreases |s|
  {
    if s != [] {
      var n := |s| - 1;
      WeightBound(cop, s[..n], k);
      assert s[n] in s;
      Squares(n, Key(cop, s[n]), k);
    }
  }

  lemma Squares(n: nat, a: nat, k: nat)
    requires a <= k
    ensures n * n * k + n * a <= (n + 1) * (n + 1) * k
  {
    assert n * a <= n * k;
    assert (n + 1) * (n + 1) * k == (n * n) * k + (2 * n) * k + k;
    assert (2 * n) * k == n * k + n * k;
  }

  lemma SwappedRuns(cop: ClassOf, s: seq<Unit>, i: nat)
    requires 0 < i < |s| && Mark(cop, s[i - 1]) && Mark(cop, s[i])
    ensures Runs(cop, Swapped(s, i)) == Runs(cop, s)
  {
    assert s == s[..i - 1] + [s[i - 1], s[i]] + s[i + 1..];
    assert Swapped(s, i) == s[..i - 1] + [s[i], s[i - 1]] + s[i + 1..];
    SwapKeepsRuns(cop, s[..i - 1], s[i - 1], s[i], s[i + 1..]);
  }

  lemma DroppedRuns(cop: ClassOf, s: seq<Unit>, i: nat, j: nat)
    requires 0 < i <= j <= |s| && Mark(cop, s[i - 1]) && forall k :: i <= k < j ==> s[k] == s[i - 1]
    ensures Runs(cop, s[..i] + s[j..]) == Runs(cop, s)
  {
    assert s == s[..i - 1] + [s[i - 1]] + s[i..j] + s[j..];
    assert s[..i] + s[j..] == s[..i - 1] + [s[i - 1]] + s[j..];
    DropKeepsRuns(cop, s[..i - 1], s[i - 1], s[i..j], s[j..]);
  }

  predicate OrderedTo(cop: ClassOf, s: seq<Unit>, i: nat) {
    forall k :: 0 < k < i && k < |s| && Mark(cop, s[k]) ==> Less(cop, s[k - 1], s[k])
  }

  lemma OrderedAll(cop: ClassOf, s: seq<Unit>)
    ensures Ordered(cop, s) <==> OrderedTo(cop, s, |s|)
  {
  }

  // Progress of the loop from one pass to the next.
  ghost predicate Progress(cop: ClassOf, before: seq<Unit>, after: seq<Unit>) {
    |after| < |before| || (|after| == |before| && Weight(cop, after) > Weight(cop, before))
  }

  /** Source/GSeq.h:192-208: the marks equal to the one at first are removed and what
      follows moved down. */
  method DropRepeats(chars: array<Unit>, first: nat, count: nat) returns (newcount: nat)
    requires first + 1 < count < chars.Length && chars[first] == chars[first + 1]
    modifies chars
    ensures first < newcount < count
    ensures var s, j := old(chars[..count]), first + 1 + (count - newcount);
            && (forall k :: first < k < j ==> s[k] == s[first])
            && chars[..newcount] == s[..first + 1] + s[j..]
  {
    ghost var s := chars[..count];
    var end := count;
    newcount := count;
    var second := first + 1;
    while chars[first] == chars[second] && second < end
      invariant first < second <= count && newcount == count - (second - first - 1)
      invariant forall k :: first < k < second ==> s[k] == s[first]
    {
      second := second + 1;
      newcount := newcount - 1;
    }
    MoveDown(chars, first + 1, second, count);
    assert chars[..newcount] == s[..first + 1] + s[second..];
  }

  // What is from second up to the end moves down to `to`.
  method MoveDown(chars: array<Unit>, to0: nat, second0: nat, end: nat)
    requires to0 <= second0 <= end <= chars.Length
    modifies chars
    ensures chars[..to0 + (end - second0)] == old(chars[..to0]) + old(chars[second0..end])
  {
    ghost var s := chars[..];
    var to, second := to0, second0;
    while second < end
      invariant second0 <= second <= end && to == to0 + (second - second0)
      invariant chars[..] == s[..to0] + s[second0..second] + s[to..]
    {
      MovedOne(s, to0, second0, to, second);
      chars[to] := chars[second];
      to := to + 1;
      second := second + 1;
    }
    assert chars[..to] == chars[..][..to];
  }

  // One more unit of s has moved down.
  lemma MovedOne(s: seq<Unit>, to0: nat, second0: nat, to: nat, second: nat)
    requires to0 <= second0 <= second < |s| && to == to0 + (second - second0)
    ensures var r := s[..to0] + s[second0..second] + s[to..];
            && |r| == |s| && r[second] == s[second]
            && r[to := s[second]] == s[..to0] + s[second0..second + 1] + s[to + 1..]
  {
    assert s[second0..second + 1] == s[second0..second] + [s[second]];
    assert s[to..] == [s[to]] + s[to + 1..];
  }

  /** Source/GSeq.h:163-214: one pass over the units. Runs are kept; a pass that finds
      nothing to do leaves an ordered sequence; any other makes progress. */
  method Pass(cop: ClassOf, chars: array<Unit>, count0: nat) returns (notdone: bool, count: nat)
    requires count0 < chars.Length
    modifies chars
    ensures count <= count0
    ensures Runs(cop, chars[..count]) == Runs(cop, old(chars[..count0]))
    ensures !notdone ==> Ordered(cop, chars[..count]) && count == count0 && chars[..count] == old(chars[..count0])
    ensures notdone ==> Progress(cop, old(chars[..count0]), chars[..count])
  {
    hide Runs, Weight, Ordered;
    ghost var s0 := chars[..count0];
    notdone, count := false, count0;
    OrderedAll(cop, s0);
    var i := 1;
    while i < count
      invariant count == count0 && 0 < i
      invariant Runs(cop, chars[..count]) == Runs(cop, s0)
      invariant !notdone ==> chars[..count] == s0 && OrderedTo(cop, s0, i)
      invariant notdone ==> Weight(cop, chars[..count]) > Weight(cop, s0)
      decreases count0 - i
    {
      ghost var s := chars[..count];
      if cop(chars[i]) != 0 {
        if cop(chars[i - 1]) > cop(chars[i]) || (cop(chars[i - 1]) == cop(chars[i]) && chars[i - 1] > chars[i]) {
          Exchange(cop, chars, i, count);
          notdone := true;
        } else if cop(chars[i - 1]) == cop(chars[i]) && chars[i - 1] == chars[i] {
          count := DropRepeats(chars, i - 1, count);
          DroppedRuns(cop, s, i, i + (|s| - count));
          notdone := true;
          return;
        }
      }
      i := i + 1;
    }
  }

  // The two units before i + 1 change places; they are marks out of order.
  method Exchange(cop: ClassOf, chars: array<Unit>, i: nat, count: nat)
    requires 0 < i < count < chars.Length
    requires Mark(cop, chars[i]) && Less(cop, chars[i], chars[i - 1])
    modifies chars
    ensures Runs(cop, chars[..count]) == Runs(cop, old(chars[..count]))
    ensures Weight(cop, chars[..count]) > Weight(cop, old(chars[..count]))
  {
    ghost var s := chars[..count];
    WeightSwapped(cop, s, i);
    SwappedRuns(cop, s, i);
    var tmp := chars[i - 1];
    chars[i - 1] := chars[i];
    chars[i] := tmp;
    assert chars[..count] == Swapped(s, i);
  }

  /** Source/GSeq.h:157-216: passes until nothing is left to do. They end, and leave
      the normal form. */
  method SortMarks(cop: ClassOf, chars: array<Unit>, count0: nat) returns (count: nat)
    requires count0 < chars.Length && forall u: Unit :: cop(u) < 256
    modifies chars
    ensures count <= count0 && chars[..count] == Sort(cop, old(chars[..count0]))
  {
    ghost var s0, k := chars[..count0], 0x100_0000;
    count := count0;
    if count > 1 {
      var notdone := true;
      while notdone
        invariant count <= count0
        invariant Runs(cop, chars[..count]) == Runs(cop, s0)
        invariant !notdone ==> Ordered(cop, chars[..count])
        decreases count, count * count * k - Weight(cop, chars[..count]), notdone
      {
        ghost var before := chars[..count];
        notdone, count := Pass(cop, chars, count);
        WeightBound(cop, before, k);
        WeightBound(cop, chars[..count], k);
      }
    }
    SortIs(cop, s0, chars[..count]);
  }
}
