/** The end of tzloadbody1: the transitions of the footer's TZ string put after the
    file's own, and the search for a 400-year repetition. */
module TzSplice {
  import opened CivilTime
  import opened LeapSeconds
  import opened ZoneState

  /** The transitions without those at the end that change nothing. */
  function Trimmed(s: seq<Transition>): (r: seq<Transition>)
    ensures |r| <= |s| && r == s[..|r|]
    ensures s != [] ==> r != []
  {
    if |s| > 1 && s[|s| - 1].ty == s[|s| - 2].ty then Trimmed(s[..|s| - 1]) else s
  }

  /** Dropping them changes no lookup. */
  lemma {:induction false} TrimmedPicks(s: seq<Transition>, default: int, t: int)
    requires NonDecreasing(s)
    ensures Pick(Trimmed(s), default, t) == Pick(s, default, t)
  {
    if |s| > 1 && s[|s| - 1].ty == s[|s| - 2].ty {
      TrimmedPicks(s[..|s| - 1], default, t);
    }
  }

  // A footer transition as the file's clock, which counts leap seconds, has it.
  function Shifted(x: Transition, leaps: seq<LeapInfo>, typecnt: int): Transition {
    Transition(x.at + Correction(leaps, x.at), typecnt + x.ty)
  }

  function ShiftAll(ts: seq<Transition>, leaps: seq<LeapInfo>, typecnt: int): seq<Transition> {
    seq(|ts|, i requires 0 <= i < |ts| => Shifted(ts[i], leaps, typecnt))
  }

  // The first of the shifted transitions from i on that is past the end of s.
  function FirstPast(s: seq<Transition>, ts: seq<Transition>, i: nat): (k: nat)
    requires i <= |ts|
    ensures i <= k <= |ts|
    ensures s != [] ==> forall j :: i <= j < k ==> ts[j].at <= s[|s| - 1].at
    ensures k < |ts| && s != [] ==> s[|s| - 1].at < ts[k].at
    decreases |ts| - i
  {
    if i == |ts| || s == [] || s[|s| - 1].at < ts[i].at then i else FirstPast(s, ts, i + 1)
  }

  // Those that are appended: as many from there on as there is room for.
  function Appended(s: seq<Transition>, ts: seq<Transition>): (r: seq<Transition>)
    requires |s| <= TZ_MAX_TIMES
    ensures |s| + |r| <= TZ_MAX_TIMES
  {
    var k := FirstPast(s, ts, 0);
    var room := TZ_MAX_TIMES - |s|;
    if |ts| - k <= room then ts[k..] else ts[k..k + room]
  }

  function Spliced(s: seq<Transition>, ts: seq<Transition>): seq<Transition>
    requires |s| <= TZ_MAX_TIMES
  {
    Trimmed(s) + Appended(Trimmed(s), ts)
  }

  lemma {:induction false} PickAppend(a: seq<Transition>, b: seq<Transition>, default: int, t: int)
    requires NonDecreasing(a + b)
    ensures b == [] || t < b[0].at ==> Pick(a + b, default, t) == Pick(a, default, t)
    ensures b != [] && b[0].at <= t ==> Pick(a + b, default, t) == Pick(b, default, t)
    decreases |b|
  {
    if b == [] {
      assert a + b == a;
    } else {
      var n := |b| - 1;
      assert (a + b)[..|a| + n] == a + b[..n];
      assert forall i, j :: 0 <= i < j < |a + b[..n]| ==> (a + b[..n])[i] == (a + b)[i] && (a + b[..n])[j] == (a + b)[j];
      PickAppend(a, b[..n], default, t);
      if n > 0 {
        assert (a + b)[|a|] == b[0] && (a + b)[|a| + n] == b[n];
      }
    }
  }

  /** The spliced table answers as the file's before the first appended time, and
      from it on as the appended transitions. */
  lemma SplicedPicks(s: seq<Transition>, ts: seq<Transition>, default: int, t: int)
    requires |s| <= TZ_MAX_TIMES && NonDecreasing(s) && NonDecreasing(ts)
    ensures NonDecreasing(Spliced(s, ts))
    ensures var b := Appended(Trimmed(s), ts);
            && (b == [] || t < b[0].at ==> Pick(Spliced(s, ts), default, t) == Pick(s, default, t))
            && (b != [] && b[0].at <= t ==> Pick(Spliced(s, ts), default, t) == Pick(b, default, t))
  {
    var a, b := Trimmed(s), Appended(Trimmed(s), ts);
    SplicedOrdered(s, ts);
    PickAppend(a, b, default, t);
    TrimmedPicks(s, default, t);
  }

  /** The spliced table is in order, strictly so if both its parts are. */
  lemma SplicedOrdered(s: seq<Transition>, ts: seq<Transition>)
    requires |s| <= TZ_MAX_TIMES && NonDecreasing(s) && NonDecreasing(ts)
    ensures NonDecreasing(Spliced(s, ts))
    ensures Increasing(s) && Increasing(ts) ==> Increasing(Spliced(s, ts))
  {
    hide Trimmed, Appended, FirstPast, NonDecreasing, Increasing;
    var a, b := Trimmed(s), Appended(Trimmed(s), ts);
    AppendedFrom(a, ts);
    PartOrdered(s, 0, |a|);
    PartOrdered(ts, FirstPast(a, ts, 0), FirstPast(a, ts, 0) + |b|);
    JoinOrdered(a, b);
  }

  // What is appended is a part of the footer's, the first of it past the end.
  lemma AppendedFrom(s: seq<Transition>, ts: seq<Transition>)
    requires |s| <= TZ_MAX_TIMES
    ensures var (b, k) := (Appended(s, ts), FirstPast(s, ts, 0));
            && 0 <= k && k + |b| <= |ts| && b == ts[k..k + |b|]
            && (s != [] && b != [] ==> s[|s| - 1].at < b[0].at)
  {
    hide FirstPast;
  }

  lemma PartOrdered(s: seq<Transition>, i: nat, j: nat)
    requires i <= j <= |s| && NonDecreasing(s)
    ensures NonDecreasing(s[i..j]) && (Increasing(s) ==> Increasing(s[i..j]))
  {
    var r := s[i..j];
    assert forall k :: 0 <= k < |r| ==> r[k] == s[i + k];
  }

  lemma JoinOrdered(a: seq<Transition>, b: seq<Transition>)
    requires NonDecreasing(a) && NonDecreasing(b) && (a != [] && b != [] ==> a[|a| - 1].at < b[0].at)
    ensures NonDecreasing(a + b) && (Increasing(a) && Increasing(b) ==> Increasing(a + b))
  {
    var s := a + b;
    forall i, j | 0 <= i < j < |s|
      ensures s[i].at <= s[j].at && (Increasing(a) && Increasing(b) ==> s[i].at < s[j].at)
    {
      JoinedPair(a, b, i, j);
    }
  }

  lemma JoinedPair(a: seq<Transition>, b: seq<Transition>, i: nat, j: nat)
    requires NonDecreasing(a) && NonDecreasing(b) && (a != [] && b != [] ==> a[|a| - 1].at < b[0].at)
    requires i < j < |a + b|
    ensures (a + b)[i].at <= (a + b)[j].at
    ensures Increasing(a) && Increasing(b) ==> (a + b)[i].at < (a + b)[j].at
  {
    if j < |a| {
      assert a[i].at <= a[j].at;
    } else if |a| <= i {
      assert b[i - |a|].at <= b[j - |a|].at;
    } else {
      assert a[i].at <= a[|a| - 1].at && b[0].at <= b[j - |a|].at;
    }
  }

  /** What is dropped at the end are the transitions to the type that is there already, and
      no others. */
  lemma {:induction false} TrimmedEnds(s: seq<Transition>)
    ensures var r := Trimmed(s);
            && (|r| > 1 ==> r[|r| - 1].ty != r[|r| - 2].ty)
            && (r != [] ==> forall j :: |r| <= j < |s| ==> s[j].ty == r[|r| - 1].ty)
  {
    if |s| > 1 && s[|s| - 1].ty == s[|s| - 2].ty {
      var t := s[..|s| - 1];
      TrimmedEnds(t);
      var r := Trimmed(t);
      assert |r| == |t| ==> r[|r| - 1] == t[|t| - 1];
      forall j | |r| <= j < |s|
        ensures s[j].ty == r[|r| - 1].ty
      {
        if j == |s| - 1 {
          assert |r| < |t| ==> t[|t| - 1].ty == r[|r| - 1].ty;
        } else {
          assert s[j] == t[j];
        }
      }
    }
  }

  /** After the last of the file's own transitions, which changes the type, the first of the
      footer's that comes later takes over at once: from it on, as far as there is room, a
      lookup gives the footer's type. */
  lemma FooterTakesOver(s: seq<Transition>, ts: seq<Transition>, default: int, t: int, c: nat, i: nat)
    requires s != [] && |s| <= TZ_MAX_TIMES && NonDecreasing(s) && NonDecreasing(ts)
    requires |s| > 1 ==> s[|s| - 1].ty != s[|s| - 2].ty
    requires c <= i < |ts| && s[|s| - 1].at < ts[c].at && forall j :: 0 <= j < c ==> ts[j].at <= s[|s| - 1].at
    requires ts[i].at <= t && (i + 1 < |ts| ==> t < ts[i + 1].at) && |s| + (i - c + 1) <= TZ_MAX_TIMES
    ensures Pick(Spliced(s, ts), default, t) == ts[i].ty
  {
    hide *;
    var r := Spliced(s, ts);
    SplicedOrdered(s, ts);
    TakesFrom(s, ts, c, i);
    LastNotLater(r, t, |s| + (i - c), ts, c, i);
    PickAt(r, default, t, |s| + (i - c));
  }

  // The footer's transitions from c on follow.
  lemma TakesFrom(s: seq<Transition>, ts: seq<Transition>, c: nat, i: nat)
    requires s != [] && |s| <= TZ_MAX_TIMES && (|s| > 1 ==> s[|s| - 1].ty != s[|s| - 2].ty)
    requires c <= i < |ts| && s[|s| - 1].at < ts[c].at && forall j :: 0 <= j < c ==> ts[j].at <= s[|s| - 1].at
    requires |s| + (i - c + 1) <= TZ_MAX_TIMES
    ensures var r := Spliced(s, ts);
            |s| + (i - c) < |r| <= |s| + (|ts| - c) && forall j :: |s| <= j < |r| ==> r[j] == ts[j - |s| + c]
  {
    hide FirstPast;
    assert FirstPast(s, ts, 0) == c;
    var b := Appended(s, ts);
    assert Spliced(s, ts) == s + b;
  }

  lemma LastNotLater(r: seq<Transition>, t: int, k: nat, ts: seq<Transition>, c: nat, i: nat)
    requires NonDecreasing(ts) && c <= i < |ts| && ts[i].at <= t && (i + 1 < |ts| ==> t < ts[i + 1].at)
    requires i - c <= k < |r| <= k - (i - c) + (|ts| - c) && forall j :: k - (i - c) <= j < |r| ==> r[j] == ts[j - k + i]
    ensures r[k] == ts[i] && forall j :: k < j < |r| ==> t < r[j].at
  {
    forall j | k < j < |r|
      ensures t < r[j].at
    {
      assert r[j] == ts[j - k + i];
    }
  }

  // t is before the first transition that there was no room for, if there is one.
  predicate BeforeLeftOut(s: seq<Transition>, ts: seq<Transition>, t: int)
    requires |s| <= TZ_MAX_TIMES
  {
    var k := FirstPast(s, ts, 0) + |Appended(s, ts)|;
    k < |ts| ==> t < ts[k].at
  }

  /** From the first appended time, and up to what there was no room for, the lookups are
      the footer's. */
  lemma AppendedPicks(s: seq<Transition>, ts: seq<Transition>, default: int, default': int, t: int)
    requires |s| <= TZ_MAX_TIMES && NonDecreasing(ts)
    requires var b := Appended(s, ts); b != [] && b[0].at <= t && BeforeLeftOut(s, ts, t)
    ensures Pick(Appended(s, ts), default, t) == Pick(ts, default', t)
  {
    hide FirstPast;
    var k := FirstPast(s, ts, 0);
    var b := Appended(s, ts);
    assert b == ts[k..k + |b|];
    SlicePicks(ts, k, |b|, default, default', t);
  }

  /** The last appended time is before what there was no room for if no times are equal. */
  lemma AppendedInTime(s: seq<Transition>, ts: seq<Transition>, t: int)
    requires |s| <= TZ_MAX_TIMES && NonDecreasing(ts)
    requires var b := Appended(s, ts); b != [] && t <= b[|b| - 1].at && (Increasing(ts) || t < b[|b| - 1].at)
    ensures BeforeLeftOut(s, ts, t)
  {
    var k, b := FirstPast(s, ts, 0), Appended(s, ts);
    assert b[|b| - 1] == ts[k + |b| - 1];
  }

  // Inside a slice of the table, lookups are the table's.
  lemma SlicePicks(ts: seq<Transition>, k: nat, n: nat, default: int, default': int, t: int)
    requires NonDecreasing(ts) && 0 < n && k + n <= |ts|
    requires ts[k].at <= t && (k + n < |ts| ==> t < ts[k + n].at)
    ensures Pick(ts[k..k + n], default, t) == Pick(ts, default', t)
  {
    var b := ts[k..k + n];
    var i := LastNotAfter(b, t, n);
    forall j | k + i < j < |ts|
      ensures t < ts[j].at
    {
      if j < k + n {
        assert ts[j] == b[j - k];
      } else {
        assert ts[k + n].at <= ts[j].at;
      }
    }
    PickAt(b, default, t, i);
    PickAt(ts, default', t, k + i);
  }

  lemma {:induction false} LastNotAfter(b: seq<Transition>, t: int, n: nat) returns (i: nat)
    requires 0 < n <= |b| && b[0].at <= t
    requires forall j :: n <= j < |b| ==> t < b[j].at
    ensures i < |b| && b[i].at <= t && forall j :: i < j < |b| ==> t < b[j].at
    decreases n
  {
    if b[n - 1].at <= t {
      i := n - 1;
    } else {
      i := LastNotAfter(b, t, n - 1);
    }
  }

  // Transitions that are at least two seconds apart.
  ghost predicate Apart(ts: seq<Transition>) {
    forall i :: 0 < i < |ts| ==> ts[i - 1].at + 2 <= ts[i].at
  }

  /** Counting leap seconds keeps transitions in order, with leap records that the loader
      accepts; strictly so if they are two seconds apart, and in any case without leap
      seconds. */
  lemma ShiftOrdered(ts: seq<Transition>, leaps: seq<LeapInfo>, typecnt: int)
    requires NonDecreasing(ts) && Accepted(leaps)
    ensures NonDecreasing(ShiftAll(ts, leaps, typecnt))
    ensures Increasing(ts) && (leaps == [] || Apart(ts)) ==> Increasing(ShiftAll(ts, leaps, typecnt))
  {
    var r := ShiftAll(ts, leaps, typecnt);
    forall i, j | 0 <= i < j < |ts|
      ensures r[i].at <= r[j].at
      ensures Increasing(ts) && (leaps == [] || Apart(ts)) ==> r[i].at < r[j].at
    {
      ShiftPair(ts, leaps, i, j);
    }
  }

  lemma ShiftPair(ts: seq<Transition>, leaps: seq<LeapInfo>, i: nat, j: nat)
    requires NonDecreasing(ts) && Accepted(leaps) && i < j < |ts|
    ensures ts[i].at + Correction(leaps, ts[i].at) <= ts[j].at + Correction(leaps, ts[j].at)
    ensures Increasing(ts) && (leaps == [] || Apart(ts)) ==>
              ts[i].at + Correction(leaps, ts[i].at) < ts[j].at + Correction(leaps, ts[j].at)
  {
    assert ts[i].at <= ts[j - 1].at <= ts[j].at;
    if ts[i].at < ts[j].at {
      ShiftTimes(leaps, ts[i].at, ts[j].at);
    }
    if Apart(ts) {
      assert ts[j - 1].at + 2 <= ts[j].at;
    }
  }

  // A later time is not counted as an earlier one, and as a later one two seconds on.
  lemma ShiftTimes(leaps: seq<LeapInfo>, t: int, t': int)
    requires Accepted(leaps) && t < t'
    ensures t + Correction(leaps, t) <= t' + Correction(leaps, t')
    ensures leaps == [] || t + 2 <= t' ==> t + Correction(leaps, t) < t' + Correction(leaps, t')
  {
    hide Accepted, LeapIndex, CorrectionAt;
    if leaps != [] {
      LeapsBetween(leaps, t, t');
      GapsOutweigh(LeapIndex(leaps, t') - LeapIndex(leaps, t), t' - t);
    }
  }

  // n leap seconds lie further apart than n seconds.
  lemma GapsOutweigh(n: int, d: int)
    requires 0 <= n && 0 < d && (n > 0 ==> d >= (n - 1) * LEAP_GAP + 1)
    ensures d >= n && (d >= 2 ==> d > n)
  {
    if n > 1 {
      assert (n - 1) * LEAP_GAP >= (n - 1) * 2;
    }
  }

  /** u is the last second that the footer's clock, which counts no leap seconds, has
      reached when the file's clock shows t. */
  ghost predicate CountsAs(leaps: seq<LeapInfo>, t: int, u: int) {
    forall x :: x + Correction(leaps, x) <= t <==> x <= u
  }

  /** There is one such second at any time; without leap seconds it is t itself. */
  lemma ClockReached(leaps: seq<LeapInfo>, t: int) returns (u: int)
    requires Accepted(leaps)
    ensures CountsAs(leaps, t, u) && (leaps == [] ==> u == t)
  {
    hide Correction;
    SmallCorrection(leaps, t + |leaps| + 1);
    u := LastReached(leaps, t, t + |leaps| + 1);
    forall x
      ensures x + Correction(leaps, x) <= t <==> x <= u
    {
      if x < u {
        ShiftTimes(leaps, x, u);
      } else if u + 1 < x {
        ShiftTimes(leaps, u + 1, x);
      }
    }
    SmallCorrection(leaps, u);
    SmallCorrection(leaps, u + 1);
  }

  // The last second before x that is reached.
  lemma {:induction false} LastReached(leaps: seq<LeapInfo>, t: int, x: int) returns (u: int)
    requires Accepted(leaps) && x + Correction(leaps, x) > t
    ensures u + Correction(leaps, u) <= t < u + 1 + Correction(leaps, u + 1)
    decreases x - (t - |leaps|)
  {
    hide Correction;
    SmallCorrection(leaps, x);
    SmallCorrection(leaps, x - 1);
    if x - 1 + Correction(leaps, x - 1) <= t {
      u := x - 1;
    } else {
      u := LastReached(leaps, t, x - 1);
    }
  }

  lemma SmallCorrection(leaps: seq<LeapInfo>, x: int)
    requires Accepted(leaps)
    ensures -|leaps| <= Correction(leaps, x) <= |leaps|
  {
    CorrectionSteps(leaps, -1, LeapIndex(leaps, x));
  }
}
