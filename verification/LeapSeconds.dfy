/** Broken-down time across leap seconds, for tables the loader accepts. */
module LeapSeconds {
  import opened CArith
  import opened Calendar
  import opened CivilTime
  import opened CivilOrder

  const LEAP_GAP := 28 * SECSPERDAY - 1

  predicate Follows(lsis: seq<LeapInfo>, i: int)
    requires 0 <= i < |lsis|
  {
    var prevtr := if i == 0 then 0 else lsis[i - 1].trans;
    var prevcorr := if i == 0 then 0 else lsis[i - 1].corr;
    && lsis[i].trans >= 0
    && lsis[i].trans - prevtr >= LEAP_GAP
    && (lsis[i].corr == prevcorr - 1 || lsis[i].corr == prevcorr + 1)
  }

  /** What the loader demands of leap records (Source/tzdb.h:891-918). */
  ghost predicate Accepted(lsis: seq<LeapInfo>) {
    forall i :: 0 <= i < |lsis| ==> Follows(lsis, i)
  }

  ghost predicate Positive(lsis: seq<LeapInfo>, i: int)
    requires 0 <= i < |lsis|
  {
    CorrectionAt(lsis, i - 1) < lsis[i].corr
  }

  /** Second i is inserted where the local clock is about to turn a minute. */
  predicate EndsMinute(lsis: seq<LeapInfo>, offset: int, i: int)
    requires 0 <= i < |lsis|
  {
    (lsis[i].trans + offset - lsis[i].corr) % 60 == 59
  }

  /** The times for which timesub has an answer. */
  predicate Answered(lsis: seq<LeapInfo>, offset: int, t: int) {
    IsTime(t) && !OutOfRange(t, LocalSeconds(t, offset, lsis))
  }

  /** Every inserted second that is answered, as is the second after it, ends its minute. */
  ghost predicate Aligned(lsis: seq<LeapInfo>, offset: int) {
    forall i :: 0 <= i < |lsis| && Positive(lsis, i)
      && Answered(lsis, offset, lsis[i].trans) && Answered(lsis, offset, lsis[i].trans + 1)
      ==> EndsMinute(lsis, offset, i)
  }

  /** What timesub shows for t. */
  ghost predicate ShowsAt(tm: Tm, t: int, offset: int, lsis: seq<LeapInfo>) {
    Shows(tm, LocalSeconds(t, offset, lsis), Inserted(lsis, t))
  }

  ghost predicate OrderPreserved(lsis: seq<LeapInfo>, offset: int) {
    forall t1, t2, a, b ::
      t1 < t2 && Answered(lsis, offset, t1) && Answered(lsis, offset, t2)
      && ShowsAt(a, t1, offset, lsis) && ShowsAt(b, t2, offset, lsis)
      ==> Before(a, b)
  }

  lemma {:induction false} Spacing(lsis: seq<LeapInfo>, i: int, j: int)
    requires Accepted(lsis) && 0 <= i <= j < |lsis|
    ensures lsis[j].trans - lsis[i].trans >= (j - i) * LEAP_GAP
    decreases j - i
  {
    if i < j {
      assert Follows(lsis, j);
      Spacing(lsis, i, j - 1);
    }
  }

  lemma {:induction false} CorrectionSteps(lsis: seq<LeapInfo>, i: int, j: int)
    requires Accepted(lsis) && -1 <= i <= j < |lsis|
    ensures -(j - i) <= CorrectionAt(lsis, j) - CorrectionAt(lsis, i) <= j - i
    decreases j - i
  {
    if i < j {
      assert Follows(lsis, j);
      CorrectionSteps(lsis, i, j - 1);
    }
  }

  /** Between two times lie at most as many leap seconds as 28-day gaps, plus one. */
  lemma LeapsBetween(lsis: seq<LeapInfo>, t1: int, t2: int)
    requires Accepted(lsis) && t1 < t2
    ensures var n := LeapIndex(lsis, t2) - LeapIndex(lsis, t1);
            && 0 <= n && (n > 0 ==> t2 - t1 >= (n - 1) * LEAP_GAP + 1)
            && -n <= Correction(lsis, t2) - Correction(lsis, t1) <= n
  {
    var i, j := LeapIndex(lsis, t1), LeapIndex(lsis, t2);
    if i < j {
      Spacing(lsis, i + 1, j);
    }
    CorrectionSteps(lsis, i, j);
  }

  /** The local clock never steps back, and it stands still only into an inserted
      second. */
  lemma LocalOrder(lsis: seq<LeapInfo>, offset: int, t1: int, t2: int)
    requires Accepted(lsis) && t1 < t2
    ensures LocalSeconds(t1, offset, lsis) <= LocalSeconds(t2, offset, lsis)
    ensures LocalSeconds(t1, offset, lsis) == LocalSeconds(t2, offset, lsis) ==>
              t2 == t1 + 1 && !Inserted(lsis, t1) && Inserted(lsis, t2)
  {
    LeapsBetween(lsis, t1, t2);
    var i, j := LeapIndex(lsis, t1), LeapIndex(lsis, t2);
    if i >= 0 && j > i {
      Spacing(lsis, i, j);
    }
  }

  // After an inserted second at record i, the next second is an ordinary one.
  lemma AfterInserted(lsis: seq<LeapInfo>, offset: int, i: int)
    requires Accepted(lsis) && 0 <= i < |lsis| && Positive(lsis, i)
    ensures var t := lsis[i].trans;
            && LeapIndex(lsis, t) == i && LeapIndex(lsis, t + 1) == i
            && Inserted(lsis, t) && !Inserted(lsis, t + 1)
            && LocalSeconds(t + 1, offset, lsis) == LocalSeconds(t, offset, lsis) + 1
  {
    var t := lsis[i].trans;
    forall j | i < j < |lsis|
      ensures lsis[j].trans > t + 1
    {
      Spacing(lsis, i, j);
      assert (j - i) * LEAP_GAP >= LEAP_GAP;
    }
  }

  // Around record i, the indexes in force are i - 1 and i.
  lemma AroundLeap(lsis: seq<LeapInfo>, i: int)
    requires Accepted(lsis) && 0 <= i < |lsis|
    ensures LeapIndex(lsis, lsis[i].trans) == i
    ensures LeapIndex(lsis, lsis[i].trans - 1) == i - 1
    ensures !Inserted(lsis, lsis[i].trans - 1)
  {
    var t := lsis[i].trans;
    assert Follows(lsis, i);
    forall j | i < j < |lsis|
      ensures lsis[j].trans > t
    {
      Spacing(lsis, i, j);
      assert (j - i) * LEAP_GAP >= LEAP_GAP;
    }
    if i > 0 {
      Spacing(lsis, i - 1, i);
    }
  }

  lemma PositiveStandsStill(lsis: seq<LeapInfo>, offset: int, i: int)
    requires Accepted(lsis) && 0 <= i < |lsis| && Positive(lsis, i)
    ensures var t := lsis[i].trans;
            && LocalSeconds(t, offset, lsis) == LocalSeconds(t - 1, offset, lsis) == t + offset - lsis[i].corr
            && Inserted(lsis, t) && !Inserted(lsis, t - 1)
  {
    AroundLeap(lsis, i);
    assert Follows(lsis, i);
  }

  /** At an inserted second whose minute is about to turn, the fields are those of
      the second before but with 60 for the seconds. */
  lemma InsertedShowsSixty(lsis: seq<LeapInfo>, offset: int, i: int, before: Tm, at: Tm)
    requires Accepted(lsis) && 0 <= i < |lsis|
    requires Positive(lsis, i) && EndsMinute(lsis, offset, i)
    requires ShowsAt(before, lsis[i].trans - 1, offset, lsis)
    requires ShowsAt(at, lsis[i].trans, offset, lsis)
    ensures before.sec == 59 && SameFields(at, before.(sec := 60))
  {
    var t := lsis[i].trans;
    var local := LocalSeconds(t, offset, lsis);
    PositiveStandsStill(lsis, offset, i);
    hide Shows, Accepted, SameFields;
    ShowsParts(before, local, false);
    ShowsParts(at, local, true);
    SameDay(before, local, false, at, local, true);
  }

  /** A deleted second is skipped: the local clock steps by two. */
  lemma DeletedIsSkipped(lsis: seq<LeapInfo>, offset: int, i: int)
    requires Accepted(lsis) && 0 <= i < |lsis| && !Positive(lsis, i)
    ensures var t := lsis[i].trans;
            && LocalSeconds(t, offset, lsis) == LocalSeconds(t - 1, offset, lsis) + 2
            && !Inserted(lsis, t)
  {
    AroundLeap(lsis, i);
    assert Follows(lsis, i);
  }

  // Between answered times all times are.
  lemma AnsweredBetween(lsis: seq<LeapInfo>, offset: int, t1: int, t: int, t2: int)
    requires Accepted(lsis) && t1 <= t <= t2 && Answered(lsis, offset, t1) && Answered(lsis, offset, t2)
    ensures Answered(lsis, offset, t)
  {
    hide YearOf, LocalSeconds, Accepted;
    if t1 < t < t2 {
      LocalOrder(lsis, offset, t1, t);
      LocalOrder(lsis, offset, t, t2);
      var a, b, c := LocalSeconds(t1, offset, lsis), LocalSeconds(t, offset, lsis), LocalSeconds(t2, offset, lsis);
      YearsInOrder(a / SECSPERDAY, b / SECSPERDAY);
      YearsInOrder(b / SECSPERDAY, c / SECSPERDAY);
      QuotInOrder(t1, t);
      QuotInOrder(t, t2);
      YearsInOrder(Quot(t1, SECSPERDAY), Quot(t, SECSPERDAY));
      YearsInOrder(Quot(t, SECSPERDAY), Quot(t2, SECSPERDAY));
    }
  }

  lemma QuotInOrder(a: int, b: int)
    requires a <= b
    ensures Quot(a, SECSPERDAY) <= Quot(b, SECSPERDAY)
  {
  }

  lemma YearsInOrder(d: int, e: int)
    requires d <= e
    ensures YearOf(d) <= YearOf(e)
  {
    YearAround(YearOf(d), d);
    YearAround(YearOf(d), e);
  }

  /** Among the times for which timesub has an answer, later ones show strictly later
      fields exactly when every inserted second falls at the end of a local minute. */
  lemma OrderPreservedIffAligned(lsis: seq<LeapInfo>, offset: int)
    requires Accepted(lsis)
    ensures OrderPreserved(lsis, offset) <==> Aligned(lsis, offset)
  {
    hide LocalSeconds, Inserted, Accepted, Fields, Before, Answered;
    if Aligned(lsis, offset) {
      forall t1, t2, a, b |
        t1 < t2 && Answered(lsis, offset, t1) && Answered(lsis, offset, t2)
        && ShowsAt(a, t1, offset, lsis) && ShowsAt(b, t2, offset, lsis)
        ensures Before(a, b)
      {
        AlignedKeepsOrder(lsis, offset, t1, t2, a, b);
      }
    } else {
      var i :| 0 <= i < |lsis| && Positive(lsis, i) && Answered(lsis, offset, lsis[i].trans)
               && Answered(lsis, offset, lsis[i].trans + 1) && !EndsMinute(lsis, offset, i);
      MisalignedBreaksOrder(lsis, offset, i);
    }
  }

  // An inserted second is that of a record, and ends its minute.
  lemma InsertedEndsMinute(lsis: seq<LeapInfo>, offset: int, t: int)
    requires Aligned(lsis, offset) && Answered(lsis, offset, t) && Answered(lsis, offset, t + 1)
    ensures Inserted(lsis, t) ==> LocalSeconds(t, offset, lsis) % 60 == 59
  {
    hide Answered;
    if Inserted(lsis, t) {
      var i := LeapIndex(lsis, t);
      assert Positive(lsis, i) && lsis[i].trans == t;
      assert EndsMinute(lsis, offset, i);
    }
  }

  lemma AlignedKeepsOrder(lsis: seq<LeapInfo>, offset: int, t1: int, t2: int, a: Tm, b: Tm)
    requires Accepted(lsis) && Aligned(lsis, offset) && t1 < t2
    requires Answered(lsis, offset, t1) && Answered(lsis, offset, t2)
    requires ShowsAt(a, t1, offset, lsis) && ShowsAt(b, t2, offset, lsis)
    ensures Before(a, b)
  {
    hide *;
    LocalOrder(lsis, offset, t1, t2);
    AnsweredBetween(lsis, offset, t1, t1 + 1, t2);
    InsertedEndsMinute(lsis, offset, t1);
    ShownParts(a, t1, offset, lsis);
    ShownParts(b, t2, offset, lsis);
    FieldsOrder(a, LocalSeconds(t1, offset, lsis), Inserted(lsis, t1),
                b, LocalSeconds(t2, offset, lsis), Inserted(lsis, t2));
  }

  lemma ShownParts(tm: Tm, t: int, offset: int, lsis: seq<LeapInfo>)
    requires ShowsAt(tm, t, offset, lsis)
    ensures Shows(tm, LocalSeconds(t, offset, lsis), Inserted(lsis, t))
  {
    hide Shows, LocalSeconds, Inserted;
  }

  lemma MisalignedBreaksOrder(lsis: seq<LeapInfo>, offset: int, i: int)
    requires Accepted(lsis) && 0 <= i < |lsis| && Positive(lsis, i) && !EndsMinute(lsis, offset, i)
    requires Answered(lsis, offset, lsis[i].trans) && Answered(lsis, offset, lsis[i].trans + 1)
    ensures !OrderPreserved(lsis, offset)
  {
    hide *;
    AfterInserted(lsis, offset, i);
    InsertedLocal(lsis, offset, i);
    var t := lsis[i].trans;
    var local := LocalSeconds(t, offset, lsis);
    MisalignedRepeats(local);
    NotPreserved(lsis, offset, t, Fields(local, true), Fields(local + 1, false));
  }

  lemma InsertedLocal(lsis: seq<LeapInfo>, offset: int, i: int)
    requires 0 <= i < |lsis| && LeapIndex(lsis, lsis[i].trans) == i && !EndsMinute(lsis, offset, i)
    ensures LocalSeconds(lsis[i].trans, offset, lsis) % 60 != 59
  {
    hide LeapIndex;
  }

  lemma NotPreserved(lsis: seq<LeapInfo>, offset: int, t: int, a: Tm, b: Tm)
    requires Answered(lsis, offset, t) && Answered(lsis, offset, t + 1) && SameFields(a, b)
    requires Shows(a, LocalSeconds(t, offset, lsis), Inserted(lsis, t))
    requires Shows(b, LocalSeconds(t + 1, offset, lsis), Inserted(lsis, t + 1))
    ensures !OrderPreserved(lsis, offset)
  {
    hide Answered, Shows, LocalSeconds, Inserted;
    assert ShowsAt(a, t, offset, lsis) && ShowsAt(b, t + 1, offset, lsis) && !Before(a, b);
  }

  // Inserted in mid-minute, a second shows what the next second shows.
  lemma MisalignedRepeats(local: int)
    requires local % 60 != 59
    ensures SameFields(Fields(local, true), Fields(local + 1, false))
  {
    var tm := Fields(local, true);
    ShowsParts(tm, local, true);
    assert Shows(tm, local + 1, false);
    FieldsUnique(tm, Fields(local + 1, false), local + 1, false);
  }
}
