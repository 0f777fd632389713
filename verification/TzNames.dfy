/** What placing the abbreviations of a footer does to names: when the file keeps its own,
    and when those placed are found. */
module TzNames {
  import opened Wrappers
  import opened ZoneState
  import opened TzAbbrs

  // The string stands somewhere among the first n characters.
  ghost predicate Stands(area: seq<char>, n: int, abbr: string) {
    exists k :: 0 <= k < n && CString(area, k) == abbr
  }

  /** A string that is put after the first n characters: it does not stand among them, and
      there is room. */
  ghost predicate Wanted(area: seq<char>, n: int, abbr: string) {
    !Stands(area, n, abbr) && n + |abbr| < TZ_MAX_CHARS
  }

  // No nul ends the string at k before n.
  predicate Unended(area: seq<char>, n: int, k: int) {
    0 <= k < n <= |area| && forall m :: k <= m < n ==> area[m] != '\0'
  }

  /** A string that stands in the last, unended one alone. */
  ghost predicate StandsUnended(area: seq<char>, n: int, abbr: string) {
    Stands(area, n, abbr) && forall k :: 0 <= k < n && CString(area, k) == abbr ==> Unended(area, n, k)
  }

  ghost predicate NoneWanted(area: seq<char>, n: int, abbrs: seq<string>) {
    forall i :: 0 <= i < |abbrs| ==> !Wanted(area, n, abbrs[i])
  }

  /** String i is found in the file's last, unended string, and that grows later: a string
      after i is put, and none before i was. */
  ghost predicate Spoiled(area: seq<char>, n: int, abbrs: seq<string>, i: int) {
    && 0 <= i < |abbrs| && StandsUnended(area, n, abbrs[i])
    && NoneWanted(area, n, abbrs[..i]) && !NoneWanted(area, n, abbrs)
  }

  lemma {:induction false} FindIsFirst(area: seq<char>, n: int, abbr: string, j: int, k: int)
    requires 0 <= j <= k < n && CString(area, k) == abbr
    ensures FindAbbr(area, n, abbr, j) <= k
    decreases n - j
  {
    hide CString;
    if CString(area, j) != abbr {
      FindIsFirst(area, n, abbr, j + 1, k);
    }
  }

  // The search finds a string exactly when it stands there; the first place is in the
  // unended string exactly when all places are.
  lemma FindIff(area: seq<char>, n: int, abbr: string)
    requires 0 <= n <= |area|
    ensures var f := FindAbbr(area, n, abbr, 0);
            && (f < n <==> Stands(area, n, abbr))
            && (f < n ==> (Unended(area, n, f) <==> StandsUnended(area, n, abbr)))
  {
    hide CString, FindAbbr;
    var f := FindAbbr(area, n, abbr, 0);
    forall k | 0 <= k < n && CString(area, k) == abbr
      ensures f <= k
    {
      FindIsFirst(area, n, abbr, 0, k);
    }
  }

  // One string placed among the file's characters as they were.
  lemma PlaceFirst(p: Placing, abbr: string)
    requires Fits(p) && |p.area| == p.charcnt + 1
    ensures var (q, f) := (PlaceOne(p, abbr), FindAbbr(p.area, p.charcnt, abbr, 0));
            if Wanted(p.area, p.charcnt, abbr) then
              q == Placing(p.area[..p.charcnt] + abbr + ['\0'], p.charcnt + |abbr| + 1, p.indexes + [Some(p.charcnt)])
            else q == p.(indexes := p.indexes + [if f < p.charcnt then Some(f) else None])
  {
    hide *;
    PlacedOne(p, abbr);
    FindIff(p.area, p.charcnt, abbr);
    WantedIs(p.area, p.charcnt, abbr);
  }

  lemma WantedIs(area: seq<char>, n: int, abbr: string)
    ensures Wanted(area, n, abbr) <==> !Stands(area, n, abbr) && n + |abbr| < TZ_MAX_CHARS
  {
    hide Stands;
  }

  lemma PlacedOne(p: Placing, abbr: string)
    requires Fits(p)
    ensures 0 <= p.charcnt <= |p.area|
    ensures var (q, f) := (PlaceOne(p, abbr), FindAbbr(p.area, p.charcnt, abbr, 0));
            && f <= p.charcnt
            && if f < p.charcnt then q == p.(indexes := p.indexes + [Some(f)])
               else if p.charcnt + |abbr| < TZ_MAX_CHARS then
                 q == Placing(p.area[..p.charcnt] + abbr + ['\0'], p.charcnt + |abbr| + 1, p.indexes + [Some(p.charcnt)])
               else q == p.(indexes := p.indexes + [None])
  {
    hide *;
    FitsRange(p);
    var f := FindAbbr(p.area, p.charcnt, abbr, 0);
    FoundWithin(p.area, p.charcnt, abbr);
    PlaceOneIs(p, abbr, f);
  }

  lemma FitsRange(p: Placing)
    requires Fits(p)
    ensures 0 <= p.charcnt <= |p.area|
  {
    hide NulEnded;
  }

  lemma FoundWithin(area: seq<char>, n: int, abbr: string)
    requires 0 <= n
    ensures 0 <= FindAbbr(area, n, abbr, 0) <= n
  {
    hide CString;
  }

  lemma PlaceOneIs(p: Placing, abbr: string, f: int)
    requires Fits(p) && 0 <= p.charcnt <= |p.area| && f == FindAbbr(p.area, p.charcnt, abbr, 0) <= p.charcnt
    ensures f < p.charcnt ==> PlaceOne(p, abbr) == p.(indexes := p.indexes + [Some(f)])
    ensures f == p.charcnt && f + |abbr| < TZ_MAX_CHARS ==>
              PlaceOne(p, abbr) == Placing(p.area[..f] + abbr + ['\0'], f + |abbr| + 1, p.indexes + [Some(f)])
    ensures f == p.charcnt && f + |abbr| >= TZ_MAX_CHARS ==> PlaceOne(p, abbr) == p.(indexes := p.indexes + [None])
  {
    hide FindAbbr, CString, NulEnded, Fits;
  }

  // As long as nothing is put, the characters stay and each string has its first place.
  ghost predicate Untouched(area: seq<char>, n: int, abbrs: seq<string>, p: Placing)
    requires 0 <= n
  {
    && p.area == area && p.charcnt == n && |p.indexes| == |abbrs|
    && forall i :: 0 <= i < |abbrs| ==>
         p.indexes[i] == var f := FindAbbr(area, n, abbrs[i], 0); if 0 <= f < n then Some(f) else None
  }

  lemma {:induction false} NothingPut(area: seq<char>, n: int, abbrs: seq<string>)
    requires Fits(Placing(area, n, [])) && |area| == n + 1 && NoneWanted(area, n, abbrs)
    requires forall i :: 0 <= i < |abbrs| ==> Plain(abbrs[i])
    ensures Untouched(area, n, abbrs, PlaceAll(area, n, abbrs))
    decreases |abbrs|
  {
    if abbrs != [] {
      var m := |abbrs| - 1;
      assert NoneWanted(area, n, abbrs[..m]) by {
        hide Wanted;
      }
      NothingPut(area, n, abbrs[..m]);
      PlaceFirst(PlaceAll(area, n, abbrs[..m]), abbrs[m]);
      hide FindAbbr, CString, PlaceOne, Wanted;
    }
  }

  // What is put after characters that end with a nul leaves the strings before it alone;
  // after others it makes the last one longer.
  lemma PutAfter(area: seq<char>, n: int, abbr: string, d: seq<char>, k: int)
    requires 0 <= k < n < |area| && area[n] == '\0' && Plain(abbr) && d == area[..n] + abbr + ['\0']
    ensures CString(d, k) == CString(area, k) <==> !Unended(area, n, k)
  {
    assert d[..n] == area[..n];
    if Unended(area, n, k) {
      Lengthened(area, n, abbr, d, k);
    } else {
      var m :| k <= m < n && area[m] == '\0';
      assert area[..m + 1] == area[..n][..m + 1] == d[..m + 1];
      CStringFrame(area, d, k, m + 1);
    }
  }

  lemma {:induction false} Lengthened(area: seq<char>, n: int, abbr: string, d: seq<char>, k: int)
    requires 0 <= k <= n < |area| && area[n] == '\0' && Plain(abbr) && d == area[..n] + abbr + ['\0']
    requires forall m :: k <= m < n ==> area[m] != '\0'
    ensures CString(d, k) == CString(area, k) + abbr
    decreases n - k
  {
    if k == n {
      CStringPut(d, n, abbr);
    } else {
      assert d[k] == area[k];
      Lengthened(area, n, abbr, d, k + 1);
    }
  }

  lemma PlaceOneKeeps(p: Placing, abbr: string)
    requires Fits(p) && Terminated(p.area, p.charcnt) && Plain(abbr)
    ensures var q := PlaceOne(p, abbr);
            && Terminated(q.area, q.charcnt) && q.area[..p.charcnt] == p.area[..p.charcnt]
            && q.indexes[..|p.indexes|] == p.indexes
            && var idx := q.indexes[|p.indexes|]; idx.Some? ==> 0 <= idx.value < q.charcnt && CString(q.area, idx.value) == abbr
  {
    var q, j := PlaceOne(p, abbr), FindAbbr(p.area, p.charcnt, abbr, 0);
    if j == p.charcnt && j + |abbr| < TZ_MAX_CHARS {
      CStringPut(q.area, j, abbr);
    }
  }

  /** Each string is found at its place afterwards exactly if it is not spoiled. */
  ghost predicate FoundUnlessSpoiled(area: seq<char>, n: int, abbrs: seq<string>, p: Placing) {
    |p.indexes| == |abbrs|
    && forall i :: 0 <= i < |abbrs| && p.indexes[i].Some? ==>
         && 0 <= p.indexes[i].value < p.charcnt
         && (CString(p.area, p.indexes[i].value) == abbrs[i] <==> !Spoiled(area, n, abbrs, i))
  }

  lemma SpoiledMore(area: seq<char>, n: int, abbrs: seq<string>, i: int)
    requires 0 <= i < |abbrs| - 1 && !NoneWanted(area, n, abbrs[..|abbrs| - 1])
    ensures Spoiled(area, n, abbrs, i) <==> Spoiled(area, n, abbrs[..|abbrs| - 1], i)
  {
    hide Wanted, StandsUnended;
    var b := abbrs[..|abbrs| - 1];
    assert b[..i] == abbrs[..i] && b[i] == abbrs[i];
    var m :| 0 <= m < |b| && Wanted(area, n, b[m]);
    assert abbrs[m] == b[m];
  }

  // The strings after one that was put.
  lemma PlaceMore(area: seq<char>, n: int, abbrs: seq<string>, p: Placing)
    requires abbrs != [] && Fits(p) && Plain(abbrs[|abbrs| - 1]) && Terminated(p.area, p.charcnt)
    requires !NoneWanted(area, n, abbrs[..|abbrs| - 1]) && FoundUnlessSpoiled(area, n, abbrs[..|abbrs| - 1], p)
    ensures FoundUnlessSpoiled(area, n, abbrs, PlaceOne(p, abbrs[|abbrs| - 1]))
    ensures var q := PlaceOne(p, abbrs[|abbrs| - 1]); Terminated(q.area, q.charcnt)
  {
    var m := |abbrs| - 1;
    var q := PlaceOne(p, abbrs[m]);
    PlaceOneKeeps(p, abbrs[m]);
    hide CString, PlaceOne, NoneWanted, Spoiled;
    forall i | 0 <= i < m && q.indexes[i].Some?
      ensures 0 <= q.indexes[i].value < q.charcnt
      ensures CString(q.area, q.indexes[i].value) == abbrs[i] <==> !Spoiled(area, n, abbrs, i)
    {
      assert q.indexes[i] == q.indexes[..m][i] == p.indexes[i] && abbrs[..m][i] == abbrs[i];
      CStringFrame(p.area, q.area, p.indexes[i].value, p.charcnt);
      SpoiledMore(area, n, abbrs, i);
    }
    assert !Spoiled(area, n, abbrs, m) by {
      NotSpoiledLate(area, n, abbrs, m);
    }
  }

  lemma NotSpoiledLate(area: seq<char>, n: int, abbrs: seq<string>, i: int)
    requires 0 <= i < |abbrs| && !NoneWanted(area, n, abbrs[..i])
    ensures !Spoiled(area, n, abbrs, i)
  {
  }

  // The first string that is put.
  lemma PlacePut(area: seq<char>, n: int, abbrs: seq<string>, p: Placing)
    requires abbrs != [] && |area| == n + 1 && Fits(p) && 0 <= n && Untouched(area, n, abbrs[..|abbrs| - 1], p)
    requires NoneWanted(area, n, abbrs[..|abbrs| - 1]) && Wanted(area, n, abbrs[|abbrs| - 1]) && Plain(abbrs[|abbrs| - 1])
    ensures FoundUnlessSpoiled(area, n, abbrs, PlaceOne(p, abbrs[|abbrs| - 1]))
    ensures var q := PlaceOne(p, abbrs[|abbrs| - 1]); Terminated(q.area, q.charcnt)
  {
    var m := |abbrs| - 1;
    var q := PlaceOne(p, abbrs[m]);
    PlaceFirst(p, abbrs[m]);
    hide CString, PlaceOne, FindAbbr;
    forall i | 0 <= i < m && q.indexes[i].Some?
      ensures 0 <= q.indexes[i].value < q.charcnt
      ensures CString(q.area, q.indexes[i].value) == abbrs[i] <==> !Spoiled(area, n, abbrs, i)
    {
      assert abbrs[..m][i] == abbrs[i] && q.indexes[i] == p.indexes[i];
      PutAfter(area, n, abbrs[m], q.area, q.indexes[i].value);
      FindIff(area, n, abbrs[i]);
      FirstWanted(area, n, abbrs, i);
    }
    PutStands(area, n, abbrs, q.area);
  }

  lemma PutStands(area: seq<char>, n: int, abbrs: seq<string>, d: seq<char>)
    requires abbrs != [] && 0 <= n <= |area| && Plain(abbrs[|abbrs| - 1]) && Wanted(area, n, abbrs[|abbrs| - 1])
    requires d == area[..n] + abbrs[|abbrs| - 1] + ['\0']
    ensures CString(d, n) == abbrs[|abbrs| - 1] && !Spoiled(area, n, abbrs, |abbrs| - 1)
  {
    CStringPut(d, n, abbrs[|abbrs| - 1]);
  }

  lemma FirstWanted(area: seq<char>, n: int, abbrs: seq<string>, i: int)
    requires 0 <= i < |abbrs| - 1 && NoneWanted(area, n, abbrs[..|abbrs| - 1]) && Wanted(area, n, abbrs[|abbrs| - 1])
    ensures Spoiled(area, n, abbrs, i) <==> StandsUnended(area, n, abbrs[i])
  {
    hide Wanted, StandsUnended;
    var b := abbrs[..|abbrs| - 1];
    forall m | 0 <= m < i
      ensures !Wanted(area, n, abbrs[..i][m])
    {
      assert abbrs[..i][m] == b[m];
    }
  }

  /** When the names placed are found at their places: exactly those that are not spoiled.
      None is, if the file's characters end with a nul. */
  lemma {:induction false} PlacedIff(area: seq<char>, n: int, abbrs: seq<string>)
    requires Fits(Placing(area, n, [])) && |area| == n + 1
    requires forall i :: 0 <= i < |abbrs| ==> Plain(abbrs[i])
    ensures FoundUnlessSpoiled(area, n, abbrs, PlaceAll(area, n, abbrs))
    ensures !NoneWanted(area, n, abbrs) ==> var p := PlaceAll(area, n, abbrs); Terminated(p.area, p.charcnt)
    ensures Terminated(area, n) ==> forall i :: 0 <= i < |abbrs| ==> !Spoiled(area, n, abbrs, i)
    decreases |abbrs|
  {
    hide *;
    FitsCount(area, n);
    if NoneWanted(area, n, abbrs) {
      NothingPut(area, n, abbrs);
      UntouchedFound(area, n, abbrs, PlaceAll(area, n, abbrs));
    } else {
      var m := |abbrs| - 1;
      PlacedLast(area, n, abbrs);
      if NoneWanted(area, n, abbrs[..m]) {
        NothingPut(area, n, abbrs[..m]);
        PlacePut(area, n, abbrs, PlaceAll(area, n, abbrs[..m]));
      } else {
        PlacedIff(area, n, abbrs[..m]);
        PlaceMore(area, n, abbrs, PlaceAll(area, n, abbrs[..m]));
      }
    }
    EndedUnspoiled(area, n, abbrs);
  }

  lemma FitsCount(area: seq<char>, n: int)
    requires Fits(Placing(area, n, []))
    ensures 0 <= n <= |area|
  {
  }

  lemma EndedUnspoiled(area: seq<char>, n: int, abbrs: seq<string>)
    ensures Terminated(area, n) ==> forall i :: 0 <= i < |abbrs| ==> !Spoiled(area, n, abbrs, i)
  {
    hide CString;
  }

  lemma PlacedLast(area: seq<char>, n: int, abbrs: seq<string>)
    requires Fits(Placing(area, n, [])) && !NoneWanted(area, n, abbrs)
    requires forall i :: 0 <= i < |abbrs| ==> Plain(abbrs[i])
    ensures var m := |abbrs| - 1;
            && abbrs != [] && Fits(PlaceAll(area, n, abbrs[..m])) && Plain(abbrs[m])
            && (forall i :: 0 <= i < m ==> Plain(abbrs[..m][i]))
            && PlaceAll(area, n, abbrs) == PlaceOne(PlaceAll(area, n, abbrs[..m]), abbrs[m])
            && (NoneWanted(area, n, abbrs[..m]) ==> Wanted(area, n, abbrs[m]))
  {
    hide *;
    SomeWanted(area, n, abbrs);
    PlaceAllLast(area, n, abbrs);
    assert forall i :: 0 <= i < |abbrs| - 1 ==> abbrs[..|abbrs| - 1][i] == abbrs[i];
  }

  lemma SomeWanted(area: seq<char>, n: int, abbrs: seq<string>)
    requires !NoneWanted(area, n, abbrs)
    ensures abbrs != []
    ensures NoneWanted(area, n, abbrs[..|abbrs| - 1]) ==> Wanted(area, n, abbrs[|abbrs| - 1])
  {
    hide Wanted;
    var i :| 0 <= i < |abbrs| && Wanted(area, n, abbrs[i]);
    if i < |abbrs| - 1 {
      assert abbrs[..|abbrs| - 1][i] == abbrs[i];
    }
  }

  lemma PlaceAllLast(area: seq<char>, n: int, abbrs: seq<string>)
    requires Fits(Placing(area, n, [])) && abbrs != []
    ensures Fits(PlaceAll(area, n, abbrs[..|abbrs| - 1]))
    ensures PlaceAll(area, n, abbrs) == PlaceOne(PlaceAll(area, n, abbrs[..|abbrs| - 1]), abbrs[|abbrs| - 1])
  {
    hide PlaceOne;
  }

  lemma UntouchedFound(area: seq<char>, n: int, abbrs: seq<string>, p: Placing)
    requires 0 <= n && Untouched(area, n, abbrs, p) && NoneWanted(area, n, abbrs)
    ensures FoundUnlessSpoiled(area, n, abbrs, p)
  {
    hide CString, FindAbbr;
  }

  // What was put first after the file's characters, if anything was.
  lemma {:induction false} FirstPut(area: seq<char>, charcnt: int, abbrs: seq<string>)
    requires Fits(Placing(area, charcnt, [])) && |area| == charcnt + 1
    ensures var p := PlaceAll(area, charcnt, abbrs);
            if p.charcnt == charcnt then p.area == area
            else |p.area| == p.charcnt && exists i :: 0 <= i < |abbrs| && BeginsWith(p.area, area[..charcnt], abbrs[i])
    decreases |abbrs|
  {
    if abbrs != [] {
      var n := |abbrs| - 1;
      FirstPut(area, charcnt, abbrs[..n]);
      var p := PlaceAll(area, charcnt, abbrs[..n]);
      PutOne(p, abbrs[n]);
      if p.charcnt > charcnt {
        hide PlaceOne;
        var i :| 0 <= i < n && BeginsWith(p.area, area[..charcnt], abbrs[..n][i]);
        BeginsLonger(p.area, PlaceOne(p, abbrs[n]).area, area[..charcnt], abbrs[i]);
      }
    }
  }

  lemma PutOne(p: Placing, abbr: string)
    requires Fits(p)
    ensures var q := PlaceOne(p, abbr);
            && (q.charcnt == p.charcnt ==> q.area == p.area)
            && (q.charcnt > p.charcnt ==> |q.area| == q.charcnt && BeginsWith(q.area, p.area[..p.charcnt], abbr))
            && (|p.area| == p.charcnt ==> |q.area| == q.charcnt && p.area <= q.area)
  {
  }

  lemma BeginsLonger(c: seq<char>, d: seq<char>, a: seq<char>, s: string)
    requires BeginsWith(c, a, s) && c <= d
    ensures BeginsWith(d, a, s)
  {
    assert d[..|c|] == c;
    assert d[|a|..|a| + |s|] == c[|a|..|a| + |s|];
  }

  predicate BeginsWith(c: seq<char>, a: seq<char>, s: string) {
    |a| + |s| < |c| && c[..|a|] == a && c[|a|..|a| + |s|] == s && c[|a| + |s|] == '\0'
  }

  /** The file keeps its own abbreviations if and only if its characters end with a nul,
      or each of the footer's stands among them already or has no room. The loader does
      not ask for that nul: without it the last abbreviation grows by the first one put. */
  lemma AbbrsKeptIff(area: seq<char>, n: int, abbrs: seq<string>)
    requires Fits(Placing(area, n, [])) && |area| == n + 1
    requires forall i :: 0 <= i < |abbrs| ==> Plain(abbrs[i])
    ensures KeepsAbbrs(PlaceAll(area, n, abbrs).area, area, n) <==> Terminated(area, n) || NoneWanted(area, n, abbrs)
    ensures PlaceAll(area, n, abbrs).charcnt == n <==> NoneWanted(area, n, abbrs)
  {
    hide *;
    FirstPut(area, n, abbrs);
    FitsCount(area, n);
    var p := PlaceAll(area, n, abbrs);
    if NoneWanted(area, n, abbrs) {
      NothingPut(area, n, abbrs);
      UntouchedKeeps(area, n, abbrs, p);
    } else {
      CountGrows(area, n, abbrs);
      PutKeepsIff(area, n, abbrs, p);
    }
  }

  lemma UntouchedKeeps(area: seq<char>, n: int, abbrs: seq<string>, p: Placing)
    requires 0 <= n && Untouched(area, n, abbrs, p)
    ensures KeepsAbbrs(p.area, area, n) && p.charcnt == n
  {
    hide CString, FindAbbr;
  }

  lemma {:induction false} CountGrows(area: seq<char>, n: int, abbrs: seq<string>)
    requires Fits(Placing(area, n, [])) && |area| == n + 1 && !NoneWanted(area, n, abbrs)
    requires forall i :: 0 <= i < |abbrs| ==> Plain(abbrs[i])
    ensures PlaceAll(area, n, abbrs).charcnt > n
    decreases |abbrs|
  {
    hide *;
    PlacedLast(area, n, abbrs);
    FitsCount(area, n);
    var m := |abbrs| - 1;
    if NoneWanted(area, n, abbrs[..m]) {
      NothingPut(area, n, abbrs[..m]);
      PutCounts(area, n, abbrs[..m], PlaceAll(area, n, abbrs[..m]), abbrs[m]);
    } else {
      CountGrows(area, n, abbrs[..m]);
      NeverShrinks(PlaceAll(area, n, abbrs[..m]), abbrs[m]);
    }
  }

  lemma PutCounts(area: seq<char>, n: int, abbrs: seq<string>, p: Placing, abbr: string)
    requires 0 <= n && |area| == n + 1 && Fits(p) && Untouched(area, n, abbrs, p) && Wanted(area, n, abbr) && Plain(abbr)
    ensures PlaceOne(p, abbr).charcnt > n
  {
    hide CString, FindAbbr;
    PlaceFirst(p, abbr);
  }

  lemma NeverShrinks(p: Placing, abbr: string)
    requires Fits(p)
    ensures PlaceOne(p, abbr).charcnt >= p.charcnt
  {
  }

  lemma PutKeepsIff(area: seq<char>, n: int, abbrs: seq<string>, p: Placing)
    requires Fits(Placing(area, n, [])) && |area| == n + 1
    requires forall i :: 0 <= i < |abbrs| ==> Plain(abbrs[i])
    requires exists i :: 0 <= i < |abbrs| && BeginsWith(p.area, area[..n], abbrs[i])
    ensures KeepsAbbrs(p.area, area, n) <==> Terminated(area, n)
  {
    hide CString;
    var i :| 0 <= i < |abbrs| && BeginsWith(p.area, area[..n], abbrs[i]);
    if Terminated(area, n) {
      KeepsAbbrsFrame(p.area, area, n);
    } else {
      UnterminatedGrows(area, p.area, n, abbrs[i]);
    }
  }

  lemma UnterminatedGrows(c: seq<char>, d: seq<char>, n: int, s: string)
    requires 0 < n < |c| && n + |s| < |d| && !Terminated(c, n) && c[n] == '\0'
    requires d[..n] == c[..n] && d[n..n + |s|] == s && d[n + |s|] == '\0' && Plain(s)
    ensures CString(c, n - 1) == [c[n - 1]] && CString(d, n - 1) == [c[n - 1]] + s
    ensures !KeepsAbbrs(d, c, n)
  {
    assert d[n - 1] == d[..n][n - 1] == c[n - 1];
    CStringPut(d, n, s);
    assert CString(c, n) == "";
  }

  lemma KeepsAbbrsFrame(c: seq<char>, d: seq<char>, n: int)
    requires Terminated(d, n) && n <= |c| && c[..n] == d[..n]
    ensures KeepsAbbrs(c, d, n)
  {
    forall k | 0 <= k < n
      ensures CString(c, k) == CString(d, k)
    {
      CStringFrame(d, c, k, n);
    }
  }

  /** Characters EST without a nul, and a footer EST5EDT: EST is found, EDT is put right
      after it, and then the first name reads ESTEDT. */
  lemma GrownName()
    ensures var area, abbrs := ['E', 'S', 'T', '\0'], ["EST", "EDT"];
            && Fits(Placing(area, 3, [])) && !Terminated(area, 3) && Wanted(area, 3, "EDT") && !Wanted(area, 3, "EST")
            && PlaceAll(area, 3, abbrs) == Placing("ESTEDT" + ['\0'], 7, [Some(0), Some(3)])
            && CString(area, 0) == "EST" && CString("ESTEDT" + ['\0'], 0) == "ESTEDT"
            && Spoiled(area, 3, abbrs, 0) && !KeepsAbbrs("ESTEDT" + ['\0'], area, 3)
  {
    var area, abbrs := ['E', 'S', 'T', '\0'], ["EST", "EDT"];
    var d := "ESTEDT" + ['\0'];
    FileHoldsEst(area);
    CStringPut(d, 0, "ESTEDT");
    hide CString, FindAbbr, PlaceOne, PlaceAll;
    assert !Wanted(area, 3, "EST") && Wanted(area, 3, "EDT");
    BothPlaced(area, d);
    assert abbrs[..1] == ["EST"];
    FirstWanted(area, 3, abbrs, 0);
  }

  lemma BothPlaced(area: seq<char>, d: string)
    requires area == ['E', 'S', 'T', '\0'] && d == "ESTEDT" + ['\0'] && FindAbbr(area, 3, "EST", 0) == 0
    requires Fits(Placing(area, 3, [])) && !Wanted(area, 3, "EST") && Wanted(area, 3, "EDT")
    ensures PlaceAll(area, 3, ["EST", "EDT"]) == Placing(d, 7, [Some(0), Some(3)])
  {
    hide CString, FindAbbr, Wanted, PlaceOne;
    var abbrs := ["EST", "EDT"];
    assert abbrs[..1] == ["EST"] && abbrs[..0] == [];
    PlaceFirst(Placing(area, 3, []), "EST");
    PlaceFirst(Placing(area, 3, [Some(0)]), "EDT");
    assert area[..3] + "EDT" + ['\0'] == d;
    assert PlaceAll(area, 3, abbrs[..0]) == Placing(area, 3, []);
    assert PlaceAll(area, 3, abbrs[..1]) == Placing(area, 3, [Some(0)]);
    assert [Some(0)] + [Some(3)] == [Some(0), Some(3)];
  }

  lemma FileHoldsEst(area: seq<char>)
    requires area == ['E', 'S', 'T', '\0']
    ensures CString(area, 0) == "EST" && CString(area, 1) == "ST" && CString(area, 2) == "T"
    ensures FindAbbr(area, 3, "EST", 0) == 0
  {
    CStringPut(area, 0, "EST");
    CStringPut(area, 1, "ST");
    CStringPut(area, 2, "T");
  }
}
