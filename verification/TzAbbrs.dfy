/** The abbreviations of local time types, and how those of a footer are placed among
    those of the file (Source/tzdb.h:964-991). */
module TzAbbrs {
  import opened Wrappers
  import opened ZoneState

  // A C string that begins at i.
  function CString(c: seq<char>, i: int): string
    decreases |c| - i
  {
    if i < 0 || i >= |c| || c[i] == '\0' then "" else [c[i]] + CString(c, i + 1)
  }

  // The first n characters of c end with a nul, if there are any.
  predicate Terminated(c: seq<char>, n: int) {
    0 <= n <= |c| && (n == 0 || c[n - 1] == '\0')
  }

  // What lies past a nul does not belong to the string before it.
  lemma {:induction false} CStringFrame(c: seq<char>, d: seq<char>, i: int, n: int)
    requires 0 <= i < n <= |c| && n <= |d| && c[..n] == d[..n] && c[n - 1] == '\0'
    ensures CString(c, i) == CString(d, i)
    decreases n - i
  {
    assert c[i] == c[..n][i] == d[i];
    if c[i] != '\0' {
      CStringFrame(c, d, i + 1, n);
    }
  }

  // A string put down with its nul is found there.
  lemma {:induction false} CStringPut(c: seq<char>, i: int, s: string)
    requires 0 <= i && i + |s| < |c| && c[i..i + |s|] == s && c[i + |s|] == '\0'
    requires forall k :: 0 <= k < |s| ==> s[k] != '\0'
    ensures CString(c, i) == s
    decreases |s|
  {
    if s != [] {
      assert c[i] == c[i..i + |s|][0];
      assert c[i + 1..i + 1 + |s[1..]|] == c[i..i + |s|][1..];
      CStringPut(c, i + 1, s[1..]);
    }
  }

  // The abbreviations that c holds before n are those that it held as d.
  ghost predicate KeepsAbbrs(c: seq<char>, d: seq<char>, n: int) {
    forall k :: 0 <= k < n ==> CString(c, k) == CString(d, k)
  }

  // Characters up to a nul.
  predicate NulEnded(area: seq<char>) {
    area != [] && area[|area| - 1] == '\0'
  }

  predicate Plain(abbr: string) {
    abbr != "" && forall k :: 0 <= k < |abbr| ==> abbr[k] != '\0'
  }

  // The first place from j on, before n, where the string is there already.
  function FindAbbr(area: seq<char>, n: int, abbr: string, j: int): (r: int)
    requires j <= n
    ensures j <= r <= n && (r < n ==> CString(area, r) == abbr)
    decreases n - j
  {
    if j == n || CString(area, j) == abbr then j else FindAbbr(area, n, abbr, j + 1)
  }

  /** What placing makes of the characters: these, the count of those in use, and where
      each abbreviation is, if there was room. */
  datatype Placing = Placing(area: seq<char>, charcnt: int, indexes: seq<Option<int>>)

  predicate Fits(p: Placing) {
    0 <= p.charcnt <= TZ_MAX_CHARS && p.charcnt <= |p.area| <= p.charcnt + 1 && NulEnded(p.area)
  }

  /** One abbreviation: an equal string is looked for among those in use; if there is
      none it is put after them, if there is room. */
  function PlaceOne(p: Placing, abbr: string): (q: Placing)
    requires Fits(p)
    ensures Fits(q) && p.charcnt <= q.charcnt && |q.indexes| == |p.indexes| + 1
  {
    var j := FindAbbr(p.area, p.charcnt, abbr, 0);
    if j < p.charcnt then p.(indexes := p.indexes + [Some(j)])
    else if j + |abbr| < TZ_MAX_CHARS then
      Placing(p.area[..j] + abbr + ['\0'], j + |abbr| + 1, p.indexes + [Some(j)])
    else p.(indexes := p.indexes + [None])
  }

  function PlaceAll(area: seq<char>, charcnt: int, abbrs: seq<string>): (p: Placing)
    requires Fits(Placing(area, charcnt, []))
    ensures Fits(p) && charcnt <= p.charcnt && |p.indexes| == |abbrs|
  {
    if abbrs == [] then Placing(area, charcnt, [])
    else PlaceOne(PlaceAll(area, charcnt, abbrs[..|abbrs| - 1]), abbrs[|abbrs| - 1])
  }

  predicate AllPlaced(p: Placing) {
    forall i :: 0 <= i < |p.indexes| ==> p.indexes[i].Some?
  }

  function Count(indexes: seq<Option<int>>): (n: int)
    ensures 0 <= n <= |indexes|
    ensures n == |indexes| <==> forall i :: 0 <= i < |indexes| ==> indexes[i].Some?
  {
    if indexes == [] then 0
    else Count(indexes[..|indexes| - 1]) + if indexes[|indexes| - 1].Some? then 1 else 0
  }

  // The types with the places of their abbreviations.
  function Renamed(infos: seq<TtInfo>, indexes: seq<Option<int>>): (r: seq<TtInfo>)
    requires |infos| == |indexes|
    ensures |r| == |infos|
  {
    seq(|infos|, i requires 0 <= i < |infos| =>
      if indexes[i].Some? then infos[i].(desigidx := indexes[i].value) else infos[i])
  }

  // The abbreviations that types name.
  function Names(infos: seq<TtInfo>, chars: seq<char>): (r: seq<string>)
    ensures |r| == |infos|
  {
    seq(|infos|, i requires 0 <= i < |infos| => CString(chars, infos[i].desigidx))
  }

  // The state's characters begin with these.
  ghost predicate Holds(sp: State, area: seq<char>)
    requires sp.Shaped()
    reads sp, sp.chars
  {
    |area| <= TZ_MAX_CHARS_OR_NAMES && sp.chars[..|area|] == area
  }

  /** Source/tzdb.h:972-990, one abbreviation. */
  method PlaceAbbr(sp: State, tsabbr: string, charcnt0: int, ghost p: Placing) returns (idx: Option<int>, charcnt: int)
    requires sp.Shaped() && Fits(p) && p.charcnt == charcnt0 && Holds(sp, p.area)
    modifies sp.chars
    ensures var q := PlaceOne(p, tsabbr);
            Holds(sp, q.area) && charcnt == q.charcnt && q.indexes == p.indexes + [idx]
  {
    hide CString;
    charcnt := charcnt0;
    var j := 0;
    while j < charcnt
      invariant 0 <= j <= charcnt && Holds(sp, p.area)
      invariant FindAbbr(p.area, charcnt, tsabbr, j) == FindAbbr(p.area, charcnt, tsabbr, 0)
    {
      assert sp.chars[..][..|p.area|] == p.area;
      CStringFrame(p.area, sp.chars[..], j, |p.area|);
      if CString(sp.chars[..], j) == tsabbr {
        return Some(j), charcnt;
      }
      j := j + 1;
    }
    idx := None;
    assert sp.chars[..j] == sp.chars[..|p.area|][..j];
    ghost var q := PlaceOne(p, tsabbr);
    if j + |tsabbr| < TZ_MAX_CHARS {
      forall k | 0 <= k < |tsabbr| {
        sp.chars[j + k] := tsabbr[k];
      }
      sp.chars[j + |tsabbr|] := '\0';
      charcnt := j + |tsabbr| + 1;
      idx := Some(j);
      assert sp.chars[..charcnt] == p.area[..j] + tsabbr + ['\0'];
    }
  }

  /** Source/tzdb.h:964-991: the abbreviations of the footer's types are placed one after
      the other, and each type is given its place. */
  method ReuseAbbrs(sp: State, ts: State) returns (gotabbr: int, charcnt: int)
    requires sp.Shaped() && ts.Shaped() && sp.chars != ts.chars && sp.ttis != ts.ttis
    requires sp.charcnt < TZ_MAX_CHARS && sp.chars[sp.charcnt] == '\0'
    modifies sp.chars, ts.ttis
    ensures var p := PlaceAll(old(sp.chars[..sp.charcnt + 1]), sp.charcnt, Names(old(ts.Infos()), ts.chars[..]));
            && Holds(sp, p.area) && charcnt == p.charcnt && gotabbr == Count(p.indexes)
            && ts.Infos() == Renamed(old(ts.Infos()), p.indexes)
  {
    hide CString, PlaceOne, FindAbbr, Count, PlaceAll, Renamed, Names, Placed;
    ghost var was, area := ts.Infos(), sp.chars[..sp.charcnt + 1];
    ghost var names := Names(was, ts.chars[..]);
    ghost var p := Placing(area, sp.charcnt, []);
    gotabbr, charcnt := 0, sp.charcnt;
    var i := 0;
    PlacedNone(sp, ts, area, names, was);
    while i < ts.typecnt
      invariant 0 <= i <= ts.typecnt == |was| == |names|
      invariant Placed(sp, ts, area, names, was, i, p) && charcnt == p.charcnt && gotabbr == Count(p.indexes)
    {
      gotabbr, charcnt, p := PlaceType(sp, ts, i, gotabbr, charcnt, area, names, was, p);
      i := i + 1;
    }
    PlacedWhole(sp, ts, area, names, was, p);
  }

  // The first i types of a footer have their places.
  ghost predicate Placed(sp: State, ts: State, area: seq<char>, names: seq<string>, was: seq<TtInfo>, i: nat, p: Placing)
    requires sp.Shaped() && ts.Shaped()
    reads sp, sp.chars, ts, ts.ttis
  {
    && i <= |was| == |names| && |p.indexes| == i && Fits(p)
    && Fits(Placing(area, sp.charcnt, [])) && p == PlaceAll(area, sp.charcnt, names[..i])
    && Holds(sp, p.area) && ts.Infos() == Renamed(was[..i], p.indexes) + was[i..]
  }

  lemma PlacedNone(sp: State, ts: State, area: seq<char>, names: seq<string>, was: seq<TtInfo>)
    requires sp.Shaped() && ts.Shaped() && ts.Infos() == was && |names| == |was|
    requires sp.charcnt < TZ_MAX_CHARS && area == sp.chars[..sp.charcnt + 1] && sp.chars[sp.charcnt] == '\0'
    ensures Placed(sp, ts, area, names, was, 0, Placing(area, sp.charcnt, [])) && Count([]) == 0
  {
    PlaceNone(area, sp.charcnt, names, was);
    hide PlaceAll, Renamed, Count;
  }

  lemma PlacedWhole(sp: State, ts: State, area: seq<char>, names: seq<string>, was: seq<TtInfo>, p: Placing)
    requires sp.Shaped() && ts.Shaped() && Placed(sp, ts, area, names, was, |was|, p)
    ensures Fits(Placing(area, sp.charcnt, [])) && p == PlaceAll(area, sp.charcnt, names)
    ensures Holds(sp, p.area) && |was| == |p.indexes| && ts.Infos() == Renamed(was, p.indexes)
  {
    hide PlaceAll, Renamed;
    assert names[..|was|] == names && was[..|was|] == was;
  }

  // One type given its place.
  method PlaceType(sp: State, ts: State, i: nat, gotabbr0: int, charcnt0: int, ghost area: seq<char>, ghost names: seq<string>,
                   ghost was: seq<TtInfo>, ghost p: Placing)
    returns (gotabbr: int, charcnt: int, ghost q: Placing)
    requires sp.Shaped() && ts.Shaped() && sp.chars != ts.chars && sp.ttis != ts.ttis && i < ts.typecnt == |was|
    requires names == Names(was, ts.chars[..]) && charcnt0 == p.charcnt && gotabbr0 == Count(p.indexes)
    requires Placed(sp, ts, area, names, was, i, p)
    modifies sp.chars, ts.ttis
    ensures Placed(sp, ts, area, names, was, i + 1, q) && charcnt == q.charcnt && gotabbr == Count(q.indexes)
  {
    hide CString, PlaceOne, FindAbbr, Count, PlaceAll, Renamed, Names;
    PlaceNext(area, sp.charcnt, names, i);
    NameAt(was, ts.chars[..], i);
    assert ts.ttis[i] == ts.Infos()[i];
    RenamedAt(was, p.indexes, i);
    q := PlaceOne(p, names[i]);
    var idx;
    idx, charcnt := PlaceAbbr(sp, CString(ts.chars[..], ts.ttis[i].desigidx), charcnt0, p);
    CountNext(p.indexes, idx);
    RenamedNext(was, p.indexes, idx, i);
    gotabbr := SetPlace(ts, i, idx, gotabbr0);
  }

  method SetPlace(ts: State, i: nat, idx: Option<int>, gotabbr0: int) returns (gotabbr: int)
    requires ts.Shaped() && i < ts.typecnt
    modifies ts.ttis
    ensures ts.Infos() == old(ts.Infos())[i := if idx.Some? then old(ts.ttis[i]).(desigidx := idx.value) else old(ts.ttis[i])]
    ensures gotabbr == gotabbr0 + if idx.Some? then 1 else 0
  {
    gotabbr := gotabbr0;
    if idx.Some? {
      ts.ttis[i] := ts.ttis[i].(desigidx := idx.value);
      gotabbr := gotabbr + 1;
    }
  }

  lemma NameAt(infos: seq<TtInfo>, chars: seq<char>, i: nat)
    requires i < |infos|
    ensures Names(infos, chars)[i] == CString(chars, infos[i].desigidx)
  {
  }

  lemma RenamedAt(was: seq<TtInfo>, indexes: seq<Option<int>>, i: nat)
    requires i < |was| && |indexes| == i
    ensures (Renamed(was[..i], indexes) + was[i..])[i] == was[i]
  {
  }

  lemma PlaceNone(area: seq<char>, charcnt: int, names: seq<string>, was: seq<TtInfo>)
    requires Fits(Placing(area, charcnt, []))
    ensures PlaceAll(area, charcnt, names[..0]) == Placing(area, charcnt, []) && Count([]) == 0
    ensures Renamed(was[..0], []) + was[0..] == was
  {
  }

  lemma PlaceNext(area: seq<char>, charcnt: int, abbrs: seq<string>, i: nat)
    requires Fits(Placing(area, charcnt, [])) && i < |abbrs|
    ensures PlaceAll(area, charcnt, abbrs[..i + 1]) == PlaceOne(PlaceAll(area, charcnt, abbrs[..i]), abbrs[i])
  {
    assert abbrs[..i + 1][..i] == abbrs[..i];
  }

  lemma CountNext(indexes: seq<Option<int>>, idx: Option<int>)
    ensures Count(indexes + [idx]) == Count(indexes) + if idx.Some? then 1 else 0
  {
    assert (indexes + [idx])[..|indexes|] == indexes;
  }

  lemma RenamedNext(was: seq<TtInfo>, indexes: seq<Option<int>>, idx: Option<int>, i: nat)
    requires i < |was| && |indexes| == i
    ensures Renamed(was[..i + 1], indexes + [idx]) + was[i + 1..]
            == (Renamed(was[..i], indexes) + was[i..])[i := if idx.Some? then was[i].(desigidx := idx.value) else was[i]]
  {
  }
}
