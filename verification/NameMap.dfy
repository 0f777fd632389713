/** The map from names to ports of Tools/gdomap.c: an array sorted by length and bytes
    of the names, and the finite map it stands for. */
module NameMap {
  import opened Bytes

  type Name = n: seq<Byte> | |n| < 256

  const TCP_GDO := 0x11
  const TCP_FOREIGN := 0x12
  const UDP_GDO := 0x21
  const UDP_FOREIGN := 0x22

  // The four types of port (Tools/gdomap.h:181-198).
  type PortType = t: Byte | t in {TCP_GDO, TCP_FOREIGN, UDP_GDO, UDP_FOREIGN} witness TCP_GDO

  // Its network part and its service part, which share no bit.
  type NetPart = b: Byte | b in {0x10, 0x20} witness 0x10
  type SvcPart = b: Byte | b in {0x01, 0x02} witness 0x01

  function Net(t: PortType): NetPart {
    t / 16 * 16
  }

  function Svc(t: PortType): SvcPart {
    t % 16
  }

  datatype Entry = Entry(name: Name, port: Word, net: NetPart, svc: SvcPart)

  // Both parts put together again.
  function TypeOf(e: Entry): PortType {
    e.net as int + e.svc
  }

  // memcmp, for sequences of one length.
  function MemCmp(a: seq<Byte>, b: seq<Byte>): int
    requires |a| == |b|
  {
    if a == [] then 0 else if a[0] == b[0] then MemCmp(a[1..], b[1..]) else a[0] as int - b[0]
  }

  function Compare(a: seq<Byte>, b: seq<Byte>): int {
    if |a| == |b| then MemCmp(a, b) else if |a| < |b| then -1 else 1
  }

  lemma {:induction false} MemCmpOrder(a: seq<Byte>, b: seq<Byte>)
    requires |a| == |b|
    ensures MemCmp(a, b) == 0 <==> a == b
    ensures MemCmp(a, b) < 0 <==> MemCmp(b, a) > 0
  {
    if a != [] {
      MemCmpOrder(a[1..], b[1..]);
      assert a == [a[0]] + a[1..] && b == [b[0]] + b[1..];
    }
  }

  lemma {:induction false} MemCmpTransitive(a: seq<Byte>, b: seq<Byte>, c: seq<Byte>)
    requires |a| == |b| == |c| && MemCmp(a, b) < 0 && MemCmp(b, c) < 0
    ensures MemCmp(a, c) < 0
  {
    if a[0] == b[0] == c[0] {
      MemCmpTransitive(a[1..], b[1..], c[1..]);
    }
  }

  /** Names are totally ordered. */
  lemma CompareOrder(a: seq<Byte>, b: seq<Byte>)
    ensures Compare(a, b) == 0 <==> a == b
    ensures Compare(a, b) < 0 <==> Compare(b, a) > 0
  {
    if |a| == |b| {
      MemCmpOrder(a, b);
    }
  }

  lemma CompareTransitive(a: seq<Byte>, b: seq<Byte>, c: seq<Byte>)
    requires Compare(a, b) < 0 && Compare(b, c) < 0
    ensures Compare(a, c) < 0
  {
    if |a| == |b| == |c| {
      MemCmpTransitive(a, b, c);
    }
  }

  /** A name comes before another if it is shorter, or as long and smaller in the first
      byte that differs. */
  lemma {:induction false} CompareMeans(a: seq<Byte>, b: seq<Byte>)
    ensures Compare(a, b) < 0 <==>
              || |a| < |b|
              || (|a| == |b| && exists i :: 0 <= i < |a| && a[..i] == b[..i] && a[i] < b[i])
  {
    if |a| == |b| {
      MemCmpMeans(a, b);
    }
  }

  lemma {:induction false} MemCmpMeans(a: seq<Byte>, b: seq<Byte>)
    requires |a| == |b|
    ensures MemCmp(a, b) < 0 <==> exists i :: 0 <= i < |a| && a[..i] == b[..i] && a[i] < b[i]
  {
    if a != [] && a[0] == b[0] {
      var c, d := a[1..], b[1..];
      MemCmpMeans(c, d);
      if i :| 0 <= i < |c| && c[..i] == d[..i] && c[i] < d[i] {
        assert a[..i + 1] == [a[0]] + c[..i] && b[..i + 1] == [b[0]] + d[..i];
        assert a[i + 1] < b[i + 1];
      }
      if i :| 0 <= i < |a| && a[..i] == b[..i] && a[i] < b[i] {
        assert c[..i - 1] == a[..i][1..] && d[..i - 1] == b[..i][1..];
      }
    } else if a != [] {
      assert a[..0] == b[..0];
      forall i | 0 < i < |a|
        ensures a[..i] != b[..i]
      {
        assert a[..i][0] == a[0] && b[..i][0] == b[0];
      }
    }
  }

  /** Strictly increasing names. */
  predicate Sorted(s: seq<Entry>) {
    forall i, j :: 0 <= i < j < |s| ==> Compare(s[i].name, s[j].name) < 0
  }

  predicate Has(s: seq<Entry>, n: Name) {
    exists i :: 0 <= i < |s| && s[i].name == n
  }

  lemma SortedUnique(s: seq<Entry>, i: nat, j: nat)
    requires Sorted(s) && i < |s| && j < |s| && s[i].name == s[j].name
    ensures i == j
  {
    CompareOrder(s[i].name, s[j].name);
    CompareOrder(s[j].name, s[i].name);
  }

  datatype Reg = Reg(port: Word, net: NetPart, svc: SvcPart)

  function RegOf(e: Entry): Reg {
    Reg(e.port, e.net, e.svc)
  }

  function EntryOf(n: Name, r: Reg): Entry {
    Entry(n, r.port, r.net, r.svc)
  }

  /** The finite map that an array of entries stands for. */
  function View(s: seq<Entry>): map<Name, Reg> {
    if s == [] then map[] else View(s[..|s| - 1])[s[|s| - 1].name := RegOf(s[|s| - 1])]
  }

  lemma {:induction false} ViewHas(s: seq<Entry>, n: Name)
    ensures n in View(s) <==> Has(s, n)
    ensures n in View(s) ==> EntryOf(n, View(s)[n]) in s
  {
    if s != [] {
      var front := s[..|s| - 1];
      ViewHas(front, n);
      if Has(front, n) {
        var i :| 0 <= i < |front| && front[i].name == n;
        assert s[i].name == n;
      }
    }
  }

  /** An item of the map is an entry of the array, and the other way round. */
  lemma ViewAt(s: seq<Entry>, n: Name, r: Reg)
    requires Sorted(s)
    ensures n in View(s) && View(s)[n] == r <==> EntryOf(n, r) in s
  {
    ViewHas(s, n);
    if EntryOf(n, r) in s {
      var i :| 0 <= i < |s| && s[i] == EntryOf(n, r);
      assert Has(s, n);
      var j :| 0 <= j < |s| && s[j] == EntryOf(n, View(s)[n]);
      SortedUnique(s, i, j);
    }
  }

  // The entries of s are the items of v.
  ghost predicate Stands(s: seq<Entry>, v: map<Name, Reg>) {
    forall n, r :: Item(v, n, r) <==> EntryOf(n, r) in s
  }

  predicate Item(v: map<Name, Reg>, n: Name, r: Reg) {
    n in v && v[n] == r
  }

  lemma ViewStands(s: seq<Entry>)
    requires Sorted(s)
    ensures Stands(s, View(s))
  {
    forall n, r
      ensures Item(View(s), n, r) <==> EntryOf(n, r) in s
    {
      ViewAt(s, n, r);
    }
  }

  lemma ViewIs(s: seq<Entry>, v: map<Name, Reg>)
    requires Sorted(s) && Stands(s, v)
    ensures View(s) == v
  {
    ViewStands(s);
    hide View, Sorted;
    SameItems(View(s), v);
  }

  lemma SameItems(u: map<Name, Reg>, v: map<Name, Reg>)
    requires forall n, r :: Item(u, n, r) <==> Item(v, n, r)
    ensures u == v
  {
    forall n: Name
      ensures n in u <==> n in v
      ensures n in v ==> u[n] == v[n]
    {
      if n in v {
        assert Item(v, n, v[n]) && Item(u, n, v[n]);
      }
      if n in u {
        assert Item(u, n, u[n]) && Item(v, n, u[n]);
      }
    }
  }

  lemma EntryRoundTrip(e: Entry)
    ensures EntryOf(e.name, RegOf(e)) == e
  {
  }

  /** A sorted array is determined by the map. */
  lemma {:induction false} SortedCanonical(s: seq<Entry>, t: seq<Entry>)
    requires Sorted(s) && Sorted(t) && View(s) == View(t)
    ensures s == t
    decreases |s|
  {
    SameEntries(s, t);
    EmptyTogether(s, t);
    if s != [] {
      var a, b := s[|s| - 1], t[|t| - 1];
      assert a in t && b in s;
      LastIsMax(s, b);
      LastIsMax(t, a);
      CompareOrder(a.name, b.name);
      CompareOrder(b.name, a.name);
      assert a == b;
      FrontView(s);
      FrontView(t);
      SortedCanonical(s[..|s| - 1], t[..|t| - 1]);
    }
  }

  lemma EmptyTogether(s: seq<Entry>, t: seq<Entry>)
    requires forall e :: e in s <==> e in t
    ensures s == [] <==> t == []
  {
    if s != [] {
      assert s[0] in t;
    }
    if t != [] {
      assert t[0] in s;
    }
  }

  lemma SameEntries(s: seq<Entry>, t: seq<Entry>)
    requires Sorted(s) && Sorted(t) && View(s) == View(t)
    ensures forall e :: e in s <==> e in t
  {
    forall e: Entry
      ensures e in s <==> e in t
    {
      EntryRoundTrip(e);
      ViewAt(s, e.name, RegOf(e));
      ViewAt(t, e.name, RegOf(e));
    }
  }

  lemma LastIsMax(s: seq<Entry>, e: Entry)
    requires Sorted(s) && e in s
    ensures e == s[|s| - 1] || Compare(e.name, s[|s| - 1].name) < 0
  {
  }

  lemma FrontView(s: seq<Entry>)
    requires Sorted(s) && s != []
    ensures View(s[..|s| - 1]) == View(s) - {s[|s| - 1].name}
  {
    RemoveView(s, |s| - 1);
    assert s[..|s| - 1] + s[|s|..] == s[..|s| - 1];
  }

  lemma HasIff(s: seq<Entry>, n: Name)
    ensures Has(s, n) <==> n in View(s)
  {
    ViewHas(s, n);
  }

  lemma InsertEntry(s: seq<Entry>, i: nat, e: Entry, x: Entry)
    requires i <= |s|
    ensures x in s[..i] + [e] + s[i..] <==> x in s || x == e
  {
    assert s == s[..i] + s[i..];
  }

  predicate Between(s: seq<Entry>, i: nat, n: Name) {
    && i <= |s|
    && (forall k :: 0 <= k < i ==> Compare(s[k].name, n) < 0)
    && (forall k :: i <= k < |s| ==> Compare(n, s[k].name) < 0)
  }

  lemma InsertSorted(s: seq<Entry>, i: nat, e: Entry)
    requires Sorted(s) && Between(s, i, e.name)
    ensures Sorted(s[..i] + [e] + s[i..]) && !Has(s, e.name)
  {
    var t := s[..i] + [e] + s[i..];
    assert forall k :: 0 <= k < |t| ==> t[k] == if k < i then s[k] else if k == i then e else s[k - 1];
    forall k | 0 <= k < |s|
      ensures s[k].name != e.name
    {
      CompareOrder(s[k].name, e.name);
      CompareOrder(e.name, s[k].name);
    }
  }

  // The array with an entry put in before i.
  lemma InsertView(s: seq<Entry>, i: nat, e: Entry)
    requires Sorted(s) && Between(s, i, e.name)
    ensures Sorted(s[..i] + [e] + s[i..]) && View(s[..i] + [e] + s[i..]) == View(s)[e.name := RegOf(e)]
  {
    InsertSorted(s, i, e);
    ViewStands(s);
    HasIff(s, e.name);
    hide View, Sorted, Has, Between;
    var t, v := s[..i] + [e] + s[i..], View(s);
    forall n, r
      ensures Item(v[e.name := RegOf(e)], n, r) <==> EntryOf(n, r) in t
    {
      InsertEntry(s, i, e, EntryOf(n, r));
      assert Item(v, n, r) <==> EntryOf(n, r) in s;
    }
    ViewIs(t, v[e.name := RegOf(e)]);
  }

  lemma RemoveSorted(s: seq<Entry>, i: nat)
    requires Sorted(s) && i < |s|
    ensures Sorted(s[..i] + s[i + 1..])
  {
    var t := s[..i] + s[i + 1..];
    assert forall k :: 0 <= k < |t| ==> t[k] == if k < i then s[k] else s[k + 1];
  }

  // The array without the entry at i.
  lemma RemoveView(s: seq<Entry>, i: nat)
    requires Sorted(s) && i < |s|
    ensures Sorted(s[..i] + s[i + 1..]) && View(s[..i] + s[i + 1..]) == View(s) - {s[i].name}
  {
    hide View, Sorted;
    RemoveSorted(s, i);
    ViewStands(s);
    var t, v := s[..i] + s[i + 1..], View(s);
    forall n, r
      ensures Item(v - {s[i].name}, n, r) <==> EntryOf(n, r) in t
    {
      RemoveEntry(s, i, EntryOf(n, r));
      assert Item(v, n, r) <==> EntryOf(n, r) in s;
    }
    ViewIs(t, v - {s[i].name});
  }

  lemma RemoveEntry(s: seq<Entry>, i: nat, e: Entry)
    requires Sorted(s) && i < |s|
    ensures e in s[..i] + s[i + 1..] <==> e in s && e.name != s[i].name
  {
    hide *;
    if e in s && e.name != s[i].name {
      OthersRemain(s, i, e);
    }
    if e in s[..i] + s[i + 1..] {
      var j := WasElsewhere(s, i, e);
      if e.name == s[i].name {
        SortedUnique(s, i, j);
      }
    }
  }

  lemma OthersRemain(s: seq<Entry>, i: nat, e: Entry)
    requires i < |s| && e in s && e != s[i]
    ensures e in s[..i] + s[i + 1..]
  {
    var t := s[..i] + s[i + 1..];
    var j :| 0 <= j < |s| && s[j] == e;
    assert t[if j < i then j else j - 1] == e;
  }

  lemma WasElsewhere(s: seq<Entry>, i: nat, e: Entry) returns (j: nat)
    requires i < |s| && e in s[..i] + s[i + 1..]
    ensures j < |s| && j != i && s[j] == e
  {
    var t := s[..i] + s[i + 1..];
    var k :| 0 <= k < |t| && t[k] == e;
    j := if k < i then k else k + 1;
  }

  // The array with the entry at i changed, but not its name.
  lemma ReplaceView(s: seq<Entry>, i: nat, e: Entry)
    requires Sorted(s) && i < |s| && e.name == s[i].name
    ensures Sorted(s[i := e]) && View(s[i := e]) == View(s)[e.name := RegOf(e)]
  {
    var t, v := s[i := e], View(s);
    assert forall k :: 0 <= k < |t| ==> t[k].name == s[k].name;
    ViewStands(s);
    forall n, r
      ensures Item(v[e.name := RegOf(e)], n, r) <==> EntryOf(n, r) in t
    {
      hide View, Sorted;
      ReplaceEntry(s, i, e, EntryOf(n, r));
      assert Item(v, n, r) <==> EntryOf(n, r) in s;
    }
    ViewIs(t, v[e.name := RegOf(e)]);
  }

  lemma ReplaceEntry(s: seq<Entry>, i: nat, e: Entry, x: Entry)
    requires Sorted(s) && i < |s| && e.name == s[i].name
    ensures x in s[i := e] <==> x == e || (x in s && x.name != e.name)
  {
    var t := s[i := e];
    assert t[i] == e;
    if x in s && x.name != e.name {
      var j :| 0 <= j < |s| && s[j] == x;
      assert t[j] == x;
    }
    if x in t && x != e {
      var j :| 0 <= j < |t| && t[j] == x;
      assert s[j] == x;
      if x.name == e.name {
        SortedUnique(s, i, j);
      }
    }
  }
}
