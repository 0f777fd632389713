/** The name map in its array, and the requests that read and change it. */
module NameTable {
  import opened Wrappers
  import opened Bytes
  import opened Shifting
  import opened NameMap

  /** REGISTER (Tools/gdomap.c:2829-2931) on the finite map. Whether the port of an
      entry can be bound is the system's to say. */
  function Registered(v: map<Name, Reg>, n: Name, port: Word, t: PortType, canBind: bool): (map<Name, Reg>, Word) {
    if n in v && v[n].port == port then (v, port)
    else if n in v then (if canBind then (v[n := Reg(port, Net(t), Svc(t))], port) else (v, 0))
    else if port == 0 then (v, 0)
    else (v[n := Reg(port, Net(t), Svc(t))], port)
  }

  /** LOOKUP (Tools/gdomap.c:2935-3047). */
  function LookedUp(v: map<Name, Reg>, n: Name, t: PortType, canBind: bool): (map<Name, Reg>, Word) {
    if n !in v || !OfType(v[n], t) then (v, 0)
    else if canBind then (v - {n}, 0)
    else (v, v[n].port)
  }

  /** UNREG of a name (Tools/gdomap.c:3061-3089). */
  function NameUnregistered(v: map<Name, Reg>, n: Name, t: PortType): (map<Name, Reg>, Word) {
    if n !in v || !OfType(v[n], t) then (v, 0) else (v - {n}, v[n].port)
  }

  /** UNREG of a port (Tools/gdomap.c:3092-3098). */
  function PortUnregistered(v: map<Name, Reg>, port: Word, t: PortType): (map<Name, Reg>, Word) {
    (map n | n in v && !(v[n].port == port && OfType(v[n], t)) :: v[n],
     if exists n :: n in v && v[n].port == port && OfType(v[n], t) then port else 0)
  }

  function Unregistered(v: map<Name, Reg>, n: Name, port: Word, t: PortType): (map<Name, Reg>, Word) {
    if port == 0 || |n| > 0 then NameUnregistered(v, n, t) else PortUnregistered(v, port, t)
  }

  predicate OfType(r: Reg, t: PortType) {
    r.net as int + r.svc == t
  }

  // The entries with that port and type.
  predicate Matching(e: Entry, port: Word, t: PortType) {
    e.port == port && TypeOf(e) == t
  }

  /** The others, in order. */
  function Others(s: seq<Entry>, port: Word, t: PortType): seq<Entry> {
    if s == [] then []
    else if Matching(s[|s| - 1], port, t) then Others(s[..|s| - 1], port, t)
    else Others(s[..|s| - 1], port, t) + [s[|s| - 1]]
  }

  lemma {:induction false} OthersMembers(s: seq<Entry>, port: Word, t: PortType)
    ensures forall e :: e in Others(s, port, t) <==> e in s && !Matching(e, port, t)
    decreases |s|
  {
    if s != [] {
      OthersMembers(s[..|s| - 1], port, t);
      assert s == s[..|s| - 1] + [s[|s| - 1]];
    }
  }

  lemma {:induction false} OthersRemove(s: seq<Entry>, i: nat, port: Word, t: PortType)
    requires i < |s| && Matching(s[i], port, t)
    ensures Others(s[..i] + s[i + 1..], port, t) == Others(s, port, t)
    decreases |s|
  {
    hide Matching;
    var n := |s| - 1;
    if i == n {
      assert s[..i] + s[i + 1..] == s[..n];
    } else {
      var r := s[..i] + s[i + 1..];
      assert r[|r| - 1] == s[n];
      assert r[..|r| - 1] == s[..n][..i] + s[..n][i + 1..];
      OthersRemove(s[..n], i, port, t);
    }
  }

  lemma {:induction false} OthersAll(s: seq<Entry>, port: Word, t: PortType)
    requires forall i :: 0 <= i < |s| ==> !Matching(s[i], port, t)
    ensures Others(s, port, t) == s
    decreases |s|
  {
    if s != [] {
      OthersAll(s[..|s| - 1], port, t);
    }
  }

  lemma {:induction false} OthersSorted(s: seq<Entry>, port: Word, t: PortType)
    requires Sorted(s)
    ensures Sorted(Others(s, port, t))
    decreases |s|
  {
    if s != [] {
      var front := s[..|s| - 1];
      OthersSorted(front, port, t);
      OthersMembers(front, port, t);
      var r := Others(front, port, t);
      forall i | 0 <= i < |r|
        ensures Compare(r[i].name, s[|s| - 1].name) < 0
      {
        assert r[i] in front;
      }
    }
  }

  // The others stand for the map without the items of that port and type.
  lemma OthersView(s: seq<Entry>, port: Word, t: PortType)
    requires Sorted(s)
    ensures Sorted(Others(s, port, t)) && View(Others(s, port, t)) == PortUnregistered(View(s), port, t).0
    ensures PortUnregistered(View(s), port, t).1 == if exists e :: e in s && Matching(e, port, t) then port else 0
  {
    OthersSorted(s, port, t);
    OthersMembers(s, port, t);
    ViewStands(s);
    hide View, Sorted, Others;
    var r, v := Others(s, port, t), View(s);
    var w := PortUnregistered(v, port, t).0;
    forall n, g
      ensures Item(w, n, g) <==> EntryOf(n, g) in r
    {
      assert Item(v, n, g) <==> EntryOf(n, g) in s;
    }
    ViewIs(r, w);
    SomeMatching(s, v, port, t);
  }

  lemma SomeMatching(s: seq<Entry>, v: map<Name, Reg>, port: Word, t: PortType)
    requires Stands(s, v)
    ensures (exists n :: n in v && v[n].port == port && OfType(v[n], t)) <==> exists e :: e in s && Matching(e, port, t)
  {
    forall e | e in s && Matching(e, port, t)
      ensures e.name in v && v[e.name].port == port && OfType(v[e.name], t)
    {
      EntryRoundTrip(e);
      assert Item(v, e.name, RegOf(e));
    }
    forall n | n in v && v[n].port == port && OfType(v[n], t)
      ensures EntryOf(n, v[n]) in s && Matching(EntryOf(n, v[n]), port, t)
    {
      assert Item(v, n, v[n]);
    }
  }

  // The names before i are smaller than n; those from i on are greater.
  predicate BeforeAll(s: seq<Entry>, i: nat, n: Name) {
    i <= |s| && forall k :: 0 <= k < i ==> Compare(s[k].name, n) < 0
  }

  predicate AfterAll(s: seq<Entry>, i: nat, n: Name) {
    i <= |s| && forall k :: i <= k < |s| ==> Compare(n, s[k].name) < 0
  }

  lemma AllBefore(s: seq<Entry>, i: nat, n: Name)
    requires Sorted(s) && i < |s| && Compare(s[i].name, n) < 0
    ensures BeforeAll(s, i + 1, n)
  {
    forall k | 0 <= k < i
      ensures Compare(s[k].name, n) < 0
    {
      CompareTransitive(s[k].name, s[i].name, n);
    }
  }

  lemma AllAfter(s: seq<Entry>, i: nat, n: Name)
    requires Sorted(s) && i < |s| && Compare(s[i].name, n) > 0
    ensures AfterAll(s, i, n)
  {
    CompareOrder(n, s[i].name);
    forall k | i < k < |s|
      ensures Compare(n, s[k].name) < 0
    {
      CompareTransitive(n, s[i].name, s[k].name);
    }
  }

  lemma Absent(s: seq<Entry>, i: nat, n: Name)
    requires BeforeAll(s, i, n) && AfterAll(s, i, n)
    ensures !Has(s, n) && Between(s, i, n)
  {
    CompareOrder(n, n);
  }

  lemma FoundIs(s: seq<Entry>, i: nat)
    requires Sorted(s) && i < |s|
    ensures s[i].name in View(s) && View(s)[s[i].name] == RegOf(s[i])
  {
    EntryRoundTrip(s[i]);
    ViewAt(s, s[i].name, RegOf(s[i]));
  }

  lemma PlaceIn(s: seq<Entry>, i: nat, n: Name)
    requires Between(s, i, n)
    ensures i <= |s|
  {
  }

  // Part way through removing the entries with that port and type.
  ghost predicate Removing(s0: seq<Entry>, s: seq<Entry>, answer: Word, port: Word, t: PortType) {
    && Others(s, port, t) == Others(s0, port, t)
    && ((answer == 0 && s == s0) || (answer == port && exists e :: e in s0 && Matching(e, port, t)))
  }

  lemma RemovingNone(s: seq<Entry>, port: Word, t: PortType)
    ensures Removing(s, s, 0, port, t)
  {
  }

  lemma RemoveOne(s0: seq<Entry>, s: seq<Entry>, i: nat, answer: Word, port: Word, t: PortType)
    requires i < |s| && Matching(s[i], port, t) && Removing(s0, s, answer, port, t)
    ensures s[i].port == port && Removing(s0, s[..i] + s[i + 1..], s[i].port, port, t)
  {
    OthersRemove(s, i, port, t);
    if s == s0 {
      assert s[i] in s0;
    }
  }

  lemma RemovedAll(s0: seq<Entry>, s: seq<Entry>, answer: Word, port: Word, t: PortType)
    requires Sorted(s0) && Removing(s0, s, answer, port, t)
    requires forall i :: 0 <= i < |s| ==> !Matching(s[i], port, t)
    ensures s == Others(s0, port, t) && (View(s), answer) == PortUnregistered(View(s0), port, t)
  {
    OthersAll(s, port, t);
    OthersView(s0, port, t);
  }

  class NameArray {
    var entries: array<Entry>
    var used: nat

    predicate Valid()
      reads this, entries
    {
      used <= entries.Length && Sorted(entries[..used])
    }

    function Entries(): seq<Entry>
      requires Valid()
      reads this, entries
    {
      entries[..used]
    }

    constructor ()
      ensures Valid() && fresh(entries) && Entries() == []
    {
      entries, used := new Entry[0], 0;
    }

    /** map_by_name (Tools/gdomap.c:785-830): binary search. */
    method ByName(n: Name) returns (m: Option<nat>)
      requires Valid()
      ensures m.None? <==> !Has(Entries(), n)
      ensures m.Some? ==> m.value < used && Entries()[m.value].name == n
    {
      ghost var s := Entries();
      var lower, upper := 0, used;
      var index := upper / 2;
      while upper != lower
        invariant 0 <= lower <= upper <= used && index == lower + (upper - lower) / 2
        invariant BeforeAll(s, lower, n) && AfterAll(s, upper, n)
        decreases upper - lower
      {
        var i := Compare(entries[index].name, n);
        if i < 0 {
          AllBefore(s, index, n);
          lower := index + 1;
        } else if i > 0 {
          AllAfter(s, index, n);
          upper := index;
        } else {
          break;
        }
        index := lower + (upper - lower) / 2;
      }
      if index < used {
        CompareOrder(entries[index].name, n);
        if Compare(entries[index].name, n) == 0 {
          assert s[index].name == n;
          return Some(index);
        }
      }
      Absent(s, lower, n);
      return None;
    }

    /** map_by_port (Tools/gdomap.c:836-871): the first entry with that port and type. */
    method ByPort(port: Word, t: PortType) returns (m: Option<nat>)
      requires Valid()
      ensures match m
              case None => forall k :: 0 <= k < used ==> !Matching(Entries()[k], port, t)
              case Some(i) => i < used && Matching(Entries()[i], port, t)
                              && forall k :: 0 <= k < i ==> !Matching(Entries()[k], port, t)
    {
      var index := 0;
      while index < used && !Matching(entries[index], port, t)
        invariant index <= used && forall k :: 0 <= k < index ==> !Matching(Entries()[k], port, t)
      {
        index := index + 1;
      }
      return if index < used then Some(index) else None;
    }

    // Room for one more (Tools/gdomap.c:736-752).
    method Grow()
      requires Valid()
      modifies this
      ensures Valid() && Entries() == old(Entries()) && used < entries.Length
      ensures entries == old(entries) || fresh(entries)
    {
      if used == entries.Length {
        var more := new Entry[used + 16](i => Entry([], 0, 0x10, 0x01));
        for i := 0 to used
          invariant more[..i] == entries[..i] && Valid() && used == old(used) && entries == old(entries)
          invariant entries[..used] == old(entries[..used])
          modifies more
        {
          more[i] := entries[i];
        }
        entries := more;
      }
    }

    // The place of a name that is not there (the search at Tools/gdomap.c:753-769).
    method Place(n: Name) returns (i: nat)
      requires Valid() && !Has(Entries(), n)
      ensures Between(Entries(), i, n)
    {
      ghost var s := Entries();
      i := 0;
      while i < used && Compare(entries[i].name, n) <= 0
        invariant i <= used && BeforeAll(s, i, n)
      {
        assert s[i].name == entries[i].name;
        CompareOrder(s[i].name, n);
        i := i + 1;
      }
      if i < used {
        AllAfter(s, i, n);
      }
      Absent(s, i, n);
    }

    /** map_add (Tools/gdomap.c:712-779). */
    method Add(n: Name, port: Word, t: PortType)
      requires Valid() && !Has(Entries(), n)
      modifies this, entries
      ensures Valid() && View(Entries()) == View(old(Entries()))[n := Reg(port, Net(t), Svc(t))]
      ensures entries == old(entries) || fresh(entries)
    {
      hide View, Sorted, Has, Between;
      ghost var s := Entries();
      var m := Entry(n, port, Net(t), Svc(t));
      Grow();
      var i := Place(n);
      InsertView(s, i, m);
      PlaceIn(s, i, n);
      ShiftUp(entries, i, used);
      entries[i] := m;
      used := used + 1;
      assert entries[..used] == entries[..i] + [m] + entries[i + 1..used];
      assert entries[..used] == s[..i] + [m] + s[i..];
    }

    /** map_del (Tools/gdomap.c:878-905). */
    method Del(m: nat)
      requires Valid() && m < used
      modifies this, entries
      ensures Valid() && entries == old(entries)
      ensures Entries() == old(Entries()[..m]) + old(Entries()[m + 1..])
      ensures View(Entries()) == View(old(Entries())) - {old(Entries()[m].name)}
    {
      hide View, Sorted;
      ghost var s := Entries();
      RemoveView(s, m);
      ShiftDown(entries, m, used);
      used := used - 1;
      assert entries[..used] == s[..m] + s[m + 1..];
    }

    /** REGISTER does to the array what it does to the map, and gives that answer. */
    method Register(n: Name, port: Word, t: PortType, canBind: bool) returns (answer: Word)
      requires Valid()
      modifies this, entries
      ensures Valid() && (entries == old(entries) || fresh(entries))
      ensures (View(Entries()), answer) == Registered(View(old(Entries())), n, port, t, canBind)
    {
      answer := 0;
      ghost var s := Entries();
      var m := ByName(n);
      HasIff(s, n);
      if m.Some? {
        FoundIs(s, m.value);
        if port == entries[m.value].port {
          answer := port;
        } else if canBind {
          ReplaceView(s, m.value, Entry(n, port, Net(t), Svc(t)));
          entries[m.value] := Entry(n, port, Net(t), Svc(t));
          assert entries[..used] == s[m.value := Entry(n, port, Net(t), Svc(t))];
          answer := port;
        }
      } else if port == 0 {
        answer := 0;
      } else {
        Add(n, port, t);
        answer := port;
      }
    }

    /** LOOKUP: only an entry whose port could be bound is removed. */
    method Lookup(n: Name, t: PortType, canBind: bool) returns (answer: Word)
      requires Valid()
      modifies this, entries
      ensures Valid() && entries == old(entries)
      ensures (View(Entries()), answer) == LookedUp(View(old(Entries())), n, t, canBind)
    {
      answer := 0;
      ghost var s := Entries();
      var m := ByName(n);
      HasIff(s, n);
      if m.Some? {
        FoundIs(s, m.value);
        if TypeOf(entries[m.value]) == t {
          if canBind {
            Del(m.value);
          } else {
            answer := entries[m.value].port;
          }
        }
      }
    }

    /** UNREG, by name or by port; by port the others are kept in order. */
    method Unregister(n: Name, port: Word, t: PortType) returns (answer: Word)
      requires Valid()
      modifies this, entries
      ensures Valid() && entries == old(entries)
      ensures (View(Entries()), answer) == Unregistered(View(old(Entries())), n, port, t)
      ensures port != 0 && |n| == 0 ==> Entries() == Others(old(Entries()), port, t)
    {
      if port == 0 || |n| > 0 {
        answer := UnregisterName(n, t);
      } else {
        answer := UnregisterPort(port, t);
      }
    }

    method UnregisterName(n: Name, t: PortType) returns (answer: Word)
      requires Valid()
      modifies this, entries
      ensures Valid() && entries == old(entries)
      ensures (View(Entries()), answer) == NameUnregistered(View(old(Entries())), n, t)
    {
      answer := 0;
      ghost var s := Entries();
      var m := ByName(n);
      HasIff(s, n);
      if m.Some? {
        FoundIs(s, m.value);
        if TypeOf(entries[m.value]) == t {
          answer := entries[m.value].port;
          Del(m.value);
        }
      }
    }

    method UnregisterPort(port: Word, t: PortType) returns (answer: Word)
      requires Valid()
      modifies this, entries
      ensures Valid() && entries == old(entries)
      ensures Entries() == Others(old(Entries()), port, t)
      ensures (View(Entries()), answer) == PortUnregistered(View(old(Entries())), port, t)
    {
      ghost var s0 := Entries();
      hide Sorted, View, Others, Matching, PortUnregistered, Removing;
      answer := 0;
      RemovingNone(s0, port, t);
      var m := ByPort(port, t);
      while m.Some?
        invariant Valid() && entries == old(entries)
        invariant Removing(s0, Entries(), answer, port, t)
        invariant m.None? ==> forall k :: 0 <= k < used ==> !Matching(Entries()[k], port, t)
        invariant m.Some? ==> 0 <= m.value < used && Matching(Entries()[m.value], port, t)
        decreases used
      {
        RemoveOne(s0, Entries(), m.value, answer, port, t);
        answer := entries[m.value].port;
        Del(m.value);
        m := ByPort(port, t);
      }
      RemovedAll(s0, Entries(), answer, port, t);
    }
  }
}
