/** The reply to NAMES: its bytes, and how the client walks them. */
module NameList {
  import opened Wrappers
  import opened Bytes
  import opened NameMap

  // A name with its length and type before it.
  function Record(e: Entry): seq<Byte> {
    [|e.name|, TypeOf(e)] + e.name
  }

  function Records(s: seq<Entry>): seq<Byte> {
    if s == [] then [] else Records(s[..|s| - 1]) + Record(s[|s| - 1])
  }

  function Total(s: seq<Entry>): (n: nat)
    ensures n == |Records(s)|
  {
    if s == [] then 0 else Total(s[..|s| - 1]) + 2 + |s[|s| - 1].name|
  }

  /** The bytes of the reply to NAMES. */
  function NamesBytes(s: seq<Entry>): seq<Byte>
    requires Total(s) < 0x8000_0000
  {
    Htonl(Total(s)) + Records(s)
  }

  lemma RecordsNext(s: seq<Entry>, i: nat)
    requires i < |s|
    ensures Records(s[..i + 1]) == Records(s[..i]) + Record(s[i])
  {
    assert s[..i + 1][..i] == s[..i];
  }

  lemma {:induction false} RecordsSplit(s: seq<Entry>, t: seq<Entry>)
    ensures Records(s + t) == Records(s) + Records(t)
    decreases |t|
  {
    if t == [] {
      assert s + t == s;
    } else {
      assert (s + t)[..|s + t| - 1] == s + t[..|t| - 1];
      RecordsSplit(s, t[..|t| - 1]);
    }
  }

  lemma RecordsFit(s: seq<Entry>, i: nat)
    requires i < |s|
    ensures |Records(s[..i])| + 2 + |s[i].name| <= Total(s)
  {
    RecordsNext(s, i);
    RecordsSplit(s[..i + 1], s[i + 1..]);
    assert s == s[..i + 1] + s[i + 1..];
  }

  // One record written at ptr (Tools/gdomap.c:3163-3166).
  method PutRecord(buf: array<Byte>, ptr: nat, e: Entry) returns (next: nat)
    requires ptr + 2 + |e.name| <= buf.Length
    modifies buf
    ensures next == ptr + 2 + |e.name| && buf[..next] == old(buf[..ptr]) + Record(e)
  {
    buf[ptr] := |e.name|;
    buf[ptr + 1] := TypeOf(e);
    for i := 0 to |e.name|
      invariant buf[..ptr + 2 + i] == old(buf[..ptr]) + [|e.name|, TypeOf(e)] + e.name[..i]
    {
      buf[ptr + 2 + i] := e.name[i];
    }
    next := ptr + 2 + |e.name|;
    assert e.name[..|e.name|] == e.name;
  }

  method SizeOf(s: seq<Entry>) returns (bytes: nat)
    ensures bytes == Total(s)
  {
    bytes := 0;
    for i := 0 to |s|
      invariant bytes == Total(s[..i])
    {
      assert s[..i + 1][..i] == s[..i];
      bytes := bytes + 2 + |s[i].name|;
    }
    assert s[..|s|] == s;
  }

  method PutRecords(buf: array<Byte>, s: seq<Entry>)
    requires buf.Length == 4 + Total(s)
    modifies buf
    ensures buf[..] == old(buf[..4]) + Records(s)
  {
    hide Records, Record, Total;
    ghost var w := buf[..4];
    var ptr: nat := 4;
    NoRecords();
    for i := 0 to |s|
      invariant ptr == 4 + |Records(s[..i])| <= buf.Length
      invariant buf[..ptr] == w + Records(s[..i])
    {
      RecordsFit(s, i);
      RecordsNext(s, i);
      RecordLength(s[i]);
      ptr := PutRecord(buf, ptr, s[i]);
    }
    assert s[..|s|] == s && buf[..ptr] == buf[..];
  }

  lemma NoRecords()
    ensures Records([]) == []
  {
  }

  lemma RecordLength(e: Entry)
    ensures |Record(e)| == 2 + |e.name|
  {
  }

  /** The reply is filled exactly: a count of bytes, and that many bytes of records
      (Tools/gdomap.c:3139-3169). */
  method NamesReply(s: seq<Entry>) returns (buf: array<Byte>)
    requires Total(s) < 0x8000_0000
    ensures fresh(buf) && buf[..] == NamesBytes(s)
  {
    var bytes := SizeOf(s);
    var w := Htonl(bytes);
    buf := new Byte[4 + bytes](_ => 0);
    buf[0], buf[1], buf[2], buf[3] := w[0], w[1], w[2], w[3];
    assert buf[..4] == w;
    PutRecords(buf, s);
  }

  // The positions the client's walk stops at, from p on.
  function Visited(b: seq<Byte>, p: nat): seq<nat>
    decreases |b| - p
  {
    if p >= |b| then [] else [p] + Visited(b, p + 2 + b[p])
  }

  // The whole record at p is there.
  predicate Whole(b: seq<Byte>, p: nat) {
    p + 2 <= |b| && p + 2 + b[p] <= |b|
  }

  function NameAt(b: seq<Byte>, p: nat): Name
    requires Whole(b, p)
  {
    b[p + 2..p + 2 + b[p]]
  }

  /** The client counts the records by walking from length to length; too many count as
      none (Tools/gdomap.c:3944-3964). */
  method CountNames(b: seq<Byte>) returns (num: nat)
    ensures num == if |Visited(b, 0)| < 0x1_0000 then |Visited(b, 0)| else 0
  {
    var ptr: nat, port: nat := 0, 0;
    while ptr < |b|
      invariant |Visited(b, 0)| == port + |Visited(b, ptr)|
      decreases |b| - ptr
    {
      ptr := ptr + 2 + b[ptr];
      port := port + 1;
    }
    return if port % 0x1_0000 != port then 0 else port;
  }

  /** The client lists the names on a second walk (Tools/gdomap.c:4383-4396). */
  method ListNames(b: seq<Byte>, num: nat) returns (names: seq<Name>)
    requires num <= |Visited(b, 0)| && forall k :: 0 <= k < num ==> Whole(b, Visited(b, 0)[k])
    ensures |names| == num && forall k :: 0 <= k < num ==> names[k] == NameAt(b, Visited(b, 0)[k])
  {
    ghost var v := Visited(b, 0);
    var p: nat, left: nat := 0, num;
    names := [];
    while left > 0
      invariant 0 <= left <= num && |names| == num - left && v[num - left..] == Visited(b, p)
      invariant forall k :: 0 <= k < num - left ==> names[k] == NameAt(b, v[k])
    {
      ghost var k := num - left;
      assert v[k..][0] == p && v[k] == p;
      assert v[k..][1..] == v[k + 1..];
      assert Whole(b, v[k]);
      names := names + [b[p + 2..p + 2 + b[p]]];
      p := p + 2 + b[p];
      left := left - 1;
    }
  }

  // Where the k-th record begins.
  function Offset(s: seq<Entry>, k: nat): nat
    requires k <= |s|
  {
    Total(s[..k])
  }

  predicate Recovered(b: seq<Byte>, p: nat, e: Entry) {
    Whole(b, p) && NameAt(b, p) == e.name && b[p + 1] == TypeOf(e)
  }

  lemma RecordInside(a: seq<Byte>, e: Entry, c: seq<Byte>)
    ensures Recovered(a + Record(e) + c, |a|, e)
  {
    var b := a + Record(e) + c;
    assert b[|a|] == |e.name| && b[|a| + 1] == TypeOf(e);
    assert b[|a| + 2..|a| + 2 + |e.name|] == e.name;
  }

  lemma RecordsAround(s: seq<Entry>, k: nat)
    requires k < |s|
    ensures Records(s) == Records(s[..k]) + Record(s[k]) + Records(s[k + 1..])
    ensures Offset(s, k) == |Records(s[..k])| && Offset(s, k + 1) == Offset(s, k) + 2 + |s[k].name|
  {
    hide *;
    RecordsNext(s, k);
    RecordsSplit(s[..k + 1], s[k + 1..]);
    RecordLength(s[k]);
    OffsetIs(s, k);
    OffsetIs(s, k + 1);
    assert s == s[..k + 1] + s[k + 1..];
  }

  lemma OffsetIs(s: seq<Entry>, k: nat)
    requires k <= |s|
    ensures Offset(s, k) == |Records(s[..k])|
  {
    hide Records;
  }

  lemma RecordAt(s: seq<Entry>, k: nat)
    requires k < |s|
    ensures Recovered(Records(s), Offset(s, k), s[k]) && Offset(s, k + 1) == Offset(s, k) + 2 + |s[k].name|
  {
    hide *;
    RecordsAround(s, k);
    RecordInside(Records(s[..k]), s[k], Records(s[k + 1..]));
  }

  lemma VisitNext(b: seq<Byte>, p: nat, e: Entry)
    requires Recovered(b, p, e)
    ensures Visited(b, p) == [p] + Visited(b, p + 2 + |e.name|)
  {
  }

  lemma VisitedEnd(s: seq<Entry>)
    ensures Visited(Records(s), Offset(s, |s|)) == []
  {
    assert s[..|s|] == s;
  }

  // The positions of the records from the k-th on.
  function Offsets(s: seq<Entry>, k: nat): (o: seq<nat>)
    requires k <= |s|
    ensures |o| == |s| - k && forall j :: 0 <= j < |o| ==> o[j] == Offset(s, k + j)
    decreases |s| - k
  {
    if k == |s| then [] else [Offset(s, k)] + Offsets(s, k + 1)
  }

  lemma OffsetsNext(s: seq<Entry>, k: nat)
    requires k < |s|
    ensures Offsets(s, k) == [Offset(s, k)] + Offsets(s, k + 1)
  {
  }

  lemma {:induction false} VisitedFrom(s: seq<Entry>, k: nat)
    requires k <= |s|
    ensures Visited(Records(s), Offset(s, k)) == Offsets(s, k)
    decreases |s| - k
  {
    hide *;
    if k == |s| {
      VisitedEnd(s);
    } else {
      RecordAt(s, k);
      VisitNext(Records(s), Offset(s, k), s[k]);
      VisitedFrom(s, k + 1);
      OffsetsNext(s, k);
    }
  }

  /** The walk visits as many places as there are names, and finds each name and its
      type there, in order. */
  lemma WalkRecovers(s: seq<Entry>)
    ensures |Visited(Records(s), 0)| == |s|
    ensures forall k :: 0 <= k < |s| ==> Recovered(Records(s), Visited(Records(s), 0)[k], s[k])
  {
    hide *;
    VisitedFrom(s, 0);
    OffsetFirst(s);
    forall k | 0 <= k < |s|
      ensures Recovered(Records(s), Visited(Records(s), 0)[k], s[k])
    {
      RecordAt(s, k);
    }
  }

  lemma OffsetFirst(s: seq<Entry>)
    ensures Offset(s, 0) == 0
  {
  }

  /** From the server's array to what the client shows (Tools/gdomap.c:3864-3964,
      4368-4396): it gives up if the records are more than 10000000 bytes; otherwise it
      shows all the names in order if there are fewer than 65536, and none if not. */
  method NamesShown(s: seq<Entry>) returns (names: Option<seq<Name>>)
    requires Total(s) < 0x8000_0000
    ensures names.None? <==> Total(s) > 10000000
    ensures names.Some? ==> |names.value| == if |s| < 0x1_0000 then |s| else 0
    ensures names.Some? ==> forall k :: 0 <= k < |names.value| ==> names.value[k] == s[k].name
  {
    var buf := NamesReply(s);
    var len := Ntohl(buf[..4]);
    assert buf[..4] == Htonl(Total(s));
    WordRoundTrip(Total(s));
    if len > 0xffff && len > 10000000 {
      return None;
    }
    var b := buf[4..4 + len];
    assert b == Records(s);
    WalkRecovers(s);
    var num := CountNames(b);
    var list := ListNames(b, num);
    names := Some(list);
  }
}
