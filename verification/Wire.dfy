/** What is on the wire, byte by byte: requests, and replies to them. */
module Wire {
  import opened Wrappers
  import opened Bytes
  import opened NameMap
  import opened NameRuns
  import opened NameAnswers
  import opened NameList
  import opened Peers
  import opened Requests

  // Four bytes, the greatest place first.
  function Number(b: seq<Byte>, i: nat): int
    requires i + 4 <= |b|
  {
    0x100_0000 * (b[i] as int) + 0x1_0000 * (b[i + 1] as int) + 0x100 * (b[i + 2] as int) + b[i + 3]
  }

  lemma NumberIs(b: seq<Byte>, i: nat)
    requires i + 4 <= |b|
    ensures Ntohl(b[i..i + 4]) == Number(b, i)
  {
  }

  lemma Sent(w: Word, b: seq<Byte>, i: nat)
    requires i + 4 <= |b| && b[i..i + 4] == Htonl(w)
    ensures Number(b, i) == w
  {
    WordRoundTrip(w);
    NumberIs(b, i);
  }

  // The four types of port, and the types that may go without one.
  predicate Typed(b: seq<Byte>)
    requires |b| == 264
  {
    b[2] == 0x11 || b[2] == 0x12 || b[2] == 0x21 || b[2] == 0x22
  }

  /** What a request is taken for, by its letter, its port type in the third byte, the
      length of the name in the second, the port from the fifth and the name from the
      ninth. */
  lemma RequestIs(b: seq<Byte>)
    requires |b| == 264
    ensures Typed(b) ==>
              var n := b[8..8 + b[1]];
              && (b[0] == 'R' as int ==> MeaningOf(b) == OfName(Register(n, Number(b, 4), b[2])))
              && (b[0] == 'L' as int ==> MeaningOf(b) == OfName(Lookup(n, b[2])))
              && (b[0] == 'U' as int ==> MeaningOf(b) == OfName(Unreg(n, Number(b, 4), b[2])))
    ensures Typed(b) || b[2] == 0 ==>
              && (b[0] == 'S' as int ==> MeaningOf(b) == Servers) && (b[0] == 'N' as int ==> MeaningOf(b) == Names)
              && (b[0] == 'P' as int ==> MeaningOf(b) == Probe && AddressField(b) == Number(b, 8))
              && (b[0] == 'p' as int ==> MeaningOf(b) == Preply && AddressField(b) == Number(b, 8))
    ensures MeaningOf(b) == Refused <==>
              !((Typed(b) && exists k :: 0 <= k < 7 && b[0] == "RLUSNPp"[k] as int)
                || (b[2] == 0 && exists k :: 3 <= k < 7 && b[0] == "RLUSNPp"[k] as int))
  {
    NumberIs(b, 4);
    NumberIs(b, 8);
    var letters := "RLUSNPp";
    assert letters[0] == 'R' && letters[1] == 'L' && letters[2] == 'U' && letters[3] == 'S';
    assert letters[4] == 'N' && letters[5] == 'P' && letters[6] == 'p';
    hide Ntohl, Number;
  }

  /** A probe, or a reply to one, that names an address is taken for one that does. */
  lemma ProbeRoundTrip(a: Word, n: Name, t: Byte)
    requires (t == 0 || IsPortType(t)) && |n| >= 4 && n[..4] == Htonl(a)
    ensures var (p, q) := (Written('P' as int, n, t, 0), Written('p' as int, n, t, 0));
            && |p| == |q| == 264 && MeaningOf(p) == Probe && MeaningOf(q) == Preply
            && AddressField(p) == AddressField(q) == a
  {
    var p, q := Written('P' as int, n, t, 0), Written('p' as int, n, t, 0);
    WrittenFields('P' as int, n, t, 0);
    WrittenFields('p' as int, n, t, 0);
    assert p[8..8 + |n|] == NameField(p) && q[8..8 + |n|] == NameField(q);
    assert p[8..12] == NameField(p)[..4] && q[8..12] == NameField(q)[..4];
    WordRoundTrip(a);
  }

  /** For example, the first bytes of the request to register abc with port 538. */
  lemma RegisterBytes()
    ensures Written('R' as int, [97, 98, 99], 0x11, 538)[..11] == [82, 3, 17, 0, 0, 0, 2, 26, 97, 98, 99]
    ensures Written('L' as int, [97, 98, 99], 0x21, 538)[..11] == [76, 3, 33, 0, 0, 0, 0, 0, 97, 98, 99]
  {
  }

  /** The reply to SERVERS: first the number of addresses that follow; the first of these is
      the one that the request came from, and then come the servers, the last one contacted
      first. */
  lemma ServersReplyIs(ps: seq<Peer>, from: Word, k: nat)
    requires |ps| < 0xffff_ffff && k < |ps|
    ensures var r := ServersBytes(ps, from);
            && |r| == 8 + 4 * |ps| == 4 + 4 * Number(r, 0)
            && Number(r, 4) == from && Number(r, 8 + 4 * k) == ps[|ps| - 1 - k].sin
  {
    hide *;
    ReversedAt(ps, k);
    var a, b, c := Htonl(|ps| + 1), Htonl(from), Reversed(ps);
    var r := a + b + c;
    ServersAre(ps, from);
    ThreeParts(a, b, c, k);
    Sent(|ps| + 1, r, 0);
    Sent(from, r, 4);
    Sent(ps[|ps| - 1 - k].sin, r, 8 + 4 * k);
  }

  lemma ServersAre(ps: seq<Peer>, from: Word)
    requires |ps| < 0xffff_ffff
    ensures ServersBytes(ps, from) == Htonl(|ps| + 1) + Htonl(from) + Reversed(ps)
  {
    hide Htonl, Reversed;
  }

  lemma ThreeParts(a: seq<Byte>, b: seq<Byte>, c: seq<Byte>, k: nat)
    requires |a| == |b| == 4 && 4 * k + 4 <= |c|
    ensures var r := a + b + c;
            |r| == 8 + |c| && r[0..4] == a && r[4..8] == b && r[8 + 4 * k..8 + 4 * k + 4] == c[4 * k..4 * k + 4]
  {
  }

  /** The reply to NAMES: first the number of bytes that follow; these are the names, each
      with its length and its type before it, shorter ones first. */
  lemma NamesReplyIs(s: seq<Entry>, i: nat, j: nat)
    requires Sorted(s) && Total(s) < 0x8000_0000 && i < j < |s|
    ensures var r := NamesBytes(s); |r| == 4 + Number(r, 0) && r[4..] == Records(s)
    ensures var (r, p) := (Records(s), Offset(s, i));
            && p + 2 + |s[i].name| <= |r| && r[p] == |s[i].name|
            && r[p + 1] == s[i].net as int + s[i].svc && r[p + 2..p + 2 + |s[i].name|] == s[i].name
            && Offset(s, 0) == 0 && Offset(s, i + 1) == p + 2 + |s[i].name|
    ensures var (a, b) := (s[i].name, s[j].name);
            |a| < |b| || (|a| == |b| && exists k :: 0 <= k < |a| && a[..k] == b[..k] && a[k] < b[k])
  {
    hide *;
    NamesCount(s);
    RecordsAround(s, i);
    NameInRecord(Records(s[..i]), s[i], Records(s[i + 1..]));
    OffsetIs(s, i);
    OffsetFirst(s);
    CompareMeans(s[i].name, s[j].name);
    SortedPair(s, i, j);
  }

  lemma NamesCount(s: seq<Entry>)
    requires Total(s) < 0x8000_0000
    ensures var r := NamesBytes(s); |r| == 4 + Number(r, 0) && r[4..] == Records(s)
  {
    var r := NamesBytes(s);
    assert r[0..4] == Htonl(Total(s));
    Sent(Total(s), r, 0);
    hide Number, Htonl, Records, Total;
  }

  lemma SortedPair(s: seq<Entry>, i: nat, j: nat)
    requires Sorted(s) && i < j < |s|
    ensures Compare(s[i].name, s[j].name) < 0
  {
    hide Compare;
  }

  lemma NameInRecord(a: seq<Byte>, e: Entry, c: seq<Byte>)
    ensures var (r, p) := (a + Record(e) + c, |a|);
            && p + 2 + |e.name| <= |r| && r[p] == |e.name| && r[p + 1] == e.net as int + e.svc
            && r[p + 2..p + 2 + |e.name|] == e.name
  {
  }

  /** Whoever understands a port from the reply to a lookup is told the truth: the name has
      it, under the type asked for, and it is in use. */
  lemma ClientIsToldTruly(v: map<Name, Reg>, e: Event, p: Word)
    requires e.request.Lookup? && p != 0 && Understood(InBytes(Step(v, e).1)) == Some(p)
    ensures HasPort(v, e.request.name, p, e.request.ptype) && !e.canBind && p <= 65535
  {
    LookupTells(v, e);
    var a := Step(v, e).1;
    WordRoundTrip(a.value);
    assert Htonl(a.value)[..4] == Htonl(a.value);
  }

  /** What is sent back, by the letter of the request. Names and servers are changed and
      listed for this host alone; everybody may look up and list names, and learn the port. */
  lemma ReplyIs(c: Config, port: Word, v: map<Name, Reg>, s: seq<Entry>, ps: seq<Peer>, b: seq<Byte>, from: Word, canBind: bool)
    requires |b| == 264 && Total(s) < 0x8000_0000 && |ps| < 0xffff_ffff
    ensures var (r, local) := (ReplyTo(c, port, v, s, ps, b, from, canBind), exists i :: i in c.interfaces && i.addr == from);
            && (Typed(b) && b[0] == 'L' as int ==>
                  r.Some? && |r.value| == 4 && (Number(r.value, 0) != 0 ==> HasPort(v, b[8..8 + b[1]], Number(r.value, 0), b[2]) && !canBind))
            && (Typed(b) && (b[0] == 'R' as int || b[0] == 'U' as int) ==> (r.Some? <==> local) && (r.Some? ==> |r.value| == 4))
            && (Typed(b) && b[0] == 'R' as int && local ==> Number(r.value, 0) == Number(b, 4) || Number(r.value, 0) == 0)
            && (Typed(b) || b[2] == 0 ==>
                  && (b[0] == 'S' as int ==> (r.Some? <==> local) && (local ==> r.value == ServersBytes(ps, from)))
                  && (b[0] == 'N' as int ==> r == Some(NamesBytes(s)))
                  && (b[0] == 'P' as int ==> r.Some? && |r.value| == 4 && Number(r.value, 0) == port) && (b[0] == 'p' as int ==> r.None?))
            && (MeaningOf(b) == Refused ==> r.None?)
  {
    RequestIs(b);
    WordRead(port);
    if MeaningOf(b).OfName? {
      var e := Event(MeaningOf(b).request, IsLocalHost(c, from), canBind);
      NameAnswered(v, e);
    }
    hide MeaningOf, Number, Htonl, Step, HasPort, ServersBytes, NamesBytes;
  }

  lemma WordRead(w: Word)
    ensures |Htonl(w)| == 4 && Number(Htonl(w), 0) == w
  {
    assert Htonl(w)[0..4] == Htonl(w);
    Sent(w, Htonl(w), 0);
  }

  // The answer about a name, in bytes.
  lemma NameAnswered(v: map<Name, Reg>, e: Event)
    ensures var r := InBytes(Step(v, e).1);
            && (e.request.Lookup? || e.local <==> r.Some?) && (r.Some? ==> |r.value| == 4)
            && (e.request.Lookup? ==>
                  Number(r.value, 0) != 0 ==> HasPort(v, e.request.name, Number(r.value, 0), e.request.ptype) && !e.canBind)
            && (e.request.Register? && e.local ==> Number(r.value, 0) == e.request.port || Number(r.value, 0) == 0)
  {
    var a := Step(v, e).1;
    if a.Some? {
      WordRead(a.value);
    }
    if e.request.Lookup? {
      LookupTells(v, e);
    } else if e.local && e.request.Register? {
      RegisterTells(v, e);
    }
    hide Number, Htonl;
  }
}
