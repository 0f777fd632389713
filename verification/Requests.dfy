/** Requests on the wire: how a client writes them, and what the server makes of their
    bytes (Tools/gdomap.c:2710-3365). */
module Requests {
  import opened Wrappers
  import opened Bytes
  import opened NameMap
  import opened NameTable
  import opened NameRuns
  import opened NameList
  import opened Peers
  import opened Channels

  const REGISTER: Byte := 'R' as int
  const LOOKUP: Byte := 'L' as int
  const UNREG: Byte := 'U' as int
  const SERVERS: Byte := 'S' as int
  const PROBE: Byte := 'P' as int
  const PREPLY: Byte := 'p' as int
  const NAMES: Byte := 'N' as int

  // The fields of gdo_req (Tools/gdomap.h:206-213).
  function TypeField(b: seq<Byte>): Byte
    requires |b| == GDO_REQ_SIZE
  {
    b[0]
  }

  function PortTypeField(b: seq<Byte>): Byte
    requires |b| == GDO_REQ_SIZE
  {
    b[2]
  }

  function PortField(b: seq<Byte>): Word
    requires |b| == GDO_REQ_SIZE
  {
    Ntohl(b[4..8])
  }

  function NameField(b: seq<Byte>): Name
    requires |b| == GDO_REQ_SIZE
  {
    b[8..8 + b[1]]
  }

  function AddressField(b: seq<Byte>): Word
    requires |b| == GDO_REQ_SIZE
  {
    Ntohl(b[8..12])
  }

  predicate IsPortType(t: Byte) {
    t in {TCP_GDO, TCP_FOREIGN, UDP_GDO, UDP_FOREIGN}
  }

  /** What a request is taken for. */
  datatype Meaning = Refused | OfName(request: Request) | Servers | Names | Probe | Preply

  function MeaningOf(b: seq<Byte>): Meaning
    requires |b| == GDO_REQ_SIZE
  {
    var op, t, port, n := TypeField(b), PortTypeField(b), PortField(b), NameField(b);
    if !IsPortType(t) && (t != 0 || op !in {PROBE, PREPLY, SERVERS, NAMES}) then Refused
    else if op == REGISTER then OfName(Register(n, port, t))
    else if op == LOOKUP then OfName(Lookup(n, t))
    else if op == UNREG then OfName(Unreg(n, port, t))
    else if op == SERVERS then Servers
    else if op == NAMES then Names
    else if op == PROBE then Probe
    else if op == PREPLY then Preply
    else Refused
  }

  /** The bytes that tryHost sends (Tools/gdomap.c:3822-3834): the port goes with
      REGISTER only. */
  function Written(op: Byte, n: Name, t: Byte, port: Word): seq<Byte> {
    [op, |n|, t, 0] + Htonl(if op == REGISTER then port else 0) + n + seq(256 - |n|, _ => 0)
  }

  lemma WrittenFields(op: Byte, n: Name, t: Byte, port: Word)
    ensures var b := Written(op, n, t, port);
            && |b| == GDO_REQ_SIZE && TypeField(b) == op && PortTypeField(b) == t && NameField(b) == n
            && PortField(b) == if op == REGISTER then port else 0
  {
    var p: Word := if op == REGISTER then port else 0;
    var head, pad: seq<Byte> := [op, |n|, t, 0], seq(256 - |n|, _ => 0);
    var b := head + Htonl(p) + n + pad;
    assert b[4..8] == Htonl(p);
    assert b[8..8 + |n|] == n;
    WordRoundTrip(p);
  }

  /** What a client means the server understands: names and types survive the wire, and
      so does the port of REGISTER; each kind of request is taken for what it is. */
  lemma RequestRoundTrip(op: Byte, n: Name, t: PortType, port: Word)
    ensures |Written(op, n, t, port)| == GDO_REQ_SIZE
    ensures var m := MeaningOf(Written(op, n, t, port));
            && (op == REGISTER ==> m == OfName(Register(n, port, t)))
            && (op == LOOKUP ==> m == OfName(Lookup(n, t)))
            && (op == UNREG ==> m == OfName(Unreg(n, 0, t)))
            && (op == SERVERS ==> m == Servers) && (op == NAMES ==> m == Names)
            && (op == PROBE ==> m == Probe) && (op == PREPLY ==> m == Preply)
  {
    WrittenFields(op, n, t, port);
  }

  /** What the client takes a reply for (Tools/gdomap.c:3864-3887): a port, or an error. */
  function Understood(reply: Option<seq<Byte>>): Option<Word> {
    if reply.None? || |reply.value| < 4 || Ntohl(reply.value[..4]) > 0xffff then None
    else Some(Ntohl(reply.value[..4]))
  }

  // A number that is sent, if any.
  function InBytes(w: Option<Word>): Option<seq<Byte>> {
    if w.None? then None else Some(Htonl(w.value))
  }

  /** What is sent back on a connection, by the names, their array and the list of servers
      (Tools/gdomap.c:2728-3354). */
  function ReplyTo(c: Config, port: Word, v: map<Name, Reg>, s: seq<Entry>, ps: seq<Peer>, b: seq<Byte>, from: Word, canBind: bool):
    Option<seq<Byte>>
    requires |b| == GDO_REQ_SIZE && Total(s) < 0x8000_0000 && |ps| < 0xffff_ffff
  {
    match MeaningOf(b)
    case Refused => None
    case OfName(request) => InBytes(Step(v, Event(request, IsLocalHost(c, from), canBind)).1)
    case Servers => if IsLocalHost(c, from) then Some(ServersBytes(ps, from)) else None
    case Names => Some(NamesBytes(s))
    case Probe => Some(Htonl(port))
    case Preply => None
  }

  class NameServer {
    const config: Config
    const port: Word
    const table: NameArray
    const peers: PeerList

    ghost predicate Valid()
      reads this, table, table.entries, peers, peers.prb
    {
      table.Valid() && peers.Valid()
    }

    // The name map and the list of servers.
    ghost function State(): (map<Name, Reg>, seq<Peer>)
      requires Valid()
      reads this, table, table.entries, peers, peers.prb
    {
      (View(table.Entries()), peers.Peers())
    }

    constructor (config: Config, port: Word, table: NameArray, peers: PeerList)
      requires table.Valid() && peers.Valid()
      ensures Valid() && this.config == config && this.port == port && this.table == table && this.peers == peers
    {
      this.config, this.port, this.table, this.peers := config, port, table, peers;
    }

    /** handle_request for a connection (Tools/gdomap.c:2728-3354): what is sent back, if
        anything, and what becomes of the map and the list. */
    method HandleRequest(b: seq<Byte>, from: Word, fromPort: Word, canBind: bool, now: int)
      returns (reply: Option<seq<Byte>>)
      requires Valid() && |b| == GDO_REQ_SIZE
      requires Total(table.Entries()) < 0x8000_0000 && peers.used < 0xffff_ffff
      modifies table, table.entries, peers, peers.prb
      ensures Valid() && (reply.Some? ==> |reply.value| >= 4)
      ensures reply == ReplyTo(config, port, old(State()).0, old(table.Entries()), old(State()).1, b, from, canBind)
      ensures match MeaningOf(b)
              case OfName(request) =>
                State() == (Step(old(State()).0, Event(request, IsLocalHost(config, from), canBind)).0, old(State()).1)
              case Probe => State() == (old(State()).0, Met(old(State()).1, AddressField(b), from, fromPort, now))
              case Preply => State() == (old(State()).0, Met(old(State()).1, AddressField(b), from, fromPort, now))
              case _ => State() == old(State())
    {
      match MeaningOf(b)
      case Refused =>
        reply := None;
      case OfName(request) =>
        reply := HandleName(Event(request, IsLocalHost(config, from), canBind));
      case Servers =>
        if IsLocalHost(config, from) {
          var buf := peers.ServersReply(from);
          reply := Some(buf[..]);
        } else {
          reply := None;
        }
      case Names =>
        var buf := NamesReply(table.entries[..table.used]);
        reply := Some(buf[..]);
      case Probe =>
        HandleContact(AddressField(b), from, fromPort, now);
        reply := Some(Htonl(port));
      case Preply =>
        HandleContact(AddressField(b), from, fromPort, now);
        reply := None;
    }

    method HandleName(e: Event) returns (reply: Option<seq<Byte>>)
      requires Valid()
      modifies table, table.entries
      ensures Valid() && (table.entries == old(table.entries) || fresh(table.entries))
      ensures var r := Step(old(State()).0, e);
              && State() == (r.0, old(State()).1)
              && reply == InBytes(r.1)
    {
      hide View, Step, Sorted, Distinct;
      var answer := Serve(table, e);
      reply := InBytes(answer);
    }

    // The list after a probe or a reply from a server; from others it stays.
    ghost function Met(ps: seq<Peer>, a: Word, from: Word, fromPort: Word, now: int): seq<Peer> {
      if fromPort == port then Added(config, Added(config, ps, a, now), from, now) else ps
    }

    method HandleContact(a: Word, from: Word, fromPort: Word, now: int)
      requires Valid()
      modifies peers, peers.prb
      ensures Valid() && (peers.prb == old(peers.prb) || fresh(peers.prb))
      ensures State() == (old(State()).0, Met(old(State()).1, a, from, fromPort, now))
      ensures table.Entries() == old(table.Entries())
    {
      hide View, Sorted, Distinct, Added;
      if fromPort == port {
        peers.Add(config, a, now);
        peers.Add(config, from, now);
      }
    }
  }

  /** What a client learns: it asks to register a port for a name, or to look it up, and
      understands from the reply what the finite map says, or zero. */
  lemma ClientLearns(v: map<Name, Reg>, n: Name, t: PortType, port: Word, canBind: bool)
    requires port < 0x1_0000 && forall m :: m in v ==> v[m].port < 0x1_0000
    ensures var r := Registered(v, n, port, t, canBind);
            Understood(Some(Htonl(r.1))) == Some(r.1) && forall m :: m in r.0 ==> r.0[m].port < 0x1_0000
    ensures var r := LookedUp(v, n, t, canBind);
            Understood(Some(Htonl(r.1))) == Some(r.1) && forall m :: m in r.0 ==> r.0[m].port < 0x1_0000
  {
    var a, b := Registered(v, n, port, t, canBind).1, LookedUp(v, n, t, canBind).1;
    assert Htonl(a)[..4] == Htonl(a) && Htonl(b)[..4] == Htonl(b);
    WordRoundTrip(a);
    WordRoundTrip(b);
  }

  /** Whom a connection makes known: if it comes from a server's port, the address that the
      request names and its own, if they may be listed, from now; and otherwise nobody. */
  lemma MetLists(server: NameServer, ps: seq<Peer>, a: Word, from: Word, fromPort: Word, now: int)
    requires Distinct(ps)
    ensures var (c, qs) := (server.config, server.Met(ps, a, from, fromPort, now));
            if fromPort != server.port then qs == ps
            else
              && (Accepts(c, a) ==> Peer(a, now) in qs) && (Accepts(c, from) ==> Peer(from, now) in qs)
              && (forall p :: p in qs ==> p in ps || (p.when == now && (p.sin == a || p.sin == from)))
              && forall p :: p in ps && p.sin != a && p.sin != from ==> p in qs
  {
    AddedMembers(server.config, ps, a, now);
    AddedMembers(server.config, Added(server.config, ps, a, now), from, now);
    hide Accepts, Added, Distinct;
  }
}
