/** How a name server answers the probes of others (Tools/gdomap.c:3170-3347,
    5378-5432), by UDP. */
module Probes {
  import opened Wrappers
  import opened Bytes
  import opened Peers

  const MAX_EXTRA := 61

  type Port = p: int | 0 <= p < 0x1_0000

  /** What the name field of a probe or of its reply holds: two addresses, and others
      that the sender listens on. An answer is the four bytes sent to who is no server. */
  datatype Message = Probe(first: Addr, second: Addr, extras: seq<Addr>)
                   | Preply(first: Addr, second: Addr, extras: seq<Addr>)
                   | Answer(word: Word)

  datatype Letter = Letter(to: Addr, port: Port, msg: Message)

  /** A server: where it ifs, whom it knows, and what it has still to send. */
  datatype Node = Node(config: Config, port: Port, peers: seq<Peer>, queue: seq<Letter>)

  // The first address of this host on the net of a, loopback left out.
  function AddressFor(c: Config, ifs: seq<Interface>, a: Addr): Option<Addr> {
    if ifs == [] then None
    else if ifs[0].addr != c.loopback && OnNet(ifs[0], a) then Some(ifs[0].addr)
    else AddressFor(c, ifs[1..], a)
  }

  // Whether the sender did not know which of our addresses it was probing.
  predicate Unknown(c: Config, laddr: Addr) {
    !IsLocalHost(c, laddr) || laddr == c.loopback
  }

  /** The address to reply with, or zero. */
  function ReplyAddress(c: Config, laddr: Addr, src: Addr): Addr {
    if !Unknown(c, laddr) then laddr
    else match AddressFor(c, c.interfaces, src) case None => 0 case Some(a) => a
  }

  // The address whose net the others are taken from.
  function BaseAddress(c: Config, laddr: Addr, src: Addr): Addr {
    if !Unknown(c, laddr) then laddr
    else match AddressFor(c, c.interfaces, src) case None => laddr case Some(a) => a
  }

  // Our other addresses on the net of old.
  function OtherAddresses(ifs: seq<Interface>, old0: Addr): seq<Addr> {
    if ifs == [] then []
    else OtherAddresses(ifs[..|ifs| - 1], old0) + OtherAddress(ifs[|ifs| - 1], old0)
  }

  function OtherAddress(i: Interface, old0: Addr): seq<Addr> {
    if i.addr != old0 && OnNet(i, old0) then [i.addr] else []
  }

  // The lists sent, the last part first.
  function Parts(others: seq<Addr>): seq<seq<Addr>>
    decreases |others|
  {
    if |others| == 0 then []
    else if |others| <= MAX_EXTRA then [others]
    else [others[|others| - MAX_EXTRA..]] + Parts(others[..|others| - MAX_EXTRA])
  }

  function Joined(parts: seq<seq<Addr>>): seq<Addr> {
    if parts == [] then [] else Joined(parts[1..]) + parts[0]
  }

  /** Every other address is sent once, in lists that fit the name field. */
  lemma {:induction false} PartsAreAll(others: seq<Addr>)
    ensures Joined(Parts(others)) == others
    ensures |Parts(others)| == (|others| + MAX_EXTRA - 1) / MAX_EXTRA
    ensures forall p :: p in Parts(others) ==> 0 < |p| && 2 * 4 + |p| * 4 < 256
    decreases |others|
  {
    if |others| > MAX_EXTRA {
      PartsAreAll(others[..|others| - MAX_EXTRA]);
      assert Parts(others)[1..] == Parts(others[..|others| - MAX_EXTRA]);
    } else if |others| > 0 {
      assert Parts(others)[1..] == [];
    }
  }

  lemma {:induction false} OthersFew(ifs: seq<Interface>, old0: Addr)
    ensures |OtherAddresses(ifs, old0)| <= |ifs|
    decreases |ifs|
  {
    if ifs != [] {
      OthersFew(ifs[..|ifs| - 1], old0);
    }
  }

  // The replies that carry the other addresses.
  function ExtraLetters(port: Port, raddr: Addr, laddr: Addr, parts: seq<seq<Addr>>): seq<Letter> {
    if parts == [] then []
    else [Letter(raddr, port, Preply(laddr, raddr, parts[0]))] + ExtraLetters(port, raddr, laddr, parts[1..])
  }

  /** All letters that a message makes the server queue. */
  function Replies(n: Node, src: Addr, port: Port, m: Message): seq<Letter> {
    if IsLocalHost(n.config, src) || !m.Probe? then []
    else if port != n.port then [Letter(src, port, Answer(n.port))]
    else ProbeReplies(n.config, n.port, src, m.first, m.second)
  }

  function ProbeReplies(c: Config, port: Port, src: Addr, raddr: Addr, laddr: Addr): seq<Letter> {
    var base := BaseAddress(c, laddr, src);
    ExtraLetters(port, raddr, base, Parts(OtherAddresses(c.interfaces, base)))
    + [Letter(src, port, Preply(ReplyAddress(c, laddr, src), raddr, []))]
  }

  // Whom a message makes known.
  function Contacts(n: Node, src: Addr, port: Port, m: Message): seq<Addr> {
    if IsLocalHost(n.config, src) || m.Answer? || port != n.port then [] else [m.first, src]
  }

  function AddAll(c: Config, ps: seq<Peer>, addrs: seq<Addr>, now: int): seq<Peer>
    decreases |addrs|
  {
    if addrs == [] then ps else AddAll(c, Added(c, ps, addrs[0], now), addrs[1..], now)
  }

  /** What receiving a message does to a server. */
  function Received(n: Node, src: Addr, port: Port, m: Message, now: int): Node {
    n.(peers := AddAll(n.config, n.peers, Contacts(n, src, port, m), now),
       queue := n.queue + Replies(n, src, port, m))
  }

  // The loop at Tools/gdomap.c:3274-3287.
  method FindAddress(c: Config, src: Addr) returns (a: Option<Addr>)
    ensures a == AddressFor(c, c.interfaces, src)
  {
    var i := 0;
    assert c.interfaces[0..] == c.interfaces;
    while i < |c.interfaces|
      invariant 0 <= i <= |c.interfaces|
      invariant AddressFor(c, c.interfaces, src) == AddressFor(c, c.interfaces[i..], src)
    {
      assert c.interfaces[i..][1..] == c.interfaces[i + 1..];
      if c.interfaces[i].addr != c.loopback && OnNet(c.interfaces[i], src) {
        return Some(c.interfaces[i].addr);
      }
      i := i + 1;
    }
    return None;
  }

  /** other_addresses_on_net (Tools/gdomap.c:2018-2058): counted first, then collected. */
  method OtherAddressesOnNet(c: Config, old0: Addr) returns (extra: array<Addr>)
    ensures fresh(extra) && extra[..] == OtherAddresses(c.interfaces, old0)
  {
    hide OtherAddresses, OnNet;
    var ifs, numExtra := c.interfaces, 0;
    NoOthers(ifs, old0);
    for iface := 0 to |ifs|
      invariant numExtra == |OtherAddresses(ifs[..iface], old0)|
    {
      OthersNext(ifs, old0, iface);
      if ifs[iface].addr != old0 && OnNet(ifs[iface], old0) {
        numExtra := numExtra + 1;
      }
    }
    assert ifs[..|ifs|] == ifs;
    extra := new Addr[numExtra](_ => 0);
    numExtra := 0;
    for iface := 0 to |ifs|
      invariant numExtra == |OtherAddresses(ifs[..iface], old0)| <= extra.Length
      invariant extra[..numExtra] == OtherAddresses(ifs[..iface], old0)
    {
      OthersNext(ifs, old0, iface);
      OthersGrow(ifs, old0, iface + 1);
      if ifs[iface].addr != old0 && OnNet(ifs[iface], old0) {
        extra[numExtra] := ifs[iface].addr;
        numExtra := numExtra + 1;
      }
    }
  }

  lemma NoOthers(ifs: seq<Interface>, old0: Addr)
    ensures OtherAddresses(ifs[..0], old0) == []
  {
  }

  lemma OthersNext(ifs: seq<Interface>, old0: Addr, i: nat)
    requires i < |ifs|
    ensures OtherAddresses(ifs[..i + 1], old0) == OtherAddresses(ifs[..i], old0) + OtherAddress(ifs[i], old0)
  {
    assert ifs[..i + 1][..i] == ifs[..i];
  }

  lemma {:induction false} OthersGrow(ifs: seq<Interface>, old0: Addr, i: nat)
    requires i <= |ifs|
    ensures |OtherAddresses(ifs[..i], old0)| <= |OtherAddresses(ifs, old0)|
    decreases |ifs| - i
  {
    if i < |ifs| {
      OthersGrow(ifs, old0, i + 1);
      OthersNext(ifs, old0, i);
    } else {
      assert ifs[..i] == ifs;
    }
  }

  class Server {
    const config: Config
    const port: Port
    const peers: PeerList
    var queue: seq<Letter>

    ghost predicate Valid()
      reads this, peers, peers.prb
    {
      peers.Valid()
    }

    ghost function State(): Node
      requires Valid()
      reads this, peers, peers.prb
    {
      Node(config, port, peers.Peers(), queue)
    }

    constructor (config: Config, port: Port, peers: PeerList)
      requires peers.Valid()
      ensures Valid() && this.config == config && this.port == port && this.peers == peers && queue == []
    {
      this.config, this.port, this.peers, queue := config, port, peers, [];
    }

    // queue_probe, for a reply.
    method QueueReply(to: Addr, from: Addr, e: seq<Addr>)
      modifies this
      ensures queue == old(queue) + [Letter(to, port, Preply(from, to, e))]
    {
      queue := queue + [Letter(to, port, Preply(from, to, e))];
    }

    // Tools/gdomap.c:3295-3304: the other addresses, in parts.
    method QueueOthers(raddr: Addr, laddr: Addr)
      modifies this
      ensures queue == old(queue) + ExtraLetters(port, raddr, laddr, Parts(OtherAddresses(config.interfaces, laddr)))
    {
      var other := OtherAddressesOnNet(config, laddr);
      hide Parts, ExtraLetters, OtherAddresses;
      var elen := other.Length;
      ghost var q, whole := queue, ExtraLetters(port, raddr, laddr, Parts(other[..]));
      assert other[..elen] == other[..];
      if elen > 0 {
        while elen > MAX_EXTRA
          invariant 0 < elen <= other.Length
          invariant q + whole == queue + ExtraLetters(port, raddr, laddr, Parts(other[..elen]))
        {
          PartsNext(port, raddr, laddr, other[..elen]);
          assert other[..elen][..elen - MAX_EXTRA] == other[..elen - MAX_EXTRA];
          assert other[..elen][elen - MAX_EXTRA..] == other[elen - MAX_EXTRA..elen];
          elen := elen - MAX_EXTRA;
          QueueReply(raddr, laddr, other[elen..elen + MAX_EXTRA]);
        }
        PartsLast(port, raddr, laddr, other[..elen]);
        QueueReply(raddr, laddr, other[..elen]);
      } else {
        PartsNone(port, raddr, laddr, other[..]);
      }
    }

    // Tools/gdomap.c:3255-3304 and 3362: the replies to a probe from a server.
    method Reply(src: Addr, raddr: Addr, laddr0: Addr)
      modifies this
      ensures queue == old(queue) + ProbeReplies(config, port, src, raddr, laddr0)
    {
      var laddr, sent := laddr0, laddr0;
      if Unknown(config, laddr) {
        var a := FindAddress(config, src);
        sent := 0;
        if a.Some? {
          laddr, sent := a.value, a.value;
        }
      }
      QueueOthers(raddr, laddr);
      queue := queue + [Letter(src, port, Preply(sent, raddr, []))];
    }

    /** handle_recv and handle_request for PROBE and PREPLY. */
    method Receive(src: Addr, srcPort: Port, m: Message, now: int)
      requires Valid()
      modifies this, peers, peers.prb
      ensures Valid() && (peers.prb == old(peers.prb) || fresh(peers.prb))
      ensures State() == Received(old(State()), src, srcPort, m, now)
    {
      hide IsLocalHost, ProbeReplies, Distinct;
      ghost var ps := peers.Peers();
      NoContacts(config, ps, now);
      if IsLocalHost(config, src) {
        return;
      }
      match m
      case Probe(raddr, laddr, extras) =>
        if srcPort == port {
          AddBoth(raddr, src, now);
          Reply(src, raddr, laddr);
        } else {
          queue := queue + [Letter(src, srcPort, Answer(port))];
        }
      case Preply(raddr, laddr, extras) =>
        if srcPort == port {
          AddBoth(raddr, src, now);
        }
      case Answer(w) =>
    }

    method AddBoth(a: Addr, b: Addr, now: int)
      requires Valid()
      modifies peers, peers.prb
      ensures Valid() && (peers.prb == old(peers.prb) || fresh(peers.prb))
      ensures peers.Peers() == AddAll(config, old(peers.Peers()), [a, b], now)
    {
      peers.Add(config, a, now);
      peers.Add(config, b, now);
      AddTwo(config, old(peers.Peers()), a, b, now);
    }
  }

  lemma NoContacts(c: Config, ps: seq<Peer>, now: int)
    ensures AddAll(c, ps, [], now) == ps
  {
  }

  lemma AddTwo(c: Config, ps: seq<Peer>, a: Addr, b: Addr, now: int)
    ensures AddAll(c, ps, [a, b], now) == Added(c, Added(c, ps, a, now), b, now)
  {
    assert [a, b][1..] == [b] && [b][1..] == [];
    assert AddAll(c, ps, [a, b], now) == AddAll(c, Added(c, ps, a, now), [b], now);
  }

  lemma PartsNext(port: Port, raddr: Addr, laddr: Addr, others: seq<Addr>)
    requires |others| > MAX_EXTRA
    ensures var n := |others| - MAX_EXTRA;
            ExtraLetters(port, raddr, laddr, Parts(others))
            == [Letter(raddr, port, Preply(laddr, raddr, others[n..]))] + ExtraLetters(port, raddr, laddr, Parts(others[..n]))
  {
    assert Parts(others)[1..] == Parts(others[..|others| - MAX_EXTRA]);
  }

  lemma PartsNone(port: Port, raddr: Addr, laddr: Addr, others: seq<Addr>)
    requires |others| == 0
    ensures ExtraLetters(port, raddr, laddr, Parts(others)) == []
  {
  }

  lemma PartsLast(port: Port, raddr: Addr, laddr: Addr, others: seq<Addr>)
    requires 0 < |others| <= MAX_EXTRA
    ensures ExtraLetters(port, raddr, laddr, Parts(others)) == [Letter(raddr, port, Preply(laddr, raddr, others))]
  {
    assert Parts(others)[1..] == [];
  }

  lemma {:induction false} ExtraLettersAre(port: Port, raddr: Addr, laddr: Addr, parts: seq<seq<Addr>>)
    ensures |ExtraLetters(port, raddr, laddr, parts)| == |parts|
    ensures forall l :: l in ExtraLetters(port, raddr, laddr, parts) ==> l.msg.Preply? && l.to == raddr
    decreases |parts|
  {
    if parts != [] {
      ExtraLettersAre(port, raddr, laddr, parts[1..]);
    }
  }

  /** A probe from a server is answered by a bounded number of replies, the last one to
      the address it came from; a reply, and what a server sends to others, by none. */
  lemma RepliesBounded(n: Node, src: Addr, port: Port, m: Message)
    ensures var r := Replies(n, src, port, m);
            && |r| <= 1 + (|n.config.interfaces| + MAX_EXTRA - 1) / MAX_EXTRA
            && (!m.Probe? ==> r == [])
            && (forall l :: l in r ==> !l.msg.Probe?)
            && (m.Probe? && !IsLocalHost(n.config, src) ==> r != [] && r[|r| - 1].to == src)
            && (m.Probe? && !IsLocalHost(n.config, src) && port == n.port ==> r[|r| - 1].msg.Preply?)
  {
    if !IsLocalHost(n.config, src) && m.Probe? && port == n.port {
      var base := BaseAddress(n.config, m.second, src);
      var others := OtherAddresses(n.config.interfaces, base);
      OthersFew(n.config.interfaces, base);
      PartsAreAll(others);
      ExtraLettersAre(n.port, m.first, base, Parts(others));
      assert (|others| + MAX_EXTRA - 1) / MAX_EXTRA <= (|n.config.interfaces| + MAX_EXTRA - 1) / MAX_EXTRA;
    }
  }

  // The first address of this host on the net of a, if there is one.
  lemma {:induction false} AddressForIs(c: Config, ifs: seq<Interface>, a: Addr)
    ensures match AddressFor(c, ifs, a)
            case None => forall i :: i in ifs ==> i.addr == c.loopback || !OnNet(i, a)
            case Some(x) => x != c.loopback && exists i :: i in ifs && i.addr == x && OnNet(i, a)
    decreases |ifs|
  {
    hide OnNet;
    if ifs != [] {
      AddressForIs(c, ifs[1..], a);
      assert ifs[0] in ifs;
      assert ifs == [ifs[0]] + ifs[1..];
    }
  }

  /** The address in a reply: the one probed, if that is an address of this host other than
      the loopback one; or else one of this host on the net that the probe came from; and
      zero if there is none. */
  lemma ReplyAddressIs(c: Config, probed: Addr, src: Addr)
    ensures var a := ReplyAddress(c, probed, src);
            if IsLocalHost(c, probed) && probed != c.loopback then a == probed
            else if exists i :: i in c.interfaces && i.addr != c.loopback && OnNet(i, src) then
              a != c.loopback && exists i :: i in c.interfaces && i.addr == a && OnNet(i, src)
            else a == 0
  {
    AddressForIs(c, c.interfaces, src);
    hide OnNet, AddressFor;
  }

  /** The other addresses: all those of this host on the net of the given one, itself left
      out, and no others. */
  lemma {:induction false} OthersAre(ifs: seq<Interface>, old0: Addr, x: Addr)
    ensures x in OtherAddresses(ifs, old0) <==> x != old0 && exists i :: i in ifs && i.addr == x && OnNet(i, old0)
    decreases |ifs|
  {
    hide OnNet;
    if ifs != [] {
      var front, last := ifs[..|ifs| - 1], ifs[|ifs| - 1];
      OthersAre(front, old0, x);
      assert ifs == front + [last];
    }
  }

  predicate Carries(l: Letter, x: Addr) {
    l.msg.Preply? && x in l.msg.extras
  }

  lemma {:induction false} ExtrasAre(port: Port, raddr: Addr, laddr: Addr, parts: seq<seq<Addr>>, x: Addr)
    ensures (exists l :: l in ExtraLetters(port, raddr, laddr, parts) && Carries(l, x)) <==> x in Joined(parts)
    ensures forall l :: l in ExtraLetters(port, raddr, laddr, parts) ==>
              l.to == raddr && l.port == port && l.msg.Preply? && l.msg.first == laddr && l.msg.second == raddr
    decreases |parts|
  {
    if parts != [] {
      ExtrasAre(port, raddr, laddr, parts[1..], x);
      var e, rest := ExtraLetters(port, raddr, laddr, parts), ExtraLetters(port, raddr, laddr, parts[1..]);
      assert e == [e[0]] + rest && e[0] in e && Carries(e[0], x) == (x in parts[0]);
      assert x in Joined(parts) <==> x in Joined(parts[1..]) || x in parts[0];
      if l :| l in rest && Carries(l, x) {
        assert l in e;
      }
      if l :| l in e && Carries(l, x) {
        assert l == e[0] || l in rest;
      }
    }
  }

  /** What another server is sent in answer to its probe: to where the probe came from, the
      address above; and to the address that the probe names, all our other addresses. Every
      reply goes back with the address that the probe named. */
  lemma RepliesAre(n: Node, src: Addr, m: Message, x: Addr)
    requires m.Probe? && !IsLocalHost(n.config, src)
    ensures var (r, base) := (Replies(n, src, n.port, m), BaseAddress(n.config, m.second, src));
            && r != [] && r[|r| - 1] == Letter(src, n.port, Preply(ReplyAddress(n.config, m.second, src), m.first, []))
            && (forall l :: l in r ==> l.port == n.port && l.msg.Preply? && l.msg.second == m.first)
            && (forall l :: l in r[..|r| - 1] ==> l.to == m.first && l.msg.first == base)
            && ((exists l :: l in r && Carries(l, x)) <==>
                  x != base && exists i :: i in n.config.interfaces && i.addr == x && OnNet(i, base))
  {
    var base := BaseAddress(n.config, m.second, src);
    var others := OtherAddresses(n.config.interfaces, base);
    PartsAreAll(others);
    OthersAre(n.config.interfaces, base, x);
    ExtrasAre(n.port, m.first, base, Parts(others), x);
    hide OnNet, OtherAddresses, Parts, ExtraLetters, ReplyAddress, BaseAddress, IsLocalHost;
    var e := ExtraLetters(n.port, m.first, base, Parts(others));
    var last := Letter(src, n.port, Preply(ReplyAddress(n.config, m.second, src), m.first, []));
    assert Replies(n, src, n.port, m) == e + [last];
    assert (e + [last])[..|e|] == e;
  }

  lemma {:induction false} AddAllMembers(c: Config, ps: seq<Peer>, a: Addr, b: Addr, now: int)
    requires Distinct(ps)
    ensures var qs := AddAll(c, ps, [a, b], now);
            && (Accepts(c, a) ==> Peer(a, now) in qs) && (Accepts(c, b) ==> Peer(b, now) in qs)
            && (forall p :: p in qs ==> p in ps || (p.when == now && (p.sin == a || p.sin == b)))
            && forall p :: p in ps && p.sin != a && p.sin != b ==> p in qs
  {
    AddTwo(c, ps, a, b, now);
    AddedMembers(c, ps, a, now);
    AddedMembers(c, Added(c, ps, a, now), b, now);
    hide Accepts, Added, AddAll;
  }

  /** Whom a probe, or a reply to one, makes known: the server that it names and the address
      it came from, if they may be listed, from now; others stay as they were. What comes
      from this host, or from what is no server, makes nobody known. */
  lemma ReceivedLists(n: Node, src: Addr, port: Port, m: Message, now: int)
    requires Distinct(n.peers) && !m.Answer?
    ensures var qs := Received(n, src, port, m, now).peers;
            if IsLocalHost(n.config, src) || port != n.port then qs == n.peers
            else
              && (Accepts(n.config, m.first) ==> Peer(m.first, now) in qs) && (Accepts(n.config, src) ==> Peer(src, now) in qs)
              && (forall p :: p in qs ==> p in n.peers || (p.when == now && (p.sin == m.first || p.sin == src)))
              && forall p :: p in n.peers && p.sin != m.first && p.sin != src ==> p in qs
  {
    AddAllMembers(n.config, n.peers, m.first, src, now);
    hide Accepts, AddAll, Replies, IsLocalHost, Distinct;
    NoContacts(n.config, n.peers, now);
  }
}
