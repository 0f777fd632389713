/** The list of known name servers of Tools/gdomap.c, most recent contact last. */
module Peers {
  import opened Wrappers
  import opened Bytes
  import opened Shifting

  type Addr = Word

  datatype Interface = Interface(addr: Addr, mask: Word)

  /** The addresses of this host, and the hosts it is configured to probe. */
  datatype Config = Config(interfaces: seq<Interface>, probes: seq<Addr>, loopback: Addr)

  function And(a: Word, b: Word): Word {
    ((a as bv32) & (b as bv32)) as Word
  }

  predicate OnNet(i: Interface, a: Addr) {
    And(i.mask, i.addr) == And(i.mask, a)
  }

  predicate IsLocalHost(c: Config, a: Addr) {
    exists i :: i in c.interfaces && i.addr == a
  }

  predicate IsLocalNet(c: Config, a: Addr) {
    exists i :: i in c.interfaces && OnNet(i, a)
  }

  predicate IsProbeHost(c: Config, a: Addr) {
    a in c.probes
  }

  /** What may be listed (Tools/gdomap.c:932-939). */
  predicate Accepts(c: Config, a: Addr) {
    !IsLocalHost(c, a) && (IsLocalNet(c, a) || IsProbeHost(c, a))
  }

  datatype Peer = Peer(sin: Addr, when: int)

  predicate Distinct(ps: seq<Peer>) {
    forall i, j :: 0 <= i < j < |ps| ==> ps[i].sin != ps[j].sin
  }

  predicate Listed(ps: seq<Peer>, a: Addr) {
    exists i :: 0 <= i < |ps| && ps[i].sin == a
  }

  // The list without the last entry for a.
  function Without(ps: seq<Peer>, a: Addr): seq<Peer> {
    if ps == [] then []
    else if ps[|ps| - 1].sin == a then ps[..|ps| - 1]
    else Without(ps[..|ps| - 1], a) + [ps[|ps| - 1]]
  }

  /** Contact with a at some time: a goes to the end, if it may be listed. */
  function Added(c: Config, ps: seq<Peer>, a: Addr, now: int): seq<Peer> {
    if Accepts(c, a) then Without(ps, a) + [Peer(a, now)] else ps
  }

  // The time at which servers are looked over, that of the last probe, and whether
  // probing is off.
  datatype Clock = Clock(when: int, lastProbe: int, noprobe: bool)

  predicate Stale(p: Peer, t: Clock) {
    !t.noprobe && p.when < t.when - 1800 && p.when < t.lastProbe
  }

  /** The list without the stale entries, in order. */
  function Pruned(ps: seq<Peer>, t: Clock): seq<Peer> {
    if ps == [] then [] else (if Stale(ps[0], t) then [] else [ps[0]]) + Pruned(ps[1..], t)
  }

  lemma {:induction false} WithoutAt(ps: seq<Peer>, a: Addr, i: nat)
    requires i < |ps| && ps[i].sin == a && forall k :: i < k < |ps| ==> ps[k].sin != a
    ensures Without(ps, a) == ps[..i] + ps[i + 1..]
    decreases |ps|
  {
    if i < |ps| - 1 {
      var front := ps[..|ps| - 1];
      WithoutAt(front, a, i);
      assert front[..i] + front[i + 1..] + [ps[|ps| - 1]] == ps[..i] + ps[i + 1..];
    }
  }

  lemma {:induction false} WithoutNone(ps: seq<Peer>, a: Addr)
    requires !Listed(ps, a)
    ensures Without(ps, a) == ps
    decreases |ps|
  {
    if ps != [] {
      assert forall k :: 0 <= k < |ps| - 1 ==> ps[..|ps| - 1][k] == ps[k];
      WithoutNone(ps[..|ps| - 1], a);
    }
  }

  lemma {:induction false} WithoutMembers(ps: seq<Peer>, a: Addr)
    requires Distinct(ps)
    ensures forall p :: p in Without(ps, a) <==> p in ps && p.sin != a
    ensures Distinct(Without(ps, a))
    decreases |ps|
  {
    if ps != [] {
      var front, last := ps[..|ps| - 1], ps[|ps| - 1];
      assert ps == front + [last];
      WithoutMembers(front, a);
      FrontDistinct(ps);
      if last.sin != a {
        AppendDistinct(Without(front, a), last);
      }
    }
  }

  lemma FrontDistinct(ps: seq<Peer>)
    requires Distinct(ps) && ps != []
    ensures forall p :: p in ps[..|ps| - 1] ==> p.sin != ps[|ps| - 1].sin
  {
  }

  lemma AppendDistinct(ps: seq<Peer>, p: Peer)
    requires Distinct(ps) && forall q :: q in ps ==> q.sin != p.sin
    ensures Distinct(ps + [p])
  {
  }

  lemma PrependDistinct(p: Peer, ps: seq<Peer>)
    requires Distinct(ps) && forall q :: q in ps ==> q.sin != p.sin
    ensures Distinct([p] + ps)
  {
  }

  /** What holds of the list at all times: no server twice, and none that may not be
      listed. */
  ghost predicate Sound(c: Config, ps: seq<Peer>) {
    Distinct(ps) && forall p :: p in ps ==> Accepts(c, p.sin)
  }

  lemma AddedSound(c: Config, ps: seq<Peer>, a: Addr, now: int)
    requires Sound(c, ps)
    ensures Sound(c, Added(c, ps, a, now))
  {
    WithoutMembers(ps, a);
    hide Accepts, Without;
    if Accepts(c, a) {
      AppendDistinct(Without(ps, a), Peer(a, now));
    }
  }

  // Who is listed after a contact.
  lemma AddedMembers(c: Config, ps: seq<Peer>, a: Addr, now: int)
    requires Distinct(ps)
    ensures Distinct(Added(c, ps, a, now))
    ensures forall p :: p in Added(c, ps, a, now) <==>
              if Accepts(c, a) then p == Peer(a, now) || (p in ps && p.sin != a) else p in ps
  {
    WithoutMembers(ps, a);
    hide Accepts, Without;
    if Accepts(c, a) {
      AppendDistinct(Without(ps, a), Peer(a, now));
    }
  }

  lemma {:induction false} PrunedMembers(ps: seq<Peer>, t: Clock)
    ensures forall p :: p in Pruned(ps, t) <==> p in ps && !Stale(p, t)
    ensures Distinct(ps) ==> Distinct(Pruned(ps, t))
    decreases |ps|
  {
    if ps != [] {
      PrunedMembers(ps[1..], t);
      assert ps == [ps[0]] + ps[1..];
      if Distinct(ps) {
        PrependDistinct(ps[0], Pruned(ps[1..], t));
      }
    }
  }

  lemma {:induction false} PrunedSplit(ps: seq<Peer>, qs: seq<Peer>, t: Clock)
    ensures Pruned(ps + qs, t) == Pruned(ps, t) + Pruned(qs, t)
    decreases |ps|
  {
    if ps == [] {
      assert ps + qs == qs;
    } else {
      assert (ps + qs)[1..] == ps[1..] + qs;
      PrunedSplit(ps[1..], qs, t);
    }
  }

  /** While probing is on, what a look at the list leaves is half an hour old at most, or was
      not probed for since; and it takes nothing else away. */
  lemma PrunedAge(ps: seq<Peer>, t: Clock, p: Peer)
    ensures p in Pruned(ps, t) <==> p in ps && (t.noprobe || t.when - p.when <= 1800 || p.when >= t.lastProbe)
  {
    PrunedMembers(ps, t);
  }

  class PeerList {
    var prb: array<Peer>
    var used: nat

    ghost predicate Valid()
      reads this, prb
    {
      used <= prb.Length && Distinct(prb[..used])
    }

    function Peers(): seq<Peer>
      requires used <= prb.Length
      reads this, prb
    {
      prb[..used]
    }

    constructor ()
      ensures Valid() && fresh(prb) && Peers() == []
    {
      prb, used := new Peer[0], 0;
    }

    // The search that prb_add and prb_del share, from the end.
    method Find(p: Addr) returns (found: Option<nat>)
      requires Valid()
      ensures match found
              case None => !Listed(Peers(), p)
              case Some(i) => i < used && Peers()[i].sin == p
    {
      var i := used;
      while i > 0
        invariant 0 <= i <= used && forall k :: i <= k < used ==> Peers()[k].sin != p
      {
        i := i - 1;
        if prb[i].sin == p {
          return Some(i);
        }
      }
      return None;
    }

    // The entry at i is taken out.
    method Remove(i: nat)
      requires Valid() && i < used
      modifies this, prb
      ensures Valid() && prb == old(prb) && Peers() == Without(old(Peers()), old(Peers()[i].sin))
      ensures Peers() == old(Peers()[..i]) + old(Peers()[i + 1..])
    {
      hide Without, Distinct;
      ghost var s := Peers();
      WithoutMid(s, i);
      ShiftDown(prb, i, used);
      used := used - 1;
      assert prb[..used] == s[..i] + s[i + 1..];
    }

    /** prb_add (Tools/gdomap.c:926-991). */
    method Add(c: Config, p: Addr, now: int)
      requires Valid()
      modifies this, prb
      ensures Valid() && (prb == old(prb) || fresh(prb))
      ensures Peers() == Added(c, old(Peers()), p, now)
    {
      if IsLocalHost(c, p) {
        return;
      }
      if !IsLocalNet(c, p) && !IsProbeHost(c, p) {
        return;
      }
      ghost var s := Peers();
      var found := Find(p);
      WithoutMembers(s, p);
      hide Without, Distinct, IsLocalHost, IsLocalNet, IsProbeHost;
      if found.Some? {
        Remove(found.value);
      } else {
        WithoutNone(s, p);
      }
      Append(Peer(p, now));
    }

    // At the end, in a larger array if need be.
    method Append(p: Peer)
      requires Valid() && forall q :: q in Peers() ==> q.sin != p.sin
      modifies this, prb
      ensures Valid() && (prb == old(prb) || fresh(prb)) && Peers() == old(Peers()) + [p]
    {
      ghost var s := Peers();
      AppendDistinct(s, p);
      if used >= prb.Length {
        var more := new Peer[used + 16](_ => Peer(0, 0));
        for i := 0 to used
          modifies more
          invariant more[..i] == s[..i]
        {
          more[i] := prb[i];
        }
        prb := more;
      }
      prb[used] := p;
      used := used + 1;
      assert prb[..used] == s + [p];
    }

    /** prb_del (Tools/gdomap.c:998-1016). */
    method Del(p: Addr)
      requires Valid()
      modifies this, prb
      ensures Valid() && prb == old(prb) && Peers() == Without(old(Peers()), p)
    {
      var found := Find(p);
      if found.Some? {
        Remove(found.value);
      } else {
        WithoutNone(Peers(), p);
      }
    }

    /** prb_tim (Tools/gdomap.c:1022-1035): entries are deleted by address while the
        loop goes down; no entry is missed, and no other is deleted. */
    method Tim(t: Clock)
      requires Valid()
      modifies this, prb
      ensures Valid() && prb == old(prb) && Peers() == Pruned(old(Peers()), t)
    {
      ghost var s := Peers();
      var i := used;
      assert s[..i] == s && s[i..] == [];
      while i > 0
        invariant Valid() && prb == old(prb) && 0 <= i <= used && i <= |s|
        invariant Peers() == s[..i] + Pruned(s[i..], t)
      {
        hide Pruned, Stale, Distinct;
        i := i - 1;
        TimStep(s, i, t);
        TimOne(i, t, s[i], s[..i], Pruned(s[i + 1..], t));
      }
    }

    // The entry at i is looked at.
    method TimOne(i: nat, t: Clock, ghost p: Peer, ghost a: seq<Peer>, ghost b: seq<Peer>)
      requires Valid() && i == |a| && Peers() == a + [p] + b
      modifies this, prb
      ensures Valid() && prb == old(prb)
      ensures Peers() == a + ((if Stale(p, t) then [] else [p]) + b)
    {
      assert Peers()[..i] == a && Peers()[i] == p && Peers()[i + 1..] == b;
      if Stale(prb[i], t) {
        WithoutMid(Peers(), i);
        hide Without, Distinct;
        Del(prb[i].sin);
      }
    }

    /** The reply to SERVERS (Tools/gdomap.c:3120-3137): their number, the address the
        request came from, and the servers, the last one contacted first. */
    method ServersReply(from: Addr) returns (buf: array<Byte>)
      requires Valid() && used < 0xffff_ffff
      ensures fresh(buf) && buf[..] == ServersBytes(Peers(), from)
    {
      buf := new Byte[4 + (used + 1) * 4](_ => 0);
      PutWord(buf, 0, used + 1);
      PutWord(buf, 4, from);
      PutReversed(buf);
    }

    method PutReversed(buf: array<Byte>)
      requires Valid() && buf.Length == 8 + used * 4
      modifies buf
      ensures buf[..] == old(buf[..8]) + Reversed(Peers())
    {
      hide Distinct, Reversed;
      ghost var head, ps := buf[..8], Peers();
      ReversedNone(ps);
      var i, j := 0, used;
      while i < used
        invariant 0 <= i <= used && j == used - i
        invariant buf[..4 + (i + 1) * 4] == head + Reversed(ps[j..])
      {
        j := j - 1;
        ReversedNext(ps, j);
        PutWord(buf, 4 + (i + 1) * 4, prb[j].sin);
        i := i + 1;
      }
      assert ps[0..] == ps;
      assert buf[..] == buf[..4 + (used + 1) * 4];
    }
  }

  lemma ReversedNone(ps: seq<Peer>)
    ensures Reversed(ps[|ps|..]) == []
  {
  }

  method PutWord(buf: array<Byte>, at: nat, w: Word)
    requires at + 4 <= buf.Length
    modifies buf
    ensures buf[..at + 4] == old(buf[..at]) + Htonl(w)
  {
    var b := Htonl(w);
    buf[at], buf[at + 1], buf[at + 2], buf[at + 3] := b[0], b[1], b[2], b[3];
    assert buf[..at + 4] == old(buf[..at]) + b;
  }

  /** The bytes of the reply to SERVERS. */
  function ServersBytes(ps: seq<Peer>, from: Addr): seq<Byte>
    requires |ps| < 0xffff_ffff
  {
    Htonl(|ps| + 1) + Htonl(from) + Reversed(ps)
  }

  /** The addresses from the last to the first. */
  function Reversed(ps: seq<Peer>): (b: seq<Byte>)
    ensures |b| == 4 * |ps|
  {
    if ps == [] then [] else Reversed(ps[1..]) + Htonl(ps[0].sin)
  }

  lemma ReversedNext(ps: seq<Peer>, j: nat)
    requires j < |ps|
    ensures Reversed(ps[j..]) == Reversed(ps[j + 1..]) + Htonl(ps[j].sin)
  {
    assert ps[j..][1..] == ps[j + 1..];
  }

  lemma {:induction false} ReversedAt(ps: seq<Peer>, k: nat)
    requires k < |ps|
    ensures |Reversed(ps)| == 4 * |ps| && Reversed(ps)[4 * k..4 * k + 4] == Htonl(ps[|ps| - 1 - k].sin)
    decreases |ps|
  {
    var r := Reversed(ps[1..]);
    if k < |ps| - 1 {
      ReversedAt(ps[1..], k);
      assert Reversed(ps)[4 * k..4 * k + 4] == r[4 * k..4 * k + 4];
    } else {
      assert Reversed(ps)[4 * k..4 * k + 4] == Htonl(ps[0].sin);
    }
  }

  lemma TimStep(s: seq<Peer>, i: nat, t: Clock)
    requires i < |s|
    ensures s[..i + 1] == s[..i] + [s[i]] && s[i..][1..] == s[i + 1..] && s[i..] != [] && s[i..][0] == s[i]
    ensures Pruned(s[i..], t) == (if Stale(s[i], t) then [] else [s[i]]) + Pruned(s[i + 1..], t)
  {
    assert s[i..][1..] == s[i + 1..];
  }

  lemma WithoutMid(r: seq<Peer>, i: nat)
    requires Distinct(r) && i < |r|
    ensures Without(r, r[i].sin) == r[..i] + r[i + 1..] && Distinct(r[..i] + r[i + 1..])
  {
    WithoutAt(r, r[i].sin, i);
    WithoutMembers(r, r[i].sin);
  }

  /** For example, a host at 192.168.1.5 with the mask 255.255.255.0, that is to probe
      10.0.0.9 besides: it may list 192.168.1.7 and 10.0.0.9, but not 192.168.2.7, and not
      itself. */
  lemma OneHost()
    ensures var c := Config([Interface(0xC0A80105, 0xFFFFFF00)], [0x0A000009, 0xC0A80105], 0x7F000001);
            && Accepts(c, 0xC0A80107) && Accepts(c, 0x0A000009) && !Accepts(c, 0xC0A80207) && !Accepts(c, 0xC0A80105)
            && IsLocalHost(c, 0xC0A80105) && !IsLocalHost(c, 0xC0A80107)
  {
    var i := Interface(0xC0A80105, 0xFFFFFF00);
    var c := Config([i], [0x0A000009, 0xC0A80105], 0x7F000001);
    assert c.interfaces[0] == i;
    assert OnNet(i, 0xC0A80107) && !OnNet(i, 0xC0A80207);
  }
}
