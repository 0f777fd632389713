/** Any number of name servers that probe each other over a network which may delay,
    lose and reorder what is sent, and deliver a broadcast to many. */
module ProbeNet {
  import opened Peers
  import opened Probes

  // A message on its way to a server, with the addresses it was sent to and from.
  datatype Flight = Flight(dest: nat, to: Addr, src: Addr, port: Port, msg: Message)

  // The servers, what is on its way, and the addresses that reach many.
  datatype Net = Net(nodes: seq<Node>, wires: seq<Flight>, broadcasts: set<Addr>)

  predicate Owns(n: Node, a: Addr) {
    IsLocalHost(n.config, a)
  }

  // A message to that address may come to that server.
  predicate Reaches(n: Net, to: Addr, dest: nat) {
    dest < |n.nodes| && (Owns(n.nodes[dest], to) || to in n.broadcasts)
  }

  // What init_probe queues (Tools/gdomap.c:2066-2302): probes that name the sender.
  predicate OwnProbe(n: Node, l: Letter) {
    l.msg.Probe? && Owns(n, l.msg.first)
  }

  /** What can happen: the first letter of a queue is sent, from an address of the sender,
      to servers that its address reaches (to none, if sending fails); a message arrives,
      or is lost; a server looks over its list; a server starts probing. */
  datatype Step = Send(node: nat, src: Addr, dests: seq<nat>)
                | Arrive(wire: nat, now: int)
                | Lose(wire: nat)
                | Look(node: nat, clock: Clock)
                | Start(node: nat, letters: seq<Letter>)

  predicate Enabled(n: Net, s: Step) {
    match s
    case Send(i, src, dests) =>
      && i < |n.nodes| && n.nodes[i].queue != [] && |dests| <= |n.nodes| && Owns(n.nodes[i], src)
      && forall k :: 0 <= k < |dests| ==> Reaches(n, n.nodes[i].queue[0].to, dests[k])
    case Arrive(k, now) => k < |n.wires|
    case Lose(k) => k < |n.wires|
    case Look(i, t) => i < |n.nodes|
    case Start(i, letters) =>
      i < |n.nodes| && forall k :: 0 <= k < |letters| ==> OwnProbe(n.nodes[i], letters[k])
  }

  function Copies(l: Letter, src: Addr, port: Port, dests: seq<nat>): seq<Flight> {
    if dests == [] then []
    else Copies(l, src, port, dests[..|dests| - 1]) + [Flight(dests[|dests| - 1], l.to, src, port, l.msg)]
  }

  // The wires without the k-th message.
  function Off(wires: seq<Flight>, k: nat): seq<Flight>
    requires k < |wires|
  {
    wires[..k] + wires[k + 1..]
  }

  function After(n: Net, s: Step): Net
    requires Enabled(n, s)
  {
    match s
    case Send(i, src, dests) =>
      var node := n.nodes[i];
      n.(nodes := n.nodes[i := node.(queue := node.queue[1..])],
         wires := n.wires + Copies(node.queue[0], src, node.port, dests))
    case Arrive(k, now) =>
      var f := n.wires[k];
      if f.dest < |n.nodes|
      then n.(nodes := n.nodes[f.dest := Received(n.nodes[f.dest], f.src, f.port, f.msg, now)], wires := Off(n.wires, k))
      else n.(wires := Off(n.wires, k))
    case Lose(k) => n.(wires := Off(n.wires, k))
    case Look(i, t) =>
      n.(nodes := n.nodes[i := n.nodes[i].(peers := Pruned(n.nodes[i].peers, t))])
    case Start(i, letters) =>
      n.(nodes := n.nodes[i := n.nodes[i].(queue := n.nodes[i].queue + letters)])
  }

  // A run: every step can happen when its turn comes.
  predicate Possible(n: Net, steps: seq<Step>)
    decreases |steps|
  {
    steps != [] ==> Enabled(n, steps[0]) && Possible(After(n, steps[0]), steps[1..])
  }

  function RunNet(n: Net, steps: seq<Step>): Net
    requires Possible(n, steps)
    decreases |steps|
  {
    if steps == [] then n else RunNet(After(n, steps[0]), steps[1..])
  }

  // The steps that move messages.
  predicate Moves(s: Step) {
    s.Send? || s.Arrive? || s.Lose?
  }

  function Count(steps: seq<Step>): nat
    decreases |steps|
  {
    if steps == [] then 0 else (if Moves(steps[0]) then 1 else 0) + Count(steps[1..])
  }

  // What a message can still cause, when each server makes at most b replies, and each
  // letter becomes at most w messages.
  function Cost(m: Message, b: nat, w: nat): nat {
    if m.Probe? then 1 + b * (1 + w) else 1
  }

  function QueueCost(q: seq<Letter>, b: nat, w: nat): nat {
    if q == [] then 0 else QueueCost(q[..|q| - 1], b, w) + 1 + w * Cost(q[|q| - 1].msg, b, w)
  }

  function NodesCost(nodes: seq<Node>, b: nat, w: nat): nat {
    if nodes == [] then 0 else NodesCost(nodes[..|nodes| - 1], b, w) + QueueCost(nodes[|nodes| - 1].queue, b, w)
  }

  function WireCost(wires: seq<Flight>, b: nat, w: nat): nat {
    if wires == [] then 0 else WireCost(wires[..|wires| - 1], b, w) + Cost(wires[|wires| - 1].msg, b, w)
  }

  /** How many messages can still move. */
  function Traffic(n: Net, b: nat): nat {
    NodesCost(n.nodes, b, |n.nodes|) + WireCost(n.wires, b, |n.nodes|)
  }

  // No server makes more than b replies.
  predicate Bounded(nodes: seq<Node>, b: nat) {
    forall i :: 0 <= i < |nodes| ==> 1 + (|nodes[i].config.interfaces| + MAX_EXTRA - 1) / MAX_EXTRA <= b
  }

  lemma {:induction false} QueueCostSplit(p: seq<Letter>, q: seq<Letter>, b: nat, w: nat)
    ensures QueueCost(p + q, b, w) == QueueCost(p, b, w) + QueueCost(q, b, w)
    decreases |q|
  {
    if q == [] {
      assert p + q == p;
    } else {
      assert (p + q)[..|p + q| - 1] == p + q[..|q| - 1];
      QueueCostSplit(p, q[..|q| - 1], b, w);
    }
  }

  lemma {:induction false} WireCostSplit(p: seq<Flight>, q: seq<Flight>, b: nat, w: nat)
    ensures WireCost(p + q, b, w) == WireCost(p, b, w) + WireCost(q, b, w)
    decreases |q|
  {
    if q == [] {
      assert p + q == p;
    } else {
      assert (p + q)[..|p + q| - 1] == p + q[..|q| - 1];
      WireCostSplit(p, q[..|q| - 1], b, w);
    }
  }

  lemma OffCost(wires: seq<Flight>, k: nat, b: nat, w: nat)
    requires k < |wires|
    ensures WireCost(Off(wires, k), b, w) == WireCost(wires, b, w) - Cost(wires[k].msg, b, w)
  {
    var m := [wires[k]];
    WireCostSplit(wires[..k], m, b, w);
    WireCostSplit(wires[..k] + m, wires[k + 1..], b, w);
    WireCostSplit(wires[..k], wires[k + 1..], b, w);
    assert wires == wires[..k] + m + wires[k + 1..];
    assert m[..0] == [];
  }

  lemma {:induction false} CopiesCost(l: Letter, src: Addr, port: Port, dests: seq<nat>, b: nat, w: nat)
    ensures WireCost(Copies(l, src, port, dests), b, w) == |dests| * Cost(l.msg, b, w)
    decreases |dests|
  {
    if dests != [] {
      var c := Copies(l, src, port, dests[..|dests| - 1]);
      CopiesCost(l, src, port, dests[..|dests| - 1], b, w);
      var f := Flight(dests[|dests| - 1], l.to, src, port, l.msg);
      WireCostSplit(c, [f], b, w);
      assert [f][..0] == [];
      assert WireCost([f], b, w) == Cost(l.msg, b, w);
      MulNext(|dests| - 1, Cost(l.msg, b, w));
    }
  }

  lemma MulNext(n: nat, c: nat)
    ensures (n + 1) * c == n * c + c
  {
  }

  lemma MulMore(n: nat, m: nat, c: nat)
    requires n <= m
    ensures n * c <= m * c
  {
  }

  // One server changed.
  lemma {:induction false} NodesCostUpdate(nodes: seq<Node>, i: nat, n: Node, b: nat, w: nat)
    requires i < |nodes|
    ensures NodesCost(nodes[i := n], b, w)
            == NodesCost(nodes, b, w) - QueueCost(nodes[i].queue, b, w) + QueueCost(n.queue, b, w)
    decreases |nodes|
  {
    var r, k := nodes[i := n], |nodes| - 1;
    if i == k {
      assert r[..k] == nodes[..k];
    } else {
      assert r[..k] == nodes[..k][i := n];
      NodesCostUpdate(nodes[..k], i, n, b, w);
    }
  }

  // Letters that are no probes.
  lemma {:induction false} RepliesCost(r: seq<Letter>, b: nat, w: nat)
    requires forall l :: l in r ==> !l.msg.Probe?
    ensures QueueCost(r, b, w) == |r| * (1 + w)
    decreases |r|
  {
    if r != [] {
      RepliesCost(r[..|r| - 1], b, w);
      assert r[|r| - 1] in r;
      MulNext(|r| - 1, 1 + w);
    }
  }

  // A message costs more than all that comes of it.
  lemma ReceivedCost(n: Node, src: Addr, port: Port, m: Message, now: int, b: nat, w: nat)
    requires 1 + (|n.config.interfaces| + MAX_EXTRA - 1) / MAX_EXTRA <= b
    ensures QueueCost(Received(n, src, port, m, now).queue, b, w) < QueueCost(n.queue, b, w) + Cost(m, b, w)
  {
    var r := Replies(n, src, port, m);
    RepliesBounded(n, src, port, m);
    QueueCostSplit(n.queue, r, b, w);
    RepliesCost(r, b, w);
    MulMore(|r|, b, 1 + w);
    hide Replies, QueueCost;
    assert !m.Probe? ==> |r| * (1 + w) == 0;
  }

  lemma FirstLetterCost(q: seq<Letter>, b: nat, w: nat)
    requires q != []
    ensures QueueCost(q, b, w) == QueueCost(q[1..], b, w) + 1 + w * Cost(q[0].msg, b, w)
  {
    assert q == [q[0]] + q[1..];
    QueueCostSplit([q[0]], q[1..], b, w);
    assert [q[0]][..0] == [];
  }

  lemma SendDrains(n: Net, s: Step, b: nat)
    requires s.Send? && Enabled(n, s)
    ensures Traffic(After(n, s), b) < Traffic(n, b)
  {
    var node, w := n.nodes[s.node], |n.nodes|;
    var l := node.queue[0];
    var copies := Copies(l, s.src, node.port, s.dests);
    FirstLetterCost(node.queue, b, w);
    NodesCostUpdate(n.nodes, s.node, node.(queue := node.queue[1..]), b, w);
    WireCostSplit(n.wires, copies, b, w);
    CopiesCost(l, s.src, node.port, s.dests, b, w);
    MulMore(|s.dests|, w, Cost(l.msg, b, w));
  }

  lemma ArriveDrains(n: Net, s: Step, b: nat)
    requires s.Arrive? && Enabled(n, s) && Bounded(n.nodes, b)
    ensures Traffic(After(n, s), b) < Traffic(n, b)
  {
    hide QueueCost, WireCost, NodesCost, Received, Off;
    var f, w := n.wires[s.wire], |n.nodes|;
    OffCost(n.wires, s.wire, b, w);
    if f.dest < |n.nodes| {
      var node := n.nodes[f.dest];
      ReceivedCost(node, f.src, f.port, f.msg, s.now, b, w);
      NodesCostUpdate(n.nodes, f.dest, Received(node, f.src, f.port, f.msg, s.now), b, w);
    }
  }

  /** Every movement of a message takes from what can still move; looking lists over
      does not change it. */
  lemma MovementDrains(n: Net, s: Step, b: nat)
    requires Enabled(n, s) && Bounded(n.nodes, b) && !s.Start?
    ensures Bounded(After(n, s).nodes, b) && |After(n, s).nodes| == |n.nodes|
    ensures Traffic(After(n, s), b) + (if Moves(s) then 1 else 0) <= Traffic(n, b)
  {
    hide *;
    BoundedStays(n, s, b);
    if s.Send? {
      SendDrains(n, s, b);
    } else if s.Arrive? {
      ArriveDrains(n, s, b);
    } else if s.Lose? {
      LoseDrains(n, s, b);
    } else {
      LookKeeps(n, s, b);
    }
    MovesIs(s);
  }

  lemma MovesIs(s: Step)
    ensures Moves(s) <==> s.Send? || s.Arrive? || s.Lose?
  {
  }

  lemma BoundedStays(n: Net, s: Step, b: nat)
    requires Enabled(n, s) && Bounded(n.nodes, b)
    ensures Bounded(After(n, s).nodes, b) && |After(n, s).nodes| == |n.nodes|
  {
    SameConfigs(n, s);
    hide After, Enabled;
  }

  lemma LoseDrains(n: Net, s: Step, b: nat)
    requires s.Lose? && Enabled(n, s)
    ensures Traffic(After(n, s), b) < Traffic(n, b)
  {
    hide QueueCost, WireCost, NodesCost, Off;
    OffCost(n.wires, s.wire, b, |n.nodes|);
  }

  lemma LookKeeps(n: Net, s: Step, b: nat)
    requires s.Look? && Enabled(n, s)
    ensures Traffic(After(n, s), b) == Traffic(n, b)
  {
    hide QueueCost, WireCost, NodesCost, Pruned;
    NodesCostUpdate(n.nodes, s.node, n.nodes[s.node].(peers := Pruned(n.nodes[s.node].peers, s.clock)), b, |n.nodes|);
  }

  /** Quiescence: in every run in which no server starts probing, no more messages move
      than could at the beginning, so that all traffic ends. */
  lemma {:induction false} TrafficEnds(n: Net, steps: seq<Step>, b: nat)
    requires Possible(n, steps) && Bounded(n.nodes, b)
    requires forall k :: 0 <= k < |steps| ==> !steps[k].Start?
    ensures Count(steps) + Traffic(RunNet(n, steps), b) <= Traffic(n, b)
    decreases |steps|
  {
    if steps != [] {
      MovementDrains(n, steps[0], b);
      hide Traffic, Bounded, Enabled, After;
      TrafficEnds(After(n, steps[0]), steps[1..], b);
    }
  }

  ghost predicate AllSound(n: Net) {
    forall i :: 0 <= i < |n.nodes| ==> Sound(n.nodes[i].config, n.nodes[i].peers)
  }

  lemma {:induction false} AddAllSound(c: Config, ps: seq<Peer>, addrs: seq<Addr>, now: int)
    requires Sound(c, ps)
    ensures Sound(c, AddAll(c, ps, addrs, now))
    decreases |addrs|
  {
    if addrs != [] {
      AddedSound(c, ps, addrs[0], now);
      AddAllSound(c, Added(c, ps, addrs[0], now), addrs[1..], now);
    }
  }

  /** No server's list ever holds a server twice, or one that it may not hold. */
  lemma StepAllSound(n: Net, s: Step)
    requires Enabled(n, s) && AllSound(n)
    ensures AllSound(After(n, s))
  {
    hide Sound, Pruned, AddAll, Replies, Copies, Off;
    match s
    case Send(i, src, dests) =>
    case Arrive(k, now) =>
      var f := n.wires[k];
      if f.dest < |n.nodes| {
        var node := n.nodes[f.dest];
        AddAllSound(node.config, node.peers, Contacts(node, f.src, f.port, f.msg), now);
      }
    case Lose(k) =>
    case Look(i, t) => PrunedSound(n.nodes[i].config, n.nodes[i].peers, t);
    case Start(i, letters) =>
  }

  lemma PrunedSound(c: Config, ps: seq<Peer>, t: Clock)
    requires Sound(c, ps)
    ensures Sound(c, Pruned(ps, t))
  {
    PrunedMembers(ps, t);
  }

  // The network after r steps.
  function Nth(n: Net, steps: seq<Step>, r: nat): Net
    requires Possible(n, steps) && r <= |steps|
    decreases r
  {
    if r == 0 then n else Nth(After(n, steps[0]), steps[1..], r - 1)
  }

  lemma {:induction false} NthPossible(n: Net, steps: seq<Step>, r: nat)
    requires Possible(n, steps) && r <= |steps|
    ensures Possible(Nth(n, steps, r), steps[r..])
    ensures RunNet(Nth(n, steps, r), steps[r..]) == RunNet(n, steps)
    ensures r < |steps| ==> Enabled(Nth(n, steps, r), steps[r])
                            && Nth(n, steps, r + 1) == After(Nth(n, steps, r), steps[r])
    decreases r
  {
    hide After, Enabled;
    if r == 0 {
      assert steps[0..] == steps;
      if steps != [] {
        assert Nth(n, steps, 1) == Nth(After(n, steps[0]), steps[1..], 0);
      }
    } else {
      NthPossible(After(n, steps[0]), steps[1..], r - 1);
      assert steps[1..][r - 1..] == steps[r..];
    }
  }

  /** In every reachable state no server's list holds a server twice, or one that it may
      not hold. */
  lemma {:induction false} RunAllSound(n: Net, steps: seq<Step>, r: nat)
    requires Possible(n, steps) && r <= |steps| && AllSound(n)
    ensures AllSound(Nth(n, steps, r))
    decreases r
  {
    if r > 0 {
      hide After, Enabled, AllSound;
      StepAllSound(n, steps[0]);
      RunAllSound(After(n, steps[0]), steps[1..], r - 1);
    }
  }

  // Server i lists a, and has heard of it at that time or later.
  ghost predicate KnownSince(n: Net, i: nat, a: Addr, since: int) {
    i < |n.nodes| && ListedSince(n.nodes[i].peers, a, since)
  }

  ghost predicate ListedSince(ps: seq<Peer>, a: Addr, since: int) {
    exists p :: p in ps && p.sin == a && p.when >= since
  }

  lemma AddedListed(c: Config, ps: seq<Peer>, b: Addr, now: int, a: Addr, since: int)
    requires Sound(c, ps) && since <= now
    requires ListedSince(ps, a, since) || (a == b && Accepts(c, a))
    ensures ListedSince(Added(c, ps, b, now), a, since)
  {
    WithoutMembers(ps, b);
    hide Without, Accepts, Distinct;
    if Accepts(c, b) && a == b {
      assert Peer(a, now) in Added(c, ps, b, now);
    } else if Accepts(c, b) {
      var p :| p in ps && p.sin == a && p.when >= since;
      assert p in Added(c, ps, b, now);
    }
  }

  lemma {:induction false} AddAllListed(c: Config, ps: seq<Peer>, addrs: seq<Addr>, now: int, a: Addr, since: int)
    requires Sound(c, ps) && since <= now
    requires ListedSince(ps, a, since) || (a in addrs && Accepts(c, a))
    ensures ListedSince(AddAll(c, ps, addrs, now), a, since)
    decreases |addrs|
  {
    if addrs != [] {
      hide ListedSince, Accepts, Added, Sound;
      AddedSound(c, ps, addrs[0], now);
      if ListedSince(ps, a, since) || a == addrs[0] {
        AddedListed(c, ps, addrs[0], now, a, since);
      }
      AddAllListed(c, Added(c, ps, addrs[0], now), addrs[1..], now, a, since);
    }
  }

  // The step brings server i a probe, or a reply to one, that makes a known to it.
  predicate Contacted(n: Net, s: Step, i: nat, a: Addr) {
    && s.Arrive? && s.wire < |n.wires| && i < |n.nodes| && n.wires[s.wire].dest == i
    && a in Contacts(n.nodes[i], n.wires[s.wire].src, n.wires[s.wire].port, n.wires[s.wire].msg)
  }

  // A probe, and not a reply.
  predicate Probed(n: Net, s: Step, i: nat, a: Addr) {
    Contacted(n, s, i, a) && n.wires[s.wire].msg.Probe?
  }

  /** The step does not make server i forget what it heard of at that time: when it looks
      over its list that was not half an hour ago, or it has not probed since, or it does
      not probe; and its clock does not go back. */
  predicate Fresh(n: Net, s: Step, i: nat, since: int) {
    && (s.Look? && s.node == i ==> s.clock.noprobe || s.clock.when - 1800 <= since || s.clock.lastProbe <= since)
    && (s.Arrive? && s.wire < |n.wires| && n.wires[s.wire].dest == i ==> since <= s.now)
  }

  predicate StaysFresh(n: Net, steps: seq<Step>, i: nat, since: int)
    requires Possible(n, steps)
    decreases |steps|
  {
    steps != [] ==> Fresh(n, steps[0], i, since) && StaysFresh(After(n, steps[0]), steps[1..], i, since)
  }

  lemma PrunedListed(ps: seq<Peer>, t: Clock, a: Addr, since: int)
    requires ListedSince(ps, a, since) && (t.noprobe || t.when - 1800 <= since || t.lastProbe <= since)
    ensures ListedSince(Pruned(ps, t), a, since)
  {
    PrunedMembers(ps, t);
    var p :| p in ps && p.sin == a && p.when >= since;
    assert p in Pruned(ps, t);
  }

  lemma ContactListed(n: Net, s: Step, i: nat, a: Addr)
    requires Enabled(n, s) && AllSound(n) && Contacted(n, s, i, a) && Accepts(n.nodes[i].config, a)
    ensures KnownSince(After(n, s), i, a, s.now)
  {
    hide Listed, AddAll, Replies, Off, Sound, Accepts, IsLocalHost, ListedSince, Contacts;
    var f := n.wires[s.wire];
    var node := n.nodes[i];
    AddAllListed(node.config, node.peers, Contacts(node, f.src, f.port, f.msg), s.now, a, s.now);
  }

  lemma StepKnown(n: Net, s: Step, i: nat, a: Addr, since: int)
    requires Enabled(n, s) && AllSound(n) && KnownSince(n, i, a, since) && Fresh(n, s, i, since)
    ensures KnownSince(After(n, s), i, a, since)
  {
    hide Listed, Pruned, AddAll, Replies, Copies, Off, Sound, Accepts, IsLocalHost, ListedSince, Contacts;
    match s
    case Send(j, src, dests) =>
    case Arrive(k, now) =>
      var f := n.wires[k];
      if f.dest == i {
        var node := n.nodes[i];
        AddAllListed(node.config, node.peers, Contacts(node, f.src, f.port, f.msg), now, a, since);
      }
    case Lose(k) =>
    case Look(j, t) =>
      if j == i {
        PrunedListed(n.nodes[i].peers, t, a, since);
      }
    case Start(j, letters) =>
  }

  lemma {:induction false} KnownStays(n: Net, steps: seq<Step>, i: nat, a: Addr, since: int)
    requires Possible(n, steps) && AllSound(n) && KnownSince(n, i, a, since) && StaysFresh(n, steps, i, since)
    ensures KnownSince(RunNet(n, steps), i, a, since)
    decreases |steps|
  {
    if steps != [] {
      hide KnownSince, Fresh, After, Enabled, AllSound;
      StepKnown(n, steps[0], i, a, since);
      StepAllSound(n, steps[0]);
      KnownStays(After(n, steps[0]), steps[1..], i, a, since);
    }
  }

  /** What a server hears of it lists, if it may, until it is no longer fresh. */
  lemma ContactIsKnown(n: Net, steps: seq<Step>, p: nat, i: nat, a: Addr)
    requires Possible(n, steps) && AllSound(n) && p < |steps| && steps[p].Arrive?
    requires Contacted(Nth(n, steps, p), steps[p], i, a)
    requires Accepts(Nth(n, steps, p).nodes[i].config, a)
    requires Possible(Nth(n, steps, p + 1), steps[p + 1..])
             && StaysFresh(Nth(n, steps, p + 1), steps[p + 1..], i, steps[p].now)
    ensures KnownSince(RunNet(n, steps), i, a, steps[p].now)
  {
    hide *;
    NthPossible(n, steps, p);
    NthPossible(n, steps, p + 1);
    RunAllSound(n, steps, p);
    RunAllSound(n, steps, p + 1);
    ContactListed(Nth(n, steps, p), steps[p], i, a);
    KnownStays(Nth(n, steps, p + 1), steps[p + 1..], i, a, steps[p].now);
  }

  // Who has been probed by, or for, whom.
  type History = set<(nat, Addr)>

  function ProbedIn(n: Net, s: Step): History {
    if s.Arrive? && s.wire < |n.wires| && n.wires[s.wire].dest < |n.nodes| && n.wires[s.wire].msg.Probe? then
      var f := n.wires[s.wire];
      set a | a in Contacts(n.nodes[f.dest], f.src, f.port, f.msg) :: (f.dest, a)
    else {}
  }

  function ProbedSoFar(n: Net, steps: seq<Step>, r: nat): History
    requires Possible(n, steps) && r <= |steps|
    decreases r
  {
    if r == 0 then {} else ProbedIn(n, steps[0]) + ProbedSoFar(After(n, steps[0]), steps[1..], r - 1)
  }

  // Every reply waiting is for somebody who probed, or was named in a probe; every reply
  // on its way comes from an address of such a server.
  ghost predicate Caused(n: Net, h: History) {
    && (forall i, k :: 0 <= i < |n.nodes| && 0 <= k < |n.nodes[i].queue| ==> LetterCaused(i, n.nodes[i].queue[k], h))
    && (forall k :: 0 <= k < |n.wires| ==> FlightCaused(n, n.wires[k], h))
  }

  predicate LetterCaused(i: nat, l: Letter, h: History) {
    l.msg.Preply? ==> (i, l.to) in h
  }

  ghost predicate FlightCaused(n: Net, f: Flight, h: History) {
    && Reaches(n, f.to, f.dest)
    && (f.msg.Preply? ==> exists j :: 0 <= j < |n.nodes| && Owns(n.nodes[j], f.src) && (j, f.to) in h)
  }

  // Nothing is on its way, and only probes wait.
  predicate Quiet(n: Net) {
    n.wires == [] && forall i, k :: 0 <= i < |n.nodes| && 0 <= k < |n.nodes[i].queue| ==> n.nodes[i].queue[k].msg.Probe?
  }

  lemma SameConfigs(n: Net, s: Step)
    requires Enabled(n, s)
    ensures var m := After(n, s);
            && |m.nodes| == |n.nodes| && m.broadcasts == n.broadcasts
            && forall i :: 0 <= i < |n.nodes| ==> m.nodes[i].config == n.nodes[i].config && m.nodes[i].port == n.nodes[i].port
  {
    hide Replies, Contacts, AddAll, Pruned, Copies, Off, IsLocalHost;
  }

  // Servers keep their addresses, so that what was caused stays so.
  lemma StillCaused(n: Net, m: Net, f: Flight, h: History, g: History)
    requires |m.nodes| == |n.nodes| && m.broadcasts == n.broadcasts && h <= g
    requires forall i :: 0 <= i < |n.nodes| ==> m.nodes[i].config == n.nodes[i].config
    requires FlightCaused(n, f, h)
    ensures FlightCaused(m, f, g)
  {
    hide IsLocalHost;
    if f.msg.Preply? {
      var j :| 0 <= j < |n.nodes| && Owns(n.nodes[j], f.src) && (j, f.to) in h;
      assert Owns(m.nodes[j], f.src) && (j, f.to) in g;
    }
  }

  lemma {:induction false} CopiesAre(l: Letter, src: Addr, port: Port, dests: seq<nat>)
    ensures |Copies(l, src, port, dests)| == |dests|
    ensures forall k :: 0 <= k < |dests| ==> Copies(l, src, port, dests)[k] == Flight(dests[k], l.to, src, port, l.msg)
    decreases |dests|
  {
    if dests != [] {
      CopiesAre(l, src, port, dests[..|dests| - 1]);
    }
  }

  lemma RepliesCaused(n: Node, i: nat, src: Addr, port: Port, m: Message, h: History)
    requires m.Probe? ==> forall a :: a in Contacts(n, src, port, m) ==> (i, a) in h
    ensures forall l :: l in Replies(n, src, port, m) ==> LetterCaused(i, l, h)
  {
    if !IsLocalHost(n.config, src) && m.Probe? && port == n.port {
      var base := BaseAddress(n.config, m.second, src);
      assert m.first in Contacts(n, src, port, m) && src in Contacts(n, src, port, m);
      ExtraLettersAre(n.port, m.first, base, Parts(OtherAddresses(n.config.interfaces, base)));
    }
  }

  lemma FlightsCaused(n: Net, s: Step, h: History)
    requires Enabled(n, s) && Caused(n, h)
    ensures forall k :: 0 <= k < |After(n, s).wires| ==> FlightCaused(After(n, s), After(n, s).wires[k], h + ProbedIn(n, s))
  {
    SameConfigs(n, s);
    var m, g := After(n, s), h + ProbedIn(n, s);
    forall k | 0 <= k < |m.wires|
      ensures FlightCaused(m, m.wires[k], g)
    {
      WireFrom(n, s, k);
      hide ProbedIn, After, Enabled, IsLocalHost;
      if m.wires[k] in n.wires {
        var j :| 0 <= j < |n.wires| && n.wires[j] == m.wires[k];
        StillCaused(n, m, m.wires[k], h, g);
      } else {
        assert LetterCaused(s.node, n.nodes[s.node].queue[0], h);
        StillCaused(n, m, m.wires[k], h, g);
      }
    }
  }

  // What is on its way was so before, or has just been sent.
  lemma WireFrom(n: Net, s: Step, k: nat)
    requires Enabled(n, s) && k < |After(n, s).wires|
    ensures var f := After(n, s).wires[k];
            f in n.wires || (s.Send? && n.nodes[s.node].queue != [] && f.to == n.nodes[s.node].queue[0].to
                             && f.msg == n.nodes[s.node].queue[0].msg && f.src == s.src
                             && Owns(n.nodes[s.node], f.src) && Reaches(n, f.to, f.dest))
  {
    hide Replies, Contacts, AddAll, Pruned, IsLocalHost;
    match s
    case Send(i, src, dests) =>
      CopiesAre(n.nodes[i].queue[0], src, n.nodes[i].port, dests);
      hide Copies;
    case Arrive(_, _) =>
    case Lose(_) =>
    case Look(_, _) =>
    case Start(_, _) =>
  }

  lemma LettersCaused(n: Net, s: Step, h: History, i: nat, k: nat)
    requires Enabled(n, s) && Caused(n, h) && i < |After(n, s).nodes| && k < |After(n, s).nodes[i].queue|
    ensures LetterCaused(i, After(n, s).nodes[i].queue[k], h + ProbedIn(n, s))
  {
    SameConfigs(n, s);
    var q, q' := n.nodes[i].queue, After(n, s).nodes[i].queue;
    if q'[k] in q {
      var j :| 0 <= j < |q| && q[j] == q'[k];
      assert LetterCaused(i, q[j], h);
    } else {
      NewLetter(n, s, h, i, k);
    }
  }

  lemma NewLetter(n: Net, s: Step, h: History, i: nat, k: nat)
    requires Enabled(n, s) && i < |n.nodes| == |After(n, s).nodes| && k < |After(n, s).nodes[i].queue|
    requires After(n, s).nodes[i].queue[k] !in n.nodes[i].queue
    ensures LetterCaused(i, After(n, s).nodes[i].queue[k], h + ProbedIn(n, s))
  {
    hide Replies, Contacts, AddAll, Pruned, Copies, Off, IsLocalHost;
    match s
    case Send(_, _, _) =>
    case Arrive(w, now) =>
      var f := n.wires[w];
      RepliesCaused(n.nodes[i], i, f.src, f.port, f.msg, h + ProbedIn(n, s));
    case Lose(_) =>
    case Look(_, _) =>
    case Start(_, letters) =>
      assert OwnProbe(n.nodes[i], letters[k - |n.nodes[i].queue|]);
  }

  lemma StepCaused(n: Net, s: Step, h: History)
    requires Enabled(n, s) && Caused(n, h)
    ensures Caused(After(n, s), h + ProbedIn(n, s))
  {
    FlightsCaused(n, s, h);
    var m := After(n, s);
    forall i, k | 0 <= i < |m.nodes| && 0 <= k < |m.nodes[i].queue|
      ensures LetterCaused(i, m.nodes[i].queue[k], h + ProbedIn(n, s))
    {
      LettersCaused(n, s, h, i, k);
    }
  }

  lemma {:induction false} RunCaused(n: Net, steps: seq<Step>, r: nat, h: History)
    requires Possible(n, steps) && r <= |steps| && Caused(n, h)
    ensures Caused(Nth(n, steps, r), h + ProbedSoFar(n, steps, r))
    decreases r
  {
    hide After, Enabled, Caused, ProbedIn;
    if r == 0 {
      assert h + {} == h;
    } else {
      var g := ProbedIn(n, steps[0]);
      StepCaused(n, steps[0], h);
      RunCaused(After(n, steps[0]), steps[1..], r - 1, h + g);
      assert h + g + ProbedSoFar(After(n, steps[0]), steps[1..], r - 1) == h + ProbedSoFar(n, steps, r);
    }
  }

  // A probe in the history has arrived at some step.
  lemma {:induction false} ProbedAt(n: Net, steps: seq<Step>, r: nat, j: nat, a: Addr) returns (p: nat)
    requires Possible(n, steps) && r <= |steps| && (j, a) in ProbedSoFar(n, steps, r)
    ensures p < r && Probed(Nth(n, steps, p), steps[p], j, a)
    decreases r
  {
    hide After, Enabled;
    if (j, a) in ProbedIn(n, steps[0]) {
      p := 0;
      hide Contacts;
    } else {
      p := ProbedAt(After(n, steps[0]), steps[1..], r - 1, j, a);
      p := p + 1;
    }
  }

  /** Every reply was caused by a probe: in a run that begins quietly, when a reply comes
      to server i from the address b, sent to the address a, then a is an address of i or
      of a broadcast, b is one of some server j, and a probe from a, or that named a, had
      come to j before. */
  lemma ReplyIsCaused(n: Net, steps: seq<Step>, r: nat) returns (j: nat, p: nat)
    requires Possible(n, steps) && Quiet(n) && r < |steps| && steps[r].Arrive?
    requires steps[r].wire < |Nth(n, steps, r).wires| && Nth(n, steps, r).wires[steps[r].wire].msg.Preply?
    ensures var m := Nth(n, steps, r); var f := m.wires[steps[r].wire];
            && Reaches(m, f.to, f.dest)
            && j < |m.nodes| && Owns(m.nodes[j], f.src) && p < r && Probed(Nth(n, steps, p), steps[p], j, f.to)
  {
    assert Caused(n, {});
    hide *;
    RunCaused(n, steps, r, {});
    assert {} + ProbedSoFar(n, steps, r) == ProbedSoFar(n, steps, r);
    j := SenderOf(Nth(n, steps, r), ProbedSoFar(n, steps, r), steps[r].wire);
    p := ProbedAt(n, steps, r, j, Nth(n, steps, r).wires[steps[r].wire].to);
  }

  lemma SenderOf(m: Net, h: History, k: nat) returns (j: nat)
    requires Caused(m, h) && k < |m.wires| && m.wires[k].msg.Preply?
    ensures j < |m.nodes| && Owns(m.nodes[j], m.wires[k].src) && (j, m.wires[k].to) in h
    ensures Reaches(m, m.wires[k].to, m.wires[k].dest)
  {
    assert FlightCaused(m, m.wires[k], h);
    hide IsLocalHost;
    var i :| 0 <= i < |m.nodes| && Owns(m.nodes[i], m.wires[k].src) && (i, m.wires[k].to) in h;
    j := i;
  }

  // From step p on server i does not forget what it then heard of.
  predicate FreshFrom(n: Net, steps: seq<Step>, p: nat, i: nat)
    requires Possible(n, steps) && p < |steps| && steps[p].Arrive?
  {
    && Possible(Nth(n, steps, p + 1), steps[p + 1..])
    && StaysFresh(Nth(n, steps, p + 1), steps[p + 1..], i, steps[p].now)
  }

  /** A probe and the reply to it inform both sides. In a run that begins quietly, when a
      reply from the address b comes to server i at its address a, there is a server j
      that has the address b and has got a probe from a, or naming it, before; and at the
      end i lists b, and j lists a, if they may and what they heard is fresh. */
  lemma ExchangeInforms(n: Net, steps: seq<Step>, r: nat, i: nat, a: Addr, b: Addr) returns (j: nat, p: nat)
    requires Possible(n, steps) && AllSound(n) && Quiet(n) && r < |steps|
    requires var m := Nth(n, steps, r);
             && steps[r].Arrive? && steps[r].wire < |m.wires| && i < |m.nodes|
             && var f := m.wires[steps[r].wire];
                f.msg.Preply? && f.dest == i && f.to == a && f.src == b && f.port == m.nodes[i].port
                && !IsLocalHost(m.nodes[i].config, b) && a !in m.broadcasts
    ensures var m := Nth(n, steps, r);
            && Owns(m.nodes[i], a) && j < |m.nodes| && Owns(m.nodes[j], b)
            && p < r && Probed(Nth(n, steps, p), steps[p], j, a)
            && (Accepts(m.nodes[i].config, b) && FreshFrom(n, steps, r, i) ==>
                  KnownSince(RunNet(n, steps), i, b, steps[r].now))
            && (Accepts(Nth(n, steps, p).nodes[j].config, a) && FreshFrom(n, steps, p, j) ==>
                  KnownSince(RunNet(n, steps), j, a, steps[p].now))
  {
    j, p := ReplyIsCaused(n, steps, r);
    hide IsLocalHost, After, Enabled, AllSound, Possible, Nth, RunNet, Accepts, StaysFresh, KnownSince, Quiet;
    if Accepts(Nth(n, steps, r).nodes[i].config, b) && FreshFrom(n, steps, r, i) {
      ContactIsKnown(n, steps, r, i, b);
    }
    if Accepts(Nth(n, steps, p).nodes[j].config, a) && FreshFrom(n, steps, p, j) {
      ContactIsKnown(n, steps, p, j, a);
    }
  }

  /** The reply is on its way to the address that the probe came from as soon as the
      probe has reached another server. */
  lemma ProbeIsAnswered(n: Net, s: Step)
    requires s.Arrive? && Enabled(n, s) && n.wires[s.wire].msg.Probe?
    requires var f := n.wires[s.wire];
             f.dest < |n.nodes| && f.port == n.nodes[f.dest].port && !IsLocalHost(n.nodes[f.dest].config, f.src)
    ensures var f := n.wires[s.wire]; var q := After(n, s).nodes[f.dest].queue;
            q != [] && q[|q| - 1].to == f.src && q[|q| - 1].msg.Preply? && q[|q| - 1].port == f.port
  {
    var f := n.wires[s.wire];
    RepliesBounded(n.nodes[f.dest], f.src, f.port, f.msg);
  }
}
