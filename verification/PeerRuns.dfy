/** The list of servers over whole runs of contacts and prunings. */
module PeerRuns {
  import opened Peers

  datatype Event = Contact(addr: Addr, now: int) | Look(clock: Clock)

  function Step(c: Config, ps: seq<Peer>, e: Event): seq<Peer> {
    match e
    case Contact(a, now) => Added(c, ps, a, now)
    case Look(t) => Pruned(ps, t)
  }

  function Run(c: Config, ps: seq<Peer>, h: seq<Event>): seq<Peer>
    decreases |h|
  {
    if h == [] then ps else Run(c, Step(c, ps, h[0]), h[1..])
  }

  lemma StepSound(c: Config, ps: seq<Peer>, e: Event)
    requires Sound(c, ps)
    ensures Sound(c, Step(c, ps, e))
  {
    hide Added, Pruned, Accepts, Distinct;
    match e
    case Contact(a, now) => AddedSound(c, ps, a, now);
    case Look(t) => PrunedMembers(ps, t);
  }

  /** In every reachable state no server is listed twice, and none that may not be. */
  lemma {:induction false} RunSound(c: Config, ps: seq<Peer>, h: seq<Event>)
    requires Sound(c, ps)
    ensures Sound(c, Run(c, ps, h))
    decreases |h|
  {
    if h != [] {
      StepSound(c, ps, h[0]);
      RunSound(c, Step(c, ps, h[0]), h[1..]);
    }
  }

  // An entry is neither replaced by a later contact nor pruned.
  predicate Survives(p: Peer, h: seq<Event>) {
    forall e :: e in h ==> !Ends(e, p)
  }

  predicate Ends(e: Event, p: Peer) {
    match e
    case Contact(a, now) => a == p.sin
    case Look(t) => Stale(p, t)
  }

  function Survivors(ps: seq<Peer>, h: seq<Event>): seq<Peer> {
    if ps == [] then []
    else if Survives(ps[|ps| - 1], h) then Survivors(ps[..|ps| - 1], h) + [ps[|ps| - 1]]
    else Survivors(ps[..|ps| - 1], h)
  }

  /** What the list is to be: each contact that may be listed, unless another with the
      same server came later or it was found stale since; in order of time. */
  function LastContacts(c: Config, h: seq<Event>): seq<Peer> {
    if h == [] then []
    else OwnContact(c, h[0], h[1..]) + LastContacts(c, h[1..])
  }

  function OwnContact(c: Config, e: Event, h: seq<Event>): seq<Peer> {
    if e.Contact? && Accepts(c, e.addr) && Survives(Peer(e.addr, e.now), h) then [Peer(e.addr, e.now)] else []
  }

  lemma SurvivesNext(p: Peer, e: Event, h: seq<Event>)
    ensures Survives(p, [e] + h) <==> !Ends(e, p) && Survives(p, h)
  {
    if Survives(p, [e] + h) {
      assert e in [e] + h;
      assert forall x :: x in h ==> x in [e] + h;
    }
  }

  // Pruning and removing are steps towards the survivors.
  lemma {:induction false} SurvivorsOfWithout(ps: seq<Peer>, a: Addr, now: int, h: seq<Event>)
    requires Distinct(ps)
    ensures Survivors(Without(ps, a), h) == Survivors(ps, [Contact(a, now)] + h)
    decreases |ps|
  {
    if ps != [] {
      var front, p := ps[..|ps| - 1], ps[|ps| - 1];
      SurvivesNext(p, Contact(a, now), h);
      if p.sin != a {
        SurvivorsOfWithout(front, a, now, h);
        assert Without(ps, a) == Without(front, a) + [p];
        assert (Without(front, a) + [p])[..|Without(front, a)|] == Without(front, a);
      } else {
        FrontDistinct(ps);
        NoneOf(front, a, now, h);
      }
    }
  }

  // A contact with a server that is not there ends nothing.
  lemma {:induction false} NoneOf(ps: seq<Peer>, a: Addr, now: int, h: seq<Event>)
    requires forall p :: p in ps ==> p.sin != a
    ensures Survivors(ps, [Contact(a, now)] + h) == Survivors(ps, h)
    decreases |ps|
  {
    if ps != [] {
      NoneOf(ps[..|ps| - 1], a, now, h);
      SurvivesNext(ps[|ps| - 1], Contact(a, now), h);
    }
  }

  lemma SurvivorsAppend(ps: seq<Peer>, p: Peer, h: seq<Event>)
    ensures Survivors(ps + [p], h) == Survivors(ps, h) + if Survives(p, h) then [p] else []
  {
    assert (ps + [p])[..|ps|] == ps;
  }

  lemma {:induction false} SurvivorsOfPruned(ps: seq<Peer>, t: Clock, h: seq<Event>)
    ensures Survivors(Pruned(ps, t), h) == Survivors(ps, [Look(t)] + h)
    decreases |ps|
  {
    if ps != [] {
      var front, p := ps[..|ps| - 1], ps[|ps| - 1];
      SurvivorsOfPruned(front, t, h);
      SurvivesNext(p, Look(t), h);
      PrunedLast(front, p, t);
      assert ps == front + [p];
      SurvivorsAppend(front, p, [Look(t)] + h);
      SurvivorsAppend(Pruned(front, t), p, h);
      assert Pruned(front, t) + [] == Pruned(front, t);
    }
  }

  lemma PrunedLast(ps: seq<Peer>, p: Peer, t: Clock)
    ensures Pruned(ps + [p], t) == Pruned(ps, t) + if Stale(p, t) then [] else [p]
  {
    PrunedSplit(ps, [p], t);
    assert [p][1..] == [];
  }

  lemma {:induction false} AllSurvive(ps: seq<Peer>)
    ensures Survivors(ps, []) == ps
    decreases |ps|
  {
    if ps != [] {
      AllSurvive(ps[..|ps| - 1]);
    }
  }

  // One step, in terms of survivors.
  lemma StepSurvivors(c: Config, ps: seq<Peer>, e: Event, h: seq<Event>)
    requires Sound(c, ps)
    ensures Survivors(Step(c, ps, e), h) == Survivors(ps, [e] + h) + OwnContact(c, e, h)
  {
    hide Survivors, Survives, Accepts, Without, Pruned;
    match e
    case Contact(a, now) =>
      if Accepts(c, a) {
        SurvivorsOfWithout(ps, a, now, h);
        SurvivorsAppend(Without(ps, a), Peer(a, now), h);
      } else {
        NoneOf(ps, a, now, h);
      }
    case Look(t) =>
      SurvivorsOfPruned(ps, t, h);
  }

  /** After any run the list is what was in it before and survived, and after that the
      last contacts of the run. */
  lemma {:induction false} RunIsLastContacts(c: Config, ps: seq<Peer>, h: seq<Event>)
    requires Sound(c, ps)
    ensures Run(c, ps, h) == Survivors(ps, h) + LastContacts(c, h)
    decreases |h|
  {
    hide *;
    if h == [] {
      RunNone(c, ps);
      AllSurvive(ps);
    } else {
      RunNext(c, ps, h);
      StepSound(c, ps, h[0]);
      RunIsLastContacts(c, Step(c, ps, h[0]), h[1..]);
      StepSurvivors(c, ps, h[0], h[1..]);
    }
  }

  lemma RunNone(c: Config, ps: seq<Peer>)
    ensures Run(c, ps, []) == ps && LastContacts(c, []) == []
  {
  }

  lemma RunNext(c: Config, ps: seq<Peer>, h: seq<Event>)
    requires h != []
    ensures Run(c, ps, h) == Run(c, Step(c, ps, h[0]), h[1..])
    ensures LastContacts(c, h) == OwnContact(c, h[0], h[1..]) + LastContacts(c, h[1..])
    ensures h == [h[0]] + h[1..]
  {
  }

  // The times of contact do not go down, and are none of them after now.
  predicate InOrder(ps: seq<Peer>, now: int) {
    && (forall i, j :: 0 <= i < j < |ps| ==> ps[i].when <= ps[j].when)
    && (forall i :: 0 <= i < |ps| ==> ps[i].when <= now)
  }

  function Time(e: Event): int {
    match e
    case Contact(a, now) => now
    case Look(t) => t.when
  }

  // The clock never goes back.
  predicate Onward(h: seq<Event>, now: int)
    decreases |h|
  {
    h != [] ==> now <= Time(h[0]) && Onward(h[1..], Time(h[0]))
  }

  function LastTime(h: seq<Event>, now: int): int
    decreases |h|
  {
    if h == [] then now else LastTime(h[1..], Time(h[0]))
  }

  // How many entries are stale, counted from the front.
  function StaleFront(ps: seq<Peer>, t: Clock): (k: nat)
    ensures k <= |ps| && (k < |ps| ==> !Stale(ps[k], t)) && forall i :: 0 <= i < k ==> Stale(ps[i], t)
  {
    if ps == [] || !Stale(ps[0], t) then 0 else 1 + StaleFront(ps[1..], t)
  }

  // What comes later is not stale if what came before is not.
  lemma NoneStale(p: Peer, rest: seq<Peer>, t: Clock)
    requires !Stale(p, t) && (rest != [] ==> p.when <= rest[0].when)
    ensures StaleFront(rest, t) == 0
  {
  }

  /** With times in order, pruning removes exactly the stale entries at the front. */
  lemma {:induction false} PrunedIsSuffix(ps: seq<Peer>, now: int, t: Clock)
    requires InOrder(ps, now)
    ensures Pruned(ps, t) == ps[StaleFront(ps, t)..]
    decreases |ps|
  {
    if ps != [] {
      var rest := ps[1..];
      assert forall i :: 0 <= i < |rest| ==> rest[i] == ps[i + 1];
      PrunedIsSuffix(rest, now, t);
      if !Stale(ps[0], t) {
        NoneStale(ps[0], rest, t);
        assert rest[0..] == rest;
      }
      hide Stale, InOrder;
    }
  }

  lemma {:induction false} WithoutInOrder(ps: seq<Peer>, a: Addr, now: int)
    requires InOrder(ps, now)
    ensures InOrder(Without(ps, a), now)
    ensures forall p :: p in Without(ps, a) ==> p in ps
    decreases |ps|
  {
    if ps != [] {
      var front := ps[..|ps| - 1];
      WithoutInOrder(front, a, now);
      var r := Without(front, a);
      forall i | 0 <= i < |r|
        ensures r[i].when <= ps[|ps| - 1].when
      {
        assert r[i] in front;
      }
    }
  }

  lemma StepInOrder(c: Config, ps: seq<Peer>, now: int, e: Event)
    requires InOrder(ps, now) && now <= Time(e)
    ensures InOrder(Step(c, ps, e), Time(e))
  {
    match e
    case Contact(a, t) =>
      WithoutInOrder(ps, a, now);
      hide Without, Accepts;
      LaterInOrder(ps, now, t);
      AppendInOrder(Without(ps, a), now, Peer(a, t));
    case Look(t) =>
      PrunedIsSuffix(ps, now, t);
      hide Pruned, StaleFront;
      SuffixInOrder(ps, now, t.when, StaleFront(ps, t));
  }

  lemma LaterInOrder(ps: seq<Peer>, now: int, t: int)
    requires InOrder(ps, now) && now <= t
    ensures InOrder(ps, t)
  {
  }

  lemma AppendInOrder(ps: seq<Peer>, now: int, p: Peer)
    requires InOrder(ps, now) && now <= p.when
    ensures InOrder(ps + [p], p.when)
  {
  }

  lemma SuffixInOrder(ps: seq<Peer>, now: int, t: int, k: nat)
    requires InOrder(ps, now) && now <= t && k <= |ps|
    ensures InOrder(ps[k..], t)
  {
  }

  /** In every run under a clock that does not go back the times stay in order, so that
      every pruning removes exactly a stale front. */
  lemma {:induction false} RunInOrder(c: Config, ps: seq<Peer>, now: int, h: seq<Event>)
    requires InOrder(ps, now) && Onward(h, now)
    ensures InOrder(Run(c, ps, h), LastTime(h, now))
    decreases |h|
  {
    if h != [] {
      StepInOrder(c, ps, now, h[0]);
      RunInOrder(c, Step(c, ps, h[0]), Time(h[0]), h[1..]);
    }
  }
}
