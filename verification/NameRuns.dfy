/** What registering promises, over whole runs of requests. */
module NameRuns {
  import opened Wrappers
  import opened Bytes
  import opened NameMap
  import opened NameTable

  datatype Request = Register(name: Name, port: Word, ptype: PortType)
                   | Lookup(name: Name, ptype: PortType)
                   | Unreg(name: Name, port: Word, ptype: PortType)

  // A request, whether it comes from this host, and whether the port of the entry it
  // finds can be bound.
  datatype Event = Event(request: Request, local: bool, canBind: bool)

  /** A request as handle_request treats it (Tools/gdomap.c:2793-3100). Only a local
      process gets an answer to REGISTER or UNREG. */
  function Step(v: map<Name, Reg>, e: Event): (map<Name, Reg>, Option<Word>) {
    match e.request
    case Register(n, port, t) =>
      if !e.local then (v, None)
      else var r := Registered(v, n, port, t, e.canBind); (r.0, Some(r.1))
    case Lookup(n, t) =>
      var r := LookedUp(v, n, t, e.canBind); (r.0, Some(r.1))
    case Unreg(n, port, t) =>
      if !e.local then (v, None)
      else var r := Unregistered(v, n, port, t); (r.0, Some(r.1))
  }

  function Run(v: map<Name, Reg>, events: seq<Event>): map<Name, Reg>
    decreases |events|
  {
    if events == [] then v else Run(Step(v, events[0]).0, events[1..])
  }

  /** The array follows every run: what it stands for is what the requests make of it. */
  method Serve(table: NameArray, e: Event) returns (answer: Option<Word>)
    requires table.Valid()
    modifies table, table.entries
    ensures table.Valid() && (table.entries == old(table.entries) || fresh(table.entries))
    ensures (View(table.Entries()), answer) == Step(View(old(table.Entries())), e)
  {
    answer := None;
    match e.request
    case Register(n, port, t) =>
      if e.local {
        var a := table.Register(n, port, t, e.canBind);
        answer := Some(a);
      }
    case Lookup(n, t) =>
      var a := table.Lookup(n, t, e.canBind);
      answer := Some(a);
    case Unreg(n, port, t) =>
      if e.local {
        var a := table.Unregister(n, port, t);
        answer := Some(a);
      }
  }

  /** What REGISTER promises: answering a port, the name has it; answering zero,
      nothing has changed (Tools/gdomap.h:58-62). */
  predicate Promise(v: map<Name, Reg>, n: Name, v': map<Name, Reg>, answer: Word) {
    if answer == 0 then v' == v else n in v' && v'[n].port == answer
  }

  /** It is kept except when port zero is registered for a name that has another port
      which can be bound: then zero is answered and the port of the name is zero. */
  lemma PromiseIff(v: map<Name, Reg>, n: Name, port: Word, t: PortType, canBind: bool)
    ensures var r := Registered(v, n, port, t, canBind);
            Promise(v, n, r.0, r.1) <==> !(port == 0 && n in v && v[n].port != 0 && canBind)
  {
    if n in v && v[n].port != port && canBind {
      assert v[n := Reg(port, Net(t), Svc(t))][n] != v[n];
    }
  }

  /** After a port is answered the name has the type asked for, except when it had that
      port with another type already: that type stays. */
  lemma TypeKeptIff(v: map<Name, Reg>, n: Name, port: Word, t: PortType, canBind: bool)
    requires Registered(v, n, port, t, canBind).1 != 0
    ensures OfType(Registered(v, n, port, t, canBind).0[n], t)
            <==> !(n in v && v[n].port == port && !OfType(v[n], t))
  {
  }

  /** For example: a name has port 538 and its process is gone, so that the port can be
      bound. Registering port zero for the name is refused, and yet the name has lost its
      port: a lookup finds it and answers zero, as if there were no such name. */
  lemma PortZeroTakesTheName(n: Name)
    ensures var v: map<Name, Reg> := map[n := Reg(538, Net(TCP_GDO), Svc(TCP_GDO))];
            var r := Registered(v, n, 0, TCP_GDO, true);
            && r.1 == 0 && !Promise(v, n, r.0, r.1)
            && n in r.0 && r.0[n].port == 0 && LookedUp(r.0, n, TCP_GDO, false) == (r.0, 0)
  {
    var v: map<Name, Reg> := map[n := Reg(538, Net(TCP_GDO), Svc(TCP_GDO))];
    assert v[n].port == 538;
    PromiseIff(v, n, 0, TCP_GDO, true);
  }

  predicate NoZeroPort(v: map<Name, Reg>) {
    forall n :: n in v ==> v[n].port != 0
  }

  predicate AsksNoZero(e: Event) {
    e.request.Register? ==> e.request.port != 0
  }

  /** Over runs that register no port zero no name has it, so that zero always means
      that there is no such name. */
  lemma {:induction false} RunNoZero(v: map<Name, Reg>, events: seq<Event>)
    requires NoZeroPort(v) && forall i :: 0 <= i < |events| ==> AsksNoZero(events[i])
    ensures NoZeroPort(Run(v, events))
    decreases |events|
  {
    if events != [] {
      assert AsksNoZero(events[0]);
      RunNoZero(Step(v, events[0]).0, events[1..]);
    }
  }

  /** What becomes of one name, looking at that name only. */
  function Owner(o: Option<Reg>, n: Name, e: Event): Option<Reg> {
    match e.request
    case Register(m, port, t) =>
      if !e.local || m != n then o
      else if o.None? then (if port == 0 then None else Some(Reg(port, Net(t), Svc(t))))
      else if o.value.port != port && e.canBind then Some(Reg(port, Net(t), Svc(t)))
      else o
    case Lookup(m, t) =>
      if m == n && o.Some? && OfType(o.value, t) && e.canBind then None else o
    case Unreg(m, port, t) =>
      if e.local && o.Some? && OfType(o.value, t) && Names(m, port, n, o.value) then None else o
  }

  // A request to remove m, or else port, is about n.
  predicate Names(m: Name, port: Word, n: Name, r: Reg) {
    if port == 0 || |m| > 0 then m == n else r.port == port
  }

  function Owners(o: Option<Reg>, n: Name, events: seq<Event>): Option<Reg>
    decreases |events|
  {
    if events == [] then o else Owners(Owner(o, n, events[0]), n, events[1..])
  }

  function Get(v: map<Name, Reg>, n: Name): Option<Reg> {
    if n in v then Some(v[n]) else None
  }

  lemma OneOwner(v: map<Name, Reg>, n: Name, e: Event)
    ensures Get(Step(v, e).0, n) == Owner(Get(v, n), n, e)
  {
  }

  /** Names do not interfere: in every run, what a name has depends on what was done to
      that name, as if it were the only one. */
  lemma {:induction false} RunByName(v: map<Name, Reg>, events: seq<Event>, n: Name)
    ensures Get(Run(v, events), n) == Owners(Get(v, n), n, events)
    decreases |events|
  {
    if events != [] {
      OneOwner(v, n, events[0]);
      RunByName(Step(v, events[0]).0, events[1..], n);
    }
  }

  // The process that has the name keeps its port busy, and nobody unregisters it.
  predicate Alive(n: Name, r: Reg, e: Event) {
    && (e.request.Register? && e.request.name == n ==> !e.canBind)
    && (e.request.Lookup? && e.request.name == n ==> !e.canBind)
    && (e.request.Unreg? && e.local && OfType(r, e.request.ptype) ==> !Names(e.request.name, e.request.port, n, r))
  }

  /** A name stays with the process that has it for as long as that is alive, whatever
      else is asked in between. */
  lemma {:induction false} LiveNameIsHeld(v: map<Name, Reg>, events: seq<Event>, n: Name)
    requires n in v && forall k :: 0 <= k < |events| ==> Alive(n, v[n], events[k])
    ensures n in Run(v, events) && Run(v, events)[n] == v[n]
    decreases |events|
  {
    if events != [] {
      var rest := events[1..];
      assert Alive(n, v[n], events[0]);
      assert Step(v, events[0]).0[n] == v[n];
      forall k | 0 <= k < |rest|
        ensures Alive(n, v[n], rest[k])
      {
        assert rest[k] == events[k + 1];
      }
      LiveNameIsHeld(Step(v, events[0]).0, rest, n);
    }
  }

  // What anybody is told about the name: its port when looking it up, and zero when
  // registering another port for it.
  predicate ToldOf(n: Name, r: Reg, e: Event, answer: Option<Word>) {
    && (e.request.Lookup? && e.request.name == n && OfType(r, e.request.ptype) ==> answer == Some(r.port))
    && (e.request.Register? && e.local && e.request.name == n ==>
          answer == Some(if e.request.port == r.port then r.port else 0))
  }

  /** During all that time everybody is told so. */
  lemma LiveNameIsTold(v: map<Name, Reg>, events: seq<Event>, n: Name, i: nat)
    requires n in v && i < |events| && forall k :: 0 <= k < |events| ==> Alive(n, v[n], events[k])
    ensures ToldOf(n, v[n], events[i], Step(Run(v, events[..i]), events[i]).1)
  {
    LiveNameIsHeld(v, events[..i], n);
    assert Alive(n, v[n], events[i]);
  }
}
