/** What the answers of the name server mean: of the map before and after a request, and of
    what was asked before in a run. */
module NameAnswers {
  import opened Wrappers
  import opened Bytes
  import opened NameMap
  import opened NameTable
  import opened NameRuns

  // The name has that port, and a type whose parts make up t.
  predicate HasPort(v: map<Name, Reg>, n: Name, p: Word, t: PortType) {
    n in v && v[n].port == p && v[n].net as int + v[n].svc == t
  }

  // Nothing is known of the name under that type.
  predicate Missing(v: map<Name, Reg>, n: Name, t: PortType) {
    n in v ==> v[n].net as int + v[n].svc != t
  }

  ghost predicate OthersSame(v: map<Name, Reg>, w: map<Name, Reg>, n: Name) {
    forall m :: m != n ==> (m in w <==> m in v) && (m in v ==> w[m] == v[m])
  }

  /** A lookup is answered by a port exactly if the name has it under that type, and it
      cannot be bound: the server is there. The name then keeps it. In all other cases the
      answer is zero; a name whose port could be bound is gone after it. */
  lemma LookupTells(v: map<Name, Reg>, e: Event)
    requires e.request.Lookup?
    ensures var (n, t, (w, a)) := (e.request.name, e.request.ptype, Step(v, e));
            && a.Some? && OthersSame(v, w, n)
            && (a.value != 0 ==> HasPort(v, n, a.value, t) && HasPort(w, n, a.value, t) && !e.canBind)
            && (Missing(v, n, t) ==> a == Some(0) && w == v)
            && (!Missing(v, n, t) && e.canBind ==> a == Some(0) && n !in w)
            && (!Missing(v, n, t) && !e.canBind ==> a == Some(v[n].port) && w == v)
  {
  }

  /** A local process that registers a name is answered by the port it asked for, and then the
      name has it; or by zero. A name not there gets the port, unless that is zero; one that
      has that port keeps it as it is; and one with another port gets the new one exactly if
      the other can be bound. */
  lemma RegisterTells(v: map<Name, Reg>, e: Event)
    requires e.request.Register? && e.local
    ensures var (n, p, t, (w, a)) := (e.request.name, e.request.port, e.request.ptype, Step(v, e));
            && (a == Some(p) || a == Some(0)) && OthersSame(v, w, n) && (n in v ==> n in w)
            && (n !in v && p != 0 ==> a == Some(p) && HasPort(w, n, p, t)) && (n !in v && p == 0 ==> w == v)
            && (n in v && v[n].port == p ==> a == Some(p) && w == v)
            && (n in v && v[n].port != p && e.canBind ==> a == Some(p) && HasPort(w, n, p, t))
            && (n in v && v[n].port != p && !e.canBind ==> a == Some(0) && w == v)
  {
  }

  /** A local process that unregisters a name is told the port that the name had under that
      type, and then it has none; or zero, and then nothing has changed, unless the port
      was zero itself. */
  lemma UnregisterNameTells(v: map<Name, Reg>, e: Event)
    requires e.request.Unreg? && e.local && (e.request.port == 0 || e.request.name != [])
    ensures var (n, t, (w, a)) := (e.request.name, e.request.ptype, Step(v, e));
            && a.Some? && OthersSame(v, w, n)
            && (a.value != 0 ==> HasPort(v, n, a.value, t) && n !in w)
            && (a.value == 0 ==> w == v || (HasPort(v, n, 0, t) && n !in w))
            && (!Missing(v, n, t) ==> n !in w) && (Missing(v, n, t) ==> w == v)
  {
  }

  /** One that unregisters a port is told that port exactly if some name had it under that
      type. Then no name has it so, and all others keep what they had. */
  lemma UnregisterPortTells(v: map<Name, Reg>, e: Event)
    requires e.request.Unreg? && e.local && e.request.port != 0 && e.request.name == []
    ensures var (p, t, (w, a)) := (e.request.port, e.request.ptype, Step(v, e));
            && (a == Some(p) <==> exists n :: HasPort(v, n, p, t)) && (a != Some(p) ==> a == Some(0) && w == v)
            && (forall n :: !HasPort(w, n, p, t))
            && (forall n :: !HasPort(v, n, p, t) ==> (n in w <==> n in v) && (n in v ==> w[n] == v[n]))
  {
    var p, t, w := e.request.port, e.request.ptype, Step(v, e).0;
    forall n
      ensures HasPort(v, n, p, t) <==> n in v && v[n].port == p && OfType(v[n], t)
    {
    }
    if !exists n :: HasPort(v, n, p, t) {
      assert w == v;
    }
  }

  /** Other hosts learn ports, and no more: they get no answer to requests that change
      names, and those do nothing. */
  lemma OthersOnlyLearn(v: map<Name, Reg>, e: Event)
    requires !e.local && !e.request.Lookup?
    ensures Step(v, e) == (v, None)
  {
  }

  // The answer to the i-th request of a run that begins without names.
  function AnswerAt(events: seq<Event>, i: nat): Option<Word>
    requires i < |events|
  {
    Step(Run(map[], events[..i]), events[i]).1
  }

  /** A request after which the name no longer has that port under that type: it is
      registered for another port, or looked up, while that port can be bound; or a local
      process unregisters it, by name or by port. */
  predicate Frees(e: Event, n: Name, p: Word, t: PortType) {
    match e.request
    case Register(m, q, s) => e.local && m == n && q != p && e.canBind
    case Lookup(m, s) => m == n && s == t && e.canBind
    case Unreg(m, q, s) => e.local && s == t && if q == 0 || m != [] then m == n else q == p
  }

  // A local process registers the name with that port and type.
  predicate Registers(e: Event, n: Name, p: Word, t: PortType) {
    e.local && e.request == Register(n, p, t)
  }

  // That happened at j, and was answered by the port; and nothing has freed the name since.
  predicate HeldSince(events: seq<Event>, j: nat, i: nat, n: Name, p: Word, t: PortType)
    requires i <= |events|
  {
    && j < i && Registers(events[j], n, p, t) && AnswerAt(events, j) == Some(p)
    && forall k :: j < k < i ==> !Frees(events[k], n, p, t)
  }

  lemma RunNext(v: map<Name, Reg>, events: seq<Event>)
    requires events != []
    ensures Run(v, events) == Step(Run(v, events[..|events| - 1]), events[|events| - 1]).0
    decreases |events|
  {
    if |events| > 1 {
      RunNext(Step(v, events[0]).0, events[1..]);
      assert events[1..][..|events| - 2] == events[..|events| - 1][1..];
    } else {
      assert events[1..] == [] && events[..0] == [];
    }
  }

  // What a name has after a request it had before and was not freed, or it was registered.
  lemma OneStep(v: map<Name, Reg>, e: Event, n: Name, p: Word, t: PortType)
    requires HasPort(Step(v, e).0, n, p, t) && p != 0
    ensures (HasPort(v, n, p, t) && !Frees(e, n, p, t)) || (Registers(e, n, p, t) && Step(v, e).1 == Some(p))
  {
  }

  /** A name that has a port was registered for it, and has not been freed since. */
  lemma {:induction false} HeldWasRegistered(events: seq<Event>, i: nat, n: Name, p: Word, t: PortType) returns (j: nat)
    requires i <= |events| && p != 0 && HasPort(Run(map[], events[..i]), n, p, t)
    ensures HeldSince(events, j, i, n, p, t)
    decreases i
  {
    hide Step, HasPort, Frees, Registers;
    if i == 0 {
      assert events[..0] == [];
      NoneHeld(n, p, t);
      assert false;
    } else {
      RunNext(map[], events[..i]);
      assert events[..i][..i - 1] == events[..i - 1] && events[..i][i - 1] == events[i - 1];
      var v := Run(map[], events[..i - 1]);
      OneStep(v, events[i - 1], n, p, t);
      if Registers(events[i - 1], n, p, t) && Step(v, events[i - 1]).1 == Some(p) {
        j := i - 1;
      } else {
        j := HeldWasRegistered(events, i - 1, n, p, t);
      }
    }
  }

  lemma NoneHeld(n: Name, p: Word, t: PortType)
    ensures !HasPort(Run(map[], []), n, p, t)
  {
  }

  /** Over every run that begins without names: whoever is told a port, by a lookup, is told
      one that a local process registered for that name under that type and was answered,
      and nothing has freed the name since; and it cannot be bound, so that somebody uses it.
      A name never registered so is answered by zero. */
  lemma ToldWasRegistered(events: seq<Event>, i: nat)
    requires i < |events| && events[i].request.Lookup?
    ensures var (n, t, a) := (events[i].request.name, events[i].request.ptype, AnswerAt(events, i));
            && a.Some?
            && (a.value != 0 ==> !events[i].canBind && exists j :: HeldSince(events, j, i, n, a.value, t))
            && ((forall j, p :: 0 <= j < i ==> !Registers(events[j], n, p, t)) ==> a == Some(0))
  {
    var v := Run(map[], events[..i]);
    LookupTells(v, events[i]);
    var n, t, a := events[i].request.name, events[i].request.ptype, AnswerAt(events, i).value;
    hide Step, HasPort, Frees, Registers;
    if a != 0 {
      var j := HeldWasRegistered(events, i, n, a, t);
      assert Registers(events[j], n, a, t);
    }
  }

  /** Likewise for what is unregistered: whoever is told a port, for a name, ends what
      began with that registration. */
  lemma UnregisteredWasRegistered(events: seq<Event>, i: nat)
    requires i < |events| && events[i].request.Unreg? && events[i].local
    requires events[i].request.port == 0 || events[i].request.name != []
    ensures var (n, t, a) := (events[i].request.name, events[i].request.ptype, AnswerAt(events, i));
            && a.Some?
            && (a.value != 0 ==> n !in Run(map[], events[..i + 1]) && exists j :: HeldSince(events, j, i, n, a.value, t))
            && ((forall j, p :: 0 <= j < i ==> !Registers(events[j], n, p, t)) ==> a == Some(0))
  {
    var v := Run(map[], events[..i]);
    UnregisterNameTells(v, events[i]);
    var n, t, a := events[i].request.name, events[i].request.ptype, AnswerAt(events, i).value;
    RunNext(map[], events[..i + 1]);
    assert events[..i + 1][..i] == events[..i] && events[..i + 1][i] == events[i];
    hide Step, HasPort, Frees, Registers;
    if a != 0 {
      var j := HeldWasRegistered(events, i, n, a, t);
      assert Registers(events[j], n, a, t);
    }
  }

  /** And the other way round: a name registered and not freed since is found. Registering
      a port again leaves the type it was registered with first, so that this is for names
      that had not that port. */
  lemma {:induction false} HeldIsTold(events: seq<Event>, j: nat, i: nat, n: Name, p: Word, t: PortType)
    requires i < |events| && p != 0 && HeldSince(events, j, i, n, p, t)
    requires var v := Run(map[], events[..j]); n in v ==> v[n].port != p
    ensures HasPort(Run(map[], events[..i]), n, p, t)
    ensures events[i].request == Lookup(n, t) && !events[i].canBind ==> AnswerAt(events, i) == Some(p)
    decreases i
  {
    RunNext(map[], events[..i]);
    assert events[..i][..i - 1] == events[..i - 1] && events[..i][i - 1] == events[i - 1];
    if j < i - 1 {
      assert HeldSince(events, j, i - 1, n, p, t) && !Frees(events[i - 1], n, p, t);
      HeldIsTold(events, j, i - 1, n, p, t);
    }
    StillHeld(Run(map[], events[..i - 1]), events[i - 1], n, p, t);
  }

  lemma StillHeld(v: map<Name, Reg>, e: Event, n: Name, p: Word, t: PortType)
    ensures HasPort(v, n, p, t) && !Frees(e, n, p, t) ==> HasPort(Step(v, e).0, n, p, t)
    ensures Registers(e, n, p, t) && p != 0 && Step(v, e).1 == Some(p) && (n in v ==> v[n].port != p) ==>
              HasPort(Step(v, e).0, n, p, t)
  {
    StaysHeld(v, e, n, p, t);
    if Registers(e, n, p, t) {
      RegisterTells(v, e);
    }
    hide Step;
  }

  lemma StaysHeld(v: map<Name, Reg>, e: Event, n: Name, p: Word, t: PortType)
    ensures HasPort(v, n, p, t) && !Frees(e, n, p, t) ==> HasPort(Step(v, e).0, n, p, t)
  {
    hide Step;
    match e.request
    case Register(m, q, s) =>
      if e.local {
        RegisterTells(v, e);
      } else {
        OthersOnlyLearn(v, e);
      }
    case Lookup(m, s) => LookupTells(v, e);
    case Unreg(m, q, s) =>
      if !e.local {
        OthersOnlyLearn(v, e);
      } else if q == 0 || m != [] {
        UnregisterNameTells(v, e);
      } else {
        UnregisterPortTells(v, e);
      }
  }
}
