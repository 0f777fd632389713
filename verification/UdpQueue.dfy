/** The queue of messages for the UDP socket (Tools/gdomap.c:636-676, 3379-3432). */
module UdpQueue {
  import opened Bytes

  datatype Datagram = Datagram(to: int, pos: nat, dat: seq<Byte>)

  /** What sendto did: sent so many bytes, would have blocked, or failed. */
  datatype Outcome = Sent(n: nat) | Blocked | Failed

  // The bytes of the first message that one call hands to the system.
  function Handed(q: seq<Datagram>, o: Outcome): seq<Byte> {
    if q != [] && o.Sent? && q[0].pos + o.n <= |q[0].dat| then q[0].dat[q[0].pos..q[0].pos + o.n] else []
  }

  // Whether the first message leaves the queue.
  predicate Leaves(q: seq<Datagram>, o: Outcome) {
    q != [] && (o.Failed? || (o.Sent? && q[0].pos + o.n >= |q[0].dat|))
  }

  function AfterSend(q: seq<Datagram>, o: Outcome): seq<Datagram> {
    if Leaves(q, o) then q[1..]
    else if q != [] && o.Sent? then [q[0].(pos := q[0].pos + o.n)] + q[1..]
    else q
  }

  class Queue {
    var messages: seq<Datagram>
    var pending: int

    predicate Valid()
      reads this
    {
      pending == |messages|
    }

    constructor ()
      ensures Valid() && messages == []
    {
      messages, pending := [], 0;
    }

    /** queue_msg: at the end. */
    method QueueMsg(to: int, dat: seq<Byte>)
      requires Valid()
      modifies this
      ensures Valid() && messages == old(messages) + [Datagram(to, 0, dat)]
    {
      messages := messages + [Datagram(to, 0, dat)];
      pending := pending + 1;
    }

    /** queue_pop: from the front. */
    method QueuePop()
      requires Valid()
      modifies this
      ensures Valid() && messages == if old(messages) == [] then [] else old(messages)[1..]
    {
      if messages != [] {
        messages := messages[1..];
        pending := pending - 1;
      }
    }

    /** handle_send. */
    method HandleSend(o: Outcome)
      requires Valid()
      modifies this
      ensures Valid() && messages == AfterSend(old(messages), o)
    {
      if messages != [] {
        var entry := messages[0];
        match o
        case Blocked =>
        case Failed =>
          QueuePop();
        case Sent(n) =>
          messages := [entry.(pos := entry.pos + n)] + messages[1..];
          if entry.pos + n >= |entry.dat| {
            QueuePop();
          }
      }
    }
  }

  datatype Event = Put(to: int, dat: seq<Byte>) | Send(o: Outcome)

  // What was put in, what has left, and what is still there.
  datatype Log = Log(put: seq<seq<Byte>>, gone: seq<seq<Byte>>, queue: seq<Datagram>, partly: seq<Byte>)

  /** One event; of the message at the front the bytes handed to the system so far are
      kept. */
  function Step(l: Log, e: Event): Log {
    match e
    case Put(to, dat) => l.(put := l.put + [dat], queue := l.queue + [Datagram(to, 0, dat)])
    case Send(o) =>
      var partly := l.partly + Handed(l.queue, o);
      if Leaves(l.queue, o) then Log(l.put, l.gone + [partly], l.queue[1..], [])
      else l.(queue := AfterSend(l.queue, o), partly := partly)
  }

  function Run(l: Log, es: seq<Event>): Log
    decreases |es|
  {
    if es == [] then l else Run(Step(l, es[0]), es[1..])
  }

  // sendto sends no more than there is.
  predicate Possible(l: Log, es: seq<Event>)
    decreases |es|
  {
    es != [] ==> Fits(l, es[0]) && Possible(Step(l, es[0]), es[1..])
  }

  /** First in, first out: the messages that left are beginnings of the first messages
      put in, in that order; those in the queue are the others, whole except for what
      has been sent of the first. */
  ghost predicate InOrder(l: Log) {
    |l.put| == |l.gone| + |l.queue| && GoneInOrder(l) && WaitingInOrder(l) && Partly(l)
  }

  ghost predicate GoneInOrder(l: Log) {
    |l.gone| <= |l.put| && forall i :: 0 <= i < |l.gone| ==> l.gone[i] <= l.put[i]
  }

  ghost predicate WaitingInOrder(l: Log) {
    |l.put| == |l.gone| + |l.queue|
    && forall i :: 0 <= i < |l.queue| ==> l.queue[i].dat == l.put[|l.gone| + i] && (i > 0 ==> l.queue[i].pos == 0)
  }

  ghost predicate Partly(l: Log) {
    if l.queue == [] then l.partly == []
    else l.queue[0].pos <= |l.queue[0].dat| && l.partly == l.queue[0].dat[..l.queue[0].pos]
  }

  predicate Fits(l: Log, e: Event) {
    e.Send? && e.o.Sent? && l.queue != [] ==> l.queue[0].pos + e.o.n <= |l.queue[0].dat|
  }

  lemma PutInOrder(l: Log, e: Event)
    requires InOrder(l) && e.Put?
    ensures InOrder(Step(l, e))
  {
    var m := Step(l, e);
    assert GoneInOrder(m);
    assert WaitingInOrder(m) by {
      assert forall i :: 0 <= i < |l.queue| ==> m.queue[i] == l.queue[i];
    }
  }

  lemma SentSoFar(l: Log, o: Outcome)
    requires InOrder(l) && Fits(l, Send(o)) && l.queue != []
    ensures var partly := l.partly + Handed(l.queue, o);
            if o.Sent? then partly == l.queue[0].dat[..l.queue[0].pos + o.n] else partly == l.partly
  {
  }

  lemma SendInOrder(l: Log, o: Outcome)
    requires InOrder(l) && Fits(l, Send(o)) && l.queue != []
    ensures InOrder(Step(l, Send(o)))
  {
    hide *;
    var partly := l.partly + Handed(l.queue, o);
    SentSoFar(l, o);
    SendStep(l, o);
    if Leaves(l.queue, o) {
      FrontLeaves(l, partly);
    } else {
      FrontStays(l, AfterSend(l.queue, o), partly);
    }
  }

  lemma SendStep(l: Log, o: Outcome)
    requires InOrder(l) && Fits(l, Send(o)) && l.queue != []
    ensures var (m, q, partly) := (Step(l, Send(o)), AfterSend(l.queue, o), l.partly + Handed(l.queue, o));
            && l.queue[0].dat == l.put[|l.gone|] && l.queue[0].pos <= |l.queue[0].dat|
            && l.partly == l.queue[0].dat[..l.queue[0].pos]
            && (Leaves(l.queue, o) ==> m == Log(l.put, l.gone + [partly], l.queue[1..], []))
            && (!Leaves(l.queue, o) ==>
                  && m == l.(queue := q, partly := partly) && |q| == |l.queue| && q[1..] == l.queue[1..]
                  && q[0].dat == l.queue[0].dat && q[0].pos == l.queue[0].pos + if o.Sent? then o.n else 0)
    ensures o.Sent? ==> l.queue[0].pos + o.n <= |l.queue[0].dat|
  {
    hide Handed, GoneInOrder;
  }

  // The first message leaves, with what was handed over of it.
  lemma FrontLeaves(l: Log, partly: seq<Byte>)
    requires InOrder(l) && l.queue != [] && partly <= l.put[|l.gone|]
    ensures InOrder(Log(l.put, l.gone + [partly], l.queue[1..], []))
  {
    var m := Log(l.put, l.gone + [partly], l.queue[1..], []);
    assert WaitingInOrder(m) by {
      hide GoneInOrder, Partly;
      assert forall i :: 0 <= i < |m.queue| ==> m.queue[i] == l.queue[i + 1];
    }
    assert GoneInOrder(m) by {
      hide WaitingInOrder, Partly;
    }
    assert Partly(m) by {
      hide GoneInOrder;
    }
    hide GoneInOrder, WaitingInOrder, Partly;
  }

  // It stays, with more of it handed over.
  lemma FrontStays(l: Log, q: seq<Datagram>, partly: seq<Byte>)
    requires InOrder(l) && l.queue != [] && |q| == |l.queue| && q[1..] == l.queue[1..]
    requires q[0].dat == l.queue[0].dat && q[0].pos <= |q[0].dat| && partly == q[0].dat[..q[0].pos]
    ensures InOrder(l.(queue := q, partly := partly))
  {
    hide GoneInOrder;
    var m := l.(queue := q, partly := partly);
    assert GoneInOrder(m) by {
      GoneSame(l, m);
    }
    assert WaitingInOrder(m) by {
      assert forall i :: 0 < i < |q| ==> q[i] == q[1..][i - 1] == l.queue[i];
    }
  }

  lemma GoneSame(l: Log, m: Log)
    requires GoneInOrder(l) && m.put == l.put && m.gone == l.gone
    ensures GoneInOrder(m)
  {
  }

  lemma StepInOrder(l: Log, e: Event)
    requires InOrder(l) && Fits(l, e)
    ensures InOrder(Step(l, e))
  {
    if e.Put? {
      PutInOrder(l, e);
    } else if l.queue != [] {
      SendInOrder(l, e.o);
    } else {
      assert l.partly + [] == l.partly;
    }
  }

  lemma {:induction false} RunInOrder(l: Log, es: seq<Event>)
    requires InOrder(l) && Possible(l, es)
    ensures InOrder(Run(l, es))
    decreases |es|
  {
    if es != [] {
      hide InOrder, Step, Fits;
      StepInOrder(l, es[0]);
      RunInOrder(Step(l, es[0]), es[1..]);
    }
  }

  // No message that has left was cut short.
  predicate GoneWhole(l: Log) {
    forall i :: 0 <= i < |l.gone| ==> i < |l.put| && l.gone[i] == l.put[i]
  }

  lemma StepWhole(l: Log, e: Event)
    requires InOrder(l) && GoneWhole(l) && Fits(l, e) && !(e.Send? && e.o.Failed?)
    ensures GoneWhole(Step(l, e))
    ensures e.Send? && e.o.Sent? && l.queue != [] && l.queue[0].pos + e.o.n == |l.queue[0].dat| ==>
              Step(l, e).queue == l.queue[1..] && Step(l, e).gone == l.gone + [l.queue[0].dat]
  {
    if e.Send? && l.queue != [] {
      SendStep(l, e.o);
      SentSoFar(l, e.o);
    }
  }

  /** Unless a sending fails, every message that leaves the queue was sent to its last byte:
      a message leaves when, and only when, that is sent. */
  lemma {:induction false} RunWhole(l: Log, es: seq<Event>)
    requires InOrder(l) && GoneWhole(l) && Possible(l, es) && forall e :: e in es ==> !(e.Send? && e.o.Failed?)
    ensures GoneWhole(Run(l, es))
    decreases |es|
  {
    if es != [] {
      hide InOrder, Step, Fits, GoneWhole;
      assert es[0] in es;
      StepInOrder(l, es[0]);
      StepWhole(l, es[0]);
      RunWhole(Step(l, es[0]), es[1..]);
    }
  }

  /** A message that cannot be sent at all is dropped, and does not hold up the next; one
      that has to wait stays as it is. */
  lemma FailureDrops(q: seq<Datagram>)
    requires q != []
    ensures AfterSend(q, Failed) == q[1..] && AfterSend(q, Blocked) == q
  {
  }
}
