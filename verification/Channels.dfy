/** The connections of Tools/gdomap.c: requests read and replies written in whatever
    pieces the system takes them. */
module Channels {
  import opened Wrappers
  import opened Bytes
  import opened Infos

  const GDO_REQ_SIZE := 264

  // What is sent back: never less than a number of four bytes.
  type Reply = r: seq<Byte> | |r| >= 4 witness [0, 0, 0, 0]

  /** A connection, for those who only see what goes in and out. */
  datatype Channel = Closed
                   | Reading(got: seq<Byte>)
                   | Writing(request: seq<Byte>, reply: Reply, sent: nat)

  function Joined(pieces: seq<seq<Byte>>): seq<Byte> {
    if pieces == [] then [] else Joined(pieces[..|pieces| - 1]) + pieces[|pieces| - 1]
  }

  /** A reading: read returns these pieces, none empty, and then less than a byte,
      unless there is no room for more. */
  datatype Reads = Reads(pieces: seq<seq<Byte>>, wouldBlock: bool)

  predicate Fits(got: seq<Byte>, r: Reads) {
    |got| + |Joined(r.pieces)| <= GDO_REQ_SIZE && forall p :: p in r.pieces ==> p != []
  }

  // What the server makes of a request: a reply, or none and the channel is cleared.
  type Handler = seq<Byte> -> Option<Reply>

  function AfterRead(ch: Channel, r: Reads, handle: Handler): Channel
    requires ch.Reading?
  {
    var got := ch.got + Joined(r.pieces);
    if |got| == GDO_REQ_SIZE then
      match handle(got) case None => Closed case Some(reply) => Writing(got, reply, 0)
    else if !r.wouldBlock || r.pieces == [] then Closed
    else Reading(got)
  }

  /** A write that takes so many bytes, or fails. */
  function AfterWrite(ch: Channel, taken: Option<nat>): Channel
    requires ch.Writing?
  {
    match taken
    case None => Closed
    case Some(n) => if ch.sent + n >= |ch.reply| then Closed else ch.(sent := ch.sent + n)
  }

  // The bytes that such a write sends.
  function Output(ch: Channel, taken: Option<nat>): seq<Byte>
    requires ch.Writing?
  {
    match taken
    case None => []
    case Some(n) => if ch.sent <= |ch.reply| && ch.sent + n <= |ch.reply| then ch.reply[ch.sent..ch.sent + n] else []
  }

  datatype In = In(pos: nat, buf: seq<Byte>)
  datatype Out = Out(len: nat, pos: nat, buf: seq<Byte>)

  predicate GoodIn(i: In) {
    |i.buf| == GDO_REQ_SIZE && i.pos <= GDO_REQ_SIZE
  }

  predicate GoodOut(o: Out) {
    o.len == |o.buf| && o.len >= 4 && o.pos < o.len
  }

  /** All that the tables say of one descriptor: whether it is waited for to read or to
      write, its entries, and whether it is a client's. */
  datatype Row = Row(read: bool, write: bool, input: Option<In>, output: Option<Out>, open: bool)

  /** A client is waited for in exactly one way and has an entry in the list of inputs;
      it has one in the list of outputs, with something left to write, when it is waited
      for to write. Nothing is known of a descriptor that is nobody's. */
  predicate GoodRow(listener: bool, r: Row) {
    if listener then r.read && !r.write && !r.open && (r.output.Some? ==> r.output.value.len == 0)
    else if !r.open then r == Row(false, false, None, None, false)
    else
      && r.read == !r.write && r.input.Some? && GoodIn(r.input.value)
      && (r.read ==> r.input.value.pos < GDO_REQ_SIZE && r.output.None?)
      && (r.write ==> r.input.value.pos == GDO_REQ_SIZE && r.output.Some? && GoodOut(r.output.value))
  }

  /** The connection that a row stands for. */
  function ChannelOf(r: Row): Channel
    requires GoodRow(false, r)
  {
    if !r.open then Closed
    else if r.read then Reading(r.input.value.buf[..r.input.value.pos])
    else Writing(r.input.value.buf, r.output.value.buf, r.output.value.pos)
  }

  class ChannelTable {
    const tcp: nat
    const udp: nat
    var readFds: set<nat>
    var writeFds: set<nat>
    var rInfo: seq<Info<In>>
    var wInfo: seq<Info<Out>>
    ghost var open: set<nat>

    ghost function At(d: nat): Row
      reads this
    {
      Row(d in readFds, d in writeFds, Get(rInfo, d), Get(wInfo, d), d in open)
    }

    predicate Listener(d: nat) {
      d == tcp || d == udp
    }

    ghost predicate Lists()
      reads this
    {
      Unique(rInfo) && Unique(wInfo)
    }

    ghost predicate Valid()
      reads this
    {
      tcp != udp && Lists() && forall d :: GoodRow(Listener(d), At(d))
    }

    /** The connection on a descriptor. */
    ghost function Chan(d: nat): Channel
      requires Valid() && !Listener(d)
      reads this
    {
      assert GoodRow(Listener(d), At(d));
      ChannelOf(At(d))
    }

    /** As init_ports leaves it (Tools/gdomap.c:1994-2001). */
    constructor (tcp: nat, udp: nat, t: In, u: In)
      requires tcp != udp
      ensures Valid() && this.tcp == tcp && this.udp == udp && open == {}
    {
      this.tcp, this.udp := tcp, udp;
      readFds, writeFds, open := {tcp, udp}, {}, {};
      rInfo, wInfo := [Info(tcp, t), Info(udp, u)], [];
    }

    // An entry changed or made; nothing else changes.
    method SetIn(d: nat, v: In)
      requires Lists()
      modifies this`rInfo
      ensures Lists() && At(d) == old(At(d)).(input := Some(v))
      ensures forall e :: e != d ==> At(e) == old(At(e))
    {
      var i := Find(rInfo, d);
      PutUnique(rInfo, d, v);
      forall e
        ensures Get(Put(rInfo, d, v), e) == if e == d then Some(v) else Get(rInfo, e)
      {
        PutGet(rInfo, d, v, e);
      }
      rInfo := if i < |rInfo| then rInfo[i := Info(d, v)] else rInfo + [Info(d, v)];
    }

    method SetOut(d: nat, v: Out)
      requires Lists()
      modifies this`wInfo
      ensures Lists() && At(d) == old(At(d)).(output := Some(v))
      ensures forall e :: e != d ==> At(e) == old(At(e))
    {
      var i := Find(wInfo, d);
      PutUnique(wInfo, d, v);
      forall e
        ensures Get(Put(wInfo, d, v), e) == if e == d then Some(v) else Get(wInfo, e)
      {
        PutGet(wInfo, d, v, e);
      }
      wInfo := if i < |wInfo| then wInfo[i := Info(d, v)] else wInfo + [Info(d, v)];
    }

    // delRInfo and delWInfo.
    method DelBoth(d: nat)
      requires Lists()
      modifies this`rInfo, this`wInfo
      ensures Lists() && At(d) == old(At(d)).(input := None, output := None)
      ensures forall e :: e != d ==> At(e) == old(At(e))
    {
      hide Get, Index, Del, Unique;
      ghost var r, w := rInfo, wInfo;
      var i := Find(wInfo, d);
      if i < |wInfo| {
        wInfo := wInfo[..i] + wInfo[i + 1..];
      }
      i := Find(rInfo, d);
      if i < |rInfo| {
        rInfo := rInfo[..i] + rInfo[i + 1..];
      }
      DelAll(r, d);
      DelAll(w, d);
      assert rInfo == Del(r, d) && wInfo == Del(w, d);
    }

    /** clear_chan (Tools/gdomap.c:1043-1087). */
    method ClearChan(d: nat)
      requires Lists()
      modifies this
      ensures Lists()
      ensures At(d) == if Listener(d)
                       then var r := old(At(d));
                            Row(true, false, r.input, if r.output.Some? then Some(Out(0, 0, [])) else None, r.open)
                       else Row(false, false, None, None, false)
      ensures forall e :: e != d ==> At(e) == old(At(e))
    {
      writeFds := writeFds - {d};
      if Listener(d) {
        readFds := readFds + {d};
      } else {
        readFds := readFds - {d};
        open := open - {d};
      }
      var i := Find(wInfo, d);
      if i < |wInfo| {
        SetOut(d, Out(0, 0, []));
      }
      if !Listener(d) {
        DelBoth(d);
      }
    }

    /** handle_accept (Tools/gdomap.c:2311-2390): a descriptor that was not in use; its
        buffer holds whatever was in that place. */
    method HandleAccept(d: nat, junk: seq<Byte>, nonBlocking: bool)
      requires Valid() && !Listener(d) && d !in open && |junk| == GDO_REQ_SIZE
      modifies this
      ensures Valid() && Chan(d) == if nonBlocking then Reading([]) else Closed
      ensures forall e :: e != d ==> At(e) == old(At(e))
    {
      assert GoodRow(Listener(d), At(d));
      open := open + {d};
      readFds := readFds + {d};
      SetIn(d, In(0, junk));
      if !nonBlocking {
        ClearChan(d);
      }
    }

    /** handle_read (Tools/gdomap.c:2591-2644). */
    method HandleRead(d: nat, r: Reads, handle: Handler)
      requires Valid() && !Listener(d) && Chan(d).Reading? && Fits(Chan(d).got, r)
      modifies this
      ensures Valid() && Chan(d) == AfterRead(old(Chan(d)), r, handle)
      ensures forall e :: e != d ==> At(e) == old(At(e))
    {
      assert GoodRow(Listener(d), At(d));
      var i := Find(rInfo, d);
      var ri, nothingRead := ReadPieces(rInfo[i].value, r);
      SetIn(d, ri);
      if ri.pos == GDO_REQ_SIZE {
        assert ri.buf[..ri.pos] == ri.buf;
        var answer := HandleRequest(d, handle);
      } else if !r.wouldBlock || nothingRead {
        ClearChan(d);
      }
    }

    /** What handle_request does to the connection (Tools/gdomap.c:2721-2792): with a
        reply it is waited for to write that, with none it is cleared. */
    method HandleRequest(d: nat, handle: Handler) returns (answer: Option<Reply>)
      requires Lists() && d != tcp && Get(rInfo, d).Some?
      modifies this
      ensures Lists() && answer == handle(old(Get(rInfo, d).value.buf))
      ensures At(d) == match answer
                       case None => if d == udp then old(At(d)).(read := true, write := false, output := Some(Out(0, 0, [])))
                                    else Row(false, false, None, None, false)
                       case Some(reply) => old(At(d)).(read := false, write := true, output := Some(Out(|reply|, 0, reply)))
      ensures forall e :: e != d ==> At(e) == old(At(e))
    {
      var i := Find(rInfo, d);
      var buf := rInfo[i].value.buf;
      readFds := readFds - {d};
      writeFds := writeFds + {d};
      answer := handle(buf);
      match answer
      case None =>
        SetOut(d, Out(0, 0, []));
        ClearChan(d);
      case Some(reply) =>
        SetOut(d, Out(|reply|, 0, reply));
    }

    /** handle_write (Tools/gdomap.c:3444-3499). */
    method HandleWrite(d: nat, taken: Option<nat>)
      requires Valid() && !Listener(d) && Chan(d).Writing?
      requires taken.Some? ==> Chan(d).sent + taken.value <= |Chan(d).reply|
      modifies this
      ensures Valid() && Chan(d) == AfterWrite(old(Chan(d)), taken)
      ensures forall e :: e != d ==> At(e) == old(At(e))
    {
      assert GoodRow(Listener(d), At(d));
      var i := Find(wInfo, d);
      var wi := wInfo[i].value;
      match taken
      case None =>
        ClearChan(d);
      case Some(n) =>
        SetOut(d, wi.(pos := wi.pos + n));
        if wi.pos + n >= wi.len {
          ClearChan(d);
        }
    }

    /** What handle_request does to the UDP socket: the reply is left to the queue, and
        the socket is waited for to read again (Tools/gdomap.c:2734-2792, 3360-3364). */
    method HandleDatagram(request: In, handle: Handler) returns (queued: Option<Reply>)
      requires Valid()
      modifies this
      ensures Valid() && queued == handle(request.buf)
      ensures forall e :: e != udp ==> At(e) == old(At(e))
    {
      assert GoodRow(Listener(udp), At(udp));
      SetIn(udp, request);
      queued := HandleRequest(udp, handle);
      if queued.Some? {
        ClearChan(udp);
      }
    }
  }

  // The loop of handle_read.
  method ReadPieces(ri0: In, r: Reads) returns (ri: In, nothingRead: bool)
    requires GoodIn(ri0) && Fits(ri0.buf[..ri0.pos], r)
    ensures GoodIn(ri) && ri.buf[..ri.pos] == ri0.buf[..ri0.pos] + Joined(r.pieces)
    ensures nothingRead == (r.pieces == [])
  {
    ri, nothingRead := ri0, true;
    var k, done := 0, false;
    assert r.pieces[..0] == [];
    while ri.pos < GDO_REQ_SIZE && !done
      invariant 0 <= k <= |r.pieces| && GoodIn(ri) && (done ==> k == |r.pieces|)
      invariant ri.buf[..ri.pos] == ri0.buf[..ri0.pos] + Joined(r.pieces[..k])
      invariant nothingRead == (k == 0)
      decreases |r.pieces| - k, !done
    {
      if k < |r.pieces| {
        JoinedNext(r.pieces, k);
        JoinedPart(r.pieces, k + 1);
        var piece := r.pieces[k];
        nothingRead := false;
        ri := In(ri.pos + |piece|, ri.buf[..ri.pos] + piece + ri.buf[ri.pos + |piece|..]);
        k := k + 1;
      } else {
        done := true;
      }
    }
    if k < |r.pieces| {
      JoinedMore(r.pieces, k);
    }
    assert r.pieces[..|r.pieces|] == r.pieces;
  }

  lemma JoinedNext(pieces: seq<seq<Byte>>, k: nat)
    requires k < |pieces|
    ensures Joined(pieces[..k + 1]) == Joined(pieces[..k]) + pieces[k]
  {
    assert pieces[..k + 1][..k] == pieces[..k];
  }

  lemma {:induction false} JoinedPart(pieces: seq<seq<Byte>>, k: nat)
    requires k <= |pieces|
    ensures |Joined(pieces[..k])| <= |Joined(pieces)|
    decreases |pieces| - k
  {
    if k < |pieces| {
      JoinedPart(pieces, k + 1);
      JoinedNext(pieces, k);
    } else {
      assert pieces[..k] == pieces;
    }
  }

  // There is still something in the pieces that are left.
  lemma JoinedMore(pieces: seq<seq<Byte>>, k: nat)
    requires k < |pieces| && forall p :: p in pieces ==> p != []
    ensures |Joined(pieces[..k])| < |Joined(pieces)|
  {
    JoinedNext(pieces, k);
    JoinedPart(pieces, k + 1);
    assert pieces[k] in pieces;
  }
}
