/** A whole conversation on a connection does not depend on the pieces in which it is
    read and written. */
module Conversations {
  import opened Wrappers
  import opened Bytes
  import opened Channels

  // Readings while there is something to read.
  function ReadAll(ch: Channel, rs: seq<Reads>, handle: Handler): Channel
    decreases |rs|
  {
    if rs == [] || !ch.Reading? then ch else ReadAll(AfterRead(ch, rs[0], handle), rs[1..], handle)
  }

  // All the bytes of some readings.
  function Stream(rs: seq<Reads>): seq<Byte> {
    if rs == [] then [] else Joined(rs[0].pieces) + Stream(rs[1..])
  }

  // The system gives out no more than is asked for, and no empty piece.
  predicate AllFit(got: seq<Byte>, rs: seq<Reads>) {
    |got| + |Stream(rs)| <= GDO_REQ_SIZE && forall i :: 0 <= i < |rs| ==> NoneEmpty(rs[i])
  }

  predicate NoneEmpty(r: Reads) {
    forall p :: p in r.pieces ==> p != []
  }

  // Every reading gives something, and the connection does not end.
  predicate Patient(rs: seq<Reads>) {
    forall i :: 0 <= i < |rs| ==> rs[i].wouldBlock && rs[i].pieces != []
  }

  /** The connection after so many bytes. */
  function AfterBytes(got: seq<Byte>, handle: Handler): Channel {
    if |got| < GDO_REQ_SIZE then Reading(got)
    else match handle(got) case None => Closed case Some(reply) => Writing(got, reply, 0)
  }

  lemma {:induction false} SomeBytes(pieces: seq<seq<Byte>>)
    requires pieces != [] && forall p :: p in pieces ==> p != []
    ensures Channels.Joined(pieces) != []
  {
    assert pieces[|pieces| - 1] in pieces;
  }

  /** However the bytes come in pieces, the connection is what the bytes make of it. */
  lemma {:induction false} ChunkingDoesNotMatter(got: seq<Byte>, rs: seq<Reads>, handle: Handler)
    requires |got| < GDO_REQ_SIZE && AllFit(got, rs) && Patient(rs)
    ensures ReadAll(Reading(got), rs, handle) == AfterBytes(got + Stream(rs), handle)
    decreases |rs|
  {
    if rs == [] {
      assert got + [] == got;
    } else {
      var first, rest := Joined(rs[0].pieces), rs[1..];
      assert got + Stream(rs) == got + first + Stream(rest);
      assert NoneEmpty(rs[0]) && rs[0].wouldBlock && rs[0].pieces != [];
      assert forall i :: 0 <= i < |rest| ==> rest[i] == rs[i + 1];
      if |got + first| == GDO_REQ_SIZE {
        NothingLeft(got + first, rest);
        assert rest == [] && got + first + Stream(rest) == got + first;
      } else {
        ChunkingDoesNotMatter(got + first, rest, handle);
      }
    }
  }

  lemma NothingLeft(got: seq<Byte>, rs: seq<Reads>)
    requires |got| == GDO_REQ_SIZE && AllFit(got, rs) && Patient(rs)
    ensures rs == []
  {
    if rs != [] {
      assert NoneEmpty(rs[0]) && rs[0].pieces != [];
      SomeBytes(rs[0].pieces);
    }
  }

  /** Whatever happens, a request that is handled is exactly the first 264 bytes that
      came, and the reply is the server's to it. */
  lemma {:induction false} RequestIsStream(got: seq<Byte>, rs: seq<Reads>, handle: Handler)
    requires |got| < GDO_REQ_SIZE && AllFit(got, rs)
    ensures var ch := ReadAll(Reading(got), rs, handle);
            ch.Writing? ==> ch.request == got + Stream(rs) && |ch.request| == GDO_REQ_SIZE
                            && handle(ch.request) == Some(ch.reply) && ch.sent == 0
    decreases |rs|
  {
    if rs == [] {
    } else {
      var first, rest := Joined(rs[0].pieces), rs[1..];
      assert got + Stream(rs) == got + first + Stream(rest);
      assert NoneEmpty(rs[0]);
      assert forall i :: 0 <= i < |rest| ==> rest[i] == rs[i + 1];
      if |got + first| == GDO_REQ_SIZE {
        assert Stream(rest) == [];
      } else if rs[0].wouldBlock && rs[0].pieces != [] {
        RequestIsStream(got + first, rest, handle);
      }
    }
  }

  // The connection ends in this reading, or has nothing to give.
  predicate Ending(r: Reads) {
    !r.wouldBlock || r.pieces == []
  }

  /** A connection that ends is closed, and its bytes are forgotten, if they are fewer than
      264: the server is not asked, and nothing is sent. If they are 264 the request is
      handled all the same. */
  lemma {:induction false} EndDecides(got: seq<Byte>, rs: seq<Reads>, last: Reads, handle: Handler)
    requires |got| < 264 && AllFit(got, rs + [last]) && Patient(rs) && Ending(last)
    ensures var all := got + Stream(rs + [last]);
            ReadAll(Reading(got), rs + [last], handle)
            == if |all| < 264 then Closed
               else match handle(all) case None => Closed case Some(reply) => Writing(all, reply, 0)
    decreases |rs|
  {
    var whole := rs + [last];
    assert NoneEmpty(whole[|rs|]) && whole[|rs|] == last;
    if rs == [] {
      assert whole[1..] == [] && whole[0] == last && Stream(whole) == Joined(last.pieces) + [];
      assert got + Stream(whole) == got + Joined(last.pieces);
      assert ReadAll(Reading(got), whole, handle) == AfterRead(Reading(got), last, handle);
    } else {
      var first := Joined(rs[0].pieces);
      assert whole[0] == rs[0] && whole[1..] == rs[1..] + [last];
      assert got + Stream(whole) == got + first + Stream(rs[1..] + [last]);
      assert NoneEmpty(whole[0]) && rs[0].wouldBlock && rs[0].pieces != [];
      assert forall i :: 0 <= i < |rs[1..] + [last]| ==> (rs[1..] + [last])[i] == whole[i + 1];
      assert forall i :: 0 <= i < |rs[1..]| ==> rs[1..][i] == rs[i + 1];
      if |got + first| < 264 {
        EndDecides(got + first, rs[1..], last, handle);
      } else {
        assert Stream(rs[1..] + [last]) == [] && got + Stream(whole) == got + first;
        assert ReadAll(Reading(got), whole, handle) == AfterRead(Reading(got), rs[0], handle);
      }
    }
  }

  /** Whatever the server would answer, it does not matter: half a request leaves no trace. */
  lemma HalfRequestIsNone(rs: seq<Reads>, last: Reads, handle: Handler, ts: seq<Option<nat>>)
    requires AllFit([], rs + [last]) && Patient(rs) && Ending(last) && |Stream(rs + [last])| < 264
    ensures var ch := ReadAll(Reading([]), rs + [last], handle); ch == Closed && Sent(ch, ts) == []
  {
    EndDecides([], rs, last, handle);
  }

  // The bytes that some writes send, and the connection after them.
  function Sent(ch: Channel, ts: seq<Option<nat>>): seq<Byte>
    decreases |ts|
  {
    if ts == [] || !ch.Writing? then [] else Output(ch, ts[0]) + Sent(AfterWrite(ch, ts[0]), ts[1..])
  }

  function WriteAll(ch: Channel, ts: seq<Option<nat>>): Channel
    decreases |ts|
  {
    if ts == [] || !ch.Writing? then ch else WriteAll(AfterWrite(ch, ts[0]), ts[1..])
  }

  // No write takes more than there is.
  predicate Taken(ch: Channel, ts: seq<Option<nat>>)
    decreases |ts|
  {
    ts != [] && ch.Writing? ==>
      && (ts[0].Some? ==> ch.sent + ts[0].value <= |ch.reply|)
      && Taken(AfterWrite(ch, ts[0]), ts[1..])
  }

  predicate NoFailure(ts: seq<Option<nat>>) {
    forall i :: 0 <= i < |ts| ==> ts[i].Some?
  }

  /** What is sent is always the next part of the reply; unless a write fails, the
      connection is closed exactly when all of it has been sent. */
  lemma {:induction false} SentIsPrefix(ch: Channel, ts: seq<Option<nat>>)
    requires ch.Writing? && ch.sent < |ch.reply| && Taken(ch, ts)
    ensures var out := Sent(ch, ts); ch.sent + |out| <= |ch.reply| && out == ch.reply[ch.sent..ch.sent + |out|]
    ensures var n := ch.sent + |Sent(ch, ts)|;
            NoFailure(ts) ==> WriteAll(ch, ts) == if n == |ch.reply| then Closed else ch.(sent := n)
    decreases |ts|
  {
    hide *;
    if ts == [] {
      NoWrites(ch);
    } else {
      var next := AfterWrite(ch, ts[0]);
      WriteNext(ch, ts);
      WriteOne(ch, ts[0]);
      RestSucceeds(ts);
      if next.Writing? {
        SentIsPrefix(next, ts[1..]);
        JoinSlices(ch.reply, ch.sent, next.sent, next.sent + |Sent(next, ts[1..])|);
      }
    }
  }

  lemma NoWrites(ch: Channel)
    ensures Sent(ch, []) == [] && WriteAll(ch, []) == ch
  {
  }

  // One write.
  lemma WriteOne(ch: Channel, taken: Option<nat>)
    requires ch.Writing? && ch.sent < |ch.reply| && (taken.Some? ==> ch.sent + taken.value <= |ch.reply|)
    ensures var (next, n) := (AfterWrite(ch, taken), if taken.Some? then taken.value else 0);
            && Output(ch, taken) == ch.reply[ch.sent..ch.sent + n]
            && (next.Writing? ==> next == ch.(sent := ch.sent + n) && next.sent < |next.reply|)
            && (!next.Writing? ==> next == Closed && (taken.Some? ==> ch.sent + n == |ch.reply|))
  {
  }

  // One write, and the rest.
  lemma WriteNext(ch: Channel, ts: seq<Option<nat>>)
    requires ch.Writing? && Taken(ch, ts) && ts != []
    ensures var next := AfterWrite(ch, ts[0]);
            && Sent(ch, ts) == Output(ch, ts[0]) + Sent(next, ts[1..]) && WriteAll(ch, ts) == WriteAll(next, ts[1..])
            && (ts[0].Some? ==> ch.sent + ts[0].value <= |ch.reply|) && Taken(next, ts[1..])
            && (!next.Writing? ==> Sent(next, ts[1..]) == [] && WriteAll(next, ts[1..]) == next)
  {
    hide AfterWrite, Output;
  }

  lemma RestSucceeds(ts: seq<Option<nat>>)
    requires ts != []
    ensures NoFailure(ts) ==> ts[0].Some? && NoFailure(ts[1..])
  {
    assert forall i :: 0 <= i < |ts[1..]| ==> ts[1..][i] == ts[i + 1];
  }

  lemma JoinSlices(s: seq<Byte>, a: nat, b: nat, c: nat)
    requires a <= b <= c <= |s|
    ensures s[a..b] + s[b..c] == s[a..c]
  {
  }

  /** A whole conversation: what the client gets is a beginning of the server's reply to
      the first 264 bytes that the client sent, and nothing if those never came. */
  lemma ConversationIsAnswer(rs: seq<Reads>, ts: seq<Option<nat>>, handle: Handler)
    requires AllFit([], rs)
    requires Taken(ReadAll(Reading([]), rs, handle), ts)
    ensures var out := Sent(ReadAll(Reading([]), rs, handle), ts);
            out != [] ==> |Stream(rs)| == GDO_REQ_SIZE && handle(Stream(rs)).Some?
                          && out <= handle(Stream(rs)).value
  {
    var ch := ReadAll(Reading([]), rs, handle);
    RequestIsStream([], rs, handle);
    assert [] + Stream(rs) == Stream(rs);
    if ch.Writing? {
      SentIsPrefix(ch, ts);
    }
  }
}
