/** A session that receives a stream read by read: the class, not only the values,
    delivers the packets of the whole stream however it is cut. */
module Reading {
  import opened Packet
  import opened Flow
  import opened Sessions

  /** Each chunk can be stored by a read when its turn comes, as long as the
      session has not been closed. */
  ghost predicate Storable(r: Receiver, limit: Option<nat>, chunks: seq<seq<Byte>>)
    decreases |chunks|
  {
    chunks == [] ||
    (0 < |chunks[0]| <= Room(r) &&
     (AfterRead(r, limit, chunks[0]).ok ==>
        Storable(AfterRead(r, limit, chunks[0]).r, AfterRead(r, limit, chunks[0]).limit, chunks[1..])))
  }

  lemma PrependNone(s: Stream)
    ensures Prepend([], s) == s
  {
    assert [] + s.msgs == s.msgs;
  }

  lemma PrependTwice(a: seq<seq<Byte>>, b: seq<seq<Byte>>, s: Stream)
    ensures Prepend(a, Prepend(b, s)) == Prepend(a + b, s)
  {
    assert a + (b + s.msgs) == a + b + s.msgs;
  }

  lemma ReceivedConcat(a: seq<seq<Byte>>, b: seq<seq<Byte>>)
    ensures Received(a + b) == Received(a) + Received(b)
  {
  }

  /** One read after the other, until the chunks are used up or the stream turns
      out corrupt: the handler has received exactly the packets of the whole stream. */
  method ReadAll(s: Session, chunks: seq<seq<Byte>>, limit: ReadLimit)
    requires s.Valid() && s.connected && s.reading && s.hasHandler
    requires Decode(s.Receiving().pending).Incomplete?
    requires Storable(s.Receiving(), limit.value, chunks)
    modifies s, s.recv, s.recv.buffer, s.send, limit
    ensures s.Valid() && s.hasHandler
    ensures s.events == old(s.events) + Received(old(Parse(s.Receiving().pending + Flatten(chunks))).msgs)
    ensures old(Parse(s.Receiving().pending + Flatten(chunks))).ok ==>
      && s.reading && s.connected
      && s.Receiving().pending == old(Parse(s.Receiving().pending + Flatten(chunks))).rest
    ensures !old(Parse(s.Receiving().pending + Flatten(chunks))).ok ==> !s.reading && !s.connected
  {
    hide Parse, Decode, AfterRead, Session.Sending, Received;
    ghost var p := Parse(s.Receiving().pending + Flatten(chunks));
    ghost var got: seq<seq<Byte>> := [];
    ReceivedNone();
    PrependNone(p);
    var i := 0;
    assert chunks[0..] == chunks;
    while i < |chunks|
      invariant 0 <= i <= |chunks|
      invariant s.Valid() && s.hasHandler && s.reading && s.connected
      invariant Decode(s.Receiving().pending).Incomplete?
      invariant Storable(s.Receiving(), limit.value, chunks[i..])
      invariant p == Prepend(got, Parse(s.Receiving().pending + Flatten(chunks[i..])))
      invariant s.events == old(s.events) + Received(got)
    {
      ghost var r, known, rest := s.Receiving(), limit.value, chunks[i..];
      ghost var o := AfterRead(r, known, rest[0]);
      ReadOn(r, known, rest);
      assert rest[1..] == chunks[i + 1..];
      PrependTwice(got, o.msgs, Parse(o.r.pending + Flatten(rest[1..])));
      ReceivedConcat(got, o.msgs);
      s.HandleRead(chunks[i], limit);
      got := got + o.msgs;
      if !s.connected {
        return;
      }
      i := i + 1;
    }
    NothingMore(s.Receiving().pending, got);
  }
}
