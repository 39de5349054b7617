/** HSSession: a connection's identity, its connected flag and its two buffers. */
module Sessions {
  import opened Packet
  import opened Buffers
  import opened Flow

  datatype Event = OnConnect | OnReceive(data: seq<Byte>) | OnDisconnect

  const WOULD_BLOCK := 10035

  /** The storage of handle_read's function-local static `max_read_length`. */
  class ReadLimit {
    var value: Option<nat>

    constructor ()
      ensures value == None
    {
      value := None;
    }
  }

  function Received(msgs: seq<seq<Byte>>): seq<Event> {
    seq(|msgs|, i requires 0 <= i < |msgs| => OnReceive(msgs[i]))
  }

  class Session {
    const id: nat
    var connected: bool
    const recv: RecvBuffer
    const send: SendBuffer
    var sending: bool           // handle_sending_
    var hasHandler: bool        // event_handler_ is set
    ghost var events: seq<Event>            // the handler calls made so far
    ghost var reading: bool                 // an asynchronous read is outstanding
    ghost var inFlight: nat                 // bytes given to an outstanding asynchronous write

    ghost predicate Valid()
      reads this, recv, recv.buffer, send, send.buffer
    {
      && recv.Valid() && recv.usedOutReset && recv.buffer != send.buffer
      && send.Valid() && send.sentOutReset
      && SenderValid(Sending())
    }

    ghost function Receiving(): Receiver
      reads this, recv, recv.buffer
      requires recv.Valid()
    {
      Receiver(recv.buffer.Length, recv.inOffset, recv.Unused(), reading)
    }

    ghost function Sending(): Sender
      reads this, send, send.buffer
      requires send.Valid()
    {
      Sender(send.buffer.Length, send.inOffset, send.Unsent(), sending, inFlight)
    }

    constructor (id: nat, recvLength: nat, sendLength: nat)
      ensures Valid() && recv.buffer != send.buffer
      ensures fresh(recv) && fresh(send) && fresh(recv.buffer) && fresh(send.buffer)
      ensures this.id == id && !connected && !hasHandler && events == []
      ensures Receiving() == Fresh(recvLength).(reading := false)
      ensures Sending() == Sender(sendLength, 0, [], false, 0)
    {
      this.id, connected, sending, hasHandler := id, false, false, false;
      recv := new RecvBuffer(recvLength);
      send := new SendBuffer(sendLength);
      events, reading, inFlight := [], false, 0;
    }

    method AttachEventHandler()
      requires Valid()
      modifies this`hasHandler
      ensures Valid() && hasHandler
    {
      hasHandler := true;
    }

    /** Starts an asynchronous read into the free part of the receive buffer. */
    method Start()
      requires Valid()
      modifies this`reading
      ensures Valid() && reading
    {
      reading := true;
    }

    method Connected()
      modifies this`connected, this`events
      ensures connected && (old(Valid()) ==> Valid())
      ensures events == old(events) + if hasHandler then [OnConnect] else []
    {
      if hasHandler {
        events := events + [OnConnect];
      }
      connected := true;
    }

    method Clear()
      requires recv.buffer != send.buffer
      modifies this`connected, this`sending, this`inFlight, recv, send
      ensures Valid() && !connected
      ensures Receiving() == Receiver(recv.buffer.Length, 0, [], reading)
      ensures Sending() == Sender(send.buffer.Length, 0, [], false, 0)
    {
      recv.Clear();
      send.Clear();
      sending := false;
      connected := false;
      inFlight := 0;
    }

    /** Drops `offset` header bytes, hands the next `size` bytes to the handler and uses them. */
    method Deliver(offset: nat, size: nat) returns (data: seq<Byte>)
      requires recv.Valid() && recv.usedOutReset && 0 < offset && offset + size <= |recv.Unused()|
      modifies this`events, recv`inOffset, recv`usedOffset
      ensures recv.Valid()
      ensures data == old(recv.Unused()[offset..offset + size])
      ensures recv.Unused() == old(recv.Unused()[offset + size..])
      ensures recv.inOffset == if recv.Unused() == [] then 0 else old(recv.inOffset)
      ensures events == old(events) + if hasHandler then [OnReceive(data)] else []
    {
      SlicesOfTail(recv.Unused(), offset, size);
      var _ := recv.DataUse(offset);
      data := recv.buffer[recv.usedOffset..recv.usedOffset + size];
      assert data == recv.Unused()[..size];
      if hasHandler {
        events := events + [OnReceive(data)];
      }
      var _ := recv.DataUse(size);
    }

    /** The decoding loop of handle_read: delivers every complete packet.
        The result is the last verdict: -1, 0 or 1. */
    method DecodeLoop() returns (res: int)
      requires recv.Valid() && recv.usedOutReset && recv.Unused() != []
      modifies this`events, recv`inOffset, recv`usedOffset
      ensures recv.Valid()
      ensures events == old(events) + if hasHandler then Received(old(Parse(recv.Unused())).msgs) else []
      ensures -1 <= res <= 1
      ensures res == -1 <==> !old(Parse(recv.Unused())).ok
      ensures res == 0 <==> old(Parse(recv.Unused())).ok && recv.Unused() != []
      ensures res != -1 ==> recv.Unused() == old(Parse(recv.Unused())).rest
      ensures res == 0 ==> recv.inOffset == old(recv.inOffset)
      ensures res == 1 ==> recv.inOffset == 0
    {
      hide Parse, Received;
      ghost var p := Parse(recv.Unused());
      ghost var got: seq<seq<Byte>> := [];
      ReceivedNone();
      ParseStops([]);
      while true
        invariant recv.Valid() && recv.Unused() != [] && recv.inOffset == old(recv.inOffset)
        invariant p == Prepend(got, Parse(recv.Unused()))
        invariant events == old(events) + (if hasHandler then Received(got) else [])
        decreases |recv.Unused()|
      {
        ghost var unused := recv.Unused();
        var verdict := Decode(recv.buffer[recv.usedOffset..recv.inOffset]);
        ParseStops(unused);
        assert got + [] == got;
        if verdict.Incomplete? {
          return 0;
        }
        if verdict.Corrupt? {
          return -1;
        }
        var data := Deliver(verdict.offset, verdict.size);
        ParsePacket(unused, data, recv.Unused());
        PrependCons(got, data, Parse(recv.Unused()));
        ReceivedSnoc(got, data);
        got := got + [data];
        assert got + [] == got;
        if recv.inOffset == recv.usedOffset {
          return 1;
        }
      }
    }

    /** The operating system stores `chunk`; handle_read then announces its size. */
    method TakeIn(chunk: seq<Byte>)
      requires recv.Valid() && |chunk| <= recv.Room()
      modifies recv`inOffset, recv.buffer
      ensures recv.Valid() && recv.Unused() == old(recv.Unused()) + chunk
      ensures recv.inOffset == old(recv.inOffset) + |chunk|
    {
      recv.Store(chunk);
      var _ := recv.DataIn(|chunk|);
    }

    /** The end of handle_read after an unfinished packet: when the in offset has
        reached the limit, the unfinished bytes move to the beginning of the buffer. */
    method MakeRoom(limit: ReadLimit)
      requires recv.Valid() && recv.Unused() != []
      modifies recv`inOffset, recv`usedOffset, recv.buffer, limit
      ensures recv.Valid() && recv.Unused() == old(recv.Unused())
      ensures limit.value == Some(Fixed(old(limit.value), recv.buffer.Length))
      ensures recv.inOffset == if old(recv.inOffset) >= Fixed(old(limit.value), recv.buffer.Length)
                               then |recv.Unused()| else old(recv.inOffset)
    {
      if limit.value == None {
        limit.value := Some(MoveLimit(recv.buffer.Length));
      }
      if recv.inOffset >= limit.value.value {
        recv.MoveUnusedToBegin();
      }
    }

    /** An asynchronous read has stored `chunk` at the in offset and completed. */
    method HandleRead(chunk: seq<Byte>, limit: ReadLimit)
      requires Valid() && reading && |chunk| <= recv.Room()
      modifies this, recv, recv.buffer, send, limit
      ensures Valid() && hasHandler == old(hasHandler)
      ensures Receiving() == old(AfterRead(Receiving(), limit.value, chunk)).r
      ensures limit.value == old(AfterRead(Receiving(), limit.value, chunk)).limit
      ensures events == old(events)
        + if hasHandler then Received(old(AfterRead(Receiving(), limit.value, chunk)).msgs) else []
      ensures old(AfterRead(Receiving(), limit.value, chunk)).ok ==>
        connected == old(connected) && Sending() == old(Sending())
      ensures !old(AfterRead(Receiving(), limit.value, chunk)).ok ==>
        !connected && Sending() == Sender(send.buffer.Length, 0, [], false, 0)
    {
      hide Parse, Received, AfterRead, Fixed;
      ghost var r, known := Receiving(), limit.value;
      AfterReadCases(r, known, chunk);
      reading := false;
      ReceivedNone();
      if chunk == [] {
        return;
      }
      TakeIn(chunk);
      assert recv.Unused() == r.pending + chunk;
      var res := DecodeLoop();
      if res < 0 {
        Clear();
        return;
      }
      if res == 0 {
        MakeRoom(limit);
      }
      Start();
    }

    /** What both completion handlers do about a real error. */
    method Disconnect()
      requires Valid()
      modifies this, recv, send
      ensures Valid() && !connected && hasHandler == old(hasHandler)
      ensures Receiving() == Receiver(recv.buffer.Length, 0, [], old(reading))
      ensures Sending() == Sender(send.buffer.Length, 0, [], false, 0)
      ensures events == old(events) + if hasHandler then [OnDisconnect] else []
    {
      if hasHandler {
        events := events + [OnDisconnect];
      }
      Clear();
    }

    /** An asynchronous read has failed. */
    method HandleReadError(error: int)
      requires Valid() && reading
      modifies this, recv, send
      ensures Valid()
      ensures hasHandler == old(hasHandler)
      ensures error == 10035 ==>
        && Receiving() == old(Receiving()) && Sending() == old(Sending())
        && connected == old(connected) && events == old(events)
      ensures error != 10035 ==>
        && Receiving() == Receiver(recv.buffer.Length, 0, [], false)
        && Sending() == Sender(send.buffer.Length, 0, [], false, 0)
        && !connected && events == old(events) + if hasHandler then [OnDisconnect] else []
    {
      reading := false;
      if error == WOULD_BLOCK {
        Start();
      } else {
        Disconnect();
      }
    }

    /** handle_write: starts an asynchronous write of everything unsent, unless
        one is marked as outstanding. */
    method HandleWrite()
      requires Valid()
      modifies this`sending, this`inFlight
      ensures Valid() && Sending() == Flush(old(Sending()))
    {
      if send.inOffset - send.sentOffset == 0 {
        return;
      }
      if sending {
        return;
      }
      inFlight := send.inOffset - send.sentOffset;
      sending := true;
    }

    /** EncodePacket into the send buffer; the result is its verdict: -1, 0 or 1. */
    method Pack(data: seq<Byte>) returns (res: int)
      requires Valid()
      modifies send`inOffset, send.buffer
      ensures Valid()
      ensures Encode(data, old(send.Room())).TooLong? ==> res == -1 && Sending() == old(Sending())
      ensures Encode(data, old(send.Room())).NoRoom? ==> res == 0 && Sending() == old(Sending())
      ensures Encode(data, old(send.Room())).Bytes? ==>
        var bytes := Encode(data, old(send.Room())).data;
        && res == 1
        && Sending() == old(Sending()).(inOffset := old(send.inOffset) + |bytes|, unsent := old(send.Unsent()) + bytes)
    {
      hide Encode, Frame;
      ghost var bytes := Encode(data, send.Room());
      var size;
      res, size := send.EncodeAtEnd(data);
      if res == 1 {
        var _ := send.DataIn(size);
        assert send.Unsent() == old(send.Unsent()) + bytes.data;
      }
    }

    /** Packs `data` into the send buffer. The result is false only for data that
        is too long for any packet; data that finds no room is dropped. */
    method Send(data: seq<Byte>) returns (ok: bool)
      requires Valid()
      modifies this`sending, this`inFlight, send`inOffset, send.buffer
      ensures Valid()
      ensures Sending() == AfterSend(old(Sending()), data).0
      ensures ok == AfterSend(old(Sending()), data).1
    {
      AfterSendCases(Sending(), data);
      hide Encode, Frame, AfterSend, Flush;
      var res := Pack(data);
      hide Session.Valid;
      if res == -1 {
        return false;
      }
      HandleWrite();
      return true;
    }

    /** An asynchronous write has completed without error after n bytes. */
    method WriteDone(n: nat)
      requires Valid() && sending && n <= inFlight
      modifies this`sending, this`inFlight, send`inOffset, send`sentOffset
      ensures Valid() && Sending() == AfterWrite(old(Sending()), n)
    {
      inFlight := 0;
      if n == 0 {
        return;
      }
      var _ := send.Sent(n);
      if send.inOffset - send.sentOffset > 0 {
        HandleWrite();
      }
      sending := false;
    }

    /** An asynchronous write has failed. */
    method WriteError(error: int)
      requires Valid() && (error == 10035 ==> sending)
      modifies this, recv, send
      ensures Valid()
      ensures hasHandler == old(hasHandler)
      ensures error == 10035 ==>
        Sending() == old(Sending()).(sending := false, inFlight := 0) == AfterBlocked(old(Sending()))
      ensures error == 10035 ==> Receiving() == old(Receiving())
      ensures error == 10035 ==> connected == old(connected) && events == old(events)
      ensures error != 10035 ==> Sending() == Sender(send.buffer.Length, 0, [], false, 0)
      ensures error != 10035 ==> Receiving() == Receiver(recv.buffer.Length, 0, [], old(reading))
      ensures error != 10035 ==>
        !connected && events == old(events) + if hasHandler then [OnDisconnect] else []
    {
      inFlight := 0;
      if error == WOULD_BLOCK {
        assert Valid() && Sending() == old(Sending()).(inFlight := 0);
        HandleWrite();
      } else {
        Disconnect();
      }
      label marked:
      sending := false;
      assert Receiving() == old@marked(Receiving());
      assert Sending() == old@marked(Sending()).(sending := false);
    }
  }

  lemma ReceivedNone()
    ensures Received([]) == []
  {
  }

  lemma ReceivedSnoc(msgs: seq<seq<Byte>>, m: seq<Byte>)
    ensures Received(msgs + [m]) == Received(msgs) + [OnReceive(m)]
  {
  }
}
