/** One connection's two directions as values: what a completed read does to the
    receiving side, and what sends and completed writes do to the sending side. */
module Flow {
  import opened Packet

  datatype Option<T> = None | Some(value: T)

  // ----- receiving -----

  /** `reading` says that an asynchronous read is outstanding. */
  datatype Receiver = Receiver(length: nat, inOffset: nat, pending: seq<Byte>, reading: bool)

  function Fresh(length: nat): Receiver {
    Receiver(length, 0, [], true)
  }

  function Room(r: Receiver): int {
    r.length - r.inOffset
  }

  /** `GetLength() - HS_NET_PACKET_MAX_SIZE` as an unsigned 64-bit number. */
  function MoveLimit(length: nat): nat {
    (length - 8192) % 0x1_0000_0000_0000_0000
  }

  lemma MoveLimitIs(length: nat)
    requires length < 0x1_0000_0000_0000_0000
    ensures MoveLimit(length) == if length >= 8192 then length - 8192 else 0xFFFF_FFFF_FFFF_E000 + length
  {
  }

  /** The function-local static of handle_read: the first session to need it
      fixes it for every session of the process. */
  function Fixed(limit: Option<nat>, length: nat): nat {
    if limit.Some? then limit.value else MoveLimit(length)
  }

  datatype ReadOutcome = ReadOutcome(r: Receiver, limit: Option<nat>, msgs: seq<seq<Byte>>, ok: bool)

  /** A read that stored `chunk` has completed. */
  function AfterRead(r: Receiver, limit: Option<nat>, chunk: seq<Byte>): ReadOutcome {
    if chunk == [] then ReadOutcome(r.(reading := false), limit, [], true)
    else
      var p := Parse(r.pending + chunk);
      if !p.ok then ReadOutcome(Receiver(r.length, 0, [], false), limit, p.msgs, false)
      else if p.rest == [] then ReadOutcome(Receiver(r.length, 0, [], true), limit, p.msgs, true)
      else
        var t, filled := Fixed(limit, r.length), r.inOffset + |chunk|;
        ReadOutcome(Receiver(r.length, if filled >= t then |p.rest| else filled, p.rest, true),
                    Some(t), p.msgs, true)
  }

  /** The outcomes of a read, by what the unused bytes with the chunk parse to. */
  lemma AfterReadCases(r: Receiver, limit: Option<nat>, chunk: seq<Byte>)
    ensures var (o, p) := (AfterRead(r, limit, chunk), Parse(r.pending + chunk));
      && (chunk == [] ==> o == ReadOutcome(r.(reading := false), limit, [], true))
      && (chunk != [] ==> o.msgs == p.msgs && o.ok == p.ok)
      && (chunk != [] && !p.ok ==> o.limit == limit && o.r == Receiver(r.length, 0, [], false))
      && (chunk != [] && p.ok && p.rest == [] ==>
            o.limit == limit && o.r == Receiver(r.length, 0, [], true))
      && (chunk != [] && p.ok && p.rest != [] ==>
            var (t, filled) := (Fixed(limit, r.length), r.inOffset + |chunk|);
            && o.limit == Some(t)
            && o.r == Receiver(r.length, if filled >= t then |p.rest| else filled, p.rest, true))
  {
  }

  /** The bytes that the reads of a stream stored, one after the other. */
  function Flatten(chunks: seq<seq<Byte>>): seq<Byte> {
    if chunks == [] then [] else chunks[0] + Flatten(chunks[1..])
  }

  /** What the bytes up to now delivered and left, and what the bytes to come will add. */
  lemma ReadOn(r: Receiver, limit: Option<nat>, chunks: seq<seq<Byte>>)
    requires chunks != [] && 0 < |chunks[0]|
    ensures var (o, p) := (AfterRead(r, limit, chunks[0]), Parse(r.pending + Flatten(chunks)));
      && (!o.ok ==> !o.r.reading && !p.ok && p.msgs == o.msgs)
      && (o.ok ==> o.r.reading && Decode(o.r.pending).Incomplete?)
      && (o.ok ==> p == Prepend(o.msgs, Parse(o.r.pending + Flatten(chunks[1..]))))
  {
    hide Parse, AfterRead, Decode;
    ParseStops([]);
    AfterReadCases(r, limit, chunks[0]);
    ParseAppend(r.pending + chunks[0], Flatten(chunks[1..]));
    assert r.pending + Flatten(chunks) == r.pending + chunks[0] + Flatten(chunks[1..]);
  }

  /** Once every chunk is read, what is left is what was unfinished. */
  lemma NothingMore(pending: seq<Byte>, got: seq<seq<Byte>>)
    requires Decode(pending).Incomplete?
    ensures Prepend(got, Parse(pending + Flatten([]))) == Stream(got, pending, true)
  {
    assert pending + Flatten([]) == pending;
    ParseStops(pending);
  }

  // ----- sending -----

  /** `inFlight` bytes at the front of `unsent` are with the operating system. */
  datatype Sender = Sender(length: nat, inOffset: nat, unsent: seq<Byte>, sending: bool, inFlight: nat)

  ghost predicate SenderValid(s: Sender) {
    && |s.unsent| <= s.inOffset <= s.length
    && s.inFlight <= |s.unsent|
    && (s.inFlight > 0 ==> s.sending)
  }

  /** handle_write: hands everything unsent to the operating system, unless a
      write is marked as outstanding. */
  function Flush(s: Sender): Sender {
    if s.unsent == [] || s.sending then s
    else s.(sending := true, inFlight := |s.unsent|)
  }

  function AfterSend(s: Sender, user: seq<Byte>): (r: (Sender, bool))
    requires s.inOffset <= s.length
    ensures r.0.inOffset <= r.0.length
  {
    match Encode(user, s.length - s.inOffset)
    case TooLong => (s, false)
    case NoRoom => (Flush(s), true)
    case Bytes(data) => (Flush(s.(inOffset := s.inOffset + |data|, unsent := s.unsent + data)), true)
  }

  lemma AfterSendCases(s: Sender, user: seq<Byte>)
    requires s.inOffset <= s.length
    ensures var e := Encode(user, s.length - s.inOffset);
      && (e.TooLong? ==> AfterSend(s, user) == (s, false))
      && (e.NoRoom? ==> AfterSend(s, user) == (Flush(s), true))
      && (e.Bytes? ==>
            AfterSend(s, user) == (Flush(s.(inOffset := s.inOffset + |e.data|, unsent := s.unsent + e.data)), true))
  {
  }

  /** A write completed without error after n bytes. */
  function AfterWrite(s: Sender, n: nat): Sender
    requires n <= s.inFlight <= |s.unsent|
  {
    if n == 0 then s.(inFlight := 0)
    else
      var rest := s.unsent[n..];
      Flush(s.(inOffset := if rest == [] then 0 else s.inOffset, unsent := rest, inFlight := 0))
        .(sending := false)
  }

  /** A write failed because the socket was full: the flag of that write is still
      set when write_result calls handle_write, and is cleared afterwards. */
  function AfterBlocked(s: Sender): Sender {
    Flush(s.(inFlight := 0)).(sending := false)
  }

  lemma SenderKeepsValid(s: Sender, user: seq<Byte>, n: nat)
    requires SenderValid(s)
    ensures s.sending ==> SenderValid(AfterBlocked(s))
    ensures SenderValid(AfterSend(s, user).0)
    ensures s.sending && n <= s.inFlight ==> SenderValid(AfterWrite(s, n))
  {
  }
}
