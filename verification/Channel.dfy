/** Whole runs of one connection: any stream cut into reads in any way, and a
    sender joined to a receiver by a lossless first-in-first-out transport. */
module Channel {
  import opened Packet
  import opened Flow

  // ----- a receiver alone, on arbitrary bytes -----

  /** One completed read: the static limit it finds and the bytes it stored. */
  datatype Read = Read(limit: Option<nat>, chunk: seq<Byte>)

  function Chunks(rs: seq<Read>): seq<seq<Byte>> {
    seq(|rs|, i requires 0 <= i < |rs| => rs[i].chunk)
  }

  /** The receiver, and everything delivered, after a run of reads; a corrupt
      stream ends the run. */
  function ReadAll(r: Receiver, rs: seq<Read>): (o: ReadOutcome)
    decreases |rs|
  {
    if rs == [] then ReadOutcome(r, None, [], true)
    else
      var now := AfterRead(r, rs[0].limit, rs[0].chunk);
      if !now.ok then now
      else
        var later := ReadAll(now.r, rs[1..]);
        later.(msgs := now.msgs + later.msgs)
  }

  /** A receiver that starts with unfinished bytes delivers the parse of those bytes
      with all that its reads store. */
  lemma {:induction false} ReadsParse(r: Receiver, rs: seq<Read>)
    requires Decode(r.pending).Incomplete?
    ensures var (o, p) := (ReadAll(r, rs), Parse(r.pending + Flatten(Chunks(rs))));
      && o.ok == p.ok && o.msgs == p.msgs && (p.ok ==> o.r.pending == p.rest)
    decreases |rs|
  {
    hide Parse, AfterRead, Decode;
    if rs == [] {
      NothingMore(r.pending, []);
    } else {
      var now := AfterRead(r, rs[0].limit, rs[0].chunk);
      assert Chunks(rs)[1..] == Chunks(rs[1..]);
      AfterReadCases(r, rs[0].limit, rs[0].chunk);
      if rs[0].chunk == [] {
        assert Flatten(Chunks(rs)) == Flatten(Chunks(rs[1..]));
      } else {
        ReadOn(r, rs[0].limit, Chunks(rs));
      }
      if now.ok { ReadsParse(now.r, rs[1..]); }
    }
  }

  /** What a run of reads delivers is the parse of the concatenated bytes: it does
      not depend on where the stream was cut. */
  lemma CutsDoNotMatter(length: nat, rs: seq<Read>)
    ensures var (o, p) := (ReadAll(Fresh(length), rs), Parse(Flatten(Chunks(rs))));
      && o.ok == p.ok && o.msgs == p.msgs && (p.ok ==> o.r.pending == p.rest)
  {
    ParseStops([]);
    ReadsParse(Fresh(length), rs);
    assert [] + Flatten(Chunks(rs)) == Flatten(Chunks(rs));
  }

  lemma OneMoreRead(r: Receiver, limit: Option<nat>, seen: seq<Byte>, chunk: seq<Byte>)
    requires Parse(seen).ok && r.pending == Parse(seen).rest
    ensures var (o, p) := (AfterRead(r, limit, chunk), Parse(seen + chunk));
      && o.ok == p.ok && Parse(seen).msgs + o.msgs == p.msgs && (p.ok ==> o.r.pending == p.rest)
  {
    ParseAppend(seen, chunk);
    if chunk == [] {
      assert seen + chunk == seen;
    }
  }

  // ----- sender and receiver joined -----

  datatype Link = Link(
    sender: Sender,
    accepted: seq<seq<Byte>>,    // packets put into the send buffer
    transit: seq<Byte>,          // bytes written and not yet read
    receiver: Receiver,
    delivered: seq<seq<Byte>>,   // packets handed to the receiver's event handler
    broken: bool)                // the receiver found the stream corrupt

  datatype Action =
    | Send(user: seq<Byte>)
    | Written(n: nat)       // a write completed after n bytes
    | Blocked               // a write failed with the would-block error
    | Arrives(n: nat, limit: Option<nat>)

  function Opened(sendLength: nat, recvLength: nat): Link {
    Link(Sender(sendLength, 0, [], false, 0), [], [], Fresh(recvLength), [], false)
  }

  predicate Enabled(c: Link, a: Action) {
    match a
    case Send(_) => c.sender.inOffset <= c.sender.length
    case Written(n) => c.sender.sending && n <= c.sender.inFlight <= |c.sender.unsent|
    case Blocked => c.sender.sending && 0 < c.sender.inFlight <= |c.sender.unsent|
    case Arrives(n, _) => c.receiver.reading && n <= |c.transit| && n <= Room(c.receiver)
  }

  /** `accepted` grows exactly when EncodePacket returned 1. */
  function Apply(c: Link, a: Action): Link
    requires Enabled(c, a)
  {
    match a
    case Send(user) =>
      var room := c.sender.length - c.sender.inOffset;
      c.(sender := AfterSend(c.sender, user).0,
         accepted := if Encode(user, room).Bytes? then c.accepted + [user] else c.accepted)
    case Written(n) =>
      c.(sender := AfterWrite(c.sender, n), transit := c.transit + c.sender.unsent[..n])
    case Blocked =>
      c.(sender := AfterBlocked(c.sender))
    case Arrives(n, limit) =>
      var o := AfterRead(c.receiver, limit, c.transit[..n]);
      c.(receiver := o.r, transit := c.transit[n..], delivered := c.delivered + o.msgs,
         broken := c.broken || !o.ok)
  }

  /** `links` is a run from a newly opened connection through the actions `run`. */
  ghost predicate IsRun(links: seq<Link>, run: seq<Action>) {
    && |links| == |run| + 1
    && (exists s: nat, r: nat :: links[0] == Opened(s, r))
    && forall i | 0 <= i < |run| :: Enabled(links[i], run[i]) && links[i + 1] == Apply(links[i], run[i])
  }

  /** The bytes the receiver has seen. */
  function Seen(c: Link): seq<Byte> {
    Frames(c.delivered) + c.receiver.pending
  }

  ghost predicate Inv(c: Link) {
    && SenderValid(c.sender)
    && AllSendable(c.accepted)
    && !c.broken
    && Parse(Seen(c)) == Stream(c.delivered, c.receiver.pending, true)
    && Frames(c.accepted) == Seen(c) + c.transit + c.sender.unsent
  }

  lemma OpenedInv(s: nat, r: nat)
    ensures Inv(Opened(s, r))
  {
    ParseStops([]);
    assert Seen(Opened(s, r)) == [];
  }

  lemma SendKeepsInv(c: Link, user: seq<Byte>)
    requires Inv(c) && Enabled(c, Send(user))
    ensures Inv(Apply(c, Send(user)))
  {
    hide Parse, Frame;
    SenderKeepsValid(c.sender, user, 0);
    if Encode(user, c.sender.length - c.sender.inOffset).Bytes? {
      FramesAppend(c.accepted, [user]);
      FramesOne(user);
      Associates(Seen(c) + c.transit, c.sender.unsent, Frame(user));
    }
  }

  lemma WrittenKeepsInv(c: Link, n: nat)
    requires Inv(c) && Enabled(c, Written(n))
    ensures Inv(Apply(c, Written(n)))
  {
    hide Parse, Frames;
    SenderKeepsValid(c.sender, [], n);
    var u := c.sender.unsent;
    assert u == u[..n] + u[n..];
    assert Seen(c) + c.transit + u == Seen(c) + (c.transit + u[..n]) + u[n..];
  }

  lemma BlockedKeepsInv(c: Link)
    requires Inv(c) && Enabled(c, Blocked)
    ensures Inv(Apply(c, Blocked))
  {
    hide Parse, Frames;
    SenderKeepsValid(c.sender, [], 0);
  }

  lemma ArrivesKeepsInv(c: Link, n: nat, limit: Option<nat>)
    requires Inv(c) && Enabled(c, Arrives(n, limit))
    ensures Inv(Apply(c, Arrives(n, limit)))
  {
    hide Parse, Frames, AfterRead;
    var d, chunk, after := Apply(c, Arrives(n, limit)), c.transit[..n], c.transit[n..];
    assert c.transit == chunk + after;
    var seen := Seen(c) + chunk;
    assert Frames(c.accepted) == seen + after + c.sender.unsent;
    assert seen <= Frames(c.accepted);
    ParsePrefix(c.accepted, seen);
    OneMoreRead(c.receiver, limit, Seen(c), chunk);
    FramesParse(seen);
    assert Seen(d) == seen;
  }

  lemma {:induction false} RunInv(links: seq<Link>, run: seq<Action>, k: nat)
    requires IsRun(links, run) && k <= |run|
    ensures Inv(links[k])
  {
    if k == 0 {
      var s: nat, r: nat :| links[0] == Opened(s, r);
      OpenedInv(s, r);
    } else {
      RunInv(links, run, k - 1);
      match run[k - 1] {
        case Send(user) => SendKeepsInv(links[k - 1], user);
        case Written(n) => WrittenKeepsInv(links[k - 1], n);
        case Blocked => BlockedKeepsInv(links[k - 1]);
        case Arrives(n, limit) => ArrivesKeepsInv(links[k - 1], n, limit);
      }
    }
  }

  /** End to end, at every moment of every run: the receiver never finds the
      stream corrupt; what it delivered is a prefix of what the sender accepted;
      no byte is lost or duplicated; and once nothing waits anywhere, everything
      accepted has been delivered, in order. */
  lemma EndToEnd(links: seq<Link>, run: seq<Action>, k: nat)
    requires IsRun(links, run) && k <= |run|
    ensures var c := links[k];
      && !c.broken
      && c.delivered <= c.accepted
      && Frames(c.accepted) == Frames(c.delivered) + c.receiver.pending + c.transit + c.sender.unsent
      && (c.receiver.pending == [] && c.transit == [] && c.sender.unsent == [] ==> c.delivered == c.accepted)
  {
    var c := links[k];
    RunInv(links, run, k);
    ParsePrefix(c.accepted, Seen(c));
    if c.receiver.pending == [] && c.transit == [] && c.sender.unsent == [] {
      assert Frames(c.accepted) == Seen(c);
      ParseFrames(c.accepted);
    }
  }
}
