/** When a connection can still deliver everything it accepted without another
    `send`, whatever the process-wide static of handle_read has become. */
module Delivery {
  import opened Packet
  import opened Flow
  import opened Channel

  /** A connection, and what handle_read's function-local static holds. */
  datatype Moment = Moment(c: Link, limit: Option<nat>)

  /** The connection alone, without a send: writes end, bytes arrive, and an arrival
      finds the static as it is. */
  predicate Possible(w: Moment, a: Action) {
    !a.Send? && Enabled(w.c, a) && (a.Arrives? ==> a.limit == w.limit)
  }

  function Next(w: Moment, a: Action): Moment
    requires Possible(w, a)
  {
    Moment(Apply(w.c, a),
           if a.Arrives? then AfterRead(w.c.receiver, a.limit, w.c.transit[..a.n]).limit else w.limit)
  }

  /** `ws` continues from w through the actions `run`. */
  ghost predicate Continues(w: Moment, ws: seq<Moment>, run: seq<Action>) {
    && |ws| == |run| + 1
    && ws[0] == w
    && forall i | 0 <= i < |run| :: Possible(ws[i], run[i]) && ws[i + 1] == Next(ws[i], run[i])
  }

  /** Some continuation delivers everything accepted. */
  ghost predicate CanFinish(w: Moment) {
    exists ws: seq<Moment>, run: seq<Action> ::
      Continues(w, ws, run) && ws[|run|].c.delivered == ws[|run|].c.accepted
  }

  // ----- the condition -----

  /** Some waiting bytes are not with the operating system. */
  predicate Stranded(s: Sender) {
    s.inFlight < |s.unsent|
  }

  /** The limit at which handle_read moves the unfinished bytes of this receiver. */
  function MovesAt(w: Moment): nat {
    Fixed(w.limit, w.c.receiver.length)
  }

  /** The bytes still missing of the packet that is delivered next. */
  function Missing(c: Link): int
    requires |c.delivered| < |c.accepted|
  {
    OVERHEAD + |c.accepted[|c.delivered|]| - |c.receiver.pending|
  }

  /** The next packet finds room: with a limit within the buffer any room will do,
      because the unfinished bytes are moved once the buffer is full; with a larger
      one they never are. */
  predicate Fits(w: Moment)
    requires |w.c.delivered| < |w.c.accepted|
  {
    if MovesAt(w) <= w.c.receiver.length then Room(w.c.receiver) > 0
    else Missing(w.c) <= Room(w.c.receiver)
  }

  /** Every packet not delivered yet is no longer than the receive buffer. */
  ghost predicate NoneTooLong(c: Link) {
    forall i | |c.delivered| <= i < |c.accepted| :: OVERHEAD + |c.accepted[i]| <= c.receiver.length
  }

  ghost predicate Deliverable(w: Moment) {
    || w.c.delivered == w.c.accepted
    || (&& w.c.receiver.reading && !Stranded(w.c.sender) && NoneTooLong(w.c)
        && |w.c.delivered| < |w.c.accepted| && Fits(w))
  }

  // ----- one step -----

  /** What every reachable connection keeps; unfinished bytes lie in the buffer. */
  ghost predicate Held(c: Link) {
    Inv(c) && |c.receiver.pending| <= c.receiver.inOffset
  }

  lemma Cancel(x: seq<Byte>, y: seq<Byte>, z: seq<Byte>)
    requires x + y == x + z
    ensures y == z
  {
    assert y == (x + y)[|x|..];
    assert z == (x + z)[|x|..];
  }

  /** What is delivered is a prefix of what is accepted, and what follows it starts
      with the unfinished bytes. */
  lemma Split(c: Link)
    requires Inv(c)
    ensures c.delivered <= c.accepted
    ensures Frames(c.accepted[|c.delivered|..]) == c.receiver.pending + c.transit + c.sender.unsent
  {
    hide Parse, Frames;
    ParsePrefix(c.accepted, Seen(c));
    var rest := c.accepted[|c.delivered|..];
    assert c.accepted == c.delivered + rest;
    FramesAppend(c.delivered, rest);
    var back := c.receiver.pending + c.transit + c.sender.unsent;
    assert Frames(c.accepted) == Frames(c.delivered) + back;
    Cancel(Frames(c.delivered), Frames(rest), back);
  }

  lemma AllDeliveredIff(c: Link)
    requires Inv(c)
    ensures c.delivered == c.accepted <==> c.receiver.pending + c.transit + c.sender.unsent == []
  {
    hide Parse;
    Split(c);
    var rest := c.accepted[|c.delivered|..];
    assert c.accepted == c.delivered + rest;
  }

  lemma ReadKeeps(r: Receiver, limit: Option<nat>, chunk: seq<Byte>)
    requires |r.pending| <= r.inOffset
    ensures var o := AfterRead(r, limit, chunk);
      && o.r.length == r.length && |o.r.pending| <= o.r.inOffset
      && Fixed(o.limit, r.length) == Fixed(limit, r.length)
  {
    hide Frames, Decode;
    FramesParse(r.pending + chunk);
  }

  lemma StepHeld(w: Moment, a: Action)
    requires Held(w.c) && Possible(w, a)
    ensures var v := Next(w, a);
      && Held(v.c) && v.c.accepted == w.c.accepted && v.c.receiver.length == w.c.receiver.length
      && MovesAt(v) == MovesAt(w)
  {
    hide Parse, Frames, AfterRead, Fixed, Inv;
    match a
    case Written(n) => WrittenKeepsInv(w.c, n);
    case Blocked => BlockedKeepsInv(w.c);
    case Arrives(n, limit) =>
      ArrivesKeepsInv(w.c, n, limit);
      ReadKeeps(w.c.receiver, limit, w.c.transit[..n]);
  }

  lemma TwoPrefixes(x: seq<Byte>, y: seq<Byte>, all: seq<Byte>)
    requires x <= all && y <= all
    ensures |x| <= |y| ==> x <= y
  {
    if |x| <= |y| {
      assert x == all[..|x|] == y[..|x|];
    }
  }

  /** Bytes that begin with a whole packet are not waiting for more. */
  lemma WholeIsDecided(m: seq<Byte>, p: seq<Byte>)
    requires Sendable(m)
    ensures Frame(m) <= p ==> !Decode(p).Incomplete?
  {
    if Frame(m) <= p {
      DecodeFrame(m, p[|Frame(m)|..]);
      assert p == Frame(m) + p[|Frame(m)|..];
    }
  }

  /** The unfinished bytes are the beginning of the next packet. */
  lemma NextPacket(c: Link)
    requires Inv(c) && |c.delivered| < |c.accepted|
    ensures Missing(c) > 0 && Sendable(c.accepted[|c.delivered|])
    ensures Frame(c.accepted[|c.delivered|]) <= c.receiver.pending + c.transit + c.sender.unsent
  {
    Split(c);
    var m, more := c.accepted[|c.delivered|], c.accepted[|c.delivered|..][1..];
    var all := c.receiver.pending + c.transit + c.sender.unsent;
    assert all == Frame(m) + Frames(more);
    var p := c.receiver.pending;
    assert Parse(Seen(c)).rest == p && Decode(p) == Incomplete;
    hide Parse, Decode, Frame, Frames;
    WholeIsDecided(m, p);
    TwoPrefixes(Frame(m), p, all);
  }

  /** An arrival that does not complete the next packet. */
  lemma ArrivalShort(w: Moment, n: nat)
    requires Inv(w.c) && |w.c.delivered| < |w.c.accepted| && Possible(w, Arrives(n, w.limit))
    requires 0 < n < Missing(w.c)
    ensures var (r, v) := (w.c.receiver, Next(w, Arrives(n, w.limit)));
      && v.c.delivered == w.c.delivered
      && v.c.receiver == Receiver(r.length, if r.inOffset + n >= MovesAt(w) then |r.pending| + n else r.inOffset + n,
                                  r.pending + w.c.transit[..n], true)
  {
    NextPacket(w.c);
    hide Parse, Frame, AfterRead, Inv;
    var m, r := w.c.accepted[|w.c.delivered|], w.c.receiver;
    var x := r.pending + w.c.transit[..n];
    assert x == Frame(m)[..|x|];
    CutFrame(m, |x|);
    AfterReadCases(r, w.limit, w.c.transit[..n]);
  }

  /** An arrival that completes exactly the next packet. */
  lemma ArrivalExact(w: Moment, n: nat)
    requires Inv(w.c) && |w.c.delivered| < |w.c.accepted| && Possible(w, Arrives(n, w.limit))
    requires n == Missing(w.c)
    ensures var v := Next(w, Arrives(n, w.limit));
      && v.c.delivered == w.c.delivered + [w.c.accepted[|w.c.delivered|]]
      && v.c.receiver == Receiver(w.c.receiver.length, 0, [], true)
  {
    NextPacket(w.c);
    hide Parse, Frame, AfterRead, Inv;
    var m, r := w.c.accepted[|w.c.delivered|], w.c.receiver;
    assert r.pending + w.c.transit[..n] == Frame(m);
    FramesOne(m);
    ParseFrames([m]);
    AfterReadCases(r, w.limit, w.c.transit[..n]);
  }

  // ----- why the condition is enough -----

  lemma Prefixed(w: Moment, a: Action, ws: seq<Moment>, run: seq<Action>)
    requires Possible(w, a) && Continues(Next(w, a), ws, run)
    ensures Continues(w, [w] + ws, [a] + run)
    ensures ([w] + ws)[|[a] + run|] == ws[|run|]
  {
    var vs, rs := [w] + ws, [a] + run;
    forall i | 0 <= i < |rs|
      ensures Possible(vs[i], rs[i]) && vs[i + 1] == Next(vs[i], rs[i])
    {
      if i > 0 { assert rs[i] == run[i - 1] && vs[i] == ws[i - 1] && vs[i + 1] == ws[i]; }
    }
  }

  /** The next packet, or as much of it as there is room for, arrives. */
  lemma Arrival(w: Moment) returns (a: Action)
    requires Held(w.c) && w.c.sender.unsent == [] && w.c.delivered != w.c.accepted && Deliverable(w)
    ensures Possible(w, a)
    ensures var v := Next(w, a);
      Held(v.c) && v.c.sender.unsent == [] && Deliverable(v) && |v.c.transit| < |w.c.transit|
  {
    hide Parse, Frame, Frames, AfterRead, Inv, Fixed;
    var r, m := w.c.receiver, w.c.accepted[|w.c.delivered|];
    NextPacket(w.c);
    var n := if Missing(w.c) <= Room(r) then Missing(w.c) else Room(r);
    a := Arrives(n, w.limit);
    StepHeld(w, a);
    var v := Next(w, a);
    Split(v.c);
    if n == Missing(w.c) {
      ArrivalExact(w, n);
    } else {
      ArrivalShort(w, n);
    }
  }

  /** Packet by packet, everything in transit is delivered. */
  lemma {:induction false} Carries(w: Moment) returns (ws: seq<Moment>, run: seq<Action>)
    requires Held(w.c) && w.c.sender.unsent == [] && Deliverable(w)
    ensures Continues(w, ws, run) && ws[|run|].c.delivered == ws[|run|].c.accepted
    decreases |w.c.transit|
  {
    if w.c.delivered == w.c.accepted {
      ws, run := [w], [];
    } else {
      hide Held, Deliverable, Next, Possible, Continues;
      var a := Arrival(w);
      var vs, rs := Carries(Next(w, a));
      Prefixed(w, a, vs, rs);
      ws, run := [w] + vs, [a] + rs;
    }
  }

  /** The operating system takes all that waits. */
  lemma WritesAll(w: Moment)
    requires Held(w.c) && Deliverable(w) && w.c.sender.unsent != []
    ensures var a := Written(|w.c.sender.unsent|);
      Possible(w, a) && Held(Next(w, a).c) && Next(w, a).c.sender.unsent == [] && Deliverable(Next(w, a))
  {
    hide Parse, Frames, AfterRead, Fixed;
    AllDeliveredIff(w.c);
    StepHeld(w, Written(|w.c.sender.unsent|));
  }

  // ----- why it is needed -----

  lemma {:induction false} MemberFits(msgs: seq<seq<Byte>>, i: nat)
    requires i < |msgs|
    ensures OVERHEAD + |msgs[i]| <= |Frames(msgs)|
  {
    hide Frame;
    if i == 0 {
    } else {
      MemberFits(msgs[1..], i - 1);
    }
  }

  /** A read delivers no packet longer than the bytes it finds. */
  lemma ReadDelivers(r: Receiver, limit: Option<nat>, chunk: seq<Byte>)
    ensures var msgs := AfterRead(r, limit, chunk).msgs;
      forall i | 0 <= i < |msgs| :: OVERHEAD + |msgs[i]| <= |r.pending| + |chunk|
  {
    hide Parse, Frames, AfterRead;
    AfterReadCases(r, limit, chunk);
    var p := Parse(r.pending + chunk);
    FramesParse(r.pending + chunk);
    forall i | 0 <= i < |p.msgs|
      ensures OVERHEAD + |p.msgs[i]| <= |r.pending| + |chunk|
    {
      MemberFits(p.msgs, i);
    }
  }

  /** What is put behind a ends before the first element that is too long. */
  lemma EndsBefore(a: seq<seq<Byte>>, b: seq<seq<Byte>>, all: seq<seq<Byte>>, i: nat, length: nat)
    requires a + b <= all && |a| <= i < |all| && OVERHEAD + |all[i]| > length
    requires forall j | 0 <= j < |b| :: OVERHEAD + |b[j]| <= length
    ensures |a + b| <= i
  {
    forall j | |a| <= j < |a + b|
      ensures OVERHEAD + |all[j]| <= length
    {
      assert all[j] == (a + b)[j] == b[j - |a|];
    }
  }

  /** A packet longer than the buffer is never delivered. */
  lemma TooLongStays(w: Moment, a: Action, i: nat)
    requires Held(w.c) && Possible(w, a) && |w.c.delivered| <= i < |w.c.accepted|
    requires OVERHEAD + |w.c.accepted[i]| > w.c.receiver.length
    ensures |Next(w, a).c.delivered| <= i
  {
    hide AfterRead, Inv, Fixed, MovesAt;
    if a.Arrives? {
      var c, chunk := w.c, w.c.transit[..a.n];
      StepHeld(w, a);
      Split(Next(w, a).c);
      ReadDelivers(c.receiver, a.limit, chunk);
      EndsBefore(c.delivered, AfterRead(c.receiver, a.limit, chunk).msgs, c.accepted, i, c.receiver.length);
    }
  }

  /** Nothing arrives any more, some bytes are never written, or the next packet
      finds no room: each of them lasts. */
  lemma ShutStays(w: Moment, a: Action)
    requires Held(w.c) && Possible(w, a) && |w.c.delivered| < |w.c.accepted|
    requires !w.c.receiver.reading || Stranded(w.c.sender) || !Fits(w)
    ensures var v := Next(w, a);
      && |v.c.delivered| < |v.c.accepted|
      && (!v.c.receiver.reading || Stranded(v.c.sender) || !Fits(v))
  {
    hide Parse, Frame, Frames, Fixed;
    StepHeld(w, a);
    AllDeliveredIff(Next(w, a).c);
    Split(Next(w, a).c);
    if a.Arrives? && !Stranded(w.c.sender) {
      AfterReadCases(w.c.receiver, a.limit, w.c.transit[..a.n]);
      if a.n > 0 { ArrivalShort(w, a.n); }
    }
  }

  lemma HopelessStays(w: Moment, a: Action)
    requires Held(w.c) && Possible(w, a) && !Deliverable(w)
    ensures Held(Next(w, a).c) && !Deliverable(Next(w, a))
  {
    hide Inv, AfterRead, Apply, Frames, Fixed, Enabled;
    StepHeld(w, a);
    Split(w.c);
    var v := Next(w, a);
    if i :| |w.c.delivered| <= i < |w.c.accepted| && OVERHEAD + |w.c.accepted[i]| > w.c.receiver.length {
      TooLongStays(w, a, i);
      assert |v.c.delivered| <= i;
    } else {
      ShutStays(w, a);
    }
  }

  lemma {:induction false} NeverFinishes(w: Moment, ws: seq<Moment>, run: seq<Action>, k: nat)
    requires Held(w.c) && !Deliverable(w) && Continues(w, ws, run) && k <= |run|
    ensures Held(ws[k].c) && !Deliverable(ws[k])
  {
    if k == 0 {
    } else {
      NeverFinishes(w, ws, run, k - 1);
      HopelessStays(ws[k - 1], run[k - 1]);
    }
  }

  lemma AlreadyThere(w: Moment)
    requires w.c.delivered == w.c.accepted
    ensures Deliverable(w)
  {
  }

  /** Without another send, everything accepted can still be delivered exactly when
      it has been, or the receiver reads, no byte waits that is not with the
      operating system, no packet is longer than the buffer, and the next one fits. */
  lemma CanFinishIff(w: Moment)
    requires Held(w.c)
    ensures CanFinish(w) <==> Deliverable(w)
  {
    hide Held, Deliverable, Next, Possible;
    if !Deliverable(w) {
      if ws: seq<Moment>, run: seq<Action> :|
        Continues(w, ws, run) && ws[|run|].c.delivered == ws[|run|].c.accepted {
        NeverFinishes(w, ws, run, |run|);
        AlreadyThere(ws[|run|]);
      }
    } else if w.c.sender.unsent == [] {
      var ws, run := Carries(w);
    } else {
      var a := Written(|w.c.sender.unsent|);
      WritesAll(w);
      var vs, rs := Carries(Next(w, a));
      Prefixed(w, a, vs, rs);
    }
  }

  // ----- over whole runs -----

  lemma {:induction false} RunHeld(links: seq<Link>, run: seq<Action>, k: nat)
    requires IsRun(links, run) && k <= |run|
    ensures Held(links[k]) && links[k].receiver.length == links[0].receiver.length
  {
    hide Inv, AfterRead;
    RunInv(links, run, k);
    if k == 0 {
    } else {
      RunHeld(links, run, k - 1);
      var c, a := links[k - 1], run[k - 1];
      assert Enabled(c, a) && links[k] == Apply(c, a);
      if a.Arrives? { ReadKeeps(c.receiver, a.limit, c.transit[..a.n]); }
    }
  }

  /** At every moment of every run, for every value the static can have by then. */
  lemma DeliverableIff(links: seq<Link>, run: seq<Action>, k: nat, limit: Option<nat>)
    requires IsRun(links, run) && k <= |run|
    ensures CanFinish(Moment(links[k], limit)) <==> Deliverable(Moment(links[k], limit))
  {
    RunHeld(links, run, k);
    CanFinishIff(Moment(links[k], limit));
  }

  /** No other session pushes the limit of a read above the receiver's buffer. */
  ghost predicate LimitsSuit(run: seq<Action>, length: nat) {
    forall i | 0 <= i < |run| && run[i].Arrives? && run[i].limit.Some? :: run[i].limit.value <= length
  }

  lemma ParseRest(data: seq<Byte>)
    ensures Parse(data).ok ==> |Parse(data).rest| < MAX_PACKET
  {
  }

  /** At every moment of every run whose limits suit the receiver's buffer, it has room. */
  lemma {:induction false} KeepsRoom(links: seq<Link>, run: seq<Action>, k: nat)
    requires IsRun(links, run) && k <= |run|
    requires MAX_PACKET <= links[0].receiver.length < 0x1_0000_0000_0000_0000
    requires LimitsSuit(run, links[0].receiver.length)
    ensures links[k].receiver.length == links[0].receiver.length
    ensures links[k].receiver.inOffset < links[k].receiver.length
  {
    if k == 0 {
    } else {
      KeepsRoom(links, run, k - 1);
      var c, a := links[k - 1], run[k - 1];
      assert Enabled(c, a) && links[k] == Apply(c, a);
      if a.Arrives? { ParseRest(c.receiver.pending + c.transit[..a.n]); }
    }
  }

  lemma PacketsFit(c: Link)
    requires Inv(c) && MAX_PACKET <= c.receiver.length
    ensures NoneTooLong(c)
    ensures c.delivered == c.accepted ==> !Stranded(c.sender)
    ensures c.delivered != c.accepted ==> |c.delivered| < |c.accepted|
  {
    Split(c);
    AllDeliveredIff(c);
  }

  lemma Roomy(w: Moment)
    requires Held(w.c) && MAX_PACKET <= w.c.receiver.length
    requires w.c.receiver.reading && Room(w.c.receiver) > 0 && MovesAt(w) <= w.c.receiver.length
    ensures Deliverable(w) <==> !Stranded(w.c.sender)
    ensures w.c.sender.inFlight <= |w.c.sender.unsent|
  {
    PacketsFit(w.c);
  }

  /** With limits that suit a buffer for a packet, only bytes that no write has
      taken can keep a receiver that reads from getting everything. */
  lemma SuitedIff(links: seq<Link>, run: seq<Action>, k: nat, limit: Option<nat>)
    requires IsRun(links, run) && k <= |run| && links[k].receiver.reading
    requires MAX_PACKET <= links[0].receiver.length < 0x1_0000_0000_0000_0000
    requires LimitsSuit(run, links[0].receiver.length)
    requires limit.Some? ==> limit.value <= links[0].receiver.length
    ensures CanFinish(Moment(links[k], limit)) <==>
      links[k].sender.unsent == [] || links[k].sender.inFlight == |links[k].sender.unsent|
  {
    RunHeld(links, run, k);
    KeepsRoom(links, run, k);
    DeliverableIff(links, run, k, limit);
    MoveLimitIs(links[k].receiver.length);
    hide IsRun, LimitsSuit, CanFinish, MoveLimit;
    Roomy(Moment(links[k], limit));
  }

  /** With a limit that a longer buffer has fixed, the next packet must also fit
      where the unfinished bytes lie. */
  lemma OversizedIff(links: seq<Link>, run: seq<Action>, k: nat, limit: nat)
    requires IsRun(links, run) && k <= |run| && links[k].receiver.reading
    requires MAX_PACKET <= links[0].receiver.length < limit
    ensures var c := links[k];
      CanFinish(Moment(c, Some(limit))) <==>
      !Stranded(c.sender) && (|c.delivered| < |c.accepted| ==> Missing(c) <= Room(c.receiver))
  {
    RunHeld(links, run, k);
    PacketsFit(links[k]);
    Split(links[k]);
    DeliverableIff(links, run, k, Some(limit));
    hide IsRun, Held, Inv, CanFinish, NoneTooLong;
  }
}
