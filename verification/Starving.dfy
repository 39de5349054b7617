/** A run that ends with everything written and a receiver that reads, which will
    never get the last packet: the static was fixed by a longer buffer. */
module Starving {
  import opened Packet
  import opened Flow
  import opened Channel
  import Delivery

  const CLIENT := 8192 * 4        // CLIENT_SESSION_DATA_BUFFER_DEFAULT_SIZE
  const SERVER := 8192 * 4 * 16   // SERVER_SESSION_DATA_BUFFER_DEFAULT_SIZE
  const SERVER_LIMIT := 516096

  /** What the static becomes when a session with the longer buffer fixes it. */
  lemma ServerLimit()
    ensures Fixed(None, SERVER) == SERVER_LIMIT
  {
  }

  /** The sender waits for nothing and has room for n more bytes. */
  predicate Idle(c: Link, n: nat) {
    c.sender.unsent == [] && !c.sender.sending && n <= c.sender.length && c.sender.inOffset == 0
  }

  lemma Extended(links: seq<Link>, run: seq<Action>, a: Action) returns (ls: seq<Link>, rs: seq<Action>)
    requires IsRun(links, run) && Enabled(links[|run|], a)
    ensures IsRun(ls, rs) && |ls| == |rs| + 1
    ensures ls[0] == links[0] && ls[|rs|] == Apply(links[|run|], a)
  {
    hide Apply, Enabled;
    ls, rs := links + [Apply(links[|run|], a)], run + [a];
    forall i | 0 <= i < |rs|
      ensures Enabled(ls[i], rs[i]) && ls[i + 1] == Apply(ls[i], rs[i])
    {
      if i < |run| { assert ls[i] == links[i] && ls[i + 1] == links[i + 1] && rs[i] == run[i]; }
    }
  }

  /** One message is sent, and its write ends. */
  lemma SendAndWrite(c: Link, user: seq<Byte>)
    requires Idle(c, MAX_PACKET) && Sendable(user)
    ensures Enabled(c, Send(user))
    ensures var d := Apply(c, Send(user));
      var a := Written(OVERHEAD + |user|);
      && Enabled(d, a)
      && Apply(d, a).receiver == c.receiver && Apply(d, a).delivered == c.delivered
      && Apply(d, a).accepted == c.accepted + [user] && Apply(d, a).transit == c.transit + Frame(user)
      && Idle(Apply(d, a), MAX_PACKET)
  {
    hide Frame;
  }

  /** The messages are sent one after the other and all written. */
  lemma {:induction false} SendAll(c: Link, links: seq<Link>, run: seq<Action>, msgs: seq<seq<Byte>>)
    returns (ls: seq<Link>, rs: seq<Action>)
    requires IsRun(links, run) && links[|run|] == c && Idle(c, MAX_PACKET) && AllSendable(msgs)
    ensures IsRun(ls, rs) && |ls| == |rs| + 1 && ls[0] == links[0] && Idle(ls[|rs|], MAX_PACKET)
    ensures ls[|rs|].receiver == c.receiver && ls[|rs|].delivered == c.delivered
    ensures ls[|rs|].accepted == c.accepted + msgs && ls[|rs|].transit == c.transit + Frames(msgs)
    decreases |msgs|
  {
    assert |links| == |run| + 1;
    hide Frame, IsRun, Apply, Enabled, Idle;
    if msgs == [] {
      ls, rs := links, run;
    } else {
      SendAndWrite(c, msgs[0]);
      ls, rs := Extended(links, run, Send(msgs[0]));
      ls, rs := Extended(ls, rs, Written(OVERHEAD + |msgs[0]|));
      ls, rs := SendAll(ls[|rs|], ls, rs, msgs[1..]);
      Associates(c.transit, Frame(msgs[0]), Frames(msgs[1..]));
    }
  }

  /** Four packets of 32766 bytes together, then one of nine bytes. */
  function Messages(): (r: seq<seq<Byte>>)
    ensures |r| == 5
  {
    var long := seq(MAX_USER, _ => 0);
    [long, long, long, seq(MAX_USER - 2, _ => 0), [0]]
  }

  lemma MessagesParse()
    ensures AllSendable(Messages()) && |Frames(Messages()[..4])| == CLIENT - 2
    ensures Frames(Messages()) == Frames(Messages()[..4]) + Frame([0])
    ensures Parse(Frames(Messages()[..4]) + Frame([0])[..1]) == Stream(Messages()[..4], Frame([0])[..1], true)
  {
    hide Frame, Parse;
    var ms := Messages();
    assert ms == ms[..4] + [[0]];
    FramesAppend(ms[..4], [[0]]);
    FramesOne([0]);
    assert ms[..4][1..] == [ms[1], ms[2], ms[3]] && [ms[1], ms[2], ms[3]][1..] == [ms[2], ms[3]];
    assert [ms[2], ms[3]][1..] == [ms[3]];
    FramesOne(ms[3]);
    ParseFrames(ms[..4]);
    CutFrame([0], 1);
    ParseAppend(Frames(ms[..4]), Frame([0])[..1]);
    assert [] + Frame([0])[..1] == Frame([0])[..1];
  }

  /** One read takes the four packets and the beginning of the last one. */
  lemma LastRead(d: Link)
    requires d.receiver == Fresh(CLIENT) && d.delivered == [] && d.transit == Frames(Messages())
    ensures var a := Arrives(CLIENT - 1, Some(SERVER_LIMIT));
      && Enabled(d, a) && Apply(d, a).sender == d.sender && Apply(d, a).accepted == d.accepted
      && Apply(d, a).delivered == Messages()[..4]
      && Apply(d, a).receiver == Receiver(CLIENT, CLIENT - 1, Frame([0])[..1], true)
  {
    hide Frame, Parse, Frames, Messages, AfterRead;
    MessagesParse();
    var front := Frames(Messages()[..4]) + Frame([0])[..1];
    assert d.transit == front + Frame([0])[1..] && d.transit[..CLIENT - 1] == front;
    assert [] + front == front;
    AfterReadCases(d.receiver, Some(SERVER_LIMIT), front);
  }

  /** All that was accepted is written and all but the nine-byte packet is delivered;
      the receiver reads and has room, but never gets it. */
  lemma WrittenNeverDelivered() returns (links: seq<Link>, run: seq<Action>)
    ensures IsRun(links, run) && links[0] == Opened(MAX_PACKET, CLIENT)
    ensures var c := links[|run|];
      && c.sender.unsent == [] && c.receiver.reading && Room(c.receiver) == 1
      && c.accepted == c.delivered + [[0]]
      && !Delivery.CanFinish(Delivery.Moment(c, Some(SERVER_LIMIT)))
  {
    var c := Opened(MAX_PACKET, CLIENT);
    assert Messages() == Messages()[..4] + [[0]];
    MessagesParse();
    hide Frame, Parse, Frames, Messages;
    links, run := SendAll(c, [c], [], Messages());
    LastRead(links[|run|]);
    links, run := Extended(links, run, Arrives(CLIENT - 1, Some(SERVER_LIMIT)));
    hide Apply, IsRun;
    Delivery.OversizedIff(links, run, |run|, SERVER_LIMIT);
  }
}
