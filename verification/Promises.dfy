/** What `send` answering true is worth, over whole runs of a connection. */
module Promises {
  import opened Packet
  import opened Flow
  import opened Channel

  /** Action i is a `send` that answers true. */
  predicate AnswersTrue(links: seq<Link>, run: seq<Action>, i: nat)
    requires i < |run| && i < |links|
  {
    run[i].Send? && Enabled(links[i], run[i]) && AfterSend(links[i].sender, run[i].user).1
  }

  /** The packet of the `send` at i fits in the free part of the send buffer. */
  predicate HasRoom(links: seq<Link>, run: seq<Action>, i: nat)
    requires i < |run| && i < |links| && run[i].Send?
  {
    OVERHEAD + |run[i].user| <= links[i].sender.length - links[i].sender.inOffset
  }

  /** The data of the sends among the first k actions that answered true. */
  function Promised(links: seq<Link>, run: seq<Action>, k: nat): seq<seq<Byte>>
    requires k <= |run| <= |links|
  {
    if k == 0 then []
    else if AnswersTrue(links, run, k - 1) then Promised(links, run, k - 1) + [run[k - 1].user]
    else Promised(links, run, k - 1)
  }

  /** Every send among the first k actions that answered true had room. */
  ghost predicate AllHadRoom(links: seq<Link>, run: seq<Action>, k: nat)
    requires k <= |run| <= |links|
  {
    forall i | 0 <= i < k && AnswersTrue(links, run, i) :: HasRoom(links, run, i)
  }

  lemma SendAnswer(links: seq<Link>, run: seq<Action>, i: nat)
    requires IsRun(links, run) && i < |run|
    ensures AnswersTrue(links, run, i) <==> run[i].Send? && Sendable(run[i].user)
    ensures links[i + 1].accepted ==
      if AnswersTrue(links, run, i) && HasRoom(links, run, i) then links[i].accepted + [run[i].user]
      else links[i].accepted
  {
    assert Enabled(links[i], run[i]) && links[i + 1] == Apply(links[i], run[i]);
  }

  /** The stream never carries more than was promised, and exactly that much when
      nothing was dropped. */
  lemma {:induction false} AcceptedIsPromised(links: seq<Link>, run: seq<Action>, k: nat)
    requires IsRun(links, run) && k <= |run|
    ensures |links[k].accepted| <= |Promised(links, run, k)|
    ensures AllHadRoom(links, run, k) ==> links[k].accepted == Promised(links, run, k)
    ensures !AllHadRoom(links, run, k) ==> |links[k].accepted| < |Promised(links, run, k)|
  {
    if k == 0 {
    } else {
      AcceptedIsPromised(links, run, k - 1);
      SendAnswer(links, run, k - 1);
    }
  }

  /** What entered the stream is everything `send` answered true for exactly when
      each of those sends had room in the buffer; once nothing waits anywhere, the
      same condition decides whether it has all been delivered. */
  lemma PromisesKeptIff(links: seq<Link>, run: seq<Action>, k: nat)
    requires IsRun(links, run) && k <= |run|
    ensures links[k].accepted == Promised(links, run, k) <==> AllHadRoom(links, run, k)
    ensures links[k].receiver.pending == [] && links[k].transit == [] && links[k].sender.unsent == [] ==>
      (links[k].delivered == Promised(links, run, k) <==> AllHadRoom(links, run, k))
  {
    AcceptedIsPromised(links, run, k);
    EndToEnd(links, run, k);
  }

  /** Two sends of the longest message into a buffer for one packet: both answer
      true, one is dropped. */
  lemma TrueAndDropped() returns (links: seq<Link>, run: seq<Action>)
    ensures IsRun(links, run) && |run| == 2
    ensures AnswersTrue(links, run, 0) && AnswersTrue(links, run, 1)
    ensures links[2].accepted == [run[0].user] != Promised(links, run, 2)
  {
    hide Frame;
    var user := seq(MAX_USER, _ => 0);
    var c0 := Opened(MAX_PACKET, MAX_PACKET);
    run := [Send(user), Send(user)];
    var c1 := Apply(c0, run[0]);
    assert c1.accepted == [user] && c1.sender.inOffset == MAX_PACKET;
    var c2 := Apply(c1, run[1]);
    links := [c0, c1, c2];
    AcceptedIsPromised(links, run, 2);
    assert AnswersTrue(links, run, 1) && !HasRoom(links, run, 1);
  }
}
