/** What the sender's numbers are worth over whole runs: where the in offset stands,
    how much a write was given, and when waiting bytes are not with the operating
    system. */
module Writes {
  import opened Packet
  import opened Flow
  import opened Channel
  import opened Stalls
  import Delivery

  // ----- one action -----

  function AcceptedBytes(c: Link): nat {
    |Frames(c.accepted)|
  }

  /** The in offset after an action: back to 0 once nothing waits, else moved by what
      was accepted. */
  lemma OffsetStep(c: Link, a: Action)
    requires Inv(c) && Enabled(c, a) && (c.sender.unsent == [] ==> c.sender.inOffset == 0)
    ensures var (s, d) := (c.sender, Apply(c, a));
      && c.accepted <= d.accepted
      && (d.sender.unsent == [] ==> d.sender.inOffset == 0)
      && (d.sender.unsent != [] ==>
            d.sender.inOffset - s.inOffset == AcceptedBytes(d) - AcceptedBytes(c))
  {
    hide Frame, Inv, AfterRead;
    if a.Send? {
      AfterSendCases(c.sender, a.user);
      FramesAppend(c.accepted, [a.user]);
      FramesOne(a.user);
    }
  }

  /** How much is with the operating system after an action: a send that finds no
      write under way and no flag set starts one with all that waits. */
  lemma InFlightStep(c: Link, a: Action)
    requires Inv(c) && Enabled(c, a) && MarkedWaits(c.sender)
    ensures var (s, t) := (c.sender, Apply(c, a).sender);
      && (a.Written? || a.Blocked? ==> t.inFlight == 0)
      && (a.Arrives? ==> t == s)
      && (a.Send? && s.inFlight > 0 ==> t.inFlight == s.inFlight)
      && (a.Send? && s.inFlight == 0 ==>
            t.inFlight == if Sends(a) && t.unsent != [] && !s.sending then |t.unsent| else 0)
      && (a.Send? ==> |t.unsent| >= |s.unsent|)
      && (a.Send? ==> (|t.unsent| > |s.unsent| <==> Apply(c, a).accepted != c.accepted))
  {
    hide Frame, Inv, AfterRead;
    InvValid(c);
    if a.Send? { AfterSendCases(c.sender, a.user); }
  }

  lemma InvValid(c: Link)
    requires Inv(c)
    ensures SenderValid(c.sender)
  {
  }

  lemma RunStarts(links: seq<Link>, run: seq<Action>)
    requires IsRun(links, run)
    ensures |links| == |run| + 1
    ensures var s := links[0].sender;
      s.inOffset == 0 && s.unsent == [] && s.inFlight == 0
  {
  }

  // ----- the in offset -----

  lemma OffsetNext(links: seq<Link>, run: seq<Action>, k: nat)
    requires IsRun(links, run) && k < |run|
    requires links[k].sender.unsent == [] ==> links[k].sender.inOffset == 0
    ensures var (c, d) := (links[k], links[k + 1]);
      && (d.sender.unsent == [] ==> d.sender.inOffset == 0)
      && (d.sender.unsent != [] ==>
            d.sender.inOffset - c.sender.inOffset == AcceptedBytes(d) - AcceptedBytes(c))
  {
    RunInv(links, run, k);
    assert Enabled(links[k], run[k]) && links[k + 1] == Apply(links[k], run[k]);
    OffsetStep(links[k], run[k]);
  }

  /** The last moment up to k at which nothing waits. */
  function LastIdle(links: seq<Link>, k: nat): (z: nat)
    requires k < |links| && links[0].sender.unsent == []
    ensures z <= k && links[z].sender.unsent == []
    ensures forall j | z < j <= k :: links[j].sender.unsent != []
  {
    if links[k].sender.unsent == [] then k else LastIdle(links, k - 1)
  }

  /** At every moment of every run the in offset is the number of bytes accepted since
      nothing last waited; it is 0 when nothing waits. */
  lemma {:induction false} OffsetIs(links: seq<Link>, run: seq<Action>, k: nat)
    requires IsRun(links, run) && k <= |run|
    ensures links[0].sender.unsent == []
    ensures links[k].sender.inOffset == AcceptedBytes(links[k]) - AcceptedBytes(links[LastIdle(links, k)])
    ensures links[k].sender.unsent == [] ==> links[k].sender.inOffset == 0
  {
    RunStarts(links, run);
    hide IsRun, AcceptedBytes;
    if k == 0 {
    } else {
      OffsetIs(links, run, k - 1);
      OffsetNext(links, run, k - 1);
    }
  }

  // ----- what a write was given -----

  lemma InFlightNext(links: seq<Link>, run: seq<Action>, k: nat)
    requires IsRun(links, run) && k < |run|
    ensures var (s, t, a) := (links[k].sender, links[k + 1].sender, run[k]);
      && (t.inFlight > 0 && s.inFlight > 0 ==> t.inFlight == s.inFlight && !a.Written? && !a.Blocked?)
      && (t.inFlight > 0 && s.inFlight == 0 ==> t.inFlight == |t.unsent| && Sends(a))
  {
    RunInv(links, run, k);
    RunMarkedWaits(links, run, k);
    assert Enabled(links[k], run[k]) && links[k + 1] == Apply(links[k], run[k]);
    InFlightStep(links[k], run[k]);
    hide Inv, Apply, Enabled;
  }

  /** Position i is a `send` that starts a write. */
  predicate Starts(links: seq<Link>, run: seq<Action>, i: nat)
    requires i < |run| < |links|
  {
    Sends(run[i]) && links[i].sender.inFlight == 0 < links[i + 1].sender.inFlight
  }

  ghost predicate NoEnd(run: seq<Action>, from: nat, to: nat)
    requires to <= |run|
  {
    forall j | from <= j < to :: !run[j].Written? && !run[j].Blocked?
  }

  /** A write that is under way was started by a send, was given all that waited
      then, and nothing has ended a write since. */
  lemma {:induction false} GivenAll(links: seq<Link>, run: seq<Action>, k: nat) returns (i: nat)
    requires IsRun(links, run) && k <= |run| && links[k].sender.inFlight > 0
    ensures i < k && Starts(links, run, i) && NoEnd(run, i + 1, k)
    ensures links[k].sender.inFlight == |links[i + 1].sender.unsent|
  {
    RunStarts(links, run);
    hide IsRun;
    InFlightNext(links, run, k - 1);
    if links[k - 1].sender.inFlight > 0 {
      i := GivenAll(links, run, k - 1);
    } else {
      i := k - 1;
    }
  }

  // ----- bytes that are not with the operating system -----

  /** Position i is a `send` whose packet is accepted while a write is under way. */
  predicate Joins(links: seq<Link>, run: seq<Action>, i: nat)
    requires i < |run| < |links|
  {
    run[i].Send? && links[i].sender.inFlight > 0 && links[i + 1].accepted != links[i].accepted
  }

  ghost predicate JoinedSince(links: seq<Link>, run: seq<Action>, i: nat, k: nat)
    requires k <= |run| < |links|
  {
    i < k && Joins(links, run, i) && NoEnd(run, i + 1, k)
  }

  ghost predicate Joined(links: seq<Link>, run: seq<Action>, k: nat)
    requires k <= |run| < |links|
  {
    exists i: nat :: JoinedSince(links, run, i, k)
  }

  lemma JoinedStep(links: seq<Link>, run: seq<Action>, k: nat)
    requires k < |run| < |links|
    ensures Joined(links, run, k + 1) <==>
      Joins(links, run, k) || (Joined(links, run, k) && !run[k].Written? && !run[k].Blocked?)
  {
    hide Joins;
    var next := k + 1;
    if Joins(links, run, k) {
      assert JoinedSince(links, run, k, next);
    } else if i: nat :| JoinedSince(links, run, i, next) {
      assert JoinedSince(links, run, i, k);
    }
    if i: nat :| JoinedSince(links, run, i, k) && !run[k].Written? && !run[k].Blocked? {
      assert JoinedSince(links, run, i, next);
    }
  }

  /** Less is with the operating system than waits, though a write is under way,
      exactly when a packet was accepted since that write began. */
  lemma {:induction false} JoinedIff(links: seq<Link>, run: seq<Action>, k: nat)
    requires IsRun(links, run) && k <= |run|
    ensures Joined(links, run, k) <==> 0 < links[k].sender.inFlight < |links[k].sender.unsent|
  {
    if k == 0 {
      assert !Joined(links, run, 0);
    } else {
      JoinedIff(links, run, k - 1);
      RunInv(links, run, k - 1);
      RunMarkedWaits(links, run, k - 1);
      var c, a := links[k - 1], run[k - 1];
      assert Enabled(c, a) && links[k] == Apply(c, a);
      InvValid(c);
      hide Inv, Enabled, Apply, MarkedWaits, Joined, IsRun;
      InFlightStep(c, a);
      JoinedStep(links, run, k - 1);
    }
  }

  /** Some waiting bytes are not with the operating system exactly when a stall keeps
      them, or a packet was accepted after the send that began the write under way. */
  lemma StrandedIff(links: seq<Link>, run: seq<Action>, k: nat)
    requires IsRun(links, run) && k <= |run|
    ensures Delivery.Stranded(links[k].sender) <==> Left(links, run, k) || Joined(links, run, k)
  {
    JoinedIff(links, run, k);
    StalledIff(links, run, k);
    hide Joined, Left, IsRun;
  }

  // ----- the receiving side -----

  /** A receiver reads until a read brings nothing, and no longer. */
  lemma {:induction false} ReadsUntilEmpty(links: seq<Link>, run: seq<Action>, k: nat)
    requires IsRun(links, run) && k <= |run|
    ensures links[k].receiver.reading <==> forall i | 0 <= i < k && run[i].Arrives? :: run[i].n > 0
  {
    if k == 0 {
    } else {
      ReadsUntilEmpty(links, run, k - 1);
      RunInv(links, run, k);
      var c, a := links[k - 1], run[k - 1];
      assert Enabled(c, a) && links[k] == Apply(c, a);
      RunInv(links, run, k - 1);
      if a.Arrives? { AfterReadCases(c.receiver, a.limit, c.transit[..a.n]); }
    }
  }
}
