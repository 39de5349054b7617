/** When accepted bytes wait although no write is with the operating system, over
    whole runs of a connection. write_result calls handle_write while the flag of
    the write just ended is still set, after a success and after the would-block
    error alike, so what that write leaves is not started. */
module Stalls {
  import opened Packet
  import opened Flow
  import opened Channel

  /** Bytes wait and nothing will send them unless `send` is called. */
  predicate Stalled(s: Sender) {
    s.unsent != [] && s.inFlight == 0
  }

  /** The flag of an outstanding write is set, but there is none. */
  predicate Wedged(s: Sender) {
    s.sending && s.inFlight == 0
  }

  /** Action i ends a write and leaves bytes behind; a blocked write leaves them all. */
  predicate Leaves(links: seq<Link>, run: seq<Action>, i: nat)
    requires i < |run| && i < |links|
  {
    run[i].Blocked? || (run[i].Written? && run[i].n < |links[i].sender.unsent|)
  }

  /** Action i is a completed write that took no byte. */
  predicate TakesNothing(run: seq<Action>, i: nat)
    requires i < |run|
  {
    run[i] == Written(0)
  }

  /** A call of `send` with data that fits in a packet. */
  predicate Sends(a: Action) {
    a.Send? && Sendable(a.user)
  }

  ghost predicate NoSend(run: seq<Action>, from: nat, to: nat)
    requires to <= |run|
  {
    forall j | from <= j < to :: !Sends(run[j])
  }

  /** The write at i left bytes behind that still wait before action k. */
  ghost predicate LeftSince(links: seq<Link>, run: seq<Action>, i: nat, k: nat)
    requires k <= |run| < |links|
  {
    i < k && Leaves(links, run, i) && (TakesNothing(run, i) || NoSend(run, i + 1, k))
  }

  ghost predicate Left(links: seq<Link>, run: seq<Action>, k: nat)
    requires k <= |run| < |links|
  {
    exists i: nat :: LeftSince(links, run, i, k)
  }

  ghost predicate TookNothing(run: seq<Action>, k: nat)
    requires k <= |run|
  {
    exists i: nat :: i < k && TakesNothing(run, i)
  }

  // ----- one action -----

  /** What every reachable sender keeps: a write is marked only while bytes wait. */
  predicate MarkedWaits(s: Sender) {
    s.sending ==> s.unsent != []
  }

  lemma FlushStep(s: Sender)
    requires SenderValid(s) && MarkedWaits(s)
    ensures MarkedWaits(Flush(s))
    ensures Wedged(Flush(s)) == Wedged(s)
    ensures Stalled(Flush(s)) == (Stalled(s) && Wedged(s))
  {
  }

  lemma SendStep(s: Sender, user: seq<Byte>)
    requires SenderValid(s) && MarkedWaits(s)
    ensures var t := AfterSend(s, user).0;
      && MarkedWaits(t)
      && Wedged(t) == Wedged(s)
      && Stalled(t) == (Stalled(s) && (Wedged(s) || !Sendable(user)))
  {
    match Encode(user, s.length - s.inOffset)
    case TooLong =>
    case NoRoom => FlushStep(s);
    case Bytes(data) => FlushStep(s.(inOffset := s.inOffset + |data|, unsent := s.unsent + data));
  }

  lemma WriteStep(s: Sender, n: nat)
    requires SenderValid(s) && MarkedWaits(s) && s.sending && n <= s.inFlight
    ensures var t := AfterWrite(s, n);
      && MarkedWaits(t)
      && Wedged(t) == (n == 0)
      && Stalled(t) == (n < |s.unsent|)
  {
  }

  lemma BlockedStep(s: Sender)
    requires SenderValid(s) && MarkedWaits(s) && s.sending && s.inFlight > 0
    ensures var t := AfterBlocked(s);
      && MarkedWaits(t) && !Wedged(s) && !Wedged(t) && !Stalled(s) && Stalled(t)
  {
  }

  lemma ActionStep(c: Link, a: Action)
    requires Inv(c) && Enabled(c, a) && MarkedWaits(c.sender)
    ensures var (s, t) := (c.sender, Apply(c, a).sender);
      && MarkedWaits(t)
      && Wedged(t) == (Wedged(s) || a == Written(0))
      && (a.Written? ==> Stalled(t) == (a.n < |s.unsent|))
      && (a.Blocked? ==> Stalled(t))
      && (a.Send? || a.Arrives? ==> Stalled(t) == (Stalled(s) && (Wedged(s) || !Sends(a))))
      && ((a.Written? || a.Blocked?) && Stalled(s) ==> Wedged(s) && a == Written(0))
  {
    match a
    case Send(user) => SendStep(c.sender, user);
    case Written(n) => WriteStep(c.sender, n);
    case Blocked => BlockedStep(c.sender);
    case Arrives(_, _) =>
  }

  // ----- one more position of the history -----

  lemma RunStep(links: seq<Link>, run: seq<Action>, k: nat)
    requires IsRun(links, run) && k < |run| && MarkedWaits(links[k].sender)
    ensures var (s, t, a) := (links[k].sender, links[k + 1].sender, run[k]);
      && MarkedWaits(t)
      && Wedged(t) == (Wedged(s) || a == Written(0))
      && (Leaves(links, run, k) ==> Stalled(t))
      && (!Leaves(links, run, k) ==> Stalled(t) == (Stalled(s) && (Wedged(s) || !Sends(a))))
  {
    RunInv(links, run, k);
    assert Enabled(links[k], run[k]) && links[k + 1] == Apply(links[k], run[k]);
    ActionStep(links[k], run[k]);
    hide Enabled, Apply, Inv, IsRun, MarkedWaits;
  }

  lemma TookNothingStep(run: seq<Action>, k: nat)
    requires k < |run|
    ensures TookNothing(run, k + 1) == (TookNothing(run, k) || TakesNothing(run, k))
  {
    var next := k + 1;
    if TakesNothing(run, k) {
      assert k < next;
    }
  }

  lemma LeftStep(links: seq<Link>, run: seq<Action>, k: nat)
    requires k < |run| < |links|
    ensures Left(links, run, k) && !Sends(run[k]) ==> Left(links, run, k + 1)
    ensures Leaves(links, run, k) ==> Left(links, run, k + 1)
    ensures Left(links, run, k + 1) ==>
      Leaves(links, run, k) || (Left(links, run, k) && (TookNothing(run, k) || !Sends(run[k])))
  {
    var next := k + 1;
    if i: nat :| LeftSince(links, run, i, k) && !Sends(run[k]) {
      assert LeftSince(links, run, i, next);
    }
    if Leaves(links, run, k) {
      assert LeftSince(links, run, k, next);
    }
    if i: nat :| LeftSince(links, run, i, next) && i != k {
      assert LeftSince(links, run, i, k);
    }
  }

  // ----- whole runs -----

  lemma {:induction false} RunMarkedWaits(links: seq<Link>, run: seq<Action>, k: nat)
    requires IsRun(links, run) && k <= |run|
    ensures MarkedWaits(links[k].sender)
  {
    if k == 0 {
    } else {
      RunMarkedWaits(links, run, k - 1);
      RunStep(links, run, k - 1);
    }
  }

  /** The flag is set without a write exactly when some write took no byte: such a
      write is the last one of the connection. */
  lemma {:induction false} WedgedIff(links: seq<Link>, run: seq<Action>, k: nat)
    requires IsRun(links, run) && k <= |run|
    ensures Wedged(links[k].sender) <==> TookNothing(run, k)
  {
    if k == 0 {
    } else {
      assert |links| == |run| + 1;
      hide IsRun, TookNothing, Wedged, Stalled, MarkedWaits;
      WedgedIff(links, run, k - 1);
      RunMarkedWaits(links, run, k - 1);
      RunStep(links, run, k - 1);
      TookNothingStep(run, k - 1);
    }
  }

  /** A write that took nothing left everything, and counts from then on. */
  lemma TookNothingLeft(links: seq<Link>, run: seq<Action>, m: nat, k: nat)
    requires IsRun(links, run) && m <= k <= |run| && TookNothing(run, m)
    ensures Left(links, run, k)
  {
    var i: nat :| i < m && TakesNothing(run, i);
    RunMarkedWaits(links, run, i);
    assert LeftSince(links, run, i, k);
  }

  /** Bytes wait with no write under way exactly when some write ended with bytes
      left behind, or was blocked, and either took no byte or has had no `send` of data that fits
      in a packet after it. */
  lemma {:induction false} StalledIff(links: seq<Link>, run: seq<Action>, k: nat)
    requires IsRun(links, run) && k <= |run|
    ensures Stalled(links[k].sender) <==> Left(links, run, k)
  {
    if k == 0 {
      assert !Left(links, run, 0);
    } else {
      assert |links| == |run| + 1;
      hide IsRun, Left, TookNothing, Wedged, Stalled, MarkedWaits;
      StalledIff(links, run, k - 1);
      WedgedIff(links, run, k - 1);
      RunMarkedWaits(links, run, k - 1);
      RunStep(links, run, k - 1);
      LeftStep(links, run, k - 1);
      if TookNothing(run, k - 1) { TookNothingLeft(links, run, k - 1, k); }
    }
  }

  /** A packet that fits goes behind the bytes that wait already. */
  lemma SendPuts(c: Link, user: seq<Byte>)
    requires Sendable(user) && OVERHEAD + |user| <= c.sender.length - c.sender.inOffset
    ensures Enabled(c, Send(user))
    ensures var s := c.sender;
      Apply(c, Send(user)).sender
      == Flush(s.(inOffset := s.inOffset + |Frame(user)|, unsent := s.unsent + Frame(user)))
  {
    hide Frame;
    AfterSendCases(c.sender, user);
  }

  /** A write that takes everything it was given still strands what was sent meanwhile. */
  lemma FullWriteStrands() returns (links: seq<Link>, run: seq<Action>)
    ensures IsRun(links, run) && |run| == 3
    ensures run[2] == Written(links[2].sender.inFlight) && links[2].sender.inFlight > 0
    ensures Stalled(links[3].sender)
  {
    hide Frame, AfterSend, AfterRead;
    var c0 := Opened(MAX_PACKET, MAX_PACKET);
    run := [Send([]), Send([]), Written(OVERHEAD)];
    SendPuts(c0, []);
    var c1 := Apply(c0, run[0]);
    SendPuts(c1, []);
    var c2 := Apply(c1, run[1]);
    links := [c0, c1, c2, Apply(c2, run[2])];
  }

  /** So does a write that the operating system refuses. */
  lemma BlockedStrands() returns (links: seq<Link>, run: seq<Action>)
    ensures IsRun(links, run) && run == [Send([]), Blocked]
    ensures Stalled(links[2].sender) && !links[2].sender.sending
  {
    hide Frame, AfterSend, AfterRead;
    var c0 := Opened(MAX_PACKET, MAX_PACKET);
    run := [Send([]), Blocked];
    SendPuts(c0, []);
    var c1 := Apply(c0, run[0]);
    links := [c0, c1, Apply(c1, run[1])];
  }
}
