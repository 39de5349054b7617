/** Many receivers in one process, sharing handle_read's function-local static:
    exactly when none of them can end up reading into a full buffer. */
module Deafness {
  import opened Packet
  import opened Flow

  datatype World = World(rs: seq<Receiver>, limit: Option<nat>)

  datatype Event =
    | Stored(i: nat, chunk: seq<Byte>)   // a read of session i completed
    | Closed(i: nat)                     // session i was cleared
    | Started(i: nat)                    // session i starts to read (again)

  function Opened(lengths: seq<nat>): World {
    World(seq(|lengths|, i requires 0 <= i < |lengths| => Fresh(lengths[i])), None)
  }

  predicate Enabled(w: World, e: Event) {
    match e
    case Stored(i, chunk) => i < |w.rs| && w.rs[i].reading && |chunk| <= Room(w.rs[i])
    case Closed(i) => i < |w.rs|
    case Started(i) => i < |w.rs|
  }

  function Apply(w: World, e: Event): World
    requires Enabled(w, e)
  {
    match e
    case Stored(i, chunk) =>
      var o := AfterRead(w.rs[i], w.limit, chunk);
      World(w.rs[i := o.r], o.limit)
    case Closed(i) => w.(rs := w.rs[i := Receiver(w.rs[i].length, 0, [], false)])
    case Started(i) => w.(rs := w.rs[i := w.rs[i].(reading := true)])
  }

  ghost predicate IsRun(lengths: seq<nat>, worlds: seq<World>, run: seq<Event>) {
    && |worlds| == |run| + 1
    && worlds[0] == Opened(lengths)
    && forall k | 0 <= k < |run| :: Enabled(worlds[k], run[k]) && worlds[k + 1] == Apply(worlds[k], run[k])
  }

  /** Session i waits for bytes that have no room. */
  predicate Deaf(w: World, i: nat)
    requires i < |w.rs|
  {
    w.rs[i].reading && Room(w.rs[i]) <= 0
  }

  /** In no run does any session ever become deaf. */
  ghost predicate NeverDeaf(lengths: seq<nat>) {
    forall worlds: seq<World>, run: seq<Event>, i: nat | IsRun(lengths, worlds, run) && i < |worlds[|run|].rs| ::
      !Deaf(worlds[|run|], i)
  }

  /** Every buffer holds a packet, and no buffer is more than a packet longer than another. */
  ghost predicate Compatible(lengths: seq<nat>) {
    && (forall i | 0 <= i < |lengths| :: MAX_PACKET <= lengths[i])
    && (forall i, j | 0 <= i < |lengths| && 0 <= j < |lengths| :: lengths[j] <= lengths[i] + MAX_PACKET)
  }

  /** Lengths are sizes of the platform. */
  predicate Sizes(lengths: seq<nat>) {
    forall i | 0 <= i < |lengths| :: lengths[i] < 0x1_0000_0000_0000_0000
  }

  // ----- compatible lengths: never deaf -----

  ghost predicate Roomy(lengths: seq<nat>, w: World) {
    && |w.rs| == |lengths|
    && (forall i | 0 <= i < |lengths| ::
          && w.rs[i].length == lengths[i]
          && |w.rs[i].pending| < MAX_PACKET
          && w.rs[i].inOffset < lengths[i])
    && (w.limit.Some? ==> forall i | 0 <= i < |lengths| :: w.limit.value <= lengths[i])
  }

  lemma ReadKeepsRoom(r: Receiver, limit: Option<nat>, chunk: seq<Byte>)
    requires MAX_PACKET <= r.length < 0x1_0000_0000_0000_0000
    requires |r.pending| < MAX_PACKET && r.inOffset < r.length
    requires limit.Some? ==> limit.value <= r.length
    ensures var o := AfterRead(r, limit, chunk);
      && o.r.length == r.length && |o.r.pending| < MAX_PACKET && o.r.inOffset < r.length
      && (o.limit == limit || (limit == None && o.limit == Some(r.length - MAX_PACKET)))
  {
    hide MoveLimit, Decode;
    MoveLimitIs(r.length);
  }

  lemma ApplyKeepsRoomy(lengths: seq<nat>, w: World, e: Event)
    requires Compatible(lengths) && Sizes(lengths) && Roomy(lengths, w) && Enabled(w, e)
    ensures Roomy(lengths, Apply(w, e))
  {
    if e.Stored? {
      ReadKeepsRoom(w.rs[e.i], w.limit, e.chunk);
    }
  }

  lemma {:induction false} RunRoomy(lengths: seq<nat>, worlds: seq<World>, run: seq<Event>, k: nat)
    requires Compatible(lengths) && Sizes(lengths) && IsRun(lengths, worlds, run) && k <= |run|
    ensures Roomy(lengths, worlds[k])
  {
    if k == 0 {
    } else {
      RunRoomy(lengths, worlds, run, k - 1);
      ApplyKeepsRoomy(lengths, worlds[k - 1], run[k - 1]);
    }
  }

  // ----- what the static becomes -----

  /** Event i is a read that leaves an unfinished packet in its session's buffer. */
  predicate Leaves(worlds: seq<World>, run: seq<Event>, i: nat)
    requires i < |run| < |worlds|
  {
    run[i].Stored? && run[i].i < |worlds[i + 1].rs| && worlds[i + 1].rs[run[i].i].pending != [] && run[i].chunk != []
  }

  /** The first such read among the first k events. */
  function FirstToLeave(worlds: seq<World>, run: seq<Event>, k: nat): (i: Option<nat>)
    requires k <= |run| < |worlds|
    ensures i.Some? ==> i.value < k && Leaves(worlds, run, i.value)
    ensures i.Some? ==> forall j | 0 <= j < i.value :: !Leaves(worlds, run, j)
    ensures i == None ==> forall j | 0 <= j < k :: !Leaves(worlds, run, j)
  {
    if k == 0 then None
    else if FirstToLeave(worlds, run, k - 1).Some? then FirstToLeave(worlds, run, k - 1)
    else if Leaves(worlds, run, k - 1) then Some(k - 1)
    else None
  }

  lemma {:induction false} LengthsKept(lengths: seq<nat>, worlds: seq<World>, run: seq<Event>, k: nat)
    requires IsRun(lengths, worlds, run) && k <= |run|
    ensures |worlds[k].rs| == |lengths|
    ensures forall i | 0 <= i < |lengths| :: worlds[k].rs[i].length == lengths[i]
  {
    if k == 0 {
    } else {
      LengthsKept(lengths, worlds, run, k - 1);
      var w, e := worlds[k - 1], run[k - 1];
      assert Enabled(w, e) && worlds[k] == Apply(w, e);
      hide IsRun, AfterRead;
      if e.Stored? { AfterReadCases(w.rs[e.i], w.limit, e.chunk); }
    }
  }

  lemma LimitStep(lengths: seq<nat>, worlds: seq<World>, run: seq<Event>, k: nat)
    requires IsRun(lengths, worlds, run) && k < |run|
    ensures Leaves(worlds, run, k) ==> run[k].i < |lengths|
    ensures worlds[k + 1].limit ==
      if worlds[k].limit == None && Leaves(worlds, run, k) then Some(MoveLimit(lengths[run[k].i]))
      else worlds[k].limit
  {
    LengthsKept(lengths, worlds, run, k);
    var w, e := worlds[k], run[k];
    assert Enabled(w, e) && worlds[k + 1] == Apply(w, e);
    hide IsRun, AfterRead, Parse, MoveLimit;
    if e.Stored? {
      AfterReadCases(w.rs[e.i], w.limit, e.chunk);
    }
  }

  /** The static is unset until some read leaves an unfinished packet; the first such
      read fixes it for good, by the length of its session's buffer. */
  lemma {:induction false} LimitIs(lengths: seq<nat>, worlds: seq<World>, run: seq<Event>, k: nat)
    requires IsRun(lengths, worlds, run) && k <= |run|
    ensures match FirstToLeave(worlds, run, k)
      case None => worlds[k].limit == None
      case Some(i) => run[i].i < |lengths| && worlds[k].limit == Some(MoveLimit(lengths[run[i].i]))
  {
    if k == 0 {
    } else {
      assert |worlds| == |run| + 1;
      hide IsRun, Leaves, MoveLimit;
      LimitIs(lengths, worlds, run, k - 1);
      LimitStep(lengths, worlds, run, k - 1);
    }
  }

  // ----- incompatible lengths: a run that deafens a session -----

  /** n bytes: as many empty packets as fit before the beginning of one more packet. */
  function Filler(n: nat): (r: seq<Byte>)
    ensures |r| == n
  {
    if n <= OVERHEAD then Frame([0])[..n] else Frame([]) + Filler(n - OVERHEAD)
  }

  lemma {:induction false} FillerUnfinished(n: nat)
    requires n > 0
    ensures Parse(Filler(n)).ok && Parse(Filler(n)).rest != []
  {
    hide Parse, Frame;
    if n <= OVERHEAD {
      CutFrame([0], n);
    } else {
      var more := Filler(n - OVERHEAD);
      FillerUnfinished(n - OVERHEAD);
      DecodeFrame([], more);
      ParsePacket(Frame([]) + more, [], more);
    }
  }

  lemma Witness(lengths: seq<nat>, worlds: seq<World>, run: seq<Event>, i: nat)
    requires IsRun(lengths, worlds, run) && i < |worlds[|run|].rs| && Deaf(worlds[|run|], i)
    ensures !NeverDeaf(lengths)
  {
  }

  /** A buffer shorter than a packet fills with the beginning of one. */
  lemma ShortIsDeaf(lengths: seq<nat>, i: nat)
    requires i < |lengths| && lengths[i] < MAX_PACKET
    ensures !NeverDeaf(lengths)
  {
    var w := Opened(lengths);
    if lengths[i] == 0 {
      Witness(lengths, [w], [], i);
    } else {
      var user := seq(MAX_USER, _ => 0);
      var chunk := Frame(user)[..lengths[i]];
      CutFrame(user, lengths[i]);
      var e := Stored(i, chunk);
      assert w.rs[i].pending + chunk == chunk;
      Witness(lengths, [w, Apply(w, e)], [e], i);
    }
  }

  /** The first session to keep an unfinished byte fixes the static. */
  lemma ByteFixes(w: World, j: nat, length: nat)
    requires j < |w.rs| && w.rs[j] == Fresh(length) && w.limit == None && MAX_PACKET <= length
    requires length < 0x1_0000_0000_0000_0000
    ensures var e := Stored(j, Frame([0])[..1]);
      Enabled(w, e) && Apply(w, e).limit == Some(length - MAX_PACKET)
    ensures forall i | 0 <= i < |w.rs| && i != j :: Apply(w, Stored(j, Frame([0])[..1])).rs[i] == w.rs[i]
  {
    hide Parse, Frame, AfterRead, MoveLimit;
    CutFrame([0], 1);
    var chunk := Frame([0])[..1];
    assert [] + chunk == chunk && chunk != [];
    AfterReadCases(Fresh(length), None, chunk);
    MoveLimitIs(length);
  }

  /** Below the limit a full buffer stays full. */
  lemma FullStays(w: World, i: nat, length: nat)
    requires i < |w.rs| && w.rs[i] == Fresh(length) && 0 < length
    requires w.limit.Some? && length < w.limit.value
    ensures Enabled(w, Stored(i, Filler(length))) && Deaf(Apply(w, Stored(i, Filler(length))), i)
  {
    hide Parse, Frame, AfterRead, Filler;
    FillerUnfinished(length);
    assert w.rs[i].pending + Filler(length) == Filler(length);
    AfterReadCases(w.rs[i], w.limit, Filler(length));
  }

  /** A session whose buffer is a packet shorter than that of the first session to
      keep an unfinished packet never moves its own unfinished bytes. */
  lemma ShorterIsDeaf(lengths: seq<nat>, i: nat, j: nat)
    requires Sizes(lengths) && i < |lengths| && j < |lengths|
    requires MAX_PACKET <= lengths[i] && lengths[i] + MAX_PACKET < lengths[j]
    ensures !NeverDeaf(lengths)
  {
    hide Frame, Filler, NeverDeaf;
    var w := Opened(lengths);
    var first, second := Stored(j, Frame([0])[..1]), Stored(i, Filler(lengths[i]));
    ByteFixes(w, j, lengths[j]);
    var w1 := Apply(w, first);
    FullStays(w1, i, lengths[i]);
    hide Enabled, Apply, Deaf, Opened;
    var w2 := Apply(w1, second);
    Witness(lengths, [w, w1, w2], [first, second], i);
  }

  /** No session can become deaf exactly when the buffer lengths are compatible. */
  lemma NeverDeafIff(lengths: seq<nat>)
    requires Sizes(lengths)
    ensures NeverDeaf(lengths) <==> Compatible(lengths)
  {
    if Compatible(lengths) {
      forall worlds: seq<World>, run: seq<Event>, i: nat | IsRun(lengths, worlds, run) && i < |worlds[|run|].rs|
        ensures !Deaf(worlds[|run|], i)
      {
        RunRoomy(lengths, worlds, run, |run|);
      }
    } else if i :| 0 <= i < |lengths| && lengths[i] < MAX_PACKET {
      ShortIsDeaf(lengths, i);
    } else {
      var i, j :| 0 <= i < |lengths| && 0 <= j < |lengths| && lengths[i] + MAX_PACKET < lengths[j];
      ShorterIsDeaf(lengths, i, j);
    }
  }

  /** The lengths the acceptor and the connector use side by side are not compatible:
      CLIENT_SESSION_DATA_BUFFER_DEFAULT_SIZE and SERVER_SESSION_DATA_BUFFER_DEFAULT_SIZE. */
  lemma DefaultLengthsDeafen()
    ensures !NeverDeaf([8192 * 4, 8192 * 4 * 16])
  {
    var lengths := [8192 * 4, 8192 * 4 * 16];
    assert lengths[0] + MAX_PACKET < lengths[1];
    NeverDeafIff(lengths);
  }
}
