/** The packet format: a four-byte big-endian length, a four-byte mark, then the
    user data; and the meaning of a byte stream as the packets it carries. */
module Packet {
  type Byte = x: int | 0 <= x < 256

  const MAX_PACKET: nat := 8192     // HS_NET_PACKET_MAX_SIZE
  const OVERHEAD: nat := 8          // length field and mark
  const MAX_USER: nat := 8184
  const MARK: nat := 0xEDCBA98      // HS_NET_PACKET_IDENTIFY_NUMBER

  // ----- 32-bit big-endian integers -----

  function ToNet(n: nat): (r: seq<Byte>)
    requires n < 0x1_0000_0000
    ensures |r| == 4 && FromNet(r) == n
  {
    var high := n / 0x100;
    var top := high / 0x100;
    [top / 0x100, top % 0x100, high % 0x100, n % 0x100]
  }

  function FromNet(b: seq<Byte>): nat
    requires |b| == 4
  {
    var b0: int, b1: int, b2: int, b3: int := b[0], b[1], b[2], b[3];
    ((b0 * 0x100 + b1) * 0x100 + b2) * 0x100 + b3
  }

  lemma NetRoundTrip(b: seq<Byte>)
    requires |b| == 4
    ensures FromNet(b) < 0x1_0000_0000 && ToNet(FromNet(b)) == b
  {
    var b0: int, b1: int, b2: int, b3: int := b[0], b[1], b[2], b[3];
    var top := b0 * 0x100 + b1;
    var high := top * 0x100 + b2;
    var n := high * 0x100 + b3;
    assert n == FromNet(b);
    assert n / 0x100 == high && high / 0x100 == top && top / 0x100 == b0;
    assert ToNet(n) == [b0, b1, b2, b3];
  }

  // ----- one packet -----

  datatype Decoded = Incomplete | Corrupt | Packet(offset: nat, size: nat)

  /** HSPacketWorker::DecodePacket: 0 is Incomplete, -1 is Corrupt, 1 is Packet. */
  function Decode(data: seq<Byte>): (r: Decoded)
    ensures r.Packet? ==> r.offset == OVERHEAD && r.size <= MAX_USER && r.offset + r.size <= |data|
  {
    if |data| < OVERHEAD then Incomplete
    else if FromNet(data[..4]) > MAX_USER then Corrupt
    else if FromNet(data[4..8]) != MARK then Corrupt
    else if |data| < FromNet(data[..4]) + OVERHEAD then Incomplete
    else Packet(OVERHEAD, FromNet(data[..4]))
  }

  datatype Encoded = TooLong | NoRoom | Bytes(data: seq<Byte>)

  /** HSPacketWorker::EncodePacket: -1 is TooLong, 0 is NoRoom, 1 is Bytes. */
  function Encode(user: seq<Byte>, room: nat): Encoded {
    if |user| + OVERHEAD > MAX_PACKET then TooLong
    else if |user| + OVERHEAD > room then NoRoom
    else Bytes(Frame(user))
  }

  predicate Sendable(user: seq<Byte>) {
    |user| <= MAX_USER
  }

  ghost predicate AllSendable(msgs: seq<seq<Byte>>) {
    forall i | 0 <= i < |msgs| :: Sendable(msgs[i])
  }

  /** The bytes of one packet; the length is cut to 32 bits, as the cast in the source does. */
  function Frame(user: seq<Byte>): (r: seq<Byte>)
    ensures |r| == OVERHEAD + |user|
    ensures Sendable(user) ==> r[..4] == ToNet(|user|)
    ensures r[4..8] == ToNet(MARK) && r[8..] == user
  {
    var length := |user| % 0x1_0000_0000;
    assert Sendable(user) ==> length == |user|;
    var (head, mark) := (ToNet(length), ToNet(MARK));
    assert (head + mark + user)[..4] == head;
    assert (head + mark + user)[4..8] == mark;
    head + mark + user
  }

  /** A frame followed by anything decodes to exactly the user data. */
  lemma DecodeFrame(user: seq<Byte>, more: seq<Byte>)
    requires Sendable(user)
    ensures var data := Frame(user) + more;
      && Decode(data) == Packet(OVERHEAD, |user|)
      && data[OVERHEAD..OVERHEAD + |user|] == user
      && data[OVERHEAD + |user|..] == more
  {
    var data := Frame(user) + more;
    assert data[..4] == Frame(user)[..4];
    assert data[4..8] == Frame(user)[4..8];
  }

  /** What decodes to a packet is the frame of that packet followed by the rest. */
  lemma FrameDecode(data: seq<Byte>)
    requires Decode(data).Packet?
    ensures var end := OVERHEAD + Decode(data).size;
      data == Frame(data[OVERHEAD..end]) + data[end..]
  {
    var end := OVERHEAD + Decode(data).size;
    NetRoundTrip(data[..4]);
    NetRoundTrip(data[4..8]);
    var frame := Frame(data[8..end]);
    assert frame == frame[..4] + frame[4..8] + frame[8..];
    assert data == data[..4] + data[4..8] + data[8..end] + data[end..];
  }

  /** A verdict other than Incomplete does not change when more bytes arrive. */
  lemma VerdictStable(data: seq<Byte>, more: seq<Byte>)
    requires !Decode(data).Incomplete?
    ensures Decode(data + more) == Decode(data)
  {
    assert (data + more)[..4] == data[..4];
    assert (data + more)[4..8] == data[4..8];
  }

  // ----- a stream of packets -----

  /** The packets at the front of a stream, the bytes after them, and whether
      those bytes can still become a packet. */
  datatype Stream = Stream(msgs: seq<seq<Byte>>, rest: seq<Byte>, ok: bool)

  function Parse(data: seq<Byte>): (r: Stream)
    ensures r.ok ==> Decode(r.rest) == Incomplete && |r.rest| < MAX_PACKET
    decreases |data|
  {
    match Decode(data)
    case Incomplete => Stream([], data, true)
    case Corrupt => Stream([], data, false)
    case Packet(offset, size) =>
      Cons(data[offset..offset + size], Parse(data[offset + size..]))
  }

  function Frames(msgs: seq<seq<Byte>>): seq<Byte> {
    if msgs == [] then [] else Frame(msgs[0]) + Frames(msgs[1..])
  }

  lemma FramesCons(m: seq<Byte>, msgs: seq<seq<Byte>>)
    ensures Frames([m] + msgs) == Frame(m) + Frames(msgs)
  {
    assert ([m] + msgs)[1..] == msgs;
  }

  lemma FramesOne(m: seq<Byte>)
    ensures Frames([m]) == Frame(m)
  {
    assert [m][1..] == [];
    assert Frame(m) + [] == Frame(m);
  }

  lemma SlicesOfTail(x: seq<Byte>, i: nat, n: nat)
    requires i + n <= |x|
    ensures x[i..][..n] == x[i..i + n] && x[i..][n..] == x[i + n..]
  {
  }

  lemma Associates(x: seq<Byte>, y: seq<Byte>, z: seq<Byte>)
    ensures x + (y + z) == x + y + z
  {
  }

  lemma {:induction false} FramesAppend(a: seq<seq<Byte>>, b: seq<seq<Byte>>)
    ensures Frames(a + b) == Frames(a) + Frames(b)
  {
    if a == [] {
      assert a + b == b;
    } else {
      FramesAppend(a[1..], b);
      assert a + b == [a[0]] + (a[1..] + b);
      FramesCons(a[0], a[1..] + b);
      FramesCons(a[0], a[1..]);
      assert a == [a[0]] + a[1..];
      Associates(Frame(a[0]), Frames(a[1..]), Frames(b));
    }
  }

  lemma ParsePacket(data: seq<Byte>, m: seq<Byte>, more: seq<Byte>)
    requires Decode(data).Packet?
    requires m == data[OVERHEAD..OVERHEAD + Decode(data).size]
    requires more == data[OVERHEAD + Decode(data).size..]
    ensures Parse(data) == Cons(m, Parse(more))
  {
  }

  /** Sending then parsing gives back the messages and leaves nothing over. */
  lemma {:induction false} ParseFrames(msgs: seq<seq<Byte>>)
    requires AllSendable(msgs)
    ensures Parse(Frames(msgs)) == Stream(msgs, [], true)
  {
    if msgs == [] {
    } else {
      DecodeFrame(msgs[0], Frames(msgs[1..]));
      ParseFrames(msgs[1..]);
    }
  }

  /** Parsing loses nothing: the stream is the frames of its messages, then the rest. */
  lemma {:induction false} FramesParse(data: seq<Byte>)
    ensures Frames(Parse(data).msgs) + Parse(data).rest == data
    decreases |data|
  {
    if !Decode(data).Packet? {
    } else {
      hide Frame, Frames, Parse;
      var end := OVERHEAD + Decode(data).size;
      var m, more := data[OVERHEAD..end], data[end..];
      var p := Parse(more);
      FrameDecode(data);
      ParsePacket(data, m, more);
      FramesParse(more);
      FramesCons(m, p.msgs);
      Associates(Frame(m), Frames(p.msgs), p.rest);
    }
  }

  /** w is what p leads to when the bytes b follow it and q is the parse of
      p's unfinished rest with b. */
  ghost predicate Joined(p: Stream, b: seq<Byte>, q: Stream, w: Stream) {
    if p.ok then w == Stream(p.msgs + q.msgs, q.rest, q.ok)
    else w == Stream(p.msgs, p.rest + b, false)
  }

  /** The two ways of parsing `a + b` agree: at once, or a first and then its
      unfinished rest followed by b. */
  ghost predicate Splices(a: seq<Byte>, b: seq<Byte>) {
    Joined(Parse(a), b, Parse(Parse(a).rest + b), Parse(a + b))
  }

  function Cons(m: seq<Byte>, s: Stream): Stream {
    Stream([m] + s.msgs, s.rest, s.ok)
  }

  lemma JoinedCons(m: seq<Byte>, p: Stream, b: seq<Byte>, q: Stream, w: Stream)
    requires Joined(p, b, q, w)
    ensures Joined(Cons(m, p), b, q, Cons(m, w))
  {
    assert [m] + p.msgs + q.msgs == [m] + (p.msgs + q.msgs);
  }

  lemma SpliceIncomplete(a: seq<Byte>, b: seq<Byte>)
    requires Decode(a).Incomplete?
    ensures Splices(a, b)
  {
    var w := Parse(a + b);
    assert Parse(a) == Stream([], a, true);
    assert [] + w.msgs == w.msgs;
  }

  lemma SpliceCorrupt(a: seq<Byte>, b: seq<Byte>)
    requires Decode(a).Corrupt?
    ensures Splices(a, b)
  {
    VerdictStable(a, b);
    assert Parse(a) == Stream([], a, false);
  }

  lemma ParseStops(data: seq<Byte>)
    ensures Decode([]).Incomplete?
    ensures Decode(data).Incomplete? ==> Parse(data) == Stream([], data, true)
    ensures Decode(data).Corrupt? ==> Parse(data) == Stream([], data, false)
  {
  }

  /** The beginning of a packet is kept as it is. */
  lemma CutFrame(user: seq<Byte>, n: nat)
    requires Sendable(user) && n < OVERHEAD + |user|
    ensures Parse(Frame(user)[..n]) == Stream([], Frame(user)[..n], true)
  {
    var data := Frame(user)[..n];
    if n >= OVERHEAD {
      assert data[..4] == Frame(user)[..4];
      assert data[4..8] == Frame(user)[4..8];
    }
    ParseStops(data);
  }

  function Prepend(msgs: seq<seq<Byte>>, s: Stream): Stream {
    Stream(msgs + s.msgs, s.rest, s.ok)
  }

  lemma PrependCons(msgs: seq<seq<Byte>>, m: seq<Byte>, s: Stream)
    ensures Prepend(msgs, Cons(m, s)) == Prepend(msgs + [m], s)
  {
    assert msgs + ([m] + s.msgs) == msgs + [m] + s.msgs;
  }

  lemma SplicePacket(a: seq<Byte>, more: seq<Byte>, b: seq<Byte>)
    requires Decode(a).Packet? && more == a[OVERHEAD + Decode(a).size..] && Splices(more, b)
    ensures Splices(a, b)
  {
    var end := OVERHEAD + Decode(a).size;
    var m := a[OVERHEAD..end];
    VerdictStable(a, b);
    assert (a + b)[end..] == more + b;
    assert (a + b)[OVERHEAD..end] == m;
    ParsePacket(a, m, more);
    ParsePacket(a + b, m, more + b);
    JoinedCons(m, Parse(more), b, Parse(Parse(more).rest + b), Parse(more + b));
  }

  /** Parsing a stream in two pieces, carrying the unfinished rest over, finds
      the packets of the whole stream; a corrupt stream stays corrupt. */
  lemma {:induction false} ParseAppend(a: seq<Byte>, b: seq<Byte>)
    ensures Splices(a, b)
    decreases |a|
  {
    if Decode(a).Packet? {
      var more := a[OVERHEAD + Decode(a).size..];
      ParseAppend(more, b);
      SplicePacket(a, more, b);
    } else if Decode(a).Corrupt? {
      SpliceCorrupt(a, b);
    } else {
      SpliceIncomplete(a, b);
    }
  }

  /** Any prefix of a stream of frames is well formed and carries a prefix of the messages. */
  lemma ParsePrefix(msgs: seq<seq<Byte>>, seen: seq<Byte>)
    requires AllSendable(msgs) && seen <= Frames(msgs)
    ensures Parse(seen).ok && Parse(seen).msgs <= msgs
  {
    ParseFrames(msgs);
    ParseAppend(seen, Frames(msgs)[|seen|..]);
    assert seen + Frames(msgs)[|seen|..] == Frames(msgs);
  }
}
