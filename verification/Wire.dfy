/** Packets byte by byte, and what DecodePacket answers in terms of those bytes. */
module Wire {
  import opened Packet

  /** The eight bytes before the user data: its length and the mark 0x0EDCBA98, both
      with the most significant byte first. */
  lemma FrameBytes(user: seq<Byte>)
    requires |user| <= 8184
    ensures Frame(user) == [0, 0, |user| / 256, |user| % 256, 0x0E, 0xDC, 0xBA, 0x98] + user
  {
    var r := Frame(user);
    assert ToNet(|user|) == [0, 0, |user| / 256, |user| % 256];
    assert ToNet(MARK) == [0x0E, 0xDC, 0xBA, 0x98];
    assert r == r[..4] + r[4..8] + r[8..];
  }

  /** The data begins with the whole packet of `user`. */
  ghost predicate Begins(data: seq<Byte>, user: seq<Byte>) {
    |user| <= 8184 && Frame(user) <= data
  }

  /** The data is the beginning of the packet of `user`, but not all of it. */
  ghost predicate PartOf(data: seq<Byte>, user: seq<Byte>) {
    |user| <= 8184 && data < Frame(user)
  }

  lemma BeginsDecodes(data: seq<Byte>, user: seq<Byte>)
    requires Begins(data, user)
    ensures Decode(data) == Packet(8, |user|) && data[8..8 + |user|] == user
  {
    hide Decode, Frame;
    assert data == Frame(user) + data[|Frame(user)|..];
    DecodeFrame(user, data[|Frame(user)|..]);
  }

  lemma DecodedBegins(data: seq<Byte>)
    requires Decode(data).Packet?
    ensures Begins(data, data[8..8 + Decode(data).size])
  {
    hide Frame;
    FrameDecode(data);
  }

  lemma PartIsIncomplete(data: seq<Byte>, user: seq<Byte>)
    requires PartOf(data, user)
    ensures Decode(data).Incomplete?
  {
    hide Decode, Frame;
    CutFrame(user, |data|);
    assert data == Frame(user)[..|data|];
    PartParses(data);
  }

  lemma PartParses(data: seq<Byte>)
    ensures Parse(data) == Stream([], data, true) ==> Decode(data).Incomplete?
  {
  }

  /** Data that waits for more is completed by the right number of any bytes. */
  lemma Completed(data: seq<Byte>, more: seq<Byte>)
    requires Decode(data).Incomplete? && |data| >= 8 && |more| == FromNet(data[..4]) + 8 - |data|
    ensures Decode(data + more) == Packet(8, FromNet(data[..4])) && |more| > 0
  {
    assert (data + more)[..4] == data[..4] && (data + more)[4..8] == data[4..8];
  }

  lemma IncompleteIsPart(data: seq<Byte>) returns (user: seq<Byte>)
    requires Decode(data).Incomplete? && |data| >= 8
    ensures PartOf(data, user)
  {
    var size := FromNet(data[..4]);
    assert size <= 8184 && |data| < size + 8;
    var more: seq<Byte> := seq(size + 8 - |data|, _ => 0);
    Completed(data, more);
    hide Decode, Frame, FromNet;
    var all := data + more;
    FrameDecode(all);
    user := all[8..8 + size];
    assert all[8 + size..] == [];
    assert all == Frame(user);
  }

  /** 1 exactly when the data begins with a packet, whose user data it then points to;
      0 when it is shorter than a header or the beginning of a packet; -1 otherwise. */
  lemma DecodeIff(data: seq<Byte>)
    ensures Decode(data).Packet? <==> exists user: seq<Byte> :: Begins(data, user)
    ensures forall user: seq<Byte> | Begins(data, user) ::
      Decode(data) == Packet(8, |user|) && data[8..8 + |user|] == user
    ensures Decode(data).Incomplete? <==> |data| < 8 || exists user: seq<Byte> :: PartOf(data, user)
  {
    ShortIsIncomplete(data);
    hide Decode, Begins, PartOf;
    forall user: seq<Byte> | Begins(data, user)
      ensures Decode(data) == Packet(8, |user|) && 8 + |user| <= |data| && data[8..8 + |user|] == user
    {
      BeginsDecodes(data, user);
    }
    if Decode(data).Packet? {
      DecodedBegins(data);
    }
    if user: seq<Byte> :| PartOf(data, user) {
      PartIsIncomplete(data, user);
    }
    if Decode(data).Incomplete? && |data| >= 8 {
      var user := IncompleteIsPart(data);
    }
  }

  lemma ShortIsIncomplete(data: seq<Byte>)
    ensures |data| < 8 ==> Decode(data).Incomplete?
  {
  }

  /** EncodePacket refuses what no packet holds, leaves what has no room, and writes
      the packet otherwise. */
  lemma EncodeIff(user: seq<Byte>, room: nat)
    ensures Encode(user, room).TooLong? <==> |user| > 8184
    ensures Encode(user, room).NoRoom? <==> |user| <= 8184 && room < |user| + 8
    ensures |user| <= 8184 && |user| + 8 <= room ==> Encode(user, room) == Bytes(Frame(user))
  {
  }
}
