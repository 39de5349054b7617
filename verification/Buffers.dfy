/** The two linear buffers of a connection. Data enters at `inOffset`; a second
    offset says how far it has been used, or sent. */
module Buffers {
  import opened Packet

  class RecvBuffer {
    const buffer: array<Byte>
    var inOffset: nat
    var usedOffset: nat        // in_used_offset_
    var usedOutReset: bool

    ghost predicate Valid()
      reads this
    {
      usedOffset <= inOffset <= buffer.Length
    }

    /** The bytes received and not used yet. */
    ghost function Unused(): seq<Byte>
      reads this, buffer
      requires Valid()
    {
      buffer[usedOffset..inOffset]
    }

    /** GetLeftInSize: how many bytes can still be received. */
    function Room(): nat
      reads this
      requires Valid()
    {
      buffer.Length - inOffset
    }

    constructor (length: nat)
      ensures Valid() && fresh(buffer) && buffer.Length == length
      ensures inOffset == 0 && usedOffset == 0 && usedOutReset && Unused() == []
    {
      buffer := new Byte[length](_ => 0);
      inOffset, usedOffset, usedOutReset := 0, 0, true;
    }

    /** Clear(false): forget the contents, keep the memory. */
    method Clear()
      modifies this
      ensures Valid() && inOffset == 0 && usedOffset == 0 && usedOutReset && Unused() == []
    {
      inOffset, usedOffset, usedOutReset := 0, 0, true;
    }

    /** The operating system stores received bytes at the in offset. */
    method Store(data: seq<Byte>)
      requires Valid() && |data| <= Room()
      modifies buffer
      ensures buffer[inOffset..inOffset + |data|] == data
      ensures forall i | 0 <= i < buffer.Length && !(inOffset <= i < inOffset + |data|) ::
        buffer[i] == old(buffer[i])
      ensures Valid() && Unused() == old(Unused())
    {
      forall i | 0 <= i < |data| {
        buffer[inOffset + i] := data[i];
      }
    }

    /** Announces n bytes stored at the in offset. */
    method DataIn(n: nat) returns (ok: bool)
      requires Valid()
      modifies this`inOffset
      ensures ok <==> n <= old(Room())
      ensures inOffset == old(inOffset) + if ok then n else 0
      ensures Valid()
      ensures Unused() == old(Unused()) + if ok then buffer[old(inOffset)..inOffset] else []
    {
      if inOffset + n > buffer.Length {
        return false;
      }
      inOffset := inOffset + n;
      return true;
    }

    predicate CanUse(n: nat)
      reads this
      requires Valid()
    {
      n <= inOffset - usedOffset
    }

    /** Uses n bytes. When nothing is left unused and the reset flag is set, both
        offsets go back to the beginning. */
    method DataUse(n: nat, check: bool := false) returns (ok: bool)
      requires Valid()
      modifies this`inOffset, this`usedOffset
      ensures ok <==> !check || old(CanUse(n))
      ensures !ok ==> inOffset == old(inOffset) && usedOffset == old(usedOffset)
      ensures old(CanUse(n)) ==> Valid() && Unused() == old(Unused()[n..])
      ensures old(CanUse(n)) ==>
        if usedOutReset && n == |old(Unused())| then inOffset == 0 && usedOffset == 0
        else inOffset == old(inOffset) && usedOffset == old(usedOffset) + n
    {
      if check && !CanUse(n) {
        return false;
      }
      usedOffset := usedOffset + n;
      if usedOffset == inOffset && usedOutReset {
        inOffset, usedOffset := 0, 0;
      }
      return true;
    }

    /** Moves the unused bytes to the beginning, in place. */
    method MoveUnusedToBegin()
      requires Valid()
      modifies this`inOffset, this`usedOffset, buffer
      ensures Valid() && Unused() == old(Unused())
      ensures old(Unused()) != [] ==> usedOffset == 0 && inOffset == |old(Unused())|
      ensures old(Unused()) == [] ==> usedOffset == old(usedOffset) && inOffset == old(inOffset)
    {
      if usedOffset < inOffset {
        forall i | 0 <= i < inOffset - usedOffset {
          buffer[i] := buffer[usedOffset + i];
        }
        usedOffset, inOffset := 0, inOffset - usedOffset;
        assert Unused() == old(Unused());
      }
    }
  }

  class SendBuffer {
    const buffer: array<Byte>
    var inOffset: nat
    var sentOffset: nat
    var sentOutReset: bool

    ghost predicate Valid()
      reads this
    {
      sentOffset <= inOffset <= buffer.Length
    }

    /** The bytes accepted and not sent yet. */
    ghost function Unsent(): seq<Byte>
      reads this, buffer
      requires Valid()
    {
      buffer[sentOffset..inOffset]
    }

    function Room(): nat
      reads this
      requires Valid()
    {
      buffer.Length - inOffset
    }

    constructor (length: nat)
      ensures Valid() && fresh(buffer) && buffer.Length == length
      ensures inOffset == 0 && sentOffset == 0 && sentOutReset && Unsent() == []
    {
      buffer := new Byte[length](_ => 0);
      inOffset, sentOffset, sentOutReset := 0, 0, true;
    }

    method Clear()
      modifies this
      ensures Valid() && inOffset == 0 && sentOffset == 0 && sentOutReset && Unsent() == []
    {
      inOffset, sentOffset, sentOutReset := 0, 0, true;
    }

    /** EncodePacket into the free part of the buffer; the in offset stays. */
    method EncodeAtEnd(user: seq<Byte>) returns (res: int, encodeSize: nat)
      requires Valid()
      modifies buffer
      ensures Valid() && Unsent() == old(Unsent())
      ensures match Encode(user, Room())
        case TooLong => res == -1 && buffer[..] == old(buffer[..])
        case NoRoom => res == 0 && buffer[..] == old(buffer[..])
        case Bytes(data) =>
          && res == 1 && encodeSize == |data| <= Room()
          && buffer[inOffset..inOffset + encodeSize] == data
    {
      encodeSize := 0;
      if |user| + OVERHEAD > MAX_PACKET {
        return -1, 0;
      }
      if |user| + OVERHEAD > Room() {
        return 0, 0;
      }
      var data := Frame(user);
      forall i | 0 <= i < |data| {
        buffer[inOffset + i] := data[i];
      }
      res, encodeSize := 1, |data|;
      assert buffer[inOffset..inOffset + encodeSize] == data;
    }

    method DataIn(n: nat) returns (ok: bool)
      requires Valid()
      modifies this`inOffset
      ensures ok <==> n <= old(Room())
      ensures inOffset == old(inOffset) + if ok then n else 0
      ensures Valid()
      ensures Unsent() == old(Unsent()) + if ok then buffer[old(inOffset)..inOffset] else []
    {
      if inOffset + n > buffer.Length {
        return false;
      }
      inOffset := inOffset + n;
      return true;
    }

    predicate CanSend(n: nat)
      reads this
      requires Valid()
    {
      n <= inOffset - sentOffset
    }

    /** n more bytes left through the socket. */
    method Sent(n: nat, check: bool := false) returns (ok: bool)
      requires Valid()
      modifies this`inOffset, this`sentOffset
      ensures ok <==> !check || old(CanSend(n))
      ensures !ok ==> inOffset == old(inOffset) && sentOffset == old(sentOffset)
      ensures old(CanSend(n)) ==> Valid() && Unsent() == old(Unsent()[n..])
      ensures old(CanSend(n)) ==>
        if sentOutReset && n == |old(Unsent())| then inOffset == 0 && sentOffset == 0
        else inOffset == old(inOffset) && sentOffset == old(sentOffset) + n
    {
      if check && !CanSend(n) {
        return false;
      }
      sentOffset := sentOffset + n;
      if sentOutReset && sentOffset == inOffset {
        inOffset, sentOffset := 0, 0;
      }
      return true;
    }
  }
}
