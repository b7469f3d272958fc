/**
 * Send buffers carved from 6000-byte chunks, and MakeSendBuffer, which frames a message into one.
 */
module SendBuffers {
  import opened Wire
  import opened Framing
  import RoomEventMsg

  const CHUNK_SIZE := 6000
  const UINT16_LIMIT := 0x1_0000

  /** A 16-bit field of the header, little-endian. */
  function EncodeUInt16(v: nat): (s: Bytes)
    requires v < UINT16_LIMIT
    ensures |s| == 2
  {
    [(v % 256) as Byte, (v / 256) as Byte]
  }

  /** A packet: its own length, its id, its payload. */
  function Packet(id: nat, payload: Bytes): Bytes
    requires id < UINT16_LIMIT && |payload| + HEADER_SIZE < UINT16_LIMIT
  {
    EncodeUInt16(|payload| + HEADER_SIZE) + EncodeUInt16(id) + payload
  }

  function PacketId(f: Bytes): nat
    requires |f| >= HEADER_SIZE
  {
    f[2] as int + 256 * f[3] as int
  }

  /** What the receiver needs of a packet: its frame, its id and its payload are all recovered. */
  lemma PacketIsFramed(id: nat, payload: Bytes)
    requires id < UINT16_LIMIT && |payload| + HEADER_SIZE < UINT16_LIMIT
    ensures WellFramed(Packet(id, payload))
    ensures PacketId(Packet(id, payload)) == id && Packet(id, payload)[HEADER_SIZE..] == payload
  {
  }

  /** The first four bytes are the packet's length and its id, each with its low byte first. */
  lemma HeaderBytes(id: nat, payload: Bytes)
    requires id < 0x1_0000 && |payload| + 4 < 0x1_0000
    ensures var n := |payload| + 4;
            Packet(id, payload)
            == [(n % 256) as Byte, (n / 256) as Byte, (id % 256) as Byte, (id / 256) as Byte] + payload
  {
  }

  /** A chunk hands out its bytes from the front; one buffer at a time may be open. */
  class SendBufferChunk {
    const buffer: array<Byte>
    var open: bool
    var usedSize: nat

    constructor ()
      ensures Valid() && !open && usedSize == 0 && fresh(buffer)
    {
      buffer := new Byte[CHUNK_SIZE];
      open, usedSize := false, 0;
    }

    ghost predicate Valid()
      reads this
    {
      buffer.Length == CHUNK_SIZE && usedSize <= CHUNK_SIZE
    }

    function FreeSize(): (n: nat)
      requires Valid()
      reads this
      ensures usedSize + n == CHUNK_SIZE
    {
      buffer.Length - usedSize
    }

    /** Open: the caller has made sure that the block fits and that no other one is open. */
    method Open(allocSize: nat) returns (b: SendBuffer)
      requires Valid() && !open && allocSize <= FreeSize()
      modifies this`open
      ensures Valid() && open && fresh(b)
      ensures b.owner == this && b.start == usedSize && b.allocSize == allocSize && b.writeSize == 0
    {
      open := true;
      b := new SendBuffer(this, usedSize, allocSize);
    }

    method Close(size: nat)
      requires Valid() && open && size <= FreeSize()
      modifies this
      ensures Valid() && !open && usedSize == old(usedSize) + size
    {
      open := false;
      usedSize := usedSize + size;
    }
  }

  /** A block of a chunk. */
  class SendBuffer {
    const owner: SendBufferChunk
    const start: nat
    const allocSize: nat
    var writeSize: nat

    constructor (owner: SendBufferChunk, start: nat, allocSize: nat)
      ensures this.owner == owner && this.start == start && this.allocSize == allocSize && writeSize == 0
    {
      this.owner, this.start, this.allocSize, writeSize := owner, start, allocSize, 0;
    }

    /** Closed, and inside what its chunk has given away for good. */
    ghost predicate Closed()
      reads this, owner
    {
      owner.Valid() && start + writeSize <= owner.usedSize
    }

    /** The bytes a WSABUF made from this buffer points at. */
    function Contents(): Bytes
      requires Closed()
      reads this, owner, owner.buffer
    {
      owner.buffer[start..start + writeSize]
    }

    method Close(size: nat)
      requires owner.Valid() && owner.open && start == owner.usedSize
      requires size <= allocSize <= owner.FreeSize()
      modifies this, owner
      ensures Closed() && writeSize == size
      ensures !owner.open && owner.usedSize == old(owner.usedSize) + size
    {
      writeSize := size;
      owner.Close(size);
    }
  }

  /**
   * What MakeSendBuffer comes to: a buffer to send, a failed assertion that ends the process, or a
   * 16-bit packet size that wrapped below the header's own size.
   */
  datatype Made = Sent(buffer: SendBuffer) | Crashed | Wrapped

  /** The sizes at which a message is sent, stops the process, or wraps the packet size. */
  predicate Sendable(total: nat) {
    total <= CHUNK_SIZE - HEADER_SIZE
  }

  predicate Wraps(total: nat) {
    total % UINT16_LIMIT >= UINT16_LIMIT - HEADER_SIZE
  }

  /** The current chunk of a thread. */
  class SendBufferManager {
    var current: SendBufferChunk

    constructor ()
      ensures Valid() && fresh(current) && fresh(current.buffer)
    {
      current := new SendBufferChunk();
    }

    ghost predicate Valid()
      reads this, current
    {
      current.Valid() && !current.open
    }

    /** Open: on with the current chunk while the block fits, else with a chunk nobody refers to. */
    method Open(size: nat) returns (b: SendBuffer)
      requires Valid() && size <= CHUNK_SIZE
      modifies this, current
      ensures current.Valid() && current.open && fresh(b)
      ensures b.owner == current && b.start == current.usedSize && b.allocSize == size <= current.FreeSize()
      ensures b.writeSize == 0
      ensures if size <= CHUNK_SIZE - old(current.usedSize)
              then current == old(current) && current.usedSize == old(current.usedSize)
              else fresh(current) && fresh(current.buffer) && current.usedSize == 0
      ensures old(current).usedSize == old(current.usedSize)
    {
      if current.FreeSize() < size {
        current := new SendBufferChunk();
      }
      b := current.Open(size);
    }

    /** The header at the front of the block. */
    method WriteHeader(b: SendBuffer, size: nat, id: nat)
      requires b.owner.Valid() && b.start + HEADER_SIZE <= CHUNK_SIZE && size < UINT16_LIMIT && id < UINT16_LIMIT
      modifies b.owner.buffer
      ensures Written(old(b.owner.buffer[..]), b.owner.buffer[..], b.start, EncodeUInt16(size) + EncodeUInt16(id))
    {
      var end := WriteRaw(b.owner.buffer, b.start, EncodeUInt16(size));
      ghost var mid := b.owner.buffer[..];
      end := WriteRaw(b.owner.buffer, end, EncodeUInt16(id));
      WrittenThen(old(b.owner.buffer[..]), mid, b.owner.buffer[..], b.start, EncodeUInt16(size), EncodeUInt16(id));
    }

    /** Header, message, Close; false when the message is larger than the block's payload. */
    method Fill(b: SendBuffer, pkt: RoomEventMsg.Message, dataSize: nat, id: nat, ghost depth: nat) returns (ok: bool)
      requires current.Valid() && current.open && b.owner == current && b.start == current.usedSize
      requires b.allocSize == dataSize + HEADER_SIZE <= current.FreeSize()
      requires id < UINT16_LIMIT && dataSize <= |RoomEventMsg.Serialize(pkt.View())|
      requires RoomEventMsg.Retained(pkt.View(), depth) && RoomEventMsg.Fits(pkt.View())
      modifies b, current, current.buffer, pkt`cachedSize, pkt.room
      ensures pkt.View() == old(pkt.View())
      ensures ok <==> |RoomEventMsg.Serialize(pkt.View())| == dataSize
      ensures ok ==> b.Closed() && !current.open && b.Contents() == Packet(id, RoomEventMsg.Serialize(pkt.View()))
      ensures ok ==> current.usedSize >= old(current.usedSize)
      ensures current.buffer[..old(current.usedSize)] == old(current.buffer[..current.usedSize])
    {
      hide RoomEventMsg.Retained;
      hide RoomEventMsg.Fits;
      hide RoomEventMsg.Serialize;
      hide RoomEventMsg.Message.View;
      hide EncodeUInt16;
      hide Written;
      ghost var payload := RoomEventMsg.Serialize(pkt.View());
      ghost var before := current.buffer[..];
      ghost var header := EncodeUInt16(dataSize + HEADER_SIZE) + EncodeUInt16(id);
      WriteHeader(b, dataSize + HEADER_SIZE, id);
      ghost var mid := current.buffer[..];
      var byteSize := pkt.ByteSizeLong(depth);
      if dataSize < byteSize {
        BytesOfWritten(before, mid, b.start, header);
        return false;
      }
      var end := pkt.InternalSerialize(current.buffer, b.start + HEADER_SIZE, depth);
      WrittenThen(before, mid, current.buffer[..], b.start, header, payload);
      BytesOfWritten(before, current.buffer[..], b.start, header + payload);
      assert byteSize == dataSize ==> Packet(id, payload) == header + payload;
      hide Packet;
      b.Close(dataSize + HEADER_SIZE);
      return true;
    }

    /**
     * MakeSendBuffer for a room event.  A buffer comes out exactly when header and message fit a
     * chunk; it holds the framed message, and no byte of an earlier buffer has changed.
     */
    method MakeSendBuffer(pkt: RoomEventMsg.Message, id: nat, ghost depth: nat) returns (r: Made)
      requires Valid() && id < UINT16_LIMIT
      requires RoomEventMsg.Retained(pkt.View(), depth) && RoomEventMsg.Fits(pkt.View())
      modifies this, current, current.buffer, pkt`cachedSize, pkt.room
      ensures pkt.View() == old(pkt.View())
      ensures r.Sent? <==> Sendable(|RoomEventMsg.Serialize(pkt.View())|)
      ensures r.Wrapped? <==> Wraps(|RoomEventMsg.Serialize(pkt.View())|)
      ensures r.Sent? ==> Valid() && fresh(r.buffer) && r.buffer.owner == current && r.buffer.Closed()
      ensures r.Sent? ==> |RoomEventMsg.Serialize(pkt.View())| + HEADER_SIZE < UINT16_LIMIT
                          && r.buffer.Contents() == Packet(id, RoomEventMsg.Serialize(pkt.View()))
      ensures r.Sent? ==> current == old(current) || (fresh(current) && fresh(current.buffer))
      ensures r.Sent? ==> old(current).usedSize >= old(current.usedSize)
                          && old(current).buffer[..old(current.usedSize)] == old(current.buffer[..current.usedSize])
    {
      hide RoomEventMsg.Retained;
      hide RoomEventMsg.Fits;
      hide RoomEventMsg.Serialize;
      hide RoomEventMsg.Message.View;
      hide Packet;
      var total := pkt.ByteSizeLong(depth);
      var dataSize := total % UINT16_LIMIT;
      var packetSize := (dataSize + HEADER_SIZE) % UINT16_LIMIT;
      if packetSize > CHUNK_SIZE {
        return Crashed;  // the first assertion of SendBufferChunk::Open
      }
      var b := Open(packetSize);
      if packetSize < HEADER_SIZE {
        return Wrapped;
      }
      var ok := Fill(b, pkt, dataSize, id, depth);
      return if ok then Sent(b) else Crashed;  // ASSERT_CRASH on SerializeToArray
    }
  }

  lemma BytesOfWritten(before: Bytes, after: Bytes, target: nat, data: Bytes)
    requires Written(before, after, target, data)
    ensures after[target..target + |data|] == data && after[..target] == before[..target]
  {
  }
}
