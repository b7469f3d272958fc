/** The receive side of a session: the cursor buffer, the reassembly loop and ProcessRecv. */
module Recv {
  import opened Wire
  import opened Framing

  const BUFFER_SIZE := 0x10000
  const BUFFER_COUNT := 10

  /** Bytes between the two cursors are received and not yet read. */
  class RecvBuffer {
    const capacity: nat
    const bufferSize: nat
    const buffer: array<Byte>
    var readPos: nat
    var writePos: nat

    constructor (size: nat)
      ensures Valid() && fresh(buffer) && Contents() == []
      ensures bufferSize == size && capacity == size * BUFFER_COUNT && FreeSize() == capacity
    {
      bufferSize := size;
      capacity := size * BUFFER_COUNT;
      buffer := new Byte[size * BUFFER_COUNT];
      readPos, writePos := 0, 0;
    }

    ghost predicate Valid()
      reads this
    {
      buffer.Length == capacity && readPos <= writePos <= capacity
    }

    ghost function Contents(): Bytes
      requires Valid()
      reads this, buffer
    {
      buffer[readPos..writePos]
    }

    function DataSize(): (n: int)
      requires Valid()
      reads this, buffer
      ensures n == |Contents()|
    {
      writePos - readPos
    }

    function FreeSize(): (n: nat)
      requires Valid()
      reads this
      ensures n + |buffer[..writePos]| == capacity
    {
      capacity - writePos
    }

    /** What the kernel does with a posted receive: it fills bytes from the write cursor on. */
    method Fill(data: Bytes)
      requires Valid() && |data| <= FreeSize()
      modifies buffer
      ensures Contents() == old(Contents())
      ensures buffer[writePos..writePos + |data|] == data
    {
      for i := 0 to |data|
        invariant buffer[..writePos] == old(buffer[..writePos])
        invariant buffer[writePos..writePos + i] == data[..i]
      {
        buffer[writePos + i] := data[i];
      }
    }

    method OnWrite(n: nat) returns (ok: bool)
      requires Valid()
      modifies this`writePos
      ensures Valid() && (ok <==> n <= old(FreeSize()))
      ensures writePos == if ok then old(writePos) + n else old(writePos)
    {
      if n > FreeSize() {
        return false;
      }
      writePos := writePos + n;
      return true;
    }

    method OnRead(n: nat) returns (ok: bool)
      requires Valid()
      modifies this`readPos
      ensures Valid() && (ok <==> n <= old(|Contents()|))
      ensures Contents() == if ok then old(Contents())[n..] else old(Contents())
    {
      if n > DataSize() {
        return false;
      }
      readPos := readPos + n;
      return true;
    }

    /**
     * Rewind when everything is read; otherwise move the unread bytes to the front once less
     * than one buffer size is free.  The unread bytes stay what they were.
     */
    method Clean()
      requires Valid()
      modifies this`readPos, this`writePos, buffer
      ensures Valid() && Contents() == old(Contents())
      ensures FreeSize() >= bufferSize || (readPos == 0 && FreeSize() == capacity - |Contents()|)
    {
      var size := DataSize();
      if size == 0 {
        readPos, writePos := 0, 0;
      } else if FreeSize() < bufferSize {
        ghost var was := buffer[..];
        for i := 0 to size
          invariant readPos == old(readPos) && writePos == old(writePos)
          invariant forall j :: 0 <= j < i ==> buffer[j] == was[readPos + j]
          invariant forall j :: i <= j < capacity ==> buffer[j] == was[j]
        {
          buffer[i] := buffer[readPos + i];
        }
        assert buffer[..size] == was[readPos..writePos];
        readPos := 0;
        writePos := size;
      }
    }
  }

  datatype RecvResult = Closed | Registered | Hangs

  /** The parts of a packet session that receiving touches; `delivered` logs the OnRecvPacket calls. */
  class PacketSession {
    const recvBuffer: RecvBuffer
    var connected: bool
    ghost var delivered: seq<Bytes>

    constructor ()
      ensures Valid() && fresh(recvBuffer) && fresh(recvBuffer.buffer)
      ensures !connected && State() == START
      ensures recvBuffer.FreeSize() == 655360 && recvBuffer.bufferSize == 65536
    {
      recvBuffer := new RecvBuffer(BUFFER_SIZE);
      connected := false;
      delivered := [];
    }

    ghost predicate Valid()
      reads this, recvBuffer
    {
      recvBuffer.Valid() && recvBuffer.bufferSize == BUFFER_SIZE && recvBuffer.capacity == BUFFER_SIZE * BUFFER_COUNT
    }

    ghost function State(): Receiver
      requires Valid()
      reads this, recvBuffer, recvBuffer.buffer
    {
      Receiver(delivered, recvBuffer.Contents())
    }

    /** The size field of the header at the given unread byte. */
    method ReadHeader(at: nat, ghost len: nat) returns (size: nat)
      requires Valid() && at + HEADER_SIZE <= len <= |recvBuffer.Contents()|
      ensures size == HeaderSize(recvBuffer.Contents()[..len][at..])
    {
      var base := recvBuffer.readPos + at;
      size := recvBuffer.buffer[base] as int + 256 * recvBuffer.buffer[base + 1] as int;
    }

    /**
     * The reassembly loop over the first `len` unread bytes.  On a header of size 0 the source
     * goes round for ever; the method reports that and stops.
     */
    method OnRecv(len: nat) returns (processLen: nat, hangs: bool)
      requires Valid() && len <= |recvBuffer.Contents()|
      modifies this`delivered
      ensures delivered == old(delivered) + Reassemble(recvBuffer.Contents()[..len]).frames
      ensures hangs <==> Reassemble(recvBuffer.Contents()[..len]).Spins?
      ensures !hangs ==> processLen == Reassemble(recvBuffer.Contents()[..len]).consumed
    {
      hide Reassemble, HeaderSize, RecvBuffer.Contents;
      ghost var s := recvBuffer.Contents()[..len];
      ghost var done: seq<Bytes> := [];
      processLen := 0;
      BehindBehind([], 0, [], 0, Reassemble(s));
      assert s[0..] == s;
      while true
        invariant processLen <= len && |s| == len
        invariant delivered == old(delivered) + done
        invariant Reassemble(s) == Behind(done, processLen, Reassemble(s[processLen..]))
        decreases len - processLen
      {
        hide Behind;
        ghost var rest := s[processLen..];
        NoFrame(done, processLen, rest);
        var dataSize := len - processLen;
        if dataSize < HEADER_SIZE {
          return processLen, false;
        }
        var size := ReadHeader(processLen, len);
        if dataSize < size {
          return processLen, false;
        }
        if size == 0 {
          return processLen, true;
        }
        TakeFrame(s, done, processLen, size);
        delivered := delivered + [rest[..size]];
        done := done + [rest[..size]];
        processLen := processLen + size;
      }
    }

    /** One completed receive of the bytes `data`; at most FreeSize() bytes were asked for. */
    method ProcessRecv(data: Bytes) returns (r: RecvResult)
      requires Valid() && |data| <= recvBuffer.FreeSize()
      modifies this`connected, this`delivered, recvBuffer, recvBuffer.buffer
      ensures Valid()
      ensures r == Closed <==> data == []
      ensures r == Closed ==> !connected && State() == old(State())
      ensures r != Closed ==> connected == old(connected)
      ensures r == Hangs <==> data != [] && Receive(old(State()), data).Stuck?
      ensures r == Hangs ==> delivered == Receive(old(State()), data).delivered
      ensures r == Registered ==> State() == Receive(old(State()), data)
      ensures r == Registered ==>
                recvBuffer.FreeSize() >= 65536
                || recvBuffer.FreeSize() == recvBuffer.capacity - |recvBuffer.Contents()|
    {
      hide Reassemble;
      recvBuffer.Fill(data);
      var n := |data|;
      if n == 0 {
        connected := false;
        return Closed;
      }
      ghost var was := recvBuffer.Contents();
      var ok := recvBuffer.OnWrite(n);
      if !ok {
        assert false;  // the overflow disconnect before the loop
      }
      assert recvBuffer.Contents() == was + data;
      var dataSize := recvBuffer.DataSize();
      var processLen, hangs := OnRecv(n);
      if hangs {
        return Hangs;
      }
      if dataSize < processLen {
        assert false;  // the overflow disconnect behind the loop
      }
      ok := recvBuffer.OnRead(processLen);
      if !ok {
        assert false;  // and its second condition
      }
      recvBuffer.Clean();
      return Registered;
    }
  }

  /** Handing on the frame at `at` leaves the rest of the loop to do. */
  lemma TakeFrame(s: Bytes, done: seq<Bytes>, at: nat, size: nat)
    requires at <= |s| && !Incomplete(s[at..]) && size == HeaderSize(s[at..]) > 0
    ensures at + size <= |s|
    ensures Behind(done, at, Reassemble(s[at..]))
         == Behind(done + [s[at..][..size]], at + size, Reassemble(s[at + size..]))
  {
    hide Reassemble, Behind;
    var rest := s[at..];
    OneFrame(rest, []);
    assert rest + [] == rest && rest[size..] + [] == s[at + size..];
    BehindBehind(done, at, [rest[..size]], size, Reassemble(rest[size..]));
  }

  lemma NoFrame(done: seq<Bytes>, n: nat, rest: Bytes)
    ensures Incomplete(rest) ==> Behind(done, n, Reassemble(rest)) == Done(done, n)
    ensures !Incomplete(rest) && HeaderSize(rest) == 0 ==> Behind(done, n, Reassemble(rest)) == Spins(done)
  {
    assert done + [] == done;
  }
}
