/**
 * Packets in a byte stream: a 16-bit size, a 16-bit id, and the payload.
 *
 * `Reassemble` is what the receive loop of PacketSession does with the bytes it is handed, and
 * `Receive` what one completed receive does to a session's unread bytes.
 */
module Framing {
  import opened Wire

  const HEADER_SIZE := 4

  /** The size field of the header, little-endian. */
  function HeaderSize(s: Bytes): nat
    requires |s| >= HEADER_SIZE
  {
    s[0] as int + 256 * s[1] as int
  }

  /** Neither a header nor a whole packet is at the front. */
  predicate Incomplete(s: Bytes): (b: bool)
    ensures !b ==> HEADER_SIZE <= |s| && HeaderSize(s) <= |s|
  {
    |s| < HEADER_SIZE || |s| < HeaderSize(s)
  }

  /**
   * What the loop over received bytes comes to: it stops with the packets it handed on and the
   * bytes they took, or it meets a header of size 0 and never advances again.
   */
  datatype Outcome =
    | Done(frames: seq<Bytes>, consumed: nat)
    | Spins(frames: seq<Bytes>)

  function Reassemble(s: Bytes): (o: Outcome)
    ensures o.Done? ==> o.consumed <= |s| && Flatten(o.frames) == s[..o.consumed]
    decreases |s|
  {
    if Incomplete(s) then Done([], 0)
    else
      var size := HeaderSize(s);
      if size == 0 then Spins([])
      else
        match Reassemble(s[size..])
        case Done(frames, n) =>
          assert s[..size + n] == s[..size] + s[size..][..n];
          assert ([s[..size]] + frames)[1..] == frames;
          Done([s[..size]] + frames, size + n)
        case Spins(frames) => Spins([s[..size]] + frames)
  }

  function Flatten(parts: seq<Bytes>): Bytes {
    if parts == [] then [] else parts[0] + Flatten(parts[1..])
  }

  lemma {:induction false} FlattenConcatenation(a: seq<Bytes>, b: seq<Bytes>)
    ensures Flatten(a + b) == Flatten(a) + Flatten(b)
  {
    if a == [] {
      assert a + b == b;
    } else {
      assert (a + b)[1..] == a[1..] + b;
      FlattenConcatenation(a[1..], b);
    }
  }

  // ---------------------------------------------------------------- the loop terminates, or not

  /** Where the loop stands after `k` rounds, or -1 once it has left. */
  function Position(s: Bytes, k: nat): (p: int)
    ensures -1 <= p <= |s|
  {
    if k == 0 then 0
    else
      var p := Position(s, k - 1);
      if p == -1 || Incomplete(s[p..]) then -1 else p + HeaderSize(s[p..])
  }

  lemma {:induction false} PositionShift(s: Bytes, size: nat, k: nat)
    requires !Incomplete(s) && size == HeaderSize(s)
    ensures Position(s, k + 1) == if Position(s[size..], k) == -1 then -1 else size + Position(s[size..], k)
  {
    if k == 0 {
      assert s[0..] == s;
      assert Position(s, 1) == Position(s, 0) + HeaderSize(s[0..]);
    } else {
      PositionShift(s, size, k - 1);
      var p := Position(s[size..], k - 1);
      if p != -1 {
        assert s[size..][p..] == s[size + p..];
      }
    }
  }

  lemma {:induction false} LeavesWhenDone(s: Bytes)
    requires Reassemble(s).Done?
    ensures Position(s, |Reassemble(s).frames| + 1) == -1
    ensures Position(s, |Reassemble(s).frames|) == Reassemble(s).consumed
    decreases |s|
  {
    hide HeaderSize;
    if Incomplete(s) {
      assert s[0..] == s;
      assert Position(s, 0) == 0;
    } else {
      var size := HeaderSize(s);
      LeavesWhenDone(s[size..]);
      PositionShift(s, size, |Reassemble(s[size..]).frames| + 1);
      PositionShift(s, size, |Reassemble(s[size..]).frames|);
    }
  }

  lemma {:induction false} NeverLeavesWhenSpinning(s: Bytes, k: nat)
    requires Reassemble(s).Spins?
    ensures Position(s, k) >= 0
    decreases k
  {
    hide HeaderSize;
    if k > 0 {
      assert s[0..] == s;
      var size := HeaderSize(s);
      NeverLeavesWhenSpinning(s[size..], k - 1);
      PositionShift(s, size, k - 1);
    }
  }

  /**
   * The receive loop terminates exactly when it never stands on a complete header of size 0;
   * when it terminates, the position it leaves from is the number of bytes it returns.
   */
  lemma LoopTerminates(s: Bytes)
    ensures (exists k: nat :: Position(s, k) == -1) <==> Reassemble(s).Done?
    ensures Reassemble(s).Spins? <==>
            exists k: nat ::
              Position(s, k) >= 0 && !Incomplete(s[Position(s, k)..]) && HeaderSize(s[Position(s, k)..]) == 0
  {
    if Reassemble(s).Done? {
      LeavesWhenDone(s);
      forall k: nat | Position(s, k) >= 0 && !Incomplete(s[Position(s, k)..])
        ensures HeaderSize(s[Position(s, k)..]) != 0
      {
        HeadersReachedAreNotZero(s, k);
      }
    } else {
      forall k: nat
        ensures Position(s, k) >= 0
      {
        NeverLeavesWhenSpinning(s, k);
      }
      var k := ReachesZeroHeader(s);
    }
  }

  /** Four zero bytes are enough: the loop stands on them for ever. */
  lemma {:induction false} ZeroHeaderSpins(k: nat)
    ensures Reassemble([0, 0, 0, 0]) == Spins([]) && Position([0, 0, 0, 0], k) == 0
  {
    var s: Bytes := [0, 0, 0, 0];
    assert HeaderSize(s) == 0 && s[0..] == s;
    if k > 0 {
      ZeroHeaderSpins(k - 1);
    }
  }

  lemma {:induction false} HeadersReachedAreNotZero(s: Bytes, k: nat)
    requires Reassemble(s).Done? && Position(s, k) >= 0 && !Incomplete(s[Position(s, k)..])
    ensures HeaderSize(s[Position(s, k)..]) != 0
    decreases k
  {
    hide HeaderSize;
    hide Incomplete;
    assert s[0..] == s;
    if k > 0 {
      if Incomplete(s) {
        LeftForGood(s, k);
      } else {
        var size := HeaderSize(s);
        PositionShift(s, size, k - 1);
        assert s[size..][Position(s[size..], k - 1)..] == s[Position(s, k)..];
        HeadersReachedAreNotZero(s[size..], k - 1);
      }
    }
  }

  lemma {:induction false} LeftForGood(s: Bytes, k: nat)
    requires Incomplete(s) && k > 0
    ensures Position(s, k) == -1
  {
    assert s[0..] == s;
    assert Position(s, 0) == 0;
    if k > 1 {
      LeftForGood(s, k - 1);
    }
  }

  lemma {:induction false} ReachesZeroHeader(s: Bytes) returns (k: nat)
    requires Reassemble(s).Spins?
    ensures Position(s, k) >= 0 && !Incomplete(s[Position(s, k)..]) && HeaderSize(s[Position(s, k)..]) == 0
    decreases |s|
  {
    var size := HeaderSize(s);
    if size == 0 {
      assert s[0..] == s;
      assert Position(s, 0) == 0;
      k := 0;
    } else {
      var j := ReachesZeroHeader(s[size..]);
      PositionShift(s, size, j);
      assert s[size..][Position(s[size..], j)..] == s[Position(s, j + 1)..];
      k := j + 1;
    }
  }

  // ---------------------------------------------------------------- more bytes, more packets

  /** What follows the bytes taken so far decides the rest, and nothing handed on is revised. */
  function Behind(frames: seq<Bytes>, n: nat, o: Outcome): Outcome {
    match o
    case Done(more, m) => Done(frames + more, n + m)
    case Spins(more) => Spins(frames + more)
  }

  lemma BehindBehind(a: seq<Bytes>, m: nat, b: seq<Bytes>, n: nat, o: Outcome)
    ensures Behind(a, m, Behind(b, n, o)) == Behind(a + b, m + n, o)
    ensures Behind([], 0, o) == o
  {
    match o
    case Done(c, _) => assert a + (b + c) == a + b + c && [] + c == c;
    case Spins(c) => assert a + (b + c) == a + b + c && [] + c == c;
  }

  /** A complete packet of positive size at the front is taken, whatever follows. */
  lemma OneFrame(a: Bytes, b: Bytes)
    requires !Incomplete(a)
    ensures !Incomplete(a + b) && HeaderSize(a + b) == HeaderSize(a)
    ensures (a + b)[..HeaderSize(a)] == a[..HeaderSize(a)] && (a + b)[HeaderSize(a)..] == a[HeaderSize(a)..] + b
    ensures HeaderSize(a) > 0 ==>
              Reassemble(a + b) == Behind([a[..HeaderSize(a)]], HeaderSize(a), Reassemble(a[HeaderSize(a)..] + b))
  {
  }

  lemma {:induction false} ReassembleMore(a: Bytes, b: Bytes)
    requires Reassemble(a).Done?
    ensures var Done(frames, n) := Reassemble(a); Reassemble(a + b) == Behind(frames, n, Reassemble(a[n..] + b))
    decreases |a|
  {
    hide HeaderSize;
    hide Incomplete;
    hide Behind;
    if Incomplete(a) {
      assert a[0..] == a;
      BehindBehind([], 0, [], 0, Reassemble(a + b));
    } else {
      var size := HeaderSize(a);
      var Done(frames, n) := Reassemble(a[size..]);
      OneFrame(a, b);
      ReassembleMore(a[size..], b);
      assert a[size..][n..] == a[size + n..];
      BehindBehind([a[..size]], size, frames, n, Reassemble(a[size + n..] + b));
    }
  }

  /** Nothing complete is left behind the bytes taken. */
  lemma {:induction false} RestIsIncomplete(s: Bytes)
    requires Reassemble(s).Done?
    ensures Incomplete(s[Reassemble(s).consumed..])
    decreases |s|
  {
    if Incomplete(s) {
      assert s[0..] == s;
    } else {
      var size := HeaderSize(s);
      RestIsIncomplete(s[size..]);
      assert s[size..][Reassemble(s[size..]).consumed..] == s[Reassemble(s).consumed..];
    }
  }

  // ---------------------------------------------------------------- well-framed streams

  /** A packet as MakeSendBuffer lays it out: its size field is its length. */
  predicate WellFramed(f: Bytes) {
    |f| >= HEADER_SIZE && HeaderSize(f) == |f|
  }

  /** A stream of well-framed packets and an incomplete tail is taken apart into those packets. */
  lemma {:induction false} ReassembleStream(packets: seq<Bytes>, tail: Bytes)
    requires (forall i :: 0 <= i < |packets| ==> WellFramed(packets[i])) && Incomplete(tail)
    ensures Reassemble(Flatten(packets) + tail) == Done(packets, |Flatten(packets)|)
  {
    if packets == [] {
      assert Flatten(packets) + tail == tail;
    } else {
      var s, n := Flatten(packets) + tail, |packets[0]|;
      assert s == packets[0] + (Flatten(packets[1..]) + tail);
      assert s[..n] == packets[0] && s[n..] == Flatten(packets[1..]) + tail;
      ReassembleStream(packets[1..], tail);
      assert packets == [packets[0]] + packets[1..];
    }
  }

  // ---------------------------------------------------------------- receiving in chunks

  /** The packets handed on so far and the bytes not yet read. */
  datatype Receiver = Receiver(delivered: seq<Bytes>, unread: Bytes) | Stuck(delivered: seq<Bytes>)

  const START := Receiver([], [])

  /**
   * One completed receive.  The loop is handed as many bytes as just arrived, counted from the
   * first unread one, even when older bytes are still unread.
   */
  function Receive(r: Receiver, chunk: Bytes): Receiver {
    match r
    case Stuck(_) => r
    case Receiver(delivered, unread) =>
      var data := unread + chunk;
      match Reassemble(data[..|chunk|])
      case Spins(frames) => Stuck(delivered + frames)
      case Done(frames, n) => Receiver(delivered + frames, data[n..])
  }

  function ReceiveAll(r: Receiver, chunks: seq<Bytes>): Receiver
    decreases |chunks|
  {
    if chunks == [] then r else ReceiveAll(Receive(r, chunks[0]), chunks[1..])
  }

  /** How a receiver stands to all the bytes that have arrived. */
  ghost predicate Accounts(r: Receiver, received: Bytes) {
    match r
    case Stuck(delivered) => Reassemble(received).Spins? && delivered <= Reassemble(received).frames
    case Receiver(delivered, unread) =>
      && Flatten(delivered) + unread == received
      && Reassemble(received) == Behind(delivered, |Flatten(delivered)|, Reassemble(unread))
  }

  lemma ReceiveAccounts(r: Receiver, received: Bytes, chunk: Bytes)
    requires Accounts(r, received) && r.Receiver?
    ensures Accounts(Receive(r, chunk), received + chunk)
  {
    hide Reassemble;
    hide Behind;
    hide Flatten;
    var data := r.unread + chunk;
    var head, rest := data[..|chunk|], data[|chunk|..];
    assert data == head + rest;
    AccountsMore(r, received, chunk);
    match Reassemble(head)
    case Spins(frames) =>
      SpinsMore(head, rest);
      BehindSpins(r.delivered, |Flatten(r.delivered)|, frames);
    case Done(frames, n) =>
      ReassembleMore(head, rest);
      assert head[n..] + rest == data[n..];
      FlattenConcatenation(r.delivered, frames);
      assert received + chunk == Flatten(r.delivered) + data;
      assert Flatten(frames) == head[..n] == data[..n];
      assert data == data[..n] + data[n..];
      BehindBehind(r.delivered, |Flatten(r.delivered)|, frames, n, Reassemble(data[n..]));
  }

  lemma BehindSpins(a: seq<Bytes>, m: nat, b: seq<Bytes>)
    ensures Behind(a, m, Spins(b)) == Spins(a + b) && a + b <= Behind(a, m, Spins(b)).frames
  {
  }

  lemma AccountsMore(r: Receiver, received: Bytes, chunk: Bytes)
    requires Accounts(r, received) && r.Receiver?
    ensures Reassemble(received + chunk) == Behind(r.delivered, |Flatten(r.delivered)|, Reassemble(r.unread + chunk))
  {
    hide Reassemble;
    hide Flatten;
    if Reassemble(r.unread).Done? {
      var Done(more, m) := Reassemble(r.unread);
      var n := |Flatten(r.delivered)|;
      ReassembleMore(received, chunk);
      ReassembleMore(r.unread, chunk);
      assert received[n + m..] == r.unread[m..];
      BehindBehind(r.delivered, n, more, m, Reassemble(r.unread[m..] + chunk));
    } else {
      SpinsMore(received, chunk);
      SpinsMore(r.unread, chunk);
    }
  }

  lemma {:induction false} SpinsMore(a: Bytes, b: Bytes)
    requires Reassemble(a).Spins?
    ensures Reassemble(a + b) == Reassemble(a)
    decreases |a|
  {
    var size := HeaderSize(a);
    if size != 0 {
      SpinsMore(a[size..], b);
      assert (a + b)[size..] == a[size..] + b && (a + b)[..size] == a[..size];
    }
  }

  lemma {:induction false} ReceiveAllAccounts(r: Receiver, received: Bytes, chunks: seq<Bytes>)
    requires Accounts(r, received)
    ensures Accounts(ReceiveAll(r, chunks), received + Flatten(chunks))
    decreases |chunks|
  {
    if chunks == [] {
      assert received + Flatten(chunks) == received;
    } else {
      assert received + Flatten(chunks) == received + chunks[0] + Flatten(chunks[1..]);
      if r.Receiver? {
        ReceiveAccounts(r, received, chunks[0]);
      } else {
        SpinsMore(received, chunks[0]);
      }
      ReceiveAllAccounts(Receive(r, chunks[0]), received + chunks[0], chunks[1..]);
    }
  }

  /**
   * However a stream is cut into receives, the packets handed on are the first packets of the
   * whole stream in order, and together with the unread bytes they are exactly what arrived.
   */
  lemma PrefixDelivery(chunks: seq<Bytes>)
    ensures ReceiveAll(START, chunks).delivered <= Reassemble(Flatten(chunks)).frames
    ensures ReceiveAll(START, chunks).Receiver? ==>
              Flatten(ReceiveAll(START, chunks).delivered) + ReceiveAll(START, chunks).unread == Flatten(chunks)
  {
    assert Accounts(START, []);
    ReceiveAllAccounts(START, [], chunks);
    assert [] + Flatten(chunks) == Flatten(chunks);
  }

  /** A receiver of well-framed packets is never stuck and hands on a prefix of them. */
  lemma WellFramedDelivery(packets: seq<Bytes>, tail: Bytes, chunks: seq<Bytes>)
    requires (forall i :: 0 <= i < |packets| ==> WellFramed(packets[i])) && Incomplete(tail)
    requires Flatten(chunks) == Flatten(packets) + tail
    ensures ReceiveAll(START, chunks).Receiver? && ReceiveAll(START, chunks).delivered <= packets
  {
    ReassembleStream(packets, tail);
    assert Accounts(START, []);
    ReceiveAllAccounts(START, [], chunks);
    assert [] + Flatten(chunks) == Flatten(chunks);
    PrefixDelivery(chunks);
  }

  /** How far the loop must look to take everything complete in `s`: a header is read whole. */
  function Reach(s: Bytes): (n: nat)
    ensures n <= |s|
    decreases |s|
  {
    if Incomplete(s) || HeaderSize(s) == 0 then 0
    else
      var size := HeaderSize(s);
      var more := Reach(s[size..]);
      if more > 0 then size + more else if size < HEADER_SIZE then HEADER_SIZE else size
  }

  lemma {:induction false} ReachMore(a: Bytes, b: Bytes)
    requires Reassemble(a).Done?
    ensures var n := Reassemble(a).consumed;
            Reach(a + b) == if Reach(a[n..] + b) > 0 then n + Reach(a[n..] + b) else Reach(a)
    decreases |a|
  {
    hide HeaderSize;
    if Incomplete(a) {
      assert a[0..] == a;
    } else {
      var size := HeaderSize(a);
      OneFrame(a, b);
      ReachMore(a[size..], b);
      assert a[size..][Reassemble(a[size..]).consumed..] == a[Reassemble(a).consumed..];
    }
  }

  /** A first packet that is not complete in `a` needs bytes beyond it. */
  lemma ReachesBeyond(a: Bytes, b: Bytes)
    requires Incomplete(a) && Reassemble(a + b).Done?
    ensures if Incomplete(a + b) then Reach(a + b) == 0 else Reach(a + b) > |a|
  {
    hide Reassemble;
    var s := a + b;
    if !Incomplete(s) {
      SpinsAtZero(s);
      var size := HeaderSize(s);
      assert Reach(s) >= size && Reach(s) >= HEADER_SIZE;
      if |a| >= HEADER_SIZE {
        assert HeaderSize(a) == size;
      }
    }
  }

  lemma SpinsAtZero(s: Bytes)
    requires !Incomplete(s) && Reassemble(s).Done?
    ensures HeaderSize(s) != 0
  {
  }

  /**
   * Exactly when a receive leaves a complete packet behind: when taking every complete packet in
   * the buffer means looking beyond as many bytes as the receive brought.
   */
  lemma LagsExactlyWhen(r: Receiver, chunk: Bytes)
    requires r.Receiver? && Reassemble(r.unread + chunk).Done?
    ensures Receive(r, chunk).Receiver?
    ensures Incomplete(Receive(r, chunk).unread) <==> Reach(r.unread + chunk) <= |chunk|
  {
    hide Reassemble;
    hide Incomplete;
    hide Reach;
    var data := r.unread + chunk;
    var head, rest := data[..|chunk|], data[|chunk|..];
    assert data == head + rest;
    if Reassemble(head).Spins? {
      SpinsMore(head, rest);
    }
    var n := Reassemble(head).consumed;
    ReassembleMore(head, rest);
    ReachMore(head, rest);
    assert head[n..] + rest == data[n..];
    RestIsIncomplete(head);
    ReachesBeyond(head[n..], rest);
  }

  /** In a well-framed stream the loop looks no further than the packets it takes. */
  lemma {:induction false} ReachOfStream(packets: seq<Bytes>, tail: Bytes)
    requires (forall i :: 0 <= i < |packets| ==> WellFramed(packets[i])) && Incomplete(tail)
    ensures Reach(Flatten(packets) + tail) == |Flatten(packets)|
  {
    if packets == [] {
      assert Flatten(packets) + tail == tail;
    } else {
      var s, n := Flatten(packets) + tail, |packets[0]|;
      assert s == packets[0] + (Flatten(packets[1..]) + tail);
      assert s[n..] == Flatten(packets[1..]) + tail;
      ReachOfStream(packets[1..], tail);
      if packets[1..] != [] {
        assert |Flatten(packets[1..])| >= |packets[1..][0]|;
      }
    }
  }

  /** With nothing unread before it, a receive hands on every complete packet. */
  lemma EmptyBufferNeverLags(r: Receiver, chunk: Bytes)
    requires r.Receiver? && r.unread == []
    ensures Receive(r, chunk).Receiver? ==> Incomplete(Receive(r, chunk).unread)
  {
    assert r.unread + chunk == chunk && chunk[..|chunk|] == chunk;
    if Reassemble(chunk).Done? {
      RestIsIncomplete(chunk);
    }
  }

  /** The receive is too short for a header, or for the packet the unread bytes begin with. */
  predicate TooShort(unread: Bytes, chunk: Bytes) {
    |chunk| < HEADER_SIZE || (|unread| >= HEADER_SIZE && |chunk| < HeaderSize(unread))
  }

  /**
   * However much arrives, a packet larger than every single receive is never handed on, nor is
   * anything behind it: the bytes only pile up.
   */
  lemma {:induction false} ShortReceivesStarve(r: Receiver, chunks: seq<Bytes>)
    requires r.Receiver? && forall i :: 0 <= i < |chunks| ==> TooShort(r.unread, chunks[i])
    ensures ReceiveAll(r, chunks) == Receiver(r.delivered, r.unread + Flatten(chunks))
    decreases |chunks|
  {
    if chunks == [] {
      assert r.unread + Flatten(chunks) == r.unread;
    } else {
      var data := r.unread + chunks[0];
      assert TooShort(r.unread, chunks[0]);
      assert Incomplete(data[..|chunks[0]|]);
      assert data[0..] == data && r.delivered + [] == r.delivered;
      var next := Receive(r, chunks[0]);
      assert next == Receiver(r.delivered, data);
      forall i | 0 <= i < |chunks[1..]|
        ensures TooShort(next.unread, chunks[1..][i])
      {
        assert TooShort(r.unread, chunks[i + 1]);
      }
      ShortReceivesStarve(next, chunks[1..]);
      assert data + Flatten(chunks[1..]) == r.unread + Flatten(chunks);
    }
  }

  /** So a packet of any size waits for good behind receives that are each shorter. */
  lemma LargePacketStarves(r: Receiver, packet: Bytes, chunks: seq<Bytes>)
    requires r.Receiver? && WellFramed(packet) && packet[..HEADER_SIZE] <= r.unread
    requires forall i :: 0 <= i < |chunks| ==> |chunks[i]| < |packet|
    ensures ReceiveAll(r, chunks) == Receiver(r.delivered, r.unread + Flatten(chunks))
  {
    assert r.unread[0] == packet[..HEADER_SIZE][0] && r.unread[1] == packet[..HEADER_SIZE][1];
    ShortReceivesStarve(r, chunks);
  }

  /** And receives of fewer than four bytes hand on nothing at all. */
  lemma SmallChunksStarve(r: Receiver, chunks: seq<Bytes>)
    requires r.Receiver? && forall i :: 0 <= i < |chunks| ==> |chunks[i]| < HEADER_SIZE
    ensures ReceiveAll(r, chunks) == Receiver(r.delivered, r.unread + Flatten(chunks))
  {
    ShortReceivesStarve(r, chunks);
  }
}
