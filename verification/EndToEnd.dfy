/**
 * The chain from room events to room events: serialize and frame, queue and post, cut the bytes
 * into receives, reassemble, parse.
 */
module EndToEnd {
  import opened Wrappers
  import opened Wire
  import opened Records
  import opened Framing
  import opened SendBuffers
  import RoomEventMsg
  import Rooms
  import SendProtocol

  type Event = RoomEventMsg.Value

  const PKT_S_ROOM_EVENT := 1009
  const RECURSION_LIMIT := 100

  /** An event a program can build and MakeSendBuffer can send. */
  ghost predicate CanSend(e: Event) {
    RoomEventMsg.Retained(e, RECURSION_LIMIT) && Sendable(|RoomEventMsg.Serialize(e)|)
  }

  ghost predicate AllSendable(events: seq<Event>) {
    forall i :: 0 <= i < |events| ==> CanSend(events[i])
  }

  function ToPacket(e: Event): Bytes
    requires Sendable(|RoomEventMsg.Serialize(e)|)
  {
    Packet(PKT_S_ROOM_EVENT, RoomEventMsg.Serialize(e))
  }

  /** HandlePacket: skip the header and parse what is left. */
  function FromPacket(f: Bytes): Option<Event> {
    if |f| < HEADER_SIZE then None
    else Parse(RoomEventMsg.Step(RECURSION_LIMIT), RoomEventMsg.DEFAULT, f[HEADER_SIZE..], RECURSION_LIMIT)
  }

  ghost function Packets(events: seq<Event>): (packets: seq<Bytes>)
    requires AllSendable(events)
    ensures |packets| == |events| && forall i :: 0 <= i < |events| ==> packets[i] == ToPacket(events[i])
  {
    seq(|events|, i requires 0 <= i < |events| => ToPacket(events[i]))
  }

  /** A packet is framed, carries its id, and parses back to its event when its text is UTF-8. */
  lemma PacketRoundTrip(e: Event)
    requires CanSend(e)
    ensures WellFramed(ToPacket(e)) && PacketId(ToPacket(e)) == 1009
    ensures FromPacket(ToPacket(e)) == if RoomEventMsg.TextValid(e) then Some(e) else None
  {
    hide RoomEventMsg.Serialize;
    hide RoomEventMsg.Retained;
    PacketIsFramed(PKT_S_ROOM_EVENT, RoomEventMsg.Serialize(e));
    RoomEventMsg.RoundTrip(e, RECURSION_LIMIT);
  }

  /** A hundred levels of groups are read, and one more is refused. */
  lemma NestingLimit(header: Bytes, n: nat)
    requires |header| == 4
    ensures FromPacket(header + EncodeRecord(Nested(n)))
         == if n < 100 then Some(RoomEventMsg.DEFAULT.(unknown := [Nested(n)])) else None
  {
    hide EncodeRecord, Parse, ReadRecord, WellFormed;
    var r, depth := Nested(n), RECURSION_LIMIT;
    var s := EncodeRecord(r);
    assert (header + s)[HEADER_SIZE..] == s && s + [] == s;
    NestedIsWellFormed(n, depth);
    if n < depth {
      ParseOne(RoomEventMsg.Step(depth), RoomEventMsg.DEFAULT, r, depth);
      assert [] + [r] == [r];
    } else {
      TooDeepIsRefused(n, [], depth);
      assert s != [] by { NotEmpty(r); }
      ParseRefused(RoomEventMsg.Step(depth), RoomEventMsg.DEFAULT, s, depth);
    }
  }

  lemma NotEmpty(r: Record)
    ensures EncodeRecord(r) != []
  {
  }

  ghost predicate AllFramed(packets: seq<Bytes>) {
    forall i :: 0 <= i < |packets| ==> WellFramed(packets[i])
  }

  lemma PacketsAreFramed(events: seq<Event>)
    requires AllSendable(events)
    ensures AllFramed(Packets(events))
  {
    hide Sendable;
    hide FromPacket;
    forall i | 0 <= i < |events|
      ensures WellFramed(Packets(events)[i])
    {
      PacketRoundTrip(events[i]);
    }
  }

  /**
   * One receive of the packets of any list of events, with any incomplete rest behind them, hands
   * on exactly those packets, takes exactly their bytes, and each parses back to its event.
   */
  lemma StreamOfEvents(events: seq<Event>, tail: Bytes)
    requires AllSendable(events) && Incomplete(tail)
    ensures Reassemble(Flatten(Packets(events)) + tail) == Done(Packets(events), |Flatten(Packets(events))|)
    ensures forall i :: 0 <= i < |events| ==>
              FromPacket(Packets(events)[i]) == if RoomEventMsg.TextValid(events[i]) then Some(events[i]) else None
  {
    hide Sendable;
    hide FromPacket;
    PacketsAreFramed(events);
    ReassembleStream(Packets(events), tail);
    forall i | 0 <= i < |events|
      ensures FromPacket(Packets(events)[i]) == if RoomEventMsg.TextValid(events[i]) then Some(events[i]) else None
    {
      PacketRoundTrip(events[i]);
    }
  }

  /** Whatever has arrived of a well-framed stream is some whole packets and an incomplete rest. */
  lemma {:induction false} CutStream(packets: seq<Bytes>, s: Bytes) returns (k: nat, tail: Bytes)
    requires AllFramed(packets) && s <= Flatten(packets)
    ensures k <= |packets| && s == Flatten(packets[..k]) + tail && Incomplete(tail)
  {
    if packets == [] {
      k, tail := 0, s;
    } else if |s| < |packets[0]| {
      k, tail := 0, s;
      assert Flatten(packets) == packets[0] + Flatten(packets[1..]);
      assert forall i :: 0 <= i < |s| ==> s[i] == packets[0][i];
    } else {
      var n := |packets[0]|;
      assert Flatten(packets)[n..] == Flatten(packets[1..]);
      assert s[n..] == Flatten(packets)[n..|s|];
      k, tail := CutStream(packets[1..], s[n..]);
      assert packets[1..][..k] == packets[..k + 1][1..];
      assert s == packets[0] + s[n..];
      k := k + 1;
    }
  }

  /**
   * Any number of threads send room events on one session, in any interleaving with completions,
   * failures and disconnects, and any initial part of the bytes of the accepted calls arrives, cut
   * into any receives.  The receiver never gets stuck and is handed a prefix of the accepted
   * packets.  These are events at increasing positions of those queued, each read back as it was,
   * and as long as no WSASend call failed they are the first ones without a gap.
   */
  lemma EventsArriveInOrder(steps: seq<SendProtocol.Step<Bytes>>, events: seq<Event>, chunks: seq<Bytes>)
    returns (positions: seq<nat>)
    requires AllSendable(events) && SendProtocol.Runs(SendProtocol.Init<Bytes>(), steps)
    requires SendProtocol.End(SendProtocol.Init<Bytes>(), steps).pushed == Packets(events)
    requires Flatten(chunks)
          <= Flatten(SendProtocol.Accepted(SendProtocol.End(SendProtocol.Init<Bytes>(), steps).calls))
    ensures var calls, r := SendProtocol.End(SendProtocol.Init<Bytes>(), steps).calls, ReceiveAll(START, chunks);
            && r.Receiver? && r.delivered <= SendProtocol.Accepted(calls)
            && |positions| == |r.delivered| && SendProtocol.Increasing(positions, |events|)
            && (forall i :: 0 <= i < |r.delivered| ==>
                  var e := events[positions[i]];
                  r.delivered[i] == ToPacket(e)
                  && FromPacket(r.delivered[i]) == if RoomEventMsg.TextValid(e) then Some(e) else None)
            && ((forall c <- calls :: c.accepted) ==> forall i :: 0 <= i < |positions| ==> positions[i] == i)
  {
    hide SendProtocol.Runs, SendProtocol.End, SendProtocol.Accepted, SendProtocol.Batches, SendProtocol.InHand;
    hide Sendable, FromPacket, ReceiveAll, ToPacket, Flatten, WellFramed;
    var s := SendProtocol.End(SendProtocol.Init<Bytes>(), steps);
    var accepted := SendProtocol.Accepted(s.calls);
    SendProtocol.SendFifo(steps);
    SendProtocol.SendExclusivity(steps, 0, 0);
    positions := AcceptedEvents(s, Packets(events));
    PacketsAreFramed(events);
    forall i | 0 <= i < |accepted|
      ensures WellFramed(accepted[i])
    {
      assert accepted[i] == Packets(events)[positions[i]];
    }
    var k, tail := CutStream(accepted, Flatten(chunks));
    WellFramedDelivery(accepted[..k], tail, chunks);
    StreamOfEvents(events, []);
    var delivered := ReceiveAll(START, chunks).delivered;
    positions := positions[..|delivered|];
    forall i | 0 <= i < |delivered|
      ensures delivered[i] == Packets(events)[positions[i]]
    {
      assert delivered[i] == accepted[i];
    }
  }

  /** Where the accepted packets stand among those pushed. */
  lemma AcceptedEvents(s: SendProtocol.State<Bytes>, packets: seq<Bytes>) returns (positions: seq<nat>)
    requires packets == SendProtocol.Batches(s.calls) + SendProtocol.InHand(s) + s.shared.queue
    requires SendProtocol.CallsOk(s)
    ensures SendProtocol.Picks(SendProtocol.Accepted(s.calls), packets, positions)
    ensures (forall c <- s.calls :: c.accepted) ==> forall i :: 0 <= i < |positions| ==> positions[i] == i
  {
    var batches, accepted := SendProtocol.Batches(s.calls), SendProtocol.Accepted(s.calls);
    var rest := SendProtocol.InHand(s) + s.shared.queue;
    positions := SendProtocol.AcceptedInOrder(s.calls);
    SendProtocol.AcceptedIsShorter(s.calls);
    if forall c <- s.calls :: c.accepted {
      forall i | 0 <= i < |positions|
        ensures positions[i] == i
      {
        SendProtocol.PickedAll(accepted, batches, positions, i);
      }
    }
    SendProtocol.PickNone(accepted, batches, positions, rest);
    assert packets == batches + rest;
  }

  // ---------------------------------------------------------------- a room's messages on the sockets

  lemma {:induction false} FromRoomConcatenation(a: seq<Rooms.Message>, b: seq<Rooms.Message>)
    ensures Rooms.FromRoom(a + b) == Rooms.FromRoom(a) + Rooms.FromRoom(b)
  {
    if b == [] {
      assert a + b == a;
    } else {
      FromRoomConcatenation(a, b[..|b| - 1]);
      assert (a + b)[..|a + b| - 1] == a + b[..|b| - 1];
    }
  }

  /** What a socket has been given of a room's messages is a first part of what the session was sent. */
  lemma SocketPrefix(steps: seq<SendProtocol.Step<Rooms.Message>>)
    requires SendProtocol.Runs(SendProtocol.Init<Rooms.Message>(), steps)
    requires var s := SendProtocol.End(SendProtocol.Init<Rooms.Message>(), steps); forall c <- s.calls :: c.accepted
    ensures var s := SendProtocol.End(SendProtocol.Init<Rooms.Message>(), steps);
            Rooms.FromRoom(SendProtocol.Accepted(s.calls)) <= Rooms.FromRoom(s.pushed)
  {
    hide SendProtocol.Runs, SendProtocol.End, Rooms.FromRoom;
    var s := SendProtocol.End(SendProtocol.Init<Rooms.Message>(), steps);
    SendProtocol.SocketStream(steps);
    var accepted, rest := SendProtocol.Accepted(s.calls), SendProtocol.InHand(s) + s.shared.queue;
    assert s.pushed == accepted + rest;
    FromRoomConcatenation(accepted, rest);
  }

  /** What a socket carries of a room's messages beyond those its session had been sent before. */
  function Beyond(heard: seq<Rooms.Message>, carried: seq<Rooms.Message>): seq<Rooms.Message> {
    if |carried| <= |heard| then [] else carried[|heard|..]
  }

  /**
   * Two members stay through a run of a room, and each of their sessions sends, under whatever
   * interleaving, what its log says, with no failed call.  Each may have heard something else
   * before: beyond that, both sockets carry a first part of the one sequence the room says, so the
   * parts of the two agree as far as both have come.
   */
  lemma MembersGetOneOrder<S>(
      r: Rooms.State<S>, steps: seq<Rooms.Step<S>>, s: S, t: S,
      sendS: seq<SendProtocol.Step<Rooms.Message>>, sendT: seq<SendProtocol.Step<Rooms.Message>>)
    requires Rooms.Valid(r) && Rooms.Runs(r, steps) && s in r.logs && t in r.logs
    requires Rooms.StaysAll(r, steps, s) && Rooms.StaysAll(r, steps, t)
    requires s in Rooms.End(r, steps).logs && t in Rooms.End(r, steps).logs
    requires Sends(sendS, Rooms.End(r, steps).logs[s]) && Sends(sendT, Rooms.End(r, steps).logs[t])
    ensures var said := Rooms.Said(r, steps);
            var onS, onT := Rooms.FromRoom(OnSocket(sendS)), Rooms.FromRoom(OnSocket(sendT));
            var partS, partT := Beyond(Rooms.FromRoom(r.logs[s]), onS), Beyond(Rooms.FromRoom(r.logs[t]), onT);
            && onS <= Rooms.FromRoom(r.logs[s]) + said && onT <= Rooms.FromRoom(r.logs[t]) + said
            && partS <= said && partT <= said
            && (partS <= partT || partT <= partS)
  {
    hide Rooms.Runs, Rooms.End, Rooms.StaysAll, Rooms.Said, Rooms.FromRoom;
    Rooms.TotalOrder(r, steps, s, t);
    SocketPrefix(sendS);
    SocketPrefix(sendT);
    BeyondIsPrefix(Rooms.FromRoom(r.logs[s]), Rooms.Said(r, steps), Rooms.FromRoom(OnSocket(sendS)));
    BeyondIsPrefix(Rooms.FromRoom(r.logs[t]), Rooms.Said(r, steps), Rooms.FromRoom(OnSocket(sendT)));
  }

  lemma BeyondIsPrefix(heard: seq<Rooms.Message>, said: seq<Rooms.Message>, carried: seq<Rooms.Message>)
    requires carried <= heard + said
    ensures Beyond(heard, carried) <= said
  {
    if |carried| > |heard| {
      assert (heard + said)[..|carried|][|heard|..] == said[..|carried| - |heard|];
    }
  }

  /** The session was sent `log` and none of its WSASend calls has failed. */
  ghost predicate Sends(steps: seq<SendProtocol.Step<Rooms.Message>>, log: seq<Rooms.Message>) {
    && SendProtocol.Runs(SendProtocol.Init<Rooms.Message>(), steps)
    && var s := SendProtocol.End(SendProtocol.Init<Rooms.Message>(), steps);
       s.pushed == log && forall c <- s.calls :: c.accepted
  }

  function OnSocket(steps: seq<SendProtocol.Step<Rooms.Message>>): seq<Rooms.Message>
    requires SendProtocol.Runs(SendProtocol.Init<Rooms.Message>(), steps)
  {
    SendProtocol.Accepted(SendProtocol.End(SendProtocol.Init<Rooms.Message>(), steps).calls)
  }
}
