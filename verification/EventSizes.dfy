/**
 * How large a room event gets, and so which events can be sent at all.
 */
module EventSizes {
  import opened Wrappers
  import opened Wire
  import opened Records
  import opened SendBuffers
  import RoomEventMsg
  import RoomSummaryMsg

  /** A varint of 64 bits takes ten bytes at most, and one below 2^14 two. */
  lemma VarintAtMost(v: UInt64)
    ensures |EncodeVarint(v)| <= 10
    ensures v < 0x4000 ==> |EncodeVarint(v)| <= 2
  {
    hide EncodeVarint, VarintLength;
    Powers();
    EncodedVarint(v, [], 10);
    if v < 0x4000 {
      EncodedVarint(v, [], 2);
    }
  }

  lemma NumberAtMost(number: FieldNumber, v: UInt64)
    requires number <= 15
    ensures |EncodeOptVarint(number, v)| <= 11
  {
    VarintAtMost(v);
    assert |EncodeVarint(MakeTag(number, VARINT))| == 1;
    assert EncodeRecord(Varint(number, v)) == EncodeVarint(MakeTag(number, VARINT)) + EncodeVarint(v);
  }

  lemma TextAtMost(number: FieldNumber, data: Bytes)
    requires number <= 15 && |data| < 0x4000
    ensures |EncodeRecord(Delimited(number, data))| <= |data| + 3
  {
    DelimitedBytes(number, data);
    VarintAtMost(|data|);
    assert |EncodeVarint(MakeTag(number, DELIMITED))| == 1;
  }

  lemma EncodeNothing()
    ensures EncodeRecords([]) == []
  {
  }

  lemma SummaryAtMost(v: RoomSummaryMsg.Value)
    requires |v.name| < 0x2000 && v.unknown == []
    ensures |RoomSummaryMsg.Serialize(v)| <= |v.name| + 36
  {
    hide EncodeOptVarint, EncodeRecord, EncodeRecords, RoomSummaryMsg.Serialize;
    RoomSummaryMsg.SerializedParts(v);
    EncodeNothing();
    NumberAtMost(1, v.roomId);
    TextAtMost(2, v.name);
    NumberAtMost(3, v.playerCount);
    NumberAtMost(4, v.maxPlayers);
  }

  /** With a room's name and a nickname of at most 5900 bytes together an event can always be sent. */
  lemma RoomEventFits(e: RoomEventMsg.Value)
    requires e.room.Some? && e.unknown == [] && e.room.value.unknown == []
    requires |e.room.value.name| + |e.nickname| <= 5900
    ensures |RoomEventMsg.Serialize(e)| <= 5964 && Sendable(|RoomEventMsg.Serialize(e)|)
  {
    hide EncodeOptVarint, EncodeRecord, EncodeRecords;
    hide RoomSummaryMsg.Serialize, RoomEventMsg.Serialize, RoomEventMsg.SignExtend;
    RoomEventMsg.SerializedParts(e);
    EncodeNothing();
    NumberAtMost(1, RoomEventMsg.SignExtend(e.kind));
    SummaryAtMost(e.room.value);
    TextAtMost(2, RoomSummaryMsg.Serialize(e.room.value));
    NumberAtMost(3, e.playerId);
    TextAtMost(4, e.nickname);
  }

  /** An event with nothing but a nickname takes three or four bytes more than the nickname. */
  lemma NicknameEventSize(nickname: Bytes)
    requires 128 <= |nickname| < 0x20_0000
    ensures var e := RoomEventMsg.DEFAULT.(nickname := nickname);
            |RoomEventMsg.Serialize(e)| == |nickname| + if |nickname| < 0x4000 then 3 else 4
  {
    var e, n := RoomEventMsg.DEFAULT.(nickname := nickname), |nickname|;
    RoomEventMsg.SerializedParts(e);
    DelimitedBytes(4, nickname);
    assert EncodeVarint(MakeTag(4, DELIMITED)) == [34];
    assert |EncodeVarint(n)| == 1 + |EncodeVarint(n / 128)|;
    if n >= 0x4000 {
      assert |EncodeVarint(n / 128)| == 1 + |EncodeVarint(n / 128 / 128)|;
    }
  }

  /** The longest nickname such an event can carry has 5993 bytes; 65528 to 65531 wrap the packet size. */
  lemma LongestNickname(nickname: Bytes)
    requires 128 <= |nickname| < 0x20_0000
    ensures var total := |RoomEventMsg.Serialize(RoomEventMsg.DEFAULT.(nickname := nickname))|;
            && (Sendable(total) <==> |nickname| <= 5993)
            && (|nickname| <= 70000 ==> (Wraps(total) <==> 65528 <= |nickname| <= 65531))
  {
    NicknameEventSize(nickname);
  }

  /** Two nicknames too long to tell anybody: one stops the process, one wraps the packet size. */
  lemma OversizedEvents(letter: Byte)
    ensures var e := RoomEventMsg.DEFAULT.(nickname := seq(6000, i => letter));
            !Sendable(|RoomEventMsg.Serialize(e)|) && !Wraps(|RoomEventMsg.Serialize(e)|)
    ensures var e := RoomEventMsg.DEFAULT.(nickname := seq(65529, i => letter));
            !Sendable(|RoomEventMsg.Serialize(e)|) && Wraps(|RoomEventMsg.Serialize(e)|)
  {
    NicknameEventSize(seq(6000, i => letter));
    NicknameEventSize(seq(65529, i => letter));
  }
}
