/** Protocol.S_ROOM_EVENT: RoomEventType type = 1, RoomSummary room = 2, uint64 playerId = 3, string nickname = 4. */
module RoomEventMsg {
  import opened Wrappers
  import opened Wire
  import opened Records
  import opened RecordWriter
  import opened Utf8
  import RoomSummaryMsg

  type Summary = RoomSummaryMsg.Value

  const PLAYER_JOINED: Int32 := 3
  const PLAYER_LEFT: Int32 := 4

  datatype Value = Value(kind: Int32, room: Option<Summary>, playerId: UInt64, nickname: Bytes, unknown: seq<Record>)

  const DEFAULT := Value(0, None, 0, [], [])

  // ---------------------------------------------------------------- enums

  /** An enum is written as its 64-bit sign extension. */
  function SignExtend(e: Int32): UInt64 {
    if e < 0 then e + UINT64_LIMIT else e
  }

  /** The cast to an enum keeps the low 32 bits. */
  function Truncate(v: UInt64): Int32 {
    var low := v % UINT32_LIMIT;
    if low >= 0x8000_0000 then low - UINT32_LIMIT else low
  }

  lemma EnumRoundTrip(e: Int32)
    ensures Truncate(SignExtend(e)) == e && (SignExtend(e) == 0 <==> e == 0)
  {
  }

  /** A non-negative enum is written as itself, a negative one as its 64-bit two's complement. */
  lemma EnumBytes(e: Int32)
    ensures SignExtend(e) == if e >= 0 then e else 0x1_0000_0000_0000_0000 + e
    ensures 0 <= Truncate(SignExtend(e)) ==> SignExtend(e) < 0x8000_0000
    ensures Truncate(0xFFFF_FFFF) == -1 && Truncate(0x1_0000_0003) == 3 && Truncate(0x7FFF_FFFF) == 0x7FFF_FFFF
  {
  }

  /** EnumSize: ten bytes for a negative value. */
  function EnumSize(e: Int32): nat {
    if e < 0 then 10 else VarintSize(e)
  }

  lemma {:induction false} LengthAtLeast(v: nat, n: nat)
    requires v >= Pow128(n)
    ensures |EncodeVarint(v)| >= n + 1
  {
    if n > 0 {
      LengthAtLeast(v / 128, n - 1);
    }
  }

  lemma EnumSizeIsLength(e: Int32)
    ensures EnumSize(e) == VarintSize(SignExtend(e)) == |EncodeVarint(SignExtend(e))|
  {
    VarintSizeIsLength(SignExtend(e));
    if e < 0 {
      Powers();
      LengthAtLeast(SignExtend(e), 9);
      EncodedVarint(SignExtend(e), [], 10);
    }
  }

  // ---------------------------------------------------------------- the message as records

  predicate Known(r: Record) {
    (r.Varint? && (r.number == 1 || r.number == 3)) || (r.Delimited? && (r.number == 2 || r.number == 4))
  }

  function RoomOf(m: Value): Summary {
    if m.room.Some? then m.room.value else RoomSummaryMsg.DEFAULT
  }

  /** What one record does to a message being parsed. */
  function Apply(m: Value, r: Record, depth: nat): Option<Value> {
    if r.Varint? && r.number == 1 then Some(m.(kind := Truncate(r.value)))
    else if r.Delimited? && r.number == 2 then
      if depth == 0 then None
      else
        match Parse(RoomSummaryMsg.Step, RoomOf(m), r.data, depth - 1)
        case None => None
        case Some(x) => Some(m.(room := Some(x)))
    else if r.Varint? && r.number == 3 then Some(m.(playerId := r.value))
    else if r.Delimited? && r.number == 4 then
      if ValidUtf8(r.data) then Some(m.(nickname := r.data)) else None
    else Some(m.(unknown := m.unknown + [r]))
  }

  function Step(depth: nat): (Value, Record) -> Option<Value> {
    (m, r) => Apply(m, r, depth)
  }

  /** The fields in the order they are written. */
  function Fields(m: Value): seq<Record> {
    OptVarint(1, SignExtend(m.kind)) + RoomSummaryMsg.OptSummary(2, m.room)
    + OptVarint(3, m.playerId) + OptString(4, m.nickname) + m.unknown
  }

  function Serialize(m: Value): Bytes {
    EncodeRecords(Fields(m))
  }

  /** Later values win, zero and empty ones are ignored, the submessages merge. */
  function Merge(a: Value, b: Value): Value {
    Value(if b.kind != 0 then b.kind else a.kind,
          if b.room.Some? then Some(RoomSummaryMsg.Merge(RoomOf(a), b.room.value)) else a.room,
          if b.playerId != 0 then b.playerId else a.playerId,
          if b.nickname != [] then b.nickname else a.nickname,
          a.unknown + b.unknown)
  }

  ghost predicate Retained(m: Value, depth: nat) {
    && depth > 0
    && AllWellFormed(m.unknown, depth) && (forall i :: 0 <= i < |m.unknown| ==> !Known(m.unknown[i]))
    && (m.room.Some? ==> RoomSummaryMsg.Retained(m.room.value, depth - 1))
  }

  predicate TextValid(m: Value) {
    ValidUtf8(m.nickname) && (m.room.Some? ==> RoomSummaryMsg.TextValid(m.room.value))
  }

  predicate Fits(m: Value) {
    |Serialize(m)| <= MAX_LENGTH
  }

  ghost predicate PartsFit(m: Value) {
    |m.nickname| <= MAX_LENGTH && (m.room.Some? ==> RoomSummaryMsg.Fits(m.room.value))
  }

  lemma {:induction false} FoldUnknown(m: Value, rs: seq<Record>, depth: nat)
    requires forall i :: 0 <= i < |rs| ==> !Known(rs[i])
    ensures Fold(Step(depth), m, rs) == Some(m.(unknown := m.unknown + rs))
    decreases |rs|
  {
    if rs == [] {
      assert m.unknown + rs == m.unknown;
    } else {
      FoldUnknown(m.(unknown := m.unknown + [rs[0]]), rs[1..], depth);
      assert m.unknown + [rs[0]] + rs[1..] == m.unknown + rs;
    }
  }

  lemma FoldRoom(m: Value, room: Option<Summary>, depth: nat)
    requires depth > 0
    requires room.Some? ==> RoomSummaryMsg.Retained(room.value, depth - 1) && RoomSummaryMsg.Fits(room.value)
    ensures Fold(Step(depth), m, RoomSummaryMsg.OptSummary(2, room))
         == if room.None? then Some(m)
            else if RoomSummaryMsg.TextValid(room.value)
              then Some(m.(room := Some(RoomSummaryMsg.Merge(RoomOf(m), room.value))))
            else None
  {
    hide RoomSummaryMsg.TextValid;
    if room.Some? {
      RoomSummaryMsg.SerializedParts(room.value);
      RoomSummaryMsg.ParseIsMerge(RoomOf(m), room.value, depth - 1);
      FoldOne(Step(depth), m, RoomSummaryMsg.OptSummary(2, room)[0]);
    }
  }

  lemma FoldFields(a: Value, b: Value, depth: nat)
    requires Retained(b, depth) && PartsFit(b)
    ensures Fold(Step(depth), a, Fields(b)) == if TextValid(b) then Some(Merge(a, b)) else None
  {
    hide Fold;
    hide ValidUtf8;
    hide RoomSummaryMsg.TextValid;
    EmptyIsValid();
    EnumRoundTrip(b.kind);
    var step := Step(depth);
    var p := OptVarint(1, SignExtend(b.kind));
    var q := p + RoomSummaryMsg.OptSummary(2, b.room);
    var r := q + OptVarint(3, b.playerId);
    var s := r + OptString(4, b.nickname);
    FoldConcatenation(step, a, s, b.unknown);
    FoldConcatenation(step, a, r, OptString(4, b.nickname));
    FoldConcatenation(step, a, q, OptVarint(3, b.playerId));
    FoldConcatenation(step, a, p, RoomSummaryMsg.OptSummary(2, b.room));
    FoldOne(step, a, Varint(1, SignExtend(b.kind)));
    var x := a.(kind := if b.kind != 0 then b.kind else a.kind);
    FoldRoom(x, b.room, depth);
    var y := if b.room.Some? then x.(room := Some(RoomSummaryMsg.Merge(RoomOf(a), b.room.value))) else x;
    FoldOne(step, y, Varint(3, b.playerId));
    var z := y.(playerId := if b.playerId != 0 then b.playerId else a.playerId);
    FoldOne(step, z, Delimited(4, b.nickname));
    FoldUnknown(z.(nickname := if b.nickname != [] then b.nickname else a.nickname), b.unknown, depth);
  }

  lemma FieldsWellFormed(m: Value, depth: nat)
    requires Retained(m, depth) && PartsFit(m)
    ensures AllWellFormed(Fields(m), depth)
  {
  }

  lemma SerializedParts(m: Value)
    ensures Serialize(m) == EncodeOptVarint(1, SignExtend(m.kind)) + RoomSummaryMsg.EncodeOptSummary(2, m.room)
                          + EncodeOptVarint(3, m.playerId) + EncodeOptString(4, m.nickname) + EncodeRecords(m.unknown)
    ensures Fits(m) ==> PartsFit(m)
  {
    hide EncodeRecords;
    var p := OptVarint(1, SignExtend(m.kind));
    var q := p + RoomSummaryMsg.OptSummary(2, m.room);
    var r := q + OptVarint(3, m.playerId);
    EncodeConcatenation(p, RoomSummaryMsg.OptSummary(2, m.room));
    EncodeConcatenation(q, OptVarint(3, m.playerId));
    EncodeConcatenation(r, OptString(4, m.nickname));
    EncodeConcatenation(r + OptString(4, m.nickname), m.unknown);
    EncodeOptional(1, SignExtend(m.kind), []);
    EncodeOne(Delimited(2, RoomSummaryMsg.Serialize(RoomOf(m))));
    EncodeOptional(3, m.playerId, []);
    EncodeOptional(4, 0, m.nickname);
    DelimitedBytes(4, m.nickname);
    DelimitedBytes(2, RoomSummaryMsg.Serialize(RoomOf(m)));
  }

  /** The sum ByteSizeLong computes: nickname, room, playerId, type, then the retained fields. */
  function ByteSize(m: Value): nat {
    (if m.nickname != [] then 1 + LengthDelimitedSize(|m.nickname|) else 0)
    + (if m.room.Some? then 1 + LengthDelimitedSize(RoomSummaryMsg.ByteSize(m.room.value)) else 0)
    + (if m.playerId != 0 then 1 + VarintSize(m.playerId) else 0)
    + (if m.kind != 0 then 1 + EnumSize(m.kind) else 0)
    + RecordsSize(m.unknown)
  }

  /** The separately written size agrees with the bytes, negative enums and submessage included. */
  lemma ByteSizeIsLength(m: Value, depth: nat)
    requires Retained(m, depth) && PartsFit(m)
    ensures ByteSize(m) == |Serialize(m)|
  {
    hide RecordsSize;
    hide VarintSize;
    hide LengthDelimitedSize;
    FieldsWellFormed(m, depth);
    RecordsSizeIsLength(Fields(m), depth);
    var p := OptVarint(1, SignExtend(m.kind));
    var q := p + RoomSummaryMsg.OptSummary(2, m.room);
    var r := q + OptVarint(3, m.playerId);
    SizeConcatenation(p, RoomSummaryMsg.OptSummary(2, m.room));
    SizeConcatenation(q, OptVarint(3, m.playerId));
    SizeConcatenation(r, OptString(4, m.nickname));
    SizeConcatenation(r + OptString(4, m.nickname), m.unknown);
    EnumRoundTrip(m.kind);
    EnumSizeIsLength(m.kind);
    SizeOptional(1, SignExtend(m.kind), []);
    SizeOptional(3, m.playerId, []);
    SizeOptional(4, 0, m.nickname);
    SizeOfOne(Delimited(2, RoomSummaryMsg.Serialize(RoomOf(m))));
    if m.room.Some? {
      RoomSummaryMsg.SerializedParts(m.room.value);
      RoomSummaryMsg.ByteSizeIsLength(m.room.value, depth - 1);
    }
  }

  // ---------------------------------------------------------------- main results

  lemma ParseIsMerge(a: Value, b: Value, depth: nat)
    requires Retained(b, depth) && Fits(b)
    ensures Parse(Step(depth), a, Serialize(b), depth) == if TextValid(b) then Some(Merge(a, b)) else None
  {
    SerializedParts(b);
    FieldsWellFormed(b, depth);
    ParseOfEncoded(Step(depth), a, Fields(b), depth);
    FoldFields(a, b, depth);
  }

  lemma MergeDefault(m: Value)
    ensures Merge(DEFAULT, m) == m
  {
    assert [] + m.unknown == m.unknown;
    if m.room.Some? {
      RoomSummaryMsg.MergeDefault(m.room.value);
    }
  }

  /** A written event is read back equal, exactly when all of its text is UTF-8. */
  lemma RoundTrip(m: Value, depth: nat)
    requires Retained(m, depth) && Fits(m)
    ensures Parse(Step(depth), DEFAULT, Serialize(m), depth) == if TextValid(m) then Some(m) else None
  {
    ParseIsMerge(DEFAULT, m, depth);
    MergeDefault(m);
  }

  /** Parsing accepted bytes followed by a written event merges the two, submessage included. */
  lemma ConcatenationIsMerge(a: Bytes, b: Value, depth: nat)
    requires Parse(Step(depth), DEFAULT, a, depth).Some? && Retained(b, depth) && Fits(b)
    ensures Parse(Step(depth), DEFAULT, a + Serialize(b), depth)
         == if TextValid(b) then Some(Merge(Parse(Step(depth), DEFAULT, a, depth).value, b)) else None
  {
    ParseConcatenation(Step(depth), DEFAULT, a, Serialize(b), depth);
    ParseIsMerge(Parse(Step(depth), DEFAULT, a, depth).value, b, depth);
  }

  lemma {:induction false} ParsedIsRetained(m: Value, s: Bytes, depth: nat)
    requires Retained(m, depth) && TextValid(m) && Parse(Step(depth), m, s, depth).Some?
    ensures Retained(Parse(Step(depth), m, s, depth).value, depth) && TextValid(Parse(Step(depth), m, s, depth).value)
    decreases |s|
  {
    hide ReadRecord;
    hide ValidUtf8;
    hide RoomSummaryMsg.Retained;
    hide RoomSummaryMsg.TextValid;
    if s != [] {
      var Got(r, n) := ReadRecord(s, depth);
      ReadRecordIsWellFormed(s, depth);
      if r.Delimited? && r.number == 2 {
        RoomSummaryMsg.DefaultIsRetained(depth - 1);
        RoomSummaryMsg.ParsedIsRetained(RoomOf(m), r.data, depth - 1);
      }
      ParsedIsRetained(Apply(m, r, depth).value, s[n..], depth);
    }
  }

  /** Whatever bytes are accepted, writing the result and reading it again changes nothing. */
  lemma Reparse(s: Bytes, depth: nat)
    requires depth > 0 && Parse(Step(depth), DEFAULT, s, depth).Some?
    requires Fits(Parse(Step(depth), DEFAULT, s, depth).value)
    ensures Parse(Step(depth), DEFAULT, Serialize(Parse(Step(depth), DEFAULT, s, depth).value), depth)
         == Parse(Step(depth), DEFAULT, s, depth)
  {
    EmptyIsValid();
    ParsedIsRetained(DEFAULT, s, depth);
    RoundTrip(Parse(Step(depth), DEFAULT, s, depth).value, depth);
  }

  // ---------------------------------------------------------------- the fields on the wire

  /** type, playerId and nickname are fields 1, 3 and 4: what their bytes do, the last one winning. */
  lemma FieldsByKey(m: Value, v: UInt64, data: Bytes, depth: nat)
    requires depth > 0 && |data| <= MAX_LENGTH
    ensures Parse(Step(depth), m, [0x08] + EncodeVarint(v), depth) == Some(m.(kind := Truncate(v)))
    ensures Parse(Step(depth), m, [0x18] + EncodeVarint(v), depth) == Some(m.(playerId := v))
    ensures Parse(Step(depth), m, [0x22] + (EncodeVarint(|data|) + data), depth)
         == if ValidUtf8(data) then Some(m.(nickname := data)) else None
  {
    hide Parse, EncodeVarint;
    ParseNumberBytes(Step(depth), m, 1, v, depth);
    ParseNumberBytes(Step(depth), m, 3, v, depth);
    ParseDataBytes(Step(depth), m, 4, data, depth);
  }

  /** room is field 2: its bytes are read into the room there is. */
  lemma RoomByKey(m: Value, data: Bytes, depth: nat)
    requires depth > 0 && |data| <= MAX_LENGTH
    ensures Parse(Step(depth), m, [0x12] + (EncodeVarint(|data|) + data), depth)
         == match Parse(RoomSummaryMsg.Step, Or(m.room, RoomSummaryMsg.DEFAULT), data, depth - 1) {
              case None => None
              case Some(x) => Some(m.(room := Some(x)))
            }
  {
    hide Parse, EncodeVarint;
    ParseDataBytes(Step(depth), m, 2, data, depth);
  }

  /** Any other record is retained. */
  lemma OthersByKey(m: Value, r: Record, depth: nat)
    requires depth > 0 && WellFormed(r, depth)
    requires !(r.Varint? && (r.number == 1 || r.number == 3)) && !(r.Delimited? && (r.number == 2 || r.number == 4))
    ensures Parse(Step(depth), m, EncodeRecord(r), depth) == Some(m.(unknown := m.unknown + [r]))
  {
    hide Parse, EncodeRecord, WellFormed;
    ParseOne(Step(depth), m, r, depth);
  }

  /** The written bytes, field by field. */
  lemma Layout(m: Value)
    ensures Serialize(m) ==
      (if m.kind != 0 then [0x08] + EncodeVarint(SignExtend(m.kind)) else [])
      + (if m.room.Some?
         then var room := RoomSummaryMsg.Serialize(m.room.value); [0x12] + (EncodeVarint(|room|) + room) else [])
      + (if m.playerId != 0 then [0x18] + EncodeVarint(m.playerId) else [])
      + (if m.nickname != [] then [0x22] + (EncodeVarint(|m.nickname|) + m.nickname) else [])
      + EncodeRecords(m.unknown)
  {
    hide EncodeRecord, EncodeVarint, EncodeRecords, Serialize, RoomSummaryMsg.Serialize;
    SerializedParts(m);
    EnumBytes(m.kind);
    FieldBytes(1, SignExtend(m.kind), []);
    FieldBytes(2, 0, RoomSummaryMsg.Serialize(Or(m.room, RoomSummaryMsg.DEFAULT)));
    FieldBytes(3, m.playerId, []);
    FieldBytes(4, 0, m.nickname);
  }

  // ---------------------------------------------------------------- concatenating any two inputs

  /**
   * A scan of some bytes: the value of each field's last record, if it has one, the scan of all
   * that was written for the room, and what is retained.
   */
  datatype Last = Last(
    kind: Option<Int32>,
    room: Option<RoomSummaryMsg.Last>,
    playerId: Option<UInt64>,
    nickname: Option<Bytes>,
    unknown: seq<Record>)

  const NOTHING := Last(None, None, None, None, [])

  function NoteOne(e: Last, r: Record, depth: nat): Option<Last> {
    if r.Varint? && r.number == 1 then Some(e.(kind := Some(Truncate(r.value))))
    else if r.Delimited? && r.number == 2 then
      if depth == 0 then None
      else
        match Parse(RoomSummaryMsg.Note, Or(e.room, RoomSummaryMsg.NOTHING), r.data, depth - 1)
        case None => None
        case Some(x) => Some(e.(room := Some(x)))
    else if r.Varint? && r.number == 3 then Some(e.(playerId := Some(r.value)))
    else if r.Delimited? && r.number == 4 then
      if ValidUtf8(r.data) then Some(e.(nickname := Some(r.data))) else None
    else Some(e.(unknown := e.unknown + [r]))
  }

  function Note(depth: nat): (Last, Record) -> Option<Last> {
    (e, r) => NoteOne(e, r, depth)
  }

  /** What scanned bytes make of a message. */
  function Over(m: Value, e: Last): Value {
    Value(Or(e.kind, m.kind),
          if e.room.Some? then Some(RoomSummaryMsg.Over(RoomOf(m), e.room.value)) else m.room,
          Or(e.playerId, m.playerId),
          Or(e.nickname, m.nickname),
          m.unknown + e.unknown)
  }

  /** Every field whose last record is an explicit zero or empty value is at its default in `m`. */
  predicate ClearsNothing(e: Last, m: Value) {
    && (e.kind == Some(0) ==> m.kind == 0)
    && (e.room.Some? ==> RoomSummaryMsg.ClearsNothing(e.room.value, RoomOf(m)))
    && (e.playerId == Some(0) ==> m.playerId == 0)
    && (e.nickname == Some([]) ==> m.nickname == [])
  }

  lemma OverNothing(m: Value)
    ensures Over(m, NOTHING) == m
  {
    assert m.unknown + [] == m.unknown;
  }

  lemma ApplyIsOver(m: Value, e: Last, r: Record, depth: nat)
    ensures Apply(Over(m, e), r, depth) == Under(x => Over(m, x), NoteOne(e, r, depth))
  {
    hide Parse, RoomSummaryMsg.Over;
    assert m.unknown + (e.unknown + [r]) == m.unknown + e.unknown + [r];
    if r.Delimited? && depth > 0 {
      RoomSummaryMsg.OverNothing(RoomOf(m));
      RoomSummaryMsg.ParseIsOver(RoomOf(m), Or(e.room, RoomSummaryMsg.NOTHING), r.data, depth - 1);
    }
  }

  lemma OverIsMerge(m: Value, e: Last)
    ensures Over(m, e) == Merge(m, Over(DEFAULT, e)) <==> ClearsNothing(e, m)
  {
    hide RoomSummaryMsg.Over, RoomSummaryMsg.Merge, RoomSummaryMsg.ClearsNothing;
    assert [] + e.unknown == e.unknown;
    if e.room.Some? {
      RoomSummaryMsg.OverIsMerge(RoomOf(m), e.room.value);
    }
  }

  /** Scanning bytes decides what parsing them into any message does. */
  lemma ParseIsOver(m: Value, e: Last, s: Bytes, depth: nat)
    ensures Parse(Step(depth), Over(m, e), s, depth) == Under(x => Over(m, x), Parse(Note(depth), e, s, depth))
  {
    var over := x => Over(m, x);
    forall x: Last, r: Record
      ensures Step(depth)(over(x), r) == Under(over, Note(depth)(x, r))
    {
      ApplyIsOver(m, x, r, depth);
    }
    ParseUnder(Note(depth), Step(depth), over, e, s, depth);
  }

  /** Any two accepted inputs, one behind the other, merge exactly when the second clears nothing. */
  lemma ConcatenationMergesExactlyWhen(a: Bytes, b: Bytes, depth: nat)
    requires Parse(Step(depth), DEFAULT, a, depth).Some? && Parse(Step(depth), DEFAULT, b, depth).Some?
    ensures Parse(Note(depth), NOTHING, b, depth).Some?
    ensures var m, n := Parse(Step(depth), DEFAULT, a, depth).value, Parse(Step(depth), DEFAULT, b, depth).value;
            Parse(Step(depth), DEFAULT, a + b, depth) == Some(Merge(m, n))
            <==> ClearsNothing(Parse(Note(depth), NOTHING, b, depth).value, m)
  {
    hide Parse, Merge, Over, ClearsNothing, Step, Note;
    var m := Parse(Step(depth), DEFAULT, a, depth).value;
    ParseConcatenation(Step(depth), DEFAULT, a, b, depth);
    OverNothing(m);
    OverNothing(DEFAULT);
    ParseIsOver(m, NOTHING, b, depth);
    ParseIsOver(DEFAULT, NOTHING, b, depth);
    OverIsMerge(m, Parse(Note(depth), NOTHING, b, depth).value);
  }

  // ---------------------------------------------------------------- the generated class

  class Message {
    var kind: Int32
    var room: RoomSummaryMsg.Message?
    var playerId: UInt64
    var nickname: Bytes
    var unknown: seq<Record>
    var cachedSize: int

    constructor ()
      ensures View() == DEFAULT && room == null
    {
      kind, room, playerId, nickname, unknown, cachedSize := 0, null, 0, [], [], 0;
    }

    function RoomView(): Option<Summary>
      reads this`room, room
    {
      if room == null then None else Some(room.View())
    }

    function View(): Value
      reads this`kind, this`room, this`playerId, this`nickname, this`unknown, room
    {
      Value(kind, RoomView(), playerId, nickname, unknown)
    }

    /** The cached size of the submessage is its written length. */
    ghost predicate CacheSet()
      reads this`room, room
    {
      room != null ==> room.cachedSize == |RoomSummaryMsg.Serialize(room.View())|
    }

    method Clear()
      modifies this`kind, this`room, this`playerId, this`nickname, this`unknown
      ensures View() == DEFAULT && room == null
    {
      nickname := [];
      room := null;
      playerId := 0;
      kind := 0;
      unknown := [];
    }

    /** The submessage: allocated when absent, otherwise parsed into in place. */
    method ParseRoom(ptr: Bytes, depth: nat) returns (ok: bool, rest: Bytes)
      modifies this`room, room
      ensures |rest| <= |ptr| && (room == old(room) || fresh(room))
      ensures AfterTag(Step(depth), old(View()), 18, ptr, depth)
           == if ok then Parse(Step(depth), View(), rest, depth) else None
    {
      hide ReadField;
      hide Parse;
      var str := ReadString(ptr, 2, depth);
      if str.Bad? {
        return false, [];
      }
      if room == null {
        room := new RoomSummaryMsg.Message();
      }
      if depth == 0 {
        return false, [];
      }
      ok := room.InternalParse(str.value, depth - 1);
      rest := ptr[str.size..];
    }

    /** The two numeric fields; the enum is cut to 32 bits. */
    method ParseNumber(tag: UInt32, ptr: Bytes, depth: nat) returns (ok: bool, rest: Bytes)
      requires tag == 8 || tag == 24
      modifies this`kind, this`playerId
      ensures |rest| <= |ptr|
      ensures AfterTag(Step(depth), old(View()), tag, ptr, depth)
           == if ok then Parse(Step(depth), View(), rest, depth) else None
    {
      hide ReadField;
      hide Parse;
      hide Varint64;
      VarintField(tag / 8, ptr, depth);
      var v := ReadVarint64(ptr);
      if v.Bad? {
        return false, [];
      }
      if tag == 8 {
        kind := Truncate(v.value);
      } else {
        playerId := v.value;
      }
      return true, ptr[v.size..];
    }

    method ParseNickname(ptr: Bytes, depth: nat) returns (ok: bool, rest: Bytes)
      modifies this`nickname
      ensures |rest| <= |ptr|
      ensures AfterTag(Step(depth), old(View()), 34, ptr, depth)
           == if ok then Parse(Step(depth), View(), rest, depth) else None
    {
      hide ReadField;
      hide Parse;
      hide ValidUtf8;
      var str := ReadString(ptr, 4, depth);
      if str.Bad? {
        return false, [];
      }
      nickname, rest := str.value, ptr[str.size..];
      ok := ValidUtf8(nickname);
    }

    /** A record without a case is retained. */
    method ParseUnknown(tag: UInt32, ptr: Bytes, depth: nat) returns (ok: bool, rest: Bytes)
      requires !(tag == 8 || tag == 18 || tag == 24 || tag == 34)
      modifies this`unknown
      ensures |rest| <= |ptr|
      ensures AfterTag(Step(depth), old(View()), tag, ptr, depth)
           == if ok then Parse(Step(depth), View(), rest, depth) else None
    {
      hide Parse;
      var field := ReadField(tag, ptr, depth);
      if field.Bad? {
        return false, [];
      }
      unknown := unknown + [field.value];
      return true, ptr[field.size..];
    }

    /** The tag switch.  After a failure the message holds whatever was set before it. */
    method InternalParse(s: Bytes, depth: nat) returns (ok: bool)
      modifies this`kind, this`room, this`playerId, this`nickname, this`unknown, room
      ensures ok <==> Parse(Step(depth), old(View()), s, depth).Some?
      ensures ok ==> View() == Parse(Step(depth), old(View()), s, depth).value
    {
      hide AfterTag;
      hide Parse;
      hide Tag;
      hide Step;
      ghost var goal := Parse(Step(depth), View(), s, depth);
      var ptr := s;
      while ptr != []
        invariant room == old(room) || fresh(room)
        invariant goal == Parse(Step(depth), View(), ptr, depth)
        decreases |ptr|
      {
        ParseTag(Step(depth), View(), ptr, depth);
        var tag := ReadTag(ptr);
        if tag.Bad? {
          return false;
        }
        ptr := ptr[tag.size..];
        if tag.value / 8 == 1 && tag.value % 256 == 8 {
          ok, ptr := ParseNumber(tag.value, ptr, depth);
        } else if tag.value / 8 == 2 && tag.value % 256 == 18 {
          ok, ptr := ParseRoom(ptr, depth);
        } else if tag.value / 8 == 3 && tag.value % 256 == 24 {
          ok, ptr := ParseNumber(tag.value, ptr, depth);
        } else if tag.value / 8 == 4 && tag.value % 256 == 34 {
          ok, ptr := ParseNickname(ptr, depth);
        } else if tag.value == 0 || tag.value % 8 == END_GROUP {
          return false;
        } else {
          ok, ptr := ParseUnknown(tag.value, ptr, depth);
        }
        if !ok {
          return false;
        }
      }
      ParseEnd(Step(depth), View(), depth);
      return true;
    }

    /** Adds up the size, leaving the submessage's own size cached. */
    method ByteSizeLong(ghost depth: nat) returns (total: nat)
      requires Retained(View(), depth) && Fits(View())
      modifies this`cachedSize, room
      ensures View() == old(View()) && CacheSet()
      ensures total == |Serialize(View())| == cachedSize
    {
      hide RoomSummaryMsg.Serialize;
      hide RoomSummaryMsg.ByteSize;
      hide Serialize;
      hide LengthDelimitedSize;
      hide RecordsSize;
      hide VarintSize;
      hide EnumSize;
      ghost var m := View();
      SerializedParts(m);
      ByteSizeIsLength(m, depth);
      total := 0;
      if nickname != [] {
        total := total + 1 + LengthDelimitedSize(|nickname|);
      }
      if room != null {
        RoomSummaryMsg.SerializedParts(m.room.value);
        RoomSummaryMsg.ByteSizeIsLength(m.room.value, depth - 1);
        var size := room.ByteSizeLong(depth - 1);
        total := total + 1 + LengthDelimitedSize(size);
      }
      if playerId != 0 {
        total := total + 1 + VarintSize(playerId);
      }
      if kind != 0 {
        total := total + 1 + EnumSize(kind);
      }
      total := total + RecordsSize(unknown);
      cachedSize := total;
    }

    /** Fields in number order; the submessage is written behind its cached size. */
    method InternalSerialize(buf: array<Byte>, target: nat, ghost depth: nat) returns (end: nat)
      requires Retained(View(), depth) && Fits(View()) && CacheSet()
      requires target + |Serialize(View())| <= buf.Length
      modifies buf
      ensures end == target + |Serialize(View())|
      ensures Written(old(buf[..]), buf[..], target, Serialize(View()))
    {
      hide EncodeOptVarint;
      hide EncodeOptString;
      hide EncodeRecords;
      hide Written;
      hide RoomSummaryMsg.Serialize;
      hide RoomSummaryMsg.Retained;
      hide Serialize;
      ghost var before, m := buf[..], View();
      SerializedParts(m);
      WrittenNothing(before, target);
      end := WriteOptUInt64(buf, target, 1, SignExtend(kind), before, target, []);
      ghost var done := EncodeOptVarint(1, SignExtend(kind));
      assert [] + done == done;
      if room != null {
        end := RoomSummaryMsg.WriteSummary(buf, end, 2, room, depth - 1, before, target, done);
      } else {
        assert done + [] == done;
      }
      done := done + RoomSummaryMsg.EncodeOptSummary(2, m.room);
      end := WriteOptUInt64(buf, end, 3, playerId, before, target, done);
      done := done + EncodeOptVarint(3, playerId);
      end := WriteOptString(buf, end, 4, nickname, before, target, done);
      done := done + EncodeOptString(4, nickname);
      end := WriteRecords(buf, end, unknown, depth, before, target, done);
    }

    method MergeFrom(from: Message)
      requires from != this && (from.room == null || from.room != room)
      modifies this`kind, this`room, this`playerId, this`nickname, this`unknown, room
      ensures View() == Merge(old(View()), from.View())
    {
      hide RoomSummaryMsg.Merge;
      unknown := unknown + from.unknown;
      if from.nickname != [] {
        nickname := from.nickname;
      }
      if from.room != null {
        if room == null {
          room := new RoomSummaryMsg.Message();
        }
        room.MergeFrom(from.room);
      }
      if from.playerId != 0 {
        playerId := from.playerId;
      }
      if from.kind != 0 {
        kind := from.kind;
      }
    }

    method CopyFrom(from: Message)
      requires from == this || from.room == null || from.room != room
      modifies this`kind, this`room, this`playerId, this`nickname, this`unknown, room
      ensures View() == old(from.View())
    {
      if from == this {
        return;
      }
      Clear();
      MergeFrom(from);
      MergeDefault(from.View());
    }
  }
}
