/** Protocol.RoomSummary: uint64 roomid = 1, string name = 2, uint64 playerCount = 3, uint64 maxPlayers = 4. */
module RoomSummaryMsg {
  import opened Wrappers
  import opened Wire
  import opened Records
  import opened RecordWriter
  import opened Utf8

  datatype Value = Value(roomId: UInt64, name: Bytes, playerCount: UInt64, maxPlayers: UInt64, unknown: seq<Record>)

  const DEFAULT := Value(0, [], 0, 0, [])

  /** The records this parser has a case for. */
  predicate Known(r: Record) {
    (r.Varint? && (r.number == 1 || r.number == 3 || r.number == 4)) || (r.Delimited? && r.number == 2)
  }

  /** What one record does to a message being parsed. */
  function Step(m: Value, r: Record): Option<Value> {
    if r.Varint? && r.number == 1 then Some(m.(roomId := r.value))
    else if r.Delimited? && r.number == 2 then
      if ValidUtf8(r.data) then Some(m.(name := r.data)) else None
    else if r.Varint? && r.number == 3 then Some(m.(playerCount := r.value))
    else if r.Varint? && r.number == 4 then Some(m.(maxPlayers := r.value))
    else Some(m.(unknown := m.unknown + [r]))
  }

  /** The fields in the order they are written. */
  function Fields(m: Value): seq<Record> {
    OptVarint(1, m.roomId) + OptString(2, m.name) + OptVarint(3, m.playerCount) + OptVarint(4, m.maxPlayers) + m.unknown
  }

  function Serialize(m: Value): Bytes {
    EncodeRecords(Fields(m))
  }

  /** Later values win, zero and empty ones are ignored, retained fields accumulate. */
  function Merge(a: Value, b: Value): Value {
    Value(if b.roomId != 0 then b.roomId else a.roomId,
          if b.name != [] then b.name else a.name,
          if b.playerCount != 0 then b.playerCount else a.playerCount,
          if b.maxPlayers != 0 then b.maxPlayers else a.maxPlayers,
          a.unknown + b.unknown)
  }

  /** Retained fields are ones this parser would retain again. */
  ghost predicate Retained(m: Value, depth: nat) {
    AllWellFormed(m.unknown, depth) && forall i :: 0 <= i < |m.unknown| ==> !Known(m.unknown[i])
  }

  predicate TextValid(m: Value) {
    ValidUtf8(m.name)
  }

  /** Within the parser's limit on lengths. */
  predicate Fits(m: Value) {
    |Serialize(m)| <= MAX_LENGTH
  }

  lemma {:induction false} FoldUnknown(m: Value, rs: seq<Record>)
    requires forall i :: 0 <= i < |rs| ==> !Known(rs[i])
    ensures Fold(Step, m, rs) == Some(m.(unknown := m.unknown + rs))
    decreases |rs|
  {
    if rs == [] {
      assert m.unknown + rs == m.unknown;
    } else {
      FoldUnknown(m.(unknown := m.unknown + [rs[0]]), rs[1..]);
      assert m.unknown + [rs[0]] + rs[1..] == m.unknown + rs;
    }
  }

  lemma FoldFields(a: Value, b: Value, depth: nat)
    requires Retained(b, depth)
    ensures Fold(Step, a, Fields(b)) == if TextValid(b) then Some(Merge(a, b)) else None
  {
    hide Fold;
    hide ValidUtf8;
    assert ValidUtf8([]) by {
      EmptyIsValid();
    }
    FoldOne(Step, a, Varint(1, b.roomId));
    var x := a.(roomId := if b.roomId != 0 then b.roomId else a.roomId);
    FoldOne(Step, x, Delimited(2, b.name));
    var y := x.(name := if b.name != [] then b.name else x.name);
    FoldOne(Step, y, Varint(3, b.playerCount));
    var z := y.(playerCount := if b.playerCount != 0 then b.playerCount else y.playerCount);
    FoldOne(Step, z, Varint(4, b.maxPlayers));
    var w := z.(maxPlayers := if b.maxPlayers != 0 then b.maxPlayers else z.maxPlayers);
    var p := OptVarint(1, b.roomId);
    var q := p + OptString(2, b.name);
    var r := q + OptVarint(3, b.playerCount);
    var s := r + OptVarint(4, b.maxPlayers);
    FoldConcatenation(Step, a, p, OptString(2, b.name));
    FoldConcatenation(Step, a, q, OptVarint(3, b.playerCount));
    FoldConcatenation(Step, a, r, OptVarint(4, b.maxPlayers));
    FoldConcatenation(Step, a, s, b.unknown);
    FoldUnknown(w, b.unknown);
  }

  lemma FieldsWellFormed(m: Value, depth: nat)
    requires Retained(m, depth) && |m.name| <= MAX_LENGTH
    ensures AllWellFormed(Fields(m), depth)
  {
  }

  lemma SerializedParts(m: Value)
    ensures Serialize(m)
         == EncodeOptVarint(1, m.roomId) + EncodeOptString(2, m.name) + EncodeOptVarint(3, m.playerCount)
            + EncodeOptVarint(4, m.maxPlayers) + EncodeRecords(m.unknown)
    ensures Fits(m) ==> |m.name| <= MAX_LENGTH
  {
    hide EncodeRecords;
    EncodeOptional(1, m.roomId, []);
    EncodeOptional(2, 0, m.name);
    EncodeOptional(3, m.playerCount, []);
    EncodeOptional(4, m.maxPlayers, []);
    EncodeConcatenation(OptVarint(1, m.roomId), OptString(2, m.name));
    EncodeConcatenation(OptVarint(1, m.roomId) + OptString(2, m.name), OptVarint(3, m.playerCount));
    EncodeConcatenation(
      OptVarint(1, m.roomId) + OptString(2, m.name) + OptVarint(3, m.playerCount), OptVarint(4, m.maxPlayers));
    EncodeConcatenation(
      OptVarint(1, m.roomId) + OptString(2, m.name) + OptVarint(3, m.playerCount) + OptVarint(4, m.maxPlayers),
      m.unknown);
    assert |EncodeRecord(Delimited(2, m.name))| >= |m.name|;
  }

  /** The sum ByteSizeLong computes, in its own order. */
  function ByteSize(m: Value): nat {
    (if m.name != [] then 1 + LengthDelimitedSize(|m.name|) else 0)
    + (if m.roomId != 0 then 1 + VarintSize(m.roomId) else 0)
    + (if m.playerCount != 0 then 1 + VarintSize(m.playerCount) else 0)
    + (if m.maxPlayers != 0 then 1 + VarintSize(m.maxPlayers) else 0)
    + RecordsSize(m.unknown)
  }

  /** The separately written size agrees with the bytes, whatever order it adds the fields in. */
  lemma ByteSizeIsLength(m: Value, depth: nat)
    requires Retained(m, depth) && |m.name| <= MAX_LENGTH
    ensures ByteSize(m) == |Serialize(m)|
  {
    hide RecordsSize;
    FieldsWellFormed(m, depth);
    RecordsSizeIsLength(Fields(m), depth);
    SizeOptional(1, m.roomId, []);
    SizeOptional(2, 0, m.name);
    SizeOptional(3, m.playerCount, []);
    SizeOptional(4, m.maxPlayers, []);
    SizeConcatenation(OptVarint(1, m.roomId), OptString(2, m.name));
    SizeConcatenation(OptVarint(1, m.roomId) + OptString(2, m.name), OptVarint(3, m.playerCount));
    SizeConcatenation(
      OptVarint(1, m.roomId) + OptString(2, m.name) + OptVarint(3, m.playerCount), OptVarint(4, m.maxPlayers));
    SizeConcatenation(
      OptVarint(1, m.roomId) + OptString(2, m.name) + OptVarint(3, m.playerCount) + OptVarint(4, m.maxPlayers),
      m.unknown);
  }

  /** Parsing written bytes into a message is merging; it fails exactly on text that is not UTF-8. */
  lemma ParseIsMerge(a: Value, b: Value, depth: nat)
    requires Retained(b, depth) && |b.name| <= MAX_LENGTH
    ensures Parse(Step, a, Serialize(b), depth) == if TextValid(b) then Some(Merge(a, b)) else None
  {
    FieldsWellFormed(b, depth);
    ParseOfEncoded(Step, a, Fields(b), depth);
    FoldFields(a, b, depth);
  }

  lemma {:induction false} ParsedIsRetained(m: Value, s: Bytes, depth: nat)
    requires Retained(m, depth) && TextValid(m) && Parse(Step, m, s, depth).Some?
    ensures Retained(Parse(Step, m, s, depth).value, depth) && TextValid(Parse(Step, m, s, depth).value)
    decreases |s|
  {
    hide ReadRecord;
    hide ValidUtf8;
    if s != [] {
      var Got(r, n) := ReadRecord(s, depth);
      ReadRecordIsWellFormed(s, depth);
      ParsedIsRetained(Step(m, r).value, s[n..], depth);
    }
  }

  lemma MergeDefault(m: Value)
    ensures Merge(DEFAULT, m) == m
  {
    assert [] + m.unknown == m.unknown;
  }

  lemma DefaultIsRetained(depth: nat)
    ensures Retained(DEFAULT, depth) && TextValid(DEFAULT)
  {
    EmptyIsValid();
  }

  /** A written message is read back equal, exactly when its text is UTF-8. */
  lemma RoundTrip(m: Value, depth: nat)
    requires Retained(m, depth) && Fits(m)
    ensures Parse(Step, DEFAULT, Serialize(m), depth) == if TextValid(m) then Some(m) else None
  {
    SerializedParts(m);
    ParseIsMerge(DEFAULT, m, depth);
    MergeDefault(m);
  }

  /** Parsing accepted bytes followed by a written message merges the two messages. */
  lemma ConcatenationIsMerge(a: Bytes, b: Value, depth: nat)
    requires Parse(Step, DEFAULT, a, depth).Some? && Retained(b, depth) && Fits(b)
    ensures Parse(Step, DEFAULT, a + Serialize(b), depth)
         == if TextValid(b) then Some(Merge(Parse(Step, DEFAULT, a, depth).value, b)) else None
  {
    SerializedParts(b);
    ParseConcatenation(Step, DEFAULT, a, Serialize(b), depth);
    ParseIsMerge(Parse(Step, DEFAULT, a, depth).value, b, depth);
  }

  // ---------------------------------------------------------------- the fields on the wire

  /** Fields 1 to 4 in the order of the message: what their bytes do, the last one winning. */
  lemma FieldsByKey(m: Value, v: UInt64, text: Bytes, r: Record, depth: nat)
    requires |text| <= MAX_LENGTH && WellFormed(r, depth)
    requires !(r.Varint? && (r.number == 1 || r.number == 3 || r.number == 4)) && !(r.Delimited? && r.number == 2)
    ensures Parse(Step, m, [0x08] + EncodeVarint(v), depth) == Some(m.(roomId := v))
    ensures Parse(Step, m, [0x12] + (EncodeVarint(|text|) + text), depth)
         == if ValidUtf8(text) then Some(m.(name := text)) else None
    ensures Parse(Step, m, [0x18] + EncodeVarint(v), depth) == Some(m.(playerCount := v))
    ensures Parse(Step, m, [0x20] + EncodeVarint(v), depth) == Some(m.(maxPlayers := v))
    ensures Parse(Step, m, EncodeRecord(r), depth) == Some(m.(unknown := m.unknown + [r]))
  {
    hide Parse, EncodeRecord, EncodeVarint;
    ParseNumberBytes(Step, m, 1, v, depth);
    ParseDataBytes(Step, m, 2, text, depth);
    ParseNumberBytes(Step, m, 3, v, depth);
    ParseNumberBytes(Step, m, 4, v, depth);
    ParseOne(Step, m, r, depth);
  }

  /** The written bytes, field by field. */
  lemma Layout(m: Value)
    ensures Serialize(m) ==
      (if m.roomId != 0 then [0x08] + EncodeVarint(m.roomId) else [])
      + (if m.name != [] then [0x12] + (EncodeVarint(|m.name|) + m.name) else [])
      + (if m.playerCount != 0 then [0x18] + EncodeVarint(m.playerCount) else [])
      + (if m.maxPlayers != 0 then [0x20] + EncodeVarint(m.maxPlayers) else [])
      + EncodeRecords(m.unknown)
  {
    hide EncodeRecord, EncodeVarint, EncodeRecords, Serialize;
    SerializedParts(m);
    FieldBytes(1, m.roomId, []);
    FieldBytes(2, 0, m.name);
    FieldBytes(3, m.playerCount, []);
    FieldBytes(4, m.maxPlayers, []);
  }

  // ---------------------------------------------------------------- concatenating any two inputs

  /** A scan of some bytes: the value of each field's last record, if it has one, and what is retained. */
  datatype Last = Last(
    roomId: Option<UInt64>,
    name: Option<Bytes>,
    playerCount: Option<UInt64>,
    maxPlayers: Option<UInt64>,
    unknown: seq<Record>)

  const NOTHING := Last(None, None, None, None, [])

  function Note(e: Last, r: Record): Option<Last> {
    if r.Varint? && r.number == 1 then Some(e.(roomId := Some(r.value)))
    else if r.Delimited? && r.number == 2 then
      if ValidUtf8(r.data) then Some(e.(name := Some(r.data))) else None
    else if r.Varint? && r.number == 3 then Some(e.(playerCount := Some(r.value)))
    else if r.Varint? && r.number == 4 then Some(e.(maxPlayers := Some(r.value)))
    else Some(e.(unknown := e.unknown + [r]))
  }

  /** What scanned bytes make of a message. */
  function Over(m: Value, e: Last): Value {
    Value(Or(e.roomId, m.roomId), Or(e.name, m.name), Or(e.playerCount, m.playerCount),
          Or(e.maxPlayers, m.maxPlayers), m.unknown + e.unknown)
  }

  /** Every field whose last record is an explicit zero or empty value is at its default in `m`. */
  predicate ClearsNothing(e: Last, m: Value) {
    && (e.roomId == Some(0) ==> m.roomId == 0)
    && (e.name == Some([]) ==> m.name == [])
    && (e.playerCount == Some(0) ==> m.playerCount == 0)
    && (e.maxPlayers == Some(0) ==> m.maxPlayers == 0)
  }

  lemma OverNothing(m: Value)
    ensures Over(m, NOTHING) == m
  {
    assert m.unknown + [] == m.unknown;
  }

  /** Scanning bytes decides what parsing them into any message does. */
  lemma ParseIsOver(m: Value, e: Last, s: Bytes, depth: nat)
    ensures Parse(Step, Over(m, e), s, depth) == Under(x => Over(m, x), Parse(Note, e, s, depth))
  {
    var over := x => Over(m, x);
    forall x: Last, r: Record
      ensures Step(over(x), r) == Under(over, Note(x, r))
    {
      assert m.unknown + (x.unknown + [r]) == m.unknown + x.unknown + [r];
    }
    ParseUnder(Note, Step, over, e, s, depth);
  }

  lemma OverIsMerge(m: Value, e: Last)
    ensures Over(m, e) == Merge(m, Over(DEFAULT, e)) <==> ClearsNothing(e, m)
  {
    assert [] + e.unknown == e.unknown;
  }

  /**
   * For any two accepted inputs: parsing one behind the other merges the two messages exactly when
   * every field whose last record in the second is an explicit zero or empty value is still at its
   * default behind the first.
   */
  lemma ConcatenationMergesExactlyWhen(a: Bytes, b: Bytes, depth: nat)
    requires Parse(Step, DEFAULT, a, depth).Some? && Parse(Step, DEFAULT, b, depth).Some?
    ensures Parse(Note, NOTHING, b, depth).Some?
    ensures var m, n := Parse(Step, DEFAULT, a, depth).value, Parse(Step, DEFAULT, b, depth).value;
            Parse(Step, DEFAULT, a + b, depth) == Some(Merge(m, n))
            <==> ClearsNothing(Parse(Note, NOTHING, b, depth).value, m)
  {
    hide Parse, Merge, Over, ClearsNothing;
    var m := Parse(Step, DEFAULT, a, depth).value;
    ParseConcatenation(Step, DEFAULT, a, b, depth);
    OverNothing(m);
    OverNothing(DEFAULT);
    ParseIsOver(m, NOTHING, b, depth);
    ParseIsOver(DEFAULT, NOTHING, b, depth);
    OverIsMerge(m, Parse(Note, NOTHING, b, depth).value);
  }

  /**
   * An input that fails: an explicitly encoded zero parses to the default message, which merges as
   * nothing, yet behind other bytes it sets the field back.
   */
  lemma ExplicitZeroOverwrites(a: Bytes, depth: nat)
    requires Parse(Step, DEFAULT, a, depth).Some?
    ensures var m, zero := Parse(Step, DEFAULT, a, depth).value, EncodeRecord(Varint(1, 0));
            && Parse(Step, DEFAULT, zero, depth) == Some(DEFAULT)
            && Parse(Step, DEFAULT, a + zero, depth) == Some(m.(roomId := 0))
            && (Parse(Step, DEFAULT, a + zero, depth) == Some(Merge(m, DEFAULT)) <==> m.roomId == 0)
  {
    hide ReadRecord;
    var m, r := Parse(Step, DEFAULT, a, depth).value, Varint(1, 0);
    ParseConcatenation(Step, DEFAULT, a, EncodeRecord(r), depth);
    EncodeOne(r);
    ParseOfEncoded(Step, m, [r], depth);
    ParseOfEncoded(Step, DEFAULT, [r], depth);
    FoldOne(Step, m, r);
    FoldOne(Step, DEFAULT, r);
    assert m.unknown + [] == m.unknown;
  }

  /** The generated class: fields updated in place, sizes cached. */
  class Message {
    var roomId: UInt64
    var name: Bytes
    var playerCount: UInt64
    var maxPlayers: UInt64
    var unknown: seq<Record>
    var cachedSize: int

    constructor ()
      ensures View() == DEFAULT
    {
      roomId, name, playerCount, maxPlayers, unknown, cachedSize := 0, [], 0, 0, [], 0;
    }

    function View(): Value
      reads this`roomId, this`name, this`playerCount, this`maxPlayers, this`unknown
    {
      Value(roomId, name, playerCount, maxPlayers, unknown)
    }

    method Clear()
      modifies this`roomId, this`name, this`playerCount, this`maxPlayers, this`unknown
      ensures View() == DEFAULT
    {
      name := [];
      roomId := 0;
      playerCount := 0;
      maxPlayers := 0;
      unknown := [];
    }

    /** The tag switch.  After a failure the message holds whatever was set before it. */
    method InternalParse(s: Bytes, depth: nat) returns (ok: bool)
      modifies this`roomId, this`name, this`playerCount, this`maxPlayers, this`unknown
      ensures ok <==> Parse(Step, old(View()), s, depth).Some?
      ensures ok ==> View() == Parse(Step, old(View()), s, depth).value
    {
      hide Parse;
      hide ReadField;
      hide Tag;
      hide Varint64;
      hide ValidUtf8;
      var ptr := s;
      while ptr != []
        invariant Parse(Step, old(View()), s, depth) == Parse(Step, View(), ptr, depth)
        decreases |ptr|
      {
        ParseTag(Step, View(), ptr, depth);
        var tag := ReadTag(ptr);
        if tag.Bad? {
          return false;
        }
        ptr := ptr[tag.size..];
        if tag.value / 8 == 1 && tag.value % 256 == 8 {
          VarintField(1, ptr, depth);
          var v := ReadVarint64(ptr);
          if v.Bad? {
            return false;
          }
          roomId, ptr := v.value, ptr[v.size..];
        } else if tag.value / 8 == 2 && tag.value % 256 == 18 {
          var str := ReadString(ptr, 2, depth);
          if str.Bad? {
            return false;
          }
          name, ptr := str.value, ptr[str.size..];
          if !ValidUtf8(name) {
            return false;
          }
        } else if tag.value / 8 == 3 && tag.value % 256 == 24 {
          VarintField(3, ptr, depth);
          var v := ReadVarint64(ptr);
          if v.Bad? {
            return false;
          }
          playerCount, ptr := v.value, ptr[v.size..];
        } else if tag.value / 8 == 4 && tag.value % 256 == 32 {
          VarintField(4, ptr, depth);
          var v := ReadVarint64(ptr);
          if v.Bad? {
            return false;
          }
          maxPlayers, ptr := v.value, ptr[v.size..];
        } else if tag.value == 0 || tag.value % 8 == END_GROUP {
          return false;
        } else {
          var field := ReadField(tag.value, ptr, depth);
          if field.Bad? {
            return false;
          }
          unknown, ptr := unknown + [field.value], ptr[field.size..];
        }
      }
      ParseEnd(Step, View(), depth);
      return true;
    }

    /** Add up the size and remember it. */
    method ByteSizeLong(ghost depth: nat) returns (total: nat)
      requires Retained(View(), depth) && Fits(View())
      modifies this`cachedSize
      ensures total == |Serialize(View())| == cachedSize
    {
      total := 0;
      if name != [] {
        total := total + 1 + LengthDelimitedSize(|name|);
      }
      if roomId != 0 {
        total := total + 1 + VarintSize(roomId);
      }
      if playerCount != 0 {
        total := total + 1 + VarintSize(playerCount);
      }
      if maxPlayers != 0 {
        total := total + 1 + VarintSize(maxPlayers);
      }
      total := total + RecordsSize(unknown);
      SerializedParts(View());
      ByteSizeIsLength(View(), depth);
      cachedSize := total;
    }

    /** Write the fields in number order, then the retained ones. */
    method InternalSerialize(buf: array<Byte>, target: nat, ghost depth: nat) returns (end: nat)
      requires Retained(View(), depth) && Fits(View())
      requires target + |Serialize(View())| <= buf.Length
      modifies buf
      ensures end == target + |Serialize(View())|
      ensures Written(old(buf[..]), buf[..], target, Serialize(View()))
    {
      hide EncodeOptVarint;
      hide EncodeOptString;
      hide EncodeRecords;
      ghost var before := buf[..];
      SerializedParts(View());
      WrittenNothing(before, target);
      end := WriteOptUInt64(buf, target, 1, roomId, before, target, []);
      ghost var done := EncodeOptVarint(1, roomId);
      assert [] + done == done;
      end := WriteOptString(buf, end, 2, name, before, target, done);
      done := done + EncodeOptString(2, name);
      end := WriteOptUInt64(buf, end, 3, playerCount, before, target, done);
      done := done + EncodeOptVarint(3, playerCount);
      end := WriteOptUInt64(buf, end, 4, maxPlayers, before, target, done);
      done := done + EncodeOptVarint(4, maxPlayers);
      end := WriteRecords(buf, end, unknown, depth, before, target, done);
    }

    method MergeFrom(from: Message)
      requires from != this
      modifies this`roomId, this`name, this`playerCount, this`maxPlayers, this`unknown
      ensures View() == Merge(old(View()), from.View())
    {
      unknown := unknown + from.unknown;
      if from.name != [] {
        name := from.name;
      }
      if from.roomId != 0 {
        roomId := from.roomId;
      }
      if from.playerCount != 0 {
        playerCount := from.playerCount;
      }
      if from.maxPlayers != 0 {
        maxPlayers := from.maxPlayers;
      }
    }

    method CopyFrom(from: Message)
      modifies this`roomId, this`name, this`playerCount, this`maxPlayers, this`unknown
      ensures View() == old(from.View())
    {
      if from == this {
        return;
      }
      Clear();
      MergeFrom(from);
    }
  }

  // ---------------------------------------------------------------- as a submessage

  /** A present submessage is one length-delimited record, even when all its fields are defaults. */
  function OptSummary(number: FieldNumber, m: Option<Value>): seq<Record> {
    if m.Some? then [Delimited(number, Serialize(m.value))] else []
  }

  function EncodeOptSummary(number: FieldNumber, m: Option<Value>): Bytes {
    if m.Some? then EncodeRecord(Delimited(number, Serialize(m.value))) else []
  }

  /** InternalWriteMessage for the summary: tag, cached size, message. */
  method WriteSummary(buf: array<Byte>, target: nat, number: FieldNumber, info: Message, ghost depth: nat,
                      ghost before: Bytes, ghost start: nat, ghost done: Bytes)
    returns (end: nat)
    requires Written(before, buf[..], start, done) && target == start + |done|
    requires Retained(info.View(), depth) && Fits(info.View())
    requires info.cachedSize == |Serialize(info.View())|
    requires target + |EncodeOptSummary(number, Some(info.View()))| <= buf.Length
    modifies buf
    ensures end == target + |EncodeOptSummary(number, Some(info.View()))|
    ensures Written(before, buf[..], start, done + EncodeOptSummary(number, Some(info.View())))
  {
    hide EncodeVarint;
    hide EncodeRecord;
    hide Written;
    hide Serialize;
    ghost var body := Serialize(info.View());
    ghost var prefix := EncodeVarint(MakeTag(number, DELIMITED)) + EncodeVarint(|body|);
    DelimitedBytes(number, body);
    end := WriteLengthPrefix(buf, target, number, info.cachedSize, before, start, done);
    ghost var was := buf[..];
    end := info.InternalSerialize(buf, end, depth);
    WrittenThen(before, was, buf[..], start, done + prefix, body);
    assert done + prefix + body == done + EncodeOptSummary(number, Some(info.View()));
  }
}
