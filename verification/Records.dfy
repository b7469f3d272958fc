/**
 * Tagged records: the fields of a message as they lie on the wire.
 *
 * A record is one tag with its payload (the "Message Structure" section of the Protocol Buffers
 * "Encoding" document).  Records serve twice: they are the retained unknown fields of a message,
 * and they are the steps in which every generated parser consumes its input.
 */
module Records {
  import opened Wrappers
  import opened Wire

  /** What a 32-bit tag can hold above its three wire type bits. */
  type FieldNumber = n: int | 1 <= n <= 0x1FFF_FFFF witness 1

  datatype Record =
    | Varint(number: FieldNumber, value: UInt64)
    | Fixed64(number: FieldNumber, raw: Bytes)
    | Delimited(number: FieldNumber, data: Bytes)
    | Group(number: FieldNumber, fields: seq<Record>)
    | Fixed32(number: FieldNumber, raw: Bytes)

  const VARINT := 0
  const FIXED64 := 1
  const DELIMITED := 2
  const START_GROUP := 3
  const END_GROUP := 4
  const FIXED32 := 5

  function WireType(r: Record): (w: nat)
    ensures w < 8
  {
    match r
    case Varint(_, _) => VARINT
    case Fixed64(_, _) => FIXED64
    case Delimited(_, _) => DELIMITED
    case Group(_, _) => START_GROUP
    case Fixed32(_, _) => FIXED32
  }

  /** A record the parser can produce with `depth` nested groups left. */
  ghost predicate WellFormed(r: Record, depth: nat)
    decreases r
  {
    match r
    case Varint(_, _) => true
    case Fixed64(_, raw) => |raw| == 8
    case Delimited(_, data) => |data| <= MAX_LENGTH
    case Group(_, fields) => depth > 0 && forall i :: 0 <= i < |fields| ==> WellFormed(fields[i], depth - 1)
    case Fixed32(_, raw) => |raw| == 4
  }

  ghost predicate AllWellFormed(rs: seq<Record>, depth: nat) {
    forall i :: 0 <= i < |rs| ==> WellFormed(rs[i], depth)
  }

  // ---------------------------------------------------------------- writing

  function MakeTag(number: FieldNumber, wireType: nat): (tag: UInt32)
    requires wireType < 8
    ensures tag / 8 == number && tag % 8 == wireType
  {
    number * 8 + wireType
  }

  function TagOf(r: Record): UInt32 {
    MakeTag(r.number, WireType(r))
  }

  function EncodeBody(r: Record): Bytes
    decreases r, 0
  {
    match r
    case Varint(_, value) => EncodeVarint(value)
    case Fixed64(_, raw) => raw
    case Delimited(_, data) => EncodeVarint(|data|) + data
    case Group(number, fields) => EncodeRecords(fields) + EncodeVarint(MakeTag(number, END_GROUP))
    case Fixed32(_, raw) => raw
  }

  function EncodeRecord(r: Record): Bytes
    decreases r, 1
  {
    EncodeVarint(TagOf(r)) + EncodeBody(r)
  }

  /** WireFormat::InternalSerializeUnknownFieldsToArray. */
  function EncodeRecords(rs: seq<Record>): Bytes
    decreases rs
  {
    if rs == [] then [] else EncodeRecord(rs[0]) + EncodeRecords(rs[1..])
  }

  // ---------------------------------------------------------------- reading

  /** FieldParser: the payload that follows `tag`. */
  function ReadField(tag: UInt32, s: Bytes, depth: nat): (r: Read<Record>)
    ensures r.Got? ==> 1 <= r.size <= |s| && TagOf(r.value) == tag
    decreases |s|, 2
  {
    var number := tag / 8;
    if number == 0 then Bad
    else if tag % 8 == VARINT then
      match Varint64(s)
      case Bad => Bad
      case Got(v, n) => Got(Varint(number, v), n)
    else if tag % 8 == FIXED64 then
      if |s| < 8 then Bad else Got(Fixed64(number, s[..8]), 8)
    else if tag % 8 == DELIMITED then
      match Length(s)
      case Bad => Bad
      case Got(size, n) => if |s| - n < size then Bad else Got(Delimited(number, s[n..n + size]), n + size)
    else if tag % 8 == START_GROUP then
      if depth == 0 then Bad
      else
        match ReadGroup(s, number, depth - 1)
        case Bad => Bad
        case Got(fields, n) => Got(Group(number, fields), n)
    else if tag % 8 == FIXED32 then
      if |s| < 4 then Bad else Got(Fixed32(number, s[..4]), 4)
    else Bad
  }

  /** The records of a group up to its own end tag; any other end tag is a failure. */
  function ReadGroup(s: Bytes, number: FieldNumber, depth: nat): (r: Read<seq<Record>>)
    ensures r.Got? ==> 1 <= r.size <= |s|
    decreases |s|, 1
  {
    match Tag(s)
    case Bad => Bad
    case Got(tag, k) =>
      if tag == MakeTag(number, END_GROUP) then Got([], k)
      else
        match ReadRecord(s, depth)
        case Bad => Bad
        case Got(field, n) =>
          match ReadGroup(s[n..], number, depth)
          case Bad => Bad
          case Got(fields, m) => Got([field] + fields, n + m)
  }

  /** A tag and its payload; a zero tag and a stray end-group tag end the parse as failures. */
  function ReadRecord(s: Bytes, depth: nat): (r: Read<Record>)
    ensures r.Got? ==> 1 <= r.size <= |s|
    decreases |s|, 0
  {
    match Tag(s)
    case Bad => Bad
    case Got(tag, k) =>
      if tag == 0 || tag % 8 == END_GROUP then Bad
      else
        match ReadField(tag, s[k..], depth)
        case Bad => Bad
        case Got(r, n) => Got(r, k + n)
  }

  /** Consume the whole input record by record, applying each to the message so far. */
  function Parse<M>(step: (M, Record) -> Option<M>, m: M, s: Bytes, depth: nat): Option<M>
    decreases |s|
  {
    if s == [] then Some(m)
    else
      match ReadRecord(s, depth)
      case Bad => None
      case Got(r, n) =>
        match step(m, r)
        case None => None
        case Some(next) => Parse(step, next, s[n..], depth)
  }

  /** The parse from just behind a tag. */
  function AfterTag<M>(step: (M, Record) -> Option<M>, m: M, tag: UInt32, p: Bytes, depth: nat): Option<M> {
    match ReadField(tag, p, depth)
    case Bad => None
    case Got(r, n) =>
      match step(m, r)
      case None => None
      case Some(next) => Parse(step, next, p[n..], depth)
  }

  /** Reading a tag either ends the parse as a failure or goes on behind the tag. */
  lemma ParseTag<M>(step: (M, Record) -> Option<M>, m: M, s: Bytes, depth: nat)
    requires s != []
    ensures Parse(step, m, s, depth) ==
            match Tag(s)
            case Bad => None
            case Got(tag, k) =>
              if tag == 0 || tag % 8 == END_GROUP then None else AfterTag(step, m, tag, s[k..], depth)
  {
    hide ReadField;
    hide Tag;
    if Tag(s).Got? {
      var Got(tag, k) := Tag(s);
      var f := ReadField(tag, s[k..], depth);
      if f.Got? {
        assert s[k..][f.size..] == s[k + f.size..];
      }
    }
  }

  lemma ParseEnd<M>(step: (M, Record) -> Option<M>, m: M, depth: nat)
    ensures Parse(step, m, [], depth) == Some(m)
  {
  }

  /** ExpectTag compares one byte: a byte below 128 is a whole tag. */
  lemma OneByteTag(s: Bytes)
    requires s != [] && s[0] < 128
    ensures Tag(s) == Got(s[0] as int, 1)
  {
    FirstByte(s);
  }

  lemma VarintField(number: FieldNumber, p: Bytes, depth: nat)
    ensures ReadField(MakeTag(number, VARINT), p, depth) ==
            match Varint64(p) { case Bad => Bad case Got(v, n) => Got(Varint(number, v), n) }
  {
  }

  /** InlineGreedyStringParser: a length and that many bytes. */
  method ReadString(p: Bytes, ghost number: FieldNumber, ghost depth: nat) returns (r: Read<Bytes>)
    ensures ReadField(MakeTag(number, DELIMITED), p, depth) ==
            match r { case Bad => Bad case Got(data, n) => Got(Delimited(number, data), n) }
    ensures r.Got? ==> 1 <= r.size <= |p|
  {
    var size := ReadSize(p);
    if size.Bad? || |p| - size.size < size.value {
      return Bad;
    }
    return Got(p[size.size..size.size + size.value], size.size + size.value);
  }

  /** Apply records that are already decoded. */
  function Fold<M>(step: (M, Record) -> Option<M>, m: M, rs: seq<Record>): Option<M>
    decreases |rs|
  {
    if rs == [] then Some(m)
    else
      match step(m, rs[0])
      case None => None
      case Some(next) => Fold(step, next, rs[1..])
  }

  // ---------------------------------------------------------------- reading ignores what follows

  lemma {:induction false} ReadFieldIgnoresSuffix(tag: UInt32, s: Bytes, t: Bytes, depth: nat)
    requires ReadField(tag, s, depth).Got?
    ensures ReadField(tag, s + t, depth) == ReadField(tag, s, depth)
    decreases |s|, 2
  {
    hide Varint64, Length, ReadGroup;
    PrimitivesIgnoreSuffix(s, t);
    var wire := tag % 8;
    if wire == FIXED64 {
      assert (s + t)[..8] == s[..8];
    } else if wire == DELIMITED {
      var Got(size, n) := Length(s);
      assert (s + t)[n..n + size] == s[n..n + size];
    } else if wire == START_GROUP {
      ReadGroupIgnoresSuffix(s, t, tag / 8, depth - 1);
    } else if wire == FIXED32 {
      assert (s + t)[..4] == s[..4];
    }
  }

  lemma {:induction false} ReadGroupIgnoresSuffix(s: Bytes, t: Bytes, number: FieldNumber, depth: nat)
    requires ReadGroup(s, number, depth).Got?
    ensures ReadGroup(s + t, number, depth) == ReadGroup(s, number, depth)
    decreases |s|, 1
  {
    hide Tag, ReadRecord;
    PrimitivesIgnoreSuffix(s, t);
    if Tag(s).value != MakeTag(number, END_GROUP) {
      var n := ReadRecord(s, depth).size;
      ReadRecordIgnoresSuffix(s, t, depth);
      assert (s + t)[n..] == s[n..] + t;
      ReadGroupIgnoresSuffix(s[n..], t, number, depth);
    }
  }

  lemma {:induction false} ReadRecordIgnoresSuffix(s: Bytes, t: Bytes, depth: nat)
    requires ReadRecord(s, depth).Got?
    ensures ReadRecord(s + t, depth) == ReadRecord(s, depth)
    decreases |s|, 0
  {
    hide Tag, ReadField;
    PrimitivesIgnoreSuffix(s, t);
    var Got(tag, k) := Tag(s);
    assert (s + t)[k..] == s[k..] + t;
    ReadFieldIgnoresSuffix(tag, s[k..], t, depth);
  }

  /** Parsing a concatenation continues the parse of its first part. */
  lemma {:induction false} ParseConcatenation<M>(step: (M, Record) -> Option<M>, m: M, a: Bytes, b: Bytes, depth: nat)
    requires Parse(step, m, a, depth).Some?
    ensures Parse(step, m, a + b, depth) == Parse(step, Parse(step, m, a, depth).value, b, depth)
    decreases |a|
  {
    hide ReadRecord;
    if a == [] {
      assert a + b == b;
    } else {
      var Got(r, n) := ReadRecord(a, depth);
      ReadRecordIgnoresSuffix(a, b, depth);
      assert (a + b)[n..] == a[n..] + b;
      ParseConcatenation(step, step(m, r).value, a[n..], b, depth);
    }
  }

  /** What becomes of a result under `over`. */
  function Under<E, M>(over: E -> M, e: Option<E>): Option<M> {
    match e
    case None => None
    case Some(x) => Some(over(x))
  }

  /**
   * When every single record acts on `over(e)` as `note` acts on `e`, so does every input: the
   * bytes can be scanned first, and what they do applied to a message afterwards.
   */
  lemma {:induction false} ParseUnder<E(!new), M>(
      note: (E, Record) -> Option<E>, step: (M, Record) -> Option<M>, over: E -> M, e: E, s: Bytes, depth: nat)
    requires forall x: E, r: Record :: step(over(x), r) == Under(over, note(x, r))
    ensures Parse(step, over(e), s, depth) == Under(over, Parse(note, e, s, depth))
    decreases |s|
  {
    hide ReadRecord;
    if s != [] && ReadRecord(s, depth).Got? {
      var Got(r, n) := ReadRecord(s, depth);
      if note(e, r).Some? {
        ParseUnder(note, step, over, note(e, r).value, s[n..], depth);
      }
    }
  }

  // ---------------------------------------------------------------- round trips

  lemma {:induction false} FieldRoundTrip(r: Record, t: Bytes, depth: nat)
    requires WellFormed(r, depth)
    ensures ReadField(TagOf(r), EncodeBody(r) + t, depth) == Got(r, |EncodeBody(r)|)
    decreases r, 1
  {
    hide Varint64, Length, EncodeVarint, EncodeRecords, ReadGroup;
    var s := EncodeBody(r) + t;
    match r
    case Varint(number, value) =>
      Varint64RoundTrip(value, t);
    case Fixed64(number, raw) =>
      assert s[..8] == raw;
    case Delimited(number, data) =>
      assert s == EncodeVarint(|data|) + (data + t);
      LengthRoundTrip(|data|, data + t);
      var n := |EncodeVarint(|data|)|;
      assert s[n..n + |data|] == data;
    case Group(number, fields) =>
      GroupRoundTrip(fields, number, t, depth - 1);
    case Fixed32(number, raw) =>
      assert s[..4] == raw;
  }

  lemma SplitFirst(rs: seq<Record>, t: Bytes)
    requires rs != []
    ensures EncodeRecords(rs) + t == EncodeRecord(rs[0]) + (EncodeRecords(rs[1..]) + t)
    ensures (EncodeRecords(rs) + t)[|EncodeRecord(rs[0])|..] == EncodeRecords(rs[1..]) + t
    ensures rs == [rs[0]] + rs[1..]
  {
  }

  lemma {:induction false} GroupRoundTrip(fields: seq<Record>, number: FieldNumber, t: Bytes, depth: nat)
    requires AllWellFormed(fields, depth)
    ensures ReadGroup(EncodeRecords(fields) + EncodeVarint(MakeTag(number, END_GROUP)) + t, number, depth)
         == Got(fields, |EncodeRecords(fields)| + |EncodeVarint(MakeTag(number, END_GROUP))|)
    decreases fields, 3
  {
    hide Tag, ReadRecord, EncodeVarint, EncodeRecord, WellFormed;
    var close := EncodeVarint(MakeTag(number, END_GROUP));
    if fields == [] {
      assert EncodeRecords(fields) + close + t == close + t;
      TagRoundTrip(MakeTag(number, END_GROUP), t);
    } else {
      var rest := EncodeRecords(fields[1..]) + close + t;
      var s, n := EncodeRecords(fields) + close + t, |EncodeRecord(fields[0])|;
      SplitFirst(fields, close + t);
      assert s == EncodeRecords(fields) + (close + t) && rest == EncodeRecords(fields[1..]) + (close + t);
      RecordRoundTrip(fields[0], rest, depth);
      GroupRoundTrip(fields[1..], number, t, depth);
    }
  }

  lemma {:induction false} RecordRoundTrip(r: Record, t: Bytes, depth: nat)
    requires WellFormed(r, depth)
    ensures ReadRecord(EncodeRecord(r) + t, depth) == Got(r, |EncodeRecord(r)|)
    ensures Tag(EncodeRecord(r) + t) == Got(TagOf(r), |EncodeVarint(TagOf(r))|)
    decreases r, 2
  {
    hide Tag, ReadField, EncodeVarint, EncodeBody, WellFormed;
    var k := |EncodeVarint(TagOf(r))|;
    assert EncodeRecord(r) + t == EncodeVarint(TagOf(r)) + (EncodeBody(r) + t);
    TagRoundTrip(TagOf(r), EncodeBody(r) + t);
    assert (EncodeRecord(r) + t)[k..] == EncodeBody(r) + t;
    FieldRoundTrip(r, t, depth);
  }

  /** The keys of the Encoding specification, section "Message Structure": field 1 of every wire type. */
  lemma KeyBytes(value: UInt64, raw: Bytes)
    ensures EncodeRecord(Varint(1, value)) == [0x08] + EncodeVarint(value)
    ensures EncodeRecord(Fixed64(1, raw)) == [0x09] + raw
    ensures EncodeRecord(Delimited(1, raw)) == [0x0A] + (EncodeVarint(|raw|) + raw)
    ensures EncodeRecord(Group(1, [])) == [0x0B, 0x0C]
    ensures EncodeRecord(Fixed32(1, raw)) == [0x0D] + raw
  {
    assert EncodeRecords([]) + EncodeVarint(MakeTag(1, END_GROUP)) == [0x0C];
  }

  /** The bytes of a number or a length-delimited field below 16, from the key on. */
  lemma FieldBytes(number: FieldNumber, value: UInt64, data: Bytes)
    requires number <= 15
    ensures EncodeRecord(Varint(number, value)) == [(8 * number) as Byte] + EncodeVarint(value)
    ensures EncodeRecord(Delimited(number, data)) == [(8 * number + 2) as Byte] + (EncodeVarint(|data|) + data)
  {
  }

  /** Parsing the bytes of one record is one step. */
  lemma ParseOne<M>(step: (M, Record) -> Option<M>, m: M, r: Record, depth: nat)
    requires WellFormed(r, depth)
    ensures Parse(step, m, EncodeRecord(r), depth) == step(m, r)
  {
    hide EncodeRecord, Parse, Fold, WellFormed;
    EncodeOne(r);
    ParseOfEncoded(step, m, [r], depth);
    FoldOne(step, m, r);
  }

  lemma ParseNumberBytes<M>(step: (M, Record) -> Option<M>, m: M, number: FieldNumber, value: UInt64, depth: nat)
    requires number <= 15
    ensures Parse(step, m, [(8 * number) as Byte] + EncodeVarint(value), depth) == step(m, Varint(number, value))
  {
    hide Parse, EncodeRecord, EncodeVarint;
    FieldBytes(number, value, []);
    ParseOne(step, m, Varint(number, value), depth);
  }

  lemma ParseDataBytes<M>(step: (M, Record) -> Option<M>, m: M, number: FieldNumber, data: Bytes, depth: nat)
    requires number <= 15 && |data| <= MAX_LENGTH
    ensures Parse(step, m, [(8 * number + 2) as Byte] + (EncodeVarint(|data|) + data), depth)
         == step(m, Delimited(number, data))
  {
    hide Parse, EncodeRecord, EncodeVarint;
    FieldBytes(number, 0, data);
    ParseOne(step, m, Delimited(number, data), depth);
  }

  lemma ParseRefused<M>(step: (M, Record) -> Option<M>, m: M, s: Bytes, depth: nat)
    requires s != [] && ReadRecord(s, depth) == Bad
    ensures Parse(step, m, s, depth) == None
  {
  }

  /** A record of groups nested `n` deep around an empty one. */
  function Nested(n: nat): Record {
    Group(1, if n == 0 then [] else [Nested(n - 1)])
  }

  lemma {:induction false} NestedIsWellFormed(n: nat, depth: nat)
    ensures WellFormed(Nested(n), depth) <==> n < depth
  {
    if n > 0 && depth > 0 {
      NestedIsWellFormed(n - 1, depth - 1);
    }
  }

  /** Groups nested deeper than the budget are refused. */
  lemma {:induction false} TooDeepIsRefused(n: nat, t: Bytes, depth: nat)
    requires n >= depth
    ensures ReadRecord(EncodeRecord(Nested(n)) + t, depth) == Bad
    decreases n, 1
  {
    var r := Nested(n);
    var k := |EncodeVarint(TagOf(r))|;
    var s := EncodeRecord(r) + t;
    assert s == EncodeVarint(TagOf(r)) + (EncodeBody(r) + t);
    TagRoundTrip(TagOf(r), EncodeBody(r) + t);
    assert s[k..] == EncodeBody(r) + t;
    if depth > 0 {
      InnerIsRefused(n, t, depth);
    }
  }

  lemma {:induction false} InnerIsRefused(n: nat, t: Bytes, depth: nat)
    requires n >= depth > 0
    ensures ReadGroup(EncodeBody(Nested(n)) + t, 1, depth - 1) == Bad
    decreases n, 0
  {
    var inner := Nested(n - 1);
    var rest := EncodeVarint(MakeTag(1, END_GROUP)) + t;
    EncodeOne(inner);
    assert EncodeBody(Nested(n)) + t == EncodeRecord(inner) + rest;
    TooDeepIsRefused(n - 1, rest, depth - 1);
    assert EncodeRecord(inner) + rest == EncodeVarint(TagOf(inner)) + (EncodeBody(inner) + rest);
    TagRoundTrip(TagOf(inner), EncodeBody(inner) + rest);
  }

  /** Parsing written records is applying them one after the other. */
  lemma {:induction false} ParseOfEncoded<M>(step: (M, Record) -> Option<M>, m: M, rs: seq<Record>, depth: nat)
    requires AllWellFormed(rs, depth)
    ensures Parse(step, m, EncodeRecords(rs), depth) == Fold(step, m, rs)
    decreases |rs|
  {
    if rs != [] {
      var s, n := EncodeRecords(rs), |EncodeRecord(rs[0])|;
      RecordRoundTrip(rs[0], EncodeRecords(rs[1..]), depth);
      assert s[n..] == EncodeRecords(rs[1..]);
      match step(m, rs[0])
      case None =>
      case Some(next) => ParseOfEncoded(step, next, rs[1..], depth);
    }
  }

  lemma {:induction false} FoldConcatenation<M>(step: (M, Record) -> Option<M>, m: M, a: seq<Record>, b: seq<Record>)
    ensures Fold(step, m, a + b)
         == match Fold(step, m, a) { case None => None case Some(x) => Fold(step, x, b) }
    decreases |a|
  {
    if a == [] {
      assert a + b == b;
    } else {
      assert (a + b)[1..] == a[1..] + b;
      match step(m, a[0])
      case None =>
      case Some(next) => FoldConcatenation(step, next, a[1..], b);
    }
  }

  lemma {:induction false} EncodeConcatenation(a: seq<Record>, b: seq<Record>)
    ensures EncodeRecords(a + b) == EncodeRecords(a) + EncodeRecords(b)
  {
    if a == [] {
      assert a + b == b;
    } else {
      assert (a + b)[1..] == a[1..] + b;
      EncodeConcatenation(a[1..], b);
    }
  }

  // ---------------------------------------------------------------- what a parse can yield

  lemma {:induction false} ReadRecordIsWellFormed(s: Bytes, depth: nat)
    requires ReadRecord(s, depth).Got?
    ensures WellFormed(ReadRecord(s, depth).value, depth)
    ensures TagOf(ReadRecord(s, depth).value) == Tag(s).value
    decreases |s|, 0
  {
    var Got(tag, k) := Tag(s);
    if tag % 8 == START_GROUP {
      ReadGroupIsWellFormed(s[k..], tag / 8, depth - 1);
    }
  }

  lemma {:induction false} ReadGroupIsWellFormed(s: Bytes, number: FieldNumber, depth: nat)
    requires ReadGroup(s, number, depth).Got?
    ensures AllWellFormed(ReadGroup(s, number, depth).value, depth)
    decreases |s|, 1
  {
    if Tag(s).value != MakeTag(number, END_GROUP) {
      var Got(field, n) := ReadRecord(s, depth);
      ReadRecordIsWellFormed(s, depth);
      ReadGroupIsWellFormed(s[n..], number, depth);
    }
  }

  // ---------------------------------------------------------------- sizes

  /** WireFormatLite::LengthDelimitedSize, which cuts the length to 32 bits for its prefix. */
  function LengthDelimitedSize(length: nat): nat {
    length + VarintSize(length % UINT32_LIMIT)
  }

  lemma LengthDelimitedSizeIsLength(length: nat)
    requires length <= MAX_LENGTH
    ensures LengthDelimitedSize(length) == |EncodeVarint(length)| + length
  {
    hide VarintSize, EncodeVarint;
    VarintSizeIsLength(length);
  }

  function BodySize(r: Record): nat
    decreases r, 0
  {
    match r
    case Varint(_, value) => VarintSize(value)
    case Fixed64(_, _) => 8
    case Delimited(_, data) => LengthDelimitedSize(|data|)
    case Group(number, fields) => RecordsSize(fields) + VarintSize(MakeTag(number, END_GROUP))
    case Fixed32(_, _) => 4
  }

  /** WireFormat::ComputeUnknownFieldsSize. */
  function RecordsSize(rs: seq<Record>): nat
    decreases rs
  {
    if rs == [] then 0
    else VarintSize(TagOf(rs[0])) + BodySize(rs[0]) + RecordsSize(rs[1..])
  }

  lemma {:induction false} BodySizeIsLength(r: Record, depth: nat)
    requires WellFormed(r, depth)
    ensures BodySize(r) == |EncodeBody(r)|
    decreases r, 0
  {
    match r
    case Varint(_, value) => VarintSizeIsLength(value);
    case Fixed64(_, _) =>
    case Delimited(_, data) => LengthDelimitedSizeIsLength(|data|);
    case Group(number, fields) =>
      VarintSizeIsLength(MakeTag(number, END_GROUP));
      RecordsSizeIsLength(fields, depth - 1);
    case Fixed32(_, _) =>
  }

  /** The size computed for retained fields is the number of bytes they are written with. */
  lemma {:induction false} RecordsSizeIsLength(rs: seq<Record>, depth: nat)
    requires AllWellFormed(rs, depth)
    ensures RecordsSize(rs) == |EncodeRecords(rs)|
    decreases rs, 1
  {
    if rs != [] {
      VarintSizeIsLength(TagOf(rs[0]));
      BodySizeIsLength(rs[0], depth);
      RecordsSizeIsLength(rs[1..], depth);
    }
  }

  lemma {:induction false} SizeConcatenation(a: seq<Record>, b: seq<Record>)
    ensures RecordsSize(a + b) == RecordsSize(a) + RecordsSize(b)
  {
    if a == [] {
      assert a + b == b;
    } else {
      assert (a + b)[1..] == a[1..] + b;
      SizeConcatenation(a[1..], b);
    }
  }

  // ---------------------------------------------------------------- single fields

  /** A numeric field is written only when it is not zero. */
  function OptVarint(number: FieldNumber, value: UInt64): seq<Record> {
    if value != 0 then [Varint(number, value)] else []
  }

  /** A string field is written only when it is not empty. */
  function OptString(number: FieldNumber, data: Bytes): seq<Record> {
    if data != [] then [Delimited(number, data)] else []
  }

  function EncodeOptVarint(number: FieldNumber, value: UInt64): Bytes {
    if value != 0 then EncodeRecord(Varint(number, value)) else []
  }

  function EncodeOptString(number: FieldNumber, data: Bytes): Bytes {
    if data != [] then EncodeRecord(Delimited(number, data)) else []
  }

  lemma EncodeOne(r: Record)
    ensures EncodeRecords([r]) == EncodeRecord(r) && EncodeRecords([]) == []
  {
    assert [r][1..] == [];
    assert EncodeRecords([r]) == EncodeRecord(r) + EncodeRecords([r][1..]);
  }

  lemma DelimitedBytes(number: FieldNumber, data: Bytes)
    ensures EncodeRecord(Delimited(number, data))
         == EncodeVarint(MakeTag(number, DELIMITED)) + EncodeVarint(|data|) + data
  {
  }

  lemma EncodeOptional(number: FieldNumber, value: UInt64, data: Bytes)
    ensures EncodeRecords(OptVarint(number, value)) == EncodeOptVarint(number, value)
    ensures EncodeRecords(OptString(number, data)) == EncodeOptString(number, data)
  {
    EncodeOne(Varint(number, value));
    EncodeOne(Delimited(number, data));
  }

  /** One field alone: the tags of fields 1 to 15 take one byte. */
  lemma SizeOfOne(r: Record)
    ensures RecordsSize([]) == 0
    ensures r.number <= 15 ==> RecordsSize([r]) == 1 + BodySize(r)
  {
    assert [r][1..] == [];
    VarintSizeIsLength(TagOf(r));
  }

  lemma SizeOptional(number: FieldNumber, value: UInt64, data: Bytes)
    requires number <= 15
    ensures RecordsSize(OptVarint(number, value)) == if value != 0 then 1 + VarintSize(value) else 0
    ensures RecordsSize(OptString(number, data)) == if data != [] then 1 + LengthDelimitedSize(|data|) else 0
  {
    SizeOfOne(Varint(number, value));
    SizeOfOne(Delimited(number, data));
  }

  lemma FoldOne<M>(step: (M, Record) -> Option<M>, m: M, r: Record)
    ensures Fold(step, m, [r]) == step(m, r) && Fold(step, m, []) == Some(m)
  {
    assert [r][1..] == [];
  }
}
