/**
 * The library's field writers.  Each puts one more piece behind what was already written since
 * `start` and returns the position after it; `before` is the buffer as it was at the start.
 */
module RecordWriter {
  import opened Wire
  import opened Records

  /** WriteVarint32ToArray, as a continuation. */
  method AppendVarint(buf: array<Byte>, target: nat, v: UInt64,
                      ghost before: Bytes, ghost start: nat, ghost done: Bytes)
    returns (end: nat)
    requires Written(before, buf[..], start, done) && target == start + |done|
    requires target + |EncodeVarint(v)| <= buf.Length
    modifies buf
    ensures end == target + |EncodeVarint(v)|
    ensures Written(before, buf[..], start, done + EncodeVarint(v))
  {
    ghost var was := buf[..];
    end := WriteVarint(buf, target, v);
    WrittenThen(before, was, buf[..], start, done, EncodeVarint(v));
  }

  /** WriteRaw, as a continuation. */
  method AppendRaw(buf: array<Byte>, target: nat, data: Bytes, ghost before: Bytes, ghost start: nat, ghost done: Bytes)
    returns (end: nat)
    requires Written(before, buf[..], start, done) && target == start + |done|
    requires target + |data| <= buf.Length
    modifies buf
    ensures end == target + |data|
    ensures Written(before, buf[..], start, done + data)
  {
    ghost var was := buf[..];
    end := WriteRaw(buf, target, data);
    WrittenThen(before, was, buf[..], start, done, data);
  }

  /** WriteUInt64ToArray. */
  method WriteUInt64(buf: array<Byte>, target: nat, number: FieldNumber, value: UInt64,
                     ghost before: Bytes, ghost start: nat, ghost done: Bytes)
    returns (end: nat)
    requires Written(before, buf[..], start, done) && target == start + |done|
    requires target + |EncodeRecord(Varint(number, value))| <= buf.Length
    modifies buf
    ensures end == target + |EncodeRecord(Varint(number, value))|
    ensures Written(before, buf[..], start, done + EncodeRecord(Varint(number, value)))
  {
    hide EncodeVarint;
    ghost var tag := EncodeVarint(MakeTag(number, VARINT));
    end := AppendVarint(buf, target, MakeTag(number, VARINT), before, start, done);
    end := AppendVarint(buf, end, value, before, start, done + tag);
    assert done + tag + EncodeVarint(value) == done + EncodeRecord(Varint(number, value));
  }

  /** A generated numeric field: nothing is written for zero. */
  method WriteOptUInt64(buf: array<Byte>, target: nat, number: FieldNumber, value: UInt64,
                        ghost before: Bytes, ghost start: nat, ghost done: Bytes)
    returns (end: nat)
    requires Written(before, buf[..], start, done) && target == start + |done|
    requires target + |EncodeOptVarint(number, value)| <= buf.Length
    modifies buf
    ensures end == target + |EncodeOptVarint(number, value)|
    ensures Written(before, buf[..], start, done + EncodeOptVarint(number, value))
  {
    hide EncodeRecord;
    end := target;
    if value != 0 {
      end := WriteUInt64(buf, end, number, value, before, start, done);
    } else {
      assert done + [] == done;
    }
  }

  /** A generated string field: nothing is written when it is empty. */
  method WriteOptString(buf: array<Byte>, target: nat, number: FieldNumber, data: Bytes,
                        ghost before: Bytes, ghost start: nat, ghost done: Bytes)
    returns (end: nat)
    requires Written(before, buf[..], start, done) && target == start + |done|
    requires |data| <= MAX_LENGTH && target + |EncodeOptString(number, data)| <= buf.Length
    modifies buf
    ensures end == target + |EncodeOptString(number, data)|
    ensures Written(before, buf[..], start, done + EncodeOptString(number, data))
  {
    hide EncodeRecord;
    end := target;
    if data != [] {
      end := WriteString(buf, end, number, data, before, start, done);
    } else {
      assert done + [] == done;
    }
  }

  /** The length-delimited tag and the length that precede a string or a message. */
  method WriteLengthPrefix(buf: array<Byte>, target: nat, number: FieldNumber, length: nat,
                           ghost before: Bytes, ghost start: nat, ghost done: Bytes)
    returns (end: nat)
    requires Written(before, buf[..], start, done) && target == start + |done|
    requires length <= MAX_LENGTH
    requires target + |EncodeVarint(MakeTag(number, DELIMITED)) + EncodeVarint(length)| <= buf.Length
    modifies buf
    ensures end == target + |EncodeVarint(MakeTag(number, DELIMITED)) + EncodeVarint(length)|
    ensures Written(before, buf[..], start, done + (EncodeVarint(MakeTag(number, DELIMITED)) + EncodeVarint(length)))
  {
    hide EncodeVarint;
    ghost var tag := EncodeVarint(MakeTag(number, DELIMITED));
    end := AppendVarint(buf, target, MakeTag(number, DELIMITED), before, start, done);
    end := AppendVarint(buf, end, length, before, start, done + tag);
    assert done + tag + EncodeVarint(length) == done + (tag + EncodeVarint(length));
  }

  /** WriteStringMaybeAliased and WriteString. */
  method WriteString(buf: array<Byte>, target: nat, number: FieldNumber, data: Bytes,
                     ghost before: Bytes, ghost start: nat, ghost done: Bytes)
    returns (end: nat)
    requires Written(before, buf[..], start, done) && target == start + |done|
    requires |data| <= MAX_LENGTH && target + |EncodeRecord(Delimited(number, data))| <= buf.Length
    modifies buf
    ensures end == target + |EncodeRecord(Delimited(number, data))|
    ensures Written(before, buf[..], start, done + EncodeRecord(Delimited(number, data)))
  {
    hide EncodeVarint;
    ghost var prefix := EncodeVarint(MakeTag(number, DELIMITED)) + EncodeVarint(|data|);
    assert EncodeRecord(Delimited(number, data)) == prefix + data;
    end := WriteLengthPrefix(buf, target, number, |data|, before, start, done);
    end := AppendRaw(buf, end, data, before, start, done + prefix);
    assert done + prefix + data == done + EncodeRecord(Delimited(number, data));
  }

  /** The body of a group: its fields and the end tag. */
  method WriteGroupBody(buf: array<Byte>, target: nat, number: FieldNumber, fields: seq<Record>, ghost depth: nat,
                        ghost before: Bytes, ghost start: nat, ghost done: Bytes)
    returns (end: nat)
    requires Written(before, buf[..], start, done) && target == start + |done|
    requires AllWellFormed(fields, depth) && target + |EncodeBody(Group(number, fields))| <= buf.Length
    modifies buf
    ensures end == target + |EncodeBody(Group(number, fields))|
    ensures Written(before, buf[..], start, done + EncodeBody(Group(number, fields)))
    decreases fields, 2
  {
    hide EncodeVarint;
    ghost var body, close := EncodeRecords(fields), EncodeVarint(MakeTag(number, END_GROUP));
    assert EncodeBody(Group(number, fields)) == body + close;
    end := WriteRecords(buf, target, fields, depth, before, start, done);
    end := AppendVarint(buf, end, MakeTag(number, END_GROUP), before, start, done + body);
    assert done + body + close == done + (body + close);
  }

  method WriteRecord(buf: array<Byte>, target: nat, r: Record, ghost depth: nat,
                     ghost before: Bytes, ghost start: nat, ghost done: Bytes)
    returns (end: nat)
    requires Written(before, buf[..], start, done) && target == start + |done|
    requires WellFormed(r, depth) && target + |EncodeRecord(r)| <= buf.Length
    modifies buf
    ensures end == target + |EncodeRecord(r)|
    ensures Written(before, buf[..], start, done + EncodeRecord(r))
    decreases r, 0
  {
    hide EncodeVarint;
    if r.Varint? {
      end := WriteUInt64(buf, target, r.number, r.value, before, start, done);
    } else if r.Delimited? {
      end := WriteString(buf, target, r.number, r.data, before, start, done);
    } else {
      ghost var tag := EncodeVarint(TagOf(r));
      end := AppendVarint(buf, target, TagOf(r), before, start, done);
      if r.Group? {
        end := WriteGroupBody(buf, end, r.number, r.fields, depth - 1, before, start, done + tag);
      } else {
        end := AppendRaw(buf, end, r.raw, before, start, done + tag);
      }
      assert done + tag + EncodeBody(r) == done + EncodeRecord(r);
    }
  }

  /** InternalSerializeUnknownFieldsToArray: the retained fields in order, groups recursively. */
  method WriteRecords(buf: array<Byte>, target: nat, rs: seq<Record>, ghost depth: nat,
                      ghost before: Bytes, ghost start: nat, ghost done: Bytes)
    returns (end: nat)
    requires Written(before, buf[..], start, done) && target == start + |done|
    requires AllWellFormed(rs, depth) && target + |EncodeRecords(rs)| <= buf.Length
    modifies buf
    ensures end == target + |EncodeRecords(rs)|
    ensures Written(before, buf[..], start, done + EncodeRecords(rs))
    decreases rs, 1
  {
    hide EncodeRecord;
    hide WellFormed;
    end := target;
    assert rs[..0] == [] && done + EncodeRecords([]) == done;
    for i := 0 to |rs|
      invariant end == target + |EncodeRecords(rs[..i])|
      invariant Written(before, buf[..], start, done + EncodeRecords(rs[..i]))
    {
      PrefixEncoding(rs, i);
      end := WriteRecord(buf, end, rs[i], depth, before, start, done + EncodeRecords(rs[..i]));
      assert done + EncodeRecords(rs[..i]) + EncodeRecord(rs[i]) == done + EncodeRecords(rs[..i + 1]);
    }
    assert rs[..|rs|] == rs;
  }

  lemma PrefixEncoding(rs: seq<Record>, i: nat)
    requires i < |rs|
    ensures EncodeRecords(rs[..i + 1]) == EncodeRecords(rs[..i]) + EncodeRecord(rs[i])
    ensures |EncodeRecords(rs[..i])| + |EncodeRecord(rs[i])| <= |EncodeRecords(rs)|
  {
    assert rs[..i + 1] == rs[..i] + [rs[i]];
    EncodeOne(rs[i]);
    EncodeConcatenation(rs[..i], [rs[i]]);
    assert rs == rs[..i + 1] + rs[i + 1..];
    EncodeConcatenation(rs[..i + 1], rs[i + 1..]);
  }
}
