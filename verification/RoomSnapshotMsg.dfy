/** Protocol.RoomSnapshot: RoomSummary info = 1, repeated Player players = 2. */
module RoomSnapshotMsg {
  import opened Wrappers
  import opened Wire
  import opened Records
  import opened RecordWriter
  import PlayerMsg
  import RoomSummaryMsg

  type Summary = RoomSummaryMsg.Value
  type Player = PlayerMsg.Value

  /** An absent `info` differs from a present one with default fields. */
  datatype Value = Value(info: Option<Summary>, players: seq<Player>, unknown: seq<Record>)

  const DEFAULT := Value(None, [], [])

  predicate Known(r: Record) {
    r.Delimited? && (r.number == 1 || r.number == 2)
  }

  function InfoOf(m: Value): Summary {
    if m.info.Some? then m.info.value else RoomSummaryMsg.DEFAULT
  }

  /** What one record does; a submessage uses up one level of depth. */
  function Apply(m: Value, r: Record, depth: nat): Option<Value> {
    if r.Delimited? && r.number == 1 then
      if depth == 0 then None
      else
        match Parse(RoomSummaryMsg.Step, InfoOf(m), r.data, depth - 1)
        case None => None
        case Some(x) => Some(m.(info := Some(x)))
    else if r.Delimited? && r.number == 2 then
      if depth == 0 then None
      else
        match Parse(PlayerMsg.Step, PlayerMsg.DEFAULT, r.data, depth - 1)
        case None => None
        case Some(x) => Some(m.(players := m.players + [x]))
    else Some(m.(unknown := m.unknown + [r]))
  }

  function Step(depth: nat): (Value, Record) -> Option<Value> {
    (m, r) => Apply(m, r, depth)
  }

  function PlayerFields(players: seq<Player>): seq<Record> {
    if players == [] then []
    else [Delimited(2, PlayerMsg.Serialize(players[0]))] + PlayerFields(players[1..])
  }

  function Fields(m: Value): seq<Record> {
    RoomSummaryMsg.OptSummary(1, m.info) + PlayerFields(m.players) + m.unknown
  }

  function Serialize(m: Value): Bytes {
    EncodeRecords(Fields(m))
  }

  /** Submessages merge, repeated and retained fields accumulate. */
  function Merge(a: Value, b: Value): Value {
    Value(if b.info.Some? then Some(RoomSummaryMsg.Merge(InfoOf(a), b.info.value)) else a.info,
          a.players + b.players,
          a.unknown + b.unknown)
  }

  ghost predicate Retained(m: Value, depth: nat) {
    && depth > 0
    && AllWellFormed(m.unknown, depth) && (forall i :: 0 <= i < |m.unknown| ==> !Known(m.unknown[i]))
    && (m.info.Some? ==> RoomSummaryMsg.Retained(m.info.value, depth - 1))
    && forall i :: 0 <= i < |m.players| ==> PlayerMsg.Retained(m.players[i], depth - 1)
  }

  predicate TextValid(m: Value) {
    && (m.info.Some? ==> RoomSummaryMsg.TextValid(m.info.value))
    && AllText(m.players)
  }

  predicate AllText(ps: seq<Player>) {
    forall i :: 0 <= i < |ps| ==> PlayerMsg.TextValid(ps[i])
  }

  predicate Fits(m: Value) {
    |Serialize(m)| <= MAX_LENGTH
  }

  lemma {:induction false} FoldUnknown(m: Value, rs: seq<Record>, depth: nat)
    requires forall i :: 0 <= i < |rs| ==> !Known(rs[i])
    ensures Fold(Step(depth), m, rs) == Some(m.(unknown := m.unknown + rs))
    decreases |rs|
  {
    if rs == [] {
      assert m.unknown + rs == m.unknown;
    } else {
      FoldUnknown(m.(unknown := m.unknown + [rs[0]]), rs[1..], depth);
      assert m.unknown + [rs[0]] + rs[1..] == m.unknown + rs;
    }
  }

  lemma AllOfTail(ps: seq<Player>)
    ensures ps == [] ==> AllText(ps)
    ensures ps != [] ==> (AllText(ps) <==> PlayerMsg.TextValid(ps[0]) && AllText(ps[1..]))
  {
    if ps != [] && PlayerMsg.TextValid(ps[0]) && AllText(ps[1..]) {
      forall i | 0 <= i < |ps|
        ensures PlayerMsg.TextValid(ps[i])
      {
        if i > 0 {
          assert ps[i] == ps[1..][i - 1];
        }
      }
    }
  }

  lemma ApplyPlayer(m: Value, p: Player, depth: nat)
    requires depth > 0 && PlayerMsg.Retained(p, depth - 1) && PlayerMsg.Fits(p)
    ensures Step(depth)(m, Delimited(2, PlayerMsg.Serialize(p)))
         == if PlayerMsg.TextValid(p) then Some(m.(players := m.players + [p])) else None
  {
    PlayerMsg.RoundTrip(p, depth - 1);
  }

  ghost predicate AllWritable(ps: seq<Player>, depth: nat) {
    forall i :: 0 <= i < |ps| ==> PlayerMsg.Retained(ps[i], depth) && PlayerMsg.Fits(ps[i])
  }

  lemma {:induction false} FoldPlayers(m: Value, ps: seq<Player>, depth: nat)
    requires depth > 0 && AllWritable(ps, depth - 1)
    ensures Fold(Step(depth), m, PlayerFields(ps))
         == if AllText(ps) then Some(m.(players := m.players + ps)) else None
    decreases |ps|
  {
    hide PlayerMsg.TextValid;
    hide PlayerMsg.Serialize;
    hide AllText;
    hide Step;
    hide Fold;
    AllOfTail(ps);
    if ps == [] {
      assert m.players + ps == m.players;
      FoldStep(Step(depth), m, []);
      return;
    }
    ApplyPlayer(m, ps[0], depth);
    var next := m.(players := m.players + [ps[0]]);
    var fields := PlayerFields(ps);
    assert fields[0] == Delimited(2, PlayerMsg.Serialize(ps[0])) && fields[1..] == PlayerFields(ps[1..]);
    FoldStep(Step(depth), m, fields);
    if PlayerMsg.TextValid(ps[0]) {
      FoldPlayers(next, ps[1..], depth);
      assert next.players + ps[1..] == m.players + ps;
    }
  }

  lemma FoldStep(step: (Value, Record) -> Option<Value>, m: Value, rs: seq<Record>)
    ensures rs == [] ==> Fold(step, m, rs) == Some(m)
    ensures rs != [] ==>
              Fold(step, m, rs)
              == match step(m, rs[0]) { case None => None case Some(next) => Fold(step, next, rs[1..]) }
  {
  }

  lemma FoldInfo(m: Value, info: Option<Summary>, depth: nat)
    requires depth > 0
    requires info.Some? ==> RoomSummaryMsg.Retained(info.value, depth - 1) && RoomSummaryMsg.Fits(info.value)
    ensures Fold(Step(depth), m, RoomSummaryMsg.OptSummary(1, info))
         == if info.None? then Some(m)
            else if RoomSummaryMsg.TextValid(info.value)
              then Some(m.(info := Some(RoomSummaryMsg.Merge(InfoOf(m), info.value))))
            else None
  {
    hide RoomSummaryMsg.TextValid;
    if info.Some? {
      RoomSummaryMsg.SerializedParts(info.value);
      RoomSummaryMsg.ParseIsMerge(InfoOf(m), info.value, depth - 1);
      FoldOne(Step(depth), m, RoomSummaryMsg.OptSummary(1, info)[0]);
    }
  }

  lemma FoldFields(a: Value, b: Value, depth: nat)
    requires Retained(b, depth) && PartsFit(b)
    ensures Fold(Step(depth), a, Fields(b)) == if TextValid(b) then Some(Merge(a, b)) else None
  {
    hide Fold;
    hide RoomSummaryMsg.TextValid;
    hide PlayerMsg.TextValid;
    FoldConcatenation(Step(depth), a, RoomSummaryMsg.OptSummary(1, b.info) + PlayerFields(b.players), b.unknown);
    FoldConcatenation(Step(depth), a, RoomSummaryMsg.OptSummary(1, b.info), PlayerFields(b.players));
    FoldInfo(a, b.info, depth);
    var x := if b.info.Some? then a.(info := Some(RoomSummaryMsg.Merge(InfoOf(a), b.info.value))) else a;
    FoldPlayers(x, b.players, depth);
    FoldUnknown(x.(players := x.players + b.players), b.unknown, depth);
  }

  ghost predicate PartsFit(m: Value) {
    && (m.info.Some? ==> RoomSummaryMsg.Fits(m.info.value))
    && forall i :: 0 <= i < |m.players| ==> PlayerMsg.Fits(m.players[i])
  }

  lemma {:induction false} PlayerFieldsAt(ps: seq<Player>)
    ensures |PlayerFields(ps)| == |ps|
    ensures forall i :: 0 <= i < |ps| ==> PlayerFields(ps)[i] == Delimited(2, PlayerMsg.Serialize(ps[i]))
  {
    if ps != [] {
      PlayerFieldsAt(ps[1..]);
    }
  }

  lemma FieldsWellFormed(m: Value, depth: nat)
    requires Retained(m, depth) && PartsFit(m)
    ensures AllWellFormed(Fields(m), depth)
  {
    PlayerFieldsAt(m.players);
  }

  function EncodePlayers(ps: seq<Player>): Bytes {
    EncodeRecords(PlayerFields(ps))
  }

  lemma SerializedParts(m: Value)
    ensures Serialize(m)
         == RoomSummaryMsg.EncodeOptSummary(1, m.info) + EncodePlayers(m.players) + EncodeRecords(m.unknown)
    ensures Fits(m) ==> PartsFit(m)
  {
    hide EncodeRecords;
    EncodeConcatenation(RoomSummaryMsg.OptSummary(1, m.info) + PlayerFields(m.players), m.unknown);
    EncodeConcatenation(RoomSummaryMsg.OptSummary(1, m.info), PlayerFields(m.players));
    EncodeOne(Delimited(1, RoomSummaryMsg.Serialize(InfoOf(m))));
    forall i | 0 <= i < |m.players|
      ensures |PlayerMsg.Serialize(m.players[i])| <= |EncodePlayers(m.players)|
    {
      PlayerFieldsAt(m.players);
      PrefixEncoding(PlayerFields(m.players), i);
    }
  }

  // ---------------------------------------------------------------- sizes

  function PlayerSizes(ps: seq<Player>): nat {
    if ps == [] then 0 else LengthDelimitedSize(PlayerMsg.ByteSize(ps[0])) + PlayerSizes(ps[1..])
  }

  /** The sum ByteSizeLong computes: one tag byte a player, then their sizes, then the rest. */
  function ByteSize(m: Value): nat {
    |m.players| + PlayerSizes(m.players)
    + (if m.info.Some? then 1 + LengthDelimitedSize(RoomSummaryMsg.ByteSize(m.info.value)) else 0)
    + RecordsSize(m.unknown)
  }

  lemma {:induction false} PlayerSizesAreLengths(ps: seq<Player>, depth: nat)
    requires forall i :: 0 <= i < |ps| ==> PlayerMsg.Retained(ps[i], depth) && PlayerMsg.Fits(ps[i])
    ensures |ps| + PlayerSizes(ps) == RecordsSize(PlayerFields(ps))
  {
    if ps == [] {
      SizeOfOne(Varint(1, 0));
    } else {
      PlayerMsg.SerializedParts(ps[0]);
      PlayerMsg.ByteSizeIsLength(ps[0], depth);
      PlayerSizesAreLengths(ps[1..], depth);
      var r := Delimited(2, PlayerMsg.Serialize(ps[0]));
      SizeConcatenation([r], PlayerFields(ps[1..]));
      SizeOfOne(r);
    }
  }

  /** The separately written size agrees with the bytes, submessages and all. */
  lemma ByteSizeIsLength(m: Value, depth: nat)
    requires Retained(m, depth) && PartsFit(m)
    ensures ByteSize(m) == |Serialize(m)|
  {
    hide RecordsSize;
    FieldsWellFormed(m, depth);
    RecordsSizeIsLength(Fields(m), depth);
    SizeConcatenation(RoomSummaryMsg.OptSummary(1, m.info) + PlayerFields(m.players), m.unknown);
    SizeConcatenation(RoomSummaryMsg.OptSummary(1, m.info), PlayerFields(m.players));
    PlayerSizesAreLengths(m.players, depth - 1);
    var r := Delimited(1, RoomSummaryMsg.Serialize(InfoOf(m)));
    SizeOfOne(r);
    if m.info.Some? {
      RoomSummaryMsg.SerializedParts(m.info.value);
      RoomSummaryMsg.ByteSizeIsLength(m.info.value, depth - 1);
    }
  }

  // ---------------------------------------------------------------- main results

  lemma ParseIsMerge(a: Value, b: Value, depth: nat)
    requires Retained(b, depth) && Fits(b)
    ensures Parse(Step(depth), a, Serialize(b), depth) == if TextValid(b) then Some(Merge(a, b)) else None
  {
    SerializedParts(b);
    FieldsWellFormed(b, depth);
    ParseOfEncoded(Step(depth), a, Fields(b), depth);
    FoldFields(a, b, depth);
  }

  lemma MergeDefault(m: Value)
    ensures Merge(DEFAULT, m) == m
  {
    assert [] + m.unknown == m.unknown && [] + m.players == m.players;
    if m.info.Some? {
      RoomSummaryMsg.MergeDefault(m.info.value);
    }
  }

  /** A written snapshot is read back equal, exactly when all of its text is UTF-8. */
  lemma RoundTrip(m: Value, depth: nat)
    requires Retained(m, depth) && Fits(m)
    ensures Parse(Step(depth), DEFAULT, Serialize(m), depth) == if TextValid(m) then Some(m) else None
  {
    ParseIsMerge(DEFAULT, m, depth);
    MergeDefault(m);
  }

  /** Parsing accepted bytes followed by a written snapshot merges the two, submessages included. */
  lemma ConcatenationIsMerge(a: Bytes, b: Value, depth: nat)
    requires Parse(Step(depth), DEFAULT, a, depth).Some? && Retained(b, depth) && Fits(b)
    ensures Parse(Step(depth), DEFAULT, a + Serialize(b), depth)
         == if TextValid(b) then Some(Merge(Parse(Step(depth), DEFAULT, a, depth).value, b)) else None
  {
    ParseConcatenation(Step(depth), DEFAULT, a, Serialize(b), depth);
    ParseIsMerge(Parse(Step(depth), DEFAULT, a, depth).value, b, depth);
  }

  lemma {:induction false} ParsedIsRetained(m: Value, s: Bytes, depth: nat)
    requires Retained(m, depth) && TextValid(m) && Parse(Step(depth), m, s, depth).Some?
    ensures Retained(Parse(Step(depth), m, s, depth).value, depth) && TextValid(Parse(Step(depth), m, s, depth).value)
    decreases |s|
  {
    hide ReadRecord;
    hide RoomSummaryMsg.Retained;
    hide RoomSummaryMsg.TextValid;
    hide PlayerMsg.Retained;
    hide PlayerMsg.TextValid;
    if s != [] {
      var Got(r, n) := ReadRecord(s, depth);
      ReadRecordIsWellFormed(s, depth);
      if r.Delimited? && r.number == 1 {
        RoomSummaryMsg.DefaultIsRetained(depth - 1);
        RoomSummaryMsg.ParsedIsRetained(InfoOf(m), r.data, depth - 1);
      } else if r.Delimited? && r.number == 2 {
        PlayerMsg.DefaultIsRetained(depth - 1);
        PlayerMsg.ParsedIsRetained(PlayerMsg.DEFAULT, r.data, depth - 1);
      }
      ParsedIsRetained(Apply(m, r, depth).value, s[n..], depth);
    }
  }

  /** Whatever bytes are accepted, writing the result and reading it again changes nothing. */
  lemma Reparse(s: Bytes, depth: nat)
    requires depth > 0 && Parse(Step(depth), DEFAULT, s, depth).Some?
    requires Fits(Parse(Step(depth), DEFAULT, s, depth).value)
    ensures Parse(Step(depth), DEFAULT, Serialize(Parse(Step(depth), DEFAULT, s, depth).value), depth)
         == Parse(Step(depth), DEFAULT, s, depth)
  {
    ParsedIsRetained(DEFAULT, s, depth);
    RoundTrip(Parse(Step(depth), DEFAULT, s, depth).value, depth);
  }

  /** What reading one player behind its tag comes to. */
  lemma AfterPlayerTag(m: Value, ptr: Bytes, depth: nat, data: Bytes, size: nat)
    ensures ReadField(18, ptr, depth) == Bad ==> AfterTag(Step(depth), m, 18, ptr, depth) == None
    ensures ReadField(18, ptr, depth) == Got(Delimited(2, data), size) && depth == 0 ==>
              AfterTag(Step(depth), m, 18, ptr, depth) == None
    ensures ReadField(18, ptr, depth) == Got(Delimited(2, data), size) && depth > 0 ==>
              AfterTag(Step(depth), m, 18, ptr, depth)
              == match Parse(PlayerMsg.Step, PlayerMsg.DEFAULT, data, depth - 1) {
                case None => None
                case Some(p) => Parse(Step(depth), m.(players := m.players + [p]), ptr[size..], depth)
              }
  {
    hide ReadField, Parse;
  }

  // ---------------------------------------------------------------- the fields on the wire

  /** info is field 1: its bytes are read into the summary there is. */
  lemma InfoByKey(m: Value, data: Bytes, depth: nat)
    requires depth > 0 && |data| <= MAX_LENGTH
    ensures Parse(Step(depth), m, [0x0A] + (EncodeVarint(|data|) + data), depth)
         == match Parse(RoomSummaryMsg.Step, Or(m.info, RoomSummaryMsg.DEFAULT), data, depth - 1) {
              case None => None
              case Some(x) => Some(m.(info := Some(x)))
            }
  {
    hide Parse, EncodeVarint;
    ParseDataBytes(Step(depth), m, 1, data, depth);
  }

  /** Each record of field 2 is one more player. */
  lemma PlayerByKey(m: Value, data: Bytes, depth: nat)
    requires depth > 0 && |data| <= MAX_LENGTH
    ensures Parse(Step(depth), m, [0x12] + (EncodeVarint(|data|) + data), depth)
         == match Parse(PlayerMsg.Step, PlayerMsg.DEFAULT, data, depth - 1) {
              case None => None
              case Some(x) => Some(m.(players := m.players + [x]))
            }
  {
    hide Parse, EncodeVarint;
    ParseDataBytes(Step(depth), m, 2, data, depth);
  }

  /** Any other record is retained. */
  lemma OthersByKey(m: Value, r: Record, depth: nat)
    requires depth > 0 && WellFormed(r, depth) && !(r.Delimited? && (r.number == 1 || r.number == 2))
    ensures Parse(Step(depth), m, EncodeRecord(r), depth) == Some(m.(unknown := m.unknown + [r]))
  {
    hide Parse, EncodeRecord, WellFormed;
    ParseOne(Step(depth), m, r, depth);
  }

  /** The players on the wire, one record each. */
  function PlayerBytes(ps: seq<Player>): Bytes {
    if ps == [] then []
    else
      var p := PlayerMsg.Serialize(ps[0]);
      [0x12] + (EncodeVarint(|p|) + p) + PlayerBytes(ps[1..])
  }

  lemma PlayersStep(p: Player, ps: seq<Player>)
    ensures EncodePlayers([p] + ps) == EncodeRecord(Delimited(2, PlayerMsg.Serialize(p))) + EncodePlayers(ps)
  {
    hide PlayerMsg.Serialize, EncodeRecord;
    var r := Delimited(2, PlayerMsg.Serialize(p));
    assert PlayerFields([p] + ps) == [r] + PlayerFields(ps) by {
      assert ([p] + ps)[1..] == ps;
    }
    assert ([r] + PlayerFields(ps))[1..] == PlayerFields(ps);
  }

  lemma {:induction false} PlayersLayout(ps: seq<Player>)
    ensures EncodePlayers(ps) == PlayerBytes(ps)
  {
    hide PlayerMsg.Serialize, EncodeVarint, EncodeRecord;
    if ps == [] {
      assert EncodeRecords(PlayerFields(ps)) == [];
    } else {
      assert [ps[0]] + ps[1..] == ps;
      PlayersStep(ps[0], ps[1..]);
      FieldBytes(2, 0, PlayerMsg.Serialize(ps[0]));
      PlayersLayout(ps[1..]);
    }
  }

  /** The written bytes, field by field. */
  lemma Layout(m: Value)
    ensures Serialize(m) ==
      (if m.info.Some?
       then var info := RoomSummaryMsg.Serialize(m.info.value); [0x0A] + (EncodeVarint(|info|) + info) else [])
      + PlayerBytes(m.players) + EncodeRecords(m.unknown)
  {
    hide EncodeRecord, EncodeVarint, EncodeRecords, Serialize, RoomSummaryMsg.Serialize, EncodePlayers, PlayerBytes;
    SerializedParts(m);
    PlayersLayout(m.players);
    FieldBytes(1, 0, RoomSummaryMsg.Serialize(Or(m.info, RoomSummaryMsg.DEFAULT)));
  }

  // ---------------------------------------------------------------- concatenating any two inputs

  /** A scan of some bytes: that of all written for the summary, the players, and what is retained. */
  datatype Last = Last(info: Option<RoomSummaryMsg.Last>, players: seq<Player>, unknown: seq<Record>)

  const NOTHING := Last(None, [], [])

  function NoteOne(e: Last, r: Record, depth: nat): Option<Last> {
    if r.Delimited? && r.number == 1 then
      if depth == 0 then None
      else
        match Parse(RoomSummaryMsg.Note, Or(e.info, RoomSummaryMsg.NOTHING), r.data, depth - 1)
        case None => None
        case Some(x) => Some(e.(info := Some(x)))
    else if r.Delimited? && r.number == 2 then
      if depth == 0 then None
      else
        match Parse(PlayerMsg.Step, PlayerMsg.DEFAULT, r.data, depth - 1)
        case None => None
        case Some(x) => Some(e.(players := e.players + [x]))
    else Some(e.(unknown := e.unknown + [r]))
  }

  function Note(depth: nat): (Last, Record) -> Option<Last> {
    (e, r) => NoteOne(e, r, depth)
  }

  /** What scanned bytes make of a message. */
  function Over(m: Value, e: Last): Value {
    Value(if e.info.Some? then Some(RoomSummaryMsg.Over(InfoOf(m), e.info.value)) else m.info,
          m.players + e.players,
          m.unknown + e.unknown)
  }

  /** Only the summary can be cleared: players and retained fields accumulate either way. */
  predicate ClearsNothing(e: Last, m: Value) {
    e.info.Some? ==> RoomSummaryMsg.ClearsNothing(e.info.value, InfoOf(m))
  }

  lemma OverNothing(m: Value)
    ensures Over(m, NOTHING) == m
  {
    assert m.unknown + [] == m.unknown && m.players + [] == m.players;
  }

  lemma ApplyIsOver(m: Value, e: Last, r: Record, depth: nat)
    ensures Apply(Over(m, e), r, depth) == Under(x => Over(m, x), NoteOne(e, r, depth))
  {
    hide Parse, RoomSummaryMsg.Over;
    assert m.unknown + (e.unknown + [r]) == m.unknown + e.unknown + [r];
    assert forall p :: m.players + (e.players + [p]) == m.players + e.players + [p];
    if r.Delimited? && depth > 0 {
      RoomSummaryMsg.OverNothing(InfoOf(m));
      RoomSummaryMsg.ParseIsOver(InfoOf(m), Or(e.info, RoomSummaryMsg.NOTHING), r.data, depth - 1);
    }
  }

  lemma OverIsMerge(m: Value, e: Last)
    ensures Over(m, e) == Merge(m, Over(DEFAULT, e)) <==> ClearsNothing(e, m)
  {
    hide RoomSummaryMsg.Over, RoomSummaryMsg.Merge, RoomSummaryMsg.ClearsNothing;
    assert [] + e.unknown == e.unknown && [] + e.players == e.players;
    if e.info.Some? {
      RoomSummaryMsg.OverIsMerge(InfoOf(m), e.info.value);
    }
  }

  /** Scanning bytes decides what parsing them into any message does. */
  lemma ParseIsOver(m: Value, e: Last, s: Bytes, depth: nat)
    ensures Parse(Step(depth), Over(m, e), s, depth) == Under(x => Over(m, x), Parse(Note(depth), e, s, depth))
  {
    var over := x => Over(m, x);
    forall x: Last, r: Record
      ensures Step(depth)(over(x), r) == Under(over, Note(depth)(x, r))
    {
      ApplyIsOver(m, x, r, depth);
    }
    ParseUnder(Note(depth), Step(depth), over, e, s, depth);
  }

  /** Any two accepted inputs, one behind the other, merge exactly when the second clears nothing. */
  lemma ConcatenationMergesExactlyWhen(a: Bytes, b: Bytes, depth: nat)
    requires Parse(Step(depth), DEFAULT, a, depth).Some? && Parse(Step(depth), DEFAULT, b, depth).Some?
    ensures Parse(Note(depth), NOTHING, b, depth).Some?
    ensures var m, n := Parse(Step(depth), DEFAULT, a, depth).value, Parse(Step(depth), DEFAULT, b, depth).value;
            Parse(Step(depth), DEFAULT, a + b, depth) == Some(Merge(m, n))
            <==> ClearsNothing(Parse(Note(depth), NOTHING, b, depth).value, m)
  {
    hide Parse, Merge, Over, ClearsNothing, Step, Note;
    var m := Parse(Step(depth), DEFAULT, a, depth).value;
    ParseConcatenation(Step(depth), DEFAULT, a, b, depth);
    OverNothing(m);
    OverNothing(DEFAULT);
    ParseIsOver(m, NOTHING, b, depth);
    ParseIsOver(DEFAULT, NOTHING, b, depth);
    OverIsMerge(m, Parse(Note(depth), NOTHING, b, depth).value);
  }

  // ---------------------------------------------------------------- the generated class

  /** The values of repeated submessages. */
  function Views(ps: seq<PlayerMsg.Message>): (r: seq<Player>)
    reads ps`id, ps`name, ps`unknown
    ensures |r| == |ps| && forall i :: 0 <= i < |ps| ==> r[i] == ps[i].View()
  {
    if ps == [] then [] else [ps[0].View()] + Views(ps[1..])
  }

  class Message {
    var info: RoomSummaryMsg.Message?
    var players: seq<PlayerMsg.Message>
    var unknown: seq<Record>
    var cachedSize: int

    constructor ()
      ensures View() == DEFAULT && info == null && players == []
    {
      info, players, unknown, cachedSize := null, [], [], 0;
    }

    function InfoView(): Option<Summary>
      reads this`info, info
    {
      if info == null then None else Some(info.View())
    }

    function View(): Value
      reads this`info, this`players, this`unknown, info, players
    {
      Value(InfoView(), Views(players), unknown)
    }

    /** The cached sizes of the submessages are their written lengths. */
    ghost predicate CachesSet()
      reads this`info, this`players, info, players
    {
      && (info != null ==> info.cachedSize == |RoomSummaryMsg.Serialize(info.View())|)
      && forall i :: 0 <= i < |players| ==> players[i].cachedSize == |PlayerMsg.Serialize(players[i].View())|
    }

    method Clear()
      modifies this`info, this`players, this`unknown
      ensures View() == DEFAULT && info == null && players == []
    {
      players := [];
      info := null;
      unknown := [];
    }

    /** One player: a length, a new element and its own parse one level down. */
    method ParsePlayer(ptr: Bytes, depth: nat) returns (ok: bool, rest: Bytes)
      modifies this`players
      ensures |rest| <= |ptr| && (ok ==> |rest| < |ptr|)
      ensures ok ==> old(players) <= players && (forall i :: |old(players)| <= i < |players| ==> fresh(players[i]))
      ensures AfterTag(Step(depth), old(View()), 18, ptr, depth)
           == if ok then Parse(Step(depth), View(), rest, depth) else None
    {
      hide ReadField, Parse, Step, AfterTag, Views;
      ghost var was, before := View(), players;
      var str := ReadString(ptr, 2, depth);
      if str.Bad? {
        AfterPlayerTag(was, ptr, depth, [], 0);
        return false, [];
      }
      AfterPlayerTag(was, ptr, depth, str.value, str.size);
      var player := new PlayerMsg.Message();
      players := players + [player];
      if depth == 0 {
        return false, [];
      }
      ok := player.InternalParse(str.value, depth - 1);
      rest := ptr[str.size..];
      ViewsConcatenation(before, [player]);
      SingleView(player);
      assert View() == was.(players := was.players + [player.View()]);
    }

    /**
     * The inner loop over a run of players: after each one the next byte is compared with the
     * tag itself, and the outer loop is entered only when it differs or no byte is at hand.
     */
    method ParsePlayers(start: Bytes, depth: nat) returns (ok: bool, ptr: Bytes)
      modifies this`players
      ensures |ptr| <= |start|
      ensures ok ==> old(players) <= players && (forall i :: |old(players)| <= i < |players| ==> fresh(players[i]))
      ensures AfterTag(Step(depth), old(View()), 18, start, depth)
           == if ok then Parse(Step(depth), View(), ptr, depth) else None
    {
      hide Parse;
      hide AfterTag;
      hide Tag;
      ghost var goal := AfterTag(Step(depth), View(), 18, start, depth);
      ok, ptr := ParsePlayer(start, depth);
      while ok && ptr != [] && ptr[0] == 18
        invariant |ptr| <= |start|
        invariant ok ==> old(players) <= players && (forall i :: |old(players)| <= i < |players| ==> fresh(players[i]))
        invariant goal == if ok then Parse(Step(depth), View(), ptr, depth) else None
        decreases |ptr|
      {
        if * {
          // DataAvailable may already say no in the last bytes of a chunk
          break;
        }
        ParseTag(Step(depth), View(), ptr, depth);
        OneByteTag(ptr);
        assert goal == AfterTag(Step(depth), View(), 18, ptr[1..], depth);
        ok, ptr := ParsePlayer(ptr[1..], depth);
      }
    }

    /** The single submessage: allocated when absent, otherwise parsed into in place. */
    method ParseInfo(ptr: Bytes, depth: nat) returns (ok: bool, rest: Bytes)
      modifies this`info, info
      ensures |rest| <= |ptr| && (ok ==> |rest| < |ptr|)
      ensures info == old(info) || fresh(info)
      ensures AfterTag(Step(depth), old(View()), 10, ptr, depth)
           == if ok then Parse(Step(depth), View(), rest, depth) else None
    {
      hide ReadField;
      hide Parse;
      hide Views;
      ghost var was := View();
      var str := ReadString(ptr, 1, depth);
      if str.Bad? {
        return false, [];
      }
      if info == null {
        info := new RoomSummaryMsg.Message();
      }
      if depth == 0 {
        return false, [];
      }
      ok := info.InternalParse(str.value, depth - 1);
      rest := ptr[str.size..];
      assert Views(players) == was.players;
    }

    /** A record without a case is retained. */
    method ParseUnknown(tag: UInt32, ptr: Bytes, depth: nat) returns (ok: bool, rest: Bytes)
      requires !(tag == 10 || tag == 18)
      modifies this`unknown
      ensures |rest| <= |ptr|
      ensures AfterTag(Step(depth), old(View()), tag, ptr, depth)
           == if ok then Parse(Step(depth), View(), rest, depth) else None
    {
      hide Parse;
      var field := ReadField(tag, ptr, depth);
      if field.Bad? {
        return false, [];
      }
      unknown := unknown + [field.value];
      return true, ptr[field.size..];
    }

    method InternalParse(s: Bytes, depth: nat) returns (ok: bool)
      modifies this`info, this`players, this`unknown, info
      ensures ok <==> Parse(Step(depth), old(View()), s, depth).Some?
      ensures ok ==> View() == Parse(Step(depth), old(View()), s, depth).value
    {
      hide AfterTag;
      hide Parse;
      hide Tag;
      hide Step;
      hide View;
      ghost var goal := Parse(Step(depth), View(), s, depth);
      var ptr := s;
      while ptr != []
        invariant info == old(info) || fresh(info)
        invariant goal == Parse(Step(depth), View(), ptr, depth)
        decreases |ptr|
      {
        ParseTag(Step(depth), View(), ptr, depth);
        var tag := ReadTag(ptr);
        if tag.Bad? {
          return false;
        }
        ptr := ptr[tag.size..];
        if tag.value / 8 == 1 && tag.value % 256 == 10 {
          ok, ptr := ParseInfo(ptr, depth);
        } else if tag.value / 8 == 2 && tag.value % 256 == 18 {
          ok, ptr := ParsePlayers(ptr, depth);
        } else if tag.value == 0 || tag.value % 8 == END_GROUP {
          return false;
        } else {
          ok, ptr := ParseUnknown(tag.value, ptr, depth);
        }
        if !ok {
          return false;
        }
      }
      ParseEnd(Step(depth), View(), depth);
      return true;
    }

    /** Sizes the players, then the summary, then the rest, leaving every nested size cached. */
    method ByteSizeLong(ghost depth: nat) returns (total: nat)
      requires Retained(View(), depth) && Fits(View())
      modifies this`cachedSize, info, players`cachedSize
      ensures View() == old(View()) && CachesSet()
      ensures total == |Serialize(View())| == cachedSize
    {
      hide PlayerMsg.Serialize;
      hide RoomSummaryMsg.Serialize;
      hide Serialize;
      hide LengthDelimitedSize;
      hide RecordsSize;
      hide PlayerSizes;
      hide Views;
      ghost var m := View();
      SerializedParts(m);
      ByteSizeIsLength(m, depth);
      total := SizePlayers(players, depth - 1);
      if info != null {
        RoomSummaryMsg.SerializedParts(m.info.value);
        RoomSummaryMsg.ByteSizeIsLength(m.info.value, depth - 1);
        var size := info.ByteSizeLong(depth - 1);
        total := total + 1 + LengthDelimitedSize(size);
      }
      total := total + RecordsSize(unknown);
      cachedSize := total;
    }

    /** Each submessage is written behind its cached size. */
    method InternalSerialize(buf: array<Byte>, target: nat, ghost depth: nat) returns (end: nat)
      requires Retained(View(), depth) && Fits(View()) && CachesSet()
      requires target + |Serialize(View())| <= buf.Length
      modifies buf
      ensures end == target + |Serialize(View())|
      ensures Written(old(buf[..]), buf[..], target, Serialize(View()))
    {
      hide Views;
      hide EncodePlayers;
      hide EncodeRecords;
      hide PlayerMsg.Serialize;
      hide PlayerMsg.Retained;
      hide RoomSummaryMsg.Serialize;
      hide RoomSummaryMsg.Retained;
      hide Serialize;
      ghost var before, m := buf[..], View();
      SerializedParts(m);
      WrittenNothing(before, target);
      end := target;
      if info != null {
        end := RoomSummaryMsg.WriteSummary(buf, end, 1, info, depth - 1, before, target, []);
      }
      ghost var done := RoomSummaryMsg.EncodeOptSummary(1, m.info);
      assert [] + done == done;
      end := WritePlayers(buf, end, players, depth - 1, before, target, done);
      end := WriteRecords(buf, end, unknown, depth, before, target, done + EncodePlayers(m.players));
    }

    /** A present submessage is merged into the own one, which is made when it is absent. */
    method MergeInfo(from: RoomSummaryMsg.Message?)
      requires from == null || from != info
      modifies this`info, info
      ensures from == null ==> info == old(info) && InfoView() == old(InfoView())
      ensures from != null ==> InfoView() == Some(RoomSummaryMsg.Merge(InfoOf(old(View())), from.View()))
    {
      hide RoomSummaryMsg.Merge;
      if from != null {
        if info == null {
          info := new RoomSummaryMsg.Message();
        }
        info.MergeFrom(from);
      }
    }

    /** Elements and retained fields are copied over, the submessage is merged in place. */
    method MergeFrom(from: Message)
      requires from != this && (from.info == null || from.info != info)
      modifies this`info, this`players, this`unknown, info
      ensures View() == Merge(old(View()), from.View())
    {
      hide Views, RoomSummaryMsg.Merge, RoomSummaryMsg.Message.View, PlayerMsg.Message.View;
      unknown := unknown + from.unknown;
      var copies := CopyPlayers(from.players);
      ViewsConcatenation(players, copies);
      players := players + copies;
      ghost var all := Views(players);
      MergeInfo(from.info);
      assert Views(players) == all;
    }

    method CopyFrom(from: Message)
      requires from == this || from.info == null || from.info != info
      modifies this`info, this`players, this`unknown, info
      ensures View() == old(from.View())
    {
      hide View, Merge, Views;
      if from == this {
        return;
      }
      Clear();
      MergeFrom(from);
      MergeDefault(from.View());
    }
  }

  lemma SingleView(p: PlayerMsg.Message)
    ensures Views([p]) == [p.View()]
  {
  }

  lemma ViewsConcatenation(ps: seq<PlayerMsg.Message>, qs: seq<PlayerMsg.Message>)
    ensures Views(ps + qs) == Views(ps) + Views(qs)
  {
  }

  /** RepeatedPtrField::MergeFrom: a new element for each one merged in. */
  method CopyPlayers(from: seq<PlayerMsg.Message>) returns (copies: seq<PlayerMsg.Message>)
    ensures fresh(copies) && Views(copies) == Views(from)
  {
    copies := [];
    for i := 0 to |from|
      invariant |copies| == i && forall j :: 0 <= j < i ==> fresh(copies[j]) && copies[j].View() == from[j].View()
    {
      var copy := new PlayerMsg.Message();
      copy.MergeFrom(from[i]);
      PlayerMsg.MergeDefault(from[i].View());
      copies := copies + [copy];
    }
  }

  lemma {:induction false} PlayerSizesSnoc(ps: seq<Player>, i: nat)
    requires i < |ps|
    ensures PlayerSizes(ps[..i + 1]) == PlayerSizes(ps[..i]) + LengthDelimitedSize(PlayerMsg.ByteSize(ps[i]))
  {
    if i == 0 {
      assert ps[..1][1..] == [];
    } else {
      PlayerSizesSnoc(ps[1..], i - 1);
      assert ps[..i + 1][1..] == ps[1..][..i] && ps[..i][1..] == ps[1..][..i - 1];
    }
  }

  /** One tag byte a player and the length-delimited size of each. */
  method SizePlayers(ps: seq<PlayerMsg.Message>, ghost depth: nat) returns (total: nat)
    requires AllWritable(Views(ps), depth)
    modifies ps`cachedSize
    ensures Views(ps) == old(Views(ps))
    ensures total == |ps| + PlayerSizes(Views(ps))
    ensures forall i :: 0 <= i < |ps| ==> ps[i].cachedSize == |PlayerMsg.Serialize(ps[i].View())|
  {
    hide PlayerMsg.Serialize;
    hide PlayerMsg.ByteSize;
    hide PlayerMsg.Retained;
    hide LengthDelimitedSize;
    hide Views;
    ghost var views := Views(ps);
    total := |ps|;
    for i := 0 to |ps|
      invariant Views(ps) == views
      invariant total == |ps| + PlayerSizes(views[..i])
      invariant forall j :: 0 <= j < i ==> ps[j].cachedSize == |PlayerMsg.Serialize(views[j])|
    {
      PlayerMsg.SerializedParts(views[i]);
      PlayerMsg.ByteSizeIsLength(views[i], depth);
      PlayerSizesSnoc(views, i);
      var size := ps[i].ByteSizeLong(depth);
      total := total + LengthDelimitedSize(size);
    }
    assert views[..|ps|] == views;
  }

  method WritePlayer(buf: array<Byte>, target: nat, p: PlayerMsg.Message, ghost depth: nat,
                     ghost before: Bytes, ghost start: nat, ghost done: Bytes)
    returns (end: nat)
    requires Written(before, buf[..], start, done) && target == start + |done|
    requires PlayerMsg.Retained(p.View(), depth) && PlayerMsg.Fits(p.View())
    requires p.cachedSize == |PlayerMsg.Serialize(p.View())|
    requires target + |EncodeRecord(Delimited(2, PlayerMsg.Serialize(p.View())))| <= buf.Length
    modifies buf
    ensures end == target + |EncodeRecord(Delimited(2, PlayerMsg.Serialize(p.View())))|
    ensures Written(before, buf[..], start, done + EncodeRecord(Delimited(2, PlayerMsg.Serialize(p.View()))))
  {
    hide EncodeVarint;
    hide EncodeRecord;
    hide Written;
    hide PlayerMsg.Serialize;
    ghost var body := PlayerMsg.Serialize(p.View());
    ghost var prefix := EncodeVarint(MakeTag(2, DELIMITED)) + EncodeVarint(|body|);
    DelimitedBytes(2, body);
    end := WriteLengthPrefix(buf, target, 2, p.cachedSize, before, start, done);
    ghost var was := buf[..];
    end := p.InternalSerialize(buf, end, depth);
    WrittenThen(before, was, buf[..], start, done + prefix, body);
    assert done + prefix + body == done + EncodeRecord(Delimited(2, body));
  }

  /** The loop over the repeated field. */
  method WritePlayers(buf: array<Byte>, target: nat, ps: seq<PlayerMsg.Message>, ghost depth: nat,
                      ghost before: Bytes, ghost start: nat, ghost done: Bytes)
    returns (end: nat)
    requires Written(before, buf[..], start, done) && target == start + |done|
    requires AllWritable(Views(ps), depth)
    requires forall i :: 0 <= i < |ps| ==> ps[i].cachedSize == |PlayerMsg.Serialize(ps[i].View())|
    requires target + |EncodePlayers(Views(ps))| <= buf.Length
    modifies buf
    ensures end == target + |EncodePlayers(Views(ps))|
    ensures Written(before, buf[..], start, done + EncodePlayers(Views(ps)))
  {
    hide EncodeRecord;
    hide EncodeRecords;
    hide PlayerMsg.Serialize;
    hide PlayerMsg.Retained;
    hide Views;
    hide Written;
    ghost var rs := PlayerFields(Views(ps));
    PlayerFieldsAt(Views(ps));
    end := target;
    EncodeOne(Varint(1, 0));
    assert rs[..0] == [] && done + [] == done;
    for i := 0 to |ps|
      invariant end == target + |EncodeRecords(rs[..i])|
      invariant Written(before, buf[..], start, done + EncodeRecords(rs[..i]))
    {
      PrefixEncoding(rs, i);
      end := WritePlayer(buf, end, ps[i], depth, before, start, done + EncodeRecords(rs[..i]));
      assert done + EncodeRecords(rs[..i]) + EncodeRecord(rs[i]) == done + EncodeRecords(rs[..i + 1]);
    }
    assert rs[..|ps|] == rs;
  }
}
