/**
 * A room: members under a capacity, and messages to every member's session under one lock.
 *
 * Sessions are of any type `S`; a session's log is the sequence of messages handed to its Send.
 * `Foreign` messages reach a session from elsewhere: replies of handlers and other rooms.
 */
module Rooms {
  import opened Wrappers
  import opened Wire
  import EventSizes
  import PlayerMsg
  import RoomEventMsg
  import RoomSummaryMsg
  import SendBuffers

  datatype Message =
    | Event(event: RoomEventMsg.Value)
    | Chat(roomId: UInt64, playerId: UInt64, nickname: Bytes, msg: Bytes)
    | Foreign(reply: Reply)

  /** What handlers send to the session they serve, and whatever else reaches a session. */
  datatype Reply =
    | NicknamePrompt
    | NicknameResult(error: Int32, self: Option<PlayerMsg.Value>)
    | RoomList(rooms: seq<RoomSummaryMsg.Value>)
    | CreateRoom(error: Int32, rooms: seq<RoomSummaryMsg.Value>)
    | EnterRoom(error: Int32)
    | OtherRoom(room: UInt64, data: Bytes)

  datatype Member<S> = Member(id: UInt64, name: Bytes, session: S)

  /** A room together with the sessions it can reach. */
  datatype State<S(==)> = State(
    id: UInt64,
    name: Bytes,
    max: UInt64,
    members: map<UInt64, Member<S>>,
    connected: set<S>,
    logs: map<S, seq<Message>>)

  /** At most `max` members, each under its own id, with sessions that exist. */
  ghost predicate Valid<S>(r: State<S>) {
    && |r.members| <= r.max
    && (forall k <- r.members :: r.members[k].id == k && r.members[k].session in r.logs)
  }

  function Summary<S>(r: State<S>): (v: RoomSummaryMsg.Value)
    requires |r.members| <= r.max
    ensures v.roomId == r.id && v.name == r.name && v.unknown == []
    ensures v.playerCount == |r.members| && v.maxPlayers == r.max
  {
    RoomSummaryMsg.Value(r.id, r.name, |r.members|, r.max, [])
  }

  function RoomEvent<S>(r: State<S>, kind: Int32, p: Member<S>): Message
    requires |r.members| <= r.max
  {
    Event(RoomEventMsg.Value(kind, Some(Summary(r)), p.id, p.name, []))
  }

  /** The members who speak through the session. */
  ghost function HostedKeys<S>(members: map<UInt64, Member<S>>, s: S): set<UInt64> {
    set k | k in members && members[k].session == s
  }

  ghost function Hosted<S>(members: map<UInt64, Member<S>>, s: S): nat {
    |HostedKeys(members, s)|
  }

  function Copies(m: Message, n: nat): seq<Message> {
    seq(n, i => m)
  }

  /** A session's log once `n` members have been served through it. */
  function Grown(log: seq<Message>, connected: bool, m: Message, n: nat): seq<Message> {
    if connected then log + Copies(m, n) else log
  }

  /** Session::Send drops the message unless the session is connected. */
  function SendTo<S>(r: State<S>, s: S, m: Message): (r': State<S>)
    ensures r'.logs.Keys == r.logs.Keys && r' == r.(logs := r'.logs)
  {
    if s in r.connected && s in r.logs then r.(logs := r.logs[s := r.logs[s] + [m]]) else r
  }

  /** The loop over the members: in whatever order, each member's session gets the message. */
  ghost function Deliver<S>(r: State<S>, m: Message): (r': State<S>)
    ensures r'.logs.Keys == r.logs.Keys && r' == r.(logs := r'.logs)
  {
    r.(logs := map s | s in r.logs :: Grown(r.logs[s], s in r.connected, m, Hosted(r.members, s)))
  }

  lemma SendKeepsValid<S>(r: State<S>, s: S, m: Message)
    requires Valid(r)
    ensures Valid(SendTo(r, s, m))
  {
  }

  predicate Full<S>(r: State<S>) {
    |r.members| >= r.max
  }

  ghost function Entered<S>(r: State<S>, p: Member<S>): State<S>
    requires !Full(r)
  {
    var r' := r.(members := r.members[p.id := p]);
    Deliver(r', RoomEvent(r', RoomEventMsg.PLAYER_JOINED, p))
  }

  ghost function Left<S>(r: State<S>, p: Member<S>): State<S>
    requires |r.members| <= r.max
  {
    var r' := r.(members := r.members - {p.id});
    var m := RoomEvent(r', RoomEventMsg.PLAYER_LEFT, p);
    Deliver(SendTo(r', p.session, m), m)
  }

  lemma NobodyHosted<S>(log: seq<Message>, connected: bool, m: Message, s: S)
    ensures Grown(log, connected, m, Hosted(map[], s)) == log
  {
    var empty: map<UInt64, Member<S>> := map[];
    assert HostedKeys(empty, s) == {};
    assert log + Copies(m, 0) == log;
  }

  /** One more member served: its session, and no other, has one more copy. */
  lemma HostOneMore<S>(log: seq<Message>, connected: bool, m: Message,
                       members: map<UInt64, Member<S>>, keys: set<UInt64>, k: UInt64, s: S)
    requires k in keys && k in members
    ensures Grown(log, connected, m, Hosted(members - (keys - {k}), s))
         == Grown(log, connected, m, Hosted(members - keys, s))
            + if members[k].session == s && connected then [m] else []
  {
    var less, more := HostedKeys(members - keys, s), HostedKeys(members - (keys - {k}), s);
    HostedGrows(members, keys, k, s);
    if members[k].session == s && connected {
      assert log + Copies(m, |less|) + [m] == log + Copies(m, |less| + 1);
    }
  }

  lemma HostedGrows<S>(members: map<UInt64, Member<S>>, keys: set<UInt64>, k: UInt64, s: S)
    requires k in keys && k in members
    ensures Hosted(members - (keys - {k}), s) == Hosted(members - keys, s) + if members[k].session == s then 1 else 0
  {
    var less, more := HostedKeys(members - keys, s), HostedKeys(members - (keys - {k}), s);
    assert k !in less;
    if members[k].session == s {
      assert more == less + {k};
    } else {
      assert more == less;
    }
  }

  /** A room whose sessions have got what Deliver gives them. */
  lemma Delivered<S>(was: State<S>, now: State<S>, m: Message)
    requires now == was.(logs := now.logs) && now.logs.Keys == was.logs.Keys
    requires forall s <- was.logs :: now.logs[s] == Grown(was.logs[s], s in was.connected, m, Hosted(was.members, s))
    ensures now == Deliver(was, m)
  {
    hide Hosted, Grown;
    var d := Deliver(was, m);
    assert forall s <- d.logs :: d.logs[s] == now.logs[s];
    assert d.logs == now.logs;
  }

  // ---------------------------------------------------------------- runs

  datatype Step<S> =
    | Enter(p: Member<S>)
    | Leave(p: Member<S>)
    | Broadcast(m: Message)
    | Elsewhere(s: S, reply: Reply)
    | Disconnect(s: S)

  /** A player who enters has a live session; one who leaves may have lost it. */
  predicate Enabled<S>(r: State<S>, step: Step<S>) {
    match step
    case Enter(p) => p.session in r.logs
    case Broadcast(m) => m.Chat?
    case _ => true
  }

  ghost function Apply<S>(r: State<S>, step: Step<S>): State<S>
    requires |r.members| <= r.max
  {
    match step
    case Enter(p) => if Full(r) then r else Entered(r, p)
    case Leave(p) => Left(r, p)
    case Broadcast(m) => Deliver(r, m)
    case Elsewhere(s, reply) => SendTo(r, s, Foreign(reply))
    case Disconnect(s) => r.(connected := r.connected - {s})
  }

  /** What a step says to the room. */
  ghost function Emitted<S>(r: State<S>, step: Step<S>): seq<Message>
    requires Valid(r) && Enabled(r, step)
  {
    KeepsValid(r, step);
    match step
    case Enter(p) => if Full(r) then [] else [RoomEvent(Apply(r, step), RoomEventMsg.PLAYER_JOINED, p)]
    case Leave(p) => [RoomEvent(Apply(r, step), RoomEventMsg.PLAYER_LEFT, p)]
    case Broadcast(m) => [m]
    case _ => []
  }

  /** The members after a step, whatever is sent. */
  function MembersAfter<S>(r: State<S>, step: Step<S>): map<UInt64, Member<S>> {
    match step
    case Enter(p) => if Full(r) then r.members else r.members[p.id := p]
    case Leave(p) => r.members - {p.id}
    case _ => r.members
  }

  lemma ApplyMembers<S>(r: State<S>, step: Step<S>)
    requires |r.members| <= r.max
    ensures Apply(r, step).members == MembersAfter(r, step) && Apply(r, step).max == r.max
    ensures Apply(r, step).logs.Keys == r.logs.Keys
  {
    hide Deliver, SendTo, RoomEvent;
  }

  lemma KeepsValid<S>(r: State<S>, step: Step<S>)
    requires Valid(r) && Enabled(r, step)
    ensures Valid(Apply(r, step))
    ensures Apply(r, step).logs.Keys == r.logs.Keys
  {
    hide Apply;
    ApplyMembers(r, step);
    if step.Enter? && !Full(r) {
      assert r.members[step.p.id := step.p].Keys == r.members.Keys + {step.p.id};
    } else if step.Leave? {
      assert (r.members - {step.p.id}).Keys == r.members.Keys - {step.p.id};
      assert |(r.members - {step.p.id}).Keys| <= |r.members.Keys|;
    }
  }

  /** The event of the step fits a send buffer; MakeSendBuffer never returns one for any other. */
  ghost predicate Tellable<S>(r: State<S>, step: Step<S>)
    requires Valid(r) && Enabled(r, step)
  {
    forall m <- Emitted(r, step) :: Fits(m)
  }

  predicate Fits(m: Message) {
    m.Event? ==> SendBuffers.Sendable(|RoomEventMsg.Serialize(m.event)|)
  }

  /** Short names always leave an event room to be sent. */
  lemma ShortNamesFit<S>(r: State<S>, kind: Int32, p: Member<S>)
    requires |r.members| <= r.max && |r.name| + |p.name| <= 5900
    ensures Fits(RoomEvent(r, kind, p))
  {
    EventSizes.RoomEventFits(RoomEvent(r, kind, p).event);
  }

  lemma TellableOne<S>(r: State<S>, step: Step<S>, m: Message)
    requires Valid(r) && Enabled(r, step) && (Emitted(r, step) == [m] || Emitted(r, step) == [])
    ensures Tellable(r, step) <==> Emitted(r, step) == [] || Fits(m)
  {
    hide Emitted, Fits;
    if Emitted(r, step) == [m] {
      assert m in Emitted(r, step);
    }
  }

  /** The event speaks of the room with its new members, whoever has been told so far. */
  lemma EventSaid<S>(r: State<S>, step: Step<S>, mid: State<S>)
    requires Valid(r) && Enabled(r, step) && mid == r.(members := MembersAfter(r, step)) && |mid.members| <= mid.max
    ensures step.Enter? && !Full(r) ==> Emitted(r, step) == [RoomEvent(mid, RoomEventMsg.PLAYER_JOINED, step.p)]
    ensures step.Enter? && Full(r) ==> Emitted(r, step) == []
    ensures step.Leave? ==> Emitted(r, step) == [RoomEvent(mid, RoomEventMsg.PLAYER_LEFT, step.p)]
  {
    hide Deliver, SendTo;
    KeepsValid(r, step);
    ApplyMembers(r, step);
  }

  ghost predicate Runs<S>(r: State<S>, steps: seq<Step<S>>)
    requires Valid(r)
    decreases |steps|
  {
    steps == [] ||
    (Enabled(r, steps[0]) && (KeepsValid(r, steps[0]); Runs(Apply(r, steps[0]), steps[1..])))
  }

  ghost function End<S>(r: State<S>, steps: seq<Step<S>>): State<S>
    requires Valid(r) && Runs(r, steps)
    decreases |steps|
  {
    if steps == [] then r else (KeepsValid(r, steps[0]); End(Apply(r, steps[0]), steps[1..]))
  }

  // ---------------------------------------------------------------- the room each member sees

  /** The room summary in the last room event of a log. */
  function LastSeen(log: seq<Message>): Option<RoomSummaryMsg.Value> {
    if log == [] then None
    else
      var m := log[|log| - 1];
      if m.Event? && m.event.room.Some? then m.event.room else LastSeen(log[..|log| - 1])
  }

  /** A summary as a client reads it, field by field. */
  predicate Shows(seen: Option<RoomSummaryMsg.Value>, roomId: int, name: Bytes, count: int, max: int) {
    && seen.Some?
    && seen.value.roomId == roomId
    && seen.value.name == name
    && seen.value.playerCount == count
    && seen.value.maxPlayers == max
    && seen.value.unknown == []
  }

  /** Every member with a connected session was last told the room as it now is. */
  ghost predicate UpToDate<S>(r: State<S>)
    requires Valid(r)
  {
    forall k <- r.members :: r.members[k].session in r.connected ==>
      Shows(LastSeen(r.logs[r.members[k].session]), r.id, r.name, |r.members|, r.max)
  }

  lemma {:induction false} LastSeenCopies(log: seq<Message>, m: Message, n: nat)
    ensures !m.Event? ==> LastSeen(log + Copies(m, n)) == LastSeen(log)
    ensures m.Event? && m.event.room.Some? && n > 0 ==> LastSeen(log + Copies(m, n)) == m.event.room
  {
    if n == 0 {
      assert log + Copies(m, n) == log;
    } else {
      LastSeenCopies(log, m, n - 1);
      assert (log + Copies(m, n))[..|log| + n - 1] == log + Copies(m, n - 1);
    }
  }

  lemma HostedMember<S>(members: map<UInt64, Member<S>>, k: UInt64)
    requires k in members
    ensures Hosted(members, members[k].session) > 0
  {
    assert k in HostedKeys(members, members[k].session);
  }

  lemma KeepsUpToDate<S>(r: State<S>, step: Step<S>)
    requires Valid(r) && Enabled(r, step) && UpToDate(r)
    ensures Valid(Apply(r, step)) && UpToDate(Apply(r, step))
  {
    hide LastSeen, Hosted, Copies;
    KeepsValid(r, step);
    var r' := Apply(r, step);
    forall k | k in r'.members && r'.members[k].session in r'.connected
      ensures Shows(LastSeen(r'.logs[r'.members[k].session]), r'.id, r'.name, |r'.members|, r'.max)
    {
      var s := r'.members[k].session;
      HostedMember(r'.members, k);
      match step
      case Enter(p) =>
        if !Full(r) {
          LastSeenCopies(r.logs[s], RoomEvent(r', RoomEventMsg.PLAYER_JOINED, p), Hosted(r'.members, s));
        }
      case Leave(p) =>
        var m := RoomEvent(r', RoomEventMsg.PLAYER_LEFT, p);
        LastSeenCopies(SendTo(r, p.session, m).logs[s], m, Hosted(r'.members, s));
      case Broadcast(m) =>
        LastSeenCopies(r.logs[s], m, Hosted(r.members, s));
      case Elsewhere(t, reply) =>
        LastSeenOne(r.logs[s], Foreign(reply));
      case Disconnect(t) =>
    }
  }

  lemma LastSeenOne(log: seq<Message>, m: Message)
    ensures !m.Event? ==> LastSeen(log + [m]) == LastSeen(log)
  {
    assert (log + [m])[..|log|] == log;
  }

  /**
   * In every run, say from an empty room, the room keeps to its capacity with every member under its own
   * id, and the last room event each connected member was sent shows the room as it is.
   */
  lemma {:induction false} RoomView<S>(r: State<S>, steps: seq<Step<S>>)
    requires Valid(r) && UpToDate(r) && Runs(r, steps)
    ensures Valid(End(r, steps)) && UpToDate(End(r, steps))
    decreases |steps|
  {
    hide UpToDate, Apply;
    if steps != [] {
      KeepsValid(r, steps[0]);
      KeepsUpToDate(r, steps[0]);
      RoomView(Apply(r, steps[0]), steps[1..]);
    }
  }

  // ---------------------------------------------------------------- what each operation tells

  /** The log ends with an event of this kind about this player, showing this room. */
  predicate Announces(
      log: seq<Message>, kind: int, playerId: int, nickname: Bytes, roomId: int, name: Bytes, count: int, max: int) {
    && log != []
    && var m := log[|log| - 1];
    && m.Event?
    && m.event.kind == kind
    && m.event.playerId == playerId
    && m.event.nickname == nickname
    && m.event.unknown == []
    && Shows(m.event.room, roomId, name, count, max)
  }

  lemma DeliverLast<S>(r: State<S>, m: Message, s: S)
    requires s in r.connected && s in r.logs
    ensures var log := Deliver(r, m).logs[s];
            if Hosted(r.members, s) > 0 then log != [] && log[|log| - 1] == m else log == r.logs[s]
  {
    hide Hosted;
    assert r.logs[s] + Copies(m, 0) == r.logs[s];
  }

  /** PLAYER_JOINED is 3: all members with connected sessions end on it, the new one included. */
  lemma EnterTells<S>(r: State<S>, p: Member<S>, k: UInt64)
    requires Valid(r) && Enabled(r, Enter(p)) && |r.members| < r.max
    requires var r' := Apply(r, Enter(p)); k in r'.members && r'.members[k].session in r.connected
    ensures var r' := Apply(r, Enter(p));
            && p.id in r'.members && r'.members[p.id] == p
            && r'.members[k].session in r'.logs
            && Announces(r'.logs[r'.members[k].session], 3, p.id, p.name, r.id, r.name, |r'.members|, r.max)
  {
    hide Hosted, Copies, Deliver;
    KeepsValid(r, Enter(p));
    var mid := r.(members := r.members[p.id := p]);
    HostedMember(mid.members, k);
    DeliverLast(mid, RoomEvent(mid, RoomEventMsg.PLAYER_JOINED, p), mid.members[k].session);
  }

  /** PLAYER_LEFT is 4: the members who stay end on it, and so does the player who left. */
  lemma LeaveTells<S>(r: State<S>, p: Member<S>, s: S)
    requires Valid(r) && s in r.connected && s in r.logs
    requires var r' := Apply(r, Leave(p)); s == p.session || exists k <- r'.members :: r'.members[k].session == s
    ensures var r' := Apply(r, Leave(p));
            && p.id !in r'.members && s in r'.logs
            && Announces(r'.logs[s], 4, p.id, p.name, r.id, r.name, |r'.members|, r.max)
  {
    hide Hosted, Copies, Deliver;
    KeepsValid(r, Leave(p));
    var mid := r.(members := r.members - {p.id});
    var m := RoomEvent(mid, RoomEventMsg.PLAYER_LEFT, p);
    DeliverLast(SendTo(mid, p.session, m), m, s);
    if k: UInt64 :| k in mid.members && mid.members[k].session == s {
      HostedMember(mid.members, k);
    }
  }

  lemma BroadcastTells<S>(r: State<S>, m: Message, k: UInt64)
    requires Valid(r) && k in r.members && r.members[k].session in r.connected
    ensures var log := Deliver(r, m).logs[r.members[k].session]; log != [] && log[|log| - 1] == m
  {
    HostedMember(r.members, k);
    DeliverLast(r, m, r.members[k].session);
  }

  // ---------------------------------------------------------------- one order for all members

  /** What a session was sent by this room. */
  function FromRoom(log: seq<Message>): seq<Message> {
    if log == [] then [] else
    var m := log[|log| - 1];
    FromRoom(log[..|log| - 1]) + if m.Foreign? then [] else [m]
  }

  ghost function Said<S>(r: State<S>, steps: seq<Step<S>>): seq<Message>
    requires Valid(r) && Runs(r, steps)
    decreases |steps|
  {
    if steps == [] then []
    else (KeepsValid(r, steps[0]); Emitted(r, steps[0]) + Said(Apply(r, steps[0]), steps[1..]))
  }

  /** One member speaks through the session, before and after the step, and it stays connected. */
  ghost predicate Stays<S>(r: State<S>, step: Step<S>, s: S)
    requires Valid(r)
  {
    && s in r.connected && s in r.logs && Hosted(r.members, s) == 1 && Hosted(Apply(r, step).members, s) == 1
    && !(step.Leave? && step.p.session == s) && !(step.Disconnect? && step.s == s)
  }

  ghost predicate StaysAll<S>(r: State<S>, steps: seq<Step<S>>, s: S)
    requires Valid(r) && Runs(r, steps)
    decreases |steps|
  {
    steps == [] || (Stays(r, steps[0], s) && (KeepsValid(r, steps[0]); StaysAll(Apply(r, steps[0]), steps[1..], s)))
  }

  lemma FromRoomOne(log: seq<Message>, m: Message)
    ensures FromRoom(log + [m]) == FromRoom(log) + if m.Foreign? then [] else [m]
  {
    assert (log + [m])[..|log|] == log;
  }

  lemma HearsStep<S>(r: State<S>, step: Step<S>, s: S)
    requires Valid(r) && Enabled(r, step) && Stays(r, step, s)
    ensures Apply(r, step).logs.Keys == r.logs.Keys
    ensures FromRoom(Apply(r, step).logs[s]) == FromRoom(r.logs[s]) + Emitted(r, step)
  {
    hide FromRoom, Hosted;
    KeepsValid(r, step);
    var emitted := Emitted(r, step);
    if emitted != [] {
      FromRoomOne(r.logs[s], emitted[0]);
      assert Copies(emitted[0], 1) == emitted;
    } else if step.Elsewhere? {
      FromRoomOne(r.logs[s], Foreign(step.reply));
    }
  }

  /**
   * Any two members who stay through a run are sent the same messages in the same order: what
   * each of their sessions gets from the room is exactly what the room says.
   */
  lemma {:induction false} TotalOrder<S>(r: State<S>, steps: seq<Step<S>>, s: S, t: S)
    requires Valid(r) && Runs(r, steps) && s in r.logs && t in r.logs
    requires StaysAll(r, steps, s) && StaysAll(r, steps, t)
    ensures s in End(r, steps).logs && t in End(r, steps).logs
    ensures FromRoom(End(r, steps).logs[s]) == FromRoom(r.logs[s]) + Said(r, steps)
    ensures FromRoom(End(r, steps).logs[t]) == FromRoom(r.logs[t]) + Said(r, steps)
    decreases |steps|
  {
    hide FromRoom, Apply, Emitted, Stays;
    if steps != [] {
      KeepsValid(r, steps[0]);
      HearsStep(r, steps[0], s);
      HearsStep(r, steps[0], t);
      TotalOrder(Apply(r, steps[0]), steps[1..], s, t);
    }
  }

  // ---------------------------------------------------------------- sessions shared by several members

  /** How often a step's message goes through the session: once for each member it serves. */
  ghost function Served<S>(r: State<S>, step: Step<S>, s: S): nat
    requires Valid(r)
  {
    Hosted(MembersAfter(r, step), s) + if step.Leave? && step.p.session == s then 1 else 0
  }

  /** The session serves some member, stays connected, and misses nothing. */
  ghost predicate Listens<S>(r: State<S>, step: Step<S>, s: S)
    requires Valid(r)
  {
    s in r.connected && s in r.logs && Served(r, step, s) > 0 && !(step.Disconnect? && step.s == s)
  }

  ghost predicate ListensAll<S>(r: State<S>, steps: seq<Step<S>>, s: S)
    requires Valid(r) && Runs(r, steps)
    decreases |steps|
  {
    steps == [] ||
    (Listens(r, steps[0], s) && (KeepsValid(r, steps[0]); ListensAll(Apply(r, steps[0]), steps[1..], s)))
  }

  /** Each message as often as its count says. */
  function Stretch(said: seq<Message>, counts: seq<nat>): seq<Message>
    requires |said| == |counts|
  {
    if said == [] then [] else Copies(said[0], counts[0]) + Stretch(said[1..], counts[1..])
  }

  lemma {:induction false} FromRoomCopies(log: seq<Message>, m: Message, n: nat)
    requires !m.Foreign?
    ensures FromRoom(log + Copies(m, n)) == FromRoom(log) + Copies(m, n)
  {
    hide FromRoom;
    if n == 0 {
      assert log + Copies(m, n) == log;
    } else {
      FromRoomCopies(log, m, n - 1);
      FromRoomOne(log + Copies(m, n - 1), m);
      assert Copies(m, n) == Copies(m, n - 1) + [m];
      assert log + Copies(m, n) == log + Copies(m, n - 1) + [m];
    }
  }

  lemma ListensStep<S>(r: State<S>, step: Step<S>, s: S) returns (counts: seq<nat>)
    requires Valid(r) && Enabled(r, step) && Listens(r, step, s)
    ensures s in Apply(r, step).logs
    ensures |counts| == |Emitted(r, step)| && forall n <- counts :: n > 0
    ensures FromRoom(Apply(r, step).logs[s]) == FromRoom(r.logs[s]) + Stretch(Emitted(r, step), counts)
  {
    KeepsValid(r, step);
    var emitted := Emitted(r, step);
    if emitted == [] {
      counts := [];
      if step.Elsewhere? {
        FromRoomOne(r.logs[s], Foreign(step.reply));
      }
    } else {
      var n := Served(r, step, s);
      counts := [n];
      GrowsBy(r, step, s, emitted[0]);
      FromRoomCopies(r.logs[s], emitted[0], n);
      assert emitted == [emitted[0]] && Stretch(emitted, counts) == Copies(emitted[0], n) + Stretch([], []);
    }
  }

  /** The log after a step that says something. */
  lemma GrowsBy<S>(r: State<S>, step: Step<S>, s: S, m: Message)
    requires Valid(r) && Enabled(r, step) && Listens(r, step, s) && Emitted(r, step) == [m]
    ensures s in Apply(r, step).logs && Apply(r, step).logs[s] == r.logs[s] + Copies(m, Served(r, step, s))
  {
    hide Hosted;
    KeepsValid(r, step);
    if step.Leave? && step.p.session == s {
      var n := Hosted(MembersAfter(r, step), s);
      assert r.logs[s] + [m] + Copies(m, n) == r.logs[s] + Copies(m, n + 1);
    }
  }

  lemma {:induction false} StretchMore(a: seq<Message>, m: seq<nat>, b: seq<Message>, n: seq<nat>)
    requires |a| == |m| && |b| == |n|
    ensures Stretch(a + b, m + n) == Stretch(a, m) + Stretch(b, n)
  {
    if a == [] {
      assert a + b == b && m + n == n;
    } else {
      assert (a + b)[1..] == a[1..] + b && (m + n)[1..] == m[1..] + n;
      StretchMore(a[1..], m[1..], b, n);
    }
  }

  /**
   * However many members a session serves, and however many come and go behind it, as long as it
   * serves one and stays connected it is sent all the room says in the room's order, each message
   * once or several times in a row.  So any two such sessions get the same order.
   */
  lemma {:induction false} TotalOrderShared<S>(r: State<S>, steps: seq<Step<S>>, s: S) returns (counts: seq<nat>)
    requires Valid(r) && Runs(r, steps) && s in r.logs && ListensAll(r, steps, s)
    ensures s in End(r, steps).logs && |counts| == |Said(r, steps)| && forall n <- counts :: n > 0
    ensures FromRoom(End(r, steps).logs[s]) == FromRoom(r.logs[s]) + Stretch(Said(r, steps), counts)
    decreases |steps|
  {
    hide FromRoom, Apply, Emitted, Listens, Stretch;
    if steps == [] {
      counts := [];
      StretchNothing();
    } else {
      KeepsValid(r, steps[0]);
      var next := Apply(r, steps[0]);
      var first := ListensStep(r, steps[0], s);
      var rest := TotalOrderShared(next, steps[1..], s);
      counts := first + rest;
      StretchMore(Emitted(r, steps[0]), first, Said(next, steps[1..]), rest);
    }
  }

  lemma StretchNothing()
    ensures Stretch([], []) == []
  {
  }

  // ---------------------------------------------------------------- what the events tell

  /** The members by id and name. */
  function Roster<S>(r: State<S>): map<UInt64, Bytes> {
    map k | k in r.members :: r.members[k].name
  }

  /** A client's bookkeeping: join events add a player, leave events take one away. */
  function Replay(roster: map<UInt64, Bytes>, heard: seq<Message>): map<UInt64, Bytes>
    decreases |heard|
  {
    if heard == [] then roster else Replay(ReplayOne(roster, heard[0]), heard[1..])
  }

  function ReplayOne(roster: map<UInt64, Bytes>, m: Message): map<UInt64, Bytes> {
    if m.Event? && m.event.kind == RoomEventMsg.PLAYER_JOINED then roster[m.event.playerId := m.event.nickname]
    else if m.Event? && m.event.kind == RoomEventMsg.PLAYER_LEFT then roster - {m.event.playerId}
    else roster
  }

  /** How a step changes the roster, whatever is said. */
  function RosterAfter<S>(r: State<S>, step: Step<S>): map<UInt64, Bytes> {
    match step
    case Enter(p) => if Full(r) then Roster(r) else Roster(r)[p.id := p.name]
    case Leave(p) => Roster(r) - {p.id}
    case _ => Roster(r)
  }

  lemma RosterChanges<S>(r: State<S>, step: Step<S>)
    requires |r.members| <= r.max
    ensures Roster(Apply(r, step)) == RosterAfter(r, step)
  {
    hide Apply, Roster;
    ApplyMembers(r, step);
    var now := Apply(r, step);
    SameRoster(r, now);
    match step
    case Enter(p) => RosterUpdate(r, now, p);
    case Leave(p) => RosterUpdate(r, now, p);
    case _ =>
  }

  lemma SameRoster<S>(r: State<S>, now: State<S>)
    ensures now.members == r.members ==> Roster(now) == Roster(r)
  {
  }

  lemma RosterUpdate<S>(r: State<S>, now: State<S>, p: Member<S>)
    ensures now.members == r.members[p.id := p] ==> Roster(now) == Roster(r)[p.id := p.name]
    ensures now.members == r.members - {p.id} ==> Roster(now) == Roster(r) - {p.id}
  {
  }

  lemma StepTellsRoster<S>(r: State<S>, step: Step<S>)
    requires Valid(r) && Enabled(r, step)
    ensures Replay(Roster(r), Emitted(r, step)) == Roster(Apply(r, step))
  {
    hide Apply, Replay, Roster, Summary;
    KeepsValid(r, step);
    RosterChanges(r, step);
    var said, roster := Emitted(r, step), Roster(r);
    if said == [] {
      ReplayNone(roster);
    } else {
      ReplaySingle(roster, said[0]);
      assert said == [said[0]];
    }
  }

  lemma ReplayNone(roster: map<UInt64, Bytes>)
    ensures Replay(roster, []) == roster
  {
  }

  lemma ReplaySingle(roster: map<UInt64, Bytes>, m: Message)
    ensures Replay(roster, [m]) == ReplayOne(roster, m)
  {
    assert [m][1..] == [];
  }

  lemma {:induction false} ReplayMore(roster: map<UInt64, Bytes>, a: seq<Message>, b: seq<Message>)
    ensures Replay(roster, a + b) == Replay(Replay(roster, a), b)
    decreases |a|
  {
    if a == [] {
      assert a + b == b;
    } else {
      assert (a + b)[1..] == a[1..] + b;
      ReplayMore(ReplayOne(roster, a[0]), a[1..], b);
    }
  }

  /**
   * The room events of a run tell exactly what happened: replayed from the members at its start
   * they give the members at its end, with the names they entered under.
   */
  lemma {:induction false} EventsTellRoster<S>(r: State<S>, steps: seq<Step<S>>)
    requires Valid(r) && Runs(r, steps)
    ensures Replay(Roster(r), Said(r, steps)) == Roster(End(r, steps))
    decreases |steps|
  {
    hide Apply, Emitted, Roster, ReplayOne;
    if steps != [] {
      KeepsValid(r, steps[0]);
      StepTellsRoster(r, steps[0]);
      EventsTellRoster(Apply(r, steps[0]), steps[1..]);
      ReplayMore(Roster(r), Emitted(r, steps[0]), Said(Apply(r, steps[0]), steps[1..]));
    }
  }
}
