/**
 * Who is where: the members of every room against the room each player believes to be in.
 *
 * The two are updated separately: Room::Enter and Room::Leave change the member map, and the
 * handlers set the player's own room id afterwards, whatever Enter answered.
 */
module Membership {
  import opened Wrappers
  import opened Wire

  /** What the leave handler writes, -1 as an unsigned 64-bit number. */
  const NOWHERE: UInt64 := UINT64_LIMIT - 1

  datatype Place = Place(max: UInt64, members: set<UInt64>)

  datatype World = World(rooms: map<UInt64, Place>, where: map<UInt64, UInt64>, nextRoom: UInt64, nextPlayer: UInt64)

  const START := World(map[], map[], 1, 1)

  datatype Step =
    | Register
    | Create(max: UInt64)
    | Join(room: UInt64, player: UInt64)
    | Leave(player: UInt64)

  /** Handlers are called with registered players and, to join, with an existing room; ids are left. */
  predicate Enabled(w: World, step: Step) {
    match step
    case Register => w.nextPlayer < NOWHERE
    case Create(_) => w.nextRoom < NOWHERE
    case Join(room, player) => room in w.rooms && player in w.where
    case Leave(player) => player in w.where
  }

  predicate Full(p: Place) {
    |p.members| >= p.max
  }

  /** GetRoomFromPlayerId. */
  function RoomOf(w: World, player: UInt64): Option<UInt64>
    requires player in w.where
  {
    var room := w.where[player];
    if room == NOWHERE || room !in w.rooms then None else Some(room)
  }

  /** A new player, in room 0, which is none. */
  function WithPlayer(w: World): World {
    w.(where := w.where[w.nextPlayer := 0], nextPlayer := (w.nextPlayer + 1) % UINT64_LIMIT)
  }

  /** A new room. */
  function WithRoom(w: World, max: UInt64): World {
    w.(rooms := w.rooms[w.nextRoom := Place(max, {})], nextRoom := (w.nextRoom + 1) % UINT64_LIMIT)
  }

  function Apply(w: World, step: Step): World
    requires Enabled(w, step)
  {
    match step
    case Register => WithPlayer(w)
    case Create(max) => WithRoom(w, max)
    case Join(room, player) =>
      var place := w.rooms[room];
      w.(rooms := if Full(place) then w.rooms else w.rooms[room := place.(members := place.members + {player})],
         where := w.where[player := room])
    case Leave(player) =>
      match RoomOf(w, player)
      case None => w
      case Some(room) =>
        var place := w.rooms[room];
        w.(rooms := w.rooms[room := place.(members := place.members - {player})], where := w.where[player := NOWHERE])
  }

  /** A step that cannot be taken changes nothing. */
  function Next(w: World, step: Step): World {
    if Enabled(w, step) then Apply(w, step) else w
  }

  /** Ids come from the counters, rooms hold registered players and keep to their capacity. */
  ghost predicate Sane(w: World) {
    && 1 <= w.nextRoom <= NOWHERE
    && (forall r <- w.rooms :: 1 <= r < w.nextRoom && w.rooms[r].members <= w.where.Keys
                               && |w.rooms[r].members| <= w.rooms[r].max)
    && (forall p <- w.where :: p < w.nextPlayer && (w.where[p] < w.nextRoom || w.where[p] == NOWHERE))
  }

  lemma KeepsSane(w: World, step: Step)
    requires Sane(w) && Enabled(w, step)
    ensures Sane(Apply(w, step))
  {
    if step.Leave? && RoomOf(w, step.player).Some? {
      var members := w.rooms[RoomOf(w, step.player).value].members;
      assert |members - {step.player}| <= |members|;
    }
  }

  /** A player is in a room's member map exactly when it believes to be there. */
  ghost predicate Agrees(w: World) {
    forall r, p :: r in w.rooms && p in w.where ==> (p in w.rooms[r].members <==> w.where[p] == r)
  }

  /** The join the rest of the program relies on. */
  predicate GoodStep(w: World, step: Step)
    requires Enabled(w, step)
  {
    step.Join? ==>
      w.where[step.player] == step.room || (w.where[step.player] !in w.rooms && !Full(w.rooms[step.room]))
  }

  /**
   * A step keeps rooms and players in agreement exactly when, if it is a join, the player is in no
   * room and the room has space, or the player is joining the room it is in.
   */
  lemma AgreementStep(w: World, step: Step)
    requires Sane(w) && Agrees(w) && Enabled(w, step)
    ensures Agrees(Apply(w, step)) <==> GoodStep(w, step)
  {
    if step.Join? && !GoodStep(w, step) {
      var w', from := Apply(w, step), w.where[step.player];
      if from in w.rooms {
        assert step.player in w'.rooms[from].members && w'.where[step.player] != from;
      } else {
        assert step.player !in w'.rooms[step.room].members && w'.where[step.player] == step.room;
      }
    }
  }

  /** No room has more members than it may. */
  ghost predicate RoomsFit(w: World) {
    forall r <- w.rooms :: |w.rooms[r].members| <= w.rooms[r].max
  }

  lemma NewRoomFits(w: World, max: UInt64)
    requires RoomsFit(w)
    ensures RoomsFit(WithRoom(w, max))
  {
  }

  /** What a join writes, as the handler leaves it. */
  lemma JoinWrites(was: World, now: World, room: UInt64, player: UInt64, members: set<UInt64>)
    requires room in was.rooms && player in was.where
    requires members == was.rooms[room].members + if Full(was.rooms[room]) then {} else {player}
    requires now == was.(rooms := was.rooms[room := was.rooms[room].(members := members)],
                         where := was.where[player := room])
    ensures now == Next(was, Join(room, player))
  {
    if Full(was.rooms[room]) {
      assert was.rooms[room := was.rooms[room]] == was.rooms;
    }
  }

  /** What a leave of a player in a room writes. */
  lemma LeaveWrites(was: World, now: World, room: UInt64, player: UInt64, members: set<UInt64>)
    requires room in was.rooms && player in was.where && RoomOf(was, player) == Some(room)
    requires members == was.rooms[room].members - {player}
    requires now == was.(rooms := was.rooms[room := was.rooms[room].(members := members)],
                         where := was.where[player := NOWHERE])
    ensures now == Next(was, Leave(player))
  {
  }

  predicate Runs(w: World, steps: seq<Step>)
    decreases |steps|
  {
    steps == [] || (Enabled(w, steps[0]) && Runs(Apply(w, steps[0]), steps[1..]))
  }

  ghost predicate AlwaysAgrees(w: World, steps: seq<Step>)
    requires Runs(w, steps)
    decreases |steps|
  {
    Agrees(w) && (steps != [] ==> AlwaysAgrees(Apply(w, steps[0]), steps[1..]))
  }

  predicate AllGood(w: World, steps: seq<Step>)
    requires Runs(w, steps)
    decreases |steps|
  {
    steps != [] ==> GoodStep(w, steps[0]) && AllGood(Apply(w, steps[0]), steps[1..])
  }

  lemma {:induction false} AgreementFrom(w: World, steps: seq<Step>)
    requires Sane(w) && Agrees(w) && Runs(w, steps)
    ensures AlwaysAgrees(w, steps) <==> AllGood(w, steps)
    decreases |steps|
  {
    hide Sane, Agrees, GoodStep;
    if steps != [] {
      KeepsSane(w, steps[0]);
      AgreementStep(w, steps[0]);
      if Agrees(Apply(w, steps[0])) {
        AgreementFrom(Apply(w, steps[0]), steps[1..]);
      }
    }
  }

  /** Member maps and players agree all through a run exactly when every join in it is a good one. */
  lemma MembershipAgreement(steps: seq<Step>)
    requires Runs(START, steps)
    ensures AlwaysAgrees(START, steps) <==> AllGood(START, steps)
  {
    AgreementFrom(START, steps);
  }

  /** Where they agree, GetRoomFromPlayerId finds the one room that has the player as a member. */
  lemma LookupFindsRoom(w: World, player: UInt64, room: UInt64)
    requires Sane(w) && Agrees(w) && player in w.where
    ensures RoomOf(w, player) == Some(room) <==> room in w.rooms && player in w.rooms[room].members
    ensures RoomOf(w, player) == None <==> forall r <- w.rooms :: player !in w.rooms[r].members
  {
    if RoomOf(w, player) == None && room in w.rooms {
      assert w.where[player] != room;
    }
  }

  /** A second player joins a room of one: refused, and yet it believes to be a member. */
  lemma FullRoomBreaksAgreement() returns (steps: seq<Step>)
    ensures Runs(START, steps) && !AlwaysAgrees(START, steps)
    ensures forall i, j ::
              0 <= i < j < |steps| && steps[i].Join? && steps[j].Join? ==> steps[i].player != steps[j].player
  {
    steps := [Create(1), Register, Register, Join(1, 1), Join(1, 2)];
    var w1 := Apply(START, Create(1));
    var w2 := Apply(w1, Register);
    var w3 := Apply(w2, Register);
    var w4 := Apply(w3, Join(1, 1));
    assert w4.rooms[1].members == {1};
    var w5 := Apply(w4, Join(1, 2));
    assert 1 in w5.rooms && 2 in w5.where && 2 !in w5.rooms[1].members && w5.where[2] == 1;
    assert steps[1..] == [Register, Register, Join(1, 1), Join(1, 2)];
    assert steps[1..][1..] == [Register, Join(1, 1), Join(1, 2)];
    assert steps[1..][1..][1..] == [Join(1, 1), Join(1, 2)];
    assert steps[1..][1..][1..][1..] == [Join(1, 2)];
    assert Runs(w4, [Join(1, 2)]) && !AlwaysAgrees(w4, [Join(1, 2)]);
  }

  /** A player joins a second room with space: it is a member of both and believes in one. */
  lemma SecondRoomBreaksAgreement() returns (steps: seq<Step>)
    ensures Runs(START, steps) && !AlwaysAgrees(START, steps)
    ensures forall step <- steps :: step.Create? ==> step.max == 16
  {
    steps := [Create(16), Create(16), Register, Join(1, 1), Join(2, 1)];
    var w1 := Apply(START, Create(16));
    var w2 := Apply(w1, Create(16));
    var w3 := Apply(w2, Register);
    var w4 := Apply(w3, Join(1, 1));
    assert w4.rooms[1].members == {1} && w4.rooms[2].members == {};
    var w5 := Apply(w4, Join(2, 1));
    assert 1 in w5.rooms && 1 in w5.where && 1 in w5.rooms[1].members && w5.where[1] == 2;
    assert steps[1..] == [Create(16), Register, Join(1, 1), Join(2, 1)];
    assert steps[1..][1..] == [Register, Join(1, 1), Join(2, 1)];
    assert steps[1..][1..][1..] == [Join(1, 1), Join(2, 1)];
    assert steps[1..][1..][1..][1..] == [Join(2, 1)];
    assert Runs(w4, [Join(2, 1)]) && !AlwaysAgrees(w4, [Join(2, 1)]);
  }
}
