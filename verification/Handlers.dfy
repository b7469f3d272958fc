/**
 * The packet handlers of the server, as transitions over the manager, its rooms and players.
 *
 * `reach` holds the live sessions.  Where the source would follow a null pointer the handler
 * reports NullUse, and where MakeSendBuffer stops the process Stopped; nothing is said about the
 * state then.
 */
module Handlers {
  import opened Wrappers
  import opened Wire
  import opened Rooms
  import opened RoomObjects
  import opened Managers
  import Membership
  import PlayerMsg
  import Registry
  import RoomSummaryMsg

  const OK: Int32 := 0
  const DUPLICATE_NICK: Int32 := 2
  const ROOM_NOT_FOUND: Int32 := 3
  const ROOM_FULL: Int32 := 4

  datatype Handled = Returned(ok: bool) | NullUse | Stopped

  /** What the handlers may rely on about the room. */
  ghost predicate RoomReady(m: GameSessionManager, room: UInt64, reach: set<GameSession>)
    reads m, m.roomIdToRoom.Values, reach,
          if room in m.roomIdToRoom then m.roomIdToRoom[room].players.Values else {}
  {
    room in m.roomIdToRoom ==> Valid(m.roomIdToRoom[room].View(reach))
  }

  /** A registered player's session is alive. */
  ghost predicate PlayerReady(m: GameSessionManager, player: UInt64, reach: set<GameSession>)
    reads m, m.playerIdToPlayer.Values
  {
    player in m.playerIdToPlayer ==> m.playerIdToPlayer[player].ownerSession in reach
  }

  /** The registered players and rooms are as in `was`, but for one room's members and one player. */
  lemma WorldAfter(m: GameSessionManager, room: UInt64, player: UInt64, was: Membership.World)
    requires room in m.roomIdToRoom && player in m.playerIdToPlayer
    requires m.roomId == was.nextRoom && m.playerId == was.nextPlayer
    requires m.roomIdToRoom.Keys == was.rooms.Keys && m.playerIdToPlayer.Keys == was.where.Keys
    requires forall i <- m.roomIdToRoom :: m.roomIdToRoom[i].maxPlayerCount == was.rooms[i].max
    requires forall i <- m.roomIdToRoom :: i != room ==> m.roomIdToRoom[i].players.Keys == was.rooms[i].members
    requires forall i <- m.playerIdToPlayer :: i != player ==> m.playerIdToPlayer[i].roomId == was.where[i]
    ensures m.World() == was.(
        rooms := was.rooms[room := was.rooms[room].(members := m.roomIdToRoom[room].players.Keys)],
        where := was.where[player := m.playerIdToPlayer[player].roomId])
  {
  }

  /** The room after a join: everybody told, then the reply to the session that asked. */
  ghost function Joined(was: State<GameSession?>, p: Member<GameSession?>, session: GameSession): State<GameSession?>
    requires |was.members| <= was.max
  {
    SendTo(Apply(was, Enter(p)), session, Foreign(EnterRoom(if Full(was) then ROOM_FULL else OK)))
  }

  predicate EndsWith(log: seq<Message>, m: Message) {
    log != [] && log[|log| - 1] == m
  }

  /** The part of the join handler behind the two lookups. */
  method JoinRoom(room: Room, player: Player, session: GameSession, ghost reach: set<GameSession>)
    returns (stopped: bool)
    requires session in reach && Valid(room.View(reach)) && player.ownerSession in reach
    requires Enabled(room.View(reach), Enter(player.AsMember()))
    modifies room`players, player`roomId, reach`log
    ensures stopped <==> !Tellable(old(room.View(reach)), Enter(old(player.AsMember())))
    ensures !stopped ==> room.View(reach) == Joined(old(room.View(reach)), player.AsMember(), session)
    ensures room.players == if |old(room.players)| < room.maxPlayerCount
                            then old(room.players)[player.playerId := player] else old(room.players)
    ensures !stopped ==> player.roomId == room.id
    ensures !stopped && session.connected ==>
              EndsWith(session.log, Foreign(EnterRoom(if |old(room.players)| < room.maxPlayerCount then 0 else 4)))
  {
    hide Valid, Apply, Tellable, Room.View;
    var ok;
    ok, stopped := room.Enter(player, reach);
    if !stopped {
      room.SendReply(session, EnterRoom(if ok then OK else ROOM_FULL), reach);
      room.StoreRoomId(player, room.id, reach);
    }
  }

  /** Handle_C_JOIN_ROOM: the player's room id is set whatever Enter answered. */
  method HandleJoinRoom(
      m: GameSessionManager, session: GameSession, roomId: UInt64, selfId: UInt64, ghost reach: set<GameSession>)
    returns (r: Handled)
    requires m.Valid() && session in reach && RoomReady(m, roomId, reach) && PlayerReady(m, selfId, reach)
    modifies m.roomIdToRoom.Values`players, m.playerIdToPlayer.Values`roomId, reach`log
    ensures r.NullUse? <==> roomId !in m.roomIdToRoom || selfId !in m.playerIdToPlayer
    ensures !r.NullUse? ==> (r.Stopped? <==> !CanTell(old(m.roomIdToRoom[roomId].View(reach)),
                                                      Enter(old(m.playerIdToPlayer[selfId].AsMember()))))
    ensures r.Returned? ==> r.ok && m.World() == Membership.Next(old(m.World()), Membership.Join(roomId, selfId))
    ensures r.Returned? ==>
              m.roomIdToRoom[roomId].View(reach)
              == Joined(old(m.roomIdToRoom[roomId].View(reach)), m.playerIdToPlayer[selfId].AsMember(), session)
    ensures r.Returned? ==>
              var room, had := m.roomIdToRoom[roomId], old(m.roomIdToRoom[roomId].players);
              var player := m.playerIdToPlayer[selfId];
              && player.roomId == roomId
              && (if |had| < room.maxPlayerCount
                  then room.players == had[selfId := player] && (session.connected ==>
                         EndsWith(session.log, Foreign(EnterRoom(0))))
                  else room.players == had && (session.connected ==> EndsWith(session.log, Foreign(EnterRoom(4)))))
    ensures roomId !in m.roomIdToRoom && session.connected ==> EndsWith(session.log, Foreign(EnterRoom(3)))
  {
    hide Valid, Joined, Tellable, Room.View, GameSessionManager.Valid, GameSessionManager.World;
    ghost var was := m.World();
    SeeWorld(m);
    var room := m.GetRoomById(roomId);
    var player := m.GetPlayerById(selfId);
    if room == null {
      session.Send(Foreign(EnterRoom(ROOM_NOT_FOUND)));
      return NullUse;
    }
    if player == null {
      return NullUse;
    }
    OwnIds(m);
    room.SeeView(reach);
    var stopped := JoinRoom(room, player, session, reach);
    if stopped {
      return Stopped;
    }
    WorldAfter(m, roomId, selfId, was);
    Membership.JoinWrites(was, m.World(), roomId, selfId, room.players.Keys);
    return Returned(true);
  }

  /** The step is possible and its event, if there is one, fits a send buffer. */
  ghost predicate CanTell(r: State<GameSession?>, step: Rooms.Step<GameSession?>) {
    Valid(r) && Enabled(r, step) && Tellable(r, step)
  }

  /** The part of the leave handler behind the lookups. */
  method LeaveRoom(room: Room, player: Player, ghost reach: set<GameSession>) returns (stopped: bool)
    requires Valid(room.View(reach)) && player.ownerSession in reach
    modifies room`players, player`roomId, reach`log
    ensures stopped <==> !Tellable(old(room.View(reach)), Leave(old(player.AsMember())))
    ensures !stopped ==> room.View(reach) == Left(old(room.View(reach)), player.AsMember())
    ensures room.players == old(room.players) - {player.playerId}
    ensures !stopped ==> player.roomId == Membership.NOWHERE
  {
    hide Valid, Left, Tellable, Room.View;
    stopped := room.Leave(player, reach);
    if !stopped {
      room.StoreRoomId(player, Membership.NOWHERE, reach);
    }
  }

  /** Handle_C_LEAVE_ROOM: a player in no room is turned away, any other leaves the room it is in. */
  method HandleLeaveRoom(m: GameSessionManager, selfId: UInt64, ghost reach: set<GameSession>) returns (r: Handled)
    requires m.Valid() && PlayerReady(m, selfId, reach)
    requires selfId in m.playerIdToPlayer ==> RoomReady(m, m.playerIdToPlayer[selfId].roomId, reach)
    modifies m.roomIdToRoom.Values`players, m.playerIdToPlayer.Values`roomId, reach`log
    ensures r.NullUse? <==> selfId !in m.playerIdToPlayer
    ensures r.Stopped? <==>
              && selfId in m.playerIdToPlayer && old(m.GetRoomFromPlayerId(selfId)) != null
              && !CanTell(old(m.GetRoomFromPlayerId(selfId).View(reach)),
                          Leave(old(m.playerIdToPlayer[selfId].AsMember())))
    ensures r.Returned? ==> (r.ok <==> old(m.GetRoomFromPlayerId(selfId)) != null)
    ensures r.Returned? ==> m.World() == Membership.Next(old(m.World()), Membership.Leave(selfId))
    ensures r.Returned? && r.ok ==>
              && m.playerIdToPlayer[selfId].roomId == 0xFFFF_FFFF_FFFF_FFFF
              && old(m.GetRoomFromPlayerId(selfId)).players == old(m.GetRoomFromPlayerId(selfId).players) - {selfId}
    ensures r.Returned? && r.ok ==>
              old(m.GetRoomFromPlayerId(selfId)).View(reach)
              == Left(old(m.GetRoomFromPlayerId(selfId).View(reach)), m.playerIdToPlayer[selfId].AsMember())
  {
    hide Valid, Left, Tellable, Room.View, GameSessionManager.Valid, GameSessionManager.World;
    ghost var was := m.World();
    SeeWorld(m);
    if m.GetPlayerById(selfId) == null {
      return NullUse;
    }
    m.RoomOfPlayer(selfId);
    var room := m.GetRoomFromPlayerId(selfId);
    if room == null {
      return Returned(false);
    }
    OwnIds(m);
    var player := m.GetPlayerById(selfId);
    var stopped := LeaveRoom(room, player, reach);
    if stopped {
      return Stopped;
    }
    WorldAfter(m, room.id, selfId, was);
    Membership.LeaveWrites(was, m.World(), room.id, selfId, room.players.Keys);
    return Returned(true);
  }

  /** Handle_C_CHAT_ROOM: what the packet says goes to everybody in the player's room. */
  method HandleChatRoom(
      m: GameSessionManager, selfId: UInt64, selfName: Bytes, msg: Bytes, ghost reach: set<GameSession>)
    returns (r: Handled)
    requires selfId in m.playerIdToPlayer ==> RoomReady(m, m.playerIdToPlayer[selfId].roomId, reach)
    modifies reach`log
    ensures r.NullUse? <==> selfId !in m.playerIdToPlayer || m.GetRoomFromPlayerId(selfId) == null
    ensures r.Returned? ==>
              var room := m.GetRoomFromPlayerId(selfId);
              && r.ok && room.View(reach) == Deliver(old(room.View(reach)), Chat(room.id, selfId, selfName, msg))
              && forall k <- room.players ::
                   room.players[k].ownerSession in reach && room.players[k].ownerSession.connected ==>
                     EndsWith(room.players[k].ownerSession.log, Chat(room.id, selfId, selfName, msg))
  {
    hide Valid, Deliver, Room.View;
    if m.GetPlayerById(selfId) == null {
      return NullUse;
    }
    var room := m.GetRoomFromPlayerId(selfId);
    if room == null {
      return NullUse;
    }
    room.Broadcast(Chat(room.id, selfId, selfName, msg), reach);
    return Returned(true);
  }

  method BuildPlayer(name: Bytes) returns (player: Player)
    ensures fresh(player) && player.playerId == 1 && player.name == name && player.roomId == 0
  {
    player := new Player();
    player.playerId := 1;
    player.name := name;
  }

  /** The new player of the nickname handler, offered to the manager. */
  method OfferPlayer(m: GameSessionManager, name: Bytes) returns (ok: bool, player: Player)
    modifies m
    ensures fresh(player) && m.PlayerIndex() == Registry.Add(old(m.PlayerIndex()), name)
    ensures ok <==> name !in old(m.playerNameToId)
    ensures ok ==> player.playerId == old(m.playerId) && m.GetPlayerByName(name) == player
    ensures player.name == name && player.roomId == 0
    ensures m.World() == if ok then Membership.WithPlayer(old(m.World())) else old(m.World())
    ensures old(m.Valid()) && old(m.playerId) < Membership.NOWHERE ==> m.Valid()
  {
    hide GameSessionManager.World, Registry.Add, GameSessionManager.PlayerIndex, GameSessionManager.Valid;
    ghost var was := m.World();
    SeeWorld(m);
    player := BuildPlayer(name);
    ok := m.AddPlayer(player);
    if ok {
      WorldIs(m, Membership.WithPlayer(was));
    } else {
      WorldIs(m, was);
    }
  }

  method SetOwner(m: GameSessionManager, player: Player, session: GameSession)
    modifies player`ownerSession
    ensures m.Valid() == old(m.Valid()) && m.World() == old(m.World()) && m.PlayerIndex() == old(m.PlayerIndex())
    ensures player.ownerSession == session
    ensures player.playerId == old(player.playerId) && player.name == old(player.name)
    ensures player.roomId == old(player.roomId)
  {
    player.ownerSession := session;
  }

  /**
   * Handle_C_SET_NICKNAME: a free name registers a new player that owns the session.  Until the id
   * counter reaches its end the manager stays valid.
   */
  method HandleSetNickname(m: GameSessionManager, session: GameSession, name: Bytes)
    returns (ok: bool, ghost player: Player)
    modifies m, session`log
    ensures m.PlayerIndex() == Registry.Add(old(m.PlayerIndex()), name)
    ensures ok <==> name !in old(m.playerNameToId)
    ensures ok ==> m.GetPlayerByName(name) == player && player.ownerSession == session && fresh(player)
    ensures ok ==> player.playerId == old(m.playerId) && player.name == name && player.roomId == 0
    ensures m.World() == if ok then Membership.WithPlayer(old(m.World())) else old(m.World())
    ensures old(m.Valid()) && old(m.playerId) < Membership.NOWHERE ==> m.Valid()
    ensures !session.connected ==> session.log == old(session.log)
    ensures session.connected && ok ==>
              session.log == old(session.log)
                             + [Foreign(NicknameResult(0, Some(PlayerMsg.Value(old(m.playerId), name, []))))]
    ensures session.connected && !ok ==>
              session.log == old(session.log) + [Foreign(NicknameResult(2, None)), Foreign(NicknamePrompt)]
  {
    hide GameSessionManager.World, GameSessionManager.Valid, GameSessionManager.PlayerIndex;
    hide Membership.WithRoom, Membership.WithPlayer, Registry.Add;
    var registered;
    ok, registered := OfferPlayer(m, name);
    player := registered;
    if !ok {
      session.Send(Foreign(NicknameResult(DUPLICATE_NICK, None)));
      session.Send(Foreign(NicknamePrompt));
    } else {
      SetOwner(m, registered, session);
      var self := PlayerMsg.Value(m.GetPlayerByName(name).playerId, name, []);
      session.Send(Foreign(NicknameResult(OK, Some(self))));
    }
  }

  /** The summary loop of the room handlers. */
  method Summarize(rooms: seq<Room>) returns (summaries: seq<RoomSummaryMsg.Value>)
    requires forall room <- rooms :: |room.players| <= room.maxPlayerCount
    ensures |summaries| == |rooms|
    ensures forall i :: 0 <= i < |rooms| ==> summaries[i] == SummaryOf(rooms[i])
  {
    summaries := [];
    for i := 0 to |rooms|
      invariant |summaries| == i
      invariant forall j :: 0 <= j < i ==> summaries[j] == SummaryOf(rooms[j])
    {
      assert rooms[i] in rooms;
      var summary := rooms[i].GetSummary();
      summaries := summaries + [summary.View()];
    }
  }

  function SummaryOf(room: Room): (v: RoomSummaryMsg.Value)
    requires |room.players| <= room.maxPlayerCount
    reads room`id, room`name, room`players, room`maxPlayerCount
    ensures v.roomId == room.id && v.name == room.name && v.unknown == []
    ensures v.playerCount == |room.players| && v.maxPlayers == room.maxPlayerCount
  {
    RoomSummaryMsg.Value(room.id, room.name, |room.players|, room.maxPlayerCount, [])
  }

  ghost predicate WithinCapacity(m: GameSessionManager)
    reads m`roomIdToRoom, m.roomIdToRoom.Values`players, m.roomIdToRoom.Values`maxPlayerCount
  {
    forall i <- m.roomIdToRoom :: |m.roomIdToRoom[i].players| <= m.roomIdToRoom[i].maxPlayerCount
  }

  lemma CapacitySeen(m: GameSessionManager)
    ensures WithinCapacity(m) <==> Membership.RoomsFit(m.World())
  {
    var w := m.World();
    assert forall i <- m.roomIdToRoom :: i in w.rooms && w.rooms[i].members == m.roomIdToRoom[i].players.Keys;
  }

  method BuildRoom(name: Bytes) returns (room: Room)
    ensures fresh(room) && room.name == name && room.players == map[] && room.maxPlayerCount == 16
  {
    room := new Room();
    room.SetName(name);
  }

  /** The new room of the create handler, offered to the manager. */
  method OfferRoom(m: GameSessionManager, name: Bytes) returns (ok: bool, room: Room)
    requires WithinCapacity(m)
    modifies m
    ensures WithinCapacity(m) && m.RoomIndex() == Registry.Add(old(m.RoomIndex()), name)
    ensures ok <==> name !in old(m.roomNameToId)
    ensures m.World() == if ok then Membership.WithRoom(old(m.World()), 16) else old(m.World())
    ensures old(m.Valid()) && old(m.roomId) < Membership.NOWHERE ==> m.Valid()
    ensures ok ==> m.GetRoomById(old(m.roomId)) == room && room.id == old(m.roomId)
    ensures room.name == name && room.players == map[] && room.maxPlayerCount == 16
  {
    hide GameSessionManager.World, Registry.Add, GameSessionManager.RoomIndex, GameSessionManager.Valid;
    hide Membership.RoomsFit, WithinCapacity;
    ghost var was := m.World();
    SeeWorld(m);
    CapacitySeen(m);
    room := BuildRoom(name);
    ok := m.AddRoom(room);
    if ok {
      Membership.NewRoomFits(was, 16);
      WorldIs(m, Membership.WithRoom(was, 16));
    } else {
      WorldIs(m, was);
    }
    CapacitySeen(m);
  }

  /** The registered rooms as a client may know them. */
  ghost function Listing(m: GameSessionManager): map<UInt64, RoomSummaryMsg.Value>
    requires WithinCapacity(m)
    reads m`roomIdToRoom, m.roomIdToRoom.Values`id, m.roomIdToRoom.Values`name,
          m.roomIdToRoom.Values`players, m.roomIdToRoom.Values`maxPlayerCount
  {
    map id | id in m.roomIdToRoom :: SummaryOf(m.roomIdToRoom[id])
  }

  /** Every listed room, once for each id. */
  ghost predicate Reported(
      listing: map<UInt64, RoomSummaryMsg.Value>, ids: seq<UInt64>, summaries: seq<RoomSummaryMsg.Value>) {
    && |summaries| == |ids| == |listing|
    && (forall id <- listing :: id in ids && listing[id] in summaries)
    && forall i :: 0 <= i < |ids| ==> ids[i] in listing && summaries[i] == listing[ids[i]]
  }

  method ListRooms(m: GameSessionManager) returns (summaries: seq<RoomSummaryMsg.Value>, ghost ids: seq<UInt64>)
    requires WithinCapacity(m)
    ensures Reported(Listing(m), ids, summaries)
    ensures |summaries| == |m.roomIdToRoom|
    ensures forall id <- m.roomIdToRoom :: SummaryOf(m.roomIdToRoom[id]) in summaries
  {
    var rooms;
    rooms, ids := m.GetAllRooms();
    summaries := Summarize(rooms);
    assert Listing(m).Keys == m.roomIdToRoom.Keys;
    forall id <- m.roomIdToRoom
      ensures SummaryOf(m.roomIdToRoom[id]) in summaries
    {
      var i :| 0 <= i < |ids| && ids[i] == id;
      assert summaries[i] == SummaryOf(m.roomIdToRoom[id]);
    }
  }

  method Reply(m: GameSessionManager, session: GameSession, reply: Rooms.Reply)
    requires WithinCapacity(m)
    modifies session`log
    ensures WithinCapacity(m) && Listing(m) == old(Listing(m))
    ensures m.Valid() == old(m.Valid()) && m.World() == old(m.World()) && m.RoomIndex() == old(m.RoomIndex())
    ensures session.log == if session.connected then old(session.log) + [Foreign(reply)] else old(session.log)
  {
    hide GameSessionManager.World, GameSessionManager.Valid, GameSessionManager.RoomIndex, Listing, WithinCapacity;
    session.Send(Foreign(reply));
  }

  /** Handle_C_REQUEST_ROOM_LIST: every room there is, as it is, once. */
  method HandleRequestRoomList(m: GameSessionManager, session: GameSession)
    returns (ghost ids: seq<UInt64>, summaries: seq<RoomSummaryMsg.Value>)
    requires WithinCapacity(m)
    modifies session`log
    ensures WithinCapacity(m) && Listing(m) == old(Listing(m))
    ensures Reported(Listing(m), ids, summaries)
    ensures session.log == if !session.connected then old(session.log)
                           else old(session.log) + [Foreign(RoomList(summaries))]
  {
    hide WithinCapacity, Listing, Reported, GameSessionManager.Valid, GameSessionManager.World;
    summaries, ids := ListRooms(m);
    Reply(m, session, RoomList(summaries));
  }

  /** The reply to a create request. */
  method AnswerCreate(m: GameSessionManager, session: GameSession, ok: bool)
    returns (ghost ids: seq<UInt64>, summaries: seq<RoomSummaryMsg.Value>)
    requires WithinCapacity(m)
    modifies session`log
    ensures WithinCapacity(m)
    ensures m.Valid() == old(m.Valid()) && m.World() == old(m.World()) && m.RoomIndex() == old(m.RoomIndex())
    ensures session.log == if !session.connected then old(session.log)
                           else old(session.log) + [Foreign(CreateRoom(if ok then 0 else 2, summaries))]
    ensures if ok then Reported(Listing(m), ids, summaries) else summaries == []
  {
    hide GameSessionManager.World, GameSessionManager.Valid, GameSessionManager.RoomIndex;
    hide Reported, WithinCapacity, Listing;
    summaries, ids := [], [];
    if ok {
      summaries, ids := ListRooms(m);
    }
    Reply(m, session, CreateRoom(if ok then OK else DUPLICATE_NICK, summaries));
  }

  /** Handle_C_CREATE_ROOM: a new room is reported with all the rooms there are. */
  method HandleCreateRoom(m: GameSessionManager, session: GameSession, name: Bytes)
    returns (ok: bool, ghost room: Room, ghost ids: seq<UInt64>, summaries: seq<RoomSummaryMsg.Value>)
    requires WithinCapacity(m)
    modifies m, session`log
    ensures WithinCapacity(m) && m.RoomIndex() == Registry.Add(old(m.RoomIndex()), name)
    ensures ok <==> name !in old(m.roomNameToId)
    ensures m.World() == if ok then Membership.WithRoom(old(m.World()), 16) else old(m.World())
    ensures old(m.Valid()) && old(m.roomId) < Membership.NOWHERE ==> m.Valid()
    ensures session.log == if !session.connected then old(session.log)
                           else old(session.log) + [Foreign(CreateRoom(if ok then 0 else 2, summaries))]
    ensures ok ==> m.GetRoomById(old(m.roomId)) == room && room.id == old(m.roomId)
    ensures ok ==> room.name == name && room.players == map[] && room.maxPlayerCount == 16
    ensures if ok then Reported(Listing(m), ids, summaries) else summaries == []
  {
    hide GameSessionManager.World, GameSessionManager.Valid, GameSessionManager.RoomIndex;
    hide Reported, WithinCapacity, Listing;
    hide Membership.WithRoom, Membership.WithPlayer, Registry.Add;
    var made;
    ok, made := OfferRoom(m, name);
    room := made;
    ids, summaries := AnswerCreate(m, session, ok);
  }

  lemma WorldIs(m: GameSessionManager, w: Membership.World)
    requires m.roomIdToRoom.Keys == w.rooms.Keys && m.playerIdToPlayer.Keys == w.where.Keys
    requires m.roomId == w.nextRoom && m.playerId == w.nextPlayer
    requires forall i <- m.roomIdToRoom ::
      w.rooms[i] == Membership.Place(m.roomIdToRoom[i].maxPlayerCount, m.roomIdToRoom[i].players.Keys)
    requires forall i <- m.playerIdToPlayer :: w.where[i] == m.playerIdToPlayer[i].roomId
    ensures m.World() == w
  {
  }

  lemma SeeWorld(m: GameSessionManager)
    ensures m.World().nextRoom == m.roomId && m.World().nextPlayer == m.playerId
    ensures forall i <- m.roomIdToRoom ::
      m.World().rooms[i] == Membership.Place(m.roomIdToRoom[i].maxPlayerCount, m.roomIdToRoom[i].players.Keys)
    ensures forall i <- m.playerIdToPlayer :: m.World().where[i] == m.playerIdToPlayer[i].roomId
  {
  }

  /** Distinct ids are distinct objects. */
  lemma OwnIds(m: GameSessionManager)
    requires m.Valid()
    ensures forall i, j :: i in m.roomIdToRoom && j in m.roomIdToRoom && i != j ==>
              m.roomIdToRoom[i] != m.roomIdToRoom[j]
    ensures forall i, j :: i in m.playerIdToPlayer && j in m.playerIdToPlayer && i != j ==>
              m.playerIdToPlayer[i] != m.playerIdToPlayer[j]
    ensures forall i <- m.roomIdToRoom :: m.roomIdToRoom[i].id == i
    ensures forall i <- m.playerIdToPlayer :: m.playerIdToPlayer[i].playerId == i
  {
  }
}
