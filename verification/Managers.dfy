/**
 * GameSessionManager: the registered players and rooms, proved against the index of Registry.
 */
module Managers {
  import opened Wire
  import opened RoomObjects
  import Membership
  import Registry

  class GameSessionManager {
    var playerNameToId: map<Bytes, UInt64>
    var playerIdToPlayer: map<UInt64, Player>
    var playerId: UInt64
    var roomId: UInt64
    var roomNameToId: map<Bytes, UInt64>
    var roomIdToRoom: map<UInt64, Room>

    constructor ()
      ensures PlayerIndex() == Registry.EMPTY && RoomIndex() == Registry.EMPTY && Valid()
    {
      playerNameToId, playerIdToPlayer, playerId := map[], map[], 1;
      roomNameToId, roomIdToRoom, roomId := map[], map[], 1;
    }

    ghost function PlayerIndex(): Registry.Index
      reads this`playerNameToId, this`playerIdToPlayer, this`playerId, playerIdToPlayer.Values`name
    {
      Registry.Index(playerNameToId, map i | i in playerIdToPlayer :: playerIdToPlayer[i].name, playerId)
    }

    ghost function RoomIndex(): Registry.Index
      reads this`roomNameToId, this`roomIdToRoom, this`roomId, roomIdToRoom.Values`name
    {
      Registry.Index(roomNameToId, map i | i in roomIdToRoom :: roomIdToRoom[i].name, roomId)
    }

    ghost predicate ValidPlayers()
      reads this`playerNameToId, this`playerIdToPlayer, this`playerId,
            playerIdToPlayer.Values`name, playerIdToPlayer.Values`playerId
    {
      && Registry.Consistent(PlayerIndex()) && Registry.BelowNext(PlayerIndex())
      && forall i <- playerIdToPlayer :: playerIdToPlayer[i].playerId == i
    }

    ghost predicate ValidRooms()
      reads this`roomNameToId, this`roomIdToRoom, this`roomId, roomIdToRoom.Values`name, roomIdToRoom.Values`id
    {
      && Registry.Consistent(RoomIndex()) && Registry.BelowNext(RoomIndex())
      && forall i <- roomIdToRoom :: roomIdToRoom[i].id == i
    }

    /** Both indexes are consistent, and every object knows its own id. */
    ghost predicate Valid()
      reads this, playerIdToPlayer.Values`name, playerIdToPlayer.Values`playerId,
            roomIdToRoom.Values`name, roomIdToRoom.Values`id
    {
      ValidPlayers() && ValidRooms()
    }

    /** With its name free, the object cannot be registered already. */
    lemma NotRegistered(player: Player)
      requires ValidPlayers() && player.name !in playerNameToId
      ensures forall i <- playerIdToPlayer :: playerIdToPlayer[i] != player
    {
      var x := PlayerIndex();
      assert forall i <- playerIdToPlayer :: i in x.names && x.names[i] == playerIdToPlayer[i].name;
    }

    lemma RoomNotRegistered(room: Room)
      requires ValidRooms() && room.name !in roomNameToId
      ensures forall i <- roomIdToRoom :: roomIdToRoom[i] != room
    {
      var x := RoomIndex();
      assert forall i <- roomIdToRoom :: i in x.names && x.names[i] == roomIdToRoom[i].name;
    }

    /** AddPlayer: a null player or a taken name changes nothing. */
    method AddPlayer(player: Player?) returns (ok: bool)
      modifies `playerNameToId, `playerIdToPlayer, `playerId, if player == null then {} else {player}
      ensures ok <==> player != null && player.name !in old(playerNameToId)
      ensures player == null ==> PlayerIndex() == old(PlayerIndex()) && playerIdToPlayer == old(playerIdToPlayer)
      ensures player != null ==> Added(player, ok)
      ensures old(Valid()) && old(playerId) + 1 < UINT64_LIMIT ==> Valid()
      ensures player != null ==> player.name == old(player.name) && player.roomId == old(player.roomId)
                                 && player.ownerSession == old(player.ownerSession)
    {
      if player == null {
        return false;
      }
      hide ValidPlayers, ValidRooms, Added;
      ok := AddLocked(player);
    }

    /** What adding a player comes to. */
    twostate predicate Added(player: Player, ok: bool)
      reads this, playerIdToPlayer.Values, player
    {
      && PlayerIndex() == Registry.Add(old(PlayerIndex()), player.name)
      && playerIdToPlayer == (if ok then old(playerIdToPlayer)[old(playerId) := player] else old(playerIdToPlayer))
      && playerNameToId == (if ok then old(playerNameToId)[player.name := old(playerId)] else old(playerNameToId))
      && playerId == (if ok then (old(playerId) + 1) % UINT64_LIMIT else old(playerId))
      && player.playerId == (if ok then old(playerId) else old(player.playerId))
    }

    /** The lock section of AddPlayer. */
    method AddLocked(player: Player) returns (ok: bool)
      modifies `playerNameToId, `playerIdToPlayer, `playerId, player`playerId
      ensures ok <==> player.name !in old(playerNameToId)
      ensures Added(player, ok)
      ensures old(ValidPlayers()) && old(playerId) + 1 < UINT64_LIMIT ==> ValidPlayers()
      ensures old(ValidRooms()) ==> ValidRooms()
    {
      hide Registry.Consistent, Registry.BelowNext, Registry.Add, ValidRooms;
      ghost var was, valid := PlayerIndex(), ValidPlayers();
      if player.name in playerNameToId {
        TakenName(was, player.name);
        return false;
      }
      if valid {
        NotRegistered(player);
      }
      InsertPlayer(player);
      if valid && was.next + 1 < UINT64_LIMIT {
        Registry.AddBelowNext(was, player.name);
      }
      return true;
    }

    static lemma TakenName(x: Registry.Index, name: Bytes)
      requires name in x.ids
      ensures Registry.Add(x, name) == x
    {
    }

    /** The rest of AddPlayer for a name that is free. */
    method InsertPlayer(player: Player)
      requires player.name !in playerNameToId
      modifies `playerNameToId, `playerIdToPlayer, `playerId, player`playerId
      ensures Added(player, true)
    {
      ghost var was := PlayerIndex();
      var id := playerId;
      playerId := (playerId + 1) % UINT64_LIMIT;
      player.playerId := id;
      playerNameToId := playerNameToId[player.name := player.playerId];
      playerIdToPlayer := playerIdToPlayer[player.playerId := player];
      assert PlayerIndex().names == was.names[id := player.name];
    }

    /** RemovePlayer: whatever name the object has now is the one that is unregistered. */
    method RemovePlayer(player: Player) returns (ok: bool)
      modifies `playerNameToId, `playerIdToPlayer
      ensures ok <==> player.playerId in old(playerIdToPlayer)
      ensures PlayerIndex() == Registry.Remove(old(PlayerIndex()), player.playerId, player.name)
      ensures playerIdToPlayer == old(playerIdToPlayer) - {player.playerId}
    {
      ghost var was := PlayerIndex();
      if player.playerId !in playerIdToPlayer {
        return false;
      }
      playerNameToId := playerNameToId - {player.name};
      playerIdToPlayer := playerIdToPlayer - {player.playerId};
      assert PlayerIndex().names == was.names - {player.playerId};
      return true;
    }

    function GetPlayerByName(name: Bytes): Player?
      reads this
    {
      if name !in playerNameToId then null
      else if playerNameToId[name] !in playerIdToPlayer then null
      else playerIdToPlayer[playerNameToId[name]]
    }

    function GetPlayerById(id: UInt64): Player?
      reads this
    {
      if id in playerIdToPlayer then playerIdToPlayer[id] else null
    }

    /** Both lookups find the one registered player there is of that name. */
    lemma PlayerLookupsAgree(name: Bytes)
      requires ValidPlayers()
      ensures GetPlayerByName(name) == null <==> forall i <- playerIdToPlayer :: playerIdToPlayer[i].name != name
      ensures GetPlayerByName(name) != null ==>
                GetPlayerByName(name).name == name
                && GetPlayerById(GetPlayerByName(name).playerId) == GetPlayerByName(name)
      ensures forall i <- playerIdToPlayer ::
                playerIdToPlayer[i].name == name ==> playerIdToPlayer[i] == GetPlayerByName(name)
    {
      var x := PlayerIndex();
      assert forall i <- playerIdToPlayer :: i in x.names && x.names[i] == playerIdToPlayer[i].name;
    }

    /** AddRoom. */
    method AddRoom(room: Room) returns (ok: bool)
      modifies `roomNameToId, `roomIdToRoom, `roomId, room`id
      ensures ok <==> room.name !in old(roomNameToId)
      ensures RoomIndex() == Registry.Add(old(RoomIndex()), room.name)
      ensures ok ==> roomIdToRoom == old(roomIdToRoom)[old(roomId) := room] && room.id == old(roomId)
      ensures !ok ==> roomIdToRoom == old(roomIdToRoom) && room.id == old(room.id)
      ensures roomId == if ok then (old(roomId) + 1) % UINT64_LIMIT else old(roomId)
      ensures old(ValidRooms()) && old(roomId) + 1 < UINT64_LIMIT ==> ValidRooms()
      ensures old(ValidPlayers()) ==> ValidPlayers()
      ensures old(Valid()) && old(roomId) + 1 < UINT64_LIMIT ==> Valid()
    {
      hide Registry.Consistent, Registry.BelowNext, Registry.Add, ValidPlayers;
      ghost var was, valid := RoomIndex(), ValidRooms();
      var key := room.name;
      if key in roomNameToId {
        TakenName(was, key);
        return false;
      }
      if valid {
        RoomNotRegistered(room);
      }
      InsertRoom(room);
      if valid && was.next + 1 < UINT64_LIMIT {
        Registry.AddBelowNext(was, key);
      }
      return true;
    }

    /** The rest of AddRoom for a name that is free. */
    method InsertRoom(room: Room)
      requires room.name !in roomNameToId
      modifies `roomNameToId, `roomIdToRoom, `roomId, room`id
      ensures RoomIndex() == Registry.Add(old(RoomIndex()), room.name)
      ensures roomIdToRoom == old(roomIdToRoom)[old(roomId) := room] && room.id == old(roomId)
      ensures roomId == (old(roomId) + 1) % UINT64_LIMIT
    {
      ghost var was := RoomIndex();
      var id := roomId;
      roomId := (roomId + 1) % UINT64_LIMIT;
      room.id := id;
      roomNameToId := roomNameToId[room.name := id];
      roomIdToRoom := roomIdToRoom[id := room];
      assert RoomIndex().names == was.names[id := room.name];
    }

    /** RemoveRoom. */
    method RemoveRoom(room: Room?) returns (ok: bool)
      modifies `roomNameToId, `roomIdToRoom
      ensures ok <==> room != null && room.id in old(roomIdToRoom)
      ensures room == null ==> RoomIndex() == old(RoomIndex()) && roomIdToRoom == old(roomIdToRoom)
      ensures room != null ==> RoomIndex() == Registry.Remove(old(RoomIndex()), room.id, room.name)
                               && roomIdToRoom == old(roomIdToRoom) - {room.id}
    {
      if room == null {
        return false;
      }
      ghost var was := RoomIndex();
      if room.id !in roomIdToRoom {
        return false;
      }
      roomIdToRoom := roomIdToRoom - {room.id};
      roomNameToId := roomNameToId - {room.name};
      assert RoomIndex().names == was.names - {room.id};
      return true;
    }

    function GetRoomById(id: UInt64): Room?
      reads this
    {
      if id in roomIdToRoom then roomIdToRoom[id] else null
    }

    function GetRoomByName(name: Bytes): Room?
      reads this
    {
      if name !in roomNameToId then null
      else if roomNameToId[name] !in roomIdToRoom then null
      else roomIdToRoom[roomNameToId[name]]
    }

    /** Both lookups find the one registered room there is of that name. */
    lemma RoomLookupsAgree(name: Bytes)
      requires ValidRooms()
      ensures GetRoomByName(name) == null <==> forall i <- roomIdToRoom :: roomIdToRoom[i].name != name
      ensures GetRoomByName(name) != null ==>
                GetRoomByName(name).name == name && GetRoomById(GetRoomByName(name).id) == GetRoomByName(name)
      ensures forall i <- roomIdToRoom :: roomIdToRoom[i].name == name ==> roomIdToRoom[i] == GetRoomByName(name)
    {
      var x := RoomIndex();
      assert forall i <- roomIdToRoom :: i in x.names && x.names[i] == roomIdToRoom[i].name;
    }

    /** The registered players and rooms as Membership sees them. */
    ghost function World(): (w: Membership.World)
      reads this`playerIdToPlayer, this`playerId, this`roomIdToRoom, this`roomId,
            playerIdToPlayer.Values`roomId, roomIdToRoom.Values`players, roomIdToRoom.Values`maxPlayerCount
      ensures w.rooms.Keys == roomIdToRoom.Keys && w.where.Keys == playerIdToPlayer.Keys
    {
      Membership.World(
        map i | i in roomIdToRoom :: Membership.Place(roomIdToRoom[i].maxPlayerCount, roomIdToRoom[i].players.Keys),
        map i | i in playerIdToPlayer :: playerIdToPlayer[i].roomId,
        roomId,
        playerId)
    }

    /** The source follows the player pointer unchecked, so the player must be registered. */
    function GetRoomFromPlayerId(id: UInt64): Room?
      requires id in playerIdToPlayer
      reads this, playerIdToPlayer.Values`roomId
    {
      var player := playerIdToPlayer[id];
      if player.roomId == Membership.NOWHERE then null else GetRoomById(player.roomId)
    }

    lemma RoomOfPlayer(id: UInt64)
      requires id in playerIdToPlayer
      ensures GetRoomFromPlayerId(id) == null <==> Membership.RoomOf(World(), id).None?
      ensures GetRoomFromPlayerId(id) != null ==>
                GetRoomFromPlayerId(id) == roomIdToRoom[Membership.RoomOf(World(), id).value]
    {
    }

    /** GetAllRooms: every registered room, once for each id it is registered under. */
    method GetAllRooms() returns (rooms: seq<Room>, ghost ids: seq<UInt64>)
      ensures |rooms| == |ids| == |roomIdToRoom|
      ensures forall i, j :: 0 <= i < j < |ids| ==> ids[i] != ids[j]
      ensures forall i :: 0 <= i < |ids| ==> ids[i] in roomIdToRoom && rooms[i] == roomIdToRoom[ids[i]]
      ensures forall id <- roomIdToRoom :: id in ids
      ensures forall room :: room in rooms <==> room in roomIdToRoom.Values
    {
      rooms, ids := [], [];
      var left := roomIdToRoom.Keys;
      while left != {}
        invariant |rooms| == |ids| && left <= roomIdToRoom.Keys
        invariant |ids| + |left| == |roomIdToRoom|
        invariant forall i, j :: 0 <= i < j < |ids| ==> ids[i] != ids[j]
        invariant forall i :: 0 <= i < |ids| ==>
          ids[i] in roomIdToRoom && rooms[i] == roomIdToRoom[ids[i]] && ids[i] !in left
        invariant forall id <- roomIdToRoom :: id in left || id in ids
        decreases |left|
      {
        var id :| id in left;
        rooms := rooms + [roomIdToRoom[id]];
        ids := ids + [id];
        left := left - {id};
      }
    }
  }
}
