/**
 * Sessions, players and rooms as objects, proved against the room of module Rooms.
 */
module RoomObjects {
  import opened Wire
  import opened Rooms
  import RoomEventMsg
  import RoomSummaryMsg

  /** The part of a game session a room uses; `log` is what was handed to its send queue. */
  class GameSession {
    var connected: bool
    var log: seq<Message>

    constructor ()
      ensures !connected && log == []
    {
      connected, log := false, [];
    }

    method Send(m: Message)
      modifies `log
      ensures log == if connected then old(log) + [m] else old(log)
    {
      if !connected {
        return;
      }
      log := log + [m];
    }
  }

  class Player {
    var playerId: UInt64
    var name: Bytes
    var roomId: UInt64
    var ownerSession: GameSession?

    constructor ()
      ensures playerId == 0 && name == [] && roomId == 0 && ownerSession == null
    {
      playerId, name, roomId, ownerSession := 0, [], 0, null;
    }

    function AsMember(): Member<GameSession?>
      reads this`playerId, this`name, this`ownerSession
    {
      Member(playerId, name, ownerSession)
    }
  }

  function MembersOf(players: map<UInt64, Player>): map<UInt64, Member<GameSession?>>
    reads players.Values`playerId, players.Values`name, players.Values`ownerSession
  {
    map k | k in players :: players[k].AsMember()
  }

  class Room {
    var players: map<UInt64, Player>
    var name: Bytes
    var id: UInt64
    var maxPlayerCount: UInt64

    constructor ()
      ensures players == map[]
    {
      players, name, id, maxPlayerCount := map[], [], 0, 0;
    }

    method SetName(name: Bytes, maxPlayerCount: UInt64 := 16)
      modifies `name, `maxPlayerCount
      ensures this.name == name && this.maxPlayerCount == maxPlayerCount
    {
      this.name, this.maxPlayerCount := name, maxPlayerCount;
    }

    /** The room and the sessions of `reach`. */
    ghost function View(reach: set<GameSession>): State<GameSession?>
      reads this, players.Values`playerId, players.Values`name, players.Values`ownerSession, reach
    {
      State(id, name, maxPlayerCount, MembersOf(players),
        set s | s in reach && s.connected,
        map s: GameSession? | s in reach :: s.log)
    }

    lemma SeeView(reach: set<GameSession>)
      ensures forall s <- reach :: s in View(reach).logs
    {
    }

    method GetSummary() returns (summary: RoomSummaryMsg.Message)
      requires |players| <= maxPlayerCount
      ensures fresh(summary)
      ensures summary.View() == RoomSummaryMsg.Value(id, name, |players|, maxPlayerCount, [])
    {
      summary := new RoomSummaryMsg.Message();
      summary.roomId, summary.name := id, name;
      summary.playerCount, summary.maxPlayers := |players|, maxPlayerCount;
    }

    /** The event that Enter and Leave build. */
    method BuildEvent(kind: Int32, player: Player, ghost reach: set<GameSession>) returns (m: Message)
      requires Valid(View(reach))
      ensures m == RoomEvent(View(reach), kind, player.AsMember())
      ensures |name| + |player.name| <= 5900 ==> Fits(m)
    {
      assert View(reach).members.Keys == players.Keys;
      var roomEvent := new RoomEventMsg.Message();
      var summary := GetSummary();
      roomEvent.room := summary;
      roomEvent.kind := kind;
      roomEvent.playerId := player.playerId;
      roomEvent.nickname := player.name;
      m := Event(roomEvent.View());
      if |name| + |player.name| <= 5900 {
        ShortNamesFit(View(reach), kind, player.AsMember());
      }
    }

    /** Members of a valid room have sessions within reach. */
    lemma LiveMembers(reach: set<GameSession>)
      requires Valid(View(reach))
      ensures forall k <- players :: players[k].ownerSession in reach
    {
      forall k | k in players
        ensures players[k].ownerSession in reach
      {
        assert k in View(reach).members;
      }
    }

    /** The loop over the members, in any order. */
    method SendToAll(m: Message, ghost reach: set<GameSession>)
      requires Valid(View(reach))
      modifies reach`log
      ensures View(reach) == Deliver(old(View(reach)), m)
    {
      ghost var was := View(reach);
      hide Grown, Hosted;
      LiveMembers(reach);
      ServeAll(m, reach);
      assert View(reach).logs.Keys == was.logs.Keys;
      Delivered(was, View(reach), m);
    }

    method ServeAll(m: Message, ghost reach: set<GameSession>)
      requires forall k <- players :: players[k].ownerSession in reach
      modifies reach`log
      ensures forall s <- reach :: s.log == Grown(old(s.log), s.connected, m, Hosted(MembersOf(players), s))
    {
      hide Hosted, Grown, MembersOf;
      ghost var start := map s | s in reach :: s.log;
      ghost var members := MembersOf(players);
      var keys := players.Keys;
      AllGrown(start, m, reach);
      while keys != {}
        invariant keys <= players.Keys && MembersOf(players) == members
        invariant Served(start, members - keys, m, reach)
        decreases |keys|
      {
        var k :| k in keys;
        ServeOne(k, keys, m, start, reach);
        keys := keys - {k};
      }
      assert members - {} == members;
    }

    /** Every session has grown by one copy for each of `members` that speaks through it. */
    ghost predicate Served(start: map<GameSession, seq<Message>>, members: map<UInt64, Member<GameSession?>>,
                           m: Message, reach: set<GameSession>)
      reads reach
    {
      && start.Keys == reach
      && forall s <- reach :: s.log == Grown(start[s], s.connected, m, Hosted(members, s))
    }

    lemma AllGrown(start: map<GameSession, seq<Message>>, m: Message, reach: set<GameSession>)
      requires start.Keys == reach && forall s <- reach :: s.log == start[s]
      ensures MembersOf(players) - players.Keys == map[] && Served(start, map[], m, reach)
    {
      hide Hosted, Grown;
      assert MembersOf(players) - players.Keys == map[];
      forall s <- reach
        ensures s.log == Grown(start[s], s.connected, m, Hosted<GameSession?>(map[], s))
      {
        NobodyHosted<GameSession?>(start[s], s.connected, m, s);
      }
    }

    method ServeOne(k: UInt64, ghost keys: set<UInt64>, m: Message, ghost start: map<GameSession, seq<Message>>,
                    ghost reach: set<GameSession>)
      requires k in keys && k in players && players[k].ownerSession in reach
      requires Served(start, MembersOf(players) - keys, m, reach)
      modifies reach`log
      ensures Served(start, MembersOf(players) - (keys - {k}), m, reach)
    {
      hide Hosted, Grown;
      ghost var members := MembersOf(players);
      var session := players[k].ownerSession;
      session.Send(m);
      forall s <- reach
        ensures s.log == Grown(start[s], s.connected, m, Hosted(members - (keys - {k}), s))
      {
        HostOneMore<GameSession?>(start[s], s.connected, m, members, keys, k, s);
      }
      assert MembersOf(players) == members;
    }

    method IsFull(ghost reach: set<GameSession>) returns (full: bool)
      ensures full <==> Full(View(reach))
      ensures full <==> |players| >= maxPlayerCount
    {
      assert View(reach).members.Keys == players.Keys;
      full := |players| >= maxPlayerCount;
    }

    method Insert(player: Player, ghost reach: set<GameSession>)
      modifies `players
      ensures var was := old(View(reach));
              View(reach) == was.(members := was.members[player.playerId := player.AsMember()])
      ensures players == old(players)[player.playerId := player]
    {
      ghost var was := View(reach);
      players := players[player.playerId := player];
      assert MembersOf(players) == was.members[player.playerId := player.AsMember()];
    }

    method Erase(player: Player, ghost reach: set<GameSession>)
      modifies `players
      ensures View(reach) == old(View(reach)).(members := old(View(reach)).members - {player.playerId})
      ensures players == old(players) - {player.playerId}
    {
      ghost var was := View(reach);
      players := players - {player.playerId};
      assert MembersOf(players) == was.members - {player.playerId};
    }

    /** The leaving player is told while its session lives. */
    method TellLeaver(player: Player, m: Message, ghost reach: set<GameSession>)
      requires player.ownerSession != null ==> player.ownerSession in reach
      modifies reach`log
      ensures View(reach) == SendTo(old(View(reach)), player.ownerSession, m)
    {
      ghost var was := View(reach);
      if player.ownerSession != null {
        player.ownerSession.Send(m);
      }
      assert View(reach).logs == SendTo(was, player.ownerSession, m).logs;
    }

    /** The session's log ends with an event of this kind about the player, showing the room as it is. */
    ghost predicate Told(session: GameSession, kind: int, player: Player)
      reads this, session`log, player`playerId, player`name
    {
      Announces(session.log, kind, player.playerId, player.name, id, name, |players|, maxPlayerCount)
    }

    /** What the value model says of a session's log holds of the session. */
    lemma SeeTold(reach: set<GameSession>, session: GameSession, kind: int, player: Player)
      requires session in reach
      requires Announces(View(reach).logs[session], kind, player.playerId, player.name,
                         View(reach).id, View(reach).name, |View(reach).members|, View(reach).max)
      ensures Told(session, kind, player)
    {
      hide Announces;
      assert View(reach).members.Keys == players.Keys;
    }

    /** The connected member, as the value model sees it. */
    lemma SeeMember(reach: set<GameSession>, k: UInt64)
      requires k in players && players[k].ownerSession in reach
      ensures k in View(reach).members && View(reach).members[k].session == players[k].ownerSession
      ensures players[k].ownerSession.connected <==> players[k].ownerSession in View(reach).connected
    {
    }

    lemma MembersTold(was: State<GameSession?>, player: Player, reach: set<GameSession>)
      requires Valid(was) && Enabled(was, Step.Enter(player.AsMember())) && |was.members| < was.max
      requires View(reach) == Apply(was, Step.Enter(player.AsMember()))
      ensures forall k <- players ::
        players[k].ownerSession in reach && players[k].ownerSession.connected ==>
          Told(players[k].ownerSession, 3, player)
    {
      hide Apply, View, Announces, Valid, Told;
      forall k | k in players && players[k].ownerSession in reach && players[k].ownerSession.connected
        ensures Told(players[k].ownerSession, 3, player)
      {
        SeeMember(reach, k);
        SameReach(was, Step.Enter(player.AsMember()));
        EnterTells(was, player.AsMember(), k);
        SeeTold(reach, players[k].ownerSession, 3, player);
      }
    }

    lemma OthersTold(was: State<GameSession?>, player: Player, reach: set<GameSession>)
      requires Valid(was) && View(reach) == Apply(was, Step.Leave(player.AsMember()))
      ensures forall k <- players ::
        players[k].ownerSession in reach && players[k].ownerSession.connected ==>
          Told(players[k].ownerSession, 4, player)
      ensures player.ownerSession in reach && player.ownerSession.connected ==> Told(player.ownerSession, 4, player)
    {
      hide Apply, Announces, Valid, Told;
      var step := Step.Leave(player.AsMember());
      SameReach(was, step);
      forall k | k in players && players[k].ownerSession in reach && players[k].ownerSession.connected
        ensures Told(players[k].ownerSession, 4, player)
      {
        SeeMember(reach, k);
        LeaveTells(was, player.AsMember(), players[k].ownerSession);
        SeeTold(reach, players[k].ownerSession, 4, player);
      }
      if player.ownerSession in reach && player.ownerSession.connected {
        assert player.ownerSession in View(reach).connected;
        LeaveTells(was, player.AsMember(), player.ownerSession);
        SeeTold(reach, player.ownerSession, 4, player);
      }
    }

    /**
     * Enter: refused when full, otherwise everybody including the new member is told.  The process
     * stops in MakeSendBuffer when the event does not fit a send buffer.
     */
    method Enter(player: Player, ghost reach: set<GameSession>) returns (ok: bool, stopped: bool)
      requires Valid(View(reach)) && Enabled(View(reach), Step.Enter(player.AsMember()))
      modifies `players, reach`log
      ensures stopped <==> !Tellable(old(View(reach)), Step.Enter(player.AsMember()))
      ensures |name| + |player.name| <= 5900 ==> !stopped
      ensures ok <==> !Full(old(View(reach)))
      ensures ok <==> |old(players)| < maxPlayerCount
      ensures !stopped ==> View(reach) == Apply(old(View(reach)), Step.Enter(player.AsMember()))
      ensures players == if ok then old(players)[player.playerId := player] else old(players)
      ensures ok && !stopped ==> forall k <- players ::
        players[k].ownerSession in reach && players[k].ownerSession.connected ==>
          Told(players[k].ownerSession, 3, player)
    {
      hide Deliver, View, MembersOf, Emitted, RoomEvent, Fits;
      ghost var was, step := View(reach), Step.Enter(player.AsMember());
      EventSaid(was, step, was.(members := MembersAfter(was, step))) by { SameMembers(was, step); }
      var full := IsFull(reach);
      if full {
        return false, false;
      }
      Insert(player, reach);
      SameMembers(was, step);
      var m := BuildEvent(RoomEventMsg.PLAYER_JOINED, player, reach);
      stopped := !Fits(m);
      if !stopped {
        SendToAll(m, reach);
        MembersTold(was, player, reach);
      }
      return true, stopped;
    }

    /** Leave: the leaving player and all who stay are told, unless the event stops the process. */
    method Leave(player: Player, ghost reach: set<GameSession>) returns (stopped: bool)
      requires Valid(View(reach)) && (player.ownerSession != null ==> player.ownerSession in reach)
      modifies `players, reach`log
      ensures stopped <==> !Tellable(old(View(reach)), Step.Leave(player.AsMember()))
      ensures |name| + |player.name| <= 5900 ==> !stopped
      ensures !stopped ==> View(reach) == Apply(old(View(reach)), Step.Leave(player.AsMember()))
      ensures players == old(players) - {player.playerId}
      ensures !stopped ==> forall k <- players ::
        players[k].ownerSession in reach && players[k].ownerSession.connected ==>
          Told(players[k].ownerSession, 4, player)
      ensures !stopped && player.ownerSession in reach && player.ownerSession.connected ==>
                Told(player.ownerSession, 4, player)
    {
      hide Deliver, SendTo, View, MembersOf, Emitted, RoomEvent, Fits, Tellable, Valid;
      ghost var was, step := View(reach), Step.Leave(player.AsMember());
      Erase(player, reach);
      ghost var mid := View(reach);
      SameMembers(was, step);
      EventSaid(was, step, mid);
      var m := BuildEvent(RoomEventMsg.PLAYER_LEFT, player, reach);
      TellableOne(was, step, m);
      stopped := !Fits(m);
      if !stopped {
        SendKeepsValid(mid, player.ownerSession, m);
        TellLeaver(player, m, reach);
        SendToAll(m, reach);
        OthersTold(was, player, reach);
      }
    }

    /** The handlers' assignment to a player, who may be a member. */
    method StoreRoomId(player: Player, roomId: UInt64, ghost reach: set<GameSession>)
      modifies player`roomId
      ensures View(reach) == old(View(reach)) && player.roomId == roomId
    {
      player.roomId := roomId;
    }

    /** A handler's reply to one session, as the room sees it. */
    method SendReply(session: GameSession, reply: Reply, ghost reach: set<GameSession>)
      requires session in reach
      modifies reach`log
      ensures View(reach) == SendTo(old(View(reach)), session, Foreign(reply))
      ensures session.log == if session.connected then old(session.log) + [Foreign(reply)] else old(session.log)
    {
      ghost var was := View(reach);
      session.Send(Foreign(reply));
      assert View(reach).logs == SendTo<GameSession?>(was, session, Foreign(reply)).logs;
    }

    method Broadcast(m: Message, ghost reach: set<GameSession>)
      requires Valid(View(reach)) && m.Chat?
      modifies reach`log
      ensures View(reach) == Apply(old(View(reach)), Step.Broadcast(m))
      ensures forall k <- players ::
        players[k].ownerSession in reach && players[k].ownerSession.connected ==>
          players[k].ownerSession.log != []
          && players[k].ownerSession.log[|players[k].ownerSession.log| - 1] == m
    {
      ghost var was := View(reach);
      SendToAll(m, reach);
      forall k | k in players && players[k].ownerSession in reach && players[k].ownerSession.connected
        ensures players[k].ownerSession.log != []
                && players[k].ownerSession.log[|players[k].ownerSession.log| - 1] == m
      {
        SeeMember(reach, k);
        BroadcastTells(was, m, k);
      }
    }
  }

  /** No step connects a session. */
  lemma SameReach(was: State<GameSession?>, step: Step<GameSession?>)
    requires Valid(was) && Enabled(was, step)
    ensures Apply(was, step).logs.Keys == was.logs.Keys && Apply(was, step).connected <= was.connected
    ensures Apply(was, step).id == was.id && Apply(was, step).name == was.name && Apply(was, step).max == was.max
  {
    hide Deliver, SendTo, RoomEvent;
  }

  lemma SameMembers(was: State<GameSession?>, step: Step<GameSession?>)
    requires Valid(was) && Enabled(was, step)
    ensures Valid(was.(members := MembersAfter(was, step)))
  {
    KeepsValid(was, step);
    ApplyMembers(was, step);
  }
}
