/** The lobby service: the process-wide registry of rooms, keyed by room id,
    and the five operations that change or read it. The two random choices
    of `startGame` and the room id of `createRoom` are supplied by the caller. */
module Lobby {
  import opened Wrappers
  import opened Players
  import opened Rooms

  /** Every room of the registry is filed under its own id and is valid. */
  ghost predicate RegistryValid(rooms: map<string, Room>)
  {
    forall id :: id in rooms ==> rooms[id].id == id && RoomValid(rooms[id])
  }

  /** Filing a valid room under its own id keeps the registry valid. */
  lemma StoreKeepsValid(rooms: map<string, Room>, room: Room)
    requires RegistryValid(rooms) && RoomValid(room)
    ensures RegistryValid(rooms[room.id := room])
  {
  }

  /** Deleting an entry keeps the registry valid. */
  lemma DeleteKeepsValid(rooms: map<string, Room>, id: string)
    requires RegistryValid(rooms)
    ensures RegistryValid(rooms - {id})
  {
  }

  class LobbyService {
    var rooms: map<string, Room>

    /** Every stored room is filed under its own id and is a valid room. */
    ghost predicate Valid()
      reads this
    {
      RegistryValid(rooms)
    }

    constructor ()
      ensures Valid() && rooms == map[]
    {
      rooms := map[];
    }

    /** `getRoom`: the room stored under `roomId`, if any. */
    function GetRoom(roomId: string): (r: Option<Room>)
      reads this
      requires Valid()
      ensures r.Some? <==> roomId in rooms
      ensures r.Some? ==> r.value == rooms[roomId] && r.value.id == roomId && RoomValid(r.value)
    {
      if roomId in rooms then Some(rooms[roomId]) else None
    }

    /** `createRoom`: files a waiting room whose only player is the host under
        `roomId`. As in the source, nothing checks for an existing room with
        that id; one would be replaced. */
    method CreateRoom(roomId: string, hostId: string, hostSocketId: string) returns (room: Room)
      requires Valid()
      modifies this
      ensures Valid()
      ensures room.id == roomId && room.hostId == hostId && room.gameState == Waiting
      ensures room.players == [Player(hostId, hostSocketId)]
      ensures room.word.None? && room.imposterId.None?
      ensures rooms == old(rooms)[roomId := room]
      ensures GetRoom(roomId) == Some(room)
    {
      room := Room(roomId, hostId, [Player(hostId, hostSocketId)], Waiting, None, None);
      rooms := rooms[roomId := room];
    }

    /** `joinRoom`: fails with RoomNotFound on an unknown id, leaving the
        registry alone; otherwise stores and returns the joined room. */
    method JoinRoom(roomId: string, playerId: string, socketId: string) returns (r: Result<Room, LobbyError>)
      requires Valid()
      modifies this
      ensures Valid()
      ensures roomId !in old(rooms) ==> r == Failure(RoomNotFound) && rooms == old(rooms)
      ensures roomId in old(rooms) ==>
        && r == Success(Joined(old(rooms)[roomId], playerId, socketId))
        && rooms == old(rooms)[roomId := r.value]
    {
      if roomId !in rooms {
        return Failure(RoomNotFound);
      }
      var room := rooms[roomId];
      ghost var joined := Joined(room, playerId, socketId);
      var existing := FindPlayer(room.players, playerId);
      if existing.None? {
        room := room.(players := room.players + [Player(playerId, socketId)]);
      } else {
        var i := existing.value;
        room := room.(players := room.players[i := room.players[i].(socketId := socketId)]);
      }
      assert room == joined;
      StoreKeepsValid(rooms, room);
      rooms := rooms[roomId := room];
      r := Success(room);
    }

    /** `leaveRoom`: None on an unknown id, registry unchanged. Otherwise the
        player is filtered out; an emptied room is deleted and None returned,
        else the room (with a new host if the host left) is stored and returned. */
    method LeaveRoom(roomId: string, playerId: string) returns (r: Option<Room>)
      requires Valid()
      modifies this
      ensures Valid()
      ensures roomId !in old(rooms) ==> r.None? && rooms == old(rooms)
      ensures roomId in old(rooms) ==> r == Left(old(rooms)[roomId], playerId)
      ensures roomId in old(rooms) ==>
        rooms == if r.Some? then old(rooms)[roomId := r.value] else old(rooms) - {roomId}
    {
      if roomId !in rooms {
        return None;
      }
      var room := rooms[roomId];
      ghost var left := Left(room, playerId);
      var remaining := RemovePlayer(room.players, playerId);
      if |remaining| == 0 {
        assert left.None?;
        DeleteKeepsValid(rooms, roomId);
        rooms := rooms - {roomId};
        return None;
      }
      var host := if room.hostId == playerId then remaining[0].id else room.hostId;
      room := room.(players := remaining, hostId := host);
      assert left == Some(room);
      StoreKeepsValid(rooms, room);
      rooms := rooms[roomId := room];
      r := Some(room);
    }

    /** `startGame`: fails with RoomNotFound, NotHost or NotEnoughPlayers, in
        that order, changing nothing; otherwise stores and returns the started
        room. `wordDraw` and `imposterDraw` are the two `Math.random()` results. */
    method StartGame(roomId: string, playerId: string, wordDraw: real, imposterDraw: real)
      returns (r: Result<Room, LobbyError>)
      requires Valid()
      requires 0.0 <= wordDraw < 1.0 && 0.0 <= imposterDraw < 1.0
      modifies this
      ensures Valid()
      ensures roomId !in old(rooms) ==> r == Failure(RoomNotFound)
      ensures roomId in old(rooms) ==> r == StartRound(old(rooms)[roomId], playerId, wordDraw, imposterDraw)
      ensures rooms == if r.Success? then old(rooms)[roomId := r.value] else old(rooms)
    {
      if roomId !in rooms {
        return Failure(RoomNotFound);
      }
      var room := rooms[roomId];
      if room.hostId != playerId {
        return Failure(NotHost);
      }
      if |room.players| < 2 {
        return Failure(NotEnoughPlayers);
      }
      var word := Words[PickIndex(wordDraw, |Words|)];
      var imposterIndex := PickIndex(imposterDraw, |room.players|);
      room := room.(gameState := Playing, word := Some(word), imposterId := Some(room.players[imposterIndex].id));
      assert Success(room) == StartRound(old(rooms)[roomId], playerId, wordDraw, imposterDraw);
      StoreKeepsValid(rooms, room);
      rooms := rooms[roomId := room];
      r := Success(room);
    }
  }

  /** A host and a second player: the host starts the round, which is then
      playing with a word and an imposter drawn from the two players. */
  method HostStartsGame(roomId: string, wordDraw: real, imposterDraw: real) returns (started: Result<Room, LobbyError>)
    requires 0.0 <= wordDraw < 1.0 && 0.0 <= imposterDraw < 1.0
    ensures started.Success? && started.value.gameState == Playing
    ensures started.value.word.Some? && started.value.word.value in Words
    ensures started.value.imposterId == Some("host") || started.value.imposterId == Some("player2")
  {
    var service := new LobbyService();
    var room := service.CreateRoom(roomId, "host", "socket1");
    var joined := service.JoinRoom(room.id, "player2", "socket2");
    assert Ids(joined.value.players) == ["host", "player2"];
    started := service.StartGame(room.id, "host", wordDraw, imposterDraw);
  }

  /** The same two players: the second one may not start the round. */
  method NonHostCannotStart(roomId: string, wordDraw: real, imposterDraw: real) returns (r: Result<Room, LobbyError>)
    requires 0.0 <= wordDraw < 1.0 && 0.0 <= imposterDraw < 1.0
    ensures r == Failure(NotHost) && Message(r.error) == "Only host can start game"
  {
    var service := new LobbyService();
    var room := service.CreateRoom(roomId, "host", "socket1");
    var joined := service.JoinRoom(room.id, "player2", "socket2");
    r := service.StartGame(room.id, "player2", wordDraw, imposterDraw);
  }

  /** A host alone in the room may not start the round. */
  method LoneHostCannotStart(roomId: string, wordDraw: real, imposterDraw: real) returns (r: Result<Room, LobbyError>)
    requires 0.0 <= wordDraw < 1.0 && 0.0 <= imposterDraw < 1.0
    ensures r == Failure(NotEnoughPlayers) && Message(r.error) == "Need at least 2 players"
  {
    var service := new LobbyService();
    var room := service.CreateRoom(roomId, "host", "socket1");
    r := service.StartGame(room.id, "host", wordDraw, imposterDraw);
  }

  /** A player who reconnects keeps a single entry, in place, with the new socket. */
  method RejoinUpdatesSocket(roomId: string) returns (r: Result<Room, LobbyError>)
    ensures r.Success? && r.value.players == [Player("host", "socket1"), Player("player2", "socket3")]
  {
    var service := new LobbyService();
    var room := service.CreateRoom(roomId, "host", "socket1");
    var joined := service.JoinRoom(roomId, "player2", "socket2");
    assert joined.value.players == [Player("host", "socket1"), Player("player2", "socket2")];
    assert Ids(joined.value.players)[1] == "player2";
    r := service.JoinRoom(roomId, "player2", "socket3");
  }

  /** The host of a room with two players leaves: the second player becomes
      host. When that player leaves too, the room is gone. */
  method HostHandsOver(roomId: string) returns (afterHost: Option<Room>, afterLast: Option<Room>, lookup: Option<Room>)
    ensures afterHost.Some? && afterHost.value.hostId == "player2"
    ensures afterHost.value.players == [Player("player2", "socket2")]
    ensures afterLast.None? && lookup.None?
  {
    var service := new LobbyService();
    var room := service.CreateRoom(roomId, "host", "socket1");
    var joined := service.JoinRoom(room.id, "player2", "socket2");
    assert joined.value.players == [Player("host", "socket1"), Player("player2", "socket2")];
    afterHost := service.LeaveRoom(roomId, "host");
    RemovesExactlyOne(joined.value.players, 0);
    afterLast := service.LeaveRoom(roomId, "player2");
    lookup := service.GetRoom(roomId);
  }

  /** The imposter of a started round leaves: the room stays, still playing,
      and still names the departed player as imposter. */
  method ImposterLeavesRound(roomId: string) returns (lookup: Option<Room>)
    ensures lookup.Some? && lookup.value.gameState == Playing
    ensures lookup.value.players == [Player("host", "socket1")]
    ensures lookup.value.imposterId == Some("player2")
    ensures "player2" !in Ids(lookup.value.players)
  {
    var service := new LobbyService();
    var room := service.CreateRoom(roomId, "host", "socket1");
    var joined := service.JoinRoom(roomId, "player2", "socket2");
    assert joined.value.players == [Player("host", "socket1"), Player("player2", "socket2")];
    assert PickIndex(0.5, 2) == 1;
    var started := service.StartGame(roomId, "host", 0.0, 0.5);
    assert started.value.imposterId == Some("player2");
    var left := service.LeaveRoom(roomId, "player2");
    RemovesExactlyOne(joined.value.players, 1);
    lookup := service.GetRoom(roomId);
  }
}
