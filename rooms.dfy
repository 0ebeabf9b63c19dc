/** A room record of the lobby service and the per-room transitions its
    operations perform: joining, leaving and starting a round. Each is a
    function of the old record; the class in module Lobby stores the results. */
module Rooms {
  import opened Wrappers
  import opened Players

  datatype GameState = Waiting | Playing | Finished

  /** `word` and `imposterId` are the optional fields of the record; they are
      set by the first start of a round and never cleared. The creation
      timestamp is not part of this model. */
  datatype Room = Room(
    id: string,
    hostId: string,
    players: seq<Player>,
    gameState: GameState,
    word: Option<string>,
    imposterId: Option<string>)

  /** The exceptions the service throws. */
  datatype LobbyError = RoomNotFound | NotHost | NotEnoughPlayers

  /** The message each exception carries; no two kinds share a message, so
      a caller that only sees the text still knows which check failed. */
  function Message(e: LobbyError): (m: string)
    ensures |m| > 0
    ensures e != RoomNotFound ==> m != "Room not found"
    ensures e != NotHost ==> m != "Only host can start game"
    ensures e != NotEnoughPlayers ==> m != "Need at least 2 players"
  {
    match e
    case RoomNotFound => "Room not found"
    case NotHost => "Only host can start game"
    case NotEnoughPlayers => "Need at least 2 players"
  }

  /** The fixed list the secret word is drawn from. */
  const Words: seq<string> := ["Apple", "Banana", "Computer", "Elephant", "Guitar", "Moon", "Pizza"]

  /** What every stored room satisfies: it has a player, player ids are
      unique, the host is one of the players, and the round fields are set
      together, exactly once a round has been started, with a listed word. */
  ghost predicate RoomValid(room: Room)
  {
    && |room.players| >= 1
    && UniqueIds(room.players)
    && room.hostId in Ids(room.players)
    && (room.word.Some? <==> room.imposterId.Some?)
    && (room.gameState == Waiting <==> room.word.None?)
    && (room.word.Some? ==> room.word.value in Words)
  }

  /** `Math.floor(draw * n)` for a draw of `Math.random()`, which lies in [0, 1). */
  function PickIndex(draw: real, n: nat): (i: nat)
    requires 0.0 <= draw < 1.0 && 0 < n
    ensures i < n
    ensures i as real <= draw * n as real < i as real + 1.0
  {
    assert 0.0 <= draw * n as real < n as real;
    (draw * n as real).Floor
  }

  /** Index `k` is picked exactly when the draw falls in [k/n, (k+1)/n), an
      interval of width 1/n: every index is equally likely under a uniform draw. */
  lemma PickIndexInterval(draw: real, n: nat, k: nat)
    requires 0.0 <= draw < 1.0 && 0 < n && k < n
    ensures PickIndex(draw, n) == k <==> k as real / n as real <= draw < (k + 1) as real / n as real
  {
    var x := draw * n as real;
    assert k as real / n as real <= draw <==> k as real <= x;
    assert draw < (k + 1) as real / n as real <==> x < (k + 1) as real;
  }

  /** The record after `joinRoom`: a new id is appended, a known id keeps its
      place and only its socket changes. */
  function Joined(room: Room, playerId: string, socketId: string): (r: Room)
    ensures r.(players := room.players) == room
    ensures playerId !in Ids(room.players) ==> r.players == room.players + [Player(playerId, socketId)]
    ensures playerId in Ids(room.players) ==> Ids(r.players) == Ids(room.players)
    ensures UniqueIds(room.players) && playerId in Ids(room.players) ==>
      forall k :: 0 <= k < |room.players| ==>
        r.players[k] == if room.players[k].id == playerId then Player(playerId, socketId) else room.players[k]
    ensures RoomValid(room) ==> RoomValid(r)
  {
    match FindIndex(room.players, playerId)
    case None =>
      var newcomer := Player(playerId, socketId);
      assert RoomValid(room) ==> UniqueIds(room.players + [newcomer]) && room.hostId in Ids(room.players + [newcomer]) by {
        if RoomValid(room) {
          AppendFresh(room.players, newcomer);
        }
      }
      room.(players := room.players + [newcomer])
    case Some(i) =>
      ReplaceSameId(room.players, i, room.players[i].(socketId := socketId));
      room.(players := room.players[i := room.players[i].(socketId := socketId)])
  }

  /** The record after `leaveRoom`, or None when nobody is left and the room
      is deleted. A departing host hands over to the first remaining player. */
  function Left(room: Room, playerId: string): (r: Option<Room>)
    ensures r.None? <==> forall k :: 0 <= k < |room.players| ==> room.players[k].id == playerId
    ensures r.Some? ==> r.value.players == Without(room.players, playerId)
    ensures r.Some? ==> r.value.hostId == if room.hostId == playerId then r.value.players[0].id else room.hostId
    ensures r.Some? ==> r.value.(players := room.players, hostId := room.hostId) == room
    ensures RoomValid(room) && r.Some? ==> RoomValid(r.value) && playerId !in Ids(r.value.players)
  {
    var remaining := Without(room.players, playerId);
    assert RoomValid(room) && |remaining| > 0 ==>
      && UniqueIds(remaining) && playerId !in Ids(remaining)
      && (room.hostId != playerId ==> room.hostId in Ids(remaining))
    by {
      if RoomValid(room) && |remaining| > 0 {
        WithoutUnique(room.players, playerId);
        if room.hostId != playerId {
          var k :| 0 <= k < |room.players| && Ids(room.players)[k] == room.hostId;
          IdOfMember(remaining, room.players[k]);
        }
      }
    }
    assert |remaining| == 0 <==> forall k :: 0 <= k < |room.players| ==> room.players[k].id == playerId by {
      if |remaining| > 0 {
        assert remaining[0] in room.players;
      }
    }
    if |remaining| == 0 then
      None
    else
      Some(room.(players := remaining, hostId := if room.hostId == playerId then remaining[0].id else room.hostId))
  }

  /** The record after `startGame`, or the error it throws, checked in the
      source's order. `wordDraw` and `imposterDraw` are the two random draws. */
  function StartRound(room: Room, playerId: string, wordDraw: real, imposterDraw: real): (r: Result<Room, LobbyError>)
    requires 0.0 <= wordDraw < 1.0 && 0.0 <= imposterDraw < 1.0
    ensures r.Failure? <==> playerId != room.hostId || |room.players| < 2
    ensures r.Failure? ==> r.error == if playerId != room.hostId then NotHost else NotEnoughPlayers
    ensures r.Success? ==> r.value.gameState == Playing
    ensures r.Success? ==> r.value.word.Some? && r.value.word.value in Words && |r.value.word.value| > 0
    ensures r.Success? ==> r.value.imposterId.Some? && r.value.imposterId.value in Ids(room.players)
    ensures r.Success? ==> r.value.word == Some(Words[PickIndex(wordDraw, |Words|)])
    ensures r.Success? ==> r.value.imposterId == Some(room.players[PickIndex(imposterDraw, |room.players|)].id)
    ensures r.Success? ==> r.value.(gameState := room.gameState, word := room.word, imposterId := room.imposterId) == room
    ensures RoomValid(room) && r.Success? ==> RoomValid(r.value)
  {
    if room.hostId != playerId then
      Failure(NotHost)
    else if |room.players| < 2 then
      Failure(NotEnoughPlayers)
    else
      var imposter := room.players[PickIndex(imposterDraw, |room.players|)];
      Success(room.(gameState := Playing, word := Some(Words[PickIndex(wordDraw, |Words|)]), imposterId := Some(imposter.id)))
  }

  /** Leaving a room one is not in changes nothing. */
  lemma LeaveAbsent(room: Room, playerId: string)
    requires RoomValid(room) && playerId !in Ids(room.players)
    ensures Left(room, playerId) == Some(room)
  {
    WithoutAbsent(room.players, playerId);
  }

  /** In a valid room a leaving member is removed exactly once, the others closing ranks. */
  lemma LeaveRemovesMember(room: Room, k: nat)
    requires RoomValid(room) && k < |room.players| && |room.players| > 1
    ensures Left(room, room.players[k].id).Some?
    ensures Left(room, room.players[k].id).value.players == room.players[..k] + room.players[k + 1..]
  {
    RemovesExactlyOne(room.players, k);
  }

  /** The imposter may leave: nothing in `leaveRoom` clears `imposterId`, so a
      stored room can name an imposter who is no longer among its players. */
  lemma ImposterMayLeave()
    ensures var room := Room("ROOM01", "A", [Player("A", "s1"), Player("B", "s2")], Playing, Some("Moon"), Some("B"));
      && RoomValid(room)
      && Left(room, "B") == Some(room.(players := [Player("A", "s1")]))
      && "B" !in Ids(Left(room, "B").value.players)
  {
    var room := Room("ROOM01", "A", [Player("A", "s1"), Player("B", "s2")], Playing, Some("Moon"), Some("B"));
    assert Without(room.players, "B") == [Player("A", "s1")] by {
      RemovesExactlyOne(room.players, 1);
    }
  }

  /** The imposter of a started round is player `k` exactly when the draw
      lies in [k/n, (k+1)/n) for n players: each player is equally likely. */
  lemma StartImposterInterval(room: Room, wordDraw: real, imposterDraw: real, k: nat)
    requires RoomValid(room) && |room.players| >= 2 && k < |room.players|
    requires 0.0 <= wordDraw < 1.0 && 0.0 <= imposterDraw < 1.0
    ensures StartRound(room, room.hostId, wordDraw, imposterDraw).Success?
    ensures var n := |room.players|;
      StartRound(room, room.hostId, wordDraw, imposterDraw).value.imposterId == Some(room.players[k].id)
      <==> k as real / n as real <= imposterDraw < (k + 1) as real / n as real
  {
    var n := |room.players|;
    var i := PickIndex(imposterDraw, n);
    PickIndexInterval(imposterDraw, n, k);
    if room.players[i].id == room.players[k].id {
      assert i == k;
    }
  }

  /** The word of a started round is `Words[k]` exactly when the draw lies in
      [k/7, (k+1)/7): each of the seven words is equally likely. */
  lemma StartWordInterval(room: Room, wordDraw: real, imposterDraw: real, k: nat)
    requires |room.players| >= 2 && k < |Words|
    requires 0.0 <= wordDraw < 1.0 && 0.0 <= imposterDraw < 1.0
    ensures StartRound(room, room.hostId, wordDraw, imposterDraw).Success?
    ensures StartRound(room, room.hostId, wordDraw, imposterDraw).value.word == Some(Words[k])
      <==> k as real / 7.0 <= wordDraw < (k + 1) as real / 7.0
  {
    var i := PickIndex(wordDraw, |Words|);
    PickIndexInterval(wordDraw, |Words|, k);
    if Words[i] == Words[k] {
      WordsDistinct(i, k);
    }
  }

  /** The listed words are pairwise different. */
  lemma WordsDistinct(i: nat, j: nat)
    requires i < |Words| && j < |Words| && Words[i] == Words[j]
    ensures i == j
  {
  }

  /** A step of the proof of `JoinAllDistinct`, stated on its own so that the
      solver does not have to find it among that proof's other facts. */
  lemma ConcatAssoc<T>(a: seq<T>, b: seq<T>, c: seq<T>)
    ensures a + b + c == a + (b + c)
  {
  }

  /** Applying `Joined` for each player of `joins`, in order. */
  function JoinAll(room: Room, joins: seq<Player>): Room
    decreases |joins|
  {
    if |joins| == 0 then room
    else JoinAll(Joined(room, joins[0].id, joins[0].socketId), joins[1..])
  }

  /** Joining players with fresh, distinct ids adds them after the existing
      players, in arrival order, one entry each. */
  lemma {:induction false} JoinAllDistinct(room: Room, joins: seq<Player>)
    requires UniqueIds(joins)
    requires forall k :: 0 <= k < |joins| ==> joins[k].id !in Ids(room.players)
    ensures Ids(JoinAll(room, joins).players) == Ids(room.players) + Ids(joins)
    decreases |joins|
  {
    if |joins| > 0 {
      var p, rest := joins[0], joins[1..];
      var next := Joined(room, p.id, p.socketId);
      assert next.players == room.players + [p];
      IdsAppend(room.players, [p]);
      assert Ids(next.players) == Ids(room.players) + [p.id];
      forall k | 0 <= k < |rest| ensures rest[k].id !in Ids(next.players) {
        assert rest[k] == joins[k + 1];
      }
      JoinAllDistinct(next, rest);
      assert JoinAll(room, joins) == JoinAll(next, rest);
      assert Ids(joins) == [p.id] + Ids(rest);
      ConcatAssoc(Ids(room.players), [p.id], Ids(rest));
    }
  }
}
