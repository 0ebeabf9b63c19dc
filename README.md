# Lobby room registry, modelled in Dafny

This project models the in-memory room manager of a party-game lobby
backend, `LobbyService` (backend/src/lobby/lobby.service.ts). The service owns
one map from room id to room record. A room has an id, a host id, an ordered
list of players, a game state (`waiting`, `playing` or `finished`), and an
optional secret word and imposter id. The service has five operations:

- `createRoom` files a waiting room whose only player is the host.
- `joinRoom` appends a player, or updates the socket of a player who is already there.
- `leaveRoom` filters a player out. It deletes an emptied room and hands the host role to the first remaining player.
- `getRoom` looks a room up.
- `startGame` checks the caller and the player count, then moves the room to `playing` with a drawn word and imposter.

Files:

- `wrappers.dfy` (module `Wrappers`) holds `Option` and `Result`.
- `players.dfy` (module `Players`) holds the player record and the two list operations the service runs. `find` is modelled as the loop `FindPlayer`, specified by `FindIndex`. `filter` is modelled as the loop `RemovePlayer`, specified by `Without`.
- `rooms.dfy` (module `Rooms`) holds the room record, the error kinds and their messages, the word list, and the room invariant `RoomValid`. It also holds one pure transition per operation (`Joined`, `Left`, `StartRound`), with the lemmas about them.
- `lobby.dfy` (module `Lobby`) holds the class `LobbyService`, with its `rooms` map and one method per operation. Each method updates the map in place and states its new value in terms of the transitions above. The class invariant `Valid()` is `RegistryValid(rooms)`: every stored room is filed under its own id and satisfies `RoomValid`. Every method keeps it. The module also holds verified client scenarios, which mirror the service's own unit tests.

Inputs the source takes from outside are parameters here:

- The room id is a parameter of `CreateRoom`. The source takes six characters of a UUID and upper-cases them.
- The two `Math.random()` results of `startGame` are parameters `wordDraw` and `imposterDraw`, required to lie in [0, 1). The index is `floor(draw * n)`, as in the source. `PickIndexInterval` proves that index `k` is drawn exactly for draws in `[k/n, (k+1)/n)`. So each index is equally likely under a uniform draw. `StartImposterInterval` and `StartWordInterval` carry this through to `startGame` itself, for the imposter and for the word.
- Thrown exceptions are `Failure` values of `LobbyError`. `Message` gives the exact text each one carries.

In these places the code does not do what one might expect of a room manager, and the model follows the code:

- `imposterId`, when set, is NOT always a current player. `leaveRoom` never clears it, so the imposter can leave and still be named. `ImposterMayLeave` shows a concrete room where this happens, and the scenario `ImposterLeavesRound` reaches such a room through the service's own operations. `RoomValid` therefore does not contain that property. `StartRound` proves it holds at the moment a round starts.
- `createRoom` does not detect an id collision. A room already filed under the id is replaced, and `CreateRoom` states this.
- `startGame` does not look at the game state. It also restarts a round that is already `playing`.
- `leaveRoom` returns `null` both for an unknown room and for a room it has just deleted. The model returns `None` in both cases.
- `joinRoom` does not enforce a maximum player count.
- No operation of the service sets `finished`. Rounds are never resolved here, so `RoomValid` ties the word and the imposter to `gameState != Waiting`.

## Model

| member | source | states |
|---|---|---|
| `Players.FindIndex` | backend/src/lobby/lobby.service.ts:44 | The result is the index of the first player with the id, or None exactly when no player has it. |
| `Players.FindPlayer` | backend/src/lobby/lobby.service.ts:44 | The lookup loop returns the first-match index defined by `FindIndex`. |
| `Players.Without` | backend/src/lobby/lobby.service.ts:59 | A player survives the filter exactly when it was in the list and its id differs. The list never grows. |
| `Players.RemovePlayer` | backend/src/lobby/lobby.service.ts:59 | The filter loop returns exactly `Without(ps, id)`. |
| `Players.WithoutAppend` | backend/src/lobby/lobby.service.ts:59 | Filtering distributes over concatenation, so survivors keep their relative order. |
| `Players.WithoutAbsent` | backend/src/lobby/lobby.service.ts:59 | Removing an id that no player has leaves the list unchanged. |
| `Players.WithoutUnique` | backend/src/lobby/lobby.service.ts:59 | Filtering keeps ids unique, and no remaining player has the removed id. |
| `Players.RemovesExactlyOne` | backend/src/lobby/lobby.service.ts:59 | With unique ids, removing the id of entry k yields the list without entry k and nothing else changed. |
| `Players.AppendFresh` | backend/src/lobby/lobby.service.ts:45-46 | Appending a player with a new id keeps ids unique and adds that id at the end. |
| `Players.ReplaceSameId` | backend/src/lobby/lobby.service.ts:49 | Updating a player in place without changing its id keeps the id list, and keeps it unique. |
| `Rooms.PickIndex` | backend/src/lobby/lobby.service.ts:94-95 | `floor(draw * n)` for a draw in [0, 1) is a valid index below n. |
| `Rooms.PickIndexInterval` | backend/src/lobby/lobby.service.ts:94-95 | Index k is chosen exactly when the draw lies in [k/n, (k+1)/n), an interval of width 1/n. |
| `Rooms.Joined` | backend/src/lobby/lobby.service.ts:43-50 | A new id is appended after all earlier players. A known id keeps its position and only its socket changes, so the id list is unchanged. No other field changes, and the room invariant is kept. |
| `Rooms.JoinAllDistinct` | backend/src/lobby/lobby.service.ts:43-50 | Joining players with distinct new ids adds one entry each, after the existing ones, in arrival order. |
| `Rooms.Left` | backend/src/lobby/lobby.service.ts:59-72 | The result is None exactly when every player had the leaving id. Otherwise the players are the filtered list. The host becomes the first remaining player if the host left, and is unchanged otherwise. All else is unchanged, the invariant is kept, and the leaver is gone. |
| `Rooms.LeaveAbsent` | backend/src/lobby/lobby.service.ts:59-72 | In a valid room, leaving with an id that is not a member returns the room unchanged. |
| `Rooms.LeaveRemovesMember` | backend/src/lobby/lobby.service.ts:59-72 | When member k of a room with several players leaves, the room survives with exactly entry k removed. |
| `Rooms.ImposterMayLeave` | backend/src/lobby/lobby.service.ts:55-73 | There is a valid playing room whose imposter can leave, leaving `imposterId` naming no current player. |
| `Rooms.StartRound` | backend/src/lobby/lobby.service.ts:86-96 | Fails with NotHost when the caller is not the host, else with NotEnoughPlayers when fewer than 2 players, and only then. On success the state is Playing. The word is the listed word at index floor(wordDraw * 7), which is non-empty. The imposter is the current player at index floor(imposterDraw * n). Id, host and players are untouched, and the invariant is kept. |
| `Rooms.StartImposterInterval` | backend/src/lobby/lobby.service.ts:95-96 | A host's start in a valid room of n >= 2 players makes player k the imposter exactly when the draw lies in [k/n, (k+1)/n), so each player is equally likely under a uniform draw. |
| `Rooms.StartWordInterval` | backend/src/lobby/lobby.service.ts:79-94 | A host's start picks the word at index k exactly when the draw lies in [k/7, (k+1)/7), so each of the seven listed words is equally likely under a uniform draw. |
| `Rooms.WordsDistinct` | backend/src/lobby/lobby.service.ts:79 | The seven listed words are pairwise different. |
| `Rooms.Message` | backend/src/lobby/lobby.service.ts:84-90 | Each error kind carries the text its throw site uses: "Room not found" (also at :40), "Only host can start game", "Need at least 2 players". The texts are non-empty and no other kind carries them. |
| `Lobby.LobbyService.constructor` | backend/src/lobby/lobby.service.ts:22 | The registry starts empty and valid. |
| `Lobby.LobbyService.GetRoom` | backend/src/lobby/lobby.service.ts:75-77 | Returns a room exactly when one is stored under the id. That room carries the id and satisfies the room invariant. |
| `Lobby.LobbyService.CreateRoom` | backend/src/lobby/lobby.service.ts:24-35 | Returns a waiting room with the given id whose host is the caller and whose players are exactly the host. It has no word or imposter. It is filed under its id, which replaces any earlier room there, every other entry is unchanged, and `GetRoom` then returns it. |
| `Lobby.LobbyService.JoinRoom` | backend/src/lobby/lobby.service.ts:37-53 | On an unknown id, fails with RoomNotFound and leaves the registry unchanged. Otherwise it stores and returns `Joined` of that room, with every other entry unchanged. |
| `Lobby.LobbyService.LeaveRoom` | backend/src/lobby/lobby.service.ts:55-73 | On an unknown id, returns None and leaves the registry unchanged. Otherwise it returns `Left` of the room. The room is deleted when that is None, and stored otherwise. Other entries are unchanged. |
| `Lobby.LobbyService.StartGame` | backend/src/lobby/lobby.service.ts:81-99 | On an unknown id, fails with RoomNotFound. Otherwise it returns `StartRound` of the room. The registry changes only on success, and then only in that room. |
| `Lobby.HostStartsGame` | backend/src/lobby/lobby.service.spec.ts:16-24 | After create, join and a start by the host, the room is playing, with a listed word and with one of the two players as imposter. |
| `Lobby.NonHostCannotStart` | backend/src/lobby/lobby.service.spec.ts:26-32 | A start by the non-host fails with NotHost, whose message is "Only host can start game". |
| `Lobby.LoneHostCannotStart` | backend/src/lobby/lobby.service.ts:89-91 | A start in a one-player room fails with NotEnoughPlayers, whose message is "Need at least 2 players". |
| `Lobby.RejoinUpdatesSocket` | backend/src/lobby/lobby.service.ts:43-50 | A second join with the same id leaves one entry, in place, carrying the new socket. |
| `Lobby.HostHandsOver` | backend/src/lobby/lobby.service.ts:55-77 | When the host leaves a two-player room, the other player becomes host and the only player. When that player leaves, the room is deleted and `getRoom` finds nothing. |
| `Lobby.ImposterLeavesRound` | backend/src/lobby/lobby.service.ts:55-73 | After create, join, a start that makes the second player imposter, and that player leaving, the stored room is still playing with only the host, and still names the departed player as imposter. |

## Left out

- `vote`, `updateSettings` and `handleGameTimeout` are not modelled. The gateway calls them, and the unit tests exercise `vote`, but lobby.service.ts does not implement them. Settings, votes, `endTime`, player display names and the timeout callback to `startGame` are left out with them.
- The gateway (backend/src/lobby/lobby.gateway.ts) is not part of this model. It is socket.io plumbing: channel subscriptions, broadcasts, per-player messages and logging.
- Room id generation is an external UUID call. It is a parameter here, so nothing about the six-character upper-case format is modelled.
- `createdAt` is a wall-clock `Date` and is omitted from the room record.
- Randomness is a caller-supplied draw in [0, 1). IEEE floating-point rounding of `Math.random() * n` is not modelled. The product is exact real arithmetic.
- Object aliasing is not modelled. In the source, the room returned by an operation is the stored object itself, so later operations are visible through earlier references. Here each operation returns a value snapshot and stores the new record in the map.
- Authentication, user storage, logging middleware, framework bootstrap and the frontend are not part of this model.
