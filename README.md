# XO game server: session registry and turn engine

This project models the core of a two-player tic-tac-toe (XO) server whose
whole logic lives in `backend/index.js`. The server keeps two in-memory maps:

- `games`: room id -> room. A room has a nine-cell board, the symbol to move,
  the list of its sockets, a status ('waiting', 'playing', 'finished') and a
  winner.
- `players`: socket id -> the room the socket sits in and the symbol it plays.

Four socket.io handlers act on these maps:

- `join-game` leaves the socket's current room, then creates a room or joins an existing one.
- `make-move` validates a move, writes one cell and decides win, draw or next turn.
- `reset-game` starts a room over.
- `disconnect` leaves the room.

`checkWinner` scans the eight winning patterns.

The Dafny modules follow that structure:

- `Board` (board.dfy): cells, symbols and the pattern list.
  - `CheckWinner` is the pattern scan.
  - `HasLine` is an independent description of a win by rows, columns and diagonals.
  - `Full` is the draw test.
- `RoomCode` (roomcode.dfy): how `join-game` reads its argument. It applies JavaScript's `trim`, and a null, empty or blank id means "create a room".
- `Session` (session.dfy): the registries as values. For each handler there is a step function that gives the new registries and the events emitted, in order. Next to each step function, an `...Effects` lemma states what the handler does.
- `SessionProperties` (properties.dfy): the invariant every handler keeps, and what runs of moves do. The invariant covers:
  - nine cells, and one or two distinct sockets per room;
  - bindings and room lists in agreement;
  - 'X' for the creator and 'O' for the joiner;
  - a status that agrees with the board and the recorded winner;
  - 'X' moving first, with strict alternation.
- `Server` (server.dfy): the handlers as methods of a `Registry` class, which holds the two maps and updates `Room` objects in place. Each handler method (`Disconnect`, `JoinGame`, `MakeMove`, `ResetGame`) is proved to produce exactly the registries and events of its step function and to keep the invariant. The helpers `ApplyLeave`, `ApplyJoin`, `ApplyMove` and `ApplyReset` are proved to produce the same registries and events but keep only the agreement between the fields and the model (`Wellformed`); `LeaveRoom` is `ApplyLeave` for a socket whose room exists, and `CreateRoom` and `SeatSecond` are the two successful branches of `ApplyJoin`; these three also keep only `Wellformed`.

Events are returned as values (`Emit(audience, message)`), not delivered. The
audience records whether the source used `socket.emit` (the sender),
`socket.to(room).emit` (the others in the room) or `io.to(room).emit`
(everyone in the room).

Behaviour of the code worth knowing, which the model keeps:

- `reset-game` always restarts with 'X' to move, status 'playing' and no winner. No starting symbol alternates and no symbols are reassigned.
- A join that finds a room with one socket whose status is not 'waiting' gets "Room does not exist". There is no separate "room unavailable" error.
- Leaving never changes a room's status. A game left by one player stays 'playing' with a single socket, and nobody can join it (`VacatedSeatCannotBeTaken`). So "status is 'waiting' exactly when the room has one socket" does not hold in the code. The invariant proved here is the one the code keeps.
- `cellIndex` has no bounds check. An index outside the board reads `undefined`, which is `!== null`, so the move is refused as "Cell already occupied".
- A socket alone in its waiting room that asks to join that same room first leaves it, which deletes it, and is then told the room does not exist (`RejoiningOwnRoomDeletesIt`).

## Model

| member | source | states |
|---|---|---|
| Board.CellAt | backend/index.js:181 | `board[i]`, where an index outside the board reads `undefined`, falsy like `null` (defines) |
| Board.Completes | backend/index.js:181 | the test `board[a] && board[a] === board[b] && board[a] === board[c]` on one pattern (defines) |
| Board.FirstWinnerFrom | backend/index.js:179-185 | the loop over the patterns from index k on, returning the first completed pattern's symbol (defines; its contract is `FirstWinnerFromFinds`) |
| Board.Full | backend/index.js:122 | `board.every(cell => cell !== null)` (defines) |
| Board.Other | backend/index.js:129 | the symbol that takes the turn differs from the one that had it |
| Board.FirstWinnerFromFinds | backend/index.js:179-185 | the scan from pattern k reports a symbol exactly when some pattern from k on is completed, and then the symbol of the first completed one |
| Board.CheckWinner | backend/index.js:172-186 | a symbol exactly when one of the eight patterns holds three equal occupied cells, and then the symbol of the first such pattern in the source's order |
| Board.PatternsAreLines | backend/index.js:173-177 | the eight patterns are exactly the three rows, three columns and two diagonals of the 3x3 grid: a symbol completes a pattern iff it holds a line |
| Board.CheckWinnerFindsLines | backend/index.js:172-186 | checkWinner against the grid description: no winner iff neither symbol holds a line; a reported symbol holds a line; a symbol that alone holds a line is reported |
| Board.WinAfterMarkIsMover | backend/index.js:179-185 | on a board with no completed pattern, writing a symbol into an empty cell can only complete a pattern of that symbol |
| Board.EmptyBoardUndecided | backend/index.js:60 | `Array(9).fill(null)` has no winner, is not full and holds no marks |
| RoomCode.IsWhitespace | backend/index.js:33 | the characters `trim` strips: ECMAScript WhiteSpace and LineTerminator (defines) |
| RoomCode.TrimStart | backend/index.js:33 | the longest suffix not starting with white space; what was cut is all white space |
| RoomCode.TrimEnd | backend/index.js:33 | the longest prefix not ending with white space; what was cut is all white space |
| RoomCode.Trim | backend/index.js:33 | `trim()`: a slice with only white space around it that neither starts nor ends with white space; empty iff the input is all white space |
| RoomCode.RequestedRoom | backend/index.js:55 | "create a room" exactly when the argument is null, empty or all white space; otherwise the trimmed, non-empty id |
| Session.IndexOf | backend/index.js:42 | `indexOf`: -1 iff absent, otherwise a position holding the socket with no earlier occurrence |
| Session.RemovePlayer | backend/index.js:42-45 | `indexOf` + `splice`: one element shorter when present, unchanged when absent, never adds a socket |
| Session.RemovePlayerCount | backend/index.js:42-45 | exactly one occurrence of the socket is removed (multiset difference) |
| Session.JoinFailureText | backend/index.js:81-83 | the two `join-error` texts: "Room is full..." and "Room does not exist..." (defines) |
| Session.MoveFailureText | backend/index.js:94-109 | the four `move-error` texts, one per refusal of `make-move` (defines) |
| Session.NewRoom | backend/index.js:59-64 | the room `join-game` creates: empty board, 'X' to move, the creator alone, 'waiting', no winner (defines) |
| Session.LeaveStep | backend/index.js:36-53 | the registries and events after leaving (defines; its contract is `LeaveEffects`) |
| Session.LeaveEffects | backend/index.js:37-53 | leaving unbinds the socket; its room loses it and is deleted iff its list becomes empty, otherwise keeps board, turn, status and winner and the others hear `opponent-left`; other rooms are unchanged; an unbound socket changes nothing |
| Session.Joined | backend/index.js:73-74 | `players.push(sock)` and status 'playing' (defines) |
| Session.JoinStep | backend/index.js:31-86 | the registries and events after `join-game` (defines; its contract is `JoinEffects`) |
| Session.JoinEffects | backend/index.js:55-85 | after leaving: a new room under the fresh id with the socket as 'X'; or the socket seated as 'O' in a waiting room of one, which then has two sockets and is playing, with `game-joined`, `opponent-joined`, `game-start` in order; otherwise nothing changes and the error is "full" iff the room has two or more sockets, else "does not exist" |
| Session.Vacant | backend/index.js:108 | `board[cellIndex] === null`: false for a taken cell and for an index outside the board (defines) |
| Session.MoveCheck | backend/index.js:93-111 | the four refusals in the source's order, each iff its condition holds and the earlier ones pass; an index outside the board counts as occupied |
| Session.Played | backend/index.js:113-136 | exactly the chosen cell gets the mover's symbol; a completed pattern finishes with that winner, else a full board finishes as a draw, else the turn passes; sockets kept |
| Session.MoveStep | backend/index.js:88-137 | the registries and events after `make-move` (defines; its contract is `MoveEffects`) |
| Session.MoveEffects | backend/index.js:88-137 | a refused move changes nothing and answers the sender alone; an accepted one changes only that room, writing exactly one cell, and tells the whole room the outcome |
| Session.ResetStep | backend/index.js:139-148 | the registries and events after `reset-game` (defines; its contract is `ResetEffects`) |
| Session.ResetEffects | backend/index.js:139-148 | an existing room gets an empty board, 'X' to move, 'playing', no winner, keeps its sockets, and everyone hears `game-reset`; other rooms untouched; an unknown id is a no-op |
| SessionProperties.InitialInv | backend/index.js:24-25 | the empty registries satisfy the invariant |
| SessionProperties.RemovePlayerNoDuplicates | backend/index.js:42-45 | removing a socket from a list without duplicates leaves none |
| SessionProperties.RemovePlayerMembers | backend/index.js:42-45 | on a list without duplicates, the removed socket goes and every other stays |
| SessionProperties.LeavePreservesInv | backend/index.js:150-167 | leaving (on disconnect or before a join) keeps the invariant |
| SessionProperties.JoinPreservesInv | backend/index.js:31-86 | `join-game` with a fresh id keeps the invariant |
| SessionProperties.CreateKeepsInv | backend/index.js:56-66 | adding a new waiting room for an unbound socket keeps the invariant |
| SessionProperties.SecondJoinKeepsInv | backend/index.js:71-75 | seating an unbound socket as 'O' in a waiting room of one keeps the invariant |
| SessionProperties.JoinedRoomInv | backend/index.js:73-74 | the joined room keeps the room invariant, has the creator followed by the joiner, is 'playing', and has an empty board with 'X' to move |
| SessionProperties.JoinStartsFreshGame | backend/index.js:71-78 | when `join-game` seats the socket, the room it starts has two sockets, an empty board and 'X' to move, and the 'X' announced in `opponent-joined` and `game-start` is that room's `currentPlayer` |
| SessionProperties.MovePreservesInv | backend/index.js:88-137 | `make-move` keeps the invariant, including strict X/O alternation and a status that agrees with the board |
| SessionProperties.WinnerIsMover | backend/index.js:114-120 | under the invariant, a move that finishes the game with a winner is won by the mover's symbol |
| SessionProperties.PlayedWinnerIsMover | backend/index.js:114-120 | the same for one room that was playing |
| SessionProperties.PlayedRoomInv | backend/index.js:114-136 | a move by the symbol to move keeps the room invariant |
| SessionProperties.ResetPreservesInv | backend/index.js:139-148 | `reset-game` keeps the invariant |
| SessionProperties.ResetIdempotent | backend/index.js:141-146 | resetting twice equals resetting once |
| SessionProperties.ThirdJoinIsFull | backend/index.js:80-81 | a socket asking for a room of two is told it is full and the room is unchanged |
| SessionProperties.VacatedSeatCannotBeTaken | backend/index.js:160-164 | after one player of a game in progress leaves, the room stays 'playing' with one socket and a newcomer is told it does not exist |
| SessionProperties.RejoiningOwnRoomDeletesIt | backend/index.js:40-47 | asking to join one's own waiting room deletes it and answers "does not exist", leaving the socket unbound |
| SessionProperties.MoveKeepsMarks | backend/index.js:108-114 | one `make-move` deletes no room, keeps sockets and board length, and overwrites no taken cell |
| SessionProperties.MovesKeepMarks | backend/index.js:108-114 | the same for any run of moves |
| SessionProperties.MovesPreserveInv | backend/index.js:88-137 | any run of moves keeps the invariant |
| Server.AllOccupied | backend/index.js:122 | `board.every(cell => cell !== null)` by a scan: true iff no cell is empty |
| Server.Room.constructor | backend/index.js:59-64 | the new room: empty board, 'X' to move, the creator alone, waiting, no winner |
| Server.Room.RemoveSocket | backend/index.js:42-45 | the socket list becomes `RemovePlayer` of the old one; nothing else changes |
| Server.Room.Seat | backend/index.js:73-74 | the socket is appended and the status becomes 'playing'; nothing else changes |
| Server.Room.Play | backend/index.js:114-136 | the room and the event become what `Played` gives for the old room |
| Server.Room.Reset | backend/index.js:142-145 | empty board, 'X' to move, 'playing', no winner; sockets kept |
| Server.Registry.constructor | backend/index.js:24-25 | both maps empty, the invariant holds |
| Server.Registry.ApplyLeave | backend/index.js:36-53 | the maps and rooms become `LeaveStep` of the old ones, with its events |
| Server.Registry.LeaveRoom | backend/index.js:40-52 | the same when the socket's room exists |
| Server.Registry.Disconnect | backend/index.js:150-168 | `LeaveStep`, keeping the invariant |
| Server.Registry.JoinGame | backend/index.js:31-86 | `JoinStep`, keeping the invariant; only the new room is a new object |
| Server.Registry.ApplyJoin | backend/index.js:31-86 | the maps and rooms become `JoinStep` of the old ones, with its events |
| Server.Registry.CreateRoom | backend/index.js:56-66 | a new room object under the fresh id and the socket bound as 'X' |
| Server.Registry.SeatSecond | backend/index.js:72-75 | the room becomes `Joined` and the socket is bound as 'O' |
| Server.Registry.MakeMove | backend/index.js:88-137 | `MoveStep`, keeping the invariant |
| Server.Registry.ApplyMove | backend/index.js:88-137 | the maps and rooms become `MoveStep` of the old ones, with its events |
| Server.Registry.ResetGame | backend/index.js:139-148 | `ResetStep`, keeping the invariant |
| Server.Registry.ApplyReset | backend/index.js:139-148 | the maps and rooms become `ResetStep` of the old ones, with its events |

## Left out

- Express static file serving, the `/` route, the CORS options and `server.listen` (backend/index.js:1-21, 188-192) are bootstrap and I/O with no logic.
- socket.io delivery is not modelled: `socket.join`/`socket.leave` group membership and the actual sending of events. Handlers return the events they emit, each tagged with its audience.
- The room id built from `Date.now()` and `Math.random()` (backend/index.js:57) is a parameter, `freshId`.
- Server.Registry.JoinGame: requires that `freshId` is not already a room id. The source assumes its generated ids never collide; on a collision `games.set` would replace the existing room, and the model does not cover that.
- `console.log` calls are logging only.
- JavaScript dynamic typing beyond the out-of-range index is not modelled. `cellIndex` is an integer and the payloads are well formed; a string-typed index or a missing payload is outside the model.
- RoomCode.Trim: works on Unicode scalar values where JavaScript strings are UTF-16 code units. The two agree for every white-space character `trim` strips, since all of them lie in the Basic Multilingual Plane.
- The board is a `seq` field of each `Room` that the methods reassign, not a shared mutable array. In the source, the `board` sent in an event is the room's own array. The model copies the value, which is what a client receives once the event is serialised.
- The error message strings are given by `JoinFailureText` and `MoveFailureText`, but the events carry the failure kind rather than the text.
- `reset-game` has no authorization in the source: any socket may reset any room, and the model keeps this. Resetting a waiting room leaves it 'playing' with one socket, and that is modelled as written.
