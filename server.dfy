/**
 * The socket.io handlers of backend/index.js acting on the two registries in
 * place: `games` maps a room id to a mutable room object, and `players` maps a
 * socket id to its binding. Each handler is a method of Registry, proved to
 * produce the registries and the events that the matching step function of
 * module Session gives, and to keep the invariant of module
 * SessionProperties. Each handler is split into the update itself (an
 * `Apply` method, which needs only that the objects match the model) and the
 * invariant, which follows from the lemma about its step function.
 */
module Server {
  import opened Options
  import opened Board
  import opened RoomCode
  import opened Session
  import opened SessionProperties

  /** `board.every(cell => cell !== null)`, scanning the cells in order. */
  method AllOccupied(b: seq<Cell>) returns (full: bool)
    ensures full <==> Full(b)
  {
    var i := 0;
    while i < |b|
      invariant 0 <= i <= |b|
      invariant forall k :: 0 <= k < i ==> b[k] != Empty
    {
      if b[i] == Empty {
        return false;
      }
      i := i + 1;
    }
    return true;
  }

  /** One entry of `games`, updated in place by the handlers. */
  class Room {
    var board: seq<Cell>
    var currentPlayer: Symbol
    var players: seq<SocketId>
    var status: Status
    var winner: Option<Winner>
    /** The id the room was created under. */
    ghost const Key: RoomId

    /** The room as a value. */
    ghost function Snapshot(): RoomState
      reads this
    {
      RoomState(board, currentPlayer, players, status, winner)
    }

    /** The room `join-game` creates (backend/index.js:59-64). */
    constructor (key: RoomId, creator: SocketId)
      ensures Key == key && Snapshot() == NewRoom(creator)
    {
      Key := key;
      board := EmptyBoard;
      currentPlayer := X;
      players := [creator];
      status := Waiting;
      winner := None;
    }

    /** `players.indexOf(sock)`, then `players.splice(index, 1)` when found (backend/index.js:42-45). */
    method RemoveSocket(sock: SocketId)
      modifies this
      ensures players == RemovePlayer(old(players), sock)
      ensures board == old(board) && currentPlayer == old(currentPlayer)
      ensures status == old(status) && winner == old(winner)
    {
      var index := IndexOf(players, sock);
      if index > -1 {
        players := players[..index] + players[index + 1..];
      }
    }

    /** The second socket takes its seat: `players.push(sock)` and status 'playing' (backend/index.js:73-74). */
    method Seat(sock: SocketId)
      modifies this
      ensures Snapshot() == Joined(old(Snapshot()), sock)
    {
      players := players + [sock];
      status := Playing;
    }

    /**
     * An accepted move (backend/index.js:114-136): the mover's symbol is
     * written into the vacant cell, then the outcome is decided as `Played`
     * says; `m` is the event the room hears.
     */
    method Play(cellIndex: int, mover: Symbol) returns (m: Message)
      requires Vacant(board, cellIndex)
      modifies this
      ensures (Snapshot(), m) == Played(old(Snapshot()), cellIndex, mover)
    {
      board := board[cellIndex := Mark(mover)];
      var w := CheckWinner(board);
      if w.Some? {
        status := Finished;
        winner := Some(Won(w.value));
        m := GameOver(Won(w.value), board);
      } else {
        var full := AllOccupied(board);
        if full {
          status := Finished;
          winner := Some(Draw);
          m := GameOver(Draw, board);
        } else {
          currentPlayer := Other(currentPlayer);
          m := MoveMade(cellIndex, mover, currentPlayer, board);
        }
      }
    }

    /** `reset-game` on this room (backend/index.js:142-145): a new empty board, 'X' to move, playing, no winner. */
    method Reset()
      modifies this
      ensures Snapshot() == old(Snapshot()).(board := EmptyBoard, currentPlayer := X, status := Playing, winner := None)
    {
      board := EmptyBoard;
      currentPlayer := X;
      status := Playing;
      winner := None;
    }
  }

  /** The `games` and `players` maps of backend/index.js:24-25. */
  class Registry {
    var games: map<RoomId, Room>
    var players: map<SocketId, Binding>

    /** The registries as a value, kept up to date by every method. */
    ghost var Model: State
    /** The room objects of the registry. */
    ghost var Repr: set<object>

    /**
     * Every live room belongs to Repr and is stored under the id it was
     * created with (so no two ids share a room), and Model is the value of
     * the maps and rooms.
     */
    ghost predicate Wellformed()
      reads this, Repr
    {
      && this in Repr
      && (forall id :: id in games ==> games[id] in Repr && games[id].Key == id)
      && games.Keys == Model.games.Keys
      && (forall id :: id in games ==> games[id].Snapshot() == Model.games[id])
      && players == Model.players
    }

    /** The object invariant: well formed, and the registries satisfy the invariant of SessionProperties. */
    ghost predicate Valid()
      reads this, Repr
    {
      Wellformed() && Inv(Model)
    }

    /** Both maps empty, as at start-up. */
    constructor ()
      ensures Valid() && fresh(Repr)
      ensures Model == Initial
    {
      games := map[];
      players := map[];
      Model := Initial;
      Repr := {this};
      new;
      InitialInv();
    }

    /** The departure shared by `join-game` (backend/index.js:37-53) and `disconnect` (backend/index.js:150-167). */
    method ApplyLeave(sock: SocketId) returns (emits: seq<Emit>)
      requires Wellformed()
      modifies Repr
      ensures Wellformed() && Repr == old(Repr)
      ensures Model == LeaveStep(old(Model), sock).state
      ensures emits == LeaveStep(old(Model), sock).emits
    {
      emits := [];
      if sock in players {
        var id := players[sock].roomId;
        if id in games {
          emits := LeaveRoom(sock, id);
        } else {
          players := players - {sock};
          Model := Model.(players := Model.players - {sock});
        }
      }
    }

    /** Leaving when the socket's room exists: the room loses the socket and is deleted once empty. */
    method LeaveRoom(sock: SocketId, id: RoomId) returns (emits: seq<Emit>)
      requires Wellformed() && sock in players && players[sock].roomId == id && id in games
      modifies Repr
      ensures Wellformed() && Repr == old(Repr)
      ensures Model == LeaveStep(old(Model), sock).state
      ensures emits == LeaveStep(old(Model), sock).emits
    {
      var game := games[id];
      game.RemoveSocket(sock);
      if |game.players| == 0 {
        games := games - {id};
        Model := State(Model.games - {id}, Model.players - {sock});
        emits := [];
      } else {
        Model := State(Model.games[id := game.Snapshot()], Model.players - {sock});
        emits := [Emit(OthersInRoom(id), OpponentLeft)];
      }
      players := players - {sock};
      forall k | k in games ensures games[k].Snapshot() == Model.games[k] {
        if k != id {
          assert games[k] != game;
        }
      }
    }

    /** `disconnect` (backend/index.js:150-168). */
    method Disconnect(sock: SocketId) returns (emits: seq<Emit>)
      requires Valid()
      modifies Repr
      ensures Valid() && Repr == old(Repr)
      ensures Model == LeaveStep(old(Model), sock).state
      ensures emits == LeaveStep(old(Model), sock).emits
    {
      LeavePreservesInv(Model, sock);
      emits := ApplyLeave(sock);
    }

    /** `join-game` (backend/index.js:31-86); `freshId` is the generated room id, not yet in use. */
    method JoinGame(sock: SocketId, roomId: Option<string>, freshId: RoomId) returns (emits: seq<Emit>)
      requires Valid() && freshId !in games
      modifies Repr
      ensures Valid() && fresh(Repr - old(Repr))
      ensures Model == JoinStep(old(Model), sock, roomId, freshId).state
      ensures emits == JoinStep(old(Model), sock, roomId, freshId).emits
    {
      JoinPreservesInv(Model, sock, roomId, freshId);
      emits := ApplyJoin(sock, roomId, freshId);
    }

    /** The update `join-game` makes: leave, then create, join or refuse. */
    method ApplyJoin(sock: SocketId, roomId: Option<string>, freshId: RoomId) returns (emits: seq<Emit>)
      requires Wellformed() && freshId !in games
      modifies Repr
      ensures Wellformed() && fresh(Repr - old(Repr))
      ensures Model == JoinStep(old(Model), sock, roomId, freshId).state
      ensures emits == JoinStep(old(Model), sock, roomId, freshId).emits
    {
      ghost var st := Model;
      var requested := RequestedRoom(roomId);
      emits := ApplyLeave(sock);
      ghost var left := Model;
      assert LeaveStep(st, sock) == Step(left, emits);
      if requested == None {
        assert JoinStep(st, sock, roomId, freshId) ==
          Step(State(left.games[freshId := NewRoom(sock)], left.players[sock := Binding(freshId, X)]),
               emits + [Emit(Sender, GameJoined(freshId, X, true))]);
        LeaveEffects(st, sock);
        CreateRoom(sock, freshId);
        emits := emits + [Emit(Sender, GameJoined(freshId, X, true))];
      } else {
        var id := requested.value;
        assert id in games ==> games[id].Snapshot() == left.games[id];
        if id in games && |games[id].players| == 1 && games[id].status == Waiting {
          assert JoinStep(st, sock, roomId, freshId) ==
            Step(State(left.games[id := Joined(left.games[id], sock)], left.players[sock := Binding(id, O)]),
                 emits + [Emit(Sender, GameJoined(id, O, false)), Emit(OthersInRoom(id), OpponentJoined(X, true)), Emit(EveryoneInRoom(id), GameStart(X))]);
          SeatSecond(sock, id);
          emits := emits + [Emit(Sender, GameJoined(id, O, false)),
                            Emit(OthersInRoom(id), OpponentJoined(X, true)),
                            Emit(EveryoneInRoom(id), GameStart(X))];
        } else if id in games && |games[id].players| >= 2 {
          assert JoinStep(st, sock, roomId, freshId) == Step(left, emits + [Emit(Sender, JoinError(RoomFull))]);
          emits := emits + [Emit(Sender, JoinError(RoomFull))];
        } else {
          assert JoinStep(st, sock, roomId, freshId) == Step(left, emits + [Emit(Sender, JoinError(RoomNotFound))]);
          emits := emits + [Emit(Sender, JoinError(RoomNotFound))];
        }
      }
    }

    /** A new room under `freshId` with `sock` as its creator and 'X' player (backend/index.js:56-66). */
    method CreateRoom(sock: SocketId, freshId: RoomId)
      requires Wellformed() && freshId !in games
      modifies this
      ensures Wellformed() && fresh(Repr - old(Repr))
      ensures Model == State(old(Model).games[freshId := NewRoom(sock)], old(Model).players[sock := Binding(freshId, X)])
    {
      var room := new Room(freshId, sock);
      games := games[freshId := room];
      players := players[sock := Binding(freshId, X)];
      Repr := Repr + {room};
      Model := State(Model.games[freshId := NewRoom(sock)], Model.players[sock := Binding(freshId, X)]);
    }

    /** `sock` takes the 'O' seat of room `id` (backend/index.js:72-75). */
    method SeatSecond(sock: SocketId, id: RoomId)
      requires Wellformed() && id in games
      modifies Repr
      ensures Wellformed() && Repr == old(Repr)
      ensures Model == State(old(Model).games[id := Joined(old(Model).games[id], sock)], old(Model).players[sock := Binding(id, O)])
    {
      var game := games[id];
      game.Seat(sock);
      players := players[sock := Binding(id, O)];
      Model := State(Model.games[id := game.Snapshot()], Model.players[sock := Binding(id, O)]);
      forall k | k in games ensures games[k].Snapshot() == Model.games[k] {
        if k != id {
          assert games[k] != game;
        }
      }
    }

    /** `make-move` (backend/index.js:88-137). */
    method MakeMove(sock: SocketId, roomId: RoomId, cellIndex: int) returns (emits: seq<Emit>)
      requires Valid()
      modifies Repr
      ensures Valid() && Repr == old(Repr)
      ensures Model == MoveStep(old(Model), sock, roomId, cellIndex).state
      ensures emits == MoveStep(old(Model), sock, roomId, cellIndex).emits
    {
      MovePreservesInv(Model, sock, roomId, cellIndex);
      emits := ApplyMove(sock, roomId, cellIndex);
    }

    /** The checks of `make-move` in order, then the move on the room object. */
    method ApplyMove(sock: SocketId, roomId: RoomId, cellIndex: int) returns (emits: seq<Emit>)
      requires Wellformed()
      modifies Repr
      ensures Wellformed() && Repr == old(Repr)
      ensures Model == MoveStep(old(Model), sock, roomId, cellIndex).state
      ensures emits == MoveStep(old(Model), sock, roomId, cellIndex).emits
    {
      ghost var step := MoveStep(Model, sock, roomId, cellIndex);
      if roomId !in games || sock !in players || players[sock].roomId != roomId {
        return [Emit(Sender, MoveError(InvalidMove))];
      }
      var game := games[roomId];
      var player := players[sock];
      if game.status != Playing {
        return [Emit(Sender, MoveError(NotInProgress))];
      }
      if game.currentPlayer != player.symbol {
        return [Emit(Sender, MoveError(NotYourTurn))];
      }
      if !Vacant(game.board, cellIndex) {
        return [Emit(Sender, MoveError(CellOccupied))];
      }
      var m := game.Play(cellIndex, player.symbol);
      emits := [Emit(EveryoneInRoom(roomId), m)];
      Model := step.state;
      forall k | k in games ensures games[k].Snapshot() == Model.games[k] {
        if k != roomId {
          assert games[k] != game;
          assert games[k].Snapshot() == old(games[k].Snapshot());
        }
      }
    }

    /** `reset-game` (backend/index.js:139-148). */
    method ResetGame(roomId: RoomId) returns (emits: seq<Emit>)
      requires Valid()
      modifies Repr
      ensures Valid() && Repr == old(Repr)
      ensures Model == ResetStep(old(Model), roomId).state
      ensures emits == ResetStep(old(Model), roomId).emits
    {
      ResetPreservesInv(Model, roomId);
      emits := ApplyReset(roomId);
    }

    /** The room object of `roomId`, if any, starts over. */
    method ApplyReset(roomId: RoomId) returns (emits: seq<Emit>)
      requires Wellformed()
      modifies Repr
      ensures Wellformed() && Repr == old(Repr)
      ensures Model == ResetStep(old(Model), roomId).state
      ensures emits == ResetStep(old(Model), roomId).emits
    {
      ghost var step := ResetStep(Model, roomId);
      emits := [];
      if roomId in games {
        var game := games[roomId];
        game.Reset();
        emits := [Emit(EveryoneInRoom(roomId), GameReset(X))];
        Model := step.state;
        forall k | k in games ensures games[k].Snapshot() == Model.games[k] {
          if k != roomId {
            assert games[k] != game;
            assert games[k].Snapshot() == old(games[k].Snapshot());
          }
        }
      }
    }
  }
}
