/**
 * What holds of the registries across handlers: the invariant every handler
 * keeps (nine cells, at most two sockets per room, bindings and room lists in
 * agreement, one 'X' and one 'O' in a full room, status consistent with the
 * board, 'X' moving first and players alternating), and what a run of moves
 * does to the cells already taken.
 */
module SessionProperties {
  import opened Options
  import opened Board
  import opened RoomCode
  import opened Session

  ghost predicate NoDuplicates(ps: seq<SocketId>)
  {
    forall i, j :: 0 <= i < j < |ps| ==> ps[i] != ps[j]
  }

  /** The recorded winner agrees with the board. */
  ghost predicate Decided(b: seq<Cell>, w: Winner)
  {
    match w
    case Won(s) => CheckWinner(b) == Some(s)
    case Draw => CheckWinner(b) == None && Full(b)
  }

  /**
   * 'X' moved first and the symbols alternated: while a game goes on, the
   * symbol to move has placed as many marks as the other (X) or one fewer (O);
   * once it is over, `currentPlayer` is the symbol that made the last move.
   */
  ghost predicate Alternated(g: RoomState)
  {
    Count(g.board, X) == Count(g.board, O) + (if (g.status == Finished) == (g.currentPlayer == X) then 1 else 0)
  }

  ghost predicate RoomInv(g: RoomState)
  {
    && |g.board| == 9
    && 1 <= |g.players| <= 2
    && NoDuplicates(g.players)
    && (g.status == Waiting ==> |g.players| == 1 && g.board == EmptyBoard && g.currentPlayer == X)
    && (g.status != Finished ==> g.winner == None && CheckWinner(g.board) == None && !Full(g.board))
    && (g.status == Finished ==> g.winner.Some? && Decided(g.board, g.winner.value))
    && Alternated(g)
  }

  /** In a room of two the creator plays 'X' and the joiner 'O'; a waiting room's socket plays 'X'. */
  ghost predicate Seated(st: State, g: RoomState)
  {
    && (|g.players| == 2 ==>
          g.players[0] in st.players && st.players[g.players[0]].symbol == X
          && g.players[1] in st.players && st.players[g.players[1]].symbol == O)
    && (g.status == Waiting && |g.players| >= 1 ==> g.players[0] in st.players && st.players[g.players[0]].symbol == X)
  }

  /** Every room keeps the room invariant and its seating. */
  ghost predicate RoomsValid(st: State)
  {
    forall id :: id in st.games ==> RoomInv(st.games[id]) && Seated(st, st.games[id])
  }

  /** Every bound socket is in the list of the room it is bound to. */
  ghost predicate BindingsValid(st: State)
  {
    forall sock :: sock in st.players ==> st.players[sock].roomId in st.games && sock in st.games[st.players[sock].roomId].players
  }

  /** Every socket in a room's list is bound to that room. */
  ghost predicate MembersBound(st: State)
  {
    forall id, sock :: id in st.games && sock in st.games[id].players ==> BoundTo(st, sock, id)
  }

  /** The invariant of the registries. */
  ghost predicate Inv(st: State)
  {
    RoomsValid(st) && BindingsValid(st) && MembersBound(st)
  }

  lemma InitialInv()
    ensures Inv(Initial)
  {
  }

  /** Position `a` of a list with position `i` cut out is position `a` or `a + 1` of the list. */
  lemma CutAt(ps: seq<SocketId>, i: nat, a: nat)
    requires i < |ps| && a < |ps| - 1
    ensures (ps[..i] + ps[i + 1..])[a] == ps[if a < i then a else a + 1]
  {
  }

  /** Removing a socket from a duplicate-free list leaves it duplicate-free. */
  lemma RemovePlayerNoDuplicates(ps: seq<SocketId>, sock: SocketId)
    requires NoDuplicates(ps)
    ensures NoDuplicates(RemovePlayer(ps, sock))
  {
    var i := IndexOf(ps, sock);
    if i > -1 {
      var r := ps[..i] + ps[i + 1..];
      assert RemovePlayer(ps, sock) == r;
      forall a, b | 0 <= a < b < |r| ensures r[a] != r[b] {
        CutAt(ps, i, a);
        CutAt(ps, i, b);
      }
    }
  }

  /** Removing a socket from a duplicate-free list keeps every other socket and drops that one. */
  lemma RemovePlayerMembers(ps: seq<SocketId>, sock: SocketId)
    requires NoDuplicates(ps)
    ensures forall p :: p in RemovePlayer(ps, sock) <==> p in ps && p != sock
  {
    var i := IndexOf(ps, sock);
    if i > -1 {
      var r := ps[..i] + ps[i + 1..];
      assert RemovePlayer(ps, sock) == r;
      forall p ensures p in r <==> p in ps && p != sock {
        if p in r {
          var k :| 0 <= k < |r| && r[k] == p;
          CutAt(ps, i, k);
        }
        if p in ps && p != sock {
          var k :| 0 <= k < |ps| && ps[k] == p;
          if k < i {
            CutAt(ps, i, k);
          } else {
            CutAt(ps, i, k - 1);
          }
        }
      }
    }
  }

  /** A socket bound to a room sits in no other room's list. */
  lemma BoundInOneRoom(st: State, sock: SocketId, id: RoomId)
    requires MembersBound(st) && BoundTo(st, sock, id)
    ensures forall k :: k in st.games && k != id ==> sock !in st.games[k].players
  {
    forall k | k in st.games && sock in st.games[k].players ensures k == id {
      assert BoundTo(st, sock, k);
    }
  }

  /** Seating reads only the bindings of the room's own sockets. */
  lemma SeatingKept(st: State, s: State, g: RoomState, sock: SocketId)
    requires Seated(st, g) && sock !in g.players
    requires forall p :: p != sock ==> (p in s.players <==> p in st.players)
    requires forall p :: p != sock && p in st.players ==> s.players[p] == st.players[p]
    ensures Seated(s, g)
  {
    if |g.players| >= 1 { assert g.players[0] != sock; }
    if |g.players| == 2 { assert g.players[1] != sock; }
  }

  /** Unbinding a socket that sits in none of them keeps the rooms other than `id` valid. */
  lemma UnbindKeepsOtherRooms(st: State, s: State, sock: SocketId, id: RoomId)
    requires RoomsValid(st) && s.players == st.players - {sock}
    requires forall k :: k in st.games && k != id ==> sock !in st.games[k].players
    requires forall k :: k in s.games && k != id ==> k in st.games && s.games[k] == st.games[k]
    ensures forall k :: k in s.games && k != id ==> RoomInv(s.games[k]) && Seated(s, s.games[k])
  {
    forall k | k in s.games && k != id ensures RoomInv(s.games[k]) && Seated(s, s.games[k]) {
      SeatingKept(st, s, st.games[k], sock);
    }
  }

  /** After leaving, every bound socket still sits in the room it is bound to. */
  lemma LeaverBindings(st: State, s: State, sock: SocketId, id: RoomId)
    requires BindingsValid(st) && BoundTo(st, sock, id) && s.players == st.players - {sock}
    requires forall k :: k in st.games && k != id ==> k in s.games && s.games[k] == st.games[k]
    requires id in s.games ==> forall p :: p in st.games[id].players && p != sock ==> p in s.games[id].players
    requires id !in s.games ==> forall p :: p in st.games[id].players ==> p == sock
    ensures BindingsValid(s)
  {
    forall p | p in s.players ensures s.players[p].roomId in s.games && p in s.games[s.players[p].roomId].players {
      assert p in st.games[st.players[p].roomId].players;
    }
  }

  /** After leaving, every socket in a room's list is still bound to it. */
  lemma LeaverMembers(st: State, s: State, sock: SocketId, id: RoomId)
    requires MembersBound(st) && BoundTo(st, sock, id) && s.players == st.players - {sock}
    requires forall k :: k in s.games ==> k in st.games
    requires forall k :: k in s.games && k != id ==> s.games[k] == st.games[k]
    requires id in s.games ==> forall p :: p in s.games[id].players ==> p in st.games[id].players && p != sock
    ensures MembersBound(s)
  {
    forall k, p | k in s.games && p in s.games[k].players ensures BoundTo(s, p, k) {
      assert BoundTo(st, p, k);
    }
  }

  /** A room left with one of its two sockets keeps the room invariant. */
  lemma SoleSocketRoomInv(g: RoomState, rest: seq<SocketId>)
    requires RoomInv(g) && |rest| == |g.players| - 1 && rest != [] && NoDuplicates(rest)
    ensures RoomInv(g.(players := rest))
  {
    assert |rest| == 1;
  }

  /**
   * Leaving keeps the invariant, and afterwards the socket is bound to no room
   * and sits in no room's list.
   */
  lemma LeavePreservesInv(st: State, sock: SocketId)
    requires Inv(st)
    ensures Inv(LeaveStep(st, sock).state)
    ensures var s := LeaveStep(st, sock).state; sock !in s.players && forall id :: id in s.games ==> sock !in s.games[id].players
  {
    var s := LeaveStep(st, sock).state;
    if sock in st.players {
      var id := st.players[sock].roomId;
      var g := st.games[id];
      LeaveEffects(st, sock);
      RemovePlayerNoDuplicates(g.players, sock);
      RemovePlayerMembers(g.players, sock);
      var rest := RemovePlayer(g.players, sock);
      BoundInOneRoom(st, sock, id);
      UnbindKeepsOtherRooms(st, s, sock, id);
      if rest != [] {
        SoleSocketRoomInv(g, rest);
        assert s.games[id] == g.(players := rest);
      }
      LeaverBindings(st, s, sock, id);
      LeaverMembers(st, s, sock, id);
    }
  }

  /** `join-game` keeps the invariant, given a generated id that is not in use. */
  lemma JoinPreservesInv(st: State, sock: SocketId, roomId: Option<string>, freshId: RoomId)
    requires Inv(st)
    requires freshId !in st.games
    ensures Inv(JoinStep(st, sock, roomId, freshId).state)
  {
    LeavePreservesInv(st, sock);
    LeaveEffects(st, sock);
    var left := LeaveStep(st, sock).state;
    match RequestedRoom(roomId)
    case None =>
      CreateKeepsInv(left, sock, freshId);
    case Some(id) =>
      if id in left.games && |left.games[id].players| == 1 && left.games[id].status == Waiting {
        SecondJoinKeepsInv(left, sock, id);
      }
  }

  /** Adding a new waiting room for an unbound socket keeps the invariant. */
  lemma CreateKeepsInv(st: State, sock: SocketId, freshId: RoomId)
    requires Inv(st) && freshId !in st.games
    requires sock !in st.players && forall id :: id in st.games ==> sock !in st.games[id].players
    ensures Inv(State(st.games[freshId := NewRoom(sock)], st.players[sock := Binding(freshId, X)]))
  {
    CreateRooms(st, sock, freshId);
    CreateBindings(st, sock, freshId);
    CreateMembers(st, sock, freshId);
  }

  lemma CreateRooms(st: State, sock: SocketId, freshId: RoomId)
    requires RoomsValid(st)
    requires forall id :: id in st.games ==> sock !in st.games[id].players
    ensures RoomsValid(State(st.games[freshId := NewRoom(sock)], st.players[sock := Binding(freshId, X)]))
  {
    var s := State(st.games[freshId := NewRoom(sock)], st.players[sock := Binding(freshId, X)]);
    EmptyBoardUndecided();
    forall k | k in s.games ensures RoomInv(s.games[k]) && Seated(s, s.games[k]) {
      if k != freshId {
        SeatingKept(st, s, st.games[k], sock);
      }
    }
  }

  lemma CreateBindings(st: State, sock: SocketId, freshId: RoomId)
    requires BindingsValid(st) && freshId !in st.games
    ensures BindingsValid(State(st.games[freshId := NewRoom(sock)], st.players[sock := Binding(freshId, X)]))
  {
    var s := State(st.games[freshId := NewRoom(sock)], st.players[sock := Binding(freshId, X)]);
    forall p | p in s.players ensures s.players[p].roomId in s.games && p in s.games[s.players[p].roomId].players {
      if p != sock { assert p in st.games[st.players[p].roomId].players; }
    }
  }

  lemma CreateMembers(st: State, sock: SocketId, freshId: RoomId)
    requires MembersBound(st)
    requires forall id :: id in st.games ==> sock !in st.games[id].players
    ensures MembersBound(State(st.games[freshId := NewRoom(sock)], st.players[sock := Binding(freshId, X)]))
  {
    var s := State(st.games[freshId := NewRoom(sock)], st.players[sock := Binding(freshId, X)]);
    forall k, p | k in s.games && p in s.games[k].players ensures BoundTo(s, p, k) {
      if k != freshId { assert BoundTo(st, p, k); }
    }
  }

  /** An unbound socket joining a waiting room of one keeps the invariant. */
  lemma SecondJoinKeepsInv(st: State, sock: SocketId, id: RoomId)
    requires Inv(st) && id in st.games && |st.games[id].players| == 1 && st.games[id].status == Waiting
    requires sock !in st.players && forall k :: k in st.games ==> sock !in st.games[k].players
    ensures Inv(State(st.games[id := Joined(st.games[id], sock)], st.players[sock := Binding(id, O)]))
  {
    SecondJoinRooms(st, sock, id);
    SecondJoinBindings(st, sock, id);
    SecondJoinMembers(st, sock, id);
  }

  /** The joined room keeps the room invariant: an empty board, 'X' to move, two distinct sockets. */
  lemma JoinedRoomInv(g: RoomState, sock: SocketId)
    requires RoomInv(g) && |g.players| == 1 && g.status == Waiting && sock !in g.players
    ensures RoomInv(Joined(g, sock))
    ensures Joined(g, sock).board == EmptyBoard && Joined(g, sock).currentPlayer == X
    ensures Joined(g, sock).players == g.players + [sock] && Joined(g, sock).status == Playing
  {
    EmptyBoardUndecided();
    assert g.players[0] != sock;
  }

  /**
   * When `join-game` seats the socket, the game it starts has an empty board
   * and 'X' to move, so the 'X' announced in `opponent-joined` and
   * `game-start` is the room's `currentPlayer`.
   */
  lemma JoinStartsFreshGame(st: State, sock: SocketId, roomId: Option<string>, freshId: RoomId, id: RoomId)
    requires Inv(st) && RequestedRoom(roomId) == Some(id)
    ensures var left := LeaveStep(st, sock);
      var step := JoinStep(st, sock, roomId, freshId);
      id in left.state.games && |left.state.games[id].players| == 1 && left.state.games[id].status == Waiting ==>
        && id in step.state.games
        && var g := step.state.games[id];
        && g.board == EmptyBoard && g.currentPlayer == X && g.status == Playing && |g.players| == 2
        && step.emits == left.emits + [Emit(Sender, GameJoined(id, O, false)),
                                       Emit(OthersInRoom(id), OpponentJoined(g.currentPlayer, true)),
                                       Emit(EveryoneInRoom(id), GameStart(g.currentPlayer))]
  {
    LeavePreservesInv(st, sock);
    LeaveEffects(st, sock);
    JoinEffects(st, sock, roomId, freshId);
    var left := LeaveStep(st, sock).state;
    if id in left.games && |left.games[id].players| == 1 && left.games[id].status == Waiting {
      assert RoomInv(left.games[id]);
    }
  }

  lemma SecondJoinRooms(st: State, sock: SocketId, id: RoomId)
    requires RoomsValid(st) && id in st.games && |st.games[id].players| == 1 && st.games[id].status == Waiting
    requires sock !in st.players && forall k :: k in st.games ==> sock !in st.games[k].players
    ensures RoomsValid(State(st.games[id := Joined(st.games[id], sock)], st.players[sock := Binding(id, O)]))
  {
    var g := st.games[id];
    var s := State(st.games[id := Joined(g, sock)], st.players[sock := Binding(id, O)]);
    JoinedRoomInv(g, sock);
    JoinedSeated(st, g, sock, id);
    forall k | k in s.games ensures RoomInv(s.games[k]) && Seated(s, s.games[k]) {
      if k == id {
        assert s.games[k] == Joined(g, sock);
      } else {
        SeatingKept(st, s, st.games[k], sock);
      }
    }
  }

  /** The creator keeps 'X' and the joiner is bound to 'O'. */
  lemma JoinedSeated(st: State, g: RoomState, sock: SocketId, id: RoomId)
    requires Seated(st, g) && |g.players| == 1 && g.status == Waiting && sock !in g.players
    ensures Seated(State(st.games[id := Joined(g, sock)], st.players[sock := Binding(id, O)]), Joined(g, sock))
  {
    assert g.players[0] != sock;
  }

  lemma SecondJoinBindings(st: State, sock: SocketId, id: RoomId)
    requires BindingsValid(st) && id in st.games
    ensures BindingsValid(State(st.games[id := Joined(st.games[id], sock)], st.players[sock := Binding(id, O)]))
  {
    var s := State(st.games[id := Joined(st.games[id], sock)], st.players[sock := Binding(id, O)]);
    forall p | p in s.players ensures s.players[p].roomId in s.games && p in s.games[s.players[p].roomId].players {
      if p != sock { assert p in st.games[st.players[p].roomId].players; }
    }
  }

  lemma SecondJoinMembers(st: State, sock: SocketId, id: RoomId)
    requires MembersBound(st) && id in st.games
    requires forall k :: k in st.games ==> sock !in st.games[k].players
    ensures MembersBound(State(st.games[id := Joined(st.games[id], sock)], st.players[sock := Binding(id, O)]))
  {
    var s := State(st.games[id := Joined(st.games[id], sock)], st.players[sock := Binding(id, O)]);
    forall k, p | k in s.games && p in s.games[k].players ensures BoundTo(s, p, k) {
      if k != id || p != sock { assert BoundTo(st, p, k); }
    }
  }

  /** The number of `s` marks after writing `c` over an empty cell. */
  lemma CountAfterMark(b: seq<Cell>, i: int, c: Cell, s: Symbol)
    requires 0 <= i < |b| && b[i] == Empty
    ensures Count(b[i := c], s) == Count(b, s) + (if c == Mark(s) then 1 else 0)
  {
  }

  /** `make-move` keeps the invariant. */
  lemma MovePreservesInv(st: State, sock: SocketId, roomId: RoomId, cellIndex: int)
    requires Inv(st)
    ensures Inv(MoveStep(st, sock, roomId, cellIndex).state)
  {
    if MoveCheck(st, sock, roomId, cellIndex) == None {
      var g := st.games[roomId];
      var g' := Played(g, cellIndex, st.players[sock].symbol).0;
      PlayedRoomInv(g, cellIndex, st.players[sock].symbol);
      assert Seated(st, g');
      UpdateRoomKeepsInv(st, roomId, g');
    }
  }

  /**
   * A move that wins is won by the mover: the room was playing, so no pattern
   * was completed before the move, and the completed one holds the new mark.
   */
  lemma WinnerIsMover(st: State, sock: SocketId, roomId: RoomId, cellIndex: int)
    requires Inv(st) && MoveCheck(st, sock, roomId, cellIndex) == None
    ensures var g' := MoveStep(st, sock, roomId, cellIndex).state.games[roomId];
      g'.status == Finished && g'.winner.value.Won? ==> g'.winner.value.symbol == st.players[sock].symbol
  {
    assert RoomInv(st.games[roomId]);
    PlayedWinnerIsMover(st.games[roomId], cellIndex, st.players[sock].symbol);
  }

  /** In a room that was playing, a move that finishes the game with a winner is won by the mover. */
  lemma PlayedWinnerIsMover(g: RoomState, cellIndex: int, mover: Symbol)
    requires RoomInv(g) && g.status == Playing && Vacant(g.board, cellIndex)
    ensures var g' := Played(g, cellIndex, mover).0;
      g'.status == Finished && g'.winner.value.Won? ==> g'.winner.value.symbol == mover
  {
    assert Played(g, cellIndex, mover).0.board == g.board[cellIndex := Mark(mover)];
    WinAfterMarkIsMover(g.board, cellIndex, mover);
  }

  /**
   * The room after an accepted move keeps the room invariant: the mover was
   * the symbol to move, and the new status and turn follow the board.
   */
  lemma PlayedRoomInv(g: RoomState, cellIndex: int, mover: Symbol)
    requires RoomInv(g) && g.status == Playing && g.currentPlayer == mover && Vacant(g.board, cellIndex)
    ensures RoomInv(Played(g, cellIndex, mover).0)
  {
    CountAfterMark(g.board, cellIndex, Mark(mover), X);
    CountAfterMark(g.board, cellIndex, Mark(mover), O);
  }

  /** `reset-game` keeps the invariant. */
  lemma ResetPreservesInv(st: State, roomId: RoomId)
    requires Inv(st)
    ensures Inv(ResetStep(st, roomId).state)
  {
    if roomId in st.games {
      var g := st.games[roomId];
      var g' := g.(board := EmptyBoard, currentPlayer := X, status := Playing, winner := None);
      EmptyBoardUndecided();
      assert RoomInv(g');
      assert Seated(st, g');
      UpdateRoomKeepsInv(st, roomId, g');
    }
  }

  /**
   * Replacing one room by a room with the same sockets, which keeps the room
   * invariant and its seating, keeps the invariant.
   */
  lemma UpdateRoomKeepsInv(st: State, id: RoomId, g': RoomState)
    requires Inv(st)
    requires id in st.games && g'.players == st.games[id].players
    requires RoomInv(g') && Seated(st, g')
    ensures Inv(State(st.games[id := g'], st.players))
  {
    UpdateRoomRooms(st, id, g');
    UpdateRoomBindings(st, id, g');
    UpdateRoomMembers(st, id, g');
  }

  lemma UpdateRoomRooms(st: State, id: RoomId, g': RoomState)
    requires RoomsValid(st) && id in st.games
    requires RoomInv(g') && Seated(st, g')
    ensures RoomsValid(State(st.games[id := g'], st.players))
  {
    var s := State(st.games[id := g'], st.players);
    forall k | k in s.games ensures RoomInv(s.games[k]) && Seated(s, s.games[k]) {
      if k != id {
        var g := st.games[k];
        assert s.games[k] == g && RoomInv(g) && Seated(st, g);
        assert s.players == st.players;
      }
    }
  }

  lemma UpdateRoomBindings(st: State, id: RoomId, g': RoomState)
    requires BindingsValid(st)
    requires id in st.games && g'.players == st.games[id].players
    ensures BindingsValid(State(st.games[id := g'], st.players))
  {
    var s := State(st.games[id := g'], st.players);
    forall sock | sock in s.players ensures s.players[sock].roomId in s.games && sock in s.games[s.players[sock].roomId].players {
      var k := s.players[sock].roomId;
      if k != id { assert s.games[k] == st.games[k]; }
    }
  }

  lemma UpdateRoomMembers(st: State, id: RoomId, g': RoomState)
    requires MembersBound(st)
    requires id in st.games && g'.players == st.games[id].players
    ensures MembersBound(State(st.games[id := g'], st.players))
  {
    var s := State(st.games[id := g'], st.players);
    forall k, sock | k in s.games && sock in s.games[k].players ensures BoundTo(s, sock, k) {
      if k != id { assert s.games[k] == st.games[k]; }
    }
  }

  /** Resetting twice is resetting once. */
  lemma ResetIdempotent(st: State, roomId: RoomId)
    ensures ResetStep(ResetStep(st, roomId).state, roomId).state == ResetStep(st, roomId).state
  {
  }

  /**
   * A third socket asking for a room that already holds two is told the room
   * is full, and the room is left as it was.
   */
  lemma ThirdJoinIsFull(st: State, sock: SocketId, roomId: Option<string>, freshId: RoomId, id: RoomId)
    requires RequestedRoom(roomId) == Some(id)
    requires id in st.games && |st.games[id].players| >= 2
    requires !BoundTo(st, sock, id)
    ensures var step := JoinStep(st, sock, roomId, freshId);
      && step.emits[|step.emits| - 1] == Emit(Sender, JoinError(RoomFull))
      && id in step.state.games && step.state.games[id] == st.games[id]
      && sock !in step.state.players
  {
    LeaveEffects(st, sock);
    JoinEffects(st, sock, roomId, freshId);
  }

  /**
   * When one of two players leaves a game in progress, the room keeps its
   * status, so it is left 'playing' with one socket and a third socket asking
   * for it is told the room does not exist.
   */
  lemma VacatedSeatCannotBeTaken(st: State, stayer: SocketId, leaver: SocketId, id: RoomId,
                                 newcomer: SocketId, roomId: Option<string>, freshId: RoomId)
    requires id in st.games && st.games[id].players == [stayer, leaver] && stayer != leaver && st.games[id].status == Playing
    requires BoundTo(st, leaver, id) && newcomer !in st.players && RequestedRoom(roomId) == Some(id)
    ensures var left := LeaveStep(st, leaver).state;
      && id in left.games && left.games[id].players == [stayer] && left.games[id].status == Playing
      && var step := JoinStep(left, newcomer, roomId, freshId);
      && step.state == left
      && step.emits == [Emit(Sender, JoinError(RoomNotFound))]
  {
    assert RemovePlayer([stayer, leaver], leaver) == [stayer];
    LeaveEffects(st, leaver);
    var left := LeaveStep(st, leaver).state;
    LeaveEffects(left, newcomer);
    JoinEffects(left, newcomer, roomId, freshId);
  }

  /**
   * A socket alone in its waiting room that asks to join that same room first
   * leaves it, which deletes it, and is then told the room does not exist;
   * it ends bound to no room.
   */
  lemma RejoiningOwnRoomDeletesIt(st: State, sock: SocketId, id: RoomId, roomId: Option<string>, freshId: RoomId)
    requires BoundTo(st, sock, id) && id in st.games && st.games[id].players == [sock]
    requires RequestedRoom(roomId) == Some(id)
    ensures var step := JoinStep(st, sock, roomId, freshId);
      && id !in step.state.games && sock !in step.state.players
      && step.emits == [Emit(Sender, JoinError(RoomNotFound))]
  {
    assert RemovePlayer([sock], sock) == [];
    LeaveEffects(st, sock);
    JoinEffects(st, sock, roomId, freshId);
  }

  /** One `make-move` request. */
  datatype MoveRequest = MoveRequest(sock: SocketId, roomId: RoomId, cellIndex: int)

  /** The registries after handling `make-move` requests in order. */
  function ApplyMoves(st: State, ms: seq<MoveRequest>): State
    decreases |ms|
  {
    if ms == [] then st
    else ApplyMoves(MoveStep(st, ms[0].sock, ms[0].roomId, ms[0].cellIndex).state, ms[1..])
  }

  /** The room `g'` has the sockets and board length of `g` and every taken cell of `g`. */
  ghost predicate MarksKept(g: RoomState, g': RoomState)
  {
    && g'.players == g.players
    && |g'.board| == |g.board|
    && forall k :: 0 <= k < |g.board| && g.board[k] != Empty ==> g'.board[k] == g.board[k]
  }

  /** Every room of `st` is still in `s` with its sockets and taken cells. */
  ghost predicate RoomsKept(st: State, s: State)
  {
    forall id :: id in st.games ==> id in s.games && MarksKept(st.games[id], s.games[id])
  }

  lemma RoomsKeptTransitive(a: State, b: State, c: State)
    requires RoomsKept(a, b) && RoomsKept(b, c)
    ensures RoomsKept(a, c)
  {
    forall id | id in a.games ensures id in c.games && MarksKept(a.games[id], c.games[id]) {
      assert MarksKept(a.games[id], b.games[id]) && MarksKept(b.games[id], c.games[id]);
    }
  }

  /** A single `make-move` deletes no room and overwrites no taken cell. */
  lemma MoveKeepsMarks(st: State, sock: SocketId, roomId: RoomId, cellIndex: int)
    ensures RoomsKept(st, MoveStep(st, sock, roomId, cellIndex).state)
  {
    MoveEffects(st, sock, roomId, cellIndex);
    var s := MoveStep(st, sock, roomId, cellIndex).state;
    forall id | id in st.games ensures id in s.games && MarksKept(st.games[id], s.games[id]) {
      if MoveCheck(st, sock, roomId, cellIndex) == None && id == roomId {
        assert st.games[id].board[cellIndex] == Empty;
      }
    }
  }

  /**
   * No run of moves deletes a room, changes its sockets or board length, or
   * overwrites a cell that was already taken.
   */
  lemma {:induction false} MovesKeepMarks(st: State, ms: seq<MoveRequest>)
    ensures RoomsKept(st, ApplyMoves(st, ms))
    decreases |ms|
  {
    if ms == [] {
      assert forall id :: id in st.games ==> MarksKept(st.games[id], st.games[id]);
    } else {
      var next := MoveStep(st, ms[0].sock, ms[0].roomId, ms[0].cellIndex).state;
      MoveKeepsMarks(st, ms[0].sock, ms[0].roomId, ms[0].cellIndex);
      MovesKeepMarks(next, ms[1..]);
      RoomsKeptTransitive(st, next, ApplyMoves(st, ms));
    }
  }

  /** A run of moves keeps the invariant. */
  lemma {:induction false} MovesPreserveInv(st: State, ms: seq<MoveRequest>)
    requires Inv(st)
    ensures Inv(ApplyMoves(st, ms))
    decreases |ms|
  {
    if ms != [] {
      MovePreservesInv(st, ms[0].sock, ms[0].roomId, ms[0].cellIndex);
      MovesPreserveInv(MoveStep(st, ms[0].sock, ms[0].roomId, ms[0].cellIndex).state, ms[1..]);
    }
  }
}
