/**
 * The state of the game server as values: the two registries of
 * backend/index.js:24-25 (`games`: room id -> room, `players`: socket id ->
 * binding) and, for each socket.io handler, a step function giving the new
 * registries and the events the handler emits. The imperative registry in
 * module Server is proved to follow these functions.
 */
module Session {
  import opened Options
  import opened Board
  import opened RoomCode

  type SocketId = string
  type RoomId = string

  /** `status`: 'waiting', 'playing' or 'finished'. */
  datatype Status = Waiting | Playing | Finished

  /** `winner`: a symbol or 'draw'. */
  datatype Winner = Won(symbol: Symbol) | Draw

  /** One entry of `games`. A new room has no `winner` property, read here as None like `null`. */
  datatype RoomState = RoomState(board: seq<Cell>, currentPlayer: Symbol, players: seq<SocketId>, status: Status, winner: Option<Winner>)

  /** One entry of `players`: the room a socket sits in and the symbol it plays. */
  datatype Binding = Binding(roomId: RoomId, symbol: Symbol)

  datatype State = State(games: map<RoomId, RoomState>, players: map<SocketId, Binding>)

  datatype JoinFailure = RoomFull | RoomNotFound
  datatype MoveFailure = InvalidMove | NotInProgress | NotYourTurn | CellOccupied

  /** The payloads the server emits. */
  datatype Message =
    | GameJoined(roomId: RoomId, symbol: Symbol, isYourTurn: bool)
    | OpponentJoined(symbol: Symbol, isYourTurn: bool)
    | GameStart(currentPlayer: Symbol)
    | JoinError(joinFailure: JoinFailure)
    | MoveMade(cellIndex: int, symbol: Symbol, currentPlayer: Symbol, board: seq<Cell>)
    | MoveError(moveFailure: MoveFailure)
    | GameOver(winner: Winner, board: seq<Cell>)
    | GameReset(currentPlayer: Symbol)
    | OpponentLeft

  /** `socket.emit` (Sender), `socket.to(room).emit` (OthersInRoom), `io.to(room).emit` (EveryoneInRoom). */
  datatype Audience = Sender | OthersInRoom(roomId: RoomId) | EveryoneInRoom(roomId: RoomId)

  datatype Emit = Emit(to: Audience, message: Message)

  /** The registries after a handler ran, with the events it emitted in order. */
  datatype Step = Step(state: State, emits: seq<Emit>)

  /** The text of each `join-error` message. */
  function JoinFailureText(f: JoinFailure): string
  {
    match f
    case RoomFull => "Room is full. Please create a new game or join a different room."
    case RoomNotFound => "Room does not exist. Please check the Room ID or create a new game."
  }

  /** The text of each `move-error` message. */
  function MoveFailureText(f: MoveFailure): string
  {
    match f
    case InvalidMove => "Invalid move"
    case NotInProgress => "Game is not in progress"
    case NotYourTurn => "Not your turn"
    case CellOccupied => "Cell already occupied"
  }

  /** Both maps empty, as at start-up. */
  const Initial: State := State(map[], map[])

  /** The room `join-game` creates for `creator`. */
  function NewRoom(creator: SocketId): RoomState
  {
    RoomState(EmptyBoard, X, [creator], Waiting, None)
  }

  /** `players.indexOf(x)`: the first position of `x`, or -1. */
  function IndexOf(s: seq<SocketId>, x: SocketId): (i: int)
    ensures -1 <= i < |s|
    ensures i == -1 <==> x !in s
    ensures i >= 0 ==> s[i] == x && x !in s[..i]
  {
    if s == [] then -1
    else if s[0] == x then 0
    else
      var j := IndexOf(s[1..], x);
      assert j >= 0 ==> s[1..][..j] == s[1..j + 1];
      if j == -1 then -1 else j + 1
  }

  /**
   * `index = players.indexOf(sock); if (index > -1) players.splice(index, 1)`:
   * the list without the first occurrence of `sock`, others kept in order.
   */
  function RemovePlayer(ps: seq<SocketId>, sock: SocketId): (r: seq<SocketId>)
    ensures sock in ps ==> |r| == |ps| - 1
    ensures sock !in ps ==> r == ps
    ensures forall p :: p in r ==> p in ps
  {
    var i := IndexOf(ps, sock);
    if i > -1 then ps[..i] + ps[i + 1..] else ps
  }

  /** Exactly one occurrence of `sock` goes, whichever others the list holds. */
  lemma RemovePlayerCount(ps: seq<SocketId>, sock: SocketId)
    ensures sock in ps ==> multiset(RemovePlayer(ps, sock)) == multiset(ps) - multiset{sock}
  {
    var i := IndexOf(ps, sock);
    if i > -1 {
      assert ps == ps[..i] + [ps[i]] + ps[i + 1..];
    }
  }

  /** The socket is bound to the room. */
  predicate BoundTo(st: State, sock: SocketId, roomId: RoomId)
  {
    sock in st.players && st.players[sock].roomId == roomId
  }

  /**
   * Leaving the current room, shared by `join-game` (backend/index.js:37-53)
   * and `disconnect` (backend/index.js:150-167): the socket is unbound; its
   * room loses the socket from its list and is deleted exactly when the list
   * becomes empty, otherwise keeps its board, turn, status and winner and the
   * other sockets hear `opponent-left`; every other room is unchanged.
   */
  function LeaveStep(st: State, sock: SocketId): Step
  {
    if sock !in st.players then Step(st, [])
    else
      var id := st.players[sock].roomId;
      if id !in st.games then Step(State(st.games, st.players - {sock}), [])
      else
        var g := st.games[id];
        var rest := RemovePlayer(g.players, sock);
        if |rest| == 0 then Step(State(st.games - {id}, st.players - {sock}), [])
        else Step(State(st.games[id := g.(players := rest)], st.players - {sock}), [Emit(OthersInRoom(id), OpponentLeft)])
  }

  /** What leaving does to the registries and which events it emits. */
  lemma LeaveEffects(st: State, sock: SocketId)
    ensures var step := LeaveStep(st, sock);
      && (step.state.players == st.players - {sock})
      && (step.state.games.Keys <= st.games.Keys)
      && (forall id :: id in st.games && !BoundTo(st, sock, id) ==> id in step.state.games && step.state.games[id] == st.games[id])
      && (sock in st.players && st.players[sock].roomId in st.games ==>
          var id := st.players[sock].roomId;
          var g := st.games[id];
          var rest := RemovePlayer(g.players, sock);
          && (id in step.state.games <==> rest != [])
          && (rest != [] ==> var g' := step.state.games[id];
                g'.players == rest && g'.board == g.board && g'.currentPlayer == g.currentPlayer
                && g'.status == g.status && g'.winner == g.winner)
          && step.emits == if rest == [] then [] else [Emit(OthersInRoom(id), OpponentLeft)])
      && (!(sock in st.players && st.players[sock].roomId in st.games) ==> step.state.games == st.games && step.emits == [])
  {
  }

  /**
   * `join-game(roomId)` by `sock`, where `freshId` stands for the generated
   * `room-<time>-<random>` id. The socket first leaves its room. A null, empty
   * or white-space id then creates a room; otherwise the trimmed id is joined
   * when that room has exactly one socket and is waiting, is "full" when it
   * has two or more, and "does not exist" in every other case.
   */
  function JoinStep(st: State, sock: SocketId, roomId: Option<string>, freshId: RoomId): Step
  {
    var left := LeaveStep(st, sock);
    var s := left.state;
    match RequestedRoom(roomId)
    case None =>
      Step(State(s.games[freshId := NewRoom(sock)], s.players[sock := Binding(freshId, X)]),
           left.emits + [Emit(Sender, GameJoined(freshId, X, true))])
    case Some(id) =>
      if id in s.games && |s.games[id].players| == 1 && s.games[id].status == Waiting then
        Step(State(s.games[id := Joined(s.games[id], sock)], s.players[sock := Binding(id, O)]),
             left.emits + [Emit(Sender, GameJoined(id, O, false)), Emit(OthersInRoom(id), OpponentJoined(X, true)), Emit(EveryoneInRoom(id), GameStart(X))])
      else if id in s.games && |s.games[id].players| >= 2 then
        Step(s, left.emits + [Emit(Sender, JoinError(RoomFull))])
      else
        Step(s, left.emits + [Emit(Sender, JoinError(RoomNotFound))])
  }

  /**
   * What `join-game` does: it emits what leaving emits and then one outcome.
   * A request for a new room adds it under `freshId` and binds the socket as
   * 'X'; a request for a waiting room of one seats the socket as 'O', gives
   * the room two sockets and starts the game; any other request leaves the
   * registries as leaving left them and answers "full" exactly when the room
   * exists with two or more sockets.
   */
  lemma JoinEffects(st: State, sock: SocketId, roomId: Option<string>, freshId: RoomId)
    ensures var step := JoinStep(st, sock, roomId, freshId);
      var left := LeaveStep(st, sock);
      && (RequestedRoom(roomId) == None ==>
          && step.state.games == left.state.games[freshId := NewRoom(sock)]
          && step.state.players == left.state.players[sock := Binding(freshId, X)]
          && step.emits == left.emits + [Emit(Sender, GameJoined(freshId, X, true))])
      && (RequestedRoom(roomId).Some? ==>
          var id := RequestedRoom(roomId).value;
          var s := left.state;
          var joinable := id in s.games && |s.games[id].players| == 1 && s.games[id].status == Waiting;
          && (joinable ==>
                && step.state.games == s.games[id := Joined(s.games[id], sock)]
                && |step.state.games[id].players| == 2 && step.state.games[id].status == Playing
                && step.state.players == s.players[sock := Binding(id, O)]
                && step.emits == left.emits +
                     [Emit(Sender, GameJoined(id, O, false)), Emit(OthersInRoom(id), OpponentJoined(X, true)), Emit(EveryoneInRoom(id), GameStart(X))])
          && (!joinable ==>
                && step.state == s
                && step.emits == left.emits +
                     [Emit(Sender, JoinError(if id in s.games && |s.games[id].players| >= 2 then RoomFull else RoomNotFound))]))
  {
  }

  /** A waiting room after a second socket joins it: `players.push(sock)`, status 'playing'. */
  function Joined(g: RoomState, sock: SocketId): RoomState
  {
    g.(players := g.players + [sock], status := Playing)
  }

  /** `board[cellIndex] === null`: false for an occupied cell and for any index outside the board. */
  predicate Vacant(b: seq<Cell>, cellIndex: int)
  {
    0 <= cellIndex < |b| && b[cellIndex] == Empty
  }

  /**
   * The four checks of `make-move`, in the order the handler makes them
   * (backend/index.js:93-111); None when the move is accepted.
   */
  function MoveCheck(st: State, sock: SocketId, roomId: RoomId, cellIndex: int): (r: Option<MoveFailure>)
    ensures r == Some(InvalidMove) <==> roomId !in st.games || !BoundTo(st, sock, roomId)
    ensures r == Some(NotInProgress) <==> roomId in st.games && BoundTo(st, sock, roomId) && st.games[roomId].status != Playing
    ensures r == Some(NotYourTurn) <==>
      roomId in st.games && BoundTo(st, sock, roomId) && st.games[roomId].status == Playing
      && st.games[roomId].currentPlayer != st.players[sock].symbol
    ensures r == Some(CellOccupied) <==>
      roomId in st.games && BoundTo(st, sock, roomId) && st.games[roomId].status == Playing
      && st.games[roomId].currentPlayer == st.players[sock].symbol && !Vacant(st.games[roomId].board, cellIndex)
  {
    if roomId !in st.games || sock !in st.players || st.players[sock].roomId != roomId then Some(InvalidMove)
    else if st.games[roomId].status != Playing then Some(NotInProgress)
    else if st.games[roomId].currentPlayer != st.players[sock].symbol then Some(NotYourTurn)
    else if !Vacant(st.games[roomId].board, cellIndex) then Some(CellOccupied)
    else None
  }

  /**
   * The room after `mover` writes into the vacant cell `cellIndex`
   * (backend/index.js:114-136), and the event the room hears: a completed
   * pattern finishes the game with that winner, else a full board finishes
   * it as a draw, else `currentPlayer` passes to the other symbol.
   */
  function Played(g: RoomState, cellIndex: int, mover: Symbol): (r: (RoomState, Message))
    requires Vacant(g.board, cellIndex)
    ensures |r.0.board| == |g.board| && r.0.board[cellIndex] == Mark(mover)
    ensures forall k :: 0 <= k < |g.board| && k != cellIndex ==> r.0.board[k] == g.board[k]
    ensures r.0.players == g.players
    ensures CheckWinner(r.0.board).Some? ==>
      r.0.status == Finished && r.0.winner == Some(Won(CheckWinner(r.0.board).value)) && r.0.currentPlayer == g.currentPlayer
      && r.1 == GameOver(Won(CheckWinner(r.0.board).value), r.0.board)
    ensures CheckWinner(r.0.board) == None && Full(r.0.board) ==>
      r.0.status == Finished && r.0.winner == Some(Draw) && r.0.currentPlayer == g.currentPlayer
      && r.1 == GameOver(Draw, r.0.board)
    ensures CheckWinner(r.0.board) == None && !Full(r.0.board) ==>
      r.0.status == g.status && r.0.winner == g.winner && r.0.currentPlayer == Other(g.currentPlayer)
      && r.1 == MoveMade(cellIndex, mover, Other(g.currentPlayer), r.0.board)
  {
    var b := g.board[cellIndex := Mark(mover)];
    match CheckWinner(b)
    case Some(w) =>
      (g.(board := b, status := Finished, winner := Some(Won(w))), GameOver(Won(w), b))
    case None =>
      if Full(b) then
        (g.(board := b, status := Finished, winner := Some(Draw)), GameOver(Draw, b))
      else
        (g.(board := b, currentPlayer := Other(g.currentPlayer)), MoveMade(cellIndex, mover, Other(g.currentPlayer), b))
  }

  /**
   * `make-move({roomId, cellIndex})` by `sock`. A rejected move changes
   * nothing and answers the mover alone. An accepted move writes the mover's
   * symbol into exactly that cell; then a completed pattern finishes the game
   * with that winner, else a full board finishes it as a draw, else the turn
   * passes to the other symbol.
   */
  function MoveStep(st: State, sock: SocketId, roomId: RoomId, cellIndex: int): Step
  {
    match MoveCheck(st, sock, roomId, cellIndex)
    case Some(f) => Step(st, [Emit(Sender, MoveError(f))])
    case None =>
      var r := Played(st.games[roomId], cellIndex, st.players[sock].symbol);
      Step(State(st.games[roomId := r.0], st.players), [Emit(EveryoneInRoom(roomId), r.1)])
  }

  /** What `make-move` does: a rejected move changes nothing; an accepted one writes one cell and decides the outcome. */
  lemma MoveEffects(st: State, sock: SocketId, roomId: RoomId, cellIndex: int)
    ensures var step := MoveStep(st, sock, roomId, cellIndex);
      && (MoveCheck(st, sock, roomId, cellIndex).Some? ==>
          step == Step(st, [Emit(Sender, MoveError(MoveCheck(st, sock, roomId, cellIndex).value))]))
      && (MoveCheck(st, sock, roomId, cellIndex) == None ==>
          var g := st.games[roomId];
          var mover := st.players[sock].symbol;
          && roomId in step.state.games
          && var g' := step.state.games[roomId];
          && |g'.board| == |g.board|
          && g'.board[cellIndex] == Mark(mover)
          && (forall k :: 0 <= k < |g.board| && k != cellIndex ==> g'.board[k] == g.board[k])
          && g'.players == g.players
          && step.state.players == st.players
          && step.state.games == st.games[roomId := g']
          && |step.emits| == 1 && step.emits[0].to == EveryoneInRoom(roomId)
          && (CheckWinner(g'.board).Some? ==>
                g'.status == Finished && g'.winner == Some(Won(CheckWinner(g'.board).value)) && g'.currentPlayer == mover
                && step.emits[0].message == GameOver(Won(CheckWinner(g'.board).value), g'.board))
          && (CheckWinner(g'.board) == None && Full(g'.board) ==>
                g'.status == Finished && g'.winner == Some(Draw) && g'.currentPlayer == mover
                && step.emits[0].message == GameOver(Draw, g'.board))
          && (CheckWinner(g'.board) == None && !Full(g'.board) ==>
                g'.status == Playing && g'.winner == g.winner && g'.currentPlayer == Other(mover)
                && step.emits[0].message == MoveMade(cellIndex, mover, Other(mover), g'.board)))
  {
  }

  /**
   * `reset-game(roomId)`: an existing room gets an empty board, 'X' to move,
   * status 'playing' and no winner, keeping its sockets, and everyone in it
   * hears `game-reset`; an unknown id changes nothing and emits nothing.
   */
  function ResetStep(st: State, roomId: RoomId): Step
  {
    if roomId in st.games then
      var g := st.games[roomId];
      Step(State(st.games[roomId := g.(board := EmptyBoard, currentPlayer := X, status := Playing, winner := None)], st.players),
           [Emit(EveryoneInRoom(roomId), GameReset(X))])
    else Step(st, [])
  }

  /** What `reset-game` does to its room and to every other. */
  lemma ResetEffects(st: State, roomId: RoomId)
    ensures var step := ResetStep(st, roomId);
      && (step.state.players == st.players)
      && (step.state.games.Keys == st.games.Keys)
      && (forall id :: id in st.games && id != roomId ==> step.state.games[id] == st.games[id])
      && (roomId in st.games ==>
          var g' := step.state.games[roomId];
          && g'.board == EmptyBoard && g'.currentPlayer == X && g'.status == Playing && g'.winner == None
          && g'.players == st.games[roomId].players
          && step.emits == [Emit(EveryoneInRoom(roomId), GameReset(X))])
      && (roomId !in st.games ==> step == Step(st, []))
  {
  }
}
