/**
 The mutating route handlers of the game server, each a pure transition from the
 database state and the request body to the committed state and the `success`
 flag of the JSON reply. Every handler is atomic: it either commits all of its
 statements or none.
 */
module Routes {
  import opened Tables
  import RoomCode

  /** The committed state after a request and the reply's `success` flag. */
  datatype Step = Step(state: State, success: bool)

  /** The reply of `create-room`: the step and the `roomCode` it names. */
  datatype Created = Created(step: Step, roomCode: Code)

  /** The mark a player writes: `"X"` for player 0, `"O"` for anyone else. */
  function MarkOf(playerIndex: int): (m: Mark)
    ensures m == X <==> playerIndex == 0
  {
    if playerIndex == 0 then X else O
  }

  /** The turn stored after a move by `playerIndex`. */
  function NextTurn(playerIndex: int): (t: int)
    ensures t == 0 || t == 1
    ensures t != playerIndex
    ensures playerIndex == 0 || playerIndex == 1 ==> t == 1 - playerIndex
  {
    if playerIndex == 0 then 1 else 0
  }

  // ---------- CREATE ROOM ----------

  /** `create-room` once the code is drawn. A code already in `rooms` violates
      the table's key: the first INSERT throws, nothing is committed and no
      success reply is sent. */
  function CreateRoomWithCode(s: State, code: Code, roomName: string, creatorName: string): (r: Step)
    ensures r.success <==> code !in s.rooms
    ensures !r.success ==> r.state == s
    ensures r.success ==>
      && r.state.rooms.Keys == s.rooms.Keys + {code}
      && r.state.rooms[code].name == roomName
      && r.state.rooms[code].active == 0
      && r.state.rooms[code].turn == 0
      && r.state.rooms[code].winner == None
      && (forall c :: c in s.rooms ==> r.state.rooms[c] == s.rooms[c])
      && RowsOf(r.state.players, code) == RowsOf(s.players, code) + [PlayerRow(code, creatorName, 0)]
      && (forall c :: c != code ==> RowsOf(r.state.players, c) == RowsOf(s.players, c))
      && PlayerCount(r.state.players, code) == PlayerCount(s.players, code) + 1
      && r.state.board == s.board
  {
    if code in s.rooms then Step(s, false)
    else
      var row := PlayerRow(code, creatorName, 0);
      var players' := s.players + [row];
      assert forall c :: RowsOf(players', c) == RowsOf(s.players, c) + (if c == code then [row] else []) by {
        forall c { RowsOfAppend(s.players, row, c); }
      }
      Step(State(s.rooms[code := Room(roomName, 0, 0, None)], players', s.board), true)
  }

  /** `create-room` with the random draw `rand` from [0, 1). */
  function CreateRoom(s: State, rand: real, roomName: string, creatorName: string): (r: Created)
    requires 0.0 <= rand < 1.0
    ensures |r.roomCode| == 4
    ensures forall i :: 0 <= i < |r.roomCode| ==> RoomCode.IsDigit(r.roomCode[i])
    ensures 1000 <= RoomCode.ParseDecimal(r.roomCode) <= 9999
    ensures RoomCode.ParseDecimal(r.roomCode) == RoomCode.GenerateRoomCode(rand)
    ensures r.step == CreateRoomWithCode(s, r.roomCode, roomName, creatorName)
    ensures r.step.success <==> r.roomCode !in s.rooms
    ensures r.step.success ==>
      && r.roomCode in r.step.state.rooms
      && r.step.state.rooms[r.roomCode] == Room(roomName, 0, 0, None)
      && RowsOf(r.step.state.players, r.roomCode) == RowsOf(s.players, r.roomCode) + [PlayerRow(r.roomCode, creatorName, 0)]
  {
    var code := RoomCode.RoomCodeFor(rand);
    Created(CreateRoomWithCode(s, code, roomName, creatorName), code)
  }

  // ---------- JOIN ROOM ----------

  /** `join-room`: counts the code's player rows and, below two, appends the
      joiner at index 1. Neither the room's existence nor the name is checked. */
  function JoinRoom(s: State, code: Code, playerName: string): (r: Step)
    ensures r.success <==> PlayerCount(s.players, code) < 2
    ensures !r.success ==> r.state == s
    ensures r.success ==>
      && r.state.players == s.players + [PlayerRow(code, playerName, 1)]
      && PlayerCount(r.state.players, code) == PlayerCount(s.players, code) + 1
      && (forall c :: c != code ==> PlayerCount(r.state.players, c) == PlayerCount(s.players, c))
    ensures r.state.rooms == s.rooms && r.state.board == s.board
    ensures PlayerCount(r.state.players, code) <= 2 || r.state == s
  {
    if PlayerCount(s.players, code) >= 2 then Step(s, false)
    else
      var row := PlayerRow(code, playerName, 1);
      assert forall c :: RowsOf(s.players + [row], c) == RowsOf(s.players, c) + (if c == code then [row] else []) by {
        forall c { RowsOfAppend(s.players, row, c); }
      }
      Step(s.(players := s.players + [row]), true)
  }

  // ---------- START GAME ----------

  /** `start-game`: activates the room with turn 0 and no winner, and deletes
      the room's board rows. Both statements match nothing for an unknown code,
      and the reply is a success either way. */
  function StartGame(s: State, code: Code): (r: Step)
    ensures r.success
    ensures r.state.players == s.players
    ensures r.state.rooms.Keys == s.rooms.Keys
    ensures code in s.rooms ==>
      r.state.rooms[code] == s.rooms[code].(active := 1, turn := 0, winner := None)
    ensures forall c :: c in s.rooms && c != code ==> r.state.rooms[c] == s.rooms[c]
    ensures CellsOf(r.state.board, code) == {}
    ensures forall k :: k in r.state.board ==> k in s.board && r.state.board[k] == s.board[k]
    ensures forall k :: k in s.board && k.0 != code ==> k in r.state.board
  {
    var rooms' := if code in s.rooms
      then s.rooms[code := s.rooms[code].(active := 1, turn := 0, winner := None)]
      else s.rooms;
    var board' := map k | k in s.board && k.0 != code :: s.board[k];
    Step(State(rooms', s.players, board'), true)
  }

  // ---------- MAKE MOVE ----------

  /** `make-move`: checks, in order, that the room exists, that its game is not
      inactive, that it is `playerIndex`'s turn and that the cell has no row;
      then writes the player's mark into the cell and hands the turn over. The
      cell index is not range-checked. */
  function MakeMove(s: State, code: Code, index: int, playerIndex: int): (r: Step)
    ensures r.success <==>
      && code in s.rooms
      && s.rooms[code].active != 0
      && s.rooms[code].turn == playerIndex
      && (code, index) !in s.board
    ensures !r.success ==> r.state == s
    ensures r.success ==>
      && r.state.board.Keys == s.board.Keys + {(code, index)}
      && r.state.board[(code, index)] == (if playerIndex == 0 then X else O)
      && (forall k :: k in s.board ==> r.state.board[k] == s.board[k])
      && r.state.rooms.Keys == s.rooms.Keys
      && r.state.rooms[code] == s.rooms[code].(turn := if playerIndex == 0 then 1 else 0)
      && (forall c :: c in s.rooms && c != code ==> r.state.rooms[c] == s.rooms[c])
      && r.state.players == s.players
  {
    if code !in s.rooms then Step(s, false)
    else if s.rooms[code].active == 0 then Step(s, false)
    else if s.rooms[code].turn != playerIndex then Step(s, false)
    else if (code, index) in s.board then Step(s, false)
    else
      var board' := s.board[(code, index) := MarkOf(playerIndex)];
      var rooms' := s.rooms[code := s.rooms[code].(turn := NextTurn(playerIndex))];
      Step(s.(rooms := rooms', board := board'), true)
  }
}
