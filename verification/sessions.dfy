/**
 Properties of the server over sequences of requests: the invariant every
 route keeps, turn alternation under accepted moves, and what the player cap
 does and does not guarantee.
 */
module Sessions {
  import opened Tables
  import opened Routes
  import opened Status
  import RoomCode

  /** A request body of one of the mutating routes. `room-status` changes
      nothing and has no constructor here. */
  datatype Request =
    | Create(rand: real, roomName: string, creatorName: string)
    | Join(code: Code, playerName: string)
    | Start(code: Code)
    | Move(code: Code, index: int, playerIndex: int)

  /** `Math.random()` lies in [0, 1). */
  predicate ValidRequest(q: Request)
  {
    q.Create? ==> 0.0 <= q.rand < 1.0
  }

  predicate AllValid(qs: seq<Request>)
  {
    forall i :: 0 <= i < |qs| ==> ValidRequest(qs[i])
  }

  function Apply(s: State, q: Request): (r: Step)
    requires ValidRequest(q)
  {
    match q
    case Create(rand, roomName, creatorName) => CreateRoom(s, rand, roomName, creatorName).step
    case Join(code, playerName) => JoinRoom(s, code, playerName)
    case Start(code) => StartGame(s, code)
    case Move(code, index, playerIndex) => MakeMove(s, code, index, playerIndex)
  }

  /** The state after handling `qs` one at a time, in order. */
  function Run(s: State, qs: seq<Request>): (s': State)
    requires AllValid(qs)
    decreases |qs|
  {
    if |qs| == 0 then s else Run(Apply(s, qs[0]).state, qs[1..])
  }

  /** How many of `qs` are moves in room `code` that the server accepts. */
  function AcceptedMoves(s: State, qs: seq<Request>, code: Code): (k: nat)
    requires AllValid(qs)
    decreases |qs|
  {
    if |qs| == 0 then 0
    else
      var st := Apply(s, qs[0]);
      (if qs[0].Move? && qs[0].code == code && st.success then 1 else 0)
        + AcceptedMoves(st.state, qs[1..], code)
  }

  predicate NoStartOf(qs: seq<Request>, code: Code)
  {
    forall i :: 0 <= i < |qs| ==> !(qs[i].Start? && qs[i].code == code)
  }

  // ---------- the invariant ----------

  /** Player 0 has placed as many marks as player 1, plus one while it is
      player 1's turn. */
  predicate Balanced(s: State, code: Code)
    requires code in s.rooms
  {
    var t := s.rooms[code].turn;
    && (t == 0 || t == 1)
    && MarkCount(s.board, code, X) == MarkCount(s.board, code, O) + t
  }

  /** Every board row belongs to a room, every room is balanced, and no room
      has a winner. */
  predicate Inv(s: State)
  {
    && (forall k :: k in s.board ==> k.0 in s.rooms)
    && (forall c :: c in s.rooms ==> Balanced(s, c) && s.rooms[c].winner == None)
  }

  lemma CreatePreservesInv(s: State, code: Code, roomName: string, creatorName: string)
    requires Inv(s)
    ensures Inv(CreateRoomWithCode(s, code, roomName, creatorName).state)
  {
  }

  lemma JoinPreservesInv(s: State, code: Code, playerName: string)
    requires Inv(s)
    ensures Inv(JoinRoom(s, code, playerName).state)
  {
  }

  lemma StartPreservesInv(s: State, code: Code)
    requires Inv(s)
    ensures Inv(StartGame(s, code).state)
  {
    var s' := StartGame(s, code).state;
    forall c | c in s'.rooms
      ensures Balanced(s', c)
    {
      if c == code {
        MarkCountNone(s'.board, c, X);
        MarkCountNone(s'.board, c, O);
      } else {
        MarkCountFrame(s.board, s'.board, c, X);
        MarkCountFrame(s.board, s'.board, c, O);
      }
    }
  }

  lemma MovePreservesInv(s: State, code: Code, index: int, playerIndex: int)
    requires Inv(s)
    ensures Inv(MakeMove(s, code, index, playerIndex).state)
  {
    var r := MakeMove(s, code, index, playerIndex);
    if r.success {
      var s' := r.state;
      var m := MarkOf(playerIndex);
      assert s'.board == s.board[(code, index) := m];
      forall c | c in s'.rooms
        ensures Balanced(s', c)
      {
        MarkCountInsert(s.board, (code, index), m, c, X);
        MarkCountInsert(s.board, (code, index), m, c, O);
      }
    }
  }

  lemma ApplyPreservesInv(s: State, q: Request)
    requires ValidRequest(q)
    requires Inv(s)
    ensures Inv(Apply(s, q).state)
  {
    match q
    case Create(rand, roomName, creatorName) =>
      CreatePreservesInv(s, RoomCode.RoomCodeFor(rand), roomName, creatorName);
    case Join(code, playerName) => JoinPreservesInv(s, code, playerName);
    case Start(code) => StartPreservesInv(s, code);
    case Move(code, index, playerIndex) => MovePreservesInv(s, code, index, playerIndex);
  }

  lemma {:induction false} RunPreservesInv(s: State, qs: seq<Request>)
    requires AllValid(qs)
    requires Inv(s)
    ensures Inv(Run(s, qs))
    decreases |qs|
  {
    if |qs| > 0 {
      ApplyPreservesInv(s, qs[0]);
      RunPreservesInv(Apply(s, qs[0]).state, qs[1..]);
    }
  }

  /** From an empty database, whatever requests arrive, every room's turn is 0
      or 1, its X count exceeds its O count by the turn, and no winner is ever
      stored. */
  lemma Reachable(qs: seq<Request>, code: Code)
    requires AllValid(qs)
    ensures var t := Run(Empty, qs);
      code in t.rooms ==>
        && (t.rooms[code].turn == 0 || t.rooms[code].turn == 1)
        && MarkCount(t.board, code, X) - MarkCount(t.board, code, O) == t.rooms[code].turn
        && t.rooms[code].winner == None
  {
    RunPreservesInv(Empty, qs);
  }

  // ---------- turn alternation ----------

  /** The marks a room holds, of either kind. */
  function Marks(s: State, code: Code): (n: nat)
  {
    MarkCount(s.board, code, X) + MarkCount(s.board, code, O)
  }

  /** One request, other than a start of the room itself, leaves the room in
      place and its game flag alone; an accepted move in the room flips the
      turn and adds one mark, anything else leaves both. */
  lemma StepOnRoom(s: State, q: Request, code: Code)
    requires ValidRequest(q)
    requires Inv(s)
    requires code in s.rooms
    requires !(q.Start? && q.code == code)
    ensures var st := Apply(s, q);
      var moved := q.Move? && q.code == code && st.success;
      && code in st.state.rooms
      && st.state.rooms[code].active == s.rooms[code].active
      && st.state.rooms[code].turn == (if moved then 1 - s.rooms[code].turn else s.rooms[code].turn)
      && Marks(st.state, code) == Marks(s, code) + (if moved then 1 else 0)
  {
    match q
    case Create(rand, roomName, creatorName) =>
    case Join(c, playerName) =>
    case Start(c) =>
      var s' := StartGame(s, c).state;
      MarkCountFrame(s.board, s'.board, code, X);
      MarkCountFrame(s.board, s'.board, code, O);
    case Move(c, index, playerIndex) =>
      var r := MakeMove(s, c, index, playerIndex);
      if r.success {
        assert r.state.board == s.board[(c, index) := MarkOf(playerIndex)];
        MarkCountInsert(s.board, (c, index), MarkOf(playerIndex), code, X);
        MarkCountInsert(s.board, (c, index), MarkOf(playerIndex), code, O);
      }
  }

  /** The turn after `k` hand-overs starting from turn `t`. */
  function Flip(t: int, k: nat): (t': int)
    decreases k
  {
    if k == 0 then t else Flip(1 - t, k - 1)
  }

  /** Starting from turn 0, `k` hand-overs leave the turn at k mod 2. */
  lemma {:induction false} FlipFromZero(k: nat)
    ensures Flip(0, k) == k % 2
    ensures Flip(1, k) == (k + 1) % 2
  {
    if k > 0 {
      FlipFromZero(k - 1);
    }
  }

  /** Over any requests that do not restart the room, the room stays and its
      turn has been handed over once per accepted move in it. */
  lemma {:induction false} TurnAlternation(s: State, qs: seq<Request>, code: Code)
    requires AllValid(qs)
    requires Inv(s)
    requires code in s.rooms
    requires NoStartOf(qs, code)
    ensures code in Run(s, qs).rooms
    ensures Run(s, qs).rooms[code].turn == Flip(s.rooms[code].turn, AcceptedMoves(s, qs, code))
    decreases |qs|
  {
    if |qs| > 0 {
      var st := Apply(s, qs[0]);
      StepOnRoom(s, qs[0], code);
      ApplyPreservesInv(s, qs[0]);
      NoStartOfTail(qs, code);
      TurnAlternation(st.state, qs[1..], code);
      RunStep(s, qs, code);
      FlipStep(s.rooms[code].turn, st.state.rooms[code].turn, Run(st.state, qs[1..]).rooms[code].turn,
        qs[0].Move? && qs[0].code == code && st.success,
        AcceptedMoves(st.state, qs[1..], code), AcceptedMoves(s, qs, code));
    }
  }

  /** Handing the turn over once and then k' more times is handing it over
      k' + 1 times. */
  lemma FlipStep(t0: int, t1: int, tn: int, moved: bool, k': nat, k: nat)
    requires t1 == (if moved then 1 - t0 else t0)
    requires tn == Flip(t1, k')
    requires k == (if moved then 1 else 0) + k'
    ensures tn == Flip(t0, k)
  {
  }

  /** Over any requests that do not restart the room, it gains one mark per
      accepted move in it and no other mark. */
  lemma {:induction false} MarksPerMove(s: State, qs: seq<Request>, code: Code)
    requires AllValid(qs)
    requires Inv(s)
    requires code in s.rooms
    requires NoStartOf(qs, code)
    ensures Marks(Run(s, qs), code) == Marks(s, code) + AcceptedMoves(s, qs, code)
    decreases |qs|
  {
    if |qs| > 0 {
      var st := Apply(s, qs[0]);
      StepOnRoom(s, qs[0], code);
      ApplyPreservesInv(s, qs[0]);
      NoStartOfTail(qs, code);
      MarksPerMove(st.state, qs[1..], code);
      RunStep(s, qs, code);
    }
  }

  /** Requests that do not restart a room never change its game flag: once
      started, a game stays active whatever moves follow. */
  lemma {:induction false} ActiveKept(s: State, qs: seq<Request>, code: Code)
    requires AllValid(qs)
    requires Inv(s)
    requires code in s.rooms
    requires NoStartOf(qs, code)
    ensures code in Run(s, qs).rooms
    ensures Run(s, qs).rooms[code].active == s.rooms[code].active
    decreases |qs|
  {
    if |qs| > 0 {
      var st := Apply(s, qs[0]);
      StepOnRoom(s, qs[0], code);
      ApplyPreservesInv(s, qs[0]);
      NoStartOfTail(qs, code);
      ActiveKept(st.state, qs[1..], code);
      RunStep(s, qs, code);
    }
  }

  lemma RunStep(s: State, qs: seq<Request>, code: Code)
    requires AllValid(qs)
    requires |qs| > 0
    ensures var st := Apply(s, qs[0]);
      && AllValid(qs[1..])
      && Run(s, qs) == Run(st.state, qs[1..])
      && AcceptedMoves(s, qs, code)
         == (if qs[0].Move? && qs[0].code == code && st.success then 1 else 0)
            + AcceptedMoves(st.state, qs[1..], code)
  {
  }

  lemma NoStartOfTail(qs: seq<Request>, code: Code)
    requires |qs| > 0
    requires NoStartOf(qs, code)
    ensures NoStartOf(qs[1..], code)
  {
  }

  /** After `start-game` in a room, and any requests that do not restart it,
      with k moves in it accepted: the game is still active (no request ends
      it), the turn is k mod 2, and the room holds ceil(k/2) X and floor(k/2) O,
      so the marks were written X, O, X, O, ... */
  lemma StartThenMoves(s: State, code: Code, qs: seq<Request>)
    requires AllValid(qs)
    requires Inv(s)
    requires code in s.rooms
    requires NoStartOf(qs, code)
    ensures var s0 := StartGame(s, code).state;
      var t := Run(s0, qs);
      var k := AcceptedMoves(s0, qs, code);
      && code in t.rooms
      && t.rooms[code].active == 1
      && t.rooms[code].turn == k % 2
      && MarkCount(t.board, code, X) == (k + 1) / 2
      && MarkCount(t.board, code, O) == k / 2
  {
    var s0 := StartGame(s, code).state;
    var t := Run(s0, qs);
    var k := AcceptedMoves(s0, qs, code);
    StartPreservesInv(s, code);
    MarkCountNone(s0.board, code, X);
    MarkCountNone(s0.board, code, O);
    TurnAlternation(s0, qs, code);
    MarksPerMove(s0, qs, code);
    ActiveKept(s0, qs, code);
    RunPreservesInv(s0, qs);
    FlipFromZero(k);
    assert Balanced(t, code);
    SplitCounts(MarkCount(t.board, code, X), MarkCount(t.board, code, O), t.rooms[code].turn, k);
  }

  /** x + o = k and x = o + (k mod 2) give x = ceil(k/2) and o = floor(k/2). */
  lemma SplitCounts(x: nat, o: nat, t: int, k: nat)
    requires x + o == k
    requires x == o + t
    requires t == k % 2
    ensures x == (k + 1) / 2
    ensures o == k / 2
  {
  }

  /** Two moves by the same player in a row: whatever the cells, the second is
      rejected, since an accepted move always hands the turn to someone else. */
  lemma NoTwoMovesInARow(s: State, code: Code, i: int, j: int, playerIndex: int)
    ensures var first := MakeMove(s, code, i, playerIndex);
      first.success ==> !MakeMove(first.state, code, j, playerIndex).success
  {
  }

  // ---------- the player cap ----------

  /** At most two player rows per code. */
  ghost predicate Capped(s: State)
  {
    forall c :: PlayerCount(s.players, c) <= 2
  }

  lemma JoinKeepsCap(s: State, code: Code, playerName: string)
    requires Capped(s)
    ensures Capped(JoinRoom(s, code, playerName).state)
  {
  }

  /** `create-room` keeps the cap only when the new code has at most one row
      already; rows left by joins to a code before its room existed count. */
  lemma CreateKeepsCap(s: State, code: Code, roomName: string, creatorName: string)
    requires Capped(s)
    requires PlayerCount(s.players, code) <= 1
    ensures Capped(CreateRoomWithCode(s, code, roomName, creatorName).state)
  {
    var r := CreateRoomWithCode(s, code, roomName, creatorName);
    forall c
      ensures PlayerCount(r.state.players, c) <= 2
    {
      assert PlayerCount(s.players, c) <= 2;
      if c != code && r.success {
        assert RowsOf(r.state.players, c) == RowsOf(s.players, c);
      }
    }
  }

  /** The converse: a code that already has two rows, from joins made before
      its room existed, leaves the cap broken once `create-room` draws it. */
  lemma CreateBreaksCap(s: State, code: Code, roomName: string, creatorName: string)
    requires code !in s.rooms
    requires PlayerCount(s.players, code) == 2
    ensures !Capped(CreateRoomWithCode(s, code, roomName, creatorName).state)
  {
  }

  /** Two joins to code 1000 before any room has it, then a `create-room` that
      draws 1000: the room starts with three players. */
  lemma OrphanJoinsOverfillRoom()
    ensures var s1 := JoinRoom(Empty, "1000", "Ana");
      var s2 := JoinRoom(s1.state, "1000", "Bo");
      var c := CreateRoom(s2.state, 0.0, "Friendly", "Cy");
      && s1.success && s2.success && c.step.success
      && c.roomCode == "1000"
      && PlayerCount(c.step.state.players, "1000") == 3
  {
    var s1 := JoinRoom(Empty, "1000", "Ana");
    var s2 := JoinRoom(s1.state, "1000", "Bo");
    assert RoomCode.GenerateRoomCode(0.0) == 1000;
    assert RoomCode.DecimalString(1) == "1";
    assert RoomCode.DecimalString(10) == "10";
    assert RoomCode.DecimalString(100) == "100";
    assert RoomCode.DecimalString(1000) == "1000";
    assert PlayerCount(s2.state.players, "1000") == 2;
  }

  // ---------- what room-status shows ----------

  /** A room created on a code with no earlier rows shows its creator alone,
      an inactive game at turn 0, no winner and nine empty cells. */
  lemma CreateThenStatus(s: State, code: Code, roomName: string, creatorName: string)
    requires Inv(s)
    requires code !in s.rooms
    requires PlayerCount(s.players, code) == 0
    ensures RoomStatus(CreateRoomWithCode(s, code, roomName, creatorName).state, code)
         == Some(Reply([creatorName], false, 0, None, seq(9, _ => None)))
  {
    var s' := CreateRoomWithCode(s, code, roomName, creatorName).state;
    var row := PlayerRow(code, creatorName, 0);
    assert RowsOf(s'.players, code) == [row] by {
      assert RowsOf(s.players, code) == [];
    }
    FreshRoomStatus(s', code, roomName, creatorName);
  }

  /** What `room-status` shows of a room in its state right after creation. */
  lemma FreshRoomStatus(s: State, code: Code, roomName: string, creatorName: string)
    requires code in s.rooms && s.rooms[code] == Room(roomName, 0, 0, None)
    requires RowsOf(s.players, code) == [PlayerRow(code, creatorName, 0)]
    requires forall k :: k in s.board ==> k.0 != code
    ensures RoomStatus(s, code) == Some(Reply([creatorName], false, 0, None, seq(9, _ => None)))
  {
    var row := PlayerRow(code, creatorName, 0);
    assert SortByIndex([row]) == [row];
    assert Names([row]) == [creatorName];
    EmptyBoardArray(s.board, code);
  }

  /** A room without board rows shows nine empty cells. */
  lemma EmptyBoardArray(board: map<(Code, int), Mark>, code: Code)
    requires forall k :: k in board ==> k.0 != code
    ensures BoardArray(board, code) == seq(9, _ => None)
  {
  }

  /** After an accepted move on a grid cell, the status shows the player's
      mark in that cell and the turn handed over. */
  lemma MoveThenStatus(s: State, code: Code, index: int, playerIndex: int)
    requires 0 <= index < 9
    requires MakeMove(s, code, index, playerIndex).success
    ensures var st := RoomStatus(MakeMove(s, code, index, playerIndex).state, code);
      && st.Some?
      && st.value.board[index] == Some(if playerIndex == 0 then X else O)
      && st.value.turnIndex == (if playerIndex == 0 then 1 else 0)
      && st.value.gameActive == (s.rooms[code].active == 1)
  {
  }
}
