/**
 The `room-status` read: the room row, its player names ordered by
 `player_index`, and the board rows written into `Array(9).fill(null)`.

 Writing row `i` into that array follows JavaScript's array semantics: an index
 at or beyond the length extends the array (the gap reads as `null` in JSON),
 and a negative index or one from 2^32 - 1 up is a plain property that the
 JSON reply leaves out. The engine's limit on string length, which makes the
 JSON of a very long array throw, is not modelled.
 */
module Status {
  import opened Tables

  /** The reply fields of a found room. */
  datatype Reply = Reply(
    players: seq<string>,
    gameActive: bool,
    turnIndex: int,
    winner: Option<string>,
    board: seq<Option<Mark>>)

  // ---------- players, ORDER BY player_index ----------

  predicate SortedByIndex(rows: seq<PlayerRow>)
  {
    forall i, j :: 0 <= i < j < |rows| ==> rows[i].index <= rows[j].index
  }

  /** Puts `row` in front of the first row with an index not below its own. */
  function Insert(row: PlayerRow, rows: seq<PlayerRow>): (r: seq<PlayerRow>)
    requires SortedByIndex(rows)
    ensures SortedByIndex(r)
    ensures multiset(r) == multiset(rows) + multiset{row}
    ensures |r| == |rows| + 1
    ensures r[0] == row || (|rows| > 0 && r[0] == rows[0])
  {
    if |rows| == 0 then [row]
    else if row.index <= rows[0].index then [row] + rows
    else
      var rest := Insert(row, rows[1..]);
      assert rows == [rows[0]] + rows[1..];
      assert rows[0].index <= rest[0].index;
      [rows[0]] + rest
  }

  /** The rows of a room ordered by `player_index`. */
  function SortByIndex(rows: seq<PlayerRow>): (r: seq<PlayerRow>)
    ensures SortedByIndex(r)
    ensures multiset(r) == multiset(rows)
    ensures |r| == |rows|
  {
    if |rows| == 0 then []
    else
      assert rows == [rows[0]] + rows[1..];
      Insert(rows[0], SortByIndex(rows[1..]))
  }

  function Names(rows: seq<PlayerRow>): (names: seq<string>)
    ensures |names| == |rows|
    ensures forall i :: 0 <= i < |rows| ==> names[i] == rows[i].name
  {
    seq(|rows|, i requires 0 <= i < |rows| => rows[i].name)
  }

  // ---------- the board array ----------

  /** One past the largest JavaScript array index. */
  const ArrayIndexLimit: int := 0xFFFF_FFFF

  predicate IsArrayIndex(i: int)
  {
    0 <= i < ArrayIndexLimit
  }

  /** What `boardArr` is after every row of the room has been written into it:
      at least nine entries, each the stored value of its cell or `null`, long
      enough for every array-index cell, and no longer than nine or the
      largest such cell requires. */
  predicate IsBoardArray(arr: seq<Option<Mark>>, board: map<(Code, int), Mark>, code: Code)
  {
    && |arr| >= 9
    && (forall j :: 0 <= j < |arr| ==> arr[j] == Lookup(board, code, j))
    && (forall c :: c in CellsOf(board, code) && IsArrayIndex(c) ==> c < |arr|)
    && (|arr| == 9 || (|arr| - 1 in CellsOf(board, code) && IsArrayIndex(|arr| - 1)))
  }

  /** The length `boardArr` reaches through the cells in 9..n-1: one past the
      largest of them, or nine when there is none. */
  function ExtentBelow(cells: set<int>, n: int): (e: int)
    requires 9 <= n <= ArrayIndexLimit
    ensures 9 <= e <= n
    ensures forall c :: c in cells && 9 <= c < n ==> c < e
    ensures e == 9 || e - 1 in cells
    decreases n
  {
    if n == 9 then 9
    else if n - 1 in cells then n
    else ExtentBelow(cells, n - 1)
  }

  /** The length of `boardArr` for a room. */
  function BoardLength(board: map<(Code, int), Mark>, code: Code): (n: nat)
    ensures n >= 9
    ensures forall c :: c in CellsOf(board, code) && IsArrayIndex(c) ==> c < n
    ensures n == 9 || (n - 1 in CellsOf(board, code) && IsArrayIndex(n - 1))
  {
    ExtentBelow(CellsOf(board, code), ArrayIndexLimit)
  }

  /** The `board` field of the reply. */
  function BoardArray(board: map<(Code, int), Mark>, code: Code): (arr: seq<Option<Mark>>)
    ensures IsBoardArray(arr, board, code)
  {
    seq(BoardLength(board, code), j => Lookup(board, code, j))
  }

  /** The board array is determined by the room's board rows. */
  lemma BoardArrayUnique(a: seq<Option<Mark>>, b: seq<Option<Mark>>, board: map<(Code, int), Mark>, code: Code)
    requires IsBoardArray(a, board, code)
    requires IsBoardArray(b, board, code)
    ensures a == b
  {
  }

  /** When every cell of the room lies in 0..8 the array has exactly nine
      entries, one per cell of the 3x3 grid. */
  lemma NineEntries(arr: seq<Option<Mark>>, board: map<(Code, int), Mark>, code: Code)
    requires IsBoardArray(arr, board, code)
    requires forall c :: c in CellsOf(board, code) ==> 0 <= c < 9
    ensures |arr| == 9
    ensures forall j :: 0 <= j < 9 ==> arr[j] == Lookup(board, code, j)
  {
  }

  /** `arr[c] = v` on a JavaScript array as JSON then shows it: an index at or
      past the end grows the array, padding with nulls; a key that is not an
      array index is a plain property, left out of the reply. */
  function AssignIndex(arr: seq<Option<Mark>>, c: int, v: Option<Mark>): (r: seq<Option<Mark>>)
    requires |arr| <= ArrayIndexLimit
    ensures IsArrayIndex(c) ==> |r| == if c < |arr| then |arr| else c + 1
    ensures !IsArrayIndex(c) ==> r == arr
    ensures forall j :: 0 <= j < |r| ==> r[j] == (if j == c then v else if j < |arr| then arr[j] else None)
  {
    if 0 <= c < |arr| then arr[c := v]
    else if |arr| <= c < ArrayIndexLimit then arr + seq(c - |arr|, _ => None) + [v]
    else arr
  }

  /** The result of `SELECT cell_index, value FROM board WHERE room_code = code`:
      the room's board rows, in whatever order the database returns them. */
  predicate ListsBoard(rows: seq<(int, Mark)>, board: map<(Code, int), Mark>, code: Code)
  {
    && (forall i :: 0 <= i < |rows| ==> Lookup(board, code, rows[i].0) == Some(rows[i].1))
    && CellsOf(board, code) == set i | 0 <= i < |rows| :: rows[i].0
  }

  /** `arr` after the cells in `done` have been written: each entry is the
      stored mark of a written cell or null, every written array-index cell
      fits, and the array is no longer than nine or the largest such cell. */
  predicate Filled(arr: seq<Option<Mark>>, done: set<int>, board: map<(Code, int), Mark>, code: Code)
  {
    && 9 <= |arr| <= ArrayIndexLimit
    && (forall j :: 0 <= j < |arr| ==> arr[j] == (if j in done then Lookup(board, code, j) else None))
    && (forall c :: c in done && IsArrayIndex(c) ==> c < |arr|)
    && (|arr| == 9 || (|arr| - 1 in done && IsArrayIndex(|arr| - 1)))
  }

  /** Writing one more stored cell keeps the array filled. */
  lemma AssignKeepsFilled(arr: seq<Option<Mark>>, done: set<int>, board: map<(Code, int), Mark>, code: Code, c: int, v: Mark)
    requires Filled(arr, done, board, code)
    requires Lookup(board, code, c) == Some(v)
    ensures Filled(AssignIndex(arr, c, Some(v)), done + {c}, board, code)
  {
  }

  /** `board.rows.forEach((r) => (boardArr[r.CELL_INDEX] = r.VALUE))` on
      `Array(9).fill(null)`: whatever the row order, the array is the board view. */
  method FillBoard(board: map<(Code, int), Mark>, code: Code, rows: seq<(int, Mark)>)
    returns (arr: seq<Option<Mark>>)
    requires ListsBoard(rows, board, code)
    ensures IsBoardArray(arr, board, code)
    ensures arr == BoardArray(board, code)
  {
    arr := seq(9, _ => None);
    var i := 0;
    ghost var done: set<int> := {};
    while i < |rows|
      invariant 0 <= i <= |rows|
      invariant done == set j | 0 <= j < i :: rows[j].0
      invariant Filled(arr, done, board, code)
    {
      var (c, v) := rows[i];
      AssignKeepsFilled(arr, done, board, code, c, v);
      arr := AssignIndex(arr, c, Some(v));
      done := done + {c};
      i := i + 1;
      assert done == set j | 0 <= j < i :: rows[j].0;
    }
    assert forall j :: 0 <= j < |arr| ==> j in done || Lookup(board, code, j) == None;
    BoardArrayUnique(arr, BoardArray(board, code), board, code);
  }

  // ---------- the route ----------

  /** `room-status`: `None` is the `success: false` reply for an unknown code. */
  function RoomStatus(s: State, code: Code): (r: Option<Reply>)
    ensures r.None? <==> code !in s.rooms
    ensures r.Some? ==>
      && r.value.gameActive == (s.rooms[code].active == 1)
      && r.value.turnIndex == s.rooms[code].turn
      && r.value.winner == s.rooms[code].winner
      && IsBoardArray(r.value.board, s.board, code)
      && |r.value.players| == PlayerCount(s.players, code)
      && (exists rows ::
            && SortedByIndex(rows)
            && multiset(rows) == multiset(RowsOf(s.players, code))
            && r.value.players == Names(rows))
  {
    if code !in s.rooms then None
    else
      var room := s.rooms[code];
      var rows := SortByIndex(RowsOf(s.players, code));
      Some(Reply(Names(rows), room.active == 1, room.turn, room.winner, BoardArray(s.board, code)))
  }
}
