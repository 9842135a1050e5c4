/**
 The relational state the game server keeps in its database, as immutable values.

 - `rooms` is the `rooms` table, keyed by room code;
 - `players` is the `players` table in insertion order. The table has no key the
   server relies on and is assumed to carry neither a key nor a foreign key, so
   it is a bag: the same row may occur twice, a row may name a code that has no
   room, and `COUNT(*)` counts every such row;
 - `board` is the `board` table, keyed by `(room_code, cell_index)`.
 */
module Tables {

  datatype Option<+T> = None | Some(value: T)

  /** The two values a `board` row can hold. */
  datatype Mark = X | O

  /** A room code as the server stores and compares it: a string. */
  type Code = string

  /** One row of `rooms`. `active` and `turn` are the numeric columns
      `game_active` and `turn_index`; `winner` is NULL (`None`) or a text. */
  datatype Room = Room(name: string, active: int, turn: int, winner: Option<string>)

  /** One row of `players`. */
  datatype PlayerRow = PlayerRow(code: Code, name: string, index: int)

  datatype State = State(
    rooms: map<Code, Room>,
    players: seq<PlayerRow>,
    board: map<(Code, int), Mark>)

  /** The database before any request. */
  const Empty: State := State(map[], [], map[])

  /** `SELECT * FROM players WHERE room_code = code`, in insertion order. */
  function RowsOf(players: seq<PlayerRow>, code: Code): (rows: seq<PlayerRow>)
    ensures |rows| <= |players|
    ensures forall i :: 0 <= i < |rows| ==> rows[i].code == code
    ensures forall r :: r in players && r.code == code ==> r in rows
    ensures forall r :: r in rows ==> r in players
  {
    if |players| == 0 then []
    else
      var init := RowsOf(players[..|players| - 1], code);
      var last := players[|players| - 1];
      assert players == players[..|players| - 1] + [last];
      if last.code == code then init + [last] else init
  }

  /** The selection keeps each row of the code as many times as it is stored,
      and no row of another code: repeated joins under one name all count. */
  lemma {:induction false} RowsOfCounts(players: seq<PlayerRow>, code: Code, r: PlayerRow)
    ensures multiset(RowsOf(players, code))[r] == if r.code == code then multiset(players)[r] else 0
  {
    if |players| > 0 {
      var init := players[..|players| - 1];
      assert players == init + [players[|players| - 1]];
      RowsOfCounts(init, code, r);
      RowsOfCountsAppend(init, players[|players| - 1], code, r);
    }
  }

  /** The step of `RowsOfCounts`: appending one row keeps the counts in line. */
  lemma RowsOfCountsAppend(init: seq<PlayerRow>, last: PlayerRow, code: Code, r: PlayerRow)
    requires multiset(RowsOf(init, code))[r] == if r.code == code then multiset(init)[r] else 0
    ensures multiset(RowsOf(init + [last], code))[r] == if r.code == code then multiset(init + [last])[r] else 0
  {
    RowsOfAppend(init, last, code);
    CountAppend(RowsOf(init, code), if last.code == code then [last] else [], r);
    CountAppend(init, [last], r);
  }

  /** How often `r` occurs in `a + b`. */
  lemma CountAppend(a: seq<PlayerRow>, b: seq<PlayerRow>, r: PlayerRow)
    ensures multiset(a + b)[r] == multiset(a)[r] + multiset(b)[r]
  {
  }

  /** `SELECT COUNT(*) FROM players WHERE room_code = code`. */
  function PlayerCount(players: seq<PlayerRow>, code: Code): (n: nat)
  {
    |RowsOf(players, code)|
  }

  /** Appending a row changes the rows of its own code only, by that row. */
  lemma {:induction false} RowsOfAppend(players: seq<PlayerRow>, row: PlayerRow, code: Code)
    ensures RowsOf(players + [row], code)
         == RowsOf(players, code) + (if row.code == code then [row] else [])
  {
  }

  /** The cell indices the `board` table holds for one room. */
  function CellsOf(board: map<(Code, int), Mark>, code: Code): (cells: set<int>)
    ensures forall i :: i in cells <==> (code, i) in board
  {
    set k | k in board && k.0 == code :: k.1
  }

  /** The keys of the board rows of one room holding mark `m`. */
  function KeysWith(board: map<(Code, int), Mark>, code: Code, m: Mark): (ks: set<(Code, int)>)
    ensures forall q :: q in ks <==> q in board && q.0 == code && board[q] == m
  {
    set q | q in board && q.0 == code && board[q] == m
  }

  /** How many board rows of one room hold mark `m`. */
  function MarkCount(board: map<(Code, int), Mark>, code: Code, m: Mark): (n: nat)
  {
    |KeysWith(board, code, m)|
  }

  /** The stored value of one cell, `None` when no row exists. */
  function Lookup(board: map<(Code, int), Mark>, code: Code, i: int): (v: Option<Mark>)
  {
    if (code, i) in board then Some(board[(code, i)]) else None
  }

  /** Inserting one new board row adds one to its room's count of its mark,
      and changes no other count. */
  lemma MarkCountInsert(board: map<(Code, int), Mark>, k: (Code, int), m: Mark, code: Code, m': Mark)
    requires k !in board
    ensures MarkCount(board[k := m], code, m')
         == MarkCount(board, code, m') + (if k.0 == code && m == m' then 1 else 0)
  {
    var before := KeysWith(board, code, m');
    var after := KeysWith(board[k := m], code, m');
    if k.0 == code && m == m' {
      assert after == before + {k};
    } else {
      assert after == before;
    }
  }

  /** Board rows of other rooms do not count towards a room's marks. */
  lemma MarkCountFrame(board: map<(Code, int), Mark>, board': map<(Code, int), Mark>, code: Code, m: Mark)
    requires forall k: (Code, int) :: k.0 == code ==> (k in board <==> k in board')
    requires forall k :: k in board && k.0 == code ==> board[k] == board'[k]
    ensures MarkCount(board, code, m) == MarkCount(board', code, m)
  {
    assert KeysWith(board, code, m) == KeysWith(board', code, m);
  }

  /** A room without board rows has no marks. */
  lemma MarkCountNone(board: map<(Code, int), Mark>, code: Code, m: Mark)
    requires forall k :: k in board ==> k.0 != code
    ensures MarkCount(board, code, m) == 0
  {
  }
}
