# Tic-tac-toe room server, modelled in Dafny

This project models the game server in `Backend/server.js`. The server keeps all
game state in three database tables:

- `rooms`, keyed by room code, with `game_active`, `turn_index` and `winner`;
- `players`, rows of `(room_code, player_name, player_index)`;
- `board`, keyed by `(room_code, cell_index)`, with the value `"X"` or `"O"`.

Five HTTP routes read and change those tables. Each route is modelled as a pure
function. It takes the tables (`Tables.State`) and the request body. It returns
the committed tables and the reply's `success` flag (`Routes.Step`).

- `create-room` inserts an inactive room, at turn 0 with a NULL winner. It also
  inserts the creator as player 0. The room code is
  `floor(1000 + Math.random() * 9000)` written in decimal. The random draw is a
  parameter in [0, 1).
- `join-room` counts the player rows of the code. Below two, it appends the
  joiner at index 1. It does not check that the room exists. It does not check
  that the name is new.
- `start-game` sets the room active, at turn 0 with a NULL winner. It deletes
  the room's board rows. It replies `success: true` even when the code is
  unknown.
- `make-move` is rejected when the room is missing, when its game is inactive,
  when it is not `playerIndex`'s turn, or when the cell already has a row. An
  accepted move writes `X` for player 0 and `O` for anyone else. It then hands
  the turn over: to 1 after player 0, otherwise to 0. The cell index is not
  range-checked.
- `room-status` is a pure read. It returns the room's flags, its player names
  ordered by `player_index`, and its board rows written into
  `Array(9).fill(null)`.

Modules:

- `Tables` (`tables.dfy`) holds the state and the row-counting helpers.
- `RoomCode` (`room_code.dfy`) covers code generation and its decimal string.
- `Routes` (`routes.dfy`) holds the four mutating routes.
- `Status` (`status.dfy`) holds the `room-status` read.
- `Sessions` (`sessions.dfy`) holds the properties over sequences of requests.

The proved properties over sequences of requests are:

- Every route keeps an invariant. In every room, the turn is 0 or 1. The count
  of X cells equals the count of O cells plus the turn. No winner is ever
  stored.
- After `start-game`, with k accepted moves in the room: the turn is k mod 2,
  the room holds ceil(k/2) X and floor(k/2) O, and the game is still active.
  Nothing in the server ever ends a game.
- An accepted move always hands the turn to someone else. So a player's second
  move in a row is rejected.
- `join-room` never raises a code above two player rows. The source does not
  show the `players` table definition. Assume it has no key and no foreign
  key. Then joins to a code before its room exists leave rows behind, and a
  later `create-room` that draws that code starts a room with three players.
  This is proved on a concrete sequence of requests. It is also proved for
  every state: a `create-room` on a new code that already has two rows breaks
  the cap. A foreign key to `rooms`, or a key on `(room_code, player_index)`,
  would make those joins throw instead.

The server does less than a complete tic-tac-toe server, and the model follows
the server:

- The server has no win or draw detection. `winner` is only ever written as
  NULL.
- The server has no `reset-game` route, although the front end calls one.
- `join-room` does not check for an unknown room. It does not check for a
  repeated name. With the schema assumed above, both joins are stored.
- `start-game` does not report an unknown room.
- `make-move` does not reject a cell outside 0..8.

## Model

| member | source | states |
|---|---|---|
| RoomCode.GenerateRoomCode | Backend/server.js:65-67 | For a draw in [0, 1), the numeric code lies in 1000..9999 |
| RoomCode.EveryCodeReachable | Backend/server.js:66 | Every code in 1000..9999 is produced by some draw in [0, 1) |
| RoomCode.DecimalString | Backend/server.js:66 | `toString` of a code gives at least one decimal digit, with no leading zero on numbers of two digits or more |
| RoomCode.ParseDecimalString | Backend/server.js:66 | Reading back the decimal string of a code gives the code: `toString` loses nothing |
| RoomCode.DecimalStringInjective | Backend/server.js:66 | Distinct numeric codes give distinct code strings |
| RoomCode.FourDigits | Backend/server.js:66 | A code in 1000..9999 is written with exactly four digits |
| RoomCode.RoomCodeFor | Backend/server.js:65-67 | The code string handed out for a draw has four decimal digits and no leading zero. Its value is the number that draw generates |
| RoomCode.EveryRoomCodeReachable | Backend/server.js:65-67 | Every four-digit code string from 1000 to 9999 is handed out for some draw in [0, 1) |
| Routes.MarkOf | Backend/server.js:179 | The mark is X exactly when the player index is 0 |
| Routes.NextTurn | Backend/server.js:191 | The stored turn is 0 or 1, never the mover's index, and it is the other player's index when the mover is 0 or 1 |
| Routes.CreateRoomWithCode | Backend/server.js:87-108 | Succeeds iff the code is not already a room. A failure commits nothing. On success the new room is inactive, at turn 0 with no winner, and named as asked. The code gains exactly one player row, the creator at index 0. Other rooms, other codes' rows and the board are unchanged |
| Routes.CreateRoom | Backend/server.js:87-108 | With a draw in [0, 1), the reply's code is the four-digit string of the number the draw generates. The committed step is `create-room` on that code, with its whole contract: success iff the code is new, nothing committed on failure, and on success the room `(name, 0, 0, NULL)` with the creator appended at index 0, everything else unchanged |
| Routes.JoinRoom | Backend/server.js:111-133 | Succeeds iff the code has fewer than two player rows, whether or not the room exists. A failure changes nothing. A success appends exactly the row `(code, name, 1)`, raising that code's count by one and no other code's count. Rooms and board are never touched |
| Routes.StartGame | Backend/server.js:136-156 | Always succeeds. A known room becomes active, at turn 0 with no winner; its other fields are kept. Every board row of the code is deleted. No other row is changed or deleted. Players and other rooms are untouched |
| Routes.MakeMove | Backend/server.js:159-199 | Succeeds iff the room exists, its flag is not 0, its turn equals `playerIndex`, and the cell has no row; a rejection changes nothing. An accepted move adds exactly that cell, holding X for player 0 and O otherwise. It sets the turn to 1 after player 0 and to 0 otherwise. Other cells, other room fields, other rooms and the players are unchanged |
| Status.SortByIndex | Backend/server.js:213-217 | The room's player rows come out ordered by `player_index`, as a permutation of the selected rows |
| Status.AssignIndex | Backend/server.js:225 | `boardArr[i] = v` as JSON shows it. An array index inside the array overwrites that entry. An index at or past the end grows the array to i + 1, padding with nulls. A negative index or one from 2^32 - 1 up leaves the shown array unchanged |
| Status.BoardArray | Backend/server.js:219-225 | The `board` field: at least nine entries, each the stored mark of its cell or null, long enough for every array-index cell, and no longer than nine or the largest such cell needs |
| Status.BoardArrayUnique | Backend/server.js:224-225 | The board array is fully determined by the room's board rows |
| Status.NineEntries | Backend/server.js:224-225 | When every cell of the room is in 0..8, the board array has exactly nine entries, each the stored mark or null |
| Status.ExtentBelow | Backend/server.js:224-225 | The array reaches one past the largest stored cell in 9..n-1, or stays at nine entries |
| Status.FillBoard | Backend/server.js:219-225 | Writing the rows into `Array(9).fill(null)`, in whatever order the database returns them, gives the board view. That view has at least nine entries, each the stored mark or null. It grows past nine only as far as the largest array-index cell. Negative cells are not shown |
| Status.RoomStatus | Backend/server.js:202-241 | An unknown code gives failure. Otherwise `gameActive` is true iff the stored flag is 1. Turn and winner are the stored ones. The board is the board view. The players are the names of the room's rows ordered by `player_index`, one per row |
| Tables.RowsOf | Backend/server.js:115-117 | Selecting a code's player rows keeps every row with that code, in stored order, and no row of another code |
| Tables.RowsOfCounts | Backend/server.js:115-126 | The selection holds each row of the code exactly as many times as it is stored and no row of another code. So a name that joined twice is counted twice by `COUNT(*)` |
| Tables.RowsOfAppend | Backend/server.js:122-126 | Inserting a player row adds it to its own code's rows and leaves every other code's rows as they were |
| Tables.MarkCountInsert | Backend/server.js:181-185 | Inserting a new board row adds one to its room's count of its mark, and changes no other count |
| Tables.MarkCountFrame | Backend/server.js:147-150 | Deleting or inserting rows of other rooms leaves a room's mark counts unchanged |
| Sessions.CreatePreservesInv | Backend/server.js:92-102 | `create-room` keeps the invariant (turn in {0,1}, X count = O count + turn, no winner, no board row without a room) |
| Sessions.JoinPreservesInv | Backend/server.js:122-126 | `join-room` keeps the invariant |
| Sessions.StartPreservesInv | Backend/server.js:140-150 | `start-game` keeps the invariant |
| Sessions.MovePreservesInv | Backend/server.js:168-192 | `make-move`, accepted or rejected, keeps the invariant |
| Sessions.ApplyPreservesInv | Backend/server.js:87-199 | Every mutating route keeps the invariant |
| Sessions.RunPreservesInv | Backend/server.js:87-199 | Any sequence of requests keeps the invariant |
| Sessions.Reachable | Backend/server.js:142 | From an empty database, after any requests: every room's turn is 0 or 1, its X count minus its O count equals its turn, and its winner is NULL |
| Sessions.StepOnRoom | Backend/server.js:168-192 | One request other than a restart of the room keeps the room and its game flag. An accepted move in the room flips the turn and adds one mark. Anything else leaves both alone |
| Sessions.TurnAlternation | Backend/server.js:168-192 | Over requests that do not restart the room, the turn flips once per accepted move in it |
| Sessions.MarksPerMove | Backend/server.js:179-185 | Over requests that do not restart the room, the room gains exactly one mark per accepted move in it |
| Sessions.ActiveKept | Backend/server.js:141-143 | Requests that do not restart a room never change its game flag |
| Sessions.StartThenMoves | Backend/server.js:141-192 | After `start-game` and k accepted moves in the room, the game is active and the turn is k mod 2. The room holds ceil(k/2) X and floor(k/2) O |
| Sessions.NoTwoMovesInARow | Backend/server.js:170 | After an accepted move, any move by the same player index in that room is rejected |
| Sessions.JoinKeepsCap | Backend/server.js:115-129 | If every code has at most two player rows before `join-room`, the same holds after it |
| Sessions.CreateKeepsCap | Backend/server.js:98-102 | `create-room` keeps the two-row cap when the code has at most one row already |
| Sessions.CreateBreaksCap | Backend/server.js:98-102 | `create-room` on a new code that already has two rows leaves that code with three rows, so the cap is broken |
| Sessions.OrphanJoinsOverfillRoom | Backend/server.js:111-133 | On one concrete sequence of requests, two joins to code 1000 before the room exists both succeed. A `create-room` that draws 1000 then succeeds with three player rows |
| Sessions.CreateThenStatus | Backend/server.js:92-102 | A room created on a code with no earlier rows shows the creator alone, an inactive game at turn 0, no winner and nine empty cells |
| Sessions.MoveThenStatus | Backend/server.js:179-192 | After an accepted move on a cell in 0..8, the status shows the player's mark there. It shows the turn handed over and the game flag unchanged |

## Left out

- Secret retrieval from the vault, the database client, the wallet, the connection pool and process startup are left out. They are foreign I/O.
- `withConnection` and the `FOR UPDATE` row lock are left out. They exist for database concurrency. Each handler is modelled as one atomic step, and requests are applied one at a time.
- The Express and CORS wiring and the `/health` route are left out. They are HTTP plumbing.
- `Math.random` is left out. The draw is a real parameter in [0, 1), and floating-point rounding of `1000 + r * 9000` is not modelled.
- Database failures are left out, such as a failed statement, commit or connection. A `create-room` on a code that already exists makes the handler throw, so no reply is sent. The model reports it as `success: false` with nothing committed.
- Request fields are modelled as integers and strings. The server also accepts other JSON types. A string `playerIndex` never equals the stored turn under `!==`. A fractional `index` would be stored as is. Neither case is modelled.
- The database schema is not part of this model. Any integer cell index is assumed to be storable. `rooms` is assumed to be keyed by code. `players` is assumed to have no key and no foreign key.
- Status.RoomStatus: states only that the players come out in some `player_index` order. SQL leaves the order of rows with equal indices unspecified, and the model's insertion sort picks one such order.
- Status.RoomStatus: always gives a reply for a known room. A cell index that make-move accepted can be far past 8, and `boardArr` then has that many entries. Once the JSON text would pass the JavaScript engine's string limit (about 10^8 entries), `res.json` throws and no reply is sent. The model has no such limit.
- Status.RoomStatus: shows an empty player name as `""`. Oracle stores an empty string as NULL, so the server lists that name as `null`.
- Routes.JoinRoom: treats the empty room code as an ordinary code with a two-row cap. Oracle stores `""` as NULL, and `room_code = NULL` matches no row, so the server's count for `""` is always 0. Each such join then either inserts a row no query sees or throws on a NOT NULL column. The model does not map empty strings to NULL.
- Status.FillBoard: takes the selected rows as a parameter listing the room's board rows, because the row order the database returns is not specified.
- Win and draw detection and the `reset-game` route are left out. They do not exist in the server.
- `Frontend/game.js` and `Frontend/client.js` are left out. They are page rendering, fetch calls and one-second polling.
