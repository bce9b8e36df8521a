# Connect Four engine in Dafny

A model of the game engine of a browser Connect Four game (`app.js`). Two
players, 1 and 2, take turns dropping pieces into the columns of a 6-row,
7-column board. A piece falls to the lowest empty cell of its column. The game
ends when the player who just moved has four in a row (horizontally,
vertically or on either diagonal), or in a tie when every cell is occupied.

The model has two modules.

- `Board` (`board.dfy`) treats the board as a value: a list of `HEIGHT` rows of
  `WIDTH` cells, indexed `g[y][x]`, with row 0 at the top. A cell is `Empty` or
  `Piece(p)`; this replaces the source's `undefined`/player-number truthiness.
  It holds the two read-only scans of the source, each written as a loop
  method and proved equal to a pure definition:
  - `FindSpotForCol` is proved equal to `LandingRow`, which is in turn
    characterised as "the bottom-most empty cell of the column, or nothing
    when the column is full".
  - `CheckForWin` is proved equal to `HasFour`, which says that some line of
    four cells in one of the four directions lies on the board and holds the
    player's pieces.
  The module also holds the placement of a piece and the gravity invariant
  with its piece-count consequences.
- `Engine` (`engine.dfy`) holds the class `Game`. Its fields `board` and
  `currPlayer` are the source's two globals. `MakeBoard` pushes the rows, and
  `Drop` is the board and turn logic of the click handler, updating both
  fields in place. Two client methods play short games against `Drop`'s
  contract: `FillOneColumn` fills one column of a new game and shows that the
  next drop there is refused, and `BottomRowWin` plays a seven-move game that
  player 1 wins on the bottom row.

The board is a `seq<seq<Cell>>` field that `Drop` reassigns. The source's
board is a JavaScript list of row lists that `makeBoard` grows by `push`, and
no row is ever shared, so the value model loses nothing.

Two guards a game engine might be expected to have are absent from the code,
and the model follows the code:
- The code has no "game already over" guard. After a win or a tie, further
  clicks are still processed until the page reloads, and `Drop` likewise
  accepts them.
- The code has no "invalid column" result. Column indices come from the
  column-top cells, so `Drop` requires `0 <= x < WIDTH`.

## Model

| member | source | states |
|---|---|---|
| `Engine.Game.constructor` | app.js:11-12 | a new game has `currPlayer` 1 and, once `makeBoard` has run (app.js:203), a HEIGHT x WIDTH board with every cell empty |
| `Engine.Game.MakeBoard` | app.js:18-24 | appends exactly HEIGHT rows of WIDTH empty cells and keeps the rows already there; starting from the empty list it yields a well-formed, all-empty board |
| `Board.EmptyRow` | app.js:22 | a new row has WIDTH cells, all empty |
| `Board.EmptyBoardFacts` | app.js:18-24 | the board makeBoard builds satisfies gravity, is not full, has no pieces in any column, and every column's landing row is the bottom row |
| `Board.LandingFromSpec` | app.js:73-81 | scanning up from row y finds nothing exactly when rows 0..y are all occupied; otherwise it finds an empty row with every scanned row below it occupied |
| `Board.LandingRowSpec` | app.js:71-82 | the landing row is absent exactly when every cell of the column is occupied; otherwise it is the one row that is empty with every row below it occupied |
| `Board.LandingRow` | app.js:71-82 | defines the row `findSpotForCol` returns as the result of scanning up from the bottom row; a row it finds is on the board and its cell in the column is empty |
| `Board.FindSpotForCol` | app.js:71-82 | the bottom-up loop returns the landing row: an in-bounds empty row with all rows below occupied, or None exactly when the column is full |
| `Board.Place` | app.js:142 | writing the player into (y, x) changes that one cell to the player's piece and leaves every other cell as it was |
| `Board.SettledPreserved` | app.js:136-142 | if every column's pieces form a run ending at the bottom row, they still do after a piece is written into the landing row |
| `Board.LandingRowByCount` | app.js:73-79 | on a board that obeys gravity, a column holds at most HEIGHT pieces, and it accepts a piece exactly while it holds fewer than HEIGHT, at row HEIGHT-1 minus its piece count |
| `Board.DropAddsOnePiece` | app.js:136-142 | a successful drop adds exactly one piece to the chosen column and none to any other column |
| `Board.Holds` | app.js:171-176 | defines the per-cell test of `_win`: the bounds checks come before the cell read, so a passing coordinate is on the board and its cell holds a piece |
| `Board.AllHold` | app.js:165-178 | defines `_win` as "every listed coordinate passes the cell test"; a passing list lies wholly on the board |
| `Board.Ray` | app.js:185-191 | defines the coordinate lists `horiz`, `vert`, `diagDR` and `diagDL`: four coordinates starting at the origin, each one step (dy, dx) from the one before |
| `Board.WinFrom` | app.js:194 | defines the four-way `||` of `_win` over the four rays from one origin; when it passes, the origin is on the board and holds the player's piece |
| `Board.RayIsFour` | app.js:165-191 | the four coordinates handed to `_win` for one direction all hold the player exactly when the four-cell line from that origin in that direction lies on the board and holds the player |
| `Board.HasFourIff` | app.js:180-198 | a four-in-a-row exists in some direction exactly when one of the four rays tested at some on-board origin succeeds; a line off the board never counts |
| `Board.CheckForWin` | app.js:164-199 | the nested row/column scan returns true exactly when the player has four in a row horizontally, vertically or diagonally, and false (the source's `undefined`) otherwise |
| `Board.NoFourInSmallBlock` | app.js:180-198 | pieces of one player that all lie inside a 3 x 3 block never form four in a row, in any of the four directions |
| `Board.Other` | app.js:156 | the turn switch always yields the other player, which stays in {1, 2} |
| `Board.IsFull` | app.js:151 | defines the tie test: every cell of every row is occupied; on a well-formed board that holds exactly when no column has a landing row |
| `Engine.Game.Drop` | app.js:136-156 | a full column leaves board and player unchanged; otherwise only the landing cell changes and becomes the mover's piece; a four-in-a-row gives Win for the mover, else a full board gives Tie, in both cases keeping `currPlayer`; otherwise the turn passes to the other player; gravity is preserved |
| `Engine.FillOneColumn` | app.js:136-139 | in a new game, HEIGHT drops into one column all land, the i-th at row HEIGHT-1-i of that column; the next drop is refused as ColumnFull and leaves the now full board as it was |
| `Engine.BottomRowWin` | app.js:136-156 | a new game played in columns 0, 0, 1, 1, 2, 2, 3 gives six `Placed` results (players 1 and 2 alternating, bottom row then the row above) and then `Win` for player 1 at row 5, column 3 |

## Left out

- DOM rendering: `makeHtmlBoard`, `placeInTable` and `playerTurn` (app.js:28-67, 86-97, 111-127) only build and restyle page elements.
- `endGame` (app.js:103-108) waits on a timer, shows an alert and reloads the page. `Drop` reports a `Win` or `Tie` result in its place.
- Event plumbing: the column index read from the clicked element's id (app.js:133) and the start-up calls (app.js:202-204). The column is a parameter of `Drop`.
- Out-of-range columns: in the source, the bottom row's cell at such a column (7, say) reads `undefined`, so `findSpotForCol` returns HEIGHT-1 (app.js:73-77). The piece is then written into the bottom row at a column index off the board (app.js:142), and the handler fails in `placeInTable` because no cell element with that id exists (app.js:94-96). `Drop` requires `0 <= x < WIDTH` instead.
- `Board.CheckForWin` takes the player to test as a parameter. In the source, `checkForWin` reads the global `currPlayer`, and `Drop` passes that field.
- Cell values are a datatype. JavaScript truthiness (`undefined` for empty, 1 or 2 for a piece) is not modelled beyond that mapping.
- JavaScript numbers are modelled as unbounded integers. Every index stays below 10, so nothing can overflow.
