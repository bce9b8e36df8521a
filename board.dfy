/** The Connect Four board as a value: a HEIGHT x WIDTH grid of cells indexed
    g[y][x], row 0 at the top and row HEIGHT-1 at the bottom. This module holds
    the read-only queries of the engine (the landing-row scan and the
    four-in-a-row scan), each as a loop method proved equal to a pure
    definition, together with the facts about placement and gravity. */
module Board {

  const WIDTH: int := 7
  const HEIGHT: int := 6

  /** The two players; the source's `currPlayer` only ever holds 1 or 2. */
  type Player = p: int | p == 1 || p == 2 witness 1

  /** A cell is empty (the source's `undefined`) or holds a player's piece. */
  datatype Cell = Empty | Piece(owner: Player)

  datatype Option<T> = None | Some(value: T)

  /** The board: a list of HEIGHT rows, each a list of WIDTH cells. */
  type Grid = seq<seq<Cell>>

  predicate WellFormed(g: Grid)
  {
    |g| == HEIGHT && forall y :: 0 <= y < |g| ==> |g[y]| == WIDTH
  }

  predicate InBounds(y: int, x: int)
  {
    0 <= y < HEIGHT && 0 <= x < WIDTH
  }

  /** The player who moves after `p`. */
  function Other(p: Player): (q: Player)
    ensures q != p
  {
    if p == 1 then 2 else 1
  }

  /** One freshly made row: WIDTH empty cells. */
  function EmptyRow(): (row: seq<Cell>)
    ensures |row| == WIDTH && forall x :: 0 <= x < |row| ==> row[x] == Empty
  {
    seq(WIDTH, _ => Empty)
  }

  predicate IsEmptyBoard(g: Grid)
    requires WellFormed(g)
  {
    forall y, x :: 0 <= y < HEIGHT && 0 <= x < WIDTH ==> g[y][x] == Empty
  }

  // ---------------------------------------------------------------------
  // Landing row

  /** Scanning column x upward from row y, the first empty row met. */
  function LandingFrom(g: Grid, x: int, y: int): (r: Option<int>)
    requires WellFormed(g) && 0 <= x < WIDTH && -1 <= y < HEIGHT
    ensures r.Some? ==> 0 <= r.value <= y
    decreases y + 1
  {
    if y < 0 then None
    else if g[y][x] == Empty then Some(y)
    else LandingFrom(g, x, y - 1)
  }

  /** The row a piece dropped into column x comes to rest on, if any. */
  function LandingRow(g: Grid, x: int): (r: Option<int>)
    requires WellFormed(g) && 0 <= x < WIDTH
    ensures r.Some? ==> InBounds(r.value, x) && g[r.value][x] == Empty
  {
    LandingFromSpec(g, x, HEIGHT - 1);
    LandingFrom(g, x, HEIGHT - 1)
  }

  /** y is the bottom-most empty cell of column x: empty, and every row below it occupied. */
  ghost predicate IsLandingRow(g: Grid, x: int, y: int)
    requires WellFormed(g) && 0 <= x < WIDTH
  {
    0 <= y < HEIGHT && g[y][x] == Empty &&
    forall y' :: y < y' < HEIGHT ==> g[y'][x] != Empty
  }

  ghost predicate ColumnIsFull(g: Grid, x: int)
    requires WellFormed(g) && 0 <= x < WIDTH
  {
    forall y :: 0 <= y < HEIGHT ==> g[y][x] != Empty
  }

  lemma {:induction false} LandingFromSpec(g: Grid, x: int, y: int)
    requires WellFormed(g) && 0 <= x < WIDTH && -1 <= y < HEIGHT
    ensures LandingFrom(g, x, y).None? <==> forall y' :: 0 <= y' <= y ==> g[y'][x] != Empty
    ensures LandingFrom(g, x, y).Some? ==>
      var r := LandingFrom(g, x, y).value;
      g[r][x] == Empty && forall y' :: r < y' <= y ==> g[y'][x] != Empty
    decreases y + 1
  {
    if 0 <= y && g[y][x] != Empty {
      LandingFromSpec(g, x, y - 1);
    }
  }

  /** The scan finds no row exactly when the column is full, and otherwise
      finds the one and only landing row. */
  lemma LandingRowSpec(g: Grid, x: int)
    requires WellFormed(g) && 0 <= x < WIDTH
    ensures LandingRow(g, x).None? <==> ColumnIsFull(g, x)
    ensures forall y :: LandingRow(g, x) == Some(y) <==> IsLandingRow(g, x, y)
  {
    LandingFromSpec(g, x, HEIGHT - 1);
    forall y | IsLandingRow(g, x, y)
      ensures LandingRow(g, x) == Some(y)
    {
      assert !ColumnIsFull(g, x);
    }
  }

  /** findSpotForCol: walk column x from the bottom row up and return the first
      empty row, or None when every cell of the column is occupied. */
  method FindSpotForCol(g: Grid, x: int) returns (spot: Option<int>)
    requires WellFormed(g) && 0 <= x < WIDTH
    ensures spot == LandingRow(g, x)
    ensures spot.None? <==> ColumnIsFull(g, x)
    ensures spot.Some? ==> IsLandingRow(g, x, spot.value)
  {
    LandingRowSpec(g, x);
    var y := HEIGHT - 1;
    while y >= 0
      invariant -1 <= y < HEIGHT
      invariant LandingFrom(g, x, y) == LandingRow(g, x)
    {
      if g[y][x] == Empty {
        return Some(y);
      }
      y := y - 1;
    }
    return None;
  }

  // ---------------------------------------------------------------------
  // Placement and gravity

  /** The board after `board[y][x] = p`. */
  function Place(g: Grid, y: int, x: int, p: Player): (g': Grid)
    requires WellFormed(g) && InBounds(y, x)
    ensures WellFormed(g')
    ensures forall y', x' :: InBounds(y', x') ==>
      g'[y'][x'] == if y' == y && x' == x then Piece(p) else g[y'][x']
  {
    g[y := g[y][x := Piece(p)]]
  }

  /** Gravity: in every column the occupied cells form one run that ends at
      the bottom row, i.e. no occupied cell has an empty cell below it. */
  ghost predicate Settled(g: Grid)
    requires WellFormed(g)
  {
    forall x, y1, y2 :: 0 <= x < WIDTH && 0 <= y1 < y2 < HEIGHT && g[y1][x] != Empty ==> g[y2][x] != Empty
  }

  lemma SettledPreserved(g: Grid, x: int, p: Player)
    requires WellFormed(g) && 0 <= x < WIDTH && Settled(g) && LandingRow(g, x).Some?
    ensures Settled(Place(g, LandingRow(g, x).value, x, p))
  {
    LandingRowSpec(g, x);
  }

  /** Number of pieces in column x at rows y .. HEIGHT-1. */
  function PiecesFrom(g: Grid, x: int, y: int): (n: nat)
    requires WellFormed(g) && 0 <= x < WIDTH && 0 <= y <= HEIGHT
    ensures n <= HEIGHT - y
    decreases HEIGHT - y
  {
    if y == HEIGHT then 0
    else (if g[y][x] != Empty then 1 else 0) + PiecesFrom(g, x, y + 1)
  }

  /** Number of pieces in column x; never more than HEIGHT. */
  function ColumnPieces(g: Grid, x: int): (n: nat)
    requires WellFormed(g) && 0 <= x < WIDTH
  {
    PiecesFrom(g, x, 0)
  }

  lemma {:induction false} PiecesOfRun(g: Grid, x: int, top: int, y: int)
    requires WellFormed(g) && 0 <= x < WIDTH && 0 <= top <= HEIGHT && 0 <= y <= HEIGHT
    requires forall y' :: 0 <= y' < top ==> g[y'][x] == Empty
    requires forall y' :: top <= y' < HEIGHT ==> g[y'][x] != Empty
    ensures PiecesFrom(g, x, y) == HEIGHT - (if y < top then top else y)
    decreases HEIGHT - y
  {
    if y < HEIGHT {
      PiecesOfRun(g, x, top, y + 1);
    }
  }

  /** On a settled board the landing row is fixed by the column's piece count:
      a column takes pieces exactly while it holds fewer than HEIGHT. */
  lemma LandingRowByCount(g: Grid, x: int)
    requires WellFormed(g) && 0 <= x < WIDTH && Settled(g)
    ensures ColumnPieces(g, x) <= HEIGHT
    ensures LandingRow(g, x) ==
      if ColumnPieces(g, x) == HEIGHT then None else Some(HEIGHT - 1 - ColumnPieces(g, x))
  {
    LandingRowSpec(g, x);
    match LandingRow(g, x)
    case None =>
      PiecesOfRun(g, x, 0, 0);
    case Some(r) =>
      assert IsLandingRow(g, x, r);
      PiecesOfRun(g, x, r + 1, 0);
  }

  lemma {:induction false} PiecesAfterPlace(g: Grid, y: int, x: int, p: Player, c: int, from: int)
    requires WellFormed(g) && InBounds(y, x) && g[y][x] == Empty
    requires 0 <= c < WIDTH && 0 <= from <= HEIGHT
    ensures PiecesFrom(Place(g, y, x, p), c, from) ==
      PiecesFrom(g, c, from) + (if c == x && from <= y then 1 else 0)
    decreases HEIGHT - from
  {
    if from < HEIGHT {
      PiecesAfterPlace(g, y, x, p, c, from + 1);
    }
  }

  /** Dropping into column x adds exactly one piece to that column and none to any other. */
  lemma DropAddsOnePiece(g: Grid, x: int, p: Player)
    requires WellFormed(g) && 0 <= x < WIDTH && LandingRow(g, x).Some?
    ensures forall c :: 0 <= c < WIDTH ==>
      ColumnPieces(Place(g, LandingRow(g, x).value, x, p), c) ==
      ColumnPieces(g, c) + (if c == x then 1 else 0)
  {
    var y := LandingRow(g, x).value;
    LandingRowSpec(g, x);
    assert IsLandingRow(g, x, y);
    forall c | 0 <= c < WIDTH
      ensures ColumnPieces(Place(g, y, x, p), c) == ColumnPieces(g, c) + (if c == x then 1 else 0)
    {
      PiecesAfterPlace(g, y, x, p, c, 0);
    }
  }

  /** The board makeBoard produces: settled, not full, every column empty. */
  lemma EmptyBoardFacts(g: Grid)
    requires WellFormed(g) && IsEmptyBoard(g)
    ensures Settled(g) && !IsFull(g)
    ensures forall x :: 0 <= x < WIDTH ==> ColumnPieces(g, x) == 0 && LandingRow(g, x) == Some(HEIGHT - 1)
  {
    assert g[0][0] == Empty;
    forall x | 0 <= x < WIDTH
      ensures ColumnPieces(g, x) == 0
    {
      PiecesOfRun(g, x, HEIGHT, 0);
    }
  }

  /** Every cell of every row is occupied exactly when no column has a
      landing row left. */
  lemma AllCellsOccupied(g: Grid)
    requires WellFormed(g)
    ensures (forall y :: 0 <= y < |g| ==> forall x :: 0 <= x < |g[y]| ==> g[y][x] != Empty) <==>
            (forall x :: 0 <= x < WIDTH ==> LandingRow(g, x).None?)
  {
    forall x | 0 <= x < WIDTH
      ensures LandingRow(g, x).None? <==> ColumnIsFull(g, x)
    {
      LandingRowSpec(g, x);
    }
    if forall y :: 0 <= y < |g| ==> forall x :: 0 <= x < |g[y]| ==> g[y][x] != Empty {
      forall x | 0 <= x < WIDTH
        ensures ColumnIsFull(g, x)
      {
        forall y | 0 <= y < HEIGHT
          ensures g[y][x] != Empty
        {
          assert 0 <= x < |g[y]|;
        }
      }
    }
    if forall x :: 0 <= x < WIDTH ==> ColumnIsFull(g, x) {
      forall y, x | 0 <= y < |g| && 0 <= x < |g[y]|
        ensures g[y][x] != Empty
      {
        assert ColumnIsFull(g, x);
      }
    }
  }

  /** The tie test: every cell of every row is occupied. On a well-formed
      board that means no column can take another piece. */
  predicate IsFull(g: Grid): (full: bool)
    ensures WellFormed(g) ==> (full <==> forall x :: 0 <= x < WIDTH ==> LandingRow(g, x).None?)
  {
    var full := forall y :: 0 <= y < |g| ==> forall x :: 0 <= x < |g[y]| ==> g[y][x] != Empty;
    if WellFormed(g) then AllCellsOccupied(g); full else full
  }

  // ---------------------------------------------------------------------
  // Four in a row

  /** One coordinate test of `_win`: (y, x) lies on the board and holds p's
      piece. The bounds test comes first, so the cell is never read off the board. */
  predicate Holds(g: Grid, p: Player, y: int, x: int): (holds: bool)
    requires WellFormed(g)
    ensures holds ==> InBounds(y, x) && g[y][x] != Empty
  {
    InBounds(y, x) && g[y][x] == Piece(p)
  }

  /** `_win(cells)`: every listed coordinate holds p. */
  predicate AllHold(g: Grid, p: Player, cells: seq<(int, int)>): (all: bool)
    requires WellFormed(g)
    ensures all ==> forall i :: 0 <= i < |cells| ==> InBounds(cells[i].0, cells[i].1)
  {
    forall i :: 0 <= i < |cells| ==> Holds(g, p, cells[i].0, cells[i].1)
  }

  /** The four coordinates starting at (y, x) and stepping by (dy, dx). */
  function Ray(y: int, x: int, dy: int, dx: int): (cells: seq<(int, int)>)
    ensures |cells| == 4 && cells[0] == (y, x)
    ensures forall i :: 0 < i < |cells| ==> cells[i] == (cells[i - 1].0 + dy, cells[i - 1].1 + dx)
  {
    [(y, x), (y + dy, x + dx), (y + 2 * dy, x + 2 * dx), (y + 3 * dy, x + 3 * dx)]
  }

  /** Whether one of the four rays tested at origin (y, x) is a win for p. */
  predicate WinFrom(g: Grid, p: Player, y: int, x: int): (win: bool)
    requires WellFormed(g)
    ensures win ==> InBounds(y, x) && g[y][x] == Piece(p)
  {
    AllHold(g, p, Ray(y, x, 0, 1)) ||   // horizontal
    AllHold(g, p, Ray(y, x, 1, 0)) ||   // vertical
    AllHold(g, p, Ray(y, x, 1, 1)) ||   // diagonal down-right
    AllHold(g, p, Ray(y, x, 1, -1))     // diagonal down-left
  }

  function Offset(a: int, d: int, k: int): int
  {
    a + k * d
  }

  /** The four line directions: right, down, down-right and down-left. */
  predicate IsDirection(dy: int, dx: int)
  {
    (dy == 0 && dx == 1) || (dy == 1 && dx == 0) || (dy == 1 && dx == 1) || (dy == 1 && dx == -1)
  }

  ghost predicate FourInARow(g: Grid, p: Player, y: int, x: int, dy: int, dx: int)
    requires WellFormed(g)
  {
    forall k :: 0 <= k < 4 ==> Holds(g, p, Offset(y, dy, k), Offset(x, dx, k))
  }

  /** p has four in a row somewhere on the board, in one of the four directions. */
  ghost predicate HasFour(g: Grid, p: Player)
    requires WellFormed(g)
  {
    exists y, x, dy, dx :: IsDirection(dy, dx) && FourInARow(g, p, y, x, dy, dx)
  }

  /** The k-th coordinate of a ray is k steps from its origin. */
  lemma RayAt(y: int, x: int, dy: int, dx: int, k: int)
    requires 0 <= k < 4
    ensures Ray(y, x, dy, dx)[k] == (Offset(y, dy, k), Offset(x, dx, k))
  {
    if k == 0 {
    } else if k == 1 {
    } else if k == 2 {
    } else {
    }
  }

  /** The list of coordinates `_win` is given is exactly the four cells of
      the line from (y, x) in direction (dy, dx). */
  lemma RayIsFour(g: Grid, p: Player, y: int, x: int, dy: int, dx: int)
    requires WellFormed(g)
    ensures AllHold(g, p, Ray(y, x, dy, dx)) <==> FourInARow(g, p, y, x, dy, dx)
  {
    var cells := Ray(y, x, dy, dx);
    forall k | 0 <= k < 4
      ensures cells[k] == (Offset(y, dy, k), Offset(x, dx, k))
    {
      RayAt(y, x, dy, dx, k);
    }
  }

  /** A four-in-a-row exists exactly when the scan's test succeeds at some
      origin cell of the board. */
  lemma HasFourIff(g: Grid, p: Player)
    requires WellFormed(g)
    ensures HasFour(g, p) <==> exists y, x :: InBounds(y, x) && WinFrom(g, p, y, x)
  {
    if HasFour(g, p) {
      var y, x, dy, dx :| IsDirection(dy, dx) && FourInARow(g, p, y, x, dy, dx);
      FourFound(g, p, y, x, dy, dx);
    }
    if exists y, x :: InBounds(y, x) && WinFrom(g, p, y, x) {
      var y, x :| InBounds(y, x) && WinFrom(g, p, y, x);
      WinFromFound(g, p, y, x);
    }
  }

  lemma FourFound(g: Grid, p: Player, y: int, x: int, dy: int, dx: int)
    requires WellFormed(g) && IsDirection(dy, dx) && FourInARow(g, p, y, x, dy, dx)
    ensures InBounds(y, x) && WinFrom(g, p, y, x)
  {
    assert Holds(g, p, Offset(y, dy, 0), Offset(x, dx, 0));
    RayIsFour(g, p, y, x, dy, dx);
  }

  lemma WinFromFound(g: Grid, p: Player, y: int, x: int)
    requires WellFormed(g) && WinFrom(g, p, y, x)
    ensures HasFour(g, p)
  {
    RayIsFour(g, p, y, x, 0, 1);
    RayIsFour(g, p, y, x, 1, 0);
    RayIsFour(g, p, y, x, 1, 1);
    RayIsFour(g, p, y, x, 1, -1);
  }

  /** Four in a row needs four distinct columns (horizontally) or four
      distinct rows (otherwise), so pieces kept inside a 3 x 3 block never
      make one. */
  lemma NoFourInSmallBlock(g: Grid, p: Player, top: int, left: int)
    requires WellFormed(g)
    requires forall y, x :: Holds(g, p, y, x) ==> top <= y < top + 3 && left <= x < left + 3
    ensures !HasFour(g, p)
  {
    forall y, x, dy, dx | IsDirection(dy, dx)
      ensures !FourInARow(g, p, y, x, dy, dx)
    {
      if Holds(g, p, Offset(y, dy, 0), Offset(x, dx, 0)) {
        assert !Holds(g, p, Offset(y, dy, 3), Offset(x, dx, 3));
      }
    }
  }

  /** checkForWin: for every origin cell, row by row, test the horizontal,
      vertical and two diagonal rays; true as soon as one holds, and false
      (the source's `undefined`) when none does. */
  method CheckForWin(g: Grid, p: Player) returns (won: bool)
    requires WellFormed(g)
    ensures won == HasFour(g, p)
  {
    HasFourIff(g, p);
    var y := 0;
    while y < HEIGHT
      invariant 0 <= y <= HEIGHT
      invariant forall y', x' :: 0 <= y' < y && 0 <= x' < WIDTH ==> !WinFrom(g, p, y', x')
    {
      var x := 0;
      while x < WIDTH
        invariant 0 <= x <= WIDTH
        invariant forall y', x' :: 0 <= y' < y && 0 <= x' < WIDTH ==> !WinFrom(g, p, y', x')
        invariant forall x' :: 0 <= x' < x ==> !WinFrom(g, p, y, x')
      {
        var horiz := Ray(y, x, 0, 1);
        var vert := Ray(y, x, 1, 0);
        var diagDownRight := Ray(y, x, 1, 1);
        var diagDownLeft := Ray(y, x, 1, -1);
        if AllHold(g, p, horiz) || AllHold(g, p, vert) || AllHold(g, p, diagDownRight) || AllHold(g, p, diagDownLeft) {
          assert InBounds(y, x) && WinFrom(g, p, y, x);
          return true;
        }
        x := x + 1;
      }
      y := y + 1;
    }
    return false;
  }
}
