/** The game engine: the board and the player to move, updated in place by
    one move at a time. */
module Engine {
  import opened Board

  /** What one click on a column top does. Win and Tie still carry the cell
      the piece went into, since the piece is placed before the game ends. */
  datatype MoveResult =
    | ColumnFull
    | Placed(y: int, x: int)
    | Win(y: int, x: int, winner: Player)
    | Tie(y: int, x: int)

  class Game {
    var board: Grid
    var currPlayer: Player

    /** Loading the game: `currPlayer` starts at 1 and `board` at the empty
        list, and makeBoard then fills in the rows. */
    constructor ()
      ensures WellFormed(board) && IsEmptyBoard(board) && currPlayer == 1
    {
      currPlayer := 1;
      board := [];
      new;
      MakeBoard();
    }

    /** makeBoard: push HEIGHT rows of WIDTH empty cells onto the board. */
    method MakeBoard()
      modifies this`board
      ensures |board| == |old(board)| + HEIGHT && board[..|old(board)|] == old(board)
      ensures forall y :: |old(board)| <= y < |board| ==> board[y] == EmptyRow()
      ensures old(board) == [] ==> WellFormed(board) && IsEmptyBoard(board)
    {
      var y := 0;
      while y < HEIGHT
        invariant 0 <= y <= HEIGHT
        invariant |board| == |old(board)| + y && board[..|old(board)|] == old(board)
        invariant forall y' :: |old(board)| <= y' < |board| ==> board[y'] == EmptyRow()
      {
        board := board + [EmptyRow()];
        y := y + 1;
      }
    }

    /** The board and turn logic of handleClick for column x: find the
        landing row (a full column leaves everything as it was), write the
        current player there, then report a win, else a tie (a full board),
        else pass the turn to the other player. */
    method Drop(x: int) returns (r: MoveResult)
      requires WellFormed(board) && 0 <= x < WIDTH
      modifies this
      ensures WellFormed(board)
      ensures r == ColumnFull <==> ColumnIsFull(old(board), x)
      ensures old(LandingRow(board, x)).None? ==>
        r == ColumnFull && board == old(board) && currPlayer == old(currPlayer)
      ensures old(LandingRow(board, x)).Some? ==>
        var y, p := old(LandingRow(board, x)).value, old(currPlayer);
        && IsLandingRow(old(board), x, y)
        && board == Place(old(board), y, x, p)
        && (HasFour(board, p) ==> r == Win(y, x, p) && currPlayer == p)
        && (!HasFour(board, p) && IsFull(board) ==> r == Tie(y, x) && currPlayer == p)
        && (!HasFour(board, p) && !IsFull(board) ==> r == Placed(y, x) && currPlayer == Other(p))
      ensures Settled(old(board)) ==> Settled(board)
    {
      var spot := FindSpotForCol(board, x);
      if spot.None? {
        return ColumnFull;
      }
      var y := spot.value;
      if Settled(board) {
        SettledPreserved(board, x, currPlayer);
      }
      board := Place(board, y, x, currPlayer);
      var won := CheckForWin(board, currPlayer);
      if won {
        return Win(y, x, currPlayer);
      }
      if IsFull(board) {
        return Tie(y, x);
      }
      currPlayer := Other(currPlayer);
      return Placed(y, x);
    }
  }

  /** Dropping into one column of a new game: the first HEIGHT drops all land,
      filling the column from the bottom up, and the next one is refused with
      the board left as it was. */
  method FillOneColumn(x: int) returns (results: seq<MoveResult>, full: Grid, after: Grid)
    requires 0 <= x < WIDTH
    ensures |results| == HEIGHT + 1
    ensures forall i :: 0 <= i < HEIGHT ==> results[i] != ColumnFull && results[i].y == HEIGHT - 1 - i && results[i].x == x
    ensures results[HEIGHT] == ColumnFull
    ensures WellFormed(full) && ColumnIsFull(full, x) && after == full
  {
    var game := new Game();
    EmptyBoardFacts(game.board);
    results := [];
    var n := 0;
    while n < HEIGHT
      invariant 0 <= n <= HEIGHT
      invariant WellFormed(game.board) && Settled(game.board)
      invariant ColumnPieces(game.board, x) == n
      invariant |results| == n
      invariant forall i :: 0 <= i < n ==> results[i] != ColumnFull && results[i].y == HEIGHT - 1 - i && results[i].x == x
      modifies game
    {
      LandingRowByCount(game.board, x);
      DropAddsOnePiece(game.board, x, game.currPlayer);
      var r := game.Drop(x);
      results := results + [r];
      n := n + 1;
    }
    LandingRowByCount(game.board, x);
    LandingRowSpec(game.board, x);
    full := game.board;
    var r := game.Drop(x);
    results := results + [r];
    after := game.board;
  }

  /** The boards of the game below: player 1 holds the first `ones` cells of
      the bottom row, player 2 the first `twos` cells of the row above it, and
      every other cell is empty. */
  ghost predicate TwoRowBoard(g: Grid, ones: int, twos: int)
  {
    WellFormed(g) &&
    forall y, x :: InBounds(y, x) ==>
      g[y][x] == if y == HEIGHT - 1 && x < ones then Piece(1)
                 else if y == HEIGHT - 2 && x < twos then Piece(2)
                 else Empty
  }

  /** While neither player has four pieces, neither has four in a row and
      the top row is still empty. */
  lemma TwoRowBoardOpen(g: Grid, ones: int, twos: int)
    requires TwoRowBoard(g, ones, twos) && ones <= 3 && twos <= 3
    ensures !HasFour(g, 1) && !HasFour(g, 2) && !IsFull(g)
  {
    assert g[0][0] == Empty;
    NoFourInSmallBlock(g, 1, HEIGHT - 3, 0);
    NoFourInSmallBlock(g, 2, HEIGHT - 3, 0);
  }

  /** Player 1 dropping into column `n` lands on the bottom row. */
  lemma TwoRowBoardDropOne(g: Grid, n: int)
    requires TwoRowBoard(g, n, n) && 0 <= n < WIDTH
    ensures LandingRow(g, n) == Some(HEIGHT - 1)
    ensures TwoRowBoard(Place(g, HEIGHT - 1, n, 1), n + 1, n)
  {
  }

  /** Player 2 dropping into column `n` lands on top of player 1's piece. */
  lemma TwoRowBoardDropTwo(g: Grid, n: int)
    requires TwoRowBoard(g, n + 1, n) && 0 <= n < WIDTH
    ensures LandingRow(g, n) == Some(HEIGHT - 2)
    ensures TwoRowBoard(Place(g, HEIGHT - 2, n, 2), n + 1, n + 1)
  {
    assert g[HEIGHT - 1][n] == Piece(1) && g[HEIGHT - 2][n] == Empty;
    assert LandingFrom(g, n, HEIGHT - 2) == Some(HEIGHT - 2);
  }

  /** Players 1 and 2 in turn drop into column `n` of a two-row board: both
      pieces land, neither wins, and the turn comes back to player 1. */
  method PlayColumnPair(game: Game, n: int) returns (first: MoveResult, second: MoveResult)
    requires 0 <= n < 3 && TwoRowBoard(game.board, n, n) && game.currPlayer == 1
    modifies game
    ensures TwoRowBoard(game.board, n + 1, n + 1) && game.currPlayer == 1
    ensures first == Placed(HEIGHT - 1, n) && second == Placed(HEIGHT - 2, n)
  {
    TwoRowBoardDropOne(game.board, n);
    TwoRowBoardOpen(Place(game.board, HEIGHT - 1, n, 1), n + 1, n);
    first := game.Drop(n);
    TwoRowBoardDropTwo(game.board, n);
    TwoRowBoardOpen(Place(game.board, HEIGHT - 2, n, 2), n + 1, n + 1);
    second := game.Drop(n);
  }

  /** A new game played in columns 0, 0, 1, 1, 2, 2, 3: the first six moves
      alternate between players 1 and 2, and the seventh completes player 1's
      bottom row from column 0 to column 3, which is a win and not a tie. */
  method BottomRowWin() returns (results: seq<MoveResult>)
    ensures results == [Placed(5, 0), Placed(4, 0), Placed(5, 1), Placed(4, 1), Placed(5, 2), Placed(4, 2), Win(5, 3, 1)]
  {
    var game := new Game();
    results := [];
    var n := 0;
    while n < 3
      invariant 0 <= n <= 3
      invariant TwoRowBoard(game.board, n, n) && game.currPlayer == 1
      invariant |results| == 2 * n
      invariant forall i :: 0 <= i < n ==> results[2 * i] == Placed(5, i) && results[2 * i + 1] == Placed(4, i)
      modifies game
    {
      var first, second := PlayColumnPair(game, n);
      results := results + [first, second];
      n := n + 1;
    }
    TwoRowBoardDropOne(game.board, 3);
    var last := game.Drop(3);
    assert FourInARow(game.board, 1, 5, 0, 0, 1) by {
      assert forall k :: 0 <= k < 4 ==> Offset(5, 0, k) == 5 && Offset(0, 1, k) == k;
    }
    results := results + [last];
  }
}
