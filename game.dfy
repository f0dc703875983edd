/** The game object: the board is a list of rows that `MakeBoard` fills and each
    click writes one cell of, and the player to move is a field. Each method is
    specified through the pure rules in module Rules. */
module Connect4 {
  import opened Rules

  class Game {
    const HEIGHT: nat
    const WIDTH: nat
    var currPlayer: int
    var board: Grid

    /** The object invariant: the board has the game's dimensions, pieces obey gravity,
        every cell is empty or a player's, and the player to move is 1 or 2. */
    ghost predicate Valid()
      reads this
    {
      WellFormed(board, HEIGHT, WIDTH) && Gravity(board, HEIGHT, WIDTH) && PiecesValid(board) &&
      (currPlayer == 1 || currPlayer == 2)
    }

    /** A new game: an empty HEIGHT x WIDTH board (6 x 7 unless given) with player 1 to move. */
    constructor (height: nat := 6, width: nat := 7)
      ensures Valid()
      ensures HEIGHT == height && WIDTH == width
      ensures currPlayer == 1
      ensures board == EmptyGrid(height, width)
    {
      HEIGHT, WIDTH := height, width;
      currPlayer := 1;
      board := [];
      new;
      MakeBoard();
      EmptyGridHasGravity(height, width);
    }

    /** Pushes HEIGHT rows of WIDTH empty cells onto the board. It is meant to run once,
        from the constructor on an empty board: called again on a running game it appends
        further rows, after which the board no longer has HEIGHT rows and Valid() fails. */
    method MakeBoard()
      modifies this`board
      ensures board == old(board) + EmptyGrid(HEIGHT, WIDTH)
    {
      for y := 0 to HEIGHT
        invariant board == old(board) + EmptyGrid(y, WIDTH)
      {
        board := board + [seq(WIDTH, _ => EMPTY)];
        assert EmptyGrid(y + 1, WIDTH) == EmptyGrid(y, WIDTH) + [seq(WIDTH, _ => EMPTY)];
      }
    }

    /** The row a piece dropped into column x lands in: the bottom-most empty row,
        found by scanning upwards from the bottom; None when the column is full. */
    method FindSpotForCol(x: int) returns (spot: Option<nat>)
      requires Valid() && 0 <= x < WIDTH
      ensures spot == DropRow(board, HEIGHT, WIDTH, x)
    {
      var y: int := HEIGHT - 1;
      while y >= 0
        invariant -1 <= y < HEIGHT
        invariant DropRowFrom(board, HEIGHT, WIDTH, x, y) == DropRow(board, HEIGHT, WIDTH, x)
      {
        if board[y][x] == EMPTY {
          return Some(y);
        }
        y := y - 1;
      }
      return None;
    }

    /** Scans every cell of the board, row by row, for the start of a winning line
        of the player to move. */
    method CheckForWin() returns (won: bool)
      requires Valid()
      ensures won == HasWin(board, HEIGHT, WIDTH, currPlayer)
    {
      for y := 0 to HEIGHT
        invariant forall r, c :: 0 <= r < y && 0 <= c < WIDTH ==> !WinsFrom(board, HEIGHT, WIDTH, r, c, currPlayer)
      {
        for x := 0 to WIDTH
          invariant forall r, c :: 0 <= r < y && 0 <= c < WIDTH ==> !WinsFrom(board, HEIGHT, WIDTH, r, c, currPlayer)
          invariant forall c :: 0 <= c < x ==> !WinsFrom(board, HEIGHT, WIDTH, y, c, currPlayer)
        {
          if WinsFrom(board, HEIGHT, WIDTH, y, x, currPlayer) {
            return true;
          }
        }
      }
      return false;
    }

    /** A click on column x: drop the current player's piece, then report a win,
        else report a tie, else pass the turn to the other player. A full column
        ignores the click. */
    method HandleClick(x: int) returns (outcome: Outcome)
      requires Valid() && 0 <= x < WIDTH
      modifies this
      ensures Valid()
      ensures Turn(board, currPlayer, outcome) == Click(old(board), HEIGHT, WIDTH, old(currPlayer), x)
    {
      var spot := FindSpotForCol(x);
      if spot.None? {
        return Ignored;
      }
      var y := spot.value;
      PlacePreservesGravity(board, HEIGHT, WIDTH, x, y, currPlayer);
      PlacePreservesPieces(board, y, x, currPlayer);
      board := Place(board, y, x, currPlayer);

      var won := CheckForWin();
      if won {
        return Won(currPlayer);
      }

      if Full(board) {
        return Tied;
      }

      currPlayer := Other(currPlayer);
      outcome := Continued;
    }
  }
}
