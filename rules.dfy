/** The rules of Connect Four as pure definitions over a grid value.

    A grid is a sequence of rows, row 0 at the top; a cell holds EMPTY or the
    number (1 or 2) of the player whose piece is there. The class in game.dfy
    keeps its board in this form and is specified through these definitions.
 */
module Rules {

  /** An empty cell; the game's fresh rows hold `undefined`, which this stands for. */
  const EMPTY := 0

  type Grid = seq<seq<int>>

  datatype Option<T> = None | Some(value: T)

  /** What one click does: ignored (full column), a win for the mover, a tie,
      or an ordinary move after which the turn passes. */
  datatype Outcome = Ignored | Won(player: int) | Tied | Continued

  /** The board, the player to move and the outcome after one click. */
  datatype Turn = Turn(grid: Grid, player: int, outcome: Outcome)

  /** A direction (row step, column step) along which four cells are checked. */
  datatype Dir = Dir(dy: int, dx: int)

  const Horiz := Dir(0, 1)
  const Vert := Dir(1, 0)
  const DiagDR := Dir(1, 1)
  const DiagDL := Dir(1, -1)
  const Directions: seq<Dir> := [Horiz, Vert, DiagDR, DiagDL]

  /** g has exactly h rows of w cells. */
  predicate WellFormed(g: Grid, h: nat, w: nat) {
    |g| == h && forall y :: 0 <= y < h ==> |g[y]| == w
  }

  /** Every cell is EMPTY or holds one of the two players. */
  predicate PiecesValid(g: Grid) {
    forall y, x :: 0 <= y < |g| && 0 <= x < |g[y]| ==> g[y][x] in {EMPTY, 1, 2}
  }

  /** The grid a new game starts from. */
  function EmptyGrid(h: nat, w: nat): (g: Grid)
    ensures WellFormed(g, h, w) && PiecesValid(g)
    ensures forall y, x :: 0 <= y < h && 0 <= x < w ==> g[y][x] == EMPTY
  {
    seq(h, _ => seq(w, _ => EMPTY))
  }

  /** The grid with p written into cell (y, x): same shape, (y, x) holds p, every other cell unchanged. */
  function Place(g: Grid, y: int, x: int, p: int): (r: Grid)
    requires 0 <= y < |g| && 0 <= x < |g[y]|
    ensures |r| == |g| && forall i :: 0 <= i < |g| ==> |r[i]| == |g[i]|
    ensures r[y][x] == p
    ensures forall i, j :: 0 <= i < |g| && 0 <= j < |g[i]| && (i, j) != (y, x) ==> r[i][j] == g[i][j]
  {
    g[y := g[y][x := p]]
  }

  /** The player who moves next when p has moved and the game goes on. */
  function Other(p: int): (q: int)
    ensures q == 1 || q == 2
    ensures (p == 1 || p == 2) ==> q != p
  {
    if p == 1 then 2 else 1
  }

  // ---------------------------------------------------------------------------
  // Gravity and the drop search

  /** No cell of column x holds EMPTY. */
  ghost predicate ColumnFull(g: Grid, h: nat, w: nat, x: int)
    requires WellFormed(g, h, w) && 0 <= x < w
  {
    forall y :: 0 <= y < h ==> g[y][x] != EMPTY
  }

  /** Row y is the lowest empty cell of column x: it is empty and every row below it is occupied. */
  ghost predicate IsLowestEmpty(g: Grid, h: nat, w: nat, x: int, y: int)
    requires WellFormed(g, h, w) && 0 <= x < w
  {
    0 <= y < h && g[y][x] == EMPTY && forall r :: y < r < h ==> g[r][x] != EMPTY
  }

  /** No piece floats: in every column, an occupied cell has only occupied cells below it. */
  ghost predicate Gravity(g: Grid, h: nat, w: nat)
    requires WellFormed(g, h, w)
  {
    forall y1, y2, x :: 0 <= y1 < y2 < h && 0 <= x < w && g[y1][x] != EMPTY ==> g[y2][x] != EMPTY
  }

  /** The drop search of column x, looking at rows y, y - 1, ..., 0 in turn. */
  function DropRowFrom(g: Grid, h: nat, w: nat, x: int, y: int): (r: Option<nat>)
    requires WellFormed(g, h, w) && 0 <= x < w && -1 <= y < h
    ensures r.None? <==> forall row :: 0 <= row <= y ==> g[row][x] != EMPTY
    ensures r.Some? ==> r.value <= y && g[r.value][x] == EMPTY
    ensures r.Some? ==> forall row :: r.value < row <= y ==> g[row][x] != EMPTY
    decreases y + 1
  {
    if y < 0 then None
    else if g[y][x] == EMPTY then Some(y)
    else DropRowFrom(g, h, w, x, y - 1)
  }

  /** The row a piece dropped into column x comes to rest in, or None when the column is full. */
  function DropRow(g: Grid, h: nat, w: nat, x: int): (r: Option<nat>)
    requires WellFormed(g, h, w) && 0 <= x < w
    ensures r.None? <==> ColumnFull(g, h, w, x)
    ensures r.Some? ==> IsLowestEmpty(g, h, w, x, r.value)
  {
    DropRowFrom(g, h, w, x, h - 1)
  }

  /** The lowest empty row is the largest empty row index of the column. */
  lemma LowestEmptyIsLargest(g: Grid, h: nat, w: nat, x: int, y: int, r: int)
    requires WellFormed(g, h, w) && 0 <= x < w
    requires IsLowestEmpty(g, h, w, x, y)
    requires 0 <= r < h && g[r][x] == EMPTY
    ensures r <= y
  {
  }

  /** A fresh board has no pieces, so none of them floats. */
  lemma EmptyGridHasGravity(h: nat, w: nat)
    ensures Gravity(EmptyGrid(h, w), h, w)
  {
  }

  /** Dropping a piece at the lowest empty row of a column keeps gravity. */
  lemma PlacePreservesGravity(g: Grid, h: nat, w: nat, x: int, y: int, p: int)
    requires WellFormed(g, h, w) && 0 <= x < w
    requires Gravity(g, h, w) && IsLowestEmpty(g, h, w, x, y)
    ensures WellFormed(Place(g, y, x, p), h, w)
    ensures Gravity(Place(g, y, x, p), h, w)
  {
  }

  // ---------------------------------------------------------------------------
  // Win detection

  /** The per-cell test of a winning line: (c.0, c.1) is on the board and holds p. */
  predicate Owns(g: Grid, h: nat, w: nat, c: (int, int), p: int)
    requires WellFormed(g, h, w)
  {
    0 <= c.0 < h && 0 <= c.1 < w && g[c.0][c.1] == p
  }

  /** The four cells that start at (y, x) and go in direction d, as the win scan lists them:
      the k-th of them is k steps along d. */
  function Line(y: int, x: int, d: Dir): (cells: seq<(int, int)>)
    ensures |cells| == 4
    ensures forall k :: 0 <= k < 4 ==> cells[k] == Step(y, x, d, k)
  {
    [(y, x), (y + d.dy, x + d.dx), (y + 2 * d.dy, x + 2 * d.dx), (y + 3 * d.dy, x + 3 * d.dx)]
  }

  /** A list of cells wins for p when every one of them is on the board and holds p. */
  predicate Win(g: Grid, h: nat, w: nat, cells: seq<(int, int)>, p: int)
    requires WellFormed(g, h, w)
  {
    forall i :: 0 <= i < |cells| ==> Owns(g, h, w, cells[i], p)
  }

  /** The body of the scan: does a win for p start at (y, x), trying the four lines in order? */
  predicate WinsFrom(g: Grid, h: nat, w: nat, y: int, x: int, p: int)
    requires WellFormed(g, h, w)
  {
    Win(g, h, w, Line(y, x, Horiz), p) || Win(g, h, w, Line(y, x, Vert), p)
    || Win(g, h, w, Line(y, x, DiagDR), p) || Win(g, h, w, Line(y, x, DiagDL), p)
  }

  /** The whole-grid scan: some cell of the board starts a winning line for p. */
  ghost predicate HasWin(g: Grid, h: nat, w: nat, p: int)
    requires WellFormed(g, h, w)
  {
    exists y, x :: 0 <= y < h && 0 <= x < w && WinsFrom(g, h, w, y, x, p)
  }

  /** The k-th cell along direction d from (y, x). */
  function Step(y: int, x: int, d: Dir, k: int): (int, int) {
    (y + k * d.dy, x + k * d.dx)
  }

  /** Reference definition: the cells (y + k*dy, x + k*dx), k = 0..3, are all on the board and all p. */
  ghost predicate FourAlong(g: Grid, h: nat, w: nat, y: int, x: int, d: Dir, p: int)
    requires WellFormed(g, h, w)
  {
    forall k :: 0 <= k < 4 ==> Owns(g, h, w, Step(y, x, d, k), p)
  }

  /** Reference definition of four in a row for p, from any start and in any of the four directions. */
  ghost predicate FourInARow(g: Grid, h: nat, w: nat, p: int)
    requires WellFormed(g, h, w)
  {
    exists y: int, x: int, d: Dir :: d in Directions && FourAlong(g, h, w, y, x, d, p)
  }

  /** Checking the line from (y, x) in direction d is the same as the reference test of that line. */
  lemma WinLineIffFourAlong(g: Grid, h: nat, w: nat, y: int, x: int, d: Dir, p: int)
    requires WellFormed(g, h, w)
    ensures Win(g, h, w, Line(y, x, d), p) <==> FourAlong(g, h, w, y, x, d, p)
  {
  }

  /** A win starts at (y, x) exactly when, in some direction, the four cells from (y, x) are on the board and all p. */
  lemma {:induction false} WinsFromIffFourAlong(g: Grid, h: nat, w: nat, y: int, x: int, p: int)
    requires WellFormed(g, h, w)
    ensures WinsFrom(g, h, w, y, x, p) <==> exists d :: d in Directions && FourAlong(g, h, w, y, x, d, p)
  {
    WinLineIffFourAlong(g, h, w, y, x, Horiz, p);
    WinLineIffFourAlong(g, h, w, y, x, Vert, p);
    WinLineIffFourAlong(g, h, w, y, x, DiagDR, p);
    WinLineIffFourAlong(g, h, w, y, x, DiagDL, p);
    if exists d :: d in Directions && FourAlong(g, h, w, y, x, d, p) {
      var d :| d in Directions && FourAlong(g, h, w, y, x, d, p);
      assert d == Horiz || d == Vert || d == DiagDR || d == DiagDL;
    }
  }

  /** The scan finds a win exactly when four in a row exists: the scan misses no start cell and
      never counts a cell off the board. */
  lemma {:induction false} HasWinIffFourInARow(g: Grid, h: nat, w: nat, p: int)
    requires WellFormed(g, h, w)
    ensures HasWin(g, h, w, p) <==> FourInARow(g, h, w, p)
  {
    if HasWin(g, h, w, p) {
      var y, x :| 0 <= y < h && 0 <= x < w && WinsFrom(g, h, w, y, x, p);
      WinsFromIffFourAlong(g, h, w, y, x, p);
      var d :| d in Directions && FourAlong(g, h, w, y, x, d, p);
      assert FourAlong(g, h, w, y, x, d, p);
    }
    if FourInARow(g, h, w, p) {
      var y, x, d :| d in Directions && FourAlong(g, h, w, y, x, d, p);
      assert Owns(g, h, w, Step(y, x, d, 0), p);
      WinsFromIffFourAlong(g, h, w, y, x, p);
      assert 0 <= y < h && 0 <= x < w && WinsFrom(g, h, w, y, x, p);
    }
  }

  /** A grid with no pieces holds no four in a row for a player. */
  lemma {:induction false} EmptyGridHasNoWin(h: nat, w: nat, p: int)
    requires p != EMPTY
    ensures !HasWin(EmptyGrid(h, w), h, w, p)
  {
    var g := EmptyGrid(h, w);
    forall y, x | 0 <= y < h && 0 <= x < w ensures !WinsFrom(g, h, w, y, x, p) {
      assert !Owns(g, h, w, (y, x), p);
      assert Line(y, x, Horiz)[0] == Line(y, x, Vert)[0] == (y, x);
      assert Line(y, x, DiagDR)[0] == Line(y, x, DiagDL)[0] == (y, x);
    }
  }

  // ---------------------------------------------------------------------------
  // The tie test

  /** The tie test: every cell of every row is occupied. */
  predicate Full(g: Grid) {
    forall y, x :: 0 <= y < |g| && 0 <= x < |g[y]| ==> g[y][x] != EMPTY
  }

  /** The board is full exactly when no column accepts a piece. */
  lemma {:induction false} FullIffNoDropRow(g: Grid, h: nat, w: nat)
    requires WellFormed(g, h, w)
    ensures Full(g) <==> forall x :: 0 <= x < w ==> DropRow(g, h, w, x).None?
  {
    if !Full(g) {
      var y, x :| 0 <= y < |g| && 0 <= x < |g[y]| && g[y][x] == EMPTY;
      assert !ColumnFull(g, h, w, x);
      assert DropRow(g, h, w, x).Some?;
    }
    if Full(g) {
      forall x | 0 <= x < w ensures DropRow(g, h, w, x).None? {
        forall y | 0 <= y < h ensures g[y][x] != EMPTY {
          assert 0 <= x < |g[y]|;
        }
        assert ColumnFull(g, h, w, x);
      }
    }
  }

  // ---------------------------------------------------------------------------
  // One click

  /** What follows a placement by p, in the order the click handler tests it: a win for p,
      else a tie on a full board, else the turn passes to the other player. */
  ghost function Settle(g: Grid, h: nat, w: nat, p: int): (t: Turn)
    requires WellFormed(g, h, w)
  {
    if HasWin(g, h, w, p) then Turn(g, p, Won(p))
    else if Full(g) then Turn(g, p, Tied)
    else Turn(g, Other(p), Continued)
  }

  /** One click on column x by player p: drop the piece into the lowest empty row, then settle.
      A click on a full column does nothing. */
  ghost function Click(g: Grid, h: nat, w: nat, p: int, x: int): Turn
    requires WellFormed(g, h, w) && 0 <= x < w
  {
    match DropRow(g, h, w, x)
    case None => Turn(g, p, Ignored)
    case Some(y) => Settle(Place(g, y, x, p), h, w, p)
  }

  /** A click on a full column changes neither the board nor the player to move. */
  lemma ClickOnFullColumn(g: Grid, h: nat, w: nat, p: int, x: int)
    requires WellFormed(g, h, w) && 0 <= x < w
    ensures ColumnFull(g, h, w, x) <==> Click(g, h, w, p, x).outcome == Ignored
    ensures ColumnFull(g, h, w, x) ==> Click(g, h, w, p, x) == Turn(g, p, Ignored)
  {
  }

  /** An accepted click writes p into exactly one cell, the lowest empty cell of column x,
      and leaves every other cell as it was. */
  lemma {:induction false} ClickDropsIntoLowestEmpty(g: Grid, h: nat, w: nat, p: int, x: int)
    requires WellFormed(g, h, w) && 0 <= x < w
    requires !ColumnFull(g, h, w, x)
    ensures var t := Click(g, h, w, p, x);
      WellFormed(t.grid, h, w) &&
      exists y :: IsLowestEmpty(g, h, w, x, y) && t.grid[y][x] == p &&
        forall r, c :: 0 <= r < h && 0 <= c < w && (r, c) != (y, x) ==> t.grid[r][c] == g[r][c]
  {
  }

  /** Win is tested before tie and tie before the turn switch: a winning move wins even when it
      fills the board, a tie needs a full board and no win, and only an ordinary move passes the turn. */
  lemma {:induction false} ClickOrder(g: Grid, h: nat, w: nat, p: int, x: int)
    requires WellFormed(g, h, w) && 0 <= x < w
    requires !ColumnFull(g, h, w, x)
    ensures var t := Click(g, h, w, p, x);
      WellFormed(t.grid, h, w) &&
      (t.outcome == Won(p) <==> HasWin(t.grid, h, w, p)) &&
      (t.outcome == Tied <==> !HasWin(t.grid, h, w, p) && Full(t.grid)) &&
      (t.outcome == Continued <==> !HasWin(t.grid, h, w, p) && !Full(t.grid)) &&
      (t.player == if t.outcome == Continued then Other(p) else p)
  {
  }

  /** The player to move stays 1 or 2, and strictly alternates on every ordinary move. */
  lemma {:induction false} ClickAlternates(g: Grid, h: nat, w: nat, p: int, x: int)
    requires WellFormed(g, h, w) && 0 <= x < w
    requires p == 1 || p == 2
    ensures var t := Click(g, h, w, p, x);
      (t.player == 1 || t.player == 2) && (t.player != p <==> t.outcome == Continued)
  {
  }

  /** A click keeps the board's shape, its gravity and its cell values. */
  lemma {:induction false} ClickPreservesInvariants(g: Grid, h: nat, w: nat, p: int, x: int)
    requires WellFormed(g, h, w) && 0 <= x < w
    requires Gravity(g, h, w) && PiecesValid(g) && (p == 1 || p == 2)
    ensures var t := Click(g, h, w, p, x);
      WellFormed(t.grid, h, w) && Gravity(t.grid, h, w) && PiecesValid(t.grid)
  {
    match DropRow(g, h, w, x)
    case None =>
    case Some(y) =>
      PlacePreservesGravity(g, h, w, x, y, p);
      PlacePreservesPieces(g, y, x, p);
  }

  /** Writing a player's piece into a cell keeps every cell empty or a player's. */
  lemma PlacePreservesPieces(g: Grid, y: int, x: int, p: int)
    requires 0 <= y < |g| && 0 <= x < |g[y]|
    requires PiecesValid(g) && (p == 1 || p == 2)
    ensures PiecesValid(Place(g, y, x, p))
  {
  }

  /** Cell (y, c) is one of the four cells along d from (y0, x0). */
  ghost predicate PassesThrough(y0: int, x0: int, d: Dir, y: int, c: int) {
    exists k :: 0 <= k < 4 && Step(y0, x0, d, k) == (y, c)
  }

  /** A click that wins, where the board before held no win for the mover, completes a line
      through the cell the piece landed in: scanning the whole board finds nothing else. */
  lemma {:induction false} WinThroughPlacedCell(g: Grid, h: nat, w: nat, p: int, x: int)
    requires WellFormed(g, h, w) && 0 <= x < w
    requires !ColumnFull(g, h, w, x) && !HasWin(g, h, w, p)
    requires Click(g, h, w, p, x).outcome == Won(p)
    ensures var y := DropRow(g, h, w, x).value;
      exists y0: int, x0: int, d: Dir :: d in Directions &&
        FourAlong(Click(g, h, w, p, x).grid, h, w, y0, x0, d, p) && PassesThrough(y0, x0, d, y, x)
  {
    var y := DropRow(g, h, w, x).value;
    var g' := Place(g, y, x, p);
    assert Click(g, h, w, p, x).grid == g';
    HasWinIffFourInARow(g, h, w, p);
    HasWinIffFourInARow(g', h, w, p);
    var y0, x0, d :| d in Directions && FourAlong(g', h, w, y0, x0, d, p);
    assert !FourAlong(g, h, w, y0, x0, d, p);
    var k :| 0 <= k < 4 && !Owns(g, h, w, Step(y0, x0, d, k), p);
    assert Owns(g', h, w, Step(y0, x0, d, k), p);
    assert Step(y0, x0, d, k) == (y, x);
    assert PassesThrough(y0, x0, d, y, x);
  }
}
