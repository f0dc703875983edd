# Connect Four rules engine in Dafny

This project models the rules engine of a browser Connect Four game (`connect4.js`, class `Game`).
Two players take turns dropping pieces into the columns of a `HEIGHT × WIDTH` board (6 × 7 by default).
A piece falls to the lowest empty cell of its column. A player who lines up four pieces horizontally,
vertically or on either diagonal wins. A full board with no such line is a tie.

Two modules:

- `Rules` (rules.dfy) holds pure definitions over a grid value (`seq<seq<int>>`, row 0 at the top,
  `EMPTY = 0` for a free cell, `1` and `2` for the players' pieces). It covers the drop search, the
  four-cell line test, the whole-board win scan, the tie test, and one click as a function `Click`.
  The lemmas state the game's properties about these definitions. Among them are an independent
  definition of "four in a row" that the scan is proved equal to, gravity, win-before-tie-before-switch
  and strict alternation.
- `Connect4` (game.dfy) holds the class `Game` with the source's state: the constant dimensions
  `HEIGHT` and `WIDTH`, the field `currPlayer`, and the field `board`, a list of rows.
  `MakeBoard` pushes rows onto `board`, and a click writes one cell of it. `Valid()` is the object
  invariant: dimensions, gravity, cell values, and a player to move in {1, 2}. `MakeBoard`,
  `FindSpotForCol` and `CheckForWin` are methods with the source's loops. `HandleClick` has no loop:
  it updates the board and the player to move. Each method is proved against the `Rules` definitions.

The game's own message after a click (a win for a player, or a tie) is returned by `HandleClick` as an
`Outcome` (`Ignored`, `Won(p)`, `Tied`, `Continued`). The source shows these messages with an alert.

The source has scoping slips, and the model follows its evident intent:

- `makeBoard` pushes rows onto a free name `board` instead of `this.board`.
- `handleClick` uses the free names `board`, `currPlayer` and `findSpotForCol`.
- The inner helper `_win` is a plain function, so `this.HEIGHT` and `this.WIDTH` are unbound inside it.

In the model, every one of these reads and writes the game object's own fields.

## Model

| member | source | states |
|---|---|---|
| `Connect4.Game.constructor` | connect4.js:9-19 | a new game has a `HEIGHT × WIDTH` board (6 × 7 by default) of empty cells, player 1 to move, and satisfies the object invariant |
| `Connect4.Game.MakeBoard` | connect4.js:21-25 | appends exactly `HEIGHT` rows of `WIDTH` empty cells to the board, one row per iteration |
| `Rules.EmptyGrid` | connect4.js:21-25 | the starting grid has `h` rows of `w` cells, all empty |
| `Rules.DropRowFrom` | connect4.js:56-61 | scanning rows `y, y-1, …, 0` of column `x` gives `None` iff all of them are occupied, and otherwise the first empty row met, with every row between it and `y` occupied |
| `Rules.DropRow` | connect4.js:55-62 | the drop row of column `x` is `None` iff the column has no empty cell, and otherwise an empty row with every row below it occupied |
| `Rules.Place` | connect4.js:84 | writing `p` into cell `(y, x)` keeps the grid's shape, puts `p` in that cell and leaves every other cell unchanged |
| `Rules.Line` | connect4.js:120-143 | the check list from `(y, x)` in direction `d` has four cells, the k-th of them `(y+k·dy, x+k·dx)` (`Step`), for the directions horiz (0,1), vert (1,0), diagDR (1,1) and diagDL (1,-1) |
| `Rules.Win` | connect4.js:101-114 | definition: a list of cells wins for `p` when every cell is on the board (`0 <= y < HEIGHT`, `0 <= x < WIDTH`) and holds `p`; `WinLineIffFourAlong` relates it to the reference definition |
| `Rules.WinsFrom` | connect4.js:120-148 | definition: a win for `p` starts at `(y, x)` when the horiz, vert, diagDR or diagDL check list wins, tried in that order; `WinsFromIffFourAlong` relates it to the reference definition |
| `Rules.HasWin` | connect4.js:116-150 | definition: what the nested scan decides, namely that some on-board start cell `(y, x)` has `WinsFrom`; `HasWinIffFourInARow` and `CheckForWin` are stated against it |
| `Rules.Full` | connect4.js:93 | definition of the tie test: every cell of every row is non-`EMPTY`; `FullIffNoDropRow` shows it holds iff no column accepts a piece |
| `Rules.Settle` | connect4.js:87-98 | definition: after a placement by `p`, a win for `p` gives `Won(p)` with `p` still to move, else a full board gives `Tied`, else the turn passes to `Other(p)` with `Continued`; `ClickOrder` states the consequences |
| `Rules.Click` | connect4.js:80-98 | definition: a click on column `x` is `Ignored` (board and player unchanged) when the drop search finds no row, and otherwise `Settle` of the board with `p` placed at the drop row; `HandleClick` is proved equal to it |
| `Rules.LowestEmptyIsLargest` | connect4.js:56-59 | the row the drop search returns is the largest empty row index of the column |
| `Connect4.Game.FindSpotForCol` | connect4.js:55-62 | the bottom-up loop returns exactly the drop row of column `x`, and it changes nothing |
| `Rules.PlacePreservesGravity` | connect4.js:80-84 | writing a piece into the lowest empty cell of a column keeps every column free of gaps below occupied cells |
| `Rules.WinLineIffFourAlong` | connect4.js:101-114 | the four-cell test succeeds on the listed line from `(y, x)` in direction `d` iff all cells `(y+k·dy, x+k·dx)`, k = 0..3, are on the board and hold the player |
| `Rules.WinsFromIffFourAlong` | connect4.js:120-148 | a win starts at `(y, x)` iff one of the four directions (0,1), (1,0), (1,1), (1,-1) gives four in-bounds cells holding the player |
| `Rules.HasWinIffFourInARow` | connect4.js:100-151 | the whole-board scan finds a win iff four in a row exists from some start cell in some direction, counting only on-board cells |
| `Connect4.Game.CheckForWin` | connect4.js:100-151 | the nested row/column scan with early return reports exactly whether the board holds a win for the player to move |
| `Rules.EmptyGridHasNoWin` | connect4.js:106-113 | on an empty board no player has a winning line |
| `Rules.Other` | connect4.js:98 | the next player is always 1 or 2, and differs from the mover when the mover is 1 or 2 |
| `Rules.FullIffNoDropRow` | connect4.js:93 | the tie test holds iff no column has a drop row, so a full board accepts no move |
| `Rules.EmptyGridHasGravity` | connect4.js:21-25 | a fresh board satisfies gravity |
| `Connect4.Game.HandleClick` | connect4.js:75-99 | a click changes the board and the player to move exactly as `Click` prescribes, and keeps the object invariant (dimensions, gravity, cell values, player in {1, 2}) |
| `Rules.ClickOnFullColumn` | connect4.js:80-83 | a click is ignored iff its column is full, and an ignored click changes neither the board nor the player |
| `Rules.ClickDropsIntoLowestEmpty` | connect4.js:80-84 | an accepted click writes the mover into the lowest empty cell of the column and leaves every other cell unchanged |
| `Rules.ClickOrder` | connect4.js:87-98 | an accepted click is a win iff the new board holds a win for the mover. It is a tie iff there is no win and the board is full, and a plain move otherwise. Only a plain move passes the turn, so a winning move that fills the board is still a win |
| `Rules.ClickAlternates` | connect4.js:97-98 | the player to move stays 1 or 2, and it changes iff the click was a plain move |
| `Rules.PlacePreservesPieces` | connect4.js:84 | writing a player's piece keeps every cell empty or holding player 1 or 2 |
| `Rules.ClickPreservesInvariants` | connect4.js:80-98 | every click keeps the board's shape, its gravity and its cell values |
| `Rules.WinThroughPlacedCell` | connect4.js:84-90 | when the board before a winning click held no win for the mover, the winning line passes through the cell just filled |

## Left out

- `makeHtmlBoard`, `placeInTable`, `endGame` and `start` (connect4.js:26-54, 63-74, 159-165) build the page and show alerts. They have no rule logic. `endGame`'s message is returned by `HandleClick` as an `Outcome` instead.
- Reading the column from the clicked element's id (connect4.js:77) is event plumbing. `HandleClick` takes the column as an integer.
- The column is never range-checked in the source. `HandleClick` and `FindSpotForCol` therefore require `0 <= x < WIDTH`.
- The constructor arguments `p1`/`p2` and the `startGame` flag (connect4.js:9, 12-13, 18, 163) have no effect on the rules.
- The source keeps accepting clicks after a win or a tie, because `endGame` only shows a message. The model does the same: it has no "game over" state, and `HandleClick` needs only `Valid()`. A frozen game-over state and a "game already over" error are therefore not part of this model.
- The source does not validate the board dimensions. The model accepts any natural numbers, so there is no minimum size of four and no "invalid configuration" error.
- Empty cells hold `undefined` in the source and `EMPTY = 0` here. The tie test's truthiness check on a cell becomes `!= EMPTY`.
- `checkForWin` returns `undefined` when it finds no win. `CheckForWin` returns `false`.
- The board is a sequence value that a click replaces with a copy differing in one cell. The source writes that cell in place in a row array. No other reference to the rows exists, so no aliasing effect is lost.
