# Expanding tic-tac-toe, modelled in Dafny

This project models the game logic of a browser tic-tac-toe game whose board
grows. Two players, X and O, take turns placing marks on a `size × size`
board. The board is stored as a flat list of `size*size` squares, and square
`(row, col)` sits at index `row*size + col`.

After every move the game looks for a winning line. There are `2*size+2`
candidate lines: each row, each column, the main diagonal and the
anti-diagonal. The game reports the mark of the first line that is filled
with one mark. The lines are scanned in the order row 0, column 0, row 1,
column 1, …, main diagonal, anti-diagonal.

When a board fills up without a winner and is smaller than 6×6, it grows to
`(size+1) × (size+1)`. The old marks keep their rows and columns in the
top-left corner, and the turn passes to the other player. A full 6×6 board
without a winner shows the notice "Maximum board size reached!". "Start New
Game" returns to an empty 3×3 board with X to move.

Two modules:

- `Grid` (`Grid.dfy`) holds the pure logic that `src/App.js` keeps at its
  top level and in `isBoardFull`:
  - marks and squares;
  - the row/column index mapping;
  - the candidate lines;
  - win detection: the specification function `Winner`, plus the
    loop-based method `CalculateWinner`, which is proved equal to it;
  - a reference definition of a win over rows and columns (`HasLine`);
  - the growth of a board (`Expanded`).
- `App` (`Game.dfy`) holds:
  - the component state as a class `Game`, with the fields `size`,
    `squares`, `xIsNext`, `expanding` and `message`;
  - its handlers `HandlePlay`, `ExpandBoard` and `ResetGame`. `ExpandBoard`
    fills a fresh array with the nested row/column loops;
  - `Click`, a click followed at once by the growth it may make pending. It
    replaces the effect that reacts to the `expanding` flag;
  - the status line `Status`.

The class invariant `Game.Valid` says four things:

- the side stays in 3..6;
- the board has `size*size` squares;
- growth is pending only below 6;
- no complete line belongs to the player who is *not* about to move.

The last part holds because a win never hands the turn over. From it
follows that at most one mark ever fills a line, so the reported winner is
always the player to move or nobody (`Game.WinnerIsPlayerToMove`).

Behaviour of the program that a reader might not expect:

- A won game does not reject further moves. The guard at `src/App.js:57`
  ignores only a click on an occupied square or while growth is pending.
  After a win the turn is not passed (`src/App.js:66-67`), so only the
  winner keeps placing marks, and the game stays won by the same mark (last
  `ensures` of `App.Game.HandlePlay`).
- The code never range-checks the clicked index. The board only produces
  indices `0 .. size*size-1` (`src/App.js:22-30`), so `HandlePlay` requires
  `i < |squares|`.
- The game has no phase field. Its state of play is the `expanding` flag,
  the `message` text and the board itself. A win is not stored anywhere: it
  is derived from the board through `Winner` (`src/App.js:65`, `:114`). A
  full 6×6 board without a winner sets `message == MAX_SIZE_MESSAGE`
  (`src/App.js:70-75`). A won game shows no notice, even when its board is
  full, because `handlePlay` returns on a win (`src/App.js:66-67`) before it
  checks for a full board. On a full board every square is occupied, so
  every later click is ignored until reset.

## Model

| member | source | states |
|---|---|---|
| Grid.CellIndex | src/App.js:25 | for `r, c < n` the index `r*n + c` lies in `0 .. n*n-1`, and division and remainder by `n` give back `r` and `c`, so the (row, column) to index mapping is one-to-one |
| Grid.PlayerMark | src/App.js:62 | the mark placed next is X exactly when `xIsNext` is set, and O exactly when it is not |
| Grid.Lines | src/App.js:166-172 | there are exactly `2*n+2` candidate lines, each of `n` squares, and every index in them lies in `0 .. n*n-1` |
| Grid.IsBoardFull | src/App.js:54 | a board is full exactly when no square of it is empty |
| Grid.Row | src/App.js:168 | row `r` lists `n` squares: it starts at `r*n`, each entry is one past the previous one, and for `r < n` every entry is a square of the board |
| Grid.Column | src/App.js:169 | column `c` lists `n` squares: it starts at `c`, each entry is `n` past the previous one (one row down), and for `c < n` every entry is a square of the board |
| Grid.Diagonal | src/App.js:171 | the main diagonal lists `n` squares of the board: it starts at the top-left square `0` and each entry is `n+1` past the previous one (one row down, one column right) |
| Grid.AntiDiagonal | src/App.js:172 | the anti-diagonal lists `n` squares of the board: it starts at the bottom-left square `(n-1)*n` and each entry is `n-1` before the previous one (one row up, one column right) |
| Grid.RowOrColumn | src/App.js:167-170 | entry `k` of the pushed lines has `n` squares, and for `k < 2*n` every one of them is a square of the board |
| Grid.FirstWonLine | src/App.js:174-181 | the scan stops at the first line whose first square holds a mark that every square of the line repeats; no earlier line is won, and it returns the number of lines when none is |
| Grid.WonIff | src/App.js:177 | the test of a line passes exactly when the line is not empty and some mark fills every square of it |
| Grid.CalculateWinner | src/App.js:165-182 | the two loops (building the lines in push order, then scanning with early return) compute exactly `Winner`: the first won line's mark, or none |
| Grid.WinnerIsFirstWonLine | src/App.js:165-182 | `Winner` is none exactly when no candidate line passes the test, and otherwise it is the mark in the first square of a line that passes, with no line before it passing |
| Grid.LineMeaning | src/App.js:167-172 | candidate line `2i` is filled with `m` iff row `i` is, line `2i+1` iff column `i` is, line `2n` iff the main diagonal is, and line `2n+1` iff the anti-diagonal is |
| Grid.LineGivesHasLine | src/App.js:166-172 | a candidate line filled with `m` is a row, column or diagonal filled with `m` |
| Grid.RowMeaning | src/App.js:168 | the listed row `r` is filled with `m` iff row `r` of the board is |
| Grid.ColumnMeaning | src/App.js:169 | the listed column `c` is filled with `m` iff column `c` of the board is |
| Grid.DiagonalMeaning | src/App.js:171 | the listed main diagonal is filled with `m` iff the board's main diagonal is |
| Grid.AntiDiagonalMeaning | src/App.js:172 | the listed anti-diagonal is filled with `m` iff the board's anti-diagonal (row plus column equal to `n-1`) is |
| Grid.HasLineGivesSomeLine | src/App.js:166-172 | a row, column or diagonal filled with `m` is one of the candidate lines, filled with `m` |
| Grid.HasLineIff | src/App.js:166-172 | `m` fills some row, column or diagonal iff it fills some candidate line |
| Grid.FoundWinnerHasLine | src/App.js:174-179 | when the scan finds a won line, the mark it returns fills a row, column or diagonal |
| Grid.NoWinnerNoLine | src/App.js:174-181 | when the scan finds no won line, the result is none and no row, column or diagonal is filled with either mark |
| Grid.WinnerIffLine | src/App.js:165-182 | the winner is none iff neither mark fills a row, column or diagonal, and a reported mark always fills one |
| Grid.WinnerOfSoleMark | src/App.js:165-182 | when the other mark fills no line, the reported winner is `m` iff `m` fills a row, column or diagonal, and is never the other mark |
| Grid.LinesCarryOver | src/App.js:61-62 | if every square holding `m` on one board holds `m` on another, each line of `m` carries over |
| Grid.PlaceKeepsLines | src/App.js:61-62 | writing mark `p` into an empty square keeps every existing line and creates no line of the other mark |
| Grid.NoLineWithoutMark | src/App.js:47-48 | a board on which no square holds `m` (such as the empty starting board) has no line of `m` |
| Grid.ExpandedAt | src/App.js:83-90 | the grown board has `(n+1)^2` squares; square `(r, c)` holds old square `(r, c)` when `r, c < n` and is empty otherwise |
| Grid.ExpandedCell | src/App.js:84-88 | a square of the grown board in its new last row or new last column is empty, and a mark on the grown board is a mark of the old board |
| Grid.Expanded | src/App.js:83-90 | the grown board has `(n+1)*(n+1)` squares, and every mark on it is a mark of the old board |
| Grid.CopyStep | src/App.js:88 | copying old square `(row, col)` to index `row*(n+1)+col` advances the copy by one column, with both indices in range |
| Grid.CopyNextRow | src/App.js:86-87 | a finished row of the copy hands over to the start of the next row |
| Grid.CopyDone | src/App.js:86-90 | when all old rows are copied, the array equals the grown board |
| Grid.ExpandedHasNoLine | src/App.js:83-90 | a grown board has no complete row, column or diagonal, because its new last row and column are empty |
| Grid.ExpandedNotFull | src/App.js:84 | a grown board always has an empty square |
| Grid.GrowThreeByThree | src/App.js:83-90 | growing a 3×3 board puts its nine squares at indices 0-2, 4-6 and 8-10 of the 4×4 board, and leaves the other seven empty |
| App.EmptyBoard | src/App.js:47-48 | the starting board has `n*n` squares, all empty |
| App.Status | src/App.js:114-120 | the status starts with "Winner: " iff some row, column or diagonal is filled with one mark, and then names such a mark; otherwise it is "Next player: " followed by the mark to move |
| App.Game.constructor | src/App.js:45-52 | a new game is valid: size 3, nine empty squares, X to move, no growth pending, no notice |
| App.MoveKeepsSoleWinner | src/App.js:61-67 | writing mark `p` into an empty square of a board where the other mark has no line leaves the other mark without a line; the game then reports `p` or nobody, nobody only when `p` fills no line, and a board already won stays won by the same mark |
| App.Game.WinnerIsPlayerToMove | src/App.js:65-67 | in every valid state the reported winner, if any, is the player to move, never the other one, and the two marks never both fill a line |
| App.Game.HandlePlay | src/App.js:56-79 | a click on an occupied square or while growing changes nothing. Otherwise square `i` gets the current mark and every other square and the size stay the same. Then exactly one of four things happens: a win keeps the turn; a full board below 6 makes growth pending and keeps the turn; a full 6×6 board sets the notice and keeps the turn; otherwise the turn passes. A won game stays won by the same mark, and the turn does not pass. Validity is preserved |
| App.Game.ExpandBoard | src/App.js:81-98 | when growth is pending below 6, the side grows by one, the board becomes `Expanded` of the old one, the turn passes, growth is no longer pending and the notice is cleared. Otherwise nothing changes. Validity is preserved |
| App.Game.ResetGame | src/App.js:100-106 | from any state, the game returns to the valid initial state: size 3, nine empty squares, X to move, nothing pending, no notice |
| App.Game.Click | src/App.js:108-112 | a click followed by the growth it makes pending. It leaves no growth pending. After a growth the board is `Expanded` of the board with the new mark, and the turn has passed to the other player; the other outcomes are as in `HandlePlay` |

## Left out

- Rendering is not modelled: `Square`, the markup built by `Board`, the
  page returned by `App`, the stylesheet and icon imports, and the footer
  links. They only display state and forward clicks. The index mapping used
  by `Board` is modelled (`CellIndex`, `At`).
- React's state machinery is not modelled: the `useState` setters, their
  batching and re-rendering, the `useCallback` dependency list, and the
  scheduling of `useEffect`. Setters are plain field assignments. The effect
  that calls `expandBoard` when `expanding` becomes true is a synchronous
  call in `Click`.
- The JavaScript behaviour for an index past the end of the board is not
  modelled: writing there would lengthen the array. The board never produces
  such an index, so `HandlePlay` requires `i < |squares|`.
- `calculateWinner` is modelled only for a board of `size*size` squares,
  which is the only way the game calls it (`Winner` and `CalculateWinner`
  require it).
- `HasLine` does not count a board of side 0 as won. On such a board
  `calculateWinner`'s lines are empty and it returns `null`; the game never
  uses side 0.
- App.Status: when both marks fill a line, the contract does not say which
  one is named. The game names the first in scan order. `App.Game.WinnerIsPlayerToMove`
  shows that both marks never fill a line in a valid state.
