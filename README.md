# Candy board rules engine in Dafny

This project models the rules engine of the match-3 game of the
candy-crush Telegram mini app, and proves properties of that model. The
engine lives in the `GameBoard` component. It covers:

- an 8x8 board of six candy kinds, with `""` as the transient marker of a
  cleared cell;
- random candy sampling;
- the removal of runs of three from a fresh board;
- the click state machine that selects a candy and swaps it with an
  adjacent one;
- match detection, scoring and clearing;
- gravity and refill;
- the deadlock check, and the reshuffle that follows a deadlock.

From the `ScorePanel` component the model takes the `M:SS` time format and
the choice of the warning colour.

Modules, one per concern of the component:

- `Grids` (`grids.dfy`):
  - the board value `Grid` (a `seq<seq<Cell>>` of size 8x8), `Cell` (a
    candy or `Empty` for `""`) and `Coord`;
  - the run predicates: `RowRun`/`ColRun` compare three cells with `===`
    alone, while `RowMatch`/`ColMatch` also demand that the first cell is not
    `""`;
  - the swap of two cells;
  - the mutable working copies: each deep copy of the board
    becomes a fresh `array2<Cell>`, read back with `Snapshot`;
  - `getRandomCandy`.
- `InitialBoard` (`initial_board.dfy`): `removeInitialMatches`, the random
  fill, and `shuffleBoard`/`initializeBoard`.
- `Matching` (`matching.dfy`): `checkForMatches`, together with its
  deduplication of coordinates, its score and its clearing.
- `Gravity` (`gravity.dfy`): `dropCandies`. A column's fall is specified by
  `Compacted(s) = Empties(CountEmpty(s)) + Candies(s)`. The in-place
  bottom-up scan with `emptySpaces` is proved to compute it.
- `Moves` (`moves.dfy`): the adjacency test of `handleCandyClick` and
  `checkForPossibleMoves`.
- `GameBoard` (`game_board.dfy`):
  - the component state (`board`, `selectedCandy`, `isSwapping`,
    `isChecking`) as a class;
  - `swapCandies` and `handleCandyClick`;
  - the timer-driven cascade (drop, check, clear, drop, …, then the deadlock
    check and the reshuffle), run as one synchronous loop.
- `ScorePanel` (`score_panel.dfy`): `formatTime` and the `timeLeft <= 10`
  colour.

## Notes on the source

- **Which cell is re-rolled.** A run found by `removeInitialMatches` gets
  only its first cell re-rolled, not every cell of the run.
- **No deadlock check on new boards.** A board made by `initializeBoard`
  or by a reshuffle is never itself checked for a possible move. So
  `Cascade` promises a possible move only when it did not reshuffle.

## Model

| member | source | states |
|---|---|---|
| Grids.CandyTypesComplete | candy-crush-telegram-mini-app/components/game-board.tsx:7 | every candy kind of the model is one of the six CANDY_TYPES |
| Grids.GetRandomCandy | candy-crush-telegram-mini-app/components/game-board.tsx:76-82 | the candy returned is in CANDY_TYPES and differs from `exclude` (no argument: any candy) |
| Grids.RunIsMatchWithoutEmpty | candy-crush-telegram-mini-app/components/game-board.tsx:148-152 | on a board with no `""`, the unguarded run test of removeInitialMatches/checkForPossibleMoves finds a run iff the guarded test of checkForMatches does |
| Grids.SwapTwiceRestores | candy-crush-telegram-mini-app/components/game-board.tsx:127-129 | exchanging the same two cells twice gives back the original board, cell for cell |
| Grids.SwapSymmetric | candy-crush-telegram-mini-app/components/game-board.tsx:113-115 | exchanging a with b is the same board as exchanging b with a |
| Grids.CopyBoard | candy-crush-telegram-mini-app/components/game-board.tsx:142 | the working copy is a fresh array, so writes to it never reach the caller's board, and it starts equal to that board |
| Grids.SwapCells | candy-crush-telegram-mini-app/components/game-board.tsx:113-115 | the three writes through `temp` leave exactly the board with the two cells exchanged |
| InitialBoard.RerollRow | candy-crush-telegram-mini-app/components/game-board.tsx:54-58 | within one row of a pass, each cell that starts a run on the board the pass began with is replaced by a candy different from its old value; every other cell of the row is untouched, as are the other rows; the flag is set iff the row held such a run |
| InitialBoard.RerollRuns | candy-crush-telegram-mini-app/components/game-board.tsx:52-70 | one horizontal or vertical pass re-rolls exactly the first cells of the runs of the board it started from, and sets `hasMatches` iff there was one |
| InitialBoard.PassWithoutRunKeepsBoard | candy-crush-telegram-mini-app/components/game-board.tsx:52-70 | a pass over a board on which no cell starts a run leaves the board as it was |
| InitialBoard.FullPassKeepsQuietBoard | candy-crush-telegram-mini-app/components/game-board.tsx:49-71 | a whole iteration of the `while (hasMatches)` loop over a board without a run gives back the same board |
| InitialBoard.RunsBefore | candy-crush-telegram-mini-app/components/game-board.tsx:49-71 | in any chain of full passes, every board before one with a run had a run as well |
| InitialBoard.RerollPass | candy-crush-telegram-mini-app/components/game-board.tsx:49-71 | one iteration of the `while (hasMatches)` loop is a horizontal pass followed by a vertical pass on the board the first one left; `hasMatches` is set iff the board the pass started from had a run; when it is not set the board is unchanged and has no run; every cell keeps its value or holds a candy |
| InitialBoard.RemoveInitialMatches | candy-crush-telegram-mini-app/components/game-board.tsx:45-74 | the input board is not changed (it is a value); the result is reached from it by a chain of full passes, one per loop iteration, and every board but the last two had a run, so a pass is only taken after one that found something; the loop ends unsettled only when all `maxPasses` passes were spent and the last of them found a run; a settled result has no run of three in any row or column; a board without any run comes back unchanged after one pass, settled; each cell of the result is the input's cell or a re-rolled candy |
| InitialBoard.FillRandom | candy-crush-telegram-mini-app/components/game-board.tsx:29-35 | the random fill leaves no `""` |
| InitialBoard.ShuffleBoard | candy-crush-telegram-mini-app/components/game-board.tsx:303-318 | the reshuffled board holds no `""`; it is reached by removeInitialMatches' chain of passes from a random board without `""`, each pass but the last taken after a run was found; it is unsettled only when all passes were spent, and a settled board has no run and so no match |
| Matching.PushRowTriples | candy-crush-telegram-mini-app/components/game-board.tsx:145-157 | the horizontal scan pushes exactly the cells of the horizontal triples of non-empty equal cells, and `matchFound` is set iff it pushed any |
| Matching.PushColumnTriples | candy-crush-telegram-mini-app/components/game-board.tsx:159-171 | the vertical scan adds exactly the cells of the vertical triples to what was pushed before |
| Matching.FindMatches | candy-crush-telegram-mini-app/components/game-board.tsx:139-171 | `matchFound` holds iff some row or column has three equal cells that are not `""`; a coordinate is in `matchedCandies` iff it lies in such a triple |
| Matching.UniqueMatches | candy-crush-telegram-mini-app/components/game-board.tsx:173-176 | the filter keeps the same coordinates, and none twice |
| Matching.DistinctCardinality | candy-crush-telegram-mini-app/components/game-board.tsx:174-180 | a list without duplicate coordinates has as many entries as distinct coordinates, so `uniqueMatches.length` counts the matched cells |
| Matching.MatchClearsAtLeastThree | candy-crush-telegram-mini-app/components/game-board.tsx:153-154 | a board with a match has at least three matched cells |
| Matching.ClearCells | candy-crush-telegram-mini-app/components/game-board.tsx:184-187 | exactly the listed cells become `""`, every other cell keeps its value |
| Matching.CheckForMatches | candy-crush-telegram-mini-app/components/game-board.tsx:139-199 | returns true iff there is a triple of equal non-empty cells; the score is 10 times the number of distinct matched cells (at least 30 on a match); the cleared board has `""` exactly at the matched cells and the input's value elsewhere, which is `ClearedOf` the input |
| Gravity.CompactedSettled | candy-crush-telegram-mini-app/components/game-board.tsx:204-216 | after the fall no `""` lies below a candy in a column |
| Gravity.CompactedKeepsCandies | candy-crush-telegram-mini-app/components/game-board.tsx:204-216 | the fall keeps the column's candies in their top-to-bottom order and its number of `""` cells; a second fall changes nothing |
| Gravity.CompactedConsCandy | candy-crush-telegram-mini-app/components/game-board.tsx:211-213 | the step of the scan at a candy: it lands right below the `""` cells counted so far |
| Gravity.ScanStep | candy-crush-telegram-mini-app/components/game-board.tsx:208-215 | one iteration of the bottom-up loop turns "rows below `row` fallen" into "rows below `row - 1` fallen", with `emptySpaces` the count of `""` below |
| Gravity.CompactColumn | candy-crush-telegram-mini-app/components/game-board.tsx:206-215 | the in-place loop with `emptySpaces` leaves the column equal to its fallen form and every other column unchanged |
| Gravity.CompactColumns | candy-crush-telegram-mini-app/components/game-board.tsx:205-216 | every column of the working copy equals the fallen form of the same column before |
| Gravity.Refill | candy-crush-telegram-mini-app/components/game-board.tsx:218-225 | afterwards no cell is `""`, and every cell that held a candy still holds the same one |
| Gravity.DropCandies | candy-crush-telegram-mini-app/components/game-board.tsx:201-227 | the dropped board has no `""`; in each column the candies of the input sit at the bottom in their order, under as many fresh candies as the column had `""` cells |
| Moves.AdjacentIffNeighbour | candy-crush-telegram-mini-app/components/game-board.tsx:96-98 | the test accepts exactly the four cells above, below, left and right |
| Moves.AdjacentSymmetric | candy-crush-telegram-mini-app/components/game-board.tsx:96-98 | the test does not depend on which cell was selected first |
| Moves.SameOrDiagonalNotAdjacent | candy-crush-telegram-mini-app/components/game-board.tsx:96-100 | clicking the selected cell again or a diagonal neighbour never swaps |
| Moves.PossibleMoveIsRowOrColSwap | candy-crush-telegram-mini-app/components/game-board.tsx:244-298 | trying each left-right pair and each top-bottom pair once, in one order, covers every adjacent swap |
| Moves.PossibleMoveIsMatchingSwap | candy-crush-telegram-mini-app/components/game-board.tsx:243-301 | on a board without `""`, the unguarded check finds a move iff some adjacent swap would make checkForMatches succeed |
| Moves.ScanForRun | candy-crush-telegram-mini-app/components/game-board.tsx:254-267 | the inner scans return true iff the scratch board has three equal cells in a row or column, with no `""` guard |
| Moves.CheckForPossibleMoves | candy-crush-telegram-mini-app/components/game-board.tsx:243-301 | returns true iff some adjacent swap makes a run; the board it is given is not changed |
| GameBoard.CascadeScoresThirtyPerMatch | candy-crush-telegram-mini-app/components/game-board.tsx:178-180 | every board of a cascade on which a match is found adds at least 30 points |
| GameBoard.Cascade | candy-crush-telegram-mini-app/components/game-board.tsx:229-240 | the points are exactly ten per matched cell summed over the boards on which a match was found; those boards, followed by the board the drops ended on, are the successive outcomes of dropCandies, the first from the cleared board and each next one from the previous board with its matches cleared; each of them has a match; the checks stop early only on a board without a match, otherwise all `fuel` checks are spent; it reshuffles iff the drops ended on a board without a match, the game is not over and no adjacent swap makes a run, and then the board is what shuffleBoard made; otherwise the last dropped board is kept, with a possible move when the game is not over; no `""` is left and a settled board has no match |
| GameBoard.ReshuffleIfStuck | candy-crush-telegram-mini-app/components/game-board.tsx:232-238 | on a settled board without `""`: it reshuffles iff the game is not over and no adjacent swap makes a run, and then the board comes from shuffleBoard's chain of passes; otherwise the board is kept, with a possible move unless the game is over |
| GameBoard.SwappedCopy | candy-crush-telegram-mini-app/components/game-board.tsx:112-115 | `newBoard` is the board with the two cells exchanged |
| GameBoard.RevertedBoard | candy-crush-telegram-mini-app/components/game-board.tsx:127-129 | `revertedBoard` is the board before the swap, cell for cell |
| GameBoard.GameBoard.constructor | candy-crush-telegram-mini-app/components/game-board.tsx:18-43 | on mount nothing is selected, both flags are down, the board holds no `""` and comes from initializeBoard's random fill and chain of clean-up passes, which stop unsettled only when all passes were spent; a settled board holds no match |
| GameBoard.GameBoard.SwapCandies | candy-crush-telegram-mini-app/components/game-board.tsx:108-137 | a match is found iff the swapped board has one; with no match the board ends as it was and nothing is scored; with one the points are ten per matched cell of the swapped board plus ten per matched cell of each later matched board, and the whole cascade promise of `Cascade` holds from the swapped board with its matches cleared: the drop chain, the reshuffle exactly on a deadlock of a running game, the kept board otherwise; both flags end false and the selection is untouched |
| GameBoard.GameBoard.HandleCandyClick | candy-crush-telegram-mini-app/components/game-board.tsx:84-106 | clicks while the game is over, swapping, checking or not playing change nothing; a handled click leaves both flags down; a first click selects the cell; a second click swaps iff the cells are adjacent and always clears the selection; a swap without a match leaves the board as it was and scores nothing; a swap with a match scores ten per matched cell of the swapped board and of each cascade board, and the cascade promise of `Cascade` holds from the swapped board with its matches cleared; a settled end board has no match |
| ScorePanel.NatToString | candy-crush-telegram-mini-app/components/score-panel.tsx:16 | `${n}` is a non-empty string of decimal digits without a leading zero, one digit exactly when n < 10 |
| ScorePanel.NatToStringRoundTrip | candy-crush-telegram-mini-app/components/score-panel.tsx:16 | reading the digits of `${n}` back gives n |
| ScorePanel.PadSeconds | candy-crush-telegram-mini-app/components/score-panel.tsx:15-16 | the seconds field is exactly two digits and denotes `seconds % 60` |
| ScorePanel.FormatTime | candy-crush-telegram-mini-app/components/score-panel.tsx:13-17 | the text has at least four characters, exactly one `:`, which is third from the end, and digits everywhere else; the minutes are not padded, so the text starts with `0` only when it is four characters long |
| ScorePanel.FormatTimeRoundTrip | candy-crush-telegram-mini-app/components/score-panel.tsx:13-17 | reading the minutes before the colon and the seconds after it gives back `seconds`, that is, `mins * 60 + secs == seconds` with `secs < 60` |
| ScorePanel.TimeColourFor | candy-crush-telegram-mini-app/components/score-panel.tsx:38 | the time is shown in the warning colour iff `timeLeft <= 10` |

## Left out

- React state hooks, `useEffect`, `setTimeout` and the `await`ed animation
  delays are left out. Each state update is an assignment, and the cascade
  runs synchronously inside `SwapCandies`. So the model does not capture the
  interleavings those timers allow: in the source, `isSwapping` is already
  false while a match's clear/drop timers are still pending, so a click can
  swap during a cascade.
- `Math.random` is a free choice of the verifier (`:|`), limited to the
  candies `getRandomCandy` can return. Probabilistic termination is not
  modelled.
- InitialBoard.RemoveInitialMatches: the `while (hasMatches)` loop is
  bounded by `maxPasses`. When the bound is hit, `settled` is false and
  "no run" is not promised.
- GameBoard.Cascade: the drop/check rounds and the reshuffle's passes are
  bounded by `fuel`, so an unsettled result is possible. The `gameOver`
  read inside the timer is the value passed in.
- GameBoard.GameBoard.constructor: `board` starts as `[]` in the source
  until the mount effect runs `initializeBoard`. The model starts from the
  initialized board and does not show the 500 ms during which the unfiltered
  random board is displayed.
- `onScoreUpdate` and `onGameStart` are not called; points are returned
  instead. `onGameStart` is only referenced in commented-out code.
- The JSX and framer-motion rendering of both components is left out,
  including the `disabled={gameOver}` buttons and the selection highlight.
- ScorePanel.FormatTime takes a `nat`. Negative `timeLeft` values, for
  which JavaScript's `%` and `Math.floor` differ, are not modelled.
- candy-crush-telegram-mini-app/components/game-instructions.tsx is not
  part of this model. It is a static overlay with no logic.
