/** The GameBoard component's state and event handlers: the click state
    machine, swapCandies with its revert, and the cascade that dropCandies
    starts with timers, run here as one synchronous loop. */
module GameBoard {
  import opened Grids
  import opened Matching
  import opened Gravity
  import opened Moves
  import opened InitialBoard

  /** The number of matched cells summed over a sequence of boards: every
      matched cell of every board in a cascade scores ten points. */
  ghost function SumMatched(boards: seq<Grid>): nat
  {
    if |boards| == 0 then 0
    else SumMatched(boards[..|boards| - 1]) + |MatchedCells(boards[|boards| - 1])|
  }

  /** Every board of a cascade on which a match was found scores at least
      thirty points. */
  lemma {:induction false} CascadeScoresThirtyPerMatch(boards: seq<Grid>)
    requires forall i :: 0 <= i < |boards| ==> HasMatch(boards[i])
    ensures SumMatched(boards) >= 3 * |boards|
    decreases |boards|
  {
    if |boards| > 0 {
      CascadeScoresThirtyPerMatch(boards[..|boards| - 1]);
      MatchClearsAtLeastThree(boards[|boards| - 1]);
    }
  }

  /** The boards of a cascade that starts from `start`: the first drop of
      `start` gives the first board of `matchedBoards + [lastDropped]`, and
      each board of `matchedBoards`, once its matched cells are cleared, drops
      to the next one. */
  ghost predicate DropChain(start: Grid, matchedBoards: seq<Grid>, lastDropped: Grid)
  {
    DropsTo(start, (matchedBoards + [lastDropped])[0]) &&
    forall i :: 0 <= i < |matchedBoards| ==>
      DropsTo(ClearedOf(matchedBoards[i]), (matchedBoards + [lastDropped])[i + 1])
  }

  /** Everything a cascade from the cleared board `start` promises about its
      boards and flags:
      - the drops follow `DropChain`, every board of `matchedBoards` has a
        match, and the checks stop early only on a `quiet` board, one without
        a match; otherwise all `fuel` checks were spent;
      - the board left behind, `final`, has no match when `settled`;
      - it is reshuffled exactly when the drops ended quiet, the game is not
        over and no adjacent swap makes a run; then `final` is what
        shuffleBoard made (`shuffleTrace`), otherwise it is the last dropped
        board, with a possible move when quiet and the game is not over. */
  ghost predicate Cascaded(start: Grid, gameOver: bool, fuel: nat,
                           matchedBoards: seq<Grid>, lastDropped: Grid, quiet: bool,
                           final: Grid, settled: bool, reshuffled: bool, shuffleTrace: seq<Grid>)
  {
    DropChain(start, matchedBoards, lastDropped) &&
    NoEmpty(lastDropped) && NoEmpty(final) &&
    (forall i :: 0 <= i < |matchedBoards| ==> HasMatch(matchedBoards[i])) &&
    |matchedBoards| <= fuel && (!quiet ==> |matchedBoards| == fuel) &&
    (quiet ==> !HasMatch(lastDropped)) &&
    (settled ==> !HasMatch(final)) &&
    (reshuffled <==> quiet && !gameOver && !HasPossibleMove(lastDropped)) &&
    (reshuffled ==> CleanedUp(shuffleTrace, fuel, final, settled)) &&
    (!reshuffled ==> final == lastDropped && settled == quiet) &&
    (quiet && !reshuffled ==> gameOver || HasPossibleMove(final))
  }

  /** What happens after a match has been cleared: dropCandies, then
      checkForMatches on the result; a match scores, is cleared and dropped
      again, and so on. On the first board without a match checkForPossibleMoves
      runs, and a deadlocked board is reshuffled unless the game is over.
      `fuel` bounds the number of match checks and the passes of the reshuffle.
      `matchedBoards` are the dropped boards on which a match was found, in
      order; `lastDropped` is the board the drops ended on and `quiet` says it
      holds no match; `settled` says the board left behind holds no match.
      The points are ten per matched cell of every board of `matchedBoards`. */
  method Cascade(cleared: Grid, gameOver: bool, fuel: nat)
    returns (final: Grid, points: nat, settled: bool, reshuffled: bool,
             ghost matchedBoards: seq<Grid>, ghost lastDropped: Grid, ghost quiet: bool,
             ghost shuffleTrace: seq<Grid>)
    ensures points == 10 * SumMatched(matchedBoards) && points % 10 == 0
    ensures Cascaded(cleared, gameOver, fuel, matchedBoards, lastDropped, quiet,
                     final, settled, reshuffled, shuffleTrace)
  {
    var current := DropCandies(cleared);
    points, settled, reshuffled := 0, false, false;
    matchedBoards, shuffleTrace := [], [];
    var rounds := 0;
    while rounds < fuel
      invariant NoEmpty(current)
      invariant rounds <= fuel && |matchedBoards| == rounds
      invariant points == 10 * SumMatched(matchedBoards)
      invariant forall i :: 0 <= i < |matchedBoards| ==> HasMatch(matchedBoards[i])
      invariant DropChain(cleared, matchedBoards, current)
      invariant settled ==> !HasMatch(current)
      decreases fuel - rounds
    {
      var found, p, next := CheckForMatches(current);
      if !found {
        settled := true;
        break;
      }
      points := points + p;
      var dropped := DropCandies(next);
      ghost var drops := matchedBoards + [current];
      assert drops[..|matchedBoards|] == matchedBoards;
      assert forall i :: 0 <= i <= |matchedBoards| ==> (drops + [dropped])[i] == drops[i];
      matchedBoards := drops;
      current := dropped;
      rounds := rounds + 1;
    }
    final, lastDropped, quiet := current, current, settled;
    if settled {
      final, settled, reshuffled, shuffleTrace := ReshuffleIfStuck(current, gameOver, fuel);
    }
  }

  /** The end of dropCandies on a settled board: checkForPossibleMoves, and
      shuffleBoard exactly when it finds none and the game is not over. */
  method ReshuffleIfStuck(current: Grid, gameOver: bool, fuel: nat)
    returns (final: Grid, settled: bool, reshuffled: bool, ghost shuffleTrace: seq<Grid>)
    requires NoEmpty(current) && !HasMatch(current)
    ensures NoEmpty(final)
    ensures settled ==> !HasMatch(final)
    ensures reshuffled <==> !gameOver && !HasPossibleMove(current)
    ensures reshuffled ==> CleanedUp(shuffleTrace, fuel, final, settled)
    ensures !reshuffled ==> final == current && settled && (gameOver || HasPossibleMove(final))
  {
    final, settled, reshuffled, shuffleTrace := current, true, false, [];
    var hasMoves := CheckForPossibleMoves(current);
    if !hasMoves && !gameOver {
      final, settled, shuffleTrace := ShuffleBoard(fuel);
      reshuffled := true;
    }
  }

  /** `newBoard` of swapCandies: a copy of the board with the two cells
      exchanged through `temp`. */
  method SwappedCopy(board: Grid, first: Coord, second: Coord) returns (newBoard: Grid)
    requires InBounds(first) && InBounds(second)
    ensures newBoard == Swapped(board, first, second)
  {
    var work := CopyBoard(board);
    SwapCells(work, first, second);
    newBoard := Snapshot(work);
  }

  /** `revertedBoard`: a copy of the swapped board with the two cells written
      back from it, which is the board before the swap. */
  method RevertedBoard(newBoard: Grid, first: Coord, second: Coord) returns (reverted: Grid)
    requires InBounds(first) && InBounds(second)
    ensures reverted == Swapped(newBoard, first, second)
    ensures forall before: Grid :: newBoard == Swapped(before, first, second) ==> reverted == before
  {
    var revertedBoard := CopyBoard(newBoard);
    revertedBoard[first.row, first.col] := newBoard[second.row][second.col];
    revertedBoard[second.row, second.col] := newBoard[first.row][first.col];
    reverted := Snapshot(revertedBoard);
    GridExt(reverted, Swapped(newBoard, first, second));
    forall before: Grid | newBoard == Swapped(before, first, second)
      ensures reverted == before
    {
      SwapTwiceRestores(before, first, second);
    }
  }

  /** `gameOver || isSwapping || isChecking || !isPlaying`: the click is ignored. */
  predicate ClickIgnored(gameOver: bool, isSwapping: bool, isChecking: bool, isPlaying: bool)
  {
    gameOver || isSwapping || isChecking || !isPlaying
  }

  class GameBoard {
    var board: Grid
    var selectedCandy: Option<Coord>
    var isSwapping: bool
    var isChecking: bool
    /** Whether initializeBoard's clean-up reached a board without a run, and
        the boards of that clean-up. */
    ghost var initialSettled: bool
    ghost var initialTrace: seq<Grid>

    /** Once initialised the board holds no "" between events, and a selected
        candy is a cell of the board. */
    ghost predicate Valid()
      reads this
    {
      NoEmpty(board) && (selectedCandy.Some? ==> InBounds(selectedCandy.value))
    }

    /** Mounting the component: the state hooks start with nothing selected and
        both flags down, and initializeBoard fills the board at random and
        cleans it up, which settles unless all `maxPasses` passes are spent;
        then the board holds no match. */
    constructor(maxPasses: nat)
      ensures Valid()
      ensures selectedCandy == None && !isSwapping && !isChecking
      ensures CleanedUp(initialTrace, maxPasses, board, initialSettled)
      ensures initialSettled ==> !HasMatch(board)
    {
      var initial, settled, trace := ShuffleBoard(maxPasses);
      board := initial;
      initialSettled, initialTrace := settled, trace;
      selectedCandy := None;
      isSwapping := false;
      isChecking := false;
    }

    /** swapCandies: swap on a copy, show it, ask checkForMatches; without a
        match build revertedBoard from the swapped copy, which restores the
        board, and score nothing; with one, score ten points per cleared cell
        and run the cascade from the cleared board, whose boards and flags the
        ghost results report. */
    method SwapCandies(first: Coord, second: Coord, gameOver: bool, fuel: nat)
      returns (matchFound: bool, points: nat, settled: bool, reshuffled: bool,
               ghost cascadeBoards: seq<Grid>, ghost lastDropped: Grid, ghost quiet: bool,
               ghost shuffleTrace: seq<Grid>)
      requires Valid() && InBounds(first) && InBounds(second)
      modifies this
      ensures Valid()
      ensures matchFound <==> HasMatch(Swapped(old(board), first, second))
      ensures !matchFound ==>
        board == old(board) && points == 0 && !settled && !reshuffled && cascadeBoards == []
      ensures matchFound ==>
        points == 10 * |MatchedCells(Swapped(old(board), first, second))| + 10 * SumMatched(cascadeBoards)
      ensures matchFound ==> points >= 30
      ensures matchFound ==>
        Cascaded(ClearedOf(Swapped(old(board), first, second)), gameOver, fuel,
                 cascadeBoards, lastDropped, quiet, board, settled, reshuffled, shuffleTrace)
      ensures forall i :: 0 <= i < |cascadeBoards| ==> HasMatch(cascadeBoards[i])
      ensures settled ==> !HasMatch(board)
      ensures reshuffled ==> matchFound && !gameOver
      ensures matchFound && settled && !reshuffled ==> gameOver || HasPossibleMove(board)
      ensures selectedCandy == old(selectedCandy) && !isSwapping && !isChecking
      ensures initialSettled == old(initialSettled) && initialTrace == old(initialTrace)
    {
      isSwapping := true;
      var newBoard := SwappedCopy(board, first, second);
      board := newBoard;

      isChecking := true;
      var found, scored, cleared := CheckForMatches(newBoard);
      isChecking := false;
      matchFound := found;

      if !found {
        board := RevertedBoard(newBoard, first, second);
        points, settled, reshuffled := 0, false, false;
        cascadeBoards, lastDropped, quiet, shuffleTrace := [], board, false, [];
      } else {
        var final, more;
        final, more, settled, reshuffled, cascadeBoards, lastDropped, quiet, shuffleTrace :=
          Cascade(cleared, gameOver, fuel);
        board := final;
        points := scored + more;
      }
      isSwapping := false;
    }

    /** handleCandyClick on cell (row, col): ignored while the game is over,
        a swap is running, matches are being checked or the game is not
        playing; otherwise the first click selects the cell and the second
        swaps the two cells when they are adjacent and always clears the
        selection. A handled click leaves both flags down. */
    method HandleCandyClick(row: int, col: int, gameOver: bool, isPlaying: bool, fuel: nat)
      returns (swapped: bool, points: nat, settled: bool, reshuffled: bool,
               ghost cascadeBoards: seq<Grid>, ghost lastDropped: Grid, ghost quiet: bool,
               ghost shuffleTrace: seq<Grid>)
      requires Valid() && InBounds(Coord(row, col))
      modifies this
      ensures Valid()
      ensures ClickIgnored(gameOver, old(isSwapping), old(isChecking), isPlaying) ==>
        !swapped && selectedCandy == old(selectedCandy) &&
        isSwapping == old(isSwapping) && isChecking == old(isChecking)
      ensures !ClickIgnored(gameOver, old(isSwapping), old(isChecking), isPlaying) ==>
        !isSwapping && !isChecking
      ensures !ClickIgnored(gameOver, old(isSwapping), old(isChecking), isPlaying) && old(selectedCandy).None? ==>
        !swapped && selectedCandy == Some(Coord(row, col))
      ensures !ClickIgnored(gameOver, old(isSwapping), old(isChecking), isPlaying) && old(selectedCandy).Some? ==>
        selectedCandy == None && (swapped <==> IsAdjacent(old(selectedCandy).value, Coord(row, col)))
      ensures !swapped ==> board == old(board) && points == 0 && !settled && !reshuffled
      ensures swapped ==>
        var moved := Swapped(old(board), old(selectedCandy).value, Coord(row, col));
        (HasMatch(moved) ==>
          points == 10 * |MatchedCells(moved)| + 10 * SumMatched(cascadeBoards) && points >= 30 &&
          Cascaded(ClearedOf(moved), gameOver, fuel, cascadeBoards, lastDropped, quiet,
                   board, settled, reshuffled, shuffleTrace)) &&
        (!HasMatch(moved) ==> board == old(board) && points == 0 && !settled && !reshuffled)
      ensures forall i :: 0 <= i < |cascadeBoards| ==> HasMatch(cascadeBoards[i])
      ensures settled ==> !HasMatch(board)
    {
      swapped, points, settled, reshuffled := false, 0, false, false;
      cascadeBoards, lastDropped, quiet, shuffleTrace := [], board, false, [];
      if ClickIgnored(gameOver, isSwapping, isChecking, isPlaying) {
        return;
      }
      match selectedCandy {
        case None =>
          selectedCandy := Some(Coord(row, col));
        case Some(selected) =>
          var isAdjacent := IsAdjacent(selected, Coord(row, col));
          if isAdjacent {
            var matchFound;
            matchFound, points, settled, reshuffled, cascadeBoards, lastDropped, quiet, shuffleTrace :=
              SwapCandies(selected, Coord(row, col), gameOver, fuel);
            swapped := true;
          }
          selectedCandy := None;
      }
    }
  }
}
