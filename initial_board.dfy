/** initializeBoard / shuffleBoard and removeInitialMatches: fill the board
    at random, then re-roll cells until no row or column holds three equal
    cells in a row. */
module InitialBoard {
  import opened Grids

  /** The run test of one pass: horizontal for the first loop pair of
      removeInitialMatches, vertical for the second. */
  predicate StartsRun(g: Grid, horizontal: bool, r: int, c: int)
  {
    if horizontal then RowRun(g, r, c) else ColRun(g, r, c)
  }

  /** Where a pass stands when it reaches (row, col): each cell it has visited
      that began a run of the board the pass started from now holds a candy
      other than the one it had; every other cell is as the pass found it. */
  ghost predicate RerolledUpTo(a: array2<Cell>, start: Grid, horizontal: bool, row: int, col: int)
    requires a.Length0 == N && a.Length1 == N
    reads a
  {
    forall r, c :: 0 <= r < N && 0 <= c < N ==>
      if ScannedBefore(r, c, row, col) && StartsRun(start, horizontal, r, c)
      then a[r, c].Filled? && a[r, c] != start[r][c]
      else a[r, c] == start[r][c]
  }

  /** A whole pass as a relation between boards: every cell that starts a run
      of `start` now holds a candy other than the one it had, and every other
      cell is unchanged. */
  ghost predicate Rerolled(start: Grid, horizontal: bool, after: Grid)
  {
    forall r, c {:trigger StartsRun(start, horizontal, r, c)} :: 0 <= r < N && 0 <= c < N ==>
      if StartsRun(start, horizontal, r, c)
      then after[r][c].Filled? && after[r][c] != start[r][c]
      else after[r][c] == start[r][c]
  }

  /** One iteration of the `while (hasMatches)` loop: the horizontal pass,
      then the vertical pass on what it left. */
  ghost predicate FullPass(before: Grid, after: Grid)
  {
    exists middle: Grid :: Rerolled(before, true, middle) && Rerolled(middle, false, after)
  }

  /** Each board of the list is one full pass after the one before it. */
  ghost predicate PassChain(trace: seq<Grid>)
  {
    |trace| <= 1 || (PassChain(trace[..|trace| - 1]) && FullPass(trace[|trace| - 2], trace[|trace| - 1]))
  }

  /** A pass over a board where it finds no run changes nothing. */
  lemma {:induction false} PassWithoutRunKeepsBoard(start: Grid, horizontal: bool, after: Grid)
    requires Rerolled(start, horizontal, after)
    requires forall r, c :: !StartsRun(start, horizontal, r, c)
    ensures after == start
  {
    forall r, c | 0 <= r < N && 0 <= c < N
      ensures after[r][c] == start[r][c]
    {
      assert !StartsRun(start, horizontal, r, c);
    }
    GridExt(after, start);
  }

  /** A full pass over a board without a run changes nothing. */
  lemma {:induction false} FullPassKeepsQuietBoard(before: Grid, after: Grid)
    requires FullPass(before, after) && !HasRun(before)
    ensures after == before
  {
    var middle :| Rerolled(before, true, middle) && Rerolled(middle, false, after);
    PassWithoutRunKeepsBoard(before, true, middle);
    PassWithoutRunKeepsBoard(middle, false, after);
  }

  /** Consecutive boards of a chain are one full pass apart. */
  lemma {:induction false} PassChainStep(trace: seq<Grid>, i: int)
    requires PassChain(trace) && 0 <= i < |trace| - 1
    ensures FullPass(trace[i], trace[i + 1])
    decreases |trace|
  {
    if i < |trace| - 2 {
      PassChainStep(trace[..|trace| - 1], i);
    }
  }

  /** In a chain of passes a board with a run has only boards with runs
      before it: had an earlier one none, the passes from it on would have
      kept it as it was. */
  lemma {:induction false} RunsBefore(trace: seq<Grid>, k: int)
    requires PassChain(trace) && 0 <= k < |trace| && HasRun(trace[k])
    ensures forall i :: 0 <= i <= k ==> HasRun(trace[i])
    decreases k
  {
    if k > 0 {
      PassChainStep(trace, k - 1);
      if !HasRun(trace[k - 1]) {
        FullPassKeepsQuietBoard(trace[k - 1], trace[k]);
      }
      RunsBefore(trace, k - 1);
    }
  }

  /** After a pass every cell holds what it held before or a candy. */
  lemma RerolledKeepsOrFills(start: Grid, horizontal: bool, after: Grid)
    requires Rerolled(start, horizontal, after)
    ensures forall r, c :: 0 <= r < N && 0 <= c < N ==> after[r][c] == start[r][c] || after[r][c].Filled?
  {
    forall r, c | 0 <= r < N && 0 <= c < N
      ensures after[r][c] == start[r][c] || after[r][c].Filled?
    {
      if StartsRun(start, horizontal, r, c) {
        assert after[r][c].Filled?;
      }
    }
  }

  /** One row of either loop pair: the visit of (row, col) tests the cell and
      the two cells to its right (horizontal) or below it (vertical) and, on a
      run, gives the cell `getRandomCandy(itself)`. Only cells the pass has not
      written yet are read, so the runs found are those of `start`. */
  method RerollRow(a: array2<Cell>, horizontal: bool, row: int, ghost start: Grid) returns (rerolled: bool)
    requires a.Length0 == N && a.Length1 == N
    requires 0 <= row < (if horizontal then N else N - 2)
    requires forall r, c :: row <= r < N && 0 <= c < N ==> a[r, c] == start[r][c]
    modifies a
    ensures forall c :: 0 <= c < N ==>
      if StartsRun(start, horizontal, row, c)
      then a[row, c].Filled? && a[row, c] != start[row][c]
      else a[row, c] == start[row][c]
    ensures forall r, c :: 0 <= r < N && 0 <= c < N && r != row ==> a[r, c] == old(a[r, c])
    ensures rerolled <==> exists c :: StartsRun(start, horizontal, row, c)
  {
    rerolled := false;
    var cols := if horizontal then N - 2 else N;
    var col := 0;
    while col < cols
      invariant 0 <= col <= cols
      invariant forall c :: 0 <= c < N ==>
        if c < col && StartsRun(start, horizontal, row, c)
        then a[row, c].Filled? && a[row, c] != start[row][c]
        else a[row, c] == start[row][c]
      invariant forall r, c :: 0 <= r < N && 0 <= c < N && r != row ==> a[r, c] == old(a[r, c])
      invariant rerolled <==> exists c :: 0 <= c < col && StartsRun(start, horizontal, row, c)
    {
      var isRun := if horizontal then a[row, col] == a[row, col + 1] && a[row, col] == a[row, col + 2]
                   else a[row, col] == a[row + 1, col] && a[row, col] == a[row + 2, col];
      assert isRun == StartsRun(start, horizontal, row, col);
      if isRun {
        var candy := GetRandomCandy(Some(a[row, col]));
        a[row, col] := Filled(candy);
        rerolled := true;
      }
      col := col + 1;
    }
  }

  /** One pass of either loop pair over the whole board. */
  method RerollRuns(a: array2<Cell>, horizontal: bool) returns (rerolled: bool)
    requires a.Length0 == N && a.Length1 == N
    modifies a
    ensures rerolled <==> exists r, c :: StartsRun(old(Snapshot(a)), horizontal, r, c)
    ensures Rerolled(old(Snapshot(a)), horizontal, Snapshot(a))
  {
    ghost var start := Snapshot(a);
    rerolled := false;
    var rows := if horizontal then N else N - 2;
    var row := 0;
    while row < rows
      invariant 0 <= row <= rows
      invariant RerolledUpTo(a, start, horizontal, row, 0)
      invariant rerolled <==> exists r, c :: r < row && StartsRun(start, horizontal, r, c)
    {
      var rowRerolled := RerollRow(a, horizontal, row, start);
      rerolled := rerolled || rowRerolled;
      row := row + 1;
    }
  }

  /** Cells that are the input's or candies stay so after a step that keeps
      or fills each cell. */
  lemma KeepsOrFills(board: Grid, before: Grid, after: Grid)
    requires forall r, c :: 0 <= r < N && 0 <= c < N ==> before[r][c] == board[r][c] || before[r][c].Filled?
    requires forall r, c :: 0 <= r < N && 0 <= c < N ==> after[r][c] == before[r][c] || after[r][c].Filled?
    ensures forall r, c :: 0 <= r < N && 0 <= c < N ==> after[r][c] == board[r][c] || after[r][c].Filled?
  {
  }

  /** The body of `while (hasMatches)`: the horizontal pass, then the
      vertical one. It reports a match iff the board had a run, and a pass
      that reports none has left the board as it was. */
  method RerollPass(a: array2<Cell>) returns (hasMatches: bool)
    requires a.Length0 == N && a.Length1 == N
    modifies a
    ensures FullPass(old(Snapshot(a)), Snapshot(a))
    ensures !hasMatches ==> Snapshot(a) == old(Snapshot(a)) && !HasRun(Snapshot(a))
    ensures !HasRun(old(Snapshot(a))) ==> !hasMatches
    ensures hasMatches <==> HasRun(old(Snapshot(a)))
    ensures forall r, c :: 0 <= r < N && 0 <= c < N ==> Snapshot(a)[r][c] == old(Snapshot(a))[r][c] || Snapshot(a)[r][c].Filled?
  {
    ghost var start := Snapshot(a);
    var rowRerolled := RerollRuns(a, true);
    ghost var middle := Snapshot(a);
    if !rowRerolled {
      PassWithoutRunKeepsBoard(start, true, middle);
    }
    var colRerolled := RerollRuns(a, false);
    if !colRerolled {
      PassWithoutRunKeepsBoard(middle, false, Snapshot(a));
    }
    if !rowRerolled && !colRerolled {
      forall r, c
        ensures !RowRun(start, r, c) && !ColRun(start, r, c)
      {
        assert !StartsRun(start, true, r, c) && !StartsRun(middle, false, r, c);
      }
    }
    RerolledKeepsOrFills(start, true, middle);
    RerolledKeepsOrFills(middle, false, Snapshot(a));
    KeepsOrFills(start, middle, Snapshot(a));
    hasMatches := rowRerolled || colRerolled;
  }

  /** removeInitialMatches on a copy of the board: passes repeat while the
      last one re-rolled something, for at most `maxPasses` passes. `trace`
      lists the board before each pass and the result: each step is one
      full pass, and a pass follows another only when that one found a run.
      The loop ends on its own (`settled`), with no run of three left, unless
      all `maxPasses` passes were spent; a board that has no run to begin with
      comes back as it was. */
  method RemoveInitialMatches(board: Grid, maxPasses: nat)
    returns (result: Grid, settled: bool, ghost trace: seq<Grid>)
    ensures settled ==> !HasRun(result)
    ensures 1 <= |trace| <= maxPasses + 1 && trace[0] == board && trace[|trace| - 1] == result
    ensures PassChain(trace)
    ensures !settled ==> |trace| == maxPasses + 1
    ensures forall i :: 0 <= i < |trace| - 2 ==> HasRun(trace[i])
    ensures !settled && maxPasses > 0 ==> HasRun(trace[|trace| - 2])
    ensures !HasRun(board) && maxPasses > 0 ==> settled && result == board
    ensures forall r, c :: 0 <= r < N && 0 <= c < N ==> result[r][c] == board[r][c] || result[r][c].Filled?
  {
    var boardCopy := CopyBoard(board);
    var hasMatches := true;
    var passes := 0;
    ghost var current := board;
    ghost var lastStart := board;
    ghost var prevStart := board;
    trace := [board];
    while hasMatches && passes < maxPasses
      invariant 0 <= passes <= maxPasses
      invariant current == Snapshot(boardCopy)
      invariant |trace| == passes + 1 && trace[0] == board && trace[passes] == current
      invariant PassChain(trace)
      invariant passes > 0 ==> |trace| >= 2 && trace[|trace| - 2] == lastStart
      invariant passes > 0 && hasMatches ==> HasRun(lastStart)
      invariant passes > 1 ==> trace[|trace| - 3] == prevStart && HasRun(prevStart)
      invariant !hasMatches ==> !HasRun(current)
      invariant !HasRun(board) ==> current == board && (passes > 0 ==> !hasMatches)
      invariant forall r, c :: 0 <= r < N && 0 <= c < N ==> current[r][c] == board[r][c] || current[r][c].Filled?
      decreases maxPasses - passes
    {
      ghost var before := current;
      prevStart := lastStart;
      lastStart := current;
      hasMatches := RerollPass(boardCopy);
      current := Snapshot(boardCopy);
      KeepsOrFills(board, before, current);
      assert (trace + [current])[..|trace|] == trace;
      trace := trace + [current];
      passes := passes + 1;
    }
    result := Snapshot(boardCopy);
    settled := !hasMatches;
    if |trace| >= 3 {
      RunsBefore(trace, |trace| - 3);
    }
  }

  /** The fresh board of shuffleBoard and initializeBoard: every cell gets a
      candy from getRandomCandy with nothing excluded. */
  method FillRandom() returns (board: Grid)
    ensures NoEmpty(board)
  {
    var a := new Cell[N, N];
    var row := 0;
    while row < N
      invariant 0 <= row <= N
      invariant forall r, c :: 0 <= r < row && 0 <= c < N ==> a[r, c].Filled?
    {
      var col := 0;
      while col < N
        invariant 0 <= col <= N
        invariant forall r, c :: 0 <= r < row && 0 <= c < N ==> a[r, c].Filled?
        invariant forall c :: 0 <= c < col ==> a[row, c].Filled?
      {
        var candy := GetRandomCandy(None);
        a[row, col] := Filled(candy);
        col := col + 1;
      }
      row := row + 1;
    }
    board := Snapshot(a);
  }

  /** What shuffleBoard and initializeBoard did, told by the boards of
      removeInitialMatches: `trace` starts from a board without "", each step
      is a full pass taken because the one before found a run, and it ends on
      `board`; the clean-up is `settled` unless all `maxPasses` passes were
      spent, and a settled board has no run. */
  ghost predicate CleanedUp(trace: seq<Grid>, maxPasses: nat, board: Grid, settled: bool)
  {
    1 <= |trace| <= maxPasses + 1 && NoEmpty(trace[0]) && trace[|trace| - 1] == board &&
    PassChain(trace) && (forall i :: 0 <= i < |trace| - 2 ==> HasRun(trace[i])) &&
    (settled ==> !HasRun(board)) && (!settled ==> |trace| == maxPasses + 1) &&
    (!settled && maxPasses > 0 ==> HasRun(trace[|trace| - 2]))
  }

  /** shuffleBoard (and initializeBoard, which is the same code): a random
      fill followed by removeInitialMatches. A settled result has no run and
      so no match; no cell is "". */
  method ShuffleBoard(maxPasses: nat) returns (board: Grid, settled: bool, ghost trace: seq<Grid>)
    ensures NoEmpty(board)
    ensures CleanedUp(trace, maxPasses, board, settled)
    ensures settled ==> !HasRun(board) && !HasMatch(board)
  {
    var newBoard := FillRandom();
    board, settled, trace := RemoveInitialMatches(newBoard, maxPasses);
    RunIsMatchWithoutEmpty(board);
  }
}
