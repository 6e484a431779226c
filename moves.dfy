/** handleCandyClick's adjacency test and checkForPossibleMoves, the deadlock
    check that tries every adjacent swap on a scratch copy of the board. */
module Moves {
  import opened Grids

  /** Math.abs on integers. */
  function Abs(x: int): (y: nat)
    ensures y == x || y == -x
  {
    if x < 0 then -x else x
  }

  /** The adjacency test of handleCandyClick: one coordinate differs by
      exactly 1 and the other is equal. */
  predicate IsAdjacent(a: Coord, b: Coord)
  {
    (Abs(a.row - b.row) == 1 && a.col == b.col) || (Abs(a.col - b.col) == 1 && a.row == b.row)
  }

  /** The four cells above, below, left and right of p. */
  function Neighbours(p: Coord): (ns: set<Coord>)
    ensures p !in ns
  {
    {Coord(p.row - 1, p.col), Coord(p.row + 1, p.col), Coord(p.row, p.col - 1), Coord(p.row, p.col + 1)}
  }

  /** The test accepts exactly the four orthogonal neighbours. */
  lemma AdjacentIffNeighbour(a: Coord, b: Coord)
    ensures IsAdjacent(a, b) <==> b in Neighbours(a)
  {
  }

  /** Adjacency does not depend on which cell was clicked first. */
  lemma AdjacentSymmetric(a: Coord, b: Coord)
    ensures IsAdjacent(a, b) <==> IsAdjacent(b, a)
  {
  }

  /** Clicking the selected cell again, or a diagonal neighbour, is no swap. */
  lemma SameOrDiagonalNotAdjacent(a: Coord, b: Coord)
    requires a == b || (Abs(a.row - b.row) == 1 && Abs(a.col - b.col) == 1)
    ensures !IsAdjacent(a, b)
  {
  }

  /** Some adjacent swap on the board produces three equal cells in a row. */
  ghost predicate HasPossibleMove(g: Grid)
  {
    exists a: Coord, b: Coord :: InBounds(a) && InBounds(b) && IsAdjacent(a, b) && HasRun(Swapped(g, a, b))
  }

  /** Swapping (r, c) with its right neighbour makes a run. */
  ghost predicate RowSwapMakesRun(g: Grid, r: int, c: int)
  {
    0 <= r < N && 0 <= c < N - 1 && HasRun(Swapped(g, Coord(r, c), Coord(r, c + 1)))
  }

  /** Swapping (r, c) with the cell below it makes a run. */
  ghost predicate ColSwapMakesRun(g: Grid, r: int, c: int)
  {
    0 <= r < N - 1 && 0 <= c < N && HasRun(Swapped(g, Coord(r, c), Coord(r + 1, c)))
  }

  /** An adjacent pair is a left-right pair or a top-bottom pair, given in
      either order. */
  lemma {:induction false} AdjacentIsRowOrColSwap(g: Grid, a: Coord, b: Coord)
    requires InBounds(a) && InBounds(b) && IsAdjacent(a, b)
    ensures exists r, c ::
      (0 <= r < N && 0 <= c < N - 1 && Swapped(g, a, b) == Swapped(g, Coord(r, c), Coord(r, c + 1))) ||
      (0 <= r < N - 1 && 0 <= c < N && Swapped(g, a, b) == Swapped(g, Coord(r, c), Coord(r + 1, c)))
  {
    SwapSymmetric(g, a, b);
    if a.row == b.row && b.col == a.col + 1 {
      assert Coord(a.row, a.col) == a && Coord(a.row, a.col + 1) == b;
    } else if a.row == b.row {
      assert Coord(b.row, b.col) == b && Coord(b.row, b.col + 1) == a;
    } else if b.row == a.row + 1 {
      assert Coord(a.row, a.col) == a && Coord(a.row + 1, a.col) == b;
    } else {
      assert Coord(b.row, b.col) == b && Coord(b.row + 1, b.col) == a;
    }
  }

  /** Trying each left-right pair and each top-bottom pair once, as the two
      loop nests of checkForPossibleMoves do, covers every adjacent swap. */
  lemma PossibleMoveIsRowOrColSwap(g: Grid)
    ensures HasPossibleMove(g) <==> exists r, c :: RowSwapMakesRun(g, r, c) || ColSwapMakesRun(g, r, c)
  {
    if HasPossibleMove(g) {
      PossibleMoveFound(g);
    }
    if exists r, c :: RowSwapMakesRun(g, r, c) || ColSwapMakesRun(g, r, c) {
      var r, c :| RowSwapMakesRun(g, r, c) || ColSwapMakesRun(g, r, c);
      SwapMakesRunIsMove(g, r, c);
    }
  }

  /** The direction of PossibleMoveIsRowOrColSwap that names the pair. */
  lemma SwapMakesRunIsMove(g: Grid, r: int, c: int)
    requires RowSwapMakesRun(g, r, c) || ColSwapMakesRun(g, r, c)
    ensures HasPossibleMove(g)
  {
    if RowSwapMakesRun(g, r, c) {
      assert IsAdjacent(Coord(r, c), Coord(r, c + 1));
    } else {
      assert IsAdjacent(Coord(r, c), Coord(r + 1, c));
    }
  }

  /** The direction of PossibleMoveIsRowOrColSwap that needs the case split. */
  lemma PossibleMoveFound(g: Grid)
    requires HasPossibleMove(g)
    ensures exists r, c :: RowSwapMakesRun(g, r, c) || ColSwapMakesRun(g, r, c)
  {
    var a: Coord, b: Coord :| InBounds(a) && InBounds(b) && IsAdjacent(a, b) && HasRun(Swapped(g, a, b));
    AdjacentIsRowOrColSwap(g, a, b);
    var r, c :|
      (0 <= r < N && 0 <= c < N - 1 && Swapped(g, a, b) == Swapped(g, Coord(r, c), Coord(r, c + 1))) ||
      (0 <= r < N - 1 && 0 <= c < N && Swapped(g, a, b) == Swapped(g, Coord(r, c), Coord(r + 1, c)));
    assert RowSwapMakesRun(g, r, c) || ColSwapMakesRun(g, r, c);
  }

  /** Swapping two cells of a board without "" leaves no "". */
  lemma SwapKeepsNoEmpty(g: Grid, a: Coord, b: Coord)
    requires InBounds(a) && InBounds(b) && NoEmpty(g)
    ensures NoEmpty(Swapped(g, a, b))
  {
  }

  /** On a board without "" (the only kind dropCandies hands over), a possible
      move is exactly an adjacent swap that checkForMatches would accept. */
  lemma PossibleMoveIsMatchingSwap(g: Grid)
    requires NoEmpty(g)
    ensures HasPossibleMove(g) <==>
      exists a: Coord, b: Coord :: InBounds(a) && InBounds(b) && IsAdjacent(a, b) && HasMatch(Swapped(g, a, b))
  {
    forall a: Coord, b: Coord | InBounds(a) && InBounds(b)
      ensures HasRun(Swapped(g, a, b)) <==> HasMatch(Swapped(g, a, b))
    {
      SwapKeepsNoEmpty(g, a, b);
      RunIsMatchWithoutEmpty(Swapped(g, a, b));
    }
  }

  /** The two match scans inside checkForPossibleMoves, on the scratch copy:
      they return as soon as three equal cells are found. Unlike
      checkForMatches they do not skip "". */
  method ScanForRun(a: array2<Cell>) returns (found: bool)
    requires a.Length0 == N && a.Length1 == N
    ensures found <==> HasRun(Snapshot(a))
  {
    ghost var g := Snapshot(a);
    var r := 0;
    while r < N
      invariant 0 <= r <= N
      invariant forall i, j :: ScannedBefore(i, j, r, 0) ==> !RowRun(g, i, j)
    {
      var c := 0;
      while c < N - 2
        invariant 0 <= c <= N - 2
        invariant forall i, j :: ScannedBefore(i, j, r, c) ==> !RowRun(g, i, j)
      {
        if a[r, c] == a[r, c + 1] && a[r, c] == a[r, c + 2] {
          assert RowRun(g, r, c);
          return true;
        }
        c := c + 1;
      }
      r := r + 1;
    }
    assert !HasRowRun(g);

    r := 0;
    while r < N - 2
      invariant 0 <= r <= N - 2
      invariant forall i, j :: ScannedBefore(i, j, r, 0) ==> !ColRun(g, i, j)
    {
      var c := 0;
      while c < N
        invariant 0 <= c <= N
        invariant forall i, j :: ScannedBefore(i, j, r, c) ==> !ColRun(g, i, j)
      {
        if a[r, c] == a[r + 1, c] && a[r, c] == a[r + 2, c] {
          assert ColRun(g, r, c);
          return true;
        }
        c := c + 1;
      }
      r := r + 1;
    }
    assert !HasColRun(g);
    return false;
  }

  /** checkForPossibleMoves: every horizontal swap, then every vertical swap,
      each on a fresh copy of the board, stopping at the first that yields a
      run. The board itself is a value and is never changed. */
  method CheckForPossibleMoves(currentBoard: Grid) returns (hasMoves: bool)
    ensures hasMoves <==> HasPossibleMove(currentBoard)
  {
    // Horizontal swaps.
    var row := 0;
    while row < N
      invariant 0 <= row <= N
      invariant forall r, c :: ScannedBefore(r, c, row, 0) ==> !RowSwapMakesRun(currentBoard, r, c)
    {
      var col := 0;
      while col < N - 1
        invariant 0 <= col <= N - 1
        invariant forall r, c :: ScannedBefore(r, c, row, col) ==> !RowSwapMakesRun(currentBoard, r, c)
      {
        var tempBoard := CopyBoard(currentBoard);
        SwapCells(tempBoard, Coord(row, col), Coord(row, col + 1));
        var found := ScanForRun(tempBoard);
        if found {
          assert RowSwapMakesRun(currentBoard, row, col);
          PossibleMoveIsRowOrColSwap(currentBoard);
          return true;
        }
        col := col + 1;
      }
      row := row + 1;
    }

    // Vertical swaps.
    row := 0;
    while row < N - 1
      invariant 0 <= row <= N - 1
      invariant forall r, c :: ScannedBefore(r, c, row, 0) ==> !ColSwapMakesRun(currentBoard, r, c)
    {
      var col := 0;
      while col < N
        invariant 0 <= col <= N
        invariant forall r, c :: ScannedBefore(r, c, row, col) ==> !ColSwapMakesRun(currentBoard, r, c)
      {
        var tempBoard := CopyBoard(currentBoard);
        SwapCells(tempBoard, Coord(row, col), Coord(row + 1, col));
        var found := ScanForRun(tempBoard);
        if found {
          assert ColSwapMakesRun(currentBoard, row, col);
          PossibleMoveIsRowOrColSwap(currentBoard);
          return true;
        }
        col := col + 1;
      }
      row := row + 1;
    }
    PossibleMoveIsRowOrColSwap(currentBoard);
    return false;
  }
}
