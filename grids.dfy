/** The 8x8 board of candies, the transient "cleared" marker, and the run
    predicates shared by every scan of game-board.tsx. */
module Grids {

  /** BOARD_SIZE */
  const N: nat := 8

  /** The six entries of CANDY_TYPES. */
  datatype Candy = Apple | Orange | Grapes | Sweet | Chocolate | Lollipop

  const CandyTypes: seq<Candy> := [Apple, Orange, Grapes, Sweet, Chocolate, Lollipop]

  /** CANDY_TYPES lists every candy. */
  lemma CandyTypesComplete(candy: Candy)
    ensures candy in CandyTypes
  {
    match candy
    case Apple => assert CandyTypes[0] == candy;
    case Orange => assert CandyTypes[1] == candy;
    case Grapes => assert CandyTypes[2] == candy;
    case Sweet => assert CandyTypes[3] == candy;
    case Chocolate => assert CandyTypes[4] == candy;
    case Lollipop => assert CandyTypes[5] == candy;
  }

  /** A board cell: a candy, or the empty string "" that marks a cleared cell. */
  datatype Cell = Filled(candy: Candy) | Empty

  /** A `{ row, col }` position. */
  datatype Coord = Coord(row: int, col: int)

  datatype Option<T> = None | Some(value: T)

  predicate IsGrid(g: seq<seq<Cell>>)
  {
    |g| == N && forall r :: 0 <= r < N ==> |g[r]| == N
  }

  /** An immutable snapshot of the board, as React keeps it in state. */
  type Grid = g: seq<seq<Cell>> | IsGrid(g) witness seq(N, _ => seq(N, _ => Empty))

  predicate InBounds(p: Coord)
  {
    0 <= p.row < N && 0 <= p.col < N
  }

  /** Row-major scan order: (r, c) is visited before (row, col). */
  predicate ScannedBefore(r: int, c: int, row: int, col: int)
  {
    r < row || (r == row && c < col)
  }

  /** No cell holds "". */
  predicate NoEmpty(g: Grid)
  {
    forall r, c :: 0 <= r < N && 0 <= c < N ==> g[r][c].Filled?
  }

  // ---------------------------------------------------------------------
  // Runs of three.
  //
  // removeInitialMatches and checkForPossibleMoves compare three cells
  // with === and nothing else (a RowRun / ColRun); checkForMatches also
  // demands that the first cell is not "" (a RowMatch / ColMatch).
  // ---------------------------------------------------------------------

  /** Cells (r, c), (r, c + 1), (r, c + 2) exist and are equal. */
  predicate RowRun(g: Grid, r: int, c: int)
  {
    0 <= r < N && 0 <= c < N - 2 && g[r][c] == g[r][c + 1] && g[r][c] == g[r][c + 2]
  }

  /** Cells (r, c), (r + 1, c), (r + 2, c) exist and are equal. */
  predicate ColRun(g: Grid, r: int, c: int)
  {
    0 <= r < N - 2 && 0 <= c < N && g[r][c] == g[r + 1][c] && g[r][c] == g[r + 2][c]
  }

  predicate RowMatch(g: Grid, r: int, c: int)
  {
    RowRun(g, r, c) && g[r][c] != Empty
  }

  predicate ColMatch(g: Grid, r: int, c: int)
  {
    ColRun(g, r, c) && g[r][c] != Empty
  }

  ghost predicate HasRowRun(g: Grid)
  {
    exists r, c :: RowRun(g, r, c)
  }

  ghost predicate HasColRun(g: Grid)
  {
    exists r, c :: ColRun(g, r, c)
  }

  /** Some row or column holds three equal consecutive cells. */
  ghost predicate HasRun(g: Grid)
  {
    HasRowRun(g) || HasColRun(g)
  }

  /** Some row or column holds three equal consecutive candies (never ""). */
  ghost predicate HasMatch(g: Grid)
  {
    exists r, c :: RowMatch(g, r, c) || ColMatch(g, r, c)
  }

  /** Cell p belongs to a horizontal or vertical triple of equal candies. */
  predicate InMatch(g: Grid, p: Coord)
    ensures InMatch(g, p) ==> InBounds(p)
  {
    RowMatch(g, p.row, p.col) || RowMatch(g, p.row, p.col - 1) || RowMatch(g, p.row, p.col - 2) ||
    ColMatch(g, p.row, p.col) || ColMatch(g, p.row - 1, p.col) || ColMatch(g, p.row - 2, p.col)
  }

  /** The cells that belong to some triple, each once. */
  ghost function MatchedCells(g: Grid): set<Coord>
  {
    set r, c | 0 <= r < N && 0 <= c < N && InMatch(g, Coord(r, c)) :: Coord(r, c)
  }

  lemma MatchedCellsMembership(g: Grid, p: Coord)
    ensures p in MatchedCells(g) <==> InMatch(g, p)
  {
    if InMatch(g, p) {
      assert Coord(p.row, p.col) == p;
    }
  }

  /** On a board without "", the unguarded test used by removeInitialMatches and
      checkForPossibleMoves agrees with the guarded test of checkForMatches. */
  lemma RunIsMatchWithoutEmpty(g: Grid)
    requires NoEmpty(g)
    ensures HasRun(g) <==> HasMatch(g)
  {
    if HasRowRun(g) {
      var r, c :| RowRun(g, r, c);
      assert RowMatch(g, r, c);
    }
    if HasColRun(g) {
      var r, c :| ColRun(g, r, c);
      assert ColMatch(g, r, c);
    }
    if HasMatch(g) {
      var r, c :| RowMatch(g, r, c) || ColMatch(g, r, c);
      if RowMatch(g, r, c) {
        assert HasRowRun(g);
      } else {
        assert HasColRun(g);
      }
    }
  }

  // ---------------------------------------------------------------------
  // Swapping two cells.
  // ---------------------------------------------------------------------

  /** The board with the contents of cells a and b exchanged. */
  function Swapped(g: Grid, a: Coord, b: Coord): (h: Grid)
    requires InBounds(a) && InBounds(b)
  {
    seq(N, r requires 0 <= r < N =>
      seq(N, c requires 0 <= c < N =>
        if Coord(r, c) == a then g[b.row][b.col]
        else if Coord(r, c) == b then g[a.row][a.col]
        else g[r][c]))
  }

  /** Two boards that agree cell by cell are equal. */
  lemma GridExt(g: Grid, h: Grid)
    requires forall r, c :: 0 <= r < N && 0 <= c < N ==> g[r][c] == h[r][c]
    ensures g == h
  {
    forall r | 0 <= r < N
      ensures g[r] == h[r]
    {
      assert forall c :: 0 <= c < N ==> g[r][c] == h[r][c];
    }
  }

  /** Swapping the same two cells again restores the board cell for cell. */
  lemma SwapTwiceRestores(g: Grid, a: Coord, b: Coord)
    requires InBounds(a) && InBounds(b)
    ensures Swapped(Swapped(g, a, b), a, b) == g
  {
    var h := Swapped(Swapped(g, a, b), a, b);
    forall r, c | 0 <= r < N && 0 <= c < N
      ensures h[r][c] == g[r][c]
    {
    }
    GridExt(h, g);
  }

  /** The order of the two cells does not matter. */
  lemma SwapSymmetric(g: Grid, a: Coord, b: Coord)
    requires InBounds(a) && InBounds(b)
    ensures Swapped(g, a, b) == Swapped(g, b, a)
  {
    var h, k := Swapped(g, a, b), Swapped(g, b, a);
    forall r, c | 0 <= r < N && 0 <= c < N
      ensures h[r][c] == k[r][c]
    {
    }
    GridExt(h, k);
  }

  // ---------------------------------------------------------------------
  // Mutable working copies: each deep copy of the board the component makes.
  // ---------------------------------------------------------------------

  /** The board held in a working array. */
  function Snapshot(a: array2<Cell>): (g: Grid)
    requires a.Length0 == N && a.Length1 == N
    reads a
    ensures forall r, c :: 0 <= r < N && 0 <= c < N ==> g[r][c] == a[r, c]
  {
    seq(N, r requires 0 <= r < N reads a => seq(N, c requires 0 <= c < N reads a => a[r, c]))
  }

  /** A deep copy of the board into a fresh working array. */
  method CopyBoard(g: Grid) returns (a: array2<Cell>)
    ensures fresh(a) && a.Length0 == N && a.Length1 == N
    ensures forall r, c :: 0 <= r < N && 0 <= c < N ==> a[r, c] == g[r][c]
    ensures Snapshot(a) == g
  {
    a := new Cell[N, N]((r, c) requires 0 <= r < N && 0 <= c < N => g[r][c]);
    GridExt(Snapshot(a), g);
  }

  /** The exchange of swapCandies on a working array: the first cell is saved
      aside, overwritten with the second, and the second gets the saved value. */
  method SwapCells(a: array2<Cell>, p: Coord, q: Coord)
    requires a.Length0 == N && a.Length1 == N
    requires InBounds(p) && InBounds(q)
    modifies a
    ensures Snapshot(a) == Swapped(old(Snapshot(a)), p, q)
  {
    ghost var g := Snapshot(a);
    var temp := a[p.row, p.col];
    a[p.row, p.col] := a[q.row, q.col];
    a[q.row, q.col] := temp;
    GridExt(Snapshot(a), Swapped(g, p, q));
  }

  // ---------------------------------------------------------------------
  // Candy sampling.
  // ---------------------------------------------------------------------

  /** getRandomCandy: draws candies until one differs from `exclude`; `None`
      stands for a call without an argument. The random draw is a free choice
      among the candies that the loop can return. */
  method GetRandomCandy(exclude: Option<Cell>) returns (candy: Candy)
    ensures candy in CandyTypes
    ensures exclude != Some(Filled(candy))
  {
    assert exclude != Some(Filled(Apple)) || exclude != Some(Filled(Orange));
    candy :| exclude != Some(Filled(candy));
    CandyTypesComplete(candy);
  }
}
