/** checkForMatches: find every horizontal and vertical triple of equal
    candies, score ten points per distinct cell, and clear those cells. */
module Matching {
  import opened Grids

  /** Cell p lies in a horizontal triple whose first cell the row scan has
      already visited when it stands at (row, col). */
  predicate RowScanned(g: Grid, p: Coord, row: int, col: int)
  {
    (RowMatch(g, p.row, p.col) && ScannedBefore(p.row, p.col, row, col)) ||
    (RowMatch(g, p.row, p.col - 1) && ScannedBefore(p.row, p.col - 1, row, col)) ||
    (RowMatch(g, p.row, p.col - 2) && ScannedBefore(p.row, p.col - 2, row, col))
  }

  /** The same for vertical triples and the column scan. */
  predicate ColScanned(g: Grid, p: Coord, row: int, col: int)
  {
    (ColMatch(g, p.row, p.col) && ScannedBefore(p.row, p.col, row, col)) ||
    (ColMatch(g, p.row - 1, p.col) && ScannedBefore(p.row - 1, p.col, row, col)) ||
    (ColMatch(g, p.row - 2, p.col) && ScannedBefore(p.row - 2, p.col, row, col))
  }

  /** The horizontal scan of checkForMatches: pushes the three cells of every
      horizontal triple of non-empty cells, row by row. */
  method PushRowTriples(a: array2<Cell>) returns (found: bool, matched: seq<Coord>)
    requires a.Length0 == N && a.Length1 == N
    ensures found <==> |matched| > 0
    ensures forall p :: p in matched <==> RowScanned(Snapshot(a), p, N, 0)
  {
    ghost var g := Snapshot(a);
    found, matched := false, [];
    var row := 0;
    while row < N
      invariant 0 <= row <= N
      invariant found <==> |matched| > 0
      invariant forall p :: p in matched <==> RowScanned(g, p, row, 0)
    {
      var col := 0;
      while col < N - 2
        invariant 0 <= col <= N - 2
        invariant found <==> |matched| > 0
        invariant forall p :: p in matched <==> RowScanned(g, p, row, col)
      {
        if a[row, col] != Empty && a[row, col] == a[row, col + 1] && a[row, col] == a[row, col + 2] {
          found := true;
          matched := matched + [Coord(row, col), Coord(row, col + 1), Coord(row, col + 2)];
        }
        col := col + 1;
      }
      row := row + 1;
    }
  }

  /** The vertical scan of checkForMatches, pushing onto the same list. */
  method PushColumnTriples(a: array2<Cell>, found0: bool, matched0: seq<Coord>)
    returns (found: bool, matched: seq<Coord>)
    requires a.Length0 == N && a.Length1 == N
    requires found0 <==> |matched0| > 0
    ensures found <==> |matched| > 0
    ensures forall p :: p in matched <==> p in matched0 || ColScanned(Snapshot(a), p, N - 2, 0)
  {
    ghost var g := Snapshot(a);
    found, matched := found0, matched0;
    var row := 0;
    while row < N - 2
      invariant 0 <= row <= N - 2
      invariant found <==> |matched| > 0
      invariant forall p :: p in matched <==> p in matched0 || ColScanned(g, p, row, 0)
    {
      var col := 0;
      while col < N
        invariant 0 <= col <= N
        invariant found <==> |matched| > 0
        invariant forall p :: p in matched <==> p in matched0 || ColScanned(g, p, row, col)
      {
        if a[row, col] != Empty && a[row, col] == a[row + 1, col] && a[row, col] == a[row + 2, col] {
          found := true;
          matched := matched + [Coord(row, col), Coord(row + 1, col), Coord(row + 2, col)];
        }
        col := col + 1;
      }
      row := row + 1;
    }
  }

  /** The two scans of checkForMatches over the working copy: `matched` lists
      the three cells of every triple found (a cell may appear more than once),
      and `found` says whether there was any. */
  method FindMatches(a: array2<Cell>) returns (found: bool, matched: seq<Coord>)
    requires a.Length0 == N && a.Length1 == N
    ensures found <==> HasMatch(Snapshot(a))
    ensures found <==> |matched| > 0
    ensures forall p :: p in matched <==> InMatch(Snapshot(a), p)
  {
    ghost var g := Snapshot(a);
    var rowFound, rowMatched := PushRowTriples(a);
    found, matched := PushColumnTriples(a, rowFound, rowMatched);
    assert forall p :: p in matched <==> InMatch(g, p);
    if found {
      var p := matched[0];
      assert InMatch(g, p);
    }
    if HasMatch(g) {
      var r, c :| RowMatch(g, r, c) || ColMatch(g, r, c);
      assert Coord(r, c) in matched by {
        assert InMatch(g, Coord(r, c));
      }
    }
  }

  /** No coordinate occurs twice. */
  predicate Distinct(s: seq<Coord>)
  {
    forall i, j :: 0 <= i < j < |s| ==> s[i] != s[j]
  }

  /** The de-duplication step of checkForMatches: an entry is kept exactly
      when no earlier entry has the same row and column. */
  function UniqueMatches(matched: seq<Coord>): (unique: seq<Coord>)
    ensures forall p :: p in unique <==> p in matched
    ensures Distinct(unique)
  {
    if |matched| == 0 then []
    else
      var earlier := matched[..|matched| - 1];
      var last := matched[|matched| - 1];
      var rest := UniqueMatches(earlier);
      assert forall p :: p in matched <==> p in earlier || p == last;
      if last in earlier then rest else rest + [last]
  }

  /** A sequence without duplicates has as many entries as elements. */
  lemma {:induction false} DistinctCardinality(s: seq<Coord>)
    requires Distinct(s)
    ensures |set p | p in s| == |s|
  {
    if |s| > 0 {
      var init := s[..|s| - 1];
      var last := s[|s| - 1];
      assert Distinct(init);
      DistinctCardinality(init);
      assert last !in init;
      assert (set p | p in s) == (set p | p in init) + {last};
    }
  }

  /** The three cells of one triple are distinct, so a match clears at least three. */
  lemma MatchClearsAtLeastThree(g: Grid)
    requires HasMatch(g)
    ensures |MatchedCells(g)| >= 3
  {
    var r, c :| RowMatch(g, r, c) || ColMatch(g, r, c);
    var triple := if RowMatch(g, r, c) then {Coord(r, c), Coord(r, c + 1), Coord(r, c + 2)}
                  else {Coord(r, c), Coord(r + 1, c), Coord(r + 2, c)};
    forall p | p in triple
      ensures p in MatchedCells(g)
    {
      MatchedCellsMembership(g, p);
    }
    assert |triple| == 3;
    assert triple <= MatchedCells(g);
    SubsetCardinality(triple, MatchedCells(g));
  }

  lemma {:induction false} SubsetCardinality(a: set<Coord>, b: set<Coord>)
    requires a <= b
    ensures |a| <= |b|
  {
    if a != {} {
      var x :| x in a;
      SubsetCardinality(a - {x}, b - {x});
    }
  }

  /** The clearing step: every listed cell of the working copy becomes "". */
  method ClearCells(a: array2<Cell>, cells: seq<Coord>)
    requires a.Length0 == N && a.Length1 == N
    requires forall p :: p in cells ==> InBounds(p)
    modifies a
    ensures forall r, c :: 0 <= r < N && 0 <= c < N ==>
      a[r, c] == if Coord(r, c) in cells then Empty else old(a[r, c])
  {
    var i := 0;
    while i < |cells|
      invariant 0 <= i <= |cells|
      invariant forall r, c :: 0 <= r < N && 0 <= c < N ==>
        a[r, c] == if Coord(r, c) in cells[..i] then Empty else old(a[r, c])
    {
      var p := cells[i];
      assert InBounds(p);
      a[p.row, p.col] := Empty;
      assert cells[..i + 1] == cells[..i] + [cells[i]];
      i := i + 1;
    }
    assert cells[..i] == cells;
  }

  /** The board checkForMatches leaves behind: "" at every matched cell and
      the old candy everywhere else. */
  function ClearedOf(g: Grid): Grid
  {
    seq(N, r requires 0 <= r < N =>
      seq(N, c requires 0 <= c < N =>
        if InMatch(g, Coord(r, c)) then Empty else g[r][c]))
  }

  /** checkForMatches on a board: whether a triple exists, the score passed to
      onScoreUpdate (0 when none), and the board after the matched cells are
      cleared. The caller's board is a value and so is never changed. */
  method CheckForMatches(board: Grid) returns (found: bool, points: nat, cleared: Grid)
    ensures found <==> HasMatch(board)
    ensures points == 10 * |MatchedCells(board)|
    ensures found ==> points >= 30
    ensures forall r, c :: 0 <= r < N && 0 <= c < N ==>
      cleared[r][c] == if InMatch(board, Coord(r, c)) then Empty else board[r][c]
    ensures cleared == ClearedOf(board)
  {
    var boardCopy := CopyBoard(board);
    var matched;
    found, matched := FindMatches(boardCopy);
    var unique := UniqueMatches(matched);
    DistinctCardinality(unique);
    assert (set p | p in unique) == MatchedCells(board) by {
      forall p
        ensures p in unique <==> p in MatchedCells(board)
      {
        MatchedCellsMembership(board, p);
      }
    }
    if found {
      points := |unique| * 10;
      MatchClearsAtLeastThree(board);
      ClearCells(boardCopy, unique);
      cleared := Snapshot(boardCopy);
    } else {
      points := 0;
      cleared := board;
      assert forall r, c :: 0 <= r < N && 0 <= c < N ==> Coord(r, c) !in matched;
    }
    GridExt(cleared, ClearedOf(board));
  }
}
