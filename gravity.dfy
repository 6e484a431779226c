/** dropCandies: let the candies of every column fall into the cleared ("")
    cells below them, then refill the cells left empty at the top. */
module Gravity {
  import opened Grids

  /** Column c of the board, top (row 0) first. */
  function Column(g: Grid, c: int): (s: seq<Cell>)
    requires 0 <= c < N
    ensures |s| == N && forall r :: 0 <= r < N ==> s[r] == g[r][c]
  {
    seq(N, r requires 0 <= r < N => g[r][c])
  }

  /** The number of "" cells. */
  function CountEmpty(s: seq<Cell>): (k: nat)
    ensures k <= |s|
  {
    if s == [] then 0 else (if s[0] == Empty then 1 else 0) + CountEmpty(s[1..])
  }

  /** The candies of s, in their order, without the "" cells. */
  function Candies(s: seq<Cell>): (t: seq<Cell>)
    ensures |t| == |s| - CountEmpty(s)
    ensures forall i :: 0 <= i < |t| ==> t[i].Filled?
  {
    if s == [] then [] else (if s[0] == Empty then [] else [s[0]]) + Candies(s[1..])
  }

  function Empties(k: nat): (t: seq<Cell>)
    ensures |t| == k
  {
    seq(k, _ => Empty)
  }

  /** A column after gravity: all its "" cells on top, its candies below them. */
  function Compacted(s: seq<Cell>): (t: seq<Cell>)
    ensures |t| == |s|
  {
    Empties(CountEmpty(s)) + Candies(s)
  }

  // ---------------------------------------------------------------------
  // What gravity promises about a column.
  // ---------------------------------------------------------------------

  /** No "" cell lies below a candy. */
  lemma CompactedSettled(s: seq<Cell>)
    ensures forall i, j :: 0 <= i < j < |s| && Compacted(s)[i].Filled? ==> Compacted(s)[j].Filled?
  {
    var t, k := Compacted(s), CountEmpty(s);
    forall i, j | 0 <= i < j < |s| && t[i].Filled?
      ensures t[j].Filled?
    {
      assert i >= k;
      assert t[j] == Candies(s)[j - k];
    }
  }

  lemma {:induction false} CountEmptyAppend(s: seq<Cell>, u: seq<Cell>)
    ensures CountEmpty(s + u) == CountEmpty(s) + CountEmpty(u)
  {
    if s != [] {
      assert (s + u)[1..] == s[1..] + u;
      CountEmptyAppend(s[1..], u);
    } else {
      assert s + u == u;
    }
  }

  lemma {:induction false} CandiesAppend(s: seq<Cell>, u: seq<Cell>)
    ensures Candies(s + u) == Candies(s) + Candies(u)
  {
    if s != [] {
      assert (s + u)[1..] == s[1..] + u;
      CandiesAppend(s[1..], u);
    } else {
      assert s + u == u;
    }
  }

  lemma {:induction false} EmptiesHoldNoCandy(k: nat)
    ensures Candies(Empties(k)) == [] && CountEmpty(Empties(k)) == k
  {
    if k > 0 {
      assert Empties(k)[1..] == Empties(k - 1);
      EmptiesHoldNoCandy(k - 1);
    }
  }

  lemma {:induction false} CandiesOfCandies(s: seq<Cell>)
    requires forall i :: 0 <= i < |s| ==> s[i].Filled?
    ensures Candies(s) == s && CountEmpty(s) == 0
  {
    if s != [] {
      CandiesOfCandies(s[1..]);
    }
  }

  /** Gravity keeps the candies of a column in their top-to-bottom order and
      the number of "" cells; so a second drop changes nothing. */
  lemma CompactedKeepsCandies(s: seq<Cell>)
    ensures Candies(Compacted(s)) == Candies(s)
    ensures CountEmpty(Compacted(s)) == CountEmpty(s)
    ensures Compacted(Compacted(s)) == Compacted(s)
  {
    var k := CountEmpty(s);
    CandiesAppend(Empties(k), Candies(s));
    CountEmptyAppend(Empties(k), Candies(s));
    EmptiesHoldNoCandy(k);
    CandiesOfCandies(Candies(s));
  }

  lemma ConsUnfold(x: Cell, t: seq<Cell>)
    ensures CountEmpty([x] + t) == (if x == Empty then 1 else 0) + CountEmpty(t)
    ensures Candies([x] + t) == (if x == Empty then [] else [x]) + Candies(t)
  {
    var u := [x] + t;
    assert u[0] == x && u[1..] == t;
  }

  /** One step of the bottom-up scan over a "" cell: it joins the "" cells on top. */
  lemma CompactedConsEmpty(t: seq<Cell>)
    ensures CountEmpty([Empty] + t) == CountEmpty(t) + 1
    ensures Compacted([Empty] + t) == [Empty] + Compacted(t)
  {
    ConsUnfold(Empty, t);
    var e := CountEmpty(t);
    assert Empties(e + 1) == [Empty] + Empties(e);
  }

  /** One step of the bottom-up scan over a candy x: it lands right below the
      "" cells, above the candies already settled. */
  lemma CompactedConsCandy(x: Cell, t: seq<Cell>, k: int)
    requires x != Empty && 0 <= k <= |t|
    ensures CountEmpty([x] + t) == CountEmpty(t)
    ensures Compacted([x] + t)[k] ==
      if k < CountEmpty(t) then Empty
      else if k == CountEmpty(t) then x
      else Compacted(t)[k - 1]
  {
    ConsUnfold(x, t);
    var e := CountEmpty(t);
    var ct := Candies(t);
    var cu := Compacted([x] + t);
    assert cu == Empties(e) + ([x] + ct);
    if k < e {
      assert cu[k] == Empties(e)[k];
    } else if k == e {
      assert cu[k] == x;
    } else {
      assert cu[k] == ct[k - 1 - e];
      assert Compacted(t)[k - 1] == ct[k - 1 - e];
    }
  }

  // ---------------------------------------------------------------------
  // The two loops of dropCandies, on the working copy.
  // ---------------------------------------------------------------------

  /** The column as the bottom-up scan of dropCandies leaves it once it has
      visited every row below `row`: rows 0..row untouched, the rows below
      already compacted. */
  ghost function PartlyCompacted(s: seq<Cell>, row: int): (t: seq<Cell>)
    requires -1 <= row < |s|
    ensures |t| == |s|
  {
    s[..row + 1] + Compacted(s[row + 1..])
  }

  /** Once row 0 is visited the whole column is compacted. */
  lemma ScanDone(s: seq<Cell>)
    ensures PartlyCompacted(s, -1) == Compacted(s)
  {
    assert s[..0] == [] && s[0..] == s;
  }

  /** Visiting `row`: a "" cell is only counted; a candy with `e` "" cells
      below it moves down by `e` rows and leaves "" behind. */
  lemma ScanStep(s: seq<Cell>, row: int)
    requires 0 <= row < |s|
    ensures CountEmpty(s[row..]) == CountEmpty(s[row + 1..]) + (if s[row] == Empty then 1 else 0)
    ensures PartlyCompacted(s, row)[row] == s[row]
    ensures s[row] == Empty || CountEmpty(s[row + 1..]) == 0 ==>
      PartlyCompacted(s, row - 1) == PartlyCompacted(s, row)
    ensures s[row] != Empty && CountEmpty(s[row + 1..]) > 0 ==>
      PartlyCompacted(s, row - 1) ==
        PartlyCompacted(s, row)[row + CountEmpty(s[row + 1..]) := s[row]][row := Empty]
  {
    var below := s[row + 1..];
    var e := CountEmpty(below);
    assert s[row..] == [s[row]] + below;
    var before, after := PartlyCompacted(s, row), PartlyCompacted(s, row - 1);
    if s[row] == Empty {
      CompactedConsEmpty(below);
      assert s[..row + 1] == s[..row] + [Empty];
      assert after == before;
    } else {
      CompactedConsCandy(s[row], below, 0);
      var expected := if e == 0 then before else before[row + e := s[row]][row := Empty];
      forall r | 0 <= r < |s|
        ensures after[r] == expected[r]
      {
        if r > row {
          CompactedConsCandy(s[row], below, r - row);
        } else if r == row {
          CompactedConsCandy(s[row], below, 0);
        }
      }
      assert after == expected;
    }
  }

  /** The first half of dropCandies on column `col`, whose cells are `s`:
      every candy slides down past the empty cells below it. */
  method CompactColumn(a: array2<Cell>, col: int, ghost s: seq<Cell>)
    requires a.Length0 == N && a.Length1 == N && 0 <= col < N
    requires |s| == N && forall r :: 0 <= r < N ==> s[r] == a[r, col]
    modifies a
    ensures forall r :: 0 <= r < N ==> a[r, col] == Compacted(s)[r]
    ensures forall r, c :: 0 <= r < N && 0 <= c < N && c != col ==> a[r, c] == old(a[r, c])
  {
    var emptySpaces := 0;
    var row := N - 1;
    while row >= 0
      invariant -1 <= row < N
      invariant emptySpaces == CountEmpty(s[row + 1..])
      invariant forall r :: 0 <= r < N ==> a[r, col] == PartlyCompacted(s, row)[r]
      invariant forall r, c :: 0 <= r < N && 0 <= c < N && c != col ==> a[r, c] == old(a[r, c])
    {
      ScanStep(s, row);
      ghost var cur, next := PartlyCompacted(s, row), PartlyCompacted(s, row - 1);
      if a[row, col] == Empty {
        emptySpaces := emptySpaces + 1;
      } else if emptySpaces > 0 {
        a[row + emptySpaces, col] := a[row, col];
        a[row, col] := Empty;
        forall r | 0 <= r < N
          ensures a[r, col] == next[r]
        {
          assert next == cur[row + CountEmpty(s[row + 1..]) := s[row]][row := Empty];
        }
      }
      row := row - 1;
    }
    ScanDone(s);
  }

  /** The gravity loop over all columns of the working copy. */
  method CompactColumns(a: array2<Cell>)
    requires a.Length0 == N && a.Length1 == N
    modifies a
    ensures forall r, c :: 0 <= r < N && 0 <= c < N ==>
      a[r, c] == Compacted(Column(old(Snapshot(a)), c))[r]
  {
    ghost var before := Snapshot(a);
    var col := 0;
    while col < N
      invariant 0 <= col <= N
      invariant forall r, c :: 0 <= r < N && 0 <= c < col ==> a[r, c] == Compacted(Column(before, c))[r]
      invariant forall r, c :: 0 <= r < N && col <= c < N ==> a[r, c] == before[r][c]
    {
      CompactColumn(a, col, Column(before, col));
      col := col + 1;
    }
  }

  /** The second half of dropCandies: every cell still empty after the slide
      gets a freshly drawn candy. */
  method Refill(a: array2<Cell>)
    requires a.Length0 == N && a.Length1 == N
    modifies a
    ensures forall r, c :: 0 <= r < N && 0 <= c < N ==> a[r, c].Filled?
    ensures forall r, c :: 0 <= r < N && 0 <= c < N && old(a[r, c]).Filled? ==> a[r, c] == old(a[r, c])
  {
    var col := 0;
    while col < N
      invariant 0 <= col <= N
      invariant forall r, c :: 0 <= r < N && 0 <= c < col ==> a[r, c].Filled?
      invariant forall r, c :: 0 <= r < N && 0 <= c < N && old(a[r, c]).Filled? ==> a[r, c] == old(a[r, c])
    {
      var row := 0;
      while row < N
        invariant 0 <= row <= N
        invariant forall r, c :: 0 <= r < N && 0 <= c < col ==> a[r, c].Filled?
        invariant forall r :: 0 <= r < row ==> a[r, col].Filled?
        invariant forall r, c :: 0 <= r < N && 0 <= c < N && old(a[r, c]).Filled? ==> a[r, c] == old(a[r, c])
      {
        if a[row, col] == Empty {
          var candy := GetRandomCandy(None);
          a[row, col] := Filled(candy);
        }
        row := row + 1;
      }
      col := col + 1;
    }
  }

  /** dropCandies: in every column the candies of the input keep their order
      and sit at the bottom; the cells above them, one per "" cell of the
      input column, hold fresh candies; no "" cell is left. */
  /** `after` is a possible outcome of dropCandies on `before`: no cell is
      "", and each column ends with the candies it had, in their order, under
      as many fresh candies as it had "" cells. */
  ghost predicate DropsTo(before: Grid, after: Grid)
  {
    NoEmpty(after) &&
    forall r, c :: 0 <= r < N && 0 <= c < N && r >= CountEmpty(Column(before, c)) ==>
      after[r][c] == Candies(Column(before, c))[r - CountEmpty(Column(before, c))]
  }

  method DropCandies(board: Grid) returns (dropped: Grid)
    ensures NoEmpty(dropped)
    ensures forall r, c :: 0 <= r < N && 0 <= c < N && r >= CountEmpty(Column(board, c)) ==>
      dropped[r][c] == Candies(Column(board, c))[r - CountEmpty(Column(board, c))]
    ensures DropsTo(board, dropped)
  {
    var newBoard := CopyBoard(board);
    CompactColumns(newBoard);
    ghost var compacted := Snapshot(newBoard);
    Refill(newBoard);
    dropped := Snapshot(newBoard);
    forall r, c | 0 <= r < N && 0 <= c < N && r >= CountEmpty(Column(board, c))
      ensures dropped[r][c] == Candies(Column(board, c))[r - CountEmpty(Column(board, c))]
    {
      var s := Column(board, c);
      assert compacted[r][c] == Compacted(s)[r] == Candies(s)[r - CountEmpty(s)];
    }
  }
}
