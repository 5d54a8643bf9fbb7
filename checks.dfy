/**
 * The board checks of Solver.cpp (`findDupes`, `valid`, `solved`) and the
 * properties of a grid that the search is proved against: completeness,
 * soundness (no digit repeated in any row, column or block), extension of
 * one grid by another, and the number of EMPTY cells.
 */
module Checks {
  import opened SudokuGrid

  /** Two different positions of `s` hold the same non-EMPTY value. */
  predicate HasDupes(s: seq<Square>)
  {
    exists p, q :: 0 <= p < q < |s| && s[p] != EMPTY && s[p] == s[q]
  }

  /** findDupes: scans `arr`, remembering the non-EMPTY values seen so far. */
  method FindDupes(arr: seq<Square>) returns (found: bool)
    ensures found == HasDupes(arr)
  {
    var seen: set<Square> := {};
    for n := 0 to |arr|
      invariant forall v: Square :: v in seen <==> v != EMPTY && v in arr[..n]
      invariant !HasDupes(arr[..n])
    {
      var sq := arr[n];
      if sq != EMPTY {
        if sq in seen {
          ghost var p :| 0 <= p < n && arr[p] == sq;
          assert arr[p] == arr[n];
          return true;
        }
        seen := seen + {sq};
      }
      assert arr[..n + 1] == arr[..n] + [sq];
    }
    assert arr[..|arr|] == arr;
    return false;
  }

  /**
   * What `valid` accepts: no duplicate in any row or any column, nor in the
   * three blocks on the diagonal, at (0, 0), (3, 3) and (6, 6). The other six
   * blocks are not examined.
   */
  predicate PassesCheck(g: Grid)
    requires IsGrid(g)
  {
    (forall i :: 0 <= i < SIZE ==> !HasDupes(RowOf(g, i)) && !HasDupes(ColumnOf(g, i))) &&
    (forall b :: 0 <= b < SQUARE_DIM ==> !HasDupes(SubSquareOf(g, b * SQUARE_DIM, b * SQUARE_DIM)))
  }

  /** Every cell is filled. */
  predicate Complete(g: Grid)
    requires IsGrid(g)
  {
    forall i, j :: 0 <= i < SIZE && 0 <= j < SIZE ==> g[i][j] != EMPTY
  }

  /** No two distinct cells that share a row, a column or a block hold the same digit. */
  ghost predicate Sound(g: Grid)
    requires IsGrid(g)
  {
    forall p, q, r, c ::
      (0 <= p < SIZE && 0 <= q < SIZE && 0 <= r < SIZE && 0 <= c < SIZE &&
       (p, q) != (r, c) && SharesUnit(r, c, p, q) && g[p][q] != EMPTY) ==> g[p][q] != g[r][c]
  }

  /** `g` keeps every filled cell of `h`. */
  ghost predicate Extends(g: Grid, h: Grid)
    requires IsGrid(g) && IsGrid(h)
  {
    forall r, c :: 0 <= r < SIZE && 0 <= c < SIZE && h[r][c] != EMPTY ==> g[r][c] == h[r][c]
  }

  /** Some complete, sound grid keeps every filled cell of `g`: the puzzle has a solution. */
  ghost predicate Solvable(g: Grid)
    requires IsGrid(g)
  {
    exists s :: IsGrid(s) && Complete(s) && Sound(s) && Extends(s, g)
  }

  /** Only a sound grid has a solution: the solution keeps its filled cells. */
  lemma SolvableSound(g: Grid)
    requires IsGrid(g)
    ensures Solvable(g) ==> Sound(g)
  {
    if Solvable(g) {
      var s :| IsGrid(s) && Complete(s) && Sound(s) && Extends(s, g);
    }
  }

  /** A grid that keeps every cell of a complete grid is that grid. */
  lemma ExtendsComplete(g: Grid, h: Grid)
    requires IsGrid(g) && IsGrid(h) && Complete(h) && Extends(g, h)
    ensures g == h
  {
    assert forall r :: 0 <= r < SIZE ==> g[r] == h[r];
  }

  /** valid(board, constraints); the second argument is never read. */
  method IsValid(board: Sudoku, constraints: array2<int>) returns (ok: bool)
    requires board.Valid()
    ensures ok == PassesCheck(board.Cells())
  {
    for i := 0 to SIZE
      invariant forall r :: 0 <= r < i ==> !HasDupes(RowOf(board.Cells(), r)) && !HasDupes(ColumnOf(board.Cells(), r))
    {
      var row := board.Row(i);
      var dupes := FindDupes(row);
      if dupes {
        return false;
      }
      var column := board.Column(i);
      dupes := FindDupes(column);
      if dupes {
        return false;
      }
    }
    // i and j advance in lock step, so only the diagonal blocks are visited
    var i, j := 0, 0;
    while i < SIZE && j < SIZE
      invariant i == j && i % SQUARE_DIM == 0 && i <= SIZE
      invariant forall b :: 0 <= b < i / SQUARE_DIM ==> !HasDupes(SubSquareOf(board.Cells(), b * SQUARE_DIM, b * SQUARE_DIM))
      decreases SIZE - i
    {
      var square := board.SubSquare(i, j);
      var dupes := FindDupes(square);
      if dupes {
        assert i == i / SQUARE_DIM * SQUARE_DIM;
        return false;
      }
      i, j := i + SQUARE_DIM, j + SQUARE_DIM;
    }
    return true;
  }

  /** solved(board): true iff no cell is EMPTY; validity is not examined. */
  method IsSolved(board: Sudoku) returns (done: bool)
    requires board.Valid()
    ensures done == Complete(board.Cells())
  {
    for i := 0 to SIZE
      invariant forall r, c :: 0 <= r < i && 0 <= c < SIZE ==> board.Cells()[r][c] != EMPTY
    {
      for j := 0 to SIZE
        invariant forall r, c :: 0 <= r < SIZE && 0 <= c < SIZE && Before(r, c, i, j) ==> board.Cells()[r][c] != EMPTY
      {
        if board.At(i, j) == EMPTY {
          return false;
        }
      }
    }
    return true;
  }

  /** A sound grid passes the check: `valid` never rejects a board without a repeated digit. */
  lemma SoundPassesCheck(g: Grid)
    requires IsGrid(g) && Sound(g)
    ensures PassesCheck(g)
  {
    forall i | 0 <= i < SIZE
      ensures !HasDupes(RowOf(g, i)) && !HasDupes(ColumnOf(g, i))
    {
      forall p, q | 0 <= p < q < SIZE && RowOf(g, i)[p] != EMPTY
        ensures RowOf(g, i)[p] != RowOf(g, i)[q]
      {
        assert SharesUnit(i, q, i, p);
      }
      forall p, q | 0 <= p < q < SIZE && ColumnOf(g, i)[p] != EMPTY
        ensures ColumnOf(g, i)[p] != ColumnOf(g, i)[q]
      {
        assert SharesUnit(q, i, p, i);
      }
    }
    forall b | 0 <= b < SQUARE_DIM
      ensures !HasDupes(SubSquareOf(g, b * SQUARE_DIM, b * SQUARE_DIM))
    {
      var start := b * SQUARE_DIM;
      var s := SubSquareOf(g, start, start);
      var cs := SquareCoordsOf(start, start);
      SquareCoordsShape(start, start);
      forall p, q | 0 <= p < q < SIZE && s[p] != EMPTY
        ensures s[p] != s[q]
      {
        assert cs[p] in cs && cs[q] in cs;
        assert SharesUnit(cs[q].0, cs[q].1, cs[p].0, cs[p].1);
      }
    }
  }

  /** A sequence with at most one non-EMPTY position has no duplicate. */
  lemma AtMostOneFilled(s: seq<Square>, t: int)
    requires forall n :: 0 <= n < |s| && n != t ==> s[n] == EMPTY
    ensures !HasDupes(s)
  {
  }

  /**
   * `valid` accepts a grid whose only two digits are equal ONEs in the block
   * at (0, 3), at cells (0, 3) and (1, 4): the lock-step loop never looks at
   * that block.
   */
  lemma CheckMissesOffDiagonalBlocks()
    ensures exists g :: IsGrid(g) && PassesCheck(g) && HasDupes(SubSquareOf(g, 0, 3)) && !Sound(g)
  {
    var g := Place(Place(EmptyGrid(), 0, 3, 1), 1, 4, 1);
    assert forall r, c :: 0 <= r < SIZE && 0 <= c < SIZE && (r, c) != (0, 3) && (r, c) != (1, 4) ==> g[r][c] == EMPTY;
    forall i | 0 <= i < SIZE
      ensures !HasDupes(RowOf(g, i)) && !HasDupes(ColumnOf(g, i))
    {
      AtMostOneFilled(RowOf(g, i), if i == 0 then 3 else 4);
      AtMostOneFilled(ColumnOf(g, i), if i == 3 then 0 else 1);
    }
    forall b | 0 <= b < SQUARE_DIM
      ensures !HasDupes(SubSquareOf(g, b * SQUARE_DIM, b * SQUARE_DIM))
    {
      AtMostOneFilled(SubSquareOf(g, b * SQUARE_DIM, b * SQUARE_DIM), -1);
    }
    assert SubSquareOf(g, 0, 3)[0] == 1 && SubSquareOf(g, 0, 3)[4] == 1;
    assert SharesUnit(1, 4, 0, 3) && g[0][3] == g[1][4];
  }

  // ---------------------------------------------------------------------
  // Number of EMPTY cells: the measure that the search decreases

  function EmptyInRow(row: seq<Square>): nat
  {
    if row == [] then 0 else (if row[0] == EMPTY then 1 else 0) + EmptyInRow(row[1..])
  }

  function EmptyCount(g: Grid): nat
  {
    if g == [] then 0 else EmptyInRow(g[0]) + EmptyCount(g[1..])
  }

  lemma {:induction false} EmptyInRowZero(row: seq<Square>)
    ensures EmptyInRow(row) == 0 <==> forall j :: 0 <= j < |row| ==> row[j] != EMPTY
  {
    if row != [] {
      EmptyInRowZero(row[1..]);
      assert forall j :: 1 <= j < |row| ==> row[j] == row[1..][j - 1];
    }
  }

  lemma {:induction false} EmptyCountZeroRows(g: Grid)
    ensures EmptyCount(g) == 0 <==> forall i :: 0 <= i < |g| ==> EmptyInRow(g[i]) == 0
  {
    if g != [] {
      EmptyCountZeroRows(g[1..]);
      assert forall i :: 1 <= i < |g| ==> g[i] == g[1..][i - 1];
    }
  }

  /** No EMPTY cell is left exactly when the grid is complete. */
  lemma EmptyCountZero(g: Grid)
    requires IsGrid(g)
    ensures EmptyCount(g) == 0 <==> Complete(g)
  {
    EmptyCountZeroRows(g);
    forall i | 0 <= i < SIZE
      ensures EmptyInRow(g[i]) == 0 <==> forall j :: 0 <= j < SIZE ==> g[i][j] != EMPTY
    {
      EmptyInRowZero(g[i]);
    }
  }

  lemma {:induction false} EmptyInRowUpdate(row: seq<Square>, j: nat, v: Square)
    requires j < |row| && row[j] == EMPTY && v != EMPTY
    ensures EmptyInRow(row[j := v]) + 1 == EmptyInRow(row)
  {
    if j > 0 {
      EmptyInRowUpdate(row[1..], j - 1, v);
      assert row[j := v][1..] == row[1..][j - 1 := v];
    } else {
      assert row[j := v][1..] == row[1..];
    }
  }

  lemma {:induction false} EmptyCountUpdate(g: Grid, i: nat, row: seq<Square>)
    requires i < |g|
    ensures EmptyCount(g[i := row]) + EmptyInRow(g[i]) == EmptyCount(g) + EmptyInRow(row)
  {
    if i > 0 {
      EmptyCountUpdate(g[1..], i - 1, row);
      assert g[i := row][1..] == g[1..][i - 1 := row];
    } else {
      assert g[i := row][1..] == g[1..];
    }
  }

  /** Filling an EMPTY cell leaves one EMPTY cell fewer. */
  lemma EmptyCountPlace(g: Grid, i: nat, j: nat, v: Square)
    requires IsGrid(g) && i < SIZE && j < SIZE && g[i][j] == EMPTY && v != EMPTY
    ensures EmptyCount(Place(g, i, j, v)) + 1 == EmptyCount(g)
  {
    var row: seq<Square> := g[i][j := v];
    EmptyInRowUpdate(g[i], j, v);
    EmptyCountUpdate(g, i, row);
    assert Place(g, i, j, v) == g[i := row];
  }
}
