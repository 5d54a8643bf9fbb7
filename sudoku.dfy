/**
 * The fixed-size 9x9 grid of Sudoku.h and Sudoku.cpp: the `Square` cell
 * values, the `Sudoku` class that owns a 9x9 array of them, its `at`
 * accessors, and the static enumerators of the coordinates of a row, a
 * column and a 3x3 block, with the extractors that read those cells out.
 */
module SudokuGrid {

  /** Width of one subsquare (block). */
  const SQUARE_DIM: nat := 3
  /** Width of the whole grid. */
  const SIZE: nat := SQUARE_DIM * SQUARE_DIM

  /** A cell value: EMPTY is 0 and the digits ONE..NINE are 1..9. */
  type Square = x: int | 0 <= x <= 9
  const EMPTY: Square := 0

  /** A (row, column) pair. */
  type Coord = (int, int)

  /** The abstract value of a board: a 9x9 matrix of cells, indexed [row][column]. */
  type Grid = seq<seq<Square>>

  predicate IsGrid(g: Grid)
  {
    |g| == SIZE && forall i :: 0 <= i < |g| ==> |g[i]| == SIZE
  }

  predicate InGrid(c: Coord)
  {
    0 <= c.0 < SIZE && 0 <= c.1 < SIZE
  }

  /** Cell (r, c) lies in the same 3x3 block as cell (i, j). */
  predicate SameBlock(r: int, c: int, i: int, j: int)
  {
    r / SQUARE_DIM == i / SQUARE_DIM && c / SQUARE_DIM == j / SQUARE_DIM
  }

  /** Cell (r, c) shares a row, a column or a block with (i, j); every cell shares one with itself. */
  predicate SharesUnit(r: int, c: int, i: int, j: int)
  {
    r == i || c == j || SameBlock(r, c, i, j)
  }

  /** Cell (r, c) comes strictly before (i, j) in row-major order. */
  predicate Before(r: int, c: int, i: int, j: int)
  {
    r < i || (r == i && c < j)
  }

  /** The grid with every cell EMPTY. */
  function EmptyGrid(): (g: Grid)
    ensures IsGrid(g)
    ensures forall i, j :: 0 <= i < SIZE && 0 <= j < SIZE ==> g[i][j] == EMPTY
  {
    seq(SIZE, _ => seq(SIZE, _ => EMPTY))
  }

  /** The grid after writing `v` through `at(i, j)`. */
  function Place(g: Grid, i: nat, j: nat, v: Square): (h: Grid)
    requires IsGrid(g) && i < SIZE && j < SIZE
    ensures IsGrid(h) && h[i][j] == v
    ensures forall r, c :: 0 <= r < SIZE && 0 <= c < SIZE && (r, c) != (i, j) ==> h[r][c] == g[r][c]
  {
    var row: seq<Square> := g[i][j := v];
    g[i := row]
  }

  // ---------------------------------------------------------------------
  // Coordinate enumerators, as values

  /** (i, 0), (i, 1), ..., (i, 8). */
  function RowCoordsOf(i: int): seq<Coord>
  {
    seq(SIZE, dx => (i, dx))
  }

  /** (0, j), (1, j), ..., (8, j). */
  function ColCoordsOf(j: int): seq<Coord>
  {
    seq(SIZE, dy => (dy, j))
  }

  /** The block of (i, j) in row-major order: entry 3*dy + dx is (start row + dy, start column + dx). */
  function SquareCoordsOf(i: nat, j: nat): seq<Coord>
  {
    seq(SIZE, idx => (i / SQUARE_DIM * SQUARE_DIM + idx / SQUARE_DIM, j / SQUARE_DIM * SQUARE_DIM + idx % SQUARE_DIM))
  }

  lemma RowCoordsMembers(i: int, r: int, c: int)
    ensures (r, c) in RowCoordsOf(i) <==> r == i && 0 <= c < SIZE
  {
    if r == i && 0 <= c < SIZE {
      assert RowCoordsOf(i)[c] == (r, c);
    }
  }

  lemma ColCoordsMembers(j: int, r: int, c: int)
    ensures (r, c) in ColCoordsOf(j) <==> c == j && 0 <= r < SIZE
  {
    if c == j && 0 <= r < SIZE {
      assert ColCoordsOf(j)[r] == (r, c);
    }
  }

  /**
   * The block enumeration consists of nine distinct cells of the grid, exactly
   * the cells in the block of (i, j), and so includes (i, j) itself.
   */
  lemma SquareCoordsShape(i: nat, j: nat)
    requires i < SIZE && j < SIZE
    ensures forall idx :: 0 <= idx < SIZE ==> InGrid(SquareCoordsOf(i, j)[idx])
    ensures forall p, q :: 0 <= p < q < SIZE ==> SquareCoordsOf(i, j)[p] != SquareCoordsOf(i, j)[q]
    ensures forall r, c :: (r, c) in SquareCoordsOf(i, j) <==> InGrid((r, c)) && SameBlock(r, c, i, j)
    ensures (i, j) in SquareCoordsOf(i, j)
  {
    var cs := SquareCoordsOf(i, j);
    forall r, c | InGrid((r, c)) && SameBlock(r, c, i, j)
      ensures (r, c) in cs
    {
      var idx := r % SQUARE_DIM * SQUARE_DIM + c % SQUARE_DIM;
      assert cs[idx] == (r, c);
    }
  }

  /** The block enumeration depends only on the block, not on the cell chosen in it. */
  lemma SquareCoordsPerBlock(i: nat, j: nat, i': nat, j': nat)
    requires SameBlock(i, j, i', j')
    ensures SquareCoordsOf(i, j) == SquareCoordsOf(i', j')
  {
  }

  // ---------------------------------------------------------------------
  // Extractors, as values

  /** row(i): the cells (i, 0) .. (i, 8). */
  function RowOf(g: Grid, i: nat): seq<Square>
    requires IsGrid(g) && i < SIZE
  {
    seq(SIZE, k requires 0 <= k < SIZE => g[i][k])
  }

  /** column(j): the cells (0, j) .. (8, j). */
  function ColumnOf(g: Grid, j: nat): seq<Square>
    requires IsGrid(g) && j < SIZE
  {
    seq(SIZE, k requires 0 <= k < SIZE => g[k][j])
  }

  /** square(i, j): the cells of the block of (i, j), in the order of `SquareCoordsOf`. */
  function SubSquareOf(g: Grid, i: nat, j: nat): seq<Square>
    requires IsGrid(g) && i < SIZE && j < SIZE
  {
    var cs := SquareCoordsOf(i, j);
    seq(SIZE, idx requires 0 <= idx < SIZE => g[cs[idx].0][cs[idx].1])
  }

  // ---------------------------------------------------------------------
  // The Sudoku class

  class Sudoku {
    var squares: array2<Square>

    ghost predicate Valid()
      reads this
    {
      squares.Length0 == SIZE && squares.Length1 == SIZE
    }

    /** The current contents of the board. */
    ghost function Cells(): (g: Grid)
      reads this, squares
      requires Valid()
      ensures IsGrid(g)
      ensures forall i, j :: 0 <= i < SIZE && 0 <= j < SIZE ==> g[i][j] == squares[i, j]
    {
      var a := squares;
      seq(SIZE, i requires 0 <= i < SIZE reads a => seq(SIZE, j requires 0 <= j < SIZE reads a => a[i, j]))
    }

    /** The copy constructor: a cell-for-cell copy in a new array of its own. */
    constructor Copy(problem: Sudoku)
      requires problem.Valid()
      ensures Valid() && fresh(squares)
      ensures Cells() == problem.Cells()
    {
      var a := new Square[SIZE, SIZE];
      for i := 0 to SIZE
        invariant forall r, c :: 0 <= r < i && 0 <= c < SIZE ==> a[r, c] == problem.squares[r, c]
      {
        for j := 0 to SIZE
          invariant forall r, c :: 0 <= r < SIZE && 0 <= c < SIZE && Before(r, c, i, j) ==> a[r, c] == problem.squares[r, c]
        {
          a[i, j] := problem.squares[i, j];
        }
      }
      squares := a;
      new;
      assert forall r :: 0 <= r < SIZE ==> Cells()[r] == problem.Cells()[r];
    }

    /**
     * A board holding the cells of `g`: the default constructor followed by
     * `operator>>` reading one well-formed value into each cell, row by row.
     */
    constructor FromGrid(g: Grid)
      requires IsGrid(g)
      ensures Valid() && fresh(squares)
      ensures Cells() == g
    {
      var a := new Square[SIZE, SIZE];
      for i := 0 to SIZE
        invariant forall r, c :: 0 <= r < i && 0 <= c < SIZE ==> a[r, c] == g[r][c]
      {
        for j := 0 to SIZE
          invariant forall r, c :: 0 <= r < SIZE && 0 <= c < SIZE && Before(r, c, i, j) ==> a[r, c] == g[r][c]
        {
          a[i, j] := g[i][j];
        }
      }
      squares := a;
      new;
      assert forall r :: 0 <= r < SIZE ==> Cells()[r] == g[r];
    }

    /** at(i, j), read-only. */
    function At(i: nat, j: nat): (s: Square)
      reads this, squares
      requires Valid() && i < SIZE && j < SIZE
      ensures s == Cells()[i][j]
    {
      squares[i, j]
    }

    /** at(coord), read-only: the cell (coord.first, coord.second). */
    function AtCoord(coord: Coord): (s: Square)
      reads this, squares
      requires Valid() && InGrid(coord)
      ensures s == Cells()[coord.0][coord.1]
    {
      At(coord.0, coord.1)
    }

    /** Assignment through at(i, j): that cell changes and no other. */
    method SetAt(i: nat, j: nat, v: Square)
      requires Valid() && i < SIZE && j < SIZE
      modifies squares
      ensures Valid()
      ensures Cells() == Place(old(Cells()), i, j, v)
    {
      squares[i, j] := v;
      ghost var want := Place(old(Cells()), i, j, v);
      assert forall r :: 0 <= r < SIZE ==> Cells()[r] == want[r];
    }

    /** Assignment through at(coord). */
    method SetAtCoord(coord: Coord, v: Square)
      requires Valid() && InGrid(coord)
      modifies squares
      ensures Valid()
      ensures Cells() == Place(old(Cells()), coord.0, coord.1, v)
    {
      SetAt(coord.0, coord.1, v);
    }

    static method RowCoords(i: nat) returns (ret: seq<Coord>)
      ensures ret == RowCoordsOf(i)
    {
      var a := new Coord[SIZE];
      for dx := 0 to SIZE
        invariant forall k :: 0 <= k < dx ==> a[k] == (i, k)
      {
        a[dx] := (i, dx);
      }
      ret := a[..];
    }

    static method ColCoords(j: nat) returns (ret: seq<Coord>)
      ensures ret == ColCoordsOf(j)
    {
      var a := new Coord[SIZE];
      for dy := 0 to SIZE
        invariant forall k :: 0 <= k < dy ==> a[k] == (k, j)
      {
        a[dy] := (dy, j);
      }
      ret := a[..];
    }

    static method SquareCoords(i: nat, j: nat) returns (ret: seq<Coord>)
      ensures ret == SquareCoordsOf(i, j)
    {
      var a := new Coord[SIZE];
      var startX := j / SQUARE_DIM * SQUARE_DIM;
      var startY := i / SQUARE_DIM * SQUARE_DIM;
      var idx := 0;
      for dy := 0 to SQUARE_DIM
        invariant idx == dy * SQUARE_DIM
        invariant forall k :: 0 <= k < idx ==> a[k] == SquareCoordsOf(i, j)[k]
      {
        for dx := 0 to SQUARE_DIM
          invariant idx == dy * SQUARE_DIM + dx
          invariant forall k :: 0 <= k < idx ==> a[k] == SquareCoordsOf(i, j)[k]
        {
          a[idx] := (startY + dy, startX + dx);
          idx := idx + 1;
        }
      }
      ret := a[..];
    }

    /** row(index): reads the cells listed by `RowCoords(index)`. */
    method Row(index: nat) returns (ret: seq<Square>)
      requires Valid() && index < SIZE
      ensures ret == RowOf(Cells(), index)
    {
      var coords := RowCoords(index);
      var a := new Square[SIZE];
      for k := 0 to SIZE
        invariant forall p :: 0 <= p < k ==> a[p] == Cells()[index][p]
      {
        a[k] := AtCoord(coords[k]);
      }
      ret := a[..];
    }

    /** column(index): reads the cells listed by `ColCoords(index)`. */
    method Column(index: nat) returns (ret: seq<Square>)
      requires Valid() && index < SIZE
      ensures ret == ColumnOf(Cells(), index)
    {
      var coords := ColCoords(index);
      var a := new Square[SIZE];
      for k := 0 to SIZE
        invariant forall p :: 0 <= p < k ==> a[p] == Cells()[p][index]
      {
        a[k] := AtCoord(coords[k]);
      }
      ret := a[..];
    }

    /** square(i, j): reads the cells listed by `SquareCoords(i, j)`. */
    method SubSquare(i: nat, j: nat) returns (ret: seq<Square>)
      requires Valid() && i < SIZE && j < SIZE
      ensures ret == SubSquareOf(Cells(), i, j)
    {
      var coords := SquareCoords(i, j);
      SquareCoordsShape(i, j);
      var a := new Square[SIZE];
      for idx := 0 to SIZE
        invariant forall p :: 0 <= p < idx ==> a[p] == SubSquareOf(Cells(), i, j)[p]
      {
        a[idx] := AtCoord(coords[idx]);
      }
      ret := a[..];
    }
  }
}
