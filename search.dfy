/**
 * The search engine of Solver.cpp: the most-constrained-cell and
 * least-constraining-value heuristics, the recursive backtracking search
 * with paired apply/unapply of constraint deltas, and `Solve`, which copies
 * the problem and builds the initial constraints first.
 */
module Search {
  import opened SudokuGrid
  import opened Constraints
  import opened Checks

  // ---------------------------------------------------------------------
  // Most constrained cell

  /**
   * MostConstrained: the first EMPTY cell in row-major order whose count is
   * maximal among the EMPTY cells, or (-1, -1) exactly when no cell is EMPTY.
   */
  method MostConstrained(counts: array2<int>, board: Sudoku) returns (coord: Coord)
    requires IsTable(counts) && board.Valid()
    ensures coord == (-1, -1) <==> Complete(board.Cells())
    ensures coord != (-1, -1) ==> InGrid(coord) && board.Cells()[coord.0][coord.1] == EMPTY
    ensures coord != (-1, -1) ==>
      forall r, c :: 0 <= r < SIZE && 0 <= c < SIZE && board.Cells()[r][c] == EMPTY ==>
        counts[r, c] <= counts[coord.0, coord.1] &&
        (Before(r, c, coord.0, coord.1) ==> counts[r, c] < counts[coord.0, coord.1])
  {
    var maxI, maxJ := -1, -1;
    for i := 0 to SIZE
      invariant (maxI == -1 && maxJ == -1) || (0 <= maxI < i && 0 <= maxJ < SIZE)
      invariant maxI == -1 <==> forall r, c :: 0 <= r < i && 0 <= c < SIZE ==> board.Cells()[r][c] != EMPTY
      invariant maxI != -1 ==>
        board.Cells()[maxI][maxJ] == EMPTY &&
        forall r, c :: 0 <= r < i && 0 <= c < SIZE && board.Cells()[r][c] == EMPTY ==>
          counts[r, c] <= counts[maxI, maxJ] && (Before(r, c, maxI, maxJ) ==> counts[r, c] < counts[maxI, maxJ])
    {
      for j := 0 to SIZE
        invariant (maxI == -1 && maxJ == -1) || (0 <= maxI < SIZE && 0 <= maxJ < SIZE && Before(maxI, maxJ, i, j))
        invariant maxI == -1 <==>
          forall r, c :: 0 <= r < SIZE && 0 <= c < SIZE && Before(r, c, i, j) ==> board.Cells()[r][c] != EMPTY
        invariant maxI != -1 ==>
          board.Cells()[maxI][maxJ] == EMPTY &&
          forall r, c :: 0 <= r < SIZE && 0 <= c < SIZE && Before(r, c, i, j) && board.Cells()[r][c] == EMPTY ==>
            counts[r, c] <= counts[maxI, maxJ] && (Before(r, c, maxI, maxJ) ==> counts[r, c] < counts[maxI, maxJ])
      {
        if board.At(i, j) == EMPTY && (maxI == -1 || counts[i, j] > counts[maxI, maxJ]) {
          maxI, maxJ := i, j;
        }
      }
    }
    coord := (maxI, maxJ);
  }

  // ---------------------------------------------------------------------
  // Least constraining value

  /** Number of cells of `cs` at which value index k is not forbidden (a coordinate off the grid counts nothing). */
  ghost function FreeAmong(mask: array3<bool>, cs: seq<Coord>, k: int): nat
    reads mask
    requires IsCube(mask) && 0 <= k < SIZE
  {
    if cs == [] then 0
    else
      var last := cs[|cs| - 1];
      FreeAmong(mask, cs[..|cs| - 1], k) + (if InGrid(last) && !mask[last.0, last.1, k] then 1 else 0)
  }

  /** The cells of `cs` lying off row i and off column j, in order. */
  function OffLines(cs: seq<Coord>, i: int, j: int): (r: seq<Coord>)
    ensures forall x :: x in r <==> x in cs && x.0 != i && x.1 != j
  {
    if cs == [] then []
    else
      var last := cs[|cs| - 1];
      OffLines(cs[..|cs| - 1], i, j) + (if last.0 != i && last.1 != j then [last] else [])
  }

  /**
   * score[k] of LeastConstrainingValue: the cells of row i, those of column j
   * (so (i, j) is counted twice), and the block cells off both row i and
   * column j, at which value index k is not forbidden.
   */
  ghost function Score(mask: array3<bool>, i: nat, j: nat, k: int): nat
    reads mask
    requires IsCube(mask) && i < SIZE && j < SIZE && 0 <= k < SIZE
  {
    FreeAmong(mask, RowCoordsOf(i), k) + FreeAmong(mask, ColCoordsOf(j), k) +
    FreeAmong(mask, OffLines(SquareCoordsOf(i, j), i, j), k)
  }

  /** The scores of the first n value indices, in order. */
  ghost function ScoresBelow(mask: array3<bool>, i: nat, j: nat, n: nat): (s: seq<nat>)
    reads mask
    requires IsCube(mask) && i < SIZE && j < SIZE && n <= SIZE
    ensures |s| == n
  {
    if n == 0 then [] else ScoresBelow(mask, i, j, n - 1) + [Score(mask, i, j, n - 1)]
  }

  /** score[0..8] of LeastConstrainingValue. */
  ghost function ScoreTable(mask: array3<bool>, i: nat, j: nat): (s: seq<nat>)
    reads mask
    requires IsCube(mask) && i < SIZE && j < SIZE
    ensures |s| == SIZE
  {
    ScoresBelow(mask, i, j, SIZE)
  }

  lemma {:induction false} ScoresBelowAt(mask: array3<bool>, i: nat, j: nat, n: nat, k: nat)
    requires IsCube(mask) && i < SIZE && j < SIZE && k < n <= SIZE
    ensures ScoresBelow(mask, i, j, n)[k] == Score(mask, i, j, k)
  {
    if k < n - 1 {
      ScoresBelowAt(mask, i, j, n - 1, k);
    }
  }

  /** Entry k of the score table is the score of value index k. */
  lemma ScoreTableAt(mask: array3<bool>, i: nat, j: nat)
    requires IsCube(mask) && i < SIZE && j < SIZE
    ensures forall k :: 0 <= k < SIZE ==> ScoreTable(mask, i, j)[k] == Score(mask, i, j, k)
  {
    forall k | 0 <= k < SIZE
      ensures ScoreTable(mask, i, j)[k] == Score(mask, i, j, k)
    {
      ScoresBelowAt(mask, i, j, SIZE, k);
    }
  }

  /** Number of block positions idx < n whose row offset is not dy and column offset not dx. */
  function OffLinePositions(n: nat, dy: int, dx: int): nat
  {
    if n == 0 then 0
    else OffLinePositions(n - 1, dy, dx) + (if (n - 1) / SQUARE_DIM != dy && (n - 1) % SQUARE_DIM != dx then 1 else 0)
  }

  lemma {:induction false} OffLinesPrefix(i: nat, j: nat, n: nat)
    requires i < SIZE && j < SIZE && n <= SIZE
    ensures |OffLines(SquareCoordsOf(i, j)[..n], i, j)| == OffLinePositions(n, i % SQUARE_DIM, j % SQUARE_DIM)
  {
    if n > 0 {
      var cs := SquareCoordsOf(i, j);
      OffLinesPrefix(i, j, n - 1);
      assert cs[..n][..n - 1] == cs[..n - 1];
    }
  }

  /** Exactly four cells of a block lie off both the row and the column of one of its cells. */
  lemma OffLinesCount(i: nat, j: nat)
    requires i < SIZE && j < SIZE
    ensures |OffLines(SquareCoordsOf(i, j), i, j)| == 4
  {
    OffLinesPrefix(i, j, SIZE);
    assert SquareCoordsOf(i, j)[..SIZE] == SquareCoordsOf(i, j);
    var dy, dx := i % SQUARE_DIM, j % SQUARE_DIM;
    OffLinePositionsRow(0, dy, dx);
    OffLinePositionsRow(1, dy, dx);
    OffLinePositionsRow(2, dy, dx);
  }

  /** Those cells are the cells of the block of (i, j) off row i and off column j. */
  lemma OffLinesMembers(i: nat, j: nat)
    requires i < SIZE && j < SIZE
    ensures forall r, c :: (r, c) in OffLines(SquareCoordsOf(i, j), i, j) <==>
      InGrid((r, c)) && SameBlock(r, c, i, j) && r != i && c != j
  {
    SquareCoordsShape(i, j);
  }

  /** Each row of a block adds two off-line positions, except row dy, which adds none. */
  lemma OffLinePositionsRow(a: nat, dy: int, dx: int)
    requires a < SQUARE_DIM && 0 <= dx < SQUARE_DIM
    ensures OffLinePositions(SQUARE_DIM * a + SQUARE_DIM, dy, dx) ==
      OffLinePositions(SQUARE_DIM * a, dy, dx) + (if a != dy then 2 else 0)
  {
    var n := SQUARE_DIM * a;
    assert n / SQUARE_DIM == a && n % SQUARE_DIM == 0;
    assert (n + 1) / SQUARE_DIM == a && (n + 1) % SQUARE_DIM == 1;
    assert (n + 2) / SQUARE_DIM == a && (n + 2) % SQUARE_DIM == 2;
    assert OffLinePositions(n + 1, dy, dx) == OffLinePositions(n, dy, dx) + (if a != dy && 0 != dx then 1 else 0);
    assert OffLinePositions(n + 2, dy, dx) == OffLinePositions(n + 1, dy, dx) + (if a != dy && 1 != dx then 1 else 0);
    assert OffLinePositions(n + 3, dy, dx) == OffLinePositions(n + 2, dy, dx) + (if a != dy && 2 != dx then 1 else 0);
  }

  /** The order std::sort produces: some permutation of `xs` in nondecreasing order of `key`. */
  method SortByKey(xs: seq<int>, key: seq<int>) returns (ys: seq<int>)
    requires forall n :: 0 <= n < |xs| ==> 0 <= xs[n] < |key|
    ensures multiset(ys) == multiset(xs)
    ensures forall n :: 0 <= n < |ys| ==> 0 <= ys[n] < |key|
    ensures forall p, q :: 0 <= p < q < |ys| ==> key[ys[p]] <= key[ys[q]]
  {
    ys := [];
    for n := 0 to |xs|
      invariant multiset(ys) == multiset(xs[..n])
      invariant forall t :: 0 <= t < |ys| ==> 0 <= ys[t] < |key|
      invariant forall p, q :: 0 <= p < q < |ys| ==> key[ys[p]] <= key[ys[q]]
    {
      ys := InsertByKey(ys, xs[n], key);
      assert xs[..n + 1] == xs[..n] + [xs[n]];
    }
    assert xs[..|xs|] == xs;
  }

  /** Inserts `x` into `ys`, kept in nondecreasing order of `key`, after the elements whose key is not greater. */
  method InsertByKey(ys: seq<int>, x: int, key: seq<int>) returns (zs: seq<int>)
    requires 0 <= x < |key| && forall t :: 0 <= t < |ys| ==> 0 <= ys[t] < |key|
    requires forall p, q :: 0 <= p < q < |ys| ==> key[ys[p]] <= key[ys[q]]
    ensures multiset(zs) == multiset(ys) + multiset{x}
    ensures forall t :: 0 <= t < |zs| ==> 0 <= zs[t] < |key|
    ensures forall p, q :: 0 <= p < q < |zs| ==> key[zs[p]] <= key[zs[q]]
  {
    var p := 0;
    while p < |ys| && key[ys[p]] <= key[x]
      invariant 0 <= p <= |ys|
      invariant forall t :: 0 <= t < p ==> key[ys[t]] <= key[x]
    {
      p := p + 1;
    }
    zs := ys[..p] + [x] + ys[p..];
    InsertAt(ys, p, x, key);
  }

  /** Splicing `x` in at position p, after the keys not greater than key[x] and before the greater ones, keeps the order. */
  lemma InsertAt(ys: seq<int>, p: nat, x: int, key: seq<int>)
    requires p <= |ys| && 0 <= x < |key| && forall t :: 0 <= t < |ys| ==> 0 <= ys[t] < |key|
    requires forall a, b :: 0 <= a < b < |ys| ==> key[ys[a]] <= key[ys[b]]
    requires forall t :: 0 <= t < p ==> key[ys[t]] <= key[x]
    requires p < |ys| ==> key[x] < key[ys[p]]
    ensures multiset(ys[..p] + [x] + ys[p..]) == multiset(ys) + multiset{x}
    ensures forall t :: 0 <= t < |ys| + 1 ==> 0 <= (ys[..p] + [x] + ys[p..])[t] < |key|
    ensures forall a, b :: 0 <= a < b < |ys| + 1 ==> key[(ys[..p] + [x] + ys[p..])[a]] <= key[(ys[..p] + [x] + ys[p..])[b]]
  {
    SplicedMultiset(ys, p, x);
    SplicedAt(ys, p, x, ys[..p] + [x] + ys[p..]);
    SplicedOrder(ys, p, x, key, ys[..p] + [x] + ys[p..]);
  }

  lemma SplicedMultiset(ys: seq<int>, p: nat, x: int)
    requires p <= |ys|
    ensures multiset(ys[..p] + [x] + ys[p..]) == multiset(ys) + multiset{x}
  {
    calc {
      multiset(ys[..p] + [x] + ys[p..]);
      multiset(ys[..p]) + multiset{x} + multiset(ys[p..]);
      { assert ys == ys[..p] + ys[p..]; }
      multiset(ys) + multiset{x};
    }
  }

  lemma SplicedAt(ys: seq<int>, p: nat, x: int, zs: seq<int>)
    requires p <= |ys| && zs == ys[..p] + [x] + ys[p..]
    ensures |zs| == |ys| + 1
    ensures forall t :: 0 <= t < p ==> zs[t] == ys[t]
    ensures zs[p] == x
    ensures forall t :: p < t < |zs| ==> zs[t] == ys[t - 1]
  {
  }

  lemma SplicedOrder(ys: seq<int>, p: nat, x: int, key: seq<int>, zs: seq<int>)
    requires p <= |ys| && 0 <= x < |key| && forall t :: 0 <= t < |ys| ==> 0 <= ys[t] < |key|
    requires forall a, b :: 0 <= a < b < |ys| ==> key[ys[a]] <= key[ys[b]]
    requires forall t :: 0 <= t < p ==> key[ys[t]] <= key[x]
    requires p < |ys| ==> key[x] < key[ys[p]]
    requires |zs| == |ys| + 1
    requires forall t :: 0 <= t < p ==> zs[t] == ys[t]
    requires zs[p] == x
    requires forall t :: p < t < |zs| ==> zs[t] == ys[t - 1]
    ensures forall t :: 0 <= t < |zs| ==> 0 <= zs[t] < |key|
    ensures forall a, b :: 0 <= a < b < |zs| ==> key[zs[a]] <= key[zs[b]]
  {
  }

  /** Adds one to vals[v] for every value index v not forbidden at `coord`. */
  method AddFreeAt(vals: array<int>, mask: array3<bool>, coord: Coord)
    requires vals.Length == SIZE && IsCube(mask) && InGrid(coord)
    modifies vals
    ensures forall v :: 0 <= v < SIZE ==> vals[v] == old(vals[v]) + (if !mask[coord.0, coord.1, v] then 1 else 0)
  {
    for val := 0 to SIZE
      invariant forall v :: 0 <= v < val ==> vals[v] == old(vals[v]) + (if !mask[coord.0, coord.1, v] then 1 else 0)
      invariant forall v :: val <= v < SIZE ==> vals[v] == old(vals[v])
    {
      if !mask[coord.0, coord.1, val] {
        vals[val] := vals[val] + 1;
      }
    }
  }

  /** Adds to vals[v], for every value index v, the number of cells of `cs` at which v is not forbidden. */
  method AddFree(vals: array<int>, mask: array3<bool>, cs: seq<Coord>)
    requires vals.Length == SIZE && IsCube(mask) && forall n :: 0 <= n < |cs| ==> InGrid(cs[n])
    modifies vals
    ensures forall v :: 0 <= v < SIZE ==> vals[v] == old(vals[v]) + FreeAmong(mask, cs, v)
  {
    for n := 0 to |cs|
      invariant forall v :: 0 <= v < SIZE ==> vals[v] == old(vals[v]) + FreeAmong(mask, cs[..n], v)
    {
      assert cs[..n + 1][..n] == cs[..n];
      AddFreeAt(vals, mask, cs[n]);
    }
    assert cs[..|cs|] == cs;
  }

  /** As AddFree, but skipping the cells of `cs` in row i or in column j. */
  method AddFreeOffLines(vals: array<int>, mask: array3<bool>, cs: seq<Coord>, i: int, j: int)
    requires vals.Length == SIZE && IsCube(mask) && forall n :: 0 <= n < |cs| ==> InGrid(cs[n])
    modifies vals
    ensures forall v :: 0 <= v < SIZE ==> vals[v] == old(vals[v]) + FreeAmong(mask, OffLines(cs, i, j), v)
  {
    for n := 0 to |cs|
      invariant forall v :: 0 <= v < SIZE ==> vals[v] == old(vals[v]) + FreeAmong(mask, OffLines(cs[..n], i, j), v)
    {
      var coord := cs[n];
      ghost var before := OffLines(cs[..n], i, j);
      OffLinesInGrid(cs[..n], i, j);
      assert cs[..n + 1][..n] == cs[..n];
      if coord.0 != i && coord.1 != j {
        assert OffLines(cs[..n + 1], i, j) == before + [coord];
        FreeAmongSnoc(mask, before, coord);
        AddFreeAt(vals, mask, coord);
      } else {
        assert OffLines(cs[..n + 1], i, j) == before + [];
        assert before + [] == before;
      }
    }
    assert cs[..|cs|] == cs;
  }

  lemma OffLinesInGrid(cs: seq<Coord>, i: int, j: int)
    requires forall n :: 0 <= n < |cs| ==> InGrid(cs[n])
    ensures forall n :: 0 <= n < |OffLines(cs, i, j)| ==> InGrid(OffLines(cs, i, j)[n])
  {
  }

  lemma FreeAmongSnoc(mask: array3<bool>, cs: seq<Coord>, c: Coord)
    requires IsCube(mask) && InGrid(c) && forall n :: 0 <= n < |cs| ==> InGrid(cs[n])
    ensures forall k :: 0 <= k < SIZE ==>
      FreeAmong(mask, cs + [c], k) == FreeAmong(mask, cs, k) + (if !mask[c.0, c.1, k] then 1 else 0)
  {
  }

  /** The scores of all nine value indices at (i, j). */
  method Scores(i: nat, j: nat, mask: array3<bool>) returns (scores: seq<int>)
    requires IsCube(mask) && i < SIZE && j < SIZE
    ensures scores == ScoreTable(mask, i, j)
  {
    var vals := new int[SIZE](_ => 0);
    // up the row
    var rc := Sudoku.RowCoords(i);
    AddFree(vals, mask, rc);
    // down the column
    var cc := Sudoku.ColCoords(j);
    AddFree(vals, mask, cc);
    // then the square, not counting its cells in row i or column j again
    var sc := Sudoku.SquareCoords(i, j);
    SquareCoordsShape(i, j);
    AddFreeOffLines(vals, mask, sc, i, j);
    scores := vals[..];
    ScoreTableAt(mask, i, j);
    assert forall k :: 0 <= k < SIZE ==> scores[k] == Score(mask, i, j, k);
  }

  /** The value indices not forbidden at (i, j), in increasing order. */
  method Candidates(i: nat, j: nat, mask: array3<bool>) returns (indices: seq<int>)
    requires IsCube(mask) && i < SIZE && j < SIZE
    ensures forall n :: 0 <= n < |indices| ==> 0 <= indices[n] < SIZE
    ensures forall k: int :: multiset(indices)[k] == if 0 <= k < SIZE && !mask[i, j, k] then 1 else 0
    ensures forall p, q :: 0 <= p < q < |indices| ==> indices[p] < indices[q]
  {
    indices := [];
    for index := 0 to SIZE
      invariant forall n :: 0 <= n < |indices| ==> 0 <= indices[n] < index
      invariant forall p, q :: 0 <= p < q < |indices| ==> indices[p] < indices[q]
      invariant forall k: int :: multiset(indices)[k] == if 0 <= k < index && !mask[i, j, k] then 1 else 0
    {
      if !mask[i, j, index] {
        indices := indices + [index];
      }
    }
  }

  /** Turns value indices back into Squares, position by position. */
  method ToSquares(ks: seq<int>) returns (ret: seq<Square>)
    requires forall n :: 0 <= n < |ks| ==> 0 <= ks[n] < SIZE
    ensures |ret| == |ks| && forall n :: 0 <= n < |ks| ==> ret[n] != EMPTY && IntValFromSquare(ret[n]) == ks[n]
    ensures forall v: Square :: multiset(ret)[v] == multiset(ks)[v - 1]
  {
    ret := [];
    for n := 0 to |ks|
      invariant |ret| == n
      invariant forall t :: 0 <= t < n ==> ret[t] != EMPTY && IntValFromSquare(ret[t]) == ks[t]
      invariant forall v: Square :: multiset(ret)[v] == multiset(ks[..n])[v - 1]
    {
      var sq := SquareFromIntVal(ks[n]);
      assert ks[..n + 1] == ks[..n] + [sq - 1];
      ShiftedSnoc(ret, ks[..n], sq);
      ret := ret + [sq];
    }
    assert ks[..|ks|] == ks;
  }

  /** Appending a Square and its value index keeps the counts of the two sequences in step. */
  lemma ShiftedSnoc(ret: seq<Square>, ks: seq<int>, sq: Square)
    requires forall v: Square :: multiset(ret)[v] == multiset(ks)[v - 1]
    ensures forall v: Square :: multiset(ret + [sq])[v] == multiset(ks + [sq - 1])[v - 1]
  {
  }

  /**
   * LeastConstrainingValue: every value not forbidden at (i, j), each exactly
   * once, in nondecreasing order of its score. The order among equal scores
   * is not specified.
   */
  method LeastConstrainingValue(i: nat, j: nat, mask: array3<bool>) returns (ret: seq<Square>)
    requires IsCube(mask) && i < SIZE && j < SIZE
    ensures forall n :: 0 <= n < |ret| ==> ret[n] != EMPTY && !mask[i, j, ret[n] - 1]
    ensures forall v: Square :: multiset(ret)[v] == if v != EMPTY && !mask[i, j, v - 1] then 1 else 0
    ensures forall p, q :: 0 <= p < q < |ret| ==> ScoreTable(mask, i, j)[ret[p] - 1] <= ScoreTable(mask, i, j)[ret[q] - 1]
  {
    var vals := Scores(i, j, mask);
    var indices := Candidates(i, j, mask);
    var sorted := SortByKey(indices, vals);
    ret := ToSquares(sorted);
    forall n | 0 <= n < |ret|
      ensures !mask[i, j, ret[n] - 1]
    {
      assert multiset(sorted)[sorted[n]] > 0;
    }
  }

  // ---------------------------------------------------------------------
  // Soundness of a placement

  /**
   * Placing a value that the mask does not forbid, in an EMPTY cell of a sound
   * grid the mask is consistent with, keeps the grid sound.
   */
  lemma PlaceKeepsSound(g: Grid, i: nat, j: nat, v: Square)
    requires IsGrid(g) && i < SIZE && j < SIZE && g[i][j] == EMPTY && v != EMPTY
    ensures Sound(g) && (i, j, v - 1) !in InducedBy(g) ==> Sound(Place(g, i, j, v))
  {
  }

  /**
   * A solution of `g` puts in an EMPTY cell a digit no filled peer forbids,
   * and it still solves the grid with that digit placed.
   */
  lemma SolutionStep(g: Grid, s: Grid, i: nat, j: nat)
    requires IsGrid(g) && IsGrid(s) && Complete(s) && Sound(s) && Extends(s, g)
    requires i < SIZE && j < SIZE && g[i][j] == EMPTY
    ensures s[i][j] != EMPTY && (i, j, s[i][j] - 1) !in InducedBy(g)
    ensures Extends(s, Place(g, i, j, s[i][j]))
  {
  }

  /**
   * When every digit the filled cells allow at the EMPTY cell (i, j) is among
   * the candidates, a solvable grid stays solvable with one of them placed.
   */
  lemma SolvableHasCandidate(g: Grid, i: nat, j: nat, candidates: seq<Square>)
    requires IsGrid(g) && i < SIZE && j < SIZE && g[i][j] == EMPTY
    requires forall v: Square :: v != EMPTY && (i, j, v - 1) !in InducedBy(g) ==> v in candidates
    ensures Solvable(g) ==> exists n :: 0 <= n < |candidates| && Solvable(Place(g, i, j, candidates[n]))
  {
    if Solvable(g) {
      var s :| IsGrid(s) && Complete(s) && Sound(s) && Extends(s, g);
      SolutionStep(g, s, i, j);
      assert s[i][j] in candidates;
      var n :| 0 <= n < |candidates| && candidates[n] == s[i][j];
      assert Solvable(Place(g, i, j, candidates[n]));
    }
  }

  /**
   * The candidate list of a consistent mask holds every digit the filled
   * cells allow at (i, j), so one of them keeps a solvable grid solvable.
   */
  lemma CandidatesCover(g: Grid, mask: array3<bool>, i: nat, j: nat, candidates: seq<Square>)
    requires IsGrid(g) && IsCube(mask) && i < SIZE && j < SIZE && g[i][j] == EMPTY
    requires Entries(mask) == InducedBy(g)
    requires forall v: Square :: multiset(candidates)[v] == if v != EMPTY && !mask[i, j, v - 1] then 1 else 0
    ensures Solvable(g) ==> exists n :: 0 <= n < |candidates| && Solvable(Place(g, i, j, candidates[n]))
  {
    forall v: Square | v != EMPTY && (i, j, v - 1) !in InducedBy(g)
      ensures v in candidates
    {
      assert multiset(candidates)[v] == 1;
    }
    SolvableHasCandidate(g, i, j, candidates);
  }

  /** Candidates refuted one by one: the first n + 1 fail when the first n and the next one do. */
  lemma RefutedPrefix(g: Grid, i: nat, j: nat, candidates: seq<Square>, n: nat)
    requires IsGrid(g) && i < SIZE && j < SIZE && n < |candidates|
    requires forall t :: 0 <= t < n ==> !Solvable(Place(g, i, j, candidates[t]))
    requires !Solvable(Place(g, i, j, candidates[n]))
    ensures forall t :: 0 <= t < n + 1 ==> !Solvable(Place(g, i, j, candidates[t]))
  {
  }

  // ---------------------------------------------------------------------
  // Backtracking

  /**
   * solveRecursive. On failure the board, the mask and the counts are as on
   * entry. On success the board is complete, passes `valid`, keeps every
   * filled cell it had on entry, and is sound when it was sound on entry
   * with a consistent mask. The mask stays consistent with the board and the
   * counts with the mask. Every attempt and every backtrack adds one step.
   * A board that has a solution is always solved.
   */
  method SolveRecursive(board: Sudoku, mask: array3<bool>, counts: array2<int>, numSteps: nat)
      returns (solved: bool, steps: nat, ghost attempts: nat, ghost backtracks: nat)
    requires board.Valid() && IsCube(mask) && IsTable(counts)
    requires Entries(mask) == InducedBy(board.Cells()) && CountsMatch(counts, mask)
    modifies board.squares, mask, counts
    decreases EmptyCount(board.Cells()), 3
    ensures board.Valid()
    ensures !solved ==>
      board.Cells() == old(board.Cells()) && Entries(mask) == old(Entries(mask)) &&
      forall r, c :: 0 <= r < SIZE && 0 <= c < SIZE ==> counts[r, c] == old(counts[r, c])
    ensures solved ==> Complete(board.Cells()) && PassesCheck(board.Cells()) && Extends(board.Cells(), old(board.Cells()))
    ensures Entries(mask) == InducedBy(board.Cells()) && CountsMatch(counts, mask)
    ensures solved && old(Sound(board.Cells())) ==> Sound(board.Cells())
    ensures !old(PassesCheck(board.Cells())) ==> !solved && steps == numSteps
    ensures old(Complete(board.Cells())) ==> steps == numSteps && solved == old(PassesCheck(board.Cells()))
    ensures steps == numSteps + attempts + backtracks
    ensures attempts == backtracks + (if solved then old(EmptyCount(board.Cells())) else 0)
    ensures solved ==> steps >= numSteps + old(EmptyCount(board.Cells()))
    ensures old(Solvable(board.Cells())) ==> solved
  {
    ghost var g0 := board.Cells();
    // If we're given an invalid problem, something has gone wrong
    var ok := IsValid(board, counts);
    assert ok == PassesCheck(g0);
    if Solvable(g0) {
      SolvableSound(g0);
      SoundPassesCheck(g0);
    }
    if !ok {
      return false, numSteps, 0, 0;
    }
    // If we're done, exit
    var done := IsSolved(board);
    assert done == Complete(g0);
    if done {
      EmptyCountZero(g0);
      return true, numSteps, 0, 0;
    }
    solved, steps, attempts, backtracks := Branch(board, mask, counts, numSteps);
  }

  /**
   * The rest of solveRecursive on a board that passes `valid` and is not
   * complete: picks the most constrained cell, orders its candidates and
   * tries them.
   */
  method Branch(board: Sudoku, mask: array3<bool>, counts: array2<int>, numSteps: nat)
      returns (solved: bool, steps: nat, ghost attempts: nat, ghost backtracks: nat)
    requires board.Valid() && IsCube(mask) && IsTable(counts)
    requires Entries(mask) == InducedBy(board.Cells()) && CountsMatch(counts, mask)
    requires !Complete(board.Cells())
    modifies board.squares, mask, counts
    decreases EmptyCount(board.Cells()), 2
    ensures board.Valid()
    ensures !solved ==>
      board.Cells() == old(board.Cells()) && Entries(mask) == old(Entries(mask)) &&
      forall r, c :: 0 <= r < SIZE && 0 <= c < SIZE ==> counts[r, c] == old(counts[r, c])
    ensures solved ==> Complete(board.Cells()) && PassesCheck(board.Cells()) && Extends(board.Cells(), old(board.Cells()))
    ensures Entries(mask) == InducedBy(board.Cells()) && CountsMatch(counts, mask)
    ensures solved && old(Sound(board.Cells())) ==> Sound(board.Cells())
    ensures steps == numSteps + attempts + backtracks
    ensures attempts == backtracks + (if solved then old(EmptyCount(board.Cells())) else 0)
    ensures old(Solvable(board.Cells())) ==> solved
  {
    ghost var g0 := board.Cells();
    // Get the next square to consider
    var coord := MostConstrained(counts, board);
    // Get a sorted list of candidates
    var candidates := LeastConstrainingValue(coord.0, coord.1, mask);
    assert board.Cells() == g0;
    CandidatesCover(g0, mask, coord.0, coord.1, candidates);
    // If there are no candidates, something has gone horribly wrong
    if |candidates| == 0 {
      return false, numSteps, 0, 0;
    }
    solved, steps, attempts, backtracks := TryCandidates(board, mask, counts, coord, candidates, numSteps);
  }

  /**
   * The candidate loop of solveRecursive: tries each candidate for the cell
   * at `coord` in order, and stops at the first one whose subsearch succeeds.
   */
  method TryCandidates(board: Sudoku, mask: array3<bool>, counts: array2<int>, coord: Coord, candidates: seq<Square>, numSteps: nat)
      returns (solved: bool, steps: nat, ghost attempts: nat, ghost backtracks: nat)
    requires board.Valid() && IsCube(mask) && IsTable(counts)
    requires Entries(mask) == InducedBy(board.Cells()) && CountsMatch(counts, mask)
    requires InGrid(coord) && board.Cells()[coord.0][coord.1] == EMPTY
    requires forall n :: 0 <= n < |candidates| ==> candidates[n] != EMPTY && !mask[coord.0, coord.1, candidates[n] - 1]
    modifies board.squares, mask, counts
    decreases EmptyCount(board.Cells()), 1
    ensures board.Valid()
    ensures !solved ==>
      board.Cells() == old(board.Cells()) && Entries(mask) == old(Entries(mask)) &&
      forall r, c :: 0 <= r < SIZE && 0 <= c < SIZE ==> counts[r, c] == old(counts[r, c])
    ensures solved ==> Complete(board.Cells()) && PassesCheck(board.Cells()) && Extends(board.Cells(), old(board.Cells()))
    ensures Entries(mask) == InducedBy(board.Cells()) && CountsMatch(counts, mask)
    ensures solved && old(Sound(board.Cells())) ==> Sound(board.Cells())
    ensures steps == numSteps + attempts + backtracks
    ensures attempts == backtracks + (if solved then old(EmptyCount(board.Cells())) else 0)
    ensures !solved ==> steps >= numSteps + 2 * |candidates|
    ensures !solved ==>
      forall t :: 0 <= t < |candidates| ==> !Solvable(Place(old(board.Cells()), coord.0, coord.1, candidates[t]))
  {
    ghost var g0 := board.Cells();
    ghost var m0 := Entries(mask);
    assert forall n :: 0 <= n < |candidates| ==> (coord.0, coord.1, candidates[n] - 1) !in m0;
    steps, attempts, backtracks := numSteps, 0, 0;
    // Consider candidates in order
    for n := 0 to |candidates|
      invariant board.Valid() && board.Cells() == g0 && Entries(mask) == m0
      invariant forall r, c :: 0 <= r < SIZE && 0 <= c < SIZE ==> counts[r, c] == old(counts[r, c])
      invariant steps == numSteps + attempts + backtracks && attempts == backtracks
      invariant steps >= numSteps + 2 * n
      invariant forall t :: 0 <= t < n ==> !Solvable(Place(g0, coord.0, coord.1, candidates[t]))
    {
      var found;
      ghost var a, b;
      assert (coord.0, coord.1, candidates[n] - 1) !in Entries(mask);
      found, steps, a, b := TryCandidate(board, mask, counts, coord, candidates[n], steps);
      attempts, backtracks := attempts + a, backtracks + b;
      if found {
        return true, steps, attempts, backtracks;
      }
      RefutedPrefix(g0, coord.0, coord.1, candidates, n);
    }
    solved := false;
  }

  /**
   * One turn of the candidate loop of solveRecursive: places the candidate,
   * applies its delta and recurses; when that fails, counts a step, unapplies
   * the delta and empties the cell again.
   */
  method TryCandidate(board: Sudoku, mask: array3<bool>, counts: array2<int>, coord: Coord, candidate: Square, numSteps: nat)
      returns (found: bool, steps: nat, ghost attempts: nat, ghost backtracks: nat)
    requires board.Valid() && IsCube(mask) && IsTable(counts)
    requires Entries(mask) == InducedBy(board.Cells()) && CountsMatch(counts, mask)
    requires InGrid(coord) && board.Cells()[coord.0][coord.1] == EMPTY && candidate != EMPTY
    requires !mask[coord.0, coord.1, candidate - 1]
    modifies board.squares, mask, counts
    decreases EmptyCount(board.Cells()), 0
    ensures board.Valid()
    ensures !found ==>
      board.Cells() == old(board.Cells()) && Entries(mask) == old(Entries(mask)) &&
      forall r, c :: 0 <= r < SIZE && 0 <= c < SIZE ==> counts[r, c] == old(counts[r, c])
    ensures found ==> Complete(board.Cells()) && PassesCheck(board.Cells()) && Extends(board.Cells(), old(board.Cells()))
    ensures Entries(mask) == InducedBy(board.Cells()) && CountsMatch(counts, mask)
    ensures found && old(Sound(board.Cells())) ==> Sound(board.Cells())
    ensures steps == numSteps + attempts + backtracks
    ensures attempts == backtracks + (if found then old(EmptyCount(board.Cells())) else 0)
    ensures found ==> steps >= numSteps + 1
    ensures !found ==> steps >= numSteps + 2
    ensures !found ==> !Solvable(Place(old(board.Cells()), coord.0, coord.1, candidate))
  {
    ghost var g0 := board.Cells();
    ghost var m0 := Entries(mask);
    assert (coord.0, coord.1, candidate - 1) !in m0;
    var delta := Assign(board, mask, counts, coord, candidate);
    ghost var g1 := board.Cells();
    PlaceStep(g0, coord.0, coord.1, candidate);
    found, steps, attempts, backtracks := SolveRecursive(board, mask, counts, numSteps + 1);
    attempts := attempts + 1;
    if found {
      assert Extends(g1, g0);
      return;
    }
    // Backtracking
    steps, backtracks := steps + 1, backtracks + 1;
    assert board.Cells() == g1;
    Unassign(board, mask, counts, coord, delta, g0, m0, candidate);
  }

  /** What placing a value in an EMPTY cell does to the measure, the induced entries and soundness. */
  lemma PlaceStep(g: Grid, i: nat, j: nat, v: Square)
    requires IsGrid(g) && i < SIZE && j < SIZE && g[i][j] == EMPTY && v != EMPTY
    ensures EmptyCount(Place(g, i, j, v)) + 1 == EmptyCount(g)
    ensures InducedBy(Place(g, i, j, v)) == InducedBy(g) + Induced(i, j, v - 1)
    ensures Sound(g) && (i, j, v - 1) !in InducedBy(g) ==> Sound(Place(g, i, j, v))
  {
    EmptyCountPlace(g, i, j, v);
    InducedByPlace(g, i, j, v);
    PlaceKeepsSound(g, i, j, v);
  }

  /** The first half of a turn: the assignment through `board.at(coord)`, ConstrainVariables and ApplyConstraints. */
  method Assign(board: Sudoku, mask: array3<bool>, counts: array2<int>, coord: Coord, candidate: Square)
      returns (delta: array3<bool>)
    requires board.Valid() && IsCube(mask) && IsTable(counts) && InGrid(coord) && candidate != EMPTY
    modifies board.squares, mask, counts
    ensures board.Valid() && fresh(delta) && IsCube(delta)
    ensures board.Cells() == Place(old(board.Cells()), coord.0, coord.1, candidate)
    ensures Entries(delta) == Induced(coord.0, coord.1, candidate - 1) - old(Entries(mask))
    ensures Entries(mask) == old(Entries(mask)) + Entries(delta)
    ensures forall r, c :: 0 <= r < SIZE && 0 <= c < SIZE ==>
      counts[r, c] == old(counts[r, c]) + Number(Entries(delta), r, c)
    ensures old(CountsMatch(counts, mask)) ==> CountsMatch(counts, mask)
  {
    board.SetAtCoord(coord, candidate);
    delta := ConstrainVariables(coord.0, coord.1, IntValFromSquare(candidate), mask);
    ApplyConstraints(mask, counts, delta);
  }

  /**
   * The second half of a failed turn, which undoes Assign: UnapplyConstraints
   * and assigning EMPTY through `board.at(coord)` bring the board and the
   * mask back to `g0` and `m0`.
   */
  method Unassign(board: Sudoku, mask: array3<bool>, counts: array2<int>, coord: Coord, delta: array3<bool>,
                  ghost g0: Grid, ghost m0: set<Entry>, ghost candidate: Square)
    requires board.Valid() && IsCube(mask) && IsTable(counts) && InGrid(coord) && IsCube(delta) && mask != delta
    requires IsGrid(g0) && g0[coord.0][coord.1] == EMPTY && board.Cells() == Place(g0, coord.0, coord.1, candidate)
    requires Entries(delta) == Induced(coord.0, coord.1, candidate - 1) - m0 && Entries(mask) == m0 + Entries(delta)
    modifies board.squares, mask, counts
    ensures board.Valid() && board.Cells() == g0 && Entries(mask) == m0
    ensures forall r, c :: 0 <= r < SIZE && 0 <= c < SIZE ==>
      counts[r, c] == old(counts[r, c]) - Number(Entries(delta), r, c)
    ensures old(CountsMatch(counts, mask)) ==> CountsMatch(counts, mask)
  {
    UnapplyConstraints(mask, counts, delta);
    board.SetAtCoord(coord, EMPTY);
    AddThenRemove(m0, Induced(coord.0, coord.1, candidate - 1));
    PlaceThenClear(g0, coord.0, coord.1, candidate);
  }

  /** Adding the entries of `ind` missing from `m` and then removing them again gives back `m`. */
  lemma AddThenRemove(m: set<Entry>, ind: set<Entry>)
    ensures (m + (ind - m)) - (ind - m) == m
  {
  }

  /** Emptying a cell that was just filled gives back the grid from before. */
  lemma PlaceThenClear(g: Grid, i: nat, j: nat, v: Square)
    requires IsGrid(g) && i < SIZE && j < SIZE && g[i][j] == EMPTY
    ensures Place(Place(g, i, j, v), i, j, EMPTY) == g
  {
    var h := Place(Place(g, i, j, v), i, j, EMPTY);
    assert forall r :: 0 <= r < SIZE ==> h[r] == g[r];
  }

  /**
   * The initial constraints built by Solve: starting from an all-false mask
   * and all-zero counts, every filled cell, in row-major order, has its delta
   * computed and applied, so that afterwards the mask forbids exactly what
   * the filled cells induce and the counts match it.
   */
  method InitialConstraints(board: Sudoku) returns (mask: array3<bool>, counts: array2<int>)
    requires board.Valid()
    ensures fresh(mask) && fresh(counts) && IsCube(mask) && IsTable(counts)
    ensures Entries(mask) == InducedBy(board.Cells())
    ensures CountsMatch(counts, mask)
  {
    mask := new bool[SIZE, SIZE, SIZE]((_, _, _) => false);
    counts := new int[SIZE, SIZE]((_, _) => 0);
    assert Entries(mask) == {};
    ghost var g := board.Cells();
    ghost var h := EmptyGrid();
    InducedByEmpty();
    forall r, c | 0 <= r < SIZE && 0 <= c < SIZE
      ensures counts[r, c] == Number(Entries(mask), r, c)
    {
      CountBelowNone(r, c, SIZE);
    }
    for i := 0 to SIZE
      invariant IsGrid(h) && Entries(mask) == InducedBy(h) && CountsMatch(counts, mask)
      invariant forall r, c :: 0 <= r < SIZE && 0 <= c < SIZE ==> h[r][c] == if r < i then g[r][c] else EMPTY
    {
      for j := 0 to SIZE
        invariant IsGrid(h) && Entries(mask) == InducedBy(h) && CountsMatch(counts, mask)
        invariant forall r, c :: 0 <= r < SIZE && 0 <= c < SIZE ==> h[r][c] == if Before(r, c, i, j) then g[r][c] else EMPTY
      {
        var v := board.At(i, j);
        if v != EMPTY {
          ConstrainGiven(mask, counts, i, j, v, h);
          h := Place(h, i, j, v);
        }
      }
    }
    assert forall r :: 0 <= r < SIZE ==> h[r] == g[r];
    assert h == g;
  }

  /**
   * One given cell of the initial pass: the constraints of value `v` at
   * (i, j) are added to a mask and counts that are consistent with `h`, a
   * grid where that cell is still EMPTY, and they become consistent with `h`
   * with the cell filled.
   */
  method ConstrainGiven(mask: array3<bool>, counts: array2<int>, i: nat, j: nat, v: Square, ghost h: Grid)
    requires IsCube(mask) && IsTable(counts) && IsGrid(h) && i < SIZE && j < SIZE
    requires h[i][j] == EMPTY && v != EMPTY
    requires Entries(mask) == InducedBy(h) && CountsMatch(counts, mask)
    modifies mask, counts
    ensures Entries(mask) == InducedBy(Place(h, i, j, v)) && CountsMatch(counts, mask)
  {
    var delta := ConstrainVariables(i, j, IntValFromSquare(v), mask);
    ApplyConstraints(mask, counts, delta);
    InducedByPlace(h, i, j, v);
  }

  lemma {:induction false} CountBelowNone(r: int, c: int, n: nat)
    ensures CountBelow({}, r, c, n) == 0
  {
    if n > 0 {
      CountBelowNone(r, c, n - 1);
    }
  }

  /**
   * What a top-level search leaves behind, stated on grids: the problem
   * itself, or a complete grid extending it that passes the check; and the
   * problem itself whenever it fails the check or is already complete; a
   * complete grid whenever the problem has a solution, and for a sound
   * problem only then.
   */
  lemma SearchOutcome(g0: Grid, g: Grid, solved: bool, stepsIn: nat, stepsOut: nat)
    requires IsGrid(g0) && IsGrid(g)
    requires !solved ==> g == g0
    requires solved ==> Complete(g) && PassesCheck(g) && Extends(g, g0)
    requires !PassesCheck(g0) ==> !solved && stepsOut == stepsIn
    requires Complete(g0) ==> stepsOut == stepsIn && solved == PassesCheck(g0)
    requires solved && Sound(g0) ==> Sound(g)
    requires Solvable(g0) ==> solved
    ensures g == g0 || (Complete(g) && PassesCheck(g) && Extends(g, g0))
    ensures !PassesCheck(g0) ==> g == g0 && stepsOut == stepsIn
    ensures Complete(g0) ==> g == g0 && stepsOut == stepsIn
    ensures Solvable(g0) ==> Complete(g)
    ensures Sound(g0) ==> (Complete(g) <==> Solvable(g0))
  {
    if Complete(g0) && solved {
      ExtendsComplete(g, g0);
    }
    if Sound(g0) && Complete(g) {
      // the result itself is the solution
      assert Extends(g, g0);
      assert Solvable(g0);
    }
  }

  /**
   * Solve: works on a copy of the problem, which is left untouched. The
   * result is either equal to the problem (the search failed) or a complete
   * grid that passes `valid` and keeps every given cell, sound whenever the
   * problem is. Every problem that has a solution is solved, and a sound
   * problem is solved only when it has one. The step counter is only ever
   * increased.
   */
  method Solve(problem: Sudoku, steps: nat) returns (board: Sudoku, stepsOut: nat)
    requires problem.Valid()
    ensures fresh(board) && fresh(board.squares) && board.Valid()
    ensures board.Cells() == problem.Cells() ||
      (Complete(board.Cells()) && PassesCheck(board.Cells()) && Extends(board.Cells(), problem.Cells()))
    ensures Sound(problem.Cells()) ==> Sound(board.Cells())
    ensures !PassesCheck(problem.Cells()) ==> board.Cells() == problem.Cells() && stepsOut == steps
    ensures Complete(problem.Cells()) ==> board.Cells() == problem.Cells() && stepsOut == steps
    ensures Solvable(problem.Cells()) ==> Complete(board.Cells())
    ensures Sound(problem.Cells()) ==> (Complete(board.Cells()) <==> Solvable(problem.Cells()))
    ensures stepsOut >= steps
  {
    board := new Sudoku.Copy(problem);
    var mask, counts := InitialConstraints(board);
    ghost var g0 := board.Cells();
    assert g0 == problem.Cells();
    var solved;
    ghost var attempts, backtracks;
    solved, stepsOut, attempts, backtracks := SolveRecursive(board, mask, counts, steps);
    ghost var g := board.Cells();
    assert problem.Cells() == g0;
    SearchOutcome(g0, g, solved, steps, stepsOut);
    // a failed search is reported on std::cerr, not in the result
  }
}
