/**
 * The constraint tracker of Solver.cpp: a 9x9x9 "forbidden" mask, where
 * mask[i, j, k] says that cell (i, j) cannot hold the value with index k
 * (the Square k + 1), and a 9x9 table counting the forbidden values of each
 * cell. A placement is turned into a delta cube of newly forbidden entries,
 * which is applied to mask and counts in place and later unapplied.
 *
 * The abstract value of a cube is the set of its true entries (`Entries`).
 */
module Constraints {
  import opened SudokuGrid

  /** (row, column, value index). */
  type Entry = (int, int, int)

  /** Square to value index (one-indexed to zero-indexed). EMPTY maps to -1. */
  function IntValFromSquare(s: Square): (k: int)
    ensures s != EMPTY ==> 0 <= k < SIZE
    ensures s == EMPTY ==> k == -1
  {
    s - 1
  }

  /** Value index to Square (zero-indexed to one-indexed). */
  function SquareFromIntVal(k: int): (s: Square)
    requires 0 <= k < SIZE
    ensures s != EMPTY && IntValFromSquare(s) == k
  {
    k + 1
  }

  lemma SquareRoundTrip(s: Square)
    requires s != EMPTY
    ensures SquareFromIntVal(IntValFromSquare(s)) == s
  {
  }

  predicate IsCube(m: array3<bool>)
  {
    m.Length0 == SIZE && m.Length1 == SIZE && m.Length2 == SIZE
  }

  predicate IsTable(t: array2<int>)
  {
    t.Length0 == SIZE && t.Length1 == SIZE
  }

  predicate InCube(e: Entry)
  {
    0 <= e.0 < SIZE && 0 <= e.1 < SIZE && 0 <= e.2 < SIZE
  }

  /** The true entries of a cube. */
  ghost function Entries(m: array3<bool>): (s: set<Entry>)
    reads m
    requires IsCube(m)
    ensures forall e :: e in s ==> InCube(e)
  {
    set r, c, k | 0 <= r < SIZE && 0 <= c < SIZE && 0 <= k < SIZE && m[r, c, k] :: (r, c, k)
  }

  /** Number of value indices below n that `s` holds for cell (r, c). */
  ghost function CountBelow(s: set<Entry>, r: int, c: int, n: nat): nat
  {
    if n == 0 then 0 else CountBelow(s, r, c, n - 1) + (if (r, c, n - 1) in s then 1 else 0)
  }

  /** Number of values `s` forbids at cell (r, c). */
  ghost function Number(s: set<Entry>, r: int, c: int): nat
  {
    CountBelow(s, r, c, SIZE)
  }

  /** The counts table holds, for each cell, the number of its forbidden values. */
  ghost predicate CountsMatch(counts: array2<int>, mask: array3<bool>)
    reads counts, mask
    requires IsTable(counts) && IsCube(mask)
  {
    forall r, c :: 0 <= r < SIZE && 0 <= c < SIZE ==> counts[r, c] == Number(Entries(mask), r, c)
  }

  /** The entries a value with index `val` placed at (i, j) forbids: that value in every cell sharing a unit with (i, j), itself included. */
  ghost function Induced(i: int, j: int, val: int): set<Entry>
  {
    set r, c | 0 <= r < SIZE && 0 <= c < SIZE && SharesUnit(r, c, i, j) :: (r, c, val)
  }

  /** The entries forbidden by the filled cells of `g`. */
  ghost function InducedBy(g: Grid): set<Entry>
    requires IsGrid(g)
  {
    set r, c, k | 0 <= r < SIZE && 0 <= c < SIZE && 0 <= k < SIZE && HeldByPeer(g, r, c, k) :: (r, c, k)
  }

  /** Some filled cell sharing a unit with (r, c), possibly (r, c) itself, holds the Square k + 1. */
  ghost predicate HeldByPeer(g: Grid, r: int, c: int, k: int)
    requires IsGrid(g)
  {
    exists p, q :: 0 <= p < SIZE && 0 <= q < SIZE && g[p][q] == k + 1 && SharesUnit(r, c, p, q)
  }

  /** Filling one EMPTY cell adds exactly the entries that placement induces. */
  lemma InducedByPlace(g: Grid, i: nat, j: nat, v: Square)
    requires IsGrid(g) && i < SIZE && j < SIZE && g[i][j] == EMPTY && v != EMPTY
    ensures InducedBy(Place(g, i, j, v)) == InducedBy(g) + Induced(i, j, v - 1)
  {
  }

  lemma InducedByEmpty()
    ensures InducedBy(EmptyGrid()) == {}
  {
  }

  /** Counting over two disjoint sets adds up. */
  lemma {:induction false} CountBelowUnion(a: set<Entry>, b: set<Entry>, r: int, c: int, n: nat)
    requires a * b == {}
    ensures CountBelow(a + b, r, c, n) == CountBelow(a, r, c, n) + CountBelow(b, r, c, n)
  {
    if n > 0 {
      CountBelowUnion(a, b, r, c, n - 1);
      assert (r, c, n - 1) !in a * b;
    }
  }

  /** Counting over a set with a subset removed subtracts. */
  lemma {:induction false} CountBelowDifference(a: set<Entry>, b: set<Entry>, r: int, c: int, n: nat)
    requires b <= a
    ensures CountBelow(a - b, r, c, n) == CountBelow(a, r, c, n) - CountBelow(b, r, c, n)
  {
    if n > 0 {
      CountBelowDifference(a, b, r, c, n - 1);
      CountBelowMonotone(b, a, r, c, n - 1);
    }
  }

  lemma {:induction false} CountBelowMonotone(a: set<Entry>, b: set<Entry>, r: int, c: int, n: nat)
    requires a <= b
    ensures CountBelow(a, r, c, n) <= CountBelow(b, r, c, n)
  {
    if n > 0 {
      CountBelowMonotone(a, b, r, c, n - 1);
    }
  }

  /** No cell has more than nine forbidden values. */
  lemma {:induction false} CountBelowBound(a: set<Entry>, r: int, c: int, n: nat)
    ensures CountBelow(a, r, c, n) <= n
  {
    if n > 0 {
      CountBelowBound(a, r, c, n - 1);
    }
  }

  /** One loop of ConstrainVariables: marks value index `val` in `delta` at every cell of `cs` where the mask leaves it free. */
  method MarkUnconstrained(delta: array3<bool>, mask: array3<bool>, cs: seq<Coord>, val: nat)
    requires IsCube(delta) && IsCube(mask) && delta != mask && val < SIZE
    requires forall n :: 0 <= n < |cs| ==> InGrid(cs[n])
    modifies delta
    ensures forall r, c, k :: 0 <= r < SIZE && 0 <= c < SIZE && 0 <= k < SIZE ==>
      delta[r, c, k] == (old(delta[r, c, k]) || (k == val && !mask[r, c, k] && (r, c) in cs))
  {
    for n := 0 to |cs|
      invariant forall r, c, k :: 0 <= r < SIZE && 0 <= c < SIZE && 0 <= k < SIZE ==>
        delta[r, c, k] == (old(delta[r, c, k]) || (k == val && !mask[r, c, k] && (r, c) in cs[..n]))
    {
      var coord := cs[n];
      assert cs[..n + 1] == cs[..n] + [coord];
      if !mask[coord.0, coord.1, val] {
        delta[coord.0, coord.1, val] := true;
      }
    }
    assert cs[..|cs|] == cs;
  }

  /**
   * The delta for placing the value with index `val` at (i, j): every entry of
   * that value in row i, column j and the block of (i, j), (i, j) included,
   * that the mask does not already forbid. The mask is left unchanged.
   */
  method ConstrainVariables(i: nat, j: nat, val: nat, mask: array3<bool>) returns (delta: array3<bool>)
    requires IsCube(mask) && i < SIZE && j < SIZE && val < SIZE
    ensures fresh(delta) && IsCube(delta)
    ensures Entries(delta) == Induced(i, j, val) - Entries(mask)
  {
    delta := new bool[SIZE, SIZE, SIZE]((_, _, _) => false);
    // first the row
    var rc := Sudoku.RowCoords(i);
    MarkUnconstrained(delta, mask, rc, val);
    // next the column
    var cc := Sudoku.ColCoords(j);
    MarkUnconstrained(delta, mask, cc, val);
    // finally the square
    var sc := Sudoku.SquareCoords(i, j);
    SquareCoordsShape(i, j);
    MarkUnconstrained(delta, mask, sc, val);
    forall r, c | 0 <= r < SIZE && 0 <= c < SIZE
      ensures ((r, c) in rc || (r, c) in cc || (r, c) in sc) <==> SharesUnit(r, c, i, j)
    {
      RowCoordsMembers(i, r, c);
      ColCoordsMembers(j, r, c);
    }
    assert forall e :: e in Entries(delta) <==> e in Induced(i, j, val) - Entries(mask);
  }

  /**
   * Sets every delta entry in the mask and adds one to a cell's count per
   * delta entry of that cell. For a delta disjoint from the mask, the counts
   * keep matching the mask.
   */
  method ApplyConstraints(mask: array3<bool>, counts: array2<int>, delta: array3<bool>)
    requires IsCube(mask) && IsTable(counts) && IsCube(delta) && mask != delta
    modifies mask, counts
    ensures Entries(mask) == old(Entries(mask)) + Entries(delta)
    ensures forall r, c :: 0 <= r < SIZE && 0 <= c < SIZE ==>
      counts[r, c] == old(counts[r, c]) + Number(Entries(delta), r, c)
    ensures old(CountsMatch(counts, mask)) && old(Entries(mask)) * Entries(delta) == {} ==> CountsMatch(counts, mask)
  {
    ghost var d := Entries(delta);
    for i := 0 to SIZE
      invariant forall r, c, k :: 0 <= r < SIZE && 0 <= c < SIZE && 0 <= k < SIZE ==>
        mask[r, c, k] == (old(mask[r, c, k]) || (r < i && delta[r, c, k]))
      invariant forall r, c :: 0 <= r < SIZE && 0 <= c < SIZE ==>
        counts[r, c] == old(counts[r, c]) + (if r < i then Number(d, r, c) else 0)
    {
      for j := 0 to SIZE
        invariant forall r, c, k :: 0 <= r < SIZE && 0 <= c < SIZE && 0 <= k < SIZE ==>
          mask[r, c, k] == (old(mask[r, c, k]) || (Before(r, c, i, j) && delta[r, c, k]))
        invariant forall r, c :: 0 <= r < SIZE && 0 <= c < SIZE ==>
          counts[r, c] == old(counts[r, c]) + (if Before(r, c, i, j) then Number(d, r, c) else 0)
      {
        for k := 0 to SIZE
          invariant forall r, c, k' :: 0 <= r < SIZE && 0 <= c < SIZE && 0 <= k' < SIZE ==>
            mask[r, c, k'] == (old(mask[r, c, k']) || ((Before(r, c, i, j) || (r == i && c == j && k' < k)) && delta[r, c, k']))
          invariant forall r, c :: 0 <= r < SIZE && 0 <= c < SIZE ==>
            counts[r, c] == old(counts[r, c]) +
              (if Before(r, c, i, j) then Number(d, r, c) else if r == i && c == j then CountBelow(d, r, c, k) else 0)
        {
          assert (i, j, k) in d <==> delta[i, j, k];
          if delta[i, j, k] {
            mask[i, j, k] := true;
            counts[i, j] := counts[i, j] + 1;
          }
        }
      }
    }
    assert forall e :: e in Entries(mask) <==> e in old(Entries(mask)) + d;
    assert Entries(mask) == old(Entries(mask)) + d;
    if old(CountsMatch(counts, mask)) && old(Entries(mask)) * d == {} {
      forall r, c | 0 <= r < SIZE && 0 <= c < SIZE
        ensures counts[r, c] == Number(Entries(mask), r, c)
      {
        CountBelowUnion(old(Entries(mask)), d, r, c, SIZE);
        assert old(counts[r, c]) == Number(old(Entries(mask)), r, c);
      }
    }
  }

  /**
   * Clears every delta entry in the mask and subtracts one from a cell's
   * count per delta entry of that cell. For a delta contained in the mask,
   * the counts keep matching the mask.
   */
  method UnapplyConstraints(mask: array3<bool>, counts: array2<int>, delta: array3<bool>)
    requires IsCube(mask) && IsTable(counts) && IsCube(delta) && mask != delta
    modifies mask, counts
    ensures Entries(mask) == old(Entries(mask)) - Entries(delta)
    ensures forall r, c :: 0 <= r < SIZE && 0 <= c < SIZE ==>
      counts[r, c] == old(counts[r, c]) - Number(Entries(delta), r, c)
    ensures old(CountsMatch(counts, mask)) && Entries(delta) <= old(Entries(mask)) ==> CountsMatch(counts, mask)
  {
    ghost var d := Entries(delta);
    for i := 0 to SIZE
      invariant forall r, c, k :: 0 <= r < SIZE && 0 <= c < SIZE && 0 <= k < SIZE ==>
        mask[r, c, k] == (old(mask[r, c, k]) && !(r < i && delta[r, c, k]))
      invariant forall r, c :: 0 <= r < SIZE && 0 <= c < SIZE ==>
        counts[r, c] == old(counts[r, c]) - (if r < i then Number(d, r, c) else 0)
    {
      for j := 0 to SIZE
        invariant forall r, c, k :: 0 <= r < SIZE && 0 <= c < SIZE && 0 <= k < SIZE ==>
          mask[r, c, k] == (old(mask[r, c, k]) && !(Before(r, c, i, j) && delta[r, c, k]))
        invariant forall r, c :: 0 <= r < SIZE && 0 <= c < SIZE ==>
          counts[r, c] == old(counts[r, c]) - (if Before(r, c, i, j) then Number(d, r, c) else 0)
      {
        for k := 0 to SIZE
          invariant forall r, c, k' :: 0 <= r < SIZE && 0 <= c < SIZE && 0 <= k' < SIZE ==>
            mask[r, c, k'] == (old(mask[r, c, k']) && !((Before(r, c, i, j) || (r == i && c == j && k' < k)) && delta[r, c, k']))
          invariant forall r, c :: 0 <= r < SIZE && 0 <= c < SIZE ==>
            counts[r, c] == old(counts[r, c]) -
              (if Before(r, c, i, j) then Number(d, r, c) else if r == i && c == j then CountBelow(d, r, c, k) else 0)
        {
          assert (i, j, k) in d <==> delta[i, j, k];
          if delta[i, j, k] {
            mask[i, j, k] := false;
            counts[i, j] := counts[i, j] - 1;
          }
        }
      }
    }
    assert forall e :: e in Entries(mask) <==> e in old(Entries(mask)) - d;
    assert Entries(mask) == old(Entries(mask)) - d;
    if old(CountsMatch(counts, mask)) && d <= old(Entries(mask)) {
      forall r, c | 0 <= r < SIZE && 0 <= c < SIZE
        ensures counts[r, c] == Number(Entries(mask), r, c)
      {
        CountBelowDifference(old(Entries(mask)), d, r, c, SIZE);
        assert old(counts[r, c]) == Number(old(Entries(mask)), r, c);
      }
    }
  }
}
