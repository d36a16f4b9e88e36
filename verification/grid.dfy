/**
 * The rows x cols grid of cells built by gen_maze (dfs.c). A cell is named by
 * its row-major index `r * cols + c`, the flattened form of `maze[r][c]`.
 * Two cells are adjacent when they share a side: the right neighbour of a
 * cell that is not in the last column, or the cell one row below.
 */
module Grid {

  /** A cell's (row, col) fields. */
  datatype Coord = Coord(row: int, col: int)

  /** The index of `maze[r][c]`. */
  function Id(cols: nat, r: nat, c: nat): nat
  {
    r * cols + c
  }

  /** j is the cell right of i, in the same row. */
  predicate RightOf(n: nat, cols: nat, i: int, j: int)
    requires cols > 0
  {
    0 <= i && j == i + 1 && j < n && j % cols != 0
  }

  /** j is the cell below i. */
  predicate Below(n: nat, cols: nat, i: int, j: int)
  {
    0 <= i && j == i + cols && j < n
  }

  /** i and j share a side in a grid of n cells laid out cols to a row. */
  predicate Adjacent(n: nat, cols: nat, i: int, j: int)
    requires cols > 0
  {
    RightOf(n, cols, i, j) || RightOf(n, cols, j, i) || Below(n, cols, i, j) || Below(n, cols, j, i)
  }

  /** Row-major indexing is a bijection between (r, c) and the cell indices. */
  lemma IdInRange(rows: nat, cols: nat, r: nat, c: nat)
    requires r < rows && c < cols
    ensures Id(cols, r, c) < rows * cols
    ensures Id(cols, r, c) / cols == r && Id(cols, r, c) % cols == c
  {
    MulLe(r + 1, rows, cols);
    DivModUnique(Id(cols, r, c), cols, r, c);
  }

  lemma MulLe(a: nat, b: nat, k: nat)
    requires a <= b
    ensures a * k <= b * k
  {
  }

  lemma DivModUnique(x: int, d: int, q: int, m: int)
    requires d > 0 && 0 <= m < d && x == q * d + m
    ensures x / d == q && x % d == m
  {
    var q', m' := x / d, x % d;
    assert x == q' * d + m';
    if q' < q {
      assert (q - q') * d == m' - m;
      MulLe(1, q - q', d);
    } else if q' > q {
      assert (q' - q) * d == m - m';
      MulLe(1, q' - q, d);
    }
  }

  lemma RightOfId(rows: nat, cols: nat, r: nat, c: nat)
    requires r < rows && c + 1 < cols
    ensures RightOf(rows * cols, cols, Id(cols, r, c), Id(cols, r, c + 1))
  {
    IdInRange(rows, cols, r, c + 1);
  }

  lemma BelowId(rows: nat, cols: nat, r: nat, c: nat)
    requires r + 1 < rows && c < cols
    ensures Below(rows * cols, cols, Id(cols, r, c), Id(cols, r + 1, c))
  {
    IdInRange(rows, cols, r + 1, c);
  }

  /** A set of cells that holds one cell and every neighbour of its members holds every cell. */
  lemma {:induction false} ClosedSetIsEverything(n: nat, cols: nat, s: set<int>, v: int)
    requires cols > 0
    requires v in s && 0 <= v < n
    requires forall i, j :: i in s && Adjacent(n, cols, i, j) ==> j in s
    ensures forall i :: 0 <= i < n ==> i in s
  {
    ReachesOrigin(n, cols, s, v);
    forall i | 0 <= i < n
      ensures i in s
    {
      ReachedFromOrigin(n, cols, s, i);
    }
  }

  /** From any member, stepping left or up stays in a closed set and ends at cell 0. */
  lemma {:induction false} ReachesOrigin(n: nat, cols: nat, s: set<int>, v: int)
    requires cols > 0
    requires v in s && 0 <= v < n
    requires forall i, j :: i in s && Adjacent(n, cols, i, j) ==> j in s
    ensures 0 in s
    decreases v
  {
    if v > 0 {
      if v % cols != 0 {
        assert RightOf(n, cols, v - 1, v);
        ReachesOrigin(n, cols, s, v - 1);
      } else {
        assert v >= cols;
        assert Below(n, cols, v - cols, v);
        ReachesOrigin(n, cols, s, v - cols);
      }
    }
  }

  lemma {:induction false} ReachedFromOrigin(n: nat, cols: nat, s: set<int>, i: int)
    requires cols > 0
    requires 0 in s && 0 <= i < n
    requires forall a, b :: a in s && Adjacent(n, cols, a, b) ==> b in s
    ensures i in s
    decreases i
  {
    if i > 0 {
      if i % cols != 0 {
        ReachedFromOrigin(n, cols, s, i - 1);
        assert RightOf(n, cols, i - 1, i);
      } else {
        assert i >= cols;
        ReachedFromOrigin(n, cols, s, i - cols);
        assert Below(n, cols, i - cols, i);
      }
    }
  }

  /** The cells 0 .. n-1. */
  function Cells(n: nat): (s: set<int>)
    ensures forall i :: i in s <==> 0 <= i < n
    ensures |s| == n
  {
    if n == 0 then {} else Cells(n - 1) + {n - 1}
  }

  lemma {:induction false} SubsetCard<T>(s: set<T>, t: set<T>)
    requires s <= t
    ensures |s| <= |t|
    decreases |s|
  {
    if s != {} {
      var x :| x in s;
      SubsetCard(s - {x}, t - {x});
    }
  }

  /** A set of cells has at most n members. */
  lemma SubsetOfCellsCard(s: set<int>, n: nat)
    requires forall i :: i in s ==> 0 <= i < n
    ensures |s| <= n
  {
    SubsetCard(s, Cells(n));
  }

  /** A set holding every cell has exactly n members. */
  lemma AllCellsCard(s: set<int>, n: nat)
    requires forall i :: i in s <==> 0 <= i < n
    ensures |s| == n
  {
    assert s == Cells(n);
  }
}
