/**
 * What gen_maze (dfs.c) computes, stated on values: the Fisher-Yates shuffle
 * that `shuffle` applies to a wall list, how far the three linking loops have
 * got, and the invariant of the depth-first carve. The imperative model in
 * module Dfs is proved against these definitions.
 */
module DfsSpec {
  import opened Grid
  import LinkedList

  /** glibc's RAND_MAX: rand() returns 0 .. 2^31 - 1. */
  const RAND_MAX: int := 0x7FFF_FFFF

  type RandValue = r: int | 0 <= r <= RAND_MAX

  /** Which slot `shuffle` swaps with slot i of a size-slot array, given the draw r (all size_t arithmetic). */
  function Pick(i: nat, size: nat, r: RandValue): (j: nat)
    requires i < size
    ensures i <= j < size
  {
    PickBound(r, size - i);
    i + r / (RAND_MAX / (size - i) + 1)
  }

  lemma PickBound(r: RandValue, m: nat)
    requires m > 0
    ensures r / (RAND_MAX / m + 1) < m
  {
    var q := RAND_MAX / m + 1;
    assert RAND_MAX < q * m by {
      assert RAND_MAX == (RAND_MAX / m) * m + RAND_MAX % m;
    }
    if r / q >= m {
      assert r == (r / q) * q + r % q;
      MulLe(m, r / q, q);
      assert false;
    }
  }

  function Swap(s: seq<int>, i: nat, j: nat): (t: seq<int>)
    requires i < |s| && j < |s|
    ensures |t| == |s| && t[i] == s[j] && t[j] == s[i]
    ensures forall k :: 0 <= k < |s| && k != i && k != j ==> t[k] == s[k]
  {
    s[i := s[j]][j := s[i]]
  }

  /**
   * The shuffle loop from slot i on: slot i is swapped with slot
   * Pick(i, |s|, draw(pos)), then the rest continues with the next draw.
   * The loop stops before the last slot.
   */
  function Permute(s: seq<int>, i: nat, draw: nat -> RandValue, pos: nat): seq<int>
    decreases |s| - i
  {
    if i + 1 >= |s| then s
    else Permute(Swap(s, i, Pick(i, |s|, draw(pos))), i + 1, draw, pos + 1)
  }

  /** How many values shuffle draws for a list of the given size. */
  function Draws(size: nat): nat
  {
    if size == 0 then 0 else size - 1
  }

  /** Shuffling keeps the same elements, each as often. */
  lemma {:induction false} PermuteMultiset(s: seq<int>, i: nat, draw: nat -> RandValue, pos: nat)
    ensures |Permute(s, i, draw, pos)| == |s|
    ensures multiset(Permute(s, i, draw, pos)) == multiset(s)
    decreases |s| - i
  {
    if i + 1 < |s| {
      var j := Pick(i, |s|, draw(pos));
      var t := Swap(s, i, j);
      SwapMultiset(s, i, j);
      PermuteMultiset(t, i + 1, draw, pos + 1);
    }
  }

  /** Swapping two slots keeps the same elements. */
  lemma SwapMultiset(s: seq<int>, i: nat, j: nat)
    requires i < |s| && j < |s|
    ensures multiset(Swap(s, i, j)) == multiset(s)
  {
    if i != j {
      calc {
        multiset(s[i := s[j]][j := s[i]]);
        multiset(s[i := s[j]]) - multiset{s[i := s[j]][j]} + multiset{s[i]};
        multiset(s) - multiset{s[i]} + multiset{s[j]} - multiset{s[j]} + multiset{s[i]};
      }
    }
  }

  /** Shuffling a list of distinct nodes gives distinct nodes. */
  lemma {:induction false} PermuteDistinct(s: seq<int>, i: nat, draw: nat -> RandValue, pos: nat)
    requires LinkedList.Distinct(s)
    ensures LinkedList.Distinct(Permute(s, i, draw, pos))
    decreases |s| - i
  {
    if i + 1 < |s| {
      var j := Pick(i, |s|, draw(pos));
      var t := Swap(s, i, j);
      forall a, b | 0 <= a < b < |t| ensures t[a] != t[b] {
        var a' := if a == i then j else if a == j then i else a;
        var b' := if b == i then j else if b == j then i else b;
        assert t[a] == s[a'] && t[b] == s[b'];
      }
      PermuteDistinct(t, i + 1, draw, pos + 1);
    }
  }

  /** Shuffling nodes moves the cells they hold the same way. */
  lemma {:induction false} PermuteCells(cell: seq<int>, ns: seq<int>, i: nat, draw: nat -> RandValue, pos: nat)
    requires LinkedList.InPool(ns, |cell|)
    ensures |Permute(ns, i, draw, pos)| == |ns|
    ensures LinkedList.InPool(Permute(ns, i, draw, pos), |cell|)
    ensures LinkedList.CellsOf(cell, Permute(ns, i, draw, pos)) == Permute(LinkedList.CellsOf(cell, ns), i, draw, pos)
    decreases |ns| - i
  {
    if i + 1 < |ns| {
      var j := Pick(i, |ns|, draw(pos));
      var t := Swap(ns, i, j);
      assert LinkedList.InPool(t, |cell|);
      assert LinkedList.CellsOf(cell, t) == Swap(LinkedList.CellsOf(cell, ns), i, j);
      PermuteCells(cell, t, i + 1, draw, pos + 1);
    }
  }

  /** How many draws shuffling each of the lists ws in turn takes. */
  function TotalDraws(ws: seq<seq<int>>): nat
  {
    if ws == [] then 0 else TotalDraws(ws[..|ws| - 1]) + Draws(|ws[|ws| - 1]|)
  }

  /** The lists ws shuffled one after another, the first from stream position pos on. */
  function ShuffleAll(ws: seq<seq<int>>, draw: nat -> RandValue, pos: nat): seq<seq<int>>
  {
    if ws == [] then []
    else
      var m := |ws| - 1;
      ShuffleAll(ws[..m], draw, pos) + [Permute(ws[m], 0, draw, pos + TotalDraws(ws[..m]))]
  }

  /** Shuffling every list keeps each one's length and elements. */
  lemma {:induction false} ShuffleAllMultiset(ws: seq<seq<int>>, draw: nat -> RandValue, pos: nat)
    ensures |ShuffleAll(ws, draw, pos)| == |ws|
    ensures forall x :: 0 <= x < |ws| ==> multiset(ShuffleAll(ws, draw, pos)[x]) == multiset(ws[x])
    decreases |ws|
  {
    if ws != [] {
      var m := |ws| - 1;
      var front := ShuffleAll(ws[..m], draw, pos);
      var t := Permute(ws[m], 0, draw, pos + TotalDraws(ws[..m]));
      ShuffleAllMultiset(ws[..m], draw, pos);
      PermuteMultiset(ws[m], 0, draw, pos + TotalDraws(ws[..m]));
      var r := ShuffleAll(ws, draw, pos);
      assert r == front + [t];
      forall x | 0 <= x < |ws| ensures multiset(r[x]) == multiset(ws[x]) {
        if x < m {
          assert r[x] == front[x] && ws[..m][x] == ws[x];
        } else {
          assert r[x] == t;
        }
      }
    }
  }

  /** So every count of one cell in another's list survives the shuffle, and so do the bounds on cells. */
  lemma ShuffleAllCounts(ws: seq<seq<int>>, draw: nat -> RandValue, pos: nat, n: int)
    ensures |ShuffleAll(ws, draw, pos)| == |ws|
    ensures forall x, y :: 0 <= x < |ws| ==> Count(ShuffleAll(ws, draw, pos), x, y) == Count(ws, x, y)
    ensures InCells(ws, n) ==> InCells(ShuffleAll(ws, draw, pos), n)
  {
    var t := ShuffleAll(ws, draw, pos);
    ShuffleAllMultiset(ws, draw, pos);
    if InCells(ws, n) {
      forall x, k | 0 <= x < |t| && 0 <= k < |t[x]| ensures 0 <= t[x][k] < n {
        assert t[x][k] in multiset(ws[x]);
      }
    }
  }

  /** Shuffling one more list appends its shuffle, taken after the draws of the earlier ones. */
  lemma ShuffleAllSnoc(ws: seq<seq<int>>, w: seq<int>, draw: nat -> RandValue, pos: nat)
    ensures ShuffleAll(ws + [w], draw, pos) == ShuffleAll(ws, draw, pos) + [Permute(w, 0, draw, pos + TotalDraws(ws))]
    ensures TotalDraws(ws + [w]) == TotalDraws(ws) + Draws(|w|)
  {
    assert (ws + [w])[..|ws|] == ws;
  }

  /** cur is ws with its first k lists shuffled, the first from stream position pos on. */
  ghost predicate ShuffledUpTo(cur: seq<seq<int>>, ws: seq<seq<int>>, k: nat, draw: nat -> RandValue, pos: nat)
  {
    k <= |ws| && cur == ShuffleAll(ws[..k], draw, pos) + ws[k..]
  }

  /** Nothing is shuffled yet at the start, and everything once all lists have been. */
  lemma ShuffledEnds(ws: seq<seq<int>>, draw: nat -> RandValue, pos: nat)
    ensures ShuffledUpTo(ws, ws, 0, draw, pos)
    ensures forall cur :: ShuffledUpTo(cur, ws, |ws|, draw, pos) ==> cur == ShuffleAll(ws, draw, pos)
    ensures TotalDraws(ws[..0]) == 0 && ws[..|ws|] == ws
  {
    assert ws[..0] == [] && ws[0..] == ws;
    assert ws[..|ws|] == ws && ws[|ws|..] == [];
  }

  /**
   * With the first x lists shuffled and the stream at position at, the
   * draws of those x lists taken, shuffling list x next gives the first
   * x + 1 shuffled and leaves the stream after their draws.
   */
  lemma ShuffleOneMore(cur: seq<seq<int>>, ws: seq<seq<int>>, x: nat, draw: nat -> RandValue, pos: nat, at: nat)
    requires x < |ws| && ShuffledUpTo(cur, ws, x, draw, pos) && at == pos + TotalDraws(ws[..x])
    ensures |cur| == |ws| && cur[x] == ws[x]
    ensures ShuffledUpTo(cur[x := Permute(ws[x], 0, draw, at)], ws, x + 1, draw, pos)
    ensures at + Draws(|ws[x]|) == pos + TotalDraws(ws[..x + 1])
  {
    var front := ShuffleAll(ws[..x], draw, pos);
    var p := Permute(ws[x], 0, draw, at);
    assert ws[..x + 1] == ws[..x] + [ws[x]];
    ShuffleAllSnoc(ws[..x], ws[x], draw, pos);
    ShuffleAllMultiset(ws[..x], draw, pos);
    assert ws[x..] == [ws[x]] + ws[x + 1..];
    Splice(cur, front, ws[x], ws[x + 1..], p);
  }

  /** Replacing the element after a prefix of length |front|. */
  lemma Splice(cur: seq<seq<int>>, front: seq<seq<int>>, w: seq<int>, rest: seq<seq<int>>, p: seq<int>)
    requires cur == front + ([w] + rest)
    ensures |cur| == |front| + 1 + |rest| && cur[|front|] == w
    ensures cur[|front| := p] == (front + [p]) + rest
  {
  }

  /** How many times cell y is in cell x's list. */
  function Count(ws: seq<seq<int>>, x: int, y: int): nat
    requires 0 <= x < |ws|
  {
    multiset(ws[x])[y]
  }

  /** Every list names cells of the grid only. */
  ghost predicate InCells(ws: seq<seq<int>>, n: int)
  {
    forall x, k :: 0 <= x < |ws| && 0 <= k < |ws[x]| ==> 0 <= ws[x][k] < n
  }

  // ---------------------------------------------------------------- linking

  /**
   * How far the three linking loops of gen_maze have got. Inner cells (not
   * in the last row or column) below `down` have their downward pair linked
   * and those below `right` their rightward pair; last-column cells in rows
   * before `edgeRows` have their downward pair linked; last-row cells in
   * columns before `edgeCols` have their rightward pair linked.
   */
  datatype Progress = Progress(down: nat, right: nat, edgeRows: nat, edgeCols: nat)

  /** Nothing is linked yet. */
  const Start: Progress := Progress(0, 0, 0, 0)

  /** All three loops are done. */
  function Finished(rows: nat, cols: nat): Progress
    requires rows > 0 && cols > 0
  {
    Progress((rows - 1) * cols, (rows - 1) * cols, rows - 1, cols - 1)
  }

  /** Cell a and the cell below it have been linked. */
  ghost predicate DownDone(rows: nat, cols: nat, p: Progress, a: int)
    requires cols > 0
  {
    0 <= a && a / cols < rows - 1
    && ((a % cols < cols - 1 && a < p.down) || (a % cols == cols - 1 && a / cols < p.edgeRows))
  }

  /** Cell a and the cell right of it have been linked. */
  ghost predicate RightDone(rows: nat, cols: nat, p: Progress, a: int)
    requires cols > 0
  {
    0 <= a && a / cols < rows && a % cols < cols - 1
    && ((a / cols < rows - 1 && a < p.right) || (a / cols == rows - 1 && a % cols < p.edgeCols))
  }

  /** Cells x and y have been pushed onto each other's wall lists. */
  ghost predicate Linked(rows: nat, cols: nat, p: Progress, x: int, y: int)
    requires cols > 0
  {
    || (y == x + cols && DownDone(rows, cols, p, x))
    || (x == y + cols && DownDone(rows, cols, p, y))
    || (y == x + 1 && RightDone(rows, cols, p, x))
    || (x == y + 1 && RightDone(rows, cols, p, y))
  }

  /** The wall lists hold exactly the pairs linked so far, each once. */
  ghost predicate WallsMatch(rows: nat, cols: nat, ws: seq<seq<int>>, p: Progress)
    requires cols > 0
  {
    && |ws| == rows * cols
    && InCells(ws, rows * cols)
    && forall x, y :: 0 <= x < rows * cols && 0 <= y < rows * cols ==>
         Count(ws, x, y) == if Linked(rows, cols, p, x, y) then 1 else 0
  }

  /** rows * cols empty lists match the start of linking. */
  lemma EmptyWallsMatch(rows: nat, cols: nat)
    requires cols > 0
    ensures WallsMatch(rows, cols, seq(rows * cols, _ => []), Start)
  {
  }

  /** Pushing b onto a's list and a onto b's records one more linked pair. */
  lemma {:induction false} LinkPairStep(rows: nat, cols: nat, ws: seq<seq<int>>, p: Progress, p': Progress, a: int, b: int)
    requires cols > 0 && WallsMatch(rows, cols, ws, p)
    requires 0 <= a < rows * cols && 0 <= b < rows * cols && a != b
    requires !Linked(rows, cols, p, a, b)
    requires forall x, y :: Linked(rows, cols, p', x, y) <==>
               Linked(rows, cols, p, x, y) || (x == a && y == b) || (x == b && y == a)
    ensures WallsMatch(rows, cols, ws[a := ws[a] + [b]][b := ws[b] + [a]], p')
  {
    var ws' := ws[a := ws[a] + [b]][b := ws[b] + [a]];
    assert ws'[a] == ws[a] + [b] && ws'[b] == ws[b] + [a];
    forall x, k | 0 <= x < |ws'| && 0 <= k < |ws'[x]| ensures 0 <= ws'[x][k] < rows * cols {
      if x != a && x != b {
        assert ws'[x][k] == ws[x][k];
      } else if k < |ws[x]| {
        assert ws'[x][k] == ws[x][k];
      }
    }
    forall x, y | 0 <= x < rows * cols && 0 <= y < rows * cols
      ensures Count(ws', x, y) == if Linked(rows, cols, p', x, y) then 1 else 0
    {
      assert Count(ws, x, y) == if Linked(rows, cols, p, x, y) then 1 else 0;
      if x == a {
        assert multiset(ws'[x]) == multiset(ws[x]) + multiset{b};
      } else if x == b {
        assert multiset(ws'[x]) == multiset(ws[x]) + multiset{a};
      } else {
        assert ws'[x] == ws[x];
      }
    }
  }

  /** Two progress points that link the same pairs are interchangeable. */
  lemma SameLinks(rows: nat, cols: nat, ws: seq<seq<int>>, p: Progress, p': Progress)
    requires cols > 0 && WallsMatch(rows, cols, ws, p)
    requires forall a :: DownDone(rows, cols, p, a) == DownDone(rows, cols, p', a)
    requires forall a :: RightDone(rows, cols, p, a) == RightDone(rows, cols, p', a)
    ensures WallsMatch(rows, cols, ws, p')
  {
    assert forall x, y :: Linked(rows, cols, p, x, y) == Linked(rows, cols, p', x, y);
  }

  /** Once the three loops are done, exactly the adjacent cells are linked, each pair once. */
  lemma {:induction false} FinishedIsAdjacency(rows: nat, cols: nat, ws: seq<seq<int>>)
    requires rows > 0 && cols > 0 && WallsMatch(rows, cols, ws, Finished(rows, cols))
    ensures forall x, y :: 0 <= x < rows * cols && 0 <= y < rows * cols ==>
              Count(ws, x, y) == if Adjacent(rows * cols, cols, x, y) then 1 else 0
  {
    var n := rows * cols;
    var p := Finished(rows, cols);
    forall x, y | 0 <= x < n && 0 <= y < n
      ensures Linked(rows, cols, p, x, y) == Adjacent(n, cols, x, y)
    {
      DownIsBelow(rows, cols, x, y);
      DownIsBelow(rows, cols, y, x);
      RightIsRightOf(rows, cols, x, y);
      RightIsRightOf(rows, cols, y, x);
    }
  }

  lemma DownIsBelow(rows: nat, cols: nat, x: int, y: int)
    requires rows > 0 && cols > 0 && 0 <= x < rows * cols && 0 <= y < rows * cols
    ensures (y == x + cols && DownDone(rows, cols, Finished(rows, cols), x)) == Below(rows * cols, cols, x, y)
  {
    var p := Finished(rows, cols);
    if y == x + cols {
      var r, c := x / cols, x % cols;
      assert x == Id(cols, r, c);
      if r < rows - 1 {
        assert x < (rows - 1) * cols by {
          assert (r + 1) * cols <= (rows - 1) * cols by { MulLe(r + 1, rows - 1, cols); }
        }
      }
    }
  }

  lemma RightIsRightOf(rows: nat, cols: nat, x: int, y: int)
    requires rows > 0 && cols > 0 && 0 <= x < rows * cols && 0 <= y < rows * cols
    ensures (y == x + 1 && RightDone(rows, cols, Finished(rows, cols), x)) == RightOf(rows * cols, cols, x, y)
  {
    var p := Finished(rows, cols);
    if y == x + 1 {
      var r, c := x / cols, x % cols;
      assert x == Id(cols, r, c);
      assert r < rows by {
        if r >= rows {
          MulLe(rows, r, cols);
        }
      }
      if c < cols - 1 {
        DivModUnique(y, cols, r, c + 1);
        if r < rows - 1 {
          assert x < (rows - 1) * cols by {
            assert (r + 1) * cols <= (rows - 1) * cols by { MulLe(r + 1, rows - 1, cols); }
          }
        }
      } else {
        DivModUnique(y, cols, r + 1, 0);
      }
    }
  }

  /** When exactly one more cell a has its downward (or rightward) pair done, exactly that pair joins the linked ones. */
  lemma {:induction false} OneMorePair(rows: nat, cols: nat, p: Progress, p': Progress, a: int, down: bool)
    requires cols > 0
    requires forall z :: DownDone(rows, cols, p', z) <==> DownDone(rows, cols, p, z) || (down && z == a)
    requires forall z :: RightDone(rows, cols, p', z) <==> RightDone(rows, cols, p, z) || (!down && z == a)
    ensures var b := if down then a + cols else a + 1;
      forall x, y :: Linked(rows, cols, p', x, y) <==> Linked(rows, cols, p, x, y) || (x == a && y == b) || (x == b && y == a)
  {
  }

  /** The inner loop's downward pair at (r, c) is the next pair to link. */
  lemma DownStep(rows: nat, cols: nat, p: Progress, r: nat, c: nat)
    requires r + 1 < rows && c + 1 < cols && p.down == Id(cols, r, c)
    ensures var a := Id(cols, r, c); !Linked(rows, cols, p, a, a + cols)
    ensures var a := Id(cols, r, c); forall x, y :: Linked(rows, cols, p.(down := a + 1), x, y) <==>
              Linked(rows, cols, p, x, y) || (x == a && y == a + cols) || (x == a + cols && y == a)
  {
    var a := Id(cols, r, c);
    var p' := p.(down := a + 1);
    IdInRange(rows, cols, r, c);
    forall z ensures DownDone(rows, cols, p', z) <==> DownDone(rows, cols, p, z) || z == a {
    }
    forall z ensures RightDone(rows, cols, p', z) <==> RightDone(rows, cols, p, z) {
    }
    OneMorePair(rows, cols, p, p', a, true);
  }

  /** The inner loop's rightward pair at (r, c) is the next pair to link. */
  lemma RightStep(rows: nat, cols: nat, p: Progress, r: nat, c: nat)
    requires r + 1 < rows && c + 1 < cols && p.right == Id(cols, r, c)
    ensures var a := Id(cols, r, c); !Linked(rows, cols, p, a, a + 1)
    ensures var a := Id(cols, r, c); forall x, y :: Linked(rows, cols, p.(right := a + 1), x, y) <==>
              Linked(rows, cols, p, x, y) || (x == a && y == a + 1) || (x == a + 1 && y == a)
  {
    var a := Id(cols, r, c);
    var p' := p.(right := a + 1);
    IdInRange(rows, cols, r, c);
    forall z ensures DownDone(rows, cols, p', z) <==> DownDone(rows, cols, p, z) {
    }
    forall z ensures RightDone(rows, cols, p', z) <==> RightDone(rows, cols, p, z) || z == a {
    }
    OneMorePair(rows, cols, p, p', a, false);
  }

  /** The last cell of an inner row has no inner pairs: moving on to the next row links nothing. */
  lemma NextRow(rows: nat, cols: nat, ws: seq<seq<int>>, p: Progress, r: nat)
    requires cols > 0 && r + 1 < rows && p.down == p.right == Id(cols, r, cols - 1)
    requires WallsMatch(rows, cols, ws, p)
    ensures WallsMatch(rows, cols, ws, p.(down := Id(cols, r + 1, 0), right := Id(cols, r + 1, 0)))
  {
    var a := Id(cols, r, cols - 1);
    var p' := p.(down := Id(cols, r + 1, 0), right := Id(cols, r + 1, 0));
    IdInRange(rows, cols, r, cols - 1);
    assert Id(cols, r + 1, 0) == a + 1;
    forall z ensures DownDone(rows, cols, p', z) == DownDone(rows, cols, p, z) {
    }
    forall z ensures RightDone(rows, cols, p', z) == RightDone(rows, cols, p, z) {
    }
    SameLinks(rows, cols, ws, p, p');
  }

  /** The right-edge loop's pair at row r is the next pair to link. */
  lemma EdgeDownStep(rows: nat, cols: nat, p: Progress, r: nat)
    requires cols > 0 && r + 1 < rows && p.edgeRows == r
    ensures var a := Id(cols, r, cols - 1); !Linked(rows, cols, p, a, a + cols)
    ensures var a := Id(cols, r, cols - 1); forall x, y :: Linked(rows, cols, p.(edgeRows := r + 1), x, y) <==>
              Linked(rows, cols, p, x, y) || (x == a && y == a + cols) || (x == a + cols && y == a)
  {
    var a := Id(cols, r, cols - 1);
    var p' := p.(edgeRows := r + 1);
    IdInRange(rows, cols, r, cols - 1);
    forall z ensures DownDone(rows, cols, p', z) <==> DownDone(rows, cols, p, z) || z == a {
      if z != a && 0 <= z && z % cols == cols - 1 && z / cols == r {
        DivModUnique(z, cols, r, cols - 1);
      }
    }
    forall z ensures RightDone(rows, cols, p', z) <==> RightDone(rows, cols, p, z) {
    }
    OneMorePair(rows, cols, p, p', a, true);
  }

  /** The bottom-edge loop's pair at column c is the next pair to link. */
  lemma EdgeRightStep(rows: nat, cols: nat, p: Progress, c: nat)
    requires rows > 0 && c + 1 < cols && p.edgeCols == c
    ensures var a := Id(cols, rows - 1, c); !Linked(rows, cols, p, a, a + 1)
    ensures var a := Id(cols, rows - 1, c); forall x, y :: Linked(rows, cols, p.(edgeCols := c + 1), x, y) <==>
              Linked(rows, cols, p, x, y) || (x == a && y == a + 1) || (x == a + 1 && y == a)
  {
    var a := Id(cols, rows - 1, c);
    var p' := p.(edgeCols := c + 1);
    IdInRange(rows, cols, rows - 1, c);
    forall z ensures DownDone(rows, cols, p', z) <==> DownDone(rows, cols, p, z) {
    }
    forall z ensures RightDone(rows, cols, p', z) <==> RightDone(rows, cols, p, z) || z == a {
      if z != a && 0 <= z && z / cols == rows - 1 && z % cols == c {
        DivModUnique(z, cols, rows - 1, c);
      }
    }
    OneMorePair(rows, cols, p, p', a, false);
  }

  // ---------------------------------------------------------------- carving

  /** How many entries the lists hold altogether. */
  function TotalLen(ps: seq<seq<int>>): nat
  {
    if ps == [] then 0 else TotalLen(ps[..|ps| - 1]) + |ps[|ps| - 1]|
  }

  /** Replacing one list changes the total by the difference in length. */
  lemma {:induction false} TotalLenUpdate(ps: seq<seq<int>>, x: int, t: seq<int>)
    requires 0 <= x < |ps|
    ensures TotalLen(ps[x := t]) == TotalLen(ps) - |ps[x]| + |t|
    decreases |ps|
  {
    var m := |ps| - 1;
    if x < m {
      assert ps[x := t][..m] == ps[..m][x := t];
      TotalLenUpdate(ps[..m], x, t);
    } else {
      assert ps[x := t][..m] == ps[..m];
    }
  }

  /** n empty lists hold nothing. */
  lemma {:induction false} TotalLenEmpty(n: nat)
    ensures TotalLen(seq(n, _ => [])) == 0
  {
    if n > 0 {
      var e: seq<seq<int>> := seq(n, _ => []);
      assert e[..n - 1] == seq(n - 1, _ => []);
      TotalLenEmpty(n - 1);
    }
  }

  /** x and y are joined by a path: one is in the other's paths list. */
  ghost predicate Carved(ps: seq<seq<int>>, x: int, y: int)
    requires 0 <= x < |ps| && 0 <= y < |ps|
  {
    y in ps[x] || x in ps[y]
  }

  /** Every neighbour of x has been visited. */
  ghost predicate Explored(n: nat, cols: nat, visited: set<int>, x: int)
    requires cols > 0
  {
    forall y :: Adjacent(n, cols, x, y) ==> y in visited
  }

  /**
   * The carve loop's state: the cells' wall and path lists, the visited
   * cells (the tree of dfs.c), the stack (top first), and for each visited
   * cell the cell it was reached from and how many steps from the start.
   */
  datatype CarveState = CarveState(ws: seq<seq<int>>, ps: seq<seq<int>>, visited: set<int>, stack: seq<int>,
                                   parent: seq<int>, depth: seq<nat>)

  /** y is in x's paths because the carve went from x to y. */
  ghost predicate TreeEdge(n: nat, cols: nat, start: int, s: CarveState, x: int, y: int)
    requires cols > 0 && |s.parent| == n && |s.depth| == n && 0 <= x < n
  {
    && 0 <= y < n && Adjacent(n, cols, x, y)
    && x in s.visited && y in s.visited && y != start
    && s.parent[y] == x && s.depth[y] == s.depth[x] + 1
  }

  /** A wall stands between two neighbours exactly when no path joins them. */
  ghost predicate WallsAreUncarved(n: nat, cols: nat, ws: seq<seq<int>>, ps: seq<seq<int>>)
    requires cols > 0
  {
    && |ws| == n && |ps| == n && InCells(ws, n)
    && forall x, y :: 0 <= x < n && 0 <= y < n ==>
         Count(ws, x, y) == if Adjacent(n, cols, x, y) && !Carved(ps, x, y) then 1 else 0
  }

  /** Paths are tree edges, no paths list repeats a cell, and every visited cell but the start hangs from its parent. */
  ghost predicate PathsOk(n: nat, cols: nat, start: int, s: CarveState)
    requires cols > 0 && |s.ps| == n && |s.parent| == n && |s.depth| == n
  {
    && (forall x, k :: 0 <= x < n && 0 <= k < |s.ps[x]| ==> TreeEdge(n, cols, start, s, x, s.ps[x][k]))
    && (forall x :: 0 <= x < n ==> LinkedList.Distinct(s.ps[x]))
    && (forall y :: 0 <= y < n && y in s.visited && y != start ==> 0 <= s.parent[y] < n && y in s.ps[s.parent[y]])
  }

  /** Stacked cells are visited; a visited cell off the stack has no unvisited neighbour. */
  ghost predicate StackOk(n: nat, cols: nat, s: CarveState)
    requires cols > 0
  {
    && (forall k :: 0 <= k < |s.stack| ==> s.stack[k] in s.visited)
    && (forall x :: x in s.visited ==> x in s.stack || Explored(n, cols, s.visited, x))
  }

  /** What holds at the head of the carve loop. */
  ghost predicate DfsInv(n: nat, cols: nat, start: int, s: CarveState)
    requires cols > 0
  {
    match s
    case CarveState(ws, ps, visited, _, parent, depth) =>
      && |ws| == n && |ps| == n && |parent| == n && |depth| == n
      && 0 <= start < n && start in visited && depth[start] == 0
      && (forall v :: v in visited ==> 0 <= v < n)
      && WallsAreUncarved(n, cols, ws, ps)
      && PathsOk(n, cols, start, s)
      && StackOk(n, cols, s)
      && TotalLen(ps) == |visited| - 1
  }

  /** Before the carve: the walls lists name cells, and hold one wall for each pair of neighbours and none else. */
  ghost predicate AllWalls(n: nat, cols: nat, ws: seq<seq<int>>)
    requires cols > 0
  {
    && |ws| == n && InCells(ws, n)
    && forall x, y :: 0 <= x < n && 0 <= y < n ==> Count(ws, x, y) == if Adjacent(n, cols, x, y) then 1 else 0
  }

  /** The state before the loop: walls between all neighbours, no paths, the start cell visited and stacked. */
  function Begin(n: nat, start: int, ws: seq<seq<int>>): CarveState
  {
    CarveState(ws, seq(n, _ => []), {start}, [start], seq(n, _ => 0), seq(n, _ => 0))
  }

  /**
   * One carve: x was popped off the stack (rest is what stays), its wall
   * i leads to the unvisited y. The wall goes from both lists, y joins x's
   * paths, y is visited, and x and then y are pushed.
   */
  function Dig(s: CarveState, x: int, i: int, rest: seq<int>): CarveState
    requires 0 <= x < |s.ws| && |s.ps| == |s.ws| && 0 <= i < |s.ws[x]| && 0 <= s.ws[x][i] < |s.ws|
    requires |s.parent| == |s.ws| && |s.depth| == |s.ws|
  {
    var y := s.ws[x][i];
    CarveState(s.ws[x := s.ws[x][..i] + s.ws[x][i + 1..]][y := LinkedList.RemoveFirst(s.ws[y], x)],
               s.ps[x := [y] + s.ps[x]], s.visited + {y}, [y, x] + rest,
               s.parent[y := x], s.depth[y := s.depth[x] + 1])
  }

  /** Dig field by field, as the carve's steps produce it. */
  lemma DigFields(s: CarveState, x: int, i: int, rest: seq<int>, y: int, ws': seq<seq<int>>, ps': seq<seq<int>>,
                  visited': set<int>, stack': seq<int>, parent': seq<int>, depth': seq<nat>)
    requires 0 <= x < |s.ws| && |s.ps| == |s.ws| && 0 <= i < |s.ws[x]| && 0 <= s.ws[x][i] < |s.ws|
    requires |s.parent| == |s.ws| && |s.depth| == |s.ws| && y == s.ws[x][i]
    requires ws' == s.ws[x := s.ws[x][..i] + s.ws[x][i + 1..]][y := LinkedList.RemoveFirst(s.ws[y], x)]
    requires ps' == s.ps[x := [y] + s.ps[x]] && visited' == s.visited + {y} && stack' == [y] + ([x] + rest)
    requires parent' == s.parent[y := x] && depth' == s.depth[y := s.depth[x] + 1]
    ensures Dig(s, x, i, rest) == CarveState(ws', ps', visited', stack', parent', depth')
  {
    assert [y] + ([x] + rest) == [y, x] + rest;
  }

  /** The loop starts in a state that meets its invariant. */
  lemma BeginInv(n: nat, cols: nat, start: int, ws: seq<seq<int>>)
    requires cols > 0 && 0 <= start < n && AllWalls(n, cols, ws)
    ensures DfsInv(n, cols, start, Begin(n, start, ws))
  {
    var s := Begin(n, start, ws);
    TotalLenEmpty(n);
    forall x, y | 0 <= x < n && 0 <= y < n
      ensures Count(s.ws, x, y) == if Adjacent(n, cols, x, y) && !Carved(s.ps, x, y) then 1 else 0
    {
      assert !Carved(s.ps, x, y);
    }
  }

  /** Adjacency does not depend on the order of the cells. */
  lemma AdjacentSymmetric(n: nat, cols: nat, x: int, y: int)
    requires cols > 0
    ensures Adjacent(n, cols, x, y) == Adjacent(n, cols, y, x)
  {
  }

  /** A neighbour of a cell is a cell. */
  lemma AdjacentInRange(n: nat, cols: nat, x: int, y: int)
    requires cols > 0 && Adjacent(n, cols, x, y)
    ensures 0 <= x < n && 0 <= y < n && x != y
  {
  }

  /** After a carve from x to y the joined pairs are the old ones and x, y. */
  lemma CarvedAfter(n: nat, ps: seq<seq<int>>, x: int, y: int)
    requires |ps| == n && 0 <= x < n && 0 <= y < n && x != y
    ensures forall a, b :: 0 <= a < n && 0 <= b < n ==>
      (Carved(ps[x := [y] + ps[x]], a, b) <==> Carved(ps, a, b) || (a == x && b == y) || (a == y && b == x))
  {
    var ps' := ps[x := [y] + ps[x]];
    forall a, b | 0 <= a < n && 0 <= b < n
      ensures Carved(ps', a, b) <==> Carved(ps, a, b) || (a == x && b == y) || (a == y && b == x)
    {
      assert b in ps'[a] <==> b in ps[a] || (a == x && b == y);
      assert a in ps'[b] <==> a in ps[b] || (b == x && a == y);
    }
  }

  /** Cutting wall i from x's list and x from y's list lowers exactly those two counts. */
  lemma {:induction false} CountsAfter(n: nat, ws: seq<seq<int>>, x: int, i: int)
    requires |ws| == n && 0 <= x < n && 0 <= i < |ws[x]| && 0 <= ws[x][i] < n && ws[x][i] != x
    requires x in ws[ws[x][i]]
    ensures var y := ws[x][i]; var ws' := ws[x := ws[x][..i] + ws[x][i + 1..]][y := LinkedList.RemoveFirst(ws[y], x)];
      |ws'| == n &&
      forall a, b :: 0 <= a < n && 0 <= b < n ==>
        Count(ws', a, b) == Count(ws, a, b) - (if (a == x && b == y) || (a == y && b == x) then 1 else 0)
    ensures var y := ws[x][i]; var ws' := ws[x := ws[x][..i] + ws[x][i + 1..]][y := LinkedList.RemoveFirst(ws[y], x)];
      forall a :: 0 <= a < n ==> multiset(ws'[a]) <= multiset(ws[a])
  {
    var y := ws[x][i];
    var cutX := ws[x][..i] + ws[x][i + 1..];
    assert ws[x] == ws[x][..i] + [y] + ws[x][i + 1..];
    assert multiset(cutX) == multiset(ws[x]) - multiset{y};
    var ws' := ws[x := cutX][y := LinkedList.RemoveFirst(ws[y], x)];
    assert ws'[x] == cutX && ws'[y] == LinkedList.RemoveFirst(ws[y], x);
    LinkedList.RemoveFirstMultiset(ws[y], x);
    assert multiset(ws'[y]) == multiset(ws[y]) - multiset{x};
    assert multiset(ws[y])[x] > 0;
    forall a, b | 0 <= a < n && 0 <= b < n
      ensures Count(ws', a, b) == Count(ws, a, b) - (if (a == x && b == y) || (a == y && b == x) then 1 else 0)
    {
      if a != x && a != y {
        assert ws'[a] == ws[a];
      }
    }
    forall a | 0 <= a < n ensures multiset(ws'[a]) <= multiset(ws[a]) {
      if a != x && a != y {
        assert ws'[a] == ws[a];
      }
    }
  }

  /** A carve takes down the wall it follows, on both sides, and nothing else. */
  lemma {:induction false} DigWalls(n: nat, cols: nat, ws: seq<seq<int>>, ps: seq<seq<int>>, x: int, i: int)
    requires cols > 0 && WallsAreUncarved(n, cols, ws, ps) && 0 <= x < n && 0 <= i < |ws[x]|
    ensures var y := ws[x][i]; 0 <= y < n && Adjacent(n, cols, x, y) && !Carved(ps, x, y)
    ensures var y := ws[x][i];
      WallsAreUncarved(n, cols, ws[x := ws[x][..i] + ws[x][i + 1..]][y := LinkedList.RemoveFirst(ws[y], x)], ps[x := [y] + ps[x]])
  {
    var y := ws[x][i];
    assert 0 <= y < n;
    assert multiset(ws[x])[y] > 0;
    assert Count(ws, x, y) == 1;
    AdjacentInRange(n, cols, x, y);
    AdjacentSymmetric(n, cols, x, y);
    assert Count(ws, y, x) == 1;
    assert x in multiset(ws[y]);
    var ws' := ws[x := ws[x][..i] + ws[x][i + 1..]][y := LinkedList.RemoveFirst(ws[y], x)];
    var ps' := ps[x := [y] + ps[x]];
    CountsAfter(n, ws, x, i);
    CarvedAfter(n, ps, x, y);
    forall a, b | 0 <= a < n && 0 <= b < n
      ensures Count(ws', a, b) == if Adjacent(n, cols, a, b) && !Carved(ps', a, b) then 1 else 0
    {
      assert Count(ws, a, b) == if Adjacent(n, cols, a, b) && !Carved(ps, a, b) then 1 else 0;
    }
    forall z, k | 0 <= z < |ws'| && 0 <= k < |ws'[z]| ensures 0 <= ws'[z][k] < n {
      assert ws'[z][k] in multiset(ws'[z]);
      assert ws'[z][k] in multiset(ws[z]);
    }
  }

  /** A carve adds the tree edge from x to y and keeps the others. */
  lemma DigPaths(n: nat, cols: nat, start: int, s: CarveState, x: int, i: int, rest: seq<int>)
    requires cols > 0 && |s.ws| == n && |s.ps| == n && |s.parent| == n && |s.depth| == n
    requires PathsOk(n, cols, start, s) && start in s.visited && x in s.visited
    requires 0 <= x < n && 0 <= i < |s.ws[x]| && s.ws[x][i] !in s.visited
    requires 0 <= s.ws[x][i] < n && Adjacent(n, cols, x, s.ws[x][i])
    ensures PathsOk(n, cols, start, Dig(s, x, i, rest))
  {
    DigEdges(n, cols, start, s, x, i, rest);
    DigParents(n, cols, start, s, x, i, rest);
    forall k | 0 <= k < |s.ps[x]| ensures s.ps[x][k] != s.ws[x][i] {
      assert TreeEdge(n, cols, start, s, x, s.ps[x][k]);
    }
    DigDistinct(n, s, x, i, rest);
  }

  lemma {:induction false} DigEdges(n: nat, cols: nat, start: int, s: CarveState, x: int, i: int, rest: seq<int>)
    requires cols > 0 && |s.ws| == n && |s.ps| == n && |s.parent| == n && |s.depth| == n
    requires forall a, k :: 0 <= a < n && 0 <= k < |s.ps[a]| ==> TreeEdge(n, cols, start, s, a, s.ps[a][k])
    requires start in s.visited && x in s.visited
    requires 0 <= x < n && 0 <= i < |s.ws[x]| && s.ws[x][i] !in s.visited
    requires 0 <= s.ws[x][i] < n && Adjacent(n, cols, x, s.ws[x][i])
    ensures var s' := Dig(s, x, i, rest);
      forall a, k :: 0 <= a < n && 0 <= k < |s'.ps[a]| ==> TreeEdge(n, cols, start, s', a, s'.ps[a][k])
  {
    var s' := Dig(s, x, i, rest);
    forall a, k | 0 <= a < n && 0 <= k < |s'.ps[a]| ensures TreeEdge(n, cols, start, s', a, s'.ps[a][k]) {
      if a != x || k != 0 {
        var k0 := if a == x then k - 1 else k;
        assert s'.ps[a][k] == s.ps[a][k0];
        assert TreeEdge(n, cols, start, s, a, s.ps[a][k0]);
      }
    }
  }

  lemma {:induction false} DigParents(n: nat, cols: nat, start: int, s: CarveState, x: int, i: int, rest: seq<int>)
    requires cols > 0 && |s.ws| == n && |s.ps| == n && |s.parent| == n && |s.depth| == n
    requires forall y :: 0 <= y < n && y in s.visited && y != start ==> 0 <= s.parent[y] < n && y in s.ps[s.parent[y]]
    requires 0 <= x < n && 0 <= i < |s.ws[x]| && 0 <= s.ws[x][i] < n
    ensures var s' := Dig(s, x, i, rest);
      forall y :: 0 <= y < n && y in s'.visited && y != start ==> 0 <= s'.parent[y] < n && y in s'.ps[s'.parent[y]]
  {
    var s' := Dig(s, x, i, rest);
    forall z | 0 <= z < n && z in s'.visited && z != start
      ensures 0 <= s'.parent[z] < n && z in s'.ps[s'.parent[z]]
    {
      if z != s.ws[x][i] {
        assert s'.parent[z] == s.parent[z];
        assert z in s.ps[s.parent[z]];
      }
    }
  }

  lemma {:induction false} DigDistinct(n: nat, s: CarveState, x: int, i: int, rest: seq<int>)
    requires |s.ws| == n && |s.ps| == n && |s.parent| == n && |s.depth| == n
    requires forall a :: 0 <= a < n ==> LinkedList.Distinct(s.ps[a])
    requires 0 <= x < n && 0 <= i < |s.ws[x]| && 0 <= s.ws[x][i] < n
    requires forall k :: 0 <= k < |s.ps[x]| ==> s.ps[x][k] != s.ws[x][i]
    ensures var s' := Dig(s, x, i, rest); forall a :: 0 <= a < n ==> LinkedList.Distinct(s'.ps[a])
  {
    var s' := Dig(s, x, i, rest);
    forall a | 0 <= a < n ensures LinkedList.Distinct(s'.ps[a]) {
      if a == x {
        assert LinkedList.Distinct(s.ps[x]);
      } else {
        assert s'.ps[a] == s.ps[a];
      }
    }
  }

  /** After a carve x and y sit on top of the stack; nothing else changes there. */
  lemma {:induction false} DigStack(n: nat, cols: nat, s: CarveState, x: int, i: int, rest: seq<int>)
    requires cols > 0 && StackOk(n, cols, s) && s.stack == [x] + rest
    requires |s.ws| == n && |s.ps| == n && |s.parent| == n && |s.depth| == n
    requires 0 <= x < n && 0 <= i < |s.ws[x]| && 0 <= s.ws[x][i] < n
    ensures StackOk(n, cols, Dig(s, x, i, rest))
  {
    var y := s.ws[x][i];
    var s' := Dig(s, x, i, rest);
    assert s.stack[0] == x;
    assert forall k :: 0 <= k < |rest| ==> rest[k] == s.stack[k + 1];
    forall z | z in s'.visited ensures z in s'.stack || Explored(n, cols, s'.visited, z) {
      if z != y && z != x && z !in rest {
        assert Explored(n, cols, s.visited, z);
      }
    }
  }

  /** A carve keeps the invariant and visits one more cell. */
  lemma {:induction false} DigInv(n: nat, cols: nat, start: int, s: CarveState, x: int, i: int, rest: seq<int>)
    requires cols > 0 && DfsInv(n, cols, start, s) && s.stack == [x] + rest
    requires 0 <= x < n && 0 <= i < |s.ws[x]| && s.ws[x][i] !in s.visited
    ensures 0 <= s.ws[x][i] < n
    ensures DfsInv(n, cols, start, Dig(s, x, i, rest))
    ensures |Dig(s, x, i, rest).visited| == |s.visited| + 1
  {
    var y := s.ws[x][i];
    assert s.stack[0] == x;
    DigWalls(n, cols, s.ws, s.ps, x, i);
    DigPaths(n, cols, start, s, x, i, rest);
    DigStack(n, cols, s, x, i, rest);
    TotalLenUpdate(s.ps, x, [y] + s.ps[x]);
  }

  /** Popping a cell none of whose walls leads anywhere new keeps the invariant. */
  lemma {:induction false} RetreatInv(n: nat, cols: nat, start: int, s: CarveState, x: int, rest: seq<int>)
    requires cols > 0 && DfsInv(n, cols, start, s) && s.stack == [x] + rest && 0 <= x < n
    requires forall k :: 0 <= k < |s.ws[x]| ==> s.ws[x][k] in s.visited
    ensures DfsInv(n, cols, start, s.(stack := rest))
  {
    assert s.stack[0] == x;
    assert forall k :: 0 <= k < |rest| ==> rest[k] == s.stack[k + 1];
    forall y | Adjacent(n, cols, x, y) ensures y in s.visited {
      AdjacentInRange(n, cols, x, y);
      if y in s.ps[x] {
        var k :| 0 <= k < |s.ps[x]| && s.ps[x][k] == y;
        assert TreeEdge(n, cols, start, s, x, s.ps[x][k]);
      } else if x in s.ps[y] {
        var k :| 0 <= k < |s.ps[y]| && s.ps[y][k] == x;
        assert TreeEdge(n, cols, start, s, y, s.ps[y][k]);
      } else {
        assert Count(s.ws, x, y) == 1;
        assert y in multiset(s.ws[x]);
        var k :| 0 <= k < |s.ws[x]| && s.ws[x][k] == y;
      }
    }
    assert Explored(n, cols, s.visited, x);
    forall z | z in s.visited ensures z in rest || Explored(n, cols, s.visited, z) {
      if z != x {
        assert z in s.stack || Explored(n, cols, s.visited, z);
      }
    }
  }

  /** The index of the first entry of ws that is not in visited, or |ws| when there is none. */
  function FirstOutside(ws: seq<int>, visited: set<int>): (k: nat)
    ensures k <= |ws|
    ensures k < |ws| ==> ws[k] !in visited
    ensures forall j :: 0 <= j < k ==> ws[j] in visited
  {
    if ws == [] || ws[0] !in visited then 0 else 1 + FirstOutside(ws[1..], visited)
  }

  /** FirstOutside is the first index not in visited after a prefix that is. */
  lemma {:induction false} FirstOutsideAt(ws: seq<int>, visited: set<int>, i: nat)
    requires i <= |ws| && (i < |ws| ==> ws[i] !in visited)
    requires forall j :: 0 <= j < i ==> ws[j] in visited
    ensures FirstOutside(ws, visited) == i
  {
    if i > 0 {
      assert ws[0] in visited;
      FirstOutsideAt(ws[1..], visited, i - 1);
    }
  }

  /** A state the loop body can run on: the stack is not empty and its top is a visited cell whose walls name cells. */
  ghost predicate Ready(s: CarveState)
  {
    && s.stack != [] && |s.ps| == |s.ws| && |s.parent| == |s.ws| && |s.depth| == |s.ws|
    && 0 <= s.stack[0] < |s.ws| && s.stack[0] in s.visited
    && forall k :: 0 <= k < |s.ws[s.stack[0]]| ==> 0 <= s.ws[s.stack[0]][k] < |s.ws|
  }

  /**
   * One pass of the carve loop: pop x, then carve through x's first wall
   * to an unvisited cell if there is one, or leave x popped.
   */
  ghost function Step(s: CarveState): CarveState
    requires Ready(s)
  {
    var x := s.stack[0];
    var i := FirstOutside(s.ws[x], s.visited);
    if i < |s.ws[x]| then Dig(s, x, i, s.stack[1..]) else s.(stack := s.stack[1..])
  }

  /** The pass of the loop that finds an unvisited neighbour behind wall i of the popped cell carves to it. */
  lemma StepDigs(s: CarveState, i: int)
    requires Ready(s) && i == FirstOutside(s.ws[s.stack[0]], s.visited) && i < |s.ws[s.stack[0]]|
    ensures 0 <= s.ws[s.stack[0]][i] < |s.ws|
    ensures Step(s) == Dig(s, s.stack[0], i, s.stack[1..])
  {
  }

  /** The pass of the loop that finds no unvisited neighbour only pops. */
  lemma StepRetreats(s: CarveState)
    requires Ready(s) && FirstOutside(s.ws[s.stack[0]], s.visited) == |s.ws[s.stack[0]]|
    ensures Step(s) == s.(stack := s.stack[1..])
  {
  }

  /** A pass of the loop keeps the invariant and either visits one more cell or shortens the stack. */
  lemma StepInv(n: nat, cols: nat, start: int, s: CarveState)
    requires cols > 0 && DfsInv(n, cols, start, s) && s.stack != []
    ensures Ready(s) && DfsInv(n, cols, start, Step(s))
    ensures |s.visited| <= n && |Step(s).visited| <= n
    ensures || |Step(s).visited| == |s.visited| + 1
            || (Step(s).visited == s.visited && |Step(s).stack| < |s.stack|)
  {
    var x := s.stack[0];
    var rest := s.stack[1..];
    assert s.stack == [x] + rest;
    assert x in s.visited;
    assert InCells(s.ws, n);
    var i := FirstOutside(s.ws[x], s.visited);
    if i < |s.ws[x]| {
      DigInv(n, cols, start, s, x, i, rest);
    } else {
      RetreatInv(n, cols, start, s, x, rest);
    }
    SubsetOfCellsCard(s.visited, n);
    SubsetOfCellsCard(Step(s).visited, n);
  }

  /** The state after k passes of the carve loop from s; the loop stops once the stack is empty. */
  ghost function Run(s: CarveState, k: nat): CarveState
  {
    if k == 0 then s
    else
      var r := Run(s, k - 1);
      if Ready(r) then Step(r) else r
  }

  /** Every state the carve loop reaches from Begin meets its invariant. */
  lemma {:induction false} RunInv(n: nat, cols: nat, start: int, ws: seq<seq<int>>, k: nat)
    requires cols > 0 && 0 <= start < n && AllWalls(n, cols, ws)
    ensures DfsInv(n, cols, start, Run(Begin(n, start, ws), k))
  {
    if k == 0 {
      BeginInv(n, cols, start, ws);
    } else {
      RunInv(n, cols, start, ws, k - 1);
      var r := Run(Begin(n, start, ws), k - 1);
      if r.stack != [] {
        StepInv(n, cols, start, r);
      } else {
        assert !Ready(r);
      }
    }
  }

  /** A state the carve loop reaches from Begin after some number of passes. */
  ghost predicate Reachable(n: nat, start: int, ws: seq<seq<int>>, s: CarveState)
  {
    exists k: nat :: s == Run(Begin(n, start, ws), k)
  }

  /** How many of the n cells are still to visit. */
  function Unvisited(n: nat, s: CarveState): nat
  {
    if |s.visited| <= n then n - |s.visited| else 0
  }

  /**
   * While the stack is not empty, the loop body can run, its result is
   * reachable too, and it visits one more of the n cells or leaves the
   * visited cells alone and shortens the stack: the loop ends.
   */
  lemma ReachableStep(n: nat, cols: nat, start: int, ws: seq<seq<int>>, s: CarveState)
    requires cols > 0 && 0 <= start < n && AllWalls(n, cols, ws)
    requires Reachable(n, start, ws, s) && s.stack != []
    ensures Ready(s) && Reachable(n, start, ws, Step(s))
    ensures || Unvisited(n, Step(s)) < Unvisited(n, s)
            || (Unvisited(n, Step(s)) == Unvisited(n, s) && |Step(s).stack| < |s.stack|)
  {
    var k: nat :| s == Run(Begin(n, start, ws), k);
    RunInv(n, cols, start, ws, k);
    StepInv(n, cols, start, s);
    assert Step(s) == Run(Begin(n, start, ws), k + 1);
  }

  /** When the stack is empty the paths form a spanning tree and the walls are exactly the uncarved neighbour pairs. */
  lemma ReachableDone(n: nat, cols: nat, start: int, ws: seq<seq<int>>, s: CarveState)
    requires cols > 0 && 0 <= start < n && AllWalls(n, cols, ws)
    requires Reachable(n, start, ws, s) && s.stack == []
    ensures SpanningTree(n, cols, start, s.ps, s.parent, s.depth)
    ensures WallsAreUncarved(n, cols, s.ws, s.ps)
  {
    var k: nat :| s == Run(Begin(n, start, ws), k);
    RunInv(n, cols, start, ws, k);
    CarveDone(n, cols, start, s);
  }

  // ---------------------------------------------------------------- the finished maze

  /**
   * The paths lists form a spanning tree of the grid rooted at start: every
   * other cell sits in the paths of exactly one neighbour, its parent, one
   * step further from the start; there are n - 1 entries in all.
   */
  ghost predicate SpanningTree(n: nat, cols: nat, start: int, ps: seq<seq<int>>, parent: seq<int>, depth: seq<nat>)
    requires cols > 0
  {
    && |ps| == n && |parent| == n && |depth| == n
    && 0 <= start < n && depth[start] == 0
    && (forall v :: 0 <= v < n && v != start ==> 0 <= parent[v] < n && v in ps[parent[v]])
    && (forall x, k :: 0 <= x < n && 0 <= k < |ps[x]| ==>
          && 0 <= ps[x][k] < n && Adjacent(n, cols, x, ps[x][k]) && ps[x][k] != start
          && parent[ps[x][k]] == x && depth[ps[x][k]] == depth[x] + 1)
    && (forall x :: 0 <= x < n ==> LinkedList.Distinct(ps[x]))
    && TotalLen(ps) == n - 1
  }

  /** When the stack runs empty every cell has been visited and the paths span the grid. */
  lemma {:induction false} CarveDone(n: nat, cols: nat, start: int, s: CarveState)
    requires cols > 0 && DfsInv(n, cols, start, s) && s.stack == []
    ensures forall v :: 0 <= v < n ==> v in s.visited
    ensures SpanningTree(n, cols, start, s.ps, s.parent, s.depth)
    ensures WallsAreUncarved(n, cols, s.ws, s.ps)
  {
    forall a, b | a in s.visited && Adjacent(n, cols, a, b) ensures b in s.visited {
      assert Explored(n, cols, s.visited, a);
    }
    ClosedSetIsEverything(n, cols, s.visited, start);
    AllCellsCard(s.visited, n);
    forall x, k | 0 <= x < n && 0 <= k < |s.ps[x]|
      ensures 0 <= s.ps[x][k] < n && Adjacent(n, cols, x, s.ps[x][k]) && s.ps[x][k] != start
      ensures s.parent[s.ps[x][k]] == x && s.depth[s.ps[x][k]] == s.depth[x] + 1
    {
      assert TreeEdge(n, cols, start, s, x, s.ps[x][k]);
    }
  }

  /** The cell reached from v by following parent k times. */
  function Up(parent: seq<int>, v: int, k: nat): int
    decreases k
  {
    if k == 0 || !(0 <= v < |parent|) then v else Up(parent, parent[v], k - 1)
  }

  /** Following parents from any cell reaches the start in as many steps as its depth: the tree has no cycle. */
  lemma {:induction false} Rooted(n: nat, cols: nat, start: int, ps: seq<seq<int>>, parent: seq<int>, depth: seq<nat>, v: int)
    requires cols > 0 && SpanningTree(n, cols, start, ps, parent, depth) && 0 <= v < n
    ensures Up(parent, v, depth[v]) == start
    decreases depth[v]
  {
    if v != start {
      var u := parent[v];
      var k :| 0 <= k < |ps[u]| && ps[u][k] == v;
      assert depth[v] == depth[u] + 1;
      Rooted(n, cols, start, ps, parent, depth, u);
    }
  }

  /** A cell other than the start is in one paths list only, its parent's. */
  lemma OneParent(n: nat, cols: nat, start: int, ps: seq<seq<int>>, parent: seq<int>, depth: seq<nat>, x: int, y: int)
    requires cols > 0 && SpanningTree(n, cols, start, ps, parent, depth)
    requires 0 <= x < n && 0 <= y < n && y in ps[x]
    ensures y != start && x == parent[y]
  {
    var k :| 0 <= k < |ps[x]| && ps[x][k] == y;
  }
}
