/**
 * gen_maze of dfs.c, step by step: the grid of cells with empty wall and
 * path lists, the linking of every pair of neighbours, the shuffle of each
 * wall list, and the depth-first carve that moves one wall per step into a
 * paths list. Each phase is proved against the value-level account in
 * module DfsSpec.
 *
 * All list nodes live in the maze's NodePool. A ghost `owner` names, for
 * every node, the one list allowed to hold it: cell x's walls are owner x,
 * its paths owner n + x. Operations on one list leave every node of another
 * owner alone, which is what keeps the other lists intact, and what lets
 * clean_maze free every node once.
 */
module Dfs {
  import opened Grid
  import opened DfsSpec
  import opened LinkedList
  import opened Wrappers
  import Stack
  import OrderedSet

  /** The C library's rand(): a fixed stream of draws and how many have been taken. */
  class Rng {
    const draw: nat -> RandValue
    var pos: nat

    constructor (draw: nat -> RandValue)
      ensures this.draw == draw && pos == 0
    {
      this.draw := draw;
      pos := 0;
    }

    method Next() returns (r: RandValue)
      modifies this
      ensures r == draw(old(pos)) && pos == old(pos) + 1
    {
      r := draw(pos);
      pos := pos + 1;
    }
  }

  /** Every node of ns belongs to list o. */
  ghost predicate Owned(owner: seq<int>, ns: seq<int>, o: int)
  {
    forall k :: 0 <= k < |ns| ==> 0 <= ns[k] < |owner| && owner[ns[k]] == o
  }

  /** Nodes of two different owners are different nodes: no node is in two lists. */
  lemma OwnedDisjoint(owner: seq<int>, ns: seq<int>, o: int, ms: seq<int>, o': int)
    requires Owned(owner, ns, o) && Owned(owner, ms, o') && o != o'
    ensures forall k, j :: 0 <= k < |ns| && 0 <= j < |ms| ==> ns[k] != ms[j]
  {
  }

  /** Nodes drawn from a list of owner o belong to o. */
  lemma OwnedRearranged(owner: seq<int>, ns: seq<int>, ms: seq<int>, o: int)
    requires Owned(owner, ns, o) && forall k :: 0 <= k < |ms| ==> ms[k] in ns
    ensures Owned(owner, ms, o)
  {
    forall k | 0 <= k < |ms| ensures 0 <= ms[k] < |owner| && owner[ms[k]] == o {
      assert ms[k] in ns;
      var j :| 0 <= j < |ns| && ns[j] == ms[k];
    }
  }

  /**
   * `shuffle`: count the nodes, copy them into an array, Fisher-Yates the
   * array with one draw per slot but the last, and relink the nodes in the
   * array's order. `start` is updated, `end` is not.
   */
  method Shuffle(pool: NodePool, l: List, ghost ns: seq<int>, rng: Rng) returns (l': List, ghost ns': seq<int>)
    requires pool.Valid() && Loose(pool.next, pool.prev, l, ns)
    modifies pool, rng
    ensures pool.Valid() && pool.cell == old(pool.cell)
    ensures rng.pos == old(rng.pos) + Draws(|ns|)
    ensures ns' == Permute(ns, 0, rng.draw, old(rng.pos))
    ensures l' == List(First(ns'), l.end)
    ensures Loose(pool.next, pool.prev, l', ns')
    ensures AgreeOutside(old(pool.next), pool.next, ns) && AgreeOutside(old(pool.prev), pool.prev, ns)
  {
    ghost var pos0 := rng.pos;
    var size := CountNodes(pool, l, ns);
    l', ns' := l, ns;
    if size > 0 {
      var slots := GatherNodes(pool, l, ns, size);
      FisherYates(slots, rng);
      ns' := slots[..];
      PermuteFacts(ns, pos0, rng.draw, ns', |pool.next|);
      Relink(pool, slots, ns', ns);
      l' := List(slots[0], l.end);
      LooseShuffled(pool.next, pool.prev, l, ns, ns');
    }
  }

  /** The counting walk of `shuffle`. */
  method CountNodes(pool: NodePool, l: List, ghost ns: seq<int>) returns (size: int)
    requires pool.Valid() && Doubly(pool.next, pool.prev, l.start, ns)
    ensures size == |ns|
  {
    size := 0;
    var node := l.start;
    while node != NIL
      invariant 0 <= size <= |ns|
      invariant node == if size < |ns| then ns[size] else NIL
      decreases |ns| - size
    {
      size := size + 1;
      node := pool.next[node];
    }
  }

  /** The copying walk of `shuffle`: the list's nodes, in order, in a new array. */
  method GatherNodes(pool: NodePool, l: List, ghost ns: seq<int>, size: int) returns (slots: array<int>)
    requires pool.Valid() && Doubly(pool.next, pool.prev, l.start, ns) && size == |ns|
    ensures fresh(slots) && slots[..] == ns
  {
    slots := new int[size];
    var i := 0;
    var node := l.start;
    while node != NIL
      invariant 0 <= i <= size
      invariant node == if i < size then ns[i] else NIL
      invariant slots[..i] == ns[..i]
      modifies slots
      decreases size - i
    {
      slots[i] := node;
      i := i + 1;
      node := pool.next[node];
    }
    assert slots[..] == slots[..i];
  }

  /** The relinked list is Loose under the old `end`, which is still one of its nodes. */
  lemma LooseShuffled(next: seq<int>, prev: seq<int>, l: List, ns: seq<int>, ms: seq<int>)
    requires ms != [] && Doubly(next, prev, ms[0], ms) && (l.end == NIL || l.end in ns)
    requires forall n :: n in ns ==> n in ms
    ensures Loose(next, prev, List(First(ms), l.end), ms)
  {
  }

  lemma PermuteFacts(ns: seq<int>, pos: nat, draw: nat -> RandValue, ms: seq<int>, size: nat)
    requires Distinct(ns) && InPool(ns, size) && ms == Permute(ns, 0, draw, pos)
    ensures |ms| == |ns| && Distinct(ms) && InPool(ms, size)
    ensures forall k :: 0 <= k < |ms| ==> ms[k] in ns
    ensures forall n :: n in ns ==> n in ms
  {
    PermuteMultiset(ns, 0, draw, pos);
    PermuteDistinct(ns, 0, draw, pos);
    assert forall k :: 0 <= k < |ms| ==> ms[k] in multiset(ns);
    assert forall n :: n in ns ==> n in multiset(ms);
  }

  /** The shuffle loop of `shuffle`: slot i trades places with a slot drawn from i .. size - 1. */
  method FisherYates(slots: array<int>, rng: Rng)
    requires slots.Length > 0
    modifies slots, rng
    ensures rng.pos == old(rng.pos) + slots.Length - 1
    ensures slots[..] == Permute(old(slots[..]), 0, rng.draw, old(rng.pos))
  {
    var size := slots.Length;
    var i := 0;
    while i < size - 1
      invariant 0 <= i <= size - 1
      invariant rng.pos == old(rng.pos) + i
      invariant Permute(slots[..], i, rng.draw, rng.pos) == Permute(old(slots[..]), 0, rng.draw, old(rng.pos))
    {
      var r := rng.Next();
      var j := Pick(i, size, r);
      ghost var before := slots[..];
      var tmp := slots[j];
      slots[j] := slots[i];
      slots[i] := tmp;
      assert slots[..] == Swap(before, i, j);
      i := i + 1;
    }
  }

  /** Distinct pool nodes whose next and prev pointers follow their order form a doubly-linked list. */
  lemma ChainIsDoubly(next: seq<int>, prev: seq<int>, ms: seq<int>)
    requires ms != [] && Distinct(ms) && InPool(ms, |next|) && |prev| == |next|
    requires forall k :: 0 <= k < |ms| - 1 ==> next[ms[k]] == ms[k + 1]
    requires next[ms[|ms| - 1]] == NIL && prev[ms[0]] == NIL
    requires forall k :: 0 < k < |ms| ==> prev[ms[k]] == ms[k - 1]
    ensures Doubly(next, prev, ms[0], ms)
  {
  }

  /** The rebuild at the end of `shuffle`: the nodes are chained in the order of the array, both ways. */
  method Relink(pool: NodePool, slots: array<int>, ghost ms: seq<int>, ghost ns: seq<int>)
    requires pool.Valid() && slots.Length > 0 && ms == slots[..] && Distinct(ms) && InPool(ms, |pool.next|)
    requires forall k :: 0 <= k < |ms| ==> ms[k] in ns
    modifies pool
    ensures pool.Valid() && pool.cell == old(pool.cell)
    ensures Doubly(pool.next, pool.prev, ms[0], ms)
    ensures AgreeOutside(old(pool.next), pool.next, ns) && AgreeOutside(old(pool.prev), pool.prev, ns)
  {
    var next, prev := LinkSlots(slots, ms, ns, pool.next, pool.prev);
    pool.next, pool.prev := next, prev;
  }

  /** The relinking loop of `shuffle`, on the pool's link fields as values. */
  method LinkSlots(slots: array<int>, ghost ms: seq<int>, ghost ns: seq<int>, next0: seq<int>, prev0: seq<int>)
    returns (next: seq<int>, prev: seq<int>)
    requires slots.Length > 0 && ms == slots[..] && Distinct(ms) && InPool(ms, |next0|) && |prev0| == |next0|
    requires forall k :: 0 <= k < |ms| ==> ms[k] in ns
    ensures |next| == |next0| && |prev| == |prev0|
    ensures Doubly(next, prev, ms[0], ms)
    ensures AgreeOutside(next0, next, ns) && AgreeOutside(prev0, prev, ns)
  {
    var size := slots.Length;
    next, prev := next0, prev0;
    prev := prev[slots[0] := NIL];
    next := next[slots[size - 1] := NIL];
    if size > 1 {
      next := next[slots[0] := slots[1]];
      prev := prev[slots[size - 1] := slots[size - 2]];
    }
    var i := 1;
    while i < size - 1
      invariant 1 <= i && (size > 1 ==> i <= size - 1)
      invariant |next| == |next0| && |prev| == |prev0|
      invariant forall k :: 0 <= k < i && k < size - 1 ==> next[ms[k]] == ms[k + 1]
      invariant next[ms[size - 1]] == NIL
      invariant prev[ms[0]] == NIL
      invariant forall k :: 0 < k < i && k < size ==> prev[ms[k]] == ms[k - 1]
      invariant size > 1 ==> prev[ms[size - 1]] == ms[size - 2]
      invariant AgreeOutside(next0, next, ns) && AgreeOutside(prev0, prev, ns)
    {
      next := next[slots[i] := slots[i + 1]];
      prev := prev[slots[i] := slots[i - 1]];
      i := i + 1;
    }
    ChainIsDoubly(next, prev, ms);
  }

  /** `list_remove` seen from outside the list: the node leaves, the rest stays linked, other nodes keep their links. */
  method Unlink(pool: NodePool, l: List, ghost ns: seq<int>, node: int, ghost k: nat) returns (l': List, ghost ns': seq<int>)
    requires pool.Valid() && Loose(pool.next, pool.prev, l, ns) && k < |ns| && ns[k] == node
    modifies pool
    ensures pool.Valid() && pool.cell == old(pool.cell)
    ensures ns' == ns[..k] + ns[k + 1..] && node !in ns'
    ensures forall j :: 0 <= j < |ns'| ==> ns'[j] in ns
    ensures Loose(pool.next, pool.prev, l', ns')
    ensures CellsOf(pool.cell, ns') == CellsOf(pool.cell, ns)[..k] + CellsOf(pool.cell, ns)[k + 1..]
    ensures AgreeOutside(old(pool.next), pool.next, ns) && AgreeOutside(old(pool.prev), pool.prev, ns)
  {
    l', ns' := pool.Remove(l, ns, node, k);
    CutDistinct(ns, k, ns');
  }

  /** `list_remove_data` seen from outside the list: at most one node leaves, the rest stays linked. */
  method UnlinkData(pool: NodePool, l: List, ghost ns: seq<int>, c: int) returns (l': List, ghost ns': seq<int>)
    requires pool.Valid() && Loose(pool.next, pool.prev, l, ns)
    modifies pool
    ensures pool.Valid() && pool.cell == old(pool.cell)
    ensures forall j :: 0 <= j < |ns'| ==> ns'[j] in ns
    ensures Loose(pool.next, pool.prev, l', ns')
    ensures CellsOf(pool.cell, ns') == RemoveFirst(CellsOf(pool.cell, ns), c)
    ensures AgreeOutside(old(pool.next), pool.next, ns) && AgreeOutside(old(pool.prev), pool.prev, ns)
  {
    assert Distinct(ns);
    ghost var cs := CellsOf(pool.cell, ns);
    l', ns' := pool.RemoveData(l, ns, c);
    if c in cs {
      var i := FirstIndex(cs, c);
      CutDistinct(ns, i, ns');
    }
  }

  // ---------------------------------------------------------------- the maze's lists

  /** A ghost snapshot of the node pool and of each node's owner. */
  datatype Pool = Pool(next: seq<int>, prev: seq<int>, cell: seq<int>, owner: seq<int>)

  /**
   * A wall list: doubly linked (with an exact `end` before the shuffle, a
   * member or NULL `end` after it), made of nodes of owner o, holding the
   * cells cs.
   */
  ghost predicate WallList(h: Pool, l: List, ns: seq<int>, cs: seq<int>, o: int, exact: bool)
  {
    && (if exact then Exact(h.next, h.prev, l, ns) else Loose(h.next, h.prev, l, ns))
    && Owned(h.owner, ns, o) && InPool(ns, |h.cell|) && CellsOf(h.cell, ns) == cs
  }

  /**
   * The paths list of cell x of n: linked forward from `start` with `end`
   * its last node (its `prev` links are never set), made of nodes of owner
   * n + x, holding the cells cs.
   */
  ghost predicate PathList(h: Pool, l: List, ns: seq<int>, cs: seq<int>, n: int, x: int)
  {
    && Forward(h.next, l.start, ns) && l.end == Last(ns)
    && Owned(h.owner, ns, n + x) && InPool(ns, |h.cell|) && CellsOf(h.cell, ns) == cs
  }

  /** From h to h' only the nodes in `changed` had their links or owner altered; cells only were added. */
  ghost predicate Untouched(h: Pool, h': Pool, changed: seq<int>)
  {
    && |h.next| == |h.prev| == |h.cell| == |h.owner|
    && |h.next| <= |h'.next| && |h.prev| <= |h'.prev| && |h.cell| <= |h'.cell| && |h.owner| <= |h'.owner|
    && (forall m :: 0 <= m < |h.cell| ==> h'.cell[m] == h.cell[m])
    && (forall m :: 0 <= m < |h.owner| && m !in changed ==>
          h'.next[m] == h.next[m] && h'.prev[m] == h.prev[m] && h'.owner[m] == h.owner[m])
  }

  lemma WallListFrame(h: Pool, h': Pool, changed: seq<int>, l: List, ns: seq<int>, cs: seq<int>, o: int, exact: bool)
    requires WallList(h, l, ns, cs, o, exact) && Untouched(h, h', changed)
    requires forall k :: 0 <= k < |ns| ==> ns[k] !in changed
    ensures WallList(h', l, ns, cs, o, exact)
  {
    DoublyFrame(h.next, h.prev, h'.next, h'.prev, l.start, ns);
    assert CellsOf(h'.cell, ns) == CellsOf(h.cell, ns);
  }

  lemma PathListFrame(h: Pool, h': Pool, changed: seq<int>, l: List, ns: seq<int>, cs: seq<int>, n: int, x: int)
    requires PathList(h, l, ns, cs, n, x) && Untouched(h, h', changed)
    requires forall k :: 0 <= k < |ns| ==> ns[k] !in changed
    ensures PathList(h', l, ns, cs, n, x)
  {
    assert CellsOf(h'.cell, ns) == CellsOf(h.cell, ns);
  }

  /** Every list whose owner is not in skip survives a change confined to nodes of owners in skip. */
  lemma {:induction false} AllListsFrame(n: nat, h: Pool, h': Pool, changed: seq<int>, skip: set<int>,
                                         walls: seq<List>, wallNodes: seq<seq<int>>, wallSeq: seq<seq<int>>,
                                         paths: seq<List>, pathNodes: seq<seq<int>>, pathSeq: seq<seq<int>>, exact: bool)
    requires |walls| == n && |wallNodes| == n && |wallSeq| == n && |paths| == n && |pathNodes| == n && |pathSeq| == n
    requires forall x {:trigger WallList(h, walls[x], wallNodes[x], wallSeq[x], x, exact)} ::
               0 <= x < n ==> WallList(h, walls[x], wallNodes[x], wallSeq[x], x, exact)
    requires forall x {:trigger PathList(h, paths[x], pathNodes[x], pathSeq[x], n, x)} ::
               0 <= x < n ==> PathList(h, paths[x], pathNodes[x], pathSeq[x], n, x)
    requires Untouched(h, h', changed)
    requires forall m :: m in changed && 0 <= m < |h.owner| ==> h.owner[m] in skip
    ensures forall x {:trigger WallList(h', walls[x], wallNodes[x], wallSeq[x], x, exact)} ::
              0 <= x < n && x !in skip ==> WallList(h', walls[x], wallNodes[x], wallSeq[x], x, exact)
    ensures forall x {:trigger PathList(h', paths[x], pathNodes[x], pathSeq[x], n, x)} ::
              0 <= x < n && n + x !in skip ==> PathList(h', paths[x], pathNodes[x], pathSeq[x], n, x)
  {
    forall x | 0 <= x < n && x !in skip ensures WallList(h', walls[x], wallNodes[x], wallSeq[x], x, exact) {
      WallListFrame(h, h', changed, walls[x], wallNodes[x], wallSeq[x], x, exact);
    }
    forall x | 0 <= x < n && n + x !in skip ensures PathList(h', paths[x], pathNodes[x], pathSeq[x], n, x) {
      PathListFrame(h, h', changed, paths[x], pathNodes[x], pathSeq[x], n, x);
    }
  }

  /** Replacing cell x's wall list after a change confined to its own nodes keeps every list well formed. */
  lemma ReplaceWallList(n: nat, h: Pool, h': Pool, changed: seq<int>, x: int,
                        walls: seq<List>, wallNodes: seq<seq<int>>, wallSeq: seq<seq<int>>,
                        paths: seq<List>, pathNodes: seq<seq<int>>, pathSeq: seq<seq<int>>,
                        l: List, ns: seq<int>, cs: seq<int>, exact: bool,
                        walls': seq<List>, wallNodes': seq<seq<int>>, wallSeq': seq<seq<int>>)
    requires |walls| == n && |wallNodes| == n && |wallSeq| == n && |paths| == n && |pathNodes| == n && |pathSeq| == n
    requires 0 <= x < n && walls' == walls[x := l] && wallNodes' == wallNodes[x := ns] && wallSeq' == wallSeq[x := cs]
    requires forall z {:trigger WallList(h, walls[z], wallNodes[z], wallSeq[z], z, exact)} :: 0 <= z < n ==> WallList(h, walls[z], wallNodes[z], wallSeq[z], z, exact)
    requires forall z {:trigger PathList(h, paths[z], pathNodes[z], pathSeq[z], n, z)} :: 0 <= z < n ==> PathList(h, paths[z], pathNodes[z], pathSeq[z], n, z)
    requires Untouched(h, h', changed) && forall m :: m in changed && 0 <= m < |h.owner| ==> h.owner[m] == x
    requires WallList(h', l, ns, cs, x, exact)
    ensures forall z {:trigger WallList(h', walls'[z], wallNodes'[z], wallSeq'[z], z, exact)} :: 0 <= z < n ==> WallList(h', walls'[z], wallNodes'[z], wallSeq'[z], z, exact)
    ensures forall z {:trigger PathList(h', paths[z], pathNodes[z], pathSeq[z], n, z)} :: 0 <= z < n ==> PathList(h', paths[z], pathNodes[z], pathSeq[z], n, z)
  {
    AllListsFrame(n, h, h', changed, {x}, walls, wallNodes, wallSeq, paths, pathNodes, pathSeq, exact);
  }

  /**
   * Relinking the nodes of cell x's loose wall list among themselves, with
   * nothing else altered, keeps every list well formed: the new list ns' is
   * made of old nodes of x and holds the cells cs'.
   */
  lemma ReplaceOwnWallList(n: nat, h: Pool, h': Pool, x: int,
                           walls: seq<List>, wallNodes: seq<seq<int>>, wallSeq: seq<seq<int>>,
                           paths: seq<List>, pathNodes: seq<seq<int>>, pathSeq: seq<seq<int>>,
                           l: List, ns': seq<int>, cs': seq<int>,
                           walls': seq<List>, wallNodes': seq<seq<int>>, wallSeq': seq<seq<int>>)
    requires |walls| == n && |wallNodes| == n && |wallSeq| == n && |paths| == n && |pathNodes| == n && |pathSeq| == n
    requires 0 <= x < n && walls' == walls[x := l] && wallNodes' == wallNodes[x := ns'] && wallSeq' == wallSeq[x := cs']
    requires forall z {:trigger WallList(h, walls[z], wallNodes[z], wallSeq[z], z, false)} ::
               0 <= z < n ==> WallList(h, walls[z], wallNodes[z], wallSeq[z], z, false)
    requires forall z {:trigger PathList(h, paths[z], pathNodes[z], pathSeq[z], n, z)} ::
               0 <= z < n ==> PathList(h, paths[z], pathNodes[z], pathSeq[z], n, z)
    requires |h.next| == |h.prev| == |h.cell| == |h.owner|
    requires h'.cell == h.cell && h'.owner == h.owner && |h'.next| == |h.next|
    requires AgreeOutside(h.next, h'.next, wallNodes[x]) && AgreeOutside(h.prev, h'.prev, wallNodes[x])
    requires Loose(h'.next, h'.prev, l, ns') && (forall j :: 0 <= j < |ns'| ==> ns'[j] in wallNodes[x])
    requires CellsOf(h'.cell, ns') == cs'
    ensures forall z {:trigger WallList(h', walls'[z], wallNodes'[z], wallSeq'[z], z, false)} ::
              0 <= z < n ==> WallList(h', walls'[z], wallNodes'[z], wallSeq'[z], z, false)
    ensures forall z {:trigger PathList(h', paths[z], pathNodes[z], pathSeq[z], n, z)} ::
              0 <= z < n ==> PathList(h', paths[z], pathNodes[z], pathSeq[z], n, z)
  {
    var ns := wallNodes[x];
    assert WallList(h, walls[x], ns, wallSeq[x], x, false);
    OwnedRearranged(h.owner, ns, ns', x);
    assert Untouched(h, h', ns);
    assert WallList(h', l, ns', cs', x, false);
    ReplaceWallList(n, h, h', ns, x, walls, wallNodes, wallSeq, paths, pathNodes, pathSeq, l, ns', cs', false,
                    walls', wallNodes', wallSeq');
  }

  /** Moving node `wall` of owner x into cell x's paths, as the list pl, keeps every list well formed. */
  lemma ReplacePathList(n: nat, h: Pool, h': Pool, wall: int, x: int,
                        walls: seq<List>, wallNodes: seq<seq<int>>, wallSeq: seq<seq<int>>,
                        paths: seq<List>, pathNodes: seq<seq<int>>, pathSeq: seq<seq<int>>,
                        l: List, ns: seq<int>, cs: seq<int>, exact: bool,
                        paths': seq<List>, pathNodes': seq<seq<int>>, pathSeq': seq<seq<int>>)
    requires |walls| == n && |wallNodes| == n && |wallSeq| == n && |paths| == n && |pathNodes| == n && |pathSeq| == n
    requires 0 <= x < n && paths' == paths[x := l] && pathNodes' == pathNodes[x := ns] && pathSeq' == pathSeq[x := cs]
    requires forall z {:trigger WallList(h, walls[z], wallNodes[z], wallSeq[z], z, exact)} ::
               0 <= z < n ==> WallList(h, walls[z], wallNodes[z], wallSeq[z], z, exact)
    requires forall z {:trigger PathList(h, paths[z], pathNodes[z], pathSeq[z], n, z)} ::
               0 <= z < n ==> PathList(h, paths[z], pathNodes[z], pathSeq[z], n, z)
    requires Untouched(h, h', [wall]) && 0 <= wall < |h.owner| && h.owner[wall] == x && wall !in wallNodes[x]
    requires PathList(h', l, ns, cs, n, x)
    ensures forall z {:trigger WallList(h', walls[z], wallNodes[z], wallSeq[z], z, exact)} ::
              0 <= z < n ==> WallList(h', walls[z], wallNodes[z], wallSeq[z], z, exact)
    ensures forall z {:trigger PathList(h', paths'[z], pathNodes'[z], pathSeq'[z], n, z)} ::
              0 <= z < n ==> PathList(h', paths'[z], pathNodes'[z], pathSeq'[z], n, z)
  {
    AllListsFrame(n, h, h', [wall], {x, n + x}, walls, wallNodes, wallSeq, paths, pathNodes, pathSeq, exact);
    assert WallList(h, walls[x], wallNodes[x], wallSeq[x], x, exact);
    WallListFrame(h, h', [wall], walls[x], wallNodes[x], wallSeq[x], x, exact);
  }

  /** Prepending node `wall`, until now of owner x, to the paths list ns of x. */
  lemma PrependPathList(h: Pool, h': Pool, wall: int, l0: List, ns: seq<int>, cs: seq<int>, n: int, x: int, l: List)
    requires PathList(h, l0, ns, cs, n, x) && n > 0 && x >= 0
    requires |h.next| == |h.cell| == |h.owner| && 0 <= wall < |h.owner| && h.owner[wall] == x
    requires h' == Pool(h.next[wall := l0.start], h.prev, h.cell, h.owner[wall := n + x])
    requires l == List(wall, if l0.end == NIL then wall else l0.end)
    ensures PathList(h', l, [wall] + ns, [h.cell[wall]] + cs, n, x)
  {
    forall k | 0 <= k < |ns| ensures ns[k] != wall && h'.owner[ns[k]] == n + x {
      assert h.owner[ns[k]] == n + x;
    }
    PrependForward(h.next, l0.start, ns, wall);
    assert CellsOf(h'.cell, [wall] + ns) == [h.cell[wall]] + cs;
  }

  /** A node outside a forward chain, pointed at the chain's first node, heads a longer chain. */
  lemma PrependForward(next: seq<int>, start: int, ns: seq<int>, wall: int)
    requires Forward(next, start, ns) && 0 <= wall < |next|
    requires forall k :: 0 <= k < |ns| ==> ns[k] != wall
    ensures Forward(next[wall := start], wall, [wall] + ns)
  {
    var ms := [wall] + ns;
    var next' := next[wall := start];
    forall k | 0 <= k < |ms| - 1 ensures next'[ms[k]] == ms[k + 1] {
      if k > 0 {
        assert ms[k] == ns[k - 1];
      }
    }
    forall i, j | 0 <= i < j < |ms| ensures ms[i] != ms[j] {
      assert ms[j] == ns[j - 1];
    }
  }

  /**
   * The prepend of node `wall`, a former wall node of x, to x's paths keeps
   * every list well formed, and x's paths then hold wall's cell first.
   */
  lemma PrependKeepsLists(n: nat, h: Pool, h': Pool, wall: int, x: int,
                          walls: seq<List>, wallNodes: seq<seq<int>>, wallSeq: seq<seq<int>>,
                          paths: seq<List>, pathNodes: seq<seq<int>>, pathSeq: seq<seq<int>>,
                          l: List, paths': seq<List>, pathNodes': seq<seq<int>>, pathSeq': seq<seq<int>>)
    requires |walls| == n && |wallNodes| == n && |wallSeq| == n && |paths| == n && |pathNodes| == n && |pathSeq| == n
    requires 0 <= x < n
    requires forall z {:trigger WallList(h, walls[z], wallNodes[z], wallSeq[z], z, false)} ::
               0 <= z < n ==> WallList(h, walls[z], wallNodes[z], wallSeq[z], z, false)
    requires forall z {:trigger PathList(h, paths[z], pathNodes[z], pathSeq[z], n, z)} ::
               0 <= z < n ==> PathList(h, paths[z], pathNodes[z], pathSeq[z], n, z)
    requires |h.next| == |h.prev| == |h.cell| == |h.owner|
    requires 0 <= wall < |h.owner| && h.owner[wall] == x && wall !in wallNodes[x]
    requires h' == Pool(h.next[wall := paths[x].start], h.prev, h.cell, h.owner[wall := n + x])
    requires l == List(wall, if paths[x].end == NIL then wall else paths[x].end)
    requires paths' == paths[x := l] && pathNodes' == pathNodes[x := [wall] + pathNodes[x]]
    requires pathSeq' == pathSeq[x := [h.cell[wall]] + pathSeq[x]]
    ensures forall z {:trigger WallList(h', walls[z], wallNodes[z], wallSeq[z], z, false)} ::
              0 <= z < n ==> WallList(h', walls[z], wallNodes[z], wallSeq[z], z, false)
    ensures forall z {:trigger PathList(h', paths'[z], pathNodes'[z], pathSeq'[z], n, z)} ::
              0 <= z < n ==> PathList(h', paths'[z], pathNodes'[z], pathSeq'[z], n, z)
  {
    var ns := pathNodes[x];
    var cs' := [h.cell[wall]] + pathSeq[x];
    assert PathList(h, paths[x], ns, pathSeq[x], n, x);
    PrependPathList(h, h', wall, paths[x], ns, pathSeq[x], n, x, l);
    ReplacePathList(n, h, h', wall, x, walls, wallNodes, wallSeq, paths, pathNodes, pathSeq,
                    l, [wall] + ns, cs', false, paths', pathNodes', pathSeq');
  }

  /** `struct maze`: the grid of cells, each with its position and its wall and path lists. */
  class Maze {
    const rows: nat
    const cols: nat
    const pool: NodePool
    /** Each cell's (row, col) as left by the relocate callback. */
    var coord: seq<Coord>
    var walls: seq<List>
    var paths: seq<List>
    ghost var owner: seq<int>
    ghost var wallNodes: seq<seq<int>>
    ghost var pathNodes: seq<seq<int>>
    /** The cells each wall list holds, in order. */
    ghost var wallSeq: seq<seq<int>>
    /** The cells each paths list holds, in order. */
    ghost var pathSeq: seq<seq<int>>
    /** Where the carve started, and for each cell the cell it was carved from and its distance from the start. */
    ghost var start: int
    ghost var parent: seq<int>
    ghost var depth: seq<nat>

    ghost function Heap(): Pool
      reads this`owner, pool
    {
      Pool(pool.next, pool.prev, pool.cell, owner)
    }

    /**
     * Every cell's two lists are well formed, own their nodes, and hold what
     * the ghost contents say. Methods that only carry it through a loop
     * state it as `Lists(false) == true` (and likewise Carving), which the
     * verifier checks as one obligation rather than one per conjunct.
     */
    ghost predicate Lists(exact: bool)
      reads this`owner, this`walls, this`wallNodes, this`wallSeq, this`paths, this`pathNodes, this`pathSeq, pool
    {
      var n := rows * cols;
      && rows > 0 && cols > 0
      && pool.Valid() && |owner| == |pool.cell|
      && |walls| == n && |wallNodes| == n && |wallSeq| == n
      && |paths| == n && |pathNodes| == n && |pathSeq| == n
      && (forall x {:trigger WallList(Heap(), walls[x], wallNodes[x], wallSeq[x], x, exact)} ::
            0 <= x < n ==> WallList(Heap(), walls[x], wallNodes[x], wallSeq[x], x, exact))
      && (forall x {:trigger PathList(Heap(), paths[x], pathNodes[x], pathSeq[x], n, x)} ::
            0 <= x < n ==> PathList(Heap(), paths[x], pathNodes[x], pathSeq[x], n, x))
    }

    /** An exact wall list is in particular a loose one. */
    lemma ExactIsLoose()
      requires Lists(true)
      ensures Lists(false)
    {
      forall x | 0 <= x < rows * cols ensures WallList(Heap(), walls[x], wallNodes[x], wallSeq[x], x, false) {
        assert WallList(Heap(), walls[x], wallNodes[x], wallSeq[x], x, true);
      }
    }

    /**
     * The first part of gen_maze: a rows x cols grid whose cell (r, c) has
     * been given its row and column, then passed to relocate, and has empty
     * wall and path lists.
     */
    constructor (rows: nat, cols: nat, relocate: Coord -> Coord)
      requires rows > 0 && cols > 0
      ensures this.rows == rows && this.cols == cols && fresh(pool)
      ensures Lists(true)
      ensures |coord| == rows * cols
      ensures forall k :: 0 <= k < rows * cols ==> coord[k] == relocate(Coord(k / cols, k % cols))
      ensures forall x :: 0 <= x < rows * cols ==> wallSeq[x] == [] && pathSeq[x] == []
    {
      this.rows, this.cols := rows, cols;
      var cs: seq<Coord>, ws: seq<List>, ps: seq<List> := [], [], [];
      var r := 0;
      while r < rows
        invariant 0 <= r <= rows && |cs| == r * cols
        invariant forall k :: 0 <= k < |cs| ==> cs[k] == relocate(Coord(k / cols, k % cols))
        invariant |ws| == |cs| && |ps| == |cs|
        invariant forall x :: 0 <= x < |ws| ==> ws[x] == Empty && ps[x] == Empty
      {
        var c := 0;
        while c < cols
          invariant 0 <= c <= cols && |cs| == r * cols + c
          invariant forall k :: 0 <= k < |cs| ==> cs[k] == relocate(Coord(k / cols, k % cols))
          invariant |ws| == |cs| && |ps| == |cs|
          invariant forall x :: 0 <= x < |ws| ==> ws[x] == Empty && ps[x] == Empty
        {
          DivModUnique(r * cols + c, cols, r, c);
          cs := cs + [relocate(Coord(r, c))];
          ws := ws + [Empty];
          ps := ps + [Empty];
          c := c + 1;
        }
        assert r * cols + cols == (r + 1) * cols;
        r := r + 1;
      }
      pool := new NodePool();
      coord, walls, paths := cs, ws, ps;
      owner := [];
      wallNodes, pathNodes := seq(rows * cols, _ => []), seq(rows * cols, _ => []);
      wallSeq, pathSeq := seq(rows * cols, _ => []), seq(rows * cols, _ => []);
      start, parent, depth := 0, [], [];
      new;
      forall x | 0 <= x < rows * cols ensures WallList(Heap(), walls[x], wallNodes[x], wallSeq[x], x, true) {
        assert walls[x] == Empty && wallNodes[x] == [];
      }
      forall x | 0 <= x < rows * cols ensures PathList(Heap(), paths[x], pathNodes[x], pathSeq[x], rows * cols, x) {
        assert paths[x] == Empty && pathNodes[x] == [];
      }
    }

    /** list_push(&maze[x].walls, maze[y]). */
    method PushWall(x: int, y: int)
      requires Lists(true) == true && 0 <= x < rows * cols
      modifies this, pool
      ensures Lists(true) == true
      ensures wallSeq == old(wallSeq)[x := old(wallSeq)[x] + [y]]
      ensures coord == old(coord) && paths == old(paths) && pathNodes == old(pathNodes) && pathSeq == old(pathSeq)
      ensures start == old(start) && parent == old(parent) && depth == old(depth)
    {
      ghost var h := Heap();
      ghost var ns := wallNodes[x];
      assert WallList(h, walls[x], ns, wallSeq[x], x, true);
      var l, ns' := pool.Push(walls[x], wallNodes[x], y);
      owner := owner + [x];
      ghost var h' := Heap();
      assert Owned(owner, ns', x);
      assert WallList(h', l, ns', wallSeq[x] + [y], x, true);
      ReplaceWallList(rows * cols, h, h', ns, x, walls, wallNodes, wallSeq, paths, pathNodes, pathSeq,
                      l, ns', wallSeq[x] + [y], true, walls[x := l], wallNodes[x := ns'], wallSeq[x := wallSeq[x] + [y]]);
      walls, wallNodes, wallSeq := walls[x := l], wallNodes[x := ns'], wallSeq[x := wallSeq[x] + [y]];
    }

    /** The two list_push calls that make a and b each other's walls. */
    method LinkPair(a: int, b: int, ghost p: Progress, ghost p': Progress)
      requires Lists(true) && WallsMatch(rows, cols, wallSeq, p)
      requires 0 <= a < rows * cols && 0 <= b < rows * cols && a != b && !Linked(rows, cols, p, a, b)
      requires forall x, y :: Linked(rows, cols, p', x, y) <==>
                 Linked(rows, cols, p, x, y) || (x == a && y == b) || (x == b && y == a)
      modifies this, pool
      ensures Lists(true) && WallsMatch(rows, cols, wallSeq, p')
      ensures coord == old(coord) && paths == old(paths) && pathNodes == old(pathNodes) && pathSeq == old(pathSeq)
      ensures start == old(start) && parent == old(parent) && depth == old(depth)
    {
      ghost var ws := wallSeq;
      PushWall(a, b);
      PushWall(b, a);
      LinkPairStep(rows, cols, ws, p, p', a, b);
    }

    /**
     * The three linking loops of gen_maze: each inner cell with the cell
     * below it and the cell right of it, then the last column downwards,
     * then the last row rightwards. Afterwards every cell's walls name each
     * of its neighbours exactly once and nothing else.
     */
    method LinkNeighbours()
      requires Lists(true) && forall x :: 0 <= x < rows * cols ==> wallSeq[x] == []
      modifies this, pool
      ensures Lists(true) && InCells(wallSeq, rows * cols)
      ensures forall x, y :: 0 <= x < rows * cols && 0 <= y < rows * cols ==>
                Count(wallSeq, x, y) == if Adjacent(rows * cols, cols, x, y) then 1 else 0
      ensures coord == old(coord) && paths == old(paths) && pathNodes == old(pathNodes) && pathSeq == old(pathSeq)
      ensures start == old(start) && parent == old(parent) && depth == old(depth)
    {
      assert wallSeq == seq(rows * cols, _ => []);
      EmptyWallsMatch(rows, cols);
      LinkInner();
      LinkRightEdge();
      LinkBottomEdge();
      FinishedIsAdjacency(rows, cols, wallSeq);
    }

    /** The first linking loop: each cell off the last row and column with the cells below and right of it. */
    method LinkInner()
      requires Lists(true) && WallsMatch(rows, cols, wallSeq, Start)
      modifies this, pool
      ensures Lists(true) && WallsMatch(rows, cols, wallSeq, Progress(Id(cols, rows - 1, 0), Id(cols, rows - 1, 0), 0, 0))
      ensures coord == old(coord) && paths == old(paths) && pathNodes == old(pathNodes) && pathSeq == old(pathSeq)
      ensures start == old(start) && parent == old(parent) && depth == old(depth)
    {
      ghost var p := Start;
      var r := 0;
      while r < rows - 1
        invariant 0 <= r <= rows - 1
        invariant Lists(true) && WallsMatch(rows, cols, wallSeq, p)
        invariant p == Progress(Id(cols, r, 0), Id(cols, r, 0), 0, 0)
        invariant coord == old(coord) && paths == old(paths) && pathNodes == old(pathNodes) && pathSeq == old(pathSeq)
        invariant start == old(start) && parent == old(parent) && depth == old(depth)
      {
        LinkRow(r);
        p := Progress(Id(cols, r, cols - 1), Id(cols, r, cols - 1), 0, 0);
        NextRow(rows, cols, wallSeq, p, r);
        p := p.(down := Id(cols, r + 1, 0), right := Id(cols, r + 1, 0));
        r := r + 1;
      }
    }

    /** The first half of the first linking loop's body: cell (r, c) with the cell below it. */
    method LinkDown(r: nat, c: nat)
      requires r < rows - 1 && c < cols - 1
      requires Lists(true) && WallsMatch(rows, cols, wallSeq, Progress(Id(cols, r, c), Id(cols, r, c), 0, 0))
      modifies this, pool
      ensures Lists(true) && WallsMatch(rows, cols, wallSeq, Progress(Id(cols, r, c) + 1, Id(cols, r, c), 0, 0))
      ensures coord == old(coord) && paths == old(paths) && pathNodes == old(pathNodes) && pathSeq == old(pathSeq)
      ensures start == old(start) && parent == old(parent) && depth == old(depth)
    {
      ghost var p := Progress(Id(cols, r, c), Id(cols, r, c), 0, 0);
      var current := Id(cols, r, c);
      var down := Id(cols, r + 1, c);
      IdInRange(rows, cols, r, c);
      IdInRange(rows, cols, r + 1, c);
      assert down == current + cols by { assert (r + 1) * cols == r * cols + cols; }
      DownStep(rows, cols, p, r, c);
      LinkPair(current, down, p, p.(down := current + 1));
    }

    /** The second half of the first linking loop's body: cell (r, c) with the cell right of it. */
    method LinkRight(r: nat, c: nat)
      requires r < rows - 1 && c < cols - 1
      requires Lists(true) && WallsMatch(rows, cols, wallSeq, Progress(Id(cols, r, c) + 1, Id(cols, r, c), 0, 0))
      modifies this, pool
      ensures Lists(true) && WallsMatch(rows, cols, wallSeq, Progress(Id(cols, r, c) + 1, Id(cols, r, c) + 1, 0, 0))
      ensures coord == old(coord) && paths == old(paths) && pathNodes == old(pathNodes) && pathSeq == old(pathSeq)
      ensures start == old(start) && parent == old(parent) && depth == old(depth)
    {
      ghost var p := Progress(Id(cols, r, c) + 1, Id(cols, r, c), 0, 0);
      var current := Id(cols, r, c);
      var right := Id(cols, r, c + 1);
      IdInRange(rows, cols, r, c);
      IdInRange(rows, cols, r, c + 1);
      RightStep(rows, cols, p, r, c);
      LinkPair(current, right, p, p.(right := current + 1));
    }

    /** One pass of the first linking loop's outer loop: every cell of row r but the last. */
    method LinkRow(r: nat)
      requires r < rows - 1
      requires Lists(true) && WallsMatch(rows, cols, wallSeq, Progress(Id(cols, r, 0), Id(cols, r, 0), 0, 0))
      modifies this, pool
      ensures Lists(true) && WallsMatch(rows, cols, wallSeq, Progress(Id(cols, r, cols - 1), Id(cols, r, cols - 1), 0, 0))
      ensures coord == old(coord) && paths == old(paths) && pathNodes == old(pathNodes) && pathSeq == old(pathSeq)
      ensures start == old(start) && parent == old(parent) && depth == old(depth)
    {
      ghost var p := Progress(Id(cols, r, 0), Id(cols, r, 0), 0, 0);
      var c := 0;
      while c < cols - 1
        invariant 0 <= c <= cols - 1
        invariant Lists(true) && WallsMatch(rows, cols, wallSeq, p)
        invariant p == Progress(Id(cols, r, c), Id(cols, r, c), 0, 0)
        invariant coord == old(coord) && paths == old(paths) && pathNodes == old(pathNodes) && pathSeq == old(pathSeq)
        invariant start == old(start) && parent == old(parent) && depth == old(depth)
      {
        LinkDown(r, c);
        LinkRight(r, c);
        p := Progress(Id(cols, r, c) + 1, Id(cols, r, c) + 1, 0, 0);
        c := c + 1;
      }
    }

    /** One pass of the right-edge loop: cell (r, cols - 1) with the cell below it. */
    method LinkEdgeDown(r: nat, ghost last: int)
      requires r < rows - 1 && last == Id(cols, rows - 1, 0)
      requires Lists(true) && WallsMatch(rows, cols, wallSeq, Progress(last, last, r, 0))
      modifies this, pool
      ensures Lists(true) && WallsMatch(rows, cols, wallSeq, Progress(last, last, r + 1, 0))
      ensures coord == old(coord) && paths == old(paths) && pathNodes == old(pathNodes) && pathSeq == old(pathSeq)
      ensures start == old(start) && parent == old(parent) && depth == old(depth)
    {
      ghost var p := Progress(last, last, r, 0);
      var c := cols - 1;
      var current := Id(cols, r, c);
      var down := Id(cols, r + 1, c);
      IdInRange(rows, cols, r, c);
      IdInRange(rows, cols, r + 1, c);
      assert down == current + cols by { assert (r + 1) * cols == r * cols + cols; }
      EdgeDownStep(rows, cols, p, r);
      LinkPair(current, down, p, p.(edgeRows := r + 1));
    }

    /** The right-edge loop: each cell of the last column but the bottom one with the cell below it. */
    method LinkRightEdge()
      requires Lists(true) && WallsMatch(rows, cols, wallSeq, Progress(Id(cols, rows - 1, 0), Id(cols, rows - 1, 0), 0, 0))
      modifies this, pool
      ensures Lists(true) && WallsMatch(rows, cols, wallSeq, Progress(Id(cols, rows - 1, 0), Id(cols, rows - 1, 0), rows - 1, 0))
      ensures coord == old(coord) && paths == old(paths) && pathNodes == old(pathNodes) && pathSeq == old(pathSeq)
      ensures start == old(start) && parent == old(parent) && depth == old(depth)
    {
      ghost var last := Id(cols, rows - 1, 0);
      var r := 0;
      while r < rows - 1
        invariant 0 <= r <= rows - 1
        invariant Lists(true) && WallsMatch(rows, cols, wallSeq, Progress(last, last, r, 0))
        invariant coord == old(coord) && paths == old(paths) && pathNodes == old(pathNodes) && pathSeq == old(pathSeq)
        invariant start == old(start) && parent == old(parent) && depth == old(depth)
      {
        LinkEdgeDown(r, last);
        r := r + 1;
      }
    }

    /** The bottom-edge loop: each cell of the last row but the rightmost one with the cell right of it. */
    method LinkBottomEdge()
      requires Lists(true) && WallsMatch(rows, cols, wallSeq, Progress(Id(cols, rows - 1, 0), Id(cols, rows - 1, 0), rows - 1, 0))
      modifies this, pool
      ensures Lists(true) && WallsMatch(rows, cols, wallSeq, Finished(rows, cols))
      ensures coord == old(coord) && paths == old(paths) && pathNodes == old(pathNodes) && pathSeq == old(pathSeq)
      ensures start == old(start) && parent == old(parent) && depth == old(depth)
    {
      ghost var p := Progress(Id(cols, rows - 1, 0), Id(cols, rows - 1, 0), rows - 1, 0);
      var c := 0;
      while c < cols - 1
        invariant 0 <= c <= cols - 1
        invariant Lists(true) && WallsMatch(rows, cols, wallSeq, p)
        invariant p == Progress(Id(cols, rows - 1, 0), Id(cols, rows - 1, 0), rows - 1, c)
        invariant coord == old(coord) && paths == old(paths) && pathNodes == old(pathNodes) && pathSeq == old(pathSeq)
        invariant start == old(start) && parent == old(parent) && depth == old(depth)
      {
        var r := rows - 1;
        var current := Id(cols, r, c);
        var right := Id(cols, r, c + 1);
        IdInRange(rows, cols, r, c);
        IdInRange(rows, cols, r, c + 1);
        EdgeRightStep(rows, cols, p, c);
        LinkPair(current, right, p, p.(edgeCols := c + 1));
        p := p.(edgeCols := c + 1);
        c := c + 1;
      }
    }

    /** `shuffle` of cell x's walls, with the rest of the maze left alone. */
    method ShuffleCell(x: int, rng: Rng)
      requires Lists(false) == true && 0 <= x < rows * cols
      modifies this, pool, rng
      ensures Lists(false) == true
      ensures wallSeq == old(wallSeq)[x := Permute(old(wallSeq)[x], 0, rng.draw, old(rng.pos))]
      ensures rng.pos == old(rng.pos) + Draws(|old(wallSeq)[x]|)
      ensures coord == old(coord) && paths == old(paths) && pathNodes == old(pathNodes) && pathSeq == old(pathSeq)
      ensures start == old(start) && parent == old(parent) && depth == old(depth)
    {
      ghost var h := Heap();
      ghost var ns := wallNodes[x];
      ghost var pos0 := rng.pos;
      assert WallList(h, walls[x], ns, wallSeq[x], x, false);
      var l, ns' := Shuffle(pool, walls[x], wallNodes[x], rng);
      ghost var h' := Heap();
      ghost var cs' := Permute(wallSeq[x], 0, rng.draw, pos0);
      PermuteFacts(ns, pos0, rng.draw, ns', |pool.next|);
      PermuteCells(pool.cell, ns, 0, rng.draw, pos0);
      ReplaceOwnWallList(rows * cols, h, h', x, walls, wallNodes, wallSeq, paths, pathNodes, pathSeq, l, ns', cs',
                         walls[x := l], wallNodes[x := ns'], wallSeq[x := cs']);
      walls, wallNodes, wallSeq := walls[x := l], wallNodes[x := ns'], wallSeq[x := cs'];
    }

    /** One pass of the shuffle loop's outer loop: the walls of every cell of row r. */
    method ShuffleRow(r: nat, rng: Rng, ghost ws: seq<seq<int>>, ghost pos: nat)
      requires r < rows && Lists(false) == true && |ws| == rows * cols
      requires ShuffledUpTo(wallSeq, ws, Id(cols, r, 0), rng.draw, pos)
      requires rng.pos == pos + TotalDraws(ws[..Id(cols, r, 0)])
      modifies this, pool, rng
      ensures Id(cols, r, 0) + cols <= rows * cols
      ensures Lists(false) == true
      ensures ShuffledUpTo(wallSeq, ws, Id(cols, r, 0) + cols, rng.draw, pos)
      ensures rng.pos == pos + TotalDraws(ws[..Id(cols, r, 0) + cols])
      ensures coord == old(coord) && paths == old(paths) && pathNodes == old(pathNodes) && pathSeq == old(pathSeq)
      ensures start == old(start) && parent == old(parent) && depth == old(depth)
    {
      ghost var x0 := Id(cols, r, 0);
      IdInRange(rows, cols, r, cols - 1);
      var c := 0;
      while c < cols
        invariant 0 <= c <= cols
        invariant Lists(false) == true
        invariant ShuffledUpTo(wallSeq, ws, x0 + c, rng.draw, pos)
        invariant rng.pos == pos + TotalDraws(ws[..x0 + c])
        invariant coord == old(coord) && paths == old(paths) && pathNodes == old(pathNodes) && pathSeq == old(pathSeq)
        invariant start == old(start) && parent == old(parent) && depth == old(depth)
      {
        var x := Id(cols, r, c);
        assert x == x0 + c;
        ShuffleOneMore(wallSeq, ws, x, rng.draw, pos, rng.pos);
        ShuffleCell(x, rng);
        c := c + 1;
      }
    }

    /** The shuffle loop of gen_maze: every cell's walls, row by row, each taking its draws after the previous. */
    method ShuffleWalls(rng: Rng)
      requires Lists(false)
      modifies this, pool, rng
      ensures Lists(false) == true
      ensures wallSeq == ShuffleAll(old(wallSeq), rng.draw, old(rng.pos))
      ensures rng.pos == old(rng.pos) + TotalDraws(old(wallSeq))
      ensures coord == old(coord) && paths == old(paths) && pathNodes == old(pathNodes) && pathSeq == old(pathSeq)
      ensures start == old(start) && parent == old(parent) && depth == old(depth)
    {
      ghost var ws := wallSeq;
      ghost var pos := rng.pos;
      ShuffledEnds(ws, rng.draw, pos);
      var r := 0;
      ghost var x := 0;
      while r < rows
        invariant 0 <= r <= rows && x == Id(cols, r, 0)
        invariant Lists(false) == true
        invariant ShuffledUpTo(wallSeq, ws, x, rng.draw, pos)
        invariant rng.pos == pos + TotalDraws(ws[..x])
        invariant coord == old(coord) && paths == old(paths) && pathNodes == old(pathNodes) && pathSeq == old(pathSeq)
        invariant start == old(start) && parent == old(parent) && depth == old(depth)
      {
        ShuffleRow(r, rng, ws, pos);
        assert Id(cols, r + 1, 0) == x + cols by { assert (r + 1) * cols == r * cols + cols; }
        x := x + cols;
        r := r + 1;
      }
      assert x == |ws|;
    }

    // ------------------------------------------------------------ the carve's list surgery

    /** `list_remove(&node->walls, wall)` on cell x's walls, wall being its node i. The node stays x's but leaves the list. */
    method RemoveWallAt(x: int, wall: int, ghost i: nat)
      requires Lists(false) == true && 0 <= x < rows * cols && i < |wallNodes[x]| == |wallSeq[x]| && wallNodes[x][i] == wall
      modifies this, pool
      ensures Lists(false) == true && owner == old(owner) && pool.cell == old(pool.cell)
      ensures wallSeq == old(wallSeq)[x := old(wallSeq)[x][..i] + old(wallSeq)[x][i + 1..]]
      ensures 0 <= wall < |owner| && owner[wall] == x && wall !in wallNodes[x]
      ensures pool.cell[wall] == old(wallSeq)[x][i]
      ensures paths == old(paths) && pathNodes == old(pathNodes) && pathSeq == old(pathSeq)
      ensures coord == old(coord) && start == old(start) && parent == old(parent) && depth == old(depth)
    {
      ghost var h := Heap();
      ghost var ns := wallNodes[x];
      assert WallList(h, walls[x], ns, wallSeq[x], x, false);
      var l, ns' := Unlink(pool, walls[x], wallNodes[x], wall, i);
      ghost var cs' := wallSeq[x][..i] + wallSeq[x][i + 1..];
      ReplaceOwnWallList(rows * cols, h, Heap(), x, walls, wallNodes, wallSeq, paths, pathNodes, pathSeq, l, ns', cs',
                         walls[x := l], wallNodes[x := ns'], wallSeq[x := cs']);
      walls, wallNodes, wallSeq := walls[x := l], wallNodes[x := ns'], wallSeq[x := cs'];
    }

    /** `list_remove_data(&y->walls, c)`: the first of y's walls naming c, if any, leaves the list. */
    method RemoveWallData(y: int, c: int)
      requires Lists(false) == true && 0 <= y < rows * cols
      modifies this, pool
      ensures Lists(false) == true && owner == old(owner) && pool.cell == old(pool.cell)
      ensures wallSeq == old(wallSeq)[y := RemoveFirst(old(wallSeq)[y], c)]
      ensures wallNodes == old(wallNodes)[y := wallNodes[y]]
      ensures paths == old(paths) && pathNodes == old(pathNodes) && pathSeq == old(pathSeq)
      ensures coord == old(coord) && start == old(start) && parent == old(parent) && depth == old(depth)
    {
      ghost var h := Heap();
      assert WallList(h, walls[y], wallNodes[y], wallSeq[y], y, false);
      var l, ns' := UnlinkData(pool, walls[y], wallNodes[y], c);
      ghost var cs' := RemoveFirst(wallSeq[y], c);
      ghost var h' := Heap();
      ReplaceOwnWallList(rows * cols, h, h', y, walls, wallNodes, wallSeq, paths, pathNodes, pathSeq, l, ns', cs',
                         walls[y := l], wallNodes[y := ns'], wallSeq[y := cs']);
      walls, wallNodes, wallSeq := walls[y := l], wallNodes[y := ns'], wallSeq[y := cs'];
      assert Heap() == h';
    }

    /**
     * The prepend of dfs.c: the node `wall`, just unlinked from cell x's
     * walls, becomes the first node of x's paths. Its `prev` is left as it
     * was; `end` is set only when the paths list was empty.
     */
    method PrependPath(x: int, wall: int)
      requires Lists(false) && 0 <= x < rows * cols
      requires 0 <= wall < |owner| && owner[wall] == x && wall !in wallNodes[x]
      modifies this, pool
      ensures Lists(false) && pool.cell == old(pool.cell)
      ensures pathSeq == old(pathSeq)[x := [pool.cell[wall]] + old(pathSeq)[x]]
      ensures walls == old(walls) && wallNodes == old(wallNodes) && wallSeq == old(wallSeq)
      ensures coord == old(coord) && start == old(start) && parent == old(parent) && depth == old(depth)
    {
      ghost var h := Heap();
      ghost var n := rows * cols;
      ghost var ns := pathNodes[x];
      ghost var cs' := [pool.cell[wall]] + pathSeq[x];
      var l := paths[x];
      pool.next := pool.next[wall := l.start];
      l := l.(start := wall);
      if l.end == NIL {
        l := l.(end := wall);
      }
      owner := owner[wall := n + x];
      PrependKeepsLists(n, h, Heap(), wall, x, walls, wallNodes, wallSeq, paths, pathNodes, pathSeq,
                        l, paths[x := l], pathNodes[x := [wall] + ns], pathSeq[x := cs']);
      paths, pathNodes, pathSeq := paths[x := l], pathNodes[x := [wall] + ns], pathSeq[x := cs'];
    }

    // ---------------------------------------------------------------- the carve

    /** The carve's state as DfsSpec describes it. */
    ghost function State(stack: Stack.Stack<int>, visited: OrderedSet.Tree<int>): CarveState
      reads this, stack, visited
    {
      CarveState(wallSeq, pathSeq, visited.Elems(), stack.Contents(), parent, depth)
    }

    /**
     * The scan of the carve loop: x's walls in list order, stopping at the
     * first whose cell is not visited yet (its index i is ghost), or NIL
     * when every wall of x leads to a visited cell.
     */
    method FirstUnvisited(x: int, visited: OrderedSet.Tree<int>) returns (wall: int, ghost i: nat)
      requires Lists(false) && 0 <= x < rows * cols && visited.Valid()
      ensures i == FirstOutside(wallSeq[x], visited.Elems()) && |wallNodes[x]| == |wallSeq[x]|
      ensures wall == NIL <==> FirstOutside(wallSeq[x], visited.Elems()) == |wallSeq[x]|
      ensures wall != NIL ==> wallNodes[x][FirstOutside(wallSeq[x], visited.Elems())] == wall
    {
      ghost var ns := wallNodes[x];
      ghost var cs := wallSeq[x];
      assert WallList(Heap(), walls[x], ns, cs, x, false);
      wall := walls[x].start;
      i := 0;
      while wall != NIL
        invariant i <= |ns| && wall == if i < |ns| then ns[i] else NIL
        invariant forall k :: 0 <= k < i ==> cs[k] in visited.Elems()
        decreases |ns| - i
      {
        var next := pool.next[wall];
        var seen := visited.Contains(pool.cell[wall]);
        if seen == 0 {
          FirstOutsideAt(cs, visited.Elems(), i);
          return;
        }
        wall := next;
        i := i + 1;
      }
      FirstOutsideAt(cs, visited.Elems(), i);
    }

    /**
     * The list work of one carve from x through its wall node `wall`
     * (index i): the node leaves x's walls, the first node of y's walls
     * naming x leaves them, where y is the wall's cell, and the node becomes
     * the head of x's paths.
     */
    method MoveWall(x: int, wall: int, ghost i: nat) returns (y: int)
      requires Lists(false) && 0 <= x < rows * cols
      requires i < |wallNodes[x]| == |wallSeq[x]| && wallNodes[x][i] == wall
      requires 0 <= wallSeq[x][i] < rows * cols && wallSeq[x][i] != x
      modifies this, pool
      ensures Lists(false) && y == old(wallSeq)[x][i]
      ensures wallSeq == old(wallSeq)[x := old(wallSeq)[x][..i] + old(wallSeq)[x][i + 1..]][y := RemoveFirst(old(wallSeq)[y], x)]
      ensures pathSeq == old(pathSeq)[x := [y] + old(pathSeq)[x]]
      ensures coord == old(coord) && start == old(start) && parent == old(parent) && depth == old(depth)
    {
      ghost var ws := wallSeq;
      RemoveWallAt(x, wall, i);
      y := pool.cell[wall];
      assert wallSeq[y] == ws[y];
      RemoveWallData(y, x);
      PrependPath(x, wall);
    }

    /**
     * One carve from x, just popped, to the unvisited cell y behind its
     * wall node `wall`: the lists change as MoveWall says, x goes back on
     * the stack, and y is visited and pushed. (dfs.c pushes x before the
     * list work; the stack and the lists share nothing, so the order is
     * immaterial.)
     */
    method CarveWall(x: int, wall: int, ghost i: nat, stack: Stack.Stack<int>, visited: OrderedSet.Tree<int>, ghost s: CarveState)
      requires Lists(false) && stack.Valid() && visited.Valid()
      requires 0 <= x < rows * cols && x in visited.Elems() && |parent| == rows * cols && |depth| == rows * cols
      requires i < |wallNodes[x]| == |wallSeq[x]| && wallNodes[x][i] == wall
      requires 0 <= wallSeq[x][i] < rows * cols && wallSeq[x][i] !in visited.Elems()
      requires s.ws == wallSeq && s.ps == pathSeq && s.visited == visited.Elems() && s.stack == [x] + stack.Contents()
      requires s.parent == parent && s.depth == depth
      modifies this, pool, stack, visited
      ensures Lists(false) && stack.Valid() && visited.Valid()
      ensures State(stack, visited) == Dig(s, x, i, old(stack.Contents()))
      ensures coord == old(coord) && start == old(start)
    {
      ghost var rest := stack.Contents();
      var y := MoveWall(x, wall, i);
      Descend(x, y, stack, visited);
      DigFields(s, x, i, rest, y, wallSeq, pathSeq, visited.Elems(), stack.Contents(), parent, depth);
    }

    /** The stack and tree work of a carve from x to y: x and then y are pushed, y is visited and hangs from x, one step deeper. */
    method Descend(x: int, y: int, stack: Stack.Stack<int>, visited: OrderedSet.Tree<int>)
      requires stack.Valid() && visited.Valid() && |parent| == |depth| && 0 <= x < |parent| && 0 <= y < |parent|
      modifies this`parent, this`depth, stack, visited
      ensures stack.Valid() && visited.Valid()
      ensures visited.Elems() == old(visited.Elems()) + {y} && stack.Contents() == [y] + ([x] + old(stack.Contents()))
      ensures parent == old(parent)[y := x] && depth == old(depth)[y := old(depth)[x] + 1]
    {
      stack.Push(x);
      visited.Add(y);
      stack.Push(y);
      parent := parent[y := x];
      depth := depth[y := depth[x] + 1];
    }

    /**
     * The set-up of the carve: a start cell drawn row first, pushed on a
     * new stack and added to a new visited tree. (dfs.c allocates both
     * before the draw and adds to the tree before pushing; they share
     * nothing, so the order is immaterial.)
     */
    method CarveStart(rng: Rng) returns (stack: Stack.Stack<int>, visited: OrderedSet.Tree<int>)
      requires rows > 0 && cols > 0 && pathSeq == seq(rows * cols, _ => [])
      modifies this`start, this`parent, this`depth, rng
      ensures fresh(stack) && fresh(visited) && stack.Valid() && visited.Valid()
      ensures start == Id(cols, rng.draw(old(rng.pos)) % rows, rng.draw(old(rng.pos) + 1) % cols)
      ensures rng.pos == old(rng.pos) + 2
      ensures 0 <= start < rows * cols && State(stack, visited) == Begin(rows * cols, start, wallSeq)
    {
      var n := rows * cols;
      var r1 := rng.Next();
      var r2 := rng.Next();
      var node := Id(cols, r1 % rows, r2 % cols);
      IdInRange(rows, cols, r1 % rows, r2 % cols);
      start, parent, depth := node, seq(n, _ => 0), seq(n, _ => 0);
      stack := new Stack.Stack<int>();
      stack.Push(node);
      OrderedSet.BasicCompareLaws(0, 0);
      visited := new OrderedSet.Tree<int>(OrderedSet.BasicCompare);
      visited.Add(node);
    }

    /** The maze's lists, the stack and the visited tree are well formed, and together they hold the ghost state st. */
    ghost predicate Carving(stack: Stack.Stack<int>, visited: OrderedSet.Tree<int>, st: CarveState)
      reads this, pool, stack, visited
    {
      Lists(false) && stack.Valid() && visited.Valid() && st == State(stack, visited)
    }

    /** CarveStep on the ghost state the loop carries: a Carving with st becomes a Carving with Step(st). */
    method Advance(stack: Stack.Stack<int>, visited: OrderedSet.Tree<int>, ghost st: CarveState) returns (ghost st': CarveState)
      requires Carving(stack, visited, st) == true && Ready(st)
      modifies this, pool, stack, visited
      ensures st' == Step(st) && Carving(stack, visited, st') == true
      ensures coord == old(coord) && start == old(start)
    {
      CarveStep(stack, visited);
      st' := Step(st);
    }

    /**
     * One pass of the carve loop: pop a cell, and carve to its first
     * unvisited neighbour if it has one; the new state is Step of the old.
     */
    method CarveStep(stack: Stack.Stack<int>, visited: OrderedSet.Tree<int>)
      requires Lists(false) && stack.Valid() && visited.Valid() && Ready(State(stack, visited))
      modifies this, pool, stack, visited
      ensures Lists(false) && stack.Valid() && visited.Valid()
      ensures State(stack, visited) == Step(old(State(stack, visited)))
      ensures coord == old(coord) && start == old(start)
    {
      ghost var s := State(stack, visited);
      var popped := stack.Pop();
      var x := popped.value;
      assert x == s.stack[0] && stack.Contents() == s.stack[1..];
      assert s.stack == [x] + stack.Contents();
      var wall, i := FirstUnvisited(x, visited);
      if wall != NIL {
        StepDigs(s, i);
        CarveWall(x, wall, i, stack, visited, s);
      } else {
        StepRetreats(s);
      }
    }

    /**
     * The carve of gen_maze: the set-up, then the loop that runs while the
     * stack is not empty. The paths then form a spanning tree of the grid
     * rooted at the start, and a wall stands between every pair of
     * neighbours no path joins.
     */
    method Carve(rng: Rng)
      requires Lists(false) && InCells(wallSeq, rows * cols)
      requires forall x, y :: 0 <= x < rows * cols && 0 <= y < rows * cols ==>
                 Count(wallSeq, x, y) == if Adjacent(rows * cols, cols, x, y) then 1 else 0
      requires forall x :: 0 <= x < rows * cols ==> pathSeq[x] == []
      modifies this, pool, rng
      ensures Lists(false)
      ensures start == Id(cols, rng.draw(old(rng.pos)) % rows, rng.draw(old(rng.pos) + 1) % cols)
      ensures rng.pos == old(rng.pos) + 2
      ensures SpanningTree(rows * cols, cols, start, pathSeq, parent, depth)
      ensures WallsAreUncarved(rows * cols, cols, wallSeq, pathSeq)
      ensures coord == old(coord)
    {
      assert pathSeq == seq(rows * cols, _ => []);
      var stack, visited := CarveStart(rng);
      ghost var n, ws := rows * cols, wallSeq;
      ghost var st := State(stack, visited);
      assert AllWalls(n, cols, ws);
      assert st == Run(Begin(n, start, ws), 0);
      st := CarveLoop(stack, visited, ws, st);
      ReachableDone(n, cols, start, ws, st);
    }

    /**
     * The loop of the carve: while the stack is not empty, one pass of
     * the loop body. The state stays one the loop reaches from the start, and
     * the loop ends with the stack empty.
     */
    method CarveLoop(stack: Stack.Stack<int>, visited: OrderedSet.Tree<int>, ghost ws: seq<seq<int>>, ghost st: CarveState)
        returns (ghost last: CarveState)
      requires Carving(stack, visited, st) && 0 <= start < rows * cols && AllWalls(rows * cols, cols, ws)
      requires Reachable(rows * cols, start, ws, st)
      modifies this, pool, stack, visited
      ensures Carving(stack, visited, last) == true && Reachable(rows * cols, start, ws, last) == true && last.stack == []
      ensures coord == old(coord) && start == old(start)
    {
      ghost var n := rows * cols;
      last := st;
      var more := stack.Peek();
      while more != 0
        invariant Carving(stack, visited, last) == true && Reachable(n, start, ws, last) == true
        invariant more != 0 <==> last.stack != []
        invariant coord == old(coord) && start == old(start)
        decreases Unvisited(n, last), |last.stack|
      {
        ReachableStep(n, cols, start, ws, last);
        last := Advance(stack, visited, last);
        more := stack.Peek();
      }
    }
  }

  /**
   * gen_maze: a fresh rows by cols maze whose cells are placed by relocate,
   * with every pair of neighbours linked, every wall list shuffled and the
   * paths carved by the depth-first search.
   */
  method GenMaze(rows: nat, cols: nat, relocate: Coord -> Coord, rng: Rng) returns (m: Maze)
    requires rows > 0 && cols > 0
    modifies rng
    ensures fresh(m) && m.rows == rows && m.cols == cols && m.Lists(false) && |m.coord| == rows * cols
    ensures forall k :: 0 <= k < rows * cols ==> m.coord[k] == relocate(Coord(k / cols, k % cols))
    ensures SpanningTree(rows * cols, cols, m.start, m.pathSeq, m.parent, m.depth)
    ensures WallsAreUncarved(rows * cols, cols, m.wallSeq, m.pathSeq)
  {
    m := new Maze(rows, cols, relocate);
    m.LinkNeighbours();
    m.ExactIsLoose();
    ghost var linked := m.wallSeq;
    m.ShuffleWalls(rng);
    ShuffleAllCounts(linked, rng.draw, old(rng.pos), rows * cols);
    m.Carve(rng);
  }
}
