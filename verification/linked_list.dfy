/**
 * The doubly-linked list of linked_list.c. Every `struct list_node` lives in
 * one pool, the class NodePool, and is named by its index there: `cell[n]`,
 * `prev[n]` and `next[n]` are the fields of node n, and NIL plays NULL. A
 * `struct linked_list` header is the value List(start, end); the operations
 * that C performs through a pointer to the header take the header and hand
 * back its new value.
 *
 * Which nodes a list holds, and in what order, is the ghost sequence of node
 * indices met when following `next` from `start`.
 */
module LinkedList {

  /** The NULL pointer. */
  const NIL: int := -1

  /** `struct linked_list`: the first and the last node, or NIL. */
  datatype List = List(start: int, end: int)

  /** The header of a freshly filled cell: both pointers NULL. */
  const Empty: List := List(NIL, NIL)

  predicate Distinct(ns: seq<int>)
  {
    forall i, j :: 0 <= i < j < |ns| ==> ns[i] != ns[j]
  }

  function First(ns: seq<int>): int
  {
    if ns == [] then NIL else ns[0]
  }

  function Last(ns: seq<int>): int
  {
    if ns == [] then NIL else ns[|ns| - 1]
  }

  /** Every node of ns is one of the first n nodes of the pool. */
  predicate InPool(ns: seq<int>, n: int)
  {
    forall k :: 0 <= k < |ns| ==> 0 <= ns[k] < n
  }

  /** Following `next` from start visits the nodes ns, each once, and then NULL. */
  ghost predicate Forward(next: seq<int>, start: int, ns: seq<int>)
  {
    && InPool(ns, |next|)
    && Distinct(ns)
    && start == First(ns)
    && (forall k :: 0 <= k < |ns| - 1 ==> next[ns[k]] == ns[k + 1])
    && (ns != [] ==> next[Last(ns)] == NIL)
  }

  /** The `prev` pointers of ns lead back: NULL at the first node, the predecessor elsewhere. */
  ghost predicate Backward(prev: seq<int>, ns: seq<int>)
  {
    && InPool(ns, |prev|)
    && (ns != [] ==> prev[ns[0]] == NIL)
    && (forall k :: 0 < k < |ns| ==> prev[ns[k]] == ns[k - 1])
  }

  /** A well-formed doubly-linked list from start, whatever its header's end says. */
  ghost predicate Doubly(next: seq<int>, prev: seq<int>, start: int, ns: seq<int>)
  {
    Forward(next, start, ns) && Backward(prev, ns)
  }

  /** A well-formed list whose header names its first and its last node. */
  ghost predicate Exact(next: seq<int>, prev: seq<int>, l: List, ns: seq<int>)
  {
    Doubly(next, prev, l.start, ns) && l.end == Last(ns)
  }

  /**
   * A well-formed list whose `end` is NULL or one of its nodes. This is what
   * stays true of a list after dfs.c's shuffle, which never updates `end`.
   */
  ghost predicate Loose(next: seq<int>, prev: seq<int>, l: List, ns: seq<int>)
  {
    Doubly(next, prev, l.start, ns) && (l.end == NIL || l.end in ns)
  }

  /** The cells held by the nodes ns, in order. */
  ghost function CellsOf(cell: seq<int>, ns: seq<int>): (cs: seq<int>)
    requires InPool(ns, |cell|)
    ensures |cs| == |ns|
    ensures forall k :: 0 <= k < |ns| ==> cs[k] == cell[ns[k]]
  {
    seq(|ns|, k requires 0 <= k < |ns| => cell[ns[k]])
  }

  /** b agrees with a at every index that is not a node of ns; b may be longer. */
  ghost predicate AgreeOutside(a: seq<int>, b: seq<int>, ns: seq<int>)
  {
    |a| <= |b| && forall n :: 0 <= n < |a| && n !in ns ==> b[n] == a[n]
  }

  /** Where the first x sits in s, or |s| when there is none. */
  function FirstIndex(s: seq<int>, x: int): (k: nat)
    ensures k <= |s|
    ensures k < |s| ==> s[k] == x
    ensures x !in s[..k]
    ensures x in s <==> k < |s|
  {
    if s == [] then 0
    else if s[0] == x then 0
    else
      assert s[1..][..FirstIndex(s[1..], x)] == s[1..FirstIndex(s[1..], x) + 1];
      1 + FirstIndex(s[1..], x)
  }

  /** s without its first x (RemoveFirstMultiset, RemoveFirstAt). */
  function RemoveFirst(s: seq<int>, x: int): seq<int>
  {
    if s == [] then []
    else if s[0] == x then s[1..]
    else [s[0]] + RemoveFirst(s[1..], x)
  }

  /** Removing the first x takes one x out of the elements, and leaves s as it is when x does not occur. */
  lemma {:induction false} RemoveFirstMultiset(s: seq<int>, x: int)
    ensures multiset(RemoveFirst(s, x)) == multiset(s) - multiset{x}
    ensures x !in s ==> RemoveFirst(s, x) == s
  {
    if s != [] {
      assert s == [s[0]] + s[1..];
      if s[0] != x {
        RemoveFirstMultiset(s[1..], x);
      }
    }
  }

  /** Removing the first x is cutting s at FirstIndex. */
  lemma {:induction false} RemoveFirstAt(s: seq<int>, x: int)
    requires x in s
    ensures RemoveFirst(s, x) == s[..FirstIndex(s, x)] + s[FirstIndex(s, x) + 1..]
  {
    if s[0] != x {
      var t := s[1..];
      assert s == [s[0]] + t;
      assert x in t;
      RemoveFirstAt(t, x);
      var k := FirstIndex(t, x);
      assert FirstIndex(s, x) == k + 1;
      assert RemoveFirst(s, x) == [s[0]] + (t[..k] + t[k + 1..]);
      ConsCut(s, k);
    }
  }

  /** Cutting position k out of the tail of s and putting the head back is cutting position k + 1 out of s. */
  lemma ConsCut(s: seq<int>, k: nat)
    requires k + 1 < |s|
    ensures [s[0]] + (s[1..][..k] + s[1..][k + 1..]) == s[..k + 1] + s[k + 2..]
  {
    assert s[..k + 1] == [s[0]] + s[1..][..k];
    assert s[k + 2..] == s[1..][k + 1..];
  }

  /** Cutting a node out of ns cuts its cell out of the contents. */
  lemma CellsOfCut(cell: seq<int>, ns: seq<int>, k: nat)
    requires InPool(ns, |cell|) && k < |ns|
    ensures InPool(ns[..k] + ns[k + 1..], |cell|)
    ensures CellsOf(cell, ns[..k] + ns[k + 1..]) == CellsOf(cell, ns)[..k] + CellsOf(cell, ns)[k + 1..]
  {
  }

  /** Past its first node, a forward chain continues from that node's `next`. */
  lemma ForwardTail(next: seq<int>, start: int, ns: seq<int>)
    requires Forward(next, start, ns) && ns != []
    ensures Forward(next, next[start], ns[1..])
  {
  }

  /** The nodes met from a start pointer are determined by it: one list, one contents. */
  lemma {:induction false} ForwardDetermined(next: seq<int>, start: int, ns: seq<int>, ms: seq<int>)
    requires Forward(next, start, ns) && Forward(next, start, ms)
    ensures ns == ms
    decreases |ns|
  {
    if ns != [] && ms != [] {
      ForwardTail(next, start, ns);
      ForwardTail(next, start, ms);
      ForwardDetermined(next, next[start], ns[1..], ms[1..]);
      assert ns == [ns[0]] + ns[1..];
      assert ms == [ms[0]] + ms[1..];
    }
  }

  /** Writes that miss every node of ns, and nodes added to the pool, leave its chain alone. */
  lemma DoublyFrame(next: seq<int>, prev: seq<int>, next': seq<int>, prev': seq<int>, start: int, ns: seq<int>)
    requires Doubly(next, prev, start, ns)
    requires |next| <= |next'| && |prev| <= |prev'|
    requires forall k :: 0 <= k < |ns| ==> next'[ns[k]] == next[ns[k]] && prev'[ns[k]] == prev[ns[k]]
    ensures Doubly(next', prev', start, ns)
  {
  }

  /** The pool of all `struct list_node`s. */
  class NodePool {
    var cell: seq<int>
    var prev: seq<int>
    var next: seq<int>

    ghost predicate Valid()
      reads this
    {
      |cell| == |prev| == |next|
    }

    constructor ()
      ensures Valid() && cell == [] && prev == [] && next == []
    {
      cell, prev, next := [], [], [];
    }

    /**
     * list_push: a new node holding c goes after the last one. The list's
     * contents become the old ones followed by c; `start` moves only when
     * the list was empty.
     */
    method Push(l: List, ghost ns: seq<int>, c: int) returns (l': List, ghost ns': seq<int>)
      requires Valid() && Exact(next, prev, l, ns)
      modifies this
      ensures Valid()
      ensures var n := |old(cell)|;
        && cell == old(cell) + [c]
        && prev == old(prev) + [l.end]
        && next == (if l.end == NIL then old(next) else old(next)[l.end := n]) + [NIL]
        && ns' == ns + [n]
        && l' == List(if l.start == NIL then n else l.start, n)
      ensures Exact(next, prev, l', ns')
      ensures CellsOf(cell, ns') == CellsOf(old(cell), ns) + [c]
      ensures AgreeOutside(old(next), next, ns) && AgreeOutside(old(prev), prev, ns)
      ensures ns == [] ==> l'.start == l'.end == |old(cell)| && prev[l'.start] == next[l'.start] == NIL
    {
      var n := |cell|;
      cell := cell + [c];
      next := next + [NIL];
      prev := prev + [l.end];
      if l.end != NIL {
        next := next[l.end := n];
      }
      l' := l;
      if l.start == NIL {
        l' := l'.(start := n);
      }
      l' := l'.(end := n);
      ns' := ns + [n];
      AppendKeepsChain(old(next), old(prev), l, ns, next, prev);
      assert CellsOf(cell, ns') == CellsOf(old(cell), ns) + [c];
    }

    /**
     * list_remove: unlink `node`, the k-th node of the list. Its neighbours
     * are joined, `start` and `end` move only when they named `node`, and the
     * node keeps its own `prev` and `next` (dfs.c reuses it).
     */
    method Remove(l: List, ghost ns: seq<int>, node: int, ghost k: nat) returns (l': List, ghost ns': seq<int>)
      requires Valid() && Loose(next, prev, l, ns)
      requires k < |ns| && ns[k] == node
      modifies this
      ensures Valid() && cell == old(cell)
      ensures old(prev)[node] == if k == 0 then NIL else ns[k - 1]
      ensures old(next)[node] == if k == |ns| - 1 then NIL else ns[k + 1]
      ensures next == (if old(prev)[node] == NIL then old(next) else old(next)[old(prev)[node] := old(next)[node]])
      ensures prev == (if old(next)[node] == NIL then old(prev) else old(prev)[old(next)[node] := old(prev)[node]])
      ensures l' == List(if l.start == node then old(next)[node] else l.start,
                         if l.end == node then old(prev)[node] else l.end)
      ensures ns' == ns[..k] + ns[k + 1..]
      ensures Loose(next, prev, l', ns')
      ensures Exact(old(next), old(prev), l, ns) ==> Exact(next, prev, l', ns')
      ensures next[node] == old(next)[node] && prev[node] == old(prev)[node]
      ensures CellsOf(cell, ns') == CellsOf(cell, ns)[..k] + CellsOf(cell, ns)[k + 1..]
      ensures AgreeOutside(old(next), next, ns) && AgreeOutside(old(prev), prev, ns)
    {
      ghost var next0, prev0 := next, prev;
      Neighbours(next, prev, l.start, ns, k);
      l' := l;
      if l.start == node {
        l' := l'.(start := next[node]);
      }
      if l.end == node {
        l' := l'.(end := prev[node]);
      }
      var p, q := prev[node], next[node];
      if p != NIL {
        next := next[p := q];
      }
      if q != NIL {
        prev := prev[q := p];
      }
      ns' := ns[..k] + ns[k + 1..];
      RemoveKeepsChain(next0, prev0, l, ns, k, next, prev, l');
      CellsOfCut(cell, ns, k);
    }

    /**
     * list_remove_data: unlink the first node holding c, if there is one;
     * otherwise change nothing. The node is dropped from the list (C frees it).
     */
    method RemoveData(l: List, ghost ns: seq<int>, c: int) returns (l': List, ghost ns': seq<int>)
      requires Valid() && Loose(next, prev, l, ns)
      modifies this
      ensures Valid() && cell == old(cell)
      ensures Loose(next, prev, l', ns')
      ensures Exact(old(next), old(prev), l, ns) ==> Exact(next, prev, l', ns')
      ensures c !in CellsOf(cell, ns) ==> l' == l && ns' == ns && next == old(next) && prev == old(prev)
      ensures c in CellsOf(cell, ns) ==>
        var k := FirstIndex(CellsOf(cell, ns), c);
        && k < |ns| && ns' == ns[..k] + ns[k + 1..]
        && l' == List(if l.start == ns[k] then old(next)[ns[k]] else l.start,
                      if l.end == ns[k] then old(prev)[ns[k]] else l.end)
      ensures CellsOf(cell, ns') == RemoveFirst(CellsOf(cell, ns), c)
      ensures AgreeOutside(old(next), next, ns) && AgreeOutside(old(prev), prev, ns)
    {
      var node;
      ghost var i;
      node, i := Find(l, ns, c);
      if node != NIL {
        l', ns' := RemoveFound(l, ns, c, node, i);
      } else {
        RemoveFirstMultiset(CellsOf(cell, ns), c);
        l', ns' := l, ns;
      }
    }

    /** The unlink of list_remove_data once the scan has found `node`, the first node holding c. */
    method RemoveFound(l: List, ghost ns: seq<int>, c: int, node: int, ghost i: nat) returns (l': List, ghost ns': seq<int>)
      requires Valid() && Loose(next, prev, l, ns)
      requires i < |ns| && ns[i] == node && i == FirstIndex(CellsOf(cell, ns), c)
      modifies this
      ensures Valid() && cell == old(cell)
      ensures Loose(next, prev, l', ns')
      ensures Exact(old(next), old(prev), l, ns) ==> Exact(next, prev, l', ns')
      ensures ns' == ns[..i] + ns[i + 1..]
      ensures l' == List(if l.start == node then old(next)[node] else l.start,
                         if l.end == node then old(prev)[node] else l.end)
      ensures CellsOf(cell, ns') == RemoveFirst(CellsOf(cell, ns), c)
      ensures AgreeOutside(old(next), next, ns) && AgreeOutside(old(prev), prev, ns)
    {
      ghost var cs := CellsOf(cell, ns);
      RemoveFirstAt(cs, c);
      l', ns' := Remove(l, ns, node, i);
      assert CellsOf(cell, ns') == RemoveFirst(cs, c);
    }

    /** The search loop of list_remove_data: the first node of the list holding c, or NULL when none does. */
    method Find(l: List, ghost ns: seq<int>, c: int) returns (node: int, ghost i: nat)
      requires Valid() && Loose(next, prev, l, ns)
      ensures node == NIL <==> c !in CellsOf(cell, ns)
      ensures node != NIL ==> i == FirstIndex(CellsOf(cell, ns), c) && i < |ns| && ns[i] == node
    {
      ghost var cs := CellsOf(cell, ns);
      node := l.start;
      i := 0;
      while node != NIL
        invariant 0 <= i <= |ns|
        invariant node == if i < |ns| then ns[i] else NIL
        invariant c !in cs[..i]
        decreases |ns| - i
      {
        Neighbours(next, prev, l.start, ns, i);
        if cell[node] == c {
          FirstIndexIs(cs, c, i);
          return;
        }
        assert cs[..i + 1] == cs[..i] + [cs[i]];
        node := next[node];
        i := i + 1;
      }
      assert cs[..i] == cs;
    }
  }

  /** A node added to the pool and linked after the last one extends a well-formed list. */
  lemma AppendKeepsChain(next: seq<int>, prev: seq<int>, l: List, ns: seq<int>, next': seq<int>, prev': seq<int>)
    requires Exact(next, prev, l, ns) && |next| == |prev|
    requires prev' == prev + [l.end]
    requires next' == (if l.end == NIL then next else next[l.end := |next|]) + [NIL]
    ensures Exact(next', prev', List(if l.start == NIL then |next| else l.start, |next|), ns + [|next|])
  {
    var n := |next|;
    var ms := ns + [n];
    assert n !in ns;
    forall k | 0 <= k < |ms| - 1
      ensures next'[ms[k]] == ms[k + 1]
    {
      if k < |ns| - 1 {
        assert ms[k] == ns[k] != Last(ns);
      }
    }
    forall k | 0 < k < |ms|
      ensures prev'[ms[k]] == ms[k - 1]
    {
    }
  }

  /** The first x of s is at k when s[k] is x and no x comes before it. */
  lemma FirstIndexIs(s: seq<int>, x: int, k: nat)
    requires k < |s| && s[k] == x && x !in s[..k]
    ensures FirstIndex(s, x) == k
  {
  }

  /** The neighbours of the k-th node of a well-formed list. */
  lemma Neighbours(next: seq<int>, prev: seq<int>, start: int, ns: seq<int>, k: nat)
    requires Doubly(next, prev, start, ns) && k < |ns|
    ensures prev[ns[k]] == if k == 0 then NIL else ns[k - 1]
    ensures next[ns[k]] == if k == |ns| - 1 then NIL else ns[k + 1]
    ensures k > 0 ==> 0 <= ns[k - 1] < |next| && 0 <= ns[k - 1] < |prev|
    ensures k < |ns| - 1 ==> 0 <= ns[k + 1] < |next| && 0 <= ns[k + 1] < |prev|
  {
  }

  /** Cutting the k-th entry out of a sequence without repeats. */
  lemma CutDistinct(ns: seq<int>, k: nat, ms: seq<int>)
    requires Distinct(ns) && k < |ns| && ms == ns[..k] + ns[k + 1..]
    ensures Distinct(ms) && ns[k] !in ms
    ensures forall j :: 0 <= j < |ms| ==> ms[j] == if j < k then ns[j] else ns[j + 1]
    ensures forall j :: 0 <= j < |ms| ==> ms[j] in ns
  {
    forall j | 0 <= j < |ms| ensures ms[j] in ns {
      if j < k {
        assert ms[j] == ns[j];
      } else {
        assert ms[j] == ns[j + 1];
      }
    }
    forall i, j | 0 <= i < j < |ms| ensures ms[i] != ms[j] {
      var i' := if i < k then i else i + 1;
      var j' := if j < k then j else j + 1;
      assert ms[i] == ns[i'] && ms[j] == ns[j'];
    }
  }

  /** Joining the k-th node's neighbours leaves a forward chain without it. */
  lemma ForwardAfterCut(next: seq<int>, start: int, ns: seq<int>, k: nat, next': seq<int>, start': int)
    requires Forward(next, start, ns) && k < |ns|
    requires next' == if k == 0 then next else next[ns[k - 1] := next[ns[k]]]
    requires start' == if k == 0 then next[ns[k]] else start
    ensures Forward(next', start', ns[..k] + ns[k + 1..])
  {
    var ms := ns[..k] + ns[k + 1..];
    CutDistinct(ns, k, ns[..k] + ns[k + 1..]);
    forall j | 0 <= j < |ms| - 1
      ensures next'[ms[j]] == ms[j + 1]
    {
      if k > 0 && j != k - 1 {
        assert ms[j] != ns[k - 1] by {
          assert ms[j] == ns[if j < k then j else j + 1];
        }
      }
    }
    if ms != [] {
      if k != |ns| - 1 && k > 0 {
        assert ms[|ms| - 1] == ns[|ns| - 1] != ns[k - 1];
      }
    }
  }

  /** Joining the k-th node's neighbours leaves the prev pointers of the others consistent. */
  lemma BackwardAfterCut(prev: seq<int>, ns: seq<int>, k: nat, prev': seq<int>)
    requires Backward(prev, ns) && Distinct(ns) && k < |ns|
    requires prev' == if k == |ns| - 1 then prev else prev[ns[k + 1] := prev[ns[k]]]
    ensures Backward(prev', ns[..k] + ns[k + 1..])
  {
    var ms := ns[..k] + ns[k + 1..];
    CutDistinct(ns, k, ns[..k] + ns[k + 1..]);
    forall j | 0 < j < |ms|
      ensures prev'[ms[j]] == ms[j - 1]
    {
      if k < |ns| - 1 && j != k {
        assert ms[j] != ns[k + 1] by {
          assert ms[j] == ns[if j < k then j else j + 1];
        }
      }
    }
    if k > 0 && k < |ns| - 1 {
      assert ms[0] == ns[0] != ns[k + 1];
    }
  }

  /** Joining the k-th node's neighbours leaves a well-formed list without it. */
  lemma RemoveKeepsChain(next: seq<int>, prev: seq<int>, l: List, ns: seq<int>, k: nat,
                         next': seq<int>, prev': seq<int>, l': List)
    requires |next| == |prev| && Loose(next, prev, l, ns) && k < |ns|
    requires var p, q := (if k == 0 then NIL else ns[k - 1]), (if k == |ns| - 1 then NIL else ns[k + 1]);
      && next' == (if k == 0 then next else next[ns[k - 1] := q])
      && prev' == (if k == |ns| - 1 then prev else prev[ns[k + 1] := p])
      && l' == List(if l.start == ns[k] then q else l.start,
                    if l.end == ns[k] then p else l.end)
    ensures Loose(next', prev', l', ns[..k] + ns[k + 1..])
    ensures Exact(next, prev, l, ns) ==> Exact(next', prev', l', ns[..k] + ns[k + 1..])
    ensures next'[ns[k]] == next[ns[k]] && prev'[ns[k]] == prev[ns[k]]
    ensures AgreeOutside(next, next', ns) && AgreeOutside(prev, prev', ns)
  {
    Neighbours(next, prev, l.start, ns, k);
    ForwardAfterCut(next, l.start, ns, k, next', l'.start);
    BackwardAfterCut(prev, ns, k, prev');
    EndAfterCut(ns, k, l.end, l'.end);
  }

  /** Where `end` goes when the k-th node leaves: it stays NULL or a member, and stays the last node if it was. */
  lemma EndAfterCut(ns: seq<int>, k: nat, end: int, end': int)
    requires Distinct(ns) && k < |ns| && (end == NIL || end in ns)
    requires end' == if end == ns[k] then (if k == 0 then NIL else ns[k - 1]) else end
    ensures end' == NIL || end' in ns[..k] + ns[k + 1..]
    ensures end == Last(ns) ==> end' == Last(ns[..k] + ns[k + 1..])
  {
    var ms := ns[..k] + ns[k + 1..];
    CutDistinct(ns, k, ms);
    if end != NIL && end != ns[k] {
      var e :| 0 <= e < |ns| && ns[e] == end;
      assert end == ms[if e < k then e else e - 1];
    }
    if end == Last(ns) && ms != [] {
      if k == |ns| - 1 {
        assert Last(ms) == ns[k - 1];
      } else {
        assert Last(ms) == Last(ns) != ns[k];
      }
    }
  }
}
