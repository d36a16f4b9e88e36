/**
 * The unbalanced binary search tree of tree.c, used by the maze generator as
 * its set of visited cells. Nodes live in the arrays of the class Tree and are
 * named by index (NIL plays NULL); the ghost `shape` is the tree those arrays
 * spell out from `root`.
 *
 * The comparator follows tree.h: compare(self, other) > 0 sends `other` to the
 * left of `self`, < 0 to the right, and 0 means they are the same. Each
 * iterative method of tree.c is proved against a recursive definition on
 * shapes: Insert and Lookup are the recursive `add` and `contains` that tree.c
 * keeps in comments, and PopKey/PopLeaf describe which leaf `tree_pop` takes.
 */
module OrderedSet {
  import opened Wrappers

  /** The NULL pointer. */
  const NIL: int := -1

  /** A comparator that answers 0 exactly for equal values, as tree.h asks of `compare`. */
  ghost predicate IdentityCompare<T(!new)>(compare: (T, T) -> int)
  {
    forall a: T, b: T :: compare(a, b) == 0 <==> a == b
  }

  /** basic_compare: both arguments read as integers, subtracted. */
  function BasicCompare(self: int, other: int): (r: int)
    ensures r == 0 <==> self == other
    ensures r > 0 <==> other < self
    ensures r < 0 <==> self < other
  {
    self - other
  }

  /** basic_compare is sign-antisymmetric and may serve as a tree's comparator. */
  lemma BasicCompareLaws(a: int, b: int)
    ensures BasicCompare(a, b) > 0 <==> BasicCompare(b, a) < 0
    ensures BasicCompare(a, b) == -BasicCompare(b, a)
    ensures IdentityCompare(BasicCompare)
  {
  }

  datatype Shape<T> = Leaf | Node(l: Shape<T>, id: int, key: T, r: Shape<T>)

  /**
   * The way down from the root to a subtree, nearest parent first: at each
   * parent, which child was taken and what the other child is.
   */
  datatype Path<T> =
    | Top
    | WentLeft(up: Path<T>, id: int, key: T, r: Shape<T>)
    | WentRight(up: Path<T>, l: Shape<T>, id: int, key: T)

  /** The pointer that tree_add and tree_pop call `last`: the root field or a child field. */
  datatype Slot = RootSlot | LeftOf(node: int) | RightOf(node: int)

  function SlotOf<T>(p: Path<T>): Slot
  {
    match p
    case Top => RootSlot
    case WentLeft(_, id, _, _) => LeftOf(id)
    case WentRight(_, _, id, _) => RightOf(id)
  }

  /** The whole tree, with t put where the path leads. */
  function Plug<T>(p: Path<T>, t: Shape<T>): Shape<T>
  {
    match p
    case Top => t
    case WentLeft(up, id, key, r) => Plug(up, Node(t, id, key, r))
    case WentRight(up, l, id, key) => Plug(up, Node(l, id, key, t))
  }

  function Keys<T>(s: Shape<T>): set<T>
  {
    match s
    case Leaf => {}
    case Node(l, _, key, r) => Keys(l) + {key} + Keys(r)
  }

  function Ids<T>(s: Shape<T>): set<int>
  {
    match s
    case Leaf => {}
    case Node(l, id, _, r) => Ids(l) + {id} + Ids(r)
  }

  /** The nodes of the tree outside the subtree a path leads to. */
  function CtxIds<T>(p: Path<T>): set<int>
  {
    match p
    case Top => {}
    case WentLeft(up, id, _, r) => CtxIds(up) + {id} + Ids(r)
    case WentRight(up, l, id, _) => CtxIds(up) + {id} + Ids(l)
  }

  function Ptr<T>(s: Shape<T>): int
  {
    if s.Leaf? then NIL else s.id
  }

  /** The search-tree order of tree.h: left keys compare positive from each node, right keys negative. */
  ghost predicate Ordered<T>(compare: (T, T) -> int, s: Shape<T>)
  {
    match s
    case Leaf => true
    case Node(l, _, key, r) =>
      && (forall x :: x in Keys(l) ==> compare(key, x) > 0)
      && (forall x :: x in Keys(r) ==> compare(key, x) < 0)
      && Ordered(compare, l)
      && Ordered(compare, r)
  }

  /** No node appears twice. */
  predicate Unique<T>(s: Shape<T>)
  {
    match s
    case Leaf => true
    case Node(l, id, _, r) =>
      id !in Ids(l) && id !in Ids(r) && Ids(l) !! Ids(r) && Unique(l) && Unique(r)
  }

  /** The parent at the end of a path is not elsewhere in the rest of the tree. */
  predicate SlotFree<T>(p: Path<T>)
  {
    match p
    case Top => true
    case WentLeft(up, id, _, r) => id !in Ids(r) && id !in CtxIds(up)
    case WentRight(up, l, id, _) => id !in Ids(l) && id !in CtxIds(up)
  }

  /** The arrays spell out s from the pointer ptr. */
  ghost predicate Realises<T>(left: seq<int>, right: seq<int>, data: seq<T>, s: Shape<T>, ptr: int)
  {
    match s
    case Leaf => ptr == NIL
    case Node(l, id, key, r) =>
      && ptr == id && 0 <= id < |left| && id < |right| && id < |data|
      && data[id] == key
      && Realises(left, right, data, l, left[id])
      && Realises(left, right, data, r, right[id])
  }

  /** The arrays spell out the rest of the tree around a path whose hole holds the pointer hole. */
  ghost predicate CtxRealises<T>(left: seq<int>, right: seq<int>, data: seq<T>, p: Path<T>, hole: int, root: int)
  {
    match p
    case Top => root == hole
    case WentLeft(up, id, key, r) =>
      && 0 <= id < |left| && id < |right| && id < |data| && data[id] == key
      && left[id] == hole
      && Realises(left, right, data, r, right[id])
      && CtxRealises(left, right, data, up, id, root)
    case WentRight(up, l, id, key) =>
      && 0 <= id < |left| && id < |right| && id < |data| && data[id] == key
      && right[id] == hole
      && Realises(left, right, data, l, left[id])
      && CtxRealises(left, right, data, up, id, root)
  }

  /** b agrees with a at the indices of S that a has. */
  ghost predicate Agree<U>(a: seq<U>, b: seq<U>, S: set<int>)
  {
    forall i :: i in S && 0 <= i < |a| ==> i < |b| && b[i] == a[i]
  }

  // ---------------------------------------------------------------------
  // The recursive definitions the iterative code is proved against.

  /** The recursive `add`: a new node n holding d where the search for d ends, unless d is found. */
  function Insert<T>(compare: (T, T) -> int, s: Shape<T>, d: T, n: int): Shape<T>
  {
    match s
    case Leaf => Node(Leaf, n, d, Leaf)
    case Node(l, id, key, r) =>
      if compare(key, d) > 0 then Node(Insert(compare, l, d, n), id, key, r)
      else if compare(key, d) < 0 then Node(l, id, key, Insert(compare, r, d, n))
      else s
  }

  /** The recursive `contains`. */
  function Lookup<T>(compare: (T, T) -> int, s: Shape<T>, d: T): bool
  {
    match s
    case Leaf => false
    case Node(l, _, key, r) =>
      if compare(key, d) > 0 then Lookup(compare, l, d)
      else if compare(key, d) == 0 then true
      else Lookup(compare, r, d)
  }

  /** The key tree_pop returns: the leaf reached by going left when possible, else right. */
  function PopKey<T>(s: Shape<T>): T
    requires s.Node?
  {
    if s.l.Node? then PopKey(s.l) else if s.r.Node? then PopKey(s.r) else s.key
  }

  /** The tree tree_pop leaves: that leaf removed. */
  function PopLeaf<T>(s: Shape<T>): Shape<T>
    requires s.Node?
  {
    if s.l.Node? then Node(PopLeaf(s.l), s.id, s.key, s.r)
    else if s.r.Node? then Node(s.l, s.id, s.key, PopLeaf(s.r))
    else Leaf
  }

  // ---------------------------------------------------------------------
  // What the recursive definitions mean.

  /** In a search tree, the recursive search finds d exactly when d is stored. */
  lemma {:induction false} LookupIsMember<T(!new)>(compare: (T, T) -> int, s: Shape<T>, d: T)
    requires IdentityCompare(compare) && Ordered(compare, s)
    ensures Lookup(compare, s, d) <==> d in Keys(s)
  {
    match s
    case Leaf =>
    case Node(l, _, key, r) =>
      LookupIsMember(compare, l, d);
      LookupIsMember(compare, r, d);
      if compare(key, d) > 0 {
        assert d != key && d !in Keys(r);
      } else if compare(key, d) < 0 {
        assert d != key && d !in Keys(l);
      }
  }

  /** Adding stores d and nothing else. */
  lemma {:induction false} InsertKeys<T(!new)>(compare: (T, T) -> int, s: Shape<T>, d: T, n: int)
    requires IdentityCompare(compare)
    ensures Keys(Insert(compare, s, d, n)) == Keys(s) + {d}
  {
    match s
    case Leaf =>
    case Node(l, _, key, r) =>
      InsertKeys(compare, l, d, n);
      InsertKeys(compare, r, d, n);
  }

  /** Adding a value that is already stored changes nothing. */
  lemma {:induction false} InsertPresent<T(!new)>(compare: (T, T) -> int, s: Shape<T>, d: T, n: int)
    requires IdentityCompare(compare) && Ordered(compare, s) && d in Keys(s)
    ensures Insert(compare, s, d, n) == s
  {
    match s
    case Node(l, _, key, r) =>
      if compare(key, d) > 0 {
        assert d !in Keys(r);
        InsertPresent(compare, l, d, n);
      } else if compare(key, d) < 0 {
        assert d !in Keys(l);
        InsertPresent(compare, r, d, n);
      }
  }

  /** Adding keeps the search-tree order. */
  lemma {:induction false} InsertOrdered<T(!new)>(compare: (T, T) -> int, s: Shape<T>, d: T, n: int)
    requires IdentityCompare(compare) && Ordered(compare, s)
    ensures Ordered(compare, Insert(compare, s, d, n))
  {
    match s
    case Leaf =>
    case Node(l, _, key, r) =>
      InsertOrdered(compare, l, d, n);
      InsertOrdered(compare, r, d, n);
      InsertKeys(compare, l, d, n);
      InsertKeys(compare, r, d, n);
  }

  /** Adding under a fresh node name keeps every node distinct. */
  lemma {:induction false} InsertUnique<T>(compare: (T, T) -> int, s: Shape<T>, d: T, n: int)
    requires Unique(s) && n !in Ids(s)
    ensures Unique(Insert(compare, s, d, n))
    ensures Ids(Insert(compare, s, d, n)) <= Ids(s) + {n}
  {
    match s
    case Leaf =>
    case Node(l, _, key, r) =>
      InsertUnique(compare, l, d, n);
      InsertUnique(compare, r, d, n);
  }

  /** Popping removes exactly the popped key, which was stored. */
  lemma {:induction false} PopKeys<T(!new)>(compare: (T, T) -> int, s: Shape<T>)
    requires s.Node? && IdentityCompare(compare) && Ordered(compare, s)
    ensures PopKey(s) in Keys(s)
    ensures Keys(PopLeaf(s)) == Keys(s) - {PopKey(s)}
  {
    var x := PopKey(s);
    if s.l.Node? {
      PopKeys(compare, s.l);
      assert compare(s.key, x) > 0;
      assert x != s.key && x !in Keys(s.r);
    } else if s.r.Node? {
      PopKeys(compare, s.r);
      assert compare(s.key, x) < 0;
      assert x != s.key && x !in Keys(s.l);
    }
  }

  /** Popping keeps the search-tree order and every node distinct. */
  lemma {:induction false} PopKeepsShape<T(!new)>(compare: (T, T) -> int, s: Shape<T>)
    requires s.Node? && IdentityCompare(compare) && Ordered(compare, s) && Unique(s)
    ensures Ordered(compare, PopLeaf(s)) && Unique(PopLeaf(s))
    ensures Ids(PopLeaf(s)) <= Ids(s)
  {
    if s.l.Node? {
      PopKeepsShape(compare, s.l);
      PopKeys(compare, s.l);
    } else if s.r.Node? {
      PopKeepsShape(compare, s.r);
      PopKeys(compare, s.r);
    }
  }

  // ---------------------------------------------------------------------
  // Shapes spelled out by arrays.

  lemma {:induction false} RealisesFrame<T>(left: seq<int>, right: seq<int>, data: seq<T>,
                                           left': seq<int>, right': seq<int>, data': seq<T>, s: Shape<T>, ptr: int)
    requires Realises(left, right, data, s, ptr)
    requires Agree(left, left', Ids(s)) && Agree(right, right', Ids(s)) && Agree(data, data', Ids(s))
    ensures Realises(left', right', data', s, ptr)
  {
    match s
    case Leaf =>
    case Node(l, id, key, r) =>
      RealisesFrame(left, right, data, left', right', data', l, left[id]);
      RealisesFrame(left, right, data, left', right', data', r, right[id]);
  }

  lemma {:induction false} CtxFrame<T>(left: seq<int>, right: seq<int>, data: seq<T>,
                                      left': seq<int>, right': seq<int>, data': seq<T>, p: Path<T>, hole: int, root: int)
    requires CtxRealises(left, right, data, p, hole, root)
    requires Agree(left, left', CtxIds(p)) && Agree(right, right', CtxIds(p)) && Agree(data, data', CtxIds(p))
    ensures CtxRealises(left', right', data', p, hole, root)
  {
    match p
    case Top =>
    case WentLeft(up, id, key, r) =>
      RealisesFrame(left, right, data, left', right', data', r, right[id]);
      CtxFrame(left, right, data, left', right', data', up, id, root);
    case WentRight(up, l, id, key) =>
      RealisesFrame(left, right, data, left', right', data', l, left[id]);
      CtxFrame(left, right, data, left', right', data', up, id, root);
  }

  /** Every node of a realised shape is an index of the arrays. */
  lemma {:induction false} RealisesInRange<T>(left: seq<int>, right: seq<int>, data: seq<T>, s: Shape<T>, ptr: int)
    requires Realises(left, right, data, s, ptr)
    ensures forall i :: i in Ids(s) ==> 0 <= i < |left| && i < |right| && i < |data|
  {
    match s
    case Leaf =>
    case Node(l, id, key, r) =>
      RealisesInRange(left, right, data, l, left[id]);
      RealisesInRange(left, right, data, r, right[id]);
  }

  lemma {:induction false} CtxInRange<T>(left: seq<int>, right: seq<int>, data: seq<T>, p: Path<T>, hole: int, root: int)
    requires CtxRealises(left, right, data, p, hole, root)
    ensures forall i :: i in CtxIds(p) ==> 0 <= i < |left| && i < |right| && i < |data|
  {
    match p
    case Top =>
    case WentLeft(up, id, key, r) =>
      RealisesInRange(left, right, data, r, right[id]);
      CtxInRange(left, right, data, up, id, root);
    case WentRight(up, l, id, key) =>
      RealisesInRange(left, right, data, l, left[id]);
      CtxInRange(left, right, data, up, id, root);
  }

  /** A realised context around a realised subtree realises the whole tree. */
  lemma {:induction false} PlugRealises<T>(left: seq<int>, right: seq<int>, data: seq<T>, p: Path<T>, t: Shape<T>, root: int)
    requires CtxRealises(left, right, data, p, Ptr(t), root) && Realises(left, right, data, t, Ptr(t))
    ensures Realises(left, right, data, Plug(p, t), root)
  {
    match p
    case Top =>
    case WentLeft(up, id, key, r) =>
      PlugRealises(left, right, data, up, Node(t, id, key, r), root);
    case WentRight(up, l, id, key) =>
      PlugRealises(left, right, data, up, Node(l, id, key, t), root);
  }

  /** Inside a tree without repeated nodes, the subtree and the rest share no node. */
  lemma {:induction false} UniqueInner<T>(p: Path<T>, t: Shape<T>)
    requires Unique(Plug(p, t))
    ensures Unique(t) && Ids(t) !! CtxIds(p) && SlotFree(p)
  {
    match p
    case Top =>
    case WentLeft(up, id, key, r) =>
      UniqueInner(up, Node(t, id, key, r));
    case WentRight(up, l, id, key) =>
      UniqueInner(up, Node(l, id, key, t));
  }

  /** Replacing the subtree by one that meets no node of the rest keeps nodes distinct. */
  lemma {:induction false} UniqueReplace<T>(p: Path<T>, s: Shape<T>, t: Shape<T>)
    requires Unique(Plug(p, s)) && Unique(t) && Ids(t) !! CtxIds(p)
    ensures Unique(Plug(p, t))
  {
    UniqueInner(p, s);
    match p
    case Top =>
    case WentLeft(up, id, key, r) =>
      UniqueInner(up, Node(s, id, key, r));
      UniqueReplace(up, Node(s, id, key, r), Node(t, id, key, r));
    case WentRight(up, l, id, key) =>
      UniqueInner(up, Node(l, id, key, s));
      UniqueReplace(up, Node(l, id, key, s), Node(l, id, key, t));
  }

  /**
   * Writing v through `last` re-points the hole of a realised context at v,
   * provided the parent is nowhere else in the tree and older entries are kept.
   */
  lemma Retarget<T>(left: seq<int>, right: seq<int>, data: seq<T>, p: Path<T>, hole: int, root: int,
                    left': seq<int>, right': seq<int>, data': seq<T>, v: int, root': int)
    requires CtxRealises(left, right, data, p, hole, root) && SlotFree(p)
    requires |left| <= |left'| && |right| <= |right'| && |data| <= |data'| && data'[..|data|] == data
    requires match SlotOf(p)
      case RootSlot => root' == v && left'[..|left|] == left && right'[..|right|] == right
      case LeftOf(q) => 0 <= q < |left| && root' == root && left'[..|left|] == left[q := v] && right'[..|right|] == right
      case RightOf(q) => 0 <= q < |right| && root' == root && right'[..|right|] == right[q := v] && left'[..|left|] == left
    ensures CtxRealises(left', right', data', p, v, root')
  {
    match p
    case Top =>
    case WentLeft(up, id, key, r) =>
      assert left'[id] == left'[..|left|][id];
      assert forall i :: 0 <= i < |left| && i != id ==> left'[i] == left'[..|left|][i];
      assert forall i :: 0 <= i < |right| ==> right'[i] == right'[..|right|][i];
      assert forall i :: 0 <= i < |data| ==> data'[i] == data'[..|data|][i];
      RealisesFrame(left, right, data, left', right', data', r, right[id]);
      CtxFrame(left, right, data, left', right', data', up, id, root);
    case WentRight(up, l, id, key) =>
      assert right'[id] == right'[..|right|][id];
      assert forall i :: 0 <= i < |right| && i != id ==> right'[i] == right'[..|right|][i];
      assert forall i :: 0 <= i < |left| ==> left'[i] == left'[..|left|][i];
      assert forall i :: 0 <= i < |data| ==> data'[i] == data'[..|data|][i];
      RealisesFrame(left, right, data, left', right', data', l, left[id]);
      CtxFrame(left, right, data, left', right', data', up, id, root);
  }

  /** `struct tree`: the root pointer, the comparator, and the nodes. */
  class Tree<T(!new)> {
    const compare: (T, T) -> int
    var root: int
    var data: seq<T>
    var left: seq<int>
    var right: seq<int>
    ghost var shape: Shape<T>

    ghost predicate Valid()
      reads this
    {
      && IdentityCompare(compare)
      && |data| == |left| == |right|
      && Realises(left, right, data, shape, root)
      && Unique(shape)
      && Ordered(compare, shape)
    }

    /** The set the tree stands for. */
    ghost function Elems(): set<T>
      reads this
    {
      Keys(shape)
    }

    /** new_tree: an empty tree with the given comparator. */
    constructor (compare: (T, T) -> int)
      requires IdentityCompare(compare)
      ensures Valid() && Elems() == {} && this.compare == compare
    {
      this.compare := compare;
      root := NIL;
      data, left, right := [], [], [];
      shape := Leaf;
    }

    /**
     * tree_add: walk down as the comparator says and hang a new node where
     * the walk falls off the tree; stop at once on a value that compares 0.
     */
    method Add(d: T)
      requires Valid()
      modifies this
      ensures Valid()
      ensures shape == Insert(compare, old(shape), d, |old(data)|)
      ensures Elems() == old(Elems()) + {d}
      ensures d in old(Elems()) ==> root == old(root) && data == old(data) && left == old(left) && right == old(right)
    {
      var current := root;
      var last := RootSlot;
      ghost var path: Path<T> := Top;
      ghost var sub := shape;
      while current != NIL
        invariant root == old(root) && data == old(data) && left == old(left) && right == old(right)
        invariant shape == old(shape) == Plug(path, sub)
        invariant CtxRealises(left, right, data, path, current, root)
        invariant Realises(left, right, data, sub, current)
        invariant last == SlotOf(path)
        invariant Insert(compare, shape, d, |data|) == Plug(path, Insert(compare, sub, d, |data|))
        invariant Lookup(compare, shape, d) == Lookup(compare, sub, d)
        decreases sub
      {
        if compare(data[current], d) > 0 {
          last := LeftOf(current);
          path := WentLeft(path, current, data[current], sub.r);
          sub := sub.l;
          current := left[current];
        } else if compare(data[current], d) < 0 {
          last := RightOf(current);
          path := WentRight(path, sub.l, current, data[current]);
          sub := sub.r;
          current := right[current];
        } else {
          // Skip duplicates
          InsertKeys(compare, shape, d, |data|);
          return;
        }
      }
      LookupIsMember(compare, shape, d);
      InsertKeys(compare, shape, d, |data|);
      ghost var (left0, right0, data0) := (left, right, data);
      var n := |data|;
      data := data + [d];
      left := left + [NIL];
      right := right + [NIL];
      match last {
        case RootSlot => root := n;
        case LeftOf(q) => left := left[q := n];
        case RightOf(q) => right := right[q := n];
      }
      shape := Plug(path, Node(Leaf, n, d, Leaf));
      InsertShape(left0, right0, data0, old(root), path, d);
    }

    /** The tree after tree_add's final write is the tree Insert describes, and is valid. */
    ghost method InsertShape(left0: seq<int>, right0: seq<int>, data0: seq<T>, root0: int, path: Path<T>, d: T)
      requires IdentityCompare(compare) && |data0| == |left0| == |right0|
      requires var s0 := Plug(path, Leaf);
        && Realises(left0, right0, data0, s0, root0) && Unique(s0) && Ordered(compare, s0)
        && Insert(compare, s0, d, |data0|) == Plug(path, Node(Leaf, |data0|, d, Leaf))
      requires CtxRealises(left0, right0, data0, path, NIL, root0)
      requires var n := |data0|;
        && data == data0 + [d]
        && shape == Plug(path, Node(Leaf, n, d, Leaf))
        && match SlotOf(path)
          case RootSlot => root == n && left == left0 + [NIL] && right == right0 + [NIL]
          case LeftOf(q) => root == root0 && left == (left0 + [NIL])[q := n] && right == right0 + [NIL]
          case RightOf(q) => root == root0 && right == (right0 + [NIL])[q := n] && left == left0 + [NIL]
      ensures Valid()
    {
      var n := |data0|;
      var s0 := Plug(path, Leaf);
      UniqueInner(path, Leaf);
      CtxInRange(left0, right0, data0, path, NIL, root0);
      RealisesInRange(left0, right0, data0, s0, root0);
      match SlotOf(path) {
        case RootSlot =>
        case LeftOf(q) =>
          assert left[..|left0|] == left0[q := n];
        case RightOf(q) =>
          assert right[..|right0|] == right0[q := n];
      }
      assert data[..|data0|] == data0;
      Retarget(left0, right0, data0, path, NIL, root0, left, right, data, n, root);
      PlugRealises(left, right, data, path, Node(Leaf, n, d, Leaf), root);
      UniqueReplace(path, Leaf, Node(Leaf, n, d, Leaf));
      InsertOrdered(compare, s0, d, n);
    }

    /** tree_contains: 1 when a stored value compares 0 with d, otherwise 0. */
    method Contains(d: T) returns (r: int)
      requires Valid()
      ensures r == 1 <==> d in Elems()
      ensures r == 0 <==> d !in Elems()
    {
      var current := root;
      ghost var sub := shape;
      while current != NIL
        invariant Realises(left, right, data, sub, current)
        invariant Lookup(compare, shape, d) == Lookup(compare, sub, d)
        decreases sub
      {
        if compare(data[current], d) == 0 {
          LookupIsMember(compare, shape, d);
          return 1;
        } else if compare(data[current], d) > 0 {
          sub := sub.l;
          current := left[current];
        } else {
          sub := sub.r;
          current := right[current];
        }
      }
      LookupIsMember(compare, shape, d);
      return 0;
    }

    /**
     * tree_pop: walk down, left when there is a left child, else right,
     * and unhook the leaf reached. An empty tree gives None (C: NULL).
     */
    method Pop() returns (x: Option<T>)
      requires Valid()
      modifies this
      ensures Valid()
      ensures old(shape).Leaf? ==> x == None && root == old(root) && data == old(data) && left == old(left) && right == old(right) && shape == old(shape)
      ensures old(shape).Node? ==> x == Some(PopKey(old(shape))) && shape == PopLeaf(old(shape))
      ensures x == None <==> old(Elems()) == {}
      ensures x.Some? ==> x.value in old(Elems()) && Elems() == old(Elems()) - {x.value}
    {
      var current := root;
      var last := RootSlot;
      ghost var path: Path<T> := Top;
      ghost var sub := shape;
      while current != NIL
        invariant root == old(root) && data == old(data) && left == old(left) && right == old(right)
        invariant shape == old(shape) == Plug(path, sub)
        invariant CtxRealises(left, right, data, path, current, root)
        invariant Realises(left, right, data, sub, current)
        invariant last == SlotOf(path)
        invariant path != Top ==> sub.Node?
        invariant sub.Node? ==> shape.Node? && PopLeaf(shape) == Plug(path, PopLeaf(sub)) && PopKey(shape) == PopKey(sub)
        decreases sub
      {
        assert sub.Node?;
        if left[current] != NIL {
          last := LeftOf(current);
          path := WentLeft(path, current, data[current], sub.r);
          sub := sub.l;
          current := left[current];
        } else if right[current] != NIL {
          last := RightOf(current);
          path := WentRight(path, sub.l, current, data[current]);
          sub := sub.r;
          current := right[current];
        } else {
          var found := data[current];
          ghost var (left0, right0) := (left, right);
          match last {
            case RootSlot => root := NIL;
            case LeftOf(q) => left := left[q := NIL];
            case RightOf(q) => right := right[q := NIL];
          }
          shape := Plug(path, Leaf);
          PopShape(left0, right0, old(root), path, sub);
          PopKeys(compare, old(shape));
          return Some(found);
        }
      }
      return None;
    }

    /** The tree after tree_pop's write is the tree PopLeaf describes, and is valid. */
    ghost method PopShape(left0: seq<int>, right0: seq<int>, root0: int, path: Path<T>, leaf: Shape<T>)
      requires IdentityCompare(compare) && |data| == |left0| == |right0|
      requires var s0 := Plug(path, leaf);
        && leaf.Node? && leaf.l.Leaf? && leaf.r.Leaf?
        && Realises(left0, right0, data, s0, root0) && Unique(s0) && Ordered(compare, s0)
        && s0.Node? && PopLeaf(s0) == Plug(path, Leaf)
      requires CtxRealises(left0, right0, data, path, leaf.id, root0)
      requires shape == Plug(path, Leaf)
      requires match SlotOf(path)
          case RootSlot => root == NIL && left == left0 && right == right0
          case LeftOf(q) => root == root0 && left == left0[q := NIL] && right == right0
          case RightOf(q) => root == root0 && right == right0[q := NIL] && left == left0
      ensures Valid()
    {
      var s0 := Plug(path, leaf);
      UniqueInner(path, leaf);
      CtxInRange(left0, right0, data, path, leaf.id, root0);
      match SlotOf(path) {
        case RootSlot =>
        case LeftOf(q) =>
          assert left[..|left0|] == left0[q := NIL];
        case RightOf(q) =>
          assert right[..|right0|] == right0[q := NIL];
      }
      assert data[..|data|] == data;
      Retarget(left0, right0, data, path, leaf.id, root0, left, right, data, NIL, root);
      PlugRealises(left, right, data, path, Leaf, root);
      UniqueReplace(path, leaf, Leaf);
      PopKeepsShape(compare, s0);
    }
  }

  /** Pop until the tree is empty, as test.c drains a tree: every stored value comes out once. */
  method Drain<T(!new)>(t: Tree<T>) returns (out: seq<T>)
    requires t.Valid()
    modifies t
    ensures t.Valid() && t.Elems() == {}
    ensures forall i, j :: 0 <= i < j < |out| ==> out[i] != out[j]
    ensures (set x | x in out) == old(t.Elems())
  {
    out := [];
    while true
      invariant t.Valid()
      invariant (set x | x in out) + t.Elems() == old(t.Elems())
      invariant forall x :: x in out ==> x !in t.Elems()
      invariant forall i, j :: 0 <= i < j < |out| ==> out[i] != out[j]
      decreases |t.Elems()|
    {
      var x := t.Pop();
      if x.None? {
        return;
      }
      out := out + [x.value];
    }
  }

  /**
   * The tree part of test.c: add 2, 1, 3 (here as integers under
   * basic_compare) and pop until empty; the pops give 1, 3, 2 and then nothing.
   */
  method AddTwoOneThreeThenPop() returns (out: seq<Option<int>>)
    ensures out == [Some(1), Some(3), Some(2), None]
  {
    BasicCompareLaws(0, 0);
    var t := new Tree(BasicCompare);
    t.Add(2);
    t.Add(1);
    t.Add(3);
    var a := t.Pop();
    var b := t.Pop();
    var c := t.Pop();
    var e := t.Pop();
    out := [a, b, c, e];
  }
}
