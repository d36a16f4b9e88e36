# Maze generator: a verified model of its core

The repository generates a rectangular maze by a randomised depth-first
search. `gen_maze` (dfs.c) builds a grid of cells. Each cell has two doubly
linked lists of neighbouring cells: its *walls* and its *paths*. The function
links every pair of neighbours by a wall, shuffles each wall list with
`rand()`, and then carves the maze. The carve uses a stack of cells and an
unbalanced binary search tree of visited cells. It moves one wall at a time
into the carving cell's paths list, until the stack is empty. The support
code is:

- linked_list.c: push, remove a node, remove by cell;
- stack.c: a linked stack;
- tree.c: a binary search tree with add, contains and leaf-pop;
- maze.c: a djb2-style string hash used as the random seed, the `relocate`
  callback that places cell (r, c) at pixel (2r + 1, 2c + 1), and the pixel
  arithmetic that draws cells and the openings between them;
- maze_web/link.py: formats HTTP `Link` headers.

The model has these modules:

- `LinkedList` (linked_list.dfy): list nodes live in an arena class,
  `NodePool`. Its sequence fields `cell`, `prev` and `next` are the fields of
  each node, and `NIL` plays NULL. A list header is the value
  `List(start, end)`. A ghost sequence of node indices says which nodes a
  list holds, in order.
- `Stack` (stack.dfy): a class over immutable linked nodes. `Contents()` is
  the stack top first.
- `OrderedSet` (tree.dfy): a class `Tree` over node arrays (`data`, `left`,
  `right`). A ghost `Shape` is the tree they realise. The pointer-to-pointer
  `last` of the iterative loops is a zipper path.
- `Grid` (grid.dfy): cell ids `r * cols + c` and the neighbour relation.
- `DfsSpec` (dfs_spec.dfy): gen_maze on values. It defines the Fisher–Yates
  permutation `shuffle` applies, how far the linking loops have got, one
  pass of the carve loop (`Step`) and the loop's invariant.
- `Dfs` (dfs.dfy): gen_maze step by step. It has the class `Maze`, the class
  `Rng` for `rand()`, `shuffle` over the pool, and the carve loop. It is
  proved against `DfsSpec`. The headline results are on `Dfs.GenMaze`, the
  whole of `gen_maze`:
  - the paths form a spanning tree of the grid rooted at the random start
    cell;
  - a wall remains between two neighbours exactly when no path joins them.
- `MazeMain` (maze_main.dfy): `hash_string`, `relocate` and the image
  arithmetic of maze.c.
- `Link` (link.dfy): the three classes of link.py as datatypes, and their
  `__str__` as functions.
- `Wrappers` (wrappers.dfy): `Option`.

## Model

| member | source | states |
|---|---|---|
| LinkedList.NodePool.constructor | linked_list.c:3-11 | An empty pool: no node allocated yet. |
| LinkedList.NodePool.Push | linked_list.c:3-11 | Allocates a new node holding c, links it after the old end and makes it the end. It also becomes the start when the list was empty. The list keeps its chain in both directions, its cells become the old cells plus c, and no other node changes. |
| LinkedList.NodePool.Remove | linked_list.c:13-18 | Unlinks the node at position k. Its predecessor now points to its successor and back, and start/end move off it when they named it. The list becomes ns without position k, and its cells lose exactly that entry. The removed node's own links are untouched, and nodes of other lists are unchanged. An exact list stays exact, and a list whose end is only loose stays loose. |
| LinkedList.NodePool.RemoveData | linked_list.c:20-28 | Removes the first node holding cell c. The cells become RemoveFirst(cells, c), and the list's start and end move to that node's next and prev exactly when they named it. When c is absent, nothing changes. |
| LinkedList.NodePool.Find | linked_list.c:21-22 | The scan of list_remove_data returns NIL exactly when c is not among the list's cells. Otherwise it returns the node at the first position holding c. |
| LinkedList.NodePool.RemoveFound | linked_list.c:23 | The unlink once the scan found the first node holding c: that node leaves the order, the header moves off it when it named it, and the cells lose their first c. |
| LinkedList.FirstIndex | linked_list.c:21-25 | The first position holding x, with no x before it. It equals the length exactly when x is absent. |
| LinkedList.RemoveFirstMultiset | linked_list.c:20-28 | Removing by cell takes away one copy of x and nothing else. When x is absent, the list is unchanged. |
| LinkedList.RemoveFirstAt | linked_list.c:20-28 | Removing by cell cuts the list at the first index of x. |
| LinkedList.AppendKeepsChain | linked_list.c:5-10 | Relinking for a push keeps a well-formed doubly linked list with the new node last. |
| LinkedList.RemoveKeepsChain | linked_list.c:14-17 | The four assignments of list_remove leave a well-formed list without the node, and exactness is kept. Only the neighbours' links change. |
| LinkedList.ForwardAfterCut | linked_list.c:14-16 | After the cut, following next from the new start visits the remaining nodes in order. |
| LinkedList.BackwardAfterCut | linked_list.c:17 | After the cut, every remaining node's prev is its predecessor. |
| LinkedList.EndAfterCut | linked_list.c:15 | The new end is NIL or a remaining node. It is the last remaining node whenever the old end was the last node. |
| LinkedList.Neighbours | linked_list.c:16-17 | In a doubly linked list, the prev and next of the node at position k are its neighbours in the sequence, or NIL at the ends. |
| LinkedList.ForwardDetermined | linked_list.c:21 | The nodes reached from a start by following next are unique. |
| LinkedList.DoublyFrame | linked_list.c:3-18 | A list whose nodes' links are unchanged is still the same list. |
| LinkedList.CellsOfCut | linked_list.c:13-18 | Cutting a node out of a list cuts its cell out of the list's cells. |
| Dfs.Unlink | dfs.c:131 | `list_remove` on a wall list: the node at position k leaves, the remaining nodes are distinct members of the old list, still linked, and nodes outside the list keep their links. |
| Dfs.UnlinkData | dfs.c:132 | `list_remove_data` on a wall list: the cells become RemoveFirst(cells, c), the remaining nodes come from the old list and are still linked, and nodes outside it keep their links. |
| Stack.Stack.constructor | stack.c:9-13 | A new stack is empty. |
| Stack.Stack.Push | stack.c:37-42 | The contents become x followed by the old contents. |
| Stack.Stack.Pop | stack.c:24-35 | Empty stack: None, and the stack is unchanged. Otherwise: the top, and the contents lose it. |
| Stack.Stack.Peek | stack.c:44-51 | Returns 1 iff the stack is non-empty and 0 iff it is empty. |
| Stack.StackNode.constructor | stack.c:38-40 | A node holds data in front of the items of next. |
| Stack.PushThenPop | stack.c:25-42 | Push followed by pop returns the pushed value and restores the stack. |
| Stack.Drain | stack.c:25-51 | Pops while stack_peek reports 1. It yields the old contents top first and leaves the stack empty. |
| Stack.PushAllThenDrain | stack.c:25-51 | Pushing a sequence and then draining yields it reversed. |
| Stack.ReverseAt | stack.c:25-51 | Element i of the reversal is element n - 1 - i of the input. |
| Stack.PushOneTwoThreeThenDrain | test.c:22-29 | Pushing "1", "2", "3" and then draining gives "3", "2", "1". |
| OrderedSet.BasicCompare | tree.c:126-128 | The comparison is 0 iff the values are equal, positive iff self > other, and negative iff self < other. |
| OrderedSet.BasicCompareLaws | tree.c:126-128 | basic_compare is antisymmetric and identifies equal values. It is a valid comparator for the tree. |
| OrderedSet.Tree.constructor | tree.c:19-24 | A new tree is empty and keeps the comparator. |
| OrderedSet.Tree.Add | tree.c:52-73 | The tree's shape becomes Insert(shape, d) with a fresh node, and the stored set grows by d. When d is already present, nothing changes. |
| OrderedSet.Tree.Contains | tree.c:96-109 | Returns 1 iff d is stored and 0 iff it is not. |
| OrderedSet.Tree.Pop | tree.c:167-186 | Empty tree: None, and nothing changes. Otherwise: the key of the leaf reached by going left-first, then right. The shape loses that leaf, and the set loses that key. |
| OrderedSet.LookupIsMember | tree.c:96-109 | On an ordered tree, the search for d succeeds iff d is a key. |
| OrderedSet.InsertKeys | tree.c:52-73 | Insertion adds d to the keys. |
| OrderedSet.InsertPresent | tree.c:62-65 | Inserting a key already present leaves the tree as it is. |
| OrderedSet.InsertOrdered | tree.c:55-72 | Insertion keeps the search-tree order. |
| OrderedSet.InsertUnique | tree.c:68-72 | Insertion keeps node ids distinct and uses only the new id. |
| OrderedSet.PopKeys | tree.c:170-181 | The popped key is in the tree, and the rest of the keys stay. |
| OrderedSet.PopKeepsShape | tree.c:170-181 | Removing the leaf keeps the order and the distinct ids. |
| OrderedSet.PlugRealises | tree.c:55-72 | The node arrays realise the whole tree when they realise the context above the `last` slot and the subtree below it. |
| OrderedSet.Retarget | tree.c:72 | Assigning through `last` (`*last = new_node`, and `*last = NULL` in tree_pop) retargets exactly the slot above the hole. |
| OrderedSet.Drain | test.c:36-38 | Popping until None yields every stored value exactly once. |
| OrderedSet.AddTwoOneThreeThenPop | test.c:31-39 | Adding 2, 1, 3 and popping until empty gives 1, 3, 2, then nothing. |
| OrderedSet.Insert | tree.c:27-48 | The recursive `add` in tree.c's comment: a new node holding d where the search for d ends, and the tree unchanged when d is found. Its meaning is stated by InsertKeys, InsertPresent, InsertOrdered and InsertUnique. |
| OrderedSet.Lookup | tree.c:76-88 | The recursive `contains` in tree.c's comment: left when the key is greater, found when equal, right otherwise. LookupIsMember states its meaning. |
| OrderedSet.PopKey | tree.c:170-181 | The key tree_pop returns: the leaf reached by going left when possible, else right. PopKeys states that it is a stored key. |
| OrderedSet.PopLeaf | tree.c:170-181 | The tree tree_pop leaves: that leaf cut off. PopKeys and PopKeepsShape state what it keeps. |
| Dfs.Rng.Next | dfs.c:20 | rand() yields the next draw of the stream and advances it by one. |
| Dfs.Shuffle | dfs.c:6-41 | The list's nodes are permuted by the Fisher–Yates swaps of `Permute` under the draws taken: one per slot but the last. The list starts at the new first node and keeps its old `end` pointer. Nodes of other lists are unchanged. |
| Dfs.CountNodes | dfs.c:8-9 | The counting loop returns the list's length. |
| Dfs.GatherNodes | dfs.c:11-16 | The copy loop fills the array with the list's nodes in order. |
| Dfs.FisherYates | dfs.c:19-24 | The swap loop rearranges the array as `Permute` says, drawing size - 1 values. |
| Dfs.LinkSlots | dfs.c:26-37 | The relink loop makes the array's order a doubly linked chain with NULL at both ends. Nodes outside the list are untouched. |
| Dfs.Relink | dfs.c:26-37 | The pool's links become the relinked chain. |
| Dfs.PermuteFacts | dfs.c:19-24 | The shuffled nodes are the same distinct nodes. |
| Dfs.OwnedDisjoint | dfs.c:150-162 | Lists of different owners share no node, so clean_maze frees each node once. |
| Dfs.Maze.constructor | dfs.c:45-66 | A rows x cols grid whose cell k holds relocate applied to (k / cols, k % cols), with all lists empty and well formed. |
| Dfs.Maze.PushWall | dfs.c:74 | Pushing onto cell x's walls appends y to that list only. Everything else is unchanged. |
| Dfs.Maze.LinkPair | dfs.c:74-79 | Linking a new neighbour pair both ways extends the progress of the linking loops by that pair. |
| Dfs.Maze.LinkDown | dfs.c:72-75 | Linking cell (r, c) with the cell below it moves the linking progress one down pair on. Coordinates, paths and carve bookkeeping are unchanged. |
| Dfs.Maze.LinkRight | dfs.c:77-79 | Linking cell (r, c) with the cell right of it moves the linking progress one right pair on. Coordinates, paths and carve bookkeeping are unchanged. |
| Dfs.Maze.LinkRow | dfs.c:71-80 | One pass of the inner loop's outer loop links the down and right pairs of every cell of row r but the last. |
| Dfs.Maze.LinkEdgeDown | dfs.c:85-89 | One pass of the right-edge loop links cell (r, cols - 1) with the cell below it. |
| Dfs.Maze.LinkInner | dfs.c:70-81 | The inner loop links every down and right pair of cells outside the last row and column. |
| Dfs.Maze.LinkRightEdge | dfs.c:84-90 | The right-edge loop links the down pairs of the last column. |
| Dfs.Maze.LinkBottomEdge | dfs.c:93-99 | The bottom-edge loop links the right pairs of the last row, which finishes the linking. |
| Dfs.Maze.LinkNeighbours | dfs.c:68-99 | After the three loops, each cell's walls hold every neighbour once and nothing else. |
| Dfs.Maze.ShuffleCell | dfs.c:103-105 | Cell x's walls become Permute of the old walls under the next draws. Every other list is unchanged. |
| Dfs.Maze.ShuffleRow | dfs.c:102-106 | One pass of the shuffle loop's outer loop shuffles the walls of every cell of row r, continuing the row-major shuffle and its draws. |
| Dfs.Maze.ShuffleWalls | dfs.c:101-107 | All wall lists become ShuffleAll of the old ones, in row-major order, and TotalDraws draws are used. |
| Dfs.Maze.RemoveWallAt | dfs.c:131 | Cell x's walls lose position i. The removed node keeps its cell and stays owned by x. |
| Dfs.Maze.RemoveWallData | dfs.c:132 | Cell y's walls become RemoveFirst(walls, c). Nothing else changes. |
| Dfs.Maze.PrependPath | dfs.c:133-135 | The removed wall node goes in front of x's paths. |
| Dfs.Maze.FirstUnvisited | dfs.c:125-128 | The scan returns the first wall whose cell is not visited, or NIL when every neighbour is visited. |
| Dfs.Maze.MoveWall | dfs.c:131-135 | Carving x to y removes wall i from x, removes x from y's walls and puts y in front of x's paths. |
| Dfs.Maze.CarveWall | dfs.c:129-138 | The whole carving step: the state becomes Dig(state, x, i). |
| Dfs.Maze.Descend | dfs.c:129-138 | x and then y are pushed, y is marked visited, and y's parent and depth are recorded. |
| Dfs.Maze.CarveStart | dfs.c:110-120 | The start cell is (draw0 % rows, draw1 % cols), and it is visited and stacked. The state is Begin. |
| Dfs.Maze.Advance | dfs.c:122-142 | One pass of the loop moves the state by Step and keeps the carving invariant. |
| Dfs.Maze.CarveStep | dfs.c:122-142 | One pass of the loop from the concrete state is Step of it. |
| Dfs.Maze.CarveLoop | dfs.c:121-143 | The loop stops with an empty stack, in a state reachable from Begin. |
| Dfs.Maze.Carve | dfs.c:110-143 | From walls holding exactly the neighbours, the carve leaves paths forming a spanning tree rooted at the start, and walls exactly between neighbours not joined by a path. |
| Dfs.GenMaze | dfs.c:43-148 | The maze has the given size and relocated coordinates. Its paths form a spanning tree of the grid, and the remaining walls are exactly the uncarved neighbour pairs. |
| DfsSpec.Pick | dfs.c:20 | The slot swapped with i lies in [i, size). |
| DfsSpec.PickBound | dfs.c:20 | rand() / (RAND_MAX / m + 1) < m. |
| DfsSpec.Permute | dfs.c:19-24 | The swap loop from slot i: swap slot i with Pick(i, size, draw), then continue with the next slot and draw, stopping before the last slot. PermuteMultiset, PermuteDistinct and PermuteCells state what it keeps. |
| DfsSpec.PermuteMultiset | dfs.c:19-24 | The shuffle is a permutation: the same length and the same multiset. |
| DfsSpec.PermuteDistinct | dfs.c:19-24 | Shuffling distinct nodes leaves them distinct. |
| DfsSpec.PermuteCells | dfs.c:19-24 | Shuffling the nodes shuffles their cells the same way. |
| DfsSpec.ShuffleAllMultiset | dfs.c:101-107 | Each cell's walls after the shuffle pass are a permutation of its walls before. |
| DfsSpec.ShuffleAllCounts | dfs.c:101-107 | The shuffle pass keeps how often each neighbour appears in each wall list. |
| DfsSpec.ShuffleAllSnoc | dfs.c:101-107 | Shuffling one more cell uses the draws that follow those of the cells before. |
| DfsSpec.ShuffleOneMore | dfs.c:101-107 | The shuffle loop's invariant advances by one cell. |
| DfsSpec.EmptyWallsMatch | dfs.c:54-66 | Empty wall lists match linking progress zero. |
| DfsSpec.LinkPairStep | dfs.c:74-79 | Appending b to a's walls and a to b's walls matches progress extended by the pair. |
| DfsSpec.FinishedIsAdjacency | dfs.c:68-99 | Once all loops are done, exactly the adjacent cells are linked, each pair once. |
| DfsSpec.DownIsBelow | dfs.c:70-90 | The loops' down pairs are exactly the vertical neighbours. |
| DfsSpec.RightIsRightOf | dfs.c:70-99 | The loops' right pairs are exactly the horizontal neighbours. |
| DfsSpec.DownStep | dfs.c:73-75 | Each inner down pair is new, and linking it extends the progress by that pair. |
| DfsSpec.RightStep | dfs.c:77-79 | Each inner right pair is new, and linking it extends the progress by that pair. |
| DfsSpec.EdgeDownStep | dfs.c:84-90 | Each right-edge pair is new, and linking it extends the progress by that pair. |
| DfsSpec.EdgeRightStep | dfs.c:93-99 | Each bottom-edge pair is new, and linking it extends the progress by that pair. |
| DfsSpec.FirstOutside | dfs.c:125-128 | The first wall not in visited, with every earlier one visited. |
| DfsSpec.Dig | dfs.c:129-138 | One carve: wall i leaves x's walls, the first x leaves y's walls, y goes in front of x's paths, y is visited, x and then y are pushed, and y's parent and depth are recorded. DigWalls and DigInv state what it keeps. |
| DfsSpec.Step | dfs.c:122-142 | One pass of the carve loop: pop x, then Dig through x's first wall to an unvisited cell, or leave x popped when there is none. StepInv and ReachableStep state what it keeps. |
| DfsSpec.BeginInv | dfs.c:115-120 | The state before the carve loop meets the loop invariant. |
| DfsSpec.DigWalls | dfs.c:131-135 | Carving through a wall removes exactly that neighbour pair from the walls and adds it to the paths. |
| DfsSpec.CountsAfter | dfs.c:131-132 | Removing the wall from both ends lowers that pair's count by one and nothing else. |
| DfsSpec.DigInv | dfs.c:129-138 | A carving pass keeps the invariant and visits one more cell. |
| DfsSpec.RetreatInv | dfs.c:123-142 | A pass that finds no unvisited neighbour keeps the invariant. |
| DfsSpec.StepInv | dfs.c:122-142 | A pass keeps the invariant. It either visits a new cell or shortens the stack. |
| DfsSpec.RunInv | dfs.c:121-143 | Every state the loop reaches from Begin meets the invariant. |
| DfsSpec.ReachableStep | dfs.c:121-143 | The loop terminates: each pass lowers the unvisited count, or keeps it and shortens the stack. |
| DfsSpec.ReachableDone | dfs.c:121-143 | When the stack empties, the paths are a spanning tree and the walls are the uncarved neighbour pairs. |
| DfsSpec.CarveDone | dfs.c:121-143 | An empty stack means every cell was visited. |
| DfsSpec.Rooted | dfs.c:129-138 | Following parents from any cell reaches the start: the paths contain no cycle. |
| DfsSpec.OneParent | dfs.c:133-137 | A cell is in exactly one paths list, its parent's, and never in the start's. |
| DfsSpec.AdjacentSymmetric | dfs.c:74-79 | Neighbourhood is symmetric. |
| Grid.IdInRange | dfs.c:54-59 | Cell (r, c) has an id inside the grid, and the id gives back r and c. |
| Grid.RightOfId | dfs.c:77 | maze[r][c+1] is the right neighbour of maze[r][c]. |
| Grid.BelowId | dfs.c:73 | maze[r+1][c] is the neighbour below maze[r][c]. |
| Grid.ClosedSetIsEverything | dfs.c:121-143 | A set of cells closed under neighbourhood and holding one cell holds the whole grid, so the carve visits every cell. |
| Grid.Cells | dfs.c:54-66 | The set of all cell ids has rows * cols elements. |
| MazeMain.HashString | maze.c:58-72 | The loop computes Hash(str): djb2 with xor over the bytes up to the first NUL, folded to 32 bits. |
| MazeMain.FoldWords | maze.c:65-69 | The folding loop xors the two 32-bit halves of the 64-bit hash. |
| MazeMain.StepIsTimes33 | maze.c:62 | (h << 5) + h is h * 33. |
| MazeMain.Djb2Snoc | maze.c:61-63 | Hashing one more byte is one more step. |
| MazeMain.FoldIsWordXor | maze.c:65-69 | The fold is low word xor high word. |
| MazeMain.EmptyStringHash | maze.c:58-72 | The empty string hashes to 5381. |
| MazeMain.Step | maze.c:62 | One byte of the hash loop: (h << 5) + h, xor the byte, modulo 2^64. |
| MazeMain.Djb2 | maze.c:59-63 | 5381, then one Step per byte, in order. |
| MazeMain.Fold | maze.c:65-69 | The low 32 bits xor the high 32 bits. |
| MazeMain.Hash | maze.c:58-72 | The value of hash_string: Fold of Djb2 over the bytes before the first NUL. |
| MazeMain.HashStopsAtNul | maze.c:61 | Bytes after the first NUL do not affect the hash. |
| MazeMain.CString | maze.c:61 | The bytes before the first NUL. |
| MazeMain.Relocate | maze.c:74-77 | The result has odd coordinates, and (r - 1) / 2 recovers the cell. |
| MazeMain.RelocateInjective | maze.c:74-77 | Distinct cells get distinct pixels. |
| MazeMain.TruncDiv | maze.c:229-230 | C division truncates toward zero, for either sign of the divisor. |
| MazeMain.Midpoint | maze.c:229-230 | from + (to - from) / 2 with C's truncating division: the pixel between two cells. |
| MazeMain.ImageWidth | maze.c:209 | The image width as written: 2 * rows + 1. |
| MazeMain.ImageHeight | maze.c:210 | The image height as written: 2 * cols + 1. |
| MazeMain.MidpointIsWallPixel | maze.c:224-233 | The opening between two neighbouring cells is one pixel from each, on an even line. |
| MazeMain.AsWrittenFitsIffSquare | maze.c:209-227 | With the image sized as written, every cell pixel fits iff rows == cols. |
| MazeMain.AsWrittenOverrunsOneByTwo | maze.c:209-227 | In a 1 x 2 maze, cell (0, 1) is drawn at column 3 of an image 3 pixels wide. |
| MazeMain.CorrectedImageHoldsMaze | maze.c:209-233 | With width 2 * cols + 1 and height 2 * rows + 1, every cell pixel and every opening is inside the image. |
| Link.ParamStrings | maze_web/link.py:14-15 | Each parameter renders as `param=value`. |
| Link.LinkStrings | maze_web/link.py:29-30 | Each link renders as its `__str__`. |
| Link.ParamRoundTrip | maze_web/link.py:14-15 | Splitting a rendered parameter at the first `=` gives it back when the name has no `=`. |
| Link.LinkWithoutParams | maze_web/link.py:29-30 | A link without parameters renders as `<ref>`. |
| Link.LinkStringShape | maze_web/link.py:29-30 | A link renders as `<ref>` followed by `; ` and each parameter. |
| Link.LinkRefRoundTrip | maze_web/link.py:29-30 | The target can be read back from a rendered link up to the first `>`. |
| Link.JoinIsPrefixed | maze_web/link.py:29-30 | `sep.join` is the first item followed by sep + item for the rest. |
| Link.PrefixedAppend | maze_web/link.py:29-30 | Joining one more item appends the separator and the item. |
| Link.EmptyHeader | maze_web/link.py:42-43 | A header with no links renders as the empty string. |
| Link.HeaderStringShape | maze_web/link.py:42-43 | A header renders as its links separated by `, `. |
| Link.HeaderAppend | maze_web/link.py:42-43 | Adding a link appends `, ` and that link's rendering. |
| Link.IndexOfChar | maze_web/link.py:14-15 | The first index of a character, or the length when it is absent. |
| Link.Join | maze_web/link.py:30 | Python's `sep.join`: the items with sep between each two, and "" for none. |
| Link.ParamString | maze_web/link.py:14-15 | A parameter renders as `param=value`. |
| Link.LinkString | maze_web/link.py:29-30 | A link renders as `<ref>` and its parameters' renderings, joined by `; `. |
| Link.HeaderString | maze_web/link.py:42-43 | A header renders as its links' renderings joined by `, `. |

## Left out

- I/O is not modelled: the command line, printing, PNG and text files, and the converters (png-to-txt.c, txt-to-png.c). Neither are the Flask and wsgi front end (config.env.py, wsgi.py) or test.c's `strcompare`.
- `rand()` is a parameter: `Rng` holds a fixed stream of draws in [0, 2^31 - 1], glibc's RAND_MAX. `srand` and the seeding from `hash_string` are outside the model.
- Memory is not modelled: `free`, `tree_deallocate`, `stack_deallocate` and `list_deallocate`. clean_maze is modelled only as its precondition, that each node belongs to exactly one list (`Dfs.OwnedDisjoint`). Nodes freed by `list_remove_data` stay in the pool, unreachable.
- The `relocate` callback is a function parameter of `GenMaze`. The repository's own `relocate` is `MazeMain.Relocate`.
- Dfs.Maze.CarveStart: `maze[rand() % rows][rand() % cols]` makes two `rand()` calls whose order C leaves unspecified. The model takes the row's draw first.
- Dfs.GenMaze: the `stack_size` counter of dfs.c is never read and is not modelled.
- Dfs.Maze.MoveWall: a carve records the opening only in the carving cell's paths list, as dfs.c:133-135 does. The carved-to cell's paths do not mention it, so `Carved` looks in both lists.
- Dfs.Maze.CarveWall: dfs.c:129 pushes x before the two list removals at dfs.c:131-132; the model pushes x after them, in `Descend`. The push touches only the stack, so the final state is the same.
- LinkedList.NodePool.RemoveData: the scan (`Find`) and the unlink (`Remove`) are separate methods. The node is not freed.
- OrderedSet.BasicCompare: the `intmax_t` subtraction of two pointers is taken without overflow. Cells are ids `r * cols + c`, not addresses.
- OrderedSet.Tree.constructor: it requires a comparator that is 0 exactly on equal values and antisymmetric. tree.c takes any comparator.
- OrderedSet.Tree.Pop: `tree_pop` signals an empty tree with NULL, so a stored NULL would look like an empty tree. The model returns an Option, and the trees of the program never store NULL.
- OrderedSet.AddTwoOneThreeThenPop: it adds integers under `basic_compare`, where test.c adds strings under `strcmp`. Both orders agree on "1" < "2" < "3".
- MazeMain.AsWrittenFitsIffSquare: the image sizes are unbounded integers. maze.c:209-210 casts `2 * rows + 1` to `int`, which overflows once rows or cols reaches 2^30, and the drawing loops at maze.c:222-223 count in `unsigned short`, so they never reach a row or column past 65535. Neither limit is modelled.
- MazeMain.CorrectedImageHoldsMaze: the same two limits apply. It holds for every size with unbounded sizes; in C it also needs rows and cols below 65536.
- Dfs.Unlink, Dfs.UnlinkData: they state the new header only as a well-linked list of the remaining nodes. The exact new start and end are stated by LinkedList.NodePool.Remove and LinkedList.NodePool.RemoveData, which they call.
- MazeMain.HashString: `unsigned long` is taken as 64 bits and `unsigned int` as 32 bits (LP64).
- The image buffers and pixel colours of maze.c are not modelled, only the coordinates it writes to (`MazeMain`).
- Link: `__repr__` is the same as `__str__`, and the variadic constructors are datatype constructors over sequences.

## Findings

| source | as written | input that shows it | evidently intended | confidence | as-written member | corrected member |
|---|---|---|---|---|---|---|
| maze.c:209-210 | The image gets `width = 2 * rows + 1` and `height = 2 * cols + 1`, but pixels are indexed `img.rows[row][col]`: row by height, column by width. | A 1 x 2 maze: cell (0, 1) is drawn at column 3 of a row that is 3 pixels wide. | width = 2 * cols + 1 and height = 2 * rows + 1, so any rows x cols maze fits (within the integer widths noted under Left out). | not executed | MazeMain.AsWrittenOverrunsOneByTwo | MazeMain.CorrectedImageHoldsMaze |
