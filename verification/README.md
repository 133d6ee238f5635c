# kd-tree construction, queries and path tracing

A Dafny model of the sequential tree logic of a small 2-D kd-tree package:

- `median_split` (splitters.py): stably sort a point list on one coordinate
  and cut it at index `len // 2` into the points below, the median point and
  the points above.
- `create` and the `Node` queries (kdtree.py): recursive median splitting
  with the axis cycling `(axis + 1) % dimension`, and `__bool__`, `is_leaf`,
  `height`, `children`, `inorder`, `level_order`, `is_balanced` and
  `rebalance`.
- `create_paths` and `tracing_convex_hull_points` (algorithms.py): a
  breadth-first walk that labels every node with its branch string from the
  root (`""`, `" L"`, `" R L"`, …), and the labelling of those entries with
  `[i]` or `(i)` according to a convex-hull index set.

Modules follow the source files: `Splitters` (splitters.dfy), `KdTree`
(kdtree.dfy), `Algorithms` (algorithms.dfy), plus `Decimal` (decimal.dfy) for
the `str(i)` rendering of an index and `Wrappers` (wrappers.dfy) for `Option`.

Modelling choices:

- A point is a `seq<int>`. The core only compares coordinates, so integer
  coordinates stand in for floats.
- A tree is `datatype Tree = Empty | Node(p, left, right)`. `Empty` is the
  sentinel `Node()` whose `data` is None and which is falsy. Python nodes are
  objects, but here they are values: "each node once" is stated as "each
  stored point once, with as many entries as points".
- The stable sort is an insertion sort. `SortedStableUnique` proves that a
  sorted, stable rearrangement is unique, so the model agrees with any
  stable sort keyed on the same coordinate, including Python's `list.sort`.
  Stability is stated per key: the points with a given coordinate value come
  out in their input order.
- The split works on a copy in the source. Dafny sequences are values, so
  the caller's sequence is never changed.
- `height` follows the code, not its docstring. The empty sentinel is a
  leaf, so its height is 1, while the docstring promises 0. `Depth` is the
  documented height, and `Height` is proved equal to `max(1, Depth)` when
  no stored point is the empty tuple. An empty-tuple point makes its node
  read as data-less, so `is_leaf` holds there and the height stops early.
- `level_order` and `create_paths` enqueue the root unconditionally. An
  empty tree therefore yields the sentinel itself, with path `""`. After the
  root, only non-empty children are enqueued.
- A path is a string of two-character tokens, `" L"` or `" R"`. `Reach`
  follows a path from the root. A path that reaches a node has `|path| / 2`
  tokens, one per level descended.
- The convex hull is computed outside the model. `TracingConvexHullPoints`
  takes the hull's vertex indices as a parameter `hull: set<nat>`.

## Model

| member | source | states |
|---|---|---|
| Splitters.StableSort | splitters.py:12-13 | the result is a permutation of the input, sorted on the axis coordinate, and stable: for every key, the points with that key keep their input order |
| Splitters.SortedStableUnique | splitters.py:13 | two sequences that are both sorted on the axis and agree on the order within every key are equal |
| Splitters.StableSortIsUnique | splitters.py:13 | every sorted, stable rearrangement of the input equals `StableSort`, so it matches any stable sort on that key |
| Splitters.MedianSplit | splitters.py:11-16 | for a non-empty input: `below` has `n/2` points and `above` has `n - n/2 - 1`; `below + [median] + above` is a sorted, stable permutation of the input; every point below has a coordinate no larger than the median's, and every point above has one no smaller |
| KdTree.Create | kdtree.py:160-180 | no points give the empty sentinel, and only then; the tree stores exactly the input multiset, one node per point; the left subtree gets `n/2` points and the right `n - n/2 - 1`; the kd ordering holds with children split on `(axis + 1) % dim`; at every node the subtree sizes differ by at most one; no stored point is the empty tuple; the node is the point at index `n/2` of the stable sort on the axis, and the left and right subtrees hold exactly the points before and after it there, so at the root the input order decides among equal coordinates |
| KdTree.CreateRecurses | kdtree.py:173-180 | the node is the stable sort's point at index `n/2`, and the subtrees are `create` itself on the next axis applied to the sorted points before and after it, so the input-order tie-break holds at every node and the tree is fully determined by the input order |
| KdTree.CreateIsBalanced | kdtree.py:124-138 | every tree `create` builds satisfies `is_balanced`; its coded height is the number of binary digits of the point count, and 1 for no points |
| KdTree.SizeBalancedIsBalanced | kdtree.py:124-138 | for a tree with no empty-tuple point: if subtree sizes differ by at most one at every node, then the depth is the bit length of the size and subtree heights differ by at most one at every node |
| KdTree.Truthy | kdtree.py:36-39 | a node is truthy exactly when it stores a point, so the empty sentinel is the only falsy node |
| KdTree.Children | kdtree.py:101-122 | yields exactly the non-empty children: left with position 0 before right with position 1; nothing for the sentinel |
| KdTree.Depth | kdtree.py:55-66 | the documented height, which ignores empty leaf-nodes, is 0 exactly for the empty sentinel and never exceeds the number of stored points |
| KdTree.IsLeaf | kdtree.py:41-53 | a node is a leaf exactly when it has no data (the sentinel, or a stored point that is the empty tuple, which Python reads as false) or has no non-empty child |
| KdTree.LeafExamples | kdtree.py:46-50 | `Node()` is a leaf; `Node(1, left=Node(2))` is not |
| KdTree.Height | kdtree.py:55-76 | the coded height is at least 1 and at most the depth that ignores empty leaf-nodes (1 for the sentinel); when no stored point is the empty tuple it equals that depth, or 1 for the sentinel |
| KdTree.EmptyPointLeafExample | kdtree.py:53-76 | a node storing the empty tuple counts as a leaf even with a non-empty child, so its coded height is 1 while its depth is 2 |
| KdTree.CreateEmptyExample | kdtree.py:173-174 | `create` on no points returns the falsy sentinel, which has no children |
| KdTree.CreateOneExample | kdtree.py:64-65 | a tree built from one point has height 1 and no children |
| KdTree.CreateTwoExample | kdtree.py:67-68 | a tree built from two points has height 2 |
| KdTree.CreateThreeExample | kdtree.py:114-115 | a tree built from three points has two children |
| KdTree.IsBalanced | kdtree.py:124-138 | holds exactly when, at every node of the tree, the heights of the two children (0 for an empty child) differ by at most one |
| KdTree.IsBalancedAsWritten | kdtree.py:132-138 | the coded `is_balanced` never returns True; it raises exactly when the root's height test passes, so on every balanced tree; when it returns False the tree is indeed unbalanced |
| KdTree.IsBalancedAsWrittenExample | kdtree.py:132-138 | a one-point tree from `create` is balanced, yet the coded `is_balanced` raises on it |
| KdTree.Inorder | kdtree.py:78-92 | yields one non-empty node per stored point, all inside the tree, and together they hold exactly the tree's points; nothing for the sentinel; the entries before the root all lie in the left subtree and hold exactly its points, the root comes next, and the entries after it all lie in the right subtree and hold exactly its points; the same holds at every node: each entry is immediately preceded by as many entries as its left subtree has points, all inside that left subtree, and immediately followed likewise by its right subtree's; and each entry's left child sits exactly where the in-order of the left subtree puts it (as many places before the entry as the left child's right subtree has points, plus one), and likewise its right child after it, so every node's position is fixed |
| KdTree.InorderDuplicatesExample | kdtree.py:78-92 | with repeated points, a sequence whose left window holds a copy of a grandchild in place of the left child is rejected at the parent |
| KdTree.InorderExample | kdtree.py:78-92 | for a root with a left child that has two leaves, `inorder` yields left leaf, child, right leaf, root; the child-first order is rejected at its first entry |
| KdTree.Rebalance | kdtree.py:94-99 | the rebuilt two-dimensional tree keeps the point multiset and the size, is kd-ordered from axis 0, and is balanced |
| KdTree.Bfs | kdtree.py:148-157 | the queue loop yields the queued nodes first, in queue order (first in, first out) |
| KdTree.BfsVisitsAll | kdtree.py:145-157 | the queue loop yields every point of the queued trees exactly once, and only non-empty nodes when only those were queued |
| KdTree.LevelOrder | kdtree.py:140-157 | starts at the root; an empty tree yields just the sentinel; otherwise one non-empty node per point, together holding exactly the tree's points |
| KdTree.LevelOrderInside | kdtree.py:140-157 | every node yielded is the root or one of its subtrees |
| KdTree.BfsShift | kdtree.py:148-157 | running the queue over `a + b` yields `a` first, then continues as if `a`'s children had been queued behind `b` |
| KdTree.LevelOrderIsLevels | kdtree.py:140-157 | `level_order` equals the level-by-level reference traversal: each whole level, then the level made of its children |
| Algorithms.CreatePaths | algorithms.py:5-22 | the first entry is the root with path `""`; the nodes come in `level_order` order; every path leads from the root to its node; all paths are distinct; path lengths never decrease; paths of equal length come in strictly increasing lexicographic order, so `" L"` before `" R"` at the first token where they differ; every non-empty child of a recorded node is recorded with `" L"` or `" R"` appended to the parent's path |
| Algorithms.CreatePathsEntries | algorithms.py:16-20 | after the root only non-empty nodes get entries; a non-empty tree has one entry per point; an empty tree has only the root entry |
| Algorithms.ReachDepth | algorithms.py:16-20 | a path that reaches a node has an even length; its token count plus the node's own depth is at most the tree's depth |
| Algorithms.Walk | algorithms.py:11-20 | the path walk records the queued entries first, in queue order |
| Algorithms.WalkNodes | algorithms.py:11-20 | the nodes the path walk records are exactly the nodes the `level_order` loop yields from the same queue |
| Algorithms.WalkReaches | algorithms.py:16-20 | if every queued path leads to its node, every recorded path does too |
| Algorithms.WalkLevels | algorithms.py:11-20 | walking from one level of equal-length, distinct paths in lexicographic order records distinct paths in non-decreasing length order, with equal-length paths in lexicographic order |
| Algorithms.WalkClosed | algorithms.py:16-20 | every branch entry of a recorded entry is itself recorded |
| Algorithms.TracingConvexHullPoints | algorithms.py:25-42 | one label per traced entry; label `i` is `[i]` or `(i)` followed by entry `i`'s path, bracketed when `i` is a hull index; it reads back as index `i`, the hull flag `i in hull` and entry `i`'s path; it starts with `[` exactly when `i` is a hull index |
| Algorithms.LabelEntries | algorithms.py:32-42 | one label per entry; label `i` is `[i]` or `(i)` followed by entry `i`'s path, bracketed when `i` is a hull index; it reads back as index `i`, the flag `i in hull` and entry `i`'s path; it starts with `[` exactly when `i` is a hull index |
| Algorithms.FormatLabel | algorithms.py:34-40 | a label starts with `[` exactly for a hull index and with `(` otherwise, ends with the entry's path, and has a digit right after the opening bracket |
| Algorithms.ParseFormatLabel | algorithms.py:34-40 | a label `[i]path` or `(i)path` reads back as the index, the hull flag and the path it was made from |
| Decimal.ParseNatToString | algorithms.py:36-38 | the decimal rendering of an index reads back as that index |

## Left out

- `transform_tree` and `prune_tree` are not part of this model. custom_tree_tests.py:9 imports them from algorithms.py, which does not define them.
- The `scipy.spatial.ConvexHull` call is foreign numeric code. The hull's vertex indices are a parameter. A degenerate hull, which scipy reports as an error, is not modelled.
- TracingConvexHullPoints: on an empty tree the model returns one label, `(0)` or `[0]`, for the sentinel entry. The code instead calls `ConvexHull([None])` there, which raises, so that error is not modelled.
- Create: the `splitter` parameter (kdtree.py:160,176) is not modelled; the model always splits with `median_split`, the default. The recursive calls (kdtree.py:178-179) do not pass `splitter` on, so a custom splitter would apply only at the root anyway.
- Visualization (matplotlib drawing), the demo entry point, and the pickle and float-tolerance test helpers are not core tree logic. `__repr__` is left out too.
- Floating-point coordinates are modelled as integers. Only comparisons are made on them.
- Create: requires `0 < dim`, `axis < dim`, and at least `dim` coordinates in every point. The code only indexes the axes it reaches, and its `points is None` case is folded into the empty sequence.
- Height: a hand-built node with a `None` child is not modelled. There, the code catches the AttributeError and returns 0. Trees from `create` always carry sentinel children, which the model has.
- Inorder: node identity is not modelled, because trees are values. "Each node once" is stated as one entry per stored point, with exactly the tree's points.
- LevelOrder: node identity is not modelled, because trees are values. "Each node once" is stated as one entry per stored point, with exactly the tree's points.
- SizeBalancedIsBalanced: requires that no stored point is the empty tuple, because such a node reads as a leaf and its coded height can fall below its depth. Trees from `create` over points with at least `dim` coordinates meet this.
- IsBalanced: models the evidently intended recursion over the non-empty children. The coded call `self.children()` is modelled separately by `IsBalancedAsWritten` (see Findings).

## Findings

| source | as written | input that shows it | evidently intended | confidence | as-written member | corrected member |
|---|---|---|---|---|---|---|
| kdtree.py:138 | `return all(c.is_balanced for c, _ in self.children())` calls the `children` property's generator, which raises TypeError once the height test passes | `create([(1, 2)], 2).is_balanced` | `all(c.is_balanced for c, _ in self.children)` | high, not executed | KdTree.IsBalancedAsWrittenExample | KdTree.CreateIsBalanced |
