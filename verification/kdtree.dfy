/**
 * The kd-tree of kdtree.py: construction by recursive median splitting with a
 * cycling axis, and the queries on a node (truthiness, leaf test, children,
 * height, balance, in-order and level-order traversal, rebalancing).
 *
 * A node whose `data` is None is the empty sentinel `Empty`; every other node
 * is a `Node` holding a point and two subtrees.
 */
module KdTree {
  import opened Wrappers
  import opened Splitters

  datatype Tree = Empty | Node(p: Point, left: Tree, right: Tree)

  /** Number of points stored in `t`; the sentinel stores none. */
  function Size(t: Tree): nat {
    match t
    case Empty => 0
    case Node(_, l, r) => 1 + Size(l) + Size(r)
  }

  /** The multiset of points stored in `t`. */
  function Points(t: Tree): multiset<Point> {
    match t
    case Empty => multiset{}
    case Node(p, l, r) => multiset{p} + Points(l) + Points(r)
  }

  /** `s` is `t` itself or a subtree reachable from it through children. */
  predicate IsSubtree(s: Tree, t: Tree) {
    s == t || (t.Node? && (IsSubtree(s, t.left) || IsSubtree(s, t.right)))
  }

  /** Height that does not count empty leaf-nodes: the documented meaning of
      `height`, whose docstring gives 0 for an empty tree. */
  function Depth(t: Tree): (d: nat)
    ensures d <= Size(t)
    ensures d == 0 <==> t.Empty?
  {
    match t
    case Empty => 0
    case Node(_, l, r) => 1 + Max(Depth(l), Depth(r))
  }

  function Max(a: nat, b: nat): nat {
    if a < b then b else a
  }

  // ---------------------------------------------------------------------------
  // Node queries
  // ---------------------------------------------------------------------------

  /** `__bool__`: a node is truthy exactly when it stores a point, so the
      empty sentinel is the one falsy node. */
  function Truthy(t: Tree): (b: bool)
    ensures b <==> Size(t) > 0
    ensures b <==> Points(t) != multiset{}
  {
    if t.Node? then
      assert t.p in Points(t);
      true
    else false
  }

  /** The non-empty children of `t` as (child, position) pairs, position 0
      for the left child and 1 for the right one, left first. */
  function Children(t: Tree): (cs: seq<(Tree, nat)>)
    ensures forall i | 0 <= i < |cs| ::
      t.Node? && cs[i].0.Node? && (cs[i].1 == 0 || cs[i].1 == 1)
      && cs[i].0 == (if cs[i].1 == 0 then t.left else t.right)
    ensures forall i, j | 0 <= i < j < |cs| :: cs[i].1 < cs[j].1
    ensures t.Node? && t.left.Node? ==> (t.left, 0) in cs
    ensures t.Node? && t.right.Node? ==> (t.right, 1) in cs
  {
    if t.Empty? then []
    else
      (if t.left.Node? then [(t.left, 0)] else [])
      + (if t.right.Node? then [(t.right, 1)] else [])
  }

  /** `is_leaf`: the node has no data (the sentinel, or a point that is the
      empty tuple, which Python also reads as false) or none of its children
      is non-empty. */
  function IsLeaf(t: Tree): (leaf: bool)
    ensures leaf <==> t.Empty? || t.p == [] || (t.left.Empty? && t.right.Empty?)
  {
    var cs := Children(t);
    t.Empty? || t.p == [] || forall i | 0 <= i < |cs| :: !cs[i].0.Node?
  }

  /** Every stored point has at least one coordinate, so no node reads as
      data-less to `is_leaf`. */
  predicate NonEmptyPoints(t: Tree) {
    t.Empty? || (t.p != [] && NonEmptyPoints(t.left) && NonEmptyPoints(t.right))
  }

  /** `height` as coded: a leaf, and also the empty sentinel, has height 1;
      otherwise one more than the taller child. It never exceeds the
      documented depth (but is 1 for the sentinel), and equals it when no
      stored point is the empty tuple. */
  function Height(t: Tree): (h: nat)
    ensures 1 <= h <= Max(1, Depth(t))
    ensures NonEmptyPoints(t) ==> h == Max(1, Depth(t))
  {
    if IsLeaf(t) then 1 else 1 + Max(Height(t.left), Height(t.right))
  }

  /** The height `is_balanced` uses for a child: 0 for an empty child. */
  function ChildHeight(c: Tree): nat {
    if c.Node? then Height(c) else 0
  }

  /** The height test `is_balanced` makes at one node: the heights of its
      two children differ by at most one (the sentinel passes). */
  predicate HeightsClose(t: Tree) {
    t.Empty? || -1 <= ChildHeight(t.left) - ChildHeight(t.right) <= 1
  }

  /** `is_balanced`: the height test passes at this node and, recursively, at
      its non-empty children; so it holds exactly when the test passes at
      every node of the tree. */
  function IsBalanced(t: Tree): (b: bool)
    ensures b <==> forall s | IsSubtree(s, t) :: HeightsClose(s)
  {
    match t
    case Empty => true
    case Node(_, l, r) => HeightsClose(t) && IsBalanced(l) && IsBalanced(r)
  }

  /** `is_balanced` as the code reads: once the height test passes it calls
      `self.children()`, but `children` is a property whose value, a
      generator, cannot be called, so that path raises a TypeError (`None`
      here); only a failed height test returns a value. So it never answers
      True, raises on every tree balanced in the intended sense, and its
      False is always right. */
  function IsBalancedAsWritten(t: Tree): (r: Option<bool>)
    ensures r != Some(true)
    ensures r == None <==> HeightsClose(t)
    ensures IsBalanced(t) ==> r == None
    ensures r == Some(false) ==> !IsBalanced(t)
  {
    var lh := if t.Node? then ChildHeight(t.left) else 0;
    var rh := if t.Node? then ChildHeight(t.right) else 0;
    if lh - rh > 1 || rh - lh > 1 then Some(false) else None
  }

  /** A one-point tree built by `create` is balanced, yet the coded
      `is_balanced` raises on it. */
  lemma IsBalancedAsWrittenExample(p: Point)
    requires 2 <= |p|
    ensures IsBalanced(Create([p], 2, 0))
    ensures IsBalancedAsWritten(Create([p], 2, 0)) == None
  {
    CreateIsBalanced([p], 2, 0);
  }

  /** At every node the two subtrees hold numbers of points that differ by at
      most one. */
  predicate SizeBalanced(t: Tree) {
    match t
    case Empty => true
    case Node(_, l, r) =>
      -1 <= Size(l) - Size(r) <= 1 && SizeBalanced(l) && SizeBalanced(r)
  }

  // ---------------------------------------------------------------------------
  // Balance: equal split sizes give equal heights up to one
  // ---------------------------------------------------------------------------

  /** Number of binary digits of `n`: the height of a size-balanced tree of
      `n` points. */
  function Bits(n: nat): nat {
    if n == 0 then 0 else 1 + Bits(n / 2)
  }

  lemma {:induction false} BitsMonotone(a: nat, b: nat)
    requires a <= b
    ensures Bits(a) <= Bits(b)
    decreases b
  {
    if a != 0 {
      BitsMonotone(a / 2, b / 2);
    }
  }

  lemma {:induction false} BitsStep(n: nat)
    ensures Bits(n) <= Bits(n + 1) <= Bits(n) + 1
    decreases n
  {
    if n != 0 {
      BitsStep(n / 2);
      BitsMonotone(n / 2, (n + 1) / 2);
    }
  }

  /** Two sizes that differ by at most one have digit counts that differ by
      at most one, and a node over them has one digit more than the larger. */
  lemma BitsOfSplit(a: nat, b: nat, n: nat)
    requires -1 <= a - b <= 1 && n == 1 + a + b
    ensures Bits(n) == 1 + Max(Bits(a), Bits(b))
    ensures -1 <= Bits(a) - Bits(b) <= 1
  {
    if a <= b {
      BitsOfPair(a, b, n);
    } else {
      BitsOfPair(b, a, n);
    }
  }

  /** The one-sided case of `BitsOfSplit`, with `big` the larger size. */
  lemma BitsOfPair(small: nat, big: nat, n: nat)
    requires small <= big <= small + 1 && n == 1 + small + big
    ensures Bits(n) == 1 + Bits(big)
    ensures Bits(small) <= Bits(big) <= Bits(small) + 1
  {
    assert n / 2 == big;
    BitsMonotone(small, big);
    BitsStep(small);
    BitsMonotone(big, small + 1);
  }

  /** A size-balanced tree of `n` points has depth `Bits(n)` and is balanced
      in the height sense of `is_balanced`. */
  lemma {:induction false} SizeBalancedIsBalanced(t: Tree)
    requires SizeBalanced(t) && NonEmptyPoints(t)
    ensures Depth(t) == Bits(Size(t))
    ensures IsBalanced(t)
  {
    match t
    case Empty =>
    case Node(_, l, r) =>
      SizeBalancedIsBalanced(l);
      SizeBalancedIsBalanced(r);
      DepthBitsStep(t);
      ChildHeightDepth(l);
      ChildHeightDepth(r);
  }

  lemma DepthBitsStep(t: Tree)
    requires t.Node? && -1 <= Size(t.left) - Size(t.right) <= 1
    requires Depth(t.left) == Bits(Size(t.left)) && Depth(t.right) == Bits(Size(t.right))
    ensures Depth(t) == Bits(Size(t)) && -1 <= Depth(t.left) - Depth(t.right) <= 1
  {
    BitsOfSplit(Size(t.left), Size(t.right), Size(t));
  }

  /** The height `is_balanced` reads off a child is the child's depth. */
  lemma ChildHeightDepth(c: Tree)
    requires NonEmptyPoints(c)
    ensures ChildHeight(c) == Depth(c)
  {
    if c.Node? {
      assert Height(c) == Max(1, Depth(c));
    }
  }

  // ---------------------------------------------------------------------------
  // Construction
  // ---------------------------------------------------------------------------

  /** The kd ordering for a node split on `axis`: its left subtree holds no
      larger and its right subtree no smaller `axis` coordinate, and the
      children are split on the next axis, `(axis + 1) % dim`. */
  predicate KdOrdered(t: Tree, dim: nat, axis: nat)
    requires 0 < dim
  {
    match t
    case Empty => true
    case Node(p, l, r) =>
      && axis < |p|
      && (forall q | q in Points(l) :: axis < |q| && q[axis] <= p[axis])
      && (forall q | q in Points(r) :: axis < |q| && p[axis] <= q[axis])
      && KdOrdered(l, dim, (axis + 1) % dim)
      && KdOrdered(r, dim, (axis + 1) % dim)
  }

  /** Every point has at least `dim` coordinates. */
  predicate HasDim(points: seq<Point>, dim: nat) {
    forall q <- points :: dim <= |q|
  }

  /** `create`: the median of `points` on `axis` becomes the node, the points
      before and after it are built into the left and right subtrees on the
      next axis. No points give the empty sentinel. Among points that share
      the median's coordinate, the node is the one at index `|points| / 2`
      of the stable sort, so ties are broken by input order. */
  function Create(points: seq<Point>, dim: nat, axis: nat): (t: Tree)
    requires 0 < dim && axis < dim
    requires forall q <- points :: dim <= |q|
    ensures t == Empty <==> points == []
    ensures Size(t) == |points| && Points(t) == multiset(points)
    ensures t.Node? ==> Size(t.left) == |points| / 2 && Size(t.right) == |points| - |points| / 2 - 1
    ensures KdOrdered(t, dim, axis)
    ensures SizeBalanced(t) && NonEmptyPoints(t)
    ensures t.Node? ==> t.p == StableSort(points, axis)[|points| / 2]
    ensures t.Node? ==> Points(t.left) == multiset(StableSort(points, axis)[..|points| / 2])
    ensures t.Node? ==> Points(t.right) == multiset(StableSort(points, axis)[|points| / 2 + 1..])
    decreases |points|
  {
    if points == [] then Empty
    else
      var s := MedianSplit(points, axis);
      var next := (axis + 1) % dim;
      MedianOfSortPoints(points, axis);
      SplitParts(points, s, dim);
      assert axis < |s.median|;
      var l := Create(s.below, dim, next);
      var r := Create(s.above, dim, next);
      CreateNode(points, dim, axis, s, l, r);
      Node(s.median, l, r)
  }

  /** The subtrees `create` builds are `create` itself applied, on the next
      axis, to the stably sorted points before and after the median, so the
      tie-break by input order holds at every node of the tree. */
  lemma CreateRecurses(points: seq<Point>, dim: nat, axis: nat)
    requires 0 < dim && axis < dim
    requires forall q <- points :: dim <= |q|
    requires points != []
    ensures HasDim(StableSort(points, axis)[..|points| / 2], dim)
    ensures HasDim(StableSort(points, axis)[|points| / 2 + 1..], dim)
    ensures Create(points, dim, axis).p == StableSort(points, axis)[|points| / 2]
    ensures Create(points, dim, axis).left
      == Create(StableSort(points, axis)[..|points| / 2], dim, (axis + 1) % dim)
    ensures Create(points, dim, axis).right
      == Create(StableSort(points, axis)[|points| / 2 + 1..], dim, (axis + 1) % dim)
  {
    var s := MedianSplit(points, axis);
    MedianOfSort(points, axis);
    SplitParts(points, s, dim);
  }

  /** The node `Create` assembles from a median split and the subtrees built
      from its two parts has all of `Create`'s promised properties. */
  lemma CreateNode(points: seq<Point>, dim: nat, axis: nat, s: Split, l: Tree, r: Tree)
    requires 0 < dim && axis < |s.median|
    requires |s.below| == |points| / 2 && |s.above| == |points| - |points| / 2 - 1
    requires forall q <- s.below :: axis < |q| && q[axis] <= s.median[axis]
    requires forall q <- s.above :: axis < |q| && s.median[axis] <= q[axis]
    requires multiset(points) == multiset(s.below) + multiset{s.median} + multiset(s.above)
    requires Size(l) == |s.below| && Points(l) == multiset(s.below)
    requires Size(r) == |s.above| && Points(r) == multiset(s.above)
    requires KdOrdered(l, dim, (axis + 1) % dim) && KdOrdered(r, dim, (axis + 1) % dim)
    requires SizeBalanced(l) && SizeBalanced(r)
    requires NonEmptyPoints(l) && NonEmptyPoints(r)
    ensures Size(Node(s.median, l, r)) == |points|
    ensures Points(Node(s.median, l, r)) == multiset(points)
    ensures KdOrdered(Node(s.median, l, r), dim, axis)
    ensures SizeBalanced(Node(s.median, l, r)) && NonEmptyPoints(Node(s.median, l, r))
  {
    var t := Node(s.median, l, r);
    assert Size(t) == |points| by {
      assert Size(t) == 1 + |s.below| + |s.above|;
    }
    assert Points(t) == multiset(points) by {
      assert Points(t) == multiset{s.median} + multiset(s.below) + multiset(s.above);
    }
    assert SizeBalanced(t) by {
      HalvesDiffer(|points|);
    }
    AllAtMost(Points(l), s.below, axis, s.median);
    AllAtLeast(Points(r), s.above, axis, s.median);
  }

  /** The two parts of a split at `n / 2` differ in size by at most one. */
  lemma HalvesDiffer(n: nat)
    ensures 0 <= n / 2 - (n - n / 2 - 1) <= 1
  {
  }

  /** Points taken from a part whose coordinates are at most `m`'s stay at
      most `m`'s. */
  lemma AllAtMost(pts: multiset<Point>, part: seq<Point>, axis: nat, m: Point)
    requires pts == multiset(part) && axis < |m|
    requires forall q <- part :: axis < |q| && q[axis] <= m[axis]
    ensures forall q | q in pts :: axis < |q| && q[axis] <= m[axis]
  {
    assert forall q | q in pts :: q in part;
  }

  /** Points taken from a part whose coordinates are at least `m`'s stay at
      least `m`'s. */
  lemma AllAtLeast(pts: multiset<Point>, part: seq<Point>, axis: nat, m: Point)
    requires pts == multiset(part) && axis < |m|
    requires forall q <- part :: axis < |q| && m[axis] <= q[axis]
    ensures forall q | q in pts :: axis < |q| && m[axis] <= q[axis]
  {
    assert forall q | q in pts :: q in part;
  }

  /** A tree built by `create` is balanced, and its height as coded is the
      number of binary digits of the point count (but 1 for no points). */
  lemma CreateIsBalanced(points: seq<Point>, dim: nat, axis: nat)
    requires 0 < dim && axis < dim
    requires forall q <- points :: dim <= |q|
    ensures IsBalanced(Create(points, dim, axis))
    ensures Height(Create(points, dim, axis)) == Max(1, Bits(|points|))
  {
    SizeBalancedIsBalanced(Create(points, dim, axis));
  }

  /** The split's parts are the slices of the stable sort around index
      `|points| / 2`. */
  lemma MedianOfSort(points: seq<Point>, axis: nat)
    requires |points| > 0 && HasAxis(points, axis)
    ensures MedianSplit(points, axis).median == StableSort(points, axis)[|points| / 2]
    ensures MedianSplit(points, axis).below == StableSort(points, axis)[..|points| / 2]
    ensures MedianSplit(points, axis).above == StableSort(points, axis)[|points| / 2 + 1..]
  {
  }

  /** The points of the split's parts are those of the stable sort's slices
      around index `|points| / 2`. */
  lemma MedianOfSortPoints(points: seq<Point>, axis: nat)
    requires |points| > 0 && HasAxis(points, axis)
    ensures MedianSplit(points, axis).median == StableSort(points, axis)[|points| / 2]
    ensures multiset(MedianSplit(points, axis).below)
      == multiset(StableSort(points, axis)[..|points| / 2])
    ensures multiset(MedianSplit(points, axis).above)
      == multiset(StableSort(points, axis)[|points| / 2 + 1..])
  {
    MedianOfSort(points, axis);
  }

  /** The parts of a median split hold the points' multiset between them,
      and every point in them keeps at least `dim` coordinates. */
  lemma SplitParts(points: seq<Point>, s: Split, dim: nat)
    requires forall q <- points :: dim <= |q|
    requires multiset(s.below + [s.median] + s.above) == multiset(points)
    ensures multiset(points) == multiset(s.below) + multiset{s.median} + multiset(s.above)
    ensures dim <= |s.median|
    ensures forall q <- s.below :: dim <= |q|
    ensures forall q <- s.above :: dim <= |q|
  {
    var all := s.below + [s.median] + s.above;
    assert forall q <- all :: q in multiset(points);
    assert s.median in all;
    assert forall q <- s.below :: q in all;
    assert forall q <- s.above :: q in all;
  }

  // ---------------------------------------------------------------------------
  // Traversals
  // ---------------------------------------------------------------------------

  /** The `data` of the non-empty nodes of `ns`, in order. */
  function Data(ns: seq<Tree>): seq<Point> {
    if ns == [] then [] else (if ns[0].Node? then [ns[0].p] else []) + Data(ns[1..])
  }

  lemma {:induction false} DataConcat(a: seq<Tree>, b: seq<Tree>)
    ensures Data(a + b) == Data(a) + Data(b)
    decreases |a|
  {
    if a == [] {
      assert a + b == b;
    } else {
      assert (a + b)[0] == a[0];
      assert (a + b)[1..] == a[1..] + b;
      DataConcat(a[1..], b);
    }
  }

  /** When every entry is a non-empty node, `Data` has one point per entry. */
  lemma {:induction false} DataOfNodes(ns: seq<Tree>)
    requires forall x <- ns :: x.Node?
    ensures |Data(ns)| == |ns|
    decreases |ns|
  {
    if ns != [] {
      assert ns[0] in ns;
      DataOfNodes(ns[1..]);
    }
  }

  /** `inorder`: the left subtree's nodes, then the node, then the right
      subtree's nodes; nothing for the empty sentinel. */
  function Inorder(t: Tree): (ns: seq<Tree>)
    ensures |ns| == Size(t)
    ensures forall i | 0 <= i < |ns| :: ns[i].Node? && IsSubtree(ns[i], t)
    ensures multiset(Data(ns)) == Points(t)
    ensures t.Node? ==> ns[Size(t.left)] == t
    ensures t.Node? ==>
      && (forall i | 0 <= i < Size(t.left) :: IsSubtree(ns[i], t.left))
      && (forall i | Size(t.left) < i < |ns| :: IsSubtree(ns[i], t.right))
    ensures t.Node? ==>
      && multiset(Data(ns[..Size(t.left)])) == Points(t.left)
      && multiset(Data(ns[Size(t.left) + 1..])) == Points(t.right)
    ensures forall i | 0 <= i < |ns| :: InOrderAt(ns, i)
    decreases t, 1
  {
    match t
    case Empty => []
    case Node(p, l, r) =>
      var ls, rs := Inorder(l), Inorder(r);
      InorderNode(t, ls, rs);
      InorderStepLocal(t);
      ls + [t] + rs
  }

  /** Entry `i` of `ns` sits in in-order position for its own subtree: the
      `Size` of its left subtree entries just before it all lie in that left
      subtree, and the `Size` of its right subtree entries just after it all
      lie in that right subtree. */
  predicate InOrderAt(ns: seq<Tree>, i: int)
    requires 0 <= i < |ns|
  {
    && ns[i].Node?
    && Size(ns[i].left) <= i && i + Size(ns[i].right) < |ns|
    && (forall j | i - Size(ns[i].left) <= j < i :: IsSubtree(ns[j], ns[i].left))
    && (forall j | i < j <= i + Size(ns[i].right) :: IsSubtree(ns[j], ns[i].right))
    && (ns[i].left.Node? ==> ns[i - 1 - Size(ns[i].left.right)] == ns[i].left)
    && (ns[i].right.Node? ==> ns[i + 1 + Size(ns[i].right.left)] == ns[i].right)
  }

  /** One step of `inorder` puts every entry in in-order position, given
      that the subtrees' sequences do. */
  lemma InorderStepLocal(t: Tree)
    requires t.Node?
    ensures forall i | 0 <= i < |Inorder(t.left) + [t] + Inorder(t.right)| ::
      InOrderAt(Inorder(t.left) + [t] + Inorder(t.right), i)
    decreases t, 0
  {
    InorderNodeLocal(t, Inorder(t.left), Inorder(t.right));
  }

  /** Placing the in-order sequences of the subtrees around the node puts
      every entry, the node included, in in-order position. */
  lemma InorderNodeLocal(t: Tree, ls: seq<Tree>, rs: seq<Tree>)
    requires t.Node?
    requires |ls| == Size(t.left) && |rs| == Size(t.right)
    requires forall i | 0 <= i < |ls| :: IsSubtree(ls[i], t.left)
    requires forall i | 0 <= i < |rs| :: IsSubtree(rs[i], t.right)
    requires t.left.Node? ==> ls[Size(t.left.left)] == t.left
    requires t.right.Node? ==> rs[Size(t.right.left)] == t.right
    requires forall i | 0 <= i < |ls| :: InOrderAt(ls, i)
    requires forall i | 0 <= i < |rs| :: InOrderAt(rs, i)
    ensures forall i | 0 <= i < |ls + [t] + rs| :: InOrderAt(ls + [t] + rs, i)
  {
    var ns := ls + [t] + rs;
    InOrderAllShift([], ls, [t] + rs);
    assert [] + ls + ([t] + rs) == ns;
    InOrderAllShift(ls + [t], rs, []);
    assert ls + [t] + rs + [] == ns;
    InOrderRoot(t, ls, rs);
  }

  /** In-order position of every entry is kept when entries are added on
      either side. */
  lemma InOrderAllShift(pre: seq<Tree>, ns: seq<Tree>, post: seq<Tree>)
    requires forall i | 0 <= i < |ns| :: InOrderAt(ns, i)
    ensures forall i | |pre| <= i < |pre| + |ns| :: InOrderAt(pre + ns + post, i)
  {
    forall i | |pre| <= i < |pre| + |ns| ensures InOrderAt(pre + ns + post, i) {
      InOrderShift(pre, ns, post, i - |pre|);
    }
  }

  /** In-order position is kept when entries are added on either side. */
  lemma InOrderShift(pre: seq<Tree>, ns: seq<Tree>, post: seq<Tree>, i: int)
    requires 0 <= i < |ns| && InOrderAt(ns, i)
    ensures InOrderAt(pre + ns + post, |pre| + i)
  {
    var all := pre + ns + post;
    var k := |pre| + i;
    var x := ns[i];
    assert all[k] == x;
    forall j | k - Size(x.left) <= j < k ensures IsSubtree(all[j], x.left) {
      assert all[j] == ns[j - |pre|];
    }
    forall j | k < j <= k + Size(x.right) ensures IsSubtree(all[j], x.right) {
      assert all[j] == ns[j - |pre|];
    }
    if x.left.Node? {
      assert all[k - 1 - Size(x.left.right)] == ns[i - 1 - Size(x.left.right)];
    }
    if x.right.Node? {
      assert all[k + 1 + Size(x.right.left)] == ns[i + 1 + Size(x.right.left)];
    }
  }

  /** The node itself, between its subtrees' entries, is in in-order
      position. */
  lemma InOrderRoot(t: Tree, ls: seq<Tree>, rs: seq<Tree>)
    requires t.Node?
    requires |ls| == Size(t.left) && |rs| == Size(t.right)
    requires forall i | 0 <= i < |ls| :: IsSubtree(ls[i], t.left)
    requires forall i | 0 <= i < |rs| :: IsSubtree(rs[i], t.right)
    requires t.left.Node? ==> ls[Size(t.left.left)] == t.left
    requires t.right.Node? ==> rs[Size(t.right.left)] == t.right
    ensures InOrderAt(ls + [t] + rs, |ls|)
  {
    var ns := ls + [t] + rs;
    assert ns[|ls|] == t;
    if t.left.Node? {
      assert ns[|ls| - 1 - Size(t.left.right)] == ls[Size(t.left.left)];
    }
    if t.right.Node? {
      assert ns[|ls| + 1 + Size(t.right.left)] == rs[Size(t.right.left)];
    }
    forall j | 0 <= j < |ls| ensures IsSubtree(ns[j], t.left) {
      assert ns[j] == ls[j];
    }
    forall j | |ls| < j <= |ls| + |rs| ensures IsSubtree(ns[j], t.right) {
      assert ns[j] == rs[j - |ls| - 1];
    }
  }

  /** Joining the in-order sequences of the two subtrees around the node
      keeps `Inorder`'s promises one level up. */
  lemma InorderNode(t: Tree, ls: seq<Tree>, rs: seq<Tree>)
    requires t.Node?
    requires |ls| == Size(t.left) && |rs| == Size(t.right)
    requires forall i | 0 <= i < |ls| :: ls[i].Node? && IsSubtree(ls[i], t.left)
    requires forall i | 0 <= i < |rs| :: rs[i].Node? && IsSubtree(rs[i], t.right)
    requires multiset(Data(ls)) == Points(t.left) && multiset(Data(rs)) == Points(t.right)
    ensures |ls + [t] + rs| == Size(t)
    ensures forall i | 0 <= i < |ls + [t] + rs| :: (ls + [t] + rs)[i].Node? && IsSubtree((ls + [t] + rs)[i], t)
    ensures multiset(Data(ls + [t] + rs)) == Points(t)
    ensures (ls + [t] + rs)[Size(t.left)] == t
    ensures forall i | 0 <= i < Size(t.left) :: IsSubtree((ls + [t] + rs)[i], t.left)
    ensures forall i | Size(t.left) < i < |ls + [t] + rs| :: IsSubtree((ls + [t] + rs)[i], t.right)
    ensures multiset(Data((ls + [t] + rs)[..Size(t.left)])) == Points(t.left)
    ensures multiset(Data((ls + [t] + rs)[Size(t.left) + 1..])) == Points(t.right)
  {
    InorderNodeInside(t, ls, rs);
    InorderNodeData(t, ls, rs);
    InorderNodeSides(t, ls, rs);
  }

  /** The left subtree's entries come before the node and the right
      subtree's after it. */
  lemma InorderNodeSides(t: Tree, ls: seq<Tree>, rs: seq<Tree>)
    requires t.Node? && |ls| == Size(t.left)
    requires forall i | 0 <= i < |ls| :: IsSubtree(ls[i], t.left)
    requires forall i | 0 <= i < |rs| :: IsSubtree(rs[i], t.right)
    ensures forall i | 0 <= i < Size(t.left) :: IsSubtree((ls + [t] + rs)[i], t.left)
    ensures forall i | Size(t.left) < i < |ls + [t] + rs| :: IsSubtree((ls + [t] + rs)[i], t.right)
    ensures (ls + [t] + rs)[..Size(t.left)] == ls
    ensures (ls + [t] + rs)[Size(t.left) + 1..] == rs
  {
    var ns := ls + [t] + rs;
    assert ns[..|ls|] == ls;
    assert ns[|ls| + 1..] == rs;
    forall i | |ls| < i < |ns| ensures IsSubtree(ns[i], t.right) {
      assert ns[i] == rs[i - |ls| - 1];
    }
  }

  lemma InorderNodeInside(t: Tree, ls: seq<Tree>, rs: seq<Tree>)
    requires t.Node?
    requires forall i | 0 <= i < |ls| :: ls[i].Node? && IsSubtree(ls[i], t.left)
    requires forall i | 0 <= i < |rs| :: rs[i].Node? && IsSubtree(rs[i], t.right)
    ensures forall i | 0 <= i < |ls + [t] + rs| :: (ls + [t] + rs)[i].Node? && IsSubtree((ls + [t] + rs)[i], t)
  {
    var ns := ls + [t] + rs;
    forall i | 0 <= i < |ns| ensures ns[i].Node? && IsSubtree(ns[i], t) {
      if i < |ls| {
        assert ns[i] == ls[i];
        SubtreeOfChild(ls[i], t);
      } else if i > |ls| {
        assert ns[i] == rs[i - |ls| - 1];
        SubtreeOfChild(rs[i - |ls| - 1], t);
      } else {
        assert ns[i] == t;
      }
    }
  }

  lemma SubtreeOfChild(s: Tree, t: Tree)
    requires t.Node? && (IsSubtree(s, t.left) || IsSubtree(s, t.right))
    ensures IsSubtree(s, t)
  {
  }

  lemma InorderNodeData(t: Tree, ls: seq<Tree>, rs: seq<Tree>)
    requires t.Node?
    requires multiset(Data(ls)) == Points(t.left) && multiset(Data(rs)) == Points(t.right)
    ensures multiset(Data(ls + [t] + rs)) == Points(t)
  {
    DataConcat(ls + [t], rs);
    DataConcat(ls, [t]);
    assert Data([t]) == [t.p];
  }

  /** `rebalance`: a fresh two-dimensional tree built from the in-order
      points. It keeps the points and is balanced and kd-ordered. */
  function Rebalance(t: Tree): (r: Tree)
    requires forall q | q in Points(t) :: 2 <= |q|
    ensures Points(r) == Points(t) && Size(r) == Size(t)
    ensures KdOrdered(r, 2, 0) && SizeBalanced(r) && IsBalanced(r)
  {
    var pts := Data(Inorder(t));
    assert forall q <- pts :: 2 <= |q| by {
      forall q <- pts ensures 2 <= |q| {
        assert q in multiset(pts);
      }
    }
    assert |pts| == Size(t) by {
      assert |multiset(pts)| == |pts|;
      PointsCount(t);
    }
    CreateIsBalanced(pts, 2, 0);
    Create(pts, 2, 0)
  }

  /** Nodes of `t` counting empty sentinels too; it shrinks strictly from a
      node to its children and measures the work left in a traversal queue. */
  function Weight(t: Tree): nat {
    match t
    case Empty => 1
    case Node(_, l, r) => 1 + Weight(l) + Weight(r)
  }

  function ForestWeight(q: seq<Tree>): nat {
    if q == [] then 0 else Weight(q[0]) + ForestWeight(q[1..])
  }

  lemma {:induction false} ForestWeightConcat(a: seq<Tree>, b: seq<Tree>)
    ensures ForestWeight(a + b) == ForestWeight(a) + ForestWeight(b)
    decreases |a|
  {
    if a == [] {
      assert a + b == b;
    } else {
      assert (a + b)[0] == a[0];
      assert (a + b)[1..] == a[1..] + b;
      ForestWeightConcat(a[1..], b);
    }
  }

  /** All points stored in the trees of `q`. */
  function ForestPoints(q: seq<Tree>): multiset<Point> {
    if q == [] then multiset{} else Points(q[0]) + ForestPoints(q[1..])
  }

  lemma {:induction false} ForestPointsConcat(a: seq<Tree>, b: seq<Tree>)
    ensures ForestPoints(a + b) == ForestPoints(a) + ForestPoints(b)
    decreases |a|
  {
    if a == [] {
      assert a + b == b;
    } else {
      assert (a + b)[0] == a[0];
      assert (a + b)[1..] == a[1..] + b;
      ForestPointsConcat(a[1..], b);
    }
  }

  /** The children `level_order` enqueues after visiting `t`: the non-empty
      ones, left before right. */
  function Kids(t: Tree): seq<Tree> {
    if t.Empty? then []
    else
      (if t.left.Node? then [t.left] else []) + (if t.right.Node? then [t.right] else [])
  }

  /** The enqueued children are non-empty, lighter than their parent, and
      hold its points except the parent's own. */
  lemma KidsFacts(t: Tree)
    ensures ForestWeight(Kids(t)) < Weight(t)
    ensures ForestPoints(Kids(t)) + Own(t) == Points(t)
    ensures forall k <- Kids(t) :: k.Node?
  {
    if t.Node? {
      var ls := if t.left.Node? then [t.left] else [];
      var rs := if t.right.Node? then [t.right] else [];
      ForestWeightConcat(ls, rs);
      ForestPointsConcat(ls, rs);
      ChildForest(t.left);
      ChildForest(t.right);
    }
  }

  /** The queue of a child that is enqueued exactly when it is non-empty
      weighs no more than the child and holds its points. */
  lemma ChildForest(c: Tree)
    ensures ForestWeight(if c.Node? then [c] else []) <= Weight(c)
    ensures ForestPoints(if c.Node? then [c] else []) == Points(c)
  {
    if c.Node? {
      assert [c][1..] == [];
    }
  }

  /** The loop of `level_order` on queue `q`: pop the front node, yield it,
      and enqueue its non-empty children. */
  function Bfs(q: seq<Tree>): (ns: seq<Tree>)
    ensures |q| <= |ns| && ns[..|q|] == q
    decreases ForestWeight(q)
  {
    if q == [] then []
    else
      KidsFacts(q[0]);
      ForestWeightConcat(q[1..], Kids(q[0]));
      var rest := Bfs(q[1..] + Kids(q[0]));
      QueueFront(q, q[1..] + Kids(q[0]), rest);
      [q[0]] + rest
  }

  /** A queue loop that yields its queue first keeps doing so after one turn:
      popping the front and queueing more behind the rest. */
  lemma QueueFront<T>(q: seq<T>, next: seq<T>, rest: seq<T>)
    requires q != [] && |q| - 1 <= |next| && next[..|q| - 1] == q[1..]
    requires |next| <= |rest| && rest[..|next|] == next
    ensures |q| <= |[q[0]] + rest| && ([q[0]] + rest)[..|q|] == q
  {
    assert rest[..|q| - 1] == q[1..];
    assert q == [q[0]] + q[1..];
  }

  /** The queue loop yields every point stored in the queued trees, each
      exactly once, and only non-empty nodes when only those were queued. */
  lemma {:induction false} BfsVisitsAll(q: seq<Tree>)
    ensures multiset(Data(Bfs(q))) == ForestPoints(q)
    ensures (forall x <- q :: x.Node?) ==> (forall x <- Bfs(q) :: x.Node?)
    decreases ForestWeight(q)
  {
    if q != [] {
      var next := q[1..] + Kids(q[0]);
      KidsFacts(q[0]);
      ForestWeightConcat(q[1..], Kids(q[0]));
      BfsVisitsAll(next);
      BfsStep(q, Bfs(next));
    }
  }

  /** One step of the queue loop keeps `BfsVisitsAll`'s promises: the front
      node followed by the traversal of the rest of the queue and the front
      node's children. */
  lemma BfsStep(q: seq<Tree>, rest: seq<Tree>)
    requires q != []
    requires multiset(Data(rest)) == ForestPoints(q[1..] + Kids(q[0]))
    requires (forall x <- q[1..] + Kids(q[0]) :: x.Node?) ==> (forall x <- rest :: x.Node?)
    ensures multiset(Data([q[0]] + rest)) == ForestPoints(q)
    ensures (forall x <- q :: x.Node?) ==> (forall x <- [q[0]] + rest :: x.Node?)
  {
    BfsStepData(q, rest);
    if forall x <- q :: x.Node? {
      KidsFacts(q[0]);
      assert q[0] in q;
      assert forall x <- q[1..] :: x in q;
    }
  }

  lemma BfsStepData(q: seq<Tree>, rest: seq<Tree>)
    requires q != []
    requires multiset(Data(rest)) == ForestPoints(q[1..] + Kids(q[0]))
    ensures multiset(Data([q[0]] + rest)) == ForestPoints(q)
  {
    var x := q[0];
    DataCons(x, rest);
    ForestPointsConcat(q[1..], Kids(x));
    KidsFacts(x);
    ForestPointsCons(q);
  }

  /** The point a node contributes itself: none for the sentinel. */
  function Own(t: Tree): multiset<Point> {
    if t.Node? then multiset{t.p} else multiset{}
  }

  lemma DataCons(x: Tree, rest: seq<Tree>)
    ensures multiset(Data([x] + rest)) == Own(x) + multiset(Data(rest))
  {
    DataConcat([x], rest);
    assert Data([x]) == if x.Node? then [x.p] else [];
  }

  lemma ForestPointsCons(q: seq<Tree>)
    requires q != []
    ensures ForestPoints(q) == Points(q[0]) + ForestPoints(q[1..])
  {
  }

  /** `level_order`: breadth-first from the root. The root is yielded even
      when it is the empty sentinel; after it only non-empty nodes, each
      point of the tree exactly once. */
  function LevelOrder(t: Tree): (ns: seq<Tree>)
    ensures |ns| > 0 && ns[0] == t
    ensures t.Empty? ==> ns == [t]
    ensures t.Node? ==> |ns| == Size(t) && (forall x <- ns :: x.Node?)
    ensures multiset(Data(ns)) == Points(t)
  {
    var ns := Bfs([t]);
    BfsVisitsAll([t]);
    assert ForestPoints([t]) == Points(t);
    NodesCount(t, ns);
    ns
  }

  /** A queue of non-empty nodes yields exactly as many entries as points. */
  lemma NodesCount(t: Tree, ns: seq<Tree>)
    requires multiset(Data(ns)) == Points(t)
    requires t.Node? ==> forall x <- ns :: x.Node?
    ensures t.Node? ==> |ns| == Size(t)
  {
    if t.Node? {
      DataOfNodes(ns);
      PointsCount(t);
    }
  }

  lemma {:induction false} PointsCount(t: Tree)
    ensures |Points(t)| == Size(t)
  {
    match t
    case Empty =>
    case Node(_, l, r) =>
      PointsCount(l);
      PointsCount(r);
  }

  /** A subtree of a subtree is a subtree. */
  lemma {:induction false} SubtreeTransitive(a: Tree, b: Tree, c: Tree)
    requires IsSubtree(a, b) && IsSubtree(b, c)
    ensures IsSubtree(a, c)
    decreases c
  {
    if b != c {
      if IsSubtree(b, c.left) {
        SubtreeTransitive(a, b, c.left);
      } else {
        SubtreeTransitive(a, b, c.right);
      }
    }
  }

  /** If every queued tree lies inside `root`, so does every node the
      breadth-first loop yields. */
  lemma {:induction false} BfsStaysInside(q: seq<Tree>, root: Tree)
    requires forall x <- q :: IsSubtree(x, root)
    ensures forall x <- Bfs(q) :: IsSubtree(x, root)
    decreases ForestWeight(q)
  {
    if q != [] {
      var next := q[1..] + Kids(q[0]);
      KidsFacts(q[0]);
      ForestWeightConcat(q[1..], Kids(q[0]));
      InsideNext(q, root);
      BfsStaysInside(next, root);
      assert Bfs(q) == [q[0]] + Bfs(next);
      assert q[0] in q;
    }
  }

  /** One turn of the loop keeps every queued tree inside `root`. */
  lemma InsideNext(q: seq<Tree>, root: Tree)
    requires q != []
    requires forall x <- q :: IsSubtree(x, root)
    ensures forall x <- q[1..] + Kids(q[0]) :: IsSubtree(x, root)
  {
    assert q[0] in q;
    forall x <- q[1..] + Kids(q[0]) ensures IsSubtree(x, root) {
      if x in q[1..] {
        assert x in q;
      } else {
        assert IsSubtree(x, q[0]);
        SubtreeTransitive(x, q[0], root);
      }
    }
  }

  /** Every node `level_order` yields is the root or one of its subtrees. */
  lemma LevelOrderInside(t: Tree)
    ensures forall x <- LevelOrder(t) :: IsSubtree(x, t)
  {
    BfsStaysInside([t], t);
  }

  /** The children enqueued for every tree of `q`, in queue order. */
  function AllKids(q: seq<Tree>): seq<Tree> {
    if q == [] then [] else Kids(q[0]) + AllKids(q[1..])
  }

  lemma {:induction false} AllKidsLighter(q: seq<Tree>)
    requires q != []
    ensures ForestWeight(AllKids(q)) < ForestWeight(q)
    decreases |q|
  {
    KidsFacts(q[0]);
    ForestWeightConcat(Kids(q[0]), AllKids(q[1..]));
    if q[1..] != [] {
      AllKidsLighter(q[1..]);
    }
  }

  /** Reference level-by-level traversal: a whole level, then the level made
      of its children. */
  function Levels(q: seq<Tree>): seq<Tree>
    decreases ForestWeight(q)
  {
    if q == [] then []
    else
      AllKidsLighter(q);
      q + Levels(AllKids(q))
  }

  /** One turn of the queue loop on a queue that starts with `x`. */
  lemma BfsFront(x: Tree, rest: seq<Tree>, b: seq<Tree>)
    ensures Bfs([x] + rest + b) == [x] + Bfs(rest + (b + Kids(x)))
  {
    var q := [x] + rest + b;
    assert q[0] == x && q[1..] == rest + b;
    BfsUnfold(q);
    SeqAssoc(rest, b, Kids(x));
  }

  lemma BfsUnfold(q: seq<Tree>)
    requires q != []
    ensures Bfs(q) == [q[0]] + Bfs(q[1..] + Kids(q[0]))
  {
  }

  /** Running the queue loop over `a + b` first yields all of `a`, and then
      continues as if `a`'s children had been queued behind `b`. */
  lemma {:induction false} BfsShift(a: seq<Tree>, b: seq<Tree>)
    ensures Bfs(a + b) == a + Bfs(b + AllKids(a))
    decreases |a|
  {
    if a == [] {
      assert a + b == b && b + AllKids(a) == b;
    } else {
      var x, rest := a[0], a[1..];
      assert a == [x] + rest;
      BfsFront(x, rest, b);
      BfsShift(rest, b + Kids(x));
      KidsCons(x, rest, b);
      SeqAssoc([x], rest, Bfs(b + AllKids(a)));
    }
  }

  lemma KidsCons(x: Tree, rest: seq<Tree>, b: seq<Tree>)
    ensures b + Kids(x) + AllKids(rest) == b + AllKids([x] + rest)
  {
    assert ([x] + rest)[0] == x && ([x] + rest)[1..] == rest;
    assert AllKids([x] + rest) == Kids(x) + AllKids(rest);
  }

  lemma SeqAssoc<T>(a: seq<T>, b: seq<T>, c: seq<T>)
    ensures a + (b + c) == a + b + c
  {
  }

  /** The queue loop and the level-by-level reference agree. */
  lemma {:induction false} BfsIsLevels(q: seq<Tree>)
    ensures Bfs(q) == Levels(q)
    decreases ForestWeight(q)
  {
    if q != [] {
      AllKidsLighter(q);
      BfsShift(q, []);
      assert q + [] == q && [] + AllKids(q) == AllKids(q);
      BfsIsLevels(AllKids(q));
    }
  }

  /** `level_order` lists the tree level by level, each level left to right. */
  lemma LevelOrderIsLevels(t: Tree)
    ensures LevelOrder(t) == Levels([t])
  {
    BfsIsLevels([t]);
  }

  /** The doctests of `is_leaf`: `Node()` is a leaf, `Node(1, left=Node(2))`
      is not. */
  lemma LeafExamples()
    ensures IsLeaf(Empty)
    ensures !IsLeaf(Node([1], Node([2], Empty, Empty), Empty))
  {
  }

  /** `inorder` on a tree whose root has only a left child with two
      leaves: left, root, right at every node; the pre-order of the left
      subtree followed by the root is rejected at its first entry. */
  lemma InorderExample()
    ensures var b1, b2 := Node([1], Empty, Empty), Node([3], Empty, Empty);
      var b := Node([2], b1, b2);
      Inorder(Node([5], b, Empty)) == [b1, b, b2, Node([5], b, Empty)]
      && !InOrderAt([b, b1, b2, Node([5], b, Empty)], 0)
  {
    var b1, b2 := Node([1], Empty, Empty), Node([3], Empty, Empty);
    var b := Node([2], b1, b2);
    assert Inorder(b1) == [b1] && Inorder(b2) == [b2];
    assert Inorder(b) == [b1, b, b2];
    var t := Node([5], b, Empty);
    assert Inorder(t) == Inorder(b) + [t] + Inorder(Empty);
    assert Size(b.left) == 1;
  }

  /** With repeated points a child's window can hold a copy of a grandchild
      instead of the child; in-order position rejects that at the parent. */
  lemma InorderDuplicatesExample()
    ensures var n1, n2 := Node([1], Empty, Empty), Node([2], Empty, Empty);
      var a := Node([5], Node([1], n2, Empty), Node([2], n1, Empty));
      !InOrderAt([n2, n2, a, n1, n1, Node([9], a, Empty)], 2)
  {
  }

  /** A node whose point is the empty tuple counts as a leaf, so its coded
      height is 1 although a non-empty child hangs below it. */
  lemma EmptyPointLeafExample()
    ensures IsLeaf(Node([], Node([2], Empty, Empty), Empty))
    ensures Height(Node([], Node([2], Empty, Empty), Empty)) == 1
    ensures Depth(Node([], Node([2], Empty, Empty), Empty)) == 2
  {
  }

  /** `create` on no points gives the falsy sentinel, which has no
      children. */
  lemma CreateEmptyExample()
    ensures Create([], 2, 0) == Empty && !Truthy(Create([], 2, 0))
    ensures |Children(Create([], 2, 0))| == 0
  {
  }

  /** The doctests of `height` and `children` on a tree built from one point:
      height 1 and no children. */
  lemma CreateOneExample(p1: Point)
    requires 2 <= |p1|
    ensures Height(Create([p1], 2, 0)) == 1
    ensures |Children(Create([p1], 2, 0))| == 0
  {
    CreateIsBalanced([p1], 2, 0);
    var t1 := Create([p1], 2, 0);
    assert Size(t1.left) == 0 && Size(t1.right) == 0;
  }

  /** The doctest of `height` on a tree built from two points: height 2. */
  lemma CreateTwoExample(p1: Point, p2: Point)
    requires 2 <= |p1| && 2 <= |p2|
    ensures Height(Create([p1, p2], 2, 0)) == 2
  {
    CreateIsBalanced([p1, p2], 2, 0);
  }

  /** The doctest of `children` on a tree built from three points: both
      children are present. */
  lemma CreateThreeExample(p1: Point, p2: Point, p3: Point)
    requires 2 <= |p1| && 2 <= |p2| && 2 <= |p3|
    ensures |Children(Create([p1, p2, p3], 2, 0))| == 2
  {
    var t3 := Create([p1, p2, p3], 2, 0);
    assert Size(t3.left) == 1 && Size(t3.right) == 1;
  }
}
