/**
 * Path tracing over a kd-tree (algorithms.py): a breadth-first walk that
 * labels each node with the branch string leading to it from the root, and
 * the labelling of those paths against a convex-hull index set.
 *
 * A path is a string of two-character tokens, " L" for a step to the left
 * child and " R" for a step to the right child; the root's path is "".
 */
module Algorithms {
  import opened Wrappers
  import opened KdTree
  import opened Decimal

  /** One entry of `create_paths`: a node and the path that leads to it. */
  datatype Traced = Traced(node: Tree, path: string)

  /** The node at the end of `path` from `t`, reading the path one token at
      a time; `None` when a token is malformed or leaves the tree. */
  function Reach(t: Tree, path: string): Option<Tree>
    decreases |path|
  {
    if path == [] then Some(t)
    else if |path| < 2 then None
    else
      match Reach(t, path[..|path| - 2])
      case Some(Node(_, l, r)) =>
        if path[|path| - 2..] == " L" then Some(l)
        else if path[|path| - 2..] == " R" then Some(r)
        else None
      case _ => None
  }

  /** Appending a token steps to the matching child. */
  lemma ReachStep(t: Tree, path: string, n: Tree)
    requires Reach(t, path) == Some(n) && n.Node?
    ensures Reach(t, path + " L") == Some(n.left)
    ensures Reach(t, path + " R") == Some(n.right)
  {
    assert (path + " L")[..|path|] == path && (path + " L")[|path|..] == " L";
    assert (path + " R")[..|path|] == path && (path + " R")[|path|..] == " R";
  }

  /** A path that reaches a node is a whole number of tokens, one per level
      descended: the node lies that many levels below the root. */
  lemma {:induction false} ReachDepth(t: Tree, path: string, n: Tree)
    requires Reach(t, path) == Some(n)
    ensures |path| % 2 == 0
    ensures |path| / 2 + Depth(n) <= Depth(t)
    decreases |path|
  {
    if path != [] {
      assert 2 <= |path|;
      var pre := path[..|path| - 2];
      assert Reach(t, pre).Some?;
      var m := Reach(t, pre).value;
      ReachDepth(t, pre, m);
      assert m.Node? && (n == m.left || n == m.right);
      assert Depth(n) + 1 <= Depth(m);
      HalfStep(|pre|);
    }
  }

  lemma HalfStep(a: nat)
    requires a % 2 == 0
    ensures (a + 2) % 2 == 0 && (a + 2) / 2 == a / 2 + 1
  {
  }

  /** The entries `create_paths` enqueues after visiting `e`: its non-empty
      children, with " L" or " R" appended to its path. */
  function Branches(e: Traced): seq<Traced> {
    if e.node.Empty? then []
    else
      (if e.node.left.Node? then [Traced(e.node.left, e.path + " L")] else [])
      + (if e.node.right.Node? then [Traced(e.node.right, e.path + " R")] else [])
  }

  function Nodes(q: seq<Traced>): seq<Tree> {
    if q == [] then [] else [q[0].node] + Nodes(q[1..])
  }

  lemma {:induction false} NodesIndex(q: seq<Traced>, i: nat)
    requires i < |q|
    ensures |Nodes(q)| == |q| && Nodes(q)[i] == q[i].node
    decreases |q|
  {
    if i > 0 {
      NodesIndex(q[1..], i - 1);
    } else if |q| > 1 {
      NodesIndex(q[1..], 0);
    }
  }

  lemma {:induction false} NodesConcat(a: seq<Traced>, b: seq<Traced>)
    ensures Nodes(a + b) == Nodes(a) + Nodes(b)
    decreases |a|
  {
    if a == [] {
      assert a + b == b;
    } else {
      assert (a + b)[0] == a[0] && (a + b)[1..] == a[1..] + b;
      NodesConcat(a[1..], b);
    }
  }

  lemma BranchesAreKids(e: Traced)
    ensures Nodes(Branches(e)) == Kids(e.node)
  {
    if e.node.Node? {
      var ls := if e.node.left.Node? then [Traced(e.node.left, e.path + " L")] else [];
      var rs := if e.node.right.Node? then [Traced(e.node.right, e.path + " R")] else [];
      NodesConcat(ls, rs);
    }
  }

  /** The work left in a queue of traced entries. */
  function QueueWeight(q: seq<Traced>): nat {
    ForestWeight(Nodes(q))
  }

  lemma QueueShrinks(q: seq<Traced>)
    requires q != []
    ensures QueueWeight(q[1..] + Branches(q[0])) < QueueWeight(q)
  {
    assert q == [q[0]] + q[1..];
    NodesConcat([q[0]], q[1..]);
    NodesConcat(q[1..], Branches(q[0]));
    BranchesAreKids(q[0]);
    KidsFacts(q[0].node);
    ForestWeightConcat([q[0].node], Nodes(q[1..]));
    ForestWeightConcat(Nodes(q[1..]), Kids(q[0].node));
  }

  /** The loop of `create_paths` on queue `q`: pop the front entry, record
      it, and enqueue its branches. */
  function Walk(q: seq<Traced>): (w: seq<Traced>)
    ensures |q| <= |w| && w[..|q|] == q
    decreases QueueWeight(q)
  {
    if q == [] then []
    else
      QueueShrinks(q);
      var rest := Walk(q[1..] + Branches(q[0]));
      QueueFront(q, q[1..] + Branches(q[0]), rest);
      [q[0]] + rest
  }

  /** `create_paths`: the walk from the root, whose path is empty. */
  function CreatePaths(t: Tree): (r: seq<Traced>)
    ensures |r| > 0 && r[0] == Traced(t, "")
    ensures Nodes(r) == LevelOrder(t)
    ensures forall e <- r :: Reach(t, e.path) == Some(e.node)
    ensures forall i, j | 0 <= i < j < |r| :: r[i].path != r[j].path
    ensures forall i, j | 0 <= i <= j < |r| :: |r[i].path| <= |r[j].path|
    ensures forall i, j | 0 <= i < j < |r| && |r[i].path| == |r[j].path| ::
      LexLess(r[i].path, r[j].path)
    ensures forall e <- r, f <- Branches(e) :: f in r
  {
    var q := [Traced(t, "")];
    var r := Walk(q);
    WalkNodes(q);
    assert Nodes(q) == [t];
    WalkReaches(q, t);
    WalkLevels(q, 0);
    WalkClosed(q);
    r
  }

  /** After the root, `create_paths` records only non-empty nodes, one entry
      per point of a non-empty tree; an empty tree gives the root alone. */
  lemma CreatePathsEntries(t: Tree)
    ensures forall i | 0 < i < |CreatePaths(t)| :: CreatePaths(t)[i].node.Node?
    ensures t.Node? ==> |CreatePaths(t)| == Size(t)
    ensures t.Empty? ==> CreatePaths(t) == [Traced(Empty, "")]
  {
    var r := CreatePaths(t);
    NodesIndex(r, 0);
    forall i | 0 < i < |r| ensures r[i].node.Node? {
      NodesIndex(r, i);
      assert LevelOrder(t)[i] in LevelOrder(t);
    }
  }

  // ---------------------------------------------------------------------------
  // The walk and level order visit the same nodes
  // ---------------------------------------------------------------------------

  /** Recording entries while walking yields the nodes `level_order` yields. */
  lemma {:induction false} WalkNodes(q: seq<Traced>)
    ensures Nodes(Walk(q)) == Bfs(Nodes(q))
    decreases QueueWeight(q)
  {
    if q != [] {
      var next := q[1..] + Branches(q[0]);
      QueueShrinks(q);
      WalkNodes(next);
      NodesConcat([q[0]], Walk(next));
      NodesConcat(q[1..], Branches(q[0]));
      BranchesAreKids(q[0]);
      assert Nodes(q) == [q[0].node] + Nodes(q[1..]);
      BfsFront(q[0].node, Nodes(q[1..]), []);
      assert [q[0].node] + Nodes(q[1..]) + [] == Nodes(q);
      assert Nodes(q[1..]) + ([] + Kids(q[0].node)) == Nodes(next);
      assert Nodes([q[0]]) == [q[0].node];
    }
  }

  // ---------------------------------------------------------------------------
  // Every recorded path leads from the root to its node
  // ---------------------------------------------------------------------------

  lemma {:induction false} WalkReaches(q: seq<Traced>, t: Tree)
    requires forall e <- q :: Reach(t, e.path) == Some(e.node)
    ensures forall e <- Walk(q) :: Reach(t, e.path) == Some(e.node)
    decreases QueueWeight(q)
  {
    if q != [] {
      var next := q[1..] + Branches(q[0]);
      QueueShrinks(q);
      ReachNext(q, t);
      WalkReaches(next, t);
      assert Walk(q) == [q[0]] + Walk(next);
      assert q[0] in q;
    }
  }

  /** One turn of the walk keeps every queued path leading to its node. */
  lemma ReachNext(q: seq<Traced>, t: Tree)
    requires q != []
    requires forall e <- q :: Reach(t, e.path) == Some(e.node)
    ensures forall e <- q[1..] + Branches(q[0]) :: Reach(t, e.path) == Some(e.node)
  {
    var x := q[0];
    assert x in q;
    ReachBranches(t, x);
    forall e <- q[1..] + Branches(x) ensures Reach(t, e.path) == Some(e.node) {
      if e in q[1..] {
        assert e in q;
      } else {
        assert e in Branches(x);
      }
    }
  }

  /** The branches of an entry whose path leads to its node lead to theirs. */
  lemma ReachBranches(t: Tree, x: Traced)
    requires Reach(t, x.path) == Some(x.node)
    ensures forall f <- Branches(x) :: Reach(t, f.path) == Some(f.node)
  {
    if x.node.Node? {
      ReachStep(t, x.path, x.node);
    }
  }

  // ---------------------------------------------------------------------------
  // The walk goes level by level
  // ---------------------------------------------------------------------------

  /** The branches of every entry of `q`, in queue order. */
  function AllBranches(q: seq<Traced>): seq<Traced> {
    if q == [] then [] else Branches(q[0]) + AllBranches(q[1..])
  }

  lemma {:induction false} AllBranchesNodes(q: seq<Traced>)
    ensures Nodes(AllBranches(q)) == AllKids(Nodes(q))
    decreases |q|
  {
    if q != [] {
      NodesConcat(Branches(q[0]), AllBranches(q[1..]));
      BranchesAreKids(q[0]);
      AllBranchesNodes(q[1..]);
      assert Nodes(q)[0] == q[0].node && Nodes(q)[1..] == Nodes(q[1..]);
    }
  }

  lemma WalkFront(x: Traced, rest: seq<Traced>, b: seq<Traced>)
    ensures Walk([x] + rest + b) == [x] + Walk(rest + (b + Branches(x)))
  {
    var q := [x] + rest + b;
    assert q[0] == x && q[1..] + Branches(x) == rest + (b + Branches(x));
  }

  lemma BranchesCons(x: Traced, rest: seq<Traced>, b: seq<Traced>)
    ensures b + Branches(x) + AllBranches(rest) == b + AllBranches([x] + rest)
  {
    assert ([x] + rest)[0] == x && ([x] + rest)[1..] == rest;
    assert AllBranches([x] + rest) == Branches(x) + AllBranches(rest);
  }

  /** Walking `a + b` records all of `a` first, then continues as if `a`'s
      branches had been queued behind `b`. */
  lemma {:induction false} WalkShift(a: seq<Traced>, b: seq<Traced>)
    ensures Walk(a + b) == a + Walk(b + AllBranches(a))
    decreases |a|
  {
    if a == [] {
      assert a + b == b && b + AllBranches(a) == b;
    } else {
      var x, rest := a[0], a[1..];
      assert a == [x] + rest;
      WalkFront(x, rest, b);
      WalkShift(rest, b + Branches(x));
      BranchesCons(x, rest, b);
      SeqAssoc([x], rest, Walk(b + AllBranches(a)));
    }
  }

  /** Strict lexicographic order on strings; on paths of equal length it
      puts " L" before " R" at the first token where they differ. */
  predicate LexLess(a: string, b: string)
    decreases |a|
  {
    && 0 < |a| && 0 < |b|
    && (a[0] < b[0] || (a[0] == b[0] && LexLess(a[1..], b[1..])))
  }

  lemma {:induction false} LexIrreflexive(a: string)
    ensures !LexLess(a, a)
    decreases |a|
  {
    if 0 < |a| {
      LexIrreflexive(a[1..]);
    }
  }

  /** Strings whose first `k` characters are in order are in order. */
  lemma {:induction false} LexExtend(a: string, b: string, k: nat)
    requires k <= |a| && k <= |b| && LexLess(a[..k], b[..k])
    ensures LexLess(a, b)
    decreases k
  {
    assert a[..k][0] == a[0] && b[..k][0] == b[0];
    if a[0] == b[0] && !(a[..k][0] < b[..k][0]) {
      assert a[..k][1..] == a[1..][..k - 1] && b[..k][1..] == b[1..][..k - 1];
      LexExtend(a[1..], b[1..], k - 1);
    }
  }

  /** The left branch of a path comes before its right branch. */
  lemma {:induction false} LexTokens(p: string)
    ensures LexLess(p + " L", p + " R")
    decreases |p|
  {
    if p == [] {
      assert (p + " L")[1..] == "L" && (p + " R")[1..] == "R";
    } else {
      assert (p + " L")[1..] == p[1..] + " L" && (p + " R")[1..] == p[1..] + " R";
      LexTokens(p[1..]);
    }
  }

  /** All paths of `q` have `k` characters, no two are equal, and they
      appear in lexicographic order. */
  predicate Level(q: seq<Traced>, k: nat) {
    && (forall i | 0 <= i < |q| :: |q[i].path| == k)
    && (forall i, j | 0 <= i < j < |q| :: q[i].path != q[j].path)
    && (forall i, j | 0 <= i < j < |q| :: LexLess(q[i].path, q[j].path))
  }

  function Paths(q: seq<Traced>): seq<string> {
    if q == [] then [] else [q[0].path] + Paths(q[1..])
  }

  /** Every branch path extends a path of `q` by one token. */
  lemma {:induction false} BranchesExtend(q: seq<Traced>, k: nat)
    requires forall i | 0 <= i < |q| :: |q[i].path| == k
    ensures forall f <- AllBranches(q) :: |f.path| == k + 2 && f.path[..k] in Paths(q)
    decreases |q|
  {
    if q != [] {
      BranchesExtend(q[1..], k);
      assert Paths(q) == [q[0].path] + Paths(q[1..]);
      forall f <- Branches(q[0]) ensures |f.path| == k + 2 && f.path[..k] in Paths(q) {
        assert f.path[..k] == q[0].path;
      }
    }
  }

  lemma {:induction false} PathsMember(q: seq<Traced>, s: string)
    requires s in Paths(q)
    ensures exists i | 0 <= i < |q| :: q[i].path == s
    decreases |q|
  {
    if q[0].path != s {
      PathsMember(q[1..], s);
      var i :| 0 <= i < |q[1..]| && q[1..][i].path == s;
      assert q[i + 1].path == s;
    }
  }

  /** The branches of a level form the next level. */
  lemma {:induction false} NextLevel(q: seq<Traced>, k: nat)
    requires Level(q, k)
    ensures Level(AllBranches(q), k + 2)
    decreases |q|
  {
    if q != [] {
      var bs := Branches(q[0]);
      var rest := AllBranches(q[1..]);
      assert Level(q[1..], k) by {
        forall i, j | 0 <= i < j < |q[1..]|
          ensures q[1..][i].path != q[1..][j].path && LexLess(q[1..][i].path, q[1..][j].path)
        {
          assert q[1..][i] == q[i + 1] && q[1..][j] == q[j + 1];
        }
      }
      NextLevel(q[1..], k);
      BranchesExtend(q[1..], k);
      forall g <- rest ensures LexLess(q[0].path, g.path[..k]) && g.path[..k] != q[0].path {
        PathsMember(q[1..], g.path[..k]);
        var i :| 0 <= i < |q[1..]| && q[1..][i].path == g.path[..k];
        assert q[1..][i] == q[i + 1];
        LexIrreflexive(q[0].path);
      }
      JoinBranches(q[0], rest, k);
    }
  }

  /** An entry's own branches, put in front of a level of paths that do not
      extend the entry's path, still form a level. */
  lemma JoinBranches(e: Traced, rest: seq<Traced>, k: nat)
    requires |e.path| == k
    requires Level(rest, k + 2)
    requires forall g <- rest :: g.path[..k] != e.path
    requires forall g <- rest :: LexLess(e.path, g.path[..k])
    ensures Level(Branches(e) + rest, k + 2)
  {
    var bs := Branches(e);
    var all := bs + rest;
    BranchesShape(e, k);
    JoinBranchesOrder(e, rest, k);
    forall i, j | 0 <= i < j < |all| ensures all[i].path != all[j].path {
      if j < |bs| {
        assert all[i] == bs[0] && all[j] == bs[1];
      } else if i < |bs| {
        assert all[i] in bs && all[j] == rest[j - |bs|] && all[j] in rest;
      } else {
        assert all[i] == rest[i - |bs|] && all[j] == rest[j - |bs|];
      }
    }
    forall i | 0 <= i < |all| ensures |all[i].path| == k + 2 {
      if i < |bs| {
        assert all[i] in bs;
      } else {
        assert all[i] == rest[i - |bs|];
      }
    }
  }

  lemma JoinBranchesOrder(e: Traced, rest: seq<Traced>, k: nat)
    requires |e.path| == k
    requires Level(rest, k + 2)
    requires forall g <- rest :: LexLess(e.path, g.path[..k])
    ensures forall i, j | 0 <= i < j < |Branches(e) + rest| ::
      LexLess((Branches(e) + rest)[i].path, (Branches(e) + rest)[j].path)
  {
    var bs := Branches(e);
    var all := bs + rest;
    BranchesShape(e, k);
    forall i, j | 0 <= i < j < |all| ensures LexLess(all[i].path, all[j].path) {
      if j < |bs| {
        assert all[i] == bs[0] && all[j] == bs[1];
        assert bs[0].path == e.path + " L" && bs[1].path == e.path + " R";
        LexTokens(e.path);
      } else if i < |bs| {
        assert all[i] in bs && all[j] == rest[j - |bs|] && all[j] in rest;
        assert all[i].path[..k] == e.path;
        LexExtend(all[i].path, all[j].path, k);
      } else {
        assert all[i] == rest[i - |bs|] && all[j] == rest[j - |bs|];
      }
    }
  }

  /** An entry has at most two branches; each extends its path by one
      token, and when there are two the first goes left and the second
      right. */
  lemma BranchesShape(e: Traced, k: nat)
    requires |e.path| == k
    ensures |Branches(e)| <= 2
    ensures forall f <- Branches(e) :: |f.path| == k + 2 && f.path[..k] == e.path
    ensures |Branches(e)| == 2 ==>
      Branches(e)[0].path[k + 1] == 'L' && Branches(e)[1].path[k + 1] == 'R'
  {
  }

  /** Paths pairwise distinct, in non-decreasing order of length, in
      lexicographic order among paths of one length, none shorter than
      `k`. */
  predicate Layered(w: seq<Traced>, k: nat) {
    && (forall i, j | 0 <= i < j < |w| :: w[i].path != w[j].path)
    && (forall i, j | 0 <= i <= j < |w| :: |w[i].path| <= |w[j].path|)
    && (forall i, j | 0 <= i < j < |w| && |w[i].path| == |w[j].path| ::
          LexLess(w[i].path, w[j].path))
    && (forall i | 0 <= i < |w| :: k <= |w[i].path|)
  }

  /** A level of length-`k` paths followed by layered longer paths is
      layered. */
  lemma JoinLevels(q: seq<Traced>, wr: seq<Traced>, k: nat)
    requires Level(q, k) && Layered(wr, k + 2)
    ensures Layered(q + wr, k)
  {
    var w := q + wr;
    forall i | 0 <= i < |w| ensures k <= |w[i].path| && (i >= |q| ==> k + 2 <= |w[i].path|) {
      if i >= |q| {
        assert w[i] == wr[i - |q|];
      } else {
        assert w[i] == q[i];
      }
    }
    forall i, j | 0 <= i < j < |w| ensures w[i].path != w[j].path {
      if j < |q| {
        assert w[i] == q[i] && w[j] == q[j];
      } else if i >= |q| {
        assert w[i] == wr[i - |q|] && w[j] == wr[j - |q|];
      } else {
        assert w[i] == q[i];
      }
    }
    forall i, j | 0 <= i <= j < |w| ensures |w[i].path| <= |w[j].path| {
      if j < |q| {
        assert w[i] == q[i] && w[j] == q[j];
      } else if i >= |q| {
        assert w[i] == wr[i - |q|] && w[j] == wr[j - |q|];
      } else {
        assert w[i] == q[i];
      }
    }
    forall i, j | 0 <= i < j < |w| && |w[i].path| == |w[j].path|
      ensures LexLess(w[i].path, w[j].path)
    {
      if j < |q| {
        assert w[i] == q[i] && w[j] == q[j];
      } else if i >= |q| {
        assert w[i] == wr[i - |q|] && w[j] == wr[j - |q|];
      } else {
        assert w[i] == q[i] && w[j] == wr[j - |q|];
      }
    }
  }

  /** Walking from a level records paths that are pairwise distinct, never
      shorter than the level's, and of non-decreasing length. */
  lemma {:induction false} WalkLevels(q: seq<Traced>, k: nat)
    requires Level(q, k)
    ensures Layered(Walk(q), k)
    decreases QueueWeight(q)
  {
    if q != [] {
      var rest := AllBranches(q);
      WalkShift(q, []);
      assert q + [] == q && [] + rest == rest;
      NextLevel(q, k);
      AllBranchesNodes(q);
      AllKidsLighter(Nodes(q));
      WalkLevels(rest, k + 2);
      JoinLevels(q, Walk(rest), k);
    }
  }

  // ---------------------------------------------------------------------------
  // Every branch of a recorded entry is recorded too
  // ---------------------------------------------------------------------------

  lemma {:induction false} WalkClosed(q: seq<Traced>)
    ensures forall e <- Walk(q), f <- Branches(e) :: f in Walk(q)
    decreases QueueWeight(q)
  {
    if q != [] {
      var next := q[1..] + Branches(q[0]);
      QueueShrinks(q);
      WalkClosed(next);
      WalkShift(next, []);
      assert next + [] == next;
      assert forall f <- Branches(q[0]) :: f in next;
      assert Walk(q) == [q[0]] + Walk(next);
    }
  }

  // ---------------------------------------------------------------------------
  // Hull labelling
  // ---------------------------------------------------------------------------

  /** What one label of `tracing_convex_hull_points` records: the entry's
      index in the traced list, whether the hull contains that index, and
      the entry's path. */
  datatype Label = Label(index: nat, onHull: bool, path: string)

  /** `'[i]' + path` for a hull index, `'(i)' + path` otherwise: the label
      starts with '[' exactly for a hull index, ends with the path, and has
      at least one digit between the brackets. */
  function FormatLabel(l: Label): (s: string)
    ensures |l.path| + 3 <= |s|
    ensures s[0] == '[' <==> l.onHull
    ensures s[0] == '[' || s[0] == '('
    ensures s[|s| - |l.path|..] == l.path
    ensures IsDigit(s[1])
  {
    var digits := NatToString(l.index);
    (if l.onHull then "[" + digits + "]" else "(" + digits + ")") + l.path
  }

  /** Reads a label back: an opening bracket, a run of digits, the matching
      closing bracket, and the rest as the path. */
  function ParseLabel(s: string): Option<Label> {
    if |s| == 0 || (s[0] != '[' && s[0] != '(') then None
    else
      var k := DigitRun(s[1..]);
      var onHull := s[0] == '[';
      if k == 0 || 1 + k >= |s| || s[1 + k] != (if onHull then ']' else ')') then None
      else Some(Label(ParseDigits(s[1..1 + k]), onHull, s[2 + k..]))
  }

  /** Every label reads back as the index, hull flag and path it was made
      from, so no two labels of different entries coincide. */
  lemma ParseFormatLabel(l: Label)
    ensures ParseLabel(FormatLabel(l)) == Some(l)
  {
    var digits := NatToString(l.index);
    var open, close := if l.onHull then '[' else '(', if l.onHull then ']' else ')';
    assert FormatLabel(l) == [open] + digits + [close] + l.path;
    ParseBracketed(open, digits, close, l.path);
    ParseNatToString(l.index);
  }

  /** A bracketed run of digits followed by a path reads back as the number
      the digits denote, the bracket kind and the path. */
  lemma ParseBracketed(open: char, digits: string, close: char, path: string)
    requires (open == '[' && close == ']') || (open == '(' && close == ')')
    requires |digits| > 0 && forall c <- digits :: IsDigit(c)
    ensures ParseLabel([open] + digits + [close] + path)
      == Some(Label(ParseDigits(digits), open == '[', path))
  {
    var s := [open] + digits + [close] + path;
    BracketedParts(open, digits, close, path, s);
    ParseAt(s, |digits|);
  }

  /** Where the parts of a bracketed label sit in it. */
  lemma BracketedParts(open: char, digits: string, close: char, path: string, s: string)
    requires s == [open] + digits + [close] + path
    requires |digits| > 0 && (forall c <- digits :: IsDigit(c)) && !IsDigit(close)
    ensures 1 + |digits| < |s| && s[0] == open && s[1 + |digits|] == close
    ensures DigitRun(s[1..]) == |digits|
    ensures s[1..1 + |digits|] == digits && s[2 + |digits|..] == path
  {
    assert s[1..] == digits + ([close] + path);
    DigitRunOf(digits, [close] + path);
  }

  /** `ParseLabel` on a string whose digit run after the opening bracket
      has length `k` and is followed by the matching closing bracket. */
  lemma ParseAt(s: string, k: nat)
    requires 0 < k && 1 + k < |s| && DigitRun(s[1..]) == k
    requires (s[0] == '[' && s[1 + k] == ']') || (s[0] == '(' && s[1 + k] == ')')
    ensures forall c <- s[1..1 + k] :: IsDigit(c)
    ensures ParseLabel(s) == Some(Label(ParseDigits(s[1..1 + k]), s[0] == '[', s[2 + k..]))
  {
    assert forall i | 0 <= i < k :: s[1..1 + k][i] == s[1..][i];
  }

  /** `tracing_convex_hull_points` with the convex hull's vertex indices
      given as `hull`: one label per traced entry, in walk order. */
  method TracingConvexHullPoints(t: Tree, hull: set<nat>) returns (results: seq<string>)
    ensures |results| == |CreatePaths(t)|
    ensures forall i | 0 <= i < |results| ::
      results[i] == FormatLabel(Label(i, i in hull, CreatePaths(t)[i].path))
    ensures forall i | 0 <= i < |results| ::
      ParseLabel(results[i]) == Some(Label(i, i in hull, CreatePaths(t)[i].path))
    ensures forall i | 0 <= i < |results| :: |results[i]| > 0 && (results[i][0] == '[' <==> i in hull)
  {
    var paths := CreatePaths(t);
    results := LabelEntries(paths, hull);
  }

  /** The loop of `tracing_convex_hull_points`: entry `i` becomes `[i]path`
      when `i` is a hull index and `(i)path` otherwise. */
  method LabelEntries(paths: seq<Traced>, hull: set<nat>) returns (results: seq<string>)
    ensures |results| == |paths|
    ensures forall i | 0 <= i < |results| ::
      results[i] == FormatLabel(Label(i, i in hull, paths[i].path))
    ensures forall i | 0 <= i < |results| ::
      ParseLabel(results[i]) == Some(Label(i, i in hull, paths[i].path))
    ensures forall i | 0 <= i < |results| :: |results[i]| > 0 && (results[i][0] == '[' <==> i in hull)
  {
    results := [];
    var i := 0;
    while i < |paths|
      invariant i <= |paths| && |results| == i
      invariant forall j | 0 <= j < i :: results[j] == FormatLabel(Label(j, j in hull, paths[j].path))
    {
      results := results + [FormatLabel(Label(i, i in hull, paths[i].path))];
      i := i + 1;
    }
    forall j | 0 <= j < |results|
      ensures ParseLabel(results[j]) == Some(Label(j, j in hull, paths[j].path))
      ensures |results[j]| > 0 && (results[j][0] == '[' <==> j in hull)
    {
      ParseFormatLabel(Label(j, j in hull, paths[j].path));
    }
  }
}
