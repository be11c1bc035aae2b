/**
 * `maxDepth` and `minDepth` of binary-tree.js. Depths count nodes: the
 * root alone is at depth 1 and the empty tree has depth 0.
 */
module Depth {
  import opened BinaryTrees

  /** `LeafAt(t, d)`: some leaf of `t` lies at depth `d` (root = 1). */
  predicate LeafAt(t: Tree, d: nat) {
    match t
    case Nil => false
    case Node(_, _, l, r) =>
      if l.Nil? && r.Nil? then d == 1 else d > 1 && (LeafAt(l, d - 1) || LeafAt(r, d - 1))
  }

  /**
   * `maxDepth(node)`: one more than the deeper of the two subtrees. It is
   * 0 for the empty tree and otherwise the depth of the deepest leaf.
   */
  function MaxDepth(t: Tree): (d: nat)
    ensures t.Nil? ==> d == 0
    ensures t.Node? ==> LeafAt(t, d)
    ensures forall k: nat :: LeafAt(t, k) ==> k <= d
  {
    match t
    case Nil => 0
    case Node(_, _, l, r) => Max(MaxDepth(l), MaxDepth(r)) + 1
  }

  /** The depth of the shallowest leaf, defined by structural recursion. */
  function MinLeafDepth(t: Tree): nat {
    match t
    case Nil => 0
    case Node(_, _, l, r) =>
      if l.Nil? && r.Nil? then 1
      else if l.Nil? then 1 + MinLeafDepth(r)
      else if r.Nil? then 1 + MinLeafDepth(l)
      else 1 + Min(MinLeafDepth(l), MinLeafDepth(r))
  }

  /** `MinLeafDepth` is the depth of the shallowest leaf. */
  lemma {:induction false} MinLeafDepthIsShallowest(t: Tree)
    ensures t.Nil? ==> MinLeafDepth(t) == 0
    ensures t.Node? ==> LeafAt(t, MinLeafDepth(t))
    ensures forall d: nat :: LeafAt(t, d) ==> MinLeafDepth(t) <= d
  {
    match t
    case Nil =>
    case Node(_, _, l, r) =>
      MinLeafDepthIsShallowest(l);
      MinLeafDepthIsShallowest(r);
  }

  /** For a non-empty tree, 1 <= minimum depth <= maximum depth. */
  lemma MinDepthAtMostMaxDepth(t: Tree)
    requires t.Node?
    ensures 1 <= MinLeafDepth(t) <= MaxDepth(t)
  {
    MinLeafDepthIsShallowest(t);
  }

  /** The nodes of `t` at depth `d`, left to right. */
  function Level(t: Tree, d: nat): seq<Tree> {
    if t.Nil? || d == 0 then []
    else if d == 1 then [t]
    else Level(t.left, d - 1) + Level(t.right, d - 1)
  }

  /** What `minDepth` pushes onto `nextQueue` for the nodes of `q`. */
  function NextLevel(q: seq<Tree>): seq<Tree> {
    if q == [] then [] else PresentChildren(q[0]) + NextLevel(q[1..])
  }

  lemma {:induction false} NextLevelAppend(a: seq<Tree>, b: seq<Tree>)
    ensures NextLevel(a + b) == NextLevel(a) + NextLevel(b)
  {
    if a == [] {
      assert a + b == b;
    } else {
      assert (a + b)[1..] == a[1..] + b;
      assert (a + b)[0] == a[0];
      NextLevelAppend(a[1..], b);
    }
  }

  /** The level below `d` is what a scan of level `d` collects. */
  lemma {:induction false} LevelStep(t: Tree, d: nat)
    requires d >= 1
    ensures Level(t, d + 1) == NextLevel(Level(t, d))
  {
    if t.Nil? {
    } else if d == 1 {
      assert Level(t, 1) == [t];
      assert NextLevel([t]) == PresentChildren(t) + NextLevel([]);
    } else {
      LevelStep(t.left, d - 1);
      LevelStep(t.right, d - 1);
      NextLevelAppend(Level(t.left, d - 1), Level(t.right, d - 1));
    }
  }

  lemma {:induction false} LevelHoldsNodes(t: Tree, d: nat)
    ensures forall j :: 0 <= j < |Level(t, d)| ==> Level(t, d)[j].Node?
  {
    if t.Node? && d > 1 {
      LevelHoldsNodes(t.left, d - 1);
      LevelHoldsNodes(t.right, d - 1);
    }
  }

  /** A leaf at depth `d` is exactly a leaf in `Level(t, d)`. */
  lemma {:induction false} LeafAtIffLeafInLevel(t: Tree, d: nat)
    ensures LeafAt(t, d) <==> exists j :: 0 <= j < |Level(t, d)| && IsLeaf(Level(t, d)[j])
  {
    if t.Nil? || d == 0 {
    } else if d == 1 {
      assert Level(t, d)[0] == t;
    } else {
      var l, r := Level(t.left, d - 1), Level(t.right, d - 1);
      LeafAtIffLeafInLevel(t.left, d - 1);
      LeafAtIffLeafInLevel(t.right, d - 1);
      if LeafAt(t, d) {
        if LeafAt(t.left, d - 1) {
          var j :| 0 <= j < |l| && IsLeaf(l[j]);
          assert Level(t, d)[j] == l[j];
        } else {
          var j :| 0 <= j < |r| && IsLeaf(r[j]);
          assert Level(t, d)[|l| + j] == r[j];
        }
      }
      if exists j :: 0 <= j < |Level(t, d)| && IsLeaf(Level(t, d)[j]) {
        var j :| 0 <= j < |Level(t, d)| && IsLeaf(Level(t, d)[j]);
        if j < |l| {
          assert l[j] == Level(t, d)[j];
        } else {
          assert r[j - |l|] == Level(t, d)[j];
        }
      }
    }
  }

  lemma NoLeafInLevel(t: Tree, d: nat)
    requires forall j :: 0 <= j < |Level(t, d)| ==> !IsLeaf(Level(t, d)[j])
    ensures !LeafAt(t, d)
  {
    LeafAtIffLeafInLevel(t, d);
  }

  /** Every depth from 1 to the maximum depth holds at least one node. */
  lemma {:induction false} LevelNonEmpty(t: Tree, d: nat)
    requires 1 <= d <= MaxDepth(t)
    ensures Level(t, d) != []
  {
    if d > 1 {
      if MaxDepth(t.left) >= d - 1 {
        LevelNonEmpty(t.left, d - 1);
      } else {
        LevelNonEmpty(t.right, d - 1);
      }
    }
  }

  /** The first depth that holds a leaf is the minimum depth. */
  lemma FirstLeafDepth(t: Tree, depth: nat)
    requires t.Node? && LeafAt(t, depth) && depth <= MinLeafDepth(t)
    ensures depth == MinLeafDepth(t)
  {
    MinLeafDepthIsShallowest(t);
  }

  /** Scanning from position `i` of a queue reads `q[i]` and goes on at `i + 1`. */
  lemma NextLevelFrom(q: seq<Tree>, i: nat, pushed: seq<Tree>)
    requires i < |q|
    ensures pushed + NextLevel(q[i..]) == (pushed + PresentChildren(q[i])) + NextLevel(q[i + 1..])
  {
    assert q[i..][0] == q[i] && q[i..][1..] == q[i + 1..];
  }

  /** A level without leaves lies above the shallowest leaf, and the scan goes on below it. */
  lemma LevelWithoutLeaf(t: Tree, d: nat)
    requires 1 <= d <= MinLeafDepth(t)
    requires forall j :: 0 <= j < |Level(t, d)| ==> !IsLeaf(Level(t, d)[j])
    ensures d < MinLeafDepth(t)
    ensures Level(t, d + 1) == NextLevel(Level(t, d))
  {
    NoLeafInLevel(t, d);
    LevelStep(t, d);
    MinLeafDepthIsShallowest(t);
  }

  /** Pushing the left child, then the right one, each when it is present. */
  method PushChildren(q: seq<Tree>, node: Tree) returns (q': seq<Tree>)
    requires node.Node?
    ensures q' == q + PresentChildren(node)
  {
    q' := q;
    if node.left.Node? {
      q' := q' + [node.left];
    }
    if node.right.Node? {
      q' := q' + [node.right];
    }
  }

  /**
   * The `for` loop of `minDepth()` over one level: it stops at the first
   * leaf, and otherwise pushes the present children of every node in order.
   */
  method ScanLevel(queue: seq<Tree>) returns (nextQueue: seq<Tree>, leaf: bool)
    requires forall j :: 0 <= j < |queue| ==> queue[j].Node?
    ensures leaf <==> exists j :: 0 <= j < |queue| && IsLeaf(queue[j])
    ensures !leaf ==> nextQueue == NextLevel(queue)
  {
    nextQueue := [];
    for i := 0 to |queue|
      invariant NextLevel(queue) == nextQueue + NextLevel(queue[i..])
      invariant forall j :: 0 <= j < i ==> !IsLeaf(queue[j])
    {
      var node := queue[i];
      if node.left.Nil? && node.right.Nil? {
        return nextQueue, true;
      }
      NextLevelFrom(queue, i, nextQueue);
      nextQueue := PushChildren(nextQueue, node);
    }
    assert queue == queue[0..] && queue[|queue|..] == [];
    return nextQueue, false;
  }

  /**
   * `minDepth()`: a level-by-level scan that stops at the first leaf. It
   * returns the depth of the shallowest leaf, 0 for the empty tree.
   */
  method MinDepth(root: Tree) returns (depth: nat)
    ensures depth == MinLeafDepth(root)
  {
    if root.Nil? {
      return 0;
    }
    MinDepthAtMostMaxDepth(root);
    depth := 0;
    var queue := [root];
    while |queue| > 0
      invariant queue == Level(root, depth + 1)
      invariant depth < MinLeafDepth(root)
      decreases MinLeafDepth(root) - depth
    {
      depth := depth + 1;
      LevelHoldsNodes(root, depth);
      var nextQueue, leaf := ScanLevel(queue);
      if leaf {
        LeafAtIffLeafInLevel(root, depth);
        FirstLeafDepth(root, depth);
        return depth;
      }
      LevelWithoutLeaf(root, depth);
      queue := nextQueue;
    }
    LevelNonEmpty(root, depth + 1);
    assert false;
  }
}
