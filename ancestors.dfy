/**
 * `lowestCommonAncestor` and its helper `findPath` of binary-tree.js.
 * Nodes are given by identity. A node counts as its own ancestor.
 */
module Ancestors {
  import opened Wrappers
  import opened BinaryTrees

  /** `path` lists the nodes from the root of `t` down to node `x`. */
  predicate IsPathTo(t: Tree, x: NodeRef, path: seq<NodeRef>) {
    match t
    case Nil => false
    case Node(id, _, l, r) =>
      |path| > 0 && path[0] == id &&
      if |path| == 1 then id == x else IsPathTo(l, x, path[1..]) || IsPathTo(r, x, path[1..])
  }

  /** Node `a` is an ancestor of node `x` (or `x` itself) in `t`. */
  predicate IsAncestor(t: Tree, a: NodeRef, x: NodeRef) {
    match t
    case Nil => false
    case Node(id, _, l, r) => (id == a && x in Ids(t)) || IsAncestor(l, a, x) || IsAncestor(r, a, x)
  }

  predicate IsCommonAncestor(t: Tree, a: NodeRef, x: NodeRef, y: NodeRef) {
    IsAncestor(t, a, x) && IsAncestor(t, a, y)
  }

  lemma {:induction false} PathEndsAtTarget(t: Tree, x: NodeRef, path: seq<NodeRef>)
    requires IsPathTo(t, x, path)
    ensures x in Ids(t) && path[|path| - 1] == x
    ensures forall i :: 0 <= i < |path| ==> path[i] in Ids(t)
  {
    if |path| > 1 {
      if IsPathTo(t.left, x, path[1..]) {
        PathEndsAtTarget(t.left, x, path[1..]);
      } else {
        PathEndsAtTarget(t.right, x, path[1..]);
      }
      assert forall i :: 1 <= i < |path| ==> path[i] == path[1..][i - 1];
    }
  }

  lemma {:induction false} AncestorInTree(t: Tree, a: NodeRef, x: NodeRef)
    requires IsAncestor(t, a, x)
    ensures x in Ids(t) && a in Ids(t)
  {
    if !(t.id == a && x in Ids(t)) {
      if IsAncestor(t.left, a, x) {
        AncestorInTree(t.left, a, x);
      } else {
        AncestorInTree(t.right, a, x);
      }
    }
  }

  /** In a strict tree there is one path to each node. */
  lemma {:induction false} PathUnique(t: Tree, x: NodeRef, p: seq<NodeRef>, q: seq<NodeRef>)
    requires UniqueIds(t)
    requires IsPathTo(t, x, p) && IsPathTo(t, x, q)
    ensures p == q
  {
    if |p| == 1 && |q| > 1 {
      if IsPathTo(t.left, x, q[1..]) { PathEndsAtTarget(t.left, x, q[1..]); }
      else { PathEndsAtTarget(t.right, x, q[1..]); }
    } else if |p| > 1 && |q| == 1 {
      if IsPathTo(t.left, x, p[1..]) { PathEndsAtTarget(t.left, x, p[1..]); }
      else { PathEndsAtTarget(t.right, x, p[1..]); }
    } else if |p| > 1 && |q| > 1 {
      var pl, ql := IsPathTo(t.left, x, p[1..]), IsPathTo(t.left, x, q[1..]);
      if pl { PathEndsAtTarget(t.left, x, p[1..]); } else { PathEndsAtTarget(t.right, x, p[1..]); }
      if ql { PathEndsAtTarget(t.left, x, q[1..]); } else { PathEndsAtTarget(t.right, x, q[1..]); }
      if pl && ql {
        PathUnique(t.left, x, p[1..], q[1..]);
      } else if !pl && !ql {
        PathUnique(t.right, x, p[1..], q[1..]);
      }
      assert p == [p[0]] + p[1..] && q == [q[0]] + q[1..];
    }
  }

  /** Every prefix of a path is the path to its last node. */
  lemma {:induction false} PathPrefix(t: Tree, x: NodeRef, path: seq<NodeRef>, i: nat)
    requires IsPathTo(t, x, path) && i < |path|
    ensures IsPathTo(t, path[i], path[..i + 1])
  {
    if i > 0 {
      var sub := if IsPathTo(t.left, x, path[1..]) then t.left else t.right;
      PathPrefix(sub, x, path[1..], i - 1);
      assert path[..i + 1][1..] == path[1..][..i];
    }
  }

  /** In a strict tree, the ancestors of a node are exactly the nodes on its path. */
  lemma {:induction false} AncestorsOnPath(t: Tree, x: NodeRef, path: seq<NodeRef>, a: NodeRef)
    requires UniqueIds(t) && IsPathTo(t, x, path)
    ensures IsAncestor(t, a, x) <==> a in path
  {
    PathEndsAtTarget(t, x, path);
    if |path| > 1 {
      var inLeft := IsPathTo(t.left, x, path[1..]);
      var sub := if inLeft then t.left else t.right;
      var other := if inLeft then t.right else t.left;
      PathEndsAtTarget(sub, x, path[1..]);
      AncestorsOnPath(sub, x, path[1..], a);
      if IsAncestor(other, a, x) {
        AncestorInTree(other, a, x);
        assert false;
      }
      if a in path[1..] {
        PathEndsAtTarget(sub, x, path[1..]);
      }
      assert path == [path[0]] + path[1..];
    }
    if IsAncestor(t, a, x) && a != t.id {
      if IsAncestor(t.left, a, x) { AncestorInTree(t.left, a, x); } else { AncestorInTree(t.right, a, x); }
    }
  }

  /**
   * `findPath(node, target, path)`: on success `path` is extended by the
   * nodes from `node` down to `target`; on failure the pushes and pops
   * balance and `path` is as it was. The caller's array is threaded
   * through as a value.
   */
  method FindPath(node: Tree, target: NodeRef, path: seq<NodeRef>) returns (found: bool, path': seq<NodeRef>)
    ensures found <==> target in Ids(node)
    ensures found ==> |path| < |path'| && path'[..|path|] == path && IsPathTo(node, target, path'[|path|..])
    ensures !found ==> path' == path
  {
    if node.Nil? {
      return false, path;
    }
    path' := path + [node.id];
    if node.id == target {
      assert path'[|path|..] == [node.id];
      return true, path';
    }
    if node.left.Node? {
      var p := path';
      found, path' := FindPath(node.left, target, path');
      if found {
        assert path'[|path|..][1..] == path'[|p|..];
        return;
      }
    }
    if node.right.Node? {
      var p := path';
      found, path' := FindPath(node.right, target, path');
      if found {
        assert path'[|path|..][1..] == path'[|p|..];
        return;
      }
    }
    path' := path'[..|path'| - 1];
    return false, path';
  }

  /**
   * `lowestCommonAncestor(node1, node2)`: `null` when either node is
   * missing; otherwise the common ancestor that every common ancestor is
   * an ancestor of.
   */
  method LowestCommonAncestor(root: Tree, node1: NodeRef, node2: NodeRef) returns (lca: Option<NodeRef>)
    requires UniqueIds(root)
    ensures lca.None? <==> node1 !in Ids(root) || node2 !in Ids(root)
    ensures lca.Some? ==> IsCommonAncestor(root, lca.value, node1, node2)
    ensures lca.Some? ==> forall c :: IsCommonAncestor(root, c, node1, node2) ==> IsAncestor(root, c, lca.value)
  {
    var found1, path1 := FindPath(root, node1, []);
    if !found1 {
      return None;
    }
    var found2, path2 := FindPath(root, node2, []);
    if !found2 {
      return None;
    }
    assert path1[0..] == path1 && path2[0..] == path2;
    lca := None;
    var i := 0;
    while i < Min(|path1|, |path2|)
      invariant 0 <= i <= Min(|path1|, |path2|)
      invariant forall j :: 0 <= j < i ==> path1[j] == path2[j]
      invariant lca == if i == 0 then None else Some(path1[i - 1])
    {
      if path1[i] == path2[i] {
        lca := Some(path1[i]);
      } else {
        break;
      }
      i := i + 1;
    }
    LcaIsLowest(root, node1, node2, path1, path2, i);
  }

  /**
   * Walking two root paths in step, the last node before they part is an
   * ancestor of both targets and lies below every other common ancestor.
   */
  lemma LcaIsLowest(t: Tree, x: NodeRef, y: NodeRef, p1: seq<NodeRef>, p2: seq<NodeRef>, m: nat)
    requires UniqueIds(t) && IsPathTo(t, x, p1) && IsPathTo(t, y, p2)
    requires m <= |p1| && m <= |p2|
    requires forall j :: 0 <= j < m ==> p1[j] == p2[j]
    requires m < |p1| && m < |p2| ==> p1[m] != p2[m]
    ensures m >= 1
    ensures IsCommonAncestor(t, p1[m - 1], x, y)
    ensures forall c :: IsCommonAncestor(t, c, x, y) ==> IsAncestor(t, c, p1[m - 1])
  {
    PathEndsAtTarget(t, x, p1);
    assert p1[0] == t.id == p2[0];
    AncestorsOnPath(t, x, p1, p1[m - 1]);
    AncestorsOnPath(t, y, p2, p1[m - 1]);
    PathPrefix(t, x, p1, m - 1);
    forall c | IsCommonAncestor(t, c, x, y)
      ensures IsAncestor(t, c, p1[m - 1])
    {
      AncestorsOnPath(t, x, p1, c);
      AncestorsOnPath(t, y, p2, c);
      var i :| 0 <= i < |p1| && p1[i] == c;
      var j :| 0 <= j < |p2| && p2[j] == c;
      PathPrefix(t, x, p1, i);
      PathPrefix(t, y, p2, j);
      PathUnique(t, c, p1[..i + 1], p2[..j + 1]);
      assert i == j;
      assert i < m;
      AncestorsOnPath(t, p1[m - 1], p1[..m], c);
      assert p1[..m][i] == c;
    }
  }

  /** When `node1` is an ancestor of `node2`, the answer is `node1` itself. */
  lemma AncestorIsItsOwnLca(t: Tree, x: NodeRef, y: NodeRef, a: NodeRef)
    requires UniqueIds(t) && IsAncestor(t, x, y)
    requires IsCommonAncestor(t, a, x, y)
    requires forall c :: IsCommonAncestor(t, c, x, y) ==> IsAncestor(t, c, a)
    ensures a == x
  {
    AncestorInTree(t, x, y);
    assert IsAncestor(t, x, x) by { SelfAncestor(t, x); }
    assert IsAncestor(t, x, a);
    AncestorAntisymmetric(t, x, a);
  }

  lemma {:induction false} SelfAncestor(t: Tree, x: NodeRef)
    requires x in Ids(t)
    ensures IsAncestor(t, x, x)
  {
    if t.id != x {
      if x in Ids(t.left) { SelfAncestor(t.left, x); } else { SelfAncestor(t.right, x); }
    }
  }

  /** Ancestry is antisymmetric in a strict tree. */
  lemma AncestorAntisymmetric(t: Tree, a: NodeRef, b: NodeRef)
    requires UniqueIds(t) && IsAncestor(t, a, b) && IsAncestor(t, b, a)
    ensures a == b
  {
    AncestorInTree(t, a, b);
    var p := PathOf(t, b);
    var q := PathOf(t, a);
    AncestorsOnPath(t, b, p, a);
    AncestorsOnPath(t, a, q, b);
    var i :| 0 <= i < |p| && p[i] == a;
    var j :| 0 <= j < |q| && q[j] == b;
    PathPrefix(t, b, p, i);
    PathUnique(t, a, p[..i + 1], q);
    PathPrefix(t, a, q, j);
    PathUnique(t, b, q[..j + 1], p);
    PathEndsAtTarget(t, b, p);
  }

  /** A path to any node of the tree. */
  function PathOf(t: Tree, x: NodeRef): (p: seq<NodeRef>)
    requires x in Ids(t)
    ensures IsPathTo(t, x, p)
  {
    if t.id == x then [t.id]
    else if x in Ids(t.left) then [t.id] + PathOf(t.left, x)
    else [t.id] + PathOf(t.right, x)
  }
}
