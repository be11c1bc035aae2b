/**
 * The data model of `BinaryTreeNode` and `BinaryTree` (binary-tree.js).
 *
 * A `BinaryTree` object holds an optional root node; here the tree is the
 * value of its root, `Nil` standing for the `null` root or a `null` child.
 * Node objects are compared by reference in the source (`===`), so each
 * node carries an `id` standing for its object identity; `UniqueIds`
 * states that no node object is reachable along two paths (a strict tree).
 */
module BinaryTrees {

  /** The identity of a node object. */
  type NodeRef = nat

  datatype Tree = Nil | Node(id: NodeRef, val: int, left: Tree, right: Tree)

  /** A leaf is a node with neither child. */
  predicate IsLeaf(t: Tree) {
    t.Node? && t.left.Nil? && t.right.Nil?
  }

  /** Number of nodes. */
  function Size(t: Tree): nat {
    match t
    case Nil => 0
    case Node(_, _, l, r) => 1 + Size(l) + Size(r)
  }

  /** The identities of all nodes of the tree. */
  function Ids(t: Tree): set<NodeRef> {
    match t
    case Nil => {}
    case Node(id, _, l, r) => {id} + Ids(l) + Ids(r)
  }

  /** The values held anywhere in the tree. */
  function Values(t: Tree): set<int> {
    match t
    case Nil => {}
    case Node(_, v, l, r) => {v} + Values(l) + Values(r)
  }

  /** Every node object occurs once: the tree is not a shared graph. */
  predicate UniqueIds(t: Tree) {
    match t
    case Nil => true
    case Node(id, _, l, r) =>
      && id !in Ids(l) && id !in Ids(r)
      && Ids(l) !! Ids(r)
      && UniqueIds(l) && UniqueIds(r)
  }

  /** Same shape and same values, whatever the node identities. */
  predicate SameShape(a: Tree, b: Tree) {
    match a
    case Nil => b.Nil?
    case Node(_, v, l, r) => b.Node? && b.val == v && SameShape(l, b.left) && SameShape(r, b.right)
  }

  /** The children of `t` that are present, left first. */
  function PresentChildren(t: Tree): seq<Tree> {
    match t
    case Nil => []
    case Node(_, _, l, r) => (if l.Node? then [l] else []) + (if r.Node? then [r] else [])
  }

  /** The number of nodes in the subtrees waiting in a queue. */
  function QueueSize(q: seq<Tree>): nat {
    if q == [] then 0 else Size(q[0]) + QueueSize(q[1..])
  }

  lemma {:induction false} QueueSizeAppend(a: seq<Tree>, b: seq<Tree>)
    ensures QueueSize(a + b) == QueueSize(a) + QueueSize(b)
  {
    if a == [] {
      assert a + b == b;
    } else {
      assert (a + b)[1..] == a[1..] + b;
      assert (a + b)[0] == a[0];
      QueueSizeAppend(a[1..], b);
    }
  }

  function Max(a: int, b: int): int {
    if a < b then b else a
  }

  function Min(a: int, b: int): int {
    if a < b then a else b
  }

  lemma {:induction false} SameShapeSymmetric(a: Tree, b: Tree)
    requires SameShape(a, b)
    ensures SameShape(b, a)
  {
    if a.Node? {
      SameShapeSymmetric(a.left, b.left);
      SameShapeSymmetric(a.right, b.right);
    }
  }
}
