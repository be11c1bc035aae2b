/**
 * `areCousins` and its helper `findDepthAndParent` of binary-tree.js.
 * Nodes are given by identity; depths here count edges from the root
 * (the root is at depth 0), as the helper does.
 */
module Cousins {
  import opened Wrappers
  import opened BinaryTrees

  /** What `findDepthAndParent` reports: the depth and the parent (`null` for the root). */
  datatype Info = Info(depth: nat, parent: Option<NodeRef>)

  /**
   * `PlacedIn(t, up, x, d, p)`: in the tree `t`, hung below the node `up`,
   * node `x` sits `d` edges below the root of `t` and its parent is `p`.
   */
  predicate PlacedIn(t: Tree, up: Option<NodeRef>, x: NodeRef, d: nat, p: Option<NodeRef>) {
    match t
    case Nil => false
    case Node(id, _, l, r) =>
      || (id == x && d == 0 && p == up)
      || (d > 0 && (PlacedIn(l, Some(id), x, d - 1, p) || PlacedIn(r, Some(id), x, d - 1, p)))
  }

  /**
   * `findDepthAndParent(node, target, depth, parent)`: a depth-first search,
   * left first. It finds the target exactly when it is in the tree, and then
   * reports where it sits.
   */
  function FindDepthAndParent(node: Tree, target: NodeRef, depth: nat, parent: Option<NodeRef>): (r: Option<Info>)
    ensures r.Some? <==> target in Ids(node)
    ensures r.Some? ==> r.value.depth >= depth && PlacedIn(node, parent, target, r.value.depth - depth, r.value.parent)
  {
    match node
    case Nil => None
    case Node(id, _, l, r) =>
      if id == target then Some(Info(depth, parent))
      else
        var left := FindDepthAndParent(l, target, depth + 1, Some(id));
        if left.Some? then left
        else FindDepthAndParent(r, target, depth + 1, Some(id))
  }

  lemma {:induction false} PlacedInTree(t: Tree, up: Option<NodeRef>, x: NodeRef, d: nat, p: Option<NodeRef>)
    requires PlacedIn(t, up, x, d, p)
    ensures x in Ids(t)
  {
    match t
    case Node(id, _, l, r) =>
      if !(id == x && d == 0 && p == up) {
        if PlacedIn(l, Some(id), x, d - 1, p) {
          PlacedInTree(l, Some(id), x, d - 1, p);
        } else {
          PlacedInTree(r, Some(id), x, d - 1, p);
        }
      }
  }

  /** In a strict tree a node has one depth and one parent. */
  lemma {:induction false} PlacedInUnique(t: Tree, up: Option<NodeRef>, x: NodeRef, d1: nat, p1: Option<NodeRef>, d2: nat, p2: Option<NodeRef>)
    requires UniqueIds(t)
    requires PlacedIn(t, up, x, d1, p1) && PlacedIn(t, up, x, d2, p2)
    ensures d1 == d2 && p1 == p2
  {
    match t
    case Node(id, _, l, r) =>
      if id == x {
        if d1 > 0 {
          if PlacedIn(l, Some(id), x, d1 - 1, p1) { PlacedInTree(l, Some(id), x, d1 - 1, p1); }
          else { PlacedInTree(r, Some(id), x, d1 - 1, p1); }
        }
        if d2 > 0 {
          if PlacedIn(l, Some(id), x, d2 - 1, p2) { PlacedInTree(l, Some(id), x, d2 - 1, p2); }
          else { PlacedInTree(r, Some(id), x, d2 - 1, p2); }
        }
      } else {
        var inL1 := PlacedIn(l, Some(id), x, d1 - 1, p1);
        var inL2 := PlacedIn(l, Some(id), x, d2 - 1, p2);
        if inL1 { PlacedInTree(l, Some(id), x, d1 - 1, p1); } else { PlacedInTree(r, Some(id), x, d1 - 1, p1); }
        if inL2 { PlacedInTree(l, Some(id), x, d2 - 1, p2); } else { PlacedInTree(r, Some(id), x, d2 - 1, p2); }
        if inL1 && inL2 {
          PlacedInUnique(l, Some(id), x, d1 - 1, p1, d2 - 1, p2);
        } else if !inL1 && !inL2 {
          PlacedInUnique(r, Some(id), x, d1 - 1, p1, d2 - 1, p2);
        }
      }
  }

  /** Two nodes are cousins: both in the tree, same depth, different parents. */
  ghost predicate CousinsIn(root: Tree, a: NodeRef, b: NodeRef) {
    exists d: nat, pa: Option<NodeRef>, pb: Option<NodeRef> ::
      PlacedIn(root, None, a, d, pa) && PlacedIn(root, None, b, d, pb) && pa != pb
  }

  /**
   * `areCousins(node1, node2)`: false when either node is missing,
   * otherwise whether the depths agree and the parents differ.
   */
  function AreCousins(root: Tree, node1: NodeRef, node2: NodeRef): (r: bool)
    requires UniqueIds(root)
    ensures r <==> CousinsIn(root, node1, node2)
    ensures r ==> node1 in Ids(root) && node2 in Ids(root) && node1 != node2
  {
    var node1Info := FindDepthAndParent(root, node1, 0, None);
    var node2Info := FindDepthAndParent(root, node2, 0, None);
    CousinsUnique(root, node1, node2, node1Info, node2Info);
    if node1Info.None? || node2Info.None? then false
    else node1Info.value.depth == node2Info.value.depth && node1Info.value.parent != node2Info.value.parent
  }

  lemma CousinsUnique(root: Tree, a: NodeRef, b: NodeRef, ia: Option<Info>, ib: Option<Info>)
    requires UniqueIds(root)
    requires ia.Some? <==> a in Ids(root)
    requires ib.Some? <==> b in Ids(root)
    requires ia.Some? ==> PlacedIn(root, None, a, ia.value.depth, ia.value.parent)
    requires ib.Some? ==> PlacedIn(root, None, b, ib.value.depth, ib.value.parent)
    ensures CousinsIn(root, a, b) <==>
      ia.Some? && ib.Some? && ia.value.depth == ib.value.depth && ia.value.parent != ib.value.parent
  {
    if CousinsIn(root, a, b) {
      var d: nat, pa: Option<NodeRef>, pb: Option<NodeRef> :|
        PlacedIn(root, None, a, d, pa) && PlacedIn(root, None, b, d, pb) && pa != pb;
      PlacedInTree(root, None, a, d, pa);
      PlacedInTree(root, None, b, d, pb);
      PlacedInUnique(root, None, a, d, pa, ia.value.depth, ia.value.parent);
      PlacedInUnique(root, None, b, d, pb, ib.value.depth, ib.value.parent);
    }
  }

  /** A node is never its own cousin, and the root has no cousins. */
  lemma NoSelfOrRootCousins(root: Tree, x: NodeRef)
    requires UniqueIds(root)
    ensures !AreCousins(root, x, x)
    ensures root.Node? ==> !AreCousins(root, root.id, x) && !AreCousins(root, x, root.id)
  {
  }
}
