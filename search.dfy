/**
 * `nextLarger(lowerBound)` of binary-tree.js: the smallest value in the
 * tree that is strictly above a bound, or `null` when there is none.
 */
module BoundedSearch {
  import opened Wrappers
  import opened BinaryTrees

  /**
   * `r` is the least element of `vals` above `bound`, and `None` exactly
   * when no element is above `bound`.
   */
  predicate IsNextLarger(vals: set<int>, bound: int, r: Option<int>) {
    && (r.None? <==> forall v :: v in vals ==> v <= bound)
    && (r.Some? ==> r.value in vals && r.value > bound && forall v :: v in vals && v > bound ==> r.value <= v)
  }

  /** The values in the subtrees waiting in a queue. */
  function QueueValues(q: seq<Tree>): set<int> {
    if q == [] then {} else Values(q[0]) + QueueValues(q[1..])
  }

  lemma {:induction false} QueueAppend(a: seq<Tree>, b: seq<Tree>)
    ensures QueueValues(a + b) == QueueValues(a) + QueueValues(b)
  {
    if a == [] {
      assert a + b == b;
    } else {
      assert (a + b)[1..] == a[1..] + b;
      assert (a + b)[0] == a[0];
      QueueAppend(a[1..], b);
    }
  }

  lemma QueueOfOne(t: Tree)
    ensures QueueValues([t]) == Values(t) && QueueSize([t]) == Size(t)
  {
    assert [t][1..] == [];
  }

  /** The present children of a node hold the values and nodes of both subtrees. */
  lemma ChildrenQueue(n: Tree)
    requires n.Node?
    ensures QueueValues(PresentChildren(n)) == Values(n.left) + Values(n.right)
    ensures QueueSize(PresentChildren(n)) == Size(n.left) + Size(n.right)
    ensures forall j :: 0 <= j < |PresentChildren(n)| ==> PresentChildren(n)[j].Node?
  {
    var l, r := n.left, n.right;
    QueueOfOne(l);
    QueueOfOne(r);
    if l.Node? && r.Node? {
      assert PresentChildren(n) == [l] + [r];
      QueueAppend([l], [r]);
      QueueSizeAppend([l], [r]);
    } else if l.Node? {
      assert PresentChildren(n) == [l];
    } else if r.Node? {
      assert PresentChildren(n) == [r];
    }
  }

  /**
   * Dequeuing a node and queuing its present children leaves the same
   * values and fewer nodes to visit, all of them nodes.
   */
  lemma Dequeue(q: seq<Tree>)
    requires q != [] && q[0].Node? && forall j :: 0 <= j < |q| ==> q[j].Node?
    ensures var q' := q[1..] + PresentChildren(q[0]);
      && QueueValues(q) == {q[0].val} + QueueValues(q')
      && QueueSize(q') < QueueSize(q)
      && forall j :: 0 <= j < |q'| ==> q'[j].Node?
  {
    QueueAppend(q[1..], PresentChildren(q[0]));
    QueueSizeAppend(q[1..], PresentChildren(q[0]));
    ChildrenQueue(q[0]);
  }

  /** Comparing one more value keeps the smallest one above the bound. */
  lemma KeepSmallest(seen: set<int>, bound: int, r: Option<int>, v: int)
    requires IsNextLarger(seen, bound, r)
    ensures IsNextLarger(seen + {v}, bound, if v > bound && (r.None? || v < r.value) then Some(v) else r)
  {
  }

  /**
   * `nextLarger(lowerBound)`: a breadth-first scan that keeps the smallest
   * value seen above the bound.
   */
  method NextLarger(root: Tree, lowerBound: int) returns (r: Option<int>)
    ensures IsNextLarger(Values(root), lowerBound, r)
  {
    if root.Nil? {
      return None;
    }
    var smallestAboveBound: Option<int> := None;
    var queue := [root];
    ghost var seen: set<int> := {};
    while |queue| > 0
      invariant forall j :: 0 <= j < |queue| ==> queue[j].Node?
      invariant Values(root) == seen + QueueValues(queue)
      invariant IsNextLarger(seen, lowerBound, smallestAboveBound)
      decreases QueueSize(queue)
    {
      var node := queue[0];
      Dequeue(queue);
      KeepSmallest(seen, lowerBound, smallestAboveBound, node.val);
      ghost var rest := queue[1..] + PresentChildren(node);
      queue := queue[1..];
      if node.val > lowerBound && (smallestAboveBound.None? || node.val < smallestAboveBound.value) {
        smallestAboveBound := Some(node.val);
      }
      seen := seen + {node.val};
      if node.left.Node? {
        queue := queue + [node.left];
      }
      if node.right.Node? {
        queue := queue + [node.right];
      }
      assert queue == rest;
    }
    return smallestAboveBound;
  }
}
