/**
 * `maxSum` and `maxSumHelper` of binary-tree.js: the largest sum of the
 * values along a path of the tree that visits no node twice.
 *
 * A path of a binary tree has one topmost node; from there it descends
 * into at most one walk in the left subtree and at most one walk in the
 * right subtree. `Path` describes a path that way, independently of the
 * bottom-up recursion of the source, and `MaxSumIsBestPath` shows that the
 * recursion finds the best of them.
 */
module MaxPathSum {
  import opened Wrappers
  import opened BinaryTrees

  /** The child in direction `d`: `false` is left, `true` is right. */
  function Child(t: Tree, d: bool): Tree
    requires t.Node?
  {
    if d then t.right else t.left
  }

  /** The subtree reached from the root along the directions `addr`. */
  function Subtree(t: Tree, addr: seq<bool>): Tree {
    if addr == [] || t.Nil? then (if addr == [] then t else Nil)
    else Subtree(Child(t, addr[0]), addr[1..])
  }

  /** A downward walk: the root of `t`, then one node per direction. */
  predicate IsWalk(t: Tree, dirs: seq<bool>) {
    t.Node? && (dirs == [] || IsWalk(Child(t, dirs[0]), dirs[1..]))
  }

  function WalkSum(t: Tree, dirs: seq<bool>): int
    requires IsWalk(t, dirs)
  {
    t.val + if dirs == [] then 0 else WalkSum(Child(t, dirs[0]), dirs[1..])
  }

  /** An arm is an empty walk (`None`) or a walk from the root of `t`. */
  predicate IsArm(t: Tree, arm: Option<seq<bool>>) {
    arm.None? || IsWalk(t, arm.value)
  }

  function ArmSum(t: Tree, arm: Option<seq<bool>>): int
    requires IsArm(t, arm)
  {
    if arm.None? then 0 else WalkSum(t, arm.value)
  }

  /** A path: its topmost node (by address) and the arms into both subtrees. */
  datatype Path = Path(top: seq<bool>, leftArm: Option<seq<bool>>, rightArm: Option<seq<bool>>)

  predicate IsPath(t: Tree, p: Path) {
    var n := Subtree(t, p.top);
    n.Node? && IsArm(n.left, p.leftArm) && IsArm(n.right, p.rightArm)
  }

  function PathSum(t: Tree, p: Path): int
    requires IsPath(t, p)
  {
    var n := Subtree(t, p.top);
    n.val + ArmSum(n.left, p.leftArm) + ArmSum(n.right, p.rightArm)
  }

  /** What `maxSumHelper` returns: the node's value plus the better clamped subtree. */
  function Down(t: Tree): int {
    match t
    case Nil => 0
    case Node(_, v, l, r) => v + Max(Max(0, Down(l)), Max(0, Down(r)))
  }

  /** The candidate `maxSumHelper` offers at node `t`: the best path bending there. */
  function Bent(t: Tree): int
    requires t.Node?
  {
    t.val + Max(0, Down(t.left)) + Max(0, Down(t.right))
  }

  /** The larger of two candidates, `None` (no candidate yet) being the identity. */
  function Join(a: Option<int>, b: Option<int>): Option<int> {
    if a.None? then b else if b.None? then a else Some(Max(a.value, b.value))
  }

  lemma JoinAssociative(a: Option<int>, b: Option<int>, c: Option<int>)
    ensures Join(Join(a, b), c) == Join(a, Join(b, c))
  {
  }

  /** The best candidate over all nodes of `t`; `None` for the empty tree. */
  function BestBent(t: Tree): Option<int> {
    match t
    case Nil => None
    case Node(_, _, l, r) => Join(Join(BestBent(l), BestBent(r)), Some(Bent(t)))
  }

  /** The walk that attains `Down`. */
  function BestWalk(t: Tree): seq<bool>
    requires t.Node?
  {
    var dl, dr := Max(0, Down(t.left)), Max(0, Down(t.right));
    if dl == 0 && dr == 0 then []
    else if dl >= dr then [false] + BestWalk(t.left)
    else [true] + BestWalk(t.right)
  }

  function BestArm(t: Tree): Option<seq<bool>> {
    if t.Node? && Down(t) > 0 then Some(BestWalk(t)) else None
  }

  /** Address of a node whose candidate is `BestBent`. */
  function BestTop(t: Tree): seq<bool>
    requires t.Node?
  {
    var b := BestBent(t).value;
    if t.left.Node? && BestBent(t.left) == Some(b) then [false] + BestTop(t.left)
    else if t.right.Node? && BestBent(t.right) == Some(b) then [true] + BestTop(t.right)
    else []
  }

  function BestPath(t: Tree): Path
    requires t.Node?
  {
    var top := BestTop(t);
    var n := Subtree(t, top);
    if n.Node? then Path(top, BestArm(n.left), BestArm(n.right)) else Path(top, None, None)
  }

  /** No downward walk from the root beats `Down`. */
  lemma {:induction false} WalkAtMostDown(t: Tree, dirs: seq<bool>)
    requires IsWalk(t, dirs)
    ensures WalkSum(t, dirs) <= Down(t)
  {
    if dirs != [] {
      WalkAtMostDown(Child(t, dirs[0]), dirs[1..]);
    }
  }

  /** `BestWalk` is a walk whose sum is `Down`. */
  lemma {:induction false} BestWalkAttainsDown(t: Tree)
    requires t.Node?
    ensures IsWalk(t, BestWalk(t)) && WalkSum(t, BestWalk(t)) == Down(t)
  {
    var dl, dr := Max(0, Down(t.left)), Max(0, Down(t.right));
    if dl == 0 && dr == 0 {
    } else if dl >= dr {
      BestWalkAttainsDown(t.left);
      assert BestWalk(t)[1..] == BestWalk(t.left);
    } else {
      BestWalkAttainsDown(t.right);
      assert BestWalk(t)[1..] == BestWalk(t.right);
    }
  }

  /** The clamped value `max(0, Down(t))` is exactly the best arm into `t`. */
  lemma ArmAtMostClampedDown(t: Tree, arm: Option<seq<bool>>)
    requires IsArm(t, arm)
    ensures ArmSum(t, arm) <= Max(0, Down(t))
    ensures IsArm(t, BestArm(t)) && ArmSum(t, BestArm(t)) == Max(0, Down(t))
  {
    if arm.Some? {
      WalkAtMostDown(t, arm.value);
    }
    if t.Node? && Down(t) > 0 {
      BestWalkAttainsDown(t);
    }
  }

  /** The candidate at a node is the best path whose topmost node it is. */
  lemma BentIsBestPathAtTop(t: Tree, p: Path)
    requires IsPath(t, p)
    ensures PathSum(t, p) <= Bent(Subtree(t, p.top))
  {
    var n := Subtree(t, p.top);
    ArmAtMostClampedDown(n.left, p.leftArm);
    ArmAtMostClampedDown(n.right, p.rightArm);
  }

  lemma {:induction false} SubtreeStep(t: Tree, d: bool, addr: seq<bool>)
    requires t.Node?
    ensures Subtree(t, [d] + addr) == Subtree(Child(t, d), addr)
  {
    assert ([d] + addr)[1..] == addr;
  }

  /** `BestBent` bounds the candidate of every node. */
  lemma {:induction false} BestBentBoundsEveryNode(t: Tree, addr: seq<bool>)
    requires Subtree(t, addr).Node?
    ensures BestBent(t).Some? && Bent(Subtree(t, addr)) <= BestBent(t).value
  {
    if addr != [] {
      BestBentBoundsEveryNode(Child(t, addr[0]), addr[1..]);
    }
  }

  /** `BestTop` addresses a node whose candidate is `BestBent`. */
  lemma {:induction false} BestTopAttains(t: Tree)
    requires t.Node?
    ensures Subtree(t, BestTop(t)).Node? && BestBent(t) == Some(Bent(Subtree(t, BestTop(t))))
  {
    var b := BestBent(t).value;
    if t.left.Node? && BestBent(t.left) == Some(b) {
      BestTopAttains(t.left);
      SubtreeStep(t, false, BestTop(t.left));
    } else if t.right.Node? && BestBent(t.right) == Some(b) {
      BestTopAttains(t.right);
      SubtreeStep(t, true, BestTop(t.right));
    }
  }

  /**
   * The best candidate is the maximum path sum: no path exceeds it and
   * `BestPath` attains it.
   */
  lemma MaxSumIsBestPath(t: Tree)
    requires t.Node?
    ensures BestBent(t).Some?
    ensures forall p :: IsPath(t, p) ==> PathSum(t, p) <= BestBent(t).value
    ensures IsPath(t, BestPath(t)) && PathSum(t, BestPath(t)) == BestBent(t).value
  {
    forall p | IsPath(t, p)
      ensures PathSum(t, p) <= BestBent(t).value
    {
      BentIsBestPathAtTop(t, p);
      BestBentBoundsEveryNode(t, p.top);
    }
    BestTopAttains(t);
    var n := Subtree(t, BestTop(t));
    ArmAtMostClampedDown(n.left, None);
    ArmAtMostClampedDown(n.right, None);
  }

  /** In a tree of negative values the best walk is the root alone. */
  lemma {:induction false} NegativeDown(t: Tree)
    requires forall v :: v in Values(t) ==> v < 0
    ensures t.Node? ==> Down(t) == t.val
    ensures Down(t) <= 0
  {
    if t.Node? {
      assert Values(t) == {t.val} + Values(t.left) + Values(t.right);
      NegativeDown(t.left);
      NegativeDown(t.right);
    }
  }

  /** For an all-negative tree the maximum path sum is its largest value. */
  lemma {:induction false} AllNegativeGivesLargestValue(t: Tree)
    requires t.Node?
    requires forall v :: v in Values(t) ==> v < 0
    ensures BestBent(t).Some?
    ensures BestBent(t).value in Values(t)
    ensures forall v :: v in Values(t) ==> v <= BestBent(t).value
  {
    assert Values(t) == {t.val} + Values(t.left) + Values(t.right);
    NegativeDown(t.left);
    NegativeDown(t.right);
    if t.left.Node? {
      AllNegativeGivesLargestValue(t.left);
    }
    if t.right.Node? {
      AllNegativeGivesLargestValue(t.right);
    }
  }

  /**
   * `maxSumHelper(node)`: returns the best downward sum from `node` and
   * folds every node's bent candidate into the running best, threaded
   * through the call instead of the field `this.maxPathSum`.
   */
  method MaxSumHelper(node: Tree, best: Option<int>) returns (down: int, best': Option<int>)
    ensures down == Down(node)
    ensures best' == Join(best, BestBent(node))
    ensures node.Node? ==> IsWalk(node, BestWalk(node)) && WalkSum(node, BestWalk(node)) == down
  {
    if node.Nil? {
      return 0, best;
    }
    var l, afterLeft := MaxSumHelper(node.left, best);
    var leftSum := Max(0, l);
    var r, afterRight := MaxSumHelper(node.right, afterLeft);
    var rightSum := Max(0, r);
    best' := Join(afterRight, Some(node.val + leftSum + rightSum));
    down := node.val + Max(leftSum, rightSum);
    BestWalkAttainsDown(node);
    var a, b, c := BestBent(node.left), BestBent(node.right), Some(Bent(node));
    JoinAssociative(Join(best, a), b, c);
    JoinAssociative(best, a, Join(b, c));
    JoinAssociative(a, b, c);
  }

  /**
   * `maxSum()`: 0 for the empty tree, otherwise the largest sum along a
   * path of the tree.
   */
  method MaxSum(root: Tree) returns (r: int)
    ensures root.Nil? ==> r == 0
    ensures root.Node? ==> forall p :: IsPath(root, p) ==> PathSum(root, p) <= r
    ensures root.Node? ==> exists p :: IsPath(root, p) && PathSum(root, p) == r
    ensures root.Node? ==> BestBent(root).Some? && r == BestBent(root).value
  {
    var _, best := MaxSumHelper(root, None);
    r := if best.None? then 0 else best.value;
    if root.Node? {
      MaxSumIsBestPath(root);
      var p := BestPath(root);
      assert IsPath(root, p) && PathSum(root, p) == r;
    }
  }
}
