/**
 * `TreeNode` and `Tree` of tree.js: a general tree whose nodes hold a value
 * and a list of children, with three folds that add up one number per node.
 *
 * Each fold is a recursive helper running a loop over the children of its
 * node; each is proved equal to a total, over the list of all values of the
 * tree, of a weight given to every value.
 */
module NaryTrees {
  import opened Wrappers

  datatype TreeNode = TreeNode(val: int, children: seq<TreeNode>)

  /** Every value of the tree, one per node, the node before its children. */
  function Values(n: TreeNode): seq<int>
    decreases n
  {
    [n.val] + ValuesAll(n.children)
  }

  /** The values of a list of subtrees, one subtree after another. */
  function ValuesAll(cs: seq<TreeNode>): seq<int>
    decreases cs
  {
    if cs == [] then [] else Values(cs[0]) + ValuesAll(cs[1..])
  }

  /** The values of a tree whose root may be `null`. */
  function TreeValues(root: Option<TreeNode>): seq<int> {
    if root.None? then [] else Values(root.value)
  }

  /** Nodes of the tree, counted on their own. */
  function NodeCount(n: TreeNode): nat
    decreases n
  {
    1 + NodeCountAll(n.children)
  }

  function NodeCountAll(cs: seq<TreeNode>): nat
    decreases cs
  {
    if cs == [] then 0 else NodeCount(cs[0]) + NodeCountAll(cs[1..])
  }

  /** The sum of the weights of the values of `s`. */
  function Total(w: int -> int, s: seq<int>): int {
    if s == [] then 0 else w(s[0]) + Total(w, s[1..])
  }

  /** A value weighs itself: the total is the sum. */
  function Identity(x: int): int {
    x
  }

  /** An even value weighs 1, an odd one 0. */
  function EvenWeight(x: int): int {
    if x % 2 == 0 then 1 else 0
  }

  /** A value above `lowerBound` weighs 1, any other 0. */
  function GreaterWeight(lowerBound: int): int -> int {
    x => if x > lowerBound then 1 else 0
  }

  /**
   * JavaScript's `a % b`: `a` minus a multiple of `b`, with the sign of `a`
   * and a magnitude below that of `b`.
   */
  function JsRem(a: int, b: int): (r: int)
    requires b != 0
    ensures a >= 0 ==> 0 <= r < (if b < 0 then -b else b)
    ensures a < 0 ==> -(if b < 0 then -b else b) < r <= 0
    ensures exists q :: a == q * b + r
  {
    var m := if b < 0 then -b else b;
    if a >= 0 then
      var q := a / m;
      assert a == (if b < 0 then -q else q) * b + a % m;
      a % m
    else
      var q := (-a) / m;
      assert a == (if b < 0 then q else -q) * b + -((-a) % m);
      -((-a) % m)
  }

  /** `v % 2 === 0` in JavaScript tests evenness, negative values included. */
  lemma JsRemTestsEvenness(v: int)
    ensures JsRem(v, 2) == 0 <==> v % 2 == 0
  {
    if v < 0 {
      assert v == -(-v);
      assert (-v) % 2 == 0 <==> v % 2 == 0 by {
        var q := (-v) / 2;
        assert -v == 2 * q + (-v) % 2;
        assert v == 2 * (-q - 1) + (2 - (-v) % 2);
      }
    }
  }

  lemma {:induction false} TotalAppend(w: int -> int, a: seq<int>, b: seq<int>)
    ensures Total(w, a + b) == Total(w, a) + Total(w, b)
  {
    if a == [] {
      assert a + b == b;
    } else {
      assert (a + b)[0] == a[0] && (a + b)[1..] == a[1..] + b;
      TotalAppend(w, a[1..], b);
    }
  }

  lemma ValuesAllSnoc(cs: seq<TreeNode>, i: nat)
    requires i < |cs|
    ensures ValuesAll(cs[..i + 1]) == ValuesAll(cs[..i]) + Values(cs[i])
  {
    ValuesAllAppend(cs[..i], [cs[i]]);
    assert cs[..i + 1] == cs[..i] + [cs[i]];
    assert ValuesAll([cs[i]]) == Values(cs[i]) + ValuesAll([]);
  }

  lemma {:induction false} ValuesAllAppend(a: seq<TreeNode>, b: seq<TreeNode>)
    ensures ValuesAll(a + b) == ValuesAll(a) + ValuesAll(b)
  {
    if a == [] {
      assert a + b == b;
    } else {
      assert (a + b)[0] == a[0] && (a + b)[1..] == a[1..] + b;
      ValuesAllAppend(a[1..], b);
    }
  }

  /** The loop over `node.children` has added the totals of the first `i` children. */
  lemma ChildStep(w: int -> int, cs: seq<TreeNode>, i: nat)
    requires i < |cs|
    ensures Total(w, ValuesAll(cs[..i + 1])) == Total(w, ValuesAll(cs[..i])) + Total(w, Values(cs[i]))
  {
    ValuesAllSnoc(cs, i);
    TotalAppend(w, ValuesAll(cs[..i]), Values(cs[i]));
  }

  lemma NodeTotal(w: int -> int, n: TreeNode)
    ensures Total(w, Values(n)) == w(n.val) + Total(w, ValuesAll(n.children[..|n.children|]))
  {
    assert n.children[..|n.children|] == n.children;
    TotalAppend(w, [n.val], ValuesAll(n.children));
  }

  // ---- The three folds ----

  /** `sumValuesInNode(node)`: the node's value plus the sums of its children. */
  method SumValuesInNode(node: TreeNode) returns (sum: int)
    ensures sum == Total(Identity, Values(node))
    decreases node
  {
    sum := node.val;
    for i := 0 to |node.children|
      invariant sum == node.val + Total(Identity, ValuesAll(node.children[..i]))
    {
      var childSum := SumValuesInNode(node.children[i]);
      ChildStep(Identity, node.children, i);
      sum := sum + childSum;
    }
    NodeTotal(Identity, node);
  }

  /** `sumValues()`: the sum of all values, 0 for the empty tree. */
  method SumValues(root: Option<TreeNode>) returns (r: int)
    ensures r == Total(Identity, TreeValues(root))
  {
    if root.None? {
      return 0;
    }
    r := SumValuesInNode(root.value);
  }

  /** `countEvensInNode(node)`: 1 if the node's value is even, plus the counts of its children. */
  method CountEvensInNode(node: TreeNode) returns (count: int)
    ensures count == Total(EvenWeight, Values(node))
    decreases node
  {
    count := if JsRem(node.val, 2) == 0 then 1 else 0;
    JsRemTestsEvenness(node.val);
    for i := 0 to |node.children|
      invariant count == EvenWeight(node.val) + Total(EvenWeight, ValuesAll(node.children[..i]))
    {
      var childCount := CountEvensInNode(node.children[i]);
      ChildStep(EvenWeight, node.children, i);
      count := count + childCount;
    }
    NodeTotal(EvenWeight, node);
  }

  /** `countEvens()`: the number of nodes with an even value, 0 for the empty tree. */
  method CountEvens(root: Option<TreeNode>) returns (r: int)
    ensures r == Total(EvenWeight, TreeValues(root))
  {
    if root.None? {
      return 0;
    }
    r := CountEvensInNode(root.value);
  }

  /** `countGreater(node, lowerBound)`: 1 if the node's value exceeds the bound, plus the counts of its children. */
  method CountGreater(node: TreeNode, lowerBound: int) returns (count: int)
    ensures count == Total(GreaterWeight(lowerBound), Values(node))
    decreases node
  {
    count := if node.val > lowerBound then 1 else 0;
    for i := 0 to |node.children|
      invariant count == GreaterWeight(lowerBound)(node.val) + Total(GreaterWeight(lowerBound), ValuesAll(node.children[..i]))
    {
      var childCount := CountGreater(node.children[i], lowerBound);
      ChildStep(GreaterWeight(lowerBound), node.children, i);
      count := count + childCount;
    }
    NodeTotal(GreaterWeight(lowerBound), node);
  }

  /** `numGreater(lowerBound)`: the number of nodes with a value above the bound, 0 for the empty tree. */
  method NumGreater(root: Option<TreeNode>, lowerBound: int) returns (r: int)
    ensures r == Total(GreaterWeight(lowerBound), TreeValues(root))
  {
    if root.None? {
      return 0;
    }
    r := CountGreater(root.value, lowerBound);
  }

  // ---- Properties of the folds ----

  /** The list of values has one entry per node. */
  lemma {:induction false} ValuesPerNode(n: TreeNode)
    ensures |Values(n)| == NodeCount(n)
    decreases n, 1
  {
    ValuesPerNodeAll(n.children);
  }

  lemma {:induction false} ValuesPerNodeAll(cs: seq<TreeNode>)
    ensures |ValuesAll(cs)| == NodeCountAll(cs)
    decreases cs, 0
  {
    if cs != [] {
      ValuesPerNode(cs[0]);
      ValuesPerNodeAll(cs[1..]);
    }
  }

  /** Counting with 0/1 weights gives at most one per value. */
  lemma {:induction false} CountAtMostLength(w: int -> int, s: seq<int>)
    requires forall x :: 0 <= w(x) <= 1
    ensures 0 <= Total(w, s) <= |s|
  {
    if s != [] {
      CountAtMostLength(w, s[1..]);
    }
  }

  /** `countEvens` and `numGreater` count at most every node of the tree. */
  lemma CountsAtMostNodes(root: TreeNode, lowerBound: int)
    ensures 0 <= Total(EvenWeight, Values(root)) <= NodeCount(root)
    ensures 0 <= Total(GreaterWeight(lowerBound), Values(root)) <= NodeCount(root)
  {
    ValuesPerNode(root);
    CountAtMostLength(EvenWeight, Values(root));
    CountAtMostLength(GreaterWeight(lowerBound), Values(root));
  }

  lemma {:induction false} GreaterAntitone(s: seq<int>, b1: int, b2: int)
    requires b1 <= b2
    ensures Total(GreaterWeight(b2), s) <= Total(GreaterWeight(b1), s)
  {
    if s != [] {
      GreaterAntitone(s[1..], b1, b2);
    }
  }

  /** `numGreater` does not grow as the bound is raised. */
  lemma NumGreaterAntitone(root: Option<TreeNode>, b1: int, b2: int)
    requires b1 <= b2
    ensures Total(GreaterWeight(b2), TreeValues(root)) <= Total(GreaterWeight(b1), TreeValues(root))
  {
    GreaterAntitone(TreeValues(root), b1, b2);
  }

  /** Removing the element at `j` from a list. */
  function Without<T>(s: seq<T>, j: nat): seq<T>
    requires j < |s|
  {
    s[..j] + s[j + 1..]
  }

  /** Taking the same element out of two permutations of each other leaves permutations. */
  lemma WithoutPermutation<T>(a: seq<T>, b: seq<T>, j: nat)
    requires multiset(a) == multiset(b) && a != [] && j < |b| && b[j] == a[0]
    ensures multiset(a[1..]) == multiset(Without(b, j))
  {
    var rest, others := multiset(a[1..]), multiset(Without(b, j));
    assert a == [a[0]] + a[1..];
    assert multiset(a) == multiset{a[0]} + rest;
    MiddleOut(b[..j], [b[j]], b[j + 1..]);
    assert b == b[..j] + [b[j]] + b[j + 1..];
    assert multiset(b) == multiset{a[0]} + others;
    assert forall y :: rest[y] == others[y] by {
      forall y ensures rest[y] == others[y] {
        assert (multiset{a[0]} + rest)[y] == (multiset{a[0]} + others)[y];
      }
    }
  }

  lemma MiddleOut<T>(x: seq<T>, y: seq<T>, z: seq<T>)
    ensures multiset(x + y + z) == multiset(y) + multiset(x + z)
  {
  }

  lemma TotalAround(w: int -> int, x: seq<int>, c: int, z: seq<int>)
    ensures Total(w, x + [c] + z) == Total(w, x) + w(c) + Total(w, z)
  {
    TotalAppend(w, x + [c], z);
    TotalAppend(w, x, [c]);
  }

  lemma TotalWithout(w: int -> int, b: seq<int>, j: nat)
    requires j < |b|
    ensures Total(w, b) == w(b[j]) + Total(w, Without(b, j))
  {
    var x, z := b[..j], b[j + 1..];
    assert b == x + [b[j]] + z;
    TotalAround(w, x, b[j], z);
    TotalAppend(w, x, z);
  }

  lemma ValuesAllAround(x: seq<TreeNode>, c: TreeNode, z: seq<TreeNode>)
    ensures ValuesAll(x + [c] + z) == ValuesAll(x) + Values(c) + ValuesAll(z)
  {
    ValuesAllAppend(x + [c], z);
    ValuesAllAppend(x, [c]);
    assert ValuesAll([c]) == Values(c) + ValuesAll([]);
  }

  lemma ValuesAllWithout(x: seq<TreeNode>, c: TreeNode, z: seq<TreeNode>)
    ensures multiset(ValuesAll(x + [c] + z)) == multiset(Values(c)) + multiset(ValuesAll(x + z))
  {
    ValuesAllAround(x, c, z);
    ValuesAllAppend(x, z);
    MiddleOut(ValuesAll(x), Values(c), ValuesAll(z));
  }

  /** A total only depends on which values there are, not on their order. */
  lemma {:induction false} TotalPermutation(w: int -> int, a: seq<int>, b: seq<int>)
    requires multiset(a) == multiset(b)
    ensures Total(w, a) == Total(w, b)
    decreases |a|
  {
    if a != [] {
      assert a[0] in multiset(b);
      var j :| 0 <= j < |b| && b[j] == a[0];
      WithoutPermutation(a, b, j);
      TotalPermutation(w, a[1..], Without(b, j));
      TotalWithout(w, b, j);
    } else {
      assert |b| == |multiset(b)| == 0;
    }
  }

  /** Reordering subtrees reorders their values. */
  lemma {:induction false} ValuesAllPermutation(a: seq<TreeNode>, b: seq<TreeNode>)
    requires multiset(a) == multiset(b)
    ensures multiset(ValuesAll(a)) == multiset(ValuesAll(b))
    decreases |a|
  {
    if a != [] {
      assert a[0] in multiset(b);
      var j :| 0 <= j < |b| && b[j] == a[0];
      WithoutPermutation(a, b, j);
      var x, z := b[..j], b[j + 1..];
      assert b == x + [b[j]] + z && Without(b, j) == x + z;
      ValuesAllPermutation(a[1..], x + z);
      ValuesAllWithout(x, b[j], z);
    } else {
      assert |b| == |multiset(b)| == 0;
    }
  }

  /**
   * The folds only add up the children's results, so reordering a node's
   * children changes none of `sumValues`, `countEvens` and `numGreater`.
   */
  lemma ChildOrderIrrelevant(n: TreeNode, m: TreeNode, w: int -> int)
    requires n.val == m.val && multiset(n.children) == multiset(m.children)
    ensures Total(w, Values(n)) == Total(w, Values(m))
  {
    ValuesAllPermutation(n.children, m.children);
    TotalPermutation(w, Values(n), Values(m));
  }
}
