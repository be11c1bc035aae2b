# Binary and general trees, modelled in Dafny

This project models two small in-memory tree libraries:

- `BinaryTree`, in binary-tree.js. It answers depth queries (`minDepth`, `maxDepth`) and computes the maximum path sum (`maxSum` with `maxSumHelper`). It finds the smallest value above a bound (`nextLarger`) and two relationships between nodes (`areCousins`, `lowestCommonAncestor`). It also encodes a tree in level order and decodes it again (`serialize`, `deserialize`).
- `Tree`, in tree.js. It is a general tree with three folds over all of its nodes: `sumValues`, `countEvens` and `numGreater`.

The modules are:

- `BinaryTrees` (binary_tree.dfy): the data model.
  - A tree is `Nil | Node(id, val, left, right)`, and `Nil` stands for a `null` root or child.
  - `id` stands for the identity of a node object, because the source compares nodes with `===`.
  - `UniqueIds` says that no node object is reachable twice, so the nodes form a strict tree. Every tree `deserialize` builds meets it.
- `Depth` (depth.dfy):
  - `maxDepth` is a function.
  - `minDepth` is a method with the source's `while` loop over levels. Its inner `for` loop over one level is `ScanLevel`.
  - Both are proved against reference definitions: the deepest and the shallowest leaf.
- `MaxPathSum` (max_sum.dfy):
  - `maxSumHelper` is a recursive method that threads the running best.
  - Paths are described independently of that recursion, as a top node with at most one downward arm on each side.
  - The result is proved to be the best sum over all such paths.
- `BoundedSearch` (search.dfy): `nextLarger` is a breadth-first loop over a queue.
- `Cousins` (cousins.dfy): `findDepthAndParent` is a function and `areCousins` uses it.
- `Ancestors` (ancestors.dfy):
  - `findPath` is a method that pushes and pops a path.
  - `lowestCommonAncestor` is a method with the source's loop over both paths.
- `Codec` (codec.dfy): `serialize` and `deserialize` at token level.
  - A token is `Some(value)` or `None` for `null`, and the empty token list stands for the empty string.
  - `Deserialize` keeps the source's loop and queue. The node objects it wires together are cells of an arena, and a node's identity is its cell index. Each `node.left = …` / `node.right = …` is an update of one cell.
  - `DecodedSerialization` is the round trip: decoding what `serialize` produced gives back the tree's shape and values.
- `NaryTrees` (nary_tree.dfy): the three folds of tree.js, each a recursive method whose loop over `node.children` updates an accumulator.
  - Each fold is proved equal to a weighted total over the list of all the tree's values.
  - Bounds, monotonicity and independence from the order of the children are proved about those totals.
- `Wrappers` (wrappers.dfy): `Option`.

## Model

| member | source | states |
|---|---|---|
| Depth.MaxDepth | binary-tree.js:39-44 | `maxDepth` is 0 for the empty tree; otherwise some leaf lies at the depth it returns and no leaf lies deeper |
| Depth.MinLeafDepthIsShallowest | binary-tree.js:19-34 | the reference minimum depth is 0 for the empty tree; otherwise some leaf lies at that depth and no leaf lies shallower |
| Depth.MinDepthAtMostMaxDepth | binary-tree.js:19-44 | for a non-empty tree, 1 <= minimum depth <= maximum depth |
| Depth.LevelStep | binary-tree.js:25-31 | the nodes one level down are exactly the present children of the nodes of a level, left to right, as the scan pushes them |
| Depth.LeafAtIffLeafInLevel | binary-tree.js:27 | a leaf lies at depth d if and only if the queue for depth d holds a leaf |
| Depth.LevelNonEmpty | binary-tree.js:23-33 | every depth from 1 to the maximum depth holds a node, so the loop never empties before a leaf is met and the final `return depth` is unreachable |
| Depth.PushChildren | binary-tree.js:28-29 | pushing the left child, then the right one, when present, appends exactly the node's present children |
| Depth.ScanLevel | binary-tree.js:26-30 | the scan of one level reports a leaf if and only if the level holds one; when it does not, it returns the whole next level in order |
| Depth.MinDepth | binary-tree.js:19-34 | `minDepth()` returns the depth of the shallowest leaf, counting the root as 1, and 0 for the empty tree |
| MaxPathSum.WalkAtMostDown | binary-tree.js:49-55 | no downward walk from a node sums to more than what `maxSumHelper` returns for it |
| MaxPathSum.BestWalkAttainsDown | binary-tree.js:49-55 | some downward walk from a node sums to exactly what `maxSumHelper` returns for it |
| MaxPathSum.ArmAtMostClampedDown | binary-tree.js:51-52 | a possibly empty arm into a subtree sums to at most the clamped value `max(0, helper(child))`, and some arm attains it |
| MaxPathSum.BentIsBestPathAtTop | binary-tree.js:53 | every path whose top node is n sums to at most the candidate `n.val + leftSum + rightSum` |
| MaxPathSum.BestBentBoundsEveryNode | binary-tree.js:53 | the best candidate over the tree is at least the candidate of every node |
| MaxPathSum.BestTopAttains | binary-tree.js:53 | the best candidate is the candidate of some node of the tree |
| MaxPathSum.MaxSumIsBestPath | binary-tree.js:49-61 | for a non-empty tree the best candidate bounds the sum of every path and is the sum of some path |
| MaxPathSum.NegativeDown | binary-tree.js:50-54 | when every value is negative, the helper returns the node's own value, which is at most 0 |
| MaxPathSum.AllNegativeGivesLargestValue | binary-tree.js:49-61 | when every value is negative, the best candidate is the largest value in the tree |
| MaxPathSum.MaxSumHelper | binary-tree.js:49-55 | returns the best downward walk sum, attained by a walk, and leaves the running best joined with the best candidate of the subtree |
| MaxPathSum.MaxSum | binary-tree.js:57-61 | returns 0 for the empty tree; otherwise it returns the best candidate over all nodes, which bounds the sum of every path and is the sum of some path |
| BoundedSearch.Dequeue | binary-tree.js:71-76 | dequeuing a node and queuing its present children keeps the values still to visit and shrinks the work left |
| BoundedSearch.KeepSmallest | binary-tree.js:72-74 | comparing one more value keeps the smallest value above the bound among those seen |
| BoundedSearch.NextLarger | binary-tree.js:66-79 | the result is `null` exactly when no value exceeds the bound; otherwise it is a value of the tree, above the bound, and no greater than any other value above the bound |
| Cousins.FindDepthAndParent | binary-tree.js:86-97 | the depth-first search, left first, finds the target exactly when it is in the tree, and then reports a depth and parent at which it sits |
| Cousins.PlacedInUnique | binary-tree.js:86-97 | in a strict tree a node sits at one depth with one parent only |
| Cousins.CousinsUnique | binary-tree.js:99-103 | the comparison of the two reports holds exactly when both nodes are present at the same depth under different parents |
| Cousins.AreCousins | binary-tree.js:85-104 | `areCousins` holds if and only if both nodes are at one depth with different parents; when it holds both are present and distinct |
| Cousins.NoSelfOrRootCousins | binary-tree.js:102-103 | no node is its own cousin, and the root is no node's cousin |
| Ancestors.PathOf | binary-tree.js:167-181 | every node of the tree has a root-to-node path |
| Ancestors.PathUnique | binary-tree.js:167-181 | in a strict tree the path from the root to a node is unique |
| Ancestors.AncestorsOnPath | binary-tree.js:183-197 | a node is an ancestor of x exactly when it lies on the path to x |
| Ancestors.FindPath | binary-tree.js:167-181 | `findPath` succeeds exactly when the target is in the subtree; on success it appends the path to the target, and on failure the path is as before |
| Ancestors.LcaIsLowest | binary-tree.js:190-197 | the last node the two paths share is a common ancestor, and every common ancestor is an ancestor of it |
| Ancestors.LowestCommonAncestor | binary-tree.js:165-200 | the result is `null` exactly when a node is absent; otherwise it is a common ancestor that every common ancestor lies above |
| Ancestors.AncestorIsItsOwnLca | binary-tree.js:165-200 | when node1 is an ancestor of node2, the lowest common ancestor is node1 itself |
| Ancestors.AncestorAntisymmetric | binary-tree.js:165-200 | two nodes that are each other's ancestors are the same node |
| Codec.Serialize | binary-tree.js:110-122 | the breadth-first loop with `null` slots in its queue emits the serialization of the tree |
| Codec.EmitCounts | binary-tree.js:113-122 | a queue of subtrees with n nodes in all emits 2n + its length tokens, n + its length of them `null` |
| Codec.SerializationCounts | binary-tree.js:110-122 | the empty tree gives no tokens; a tree of n nodes gives 2n+1 tokens, n+1 of them `null`, starting with the root's value |
| Codec.EmitIsLevelOrder | binary-tree.js:113-122 | what the queue loop emits is the level-by-level order of the slots in the queue |
| Codec.SerializationIsLevelOrder | binary-tree.js:113-122 | a serialization lists the tree's slots level by level, left to right |
| Codec.SerializationInjective | binary-tree.js:110-122 | two trees with the same serialization have the same shape and values |
| Codec.SerializationSameShape | binary-tree.js:110-122 | trees with the same shape and values serialize alike, whatever their node identities |
| Codec.Attach | binary-tree.js:142-154 | reading one slot adds a cell exactly when the token is a value |
| Codec.BuildOk | binary-tree.js:135-156 | the cells built so far link each child to a later cell, and the root holds the first token |
| Codec.BuildStops | binary-tree.js:138-156 | once every cell's slots are read, further tokens change nothing |
| Codec.BuildFreeSlots | binary-tree.js:141-155 | on any prefix of the tokens, the slots not yet read are still `null` |
| Codec.ReadChild | binary-tree.js:141-155 | reading one slot moves `index` by one exactly when a token remains, so it never passes the end; a value token adds one node and one queue entry, a `null` token or a missing one changes nothing |
| Codec.Decoded | binary-tree.js:129-159 | the decoded tree is empty exactly when there are no tokens, its root holds the first token, and every node in it is a distinct object |
| Codec.BuildSingle | binary-tree.js:141-155 | each new node is hung on an empty slot, so no node object is a child of two slots |
| Codec.ToTreeUnique | binary-tree.js:135-154 | the tree reachable from a cell of such an arena uses every node object once |
| Codec.Deserialize | binary-tree.js:129-159 | the loop returns the tree the tokens describe |
| Codec.DecodedSerialization | binary-tree.js:109-159 | deserializing a tree's serialization rebuilds its shape and values (in both directions of `SameShape`), and serializes back to the same tokens |
| Codec.StaticSerialize | binary-tree.js:109-110 | the static method as written yields the tokens of the empty tree, which decode to the empty tree |
| Codec.StaticSerializeLosesTrees | binary-tree.js:109-110 | as written, `static serialize()` returns `''` for every tree, so a non-empty tree does not survive the round trip |
| NaryTrees.JsRem | tree.js:34 | JavaScript's `%`: the result is `a` minus a multiple of `b`, takes the sign of `a` and is smaller than `b` in magnitude |
| NaryTrees.JsRemTestsEvenness | tree.js:34 | the JavaScript test `val % 2 === 0`, with a remainder that takes the sign of `val`, holds exactly for even values, negatives included |
| NaryTrees.SumValuesInNode | tree.js:18-25 | the loop over the children returns the sum of all values in the subtree |
| NaryTrees.SumValues | tree.js:17-27 | `sumValues()` returns the sum of all values, 0 for the empty tree |
| NaryTrees.CountEvensInNode | tree.js:32-39 | the loop over the children returns the number of even values in the subtree |
| NaryTrees.CountEvens | tree.js:31-42 | `countEvens()` returns the number of nodes with an even value, 0 for the empty tree |
| NaryTrees.CountGreater | tree.js:48-55 | the loop over the children returns the number of values above the bound in the subtree |
| NaryTrees.NumGreater | tree.js:47-57 | `numGreater(b)` returns the number of nodes whose value is strictly above `b`, 0 for the empty tree |
| NaryTrees.ValuesPerNode | tree.js:20-23 | each node contributes exactly one value to the totals |
| NaryTrees.CountsAtMostNodes | tree.js:31-57 | `countEvens` and `numGreater` count at most the number of nodes |
| NaryTrees.NumGreaterAntitone | tree.js:50 | raising the bound never increases `numGreater` |
| NaryTrees.TotalPermutation | tree.js:21-23 | a total of weights does not depend on the order in which the values are added |
| NaryTrees.ChildOrderIrrelevant | tree.js:21-53 | all three folds give the same result for any reordering of a node's children |

## Left out

- Text: splitting on spaces, `parseInt` and `join(' ')` are left out. The model works on token lists, and `null` is `None`.
- Numbers: JavaScript numbers (doubles, `NaN`, precision loss) are not modelled. Values are unbounded integers.
- Codec.Deserialize: a token list whose first token is `null` is excluded by a precondition. The source would build a root holding `null` there.
- Codec.Deserialize: node objects are cells of a sequence and a node's identity is its index. The assignments `node.left = …` and `node.right = …` are updates of one cell, so heap aliasing is not modelled.
- Codec.StaticSerialize: the model keeps the static method only to show that it loses every tree. The rest of the model uses the serializer of a given tree (see Findings).
- MaxPathSum.MaxSum: the `-Infinity` sentinel is `None`. The instance field `this.maxPathSum` is an accumulator threaded through the helper's results rather than a field of an object.
- Ancestors.FindPath: the shared, mutated `path` array is a sequence passed in and returned.
- Depth.MinDepth: the final `return depth` after the loop is proved unreachable and is modelled as a dead branch.
- Cycles and shared nodes: `UniqueIds` is a precondition wherever node identity matters (`areCousins`, `lowestCommonAncestor`). Other operations work on a tree value, so they cannot meet a cycle. Trees built by `Deserialize` meet `UniqueIds` (`Codec.Decoded`).
- Constructors and `module.exports` are left out. A `BinaryTree` or `Tree` object is its root: a `Tree` value, or an `Option<TreeNode>` for tree.js.
- NaryTrees: children are always nodes. The `if (!node) return 0` guard inside the child loops is not modelled for `null` entries of a `children` array.

## Findings

| source | as written | input that shows it | evidently intended | confidence | as-written member | corrected member |
|---|---|---|---|---|---|---|
| binary-tree.js:109-110 | `serialize` is `static`, so `this.root` reads a property of the class, which is undefined, and the method always returns `''` | any non-empty tree, for example a single node with value 1, serializes to `''` instead of `1 null null`; `''` deserializes to the empty tree | serialize the given tree's nodes in level order, as `deserialize` reads them | not executed | Codec.StaticSerializeLosesTrees | Codec.DecodedSerialization |
