/**
 * `serialize` and `deserialize` of binary-tree.js, at the level of tokens:
 * a token is a value or `None` for the literal `null`, and the empty token
 * list stands for the empty string. Splitting on spaces, `parseInt` and
 * `join(' ')` are not modelled.
 *
 * The format is a breadth-first walk in which every child slot of every
 * real node yields one token: `1` with children `2` and `3` gives
 * `1 2 3 null null null null`.
 */
module Codec {
  import opened Wrappers
  import opened BinaryTrees

  type Token = Option<int>

  /** Twice the nodes plus the slots: exactly the tokens a queue will emit. */
  function Weight(q: seq<Tree>): nat {
    if q == [] then 0 else 2 * Size(q[0]) + 1 + Weight(q[1..])
  }

  lemma {:induction false} WeightAppend(a: seq<Tree>, b: seq<Tree>)
    ensures Weight(a + b) == Weight(a) + Weight(b)
  {
    if a == [] {
      assert a + b == b;
    } else {
      assert (a + b)[1..] == a[1..] + b;
      assert (a + b)[0] == a[0];
      WeightAppend(a[1..], b);
    }
  }

  /** The token of one slot. */
  function TokenOf(t: Tree): Token {
    if t.Nil? then None else Some(t.val)
  }

  /** The slots a slot queues: both children of a node, nothing for `null`. */
  function SlotsOf(t: Tree): seq<Tree> {
    if t.Nil? then [] else [t.left, t.right]
  }

  lemma WeightStep(q: seq<Tree>)
    requires q != []
    ensures Weight(q[1..] + SlotsOf(q[0])) + 1 == Weight(q)
  {
    WeightAppend(q[1..], SlotsOf(q[0]));
    if q[0].Node? {
      assert Weight(SlotsOf(q[0])) == 2 * Size(q[0].left) + 1 + (2 * Size(q[0].right) + 1 + Weight([]));
    }
  }

  /**
   * The tokens the serializing loop emits from a queue of slots: a node
   * yields its value and queues both of its slots, an empty slot yields
   * `null` and queues nothing.
   */
  function Emit(q: seq<Tree>): seq<Token>
    decreases Weight(q)
  {
    if q == [] then [] else WeightStep(q); [TokenOf(q[0])] + Emit(q[1..] + SlotsOf(q[0]))
  }

  lemma EmitUnfold(q: seq<Tree>)
    requires q != []
    ensures Emit(q) == [TokenOf(q[0])] + Emit(q[1..] + SlotsOf(q[0]))
  {
  }

  /** The intended `serialize(tree)`: no tokens for the empty tree. */
  function Serialization(t: Tree): seq<Token> {
    if t.Nil? then [] else Emit([t])
  }

  /**
   * `serialize()`: the breadth-first loop over a queue that holds the
   * `null` slots too.
   */
  method Serialize(root: Tree) returns (tokens: seq<Token>)
    ensures tokens == Serialization(root)
  {
    if root.Nil? {
      return [];
    }
    tokens := [];
    var queue := [root];
    while |queue| > 0
      invariant tokens + Emit(queue) == Emit([root])
      decreases Weight(queue)
    {
      var node := queue[0];
      WeightStep(queue);
      assert Emit(queue) == [TokenOf(node)] + Emit(queue[1..] + SlotsOf(node));
      queue := queue[1..];
      if node.Node? {
        tokens := tokens + [Some(node.val)];
        queue := queue + [node.left, node.right];
      } else {
        tokens := tokens + [None];
        assert queue + SlotsOf(node) == queue;
      }
    }
  }

  // ---- Counting tokens ----

  function Nulls(s: seq<Token>): nat {
    if s == [] then 0 else (if s[0].None? then 1 else 0) + Nulls(s[1..])
  }

  lemma {:induction false} NullsAppend(a: seq<Token>, b: seq<Token>)
    ensures Nulls(a + b) == Nulls(a) + Nulls(b)
  {
    if a == [] {
      assert a + b == b;
    } else {
      assert (a + b)[1..] == a[1..] + b;
      assert (a + b)[0] == a[0];
      NullsAppend(a[1..], b);
    }
  }

  /** A queue emits one value per node and one `null` per node plus one per slot. */
  lemma {:induction false} EmitCounts(q: seq<Tree>)
    ensures |Emit(q)| == 2 * QueueSize(q) + |q|
    ensures Nulls(Emit(q)) == QueueSize(q) + |q|
    decreases Weight(q)
  {
    if q != [] {
      var next := q[1..] + SlotsOf(q[0]);
      WeightStep(q);
      EmitCounts(next);
      QueueSizeAppend(q[1..], SlotsOf(q[0]));
      NullsAppend([TokenOf(q[0])], Emit(next));
      if q[0].Node? {
        var l, r := q[0].left, q[0].right;
        assert [l, r][1..] == [r] && [r][1..] == [];
        assert QueueSize([l, r]) == Size(l) + (Size(r) + QueueSize([]));
      }
    }
  }

  /**
   * A tree of `n` nodes serializes to `2n + 1` tokens: its `n` values and
   * `n + 1` nulls, the root's value first; the empty tree to no tokens.
   */
  lemma SerializationCounts(t: Tree)
    ensures t.Nil? ==> Serialization(t) == []
    ensures |Serialization(t)| == if t.Nil? then 0 else 2 * Size(t) + 1
    ensures t.Node? ==> Nulls(Serialization(t)) == Size(t) + 1
    ensures t.Node? ==> Serialization(t)[0] == Some(t.val)
  {
    if t.Node? {
      EmitCounts([t]);
      assert QueueSize([t]) == Size(t) + QueueSize([]);
    }
  }

  // ---- Level order ----

  /** The token of each slot of a level. */
  function Heads(q: seq<Tree>): seq<Token> {
    if q == [] then [] else [TokenOf(q[0])] + Heads(q[1..])
  }

  /** The slots of the next level: both slots of every node of this one. */
  function Kids(q: seq<Tree>): seq<Tree> {
    if q == [] then [] else SlotsOf(q[0]) + Kids(q[1..])
  }

  lemma {:induction false} KidsWeight(q: seq<Tree>)
    ensures Weight(Kids(q)) + |q| == Weight(q)
  {
    if q != [] {
      KidsWeight(q[1..]);
      WeightStep(q);
      WeightAppend(SlotsOf(q[0]), Kids(q[1..]));
      WeightAppend(q[1..], SlotsOf(q[0]));
    }
  }

  /** Level-order reading of a forest of slots: one level of tokens after another. */
  function LevelOrder(q: seq<Tree>): seq<Token>
    decreases Weight(q)
  {
    if q == [] then [] else KidsWeight(q); Heads(q) + LevelOrder(Kids(q))
  }

  /** Emitting `q ++ r` emits `q`'s level first and then `r` followed by `q`'s children. */
  lemma EmitConsAppend(q: seq<Tree>, r: seq<Tree>)
    requires q != []
    ensures Emit(q + r) == [TokenOf(q[0])] + Emit(q[1..] + (r + SlotsOf(q[0])))
  {
    var qr := q + r;
    assert qr[0] == q[0] && qr[1..] == q[1..] + r;
    assert qr[1..] + SlotsOf(q[0]) == q[1..] + (r + SlotsOf(q[0]));
    EmitUnfold(qr);
  }

  lemma HeadsKidsUnfold(q: seq<Tree>)
    requires q != []
    ensures Heads(q) == [TokenOf(q[0])] + Heads(q[1..])
    ensures Kids(q) == SlotsOf(q[0]) + Kids(q[1..])
  {
  }

  lemma EmitSplitStep(q: seq<Tree>, r: seq<Tree>)
    requires q != []
    requires Emit(q[1..] + (r + SlotsOf(q[0]))) == Heads(q[1..]) + Emit(r + SlotsOf(q[0]) + Kids(q[1..]))
    ensures Emit(q + r) == Heads(q) + Emit(r + Kids(q))
  {
    var q', s := q[1..], SlotsOf(q[0]);
    EmitConsAppend(q, r);
    HeadsKidsUnfold(q);
    assert r + s + Kids(q') == r + Kids(q);
    Regroup(Emit(q + r), TokenOf(q[0]), Emit(q' + (r + s)), Heads(q'), Emit(r + Kids(q)), Heads(q));
  }

  lemma Regroup(whole: seq<Token>, t: Token, rest: seq<Token>, heads: seq<Token>, tail: seq<Token>, allHeads: seq<Token>)
    requires whole == [t] + rest && rest == heads + tail && allHeads == [t] + heads
    ensures whole == allHeads + tail
  {
  }

  lemma {:induction false} EmitSplit(q: seq<Tree>, r: seq<Tree>)
    ensures Emit(q + r) == Heads(q) + Emit(r + Kids(q))
    decreases |q|
  {
    if q == [] {
      assert q + r == r && r + Kids(q) == r;
    } else {
      EmitSplit(q[1..], r + SlotsOf(q[0]));
      EmitSplitStep(q, r);
    }
  }

  /** The serializing loop emits exactly the level order of the slots. */
  lemma {:induction false} EmitIsLevelOrder(q: seq<Tree>)
    ensures Emit(q) == LevelOrder(q)
    decreases Weight(q)
  {
    if q != [] {
      EmitSplit(q, []);
      assert q + [] == q && [] + Kids(q) == Kids(q);
      KidsWeight(q);
      EmitIsLevelOrder(Kids(q));
    }
  }

  /** `serialize` lists the tree level by level, each slot left to right. */
  lemma SerializationIsLevelOrder(t: Tree)
    ensures t.Node? ==> Serialization(t) == LevelOrder([t])
  {
    EmitIsLevelOrder([t]);
  }

  // ---- Injectivity ----

  /** Two queues of slots with the same shapes, slot by slot. */
  predicate SameShapes(p: seq<Tree>, q: seq<Tree>) {
    |p| == |q| && forall i :: 0 <= i < |p| ==> SameShape(p[i], q[i])
  }

  lemma {:induction false} EmitInjective(p: seq<Tree>, q: seq<Tree>)
    requires Emit(p) == Emit(q)
    ensures SameShapes(p, q)
    decreases Weight(p)
  {
    if p == [] {
    } else {
      assert q != [];
      assert Emit(p)[0] == TokenOf(p[0]) && Emit(q)[0] == TokenOf(q[0]);
      var p', q' := p[1..] + SlotsOf(p[0]), q[1..] + SlotsOf(q[0]);
      assert Emit(p') == Emit(p)[1..] && Emit(q') == Emit(q)[1..];
      WeightStep(p);
      EmitInjective(p', q');
      assert |SlotsOf(p[0])| == |SlotsOf(q[0])|;
      if p[0].Node? {
        assert SameShape(p'[|p'| - 2], q'[|q'| - 2]) && SameShape(p'[|p'| - 1], q'[|q'| - 1]);
      }
      forall i | 0 <= i < |p| ensures SameShape(p[i], q[i]) {
        if i > 0 { assert p[i] == p'[i - 1] && q[i] == q'[i - 1]; }
      }
    }
  }

  /** Trees with the same serialization have the same shape and values. */
  lemma SerializationInjective(a: Tree, b: Tree)
    requires Serialization(a) == Serialization(b)
    ensures SameShape(a, b)
  {
    if a.Nil? || b.Nil? {
      SerializationCounts(a);
      SerializationCounts(b);
    } else {
      EmitInjective([a], [b]);
      assert SameShape([a][0], [b][0]);
    }
  }

  /** Trees of the same shape serialize alike: `serialize` ignores node identity. */
  lemma {:induction false} EmitSameShapes(p: seq<Tree>, q: seq<Tree>)
    requires SameShapes(p, q)
    ensures Emit(p) == Emit(q)
    decreases Weight(p)
  {
    if p != [] {
      var p', q' := p[1..] + SlotsOf(p[0]), q[1..] + SlotsOf(q[0]);
      assert SameShape(p[0], q[0]);
      assert SameShapes(p', q') by {
        forall i | 0 <= i < |p'| ensures SameShape(p'[i], q'[i]) {
          if i < |p| - 1 {
            assert p'[i] == p[i + 1] && q'[i] == q[i + 1];
          }
        }
      }
      WeightStep(p);
      EmitSameShapes(p', q');
    }
  }

  lemma SerializationSameShape(a: Tree, b: Tree)
    requires SameShape(a, b)
    ensures Serialization(a) == Serialization(b)
  {
    if a.Node? {
      EmitSameShapes([a], [b]);
    }
  }

  // ---- Deserializing ----

  /**
   * A node object under construction, kept in an arena: the node created
   * `k`-th is cell `k`, and its children are the cells it points to.
   */
  datatype Cell = Cell(val: int, left: Option<nat>, right: Option<nat>)

  /** A child pointer of cell `k` leads to a cell created after it. */
  predicate ChildOk(cells: seq<Cell>, k: nat, c: Option<nat>) {
    c.Some? ==> k < c.value < |cells|
  }

  predicate ArenaOk(cells: seq<Cell>) {
    forall k :: 0 <= k < |cells| ==> ChildOk(cells, k, cells[k].left) && ChildOk(cells, k, cells[k].right)
  }

  /** The tree of node objects reachable from cell `k`; a node's identity is its cell. */
  function ToTree(cells: seq<Cell>, k: nat): Tree
    requires ArenaOk(cells) && k < |cells|
    decreases |cells| - k
  {
    var c := cells[k];
    Node(k, c.val,
      if c.left.Some? then ToTree(cells, c.left.value) else Nil,
      if c.right.Some? then ToTree(cells, c.right.value) else Nil)
  }

  /** The only nodes of a queue of trees. */
  function NodesOf(t: Tree): seq<Tree> {
    if t.Nil? then [] else [t]
  }

  /** A child pointer that matches the subtree it stands for. */
  predicate LinkOk(target: seq<Tree>, c: Option<nat>, sub: Tree) {
    && (c.Some? <==> sub.Node?)
    && (c.Some? ==> c.value < |target| && target[c.value] == sub)
  }

  predicate Linked(cells: seq<Cell>, target: seq<Tree>, k: nat)
    requires k < |cells| && k < |target|
  {
    && target[k].Node?
    && LinkOk(target, cells[k].left, target[k].left)
    && LinkOk(target, cells[k].right, target[k].right)
  }

  lemma {:induction false} KidsAppend(a: seq<Tree>, b: seq<Tree>)
    ensures Kids(a + b) == Kids(a) + Kids(b)
  {
    if a == [] {
      assert a + b == b;
    } else {
      assert (a + b)[1..] == a[1..] + b;
      assert (a + b)[0] == a[0];
      KidsAppend(a[1..], b);
    }
  }

  /** Every cell stands for its subtree of the source tree, so the arena rebuilds it. */
  lemma {:induction false} ArenaShape(cells: seq<Cell>, target: seq<Tree>, k: nat)
    requires ArenaOk(cells) && |target| == |cells| && k < |cells|
    requires forall i :: 0 <= i < |cells| ==> Linked(cells, target, i) && cells[i].val == target[i].val
    ensures SameShape(ToTree(cells, k), target[k])
    decreases |cells| - k
  {
    assert Linked(cells, target, k);
    var c := cells[k];
    if c.left.Some? {
      ArenaShape(cells, target, c.left.value);
    }
    if c.right.Some? {
      ArenaShape(cells, target, c.right.value);
    }
  }

  /**
   * Fill child slot `side` (0 for `left`, 1 for `right`) of cell `k`: a
   * value creates the next cell and links it there, `null` leaves the
   * slot empty.
   */
  function Attach(cells: seq<Cell>, k: nat, side: nat, tok: Token): (r: seq<Cell>)
    requires k < |cells| && side <= 1
    ensures |r| == |cells| + (if tok.Some? then 1 else 0)
  {
    if tok.None? then cells
    else
      var c := cells + [Cell(tok.value, None, None)];
      if side == 0 then c[k := c[k].(left := Some(|cells|))]
      else c[k := c[k].(right := Some(|cells|))]
  }

  /**
   * The cells after the first `m` tokens are read. The first token creates
   * the root; token `2k + 1 + side` fills slot `side` of node `k` while that
   * node exists; once the queue runs dry the rest is ignored.
   */
  function Build(tokens: seq<Token>, m: nat): (cells: seq<Cell>)
    requires 1 <= m <= |tokens| && tokens[0].Some?
    ensures |cells| >= 1
  {
    if m == 1 then [Cell(tokens[0].value, None, None)]
    else
      var c, k, side := Build(tokens, m - 1), (m - 2) / 2, (m - 2) % 2;
      if k < |c| then Attach(c, k, side, tokens[m - 1]) else c
  }

  lemma AttachShape(cells: seq<Cell>, k: nat, side: nat, tok: Token)
    requires k < |cells| && side <= 1
    ensures var r := Attach(cells, k, side, tok);
      && (tok.None? ==> r == cells)
      && (tok.Some? ==>
        && |r| == |cells| + 1 && r[|cells|] == Cell(tok.value, None, None)
        && (forall j :: 0 <= j < |cells| && j != k ==> r[j] == cells[j])
        && r[k].val == cells[k].val
        && (side == 0 ==> r[k].left == Some(|cells|) && r[k].right == cells[k].right)
        && (side == 1 ==> r[k].right == Some(|cells|) && r[k].left == cells[k].left))
  {
  }

  /** A new cell is linked from an older one, so the arena stays well formed. */
  lemma AttachOk(cells: seq<Cell>, k: nat, side: nat, tok: Token)
    requires k < |cells| && side <= 1 && ArenaOk(cells)
    ensures ArenaOk(Attach(cells, k, side, tok))
  {
    AttachShape(cells, k, side, tok);
  }

  /** Every child pointer built leads forward, and the root keeps the first value. */
  lemma {:induction false} BuildOk(tokens: seq<Token>, m: nat)
    requires 1 <= m <= |tokens| && tokens[0].Some?
    ensures ArenaOk(Build(tokens, m)) && Build(tokens, m)[0].val == tokens[0].value
  {
    if m > 1 {
      BuildOk(tokens, m - 1);
      var c, k, side := Build(tokens, m - 1), (m - 2) / 2, (m - 2) % 2;
      if k < |c| {
        AttachOk(c, k, side, tokens[m - 1]);
        AttachShape(c, k, side, tokens[m - 1]);
      }
    }
  }

  lemma BuildNext(tokens: seq<Token>, m: nat, k: nat, side: nat, m': nat)
    requires side <= 1 && m == 2 * k + side + 1 && m < |tokens| && tokens[0].Some? && m' == m + 1
    requires k < |Build(tokens, m)|
    ensures Build(tokens, m') == Attach(Build(tokens, m), k, side, tokens[m])
  {
    assert (m - 1) / 2 == k && (m - 1) % 2 == side;
  }

  /** Once the queue is empty no later token changes anything. */
  lemma {:induction false} BuildStops(tokens: seq<Token>, m: nat, n: nat, k: nat)
    requires 1 <= m <= n <= |tokens| && tokens[0].Some?
    requires 2 * k + 1 <= m && |Build(tokens, m)| <= k
    ensures Build(tokens, n) == Build(tokens, m)
    decreases n - m
  {
    if m < n {
      assert (m + 1 - 2) / 2 >= k;
      BuildStops(tokens, m + 1, n, k);
    }
  }

  /** What a decoded token list is as a tree. */
  function Decoded(tokens: seq<Token>): (t: Tree)
    requires tokens != [] ==> tokens[0].Some?
    ensures t.Nil? <==> tokens == []
    ensures t.Node? ==> t.val == tokens[0].value
    ensures UniqueIds(t)
  {
    if tokens == [] then Nil
    else
      BuildOk(tokens, |tokens|);
      BuildSingle(tokens, |tokens|);
      ToTreeUnique(Build(tokens, |tokens|), 0);
      ToTree(Build(tokens, |tokens|), 0)
  }

  /** The queue of cells whose children are still to be read: `lo` up to `hi`. */
  function Span(lo: nat, hi: nat): seq<nat>
    requires lo <= hi
    decreases hi - lo
  {
    if lo == hi then [] else [lo] + Span(lo + 1, hi)
  }

  lemma {:induction false} SpanPush(lo: nat, hi: nat)
    requires lo <= hi
    ensures |Span(lo, hi)| == hi - lo
    ensures Span(lo, hi) + [hi] == Span(lo, hi + 1)
    decreases hi - lo
  {
    if lo < hi {
      SpanPush(lo + 1, hi);
    }
  }

  /**
   * One `if (index < values.length)` block of the deserializing loop: read
   * the next token, if any, and when it is a value create its node, hang it
   * on slot `side` of `node` and queue it.
   */
  method ReadChild(tokens: seq<Token>, index: nat, cells: seq<Cell>, queue: seq<nat>, node: nat, side: nat)
    returns (index': nat, cells': seq<Cell>, queue': seq<nat>)
    requires 1 <= index <= |tokens| && tokens[0].Some? && side <= 1
    requires cells == Build(tokens, index)
    requires index < |tokens| ==> index == 2 * node + side + 1 && node < |cells|
    requires |queue| <= |cells| && queue == Span(|cells| - |queue|, |cells|)
    ensures index' == if index < |tokens| then index + 1 else index
    ensures cells' == Build(tokens, index')
    ensures index < |tokens| && tokens[index].Some? ==> |cells'| == |cells| + 1 && |queue'| == |queue| + 1
    ensures !(index < |tokens| && tokens[index].Some?) ==> cells' == cells && queue' == queue
    ensures |queue'| <= |cells'| && queue' == Span(|cells'| - |queue'|, |cells'|)
  {
    index', cells', queue' := index, cells, queue;
    if index' < |tokens| {
      BuildNext(tokens, index, node, side, index + 1);
      var childVal := tokens[index'];
      index' := index' + 1;
      if childVal.Some? {
        var j := |cells'|;
        cells' := cells' + [Cell(childVal.value, None, None)];
        if side == 0 {
          cells' := cells'[node := cells'[node].(left := Some(j))];
        } else {
          cells' := cells'[node := cells'[node].(right := Some(j))];
        }
        SpanPush(|cells| - |queue|, |cells|);
        queue' := queue' + [j];
      }
    }
  }

  /**
   * `deserialize(stringTree)`: the breadth-first loop that creates a node
   * for every value token and hangs it on the next free child slot of the
   * node at the head of the queue. The first token must be a value.
   */
  method Deserialize(tokens: seq<Token>) returns (tree: Tree)
    requires tokens != [] ==> tokens[0].Some?
    ensures tree == Decoded(tokens)
  {
    if tokens == [] {
      return Nil;
    }
    var index := 0;
    var cells := [Cell(tokens[index].value, None, None)];
    index := index + 1;
    var queue: seq<nat> := [0];
    while |queue| > 0
      invariant 1 <= index <= |tokens|
      invariant |queue| <= |cells| && queue == Span(|cells| - |queue|, |cells|)
      invariant index == Min(2 * (|cells| - |queue|) + 1, |tokens|)
      invariant cells == Build(tokens, index)
      decreases |tokens| - index + |queue|
    {
      var node := queue[0];
      queue := queue[1..];
      index, cells, queue := ReadChild(tokens, index, cells, queue, node, 0);
      index, cells, queue := ReadChild(tokens, index, cells, queue, node, 1);
    }
    if index < |tokens| {
      BuildStops(tokens, index, |tokens|, |cells|);
    }
    BuildOk(tokens, |tokens|);
    tree := ToTree(cells, 0);
  }

  // ---- Round trip ----

  predicate AllNodes(ts: seq<Tree>) {
    forall j :: 0 <= j < |ts| ==> ts[j].Node?
  }

  /**
   * The slots whose tokens are still to come once `side` slots of node `k`
   * are read: the rest of node `k`'s, then both of every later node's.
   */
  function Pending(target: seq<Tree>, k: nat, side: nat): seq<Tree>
    requires k <= |target| && side <= 1 && AllNodes(target)
  {
    if k == |target| then [] else SlotsOf(target[k])[side..] + Kids(target[k + 1..])
  }

  /** Cell `j` holds the value of `target[j]`, the node of the source tree read `j`-th. */
  ghost predicate Mirrors(t: Tree, cells: seq<Cell>, target: seq<Tree>) {
    && |target| == |cells| >= 1 && target[0] == t
    && AllNodes(target)
    && (forall j :: 0 <= j < |cells| ==> cells[j].val == target[j].val)
  }

  /**
   * The nodes before `k` are fully linked, node `k` has its first `side`
   * slots linked, and the later nodes have no children yet.
   */
  ghost predicate LinkedUpTo(cells: seq<Cell>, target: seq<Tree>, k: nat, side: nat)
    requires |target| == |cells| && AllNodes(target)
  {
    && k <= |cells|
    && (forall j :: 0 <= j < k ==> Linked(cells, target, j))
    && (k < |cells| ==> cells[k].right.None? && if side == 0 then cells[k].left.None? else LinkOk(target, cells[k].left, target[k].left))
    && (forall j :: k < j < |cells| ==> cells[j].left.None? && cells[j].right.None?)
  }

  /** After the tokens before slot `side` of node `k` are read, the cells are linked up to that slot. */
  ghost predicate CellsTrack(t: Tree, cells: seq<Cell>, target: seq<Tree>, k: nat, side: nat) {
    Mirrors(t, cells, target) && LinkedUpTo(cells, target, k, side)
  }

  /**
   * After the tokens before slot `side` of node `k` are read, the
   * remaining tokens are what the serializer emits for the pending slots.
   */
  ghost predicate TokensTrack(tokens: seq<Token>, target: seq<Tree>, k: nat, side: nat) {
    && side <= 1 && 2 * k + side + 1 <= |tokens|
    && AllNodes(target) && k <= |target|
    && tokens[2 * k + side + 1..] == Emit(Pending(target, k, side))
  }

  lemma MirrorsStep(t: Tree, cells: seq<Cell>, target: seq<Tree>, k: nat, side: nat, s: Tree)
    requires k < |cells| && side <= 1
    requires Mirrors(t, cells, target) && AllNodes(target + NodesOf(s))
    ensures Mirrors(t, Attach(cells, k, side, TokenOf(s)), target + NodesOf(s))
  {
    AttachShape(cells, k, side, TokenOf(s));
  }

  lemma LinksStep(cells: seq<Cell>, target: seq<Tree>, k: nat, side: nat, s: Tree)
    requires k < |cells| && side <= 1
    requires |target| == |cells| && AllNodes(target) && AllNodes(target + NodesOf(s))
    requires s == SlotsOf(target[k])[side]
    requires LinkedUpTo(cells, target, k, side)
    ensures |Attach(cells, k, side, TokenOf(s))| == |target + NodesOf(s)|
    ensures LinkedUpTo(Attach(cells, k, side, TokenOf(s)), target + NodesOf(s), k + side, 1 - side)
  {
    var cells', target' := Attach(cells, k, side, TokenOf(s)), target + NodesOf(s);
    AttachShape(cells, k, side, TokenOf(s));
    if side == 1 {
      assert Linked(cells', target', k) by {
        assert target[k].right == s;
      }
    }
    forall j | 0 <= j < k ensures Linked(cells', target', j) {
      LinkedKept(cells, target, cells', NodesOf(s), j);
    }
  }

  /** Appending cells and targets leaves an old link as it was. */
  lemma LinkedKept(cells: seq<Cell>, target: seq<Tree>, cells': seq<Cell>, extra: seq<Tree>, j: nat)
    requires j < |cells| <= |cells'| && |cells| == |target|
    requires cells'[j] == cells[j] && Linked(cells, target, j)
    ensures Linked(cells', target + extra, j)
  {
  }

  lemma PendingEmpty(target: seq<Tree>, k: nat, side: nat)
    requires k <= |target| && side <= 1 && AllNodes(target)
    ensures Pending(target, k, side) == [] <==> k == |target|
  {
  }

  lemma EmitEmpty(q: seq<Tree>)
    ensures Emit(q) == [] <==> q == []
  {
    if q != [] {
      EmitUnfold(q);
    }
  }

  lemma PendingZero(target: seq<Tree>, k: nat)
    requires k <= |target| && AllNodes(target)
    ensures Pending(target, k, 0) == Kids(target[k..])
  {
    if k < |target| {
      assert target[k..][0] == target[k] && target[k..][1..] == target[k + 1..];
      HeadsKidsUnfold(target[k..]);
    }
  }

  lemma PendingStep(target: seq<Tree>, k: nat, side: nat, s: Tree, k': nat, side': nat)
    requires AllNodes(target) && k < |target| && side <= 1 && k' == k + side && side' == 1 - side
    requires s == SlotsOf(target[k])[side]
    ensures AllNodes(target + NodesOf(s)) && k' <= |target + NodesOf(s)|
    ensures Pending(target, k, side) != [] && Pending(target, k, side)[0] == s
    ensures Pending(target + NodesOf(s), k', side') == Pending(target, k, side)[1..] + SlotsOf(s)
  {
    KidsExtend(target, k, s);
    if side == 0 {
      PendingLeft(target, k, s);
    } else {
      PendingRight(target, k, s);
    }
  }

  /** A node read adds its two slots to the later nodes' slots. */
  lemma KidsExtend(target: seq<Tree>, k: nat, s: Tree)
    requires AllNodes(target) && k < |target|
    ensures AllNodes(target + NodesOf(s))
    ensures Kids((target + NodesOf(s))[k + 1..]) == Kids(target[k + 1..]) + SlotsOf(s)
  {
    assert (target + NodesOf(s))[k + 1..] == target[k + 1..] + NodesOf(s);
    KidsAppend(target[k + 1..], NodesOf(s));
    if s.Node? {
      assert Kids([s]) == SlotsOf(s) + Kids([]);
    }
  }

  lemma PendingLeft(target: seq<Tree>, k: nat, s: Tree)
    requires AllNodes(target) && k < |target| && s == target[k].left
    requires AllNodes(target + NodesOf(s))
    requires Kids((target + NodesOf(s))[k + 1..]) == Kids(target[k + 1..]) + SlotsOf(s)
    ensures Pending(target, k, 0) != [] && Pending(target, k, 0)[0] == s
    ensures Pending(target + NodesOf(s), k, 1) == Pending(target, k, 0)[1..] + SlotsOf(s)
  {
    var t' := target + NodesOf(s);
    assert t'[k] == target[k];
    assert Pending(target, k, 0) == [s, target[k].right] + Kids(target[k + 1..]);
  }

  lemma PendingRight(target: seq<Tree>, k: nat, s: Tree)
    requires AllNodes(target) && k < |target| && s == target[k].right
    requires AllNodes(target + NodesOf(s))
    requires Kids((target + NodesOf(s))[k + 1..]) == Kids(target[k + 1..]) + SlotsOf(s)
    ensures Pending(target, k, 1) != [] && Pending(target, k, 1)[0] == s
    ensures Pending(target + NodesOf(s), k + 1, 0) == Pending(target, k, 1)[1..] + SlotsOf(s)
  {
    PendingZero(target + NodesOf(s), k + 1);
    assert Pending(target, k, 1) == [s] + Kids(target[k + 1..]);
  }

  /**
   * The nodes of the source tree read before slot `side` of node `k`, in
   * reading order: the root, then the root of every non-empty slot read so far.
   */
  ghost function Target(t: Tree, k: nat, side: nat): seq<Tree>
    requires side <= 1
    decreases 2 * k + side
  {
    if k == 0 && side == 0 then [t]
    else
      var k0, side0 := if side == 1 then k else k - 1, 1 - side;
      var p := Target(t, k0, side0);
      if k0 < |p| && p[k0].Node? then p + NodesOf(SlotsOf(p[k0])[side0]) else p
  }

  /**
   * The cells `deserialize` holds before slot `side` of node `k`, told from
   * the source tree: each slot read so far attaches its subtree's root.
   */
  ghost function Arena(t: Tree, k: nat, side: nat): seq<Cell>
    requires t.Node? && side <= 1
    decreases 2 * k + side
  {
    if k == 0 && side == 0 then [Cell(t.val, None, None)]
    else
      var k0, side0 := if side == 1 then k else k - 1, 1 - side;
      var c, p := Arena(t, k0, side0), Target(t, k0, side0);
      if k0 < |p| && k0 < |c| && p[k0].Node? then Attach(c, k0, side0, TokenOf(SlotsOf(p[k0])[side0])) else c
  }

  /** Reading a slot that holds a subtree adds that subtree's root to the nodes read. */
  lemma TargetStep(t: Tree, k0: nat, side0: nat, k: nat, side: nat)
    requires side0 <= 1 && k == k0 + side0 && side == 1 - side0
    requires k0 < |Target(t, k0, side0)| && Target(t, k0, side0)[k0].Node?
    ensures var p := Target(t, k0, side0); Target(t, k, side) == p + NodesOf(SlotsOf(p[k0])[side0])
  {
    assert (if side == 1 then k else k - 1) == k0 && 1 - side == side0;
  }

  /** Reading a slot that holds a subtree attaches that subtree's root. */
  lemma ArenaStep(t: Tree, k0: nat, side0: nat, k: nat, side: nat)
    requires t.Node? && side0 <= 1 && k == k0 + side0 && side == 1 - side0
    requires var p := Target(t, k0, side0); k0 < |p| && k0 < |Arena(t, k0, side0)| && p[k0].Node?
    ensures var p := Target(t, k0, side0);
      Arena(t, k, side) == Attach(Arena(t, k0, side0), k0, side0, TokenOf(SlotsOf(p[k0])[side0]))
  {
    assert (if side == 1 then k else k - 1) == k0 && 1 - side == side0;
  }

  /** The tokens of a serialization follow its nodes slot by slot. */
  lemma {:induction false} TokensAt(t: Tree, k: nat, side: nat)
    requires t.Node? && side <= 1 && 2 * k + side + 1 <= |Serialization(t)|
    ensures TokensTrack(Serialization(t), Target(t, k, side), k, side)
    decreases 2 * k + side
  {
    if k == 0 && side == 0 {
      SerializationCounts(t);
      assert [t][1..] == [];
      assert [t][1..] + SlotsOf(t) == Pending([t], 0, 0);
      EmitUnfold([t]);
    } else {
      var k0, side0 := if side == 1 then k else k - 1, 1 - side;
      TokensAt(t, k0, side0);
      var s := TokensStep(Serialization(t), Target(t, k0, side0), k0, side0, k, side);
      TargetStep(t, k0, side0, k, side);
    }
  }

  /** What the slot after slot `side0` of node `k0` holds, and how it extends the nodes read. */
  lemma SlotAt(t: Tree, k0: nat, side0: nat, k: nat, side: nat) returns (s: Tree)
    requires t.Node? && side0 <= 1 && 2 * k0 + side0 + 1 < |Serialization(t)|
    requires k == k0 + side0 && side == 1 - side0
    ensures var p := Target(t, k0, side0);
      && k0 < |p| && AllNodes(p) && s == SlotsOf(p[k0])[side0]
      && AllNodes(p + NodesOf(s)) && Target(t, k, side) == p + NodesOf(s)
    ensures Serialization(t)[2 * k0 + side0 + 1] == TokenOf(s)
  {
    TokensAt(t, k0, side0);
    s := TokensStep(Serialization(t), Target(t, k0, side0), k0, side0, k, side);
    TargetStep(t, k0, side0, k, side);
  }

  /** Every node is read once the whole serialization is. */
  lemma TargetComplete(t: Tree)
    requires t.Node?
    ensures |Serialization(t)| == 2 * Size(t) + 1
    ensures |Target(t, Size(t), 0)| == Size(t)
  {
    SerializationCounts(t);
    var tokens, n := Serialization(t), Size(t);
    TokensAt(t, n, 0);
    assert tokens[2 * n + 1..] == [];
    EmitEmpty(Pending(Target(t, n, 0), n, 0));
    PendingEmpty(Target(t, n, 0), n, 0);
  }

  lemma CellsInit(t: Tree)
    requires t.Node?
    ensures |Serialization(t)| == 2 * Size(t) + 1 && Serialization(t)[0].Some?
    ensures Arena(t, 0, 0) == Build(Serialization(t), 1)
    ensures CellsTrack(t, Arena(t, 0, 0), Target(t, 0, 0), 0, 0)
  {
    SerializationCounts(t);
  }

  /**
   * The token read for slot `side` of node `k` is that slot's subtree
   * root, and the tokens after it are what is emitted for the slots then
   * pending before slot `side'` of node `k'`, the next one.
   */
  lemma TokensStep(tokens: seq<Token>, target: seq<Tree>, k: nat, side: nat, k': nat, side': nat) returns (s: Tree)
    requires TokensTrack(tokens, target, k, side) && 2 * k + side + 1 < |tokens|
    requires k' == k + side && side' == 1 - side
    ensures k < |target| && s == SlotsOf(target[k])[side] && AllNodes(target + NodesOf(s))
    ensures tokens[2 * k + side + 1] == TokenOf(s)
    ensures TokensTrack(tokens, target + NodesOf(s), k', side')
  {
    var p := Pending(target, k, side);
    PendingEmpty(target, k, side);
    EmitEmpty(p);
    s := SlotsOf(target[k])[side];
    PendingStep(target, k, side, s, k', side');
    EmitSlice(tokens, 2 * k + side + 1, p, 2 * k' + side' + 1);
  }

  /** Reading one token off what a queue emits leaves what the next queue emits. */
  lemma EmitSlice(tokens: seq<Token>, m: nat, q: seq<Tree>, m': nat)
    requires m < |tokens| && q != [] && tokens[m..] == Emit(q) && m' == m + 1
    ensures tokens[m] == TokenOf(q[0]) && tokens[m'..] == Emit(q[1..] + SlotsOf(q[0]))
  {
    EmitUnfold(q);
    assert tokens[m..][0] == tokens[m] && tokens[m..][1..] == tokens[m + 1..];
  }

  /** Linking the cell for slot `side` of node `k` keeps the cells in step with the tree. */
  lemma CellsStep(t: Tree, cells: seq<Cell>, target: seq<Tree>, k: nat, side: nat, s: Tree, k': nat, side': nat)
    requires CellsTrack(t, cells, target, k, side)
    requires k < |target| && side <= 1 && s == SlotsOf(target[k])[side] && AllNodes(target + NodesOf(s))
    requires k' == k + side && side' == 1 - side
    ensures CellsTrack(t, Attach(cells, k, side, TokenOf(s)), target + NodesOf(s), k', side')
  {
    MirrorsStep(t, cells, target, k, side, s);
    LinksStep(cells, target, k, side, s);
  }

  /** There is one cell per node read. */
  lemma {:induction false} ArenaSize(t: Tree, k: nat, side: nat)
    requires t.Node? && side <= 1
    ensures |Arena(t, k, side)| == |Target(t, k, side)|
    decreases 2 * k + side
  {
    if !(k == 0 && side == 0) {
      var k0, side0 := if side == 1 then k else k - 1, 1 - side;
      ArenaSize(t, k0, side0);
    }
  }

  /** The arena keeps the cells in step with the nodes read. */
  lemma {:induction false} ArenaTracks(t: Tree, k: nat, side: nat)
    requires t.Node? && side <= 1 && 2 * k + side + 1 <= |Serialization(t)|
    ensures CellsTrack(t, Arena(t, k, side), Target(t, k, side), k, side)
    decreases 2 * k + side
  {
    if k == 0 && side == 0 {
      CellsInit(t);
    } else {
      var k0, side0 := if side == 1 then k else k - 1, 1 - side;
      ArenaTracks(t, k0, side0);
      var s := SlotAt(t, k0, side0, k, side);
      CellsStep(t, Arena(t, k0, side0), Target(t, k0, side0), k0, side0, s, k, side);
      ArenaStep(t, k0, side0, k, side);
    }
  }

  /** The arena is what the tokens of the serialization build. */
  lemma {:induction false} ArenaIsBuild(t: Tree, k: nat, side: nat)
    requires t.Node? && side <= 1 && 2 * k + side + 1 <= |Serialization(t)|
    ensures Serialization(t)[0].Some?
    ensures Arena(t, k, side) == Build(Serialization(t), 2 * k + side + 1)
    decreases 2 * k + side
  {
    CellsInit(t);
    if !(k == 0 && side == 0) {
      var k0, side0 := if side == 1 then k else k - 1, 1 - side;
      ArenaIsBuild(t, k0, side0);
      ArenaSize(t, k0, side0);
      var s := SlotAt(t, k0, side0, k, side);
      BuildStep(t, Serialization(t), k0, side0, k, side, s);
    }
  }

  /** One token more keeps the arena what the tokens build. */
  lemma BuildStep(t: Tree, tokens: seq<Token>, k0: nat, side0: nat, k: nat, side: nat, s: Tree)
    requires t.Node? && side0 <= 1 && k == k0 + side0 && side == 1 - side0
    requires 2 * k0 + side0 + 1 < |tokens| && tokens[0].Some?
    requires Arena(t, k0, side0) == Build(tokens, 2 * k0 + side0 + 1)
    requires |Arena(t, k0, side0)| == |Target(t, k0, side0)|
    requires var p := Target(t, k0, side0); k0 < |p| && AllNodes(p) && s == SlotsOf(p[k0])[side0]
    requires tokens[2 * k0 + side0 + 1] == TokenOf(s)
    ensures Arena(t, k, side) == Build(tokens, 2 * k + side + 1)
  {
    ArenaAttach(t, tokens, k0, side0, k, side, s);
    BuildAttach(tokens, k0, side0, k, side);
  }

  /** The arena after the slot is the built cells with that slot's token attached. */
  lemma ArenaAttach(t: Tree, tokens: seq<Token>, k0: nat, side0: nat, k: nat, side: nat, s: Tree)
    requires t.Node? && side0 <= 1 && k == k0 + side0 && side == 1 - side0
    requires 2 * k0 + side0 + 1 < |tokens| && tokens[0].Some?
    requires Arena(t, k0, side0) == Build(tokens, 2 * k0 + side0 + 1)
    requires |Arena(t, k0, side0)| == |Target(t, k0, side0)|
    requires var p := Target(t, k0, side0); k0 < |p| && AllNodes(p) && s == SlotsOf(p[k0])[side0]
    requires tokens[2 * k0 + side0 + 1] == TokenOf(s)
    ensures Arena(t, k, side) == Attach(Build(tokens, 2 * k0 + side0 + 1), k0, side0, tokens[2 * k0 + side0 + 1])
  {
    ArenaStep(t, k0, side0, k, side);
  }

  /** Building one token further attaches that token to the cells built so far. */
  lemma BuildAttach(tokens: seq<Token>, k0: nat, side0: nat, k: nat, side: nat)
    requires side0 <= 1 && k == k0 + side0 && side == 1 - side0
    requires 2 * k0 + side0 + 1 < |tokens| && tokens[0].Some?
    requires k0 < |Build(tokens, 2 * k0 + side0 + 1)|
    ensures Build(tokens, 2 * k + side + 1) == Attach(Build(tokens, 2 * k0 + side0 + 1), k0, side0, tokens[2 * k0 + side0 + 1])
  {
    BuildNext(tokens, 2 * k0 + side0 + 1, k0, side0, 2 * k + side + 1);
  }

  /**
   * Deserializing what `serialize` produced rebuilds a tree of the same
   * shape and values, which serializes to the same tokens again.
   */
  lemma DecodedSerialization(t: Tree)
    ensures Serialization(t) != [] ==> Serialization(t)[0].Some?
    ensures SameShape(Decoded(Serialization(t)), t) && SameShape(t, Decoded(Serialization(t)))
    ensures Serialization(Decoded(Serialization(t))) == Serialization(t)
  {
    var tokens := Serialization(t);
    SerializationCounts(t);
    if t.Node? {
      var n := Size(t);
      TargetComplete(t);
      ArenaTracks(t, n, 0);
      ArenaIsBuild(t, n, 0);
      BuildOk(tokens, |tokens|);
      ArenaShape(Arena(t, n, 0), Target(t, n, 0), 0);
    }
    SerializationSameShape(Decoded(tokens), t);
    SameShapeSymmetric(Decoded(tokens), t);
  }

  /**
   * Truncation: whatever the tokens, after `m` of them the slots not yet
   * read are still empty, from the unread slots of node `(m - 1) / 2` on.
   */
  lemma {:induction false} BuildFreeSlots(tokens: seq<Token>, m: nat)
    requires 1 <= m <= |tokens| && tokens[0].Some?
    ensures var cells, k := Build(tokens, m), (m - 1) / 2;
      && (forall j :: k < j < |cells| ==> cells[j].left.None? && cells[j].right.None?)
      && (k < |cells| ==> cells[k].right.None? && ((m - 1) % 2 == 0 ==> cells[k].left.None?))
  {
    if m > 1 {
      BuildFreeSlots(tokens, m - 1);
      var c, k, side := Build(tokens, m - 1), (m - 2) / 2, (m - 2) % 2;
      if k < |c| {
        AttachShape(c, k, side, tokens[m - 1]);
      }
    }
  }

  // ---- Every decoded node is a fresh object ----

  /** Cell `c` points to cell `x` from one of its two slots. */
  predicate LinksTo(c: Cell, x: nat) {
    c.left == Some(x) || c.right == Some(x)
  }

  /** No cell is pointed to from two slots: every node object has one parent at most. */
  ghost predicate SingleParents(cells: seq<Cell>) {
    && (forall p, q, x :: 0 <= p < |cells| && 0 <= q < |cells| && LinksTo(cells[p], x) && LinksTo(cells[q], x) ==> p == q)
    && (forall p :: 0 <= p < |cells| && cells[p].left.Some? ==> cells[p].left != cells[p].right)
  }

  /** After filling an empty slot, a cell points where it pointed before, and the filled slot to the new cell. */
  lemma AttachLinks(cells: seq<Cell>, k: nat, side: nat, tok: Token, p: nat, x: nat)
    requires k < |cells| && side <= 1 && tok.Some? && ArenaOk(cells)
    requires cells[k].right.None? && (side == 0 ==> cells[k].left.None?)
    requires p < |Attach(cells, k, side, tok)|
    ensures LinksTo(Attach(cells, k, side, tok)[p], x) <==> (p < |cells| && LinksTo(cells[p], x)) || (p == k && x == |cells|)
  {
    AttachShape(cells, k, side, tok);
  }

  lemma AttachSingle(cells: seq<Cell>, k: nat, side: nat, tok: Token)
    requires k < |cells| && side <= 1 && ArenaOk(cells) && SingleParents(cells)
    requires cells[k].right.None? && (side == 0 ==> cells[k].left.None?)
    ensures SingleParents(Attach(cells, k, side, tok))
  {
    if tok.Some? {
      var r := Attach(cells, k, side, tok);
      AttachShape(cells, k, side, tok);
      forall p, q, x | 0 <= p < |r| && 0 <= q < |r| && LinksTo(r[p], x) && LinksTo(r[q], x)
        ensures p == q
      {
        AttachLinks(cells, k, side, tok, p, x);
        AttachLinks(cells, k, side, tok, q, x);
      }
    }
  }

  /** `deserialize` only ever hangs a new node on an empty slot, so each node has one parent. */
  lemma {:induction false} BuildSingle(tokens: seq<Token>, m: nat)
    requires 1 <= m <= |tokens| && tokens[0].Some?
    ensures SingleParents(Build(tokens, m))
  {
    if m > 1 {
      BuildSingle(tokens, m - 1);
      BuildOk(tokens, m - 1);
      BuildFreeSlots(tokens, m - 1);
      var c, k, side := Build(tokens, m - 1), (m - 2) / 2, (m - 2) % 2;
      if k < |c| {
        AttachSingle(c, k, side, tokens[m - 1]);
      }
    }
  }

  /** The nodes below cell `k` are cells from `k` on. */
  lemma {:induction false} IdsFrom(cells: seq<Cell>, k: nat)
    requires ArenaOk(cells) && k < |cells|
    ensures forall x :: x in Ids(ToTree(cells, k)) ==> k <= x < |cells|
    decreases |cells| - k
  {
    var c := cells[k];
    if c.left.Some? {
      IdsFrom(cells, c.left.value);
    }
    if c.right.Some? {
      IdsFrom(cells, c.right.value);
    }
  }

  /** A node below cell `a`, other than `a` itself, has its parent below `a` too. */
  lemma {:induction false} ParentWithin(cells: seq<Cell>, a: nat, x: nat) returns (p: nat)
    requires ArenaOk(cells) && a < |cells| && x in Ids(ToTree(cells, a)) && x != a
    ensures p < |cells| && p in Ids(ToTree(cells, a)) && LinksTo(cells[p], x)
    decreases |cells| - a
  {
    var c := cells[a];
    if c.left.Some? && x in Ids(ToTree(cells, c.left.value)) {
      if x == c.left.value {
        p := a;
      } else {
        p := ParentWithin(cells, c.left.value, x);
      }
    } else {
      assert c.right.Some? && x in Ids(ToTree(cells, c.right.value));
      if x == c.right.value {
        p := a;
      } else {
        p := ParentWithin(cells, c.right.value, x);
      }
    }
  }

  /** The subtrees below two different children of one cell share no node. */
  lemma {:induction false} SiblingsDisjoint(cells: seq<Cell>, k: nat, a: nat, b: nat, x: nat)
    requires ArenaOk(cells) && SingleParents(cells) && k < |cells| && a < |cells| && b < |cells|
    requires LinksTo(cells[k], a) && LinksTo(cells[k], b) && a != b
    ensures !(x in Ids(ToTree(cells, a)) && x in Ids(ToTree(cells, b)))
    decreases x
  {
    if x in Ids(ToTree(cells, a)) && x in Ids(ToTree(cells, b)) {
      IdsFrom(cells, a);
      IdsFrom(cells, b);
      if x == a {
        var p := ParentWithin(cells, b, a);
        assert false;
      } else if x == b {
        var p := ParentWithin(cells, a, b);
        assert false;
      } else {
        var p := ParentWithin(cells, a, x);
        var p' := ParentWithin(cells, b, x);
        SiblingsDisjoint(cells, k, a, b, p);
        assert false;
      }
    }
  }

  /** The tree read off an arena of single parents uses every node object once. */
  lemma {:induction false} ToTreeUnique(cells: seq<Cell>, k: nat)
    requires ArenaOk(cells) && SingleParents(cells) && k < |cells|
    ensures UniqueIds(ToTree(cells, k))
    decreases |cells| - k
  {
    var c := cells[k];
    if c.left.Some? {
      ToTreeUnique(cells, c.left.value);
      IdsFrom(cells, c.left.value);
    }
    if c.right.Some? {
      ToTreeUnique(cells, c.right.value);
      IdsFrom(cells, c.right.value);
    }
    if c.left.Some? && c.right.Some? {
      forall x | x in Ids(ToTree(cells, c.left.value))
        ensures x !in Ids(ToTree(cells, c.right.value))
      {
        SiblingsDisjoint(cells, k, c.left.value, c.right.value, x);
      }
    }
  }

  // ---- The static `serialize` as written ----

  /**
   * `serialize` as written is `static`, so `this` is the class itself,
   * which has no `root`: the guard `!this.root` always holds and the
   * result is the empty string, whatever tree is at hand.
   */
  function StaticSerialize(): (tokens: seq<Token>)
    ensures tokens == Serialization(Nil)
    ensures Decoded(tokens).Nil?
  {
    []
  }

  /** As written, no non-empty tree survives a round trip through `serialize`. */
  lemma StaticSerializeLosesTrees(t: Tree)
    requires t.Node?
    ensures StaticSerialize() != Serialization(t)
    ensures Decoded(StaticSerialize()).Nil?
  {
    SerializationCounts(t);
  }
}
