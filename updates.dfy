/**
 * The operations that restructure an AVL tree list (AVLTreeList.py:225-431,
 * 569-646), on tree values: `insert`, `delete`, `delete_root`, `concat` and
 * the two bottom-up repair walks `fix_tree_insert` and `fix_tree_delete`.
 *
 * A list is its two fields, the root (none when the list is empty) and the
 * item count. The node a walk is at is the subtree it heads together with
 * the frames above it, innermost first; going to `node.parent` is taking
 * one frame off. The walks recompute the cached size, height and balance
 * factor of each node they reach, which on values are the functions `Size`,
 * `Height` and `BF` of the subtree. A node the walk has not reached yet
 * still caches the height it had before the update; `fix_tree_insert`
 * reads it, so its walk carries that height along (`oldH`).
 */
module Updates {
  import opened Wrappers
  import opened Trees
  import opened Balance

  /** The fields of an `AVLTreeList`: its root, and `size`. */
  datatype TreeList<T> = TreeList(root: Option<Tree<T>>, size: int)

  /** The list a `TreeList` stands for. */
  ghost function Items<T>(l: TreeList<T>): seq<T>
  {
    if l.root.None? then [] else Elements(l.root.value)
  }

  /** The height of the tree, -1 for an empty list (as `concat` counts it). */
  function ListHeight<T>(l: TreeList<T>): int
  {
    if l.root.None? then -1 else Height(l.root.value)
  }

  ghost function ListNodes<T>(l: TreeList<T>): set<AVLNode<T>>
  {
    if l.root.None? then {} else Nodes(l.root.value)
  }

  /**
   * An empty list has no root and size 0; otherwise the root is a real node
   * of an AVL tree without shared nodes, and `size` counts its real nodes.
   */
  ghost predicate WellFormed<T>(l: TreeList<T>)
  {
    if l.root.None? then l.size == 0
    else l.root.value.Real? && Distinct(l.root.value) && Balanced(l.root.value) && l.size == Size(l.root.value)
  }

  lemma {:induction false} WellFormedSize<T>(l: TreeList<T>)
    requires WellFormed(l)
    ensures l.size == |Items(l)| && (l.size == 0 <==> l.root.None?)
  {
    if l.root.Some? {
      SizeCounts(l.root.value);
    }
  }

  /**
   * `create_virtual_children` (AVLTreeList.py:189-195) on a node that has
   * just been given the value `val`: the node becomes a leaf with two new
   * virtual children.
   */
  method CreateVirtualChildren<T>(node: AVLNode<T>, val: T) returns (leaf: Tree<T>)
    ensures leaf.Real? && leaf.node == node && leaf.value == val
    ensures leaf.left.Virtual? && leaf.right.Virtual? && leaf.left.node != leaf.right.node
    ensures fresh(leaf.left.node) && fresh(leaf.right.node)
  {
    var l := new AVLNode(None);
    var r := new AVLNode(None);
    leaf := Real(Virtual(l), node, val, Virtual(r));
  }

  // ---------------------------------------------------------------------
  // The repair walks

  /**
   * `fix_tree_insert` (AVLTreeList.py:254-272), started at a new leaf that
   * took the place of a virtual node of an AVL tree. While a rotation is
   * still possible it stops looking for one at the first node whose height
   * did not change, and rotates at the first node out of balance; after a
   * rotation it goes on at the new root of the rotated subtree. It leaves an
   * AVL tree holding the same values and nodes, at most one level higher.
   * It rotates at most once (`rotated` holds the subtree it rotated, if
   * any), and there `rotate` as written makes the same choice as
   * `Rebalance`; it returns the number of single rotations, at most two.
   */
  method FixTreeInsert<T>(leaf: Tree<T>, ctx: seq<Frame<T>>) returns (t: Tree<T>, count: int, ghost rotated: seq<Tree<T>>)
    requires leaf.Real? && leaf.left.Virtual? && leaf.right.Virtual?
    requires Balanced(Plug(Virtual(leaf.node), ctx))
    ensures Balanced(t) && Elements(t) == Elements(Plug(leaf, ctx)) && Nodes(t) == Nodes(Plug(leaf, ctx))
    ensures Distinct(t) <==> Distinct(Plug(leaf, ctx))
    ensures var h := Height(Plug(Virtual(leaf.node), ctx)); h <= Height(t) <= h + 1
    ensures 0 <= count <= 2 && |rotated| <= 1 && count == Rotations(rotated)
    ensures AsWritten(rotated) && Along(rotated, leaf, ctx, |ctx| + 1)
  {
    rotated := [];
    ghost var k := 0;  // the level of `t` above the leaf
    t := leaf;
    var c := ctx;
    var oldH := -1;  // the height cached at the node before the walk reaches it
    var cached := -1;
    var rotate := true;
    count := 0;
    InsertBegin(leaf, ctx);
    while true
      invariant InsertLoop(t, oldH, c, k, cached, rotate, count, rotated, leaf, ctx)
      decreases |c|, if rotate then 1 else 0
    {
      var prevHeight := cached;
      var height := Height(t);
      var bf := BF(t);
      ghost var rotating := rotate;
      if Abs(bf) < 2 && prevHeight == height && rotate {
        rotate := false;
      } else if Abs(bf) == 2 && rotate {
        InsertRotation(t, oldH, c, k, cached, count, rotated, leaf, ctx);
        rotated := [t];
        count := count + RotationCount(t);
        t := Rebalance(t);
        rotate := false;
        // The rotated node's parent is now the root of the subtree; the
        // rotation has just computed its height.
        cached := Height(t);
        continue;
      }
      if c == [] {
        InsertDone(t, oldH, k, cached, rotating, count, rotated, leaf, ctx);
        return;
      }
      assert rotate == (rotating && Height(t) != oldH);
      InsertClimb(t, oldH, c, k, cached, rotating, count, rotated, leaf, ctx);
      oldH := Max(oldH, Height(c[0].sibling)) + 1;
      cached := oldH;
      t := Fill(c[0], t);
      c := c[1..];
      k := k + 1;
    }
  }

  /**
   * The walk of `fix_tree_insert` is at level `k` above the new leaf, with
   * the frames `c` still above it; while it may rotate, `t` is the subtree
   * first reached there.
   */
  ghost predicate InsertLevel<T>(t: Tree<T>, c: seq<Frame<T>>, rotate: bool, leaf: Tree<T>, ctx: seq<Frame<T>>, k: int)
  {
    0 <= k <= |ctx| && c == ctx[k..] && (rotate ==> LevelOf(t, leaf, ctx, k))
  }

  /**
   * The invariant of `fix_tree_insert`, started at `leaf` below the frames
   * `ctx`: the walk is at the subtree `t` with the frames `c` above it, `k`
   * levels up; `oldH` is the height the node had before the insertion and,
   * while a rotation is possible, also the height `cached` there; it has
   * made `count` single rotations, at the subtrees `rs` (none while it may
   * still rotate); the whole tree has the items and nodes of the tree with
   * the leaf.
   */
  ghost predicate InsertLoop<T>(t: Tree<T>, oldH: int, c: seq<Frame<T>>, k: int, cached: int, rotate: bool,
                                count: int, rs: seq<Tree<T>>, leaf: Tree<T>, ctx: seq<Frame<T>>)
  {
    InsertShape(t, oldH, c, cached, rotate, leaf, ctx) &&
    InsertRecord(t, c, k, rotate, count, rs, leaf, ctx) &&
    SameWhole(t, c, leaf, ctx)
  }

  /** The heights and balance of the insert walk (see `InsertLoop`). */
  ghost predicate InsertShape<T>(t: Tree<T>, oldH: int, c: seq<Frame<T>>, cached: int, rotate: bool,
                                 leaf: Tree<T>, ctx: seq<Frame<T>>)
  {
    InsertWalk(t, oldH, c, rotate) && TopHeight(c, oldH) == Height(Plug(Virtual(leaf.node), ctx)) &&
    (rotate ==> cached == oldH && Leaning(t))
  }

  /** The level and rotations of the insert walk (see `InsertLoop`). */
  ghost predicate InsertRecord<T>(t: Tree<T>, c: seq<Frame<T>>, k: int, rotate: bool, count: int, rs: seq<Tree<T>>,
                                  leaf: Tree<T>, ctx: seq<Frame<T>>)
  {
    (rotate ==> count == 0 && rs == []) &&
    0 <= count <= 2 && |rs| <= 1 && count == Rotations(rs) &&
    AsWritten(rs) && Along(rs, leaf, ctx, |ctx| + 1) &&
    InsertLevel(t, c, rotate, leaf, ctx, k)
  }

  /** The subtree `t` under the frames `c` has the items and nodes of `t0` under `ctx`. */
  ghost predicate SameWhole<T>(t: Tree<T>, c: seq<Frame<T>>, t0: Tree<T>, ctx: seq<Frame<T>>)
  {
    Elements(Plug(t, c)) == Elements(Plug(t0, ctx)) && Nodes(Plug(t, c)) == Nodes(Plug(t0, ctx)) &&
    (Distinct(Plug(t, c)) <==> Distinct(Plug(t0, ctx)))
  }

  /** The walk of `fix_tree_insert` starts at the new leaf, looking for a rotation. */
  lemma {:induction false} InsertBegin<T>(leaf: Tree<T>, ctx: seq<Frame<T>>)
    requires leaf.Real? && leaf.left.Virtual? && leaf.right.Virtual?
    requires Balanced(Plug(Virtual(leaf.node), ctx))
    ensures InsertLoop(leaf, -1, ctx, 0, -1, true, 0, [], leaf, ctx)
  {
    InsertStart(Virtual(leaf.node), leaf, ctx);
    assert ctx[..0] == [];
  }

  /**
   * The one rotation of `fix_tree_insert`: the rotated subtree takes the
   * place of the old one, the walk goes on from it without rotating, and
   * `rotate` as written chooses the same rotations there.
   */
  lemma {:induction false} InsertRotation<T>(t: Tree<T>, oldH: int, c: seq<Frame<T>>, k: int, cached: int,
                                             count: int, rs: seq<Tree<T>>, leaf: Tree<T>, ctx: seq<Frame<T>>)
    requires InsertLoop(t, oldH, c, k, cached, true, count, rs, leaf, ctx) && Abs(BF(t)) == 2
    ensures InsertLoop(Rebalance(t), oldH, c, k, Height(Rebalance(t)), false, count + RotationCount(t), [t], leaf, ctx)
  {
    InsertWalkRevisit(t, oldH, c);
    RebalanceRestores(t);
    PlugReplace(t, Rebalance(t), c);
    AsWrittenSnoc([], t);
    RotationsSnoc([], t);
    AlongSnoc([], t, leaf, ctx, k);
    AlongLater([t], leaf, ctx, k + 1, |ctx| + 1);
  }

  /** One step up in `fix_tree_insert`, to the parent of the subtree. */
  lemma {:induction false} InsertClimb<T>(t: Tree<T>, oldH: int, c: seq<Frame<T>>, k: int, cached: int, rotate: bool,
                                          count: int, rs: seq<Tree<T>>, leaf: Tree<T>, ctx: seq<Frame<T>>)
    requires InsertLoop(t, oldH, c, k, cached, rotate, count, rs, leaf, ctx) && c != []
    requires rotate ==> Abs(BF(t)) < 2
    ensures var h := ParentHeight(c, oldH);
      InsertLoop(Fill(c[0], t), h, c[1..], k + 1, h, rotate && Height(t) != oldH, count, rs, leaf, ctx)
  {
    InsertWalkStep(t, oldH, c, rotate);
    if rotate && Height(t) != oldH {
      LeaningStep(t, oldH, c);
      LevelClimb(t, leaf, ctx, k);
    }
  }

  /** At the root the walk of `fix_tree_insert` has repaired the tree. */
  lemma {:induction false} InsertDone<T>(t: Tree<T>, oldH: int, k: int, cached: int, rotate: bool,
                                         count: int, rs: seq<Tree<T>>, leaf: Tree<T>, ctx: seq<Frame<T>>)
    requires InsertLoop(t, oldH, [], k, cached, rotate, count, rs, leaf, ctx) && (rotate ==> Abs(BF(t)) < 2)
    ensures Balanced(t) && Elements(t) == Elements(Plug(leaf, ctx)) && Nodes(t) == Nodes(Plug(leaf, ctx))
    ensures Distinct(t) <==> Distinct(Plug(leaf, ctx))
    ensures var h := Height(Plug(Virtual(leaf.node), ctx)); h <= Height(t) <= h + 1
  {
    InsertWalkDone(t, oldH, rotate);
  }

  /**
   * `fix_tree_delete` (AVLTreeList.py:419-431): from the node it is given up
   * to the root, rotates at every node out of balance; after a rotation it
   * goes on at the new root of the rotated subtree. Given the invariant of
   * the walk at its start, it leaves an AVL tree holding the same values and
   * nodes; after a deletion (`shrink`) the tree is at most one level lower
   * than before. It returns the number of single rotations, at most two per
   * level: the sum over the subtrees it rotated (`rotated`). After a
   * deletion `rotate` as written makes the same choice as `Rebalance` at
   * each of them.
   */
  method FixTreeDelete<T>(t0: Tree<T>, ctx: seq<Frame<T>>, ghost oldH: int, ghost shrink: bool)
    returns (t: Tree<T>, count: int, ghost rotated: seq<Tree<T>>)
    requires DeleteWalk(t0, oldH, ctx, shrink) && (shrink ==> Settled(t0, oldH))
    ensures Balanced(t) && Elements(t) == Elements(Plug(t0, ctx)) && Nodes(t) == Nodes(Plug(t0, ctx))
    ensures Distinct(t) <==> Distinct(Plug(t0, ctx))
    ensures shrink ==> TopHeight(ctx, oldH) - 1 <= Height(t) <= TopHeight(ctx, oldH)
    ensures 0 <= count <= 2 * |ctx| + 2 && count == Rotations(rotated)
    ensures AllNeedRotation(rotated) && (shrink ==> AsWritten(rotated))
    ensures Along(rotated, t0, ctx, |ctx| + 1) && |rotated| <= |ctx| + 1
  {
    rotated := [];
    t := t0;
    var c := ctx;
    ghost var h := oldH;
    ghost var k := 0;  // the level of `t` above `t0`
    count := 0;
    DeleteStart(t0, ctx, oldH, shrink);
    while true
      invariant DeleteLoop(t, h, c, k, count, rotated, t0, ctx, oldH, shrink)
      decreases |c|, if Abs(BF(t)) == 2 then 1 else 0
    {
      if Abs(BF(t)) == 2 {
        DeleteRotation(t, h, c, k, count, rotated, t0, ctx, oldH, shrink);
        rotated := rotated + [t];
        count := count + RotationCount(t);
        t := Rebalance(t);
        continue;
      }
      if c == [] {
        DeleteDone(t, h, k, count, rotated, t0, ctx, oldH, shrink);
        return;
      }
      DeleteClimb(t, h, c, k, count, rotated, t0, ctx, oldH, shrink);
      h := ParentHeight(c, h);
      t := Fill(c[0], t);
      c := c[1..];
      k := k + 1;
    }
  }

  /**
   * The walk of `fix_tree_delete` is at level `k` above `t0` with the
   * subtree `t`, and has rotated the subtrees `rs`, each at a level below;
   * if `t` is still to be rotated it is the subtree first reached there.
   */
  ghost predicate OnLevel<T>(t: Tree<T>, rs: seq<Tree<T>>, t0: Tree<T>, ctx: seq<Frame<T>>, k: int)
  {
    Reached(t, t0, ctx, k) && Along(rs, t0, ctx, k + 1) &&
    (Abs(BF(t)) == 2 ==> LevelOf(t, t0, ctx, k) && Along(rs, t0, ctx, k))
  }

  /**
   * The invariant of `fix_tree_delete`, started at `t0` below the frames
   * `ctx`: the walk is at the subtree `t` of cached height `h` with the
   * frames `c` still above it, `k` levels up; it has made `count` single
   * rotations, at the subtrees `rs`; the whole tree has the same items and
   * nodes as at the start.
   */
  ghost predicate DeleteLoop<T>(t: Tree<T>, h: int, c: seq<Frame<T>>, k: int, count: int, rs: seq<Tree<T>>,
                                t0: Tree<T>, ctx: seq<Frame<T>>, oldH: int, shrink: bool)
  {
    DeleteWalk(t, h, c, shrink) && TopHeight(c, h) == TopHeight(ctx, oldH) &&
    0 <= k <= |ctx| && c == ctx[k..] &&
    0 <= count <= 2 * k + (if Abs(BF(t)) == 2 then 0 else 2) &&
    count == Rotations(rs) && AllNeedRotation(rs) && (shrink ==> Settled(t, h) && AsWritten(rs)) &&
    OnLevel(t, rs, t0, ctx, k) &&
    Elements(Plug(t, c)) == Elements(Plug(t0, ctx)) && Nodes(Plug(t, c)) == Nodes(Plug(t0, ctx)) &&
    (Distinct(Plug(t, c)) <==> Distinct(Plug(t0, ctx)))
  }

  /** The walk of `fix_tree_delete` starts at `t0`, level 0, with no rotation made. */
  lemma {:induction false} DeleteStart<T>(t0: Tree<T>, ctx: seq<Frame<T>>, oldH: int, shrink: bool)
    requires DeleteWalk(t0, oldH, ctx, shrink) && (shrink ==> Settled(t0, oldH))
    ensures DeleteLoop(t0, oldH, ctx, 0, 0, [], t0, ctx, oldH, shrink)
  {
    assert ctx[..0] == [];
  }

  /**
   * A rotation of `fix_tree_delete` at level `k`: the walk goes on from the
   * rotated subtree, which has the same nodes and items, and the record of
   * rotations grows by the subtree rotated.
   */
  lemma {:induction false} DeleteRotation<T>(t: Tree<T>, h: int, c: seq<Frame<T>>, k: int, count: int, rs: seq<Tree<T>>,
                                             t0: Tree<T>, ctx: seq<Frame<T>>, oldH: int, shrink: bool)
    requires DeleteLoop(t, h, c, k, count, rs, t0, ctx, oldH, shrink) && Abs(BF(t)) == 2
    ensures Abs(BF(Rebalance(t))) < 2
    ensures DeleteLoop(Rebalance(t), h, c, k, count + RotationCount(t), rs + [t], t0, ctx, oldH, shrink)
  {
    DeleteWalkRevisit(t, h, c, shrink);
    RebalanceRestores(t);
    PlugReplace(t, Rebalance(t), c);
    if shrink {
      AsWrittenSnoc(rs, t);
      SettledRevisit(t, h, c);
    }
    RotationsSnoc(rs, t);
    AlongSnoc(rs, t, t0, ctx, k);
  }

  /** One step up in `fix_tree_delete`, from level `k` to the parent of the subtree. */
  lemma {:induction false} DeleteClimb<T>(t: Tree<T>, h: int, c: seq<Frame<T>>, k: int, count: int, rs: seq<Tree<T>>,
                                          t0: Tree<T>, ctx: seq<Frame<T>>, oldH: int, shrink: bool)
    requires DeleteLoop(t, h, c, k, count, rs, t0, ctx, oldH, shrink) && Abs(BF(t)) < 2 && c != []
    ensures DeleteLoop(Fill(c[0], t), ParentHeight(c, h), c[1..], k + 1, count, rs, t0, ctx, oldH, shrink)
  {
    DeleteWalkStep(t, h, c, shrink);
    if shrink {
      SettledStep(t, h, c);
    }
    LevelClimb(t, t0, ctx, k);
    AlongLater(rs, t0, ctx, k + 1, k + 2);
  }

  /** At the root the walk of `fix_tree_delete` has repaired the tree, at most one rotation per level. */
  lemma {:induction false} DeleteDone<T>(t: Tree<T>, h: int, k: int, count: int, rs: seq<Tree<T>>,
                                         t0: Tree<T>, ctx: seq<Frame<T>>, oldH: int, shrink: bool)
    requires DeleteLoop(t, h, [], k, count, rs, t0, ctx, oldH, shrink) && Abs(BF(t)) < 2
    ensures Balanced(t) && Elements(t) == Elements(Plug(t0, ctx)) && Nodes(t) == Nodes(Plug(t0, ctx))
    ensures Distinct(t) <==> Distinct(Plug(t0, ctx))
    ensures shrink ==> TopHeight(ctx, oldH) - 1 <= Height(t) <= TopHeight(ctx, oldH)
    ensures 0 <= count <= 2 * |ctx| + 2 && Along(rs, t0, ctx, |ctx| + 1) && |rs| <= |ctx| + 1
  {
    DeleteWalkDone(t, h, shrink);
    AlongLength(rs, t0, ctx, |ctx| + 1);
  }

  // ---------------------------------------------------------------------
  // insert

  /**
   * The common end of the three cases of `insert`: the virtual node `v`
   * (at index `i` in order) is given the value, gets two virtual children,
   * and the tree is repaired from it upwards.
   */
  method Grow<T>(v: Tree<T>, ctx: seq<Frame<T>>, val: T)
    returns (t: Tree<T>, count: int, ghost rotated: seq<Tree<T>>, ghost leaf: Tree<T>)
    requires v.Virtual? && Balanced(Plug(v, ctx)) && Distinct(Plug(v, ctx))
    ensures var e, i := Elements(Plug(v, ctx)), |PreElems(ctx)|;
      i <= |e| && Elements(t) == e[..i] + [val] + e[i..]
    ensures Balanced(t) && Distinct(t) && t.Real?
    ensures Height(Plug(v, ctx)) <= Height(t) <= Height(Plug(v, ctx)) + 1
    ensures 0 <= count <= 2 && |rotated| <= 1 && count == Rotations(rotated)
    ensures AsWritten(rotated)
    ensures leaf.Real? && leaf.node == v.node && leaf.value == val && leaf.left.Virtual? && leaf.right.Virtual?
    ensures Nodes(t) == Nodes(Plug(leaf, ctx)) && Elements(t) == Elements(Plug(leaf, ctx))
    ensures Along(rotated, leaf, ctx, |ctx| + 1)
  {
    NodesAllocated(Plug(v, ctx));
    PlugDistinct(v, ctx);
    PlugNodes(v, ctx);
    var grown := CreateVirtualChildren(v.node, val);
    GrowLeaf(v, grown, ctx);
    PlugSwap(v, grown, ctx);
    t, count, rotated := FixTreeInsert(grown, ctx);
    leaf := grown;
  }

  /**
   * `insert` (AVLTreeList.py:225-252): puts `val` at index `i`, as the
   * right child of the last node when `i` is the length, as the left child
   * of the node now at index `i` when that child is virtual, and otherwise
   * as the right child of that node's predecessor; then repairs the tree.
   * Returns the number of single rotations.
   */
  method Insert<T>(l: TreeList<T>, i: int, val: T) returns (l': TreeList<T>, count: int, ghost rotated: seq<Tree<T>>)
    requires WellFormed(l) && 0 <= i <= |Items(l)|
    ensures WellFormed(l') && l'.size == l.size + 1
    ensures Items(l') == Items(l)[..i] + [val] + Items(l)[i..]
    ensures ListHeight(l) <= ListHeight(l') <= ListHeight(l) + 1
    ensures 0 <= count <= 2 && |rotated| <= 1 && count == Rotations(rotated)
    ensures AsWritten(rotated)
    ensures forall r | r in rotated :: Nodes(r) <= ListNodes(l') && Segment(Elements(r), Items(l'))
  {
    WellFormedSize(l);
    if l.size == 0 {
      // `select` finds no last node: the new node is the root.
      var node := new AVLNode(Some(val));
      var t := CreateVirtualChildren(node, val);
      assert Elements(t) == [val];
      return TreeList(Some(t), 1), 0, [];
    }
    var root := l.root.value;
    // The virtual node that becomes the new leaf, and the frames above it.
    var v: Tree<T>, ctx: seq<Frame<T>>;
    if i == l.size {
      LastHasNoRight(root);
      AfterNode(root, l.size);
      var last := SubAt(root, l.size);
      v, ctx := last.right, [Frame(false, last.node, last.value, last.left)] + PathTo(root, l.size);
    } else {
      FirstHasNoLeft(root);
      var cur := SubAt(root, i + 1);
      if cur.left.Virtual? {
        BeforeNode(root, i + 1);
        v, ctx := cur.left, [Frame(true, cur.node, cur.value, cur.right)] + PathTo(root, i + 1);
      } else {
        // The predecessor is the node at index i - 1; its right child is virtual.
        NeighboursShareAGap(root, i);
        AfterNode(root, i);
        var pred := SubAt(root, i);
        v, ctx := pred.right, [Frame(false, pred.node, pred.value, pred.left)] + PathTo(root, i);
      }
    }
    assert v.Virtual? && Plug(v, ctx) == root && |PreElems(ctx)| == i;
    var t;
    ghost var leaf;
    t, count, rotated, leaf := Grow(v, ctx, val);
    AlongSegments(rotated, leaf, ctx, |ctx| + 1);
    SizeCounts(t);
    l' := TreeList(Some(t), l.size + 1);
  }

  // ---------------------------------------------------------------------
  // delete

  /**
   * `delete_root` (AVLTreeList.py:406-415): a root with a virtual child
   * gives way to its other child, or to nothing when both are virtual; a
   * root with two real children is left in place.
   */
  function DeleteRoot<T>(t: Tree<T>): (r: Option<Tree<T>>)
    requires t.Real?
    ensures t.left.Real? && t.right.Real? ==> r == Some(t)
    ensures t.left.Virtual? || t.right.Virtual? ==>
      (r.None? <==> Size(t) == 1) &&
      (r.Some? ==> r.value.Real? && (r.value == t.left || r.value == t.right) && Elements(r.value) == Elements(t.left) + Elements(t.right))
  {
    if t.left.Virtual? && t.right.Virtual? then None
    else if t.left.Real? && t.right.Virtual? then Some(t.left)
    else if t.left.Virtual? && t.right.Real? then Some(t.right)
    else Some(t)
  }

  /**
   * The parent of the removed node `s` takes `s'` (a child of `s`, or a new
   * virtual node) in its place, and the tree is repaired from the parent up.
   */
  method Splice<T>(s: Tree<T>, s': Tree<T>, ctx: seq<Frame<T>>) returns (t: Tree<T>, count: int, ghost rotated: seq<Tree<T>>)
    requires ctx != [] && Balanced(s) && OldBalanced(ctx, Height(s))
    requires Balanced(s') && Height(s) - 1 <= Height(s') <= Height(s) && BF(s') == 0
    ensures Balanced(t) && Elements(t) == Elements(Plug(s', ctx)) && Nodes(t) == Nodes(Plug(s', ctx))
    ensures Distinct(t) <==> Distinct(Plug(s', ctx))
    ensures TopHeight(ctx, Height(s)) - 1 <= Height(t) <= TopHeight(ctx, Height(s))
    ensures count >= 0 && count == Rotations(rotated)
    ensures AsWritten(rotated) && Along(rotated, Fill(ctx[0], s'), ctx[1..], |ctx|)
  {
    ShrinkStart(s, s', ctx);
    SettledStart(s, s', ctx);
    t, count, rotated := FixTreeDelete(Fill(ctx[0], s'), ctx[1..], ParentHeight(ctx, Height(s)), true);
  }

  // The two-children case of `delete`: the successor, the first node of the
  // right subtree, has a virtual left child; its value is copied into the
  // deleted node and its right child takes its place.

  /** The deleted node once it holds its successor's value, with the successor taken out below it. */
  function Lifted<T>(s: Tree<T>): Tree<T>
    requires s.Real? && s.right.Real?
  {
    var ss := SubAt(s.right, 1);
    Real(s.left, s.node, ss.value, Plug(ss.right, PathTo(s.right, 1)))
  }

  /** The frames above the successor's right child, with the deleted node holding the successor's value. */
  function LiftedPath<T>(s: Tree<T>, c: seq<Frame<T>>): seq<Frame<T>>
    requires s.Real? && s.right.Real?
  {
    PathTo(s.right, 1) + [Frame(false, s.node, SubAt(s.right, 1).value, s.left)] + c
  }

  /**
   * The frames above the successor's right child were balanced before the
   * update: those of the path `sc` (from the right child of `s` down to the
   * successor, of height `h`), then `s` itself, then those above `s`.
   */
  lemma {:induction false} LiftWalk<T>(s: Tree<T>, v: T, h: int, sc: seq<Frame<T>>, c: seq<Frame<T>>)
    requires s.Real? && Balanced(s) && OldBalanced(c, Height(s))
    requires OldBalanced(sc, h) && TopHeight(sc, h) == Height(s.right)
    ensures var ctx := sc + [Frame(false, s.node, v, s.left)] + c;
      OldBalanced(ctx, h) && TopHeight(ctx, h) == TopHeight(c, Height(s))
  {
    var f := Frame(false, s.node, v, s.left);
    OldBalancedConcat(sc, [f], h);
    OldBalancedConcat(sc + [f], c, h);
  }

  /** The same frames lead from the successor's right child to the tree with the lifted node. */
  lemma {:induction false} LiftPlug<T>(s: Tree<T>, ss: Tree<T>, sc: seq<Frame<T>>, c: seq<Frame<T>>)
    requires s.Real? && ss.Real?
    ensures Plug(ss.right, sc + [Frame(false, s.node, ss.value, s.left)] + c) ==
      Plug(Real(s.left, s.node, ss.value, Plug(ss.right, sc)), c)
  {
    var f := Frame(false, s.node, ss.value, s.left);
    PlugConcat(ss.right, sc, [f]);
    PlugConcat(ss.right, sc + [f], c);
  }

  /** The first node `ss` of the right subtree gives up its value to the node above. */
  lemma {:induction false} LiftElements<T>(s: Tree<T>, ss: Tree<T>, sc: seq<Frame<T>>)
    requires s.Real? && ss.Real? && ss.left.Virtual? && Plug(ss, sc) == s.right && PreElems(sc) == []
    ensures Elements(Real(s.left, s.node, ss.value, Plug(ss.right, sc))) == Elements(s.left) + Elements(s.right)
  {
    PlugElements(ss, sc);
    PlugElements(ss.right, sc);
    ShiftFront(ss.value, Elements(ss.right), PostElems(sc));
  }

  /** Taking `ss` out of the right subtree keeps the nodes distinct and adds none. */
  lemma {:induction false} LiftNodes<T>(s: Tree<T>, ss: Tree<T>, sc: seq<Frame<T>>)
    requires s.Real? && ss.Real? && Plug(ss, sc) == s.right && Distinct(s)
    ensures Distinct(Real(s.left, s.node, ss.value, Plug(ss.right, sc)))
    ensures Nodes(Real(s.left, s.node, ss.value, Plug(ss.right, sc))) <= Nodes(s)
  {
    PlugDistinct(ss, sc);
    PlugNodes(ss, sc);
    PlugSwap(ss, ss.right, sc);
  }

  /** The successor has no left child, and lifting it up keeps the tree's shape in order. */
  lemma {:induction false} SuccessorLift<T>(s: Tree<T>, c: seq<Frame<T>>)
    requires s.Real? && s.right.Real? && Balanced(Plug(s, c)) && Distinct(s)
    ensures var ss := SubAt(s.right, 1);
      ss.left.Virtual? && Balanced(ss) && Height(ss) == Height(ss.right) + 1 &&
      OldBalanced(LiftedPath(s, c), Height(ss)) && TopHeight(LiftedPath(s, c), Height(ss)) == Height(Plug(s, c)) &&
      Plug(ss.right, LiftedPath(s, c)) == Plug(Lifted(s), c)
    ensures Elements(Lifted(s)) == Elements(s.left) + Elements(s.right)
    ensures Distinct(Lifted(s)) && Nodes(Lifted(s)) <= Nodes(s)
  {
    var r := s.right;
    PathToPlug(r, 1);
    FirstHasNoLeft(r);
    var ss, sc := SubAt(r, 1), PathTo(r, 1);
    PlugBalanced(s, c);
    PlugBalanced(ss, sc);
    LiftWalk(s, ss.value, Height(ss), sc, c);
    LiftPlug(s, ss, sc, c);
    LiftElements(s, ss, sc);
    LiftNodes(s, ss, sc);
  }

  /**
   * The branches of `delete` below the root (AVLTreeList.py:358-401): what
   * takes the place of the deleted subtree `s` (a new virtual node, its
   * only real child, or `s` holding its successor's value), and the
   * subtree `low` whose root is taken out, what takes its place and the
   * frames above it, from which `fix_tree_delete` starts.
   */
  method Replacement<T>(s: Tree<T>, c: seq<Frame<T>>) returns (s': Tree<T>, low: Tree<T>, low': Tree<T>, lctx: seq<Frame<T>>)
    requires s.Real? && Balanced(Plug(s, c)) && Distinct(Plug(s, c))
    requires c != [] || (s.left.Real? && s.right.Real?)
    ensures Elements(s') == Elements(s.left) + Elements(s.right)
    ensures Distinct(Plug(s', c)) && forall n | n in Nodes(Plug(s', c)) :: n in Nodes(Plug(s, c)) || fresh(n)
    ensures lctx != [] && Balanced(low) && OldBalanced(lctx, Height(low)) && TopHeight(lctx, Height(low)) == Height(Plug(s, c))
    ensures Balanced(low') && Height(low) - 1 <= Height(low') <= Height(low) && BF(low') == 0
    ensures Plug(low', lctx) == Plug(s', c)
  {
    NodesAllocated(Plug(s, c));
    PlugBalanced(s, c);
    PlugDistinct(s, c);
    PlugNodes(s, c);
    Split(s);
    if s.left.Virtual? && s.right.Virtual? {
      var v := new AVLNode(None);
      s' := Virtual(v);
      low, low', lctx := s, s', c;
    } else if s.left.Real? && s.right.Virtual? {
      s' := s.left;
      low, low', lctx := s, s', c;
    } else if s.left.Virtual? && s.right.Real? {
      s' := s.right;
      low, low', lctx := s, s', c;
    } else {
      SuccessorLift(s, c);
      s' := Lifted(s);
      var ss := SubAt(s.right, 1);
      low, low', lctx := ss, ss.right, LiftedPath(s, c);
    }
    PlugNodes(s', c);
    PlugSwap(s, s', c);
  }

  /**
   * `delete` (AVLTreeList.py:351-403): takes out the item at index `i` and
   * repairs the tree; returns the number of single rotations, or -1 (and
   * changes nothing) when the list is empty. A root with a virtual child
   * goes through `delete_root`; a leaf gives way to a new virtual node; a
   * node with one real child gives way to that child; a node with two real
   * children takes its successor's value and the successor is removed.
   */
  method Delete<T>(l: TreeList<T>, i: int) returns (l': TreeList<T>, count: int, ghost rotated: seq<Tree<T>>)
    requires WellFormed(l) && (Items(l) == [] || 0 <= i < |Items(l)|)
    ensures Items(l) == [] ==> l' == l && count == -1
    ensures Items(l) != [] ==>
      WellFormed(l') && l'.size == l.size - 1 && Items(l') == Items(l)[..i] + Items(l)[i + 1..] && count >= 0 &&
      count == Rotations(rotated)
    ensures AsWritten(rotated)
    ensures forall r | r in rotated :: Nodes(r) <= ListNodes(l') && Segment(Elements(r), Items(l'))
    ensures ListHeight(l) - 1 <= ListHeight(l') <= ListHeight(l)
    ensures forall n | n in ListNodes(l') :: n in ListNodes(l) || fresh(n)
  {
    WellFormedSize(l);
    if l.size == 0 {
      // `select` finds no node.
      return l, -1, [];
    }
    var root := l.root.value;
    PathToPlug(root, i + 1);
    var s, c := SubAt(root, i + 1), PathTo(root, i + 1);
    if c == [] && (s.left.Virtual? || s.right.Virtual?) {
      var r := DeleteRoot(s);
      RootGone(s, i, r);
      l', count, rotated := TreeList(r, l.size - 1), 0, [];
      return;
    }
    var t;
    t, count, rotated := DeleteBelow(s, c, i);
    SizeCounts(t);
    l' := TreeList(Some(t), l.size - 1);
  }

  /** The root case of `delete`: `delete_root` leaves a list without the root's value. */
  lemma {:induction false} RootGone<T>(s: Tree<T>, i: int, r: Option<Tree<T>>)
    requires s.Real? && Balanced(s) && Distinct(s) && (s.left.Virtual? || s.right.Virtual?)
    requires r == DeleteRoot(s) && i == Size(s.left)
    ensures var l', e := TreeList(r, Size(s) - 1), Elements(s);
      WellFormed(l') && i < |e| && Items(l') == e[..i] + e[i + 1..] &&
      Height(s) - 1 <= ListHeight(l') <= Height(s) && ListNodes(l') <= Nodes(s)
  {
    Split(s);
    SizeCounts(s);
    if r.Some? {
      SizeCounts(r.value);
    }
    DropRoot(s, if r.None? then Virtual(s.node) else r.value, []);
  }

  /**
   * `delete` of the node heading `s`, below the root or with two real
   * children: the parent (or `s` itself, for its successor) takes the
   * replacement, and `fix_tree_delete` repairs the tree from there up.
   */
  method DeleteBelow<T>(s: Tree<T>, c: seq<Frame<T>>, i: int) returns (t: Tree<T>, count: int, ghost rotated: seq<Tree<T>>)
    requires s.Real? && Balanced(Plug(s, c)) && Distinct(Plug(s, c))
    requires c != [] || (s.left.Real? && s.right.Real?)
    requires i == |PreElems(c)| + Size(s.left)
    ensures var e := Elements(Plug(s, c));
      i < |e| && Elements(t) == e[..i] + e[i + 1..]
    ensures Balanced(t) && Distinct(t) && count >= 0 && count == Rotations(rotated)
    ensures AsWritten(rotated)
    ensures forall r | r in rotated :: Nodes(r) <= Nodes(t) && Segment(Elements(r), Elements(t))
    ensures Height(Plug(s, c)) - 1 <= Height(t) <= Height(Plug(s, c))
    ensures forall n | n in Nodes(t) :: n in Nodes(Plug(s, c)) || fresh(n)
  {
    var s', low, low', lctx := Replacement(s, c);
    DropRoot(s, s', c);
    t, count, rotated := Splice(low, low', lctx);
    AlongSegments(rotated, Fill(lctx[0], low'), lctx[1..], |lctx|);
  }

  // ---------------------------------------------------------------------
  // concat

  /**
   * Where the descent of `concat` stops: at a subtree `c` of the higher tree
   * no higher than the other tree `a`, whose parent (if any) is higher than
   * `a`. Joining `a` and `c` under a new node and putting the result in
   * place of `c` gives a tree the walk of `fix_tree_delete` can repair.
   */
  lemma {:induction false} JoinWalk<T>(j: Tree<T>, a: Tree<T>, c: Tree<T>, ctx: seq<Frame<T>>)
    requires j.Real? && ((j.left == a && j.right == c) || (j.left == c && j.right == a))
    requires Balanced(a) && Balanced(Plug(c, ctx))
    requires Height(c) <= Height(a) <= Height(Plug(c, ctx))
    requires ctx != [] ==> Height(Fill(ctx[0], c)) > Height(a)
    ensures DeleteWalk(j, Height(c), ctx, false)
  {
    PlugBalanced(c, ctx);
    if ctx == [] {
      assert Height(c) == Height(a);
    } else {
      assert OldBalanced(ctx, Height(c));
    }
    JoinStart(j, c, ctx);
  }

  /**
   * The joined tree has no shared nodes: the new node is new, and `a` has
   * no node in common with the tree `c` is part of.
   */
  lemma {:induction false} JoinDistinct<T>(j: Tree<T>, a: Tree<T>, c: Tree<T>, ctx: seq<Frame<T>>)
    requires j.Real? && ((j.left == a && j.right == c) || (j.left == c && j.right == a))
    requires Distinct(a) && Distinct(Plug(c, ctx)) && Nodes(a) !! Nodes(Plug(c, ctx))
    requires j.node !in Nodes(a) && j.node !in Nodes(Plug(c, ctx))
    ensures Distinct(Plug(j, ctx))
  {
    PlugNodes(c, ctx);
    PlugDistinct(c, ctx);
    PlugDistinct(j, ctx);
  }

  /** The values of a join into the left spine of `b`: those of `a`, then `x`, then those of `b`. */
  lemma {:induction false} JoinElementsRight<T>(a: Tree<T>, m: AVLNode<T>, x: T, b: Tree<T>, c: Tree<T>, ctx: seq<Frame<T>>)
    requires Plug(c, ctx) == b && PreElems(ctx) == []
    ensures Elements(Plug(Real(a, m, x, c), ctx)) == Elements(a) + [x] + Elements(b)
  {
    PlugElements(c, ctx);
    PlugElements(Real(a, m, x, c), ctx);
    RegroupAfter(Elements(a), x, Elements(c), PostElems(ctx));
  }

  /** The values of a join into the right spine of `a`: those of `a`, then `x`, then those of `b`. */
  lemma {:induction false} JoinElementsLeft<T>(a: Tree<T>, m: AVLNode<T>, x: T, b: Tree<T>, c: Tree<T>, ctx: seq<Frame<T>>)
    requires Plug(c, ctx) == a && PostElems(ctx) == []
    ensures Elements(Plug(Real(c, m, x, b), ctx)) == Elements(a) + [x] + Elements(b)
  {
    PlugElements(c, ctx);
    PlugElements(Real(c, m, x, b), ctx);
    RegroupBefore(PreElems(ctx), Elements(c), x, Elements(b));
  }

  /**
   * The join of `concat` when the right tree `b` is at least as high as the
   * left tree `a`: goes down the left spine of `b` to the first node no
   * higher than `a`, puts a new node holding `x` in its place with `a` on
   * its left and that node on its right, and repairs upwards with
   * `fix_tree_delete`.
   */
  method JoinRight<T>(a: Tree<T>, x: T, b: Tree<T>) returns (t: Tree<T>)
    requires a.Real? && Balanced(a) && Balanced(b) && Distinct(a) && Distinct(b) && Nodes(a) !! Nodes(b)
    requires Height(a) <= Height(b)
    ensures Balanced(t) && Distinct(t) && Elements(t) == Elements(a) + [x] + Elements(b)
  {
    NodesAllocated(a);
    NodesAllocated(b);
    var cur := b;
    var ctx: seq<Frame<T>> := [];
    while Height(cur) > Height(a)
      invariant Plug(cur, ctx) == b && PreElems(ctx) == []
      invariant ctx != [] ==> Height(Fill(ctx[0], cur)) > Height(a)
      decreases Height(cur)
    {
      ctx := [Frame(true, cur.node, cur.value, cur.right)] + ctx;
      cur := cur.left;
    }
    var m := new AVLNode(Some(x));
    JoinWalk(Real(a, m, x, cur), a, cur, ctx);
    JoinDistinct(Real(a, m, x, cur), a, cur, ctx);
    JoinElementsRight(a, m, x, b, cur, ctx);
    var rotations;
    ghost var rotated;
    t, rotations, rotated := FixTreeDelete(Real(a, m, x, cur), ctx, Height(cur), false);
  }

  /** The mirror image of `JoinRight`, for a left tree `a` higher than the right tree `b`. */
  method JoinLeft<T>(a: Tree<T>, x: T, b: Tree<T>) returns (t: Tree<T>)
    requires b.Real? && Balanced(a) && Balanced(b) && Distinct(a) && Distinct(b) && Nodes(a) !! Nodes(b)
    requires Height(b) <= Height(a)
    ensures Balanced(t) && Distinct(t) && Elements(t) == Elements(a) + [x] + Elements(b)
  {
    NodesAllocated(a);
    NodesAllocated(b);
    var cur := a;
    var ctx: seq<Frame<T>> := [];
    while Height(cur) > Height(b)
      invariant Plug(cur, ctx) == a && PostElems(ctx) == []
      invariant ctx != [] ==> Height(Fill(ctx[0], cur)) > Height(b)
      decreases Height(cur)
    {
      ctx := [Frame(false, cur.node, cur.value, cur.left)] + ctx;
      cur := cur.right;
    }
    var m := new AVLNode(Some(x));
    JoinWalk(Real(cur, m, x, b), b, cur, ctx);
    JoinDistinct(Real(cur, m, x, b), b, cur, ctx);
    JoinElementsLeft(a, m, x, b, cur, ctx);
    var rotations;
    ghost var rotated;
    t, rotations, rotated := FixTreeDelete(Real(cur, m, x, b), ctx, Height(cur), false);
  }

  /**
   * `concat` (AVLTreeList.py:569-646): appends the list `l2` to `l1` and
   * returns the absolute difference of their heights before the join (an
   * empty list counting as -1). The last item of `l1` (or, when `l1` is the
   * higher, the first of `l2`) is taken out and becomes the new node joining
   * the two trees; when that empties its list, it is inserted into the other.
   */
  method Concat<T>(l1: TreeList<T>, l2: TreeList<T>) returns (l: TreeList<T>, r: int)
    requires WellFormed(l1) && WellFormed(l2) && ListNodes(l1) !! ListNodes(l2)
    ensures WellFormed(l) && Items(l) == Items(l1) + Items(l2) && l.size == l1.size + l2.size
    ensures r == Abs(ListHeight(l1) - ListHeight(l2))
  {
    WellFormedSize(l1);
    WellFormedSize(l2);
    if l1.root.None? && l2.root.None? {
      return l1, 0;
    }
    var heightDiff := ListHeight(l1) - ListHeight(l2);
    if l1.size == 0 {
      return TreeList(l2.root, l2.size), Abs(heightDiff);
    }
    if l2.size == 0 {
      return l1, Abs(heightDiff);
    }
    if heightDiff <= 0 {
      l := ConcatHigherRight(l1, l2);
    } else {
      l := ConcatHigherLeft(l1, l2);
    }
    r := Abs(heightDiff);
  }

  /** `retrieve` of the last item followed by its `delete`, as `concat` does on `l1`. */
  method TakeLast<T>(l: TreeList<T>) returns (x: T, l': TreeList<T>)
    requires WellFormed(l) && l.root.Some?
    ensures WellFormed(l') && Items(l) == Items(l') + [x] && l'.size == l.size - 1
    ensures ListHeight(l') <= ListHeight(l)
    ensures forall n | n in ListNodes(l') :: n in ListNodes(l) || fresh(n)
  {
    WellFormedSize(l);
    SubAtIndex(l.root.value, l.size);
    x := SubAt(l.root.value, l.size).value;
    var deleted;
    ghost var rotated;
    l', deleted, rotated := Delete(l, l.size - 1);
    SplitLast(Items(l), Items(l'), x);
  }

  /** `retrieve` of the first item followed by its `delete`, as `concat` does on `l2`. */
  method TakeFirst<T>(l: TreeList<T>) returns (x: T, l': TreeList<T>)
    requires WellFormed(l) && l.root.Some?
    ensures WellFormed(l') && Items(l) == [x] + Items(l') && l'.size == l.size - 1
    ensures ListHeight(l') <= ListHeight(l)
    ensures forall n | n in ListNodes(l') :: n in ListNodes(l) || fresh(n)
  {
    WellFormedSize(l);
    SubAtIndex(l.root.value, 1);
    x := SubAt(l.root.value, 1).value;
    var deleted;
    ghost var rotated;
    l', deleted, rotated := Delete(l, 0);
    SplitFirst(Items(l), x, Items(l'));
  }

  /** `insert` at the index equal to the length, as `concat` does when `lst` held one item. */
  method InsertLast<T>(l: TreeList<T>, x: T) returns (l': TreeList<T>)
    requires WellFormed(l)
    ensures WellFormed(l') && Items(l') == Items(l) + [x] && l'.size == l.size + 1
  {
    WellFormedSize(l);
    var inserted;
    ghost var rotated;
    l', inserted, rotated := Insert(l, l.size, x);
    InsertAtEnd(Items(l), x);
  }

  /**
   * The branch of `concat` where `l2` is at least as high as `l1`: the last
   * item of `l1` is taken out and joins the rest of `l1` to `l2`, or is put
   * in front of `l2` when it was the only item.
   */
  method ConcatHigherRight<T>(l1: TreeList<T>, l2: TreeList<T>) returns (l: TreeList<T>)
    requires WellFormed(l1) && WellFormed(l2) && ListNodes(l1) !! ListNodes(l2)
    requires l1.root.Some? && l2.root.Some? && ListHeight(l1) <= ListHeight(l2)
    ensures WellFormed(l) && Items(l) == Items(l1) + Items(l2) && l.size == l1.size + l2.size
  {
    WellFormedSize(l1);
    WellFormedSize(l2);
    NodesAllocated(l2.root.value);
    var middle, a := TakeLast(l1);
    if a.size == 0 {
      var b, inserted;
      ghost var rotated;
      b, inserted, rotated := Insert(l2, 0, middle);
      return TreeList(b.root, b.size);
    }
    WellFormedSize(a);
    var t := JoinRight(a.root.value, middle, l2.root.value);
    SizeCounts(t);
    l := TreeList(Some(t), l1.size + l2.size);
  }

  /** The mirror image of `ConcatHigherRight`, for `l1` higher than `l2`: the first item of `l2` joins them. */
  method ConcatHigherLeft<T>(l1: TreeList<T>, l2: TreeList<T>) returns (l: TreeList<T>)
    requires WellFormed(l1) && WellFormed(l2) && ListNodes(l1) !! ListNodes(l2)
    requires l1.root.Some? && l2.root.Some? && ListHeight(l1) > ListHeight(l2)
    ensures WellFormed(l) && Items(l) == Items(l1) + Items(l2) && l.size == l1.size + l2.size
  {
    WellFormedSize(l1);
    WellFormedSize(l2);
    NodesAllocated(l1.root.value);
    var middle, b := TakeFirst(l2);
    if b.size == 0 {
      WellFormedSize(b);
      assert Items(l2) == [middle];
      l := InsertLast(l1, middle);
      return;
    }
    WellFormedSize(b);
    Regroup(Items(l1), middle, Items(b));
    var t := JoinLeft(l1.root.value, middle, b.root.value);
    SizeCounts(t);
    l := TreeList(Some(t), l1.size + l2.size);
  }

}
