/**
 * When the mutable `AVLNode` objects agree with `Tree` values. Every
 * predicate here looks at one node and its two children only, so that an
 * update of a few nodes leaves the facts about all other nodes in place.
 *
 * `Local(n)`: the links of `n` and its cached `size` and `height` are those
 * of its ghost subtree `n.sub`. `FrameHolds(f, child)`: the parent of frame
 * `f` holds its value, `child` in the hole and the sibling beside it; this
 * is what is left of `Local` for the ancestors of a subtree a walk is
 * repairing, whose ghost subtrees and cached fields are not yet updated.
 */
module Links {
  import opened Wrappers
  import opened Trees

  /** A possibly absent node, as a set. */
  ghost function Opt<T>(n: AVLNode?<T>): set<AVLNode<T>>
  {
    if n == null then {} else {n}
  }

  /** The children of a node, as a set: none for a virtual node. */
  ghost function Kids<T>(n: AVLNode<T>): set<AVLNode<T>>
    reads n`left, n`right
  {
    (if n.left == null then {} else {n.left}) + (if n.right == null then {} else {n.right})
  }

  /**
   * `n` heads the real tree `t`: it holds its value and its two children,
   * whose ghost subtrees are those of `t` and whose parent links lead back
   * to `n`. The cached fields are not part of this.
   */
  ghost predicate Holds<T>(n: AVLNode<T>, t: Tree<T>)
    reads n`value, n`left, n`right, Kids(n)`sub, Kids(n)`parent
  {
    t.Real? && t.node == n && n.value == Some(t.value) &&
    n.left == t.left.node && n.right == t.right.node &&
    t.left.node.sub == t.left && t.right.node.sub == t.right &&
    t.left.node.parent == n && t.right.node.parent == n
  }

  /**
   * A node agrees with its ghost subtree. A virtual node has no value, no
   * children, size 0 and height -1 (AVLTreeList.py:189-195); a real node
   * holds its subtree and caches its size and height.
   */
  ghost predicate Local<T>(n: AVLNode<T>)
    reads n`value, n`left, n`right, n`size, n`height, n`sub, Kids(n)`sub, Kids(n)`parent
  {
    n.sub.node == n &&
    if n.sub.Virtual? then
      n.value.None? && n.left == null && n.right == null && n.size == 0 && n.height == -1
    else
      Holds(n, n.sub) && n.size == Size(n.sub) && n.height == Height(n.sub)
  }

  /**
   * The parent of frame `f` holds its value, `child` in the hole and the
   * sibling on the other side, and both point back to it.
   */
  ghost predicate FrameHolds<T>(f: Frame<T>, child: AVLNode<T>)
    reads f.parent`value, f.parent`left, f.parent`right, f.sibling.node`sub, f.sibling.node`parent, child`parent
  {
    var p := f.parent;
    p.value == Some(f.value) &&
    (if f.isLeft then p.left == child && p.right == f.sibling.node
     else p.left == f.sibling.node && p.right == child) &&
    f.sibling.node.sub == f.sibling && f.sibling.node.parent == p && child.parent == p
  }

  /** The node in the hole of the `i`-th frame above `n`. */
  ghost function Below<T>(ctx: seq<Frame<T>>, i: int, n: AVLNode<T>): AVLNode<T>
    requires 0 <= i < |ctx|
  {
    if i == 0 then n else ctx[i - 1].parent
  }

  /**
   * Every frame above the subtree headed by `n` holds, and the top one is
   * the root: its parent link is empty.
   */
  ghost predicate PathHolds<T>(n: AVLNode<T>, ctx: seq<Frame<T>>)
    reads *
  {
    (forall i | 0 <= i < |ctx| :: FrameHolds(ctx[i], Below(ctx, i, n))) &&
    (if ctx == [] then n.parent == null else ctx[|ctx| - 1].parent.parent == null)
  }

  /** The parents along a path. */
  ghost function PathNodes<T>(ctx: seq<Frame<T>>): set<AVLNode<T>>
  {
    set i | 0 <= i < |ctx| :: ctx[i].parent
  }

  /** Climbing one frame: the rest of the path holds above the parent. */
  lemma {:induction false} PathUp<T>(n: AVLNode<T>, ctx: seq<Frame<T>>)
    requires PathHolds(n, ctx) && ctx != []
    ensures FrameHolds(ctx[0], n) && PathHolds(ctx[0].parent, ctx[1..])
    ensures PathNodes(ctx) == {ctx[0].parent} + PathNodes(ctx[1..])
  {
    var c := ctx[1..];
    forall i | 0 <= i < |c|
      ensures FrameHolds(c[i], Below(c, i, ctx[0].parent))
    {
      assert c[i] == ctx[i + 1] && Below(c, i, ctx[0].parent) == Below(ctx, i + 1, n);
    }
    forall x | x in PathNodes(ctx)
      ensures x in {ctx[0].parent} + PathNodes(c)
    {
      var i :| 0 <= i < |ctx| && ctx[i].parent == x;
      if i > 0 {
        assert c[i - 1] == ctx[i];
      }
    }
    forall x | x in PathNodes(c)
      ensures x in PathNodes(ctx)
    {
      var i :| 0 <= i < |c| && c[i].parent == x;
      assert ctx[i + 1] == c[i];
    }
  }

  /** Adding a frame below a path that holds. */
  lemma {:induction false} PathDown<T>(n: AVLNode<T>, f: Frame<T>, ctx: seq<Frame<T>>)
    requires PathHolds(f.parent, ctx) && FrameHolds(f, n)
    ensures PathHolds(n, [f] + ctx)
  {
    var c := [f] + ctx;
    forall i | 0 <= i < |c|
      ensures FrameHolds(c[i], Below(c, i, n))
    {
      if i == 0 {
        assert c[0] == f && Below(c, 0, n) == n;
      } else {
        assert c[i] == ctx[i - 1] && Below(c, i, n) == Below(ctx, i - 1, f.parent);
      }
    }
    assert c[|c| - 1] == if ctx == [] then f else ctx[|ctx| - 1];
  }

  /** A parent that holds the filled frame holds the frame over its child. */
  lemma HoldsFrame<T>(f: Frame<T>, s: Tree<T>)
    requires Holds(f.parent, Fill(f, s))
    ensures s.node.sub == s && FrameHolds(f, s.node)
  {
  }

  /**
   * Going down from a root that agrees with its tree, where every node
   * agrees with its own subtree: each node of the tree heads the subtree at
   * its position, and the frames above it hold.
   */
  lemma {:induction false} SubsAlong<T>(s: Tree<T>, ctx: seq<Frame<T>>)
    requires Distinct(Plug(s, ctx)) && Plug(s, ctx).node.sub == Plug(s, ctx) && Plug(s, ctx).node.parent == null
    requires forall n | n in Nodes(Plug(s, ctx)) :: Local(n)
    ensures s.node.sub == s && PathHolds(s.node, ctx)
    decreases |ctx|
  {
    if ctx != [] {
      var f := ctx[0];
      var u := Fill(f, s);
      assert Plug(u, ctx[1..]) == Plug(s, ctx);
      SubsAlong(u, ctx[1..]);
      PlugNodes(u, ctx[1..]);
      assert f.parent in Nodes(u);
      assert Local(f.parent);
      HoldsFrame(f, s);
      PathDown(s.node, f, ctx[1..]);
    }
  }
}
