/**
 * AVL balance on tree values: the rotations performed by `rotate`,
 * `left_rotate` and `right_rotate` (AVLTreeList.py:275-341), and the
 * invariants kept by the bottom-up walks of `fix_tree_insert` and
 * `fix_tree_delete` (AVLTreeList.py:254-272, 419-431).
 */
module Balance {
  import opened Wrappers
  import opened Trees

  /** Every real node has balance factor -1, 0 or 1. */
  ghost predicate Balanced<T>(t: Tree<T>)
  {
    t.Real? ==> Balanced(t.left) && Balanced(t.right) && -1 <= BF(t) <= 1
  }

  /** `left_rotate` on values: the right child becomes the root of the subtree. */
  function RotateLeft<T>(t: Tree<T>): Tree<T>
    requires t.Real? && t.right.Real?
  {
    var r := t.right;
    Real(Real(t.left, t.node, t.value, r.left), r.node, r.value, r.right)
  }

  /** `right_rotate` on values: the left child becomes the root of the subtree. */
  function RotateRight<T>(t: Tree<T>): Tree<T>
    requires t.Real? && t.left.Real?
  {
    var l := t.left;
    Real(l.left, l.node, l.value, Real(l.right, t.node, t.value, t.right))
  }

  lemma {:induction false} RotateLeftKeepsOrder<T>(t: Tree<T>)
    requires t.Real? && t.right.Real?
    ensures Elements(RotateLeft(t)) == Elements(t) && InOrder(RotateLeft(t)) == InOrder(t)
    ensures Nodes(RotateLeft(t)) == Nodes(t) && Size(RotateLeft(t)) == Size(t)
    ensures Distinct(RotateLeft(t)) <==> Distinct(t)
  {
  }

  lemma {:induction false} RotateRightKeepsOrder<T>(t: Tree<T>)
    requires t.Real? && t.left.Real?
    ensures Elements(RotateRight(t)) == Elements(t) && InOrder(RotateRight(t)) == InOrder(t)
    ensures Nodes(RotateRight(t)) == Nodes(t) && Size(RotateRight(t)) == Size(t)
    ensures Distinct(RotateRight(t)) <==> Distinct(t)
  {
  }

  /** The heavier side has height at least 1, so it is a real node. */
  ghost predicate NeedsRotation<T>(t: Tree<T>)
  {
    t.Real? && Abs(BF(t)) == 2
  }

  /**
   * The rotation `rotate` chooses for a node with balance factor 2 or -2:
   * a single rotation when the heavy child leans the same way or not at
   * all, a double rotation when it leans the other way.
   */
  function Rebalance<T>(t: Tree<T>): Tree<T>
    requires NeedsRotation(t)
  {
    if BF(t) < 0 then
      if BF(t.right) <= 0 then RotateLeft(t)
      else RotateLeft(Real(t.left, t.node, t.value, RotateRight(t.right)))
    else
      if BF(t.left) >= 0 then RotateRight(t)
      else RotateRight(Real(RotateLeft(t.left), t.node, t.value, t.right))
  }

  /** The value `rotate` returns: the number of single rotations it performs. */
  function RotationCount<T>(t: Tree<T>): nat
    requires NeedsRotation(t)
  {
    if BF(t) < 0 then (if BF(t.right) <= 0 then 1 else 2)
    else (if BF(t.left) >= 0 then 1 else 2)
  }

  lemma {:induction false} SingleLeftBalances<T>(t: Tree<T>)
    requires t.Real? && t.right.Real? && BF(t) == -2 && Balanced(t.left) && Balanced(t.right)
    requires BF(t.right) <= 0
    ensures Balanced(RotateLeft(t))
    ensures Height(RotateLeft(t)) == if BF(t.right) == 0 then Height(t) else Height(t) - 1
  {
    var r := t.right;
    assert Balanced(r.left) && Balanced(r.right);
    var inner := Real(t.left, t.node, t.value, r.left);
    assert Height(inner) == Height(r.left) + 1;
  }

  lemma {:induction false} DoubleLeftBalances<T>(t: Tree<T>)
    requires t.Real? && t.right.Real? && BF(t) == -2 && Balanced(t.left) && Balanced(t.right)
    requires BF(t.right) > 0
    ensures t.right.left.Real?
    ensures Balanced(RotateLeft(Real(t.left, t.node, t.value, RotateRight(t.right))))
    ensures Height(RotateLeft(Real(t.left, t.node, t.value, RotateRight(t.right)))) == Height(t) - 1
  {
    var r := t.right;
    var rl := r.left;
    assert Balanced(rl) && Balanced(r.right);
    assert Balanced(rl.left) && Balanced(rl.right);
    var a := Real(t.left, t.node, t.value, rl.left);
    var b := Real(rl.right, r.node, r.value, r.right);
    assert RotateLeft(Real(t.left, t.node, t.value, RotateRight(t.right))) == Real(a, rl.node, rl.value, b);
    assert Height(a) == Height(t.left) + 1;
    assert Height(b) == Height(r.right) + 1;
  }

  lemma {:induction false} SingleRightBalances<T>(t: Tree<T>)
    requires t.Real? && t.left.Real? && BF(t) == 2 && Balanced(t.left) && Balanced(t.right)
    requires BF(t.left) >= 0
    ensures Balanced(RotateRight(t))
    ensures Height(RotateRight(t)) == if BF(t.left) == 0 then Height(t) else Height(t) - 1
  {
    var l := t.left;
    assert Balanced(l.left) && Balanced(l.right);
    var inner := Real(l.right, t.node, t.value, t.right);
    assert Height(inner) == Height(l.right) + 1;
  }

  lemma {:induction false} DoubleRightBalances<T>(t: Tree<T>)
    requires t.Real? && t.left.Real? && BF(t) == 2 && Balanced(t.left) && Balanced(t.right)
    requires BF(t.left) < 0
    ensures t.left.right.Real?
    ensures Balanced(RotateRight(Real(RotateLeft(t.left), t.node, t.value, t.right)))
    ensures Height(RotateRight(Real(RotateLeft(t.left), t.node, t.value, t.right))) == Height(t) - 1
  {
    var l := t.left;
    var lr := l.right;
    assert Balanced(lr) && Balanced(l.left);
    assert Balanced(lr.left) && Balanced(lr.right);
    var a := Real(l.left, l.node, l.value, lr.left);
    var b := Real(lr.right, t.node, t.value, t.right);
    assert RotateRight(Real(RotateLeft(t.left), t.node, t.value, t.right)) == Real(a, lr.node, lr.value, b);
    assert Height(a) == Height(l.left) + 1;
    assert Height(b) == Height(t.right) + 1;
  }

  /**
   * A node whose subtrees are AVL trees and differ in height by two becomes
   * an AVL tree after `Rebalance`, with the same values in the same order and
   * the same nodes; it is one lower than before, or as high as before when
   * the heavy child had balance factor 0.
   */
  lemma {:induction false} RebalanceRestores<T>(t: Tree<T>)
    requires NeedsRotation(t) && Balanced(t.left) && Balanced(t.right)
    ensures Balanced(Rebalance(t))
    ensures Elements(Rebalance(t)) == Elements(t) && InOrder(Rebalance(t)) == InOrder(t)
    ensures Nodes(Rebalance(t)) == Nodes(t) && Size(Rebalance(t)) == Size(t)
    ensures Distinct(Rebalance(t)) <==> Distinct(t)
    ensures Rebalance(t).Real? && Rebalance(t).node in Nodes(t)
    ensures var heavy := if BF(t) < 0 then t.right else t.left;
      Height(Rebalance(t)) == (if BF(heavy) == 0 then Height(t) else Height(t) - 1)
    ensures 1 <= RotationCount(t) <= 2
  {
    if BF(t) < 0 {
      if BF(t.right) <= 0 {
        RotateLeftKeepsOrder(t);
        SingleLeftBalances(t);
      } else {
        var t' := Real(t.left, t.node, t.value, RotateRight(t.right));
        DoubleLeftBalances(t);
        RotateRightKeepsOrder(t.right);
        RotateLeftKeepsOrder(t');
      }
    } else {
      if BF(t.left) >= 0 {
        RotateRightKeepsOrder(t);
        SingleRightBalances(t);
      } else {
        var t' := Real(RotateLeft(t.left), t.node, t.value, t.right);
        DoubleRightBalances(t);
        RotateLeftKeepsOrder(t.left);
        RotateRightKeepsOrder(t');
      }
    }
  }

  /**
   * `rotate` as written (AVLTreeList.py:275-296): the test of line 293
   * reads the right child's balance factor where the left child's is meant,
   * and when no test matches, nothing (`None`) is returned.
   */
  function RotateAsWritten<T>(t: Tree<T>): Option<(Tree<T>, nat)>
    requires NeedsRotation(t)
  {
    if BF(t) == -2 then
      if BF(t.right) == -1 || BF(t.right) == 0 then Some((RotateLeft(t), 1))
      else if BF(t.right) == 1 then Some((RotateLeft(Real(t.left, t.node, t.value, RotateRight(t.right))), 2))
      else None
    else
      if BF(t.left) == -1 then Some((RotateRight(Real(RotateLeft(t.left), t.node, t.value, t.right)), 2))
      else if BF(t.left) == 1 || BF(t.right) == 0 then Some((RotateRight(t), 1))
      else None
  }

  /**
   * On a node with AVL subtrees the code as written does what `Rebalance`
   * does, except when the left side is two higher, the left child is level
   * and the right child leans: then it returns nothing.
   */
  lemma {:induction false} RotateAsWrittenAgrees<T>(t: Tree<T>)
    requires NeedsRotation(t) && Balanced(t.left) && Balanced(t.right)
    ensures RotateAsWritten(t) ==
      if BF(t) == 2 && BF(t.left) == 0 && BF(t.right) != 0 then None
      else Some((Rebalance(t), RotationCount(t)))
  {
    assert t.left.Real? ==> -1 <= BF(t.left) <= 1;
    assert t.right.Real? ==> -1 <= BF(t.right) <= 1;
  }

  /** The child on the higher side of a node, and the one on the other side. */
  function Heavy<T>(t: Tree<T>): Tree<T>
    requires t.Real?
  {
    if BF(t) < 0 then t.right else t.left
  }

  function Light<T>(t: Tree<T>): Tree<T>
    requires t.Real?
  {
    if BF(t) < 0 then t.left else t.right
  }

  /**
   * When the heavy child leans (either way), `Rebalance` leaves a level node
   * one level lower; when it is level, a node as high as before.
   */
  lemma {:induction false} RebalanceLevels<T>(t: Tree<T>)
    requires NeedsRotation(t) && Balanced(t.left) && Balanced(t.right)
    ensures Balanced(Rebalance(t)) && Rebalance(t).Real?
    ensures Height(Rebalance(t)) == (if BF(Heavy(t)) == 0 then Height(t) else Height(t) - 1)
    ensures BF(Heavy(t)) != 0 ==> BF(Rebalance(t)) == 0
  {
    if BF(t) < 0 {
      if BF(t.right) <= 0 {
        SingleLeftBalances(t);
        if BF(t.right) != 0 {
          SingleLeftLevels(t);
        }
      } else {
        DoubleLeftBalances(t);
        DoubleLeftLevels(t);
      }
    } else {
      if BF(t.left) >= 0 {
        SingleRightBalances(t);
        if BF(t.left) != 0 {
          SingleRightLevels(t);
        }
      } else {
        DoubleRightBalances(t);
        DoubleRightLevels(t);
      }
    }
  }

  lemma {:induction false} SingleLeftLevels<T>(t: Tree<T>)
    requires t.Real? && t.right.Real? && BF(t) == -2 && BF(t.right) == -1
    ensures BF(RotateLeft(t)) == 0
  {
    var r := t.right;
    assert Height(Real(t.left, t.node, t.value, r.left)) == Height(t.left) + 1;
  }

  lemma {:induction false} SingleRightLevels<T>(t: Tree<T>)
    requires t.Real? && t.left.Real? && BF(t) == 2 && BF(t.left) == 1
    ensures BF(RotateRight(t)) == 0
  {
    var l := t.left;
    assert Height(Real(l.right, t.node, t.value, t.right)) == Height(t.right) + 1;
  }

  lemma {:induction false} DoubleLeftLevels<T>(t: Tree<T>)
    requires t.Real? && t.right.Real? && BF(t) == -2 && BF(t.right) == 1 && Balanced(t.right)
    ensures t.right.left.Real?
    ensures BF(RotateLeft(Real(t.left, t.node, t.value, RotateRight(t.right)))) == 0
  {
    var r := t.right;
    var rl := r.left;
    assert Balanced(rl);
    var a := Real(t.left, t.node, t.value, rl.left);
    var b := Real(rl.right, r.node, r.value, r.right);
    assert RotateLeft(Real(t.left, t.node, t.value, RotateRight(t.right))) == Real(a, rl.node, rl.value, b);
    assert Height(a) == Height(t.left) + 1;
    assert Height(b) == Height(r.right) + 1;
  }

  lemma {:induction false} DoubleRightLevels<T>(t: Tree<T>)
    requires t.Real? && t.left.Real? && BF(t) == 2 && BF(t.left) == -1 && Balanced(t.left)
    ensures t.left.right.Real?
    ensures BF(RotateRight(Real(RotateLeft(t.left), t.node, t.value, t.right))) == 0
  {
    var l := t.left;
    var lr := l.right;
    assert Balanced(lr);
    var a := Real(l.left, l.node, l.value, lr.left);
    var b := Real(lr.right, t.node, t.value, t.right);
    assert RotateRight(Real(RotateLeft(t.left), t.node, t.value, t.right)) == Real(a, lr.node, lr.value, b);
    assert Height(a) == Height(l.left) + 1;
    assert Height(b) == Height(t.right) + 1;
  }

  /**
   * The test of line 293 as written makes no difference on a node whose
   * heavy child leans, nor on one whose light child is level.
   */
  lemma {:induction false} AsWrittenWhenLeaning<T>(t: Tree<T>)
    requires NeedsRotation(t) && Balanced(t.left) && Balanced(t.right)
    requires BF(Heavy(t)) != 0 || BF(Light(t)) == 0
    ensures RotateAsWritten(t) == Some((Rebalance(t), RotationCount(t)))
  {
    RotateAsWrittenAgrees(t);
  }

  /** The single rotations `rotate` performs at each of the nodes `rs`, added up. */
  ghost function Rotations<T>(rs: seq<Tree<T>>): int
  {
    if rs == [] then 0
    else Rotations(rs[..|rs| - 1]) + (if NeedsRotation(rs[|rs| - 1]) then RotationCount(rs[|rs| - 1]) else 0)
  }

  /** Every one of the nodes `rs` needs a rotation. */
  ghost predicate AllNeedRotation<T>(rs: seq<Tree<T>>)
  {
    forall r | r in rs :: NeedsRotation(r)
  }

  /** At each of the nodes `rs`, `rotate` as written makes the same rotations as `Rebalance`. */
  ghost predicate AsWritten<T>(rs: seq<Tree<T>>)
  {
    forall r | r in rs :: NeedsRotation(r) && RotateAsWritten(r) == Some((Rebalance(r), RotationCount(r)))
  }

  /** One more rotation at `t`: the count grows by its single rotations. */
  lemma {:induction false} RotationsSnoc<T>(rs: seq<Tree<T>>, t: Tree<T>)
    requires NeedsRotation(t) && AllNeedRotation(rs)
    ensures Rotations(rs + [t]) == Rotations(rs) + RotationCount(t) && AllNeedRotation(rs + [t])
  {
    assert (rs + [t])[..|rs|] == rs;
  }

  /** One more rotation at a node where the code as written agrees with `Rebalance`. */
  lemma {:induction false} AsWrittenSnoc<T>(rs: seq<Tree<T>>, t: Tree<T>)
    requires AsWritten(rs) && NeedsRotation(t) && Balanced(t.left) && Balanced(t.right)
    requires BF(Heavy(t)) != 0 || BF(Light(t)) == 0
    ensures AsWritten(rs + [t])
  {
    AsWrittenWhenLeaning(t);
  }

  // Where the walks rotate: each recorded subtree is the subtree the walk
  // has reached at one level of the path it climbs.

  /** `r` has the nodes and items of the subtree `k` levels above `t0` on the path `ctx`. */
  ghost predicate Reached<T>(r: Tree<T>, t0: Tree<T>, ctx: seq<Frame<T>>, k: int)
  {
    0 <= k <= |ctx| && Nodes(r) == Nodes(Plug(t0, ctx[..k])) && Elements(r) == Elements(Plug(t0, ctx[..k]))
  }

  /** `r` is, by its head, nodes and items, the subtree `k` levels above `t0` before any rotation there. */
  ghost predicate LevelOf<T>(r: Tree<T>, t0: Tree<T>, ctx: seq<Frame<T>>, k: int)
  {
    Reached(r, t0, ctx, k) && r.node == Plug(t0, ctx[..k]).node
  }

  /** The subtrees `rs` lie at strictly rising levels, all below `upto`, of the path `ctx` above `t0`. */
  ghost predicate Along<T>(rs: seq<Tree<T>>, t0: Tree<T>, ctx: seq<Frame<T>>, upto: int)
    decreases |rs|
  {
    rs == [] ||
    exists k {:trigger LevelOf(rs[|rs| - 1], t0, ctx, k)} | 0 <= k < upto ::
      LevelOf(rs[|rs| - 1], t0, ctx, k) && Along(rs[..|rs| - 1], t0, ctx, k)
  }

  /** `x` is a contiguous run of `e`. */
  ghost predicate Segment<T>(x: seq<T>, e: seq<T>)
  {
    exists i | 0 <= i <= |e| - |x| :: e[i..][..|x|] == x
  }

  /** A rotation at level `k` extends the record past that level. */
  lemma {:induction false} AlongSnoc<T>(rs: seq<Tree<T>>, t: Tree<T>, t0: Tree<T>, ctx: seq<Frame<T>>, k: int)
    requires Along(rs, t0, ctx, k) && LevelOf(t, t0, ctx, k)
    ensures Along(rs + [t], t0, ctx, k + 1)
  {
    var rs' := rs + [t];
    assert rs'[..|rs'| - 1] == rs && rs'[|rs'| - 1] == t;
    assert LevelOf(rs'[|rs'| - 1], t0, ctx, k);
  }

  /** A record below one level is below every higher one. */
  lemma {:induction false} AlongLater<T>(rs: seq<Tree<T>>, t0: Tree<T>, ctx: seq<Frame<T>>, a: int, b: int)
    requires Along(rs, t0, ctx, a) && a <= b
    ensures Along(rs, t0, ctx, b)
  {
    if rs != [] {
      var k :| 0 <= k < a && LevelOf(rs[|rs| - 1], t0, ctx, k) && Along(rs[..|rs| - 1], t0, ctx, k);
    }
  }

  /** One subtree per level: a record below level `upto` has at most `upto` entries. */
  lemma {:induction false} AlongLength<T>(rs: seq<Tree<T>>, t0: Tree<T>, ctx: seq<Frame<T>>, upto: int)
    requires Along(rs, t0, ctx, upto) && 0 <= upto
    ensures |rs| <= upto
    decreases |rs|
  {
    if rs != [] {
      var k :| 0 <= k < upto && LevelOf(rs[|rs| - 1], t0, ctx, k) && Along(rs[..|rs| - 1], t0, ctx, k);
      AlongLength(rs[..|rs| - 1], t0, ctx, k);
    }
  }

  /** The subtree at a level holds a contiguous run of the whole tree's items, and none but its nodes. */
  lemma {:induction false} ReachedSegment<T>(r: Tree<T>, t0: Tree<T>, ctx: seq<Frame<T>>, k: int)
    requires Reached(r, t0, ctx, k)
    ensures Nodes(r) <= Nodes(Plug(t0, ctx)) && Segment(Elements(r), Elements(Plug(t0, ctx)))
  {
    var s, up := Plug(t0, ctx[..k]), ctx[k..];
    assert ctx == ctx[..k] + up;
    PlugConcat(t0, ctx[..k], up);
    PlugElements(s, up);
    PlugNodes(s, up);
    var e, i := Elements(Plug(t0, ctx)), |PreElems(up)|;
    assert e[i..][..|Elements(r)|] == Elements(r);
  }

  /** Every subtree of the record holds a run of the whole tree's items, and none but its nodes. */
  lemma {:induction false} AlongSegments<T>(rs: seq<Tree<T>>, t0: Tree<T>, ctx: seq<Frame<T>>, upto: int)
    requires Along(rs, t0, ctx, upto)
    ensures forall r | r in rs :: Nodes(r) <= Nodes(Plug(t0, ctx)) && Segment(Elements(r), Elements(Plug(t0, ctx)))
    decreases |rs|
  {
    if rs != [] {
      var k :| 0 <= k < upto && LevelOf(rs[|rs| - 1], t0, ctx, k) && Along(rs[..|rs| - 1], t0, ctx, k);
      AlongSegments(rs[..|rs| - 1], t0, ctx, k);
      ReachedSegment(rs[|rs| - 1], t0, ctx, k);
      assert rs == rs[..|rs| - 1] + [rs[|rs| - 1]];
    }
  }

  /** Climbing one frame from a subtree with the nodes and items of level `k` reaches level `k + 1`. */
  lemma {:induction false} LevelClimb<T>(t: Tree<T>, t0: Tree<T>, ctx: seq<Frame<T>>, k: int)
    requires k < |ctx| && Reached(t, t0, ctx, k)
    ensures LevelOf(Fill(ctx[k], t), t0, ctx, k + 1) && ctx[k + 1..] == ctx[k..][1..]
  {
    assert ctx[..k + 1] == ctx[..k] + [ctx[k]];
    PlugConcat(t0, ctx[..k], [ctx[k]]);
  }

  /** A perfect tree of height `h` (every node is `n`, holding `x`). */
  ghost function Full<T>(n: AVLNode<T>, x: T, h: nat): Tree<T>
  {
    if h == 0 then Real(Virtual(n), n, x, Virtual(n)) else Real(Full(n, x, h - 1), n, x, Full(n, x, h - 1))
  }

  lemma {:induction false} FullBalanced<T>(n: AVLNode<T>, x: T, h: nat)
    ensures Balanced(Full(n, x, h)) && Height(Full(n, x, h)) == h
  {
    if h > 0 {
      FullBalanced(n, x, h - 1);
    }
  }

  /**
   * A node with the heights and balance factors of the one `concat`
   * repairs after joining a list of seven items to one of ten: its left
   * child is level and has height 3 (as the joined subtree does), its right
   * child has height 1 and leans left. The node needs a rotation, its
   * subtrees are AVL trees, and the code as written returns nothing for it,
   * while `Rebalance` balances it. (The shape stands for that node; it is
   * not built by running `concat`.)
   */
  lemma {:induction false} RotateAsWrittenFallsThrough<T>(n: AVLNode<T>, x: T)
    ensures var j := Real(Full(n, x, 2), n, x, Full(n, x, 2));
      var r := Real(Full(n, x, 0), n, x, Virtual(n));
      var p := Real(j, n, x, r);
      NeedsRotation(p) && Balanced(p.left) && Balanced(p.right) &&
      RotateAsWritten(p) == None && Balanced(Rebalance(p))
  {
    FullBalanced(n, x, 2);
    FullBalanced(n, x, 0);
    var j := Real(Full(n, x, 2), n, x, Full(n, x, 2));
    var r := Real(Full(n, x, 0), n, x, Virtual(n));
    RebalanceRestores(Real(j, n, x, r));
  }

  /** What the fix-up walks do at one node: rotate when it is out of balance. */
  function Process<T>(t: Tree<T>): Tree<T>
    requires t.Real?
  {
    if Abs(BF(t)) == 2 then Rebalance(t) else t
  }

  /** A node the walks can repair: AVL subtrees whose heights differ by at most two. */
  ghost predicate Repairable<T>(t: Tree<T>)
  {
    t.Real? && Balanced(t.left) && Balanced(t.right) && -2 <= BF(t) <= 2
  }

  lemma {:induction false} ProcessRestores<T>(t: Tree<T>)
    requires Repairable(t)
    ensures Balanced(Process(t)) && Process(t).Real?
    ensures Elements(Process(t)) == Elements(t) && InOrder(Process(t)) == InOrder(t)
    ensures Nodes(Process(t)) == Nodes(t) && Size(Process(t)) == Size(t)
    ensures Distinct(Process(t)) <==> Distinct(t)
    ensures Height(t) - 1 <= Height(Process(t)) <= Height(t)
  {
    if Abs(BF(t)) == 2 {
      RebalanceRestores(t);
    }
  }

  /** The part of `ProcessRestores` the walks' height bookkeeping needs. */
  lemma {:induction false} ProcessHeight<T>(t: Tree<T>)
    requires Repairable(t)
    ensures Balanced(Process(t)) && Process(t).Real?
    ensures Height(t) - 1 <= Height(Process(t)) <= Height(t)
    ensures Abs(BF(t)) < 2 ==> Process(t) == t
  {
    ProcessRestores(t);
  }

  // ---------------------------------------------------------------------
  // The ancestors of the updated position, as they were before the update.

  /**
   * Above a subtree that had height `h`, every ancestor was balanced: each
   * sibling is an AVL tree and differs in height from the subtree beside it
   * by at most one.
   */
  ghost predicate OldBalanced<T>(ctx: seq<Frame<T>>, h: int)
    decreases |ctx|
  {
    ctx == [] ||
    (Balanced(ctx[0].sibling) && -1 <= h - Height(ctx[0].sibling) <= 1 &&
     OldBalanced(ctx[1..], Max(h, Height(ctx[0].sibling)) + 1))
  }

  /** The height, before the update, of the parent of the subtree. */
  ghost function ParentHeight<T>(ctx: seq<Frame<T>>, h: int): int
    requires ctx != []
  {
    Max(h, Height(ctx[0].sibling)) + 1
  }

  /** The height of the whole tree around a subtree of height `h`. */
  ghost function TopHeight<T>(ctx: seq<Frame<T>>, h: int): int
    decreases |ctx|
  {
    if ctx == [] then h else TopHeight(ctx[1..], Max(h, Height(ctx[0].sibling)) + 1)
  }

  /** One frame put around a subtree: its height, and when it is balanced. */
  lemma {:induction false} FillBalanced<T>(f: Frame<T>, t: Tree<T>)
    ensures Height(Fill(f, t)) == Max(Height(t), Height(f.sibling)) + 1
    ensures Balanced(Fill(f, t)) <==> Balanced(t) && Balanced(f.sibling) && -1 <= Height(t) - Height(f.sibling) <= 1
  {
  }

  /** A balanced tree, taken apart at any subtree, has balanced ancestors above it. */
  lemma {:induction false} PlugBalanced<T>(t: Tree<T>, ctx: seq<Frame<T>>)
    requires Balanced(Plug(t, ctx))
    ensures Balanced(t) && OldBalanced(ctx, Height(t))
    ensures TopHeight(ctx, Height(t)) == Height(Plug(t, ctx))
    decreases |ctx|
  {
    if ctx != [] {
      FillBalanced(ctx[0], t);
      PlugBalanced(Fill(ctx[0], t), ctx[1..]);
    }
  }

  // ---------------------------------------------------------------------
  // The walk of `fix_tree_delete`, used by `delete` and `concat`.

  /**
   * How high the subtree may be once processed, given its height `oldH`
   * before the update. With `shrink` (after a deletion) it lost at most one
   * level. Otherwise (after joining) it may differ by one, or on the first
   * step of a join be two higher when its sibling is one higher.
   */
  ghost predicate Fits<T>(hs: int, oldH: int, ctx: seq<Frame<T>>, shrink: bool)
  {
    if shrink then oldH - 1 <= hs <= oldH
    else (ctx == [] || oldH - 1 <= hs <= oldH + 1 ||
          (hs == oldH + 2 && Height(ctx[0].sibling) == oldH + 1))
  }

  /** The loop invariant of `fix_tree_delete` at node `t` with frames `ctx` above it. */
  ghost predicate DeleteWalk<T>(t: Tree<T>, oldH: int, ctx: seq<Frame<T>>, shrink: bool)
  {
    Repairable(t) && OldBalanced(ctx, oldH) && Fits(Height(Process(t)), oldH, ctx, shrink)
  }

  /** Climbing one level keeps the invariant of `fix_tree_delete`. */
  lemma {:induction false} DeleteWalkStep<T>(t: Tree<T>, oldH: int, ctx: seq<Frame<T>>, shrink: bool)
    requires DeleteWalk(t, oldH, ctx, shrink) && ctx != []
    ensures Balanced(Process(t))
    ensures DeleteWalk(Fill(ctx[0], Process(t)), ParentHeight(ctx, oldH), ctx[1..], shrink)
  {
    ProcessHeight(t);
    var t' := Fill(ctx[0], Process(t));
    FillBalanced(ctx[0], Process(t));
    assert Repairable(t');
    ProcessHeight(t');
    assert OldBalanced(ctx[1..], ParentHeight(ctx, oldH));
  }

  /** After a rotation the walk revisits the new root of the subtree. */
  lemma {:induction false} DeleteWalkRevisit<T>(t: Tree<T>, oldH: int, ctx: seq<Frame<T>>, shrink: bool)
    requires DeleteWalk(t, oldH, ctx, shrink)
    ensures DeleteWalk(Process(t), oldH, ctx, shrink)
  {
    ProcessRestores(t);
  }

  /** At the root the walk leaves an AVL tree. */
  lemma {:induction false} DeleteWalkDone<T>(t: Tree<T>, oldH: int, shrink: bool)
    requires DeleteWalk(t, oldH, [], shrink)
    ensures Balanced(Process(t))
    ensures shrink ==> oldH - 1 <= Height(Process(t)) <= oldH
  {
    ProcessRestores(t);
  }

  /**
   * Removing a node with at most one child from a balanced tree (the
   * subtree `t` becomes `s`, at most one level lower) leaves the walk's
   * invariant at its parent.
   */
  lemma {:induction false} ShrinkStart<T>(t: Tree<T>, s: Tree<T>, ctx: seq<Frame<T>>)
    requires Balanced(t) && OldBalanced(ctx, Height(t)) && ctx != []
    requires Balanced(s) && Height(t) - 1 <= Height(s) <= Height(t)
    ensures DeleteWalk(Fill(ctx[0], s), ParentHeight(ctx, Height(t)), ctx[1..], true)
  {
    var u := Fill(ctx[0], s);
    FillBalanced(ctx[0], s);
    assert OldBalanced(ctx[1..], ParentHeight(ctx, Height(t)));
    assert Repairable(u);
    ProcessHeight(u);
  }

  /**
   * What the delete walk keeps after a deletion besides its invariant: a
   * subtree that lost a level is level once processed, and at a node out of
   * balance the lower child (the one that lost a level) is level.
   */
  ghost predicate Settled<T>(t: Tree<T>, oldH: int)
  {
    t.Real? &&
    (Height(Process(t)) < oldH ==> BF(Process(t)) == 0) &&
    (Abs(BF(t)) == 2 ==> BF(Light(t)) == 0)
  }

  /** The removed node gives way to a level subtree (a leaf or a virtual node). */
  lemma {:induction false} SettledStart<T>(t: Tree<T>, s: Tree<T>, ctx: seq<Frame<T>>)
    requires Balanced(t) && OldBalanced(ctx, Height(t)) && ctx != []
    requires Balanced(s) && Height(t) - 1 <= Height(s) <= Height(t) && BF(s) == 0
    ensures Settled(Fill(ctx[0], s), ParentHeight(ctx, Height(t)))
  {
    var u := Fill(ctx[0], s);
    FillBalanced(ctx[0], s);
    if Abs(BF(u)) == 2 {
      RebalanceLevels(u);
    }
  }

  /** Climbing one level after a deletion keeps `Settled`. */
  lemma {:induction false} SettledStep<T>(t: Tree<T>, oldH: int, ctx: seq<Frame<T>>)
    requires DeleteWalk(t, oldH, ctx, true) && Settled(t, oldH) && ctx != []
    ensures Settled(Fill(ctx[0], Process(t)), ParentHeight(ctx, oldH))
  {
    ProcessHeight(t);
    var u := Fill(ctx[0], Process(t));
    FillBalanced(ctx[0], Process(t));
    assert Balanced(ctx[0].sibling) && -1 <= oldH - Height(ctx[0].sibling) <= 1;
    if Abs(BF(u)) == 2 {
      RebalanceLevels(u);
    }
  }

  /** After a rotation the new root of the subtree is settled too. */
  lemma {:induction false} SettledRevisit<T>(t: Tree<T>, oldH: int, ctx: seq<Frame<T>>)
    requires DeleteWalk(t, oldH, ctx, true) && Settled(t, oldH) && Abs(BF(t)) == 2
    ensures Settled(Rebalance(t), oldH)
  {
    ProcessHeight(t);
  }

  /** The frames of a path, split in two: the lower part and the upper part above it. */
  lemma {:induction false} OldBalancedConcat<T>(c1: seq<Frame<T>>, c2: seq<Frame<T>>, h: int)
    ensures OldBalanced(c1 + c2, h) <==> OldBalanced(c1, h) && OldBalanced(c2, TopHeight(c1, h))
    ensures TopHeight(c1 + c2, h) == TopHeight(c2, TopHeight(c1, h))
    decreases |c1|
  {
    if c1 == [] {
      assert c1 + c2 == c2;
    } else {
      assert (c1 + c2)[0] == c1[0] && (c1 + c2)[1..] == c1[1..] + c2;
      OldBalancedConcat(c1[1..], c2, Max(h, Height(c1[0].sibling)) + 1);
    }
  }

  /**
   * `concat` joins a subtree `c` (of the taller tree) and an AVL tree `a`
   * under a new middle node; when `c` is one lower than `a` its old parent
   * was one higher than `c`, which gives the walk's invariant at the new node.
   */
  lemma {:induction false} JoinStart<T>(t: Tree<T>, c: Tree<T>, ctx: seq<Frame<T>>)
    requires t.Real? && (t.left == c || t.right == c)
    requires Balanced(t.left) && Balanced(t.right) && OldBalanced(ctx, Height(c))
    requires var a := if t.left == c then t.right else t.left;
      Height(c) <= Height(a) <= Height(c) + 1 &&
      (Height(c) == Height(a) - 1 ==> ctx != [] && Height(ctx[0].sibling) == Height(c) + 1)
    ensures DeleteWalk(t, Height(c), ctx, false)
  {
  }

  // ---------------------------------------------------------------------
  // The walk of `fix_tree_insert`.

  /**
   * The loop invariant of `fix_tree_insert` at node `t` whose subtree had
   * height `oldH` before the insertion. While `rotate` holds the subtree has
   * grown by at most one level and processing it leaves it balanced; a grown
   * subtree leans to one side; and a rotation restores the old height. Once
   * `rotate` is off the subtree is balanced and as high as before.
   */
  ghost predicate InsertWalk<T>(t: Tree<T>, oldH: int, ctx: seq<Frame<T>>, rotate: bool)
  {
    t.Real? && Balanced(t.left) && Balanced(t.right) && OldBalanced(ctx, oldH) &&
    if rotate then
      -2 <= BF(t) <= 2 &&
      oldH <= Height(Process(t)) <= oldH + 1 &&
      (Height(Process(t)) == oldH + 1 && oldH >= 0 ==> BF(Process(t)) != 0) &&
      (Abs(BF(t)) == 2 ==> Height(Process(t)) == oldH)
    else
      -1 <= BF(t) <= 1 && Height(t) == oldH
  }

  /**
   * A new leaf in place of a virtual node starts the walk at the leaf
   * itself, whose cached height is still the virtual node's -1.
   */
  lemma {:induction false} InsertStart<T>(v: Tree<T>, leaf: Tree<T>, ctx: seq<Frame<T>>)
    requires Balanced(Plug(v, ctx)) && v.Virtual?
    requires leaf.Real? && leaf.left.Virtual? && leaf.right.Virtual?
    ensures InsertWalk(leaf, -1, ctx, true)
    ensures TopHeight(ctx, -1) == Height(Plug(v, ctx))
  {
    PlugBalanced(v, ctx);
  }

  /** Climbing one level without rotating keeps the invariant of `fix_tree_insert`. */
  lemma {:induction false} InsertWalkStep<T>(t: Tree<T>, oldH: int, ctx: seq<Frame<T>>, rotate: bool)
    requires InsertWalk(t, oldH, ctx, rotate) && ctx != []
    requires rotate ==> Abs(BF(t)) < 2
    ensures Balanced(t)
    ensures InsertWalk(Fill(ctx[0], t), ParentHeight(ctx, oldH), ctx[1..], rotate && Height(t) != oldH)
  {
    var t' := Fill(ctx[0], t);
    FillBalanced(ctx[0], t);
    assert OldBalanced(ctx[1..], ParentHeight(ctx, oldH));
    if rotate && Height(t) != oldH && Abs(BF(t')) == 2 {
      RebalanceRestores(t');
    }
  }

  /** A rotation ends the rotating phase: the subtree is back to its old height. */
  lemma {:induction false} InsertWalkRevisit<T>(t: Tree<T>, oldH: int, ctx: seq<Frame<T>>)
    requires InsertWalk(t, oldH, ctx, true) && Abs(BF(t)) == 2
    ensures InsertWalk(Rebalance(t), oldH, ctx, false)
    ensures Balanced(Rebalance(t))
  {
    RebalanceRestores(t);
  }

  /** At the root the walk leaves an AVL tree at most one level higher. */
  lemma {:induction false} InsertWalkDone<T>(t: Tree<T>, oldH: int, rotate: bool)
    requires InsertWalk(t, oldH, [], rotate) && (rotate ==> Abs(BF(t)) < 2)
    ensures Balanced(t) && oldH <= Height(t) <= oldH + 1
  {
  }

  /**
   * What the insert walk keeps while it looks for a rotation: a node out of
   * balance is heavy on the side that grew, and that child leans.
   */
  ghost predicate Leaning<T>(t: Tree<T>)
  {
    t.Real? && Abs(BF(t)) == 2 ==> BF(Heavy(t)) != 0
  }

  /** A grown subtree that did not need a rotation leaves its parent `Leaning`. */
  lemma {:induction false} LeaningStep<T>(t: Tree<T>, oldH: int, ctx: seq<Frame<T>>)
    requires InsertWalk(t, oldH, ctx, true) && ctx != [] && Abs(BF(t)) < 2 && Height(t) != oldH
    ensures Leaning(Fill(ctx[0], t))
  {
    FillBalanced(ctx[0], t);
    assert -1 <= oldH - Height(ctx[0].sibling) <= 1;
  }
}
