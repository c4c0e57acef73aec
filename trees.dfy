/**
 * The nodes of an AVL tree list and the shape they form, as a value.
 *
 * `AVLNode` is the mutable node of the source. Besides its fields it carries
 * a ghost field `sub`: the subtree it heads, as a `Tree` value. A `Tree`
 * records, for every node of the structure, which object it is and which
 * value it holds; module `Links` says when the fields of the nodes agree
 * with it.
 *
 * A `Frame` is one step of the path from a subtree up to the root (a
 * zipper): the parent, its value, the sibling subtree, and whether the
 * subtree is the parent's left child. Frames are listed innermost first,
 * which is the order in which the fix-up walks climb the parent links.
 */
module Trees {
  import opened Wrappers

  /**
   * A node (AVLTreeList.py:8-20). A node whose `value` is `None` is a
   * virtual (sentinel) node standing for an absent child; every real node
   * has two children, each real or virtual.
   */
  class AVLNode<T> {
    var value: Option<T>
    var left: AVLNode?<T>
    var right: AVLNode?<T>
    var parent: AVLNode?<T>
    var height: int
    var size: int  // number of real nodes in the subtree rooted here
    var bf: int    // balance factor: left height minus right height
    ghost var sub: Tree<T>

    /** A fresh node has no links, height -1, size 1 and balance factor 0; it heads a virtual tree. */
    constructor (value: Option<T>)
      ensures this.value == value
      ensures left == null && right == null && parent == null
      ensures height == -1 && size == 1 && bf == 0 && sub == Virtual(this)
    {
      this.value := value;
      left := null;
      right := null;
      parent := null;
      height := -1;
      size := 1;
      bf := 0;
      sub := Virtual(this);
    }
  }

  datatype Tree<T> =
    | Virtual(node: AVLNode<T>)
    | Real(left: Tree<T>, node: AVLNode<T>, value: T, right: Tree<T>)

  datatype Frame<T> = Frame(isLeft: bool, parent: AVLNode<T>, value: T, sibling: Tree<T>)

  function Max(a: int, b: int): int { if a < b then b else a }

  function Abs(a: int): int { if a < 0 then -a else a }

  /** Number of real nodes. */
  function Size<T>(t: Tree<T>): nat
  {
    match t
    case Virtual(_) => 0
    case Real(l, _, _, r) => Size(l) + Size(r) + 1
  }

  /** Height, with -1 for a virtual node. */
  function Height<T>(t: Tree<T>): (h: int)
    ensures h >= -1
    ensures t.Real? <==> h >= 0
  {
    match t
    case Virtual(_) => -1
    case Real(l, _, _, r) => Max(Height(l), Height(r)) + 1
  }

  /** Balance factor: left height minus right height (0 for a virtual node). */
  function BF<T>(t: Tree<T>): int
  {
    if t.Real? then Height(t.left) - Height(t.right) else 0
  }

  /** The values of the real nodes, in order: the list the tree stands for. */
  ghost function Elements<T>(t: Tree<T>): seq<T>
  {
    match t
    case Virtual(_) => []
    case Real(l, _, v, r) => Elements(l) + [v] + Elements(r)
  }

  /** The real nodes themselves, in order. */
  ghost function InOrder<T>(t: Tree<T>): seq<AVLNode<T>>
  {
    match t
    case Virtual(_) => []
    case Real(l, n, _, r) => InOrder(l) + [n] + InOrder(r)
  }

  /** Every node object of the tree, virtual ones included. */
  ghost function Nodes<T>(t: Tree<T>): set<AVLNode<T>>
  {
    match t
    case Virtual(n) => {n}
    case Real(l, n, _, r) => Nodes(l) + {n} + Nodes(r)
  }

  /** No node object occurs twice: the structure is a tree, not a graph. */
  ghost predicate Distinct<T>(t: Tree<T>)
  {
    match t
    case Virtual(_) => true
    case Real(l, n, _, r) =>
      Distinct(l) && Distinct(r) && n !in Nodes(l) && n !in Nodes(r) && Nodes(l) !! Nodes(r)
  }

  /** Every node object of a tree in hand is allocated. */
  lemma {:induction false} NodesAllocated<T>(t: Tree<T>)
    ensures forall n | n in Nodes(t) :: allocated(n)
  {
    if t.Real? {
      NodesAllocated(t.left);
      NodesAllocated(t.right);
    }
  }

  /** One level down a real tree: its nodes, and what `Distinct` says about its parts. */
  lemma Split<T>(t: Tree<T>)
    requires t.Real?
    ensures Nodes(t) == Nodes(t.left) + {t.node} + Nodes(t.right)
    ensures t.left.node in Nodes(t.left) && t.right.node in Nodes(t.right)
    ensures Distinct(t) ==>
      Distinct(t.left) && Distinct(t.right) && Nodes(t.left) !! Nodes(t.right) &&
      t.node !in Nodes(t.left) && t.node !in Nodes(t.right)
  {
  }

  lemma {:induction false} SizeCounts<T>(t: Tree<T>)
    ensures |Elements(t)| == Size(t) && |InOrder(t)| == Size(t)
  {
    if t.Real? {
      SizeCounts(t.left);
      SizeCounts(t.right);
    }
  }

  lemma {:induction false} InOrderInNodes<T>(t: Tree<T>)
    ensures forall i | 0 <= i < |InOrder(t)| :: InOrder(t)[i] in Nodes(t)
  {
    if t.Real? {
      InOrderInNodes(t.left);
      InOrderInNodes(t.right);
    }
  }

  /** Where the i-th real node of a tree lies: in the left subtree, at the root or in the right subtree. */
  lemma {:induction false} InOrderParts<T>(t: Tree<T>)
    requires t.Real?
    ensures InOrder(t) == InOrder(t.left) + [t.node] + InOrder(t.right)
    ensures forall i | 0 <= i < |InOrder(t.left)| :: InOrder(t)[i] == InOrder(t.left)[i]
    ensures InOrder(t)[|InOrder(t.left)|] == t.node
    ensures forall i | |InOrder(t.left)| < i < |InOrder(t)| ::
      InOrder(t)[i] == InOrder(t.right)[i - |InOrder(t.left)| - 1]
  {
    var a, b := InOrder(t.left), InOrder(t.right);
    var s := a + [t.node] + b;
    assert InOrder(t) == s;
    assert forall i | 0 <= i < |a| :: s[i] == a[i];
    assert forall i | |a| < i < |s| :: s[i] == b[i - |a| - 1];
  }

  lemma {:induction false} ElementsParts<T>(t: Tree<T>)
    requires t.Real?
    ensures Elements(t) == Elements(t.left) + [t.value] + Elements(t.right)
    ensures forall i | 0 <= i < |Elements(t.left)| :: Elements(t)[i] == Elements(t.left)[i]
    ensures Elements(t)[|Elements(t.left)|] == t.value
    ensures forall i | |Elements(t.left)| < i < |Elements(t)| ::
      Elements(t)[i] == Elements(t.right)[i - |Elements(t.left)| - 1]
  {
    var a, b := Elements(t.left), Elements(t.right);
    var s := a + [t.value] + b;
    assert Elements(t) == s;
    assert forall i | 0 <= i < |a| :: s[i] == a[i];
    assert forall i | |a| < i < |s| :: s[i] == b[i - |a| - 1];
  }

  /** An index at which `x` occurs in `s`: the first one. */
  ghost function IndexOf<X>(s: seq<X>, x: X): (i: nat)
    requires x in s
    ensures i < |s| && s[i] == x
  {
    if s[0] == x then 0 else IndexOf(s[1..], x) + 1
  }

  /** In a tree without shared nodes, a real node has one position only. */
  lemma {:induction false} InOrderInjective<T>(t: Tree<T>, i: int, j: int)
    requires Distinct(t)
    requires 0 <= i < |InOrder(t)| && 0 <= j < |InOrder(t)|
    requires InOrder(t)[i] == InOrder(t)[j]
    ensures i == j
  {
    var n := |InOrder(t.left)|;
    InOrderParts(t);
    InOrderInNodes(t.left);
    InOrderInNodes(t.right);
    if i < n && j < n {
      InOrderInjective(t.left, i, j);
    } else if i > n && j > n {
      InOrderInjective(t.right, i - n - 1, j - n - 1);
    } else if i != j {
      assert false;
    }
  }

  // ---------------------------------------------------------------------
  // Zippers: a subtree together with the path from it up to the root.

  /** Put `t` back in the hole of frame `f`. */
  function Fill<T>(f: Frame<T>, t: Tree<T>): Tree<T>
  {
    if f.isLeft then Real(t, f.parent, f.value, f.sibling) else Real(f.sibling, f.parent, f.value, t)
  }

  /** Rebuild the whole tree from a subtree and the frames above it. */
  function Plug<T>(t: Tree<T>, ctx: seq<Frame<T>>): Tree<T>
    decreases |ctx|
  {
    if ctx == [] then t else Plug(Fill(ctx[0], t), ctx[1..])
  }

  /** The parent of the subtree at the hole, `null` at the root. */
  ghost function Up<T>(ctx: seq<Frame<T>>): AVLNode?<T>
  {
    if ctx == [] then null else ctx[0].parent
  }

  ghost function CtxNodes<T>(ctx: seq<Frame<T>>): set<AVLNode<T>>
    decreases |ctx|
  {
    if ctx == [] then {} else {ctx[0].parent} + Nodes(ctx[0].sibling) + CtxNodes(ctx[1..])
  }

  ghost predicate CtxDistinct<T>(ctx: seq<Frame<T>>)
    decreases |ctx|
  {
    ctx == [] ||
    (Distinct(ctx[0].sibling) &&
     ctx[0].parent !in Nodes(ctx[0].sibling) && ctx[0].parent !in CtxNodes(ctx[1..]) &&
     Nodes(ctx[0].sibling) !! CtxNodes(ctx[1..]) &&
     CtxDistinct(ctx[1..]))
  }

  lemma {:induction false} CtxAllocated<T>(ctx: seq<Frame<T>>)
    ensures forall n | n in CtxNodes(ctx) :: allocated(n)
    decreases |ctx|
  {
    if ctx != [] {
      NodesAllocated(ctx[0].sibling);
      CtxAllocated(ctx[1..]);
    }
  }

  /** Below at least one frame, the root does not depend on what fills the hole. */
  lemma {:induction false} PlugRoot<T>(a: Tree<T>, b: Tree<T>, ctx: seq<Frame<T>>)
    requires ctx != []
    ensures Plug(a, ctx).node == Plug(b, ctx).node && Plug(a, ctx).node in CtxNodes(ctx)
    decreases |ctx|
  {
    if ctx[1..] != [] {
      PlugRoot(Fill(ctx[0], a), Fill(ctx[0], b), ctx[1..]);
    }
  }

  /** Below at least one frame, the subtree's top node is not the root of a tree without shared nodes. */
  lemma {:induction false} HoleNotRoot<T>(s: Tree<T>, ctx: seq<Frame<T>>)
    requires ctx != [] && Distinct(Plug(s, ctx))
    ensures s.node != Plug(s, ctx).node
  {
    PlugRoot(s, s, ctx);
    PlugDistinct(s, ctx);
    assert s.node in Nodes(s);
  }

  /** The values that come before the hole in order. */
  ghost function PreElems<T>(ctx: seq<Frame<T>>): seq<T>
    decreases |ctx|
  {
    if ctx == [] then []
    else PreElems(ctx[1..]) + (if ctx[0].isLeft then [] else Elements(ctx[0].sibling) + [ctx[0].value])
  }

  /** The values that come after the hole in order. */
  ghost function PostElems<T>(ctx: seq<Frame<T>>): seq<T>
    decreases |ctx|
  {
    if ctx == [] then []
    else (if ctx[0].isLeft then [ctx[0].value] + Elements(ctx[0].sibling) else []) + PostElems(ctx[1..])
  }

  ghost function PreNodes<T>(ctx: seq<Frame<T>>): seq<AVLNode<T>>
    decreases |ctx|
  {
    if ctx == [] then []
    else PreNodes(ctx[1..]) + (if ctx[0].isLeft then [] else InOrder(ctx[0].sibling) + [ctx[0].parent])
  }

  ghost function PostNodes<T>(ctx: seq<Frame<T>>): seq<AVLNode<T>>
    decreases |ctx|
  {
    if ctx == [] then []
    else (if ctx[0].isLeft then [ctx[0].parent] + InOrder(ctx[0].sibling) else []) + PostNodes(ctx[1..])
  }

  lemma {:induction false} PlugElements<T>(t: Tree<T>, ctx: seq<Frame<T>>)
    ensures Elements(Plug(t, ctx)) == PreElems(ctx) + Elements(t) + PostElems(ctx)
    decreases |ctx|
  {
    if ctx != [] {
      PlugElements(Fill(ctx[0], t), ctx[1..]);
    }
  }

  lemma {:induction false} PlugInOrder<T>(t: Tree<T>, ctx: seq<Frame<T>>)
    ensures InOrder(Plug(t, ctx)) == PreNodes(ctx) + InOrder(t) + PostNodes(ctx)
    decreases |ctx|
  {
    if ctx != [] {
      PlugInOrder(Fill(ctx[0], t), ctx[1..]);
    }
  }

  lemma {:induction false} PlugNodes<T>(t: Tree<T>, ctx: seq<Frame<T>>)
    ensures Nodes(Plug(t, ctx)) == Nodes(t) + CtxNodes(ctx)
    decreases |ctx|
  {
    if ctx != [] {
      PlugNodes(Fill(ctx[0], t), ctx[1..]);
    }
  }

  /** A plugged tree has no shared nodes exactly when its parts have none and are disjoint. */
  lemma {:induction false} PlugDistinct<T>(t: Tree<T>, ctx: seq<Frame<T>>)
    ensures Distinct(Plug(t, ctx)) <==> Distinct(t) && CtxDistinct(ctx) && Nodes(t) !! CtxNodes(ctx)
    decreases |ctx|
  {
    if ctx != [] {
      PlugDistinct(Fill(ctx[0], t), ctx[1..]);
    }
  }

  /** Subtrees with the same values, nodes and sharing, put in the same place, give trees that agree in these. */
  lemma {:induction false} PlugReplace<T>(a: Tree<T>, b: Tree<T>, ctx: seq<Frame<T>>)
    requires Elements(a) == Elements(b) && Nodes(a) == Nodes(b) && (Distinct(a) <==> Distinct(b))
    ensures Elements(Plug(a, ctx)) == Elements(Plug(b, ctx)) && Nodes(Plug(a, ctx)) == Nodes(Plug(b, ctx))
    ensures Distinct(Plug(a, ctx)) <==> Distinct(Plug(b, ctx))
  {
    PlugElements(a, ctx);
    PlugElements(b, ctx);
    PlugNodes(a, ctx);
    PlugNodes(b, ctx);
    PlugDistinct(a, ctx);
    PlugDistinct(b, ctx);
  }

  /** A subtree without shared nodes, none of them above it, may take the place of another one. */
  lemma {:induction false} PlugSwap<T>(s: Tree<T>, s': Tree<T>, ctx: seq<Frame<T>>)
    requires Distinct(Plug(s, ctx)) && Distinct(s') && Nodes(s') !! CtxNodes(ctx)
    ensures Distinct(Plug(s', ctx))
    ensures Nodes(Plug(s, ctx)) == Nodes(s) + CtxNodes(ctx) && Nodes(Plug(s', ctx)) == Nodes(s') + CtxNodes(ctx)
  {
    PlugDistinct(s, ctx);
    PlugDistinct(s', ctx);
    PlugNodes(s, ctx);
    PlugNodes(s', ctx);
  }

  /**
   * A virtual node turned into a leaf holding `x`: the values of the whole
   * tree get `x` inserted at the index of the leaf.
   */
  lemma {:induction false} GrowLeaf<T>(v: Tree<T>, leaf: Tree<T>, ctx: seq<Frame<T>>)
    requires v.Virtual? && leaf.Real? && leaf.left.Virtual? && leaf.right.Virtual?
    ensures var e, i := Elements(Plug(v, ctx)), |PreElems(ctx)|;
      i <= |e| && Elements(Plug(leaf, ctx)) == e[..i] + [leaf.value] + e[i..]
  {
    PlugElements(v, ctx);
    PlugElements(leaf, ctx);
    var pre, post := PreElems(ctx), PostElems(ctx);
    assert Elements(Plug(v, ctx)) == pre + post;
    assert (pre + post)[..|pre|] == pre && (pre + post)[|pre|..] == post;
  }

  /** A sequence is its last item after the others. */
  lemma {:induction false} SplitLast<X>(e: seq<X>, rest: seq<X>, x: X)
    requires e != [] && x == e[|e| - 1] && rest == e[..|e| - 1] + e[|e|..]
    ensures e == rest + [x]
  {
    assert e[|e|..] == [];
  }

  /** A sequence is its first item before the others. */
  lemma {:induction false} SplitFirst<X>(e: seq<X>, x: X, rest: seq<X>)
    requires e != [] && x == e[0] && rest == e[..0] + e[1..]
    ensures e == [x] + rest
  {
  }

  /** Inserting at the end is appending. */
  lemma {:induction false} InsertAtEnd<X>(e: seq<X>, x: X)
    ensures e[..|e|] + [x] + e[|e|..] == e + [x]
  {
    assert e[..|e|] == e;
  }

  /** An item put in front of `b`, after `a`. */
  lemma {:induction false} Regroup<X>(a: seq<X>, x: X, b: seq<X>)
    ensures a + ([x] + b) == a + [x] + b
  {
  }

  /** Regrouping the values around a new first item. */
  lemma {:induction false} ShiftFront<X>(x: X, m: seq<X>, post: seq<X>)
    ensures [] + ([] + [x] + m) + post == [x] + ([] + m + post)
  {
  }

  /** Regrouping the values around a joining item, with nothing before the hole. */
  lemma {:induction false} RegroupAfter<X>(a: seq<X>, x: X, c: seq<X>, post: seq<X>)
    ensures [] + (a + [x] + c) + post == a + [x] + ([] + c + post)
  {
  }

  /** Regrouping the values around a joining item, with nothing after the hole. */
  lemma {:induction false} RegroupBefore<X>(pre: seq<X>, c: seq<X>, x: X, b: seq<X>)
    ensures pre + (c + [x] + b) + [] == (pre + c + []) + [x] + b
  {
  }

  /** Taking the item after `pre + l` out of `pre + (l + [x] + r) + post`. */
  lemma {:induction false} Unsplice<X>(pre: seq<X>, l: seq<X>, x: X, r: seq<X>, post: seq<X>)
    ensures var e, i := pre + (l + [x] + r) + post, |pre| + |l|;
      i < |e| && e[i] == x && e[..i] + e[i + 1..] == pre + (l + r) + post
  {
    var e, i := pre + (l + [x] + r) + post, |pre| + |l|;
    assert e[..i] == pre + l;
    assert e[i + 1..] == r + post;
  }

  /**
   * A subtree replaced by one holding the values of its two children: the
   * values of the whole tree lose the one at the index of its root.
   */
  lemma {:induction false} DropRoot<T>(s: Tree<T>, s': Tree<T>, ctx: seq<Frame<T>>)
    requires s.Real? && Elements(s') == Elements(s.left) + Elements(s.right)
    ensures var e, i := Elements(Plug(s, ctx)), |PreElems(ctx)| + Size(s.left);
      i < |e| && e[i] == s.value && Elements(Plug(s', ctx)) == e[..i] + e[i + 1..]
  {
    SizeCounts(s.left);
    PlugElements(s, ctx);
    PlugElements(s', ctx);
    Unsplice(PreElems(ctx), Elements(s.left), s.value, Elements(s.right), PostElems(ctx));
  }

  lemma {:induction false} PlugConcat<T>(t: Tree<T>, c1: seq<Frame<T>>, c2: seq<Frame<T>>)
    ensures Plug(t, c1 + c2) == Plug(Plug(t, c1), c2)
    decreases |c1|
  {
    if c1 != [] {
      assert (c1 + c2)[0] == c1[0] && (c1 + c2)[1..] == c1[1..] + c2;
      PlugConcat(Fill(c1[0], t), c1[1..], c2);
    } else {
      assert c1 + c2 == c2;
    }
  }

  lemma {:induction false} PreNodesConcat<T>(c1: seq<Frame<T>>, c2: seq<Frame<T>>)
    ensures PreNodes(c1 + c2) == PreNodes(c2) + PreNodes(c1)
    ensures PreElems(c1 + c2) == PreElems(c2) + PreElems(c1)
    decreases |c1|
  {
    if c1 != [] {
      assert (c1 + c2)[0] == c1[0] && (c1 + c2)[1..] == c1[1..] + c2;
      PreNodesConcat(c1[1..], c2);
    } else {
      assert c1 + c2 == c2;
    }
  }

  /** The real nodes of a subtree occupy consecutive positions of the whole tree, after those of `PreNodes`. */
  lemma {:induction false} SubtreePositions<T>(s: Tree<T>, ctx: seq<Frame<T>>)
    ensures var t, i := Plug(s, ctx), |PreNodes(ctx)|;
      |InOrder(t)| == i + |InOrder(s)| + |PostNodes(ctx)| &&
      (forall j | 0 <= j < |InOrder(s)| :: InOrder(t)[i + j] == InOrder(s)[j])
  {
    var t, i := Plug(s, ctx), |PreNodes(ctx)|;
    PlugInOrder(s, ctx);
    assert forall j | 0 <= j < |InOrder(s)| :: InOrder(t)[i + j] == InOrder(s)[j];
  }

  /** The neighbours of the root of a subtree, when they lie inside it. */
  lemma {:induction false} NeighboursBelow<T>(s: Tree<T>, ctx: seq<Frame<T>>, i: int)
    requires s.Real? && i == |PreNodes(ctx)| + Size(s.left)
    ensures 0 <= i < |InOrder(Plug(s, ctx))| && InOrder(Plug(s, ctx))[i] == s.node
    ensures s.left.Real? ==>
      0 < i && 0 < |InOrder(s.left)| && InOrder(Plug(s, ctx))[i - 1] == InOrder(s.left)[|InOrder(s.left)| - 1]
    ensures s.right.Real? ==>
      i + 1 < |InOrder(Plug(s, ctx))| && 0 < |InOrder(s.right)| && InOrder(Plug(s, ctx))[i + 1] == InOrder(s.right)[0]
  {
    var t, p := Plug(s, ctx), |PreNodes(ctx)|;
    PlugInOrder(s, ctx);
    InOrderParts(s);
    SizeCounts(s.left);
    SizeCounts(s.right);
    var a, b := InOrder(s.left), InOrder(s.right);
    assert InOrder(t) == PreNodes(ctx) + (a + [s.node] + b) + PostNodes(ctx);
    assert InOrder(t)[p + |a|] == s.node;
    if s.left.Real? {
      assert InOrder(t)[p + |a| - 1] == a[|a| - 1];
    }
    if s.right.Real? {
      assert InOrder(t)[p + |a| + 1] == b[0];
    }
  }

  /** Below a left frame, the parent comes just after the subtree. */
  lemma {:induction false} ParentAfter<T>(s: Tree<T>, ctx: seq<Frame<T>>, j: int)
    requires ctx != [] && ctx[0].isLeft && j == |PreNodes(ctx)| + |InOrder(s)|
    ensures PreNodes(ctx) == PreNodes(ctx[1..])
    ensures j < |InOrder(Plug(s, ctx))| && InOrder(Plug(s, ctx))[j] == ctx[0].parent
  {
    var t, i := Plug(s, ctx), |PreNodes(ctx)|;
    PlugInOrder(s, ctx);
    var post := PostNodes(ctx);
    assert post == [ctx[0].parent] + InOrder(ctx[0].sibling) + PostNodes(ctx[1..]);
    assert InOrder(t) == PreNodes(ctx) + InOrder(s) + post;
    assert InOrder(t)[i + |InOrder(s)|] == post[0];
  }

  /** Below a right frame, the parent comes just before the subtree. */
  lemma {:induction false} ParentBefore<T>(s: Tree<T>, ctx: seq<Frame<T>>, j: int)
    requires ctx != [] && !ctx[0].isLeft && j == |PreNodes(ctx)| - 1
    ensures PreNodes(ctx) == PreNodes(ctx[1..]) + InOrder(ctx[0].sibling) + [ctx[0].parent]
    ensures 0 <= j < |InOrder(Plug(s, ctx))| && InOrder(Plug(s, ctx))[j] == ctx[0].parent
  {
    var t, i := Plug(s, ctx), |PreNodes(ctx)|;
    PlugInOrder(s, ctx);
    var pre := PreNodes(ctx);
    assert InOrder(t) == pre + InOrder(s) + PostNodes(ctx);
    assert InOrder(t)[i - 1] == pre[i - 1];
  }

  // ---------------------------------------------------------------------
  // Positions: the subtree rooted at the k-th real node (1-based) and its path.

  function SubAt<T>(t: Tree<T>, k: int): (s: Tree<T>)
    requires 1 <= k <= Size(t)
    ensures s.Real?
    decreases t
  {
    var r := Size(t.left) + 1;
    if k == r then t else if k < r then SubAt(t.left, k) else SubAt(t.right, k - r)
  }

  function PathTo<T>(t: Tree<T>, k: int): seq<Frame<T>>
    requires 1 <= k <= Size(t)
    decreases t
  {
    var r := Size(t.left) + 1;
    if k == r then []
    else if k < r then PathTo(t.left, k) + [Frame(true, t.node, t.value, t.right)]
    else PathTo(t.right, k - r) + [Frame(false, t.node, t.value, t.left)]
  }

  /** The k-th real node heads `SubAt(t, k)`, and its path leads back to `t`. */
  lemma {:induction false} PathToPlug<T>(t: Tree<T>, k: int)
    requires 1 <= k <= Size(t)
    ensures SubAt(t, k).Real?
    ensures Plug(SubAt(t, k), PathTo(t, k)) == t
    ensures |PreNodes(PathTo(t, k))| + Size(SubAt(t, k).left) == k - 1
    ensures |PreElems(PathTo(t, k))| + Size(SubAt(t, k).left) == k - 1
    decreases t
  {
    var r := Size(t.left) + 1;
    if k < r {
      var f := Frame(true, t.node, t.value, t.right);
      PathToPlug(t.left, k);
      PlugConcat(SubAt(t, k), PathTo(t.left, k), [f]);
      PreNodesConcat(PathTo(t.left, k), [f]);
      assert PreNodes([f]) == [] && PreElems([f]) == [];
    } else if k > r {
      var f := Frame(false, t.node, t.value, t.left);
      PathToPlug(t.right, k - r);
      PlugConcat(SubAt(t, k), PathTo(t.right, k - r), [f]);
      PreNodesConcat(PathTo(t.right, k - r), [f]);
      SizeCounts(t.left);
      assert PreNodes([f]) == InOrder(t.left) + [t.node];
      assert PreElems([f]) == Elements(t.left) + [t.value];
    }
  }

  /** The `k`-th real node in order, and its value, head `SubAt(t, k)`. */
  lemma {:induction false} SubAtIndex<T>(t: Tree<T>, k: int)
    requires 1 <= k <= Size(t)
    ensures |InOrder(t)| == Size(t) && SubAt(t, k).node == InOrder(t)[k - 1]
    ensures |Elements(t)| == Size(t) && SubAt(t, k).value == Elements(t)[k - 1]
    decreases t
  {
    SizeCounts(t);
    SizeCounts(t.left);
    var r := Size(t.left) + 1;
    if k < r {
      SubAtIndex(t.left, k);
    } else if k > r {
      SubAtIndex(t.right, k - r);
    }
  }

  /** Where a real node of a tree without shared nodes sits: its index in order, the subtree it heads and the frames above. */
  lemma {:induction false} Find<T>(t: Tree<T>, node: AVLNode<T>) returns (k: int, s: Tree<T>, c: seq<Frame<T>>)
    requires Distinct(t) && node in InOrder(t)
    ensures 0 <= k < |InOrder(t)| == Size(t) && InOrder(t)[k] == node
    ensures s.Real? && s.node == node && Plug(s, c) == t
    ensures |PreNodes(c)| + Size(s.left) == k
    ensures c == [] <==> node == t.node
  {
    k :| 0 <= k < |InOrder(t)| && InOrder(t)[k] == node;
    SizeCounts(t);
    PathToPlug(t, k + 1);
    SubAtIndex(t, k + 1);
    s, c := SubAt(t, k + 1), PathTo(t, k + 1);
    if c != [] {
      HoleNotRoot(s, c);
    }
  }

  /** Below the `k`-th real node, when its right child is virtual: the place of its successor. */
  lemma {:induction false} AfterNode<T>(t: Tree<T>, k: int)
    requires 1 <= k <= Size(t) && SubAt(t, k).right.Virtual?
    ensures var s := SubAt(t, k); var ctx := [Frame(false, s.node, s.value, s.left)] + PathTo(t, k);
      Plug(s.right, ctx) == t && |PreElems(ctx)| == k
  {
    PathToPlug(t, k);
    var s, c := SubAt(t, k), PathTo(t, k);
    var ctx := [Frame(false, s.node, s.value, s.left)] + c;
    assert ctx[0] == Frame(false, s.node, s.value, s.left) && ctx[1..] == c;
    SizeCounts(s.left);
  }

  /** Below the `k`-th real node, when its left child is virtual: the place of its predecessor. */
  lemma {:induction false} BeforeNode<T>(t: Tree<T>, k: int)
    requires 1 <= k <= Size(t) && SubAt(t, k).left.Virtual?
    ensures var s := SubAt(t, k); var ctx := [Frame(true, s.node, s.value, s.right)] + PathTo(t, k);
      Plug(s.left, ctx) == t && |PreElems(ctx)| == k - 1
  {
    PathToPlug(t, k);
    var s, c := SubAt(t, k), PathTo(t, k);
    var ctx := [Frame(true, s.node, s.value, s.right)] + c;
    assert ctx[0] == Frame(true, s.node, s.value, s.right) && ctx[1..] == c;
  }

  lemma {:induction false} FirstHasNoLeft<T>(t: Tree<T>)
    requires 1 <= Size(t)
    ensures SubAt(t, 1).left.Virtual?
    decreases t
  {
    if Size(t.left) > 0 { FirstHasNoLeft(t.left); }
  }

  lemma {:induction false} LastHasNoRight<T>(t: Tree<T>)
    requires 1 <= Size(t)
    ensures SubAt(t, Size(t)).right.Virtual?
    decreases t
  {
    if Size(t.right) > 0 { LastHasNoRight(t.right); }
  }

  /**
   * Of two neighbours in order, one lies below the other, so the earlier one
   * has no right child or the later one has no left child.
   */
  lemma {:induction false} NeighboursShareAGap<T>(t: Tree<T>, k: int)
    requires 1 <= k < Size(t)
    ensures SubAt(t, k).right.Virtual? || SubAt(t, k + 1).left.Virtual?
    decreases t
  {
    var r := Size(t.left) + 1;
    if k + 1 < r {
      NeighboursShareAGap(t.left, k);
    } else if k + 1 == r {
      LastHasNoRight(t.left);
    } else if k == r {
      FirstHasNoLeft(t.right);
    } else {
      NeighboursShareAGap(t.right, k - r);
    }
  }
}
