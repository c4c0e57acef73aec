/**
 * The list itself (class `AVLTreeList`, AVLTreeList.py:119-669): a root
 * pointer and a size, over a tree of `AVLNode` objects whose every real node
 * has two children, virtual nodes (value `None`) standing for empty
 * subtrees. The ghost field `tree` is the shape of that structure and
 * `Repr` its set of node objects; `Contents()` is the list it stands for.
 *
 * The pointer rotations `LeftRotate`, `RightRotate`, `RotateLeftAt` and
 * `RotateRightAt` stand apart from the updates of module `Updates`: those
 * act on tree values and rotate with `Balance.Rebalance`, and nothing here
 * calls the pointer rotations from them.
 */
module AVLTreeLists {
  import opened Wrappers
  import opened Trees
  import opened Balance
  import opened Links
  import opened Updates

  class AVLTreeList<T(==)> {
    var size: int
    var root: AVLNode?<T>
    ghost var tree: Option<Tree<T>>
    ghost var Repr: set<AVLNode<T>>

    /**
     * An empty list has no root. Otherwise the nodes form an AVL tree with
     * no shared nodes whose root has no parent, every node agrees with its
     * ghost subtree (links, sizes and heights), and `size` counts the real
     * nodes.
     */
    ghost predicate Valid()
      reads this, Repr
    {
      (root == null ==> tree.None? && size == 0 && Repr == {}) &&
      (root != null ==>
        tree.Some? && tree.value.Real? && tree.value.node == root && Repr == Nodes(tree.value) &&
        root.sub == tree.value && root.parent == null &&
        Distinct(tree.value) && Balanced(tree.value) && size == Size(tree.value) &&
        forall n {:trigger Local(n)} | n in Repr :: Kids(n) <= Repr && Local(n))
    }

    /** The list the structure stands for: the values of the real nodes in order. */
    ghost function Contents(): seq<T>
      reads this
    {
      if tree.None? then [] else Elements(tree.value)
    }

    /** Height of the tree, -1 when the list is empty. */
    ghost function TreeHeight(): int
      reads this
    {
      if tree.None? then -1 else Height(tree.value)
    }

    /** The real nodes in order. */
    ghost function Order(): seq<AVLNode<T>>
      reads this
    {
      if tree.None? then [] else InOrder(tree.value)
    }

    /** `__init__`: an empty list. */
    constructor ()
      ensures Valid() && Contents() == [] && Repr == {}
    {
      size := 0;
      root := null;
      tree := None;
      Repr := {};
    }

    lemma ValidSize()
      requires Valid()
      ensures size == |Contents()| == |Order()|
      ensures root != null ==> root.size == size && root.height == TreeHeight()
    {
      if root != null {
        SizeCounts(tree.value);
        assert Local(root);
      }
    }

    /**
     * The list as a value: its tree and its size. The insertions, deletions
     * and joins are modelled on such values.
     */
    ghost function Value(): TreeList<T>
      reads this
    {
      TreeList(tree, size)
    }

    /** A valid structure is a well-formed list value holding the same items, of the same height. */
    lemma ValidValue()
      requires Valid()
      ensures WellFormed(Value()) && Items(Value()) == Contents() && ListHeight(Value()) == TreeHeight()
    {
    }

    /** A node of the structure: its children are nodes of the structure too, and it and they agree with their subtrees. */
    lemma Inside(n: AVLNode<T>)
      requires Valid() && n in Repr
      ensures Kids(n) <= Repr && Local(n)
      ensures n.sub.Real? ==> n.left != null && n.right != null && Local(n.left) && Local(n.right)
    {
      assert Local(n);
      if n.sub.Real? {
        assert Local(n.left) && Local(n.right);
      }
    }

    /** `empty`: whether the list has no items. */
    function Empty(): (b: bool)
      reads this, Repr
      requires Valid()
      ensures b <==> Contents() == []
    {
      ValidSize();
      size == 0
    }

    /** `length`: the number of items. */
    function Length(): (n: int)
      reads this, Repr
      requires Valid()
      ensures n == |Contents()|
    {
      ValidSize();
      size
    }

    /**
     * `select`: the node of rank `k` (1-based) in the subtree headed by
     * `node`, by the cached subtree sizes; no node when the list is empty.
     */
    function Select(node: AVLNode?<T>, k: int): (r: AVLNode?<T>)
      reads this, Repr
      requires Valid()
      requires size != 0 ==> node in Repr && 1 <= k <= Size(node.sub)
      ensures size == 0 ==> r == null
      ensures size != 0 ==> |InOrder(node.sub)| == Size(node.sub) && r == InOrder(node.sub)[k - 1]
      ensures size != 0 ==> |Elements(node.sub)| == Size(node.sub) && r.value == Some(Elements(node.sub)[k - 1])
      ensures size != 0 ==> r in Repr
      decreases if node == null then 0 else Size(node.sub)
    {
      if size == 0 then null
      else
        var t := node.sub;
        Inside(node);
        SizeCounts(t.left);
        SizeCounts(t.right);
        InOrderParts(t);
        ElementsParts(t);
        var rank := node.left.size + 1;
        if k == rank then node
        else if k < rank then Select(node.left, k)
        else Select(node.right, k - rank)
    }

    /** `retrieve`: the i-th item (0-based). */
    function Retrieve(i: int): (v: T)
      reads this, Repr
      requires Valid() && 0 <= i < |Contents()|
      ensures v == Contents()[i]
    {
      ValidSize();
      Select(root, i + 1).value.value
    }

    /** `first`: the first item, or nothing for an empty list. */
    function First(): (v: Option<T>)
      reads this, Repr
      requires Valid()
      ensures Contents() == [] ==> v == None
      ensures Contents() != [] ==> v == Some(Contents()[0])
    {
      ValidSize();
      if size == 0 then None else Some(Retrieve(0))
    }

    /** `last`: the last item, or nothing for an empty list. */
    function Last(): (v: Option<T>)
      reads this, Repr
      requires Valid()
      ensures Contents() == [] ==> v == None
      ensures Contents() != [] ==> v == Some(Contents()[|Contents()| - 1])
    {
      ValidSize();
      if size == 0 then None else Some(Retrieve(size - 1))
    }

    /**
     * `getRoot`: the root, or nothing for an empty list. The root heads the
     * whole tree, has no parent, and holds the item whose index is the size
     * of its left subtree.
     */
    function GetRoot(): (r: AVLNode?<T>)
      reads this, Repr
      requires Valid()
      ensures r == null <==> Contents() == []
      ensures r != null ==>
        (var t := tree.value; Size(t.left) < |Contents()| && r.value == Some(Contents()[Size(t.left)]))
      ensures r != null ==> r == root && r == tree.value.node && r.parent == null
    {
      ValidSize();
      if size == 0 then null
      else
        SizeCounts(tree.value.left);
        ElementsParts(tree.value);
        Inside(root);
        root
    }

    /**
     * Where a real node sits: its index in order, the subtree it heads and
     * the frames above that subtree.
     */
    lemma Locate(node: AVLNode<T>) returns (k: int, s: Tree<T>, c: seq<Frame<T>>)
      requires Valid() && node in Order()
      ensures root != null && 0 <= k < |Order()| == Size(tree.value) && Order()[k] == node
      ensures s.Real? && s.node == node && Plug(s, c) == tree.value && node.sub == s && PathHolds(node, c)
      ensures |PreNodes(c)| + Size(s.left) == k
      ensures c == [] <==> node == root
    {
      k, s, c := Find(tree.value, node);
      SubsAlong(s, c);
    }

    /** A real node of the list is a node of the structure, as are its children, and they agree with their subtrees. */
    lemma Member(node: AVLNode<T>)
      requires Valid() && node in Order() && node.sub.Real?
      ensures node in Repr && Kids(node) <= Repr && Local(node)
      ensures node.left != null && node.right != null && Local(node.left) && Local(node.right)
    {
      InOrderInNodes(tree.value);
      Inside(node);
    }

    /** The 0-based index of a real node in order. */
    ghost function Position(node: AVLNode<T>): (k: int)
      reads this
      requires node in Order()
      ensures 0 <= k < |Order()| && Order()[k] == node
    {
      IndexOf(Order(), node)
    }

    /** The real node at index `j` in order; `null` past either end. */
    ghost function NodeAt(j: int): AVLNode?<T>
      reads this
    {
      if 0 <= j < |Order()| then Order()[j] else null
    }

    /** A node sits at one index only. */
    lemma PositionAt(node: AVLNode<T>, k: int)
      requires Valid() && 0 <= k < |Order()| && Order()[k] == node
      ensures Position(node) == k
    {
      InOrderInjective(tree.value, Position(node), k);
    }

    /**
     * The frame above a node, seen from the node: the sibling is a node of
     * the tree that agrees with its subtree, and is not the node itself.
     */
    lemma FrameAbove(s: Tree<T>, c: seq<Frame<T>>)
      requires Valid() && root != null && Plug(s, c) == tree.value && c != []
      ensures c[0].sibling.node in Repr && Local(c[0].sibling.node) && c[0].sibling.node != s.node
      ensures |InOrder(c[0].sibling)| == Size(c[0].sibling)
    {
      PlugNodes(s, c);
      PlugDistinct(s, c);
      SizeCounts(c[0].sibling);
      assert s.node in Nodes(s) && c[0].sibling.node in Nodes(c[0].sibling);
    }

    /** `rank`: the 1-based position of a real node, climbing from it to the root. */
    method Rank(node: AVLNode<T>) returns (r: int)
      requires Valid() && node in Order()
      ensures 1 <= r <= |Order()| && Order()[r - 1] == node
    {
      ghost var k, s, c := Locate(node);
      assert Local(node) && Local(node.left) by {
        PlugNodes(s, c);
      }
      SizeCounts(s.left);
      r := node.left.size + 1;
      if node == root {
        return;
      }
      var cur := node;
      while cur.parent != null
        invariant Plug(s, c) == tree.value && cur == s.node && PathHolds(cur, c)
        invariant r == k + 1 - |PreNodes(c)|
        decreases |c|
      {
        PathUp(cur, c);
        FrameAbove(s, c);
        if cur == cur.parent.right {
          r := r + cur.parent.left.size + 1;
        }
        s, c := Fill(c[0], s), c[1..];
        cur := cur.parent;
      }
      assert c == [] by {
        if c != [] { PathUp(cur, c); }
      }
    }

    /** The last real node of the subtree headed by `n`: the descent of `predecessor`. */
    method MaxNode(n: AVLNode<T>) returns (m: AVLNode<T>)
      requires Valid() && n in Repr && n.sub.Real?
      ensures |InOrder(n.sub)| > 0 && m == InOrder(n.sub)[|InOrder(n.sub)| - 1]
    {
      m := n;
      Inside(m);
      InOrderParts(n.sub);
      while m.right.value.Some?
        invariant m in Repr && m.sub.Real? && m.right != null
        invariant |InOrder(m.sub)| > 0 && InOrder(m.sub)[|InOrder(m.sub)| - 1] == InOrder(n.sub)[|InOrder(n.sub)| - 1]
        decreases Size(m.sub)
      {
        Inside(m);
        InOrderParts(m.sub);
        SizeCounts(m.sub.right);
        m := m.right;
        Inside(m);
      }
      Inside(m);
      InOrderParts(m.sub);
    }

    /** The first real node of the subtree headed by `n`: the descent of `successor`. */
    method MinNode(n: AVLNode<T>) returns (m: AVLNode<T>)
      requires Valid() && n in Repr && n.sub.Real?
      ensures |InOrder(n.sub)| > 0 && m == InOrder(n.sub)[0]
    {
      m := n;
      Inside(m);
      InOrderParts(n.sub);
      while m.left.value.Some?
        invariant m in Repr && m.sub.Real? && m.left != null
        invariant |InOrder(m.sub)| > 0 && InOrder(m.sub)[0] == InOrder(n.sub)[0]
        decreases Size(m.sub)
      {
        Inside(m);
        InOrderParts(m.sub);
        SizeCounts(m.sub.left);
        m := m.left;
        Inside(m);
      }
      Inside(m);
      InOrderParts(m.sub);
    }

    /**
     * A climb from `n`, which heads the subtree `s` of the list's tree below
     * the frames `c`, every one of which holds.
     */
    ghost predicate OnPath(n: AVLNode<T>, s: Tree<T>, c: seq<Frame<T>>)
      reads *
    {
      Valid() && root != null && Plug(s, c) == tree.value && s.Real? && s.node == n && PathHolds(n, c)
    }

    /** The parent link of a node on a path: empty at the root, else the real node above. */
    lemma ParentOf(n: AVLNode<T>, s: Tree<T>, c: seq<Frame<T>>)
      requires OnPath(n, s, c)
      ensures c == [] <==> n.parent == null
      ensures c != [] ==> n.parent == c[0].parent && n.parent.value.Some?
    {
      if c != [] {
        PathUp(n, c);
      }
    }

    /**
     * One step of the climb of `predecessor`: from a left child to its
     * parent, with the same nodes before the subtree and the same first node
     * in it.
     */
    lemma UpLeft(n: AVLNode<T>, s: Tree<T>, c: seq<Frame<T>>)
      requires OnPath(n, s, c) && c != [] && n == c[0].parent.left
      ensures OnPath(c[0].parent, Fill(c[0], s), c[1..])
      ensures |PreNodes(c[1..])| == |PreNodes(c)|
    {
      PathUp(n, c);
      FrameAbove(s, c);
      ParentAfter(s, c, |PreNodes(c)| + |InOrder(s)|);
      InOrderParts(s);
      InOrderParts(Fill(c[0], s));
    }

    /** One step of the climb of `successor`: from a right child to its parent. */
    lemma UpRight(n: AVLNode<T>, s: Tree<T>, c: seq<Frame<T>>)
      requires OnPath(n, s, c) && c != [] && n == c[0].parent.right
      ensures OnPath(c[0].parent, Fill(c[0], s), c[1..])
      ensures |PreNodes(c[1..])| + |InOrder(Fill(c[0], s))| == |PreNodes(c)| + |InOrder(s)|
    {
      PathUp(n, c);
      FrameAbove(s, c);
      ParentBefore(s, c, |PreNodes(c)| - 1);
      InOrderParts(s);
      InOrderParts(Fill(c[0], s));
    }

    /** The climb of `predecessor` stops at a right child: its parent is the node just before the subtree. */
    lemma StopLeft(n: AVLNode<T>, s: Tree<T>, c: seq<Frame<T>>, j: int)
      requires OnPath(n, s, c) && c != [] && n != c[0].parent.left && j == |PreNodes(c)| - 1
      ensures 0 <= j < |Order()| && Order()[j] == c[0].parent
    {
      PathUp(n, c);
      FrameAbove(s, c);
      ParentBefore(s, c, j);
    }

    /** The climb of `successor` stops at a left child: its parent is the node just after the subtree. */
    lemma StopRight(n: AVLNode<T>, s: Tree<T>, c: seq<Frame<T>>, j: int)
      requires OnPath(n, s, c) && c != [] && n != c[0].parent.right && j == |PreNodes(c)| + |InOrder(s)|
      ensures 0 <= j < |Order()| && Order()[j] == c[0].parent
    {
      PathUp(n, c);
      FrameAbove(s, c);
      ParentAfter(s, c, j);
    }

    /**
     * The neighbours of a node inside its own subtree: the last node of a
     * real left child comes just before it, the first node of a real right
     * child just after it.
     */
    lemma Neighbours(node: AVLNode<T>, k: int, s: Tree<T>, c: seq<Frame<T>>)
      requires Valid() && root != null && s.Real? && Plug(s, c) == tree.value && node.sub == s
      requires node.left != null && node.right != null && node.left.sub == s.left && node.right.sub == s.right
      requires k == |PreNodes(c)| + Size(s.left)
      ensures 0 <= k < |Order()|
      ensures s.left.Real? ==>
        0 < k && 0 < |InOrder(node.left.sub)| && Order()[k - 1] == InOrder(node.left.sub)[|InOrder(node.left.sub)| - 1]
      ensures s.right.Real? ==>
        k + 1 < |Order()| && 0 < |InOrder(node.right.sub)| && Order()[k + 1] == InOrder(node.right.sub)[0]
    {
      NeighboursBelow(s, c, k);
    }

    /**
     * `predecessor`: the real node just before `node` in order, or `null`
     * for the first one. A root without a left child is excluded: the
     * climb would start from its missing parent.
     */
    method Predecessor(node: AVLNode<T>) returns (r: AVLNode?<T>)
      requires Valid() && node in Order()
      requires node != root || (node.left != null && node.left.value.Some?)
      ensures r == NodeAt(Position(node) - 1)
    {
      ghost var k, s, c := Locate(node);
      PositionAt(node, k);
      Member(node);
      if node.left.value.Some? {
        Neighbours(node, k, s, c);
        r := MaxNode(node.left);
        return;
      }
      assert |PreNodes(c)| == k by {
        InOrderParts(s);
      }
      r := ClimbLeft(node, s, c);
    }

    /**
     * The climb of `predecessor`: up from `node` while it is a left child;
     * the parent it stops below is the node just before the subtree `s0`, and
     * the root is reached when nothing comes before it.
     */
    method ClimbLeft(node: AVLNode<T>, ghost s0: Tree<T>, ghost c0: seq<Frame<T>>) returns (r: AVLNode?<T>)
      requires OnPath(node, s0, c0) && c0 != []
      ensures r == NodeAt(|PreNodes(c0)| - 1)
    {
      ghost var j := |PreNodes(c0)|;
      var n: AVLNode<T> := node;
      ghost var s, c := s0, c0;
      ParentOf(n, s, c);
      var cur := n.parent;
      while cur.value.Some? && n == cur.left
        invariant OnPath(n, s, c) && c != [] && cur == c[0].parent && cur.value.Some?
        invariant |PreNodes(c)| == j
        decreases |c|
      {
        UpLeft(n, s, c);
        n := cur;
        s, c := Fill(c[0], s), c[1..];
        ParentOf(n, s, c);
        if n.parent == null {
          return null;
        }
        cur := n.parent;
      }
      StopLeft(n, s, c, j - 1);
      return cur;
    }

    /**
     * `successor`: the real node just after `node` in order, or `null` for
     * the last one. A root without a right child is excluded, as for
     * `Predecessor`.
     */
    method Successor(node: AVLNode<T>) returns (r: AVLNode?<T>)
      requires Valid() && node in Order()
      requires node != root || (node.right != null && node.right.value.Some?)
      ensures r == NodeAt(Position(node) + 1)
    {
      ghost var k, s, c := Locate(node);
      PositionAt(node, k);
      Member(node);
      if node.right.value.Some? {
        Neighbours(node, k, s, c);
        r := MinNode(node.right);
        return;
      }
      assert |PreNodes(c)| + |InOrder(s)| == k + 1 by {
        SizeCounts(s);
      }
      r := ClimbRight(node, s, c);
    }

    /**
     * The climb of `successor`: up from `node` while it is a right child;
     * the parent it stops below is the node just after the subtree `s0`, and
     * the root is reached when nothing comes after it.
     */
    method ClimbRight(node: AVLNode<T>, ghost s0: Tree<T>, ghost c0: seq<Frame<T>>) returns (r: AVLNode?<T>)
      requires OnPath(node, s0, c0) && c0 != []
      ensures r == NodeAt(|PreNodes(c0)| + |InOrder(s0)|)
    {
      ghost var j := |PreNodes(c0)| + |InOrder(s0)|;
      var n: AVLNode<T> := node;
      ghost var s, c := s0, c0;
      ParentOf(n, s, c);
      var cur := n.parent;
      while cur.value.Some? && n == cur.right
        invariant OnPath(n, s, c) && c != [] && cur == c[0].parent && cur.value.Some?
        invariant |PreNodes(c)| + |InOrder(s)| == j
        decreases |c|
      {
        UpRight(n, s, c);
        n := cur;
        s, c := Fill(c[0], s), c[1..];
        ParentOf(n, s, c);
        if n.parent == null {
          assert Plug(s, c) == s;
          return null;
        }
        cur := n.parent;
      }
      StopRight(n, s, c, j);
      return cur;
    }

    /** `list_to_array_rec`: appends the values of the subtree headed by `node`, in order, to `acc`. */
    method ListToArrayRec(acc: seq<T>, node: AVLNode<T>) returns (r: seq<T>)
      requires Valid() && node in Repr
      ensures r == acc + Elements(node.sub)
      decreases Size(node.sub)
    {
      Inside(node);
      if node.value.None? {
        return acc;
      }
      r := ListToArrayRec(acc, node.left);
      r := r + [node.value.value];
      r := ListToArrayRec(r, node.right);
    }

    /** `listToArray`: the items in order. */
    method ListToArray() returns (r: seq<T>)
      requires Valid()
      ensures r == Contents()
    {
      if size == 0 {
        return [];
      }
      r := ListToArrayRec([], root);
    }

    /** `search`: the first index holding `val`, or -1 when there is none. */
    method Search(val: T) returns (r: int)
      requires Valid()
      ensures r == -1 <==> val !in Contents()
      ensures r != -1 ==> 0 <= r < |Contents()| && Contents()[r] == val && val !in Contents()[..r]
    {
      var lst := ListToArray();
      var i := 0;
      while i < |lst|
        invariant 0 <= i <= |lst| && val !in lst[..i]
      {
        if lst[i] == val {
          return i;
        }
        i := i + 1;
      }
      assert lst[..i] == lst;
      return -1;
    }

    // -------------------------------------------------------------------
    // Rotations

    /**
     * `left_rotate` (AVLTreeList.py:298-318): the right child `rn` of `node`
     * takes its place under the parent (or as the root), `node` becomes its
     * left child and takes over its inner child; the sizes and heights of
     * both are recomputed from their new children.
     */
    method LeftRotate(node: AVLNode<T>)
      requires node.left != null && node.right != null && node.right.left != null && node.right.right != null
      requires node != node.left && node != node.right && node != node.right.left && node != node.right.right
      requires node.left != node.right && node.left != node.right.left && node.left != node.right.right
      requires node.right != node.right.left && node.right != node.right.right && node.right.left != node.right.right
      requires node.parent != null ==> node.parent != node && node.parent != node.right && node.parent != node.right.left
      modifies this`root, node`right, node`parent, node`size, node`height
      modifies node.right`left, node.right`parent, node.right`size, node.right`height, node.right.left`parent
      modifies Opt(node.parent)`left, Opt(node.parent)`right
      ensures var rn, rl, up := old(node.right), old(node.right.left), old(node.parent);
        node.right == rl && rl.parent == node && rn.left == node && node.parent == rn && rn.parent == up &&
        node.size == old(node.left.size) + old(rl.size) + 1 &&
        node.height == Max(old(node.left.height), old(rl.height)) + 1 &&
        rn.size == old(node.size) && rn.height == Max(node.height, old(rn.right.height)) + 1 &&
        (up != null ==>
          if old(up.left) == node then up.left == rn && up.right == old(up.right)
          else up.left == old(up.left) && up.right == rn) &&
        root == (if old(root) == node then rn else old(root))
    {
      var updateRoot := root == node;
      var rightNode := node.right;
      node.right := rightNode.left;
      node.right.parent := node;
      rightNode.left := node;
      rightNode.parent := node.parent;
      if rightNode.parent != null {
        if rightNode.parent.left == node {
          rightNode.parent.left := rightNode;
        } else {
          rightNode.parent.right := rightNode;
        }
      }
      node.parent := rightNode;
      rightNode.size := node.size;
      node.size := node.left.size + node.right.size + 1;
      node.height := Max(node.left.height, node.right.height) + 1;
      rightNode.height := Max(rightNode.left.height, rightNode.right.height) + 1;
      if updateRoot {
        root := rightNode;
      }
    }

    /** `right_rotate` (AVLTreeList.py:321-341): the mirror image of `LeftRotate`. */
    method RightRotate(node: AVLNode<T>)
      requires node.right != null && node.left != null && node.left.right != null && node.left.left != null
      requires node != node.right && node != node.left && node != node.left.right && node != node.left.left
      requires node.right != node.left && node.right != node.left.right && node.right != node.left.left
      requires node.left != node.left.right && node.left != node.left.left && node.left.right != node.left.left
      requires node.parent != null ==> node.parent != node && node.parent != node.left && node.parent != node.left.right
      modifies this`root, node`left, node`parent, node`size, node`height
      modifies node.left`right, node.left`parent, node.left`size, node.left`height, node.left.right`parent
      modifies Opt(node.parent)`left, Opt(node.parent)`right
      ensures var ln, lr, up := old(node.left), old(node.left.right), old(node.parent);
        node.left == lr && lr.parent == node && ln.right == node && node.parent == ln && ln.parent == up &&
        node.size == old(lr.size) + old(node.right.size) + 1 &&
        node.height == Max(old(lr.height), old(node.right.height)) + 1 &&
        ln.size == old(node.size) && ln.height == Max(old(ln.left.height), node.height) + 1 &&
        (up != null ==>
          if old(up.left) == node then up.left == ln && up.right == old(up.right)
          else up.left == old(up.left) && up.right == ln) &&
        root == (if old(root) == node then ln else old(root))
    {
      var updateRoot := root == node;
      var leftNode := node.left;
      node.left := leftNode.right;
      node.left.parent := node;
      leftNode.right := node;
      leftNode.parent := node.parent;
      if leftNode.parent != null {
        if leftNode.parent.left == node {
          leftNode.parent.left := leftNode;
        } else {
          leftNode.parent.right := leftNode;
        }
      }
      node.parent := leftNode;
      leftNode.size := node.size;
      node.size := node.left.size + node.right.size + 1;
      node.height := Max(node.left.height, node.right.height) + 1;
      leftNode.height := Max(leftNode.left.height, leftNode.right.height) + 1;
      if updateRoot {
        root := leftNode;
      }
    }

    /**
     * `LeftRotate` on a node whose links agree with its subtree `s` (its own
     * height may be stale) and whose children and grandchildren on the right
     * agree with theirs: afterwards the right child heads `RotateLeft(s)`, the
     * two moved nodes agree with their new subtrees, and every other node
     * that agreed with its subtree still does.
     */
    method RotateLeftAt(node: AVLNode<T>)
      requires node.sub.Real? && node.sub.right.Real? && Holds(node, node.sub) && node.size == Size(node.sub)
      requires Local(node.left) && Local(node.right) && Local(node.right.left) && Local(node.right.right)
      requires node != node.left && node != node.right && node != node.right.left && node != node.right.right
      requires node.left != node.right && node.left != node.right.left && node.left != node.right.right
      requires node.right != node.right.left && node.right != node.right.right && node.right.left != node.right.right
      requires node.parent != null ==> node.parent != node && node.parent != node.right && node.parent != node.right.left
      modifies this`root, node`right, node`parent, node`size, node`height, node`sub
      modifies node.right`left, node.right`parent, node.right`size, node.right`height, node.right`sub
      modifies node.right.left`parent, Opt(node.parent)`left, Opt(node.parent)`right
      ensures var rn, up := old(node.right), old(node.parent);
        rn.sub == RotateLeft(old(node.sub)) && Local(node) && Local(rn) && rn.parent == up && node.parent == rn &&
        (up != null ==>
          if old(up.left) == node then up.left == rn && up.right == old(up.right)
          else up.left == old(up.left) && up.right == rn) &&
        root == (if old(root) == node then rn else old(root))
    {
      ghost var s := node.sub;
      var rn := node.right;
      LeftRotate(node);
      node.sub := Real(s.left, node, s.value, s.right.left);
      rn.sub := Real(node.sub, rn, s.right.value, s.right.right);
    }

    /** `RightRotate` on a node whose links agree with its subtree: the mirror image of `RotateLeftAt`. */
    method RotateRightAt(node: AVLNode<T>)
      requires node.sub.Real? && node.sub.left.Real? && Holds(node, node.sub) && node.size == Size(node.sub)
      requires Local(node.right) && Local(node.left) && Local(node.left.right) && Local(node.left.left)
      requires node != node.right && node != node.left && node != node.left.right && node != node.left.left
      requires node.right != node.left && node.right != node.left.right && node.right != node.left.left
      requires node.left != node.left.right && node.left != node.left.left && node.left.right != node.left.left
      requires node.parent != null ==> node.parent != node && node.parent != node.left && node.parent != node.left.right
      modifies this`root, node`left, node`parent, node`size, node`height, node`sub
      modifies node.left`right, node.left`parent, node.left`size, node.left`height, node.left`sub
      modifies node.left.right`parent, Opt(node.parent)`left, Opt(node.parent)`right
      ensures var ln, up := old(node.left), old(node.parent);
        ln.sub == RotateRight(old(node.sub)) && Local(node) && Local(ln) && ln.parent == up && node.parent == ln &&
        (up != null ==>
          if old(up.left) == node then up.left == ln && up.right == old(up.right)
          else up.left == old(up.left) && up.right == ln) &&
        root == (if old(root) == node then ln else old(root))
    {
      ghost var s := node.sub;
      var ln := node.left;
      RightRotate(node);
      node.sub := Real(s.left.right, node, s.value, s.right);
      ln.sub := Real(s.left.left, ln, s.left.value, node.sub);
    }
  }
}
