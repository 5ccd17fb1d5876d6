/**
  * The threaded AVL tree of lib/common/avl.c.
  *
  * The methods keep the control flow of the C functions.  Their ghost arguments name the shape
  * that the heap holds: a context c (the path from the place of work to the root) and the
  * subtree t that fills its hole.
  */
module AvlTree {
  import opened Basics
  import opened AvlShape
  import opened AvlOrder
  import opened AvlHeap
  import opened AvlBalance
  import opened AvlPlace
  import opened AvlSearch
  import opened AvlReplace
  import opened AvlRotate

  class AvlTree<K(0,!new)> {
    const comp: Comparator<K>
    const allowDups: bool
    const listHead: AvlNode<K>
    var root: AvlNode?<K>
    var count: int

    ghost var shape: Tree<K>
    ghost var elems: seq<AvlNode<K>>
    ghost var turns: seq<Turn<K>>  // the rotations that were made

    /** The heap holds the tree Zip(c, t). */
    ghost predicate Focus(c: Ctx<K>, t: Tree<K>)
      reads this`root, ZipLinks(c, t).Keys`parent, ZipLinks(c, t).Keys`left
      reads ZipLinks(c, t).Keys`right, ZipLinks(c, t).Keys`balance
    {
      Apart(c, t) && root == RootVia(c, Root(t)) && Holds(ZipLinks(c, t))
    }

    /** avl_init: an empty tree over an empty list. */
    constructor (comp: Comparator<K>, allowDups: bool)
      requires TotalOrder(comp)
      ensures Valid() && elems == [] && fresh(listHead)
      ensures this.comp == comp && this.allowDups == allowDups
    {
      var unused: K := *;
      this.comp, this.allowDups := comp, allowDups;
      var head := new AvlNode<K>(unused);
      listHead := head;
      root, count := null, 0;
      shape, elems, turns := Nil, [], [];
      new;
      listHead.next, listHead.prev := listHead, listHead;
    }

    // ------------------------------------------------------------ rotations

    /** _avl_rotate_right, field by field. */
    method RotateRightFields(node: AvlNode<K>)
      requires node.left != null && node.left != node && node.parent != node && node.parent != node.left
      requires node.left.right != node && node.left.right != node.left
      requires node.left.right != null ==> node.left.right != node.parent
      requires -2 <= node.balance <= 2 && -2 <= node.left.balance <= 2
      modifies this`root, {node, node.left}`parent, {node, node.left}`left, {node, node.left}`right
      modifies {node, node.left}`balance
      modifies (if node.parent == null then {} else {node.parent})`left
      modifies (if node.parent == null then {} else {node.parent})`right
      modifies (if node.left.right == null then {} else {node.left.right})`parent
      ensures node.parent == old(node.left) && node.left == old(node.left.right) && node.right == old(node.right)
      ensures var left := old(node.left);
              left.parent == old(node.parent) && left.left == old(left.left) && left.right == node
      ensures root == if old(node.parent) == null then old(node.left) else old(root)
      ensures var p := old(node.parent); p != null ==>
                p.left == (if old(p.left) == node then old(node.left) else old(p.left))
                && p.right == (if old(p.left) == node then old(p.right) else old(node.left))
      ensures old(node.left.right) != null ==> node.left.parent == node
      ensures var nb := old(node.balance) + 1 - (if old(node.left.balance) < 0 then old(node.left.balance) else 0);
              node.balance == nb && old(node.left).balance == old(node.left.balance) + 1 + (if nb > 0 then nb else 0)
    {
      var left := node.left;
      var parent := node.parent;

      left.parent := parent;
      node.parent := left;

      if parent == null {
        root := left;
      } else if parent.left == node {
        parent.left := left;
      } else {
        parent.right := left;
      }

      node.left := left.right;
      left.right := node;

      if node.left != null {
        node.left.parent := node;
      }

      node.balance := node.balance + 1;
      if left.balance < 0 {
        node.balance := node.balance - left.balance;
      }

      left.balance := left.balance + 1;
      if node.balance > 0 {
        left.balance := left.balance + node.balance;
      }
    }

    method RotateRightStore(node: AvlNode<K>, ghost m: Store<K>)
      requires Holds(m) && RotatesRight(m, node)
      modifies this`root, m.Keys`parent, m.Keys`left, m.Keys`right, m.Keys`balance
      ensures Holds(RotatedRight(m, node))
      ensures root == if m[node].parent == null then m[node].left else old(root)
    {
      assert Carries(node, m[node]);
      assert Carries(node.left, m[node.left]);
      RotateRightFields(node);
    }

    method RotateRight(node: AvlNode<K>, ghost c: Ctx<K>, ghost t: Tree<K>)
      requires Focus(c, t) && t.Bin? && t.n == node && t.l.Bin?
      requires -2 <= t.b <= 2 && -2 <= t.l.b <= 2
      modifies this`root, this`turns, (CtxNodes(c) + Nodes(t))`parent, (CtxNodes(c) + Nodes(t))`left
      modifies (CtxNodes(c) + Nodes(t))`right, (CtxNodes(c) + Nodes(t))`balance
      ensures Focus(c, RotRight(t)) && turns == old(turns) + [Turn(node, ParentOf(c), true)]
    {
      hide RotRight, LinksOf, CtxLinks, Sep, CtxSep, RotatesRight, RotatedRight, Holds, Avl, Inorder;
      RotatesRightAt(c, t);
      RotatedRightAt(c, t);
      RotateRightStore(node, ZipLinks(c, t));
      turns := turns + [Turn(node, ParentOf(c), true)];
    }

    /** _avl_rotate_left, field by field. */
    method RotateLeftFields(node: AvlNode<K>)
      requires node.right != null && node.right != node && node.parent != node && node.parent != node.right
      requires node.right.left != node && node.right.left != node.right
      requires node.right.left != null ==> node.right.left != node.parent
      requires -2 <= node.balance <= 2 && -2 <= node.right.balance <= 2
      modifies this`root, {node, node.right}`parent, {node, node.right}`left, {node, node.right}`right
      modifies {node, node.right}`balance
      modifies (if node.parent == null then {} else {node.parent})`left
      modifies (if node.parent == null then {} else {node.parent})`right
      modifies (if node.right.left == null then {} else {node.right.left})`parent
      ensures node.parent == old(node.right) && node.right == old(node.right.left) && node.left == old(node.left)
      ensures var right := old(node.right);
              right.parent == old(node.parent) && right.right == old(right.right) && right.left == node
      ensures root == if old(node.parent) == null then old(node.right) else old(root)
      ensures var p := old(node.parent); p != null ==>
                p.left == (if old(p.left) == node then old(node.right) else old(p.left))
                && p.right == (if old(p.left) == node then old(p.right) else old(node.right))
      ensures old(node.right.left) != null ==> node.right.parent == node
      ensures var nb := old(node.balance) - 1 - (if old(node.right.balance) > 0 then old(node.right.balance) else 0);
              node.balance == nb && old(node.right).balance == old(node.right.balance) - 1 + (if nb < 0 then nb else 0)
    {
      var right := node.right;
      var parent := node.parent;

      right.parent := parent;
      node.parent := right;

      if parent == null {
        root := right;
      } else if parent.left == node {
        parent.left := right;
      } else {
        parent.right := right;
      }

      node.right := right.left;
      right.left := node;

      if node.right != null {
        node.right.parent := node;
      }

      node.balance := node.balance - 1;
      if right.balance > 0 {
        node.balance := node.balance - right.balance;
      }

      right.balance := right.balance - 1;
      if node.balance < 0 {
        right.balance := right.balance + node.balance;
      }
    }

    method RotateLeftStore(node: AvlNode<K>, ghost m: Store<K>)
      requires Holds(m) && RotatesLeft(m, node)
      modifies this`root, m.Keys`parent, m.Keys`left, m.Keys`right, m.Keys`balance
      ensures Holds(RotatedLeft(m, node))
      ensures root == if m[node].parent == null then m[node].right else old(root)
    {
      assert Carries(node, m[node]);
      assert Carries(node.right, m[node.right]);
      RotateLeftFields(node);
    }

    method RotateLeft(node: AvlNode<K>, ghost c: Ctx<K>, ghost t: Tree<K>)
      requires Focus(c, t) && t.Bin? && t.n == node && t.r.Bin?
      requires -2 <= t.b <= 2 && -2 <= t.r.b <= 2
      modifies this`root, this`turns, (CtxNodes(c) + Nodes(t))`parent, (CtxNodes(c) + Nodes(t))`left
      modifies (CtxNodes(c) + Nodes(t))`right, (CtxNodes(c) + Nodes(t))`balance
      ensures Focus(c, RotLeft(t)) && turns == old(turns) + [Turn(node, ParentOf(c), false)]
    {
      hide RotLeft, LinksOf, CtxLinks, Sep, CtxSep, RotatesLeft, RotatedLeft, Holds, Avl, Inorder;
      RotatesLeftAt(c, t);
      RotatedLeftAt(c, t);
      RotateLeftStore(node, ZipLinks(c, t));
      turns := turns + [Turn(node, ParentOf(c), false)];
    }

    // ------------------------------------------------------------ moving the focus

    lemma {:induction false} FocusUp(c: Ctx<K>, t: Tree<K>)
      requires !c.Top?
      ensures Focus(c, t) <==> Focus(c.up, Enclose(c, t))
    {
      ApartUp(c, t);
      if Apart(c, t) { ZipLinksUp(c, t); }
    }

    lemma {:induction false} FocusTop(c: Ctx<K>, t: Tree<K>)
      requires Apart(c, t)
      ensures Focus(c, t) <==> Focus(Top, Zip(c, t))
    {
      ZipLinksWhole(c, t);
    }

    method AddBalanceStore(parent: AvlNode<K>, d: int, ghost m: Store<K>)
      requires Holds(m) && parent in m && -2 <= m[parent].balance + d <= 2
      modifies parent`balance
      ensures Holds(m[parent := m[parent].(balance := m[parent].balance + d)])
      ensures parent.balance == m[parent].balance + d
    {
      assert Carries(parent, m[parent]);
      parent.balance := parent.balance + d;
    }

    method AddBalance(parent: AvlNode<K>, d: int, ghost c: Ctx<K>, ghost t: Tree<K>)
      requires Focus(c, t) && !c.Top? && c.n == parent && -2 <= c.b + d <= 2
      modifies parent`balance
      ensures Focus(WithBalance(c, c.b + d), t) && parent.balance == c.b + d
    {
      hide LinksOf, CtxLinks, Sep, CtxSep, Nodes;
      ghost var m := ZipLinks(c, t);
      assert parent in m && m[parent].balance == c.b by { HoleLinks(c, t); }
      AddBalanceStore(parent, d, m);
      WithBalanceLinks(c, t, c.b + d);
      assert Holds(ZipLinks(WithBalance(c, c.b + d), t));
    }

    /** What the pointers around the hole say. */
    lemma {:induction false} Around(c: Ctx<K>, t: Tree<K>)
      requires Focus(c, t)
      ensures t.Bin? ==>
        t.n.parent == ParentOf(c) && t.n.left == Root(t.l) && t.n.right == Root(t.r) && t.n.balance == t.b
      ensures c.InLeft? ==> c.n.left == Root(t) && c.n.right == Root(c.r) && c.n.balance == c.b
      ensures c.InRight? ==> c.n.right == Root(t) && c.n.left == Root(c.l) && c.n.balance == c.b
      ensures !c.Top? ==> c.n.parent == ParentOf(c.up)
      ensures t.Bin? && c.InRight? ==> c.n.left != t.n
      ensures t.Bin? && c.InLeft? ==> c.n.right != t.n
      ensures !c.Top? ==> c.n in CtxNodes(c)
      ensures t.Bin? && !c.Top? ==> c.n != t.n
    {
      HoleLinks(c, t);
      var m := ZipLinks(c, t);
      assert c.Top? || Carries(c.n, m[c.n]);
      assert t.Nil? || Carries(t.n, m[t.n]);
    }

    // ------------------------------------------------------------ rebalancing

    /** The heap holds one AVL tree with this walk. */
    ghost predicate Whole(u: Tree<K>, walk: seq<AvlNode<K>>)
      reads this`root, ZipLinks(Top, u).Keys`parent, ZipLinks(Top, u).Keys`left
      reads ZipLinks(Top, u).Keys`right, ZipLinks(Top, u).Keys`balance
    {
      Focus(Top, u) && Avl(u) && Inorder(u) == walk
    }

    /** A hole filled by a tree of the expected height completes an AVL tree. */
    lemma {:induction false} Close(c: Ctx<K>, t: Tree<K>)
      requires Focus(c, t) && Fits(c, t)
      ensures Whole(Zip(c, t), Walk(c, t))
      ensures Nodes(Zip(c, t)) == CtxNodes(c) + Nodes(t)
    {
      FocusTop(c, t);
      FitsWhole(c, t);
    }

    /** Close a climb after a repair: the repaired subtree has the height its parent expects. */
    lemma {:induction false} CloseFix(c: Ctx<K>, t: Tree<K>, v: Tree<K>)
      requires Repairs(v, c, t) && Focus(c.up, v) && Fits(c.up, v)
      ensures Whole(Zip(c.up, v), Walk(c, t))
      ensures Nodes(Zip(c.up, v)) == CtxNodes(c) + Nodes(t)
    {
      Close(c.up, v);
      EncloseWalk(c, t);
    }

    /** One right rotation repairs a left overhang below parent. */
    method SingleRightAt(parent: AvlNode<K>, ghost c: Ctx<K>, ghost t: Tree<K>)
      requires Focus(c, t) && LeftHeavy(c, t) && c.n == parent && t.b <= 0
      modifies this`root, this`turns, (CtxNodes(c) + Nodes(t))`parent, (CtxNodes(c) + Nodes(t))`left
      modifies (CtxNodes(c) + Nodes(t))`right, (CtxNodes(c) + Nodes(t))`balance
      ensures t.l.Bin? && Focus(c.up, FixLeft(t, parent, c.r)) && OneRepair(old(turns), turns)
    {
      FixLeftAvl(t, parent, c.r);
      FocusUp(c, t);
      RotateRight(parent, c.up, Enclose(c, t));
    }

    /** A left rotation of the left child, then a right rotation, repair a left overhang below parent. */
    method DoubleRightAt(node: AvlNode<K>, parent: AvlNode<K>, ghost c: Ctx<K>, ghost t: Tree<K>)
      requires Focus(c, t) && LeftHeavy(c, t) && c.n == parent && t.n == node && t.b > 0
      modifies this`root, this`turns, (CtxNodes(c) + Nodes(t))`parent, (CtxNodes(c) + Nodes(t))`left
      modifies (CtxNodes(c) + Nodes(t))`right, (CtxNodes(c) + Nodes(t))`balance
      ensures t.r.Bin? && Focus(c.up, FixLeft(t, parent, c.r)) && OneRepair(old(turns), turns)
    {
      hide OneRepair, Focus, Holds, LinksOf, CtxLinks, Sep, CtxSep, Avl, CtxAvl, Inorder, Nodes, CtxNodes, ZipLinks;
      ghost var right := Turn(parent, ParentOf(c.up), true);
      DoubleTurn(turns, Turn(node, ParentOf(c), false), right);
      LeftRepair(c, t);
      RotateLeft(node, c, t);
      FocusUp(c, RotLeft(t));
      RotateRight(parent, c.up, Enclose(c, RotLeft(t)));
    }

    /** One left rotation repairs a right overhang below parent. */
    method SingleLeftAt(parent: AvlNode<K>, ghost c: Ctx<K>, ghost t: Tree<K>)
      requires Focus(c, t) && RightHeavy(c, t) && c.n == parent && t.b >= 0
      modifies this`root, this`turns, (CtxNodes(c) + Nodes(t))`parent, (CtxNodes(c) + Nodes(t))`left
      modifies (CtxNodes(c) + Nodes(t))`right, (CtxNodes(c) + Nodes(t))`balance
      ensures t.r.Bin? && Focus(c.up, FixRight(c.l, parent, t)) && OneRepair(old(turns), turns)
    {
      FixRightAvl(c.l, parent, t);
      FocusUp(c, t);
      RotateLeft(parent, c.up, Enclose(c, t));
    }

    /** A right rotation of the right child, then a left rotation, repair a right overhang below parent. */
    method DoubleLeftAt(node: AvlNode<K>, parent: AvlNode<K>, ghost c: Ctx<K>, ghost t: Tree<K>)
      requires Focus(c, t) && RightHeavy(c, t) && c.n == parent && t.n == node && t.b < 0
      modifies this`root, this`turns, (CtxNodes(c) + Nodes(t))`parent, (CtxNodes(c) + Nodes(t))`left
      modifies (CtxNodes(c) + Nodes(t))`right, (CtxNodes(c) + Nodes(t))`balance
      ensures t.l.Bin? && Focus(c.up, FixRight(c.l, parent, t)) && OneRepair(old(turns), turns)
    {
      hide OneRepair, Focus, Holds, LinksOf, CtxLinks, Sep, CtxSep, Avl, CtxAvl, Inorder, Nodes, CtxNodes, ZipLinks;
      ghost var left := Turn(parent, ParentOf(c.up), false);
      DoubleTurn(turns, Turn(node, ParentOf(c), true), left);
      RightRepair(c, t);
      RotateRight(node, c, t);
      FocusUp(c, RotRight(t));
      RotateLeft(parent, c.up, Enclose(c, RotRight(t)));
    }

    /** _post_insert: the subtree t at node has grown by one level. */
    method PostInsert(node: AvlNode<K>, ghost c: Ctx<K>, ghost t: Tree<K>) returns (ghost u: Tree<K>)
      requires Focus(c, t) && Grown(c, t) && t.n == node
      modifies this`root, this`turns, (CtxNodes(c) + Nodes(t))`parent, (CtxNodes(c) + Nodes(t))`left
      modifies (CtxNodes(c) + Nodes(t))`right, (CtxNodes(c) + Nodes(t))`balance
      ensures Whole(u, Walk(c, t)) && Nodes(u) == CtxNodes(c) + Nodes(t)
      ensures OneRepair(old(turns), turns)
      decreases c, 1
    {
      Around(c, t);
      var parent := node.parent;

      if parent == null {
        Close(c, t);
        return t;
      }

      if node == parent.left {
        u := PostInsertLeft(node, parent, c, t);
        return;
      }
      u := PostInsertRight(node, parent, c, t);
    }

    method PostInsertLeft(node: AvlNode<K>, parent: AvlNode<K>, ghost c: Ctx<K>, ghost t: Tree<K>)
      returns (ghost u: Tree<K>)
      requires Focus(c, t) && Grown(c, t) && t.n == node && c.InLeft? && c.n == parent && node != parent
      requires parent in CtxNodes(c) && node.balance == t.b
      modifies this`root, this`turns, (CtxNodes(c) + Nodes(t))`parent, (CtxNodes(c) + Nodes(t))`left
      modifies (CtxNodes(c) + Nodes(t))`right, (CtxNodes(c) + Nodes(t))`balance
      ensures Whole(u, Walk(c, t)) && Nodes(u) == CtxNodes(c) + Nodes(t)
      ensures OneRepair(old(turns), turns)
      decreases c, 0
    {
      hide Focus, Grown, Whole, Avl, CtxAvl, Zip, Inorder, Before, After, Nodes, CtxNodes;
      GrewBalance(c, t);
      AddBalance(parent, -1, c, t);
      ghost var d := WithBalance(c, c.b - 1);
      WithBalanceWalk(c, c.b - 1);

      if parent.balance == 0 {
        GrewAbsorbed(c, t, d);
        Close(d, t);
        return Zip(d, t);
      }

      if parent.balance == -1 {
        FocusUp(d, t);
        EncloseWalk(d, t);
        GrewOn(c, t, d);
        u := PostInsert(parent, c.up, Enclose(d, t));
        return;
      }

      u := PostInsertHeavyLeft(node, parent, c, d, t);
    }

    method PostInsertHeavyLeft(node: AvlNode<K>, parent: AvlNode<K>, ghost c: Ctx<K>, ghost d: Ctx<K>, ghost t: Tree<K>)
      returns (ghost u: Tree<K>)
      requires Focus(d, t) && Grown(c, t) && t.n == node && node.balance == t.b
      requires c.InLeft? && c.b == -1 && c.n == parent && d == WithBalance(c, 2 * c.b)
      modifies this`root, this`turns, (CtxNodes(d) + Nodes(t))`parent, (CtxNodes(d) + Nodes(t))`left
      modifies (CtxNodes(d) + Nodes(t))`right, (CtxNodes(d) + Nodes(t))`balance
      ensures Whole(u, Walk(d, t)) && Nodes(u) == CtxNodes(d) + Nodes(t)
      ensures OneRepair(old(turns), turns)
    {
      ghost var v := GrewHeavyLeft(c, t, d);
      u := Zip(c.up, v);
      if node.balance == -1 {
        SingleRightAt(parent, d, t);
      } else {
        DoubleRightAt(node, parent, d, t);
      }
      CloseFix(d, t, v);
    }

    method PostInsertRight(node: AvlNode<K>, parent: AvlNode<K>, ghost c: Ctx<K>, ghost t: Tree<K>)
      returns (ghost u: Tree<K>)
      requires Focus(c, t) && Grown(c, t) && t.n == node && c.InRight? && c.n == parent && node != parent
      requires parent in CtxNodes(c) && node.balance == t.b
      modifies this`root, this`turns, (CtxNodes(c) + Nodes(t))`parent, (CtxNodes(c) + Nodes(t))`left
      modifies (CtxNodes(c) + Nodes(t))`right, (CtxNodes(c) + Nodes(t))`balance
      ensures Whole(u, Walk(c, t)) && Nodes(u) == CtxNodes(c) + Nodes(t)
      ensures OneRepair(old(turns), turns)
      decreases c, 0
    {
      hide Focus, Grown, Whole, Avl, CtxAvl, Zip, Inorder, Before, After, Nodes, CtxNodes;
      GrewBalance(c, t);
      AddBalance(parent, 1, c, t);
      ghost var d := WithBalance(c, c.b + 1);
      WithBalanceWalk(c, c.b + 1);

      if parent.balance == 0 {
        GrewAbsorbed(c, t, d);
        Close(d, t);
        return Zip(d, t);
      }

      if parent.balance == 1 {
        FocusUp(d, t);
        EncloseWalk(d, t);
        GrewOn(c, t, d);
        u := PostInsert(parent, c.up, Enclose(d, t));
        return;
      }

      u := PostInsertHeavyRight(node, parent, c, d, t);
    }

    method PostInsertHeavyRight(node: AvlNode<K>, parent: AvlNode<K>, ghost c: Ctx<K>, ghost d: Ctx<K>,
                                ghost t: Tree<K>)
      returns (ghost u: Tree<K>)
      requires Focus(d, t) && Grown(c, t) && t.n == node && node.balance == t.b
      requires c.InRight? && c.b == 1 && c.n == parent && d == WithBalance(c, 2 * c.b)
      modifies this`root, this`turns, (CtxNodes(d) + Nodes(t))`parent, (CtxNodes(d) + Nodes(t))`left
      modifies (CtxNodes(d) + Nodes(t))`right, (CtxNodes(d) + Nodes(t))`balance
      ensures Whole(u, Walk(d, t)) && Nodes(u) == CtxNodes(d) + Nodes(t)
      ensures OneRepair(old(turns), turns)
    {
      ghost var v := GrewHeavyRight(c, t, d);
      u := Zip(c.up, v);
      if node.balance == 1 {
        SingleLeftAt(parent, d, t);
      } else {
        DoubleLeftAt(node, parent, d, t);
      }
      CloseFix(d, t, v);
    }

    lemma {:induction false} FocusOther(c: Ctx<K>, t: Tree<K>)
      requires !c.Top? && Focus(c, t)
      ensures Focus(Other(c, t), Sibling(c))
    {
      FocusUp(c, t);
      FocusUp(Other(c, t), Sibling(c));
    }

    /** Parent pointers inside the subtree. */
    lemma {:induction false} ChildLinks(c: Ctx<K>, t: Tree<K>)
      requires Focus(c, t) && t.Bin?
      ensures t.l.Bin? ==> t.l.n.parent == t.n
      ensures t.r.Bin? ==> t.r.n.parent == t.n
    {
      var m := ZipLinks(c, t);
      if t.l.Bin? {
        LinksInside(t, ParentOf(c), t.l.n);
        LinksInside(t.l, t.n, t.l.n);
        assert Carries(t.l.n, m[t.l.n]);
      }
      if t.r.Bin? {
        LinksInside(t, ParentOf(c), t.r.n);
        LinksInside(t.r, t.n, t.r.n);
        assert Carries(t.r.n, m[t.r.n]);
      }
    }

    /** _avl_post_remove: the subtree t at node has lost one level. */
    method PostRemove(node: AvlNode<K>, ghost c: Ctx<K>, ghost t: Tree<K>) returns (ghost u: Tree<K>)
      requires Focus(c, t) && Shrunk(c, t) && t.Bin? && t.n == node
      modifies this`root, this`turns, (CtxNodes(c) + Nodes(t))`parent, (CtxNodes(c) + Nodes(t))`left
      modifies (CtxNodes(c) + Nodes(t))`right, (CtxNodes(c) + Nodes(t))`balance
      ensures Whole(u, Walk(c, t)) && Nodes(u) == CtxNodes(c) + Nodes(t)
      decreases c, 2
    {
      Around(c, t);
      var parent := node.parent;

      if parent == null {
        Close(c, t);
        return t;
      }

      if node == parent.left {
        u := RemovedLeft(parent, c, t);
        return;
      }
      u := RemovedRight(parent, c, t);
    }

    /** The left subtree of parent has lost one level: the first half of _avl_post_remove, and of
        the leaf case of _avl_remove_worker. */
    method RemovedLeft(parent: AvlNode<K>, ghost c: Ctx<K>, ghost t: Tree<K>) returns (ghost u: Tree<K>)
      requires Focus(c, t) && Shrunk(c, t) && c.InLeft? && c.n == parent && parent in CtxNodes(c)
      modifies this`root, this`turns, (CtxNodes(c) + Nodes(t))`parent, (CtxNodes(c) + Nodes(t))`left
      modifies (CtxNodes(c) + Nodes(t))`right, (CtxNodes(c) + Nodes(t))`balance
      ensures Whole(u, Walk(c, t)) && Nodes(u) == CtxNodes(c) + Nodes(t)
      decreases c, 1
    {
      hide Focus, Shrunk, Fits, Whole, Avl, CtxAvl, Zip, Inorder, Before, After, Nodes, CtxNodes;
      ShrankBalance(c, t);
      AddBalance(parent, 1, c, t);
      ghost var d := WithBalance(c, c.b + 1);
      WithBalanceWalk(c, c.b + 1);

      if parent.balance == 0 {
        FocusUp(d, t);
        EncloseWalk(d, t);
        ShrankOn(c, t, d);
        u := PostRemove(parent, c.up, Enclose(d, t));
        return;
      }

      if parent.balance == 1 {
        ShrankAbsorbed(c, t, d);
        Close(d, t);
        return Zip(d, t);
      }

      u := RemovedLeftHeavy(parent, c, d, t);
    }

    method RemovedLeftHeavy(parent: AvlNode<K>, ghost c: Ctx<K>, ghost d: Ctx<K>, ghost t: Tree<K>)
      returns (ghost u: Tree<K>)
      requires Focus(d, t) && Shrunk(c, t) && c.InLeft? && c.n == parent && c.b == 1 && d == WithBalance(c, 2)
      modifies this`root, this`turns, (CtxNodes(d) + Nodes(t))`parent, (CtxNodes(d) + Nodes(t))`left
      modifies (CtxNodes(d) + Nodes(t))`right, (CtxNodes(d) + Nodes(t))`balance
      ensures Whole(u, Walk(d, t)) && Nodes(u) == CtxNodes(d) + Nodes(t)
      decreases c, 0
    {
      hide Focus, Shrunk, Fits, Whole, Avl, CtxAvl, Zip, Inorder, Before, After, Nodes, CtxNodes, FixRight, Repairs;
      ghost var e, s := Other(d, t), c.r;
      ghost var v := ShrankHeavyRight(c, t, d);
      FocusOther(d, t);
      OtherWalk(d, t);
      Around(e, s);

      if parent.right.balance == 0 {
        SingleLeftAt(parent, e, s);
        CloseFix(e, s, v);
        return Zip(c.up, v);
      }

      if parent.right.balance == 1 {
        SingleLeftAt(parent, e, s);
      } else {
        DoubleLeftAt(parent.right, parent, e, s);
      }
      RepairedNodes(v, e, s);
      Around(c.up, v);
      ChildLinks(c.up, v);
      u := PostRemove(parent.parent, c.up, v);
    }

    /** The right subtree of parent has lost one level: the second half of _avl_post_remove, and of
        the leaf case of _avl_remove_worker. */
    method RemovedRight(parent: AvlNode<K>, ghost c: Ctx<K>, ghost t: Tree<K>) returns (ghost u: Tree<K>)
      requires Focus(c, t) && Shrunk(c, t) && c.InRight? && c.n == parent && parent in CtxNodes(c)
      modifies this`root, this`turns, (CtxNodes(c) + Nodes(t))`parent, (CtxNodes(c) + Nodes(t))`left
      modifies (CtxNodes(c) + Nodes(t))`right, (CtxNodes(c) + Nodes(t))`balance
      ensures Whole(u, Walk(c, t)) && Nodes(u) == CtxNodes(c) + Nodes(t)
      decreases c, 1
    {
      hide Focus, Shrunk, Fits, Whole, Avl, CtxAvl, Zip, Inorder, Before, After, Nodes, CtxNodes;
      ShrankBalance(c, t);
      AddBalance(parent, -1, c, t);
      ghost var d := WithBalance(c, c.b - 1);
      WithBalanceWalk(c, c.b - 1);

      if parent.balance == 0 {
        FocusUp(d, t);
        EncloseWalk(d, t);
        ShrankOn(c, t, d);
        u := PostRemove(parent, c.up, Enclose(d, t));
        return;
      }

      if parent.balance == -1 {
        ShrankAbsorbed(c, t, d);
        Close(d, t);
        return Zip(d, t);
      }

      u := RemovedRightHeavy(parent, c, d, t);
    }

    method RemovedRightHeavy(parent: AvlNode<K>, ghost c: Ctx<K>, ghost d: Ctx<K>, ghost t: Tree<K>)
      returns (ghost u: Tree<K>)
      requires Focus(d, t) && Shrunk(c, t) && c.InRight? && c.n == parent && c.b == -1 && d == WithBalance(c, -2)
      modifies this`root, this`turns, (CtxNodes(d) + Nodes(t))`parent, (CtxNodes(d) + Nodes(t))`left
      modifies (CtxNodes(d) + Nodes(t))`right, (CtxNodes(d) + Nodes(t))`balance
      ensures Whole(u, Walk(d, t)) && Nodes(u) == CtxNodes(d) + Nodes(t)
      decreases c, 0
    {
      hide Focus, Shrunk, Fits, Whole, Avl, CtxAvl, Zip, Inorder, Before, After, Nodes, CtxNodes, FixLeft, Repairs;
      ghost var e, s := Other(d, t), c.l;
      ghost var v := ShrankHeavyLeft(c, t, d);
      FocusOther(d, t);
      OtherWalk(d, t);
      Around(e, s);

      if parent.left.balance == 0 {
        SingleRightAt(parent, e, s);
        CloseFix(e, s, v);
        return Zip(c.up, v);
      }

      if parent.left.balance == -1 {
        SingleRightAt(parent, e, s);
      } else {
        DoubleRightAt(parent.left, parent, e, s);
      }
      RepairedNodes(v, e, s);
      Around(c.up, v);
      ChildLinks(c.up, v);
      u := PostRemove(parent.parent, c.up, v);
    }

    // ------------------------------------------------------------ taking a node out of the tree

    method SpliceFields(node: AvlNode<K>, child: AvlNode?<K>, ghost m: Store<K>)
      requires Holds(m) && Splices(m, node, child)
      modifies this`root, (m.Keys - {node})`parent, (m.Keys - {node})`left, (m.Keys - {node})`right
      ensures Holds(Spliced(m, node, child))
      ensures root == if m[node].parent == null then child else old(root)
    {
      assert Carries(node, m[node]);
      var parent := node.parent;
      if child != null {
        child.parent := parent;
      }
      if parent == null {
        root := child;
      } else if parent.left == node {
        parent.left := child;
      } else {
        parent.right := child;
      }
    }

    /** Hang the only child of node, or nothing, below node's parent. */
    method Splice(node: AvlNode<K>, child: AvlNode?<K>, ghost c: Ctx<K>, ghost t: Tree<K>, ghost s: Tree<K>)
      requires Focus(c, t) && OnlyChild(t, s) && t.n == node && Root(s) == child
      modifies this`root, (CtxNodes(c) + Nodes(s))`parent, (CtxNodes(c) + Nodes(s))`left, (CtxNodes(c) + Nodes(s))`right
      ensures Focus(c, s)
    {
      SplicesAt(c, t, s);
      SplicedAt(c, t, s);
      SpliceFields(node, child, ZipLinks(c, t));
    }

    method CopyFields(node: AvlNode<K>, x: AvlNode<K>, ghost m: Store<K>)
      requires Holds(m) && node in m && x !in m
      modifies x`parent, x`left, x`right, x`balance
      ensures Holds(m[x := m[node]])
    {
      assert Carries(node, m[node]);
      x.balance := node.balance;
      x.parent := node.parent;
      x.left := node.left;
      x.right := node.right;
    }

    method AdoptChildren(x: AvlNode<K>, ghost m: Store<K>)
      requires Holds(m) && x in m
      requires m[x].left != null ==> m[x].left in m && m[x].left != x && m[x].left != m[x].right
      requires m[x].right != null ==> m[x].right in m && m[x].right != x
      modifies (m.Keys - {x})`parent
      ensures Holds(Adopted(m, x))
    {
      assert Carries(x, m[x]);
      if x.left != null {
        x.left.parent := x;
      }

      if x.right != null {
        x.right.parent := x;
      }
    }

    method LinkParent(parent: AvlNode?<K>, node: AvlNode<K>, x: AvlNode<K>, ghost m: Store<K>)
      requires Holds(m) && (parent != null ==> parent in m)
      modifies this`root, m.Keys`left, m.Keys`right
      ensures Holds(Relinked(m, parent, node, x))
      ensures root == if parent == null then x else old(root)
    {
      if parent == null {
        root := x;
      } else if parent.left == node {
        assert Carries(parent, m[parent]);
        parent.left := x;
      } else {
        assert Carries(parent, m[parent]);
        parent.right := x;
      }
    }

    method TakeOverFields(node: AvlNode<K>, x: AvlNode<K>, ghost m: Store<K>)
      requires Holds(m) && TakesOver(m, node, x)
      modifies this`root, (m.Keys - {node} + {x})`parent, (m.Keys - {node} + {x})`left
      modifies (m.Keys - {node} + {x})`right, (m.Keys - {node} + {x})`balance
      ensures Holds(TakenOver(m, node, x))
      ensures root == if m[node].parent == null then x else old(root)
    {
      assert Carries(node, m[node]);
      var parent := node.parent;
      CopyFields(node, x, m);
      ghost var k := (m - {node})[x := m[node]];
      HoldsPart(m[x := m[node]], k);
      AdoptChildren(x, k);
      LinkParent(parent, node, x, Adopted(k, x));
      TakenOverSteps(m, node, x);
    }

    /** Let x stand in the tree where node stands. */
    method TakeOver(node: AvlNode<K>, x: AvlNode<K>, ghost c: Ctx<K>, ghost t: Tree<K>)
      requires Focus(c, t) && t.Bin? && t.n == node && x !in CtxNodes(c) + Nodes(t)
      modifies this`root, (CtxNodes(c) + Nodes(t) - {node} + {x})`parent, (CtxNodes(c) + Nodes(t) - {node} + {x})`left
      modifies (CtxNodes(c) + Nodes(t) - {node} + {x})`right, (CtxNodes(c) + Nodes(t) - {node} + {x})`balance
      ensures Focus(c, Bin(t.l, x, t.b, t.r))
    {
      TakesOverAt(c, t, x);
      TakenOverAt(c, t, x);
      TakeOverFields(node, x, ZipLinks(c, t));
    }

    /** _avl_local_min: the leftmost node below node. */
    method LocalMin(start: AvlNode<K>, ghost c: Ctx<K>, ghost t: Tree<K>)
      returns (node: AvlNode<K>, ghost mc: Ctx<K>, ghost m: Tree<K>)
      requires Focus(c, t) && t.Bin? && t.n == start
      ensures Focus(mc, m) && m.Bin? && m.n == node && m.l.Nil?
      ensures Zip(mc, m) == Zip(c, t) && Before(mc) == Before(c)
    {
      hide Before, After, Inorder, Avl, CtxAvl, Sep, CtxSep, LinksOf, CtxLinks, Nodes, CtxNodes, Zip;
      node, mc, m := start, c, t;
      Around(mc, m);
      while node.left != null
        invariant Focus(mc, m) && m.Bin? && m.n == node && node.left == Root(m.l)
        invariant Zip(mc, m) == Zip(c, t) && Before(mc) == Before(c)
        decreases m
      {
        ghost var d := InLeft(mc, m.n, m.b, m.r);
        FocusUp(d, m.l);
        DescendLeft(mc, m);
        node, mc, m := node.left, d, m.l;
        Around(mc, m);
      }
    }

    /** _avl_remove_worker: take node out of the tree. */
    method RemoveWorker(node: AvlNode<K>, ghost c: Ctx<K>, ghost t: Tree<K>) returns (ghost u: Tree<K>)
      requires Focus(c, t) && Fits(c, t) && t.Bin? && t.n == node
      modifies this`root, this`turns, (CtxNodes(c) + Nodes(t))`parent, (CtxNodes(c) + Nodes(t))`left
      modifies (CtxNodes(c) + Nodes(t))`right, (CtxNodes(c) + Nodes(t))`balance
      ensures Whole(u, WalkWithout(c, t))
      ensures Nodes(u) == CtxNodes(c) + Nodes(t) - {node}
      decreases if t.l.Bin? && t.r.Bin? then 1 else 0, 1
    {
      Around(c, t);

      if node.left == null && node.right == null {
        u := RemoveLeaf(node, c, t);
        return;
      }

      if node.left == null {
        u := RemoveSingle(node, node.right, c, t, t.r);
        return;
      }

      if node.right == null {
        u := RemoveSingle(node, node.left, c, t, t.l);
        return;
      }

      u := RemoveInner(node, c, t);
    }

    /** _avl_remove_worker, a node without children. */
    method RemoveLeaf(node: AvlNode<K>, ghost c: Ctx<K>, ghost t: Tree<K>) returns (ghost u: Tree<K>)
      requires Focus(c, t) && Fits(c, t) && t.Bin? && t.n == node && t.l.Nil? && t.r.Nil?
      modifies this`root, this`turns, (CtxNodes(c) + Nodes(t))`parent, (CtxNodes(c) + Nodes(t))`left
      modifies (CtxNodes(c) + Nodes(t))`right, (CtxNodes(c) + Nodes(t))`balance
      ensures Whole(u, WalkWithout(c, t))
      ensures Nodes(u) == CtxNodes(c) + Nodes(t) - {node}
    {
      hide Focus, Fits, Shrunk, Whole, Before, After, CtxNodes, CtxAvl, Avl;
      Around(c, t);
      SpliceFacts(c, t, Nil);
      var parent := node.parent;
      var isLeft := parent != null && parent.left == node;
      Splice(node, null, c, t, Nil);

      if parent == null {
        ShrunkTop(c, Nil);
        Close(c, Nil);
        return Zip(c, Nil);
      }

      if isLeft {
        u := RemovedLeft(parent, c, Nil);
        return;
      }
      u := RemovedRight(parent, c, Nil);
    }

    /** _avl_remove_worker, a node with one child. */
    method RemoveSingle(node: AvlNode<K>, child: AvlNode<K>, ghost c: Ctx<K>, ghost t: Tree<K>, ghost s: Tree<K>)
      returns (ghost u: Tree<K>)
      requires Focus(c, t) && Fits(c, t) && OnlyChild(t, s) && t.Bin? && t.n == node && s.Bin? && s.n == child
      modifies this`root, this`turns, (CtxNodes(c) + Nodes(t))`parent, (CtxNodes(c) + Nodes(t))`left
      modifies (CtxNodes(c) + Nodes(t))`right, (CtxNodes(c) + Nodes(t))`balance
      ensures Whole(u, WalkWithout(c, t))
      ensures Nodes(u) == CtxNodes(c) + Nodes(t) - {node}
    {
      hide Focus, Fits, Shrunk, Whole, Before, After, CtxNodes, CtxAvl, Avl, OnlyChild, Inorder, Nodes;
      Around(c, t);
      SpliceFacts(c, t, s);
      var parent := node.parent;
      Splice(node, child, c, t, s);

      if parent == null {
        ShrunkTop(c, s);
        Close(c, s);
        return Zip(c, s);
      }

      u := PostRemove(child, c, s);
    }

    /** _avl_remove_worker, a node with two children: the minimum of the right subtree leaves its
        place first and then takes over node's place. */
    method RemoveInner(node: AvlNode<K>, ghost c: Ctx<K>, ghost t: Tree<K>) returns (ghost u: Tree<K>)
      requires Focus(c, t) && Fits(c, t) && t.Bin? && t.n == node && t.l.Bin? && t.r.Bin?
      modifies this`root, this`turns, (CtxNodes(c) + Nodes(t))`parent, (CtxNodes(c) + Nodes(t))`left
      modifies (CtxNodes(c) + Nodes(t))`right, (CtxNodes(c) + Nodes(t))`balance
      ensures Whole(u, WalkWithout(c, t))
      ensures Nodes(u) == CtxNodes(c) + Nodes(t) - {node}
      decreases 1, 0
    {
      hide Focus, Fits, Shrunk, Whole, Before, After, CtxNodes, CtxAvl, Avl, Inorder, Nodes, Zip;
      Around(c, t);
      InnerFacts(c, t);
      var min; ghost var mc, m;
      min, mc, m := LocalMin(node.right, InRight(t.l, c, t.n, t.b), t.r);
      MinFacts(c, t, mc, m);
      ghost var v := RemoveWorker(min, mc, m);

      ghost var c2, t2 := LocateFocus(v, node, WalkWithout(mc, m));
      ghost var x := MinTakesOver(c, t, mc, m, v, c2, t2);
      InnerNodes(c, t, mc, m, v, c2, t2);
      TakeOver(node, min, c2, t2);
      Close(c2, x);
      return Zip(c2, x);
    }

    lemma {:induction false} SpliceFacts(c: Ctx<K>, t: Tree<K>, s: Tree<K>)
      requires Focus(c, t) && Fits(c, t) && OnlyChild(t, s)
      ensures Shrunk(c, s)
      ensures CtxNodes(c) + Nodes(s) == CtxNodes(c) + Nodes(t) - {t.n}
      ensures Walk(c, s) == WalkWithout(c, t)
    {
      SplicesAt(c, t, s);
      SplicedShrunk(c, t, s);
      SplicedWalk(c, t, s);
    }

    lemma {:induction false} ShrunkTop(c: Ctx<K>, s: Tree<K>)
      requires Shrunk(c, s) && c.Top?
      ensures Fits(c, s)
    {
    }

    lemma {:induction false} InnerFacts(c: Ctx<K>, t: Tree<K>)
      requires Focus(c, t) && t.Bin?
      ensures Apart(c, t)
      ensures Focus(InRight(t.l, c, t.n, t.b), t.r)
    {
      FocusUp(InRight(t.l, c, t.n, t.b), t.r);
    }

    lemma {:induction false} MinFacts(c: Ctx<K>, t: Tree<K>, mc: Ctx<K>, m: Tree<K>)
      requires t.Bin? && Fits(c, t) && m.Bin? && Focus(mc, m)
      requires Zip(mc, m) == Zip(InRight(t.l, c, t.n, t.b), t.r) && Before(mc) == Before(InRight(t.l, c, t.n, t.b))
      ensures Fits(mc, m) && Zip(mc, m) == Zip(c, t) && Before(mc) == Preceding(c, t) + [t.n]
      ensures CtxNodes(mc) + Nodes(m) == CtxNodes(c) + Nodes(t)
      ensures t.n in CtxNodes(mc) && m.n in CtxNodes(c) + Nodes(t) && m.n != t.n
    {
      BeforeNodes(mc, t.n);
      FitsZip(c, t);
      FitsZip(mc, m);
      ZipNodes(c, t);
      ZipNodes(mc, m);
      RootInside(m);
    }

    lemma {:induction false} LocateFocus(v: Tree<K>, node: AvlNode<K>, walk: seq<AvlNode<K>>)
      returns (c2: Ctx<K>, t2: Tree<K>)
      requires Whole(v, walk) && node in Nodes(v)
      ensures Focus(c2, t2) && t2.Bin? && t2.n == node && Zip(c2, t2) == v
      ensures CtxNodes(c2) + Nodes(t2) == Nodes(v)
      ensures Avl(v) && Sep(v) && Inorder(v) == walk
    {
      c2, t2 := Locate(Top, v, node);
      ZipSep(c2, t2);
      FocusTop(c2, t2);
      ZipNodes(c2, t2);
    }

    lemma {:induction false} InnerNodes(c: Ctx<K>, t: Tree<K>, mc: Ctx<K>, m: Tree<K>, v: Tree<K>, c2: Ctx<K>,
                                        t2: Tree<K>)
      requires NextIn(c, t, mc, m) && StandsAt(v, c2, t2, t.n) && Sep(v) && Nodes(v) == CtxNodes(mc) + Nodes(m) - {m.n}
      ensures m.n !in CtxNodes(c2) + Nodes(t2)
      ensures CtxNodes(c2) + Nodes(Bin(t2.l, m.n, t2.b, t2.r)) == CtxNodes(c) + Nodes(t) - {t.n}
    {
      hide Zip, Before, After, Inorder, CtxNodes, CtxSep;
      ZipNodes(c, t);
      ZipNodes(mc, m);
      ZipNodes(c2, t2);
      ZipSep(c2, t2);
      assert Nodes(t2) == Nodes(t2.l) + {t2.n} + Nodes(t2.r);
      var x := Bin(t2.l, m.n, t2.b, t2.r);
      assert Nodes(x) == Nodes(t2) - {t.n} + {m.n};
    }

    // ------------------------------------------------------------ searching

    /** _avl_find_rec: the leader with this key, or the leader below which it would be hung. */
    method FindRec(node: AvlNode<K>, key: K, ghost c: Ctx<K>, ghost t: Tree<K>)
      returns (res: AvlNode<K>, diff: int, ghost rc: Ctx<K>, ghost r: Tree<K>)
      requires TotalOrder(comp) && Focus(c, t) && Narrowed(comp, c, t, key) && t.n == node
      ensures Focus(rc, r) && Found(comp, rc, r, key) && r.n == res && Zip(rc, r) == Zip(c, t)
      ensures diff == comp(key, res.key)
      ensures diff < 0 ==> r.l.Nil?
      ensures diff > 0 ==> r.r.Nil?
      ensures Depth(rc) < Depth(c) + Height(t)
      decreases t
    {
      hide Before, After, Inorder, Sep, CtxSep, LinksOf, CtxLinks, TotalOrder, Avl, CtxAvl, Nodes, CtxNodes;
      Around(c, t);
      diff := comp(key, node.key);

      if diff < 0 {
        if node.left != null {
          GoLeft(comp, c, t, key);
          FocusUp(InLeft(c, t.n, t.b, t.r), t.l);
          DescendLeft(c, t);
          res, diff, rc, r := FindRec(node.left, key, InLeft(c, t.n, t.b, t.r), t.l);
          return;
        }
        Stop(comp, c, t, key);
        return node, diff, c, t;
      }

      if diff > 0 {
        if node.right != null {
          GoRight(comp, c, t, key);
          FocusUp(InRight(t.l, c, t.n, t.b), t.r);
          DescendRight(c, t);
          res, diff, rc, r := FindRec(node.right, key, InRight(t.l, c, t.n, t.b), t.r);
          return;
        }
        Stop(comp, c, t, key);
        return node, diff, c, t;
      }

      Stop(comp, c, t, key);
      return node, diff, c, t;
    }

    // ------------------------------------------------------------ hanging a new leaf

    /** Hang x as the left child of node, whose balance becomes b. */
    method HangLeft(node: AvlNode<K>, x: AvlNode<K>, b: SignedChar, ghost c: Ctx<K>, ghost t: Tree<K>)
      requires Focus(c, t) && t.Bin? && t.n == node && t.l.Nil? && x !in CtxNodes(c) + Nodes(t)
      requires x.left == null && x.right == null && x.balance == 0
      modifies node`balance, node`left, x`parent
      ensures Focus(c, Bin(Leaf(x), node, b, t.r))
    {
      HungLeftAt(c, t, x, b);
      HangLeftFields(node, x, b, ZipLinks(c, t));
    }

    method HangLeftFields(node: AvlNode<K>, x: AvlNode<K>, b: SignedChar, ghost m: Store<K>)
      requires Holds(m) && node in m && x !in m && x.left == null && x.right == null && x.balance == 0
      modifies node`balance, node`left, x`parent
      ensures Holds(HungLeft(m, node, x, b))
    {
      assert Carries(node, m[node]);
      node.balance := b;
      x.parent := node;
      node.left := x;
    }

    /** Hang x as the right child of node, whose balance becomes b. */
    method HangRight(node: AvlNode<K>, x: AvlNode<K>, b: SignedChar, ghost c: Ctx<K>, ghost t: Tree<K>)
      requires Focus(c, t) && t.Bin? && t.n == node && t.r.Nil? && x !in CtxNodes(c) + Nodes(t)
      requires x.left == null && x.right == null && x.balance == 0
      modifies node`balance, node`right, x`parent
      ensures Focus(c, Bin(t.l, node, b, Leaf(x)))
    {
      HungRightAt(c, t, x, b);
      HangRightFields(node, x, b, ZipLinks(c, t));
    }

    method HangRightFields(node: AvlNode<K>, x: AvlNode<K>, b: SignedChar, ghost m: Store<K>)
      requires Holds(m) && node in m && x !in m && x.left == null && x.right == null && x.balance == 0
      modifies node`balance, node`right, x`parent
      ensures Holds(HungRight(m, node, x, b))
    {
      assert Carries(node, m[node]);
      node.balance := b;
      x.parent := node;
      node.right := x;
    }

    // ------------------------------------------------------------ the list

    /** A node's leader flag says whether it starts a run of equal keys. */
    ghost predicate Marked(s: seq<AvlNode<K>>)
      reads Elems(s)`leader
    {
      forall i {:trigger s[i].leader} :: 0 <= i < |s| ==> (s[i].leader <==> IsFirst(comp, s, i))
    }

    ghost predicate Listed()
      reads this`elems, this`count, ({listHead} + Elems(elems))`next, ({listHead} + Elems(elems))`prev
    {
      Ring(listHead, elems) && count == |elems| % WRAP
    }

    /** _avl_insert_before */
    method InsertBefore(pos: AvlNode<K>, x: AvlNode<K>, ghost p: nat)
      requires Listed() && p < |elems| && elems[p] == pos && x !in elems && x != listHead
      modifies this`elems, this`count
      modifies ({x, listHead} + Elems(elems))`next, ({x, listHead} + Elems(elems))`prev
      ensures Listed() && elems == Inserted(old(elems), p, x)
    {
      hide NoDup, Ring, At;
      RingEnds(listHead, elems, p);
      RingNear(listHead, elems, p);
      ListAdd(pos.prev, pos, x, listHead, elems, p);
      count := (count + 1) % WRAP;
      elems := Inserted(elems, p, x);
    }

    /** _avl_insert_after */
    method InsertAfter(pos: AvlNode<K>, x: AvlNode<K>, ghost p: nat)
      requires Listed() && p < |elems| && elems[p] == pos && x !in elems && x != listHead
      modifies this`elems, this`count
      modifies ({x, listHead} + Elems(elems))`next, ({x, listHead} + Elems(elems))`prev
      ensures Listed() && elems == Inserted(old(elems), p + 1, x)
    {
      hide NoDup, Ring, At;
      RingEnds(listHead, elems, p);
      RingNear(listHead, elems, p);
      ListAdd(pos, pos.next, x, listHead, elems, p + 1);
      count := (count + 1) % WRAP;
      elems := Inserted(elems, p + 1, x);
    }

    /** _avl_remove */
    method Unlist(x: AvlNode<K>, ghost p: nat)
      requires Listed() && p < |elems| && elems[p] == x
      modifies this`elems, this`count
      modifies ({listHead} + Elems(elems))`next, ({listHead} + Elems(elems))`prev
      ensures Listed() && elems == Removed(old(elems), p)
      ensures x.next == null && x.prev == null
    {
      hide NoDup;
      RingEnds(listHead, elems, p);
      ListRemove(x, listHead, elems, p);
      count := (count - 1) % WRAP;
      elems := Removed(elems, p);
    }

    /** The last node of the run that node starts. */
    method RunEnd(node: AvlNode<K>, ghost i: nat) returns (last: AvlNode<K>, ghost j: nat)
      requires Listed() && Marked(elems) && i < |elems| && elems[i] == node && IsFirst(comp, elems, i)
      ensures Run(comp, elems, i, j) && elems[j] == last
    {
      last, j := node, i;
      RingEnds(listHead, elems, j);
      while listHead.prev != last
        invariant i <= j < |elems| && elems[j] == last
        invariant forall m :: i < m <= j ==> !IsFirst(comp, elems, m)
        invariant listHead.prev == last <==> j == |elems| - 1
        decreases |elems| - j
      {
        RingEnds(listHead, elems, j);
        var next := last.next;
        assert next == elems[j + 1];
        if next.leader {
          break;
        }
        last, j := next, j + 1;
        RingEnds(listHead, elems, j);
      }
    }

    // ------------------------------------------------------------ validity

    ghost predicate Valid()
      reads this, {listHead} + Elems(elems)
    {
      && Nodes(shape) <= Elems(elems)
      && Listed() && Ordered(elems) && Marked(elems)
      && Whole(shape, Firsts(comp, elems))
    }

    ghost predicate Ordered(s: seq<AvlNode<K>>) {
      TotalOrder(comp) && Sorted(comp, s) && (allowDups || StrictlySorted(comp, s))
    }

    /** What a valid state promises, in plain terms: the list is sorted and its leaders are exactly the
        nodes at run starts; the leaders in list order are the in-order walk of the tree, strictly
        ascending; a tree of height h has at least Fib(h + 2) - 1 of them; count is the list length. */
    lemma {:induction false} Meaning()
      requires Valid()
      ensures Sorted(comp, elems) && count == |elems| % WRAP
      ensures forall i :: 0 <= i < |elems| ==> (elems[i].leader
        <==> i == 0 || comp(elems[i - 1].key, elems[i].key) != 0)
      ensures Inorder(shape) == Firsts(comp, elems) && StrictlySorted(comp, Inorder(shape))
      ensures Fib(Height(shape) + 2) - 1 <= |Inorder(shape)| && |Inorder(shape)| <= |elems|
    {
      FirstsStrict(comp, elems);
      AvlSize(shape);
      FirstsFew(comp, elems);
    }

    /** Around every node of the tree: the pointers mirror the shape, and the stored balance is the
        height of the right subtree minus the height of the left, one of -1, 0 and 1. */
    lemma {:induction false} Mirror(c: Ctx<K>, t: Tree<K>)
      requires Valid() && Zip(c, t) == shape && t.Bin?
      ensures t.n.parent == ParentOf(c) && t.n.left == Root(t.l) && t.n.right == Root(t.r)
      ensures t.l.Bin? ==> t.l.n.parent == t.n
      ensures t.r.Bin? ==> t.r.n.parent == t.n
      ensures t.n.balance == Height(t.r) - Height(t.l) && -1 <= t.n.balance <= 1
    {
      ZipSep(c, t);
      FocusTop(c, t);
      FitsZip(c, t);
      Around(c, t);
      FocusUp(InLeft(c, t.n, t.b, t.r), t.l);
      Around(InLeft(c, t.n, t.b, t.r), t.l);
      FocusUp(InRight(t.l, c, t.n, t.b), t.r);
      Around(InRight(t.l, c, t.n, t.b), t.r);
    }

    /** The tree is empty exactly when the list is. */
    lemma {:induction false} RootEmpty()
      requires Valid()
      ensures root == null <==> elems == []
      ensures root == Root(shape)
    {
      if elems != [] { FirstsHead(comp, elems); }
    }

    // ------------------------------------------------------------ insertion

    method HangBefore(node: AvlNode<K>, x: AvlNode<K>, b: SignedChar, ghost c: Ctx<K>, ghost t: Tree<K>, ghost p: nat)
      requires Listed() && p < |elems| && elems[p] == node && x !in elems && x != listHead
      requires Focus(c, t) && t.Bin? && t.n == node && t.l.Nil? && x !in CtxNodes(c) + Nodes(t)
      requires x.left == null && x.right == null && x.balance == 0
      modifies this`elems, this`count
      modifies ({x, listHead} + Elems(elems))`next, ({x, listHead} + Elems(elems))`prev
      modifies node`balance, node`left, x`parent
      ensures Listed() && elems == Inserted(old(elems), p, x)
      ensures Focus(c, Bin(Leaf(x), node, b, t.r))
    {
      hide LinksOf, CtxLinks, Sep, CtxSep, Nodes, CtxNodes, Inserted, Apart, RootVia, ZipLinks;
      HangLeft(node, x, b, c, t);
      ghost var m, top := ZipLinks(c, Bin(Leaf(x), node, b, t.r)), root;
      assert Holds(m);
      InsertBefore(node, x, p);
      assert forall n :: n in m ==> n.parent == m[n].parent;
      assert Holds(m) && root == top;
    }

    method HangAfter(node: AvlNode<K>, last: AvlNode<K>, x: AvlNode<K>, b: SignedChar, ghost c: Ctx<K>,
                     ghost t: Tree<K>, ghost p: nat)
      requires Listed() && p < |elems| && elems[p] == last && x !in elems && x != listHead
      requires Focus(c, t) && t.Bin? && t.n == node && t.r.Nil? && x !in CtxNodes(c) + Nodes(t)
      requires x.left == null && x.right == null && x.balance == 0
      modifies this`elems, this`count
      modifies ({x, listHead} + Elems(elems))`next, ({x, listHead} + Elems(elems))`prev
      modifies node`balance, node`right, x`parent
      ensures Listed() && elems == Inserted(old(elems), p + 1, x)
      ensures Focus(c, Bin(t.l, node, b, Leaf(x)))
    {
      hide LinksOf, CtxLinks, Sep, CtxSep, Nodes, CtxNodes, Inserted, Apart, RootVia, ZipLinks;
      HangRight(node, x, b, c, t);
      ghost var m, top := ZipLinks(c, Bin(t.l, node, b, Leaf(x))), root;
      assert Holds(m);
      InsertAfter(last, x, p);
      assert forall n :: n in m ==> n.parent == m[n].parent;
      assert Holds(m) && root == top;
    }

    /** The part of avl_insert that hangs a new leader x at node, where a search for x's key ended:
        left of it when diff < 0, right of it when diff > 0. */
    method InsertLeader(node: AvlNode<K>, last: AvlNode<K>, x: AvlNode<K>, diff: int,
                        ghost c: Ctx<K>, ghost t: Tree<K>, ghost i: nat, ghost j: nat) returns (ghost u: Tree<K>)
      requires Listed() && i <= j < |elems| && elems[i] == node && elems[j] == last
      requires Focus(c, t) && Fits(c, t) && t.Bin? && t.n == node
      requires diff != 0 && (diff < 0 ==> t.l.Nil?) && (diff > 0 ==> t.r.Nil?)
      requires CtxNodes(c) + Nodes(t) <= Elems(elems) && x !in elems && x != listHead
      requires x.left == null && x.right == null && x.balance == 0
      modifies this`root, this`turns, this`count, this`elems
      modifies ({x, listHead} + Elems(elems))`next, ({x, listHead} + Elems(elems))`prev
      modifies ({x} + Elems(elems))`parent, ({x} + Elems(elems))`left
      modifies ({x} + Elems(elems))`right, ({x} + Elems(elems))`balance
      ensures Listed() && elems == Inserted(old(elems), if diff < 0 then i else j + 1, x)
      ensures Whole(u, if diff < 0
                       then Preceding(c, t) + [x] + ([t.n] + Following(c, t))
                       else Preceding(c, t) + [t.n] + ([x] + Following(c, t)))
      ensures Nodes(u) == CtxNodes(c) + Nodes(t) + {x} && OneRepair(old(turns), turns)
    {
      hide Focus, Fits, Grown, Whole, Before, After, CtxNodes, CtxAvl, Avl, Inorder, Nodes, Zip, Inserted, LinksOf,
           CtxLinks, Sep, CtxSep;
      hide NoDup, ZipLinks, Apart;
      Around(c, t);
      InsertLeaderFacts(c, t, x, diff);

      if node.balance == 1 {
        HangBefore(node, x, 0, c, t, i);
        HungLeftWalk(c, t, x, 0);
        Close(c, Bin(Leaf(x), node, 0, t.r));
        return Zip(c, Bin(Leaf(x), node, 0, t.r));
      }

      if node.balance == -1 {
        HangAfter(node, last, x, 0, c, t, j);
        HungRightWalk(c, t, x, 0);
        Close(c, Bin(t.l, node, 0, Leaf(x)));
        return Zip(c, Bin(t.l, node, 0, Leaf(x)));
      }

      if diff < 0 {
        HangBefore(node, x, -1, c, t, i);
        HungLeftWalk(c, t, x, -1);
        u := PostInsert(node, c, Bin(Leaf(x), node, -1, t.r));
        return;
      }

      HangAfter(node, last, x, 1, c, t, j);
      HungRightWalk(c, t, x, 1);
      u := PostInsert(node, c, Bin(t.l, node, 1, Leaf(x)));
    }

    lemma {:induction false} InsertLeaderFacts(c: Ctx<K>, t: Tree<K>, x: AvlNode<K>, diff: int)
      requires Focus(c, t) && Fits(c, t) && t.Bin?
      requires diff != 0 && (diff < 0 ==> t.l.Nil?) && (diff > 0 ==> t.r.Nil?)
      requires CtxNodes(c) + Nodes(t) <= Elems(elems) && x !in elems
      ensures t.n in elems && t.n in Elems(elems) && x !in CtxNodes(c) + Nodes(t)
      ensures Elems(elems) + {x} == {x} + Elems(elems)
      ensures t.b == 1 ==> diff < 0 && Fits(c, Bin(Leaf(x), t.n, 0, t.r))
      ensures t.b == -1 ==> diff > 0 && Fits(c, Bin(t.l, t.n, 0, Leaf(x)))
      ensures t.b != 1 && t.b != -1 && diff < 0 ==> Grown(c, Bin(Leaf(x), t.n, -1, t.r))
      ensures t.b != 1 && t.b != -1 && diff > 0 ==> Grown(c, Bin(t.l, t.n, 1, Leaf(x)))
    {
      hide CtxAvl, Avl, Grown, Fits;
      RootInside(t);
      if diff < 0 { HungLeftBalance(c, t, x); } else { HungRightBalance(c, t, x); }
    }

    /** Marks survive an insertion that sets x's own flag right. */
    lemma {:induction false} MarkedInserted(s: seq<AvlNode<K>>, p: nat, x: AvlNode<K>)
      requires Marked(s) && p <= |s|
      requires x.leader <==> IsFirst(comp, Inserted(s, p, x), p)
      requires forall m :: 0 <= m < |s| + 1 ==> m != p ==>
        (IsFirst(comp, Inserted(s, p, x), m) <==> IsFirst(comp, s, if m < p then m else m - 1))
      ensures Marked(Inserted(s, p, x))
    {
      var t := Inserted(s, p, x);
      forall m | 0 <= m < |t| ensures t[m].leader <==> IsFirst(comp, t, m) {
        if m != p { assert t[m] == s[if m < p then m else m - 1]; }
      }
    }

    /** Where the key belongs: the leader at which the search ends, and the end of its run. */
    method Place(key: K)
      returns (node: AvlNode<K>, last: AvlNode<K>, ghost c: Ctx<K>, ghost t: Tree<K>, ghost i: nat, ghost j: nat)
      requires Valid() && root != null
      ensures Focus(c, t) && Fits(c, t) && t.Bin? && t.n == node && elems != []
      ensures CtxNodes(c) + Nodes(t) == Nodes(shape)
      ensures Spot(comp, elems, key, node, i, j) && i <= j < |elems| && elems[i] == node && elems[j] == last
      ensures Firsts(comp, elems[..i]) == Preceding(c, t)
      ensures Firsts(comp, elems[j + 1..]) == Following(c, t)
      ensures comp(key, node.key) < 0 ==> t.l.Nil?
      ensures comp(key, node.key) > 0 ==> t.r.Nil?
    {
      hide Sep, CtxSep, LinksOf, CtxLinks, TotalOrder, Avl, CtxAvl, Nodes, CtxNodes, Firsts, Spot, Fits;
      RootEmpty();
      assert Narrowed(comp, Top, shape, key) by { FirstsStrict(comp, elems); }
      var diff;
      node, diff, c, t := FindRec(root, key, Top, shape);
      i := PlaceFacts(c, t, key);
      last, j := RunEnd(node, i);
      SpotAt(comp, elems, key, Preceding(c, t), node, Following(c, t), i, j);
    }

    lemma {:induction false} PlaceFacts(c: Ctx<K>, t: Tree<K>, key: K) returns (i: nat)
      requires Valid() && t.Bin? && Zip(c, t) == shape
      ensures Fits(c, t) && CtxNodes(c) + Nodes(t) == Nodes(shape)
      ensures Firsts(comp, elems) == Preceding(c, t) + [t.n] + Following(c, t)
      ensures i < |elems| && elems[i] == t.n && IsFirst(comp, elems, i)
    {
      hide Firsts;
      FitsZip(c, t);
      ZipNodes(c, t);
      ZipInorder(c, t);
      AroundWalk(c, t);
      i := SplitAtLeader(comp, elems, Preceding(c, t), t.n, Following(c, t));
    }

    /** The part of avl_insert for an empty tree. */
    method InsertFirst(x: AvlNode<K>)
      requires Valid() && elems == [] && x != listHead && x.leader
      requires x.left == null && x.right == null && x.parent == null && x.balance == 0
      modifies this`root, this`count, this`elems, this`shape, {x, listHead}`next, {x, listHead}`prev
      ensures Valid() && elems == [x]
    {
      ListAdd(listHead, listHead.next, x, listHead, elems, 0);
      root := x;
      count := 1;
      elems, shape := [x], Leaf(x);
      LeafWhole(x);
      assert Marked([x]) && Firsts(comp, [x]) == [x];
    }

    lemma {:induction false} LeafWhole(x: AvlNode<K>)
      requires root == x && x.left == null && x.right == null && x.parent == null && x.balance == 0
      ensures Whole(Leaf(x), [x]) && Nodes(Leaf(x)) == {x}
    {
      var m := ZipLinks(Top, Leaf(x));
      assert m.Keys == {x};
      assert Carries(x, m[x]);
      assert Sep<K>(Nil) && Sep(Leaf(x));
    }

    /** The part of avl_insert for a key that is present: only the list changes. */
    method InsertDuplicate(x: AvlNode<K>, node: AvlNode<K>, last: AvlNode<K>, ghost i: nat, ghost j: nat)
      requires Valid() && x !in elems && x != listHead && !x.leader && allowDups
      requires Spot(comp, elems, x.key, node, i, j) && comp(x.key, node.key) == 0 && j < |elems| && elems[j] == last
      modifies this`count, this`elems, ({x, listHead} + Elems(elems))`next, ({x, listHead} + Elems(elems))`prev
      ensures Valid() && elems == StableInsert(comp, old(elems), x)
    {
      hide Firsts, Spot, Inserted, Sorted, StableInsert, TotalOrder, Avl, Inorder, LinksOf, Nodes, Sep, Ring, IsFirst;
      SpotFollower(comp, elems, x, node, i, j, j + 1);
      MarkedInserted(elems, j + 1, x);
      InsertedElems(elems, j + 1, x);
      InsertAfter(last, x, j);
    }

    /** The part of avl_insert for a key that is not present. */
    method InsertNew(x: AvlNode<K>, node: AvlNode<K>, last: AvlNode<K>, diff: int,
                     ghost c: Ctx<K>, ghost t: Tree<K>, ghost i: nat, ghost j: nat)
      requires Valid() && x !in elems && x != listHead && x.leader
      requires x.left == null && x.right == null && x.balance == 0
      requires Focus(c, t) && Fits(c, t) && t.Bin? && t.n == node && CtxNodes(c) + Nodes(t) == Nodes(shape)
      requires Spot(comp, elems, x.key, node, i, j) && diff == comp(x.key, node.key) != 0 && i <= j < |elems|
      requires elems[i] == node && elems[j] == last
      requires Firsts(comp, elems[..i]) == Preceding(c, t)
      requires Firsts(comp, elems[j + 1..]) == Following(c, t)
      requires (diff < 0 ==> t.l.Nil?) && (diff > 0 ==> t.r.Nil?)
      modifies this`root, this`turns, this`count, this`elems, this`shape
      modifies ({x, listHead} + Elems(elems))`next, ({x, listHead} + Elems(elems))`prev
      modifies ({x} + Elems(elems))`parent, ({x} + Elems(elems))`left
      modifies ({x} + Elems(elems))`right, ({x} + Elems(elems))`balance
      ensures Valid() && elems == StableInsert(comp, old(elems), x) && OneRepair(old(turns), turns)
    {
      hide Firsts, Inserted, Sorted, StrictlySorted, StableInsert, TotalOrder, Avl, Inorder, LinksOf, Nodes, Sep;
      hide CtxAvl, CtxNodes, CtxLinks, CtxSep, Fits, Before, After, IsFirst, Ring, Focus, Spot;
      ghost var p := if diff < 0 then i else j + 1;
      SpotLeader(comp, elems, x, node, i, j, p);
      SpotLeaders(comp, elems, x, node, i, j, p);
      MarkedInserted(elems, p, x);
      InsertedElems(elems, p, x);
      if !allowDups { SpotStrict(comp, elems, x, node, i, j, p); }
      ghost var u := InsertLeader(node, last, x, diff, c, t, i, j);
      shape := u;
      assert Listed() && Marked(elems) && Ordered(elems);
      assert Whole(shape, Firsts(comp, elems));
    }

    lemma {:induction false} InsertedElems(s: seq<AvlNode<K>>, p: nat, x: AvlNode<K>)
      requires p <= |s|
      ensures Elems(Inserted(s, p, x)) == Elems(s) + {x}
    {
      assert s == s[..p] + s[p..];
    }

    /** avl_insert: -1 when an equal key is present and duplicates are not allowed, and then the
        tree is as it was; otherwise 0, and x has joined the sorted list behind its equals, at the
        cost of no more than one double rotation. */
    method Insert(x: AvlNode<K>) returns (r: int)
      requires Valid() && x !in elems && x != listHead
      modifies this`root, this`turns, this`count, this`elems, this`shape, x
      modifies ({listHead} + Elems(elems))`next, ({listHead} + Elems(elems))`prev
      modifies Elems(elems)`parent, Elems(elems)`left, Elems(elems)`right, Elems(elems)`balance
      ensures Valid()
      ensures r == if !allowDups && FindScan(comp, old(elems), x.key) != null then -1 else 0
      ensures r == 0 ==> elems == StableInsert(comp, old(elems), x)
      ensures OneRepair(old(turns), turns)
      ensures r == -1 ==> unchanged(this) && unchanged(listHead) && unchanged(Elems(elems))
    {
      hide Sep, CtxSep, LinksOf, CtxLinks, TotalOrder, Avl, CtxAvl, Nodes, CtxNodes, Firsts, Spot, Fits, Sorted,
           StrictlySorted, Ring, Focus, Inorder, IsFirst;
      x.parent := null;
      x.left := null;
      x.right := null;
      x.balance := 0;
      x.leader := true;

      RootEmpty();
      if root == null {
        InsertFirst(x);
        return 0;
      }

      var node, last; ghost var c, t, i, j;
      node, last, c, t, i, j := Place(x.key);
      var diff := comp(x.key, node.key);
      SpotFinds(comp, elems, x.key, node, i, j);

      if diff == 0 {
        if !allowDups {
          return -1;
        }
        x.leader := false;
        InsertDuplicate(x, node, last, i, j);
        return 0;
      }

      InsertNew(x, node, last, diff, c, t, i, j);
      return 0;
    }

    // ------------------------------------------------------------ removal

    /** The tree and the flags have let go of the list's node p. */
    ghost predicate Released(p: nat)
      reads this, {listHead} + Elems(elems)
    {
      && p < |elems|
      && Elems(Removed(elems, p)) <= Elems(elems) && Nodes(shape) <= Elems(Removed(elems, p))
      && Listed() && Ordered(Removed(elems, p)) && Marked(Removed(elems, p))
      && Whole(shape, Firsts(comp, Removed(elems, p)))
    }

    lemma {:induction false} ReleasedOrder(p: nat)
      requires Ordered(elems) && NoDup(elems) && p < |elems|
      ensures Ordered(Removed(elems, p)) && Elems(Removed(elems, p)) <= Elems(elems)
    {
      RemovedSorted(comp, elems, p);
      if !allowDups { RemovedStrict(comp, elems, p); }
    }

    lemma {:induction false} WalkInside(u: Tree<K>, s: seq<AvlNode<K>>)
      requires Inorder(u) == Firsts(comp, s)
      ensures Nodes(u) <= Elems(s)
    {
      InorderNodes(u);
      forall n | n in Nodes(u) ensures n in Elems(s) {
        var i := FirstsMember(comp, s, n);
      }
    }

    lemma {:induction false} MarkedRemoved(s: seq<AvlNode<K>>, p: nat)
      requires Marked(s) && p < |s|
      requires forall m :: 0 <= m < |s| - 1 ==> (IsFirst(comp, Removed(s, p), m)
        <==> IsFirst(comp, s, if m < p then m else m + 1))
      ensures Marked(Removed(s, p))
    {
      RemovedAt(s, p);
    }

    lemma {:induction false} MarkedPromoted(s: seq<AvlNode<K>>, p: nat)
      requires TotalOrder(comp) && p + 1 < |s| && IsFirst(comp, s, p) && !IsFirst(comp, s, p + 1) && s[p + 1].leader
      requires forall m :: 0 <= m < |s| && m != p + 1 ==> (s[m].leader <==> IsFirst(comp, s, m))
      ensures Marked(Removed(s, p))
    {
      RemovedAt(s, p);
      PromotesFlags(comp, s, p);
    }

    /** Where the leader at position p stands in the tree. */
    lemma {:induction false} LocateLeader(p: nat) returns (c: Ctx<K>, t: Tree<K>)
      requires Valid() && p < |elems| && IsFirst(comp, elems, p)
      ensures Focus(c, t) && Fits(c, t) && t.Bin? && t.n == elems[p]
      ensures CtxNodes(c) + Nodes(t) == Nodes(shape) == Elems(Firsts(comp, elems))
      ensures Firsts(comp, elems) == Preceding(c, t) + [elems[p]] + Following(c, t)
    {
      hide Firsts;
      FirstsContains(comp, elems, p);
      InorderNodes(shape);
      c, t := LocateFocus(shape, elems[p], Firsts(comp, elems));
      FitsZip(c, t);
      AroundWalk(c, t);
    }

    /** The part of avl_remove that lets the next node of a run lead it. */
    method Promote(x: AvlNode<K>, next: AvlNode<K>, ghost p: nat)
      requires Valid() && p + 1 < |elems| && elems[p] == x && elems[p + 1] == next
      requires IsFirst(comp, elems, p) && !IsFirst(comp, elems, p + 1)
      modifies this`root, this`shape, next`leader
      modifies Elems(elems)`parent, Elems(elems)`left, Elems(elems)`right, Elems(elems)`balance
      ensures Released(p)
    {
      hide Firsts, Spot, Removed, Sorted, StrictlySorted, TotalOrder, Avl, Inorder, LinksOf, Nodes, Sep;
      hide CtxAvl, CtxNodes, CtxLinks, CtxSep, Fits, Before, After, IsFirst, Focus;
      ghost var c, t := LocateLeader(p);
      ReleasedOrder(p);
      next.leader := true;
      MarkedPromoted(elems, p);
      ghost var v := PromotedTree(c, t, p);
      TakeOver(x, next, c, t);
      shape := Zip(c, v);
      Close(c, v);
      WalkInside(shape, Removed(elems, p));
    }

    lemma {:induction false} AboutPromoted(c: Ctx<K>, t: Tree<K>, n: AvlNode<K>)
      requires t.Bin?
      ensures Inorder(Bin(t.l, n, t.b, t.r)) == Inorder(t.l) + [n] + Inorder(t.r)
    {
    }

    lemma {:induction false} PromotedTree(c: Ctx<K>, t: Tree<K>, p: nat) returns (v: Tree<K>)
      requires TotalOrder(comp) && NoDup(elems)
      requires p + 1 < |elems| && IsFirst(comp, elems, p) && !IsFirst(comp, elems, p + 1)
      requires Fits(c, t) && t.Bin? && CtxNodes(c) + Nodes(t) == Elems(Firsts(comp, elems))
      requires Firsts(comp, elems) == Preceding(c, t) + [elems[p]] + Following(c, t)
      ensures elems[p + 1] !in CtxNodes(c) + Nodes(t)
      ensures v == Bin(t.l, elems[p + 1], t.b, t.r) && Fits(c, v)
      ensures Walk(c, v) == Firsts(comp, Removed(elems, p))
    {
      hide Firsts, Removed, IsFirst, Inorder, Nodes, CtxNodes, Before, After, TotalOrder;
      AboutPromoted(c, t, elems[p + 1]);
      v := Bin(t.l, elems[p + 1], t.b, t.r);
      NoLeader(comp, elems, p + 1);
      PromotedCut(comp, elems, p, Preceding(c, t), Following(c, t));
      SeqAround(Before(c), Inorder(t.l), elems[p + 1], Inorder(t.r), After(c));
    }

    /** The part of avl_remove that takes a leader that is its whole run out of the tree. */
    method RemoveAlone(x: AvlNode<K>, ghost p: nat)
      requires Valid() && p < |elems| && elems[p] == x
      requires IsFirst(comp, elems, p) && (p + 1 < |elems| ==> IsFirst(comp, elems, p + 1))
      modifies this`root, this`turns, this`shape
      modifies Elems(elems)`parent, Elems(elems)`left, Elems(elems)`right, Elems(elems)`balance
      ensures Released(p)
    {
      hide Firsts, Spot, Removed, Sorted, StrictlySorted, TotalOrder, Avl, Inorder, LinksOf, Nodes, Sep;
      hide CtxAvl, CtxNodes, CtxLinks, CtxSep, Fits, Before, After, IsFirst, Focus;
      ghost var c, t := LocateLeader(p);
      ReleasedOrder(p);
      AloneFacts(c, t, p);
      ghost var u := RemoveWorker(x, c, t);
      shape := u;
      WalkInside(shape, Removed(elems, p));
    }

    lemma {:induction false} AloneFacts(c: Ctx<K>, t: Tree<K>, p: nat)
      requires TotalOrder(comp) && NoDup(elems) && Sorted(comp, elems) && Marked(elems)
      requires p < |elems| && IsFirst(comp, elems, p) && (p + 1 < |elems| ==> IsFirst(comp, elems, p + 1))
      requires t.Bin? && Firsts(comp, elems) == Preceding(c, t) + [elems[p]] + Following(c, t)
      ensures Marked(Removed(elems, p))
      ensures WalkWithout(c, t) == Firsts(comp, Removed(elems, p))
    {
      hide Firsts, Removed;
      LeaderFlags(comp, elems, p);
      MarkedRemoved(elems, p);
      AloneCut(comp, elems, p, Preceding(c, t), Following(c, t));
    }

    /** Only the first node of a run needs work in the tree. */
    lemma {:induction false} FollowerReleased(p: nat)
      requires Valid() && p < |elems| && !IsFirst(comp, elems, p)
      ensures Released(p)
    {
      hide Firsts, Removed;
      RemovedFollower(comp, elems, p);
      ReleasedOrder(p);
      MarkedRemoved(elems, p);
      WalkInside(shape, Removed(elems, p));
    }

    /** What the flags and the list say around position p. */
    lemma {:induction false} Neighbours(p: nat)
      requires Valid() && p < |elems|
      ensures elems[p].leader <==> IsFirst(comp, elems, p)
      ensures listHead.prev == elems[p] <==> p == |elems| - 1
      ensures p + 1 < |elems| ==>
        elems[p].next == elems[p + 1] && (elems[p + 1].leader <==> IsFirst(comp, elems, p + 1))
      ensures p + 1 < |elems| && !allowDups ==> IsFirst(comp, elems, p + 1)
      ensures Removed(elems, p) == Without(elems, elems[p])
    {
      RingEnds(listHead, elems, p);
      RemovedSorted(comp, elems, p);
    }

    /** The last step of avl_remove: x leaves the list. */
    method Leave(x: AvlNode<K>, ghost p: nat)
      requires Released(p) && elems[p] == x
      modifies this`count, this`elems, ({listHead} + Elems(elems))`next, ({listHead} + Elems(elems))`prev
      ensures Valid() && elems == Removed(old(elems), p)
      ensures x.next == null && x.prev == null
    {
      hide Firsts, Removed, Sorted, StrictlySorted, TotalOrder, Avl, Inorder, LinksOf, Nodes, Sep, IsFirst;
      Unlist(x, p);
    }

    /** avl_remove: x leaves, every other node stays in its order. */
    method Remove(x: AvlNode<K>)
      requires Valid() && x in elems
      modifies this`root, this`turns, this`count, this`elems, this`shape
      modifies ({listHead} + Elems(elems))`next, ({listHead} + Elems(elems))`prev, Elems(elems)`leader
      modifies Elems(elems)`parent, Elems(elems)`left, Elems(elems)`right, Elems(elems)`balance
      ensures Valid() && elems == Without(old(elems), x)
      ensures x.next == null && x.prev == null
    {
      hide Firsts, Spot, Removed, Sorted, StrictlySorted, TotalOrder, Avl, Inorder, LinksOf, Nodes, Sep, IsFirst,
           Focus, Ring, Whole;
      ghost var p: nat :| p < |elems| && elems[p] == x;
      Neighbours(p);
      if x.leader {
        if allowDups && listHead.prev != x && !x.next.leader {
          Promote(x, x.next, p);
        } else {
          RemoveAlone(x, p);
        }
      } else {
        FollowerReleased(p);
      }
      Leave(x, p);
    }

    // ------------------------------------------------------------ queries

    /** The part that all three queries share: the leader where the search for key ends. */
    method Search(key: K) returns (node: AvlNode<K>, diff: int, ghost i: nat)
      requires Valid() && root != null
      ensures i < |elems| && elems[i] == node && diff == comp(key, node.key)
      ensures FindScan(comp, elems, key) == if diff == 0 then node else null
    {
      hide Sep, CtxSep, LinksOf, CtxLinks, TotalOrder, Avl, CtxAvl, Nodes, CtxNodes, Firsts, Spot, Fits, Inorder;
      RootEmpty();
      assert Narrowed(comp, Top, shape, key) by { FirstsStrict(comp, elems); }
      ghost var c, t;
      node, diff, c, t := FindRec(root, key, Top, shape);
      i := PlaceFacts(c, t, key);
      ghost var j := WholeRun(i);
      SpotAt(comp, elems, key, Preceding(c, t), node, Following(c, t), i, j);
      SpotFinds(comp, elems, key, node, i, j);
    }

    lemma {:induction false} WholeRun(i: nat) returns (j: nat)
      requires i < |elems| && IsFirst(comp, elems, i)
      ensures Run(comp, elems, i, j)
    {
      j := i;
      while j + 1 < |elems| && !IsFirst(comp, elems, j + 1)
        invariant i <= j < |elems|
        invariant forall m :: i < m <= j ==> !IsFirst(comp, elems, m)
      {
        j := j + 1;
      }
    }

    /** avl_find: the first node with this key. */
    method Find(key: K) returns (r: AvlNode?<K>)
      requires Valid()
      ensures r == FindScan(comp, elems, key)
    {
      RootEmpty();
      if root == null {
        return null;
      }
      var node: AvlNode<K>, diff: int; ghost var i: nat;
      node, diff, i := Search(key);
      return if diff == 0 then node else null;
    }

    /** avl_find_lessequal: the last node whose key is not greater. */
    method FindLessEqual(key: K) returns (r: AvlNode?<K>)
      requires Valid()
      ensures r == LastNotGreater(comp, elems, key)
    {
      hide Whole, Firsts, Sorted, TotalOrder, StrictlySorted, IsFirst, LastNotGreater, Nodes;
      RootEmpty();
      if root == null {
        LastNotGreaterAt(comp, elems, key, 0);
        return null;
      }
      var node: AvlNode<K>, diff: int; ghost var i: nat;
      node, diff, i := Search(key);

      while diff < 0
        invariant i < |elems| && elems[i] == node && diff == comp(key, node.key)
        decreases i
      {
        RingEnds(listHead, elems, i);
        LessOnwards(comp, elems, key, i);
        if listHead.next == node {
          LastNotGreaterAt(comp, elems, key, 0);
          return null;
        }
        node, i := node.prev, i - 1;
        diff := comp(key, node.key);
      }

      var next: AvlNode<K> := node;
      while diff >= 0
        invariant i < |elems| && elems[i] == next && diff == comp(key, next.key)
        invariant diff < 0 ==> 0 < i && elems[i - 1] == node && comp(key, node.key) >= 0
        decreases |elems| - i, diff
      {
        node := next;
        RingEnds(listHead, elems, i);
        if listHead.prev == node {
          LastNotGreaterAt(comp, elems, key, i + 1);
          return node;
        }
        next, i := node.next, i + 1;
        diff := comp(key, next.key);
      }
      LessOnwards(comp, elems, key, i);
      LastNotGreaterAt(comp, elems, key, i);
      return node;
    }

    /** avl_find_greaterequal: the first node whose key is not less. */
    method FindGreaterEqual(key: K) returns (r: AvlNode?<K>)
      requires Valid()
      ensures r == FirstNotLess(comp, elems, key)
    {
      hide Whole, Firsts, Sorted, TotalOrder, StrictlySorted, IsFirst, FirstNotLess, Nodes;
      RootEmpty();
      if root == null {
        FirstNotLessAt(comp, elems, key, |elems|);
        return null;
      }
      var node: AvlNode<K>, diff: int; ghost var i: nat;
      node, diff, i := Search(key);

      while diff > 0
        invariant i < |elems| && elems[i] == node && diff == comp(key, node.key)
        decreases |elems| - i
      {
        RingEnds(listHead, elems, i);
        LessOnwards(comp, elems, key, i);
        if listHead.prev == node {
          FirstNotLessAt(comp, elems, key, |elems|);
          return null;
        }
        node, i := node.next, i + 1;
        diff := comp(key, node.key);
      }

      var next: AvlNode<K> := node;
      while diff <= 0
        invariant i < |elems| && elems[i] == next && diff == comp(key, next.key)
        invariant diff > 0 ==> i + 1 < |elems| && elems[i + 1] == node && comp(key, node.key) <= 0
        decreases i
      {
        node := next;
        RingEnds(listHead, elems, i);
        if listHead.next == node {
          FirstNotLessAt(comp, elems, key, 0);
          return node;
        }
        next, i := node.prev, i - 1;
        diff := comp(key, next.key);
      }
      LessOnwards(comp, elems, key, i);
      FirstNotLessAt(comp, elems, key, i + 1);
      return node;
    }
  }
}
