/**
  * Taking one node out of the pointers of lib/common/avl.c: splicing it out, or letting another
  * node take over its place.
  */
module AvlReplace {
  import opened AvlShape
  import opened AvlHeap

  // ---------------------------------------------------------------- splicing out

  /** node has at most the child `child`; both and the parent are known and distinct. */
  ghost predicate Splices<K>(m: Store<K>, node: AvlNode<K>, child: AvlNode?<K>) {
    && node in m
    && var parent := m[node].parent;
       && node != child && node != parent
       && (parent != null ==> parent in m)
       && (child != null ==> child in m && child != parent)
  }

  /** child is hung below node's parent in place of node. */
  ghost function Spliced<K>(m: Store<K>, node: AvlNode<K>, child: AvlNode?<K>): Store<K>
    requires Splices(m, node, child)
  {
    var parent := m[node].parent;
    map n | n in m && n != node ::
      if n == child then m[n].(parent := parent)
      else if n == parent then (if m[n].left == node then m[n].(left := child) else m[n].(right := child))
      else m[n]
  }

  /** t has one child at most, and s is it. */
  ghost predicate OnlyChild<K>(t: Tree<K>, s: Tree<K>) {
    t.Bin? && ((t.l.Nil? && t.r == s) || (t.r.Nil? && t.l == s))
  }

  lemma {:induction false} SplicesAt<K>(c: Ctx<K>, t: Tree<K>, s: Tree<K>)
    requires Apart(c, t) && OnlyChild(t, s)
    ensures Splices(ZipLinks(c, t), t.n, Root(s)) && Apart(c, s)
    ensures ZipLinks(c, t)[t.n].parent == ParentOf(c)
    ensures Nodes(t) == Nodes(s) + {t.n} && Inorder(t.l) + Inorder(t.r) == Inorder(s)
  {
    RootInside(s);
    LinksInside(t, ParentOf(c), t.n);
  }

  lemma {:induction false} SplicedWalk<K>(c: Ctx<K>, t: Tree<K>, s: Tree<K>)
    requires Apart(c, t) && OnlyChild(t, s)
    ensures CtxNodes(c) + Nodes(s) == CtxNodes(c) + Nodes(t) - {t.n}
    ensures Walk(c, s) == WalkWithout(c, t)
  {
    hide Before, After, CtxSep, Inorder, CtxNodes;
    assert Inorder(Tree<K>.Nil) == [] by { EmptyWalk<K>(); }
    assert Before(c) + Inorder(s) == Preceding(c, t) + Inorder(t.r);
    assert t.n in Nodes(t) && t.n !in Nodes(s);
  }

  lemma {:induction false} EmptyWalk<K>()
    ensures Inorder(Tree<K>.Nil) == []
  {
  }

  lemma {:induction false} SplicedInside<K>(c: Ctx<K>, t: Tree<K>, s: Tree<K>, n: AvlNode<K>)
    requires Apart(c, t) && OnlyChild(t, s) && Splices(ZipLinks(c, t), t.n, Root(s))
    requires n in Nodes(s)
    ensures n in Spliced(ZipLinks(c, t), t.n, Root(s))
    ensures Spliced(ZipLinks(c, t), t.n, Root(s))[n] == LinksOf(s, ParentOf(c))[n]
  {
    SplicesAt(c, t, s);
    LinksInside(t, ParentOf(c), n);
    LinksNewParent(s, t.n, ParentOf(c), n);
  }

  lemma {:induction false} SplicedOutside<K>(c: Ctx<K>, t: Tree<K>, s: Tree<K>, n: AvlNode<K>)
    requires Apart(c, t) && OnlyChild(t, s) && Splices(ZipLinks(c, t), t.n, Root(s))
    requires n in CtxNodes(c)
    ensures n in Spliced(ZipLinks(c, t), t.n, Root(s))
    ensures Spliced(ZipLinks(c, t), t.n, Root(s))[n] == CtxLinks(c, Root(s))[n]
  {
    SplicesAt(c, t, s);
    RootInside(s);
    HoleLinks(c, t);
    CtxNewChild(c, t.n, Root(s), n);
  }

  lemma {:induction false} SplicedAt<K>(c: Ctx<K>, t: Tree<K>, s: Tree<K>)
    requires Apart(c, t) && OnlyChild(t, s)
    ensures Splices(ZipLinks(c, t), t.n, Root(s)) && Apart(c, s)
    ensures Spliced(ZipLinks(c, t), t.n, Root(s)) == ZipLinks(c, s)
  {
    hide LinksOf, CtxLinks, Sep, CtxSep, Inorder, Nodes, CtxNodes, Apart, Splices, Disjoint;
    SplicesAt(c, t, s);
    var m, m' := Spliced(ZipLinks(c, t), t.n, Root(s)), ZipLinks(c, s);
    forall n | n in m' ensures n in m && m[n] == m'[n] {
      if n in Nodes(s) {
        SplicedInside(c, t, s, n);
      } else {
        SplicedOutside(c, t, s, n);
      }
    }
  }

  // ---------------------------------------------------------------- taking over

  ghost predicate TakesOver<K>(m: Store<K>, node: AvlNode<K>, x: AvlNode<K>) {
    && node in m && x !in m
    && var f := m[node];
       && f.parent != node && f.left != node && f.right != node
       && (f.parent != null ==> f.parent in m && f.parent != f.left && f.parent != f.right)
       && (f.left != null ==> f.left in m && f.left != f.right)
       && (f.right != null ==> f.right in m)
  }

  /** x stands where node stood. */
  ghost function TakenOver<K>(m: Store<K>, node: AvlNode<K>, x: AvlNode<K>): Store<K>
    requires TakesOver(m, node, x)
  {
    var f := m[node];
    map n | n in (m.Keys - {node}) + {x} ::
      if n == x then f
      else if n == f.left || n == f.right then m[n].(parent := x)
      else if n == f.parent then (if m[n].left == node then m[n].(left := x) else m[n].(right := x))
      else m[n]
  }

  /** The three steps of taking over: copy the fields, adopt the children, tell the parent. */
  ghost function Adopted<K>(m: Store<K>, x: AvlNode<K>): Store<K>
    requires x in m
  {
    map n | n in m :: if n == m[x].left || n == m[x].right then m[n].(parent := x) else m[n]
  }

  ghost function Relinked<K>(m: Store<K>, parent: AvlNode?<K>, node: AvlNode<K>, x: AvlNode<K>): Store<K> {
    map n | n in m ::
      if n != parent then m[n] else if m[n].left == node then m[n].(left := x) else m[n].(right := x)
  }

  lemma {:induction false} TakenOverSteps<K>(m: Store<K>, node: AvlNode<K>, x: AvlNode<K>)
    requires TakesOver(m, node, x)
    ensures Relinked(Adopted((m - {node})[x := m[node]], x), m[node].parent, node, x) == TakenOver(m, node, x)
  {
  }

  lemma {:induction false} TakesOverAt<K>(c: Ctx<K>, t: Tree<K>, x: AvlNode<K>)
    requires Apart(c, t) && t.Bin? && x !in CtxNodes(c) + Nodes(t)
    ensures TakesOver(ZipLinks(c, t), t.n, x) && Apart(c, Bin(t.l, x, t.b, t.r))
    ensures ZipLinks(c, t)[t.n] == Links(ParentOf(c), Root(t.l), Root(t.r), t.b)
    ensures Nodes(t) == Nodes(t.l) + {t.n} + Nodes(t.r)
  {
    RootInside(t.l);
    RootInside(t.r);
    LinksInside(t, ParentOf(c), t.n);
  }

  lemma {:induction false} TakenOverLeft<K>(c: Ctx<K>, t: Tree<K>, x: AvlNode<K>, n: AvlNode<K>)
    requires Apart(c, t) && t.Bin? && x !in CtxNodes(c) + Nodes(t) && TakesOver(ZipLinks(c, t), t.n, x)
    requires n in Nodes(t.l)
    ensures n in TakenOver(ZipLinks(c, t), t.n, x)
    ensures TakenOver(ZipLinks(c, t), t.n, x)[n] == LinksOf(Bin(t.l, x, t.b, t.r), ParentOf(c))[n]
  {
    var u, m := Bin(t.l, x, t.b, t.r), ZipLinks(c, t);
    RootInside(t.r);
    assert m[t.n] == Links(ParentOf(c), Root(t.l), Root(t.r), t.b) && Sep(u) by { TakesOverAt(c, t, x); }
    assert n != t.n && n != x && n != Root(t.r) && n != ParentOf(c) && n in m;
    LinksInside(t, ParentOf(c), n);
    LinksInside(u, ParentOf(c), n);
    LinksNewParent(t.l, t.n, x, n);
  }

  lemma {:induction false} TakenOverRight<K>(c: Ctx<K>, t: Tree<K>, x: AvlNode<K>, n: AvlNode<K>)
    requires Apart(c, t) && t.Bin? && x !in CtxNodes(c) + Nodes(t) && TakesOver(ZipLinks(c, t), t.n, x)
    requires n in Nodes(t.r)
    ensures n in TakenOver(ZipLinks(c, t), t.n, x)
    ensures TakenOver(ZipLinks(c, t), t.n, x)[n] == LinksOf(Bin(t.l, x, t.b, t.r), ParentOf(c))[n]
  {
    var u, m := Bin(t.l, x, t.b, t.r), ZipLinks(c, t);
    RootInside(t.l);
    assert m[t.n] == Links(ParentOf(c), Root(t.l), Root(t.r), t.b) && Sep(u) by { TakesOverAt(c, t, x); }
    assert n != t.n && n != x && n != Root(t.l) && n != ParentOf(c) && n in m;
    LinksInside(t, ParentOf(c), n);
    LinksInside(u, ParentOf(c), n);
    LinksNewParent(t.r, t.n, x, n);
  }

  lemma {:induction false} TakenOverOutside<K>(c: Ctx<K>, t: Tree<K>, x: AvlNode<K>, n: AvlNode<K>)
    requires Apart(c, t) && t.Bin? && x !in CtxNodes(c) + Nodes(t) && TakesOver(ZipLinks(c, t), t.n, x)
    requires n in CtxNodes(c)
    ensures n in TakenOver(ZipLinks(c, t), t.n, x)
    ensures TakenOver(ZipLinks(c, t), t.n, x)[n] == CtxLinks(c, x)[n]
  {
    TakesOverAt(c, t, x);
    RootInside(t.l);
    RootInside(t.r);
    HoleLinks(c, t);
    CtxNewChild(c, t.n, x, n);
  }

  lemma {:induction false} NodesOf<K>(t: Tree<K>)
    requires t.Bin?
    ensures Nodes(t) == Nodes(t.l) + {t.n} + Nodes(t.r)
  {
  }

  lemma {:induction false} TakenOverAt<K>(c: Ctx<K>, t: Tree<K>, x: AvlNode<K>)
    requires Apart(c, t) && t.Bin? && x !in CtxNodes(c) + Nodes(t)
    ensures TakesOver(ZipLinks(c, t), t.n, x) && Apart(c, Bin(t.l, x, t.b, t.r))
    ensures TakenOver(ZipLinks(c, t), t.n, x) == ZipLinks(c, Bin(t.l, x, t.b, t.r))
  {
    hide CtxLinks, LinksOf, Sep, CtxSep, Inorder, TakesOver, Apart, Disjoint, CtxNodes, Nodes;
    TakesOverAt(c, t, x);
    var u := Bin(t.l, x, t.b, t.r);
    NodesOf(u);
    assert LinksOf(u, ParentOf(c))[x] == Links(ParentOf(c), Root(t.l), Root(t.r), t.b)
      by { LinksInside(u, ParentOf(c), x); }
    var m, m' := TakenOver(ZipLinks(c, t), t.n, x), ZipLinks(c, u);
    forall n | n in m' ensures n in m && m[n] == m'[n] {
      if n == x {
      } else if n in Nodes(t.l) {
        TakenOverLeft(c, t, x, n);
      } else if n in Nodes(t.r) {
        TakenOverRight(c, t, x, n);
      } else {
        TakenOverOutside(c, t, x, n);
      }
    }
  }

  // ---------------------------------------------------------------- hanging a new leaf

  ghost function Leaf<K>(x: AvlNode<K>): Tree<K> {
    Bin(Nil, x, 0, Nil)
  }

  ghost function HungLeft<K>(m: Store<K>, node: AvlNode<K>, x: AvlNode<K>, b: int): Store<K>
    requires node in m
  {
    m[node := m[node].(left := x, balance := b)][x := Links(node, null, null, 0)]
  }

  ghost function HungRight<K>(m: Store<K>, node: AvlNode<K>, x: AvlNode<K>, b: int): Store<K>
    requires node in m
  {
    m[node := m[node].(right := x, balance := b)][x := Links(node, null, null, 0)]
  }

  lemma {:induction false} UpdateRight<X, Y>(a: map<X, Y>, b: map<X, Y>, x: X, y: Y)
    ensures a + b[x := y] == (a + b)[x := y]
  {
  }

  lemma {:induction false} AddFirst<X, Y>(a: map<X, Y>, x: X, y: Y, n: X, v: Y, w: Y)
    requires x !in a && n !in a && x != n
    ensures map[x := y] + a + map[n := w] == (map[] + a + map[n := v])[n := w][x := y]
    ensures a + map[x := y] + map[n := w] == (a + map[] + map[n := v])[n := w][x := y]
  {
  }

  lemma {:induction false} HungLeftAt<K>(c: Ctx<K>, t: Tree<K>, x: AvlNode<K>, b: int)
    requires Apart(c, t) && t.Bin? && t.l.Nil? && x !in CtxNodes(c) + Nodes(t)
    ensures t.n in ZipLinks(c, t) && Apart(c, Bin(Leaf(x), t.n, b, t.r))
    ensures HungLeft(ZipLinks(c, t), t.n, x, b) == ZipLinks(c, Bin(Leaf(x), t.n, b, t.r))
  {
    hide CtxLinks, CtxSep, Inorder, CtxNodes;
    var u := Bin(Leaf(x), t.n, b, t.r);
    var p := ParentOf(c);
    var f, g := Links(p, null, Root(t.r), t.b), Links(p, x, Root(t.r), b);
    var e := Links(t.n, null, null, 0);
    assert Nodes(Leaf(x)) == {x} && Sep(Leaf(x));
    assert Nodes(u) == {x} + {t.n} + Nodes(t.r) && t.n in Nodes(t);
    assert Sep(u);
    assert LinksOf(Leaf(x), t.n) == map[x := e];
    AddFirst(LinksOf(t.r, t.n), x, e, t.n, f, g);
    assert LinksOf(u, p) == LinksOf(t, p)[t.n := g][x := e];
    UpdateRight(CtxLinks(c, t.n), LinksOf(t, p)[t.n := g], x, e);
    UpdateRight(CtxLinks(c, t.n), LinksOf(t, p), t.n, g);
    HoleLinks(c, t);
  }

  lemma {:induction false} HungRightAt<K>(c: Ctx<K>, t: Tree<K>, x: AvlNode<K>, b: int)
    requires Apart(c, t) && t.Bin? && t.r.Nil? && x !in CtxNodes(c) + Nodes(t)
    ensures t.n in ZipLinks(c, t) && Apart(c, Bin(t.l, t.n, b, Leaf(x)))
    ensures HungRight(ZipLinks(c, t), t.n, x, b) == ZipLinks(c, Bin(t.l, t.n, b, Leaf(x)))
  {
    hide CtxLinks, CtxSep, Inorder, CtxNodes;
    var u := Bin(t.l, t.n, b, Leaf(x));
    var p := ParentOf(c);
    var f, g := Links(p, Root(t.l), null, t.b), Links(p, Root(t.l), x, b);
    var e := Links(t.n, null, null, 0);
    assert Nodes(Leaf(x)) == {x} && Sep(Leaf(x));
    assert Nodes(u) == Nodes(t.l) + {t.n} + {x} && t.n in Nodes(t);
    assert Sep(u);
    assert LinksOf(Leaf(x), t.n) == map[x := e];
    AddFirst(LinksOf(t.l, t.n), x, e, t.n, f, g);
    assert LinksOf(u, p) == LinksOf(t, p)[t.n := g][x := e];
    UpdateRight(CtxLinks(c, t.n), LinksOf(t, p)[t.n := g], x, e);
    UpdateRight(CtxLinks(c, t.n), LinksOf(t, p), t.n, g);
    HoleLinks(c, t);
  }
}
