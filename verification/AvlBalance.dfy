/**
  * Height bookkeeping of the two climbs of lib/common/avl.c, without the heap.
  *
  * A climb stands at a hole whose subtree is one level higher (after an insertion) or lower
  * (after a removal) than the rest of the tree expects.
  */
module AvlBalance {
  import opened AvlShape
  import opened AvlHeap
  import opened AvlReplace

  /** t completes an AVL tree. */
  ghost predicate Fits<K>(c: Ctx<K>, t: Tree<K>) {
    Avl(t) && CtxAvl(c, Height(t))
  }

  /** t has grown by one level, on one side. */
  ghost predicate Grown<K>(c: Ctx<K>, t: Tree<K>) {
    t.Bin? && Avl(t) && t.b != 0 && CtxAvl(c, Height(t) - 1)
  }

  /** t has lost one level. */
  ghost predicate Shrunk<K>(c: Ctx<K>, t: Tree<K>) {
    Avl(t) && CtxAvl(c, Height(t) + 1)
  }

  /** t overhangs its right sibling by two levels. */
  ghost predicate LeftHeavy<K>(c: Ctx<K>, t: Tree<K>) {
    c.InLeft? && c.b == -2 && Avl(t) && Avl(c.r) && Height(t) == Height(c.r) + 2 && t.Bin? && -1 <= t.b <= 1
  }

  ghost predicate RightHeavy<K>(c: Ctx<K>, t: Tree<K>) {
    c.InRight? && c.b == 2 && Avl(t) && Avl(c.l) && Height(t) == Height(c.l) + 2 && t.Bin? && -1 <= t.b <= 1
  }

  /** The two rotations that repair a left overhang whose own right side is higher. */
  lemma {:induction false} LeftRepair<K>(c: Ctx<K>, t: Tree<K>)
    requires LeftHeavy(c, t) && t.b > 0
    ensures t.r.Bin? && -2 <= t.r.b <= 2 && RotLeft(t).Bin? && -2 <= RotLeft(t).b <= 2
    ensures Enclose(c, RotLeft(t)) == Bin(RotLeft(t), c.n, -2, c.r)
    ensures FixLeft(t, c.n, c.r) == RotRight(Enclose(c, RotLeft(t)))
    ensures CtxNodes(c.up) + Nodes(Enclose(c, RotLeft(t))) == CtxNodes(c) + Nodes(t)
  {
    FixLeftAvl(t, c.n, c.r);
    RotLeftWalk(t);
    EncloseWalk(c, RotLeft(t));
  }

  lemma {:induction false} RightRepair<K>(c: Ctx<K>, t: Tree<K>)
    requires RightHeavy(c, t) && t.b < 0
    ensures t.l.Bin? && -2 <= t.l.b <= 2 && RotRight(t).Bin? && -2 <= RotRight(t).b <= 2
    ensures Enclose(c, RotRight(t)) == Bin(c.l, c.n, 2, RotRight(t))
    ensures FixRight(c.l, c.n, t) == RotLeft(Enclose(c, RotRight(t)))
    ensures CtxNodes(c.up) + Nodes(Enclose(c, RotRight(t))) == CtxNodes(c) + Nodes(t)
  {
    FixRightAvl(c.l, c.n, t);
    RotRightWalk(t);
    EncloseWalk(c, RotRight(t));
  }

  /** v is the repaired subtree of c's parent. */
  ghost predicate Repairs<K>(v: Tree<K>, c: Ctx<K>, t: Tree<K>) {
    !c.Top? && Avl(v) && Inorder(v) == Inorder(Enclose(c, t)) && Nodes(v) == Nodes(Enclose(c, t))
  }

  lemma {:induction false} RepairedNodes<K>(v: Tree<K>, c: Ctx<K>, t: Tree<K>)
    requires Repairs(v, c, t)
    ensures CtxNodes(c.up) + Nodes(v) == CtxNodes(c) + Nodes(t)
    ensures Walk(c.up, v) == Walk(c, t)
  {
    EncloseWalk(c, t);
  }

  /** The whole tree after t fills the hole. */
  lemma {:induction false} FitsWhole<K>(c: Ctx<K>, t: Tree<K>)
    requires Fits(c, t)
    ensures Avl(Zip(c, t)) && Inorder(Zip(c, t)) == Walk(c, t)
    ensures Nodes(Zip(c, t)) == CtxNodes(c) + Nodes(t)
  {
    ZipAvl(c, t);
    ZipInorder(c, t);
    ZipNodes(c, t);
  }

  // ---------------------------------------------------------------- after an insertion

  lemma {:induction false} GrewBalance<K>(c: Ctx<K>, t: Tree<K>)
    requires !c.Top? && Grown(c, t)
    ensures -1 <= c.b <= 1 && -1 <= t.b <= 1
  {
  }

  /** The parent leaned to the other side: the growth is absorbed. */
  lemma {:induction false} GrewAbsorbed<K>(c: Ctx<K>, t: Tree<K>, d: Ctx<K>)
    requires Grown(c, t) && (if c.InLeft? then c.b == 1 else c.InRight? && c.b == -1)
    requires d == WithBalance(c, 0)
    ensures Fits(d, t)
  {
  }

  /** The parent was balanced: it has grown too. */
  lemma {:induction false} GrewOn<K>(c: Ctx<K>, t: Tree<K>, d: Ctx<K>)
    requires Grown(c, t) && !c.Top? && c.b == 0
    requires d == WithBalance(c, if c.InLeft? then -1 else 1)
    ensures Grown(c.up, Enclose(d, t))
  {
  }

  /** The parent leaned to this side: it now overhangs, and a repair restores the old height. */
  lemma {:induction false} GrewHeavyLeft<K>(c: Ctx<K>, t: Tree<K>, d: Ctx<K>) returns (v: Tree<K>)
    requires Grown(c, t) && c.InLeft? && c.b == -1 && d == WithBalance(c, -2)
    ensures LeftHeavy(d, t) && d.up == c.up && (t.b < 0 ==> t.l.Bin?) && (t.b > 0 ==> t.r.Bin?)
    ensures v == FixLeft(t, d.n, d.r) && Repairs(v, d, t) && Fits(c.up, v)
  {
    FixLeftAvl(t, d.n, d.r);
    FixLeftWalk(t, d.n, d.r);
    v := FixLeft(t, d.n, d.r);
  }

  lemma {:induction false} GrewHeavyRight<K>(c: Ctx<K>, t: Tree<K>, d: Ctx<K>) returns (v: Tree<K>)
    requires Grown(c, t) && c.InRight? && c.b == 1 && d == WithBalance(c, 2)
    ensures RightHeavy(d, t) && d.up == c.up && (t.b < 0 ==> t.l.Bin?) && (t.b > 0 ==> t.r.Bin?)
    ensures v == FixRight(d.l, d.n, t) && Repairs(v, d, t) && Fits(c.up, v)
  {
    FixRightAvl(d.l, d.n, t);
    FixRightWalk(d.l, d.n, t);
    v := FixRight(d.l, d.n, t);
  }

  // ---------------------------------------------------------------- after a removal

  lemma {:induction false} ShrankBalance<K>(c: Ctx<K>, t: Tree<K>)
    requires !c.Top? && Shrunk(c, t)
    ensures -1 <= c.b <= 1
  {
  }

  /** The parent was balanced: the loss is absorbed. */
  lemma {:induction false} ShrankAbsorbed<K>(c: Ctx<K>, t: Tree<K>, d: Ctx<K>)
    requires Shrunk(c, t) && !c.Top? && c.b == 0
    requires d == WithBalance(c, if c.InLeft? then 1 else -1)
    ensures Fits(d, t)
  {
  }

  /** The parent leaned to this side: it has lost a level too. */
  lemma {:induction false} ShrankOn<K>(c: Ctx<K>, t: Tree<K>, d: Ctx<K>)
    requires Shrunk(c, t) && (if c.InLeft? then c.b == -1 else c.InRight? && c.b == 1)
    requires d == WithBalance(c, 0)
    ensures Shrunk(c.up, Enclose(d, t))
  {
  }

  /** The same parent seen from its other child. */
  ghost function Other<K>(c: Ctx<K>, t: Tree<K>): Ctx<K>
    requires !c.Top?
  {
    if c.InLeft? then InRight(t, c.up, c.n, c.b) else InLeft(c.up, c.n, c.b, t)
  }

  ghost function Sibling<K>(c: Ctx<K>): Tree<K>
    requires !c.Top?
  {
    if c.InLeft? then c.r else c.l
  }

  lemma {:induction false} OtherWalk<K>(c: Ctx<K>, t: Tree<K>)
    requires !c.Top?
    ensures Enclose(Other(c, t), Sibling(c)) == Enclose(c, t)
    ensures Walk(Other(c, t), Sibling(c)) == Walk(c, t)
    ensures CtxNodes(Other(c, t)) + Nodes(Sibling(c)) == CtxNodes(c) + Nodes(t)
    ensures CtxNodes(c.up) + Nodes(Enclose(c, t)) == CtxNodes(c) + Nodes(t)
  {
    EncloseWalk(c, t);
    EncloseWalk(Other(c, t), Sibling(c));
  }

  /** The parent leaned away from a left child that lost a level: the right sibling overhangs.
      After the repair the subtree keeps its height if the sibling was balanced and loses one
      level otherwise. */
  lemma {:induction false} ShrankHeavyRight<K>(c: Ctx<K>, t: Tree<K>, d: Ctx<K>) returns (v: Tree<K>)
    requires Shrunk(c, t) && c.InLeft? && c.b == 1 && d == WithBalance(c, 2)
    ensures RightHeavy(Other(d, t), c.r) && d.up == c.up && d.r == c.r
    ensures (c.r.b < 0 ==> c.r.l.Bin?) && (c.r.b > 0 ==> c.r.r.Bin?)
    ensures v == FixRight(t, c.n, c.r) && v.Bin? && v.l.Bin? && v.l.n == c.n
    ensures Repairs(v, Other(d, t), c.r)
    ensures if c.r.b == 0 then Fits(c.up, v) else Shrunk(c.up, v)
  {
    FixRightAvl(t, c.n, c.r);
    FixRightWalk(t, c.n, c.r);
    v := FixRight(t, c.n, c.r);
  }

  lemma {:induction false} ShrankHeavyLeft<K>(c: Ctx<K>, t: Tree<K>, d: Ctx<K>) returns (v: Tree<K>)
    requires Shrunk(c, t) && c.InRight? && c.b == -1 && d == WithBalance(c, -2)
    ensures LeftHeavy(Other(d, t), c.l) && d.up == c.up && d.l == c.l
    ensures (c.l.b < 0 ==> c.l.l.Bin?) && (c.l.b > 0 ==> c.l.r.Bin?)
    ensures v == FixLeft(c.l, c.n, t) && v.Bin? && v.r.Bin? && v.r.n == c.n
    ensures Repairs(v, Other(d, t), c.l)
    ensures if c.l.b == 0 then Fits(c.up, v) else Shrunk(c.up, v)
  {
    FixLeftAvl(c.l, c.n, t);
    FixLeftWalk(c.l, c.n, t);
    v := FixLeft(c.l, c.n, t);
  }

  lemma {:induction false} FitsZip<K>(c: Ctx<K>, t: Tree<K>)
    ensures Fits(c, t) <==> Avl(Zip(c, t))
  {
    ZipAvl(c, t);
  }

  /** Taking out a node with one child at most costs its place one level. */
  lemma {:induction false} SplicedShrunk<K>(c: Ctx<K>, t: Tree<K>, s: Tree<K>)
    requires Fits(c, t) && OnlyChild(t, s)
    ensures Shrunk(c, s)
  {
  }

  /** m, in the hole of mc, has no left child and comes right after the root of t, in the hole of c. */
  ghost predicate NextIn<K>(c: Ctx<K>, t: Tree<K>, mc: Ctx<K>, m: Tree<K>) {
    && t.Bin? && m.Bin? && m.l.Nil? && Apart(c, t)
    && Zip(mc, m) == Zip(c, t) && Before(mc) == Preceding(c, t) + [t.n]
  }

  /** u is a balanced tree that has lost the root of m, which was in the hole of mc. */
  ghost predicate Lost<K>(u: Tree<K>, mc: Ctx<K>, m: Tree<K>) {
    m.Bin? && Avl(u) && Sep(u) && Inorder(u) == WalkWithout(mc, m)
  }

  /** node is the root of t, in the hole of c, in the tree u. */
  ghost predicate StandsAt<K>(u: Tree<K>, c: Ctx<K>, t: Tree<K>, node: AvlNode<K>) {
    t.Bin? && t.n == node && Zip(c, t) == u
  }

  /** After the minimum of its right subtree is gone, node is replaced by that minimum: the walk
      loses node and nothing else. */
  lemma {:induction false} MinTakesOver<K>(c: Ctx<K>, t: Tree<K>, mc: Ctx<K>, m: Tree<K>, u: Tree<K>, c2: Ctx<K>,
                                           t2: Tree<K>) returns (x: Tree<K>)
    requires NextIn(c, t, mc, m) && Lost(u, mc, m) && StandsAt(u, c2, t2, t.n)
    ensures x == Bin(t2.l, m.n, t2.b, t2.r) && Fits(c2, x)
    ensures Walk(c2, x) == WalkWithout(c, t)
  {
    x := Bin(t2.l, m.n, t2.b, t2.r);
    FitsZip(c2, t2);
    var b: seq<AvlNode<K>>, r: seq<AvlNode<K>> := Preceding(c, t), Following(mc, m);
    assert Inorder(u) == b + [t.n] + r && [m.n] + r == Following(c, t) by { MinWalk(c, t, mc, m); }
    ZipInorder(c2, t2);
    InorderFromSep(u);
    MinCut(b, t.n, r, Before(c2), Inorder(t2.l), Inorder(t2.r), After(c2), Inorder(u));
    SeqJoin(Before(c2), Inorder(t2.l), m.n, Inorder(t2.r), After(c2));
    SeqFourth(b, m.n, r, Inorder(t.r), After(c));
  }

  lemma {:induction false} SeqJoin<T>(p: seq<T>, l: seq<T>, x: T, r: seq<T>, q: seq<T>)
    ensures p + (l + [x] + r) + q == (p + l) + ([x] + (r + q))
  {
  }

  lemma {:induction false} SeqFourth<T>(b: seq<T>, x: T, r: seq<T>, c: seq<T>, d: seq<T>)
    requires [x] + r == c + d
    ensures b + ([x] + r) == b + c + d
  {
  }

  lemma {:induction false} MinCut<T>(a: seq<T>, x: T, b: seq<T>, p: seq<T>, l: seq<T>, r: seq<T>, q: seq<T>, w: seq<T>)
    requires NoDup(w) && w == a + [x] + b && w == p + (l + [x] + r) + q
    ensures p + l == a && r + q == b
  {
    assert w == (p + l) + [x] + (r + q);
    UniqueCut(a, x, b, p + l, r + q);
  }

  lemma {:induction false} MinWalk<K>(c: Ctx<K>, t: Tree<K>, mc: Ctx<K>, m: Tree<K>)
    requires t.Bin? && m.Bin? && m.l.Nil?
    requires Zip(mc, m) == Zip(c, t) && Before(mc) == Preceding(c, t) + [t.n]
    ensures [m.n] + Following(mc, m) == Following(c, t)
    ensures WalkWithout(mc, m)
         == Preceding(c, t) + [t.n] + Following(mc, m)
  {
    hide Before, After, Zip;
    ZipInorder(c, t);
    ZipInorder(mc, m);
    assert Inorder(m.l) == [];
    MinWalkSeq(Before(c), Inorder(t.l), t.n, Inorder(t.r), After(c), m.n, Inorder(m.r), After(mc));
  }

  lemma {:induction false} MinWalkSeq<T>(a: seq<T>, l: seq<T>, x: T, r: seq<T>, z: seq<T>, y: T, mr: seq<T>, mz: seq<T>)
    requires a + (l + [x] + r) + z == (a + l + [x]) + ([] + [y] + mr) + mz
    ensures [y] + (mr + mz) == r + z
    ensures (a + l + [x]) + [] + mr + mz == (a + l) + [x] + (mr + mz)
  {
    var b := a + l + [x];
    assert b + (r + z) == a + (l + [x] + r) + z;
    assert b + ([y] + (mr + mz)) == b + ([] + [y] + mr) + mz;
    assert r + z == (b + (r + z))[|b|..];
    assert [y] + (mr + mz) == (b + ([y] + (mr + mz)))[|b|..];
  }

  // ---------------------------------------------------------------- a new leaf

  /** A new left leaf is absorbed by a node that leaned right and makes a balanced node grow. */
  lemma {:induction false} HungLeftBalance<K>(c: Ctx<K>, t: Tree<K>, x: AvlNode<K>)
    requires Fits(c, t) && t.Bin? && t.l.Nil?
    ensures t.b == 0 || t.b == 1
    ensures t.b == 1 ==> Fits(c, Bin(Leaf(x), t.n, 0, t.r))
    ensures t.b == 0 ==> Grown(c, Bin(Leaf(x), t.n, -1, t.r))
  {
    assert Height(Leaf(x)) == 1;
  }

  lemma {:induction false} HungRightBalance<K>(c: Ctx<K>, t: Tree<K>, x: AvlNode<K>)
    requires Fits(c, t) && t.Bin? && t.r.Nil?
    ensures t.b == 0 || t.b == -1
    ensures t.b == -1 ==> Fits(c, Bin(t.l, t.n, 0, Leaf(x)))
    ensures t.b == 0 ==> Grown(c, Bin(t.l, t.n, 1, Leaf(x)))
  {
    assert Height(Leaf(x)) == 1;
  }

  /** The walk and the nodes around a hung leaf. */
  lemma {:induction false} HungLeftWalk<K>(c: Ctx<K>, t: Tree<K>, x: AvlNode<K>, b: int)
    requires t.Bin? && t.l.Nil?
    ensures Walk(c, Bin(Leaf(x), t.n, b, t.r)) ==
      Preceding(c, t) + [x] + ([t.n] + Following(c, t))
    ensures CtxNodes(c) + Nodes(Bin(Leaf(x), t.n, b, t.r)) == CtxNodes(c) + Nodes(t) + {x}
  {
    hide Before, After, CtxNodes;
    assert Leaf(x).l == Nil && Leaf(x).r == Nil;
    assert Inorder(Leaf(x)) == [x] && Nodes(Leaf(x)) == {x};
  }

  lemma {:induction false} HungRightWalk<K>(c: Ctx<K>, t: Tree<K>, x: AvlNode<K>, b: int)
    requires t.Bin? && t.r.Nil?
    ensures Walk(c, Bin(t.l, t.n, b, Leaf(x))) ==
      Preceding(c, t) + [t.n] + ([x] + Following(c, t))
    ensures CtxNodes(c) + Nodes(Bin(t.l, t.n, b, Leaf(x))) == CtxNodes(c) + Nodes(t) + {x}
  {
    hide Before, After, CtxNodes;
    assert Leaf(x).l == Nil && Leaf(x).r == Nil;
    assert Inorder(Leaf(x)) == [x] && Nodes(Leaf(x)) == {x};
  }

  lemma {:induction false} AroundWalk<K>(c: Ctx<K>, t: Tree<K>)
    requires t.Bin?
    ensures Inorder(Zip(c, t)) == Preceding(c, t) + [t.n] + Following(c, t)
    ensures Nodes(Zip(c, t)) == CtxNodes(c) + Nodes(t)
  {
    hide Before, After, CtxNodes, Zip, Nodes;
    ZipInorder(c, t);
    ZipNodes(c, t);
    SeqAround(Before(c), Inorder(t.l), t.n, Inorder(t.r), After(c));
  }

  lemma {:induction false} SeqAround<T>(p: seq<T>, l: seq<T>, x: T, r: seq<T>, q: seq<T>)
    ensures p + (l + [x] + r) + q == (p + l) + [x] + (r + q)
  {
  }
}
