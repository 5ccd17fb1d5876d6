/**
  * The shape of the threaded AVL tree of lib/common/avl.c, as a value.
  *
  * A Tree records, for every position, which avl_node sits there and which balance is stored
  * in it.  A Ctx is a tree with one hole: the path from the hole up to the root.  The climbs
  * of avl.c move a hole upwards, so all their reasoning is done on (Ctx, Tree) pairs.
  */
module AvlShape {
  import opened Basics

  type SignedChar = x: int | -128 <= x < 128

  /** struct avl_node; the fields next and prev are its embedded struct list_entity. */
  class AvlNode<K> {
    var next: AvlNode?<K>
    var prev: AvlNode?<K>
    var parent: AvlNode?<K>
    var left: AvlNode?<K>
    var right: AvlNode?<K>
    const key: K
    var balance: SignedChar
    var leader: bool

    constructor (key: K)
      ensures this.key == key
    {
      this.key := key;
      next, prev, parent, left, right := null, null, null, null, null;
      balance, leader := 0, false;
    }
  }

  datatype Tree<K> = Nil | Bin(l: Tree<K>, n: AvlNode<K>, b: int, r: Tree<K>)

  datatype Ctx<K> =
    | Top
    | InLeft(up: Ctx<K>, n: AvlNode<K>, b: int, r: Tree<K>)
    | InRight(l: Tree<K>, up: Ctx<K>, n: AvlNode<K>, b: int)

  // ---------------------------------------------------------------- measures and walks

  ghost function Max(a: int, b: int): int {
    if a < b then b else a
  }

  ghost function Height<K>(t: Tree<K>): nat {
    match t
    case Nil => 0
    case Bin(l, _, _, r) => 1 + Max(Height(l), Height(r))
  }

  ghost function Inorder<K>(t: Tree<K>): seq<AvlNode<K>> {
    match t
    case Nil => []
    case Bin(l, n, _, r) => Inorder(l) + [n] + Inorder(r)
  }

  ghost function Nodes<K>(t: Tree<K>): set<AvlNode<K>> {
    match t
    case Nil => {}
    case Bin(l, n, _, r) => Nodes(l) + {n} + Nodes(r)
  }

  ghost function CtxNodes<K>(c: Ctx<K>): set<AvlNode<K>> {
    match c
    case Top => {}
    case InLeft(up, n, _, r) => CtxNodes(up) + {n} + Nodes(r)
    case InRight(l, up, n, _) => CtxNodes(up) + {n} + Nodes(l)
  }

  /** Distance of the hole from the root. */
  ghost function Depth<K>(c: Ctx<K>): nat {
    if c.Top? then 0 else 1 + Depth(c.up)
  }

  ghost function Zip<K>(c: Ctx<K>, t: Tree<K>): Tree<K> {
    match c
    case Top => t
    case InLeft(up, n, b, r) => Zip(up, Bin(t, n, b, r))
    case InRight(l, up, n, b) => Zip(up, Bin(l, n, b, t))
  }

  /** The nodes that an in-order walk meets before the hole. */
  ghost function Before<K>(c: Ctx<K>): seq<AvlNode<K>> {
    match c
    case Top => []
    case InLeft(up, _, _, _) => Before(up)
    case InRight(l, up, n, _) => Before(up) + Inorder(l) + [n]
  }

  /** The nodes that an in-order walk meets after the hole. */
  ghost function After<K>(c: Ctx<K>): seq<AvlNode<K>> {
    match c
    case Top => []
    case InLeft(up, n, _, r) => [n] + Inorder(r) + After(up)
    case InRight(_, up, _, _) => After(up)
  }

  /** The whole walk, with t in the hole of c. */
  ghost function Walk<K>(c: Ctx<K>, t: Tree<K>): seq<AvlNode<K>> {
    Before(c) + Inorder(t) + After(c)
  }

  /** The nodes that the walk meets before the root of t, and those that it meets after it. */
  ghost function Preceding<K>(c: Ctx<K>, t: Tree<K>): seq<AvlNode<K>>
    requires t.Bin?
  {
    Before(c) + Inorder(t.l)
  }

  ghost function Following<K>(c: Ctx<K>, t: Tree<K>): seq<AvlNode<K>>
    requires t.Bin?
  {
    Inorder(t.r) + After(c)
  }

  /** The walk without the root of t. */
  ghost function WalkWithout<K>(c: Ctx<K>, t: Tree<K>): seq<AvlNode<K>>
    requires t.Bin?
  {
    Preceding(c, t) + Following(c, t)
  }

  // ---------------------------------------------------------------- validity

  /** The stored balance is exact and the two subtrees differ by at most one level. */
  ghost predicate Avl<K>(t: Tree<K>) {
    t.Bin? ==> Avl(t.l) && Avl(t.r) && t.b == Height(t.r) - Height(t.l) && -1 <= t.b <= 1
  }

  /** Filling the hole of c with any AVL tree of height h gives an AVL tree. */
  ghost predicate CtxAvl<K>(c: Ctx<K>, h: nat) {
    match c
    case Top => true
    case InLeft(up, _, b, r) =>
      Avl(r) && b == Height(r) - h && -1 <= b <= 1 && CtxAvl(up, 1 + Max(h, Height(r)))
    case InRight(l, up, _, b) =>
      Avl(l) && b == h - Height(l) && -1 <= b <= 1 && CtxAvl(up, 1 + Max(Height(l), h))
  }

  ghost predicate Disjoint<T>(a: set<T>, b: set<T>) {
    forall x :: x in a ==> x !in b
  }

  /** No node occurs at two positions. */
  ghost predicate Sep<K>(t: Tree<K>) {
    t.Bin? ==>
      Sep(t.l) && Sep(t.r) && t.n !in Nodes(t.l) && t.n !in Nodes(t.r) && Disjoint(Nodes(t.l), Nodes(t.r))
  }

  ghost predicate CtxSep<K>(c: Ctx<K>) {
    match c
    case Top => true
    case InLeft(up, n, _, r) =>
      CtxSep(up) && Sep(r) && n !in CtxNodes(up) && n !in Nodes(r) && Disjoint(CtxNodes(up), Nodes(r))
    case InRight(l, up, n, _) =>
      CtxSep(up) && Sep(l) && n !in CtxNodes(up) && n !in Nodes(l) && Disjoint(CtxNodes(up), Nodes(l))
  }

  // ---------------------------------------------------------------- zipping

  lemma {:induction false} SeqShiftRight<T>(a: seq<T>, b: seq<T>, c: seq<T>, d: seq<T>, e: seq<T>)
    ensures a + (b + c + d) + e == a + b + (c + d + e)
  {
  }

  lemma {:induction false} SeqShiftLeft<T>(a: seq<T>, b: seq<T>, c: seq<T>, d: seq<T>, e: seq<T>)
    ensures a + (b + c + d) + e == (a + b + c) + d + e
  {
  }

  lemma {:induction false} ZipInorder<K>(c: Ctx<K>, t: Tree<K>)
    ensures Inorder(Zip(c, t)) == Walk(c, t)
    decreases c
  {
    match c
    case Top =>
    case InLeft(up, n, b, r) =>
      ZipInorder(up, Bin(t, n, b, r));
      SeqShiftRight(Before(up), Inorder(t), [n], Inorder(r), After(up));
    case InRight(l, up, n, b) =>
      ZipInorder(up, Bin(l, n, b, t));
      SeqShiftLeft(Before(up), Inorder(l), [n], Inorder(t), After(up));
  }

  lemma {:induction false} ZipNodes<K>(c: Ctx<K>, t: Tree<K>)
    ensures Nodes(Zip(c, t)) == CtxNodes(c) + Nodes(t)
    decreases c
  {
    match c
    case Top =>
    case InLeft(up, n, b, r) => ZipNodes(up, Bin(t, n, b, r));
    case InRight(l, up, n, b) => ZipNodes(up, Bin(l, n, b, t));
  }

  lemma {:induction false} ZipAvl<K>(c: Ctx<K>, t: Tree<K>)
    ensures Avl(Zip(c, t)) <==> Avl(t) && CtxAvl(c, Height(t))
    decreases c
  {
    match c
    case Top =>
    case InLeft(up, n, b, r) => ZipAvl(up, Bin(t, n, b, r));
    case InRight(l, up, n, b) => ZipAvl(up, Bin(l, n, b, t));
  }

  lemma {:induction false} ZipSep<K>(c: Ctx<K>, t: Tree<K>)
    ensures Sep(Zip(c, t)) <==> Sep(t) && CtxSep(c) && Disjoint(Nodes(t), CtxNodes(c))
    decreases c
  {
    match c
    case Top =>
    case InLeft(up, n, b, r) => ZipSep(up, Bin(t, n, b, r));
    case InRight(l, up, n, b) => ZipSep(up, Bin(l, n, b, t));
  }

  /** Every node of a tree can be brought to the root of a hole. */
  lemma {:induction false} Locate<K>(c: Ctx<K>, t: Tree<K>, n: AvlNode<K>) returns (c': Ctx<K>, t': Tree<K>)
    requires n in Nodes(t)
    ensures t'.Bin? && t'.n == n && Zip(c', t') == Zip(c, t)
    decreases t
  {
    if n in Nodes(t.l) {
      c', t' := Locate(InLeft(c, t.n, t.b, t.r), t.l, n);
    } else if n in Nodes(t.r) {
      c', t' := Locate(InRight(t.l, c, t.n, t.b), t.r, n);
    } else {
      c', t' := c, t;
    }
  }

  // ---------------------------------------------------------------- node lists

  ghost predicate NoDup<T>(s: seq<T>) {
    forall i, j :: 0 <= i < j < |s| ==> s[i] != s[j]
  }

  lemma {:induction false} InorderNodes<K>(t: Tree<K>)
    ensures Elems(Inorder(t)) == Nodes(t)
  {
    if t.Nil? {
    } else {
      InorderNodes(t.l);
      InorderNodes(t.r);
    }
  }

  lemma {:induction false} BeforeNodes<K>(c: Ctx<K>, x: AvlNode<K>)
    requires x in Before(c)
    ensures x in CtxNodes(c)
  {
    match c
    case InLeft(up, n, _, r) => BeforeNodes(up, x);
    case InRight(l, up, n, _) =>
      if x in Before(up) {
        BeforeNodes(up, x);
      } else if x in Inorder(l) {
        InorderNodes(l);
        assert x in Elems(Inorder(l));
      }
  }

  lemma {:induction false} NoDupJoin<T>(a: seq<T>, b: seq<T>)
    requires NoDup(a) && NoDup(b) && Disjoint(Elems(a), Elems(b))
    ensures NoDup(a + b)
  {
    var s := a + b;
    forall i, j | 0 <= i < j < |s| ensures s[i] != s[j] {
      if i < |a| {
        assert s[i] in Elems(a);
        if |a| <= j { assert s[j] in Elems(b); }
      }
    }
  }

  lemma {:induction false} InorderFromSep<K>(t: Tree<K>)
    requires Sep(t)
    ensures NoDup(Inorder(t))
  {
    if t.Nil? {
    } else {
      InorderFromSep(t.l);
      InorderFromSep(t.r);
      InorderNodes(t.l);
      InorderNodes(t.r);
      var a, b := Inorder(t.l), Inorder(t.r);
      assert Elems(a + [t.n]) == Elems(a) + {t.n};
      NoDupJoin(a, [t.n]);
      NoDupJoin(a + [t.n], b);
    }
  }

  /** A node cuts a walk without repetition in one way only. */
  lemma {:induction false} UniqueCut<T>(a: seq<T>, x: T, b: seq<T>, c: seq<T>, d: seq<T>)
    requires NoDup(a + [x] + b) && a + [x] + b == c + [x] + d
    ensures a == c && b == d
  {
    var s := a + [x] + b;
    assert s[|a|] == x && s[|c|] == x;
    assert |a| == |c|;
    assert a == s[..|a|] && c == s[..|a|];
    assert b == s[|a| + 1..] && d == s[|a| + 1..];
  }

  // ---------------------------------------------------------------- rotations

  /** _avl_rotate_right on the subtree t: the new shape with the balances the code computes. */
  ghost function RotRight<K>(t: Tree<K>): Tree<K>
    requires t.Bin? && t.l.Bin?
  {
    var b1 := t.b + 1;
    var nb := if t.l.b < 0 then b1 - t.l.b else b1;
    var b2 := t.l.b + 1;
    var lb := if nb > 0 then b2 + nb else b2;
    Bin(t.l.l, t.l.n, lb, Bin(t.l.r, t.n, nb, t.r))
  }

  /** _avl_rotate_left on the subtree t. */
  ghost function RotLeft<K>(t: Tree<K>): Tree<K>
    requires t.Bin? && t.r.Bin?
  {
    var b1 := t.b - 1;
    var nb := if t.r.b > 0 then b1 - t.r.b else b1;
    var b2 := t.r.b - 1;
    var rb := if nb < 0 then b2 + nb else b2;
    Bin(Bin(t.l, t.n, nb, t.r.l), t.r.n, rb, t.r.r)
  }

  /** Every stored balance is height(right) - height(left), however large. */
  ghost predicate Exact<K>(t: Tree<K>) {
    t.Bin? ==> Exact(t.l) && Exact(t.r) && t.b == Height(t.r) - Height(t.l)
  }

  /** The balance updates of a right rotation are exact for all balances, not only for those
      of an AVL tree. */
  lemma {:induction false} RotRightExact<K>(a: Tree<K>, y: AvlNode<K>, yb: int, b: Tree<K>, x: AvlNode<K>, xb: int,
                                            c: Tree<K>)
    requires Exact(a) && Exact(b) && Exact(c)
    requires yb == Height(b) - Height(a)
    requires xb == Height(c) - Height(Bin(a, y, yb, b))
    ensures Exact(RotRight(Bin(Bin(a, y, yb, b), x, xb, c)))
  {
    var nb := RotRight(Bin(Bin(a, y, yb, b), x, xb, c)).r.b;
    assert nb == Height(c) - Height(b);
    assert Exact(Bin(b, x, nb, c));
  }

  lemma {:induction false} RotLeftExact<K>(a: Tree<K>, x: AvlNode<K>, xb: int, b: Tree<K>, y: AvlNode<K>, yb: int,
                                           c: Tree<K>)
    requires Exact(a) && Exact(b) && Exact(c)
    requires yb == Height(c) - Height(b)
    requires xb == Height(Bin(b, y, yb, c)) - Height(a)
    ensures Exact(RotLeft(Bin(a, x, xb, Bin(b, y, yb, c))))
  {
    var nb := RotLeft(Bin(a, x, xb, Bin(b, y, yb, c))).l.b;
    assert nb == Height(b) - Height(a);
    assert Exact(Bin(a, x, nb, b));
  }

  lemma {:induction false} SeqAssoc<T>(a: seq<T>, b: seq<T>, c: seq<T>, d: seq<T>, e: seq<T>)
    ensures (a + b + c) + d + e == a + b + (c + d + e)
  {
  }

  lemma {:induction false} SetAssoc<T>(a: set<T>, b: set<T>, c: set<T>, d: set<T>, e: set<T>)
    ensures (a + b + c) + d + e == a + b + (c + d + e)
  {
  }

  /** Rotations keep the walk and the set of nodes. */
  lemma {:induction false} RotRightWalk<K>(t: Tree<K>)
    requires t.Bin? && t.l.Bin?
    ensures Inorder(RotRight(t)) == Inorder(t) && Nodes(RotRight(t)) == Nodes(t)
  {
    var u := RotRight(t);
    SeqAssoc(Inorder(t.l.l), [t.l.n], Inorder(t.l.r), [t.n], Inorder(t.r));
    SetAssoc(Nodes(t.l.l), {t.l.n}, Nodes(t.l.r), {t.n}, Nodes(t.r));
    assert Inorder(u.r) == Inorder(t.l.r) + [t.n] + Inorder(t.r);
    assert Nodes(u.r) == Nodes(t.l.r) + {t.n} + Nodes(t.r);
  }

  lemma {:induction false} RotLeftWalk<K>(t: Tree<K>)
    requires t.Bin? && t.r.Bin?
    ensures Inorder(RotLeft(t)) == Inorder(t) && Nodes(RotLeft(t)) == Nodes(t)
  {
    var u := RotLeft(t);
    SeqAssoc(Inorder(t.l), [t.n], Inorder(t.r.l), [t.r.n], Inorder(t.r.r));
    SetAssoc(Nodes(t.l), {t.n}, Nodes(t.r.l), {t.r.n}, Nodes(t.r.r));
    assert Inorder(u.l) == Inorder(t.l) + [t.n] + Inorder(t.r.l);
    assert Nodes(u.l) == Nodes(t.l) + {t.n} + Nodes(t.r.l);
  }

  lemma {:induction false} RotRightSep<K>(t: Tree<K>)
    requires t.Bin? && t.l.Bin? && Sep(t)
    ensures Sep(RotRight(t))
  {
    assert Nodes(t.l) == Nodes(t.l.l) + {t.l.n} + Nodes(t.l.r);
    assert Sep(RotRight(t).r);
  }

  lemma {:induction false} RotLeftSep<K>(t: Tree<K>)
    requires t.Bin? && t.r.Bin? && Sep(t)
    ensures Sep(RotLeft(t))
  {
    assert Nodes(t.r) == Nodes(t.r.l) + {t.r.n} + Nodes(t.r.r);
    assert Sep(RotLeft(t).l);
  }

  /** The shape after the rotations that repair a subtree two levels too high on the left. */
  ghost function FixLeft<K>(t: Tree<K>, n: AvlNode<K>, r: Tree<K>): Tree<K>
    requires t.Bin? && (t.b <= 0 ==> t.l.Bin?) && (t.b > 0 ==> t.r.Bin?)
  {
    if t.b <= 0 then RotRight(Bin(t, n, -2, r)) else RotRight(Bin(RotLeft(t), n, -2, r))
  }

  ghost function FixRight<K>(l: Tree<K>, n: AvlNode<K>, t: Tree<K>): Tree<K>
    requires t.Bin? && (t.b >= 0 ==> t.r.Bin?) && (t.b < 0 ==> t.l.Bin?)
  {
    if t.b >= 0 then RotLeft(Bin(l, n, 2, t)) else RotLeft(Bin(l, n, 2, RotRight(t)))
  }

  lemma {:induction false} SingleRight<K>(a: Tree<K>, y: AvlNode<K>, yb: int, b: Tree<K>, x: AvlNode<K>, c: Tree<K>)
    requires Avl(Bin(a, y, yb, b)) && yb <= 0 && Avl(c) && Height(Bin(a, y, yb, b)) == Height(c) + 2
    ensures a.Bin? && Avl(RotRight(Bin(Bin(a, y, yb, b), x, -2, c)))
    ensures Height(RotRight(Bin(Bin(a, y, yb, b), x, -2, c))) == Height(Bin(a, y, yb, b)) + if yb == 0 then 1 else 0
  {
    var u := RotRight(Bin(Bin(a, y, yb, b), x, -2, c));
    assert u == Bin(a, y, u.b, Bin(b, x, u.r.b, c));
    assert Avl(u.r);
  }

  lemma {:induction false} SingleLeft<K>(a: Tree<K>, x: AvlNode<K>, b: Tree<K>, y: AvlNode<K>, yb: int, c: Tree<K>)
    requires Avl(Bin(b, y, yb, c)) && yb >= 0 && Avl(a) && Height(Bin(b, y, yb, c)) == Height(a) + 2
    ensures c.Bin? && Avl(RotLeft(Bin(a, x, 2, Bin(b, y, yb, c))))
    ensures Height(RotLeft(Bin(a, x, 2, Bin(b, y, yb, c)))) == Height(Bin(b, y, yb, c)) + if yb == 0 then 1 else 0
  {
    var u := RotLeft(Bin(a, x, 2, Bin(b, y, yb, c)));
    assert u == Bin(Bin(a, x, u.l.b, b), y, u.b, c);
    assert Avl(u.l);
  }

  lemma {:induction false} DoubleRight<K>(a: Tree<K>, y: AvlNode<K>, b: Tree<K>, z: AvlNode<K>, zb: int, d: Tree<K>,
                                          x: AvlNode<K>, c: Tree<K>)
    requires Avl(Bin(a, y, 1, Bin(b, z, zb, d))) && Avl(c) && Height(Bin(a, y, 1, Bin(b, z, zb, d))) == Height(c) + 2
    ensures -2 <= RotLeft(Bin(a, y, 1, Bin(b, z, zb, d))).b <= 2
    ensures Avl(RotRight(Bin(RotLeft(Bin(a, y, 1, Bin(b, z, zb, d))), x, -2, c)))
    ensures Height(RotRight(Bin(RotLeft(Bin(a, y, 1, Bin(b, z, zb, d))), x, -2, c))) == Height(c) + 2
  {
    var v := RotLeft(Bin(a, y, 1, Bin(b, z, zb, d)));
    assert v == Bin(Bin(a, y, v.l.b, b), z, v.b, d);
    var u := RotRight(Bin(v, x, -2, c));
    assert u == Bin(Bin(a, y, v.l.b, b), z, u.b, Bin(d, x, u.r.b, c));
    assert Avl(Bin(b, z, zb, d)) && Height(Bin(b, z, zb, d)) == Height(c) + 1 && Height(a) == Height(c);
    assert v.l.b == Height(b) - Height(a) && u.r.b == Height(c) - Height(d) && u.b == 0;
    assert Avl(u.l) && Avl(u.r);
  }

  lemma {:induction false} DoubleLeft<K>(a: Tree<K>, x: AvlNode<K>, b: Tree<K>, z: AvlNode<K>, zb: int, d: Tree<K>,
                                         y: AvlNode<K>, c: Tree<K>)
    requires Avl(Bin(Bin(b, z, zb, d), y, -1, c)) && Avl(a) && Height(Bin(Bin(b, z, zb, d), y, -1, c)) == Height(a) + 2
    ensures -2 <= RotRight(Bin(Bin(b, z, zb, d), y, -1, c)).b <= 2
    ensures Avl(RotLeft(Bin(a, x, 2, RotRight(Bin(Bin(b, z, zb, d), y, -1, c)))))
    ensures Height(RotLeft(Bin(a, x, 2, RotRight(Bin(Bin(b, z, zb, d), y, -1, c))))) == Height(a) + 2
  {
    var v := RotRight(Bin(Bin(b, z, zb, d), y, -1, c));
    assert v == Bin(b, z, v.b, Bin(d, y, v.r.b, c));
    var u := RotLeft(Bin(a, x, 2, v));
    assert u == Bin(Bin(a, x, u.l.b, b), z, u.b, Bin(d, y, v.r.b, c));
    assert Avl(Bin(b, z, zb, d)) && Height(Bin(b, z, zb, d)) == Height(a) + 1 && Height(c) == Height(a);
    assert u.l.b == Height(b) - Height(a) && v.r.b == Height(c) - Height(d) && u.b == 0;
    assert Avl(u.l) && Avl(u.r);
  }

  /** One single or double rotation repairs a left overhang of two; the height shrinks by one
      unless the higher child was balanced. */
  lemma {:induction false} FixLeftAvl<K>(t: Tree<K>, n: AvlNode<K>, r: Tree<K>)
    requires Avl(t) && Avl(r) && Height(t) == Height(r) + 2
    ensures t.Bin? && (t.b <= 0 ==> t.l.Bin?) && (t.b > 0 ==> t.r.Bin?)
    ensures t.b > 0 ==> -2 <= RotLeft(t).b <= 2
    ensures Avl(FixLeft(t, n, r))
    ensures Height(FixLeft(t, n, r)) == Height(t) + if t.b == 0 then 1 else 0
  {
    if t.b <= 0 {
      SingleRight(t.l, t.n, t.b, t.r, n, r);
    } else {
      DoubleRight(t.l, t.n, t.r.l, t.r.n, t.r.b, t.r.r, n, r);
    }
  }

  lemma {:induction false} FixRightAvl<K>(l: Tree<K>, n: AvlNode<K>, t: Tree<K>)
    requires Avl(t) && Avl(l) && Height(t) == Height(l) + 2
    ensures t.Bin? && (t.b >= 0 ==> t.r.Bin?) && (t.b < 0 ==> t.l.Bin?)
    ensures t.b < 0 ==> -2 <= RotRight(t).b <= 2
    ensures Avl(FixRight(l, n, t))
    ensures Height(FixRight(l, n, t)) == Height(t) + if t.b == 0 then 1 else 0
  {
    if t.b >= 0 {
      SingleLeft(l, n, t.l, t.n, t.b, t.r);
    } else {
      DoubleLeft(l, n, t.l.l, t.l.n, t.l.b, t.l.r, t.n, t.r);
    }
  }

  lemma {:induction false} FixLeftWalk<K>(t: Tree<K>, n: AvlNode<K>, r: Tree<K>)
    requires t.Bin? && (t.b <= 0 ==> t.l.Bin?) && (t.b > 0 ==> t.r.Bin?)
    ensures Inorder(FixLeft(t, n, r)) == Inorder(Bin(t, n, -2, r))
    ensures Nodes(FixLeft(t, n, r)) == Nodes(Bin(t, n, -2, r))
  {
    if t.b <= 0 {
      RotRightWalk(Bin(t, n, -2, r));
    } else {
      RotLeftWalk(t);
      RotRightWalk(Bin(RotLeft(t), n, -2, r));
    }
  }

  lemma {:induction false} FixRightWalk<K>(l: Tree<K>, n: AvlNode<K>, t: Tree<K>)
    requires t.Bin? && (t.b >= 0 ==> t.r.Bin?) && (t.b < 0 ==> t.l.Bin?)
    ensures Inorder(FixRight(l, n, t)) == Inorder(Bin(l, n, 2, t))
    ensures Nodes(FixRight(l, n, t)) == Nodes(Bin(l, n, 2, t))
  {
    if t.b >= 0 {
      RotLeftWalk(Bin(l, n, 2, t));
    } else {
      RotRightWalk(t);
      RotLeftWalk(Bin(l, n, 2, RotRight(t)));
    }
  }

  // ---------------------------------------------------------------- height bound

  ghost function Fib(n: nat): nat {
    if n < 2 then n else Fib(n - 1) + Fib(n - 2)
  }

  lemma {:induction false} FibMono(m: nat, n: nat)
    requires m <= n
    ensures Fib(m) <= Fib(n)
    decreases n
  {
    if n <= m {
    } else {
      FibMono(m, n - 1);
      if n >= 2 { assert Fib(n) == Fib(n - 1) + Fib(n - 2); }
    }
  }

  /** A tree of height h holds at least Fib(h+2)-1 leaders. */
  lemma {:induction false} AvlSize<K>(t: Tree<K>)
    requires Avl(t)
    ensures |Inorder(t)| >= Fib(Height(t) + 2) - 1
  {
    if t.Bin? {
      AvlSize(t.l);
      AvlSize(t.r);
      var h := Height(t);
      FibMono(h, Height(t.l) + 2);
      FibMono(h, Height(t.r) + 2);
      assert Fib(h + 2) == Fib(h + 1) + Fib(h);
    } else {
      assert Fib(2) == Fib(1) + Fib(0);
    }
  }

  lemma {:induction false} DepthBelowHeight<K>(c: Ctx<K>, t: Tree<K>)
    ensures Depth(c) + Height(t) <= Height(Zip(c, t))
    decreases c
  {
    match c
    case Top =>
    case InLeft(up, n, b, r) => DepthBelowHeight(up, Bin(t, n, b, r));
    case InRight(l, up, n, b) => DepthBelowHeight(up, Bin(l, n, b, t));
  }

  /** A node met after d descents lies in a tree with at least Fib(d+3)-1 leaders: the recursion
      of _avl_find_rec is logarithmic in the number of leaders. */
  lemma {:induction false} LookupLogarithmic<K>(c: Ctx<K>, t: Tree<K>)
    requires t.Bin? && Avl(Zip(c, t))
    ensures |Inorder(Zip(c, t))| >= Fib(Depth(c) + 3) - 1
  {
    AvlSize(Zip(c, t));
    DepthBelowHeight(c, t);
    FibMono(Depth(c) + 3, Height(Zip(c, t)) + 2);
  }
}
