/**
  * How the pointers of lib/common/avl.c and lib/common/list.h represent a Tree and a list.
  */
module AvlHeap {
  import opened Basics
  import opened AvlShape

  // ---------------------------------------------------------------- the tree pointers

  ghost function Root<K>(t: Tree<K>): AvlNode?<K> {
    if t.Nil? then null else t.n
  }

  /** Parent pointer of the subtree in the hole of c. */
  ghost function ParentOf<K>(c: Ctx<K>): AvlNode?<K> {
    if c.Top? then null else c.n
  }

  /** Root pointer of the whole tree when the hole of c is filled by a subtree with root child. */
  ghost function RootVia<K>(c: Ctx<K>, child: AvlNode?<K>): AvlNode?<K> {
    if c.Top? then child else RootVia(c.up, c.n)
  }

  /** What the tree fields of one node hold. */
  datatype Links<K> = Links(parent: AvlNode?<K>, left: AvlNode?<K>, right: AvlNode?<K>, balance: int)

  /** The tree fields of a set of nodes. */
  type Store<K> = map<AvlNode<K>, Links<K>>

  /** The fields that spell out t below the parent p: child links, mirrored parent links, balances. */
  ghost function LinksOf<K>(t: Tree<K>, p: AvlNode?<K>): (m: Store<K>)
    ensures m.Keys == Nodes(t)
  {
    if t.Nil? then map[]
    else LinksOf(t.l, t.n) + LinksOf(t.r, t.n) + map[t.n := Links(p, Root(t.l), Root(t.r), t.b)]
  }

  /** The fields that spell out c when its hole holds a subtree with root child. */
  ghost function CtxLinks<K>(c: Ctx<K>, child: AvlNode?<K>): (m: Store<K>)
    ensures m.Keys == CtxNodes(c)
  {
    match c
    case Top => map[]
    case InLeft(up, n, b, r) =>
      CtxLinks(up, n) + LinksOf(r, n) + map[n := Links(ParentOf(up), child, Root(r), b)]
    case InRight(l, up, n, b) =>
      CtxLinks(up, n) + LinksOf(l, n) + map[n := Links(ParentOf(up), Root(l), child, b)]
  }

  ghost function ZipLinks<K>(c: Ctx<K>, t: Tree<K>): (m: Store<K>)
    ensures m.Keys == CtxNodes(c) + Nodes(t)
  {
    CtxLinks(c, Root(t)) + LinksOf(t, ParentOf(c))
  }

  ghost predicate Apart<K>(c: Ctx<K>, t: Tree<K>) {
    Sep(t) && CtxSep(c) && Disjoint(Nodes(t), CtxNodes(c))
  }

  lemma {:induction false} MapShuffle<X, Y>(a: map<X, Y>, b: map<X, Y>, c: map<X, Y>, d: map<X, Y>)
    requires Disjoint(b.Keys, c.Keys) && Disjoint(b.Keys, d.Keys)
    ensures a + (b + c + d) == (a + c + d) + b
    ensures a + (c + b + d) == (a + c + d) + b
  {
  }

  lemma {:induction false} ZipLinksUp<K>(c: Ctx<K>, t: Tree<K>)
    requires Apart(c, t) && !c.Top?
    ensures c.InLeft? ==> ZipLinks(c.up, Bin(t, c.n, c.b, c.r)) == ZipLinks(c, t)
    ensures c.InRight? ==> ZipLinks(c.up, Bin(c.l, c.n, c.b, t)) == ZipLinks(c, t)
  {
    var o := if c.InLeft? then c.r else c.l;
    var d := map[c.n := if c.InLeft? then Links(ParentOf(c.up), Root(t), Root(o), c.b)
                        else Links(ParentOf(c.up), Root(o), Root(t), c.b)];
    MapShuffle(CtxLinks(c.up, c.n), LinksOf(t, c.n), LinksOf(o, c.n), d);
  }

  /** Move the hole one step up: the subtree of c's parent, with t in its place. */
  ghost function Enclose<K>(c: Ctx<K>, t: Tree<K>): Tree<K>
    requires !c.Top?
  {
    if c.InLeft? then Bin(t, c.n, c.b, c.r) else Bin(c.l, c.n, c.b, t)
  }

  ghost function WithBalance<K>(c: Ctx<K>, b: int): Ctx<K>
    requires !c.Top?
  {
    if c.InLeft? then InLeft(c.up, c.n, b, c.r) else InRight(c.l, c.up, c.n, b)
  }

  lemma {:induction false} EncloseWalk<K>(c: Ctx<K>, t: Tree<K>)
    requires !c.Top?
    ensures Walk(c.up, Enclose(c, t)) == Walk(c, t)
    ensures CtxNodes(c.up) + Nodes(Enclose(c, t)) == CtxNodes(c) + Nodes(t)
  {
    if c.InLeft? {
      SeqShiftRight(Before(c.up), Inorder(t), [c.n], Inorder(c.r), After(c.up));
    } else {
      SeqShiftLeft(Before(c.up), Inorder(c.l), [c.n], Inorder(t), After(c.up));
    }
  }

  lemma {:induction false} DescendLeft<K>(c: Ctx<K>, t: Tree<K>)
    requires t.Bin?
    ensures Zip(InLeft(c, t.n, t.b, t.r), t.l) == Zip(c, t) && Before(InLeft(c, t.n, t.b, t.r)) == Before(c)
    ensures Enclose(InLeft(c, t.n, t.b, t.r), t.l) == t
  {
  }

  lemma {:induction false} DescendRight<K>(c: Ctx<K>, t: Tree<K>)
    requires t.Bin?
    ensures Zip(InRight(t.l, c, t.n, t.b), t.r) == Zip(c, t)
    ensures Enclose(InRight(t.l, c, t.n, t.b), t.r) == t
  {
  }

  lemma {:induction false} WithBalanceWalk<K>(c: Ctx<K>, b: int)
    requires !c.Top?
    ensures Before(WithBalance(c, b)) == Before(c) && After(WithBalance(c, b)) == After(c)
    ensures CtxNodes(WithBalance(c, b)) == CtxNodes(c)
  {
  }

  lemma {:induction false} ApartUp<K>(c: Ctx<K>, t: Tree<K>)
    requires !c.Top?
    ensures Apart(c, t) <==> Apart(c.up, Enclose(c, t))
  {
  }

  lemma {:induction false} ZipLinksWhole<K>(c: Ctx<K>, t: Tree<K>)
    requires Apart(c, t)
    ensures Apart(Top, Zip(c, t)) && ZipLinks(Top, Zip(c, t)) == ZipLinks(c, t)
    ensures Root(Zip(c, t)) == RootVia(c, Root(t))
    decreases c
  {
    if c.Top? {
    } else {
      ApartUp(c, t);
      ZipLinksUp(c, t);
      ZipLinksWhole(c.up, Enclose(c, t));
    }
  }

  lemma {:induction false} UpdateLeft<X, Y>(a: map<X, Y>, b: map<X, Y>, x: X, y: Y)
    requires x !in b
    ensures a[x := y] + b == (a + b)[x := y]
  {
  }

  lemma {:induction false} UpdateTwice<X, Y>(a: map<X, Y>, x: X, y: Y, z: Y)
    ensures (a + map[x := y])[x := z] == a + map[x := z]
  {
  }

  lemma {:induction false} WithBalanceLinks<K>(c: Ctx<K>, t: Tree<K>, b: int)
    requires Apart(c, t) && !c.Top?
    ensures Apart(WithBalance(c, b), t) && RootVia(WithBalance(c, b), Root(t)) == RootVia(c, Root(t))
    ensures ZipLinks(WithBalance(c, b), t) == ZipLinks(c, t)[c.n := ZipLinks(c, t)[c.n].(balance := b)]
  {
    HoleLinks(c, t);
    var d := WithBalance(c, b);
    var o := if c.InLeft? then c.r else c.l;
    var x := ZipLinks(c, t)[c.n];
    UpdateTwice(CtxLinks(c.up, c.n) + LinksOf(o, c.n), c.n, x, x.(balance := b));
    assert CtxLinks(d, Root(t)) == CtxLinks(c, Root(t))[c.n := x.(balance := b)];
    UpdateLeft(CtxLinks(c, Root(t)), LinksOf(t, c.n), c.n, x.(balance := b));
  }

  /** The nodes around a hole, seen through the fields: the root of the subtree knows its parent,
      and the parent knows on which side it sits. */
  lemma {:induction false} HoleLinks<K>(c: Ctx<K>, t: Tree<K>)
    requires Apart(c, t)
    ensures t.Bin? ==> ZipLinks(c, t)[t.n] == Links(ParentOf(c), Root(t.l), Root(t.r), t.b)
    ensures c.InLeft? ==> ZipLinks(c, t)[c.n] == Links(ParentOf(c.up), Root(t), Root(c.r), c.b)
    ensures c.InRight? ==> ZipLinks(c, t)[c.n] == Links(ParentOf(c.up), Root(c.l), Root(t), c.b)
    ensures c.InLeft? && t.Bin? ==> Root(c.r) != t.n
    ensures c.InRight? && t.Bin? ==> Root(c.l) != t.n
  {
  }

  lemma {:induction false} LinksInside<K>(t: Tree<K>, p: AvlNode?<K>, n: AvlNode<K>)
    requires Sep(t) && n in Nodes(t)
    ensures n == t.n ==> LinksOf(t, p)[n] == Links(p, Root(t.l), Root(t.r), t.b)
    ensures n in Nodes(t.l) ==> n != t.n && LinksOf(t, p)[n] == LinksOf(t.l, t.n)[n]
    ensures n in Nodes(t.r) ==> n != t.n && LinksOf(t, p)[n] == LinksOf(t.r, t.n)[n]
  {
  }

  lemma {:induction false} LinksNewParent<K>(t: Tree<K>, p: AvlNode?<K>, q: AvlNode?<K>, n: AvlNode<K>)
    requires Sep(t) && n in Nodes(t)
    ensures LinksOf(t, q)[n] == if n == t.n then LinksOf(t, p)[n].(parent := q) else LinksOf(t, p)[n]
  {
  }

  lemma {:induction false} CtxNewChild<K>(c: Ctx<K>, x: AvlNode?<K>, y: AvlNode?<K>, n: AvlNode<K>)
    requires n in CtxNodes(c)
    ensures CtxLinks(c, y)[n] ==
      var was := CtxLinks(c, x)[n];
      if n != c.n then was else if c.InLeft? then was.(left := y) else was.(right := y)
  {
  }

  lemma {:induction false} RootInside<K>(t: Tree<K>)
    ensures t.Bin? ==> t.n in Nodes(t)
  {
  }

  ghost predicate Carries<K>(n: AvlNode<K>, f: Links<K>)
    reads n`parent, n`left, n`right, n`balance
  {
    n.parent == f.parent && n.left == f.left && n.right == f.right && n.balance == f.balance
  }

  /** The heap agrees with m. */
  ghost predicate Holds<K>(m: Store<K>)
    reads m.Keys`parent, m.Keys`left, m.Keys`right, m.Keys`balance
  {
    forall n :: n in m ==> Carries(n, m[n])
  }

  lemma {:induction false} HoldsPart<K>(m: Store<K>, k: Store<K>)
    requires Holds(m) && forall n :: n in k ==> n in m && k[n] == m[n]
    ensures Holds(k)
  {
  }

  // ---------------------------------------------------------------- the ring

  /** Element i of the ring; positions -1 and |s| are the list head. */
  ghost function At<K>(head: AvlNode<K>, s: seq<AvlNode<K>>, i: int): AvlNode<K> {
    if 0 <= i < |s| then s[i] else head
  }

  /** head and s form two mirrored circles of next and prev pointers. */
  ghost predicate Ring<K>(head: AvlNode<K>, s: seq<AvlNode<K>>)
    reads ({head} + Elems(s))`next, ({head} + Elems(s))`prev
  {
    && NoDup(s) && head !in s
    && head.next == At(head, s, 0) && head.prev == At(head, s, |s| - 1)
    && (forall i {:trigger s[i].next} :: 0 <= i < |s| ==> s[i].next == At(head, s, i + 1))
    && (forall i {:trigger s[i].prev} :: 0 <= i < |s| ==> s[i].prev == At(head, s, i - 1))
  }

  lemma {:induction false} InsertNoDup<T>(s: seq<T>, x: T, p: nat)
    requires NoDup(s) && x !in s && p <= |s|
    ensures NoDup(s[..p] + [x] + s[p..])
  {
  }

  lemma {:induction false} RemoveNoDup<T>(s: seq<T>, p: nat)
    requires NoDup(s) && p < |s|
    ensures NoDup(s[..p] + s[p + 1..])
  {
  }

  /** __list_add: link x between two neighbours of the ring. */
  method ListAdd<K>(prev: AvlNode<K>, next: AvlNode<K>, x: AvlNode<K>,
                    ghost head: AvlNode<K>, ghost s: seq<AvlNode<K>>, ghost p: nat)
    requires Ring(head, s) && p <= |s| && prev == At(head, s, p - 1) && next == At(head, s, p)
    requires x != head && x !in s
    modifies {x, prev, next}`next, {x, prev, next}`prev
    ensures Ring(head, s[..p] + [x] + s[p..])
  {
    x.next := next;
    x.prev := prev;
    next.prev := x;
    prev.next := x;
    ghost var t := s[..p] + [x] + s[p..];
    InsertNoDup(s, x, p);
    forall i | 0 <= i < |t| ensures t[i].next == At(head, t, i + 1) && t[i].prev == At(head, t, i - 1) {
      if i < p {
        assert t[i] == s[i];
      } else if p < i {
        assert t[i] == s[i - 1];
      }
    }
  }

  /** list_remove: unlink x and clear its pointers. */
  method ListRemove<K>(x: AvlNode<K>, ghost head: AvlNode<K>, ghost s: seq<AvlNode<K>>, ghost p: nat)
    requires Ring(head, s) && p < |s| && x == s[p]
    modifies {x, At(head, s, p - 1), At(head, s, p + 1)}`next, {x, At(head, s, p - 1), At(head, s, p + 1)}`prev
    ensures Ring(head, s[..p] + s[p + 1..])
    ensures x.next == null && x.prev == null
  {
    x.prev.next := x.next;
    x.next.prev := x.prev;
    x.prev, x.next := null, null;
    RingWithout(head, s, p);
  }

  /** The links around a gap at position p make the rest a ring. */
  lemma {:induction false} RingWithout<K>(head: AvlNode<K>, s: seq<AvlNode<K>>, p: nat)
    requires NoDup(s) && head !in s && p < |s|
    requires head.next == At(head, s, if p == 0 then 1 else 0)
    requires head.prev == At(head, s, if p == |s| - 1 then |s| - 2 else |s| - 1)
    requires forall i {:trigger s[i].next} :: 0 <= i < |s| && i != p ==>
      s[i].next == At(head, s, if i + 1 == p then p + 1 else i + 1)
    requires forall i {:trigger s[i].prev} :: 0 <= i < |s| && i != p ==>
      s[i].prev == At(head, s, if i - 1 == p then p - 1 else i - 1)
    ensures Ring(head, s[..p] + s[p + 1..])
  {
    hide At;
    var t := s[..p] + s[p + 1..];
    RemoveNoDup(s, p);
    AtRemoved(head, s, p);
    forall i | 0 <= i < |t| ensures t[i].next == At(head, t, i + 1) && t[i].prev == At(head, t, i - 1) {
      assert t[i] == s[if i < p then i else i + 1];
    }
  }

  /** The ring without its element p. */
  lemma {:induction false} AtRemoved<K>(head: AvlNode<K>, s: seq<AvlNode<K>>, p: nat)
    requires p < |s|
    ensures var t := s[..p] + s[p + 1..];
            forall j :: -1 <= j <= |t| ==> At(head, t, j) == At(head, s, if j < p then j else j + 1)
  {
  }

  lemma {:induction false} RingEnds<K>(head: AvlNode<K>, s: seq<AvlNode<K>>, i: nat)
    requires Ring(head, s) && i < |s|
    ensures head.prev == s[i] <==> i == |s| - 1
    ensures head.next == s[i] <==> i == 0
    ensures s[i].next == At(head, s, i + 1) && s[i].prev == At(head, s, i - 1)
  {
  }

  lemma {:induction false} RingNear<K>(head: AvlNode<K>, s: seq<AvlNode<K>>, i: nat)
    requires i < |s|
    ensures s[i] == At(head, s, i) && {At(head, s, i - 1), At(head, s, i), At(head, s, i + 1)} <= {head} + Elems(s)
  {
  }
}
