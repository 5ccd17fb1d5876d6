/** What _avl_find_rec of lib/common/avl.c knows at each step of its descent, without the heap. */
module AvlSearch {
  import opened AvlShape
  import opened AvlOrder
  import opened AvlPlace

  /** Every leader outside the subtree t is on its proper side of the key. */
  ghost predicate Narrowed<K>(cmp: Comparator<K>, c: Ctx<K>, t: Tree<K>, k: K) {
    t.Bin? && StrictlySorted(cmp, Inorder(t)) && KeysBelow(cmp, Before(c), k) && KeysAbove(cmp, After(c), k)
  }

  /** Every leader but the root of t is on its proper side of the key. */
  ghost predicate Found<K>(cmp: Comparator<K>, c: Ctx<K>, t: Tree<K>, k: K) {
    t.Bin? && KeysBelow(cmp, Preceding(c, t), k) && KeysAbove(cmp, Following(c, t), k)
  }

  lemma {:induction false} Halves<K>(cmp: Comparator<K>, l: seq<AvlNode<K>>, n: AvlNode<K>, r: seq<AvlNode<K>>)
    requires StrictlySorted(cmp, l + [n] + r)
    ensures StrictlySorted(cmp, l) && StrictlySorted(cmp, r)
    ensures forall i :: 0 <= i < |l| ==> cmp(l[i].key, n.key) < 0
    ensures forall i :: 0 <= i < |r| ==> cmp(n.key, r[i].key) < 0
  {
    var s := l + [n] + r;
    assert s[|l|] == n;
    assert forall i :: 0 <= i < |l| ==> s[i] == l[i];
    assert forall i :: 0 <= i < |r| ==> s[|l| + 1 + i] == r[i];
  }

  lemma {:induction false} AboveRight<K(!new)>(cmp: Comparator<K>, l: seq<AvlNode<K>>, n: AvlNode<K>,
                                               r: seq<AvlNode<K>>, k: K)
    requires TotalOrder(cmp) && StrictlySorted(cmp, l + [n] + r) && cmp(k, n.key) <= 0
    ensures KeysAbove(cmp, r, k)
  {
    Halves(cmp, l, n, r);
    forall i | 0 <= i < |r| ensures cmp(k, r[i].key) < 0 {
      Chain(cmp, k, n.key, r[i].key);
    }
  }

  lemma {:induction false} BelowLeft<K(!new)>(cmp: Comparator<K>, l: seq<AvlNode<K>>, n: AvlNode<K>,
                                              r: seq<AvlNode<K>>, k: K)
    requires TotalOrder(cmp) && StrictlySorted(cmp, l + [n] + r) && cmp(k, n.key) >= 0
    ensures KeysBelow(cmp, l, k)
  {
    Halves(cmp, l, n, r);
    forall i | 0 <= i < |l| ensures cmp(k, l[i].key) > 0 {
      Chain(cmp, l[i].key, n.key, l[i].key);
      Chain(cmp, k, n.key, l[i].key);
    }
  }

  lemma {:induction false} GoLeft<K(!new)>(cmp: Comparator<K>, c: Ctx<K>, t: Tree<K>, k: K)
    requires TotalOrder(cmp) && Narrowed(cmp, c, t, k) && cmp(k, t.n.key) < 0 && t.l.Bin?
    ensures Narrowed(cmp, InLeft(c, t.n, t.b, t.r), t.l, k)
  {
    Halves(cmp, Inorder(t.l), t.n, Inorder(t.r));
    AboveRight(cmp, Inorder(t.l), t.n, Inorder(t.r), k);
  }

  lemma {:induction false} GoRight<K(!new)>(cmp: Comparator<K>, c: Ctx<K>, t: Tree<K>, k: K)
    requires TotalOrder(cmp) && Narrowed(cmp, c, t, k) && cmp(k, t.n.key) > 0 && t.r.Bin?
    ensures Narrowed(cmp, InRight(t.l, c, t.n, t.b), t.r, k)
  {
    Halves(cmp, Inorder(t.l), t.n, Inorder(t.r));
    BelowLeft(cmp, Inorder(t.l), t.n, Inorder(t.r), k);
  }

  lemma {:induction false} Stop<K(!new)>(cmp: Comparator<K>, c: Ctx<K>, t: Tree<K>, k: K)
    requires TotalOrder(cmp) && Narrowed(cmp, c, t, k)
    requires cmp(k, t.n.key) < 0 ==> t.l.Nil?
    requires cmp(k, t.n.key) > 0 ==> t.r.Nil?
    ensures Found(cmp, c, t, k)
  {
    if cmp(k, t.n.key) <= 0 { AboveRight(cmp, Inorder(t.l), t.n, Inorder(t.r), k); }
    if cmp(k, t.n.key) >= 0 { BelowLeft(cmp, Inorder(t.l), t.n, Inorder(t.r), k); }
  }
}
