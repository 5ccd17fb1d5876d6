/** The two rotations of lib/common/avl.c, in place. */
module AvlRotate {
  import opened AvlShape
  import opened AvlHeap

  /** The nodes that a right rotation at node touches are known and distinct. */
  ghost predicate RotatesRight<K>(m: Store<K>, node: AvlNode<K>) {
    && node in m
    && var left, parent := m[node].left, m[node].parent;
       && left != null && left in m && left != node && parent != node && parent != left
       && (parent != null ==> parent in m)
       && -2 <= m[node].balance <= 2 && -2 <= m[left].balance <= 2
       && var inner := m[left].right;
          inner != null ==> inner in m && inner != node && inner != left && inner != parent
  }

  /** What _avl_rotate_right makes of the fields. */
  ghost function RotatedRight<K>(m: Store<K>, node: AvlNode<K>): Store<K>
    requires RotatesRight(m, node)
  {
    var left, parent := m[node].left, m[node].parent;
    var nb := m[node].balance + 1 - (if m[left].balance < 0 then m[left].balance else 0);
    var lb := m[left].balance + 1 + (if nb > 0 then nb else 0);
    map n | n in m ::
      if n == node then Links(left, m[left].right, m[node].right, nb)
      else if n == left then Links(parent, m[left].left, node, lb)
      else if n == m[left].right then m[n].(parent := node)
      else if n == parent then (if m[n].left == node then m[n].(left := left) else m[n].(right := left))
      else m[n]
  }

  /** What a right rotation of t below the parent p changes: three nodes at most. */
  lemma {:induction false} RotRightInside<K>(t: Tree<K>, p: AvlNode?<K>, n: AvlNode<K>)
    requires Sep(t) && t.Bin? && t.l.Bin? && n in Nodes(t)
    ensures Sep(RotRight(t)) && n in Nodes(RotRight(t))
    ensures LinksOf(RotRight(t), p)[n] ==
      var was := LinksOf(t, p)[n];
      if n == t.n then Links(t.l.n, Root(t.l.r), Root(t.r), RotRight(t).r.b)
      else if n == t.l.n then Links(p, Root(t.l.l), t.n, RotRight(t).b)
      else if n == Root(t.l.r) then was.(parent := t.n)
      else was
  {
    RotRightWalk(t);
    RotRightSep(t);
    RootInside(t.l.r);
    LinksInside(t, p, n);
    LinksInside(RotRight(t), p, n);
    if n in Nodes(t.l) { LinksInside(t.l, t.n, n); }
    if n in Nodes(RotRight(t).r) { LinksInside(RotRight(t).r, t.l.n, n); }
    if n in Nodes(t.l.r) { LinksNewParent(t.l.r, t.l.n, t.n, n); }
  }

  /** The three nodes that take part in a right rotation are known and distinct. */
  lemma {:induction false} RotatesRightAt<K>(c: Ctx<K>, t: Tree<K>)
    requires Apart(c, t) && t.Bin? && t.l.Bin?
    ensures -2 <= t.b <= 2 && -2 <= t.l.b <= 2 ==> RotatesRight(ZipLinks(c, t), t.n)
    ensures Root(RotRight(t)) == t.l.n
    ensures ZipLinks(c, t)[t.n] == Links(ParentOf(c), t.l.n, Root(t.r), t.b)
    ensures ZipLinks(c, t)[t.l.n] == Links(t.n, Root(t.l.l), Root(t.l.r), t.l.b)
  {
    LinksInside(t, ParentOf(c), t.n);
    LinksInside(t, ParentOf(c), t.l.n);
    LinksInside(t.l, t.n, t.l.n);
    RootInside(t.l.r);
  }

  lemma {:induction false} RotatedRightInside<K>(c: Ctx<K>, t: Tree<K>, n: AvlNode<K>)
    requires Apart(c, t) && t.Bin? && t.l.Bin? && RotatesRight(ZipLinks(c, t), t.n)
    requires n in Nodes(t)
    ensures n in Nodes(RotRight(t))
    ensures RotatedRight(ZipLinks(c, t), t.n)[n] == LinksOf(RotRight(t), ParentOf(c))[n]
  {
    RotatesRightAt(c, t);
    RotRightInside(t, ParentOf(c), n);
  }

  lemma {:induction false} RotatedRightOutside<K>(c: Ctx<K>, t: Tree<K>, n: AvlNode<K>)
    requires Apart(c, t) && t.Bin? && t.l.Bin? && RotatesRight(ZipLinks(c, t), t.n)
    requires n in CtxNodes(c)
    ensures RotatedRight(ZipLinks(c, t), t.n)[n] == CtxLinks(c, t.l.n)[n]
  {
    RotatesRightAt(c, t);
    RootInside(t.l.r);
    HoleLinks(c, t);
    CtxNewChild(c, t.n, t.l.n, n);
  }

  /** _avl_rotate_right on the fields is RotRight on the shape. */
  lemma {:induction false} RotatedRightAt<K>(c: Ctx<K>, t: Tree<K>)
    requires Apart(c, t) && t.Bin? && t.l.Bin? && -2 <= t.b <= 2 && -2 <= t.l.b <= 2
    ensures RotatesRight(ZipLinks(c, t), t.n) && Apart(c, RotRight(t))
    ensures RotatedRight(ZipLinks(c, t), t.n) == ZipLinks(c, RotRight(t))
  {
    hide RotRight, RotLeft, Inorder, LinksOf, CtxLinks, Sep, CtxSep;
    RotatesRightAt(c, t);
    RotRightWalk(t);
    RotRightSep(t);
    var m, m' := RotatedRight(ZipLinks(c, t), t.n), ZipLinks(c, RotRight(t));
    forall n | n in m' ensures m[n] == m'[n] {
      if n in Nodes(t) {
        RotatedRightInside(c, t, n);
      } else {
        RotatedRightOutside(c, t, n);
      }
    }
  }

  /** One rotation: at which node, below which parent, and to which side. */
  datatype Turn<K> = Turn(node: AvlNode<K>, above: AvlNode?<K>, right: bool)

  /** Between was and now there was no rotation, or a single one, or a double one: first at a child
      and then, to the other side, at its parent. */
  ghost predicate OneRepair<K>(was: seq<Turn<K>>, now: seq<Turn<K>>) {
    && |was| <= |now| && now[..|was|] == was
    && var d := now[|was|..];
       |d| <= 1 || (|d| == 2 && d[0].right != d[1].right && d[0].above == d[1].node)
  }

  lemma {:induction false} DoubleTurn<K>(was: seq<Turn<K>>, x: Turn<K>, y: Turn<K>)
    requires x.right != y.right && x.above == y.node
    ensures OneRepair(was, was + [x] + [y])
  {
    assert (was + [x] + [y])[|was|..] == [x, y];
  }

  // ---------------------------------------------------------------- the mirror image

  /** The nodes that a left rotation at node touches are known and distinct. */
  ghost predicate RotatesLeft<K>(m: Store<K>, node: AvlNode<K>) {
    && node in m
    && var right, parent := m[node].right, m[node].parent;
       && right != null && right in m && right != node && parent != node && parent != right
       && (parent != null ==> parent in m)
       && -2 <= m[node].balance <= 2 && -2 <= m[right].balance <= 2
       && var inner := m[right].left;
          inner != null ==> inner in m && inner != node && inner != right && inner != parent
  }

  /** What _avl_rotate_left makes of the fields. */
  ghost function RotatedLeft<K>(m: Store<K>, node: AvlNode<K>): Store<K>
    requires RotatesLeft(m, node)
  {
    var right, parent := m[node].right, m[node].parent;
    var nb := m[node].balance - 1 - (if m[right].balance > 0 then m[right].balance else 0);
    var rb := m[right].balance - 1 + (if nb < 0 then nb else 0);
    map n | n in m ::
      if n == node then Links(right, m[node].left, m[right].left, nb)
      else if n == right then Links(parent, node, m[right].right, rb)
      else if n == m[right].left then m[n].(parent := node)
      else if n == parent then (if m[n].left == node then m[n].(left := right) else m[n].(right := right))
      else m[n]
  }

  lemma {:induction false} RotatesLeftAt<K>(c: Ctx<K>, t: Tree<K>)
    requires Apart(c, t) && t.Bin? && t.r.Bin?
    ensures -2 <= t.b <= 2 && -2 <= t.r.b <= 2 ==> RotatesLeft(ZipLinks(c, t), t.n)
    ensures Root(RotLeft(t)) == t.r.n
    ensures ZipLinks(c, t)[t.n] == Links(ParentOf(c), Root(t.l), t.r.n, t.b)
    ensures ZipLinks(c, t)[t.r.n] == Links(t.n, Root(t.r.l), Root(t.r.r), t.r.b)
  {
    LinksInside(t, ParentOf(c), t.n);
    LinksInside(t, ParentOf(c), t.r.n);
    LinksInside(t.r, t.n, t.r.n);
    RootInside(t.r.l);
  }

  lemma {:induction false} RotLeftInside<K>(t: Tree<K>, p: AvlNode?<K>, n: AvlNode<K>)
    requires Sep(t) && t.Bin? && t.r.Bin? && n in Nodes(t)
    ensures Sep(RotLeft(t)) && n in Nodes(RotLeft(t))
    ensures LinksOf(RotLeft(t), p)[n] ==
      var was := LinksOf(t, p)[n];
      if n == t.n then Links(t.r.n, Root(t.l), Root(t.r.l), RotLeft(t).l.b)
      else if n == t.r.n then Links(p, t.n, Root(t.r.r), RotLeft(t).b)
      else if n == Root(t.r.l) then was.(parent := t.n)
      else was
  {
    RotLeftWalk(t);
    RotLeftSep(t);
    RootInside(t.r.l);
    LinksInside(t, p, n);
    LinksInside(RotLeft(t), p, n);
    if n in Nodes(t.r) { LinksInside(t.r, t.n, n); }
    if n in Nodes(RotLeft(t).l) { LinksInside(RotLeft(t).l, t.r.n, n); }
    if n in Nodes(t.r.l) { LinksNewParent(t.r.l, t.r.n, t.n, n); }
  }

  lemma {:induction false} RotatedLeftInside<K>(c: Ctx<K>, t: Tree<K>, n: AvlNode<K>)
    requires Apart(c, t) && t.Bin? && t.r.Bin? && RotatesLeft(ZipLinks(c, t), t.n)
    requires n in Nodes(t)
    ensures n in Nodes(RotLeft(t))
    ensures RotatedLeft(ZipLinks(c, t), t.n)[n] == LinksOf(RotLeft(t), ParentOf(c))[n]
  {
    RotatesLeftAt(c, t);
    RotLeftInside(t, ParentOf(c), n);
  }

  lemma {:induction false} RotatedLeftOutside<K>(c: Ctx<K>, t: Tree<K>, n: AvlNode<K>)
    requires Apart(c, t) && t.Bin? && t.r.Bin? && RotatesLeft(ZipLinks(c, t), t.n)
    requires n in CtxNodes(c)
    ensures RotatedLeft(ZipLinks(c, t), t.n)[n] == CtxLinks(c, t.r.n)[n]
  {
    RotatesLeftAt(c, t);
    RootInside(t.r.l);
    HoleLinks(c, t);
    CtxNewChild(c, t.n, t.r.n, n);
  }

  /** _avl_rotate_left on the fields is RotLeft on the shape. */
  lemma {:induction false} RotatedLeftAt<K>(c: Ctx<K>, t: Tree<K>)
    requires Apart(c, t) && t.Bin? && t.r.Bin? && -2 <= t.b <= 2 && -2 <= t.r.b <= 2
    ensures RotatesLeft(ZipLinks(c, t), t.n) && Apart(c, RotLeft(t))
    ensures RotatedLeft(ZipLinks(c, t), t.n) == ZipLinks(c, RotLeft(t))
  {
    hide RotRight, RotLeft, Inorder, LinksOf, CtxLinks, Sep, CtxSep;
    RotatesLeftAt(c, t);
    RotLeftWalk(t);
    RotLeftSep(t);
    var m, m' := RotatedLeft(ZipLinks(c, t), t.n), ZipLinks(c, RotLeft(t));
    forall n | n in m' ensures m[n] == m'[n] {
      if n in Nodes(t) {
        RotatedLeftInside(c, t, n);
      } else {
        RotatedLeftOutside(c, t, n);
      }
    }
  }
}
