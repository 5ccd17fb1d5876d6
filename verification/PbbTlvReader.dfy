/** TLV blocks in lib/packetbb/pbb_reader.c: the parsed TLVs go into an AVL tree and are handed to a
    consumer in the order of its list. */
module PbbTlvReader {
  import opened Basics
  import opened AvlShape
  import opened AvlOrder
  import opened AvlHeap
  import opened AvlTree
  import opened PbbBytes
  import opened PbbTlv
  import opened PbbTlvBlock

  /** The tree compares 16-bit orders. */
  function CompareOrder(a: Entry, b: Entry): int { a.Order() - b.Order() }

  lemma {:induction false} OrderIsTotal()
    ensures TotalOrder(CompareOrder)
  {
  }

  ghost function Keys(ns: seq<AvlNode<Entry>>): (r: seq<Entry>)
    ensures |r| == |ns| && forall i :: 0 <= i < |ns| ==> r[i] == ns[i].key
  {
    seq(|ns|, i requires 0 <= i < |ns| => ns[i].key)
  }

  /** Inserting into the tree is placing into the list of entries. */
  lemma {:induction false} InsertPlaces(ns: seq<AvlNode<Entry>>, x: AvlNode<Entry>)
    ensures Keys(StableInsert(CompareOrder, ns, x)) == Placed(Keys(ns), x.key)
  {
    if ns == [] || CompareOrder(x.key, ns[0].key) < 0 {
      assert Keys([x] + ns) == [x.key] + Keys(ns);
    } else {
      InsertPlaces(ns[1..], x);
      assert Keys(ns)[1..] == Keys(ns[1..]);
      assert Keys([ns[0]] + StableInsert(CompareOrder, ns[1..], x))
        == [ns[0].key] + Keys(StableInsert(CompareOrder, ns[1..], x));
    }
  }

  /** The nodes of a tree that a parser builds are all its own. */
  ghost predicate Holding(tree: AvlTree<Entry>, es: seq<Entry>)
    reads tree, {tree.listHead} + Elems(tree.elems)
  {
    && tree.Valid() && tree.comp == CompareOrder && tree.allowDups && Keys(tree.elems) == Arranged(es)
    && forall e :: e in es ==> WellCut(e)
  }

  lemma {:induction false} InsertElems(ns: seq<AvlNode<Entry>>, x: AvlNode<Entry>)
    ensures Elems(StableInsert(CompareOrder, ns, x)) == Elems(ns) + {x}
  {
    if ns == [] || CompareOrder(x.key, ns[0].key) < 0 {
    } else {
      InsertElems(ns[1..], x);
      var r := StableInsert(CompareOrder, ns[1..], x);
      assert ns == [ns[0]] + ns[1..];
      assert Elems([ns[0]] + r) == {ns[0]} + Elems(r) && Elems(ns) == {ns[0]} + Elems(ns[1..]);
    }
  }

  lemma {:induction false} ArrangedStep(es: seq<Entry>, e: Entry)
    ensures Arranged([]) == [] && Arranged(es + [e]) == Placed(Arranged(es), e)
  {
    assert (es + [e])[..|es|] == es;
  }

  method AddEntry(tree: AvlTree<Entry>, e: Entry, ghost done: seq<Entry>)
    requires Holding(tree, done) && WellCut(e)
    modifies tree, tree.listHead, Elems(tree.elems)
    ensures Holding(tree, done + [e])
    ensures forall n :: n in tree.elems ==> n in old(tree.elems) || fresh(n)
  {
    hide StableInsert, Arranged, Placed, Firsts, Inorder, Nodes, Avl, Sep, LinksOf, FindScan, Sorted, StrictlySorted,
         TotalOrder;
    hide Keys, WellCut;
    var node := new AvlNode<Entry>(e);
    InsertPlaces(tree.elems, node);
    InsertElems(tree.elems, node);
    ArrangedStep(done, e);
    var r := tree.Insert(node);
    assert forall n :: n in tree.elems ==> n in Elems(tree.elems);
  }

  /** What is still to come, put behind what is done. */
  ghost function Onto(done: seq<Entry>, rest: Parsed<seq<Entry>>): Parsed<seq<Entry>> {
    if rest.Failed? then rest else Parsed(done + rest.value, rest.next)
  }

  lemma {:induction false} OntoNothing(rest: Parsed<seq<Entry>>)
    ensures Onto([], rest) == rest
  {
    if rest.Parsed? { assert [] + rest.value == rest.value; }
  }

  lemma {:induction false} OntoOne(done: seq<Entry>, first: Entry, rest: Parsed<seq<Entry>>)
    ensures Onto(done + [first], rest) == Onto(done, if rest.Failed? then rest
      else Parsed([first] + rest.value, rest.next))
  {
    if rest.Parsed? { assert (done + [first]) + rest.value == done + ([first] + rest.value); }
  }

  /** _parse_tlvblock: parse TLV after TLV and insert each into the tree. */
  method ParseBlock(buf: Bytes, pos: nat, eob: nat) returns (code: Code, next: nat, tree: AvlTree<Entry>)
    requires eob <= |buf|
    ensures fresh(tree) && fresh(tree.listHead) && forall n :: n in tree.elems ==> fresh(n)
    ensures match ParseTlvBlock(buf, pos, eob)
            case Parsed(es, n) => code == Okay && next == n && Holding(tree, es)
            case Failed(c) => code == c
  {
    hide ParseTlv, TotalOrder, Arranged, Placed, Keys, Holding, WellCut;
    OrderIsTotal();
    tree := EmptyTree();
    next := pos;
    code := Okay;
    var len := GetU16(buf, Cursor(pos, Okay), eob);
    var end := len.1.pos + len.0;
    if len.1.code != Okay || end > eob {
      return EndOfBuffer, eob, tree;
    }
    next := len.1.pos;
    ghost var done: seq<Entry> := [];
    OntoNothing(ParseTlvs(buf, next, end, eob));
    while next < end
      invariant next <= eob
      invariant fresh(tree) && fresh(tree.listHead) && forall n :: n in tree.elems ==> fresh(n)
      invariant Holding(tree, done)
      invariant ParseTlvs(buf, len.1.pos, end, eob) == Onto(done, ParseTlvs(buf, next, end, eob))
      decreases eob - next
    {
      var entry := ParseTlv(buf, next, eob);
      if entry.Failed? {
        return entry.code, eob, tree;
      }
      TlvProgress(buf, next, eob);
      OntoOne(done, entry.value, ParseTlvs(buf, entry.next, end, eob));
      ParsedWellCut(buf, next, eob);
      AddEntry(tree, entry.value, done);
      done := done + [entry.value];
      next := entry.next;
    }
    assert done + [] == done;
  }

  method EmptyTree() returns (tree: AvlTree<Entry>)
    ensures fresh(tree) && fresh(tree.listHead) && tree.elems == [] && Holding(tree, [])
  {
    OrderIsTotal();
    tree := new AvlTree<Entry>(CompareOrder, true);
    assert Keys(tree.elems) == Arranged([]);
  }

  lemma {:induction false} DeliveredStep(s: seq<Entry>, i: nat, idx: Byte)
    requires i < |s|
    ensures Delivered(s[..i + 1], idx)
         == Delivered(s[..i], idx) + if Covers(s[i], idx) then [Delivery(s[i].typ, s[i].ext, ValueAt(s[i], idx))]
           else []
  {
    assert s[..i + 1][..i] == s[..i];
  }

  /** _schedule_tlvblock for a consumer without entries whose callback never drops: the callback
      sees the TLVs that cover the index, in the order of the tree's list, each with its value for
      that index. */
  method ScheduleBlock(tree: AvlTree<Entry>, idx: Byte, ghost es: seq<Entry>) returns (log: seq<Delivery>)
    requires Holding(tree, es) && |es| < WRAP
    ensures log == Delivered(Arranged(es), idx)
    ensures forall e :: e in es && Covers(e, idx) ==> HasValueAt(e, idx)
  {
    hide Arranged, Sorted, Firsts, Inorder, Nodes, Avl, Sep, LinksOf, TotalOrder, Delivered, ValueAt;
    ghost var s := Arranged(es);
    ArrangedFacts(es);
    log := [];
    assert |s| == |es| by { assert |multiset(s)| == |s|; }
    if tree.count == 0 {
      DeliveredNothing(idx);
      return;
    }
    var tlv := tree.listHead.next;
    ghost var i := 0;
    RingEnds(tree.listHead, tree.elems, i);
    DeliveredNothing(idx);
    while tlv != null
      invariant i <= |s| == |tree.elems|
      invariant if tlv == null then i == |s| else i < |s| && tree.elems[i] == tlv
      invariant log == Delivered(s[..i], idx)
      decreases |s| - i
    {
      var e := tlv.key;
      assert e == s[i];
      DeliveredStep(s, i, idx);
      if e.index1 <= idx <= e.index2 {
        log := log + [Delivery(e.typ, e.ext, ValueAt(e, idx))];
      }
      RingEnds(tree.listHead, tree.elems, i);
      tlv := if tree.listHead.prev == tlv then null else tlv.next;
      i := i + 1;
    }
    assert s[..i] == s;
  }

  lemma {:induction false} DeliveredNothing(idx: Byte)
    ensures Delivered([], idx) == []
  {
  }
}
