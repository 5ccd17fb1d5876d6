/** The addresses of a message under construction (pbb_writer_add_address in
    lib/packetbb/pbb_writer.c): a list in the order of arrival and a tree that finds repetitions. */
module PbbAddresses {
  import opened Basics
  import opened AvlShape
  import opened AvlOrder
  import opened AvlHeap
  import opened AvlTree
  import opened PbbBytes
  import opened PbbAddr

  /** memcmp of two addresses; a shorter one that agrees comes first. */
  function Compare(a: Bytes, b: Bytes): int {
    if a == [] then (if b == [] then 0 else -1)
    else if b == [] then 1
    else if a[0] != b[0] then a[0] - b[0]
    else Compare(a[1..], b[1..])
  }

  lemma {:induction false} CompareFlips(a: Bytes, b: Bytes)
    ensures Compare(a, b) < 0 <==> Compare(b, a) > 0
    ensures Compare(a, b) == 0 <==> a == b
  {
    if a == [] || b == [] {
    } else {
      CompareFlips(a[1..], b[1..]);
      assert a == [a[0]] + a[1..] && b == [b[0]] + b[1..];
    }
  }

  lemma {:induction false} CompareChains(a: Bytes, b: Bytes, c: Bytes)
    requires Compare(a, b) <= 0 && Compare(b, c) <= 0
    ensures Compare(a, c) <= 0
  {
    if a == [] || b == [] || c == [] || a[0] != b[0] || b[0] != c[0] {
    } else {
      CompareChains(a[1..], b[1..], c[1..]);
    }
  }

  /** _msgaddr_avl_comp */
  function CompareAddress(a: Address, b: Address): int { Compare(a.bytes, b.bytes) }

  lemma {:induction false} AddressOrder()
    ensures TotalOrder(CompareAddress)
  {
    forall x, y, z ensures Consistent(CompareAddress, x, y, z) {
      CompareFlips(x.bytes, y.bytes);
      if Compare(x.bytes, y.bytes) <= 0 && Compare(y.bytes, z.bytes) <= 0 { CompareChains(x.bytes, y.bytes, z.bytes); }
    }
  }

  /** The first address of these bytes, if there is one. */
  function Lookup(s: seq<Address>, bytes: Bytes): Option<Address> {
    if s == [] then None else if s[0].bytes == bytes then Some(s[0]) else Lookup(s[1..], bytes)
  }

  lemma {:induction false} LookupIs(s: seq<Address>, bytes: Bytes)
    ensures Lookup(s, bytes).None? <==> forall i :: 0 <= i < |s| ==> s[i].bytes != bytes
    ensures Lookup(s, bytes).Some? ==> Lookup(s, bytes).value in s && Lookup(s, bytes).value.bytes == bytes
  {
    if s == [] {
    } else {
      LookupIs(s[1..], bytes);
      if Lookup(s, bytes).None? {
        forall i | 0 <= i < |s| ensures s[i].bytes != bytes {
          if i > 0 { assert s[i] == s[1..][i - 1]; }
        }
      }
    }
  }

  /** What a tree search for these bytes finds in its list. */
  lemma {:induction false} ScanFinds(ns: seq<AvlNode<Address>>, key: Address)
    ensures FindScan(CompareAddress, ns, key) == null <==> forall i :: 0 <= i < |ns| ==> ns[i].key.bytes != key.bytes
    ensures var r := FindScan(CompareAddress, ns, key); r != null ==> r in ns && r.key.bytes == key.bytes
  {
    if ns == [] {
    } else {
      CompareFlips(key.bytes, ns[0].key.bytes);
      ScanFinds(ns[1..], key);
      if FindScan(CompareAddress, ns, key) == null {
        forall i | 0 <= i < |ns| ensures ns[i].key.bytes != key.bytes {
          if i > 0 { assert ns[i] == ns[1..][i - 1]; }
        }
      }
    }
  }

  lemma {:induction false} InsertedNodes(ns: seq<AvlNode<Address>>, x: AvlNode<Address>)
    ensures Elems(StableInsert(CompareAddress, ns, x)) == Elems(ns) + {x}
  {
    if ns == [] || CompareAddress(x.key, ns[0].key) < 0 {
    } else {
      InsertedNodes(ns[1..], x);
      var r := StableInsert(CompareAddress, ns[1..], x);
      assert ns == [ns[0]] + ns[1..];
      assert Elems([ns[0]] + r) == {ns[0]} + Elems(r) && Elems(ns) == {ns[0]} + Elems(ns[1..]);
    }
  }

  ghost predicate AllDistinct(s: seq<Address>) {
    forall i, j :: 0 <= i < j < |s| ==> s[i].bytes != s[j].bytes
  }

  ghost function KeysOf(ns: set<AvlNode<Address>>): set<Address> {
    set x | x in ns :: x.key
  }

  /** The nodes hold the addresses of the list, and no others. */
  ghost predicate Agree(ns: seq<AvlNode<Address>>, s: seq<Address>) {
    KeysOf(Elems(ns)) == Elems(s)
  }

  lemma {:induction false} NoneListed(ns: seq<AvlNode<Address>>, s: seq<Address>, bytes: Bytes)
    requires Agree(ns, s) && forall i :: 0 <= i < |ns| ==> ns[i].key.bytes != bytes
    ensures forall i :: 0 <= i < |s| ==> s[i].bytes != bytes
  {
    forall i | 0 <= i < |s| ensures s[i].bytes != bytes {
      assert s[i] in Elems(s);
      var n :| n in Elems(ns) && n.key == s[i];
    }
  }

  lemma {:induction false} NodeListed(ns: seq<AvlNode<Address>>, s: seq<Address>, n: AvlNode<Address>)
    requires Agree(ns, s) && n in ns
    ensures n.key in s
  {
    assert n.key in KeysOf(Elems(ns));
  }

  lemma {:induction false} KeysGrow(ns: set<AvlNode<Address>>, x: AvlNode<Address>)
    ensures KeysOf(ns + {x}) == KeysOf(ns) + {x.key}
  {
  }

  /** A new address joins both. */
  lemma {:induction false} AgreeGrows(ns: seq<AvlNode<Address>>, s: seq<Address>, x: AvlNode<Address>)
    requires Agree(ns, s) && AllDistinct(s) && forall i :: 0 <= i < |ns| ==> ns[i].key.bytes != x.key.bytes
    ensures Agree(StableInsert(CompareAddress, ns, x), s + [x.key]) && AllDistinct(s + [x.key])
  {
    hide StableInsert, KeysOf;
    NoneListed(ns, s, x.key.bytes);
    InsertedNodes(ns, x);
    KeysGrow(Elems(ns), x);
    assert Elems(s + [x.key]) == Elems(s) + {x.key};
  }

  class AddressBook {
    const tree: AvlTree<Address>
    var list: seq<Address>

    /** The list has no address twice, and list and tree hold the same addresses. */
    ghost predicate Valid()
      reads this, tree, {tree.listHead} + Elems(tree.elems)
    {
      && tree.Valid() && tree.comp == CompareAddress && !tree.allowDups
      && AllDistinct(list) && Agree(tree.elems, list)
    }

    constructor ()
      ensures Valid() && list == [] && fresh(tree) && fresh(tree.listHead) && tree.elems == []
    {
      AddressOrder();
      var t := new AvlTree<Address>(CompareAddress, false);
      tree := t;
      list := [];
    }

    /** pbb_writer_add_address: an address that is there already is found, with the prefix length it
        was first given; any other address goes to the end of the list. */
    method Add(bytes: Bytes, plen: Byte) returns (a: Address)
      requires Valid()
      modifies this`list, tree, tree.listHead, Elems(tree.elems)
      ensures Valid() && (forall x :: x in tree.elems ==> x in old(tree.elems) || fresh(x))
      ensures var was := Lookup(old(list), bytes);
              if was.Some? then a == was.value && list == old(list)
              else a == Address(bytes, plen) && list == old(list) + [a]
    {
      hide StableInsert, FindScan, Firsts, Inorder, Nodes, Avl, Sep, LinksOf, Sorted, StrictlySorted, TotalOrder,
           CompareAddress, Lookup;
      ghost var key := Address(bytes, plen);
      ScanFinds(tree.elems, key);
      var found := tree.Find(Address(bytes, plen));
      if found != null {
        NodeListed(tree.elems, list, found);
        Same(list, found.key, bytes);
        return found.key;
      }
      Missing(tree.elems, list, bytes);
      a := Enter(Address(bytes, plen));
    }

    /** The part of pbb_writer_add_address for a new address. */
    method Enter(key: Address) returns (a: Address)
      requires Valid() && forall i :: 0 <= i < |tree.elems| ==> tree.elems[i].key.bytes != key.bytes
      modifies this`list, tree, tree.listHead, Elems(tree.elems)
      ensures Valid() && (forall x :: x in tree.elems ==> x in old(tree.elems) || fresh(x))
      ensures a == key && list == old(list) + [key]
    {
      hide StableInsert, Firsts, Inorder, Nodes, Avl, Sep, LinksOf, Sorted, StrictlySorted, TotalOrder, Agree,
           AllDistinct;
      var node := new AvlNode<Address>(key);
      ScanFinds(tree.elems, key);
      InsertedNodes(tree.elems, node);
      AgreeGrows(tree.elems, list, node);
      ghost var was := Elems(tree.elems);
      var r := tree.Insert(node);
      assert Elems(tree.elems) == was + {node};
      list := list + [key];
      assert forall x :: x in tree.elems ==> x in Elems(tree.elems);
      return key;
    }
  }

  lemma {:induction false} Missing(ns: seq<AvlNode<Address>>, s: seq<Address>, bytes: Bytes)
    requires Agree(ns, s) && forall i :: 0 <= i < |ns| ==> ns[i].key.bytes != bytes
    ensures Lookup(s, bytes).None?
  {
    LookupIs(s, bytes);
    NoneListed(ns, s, bytes);
  }

  lemma {:induction false} Same(s: seq<Address>, a: Address, bytes: Bytes)
    requires a in s && a.bytes == bytes && forall i, j :: 0 <= i < j < |s| ==> s[i].bytes != s[j].bytes
    ensures Lookup(s, bytes) == Some(a)
  {
    LookupIs(s, bytes);
  }
}
