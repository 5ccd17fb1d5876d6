/** The callbacks of src/hello_writer.c, step by step. */
module BprdHelloWriter {
  import opened Basics
  import opened AvlShape
  import opened AvlOrder
  import opened AvlHeap
  import opened PbbBytes
  import opened PbbTlvBlock
  import opened PbbTlvWriter
  import opened PbbFragment
  import opened PbbAddresses
  import opened BprdExpiry
  import opened BprdTables
  import opened BprdWire
  import L = BprdList
  import A = PbbAddr
  import H = BprdHello

  const SEQNO_WRAP := 65536

  /** My commodities as they are announced. */
  function Announcement(clist: seq<Commodity<Addr>>): (r: seq<H.Com<Addr>>)
    reads clist
    ensures |r| == |clist| && forall i :: 0 <= i < |clist| ==> r[i] == H.Com(clist[i].addr, clist[i].backlog)
  {
    seq(|clist|, i requires 0 <= i < |clist| reads clist => H.Com(clist[i].addr, clist[i].backlog))
  }

  /** hello_add_msgtlvs: a TLV for each of my commodities; one that does not fit any more is silently
      left out. */
  method AddMessageTlvs(w: TlvWriter, f: Format, clist: seq<Commodity<Addr>>)
    requires w.Valid() && w.used == 0
    modifies w`added, w`early, w.buffer
    ensures w.Valid()
    ensures w.early == old(w.early) + Accepted(TlvsOf(f, Announcement(clist)), old(Room(w)))
  {
    hide TlvsBytes, Stands, BytesOf, Accepted, TlvWriter.Valid, Announcement, TlvsOf;
    ghost var ts, room := TlvsOf(f, Announcement(clist)), Room(w);
    var i := 0;
    assert ts[0..] == ts;
    while i < |clist|
      invariant i <= |clist| && w.Valid() && w.used == 0
      invariant w.early + Accepted(ts[i..], Room(w)) == old(w.early) + Accepted(ts, room)
    {
      ghost var was, left := w.early, Room(w);
      var code := w.Add(TlvOf(f, H.Com(clist[i].addr, clist[i].backlog)));
      AcceptedStep(ts, i, left);
      if code == Okay {
        assert was + ([ts[i]] + Accepted(ts[i + 1..], Room(w))) == w.early + Accepted(ts[i + 1..], Room(w));
      }
      i := i + 1;
    }
    assert ts[i..] == [];
    NothingAccepted(Room(w));
  }

  /** All commodity TLVs have one size, so what is announced is the list up to the first commodity
      that does not fit. */
  lemma {:induction false} AnnouncedPrefix(ts: seq<Tlv>, size: nat, room: nat) returns (n: nat)
    requires size > 0 && forall i :: 0 <= i < |ts| ==> SizeOf(ts[i]) == size
    ensures n <= |ts| && Accepted(ts, room) == ts[..n]
    ensures n * size <= room && (n < |ts| ==> (n + 1) * size > room)
  {
    hide SizeOf;
    if ts == [] {
      n := 0;
    } else if size <= room {
      var m := AnnouncedPrefix(ts[1..], size, room - size);
      n := m + 1;
      OneMore(m, size);
      OneMore(m + 1, size);
      assert ts[..n] == [ts[0]] + ts[1..][..m];
    } else {
      n := 0;
      var m := AnnouncedPrefix(ts[1..], size, room);
      if m > 0 { OneMore(m - 1, size); }
    }
  }

  lemma {:induction false} OneMore(m: nat, size: nat)
    ensures (m + 1) * size == m * size + size
  {
  }

  /** hello_add_addresses: refresh the table, then announce every neighbour that is left, in order, each
      with the prefix length that its address carries. */
  method AddAddresses(table: H.Table<Addr>, book: AddressBook, clock: nat -> Time, timeout: nat, plen: Addr -> Byte)
    requires table.Valid() && H.UniqueNbrs(table.View()) && book.Valid() && book.list == []
    modifies table`nlist, table`n, table.list, Elems(table.list.elms)
    modifies book`list, book.tree, book.tree.listHead, Elems(book.tree.elems)
    ensures table.Valid() && table.View() == H.Fresh(old(table.View()), clock, timeout)
    ensures book.Valid() && |book.list| == |table.nlist|
    ensures forall i :: 0 <= i < |book.list| ==>
      book.list[i] == A.Address(table.nlist[i].addr, plen(table.nlist[i].addr))
  {
    hide H.Table.Valid, H.Table.View, AddressBook.Valid, L.List.Valid, L.DataOf, H.UniqueNbrs, H.Fresh;
    FreshUnique(table.View(), clock, timeout);
    table.Refresh(clock, timeout);
    NeighborsListed(table);
    AddAll(table.list, table.nlist, book, plen);
  }

  lemma {:induction false} NeighborsListed(table: H.Table<Addr>)
    requires table.Valid() && H.UniqueNbrs(table.View())
    ensures table.list.Valid() && L.DataOf(table.list.elms) == table.nlist
    ensures forall i, j :: 0 <= i < j < |table.nlist| ==> table.nlist[i].addr != table.nlist[j].addr
  {
    forall i, j | 0 <= i < j < |table.nlist| ensures table.nlist[i].addr != table.nlist[j].addr {
      assert table.View()[i].addr != table.View()[j].addr;
    }
  }

  /** The loop over the neighbours that are left. */
  method AddAll(list: L.List<Neighbor<Addr>>, ghost nlist: seq<Neighbor<Addr>>, book: AddressBook, plen: Addr -> Byte)
    requires list.Valid() && L.DataOf(list.elms) == nlist && book.Valid() && book.list == []
    requires forall i, j :: 0 <= i < j < |nlist| ==> nlist[i].addr != nlist[j].addr
    modifies book`list, book.tree, book.tree.listHead, Elems(book.tree.elems)
    ensures book.Valid() && |book.list| == |nlist|
    ensures forall i :: 0 <= i < |book.list| ==> book.list[i] == A.Address(nlist[i].addr, plen(nlist[i].addr))
  {
    hide Lookup, Agree, AllDistinct, Sorted, StrictlySorted, Firsts, Inorder, Nodes, Avl, Sep, LinksOf, TotalOrder;
    hide L.Linked, L.DataOf, L.List.Valid, AddressBook.Valid;
    L.DataLength(list.elms);
    list.FirstIs();
    var e := list.first;
    ghost var i := 0;
    while e != null
      invariant i <= |nlist| && e == L.ElmAt(list.elms, i) && book.Valid() && |book.list| == i
      invariant forall x :: x in book.tree.elems ==> x in old(book.tree.elems) || fresh(x)
      invariant forall j :: 0 <= j < i ==> book.list[j] == A.Address(nlist[j].addr, plen(nlist[j].addr))
      decreases |nlist| - i
    {
      var n := e.data;
      assert n == nlist[i];
      LookupIs(book.list, n.addr);
      var a := book.Add(n.addr, plen(n.addr));
      list.NextIs(i);
      e, i := e.next, i + 1;
    }
  }

  /** A refresh leaves unique addresses unique. */
  lemma {:induction false} FreshUniqueFrom(t: seq<H.Nbr<Addr>>, cond: (nat, H.Nbr<Addr>) -> bool, k: nat)
    requires H.UniqueNbrs(t)
    ensures H.UniqueNbrs(L.Kept(t, cond, k)) && forall x :: x in L.Kept(t, cond, k) ==> x in t
  {
    if t == [] {
    } else {
      FreshUniqueFrom(t[1..], cond, k + 1);
      var r := L.Kept(t[1..], cond, k + 1);
      forall j | 0 <= j < |r| ensures r[j].addr != t[0].addr {
        assert r[j] in t[1..];
        var i :| 0 <= i < |t[1..]| && t[1..][i] == r[j];
        assert t[i + 1] == r[j];
      }
    }
  }

  lemma {:induction false} FreshUnique(t: seq<H.Nbr<Addr>>, clock: nat -> Time, timeout: nat)
    requires H.UniqueNbrs(t)
    ensures H.UniqueNbrs(H.Fresh(t, clock, timeout))
  {
    FreshUniqueFrom(t, H.ExpiryTest(clock, timeout), 0);
  }

  /** hello_fin_msg_header: number the message and count on, modulo 2^16. */
  method FinishHeader(m: MessageWriter, seqno: nat) returns (next: nat)
    requires m.Valid() && seqno < SEQNO_WRAP
    modifies m`seqno
    ensures m.Valid() && m.seqno == seqno && next == (seqno + 1) % SEQNO_WRAP
  {
    m.seqno := seqno;
    next := (seqno + 1) % SEQNO_WRAP;
  }
}
