/** One round of the hello writer's thread: the callbacks of src/hello_writer.c in the order in which
    pbb_writer_create_message of lib/packetbb calls them, then the flush, and what a receiver makes of
    the packets. */
module BprdSend {
  import opened Basics
  import opened PbbBytes
  import opened PbbTlv
  import opened PbbTlvBlock
  import opened PbbTlvWriter
  import opened PbbMessage
  import opened PbbFragment
  import opened PbbPacket
  import opened PbbInterface
  import opened PbbReader
  import opened PbbAddresses
  import opened BprdExpiry
  import opened BprdTables
  import opened BprdWire
  import opened BprdHelloWriter
  import opened BprdHelloReader
  import A = PbbAddr
  import H = BprdHello
  import R = BprdRun

  /** The header of a hello: originator and sequence number. */
  ghost function HelloHeader(orig: Addr): nat { 8 + |orig| }

  /** The room for a hello in an empty packet without packet TLVs. */
  ghost function HelloRoom(mtu: nat): nat { if mtu >= 3 then mtu - 3 else 0 }

  /** The commodities that a hello has room for. */
  ghost predicate AnnouncesFirst(f: Format, orig: Addr, all: seq<H.Com<Addr>>, mtu: nat, n: nat) {
    && n <= |all|
    && (n > 0 ==> HelloHeader(orig) + |TlvsBytes(TlvsOf(f, all[..n]))| <= HelloRoom(mtu))
    && (n < |all| ==> HelloHeader(orig) + |TlvsBytes(TlvsOf(f, all[..n + 1]))| > HelloRoom(mtu))
  }

  /** w holds a hello without addresses. */
  ghost predicate Composed(w: MessageWriter, f: Format, orig: Addr, cs: seq<H.Com<Addr>>)
    reads w, w.msg, w.msg.buffer
  {
    && w.Valid() && w.typ == MSG_TYPE_HELLO && w.addrLen == |orig| && w.orig[..w.addrLen] == orig
    && w.hasOrig && w.hasSeqno && !w.hasHopLimit && !w.hasHopCount
    && w.msg.early == TlvsOf(f, cs) && w.msg.reserved == 0 && w.msg.used == 0
  }

  /** The start of pbb_writer_create_message for a hello: hello_add_msg_header and hello_add_msgtlvs. */
  method Compose(f: Format, orig: Addr, clist: seq<Commodity<Addr>>, mtu: nat) returns (w: MessageWriter, ghost n: nat)
    requires ValidFormat(f) && 1 <= |orig| <= A.MAX_ADDRLEN
    ensures fresh(w) && fresh(w.msg) && fresh(w.msg.buffer) && w.msg.buffer.Length == mtu
    ensures n <= |clist| && AnnouncesFirst(f, orig, Announcement(clist), mtu, n)
    ensures Composed(w, f, orig, Announcement(clist)[..n])
  {
    hide TlvsBytes, Accepted, BytesOf, SizeOf;
    var room := if mtu >= 3 then mtu - 3 else 0;
    w := new MessageWriter(MSG_TYPE_HELLO, |orig|, mtu, room);
    w.SetHeader(true, false, false, true);
    w.SetOriginator(orig);
    ghost var ts, left := TlvsOf(f, Announcement(clist)), Room(w.msg);
    AddMessageTlvs(w.msg, f, clist);
    assert [] + Accepted(ts, left) == Accepted(ts, left);
    n := FirstFit(f, orig, Announcement(clist), mtu, left);
  }

  lemma {:induction false} TlvSizes(f: Format, cs: seq<H.Com<Addr>>) returns (size: nat)
    requires ValidFormat(f)
    ensures size == TlvSize(false, f.size) > 0 && (forall c :: SizeOf(TlvOf(f, c)) == size)
    ensures |TlvsBytes(TlvsOf(f, cs))| == |cs| * size
  {
    size := TlvSize(false, f.size);
    if cs == [] {
    } else {
      var k := |cs| - 1;
      var s := TlvSizes(f, cs[..k]);
      SizeExact(TLV_TYPE_COM, 0, f.enc(cs[k]));
      assert TlvsOf(f, cs) == TlvsOf(f, cs[..k]) + [TlvOf(f, cs[k])];
      TlvsBytesAppend(TlvsOf(f, cs[..k]), TlvOf(f, cs[k]));
      OneMore(k, size);
    }
  }

  lemma {:induction false} FirstFit(f: Format, orig: Addr, all: seq<H.Com<Addr>>, mtu: nat, left: nat) returns (n: nat)
    requires ValidFormat(f)
    requires left == if HelloHeader(orig) <= HelloRoom(mtu) then HelloRoom(mtu) - HelloHeader(orig) else 0
    ensures AnnouncesFirst(f, orig, all, mtu, n) && Accepted(TlvsOf(f, all), left) == TlvsOf(f, all[..n])
  {
    hide TlvsBytes, Accepted, BytesOf, SizeOf;
    var size := TlvSizes(f, all);
    n := AnnouncedPrefix(TlvsOf(f, all), size, left);
    assert TlvsOf(f, all)[..n] == TlvsOf(f, all[..n]);
    var s := TlvSizes(f, all[..n]);
    if n < |all| { s := TlvSizes(f, all[..n + 1]); }
    if n > 0 { OneMore(n - 1, size); }
  }

  // ------------------------------------------------------------ fragments

  /** The interface of bprd: no sequence numbers in packets, no packet handlers. */
  ghost predicate Bare(iface: Interface) {
    !iface.withSeqno && iface.handlerTlvs == [] && 3 <= iface.mtu <= 65535
  }

  lemma {:induction false} BareBase(iface: Interface)
    requires Bare(iface)
    ensures iface.Carried() == [] && iface.Base() == 3
  {
    NothingAccepted(iface.mtu - 3);
    NoTlvBytes();
  }

  /** Each fragment is a valid tiling of its addresses and fits an empty packet. */
  ghost predicate Fragmented(f: Format, orig: Addr, cs: seq<H.Com<Addr>>, fragments: seq<seq<A.Block>>, mtu: nat) {
    forall k :: 0 <= k < |fragments| ==>
      A.ValidBlocks(fragments[k], |orig|)
      && HelloHeader(orig) + |TlvsBytes(TlvsOf(f, cs))| + |A.BlocksBytes(fragments[k], |orig|)| <= HelloRoom(mtu)
  }

  /** The messages of one hello: the same commodities in each, and consecutive numbers modulo 2^16. */
  ghost function HelloMessages(f: Format, orig: Addr, seqno: nat, cs: seq<H.Com<Addr>>, fragments: seq<seq<A.Block>>)
    : (ms: seq<Message>)
    ensures |ms| == |fragments|
    ensures forall k :: 0 <= k < |ms| ==> ms[k] == HelloMessage(f, orig, (seqno + k) % SEQNO_WRAP, cs, fragments[k])
  {
    seq(|fragments|, k requires 0 <= k < |fragments| =>
      HelloMessage(f, orig, (seqno + k) % SEQNO_WRAP, cs, fragments[k]))
  }

  lemma {:induction false} HelloFits(f: Format, orig: Addr, seqno: nat, cs: seq<H.Com<Addr>>, blocks: seq<A.Block>,
                                     mtu: nat)
    requires ValidFormat(f) && 1 <= |orig| <= A.MAX_ADDRLEN && seqno < 65536 && mtu <= 65535
    requires Fragmented(f, orig, cs, [blocks], mtu)
    ensures var m := HelloMessage(f, orig, seqno, cs, blocks);
            && A.ValidBlocks(blocks, |orig|) && ValidMessage(m) && |MessageBytes(m)| <= HelloRoom(mtu)
            && |MessageBytes(m)| == HelloHeader(orig) + |TlvsBytes(m.tlvs)| + |A.BlocksBytes(blocks, |orig|)|
  {
    hide TlvsBytes, A.BlocksBytes, A.ValidBlock, HeaderBytes;
    assert [blocks][0] == blocks;
    MessageBytesSize(HelloMessage(f, orig, seqno, cs, blocks));
  }

  lemma {:induction false} HellosFit(f: Format, orig: Addr, seqno: nat, cs: seq<H.Com<Addr>>,
                                     fragments: seq<seq<A.Block>>, mtu: nat)
    requires ValidFormat(f) && 1 <= |orig| <= A.MAX_ADDRLEN && mtu <= 65535
    requires Fragmented(f, orig, cs, fragments, mtu)
    ensures ValidMessages(HelloMessages(f, orig, seqno, cs, fragments))
  {
    hide ValidMessage, HelloMessage;
    forall k | 0 <= k < |fragments| ensures ValidMessage(HelloMessage(f, orig, (seqno + k) % SEQNO_WRAP, cs,
      fragments[k])) {
      assert Fragmented(f, orig, cs, [fragments[k]], mtu);
      HelloFits(f, orig, (seqno + k) % SEQNO_WRAP, cs, fragments[k], mtu);
    }
  }

  /** _finalize_message_fragment for one fragment of a hello. */
  method SendFragment(w: MessageWriter, iface: Interface, ghost f: Format, ghost orig: Addr, ghost cs: seq<H.Com<Addr>>,
                      blocks: seq<A.Block>, seqno: nat) returns (next: nat, ghost m: Message)
    requires ValidFormat(f) && Composed(w, f, orig, cs) && seqno < SEQNO_WRAP
    requires iface.Valid() && !iface.isFlushed && Bare(iface) && w.msg.buffer.Length == iface.mtu
    requires w.msg != iface.pkt && w.msg.buffer != iface.pkt.buffer && Fragmented(f, orig, cs, [blocks], iface.mtu)
    modifies w`seqno, w`binAddrSize, w.msg`used, w.msg`late, w.msg.buffer
    modifies iface`isFlushed, iface`binMsgsSize, iface`seqno, iface`wire, iface`sent, iface`pending, iface.pkt
    modifies iface.pkt.buffer
    ensures Composed(w, f, orig, cs) && iface.Valid() && !iface.isFlushed && next == (seqno + 1) % SEQNO_WRAP
    ensures m == HelloMessage(f, orig, seqno, cs, blocks) && ValidMessage(m)
    ensures iface.History() == old(iface.History()) + [MessageBytes(m)]
    ensures |old(iface.wire)| <= |iface.wire| && iface.wire[..|old(iface.wire)|] == old(iface.wire)
    ensures |old(iface.sent)| <= |iface.sent| && iface.sent[..|old(iface.sent)|] == old(iface.sent)
  {
    hide TlvsBytes, A.BlocksBytes, A.ValidBlocks, ValidMessage, MessageBytes, HeaderBytes, CutOut, Accepted, Short;
    BareBase(iface);
    HelloFits(f, orig, seqno, cs, blocks, iface.mtu);
    next := FinishHeader(w, seqno);
    var fragment;
    fragment, m := w.Finalize([], blocks);
    NothingAccepted(0);
    NoTlvBytes();
    assert w.msg.early + [] == w.msg.early;
    iface.Append(fragment, 0);
  }

  lemma {:induction false} OneMoreFragment(f: Format, orig: Addr, seqno: nat, cs: seq<H.Com<Addr>>,
                                           fragments: seq<seq<A.Block>>, k: nat)
    requires k < |fragments|
    requires ValidMessages(HelloMessages(f, orig, seqno, cs, fragments))
    ensures var m := HelloMessage(f, orig, (seqno + k) % SEQNO_WRAP, cs, fragments[k]);
            && ValidMessages(HelloMessages(f, orig, seqno, cs, fragments[..k]))
            && ValidMessages(HelloMessages(f, orig, seqno, cs, fragments[..k + 1])) && ValidMessage(m)
            && FragmentsBytes(HelloMessages(f, orig, seqno, cs, fragments[..k + 1]))
               == FragmentsBytes(HelloMessages(f, orig, seqno, cs, fragments[..k])) + [MessageBytes(m)]
  {
    hide ValidMessage, HelloMessage, MessageBytes;
    var all, a, b := HelloMessages(f, orig, seqno, cs, fragments), HelloMessages(f, orig, seqno, cs, fragments[..k]),
                     HelloMessages(f, orig, seqno, cs, fragments[..k + 1]);
    assert forall i :: 0 <= i < k ==> a[i] == all[i] && b[i] == all[i];
    assert b[k] == all[k];
  }

  /** The loop over the fragments of a hello. */
  method SendFragments(w: MessageWriter, iface: Interface, ghost f: Format, ghost orig: Addr,
                       ghost cs: seq<H.Com<Addr>>,
                       fragments: seq<seq<A.Block>>, seqno: nat) returns (next: nat)
    requires ValidFormat(f) && Composed(w, f, orig, cs) && seqno < SEQNO_WRAP
    requires iface.Valid() && !iface.isFlushed && Bare(iface) && w.msg.buffer.Length == iface.mtu
    requires w.msg != iface.pkt && w.msg.buffer != iface.pkt.buffer && Fragmented(f, orig, cs, fragments, iface.mtu)
    modifies w`seqno, w`binAddrSize, w.msg`used, w.msg`late, w.msg.buffer
    modifies iface`isFlushed, iface`binMsgsSize, iface`seqno, iface`wire, iface`sent, iface`pending, iface.pkt
    modifies iface.pkt.buffer
    ensures iface.Valid() && !iface.isFlushed && next == (seqno + |fragments|) % SEQNO_WRAP
    ensures var ms := HelloMessages(f, orig, seqno, cs, fragments);
            ValidMessages(ms) && iface.History() == old(iface.History()) + FragmentsBytes(ms)
    ensures |old(iface.wire)| <= |iface.wire| && iface.wire[..|old(iface.wire)|] == old(iface.wire)
    ensures |old(iface.sent)| <= |iface.sent| && iface.sent[..|old(iface.sent)|] == old(iface.sent)
  {
    hide TlvsBytes, A.BlocksBytes, A.ValidBlocks, ValidMessages, ValidMessage, MessageBytes, FragmentsBytes,
         HelloMessages;
    hide Concat, FragmentsOf, PacketBytes, HelloMessage, Stands, Accepted;
    next := seqno;
    HellosFit(f, orig, seqno, cs, fragments, iface.mtu);
    NoFragments(f, orig, seqno, cs, fragments);
    var k := 0;
    ghost var was := iface.History();
    assert was + [] == was;
    while k < |fragments|
      invariant k <= |fragments| && Composed(w, f, orig, cs) && iface.Valid() && !iface.isFlushed
      invariant next == (seqno + k) % SEQNO_WRAP
      invariant ValidMessages(HelloMessages(f, orig, seqno, cs, fragments[..k]))
      invariant iface.History() == was + FragmentsBytes(HelloMessages(f, orig, seqno, cs, fragments[..k]))
      invariant |old(iface.wire)| <= |iface.wire| && iface.wire[..|old(iface.wire)|] == old(iface.wire)
      invariant |old(iface.sent)| <= |iface.sent| && iface.sent[..|old(iface.sent)|] == old(iface.sent)
    {
      OneMoreFragment(f, orig, seqno, cs, fragments, k);
      assert Fragmented(f, orig, cs, [fragments[k]], iface.mtu);
      ghost var done := FragmentsBytes(HelloMessages(f, orig, seqno, cs, fragments[..k]));
      ghost var m;
      next, m := SendFragment(w, iface, f, orig, cs, fragments[k], next);
      assert was + (done + [MessageBytes(m)]) == was + done + [MessageBytes(m)];
      CountUp(seqno + k);
      k := k + 1;
    }
    assert fragments[..k] == fragments;
  }

  lemma {:induction false} CountUp(n: nat)
    ensures (n % SEQNO_WRAP + 1) % SEQNO_WRAP == (n + 1) % SEQNO_WRAP
  {
  }

  lemma {:induction false} NoFragments(f: Format, orig: Addr, seqno: nat, cs: seq<H.Com<Addr>>,
                                       fragments: seq<seq<A.Block>>)
    ensures var ms := HelloMessages(f, orig, seqno, cs, fragments[..0]); ValidMessages(ms) && FragmentsBytes(ms) == []
  {
  }

  // ------------------------------------------------------------ the whole round

  ghost function AddressesIn(bs: seq<A.Block>): seq<A.Address> {
    if bs == [] then [] else AddressesIn(bs[..|bs| - 1]) + bs[|bs| - 1].addrs
  }

  /** The addresses of each fragment, with and without prefix lengths. */
  ghost function Lists(fragments: seq<seq<A.Block>>): (r: seq<seq<A.Address>>)
    ensures |r| == |fragments| && forall k :: 0 <= k < |r| ==> r[k] == AddressesIn(fragments[k])
  {
    seq(|fragments|, k requires 0 <= k < |fragments| => AddressesIn(fragments[k]))
  }

  ghost function ByteLists(fragments: seq<seq<A.Block>>): (r: seq<seq<Addr>>)
    ensures |r| == |fragments| && forall k :: 0 <= k < |r| ==> r[k] == Tiled(fragments[k])
  {
    seq(|fragments|, k requires 0 <= k < |fragments| => Tiled(fragments[k]))
  }

  /** What is announced of the neighbours in t. */
  ghost function Named(t: seq<H.Nbr<Addr>>, plen: Addr -> Byte): (r: seq<A.Address>)
    ensures |r| == |t| && forall i :: 0 <= i < |r| ==> r[i] == A.Address(t[i].addr, plen(t[i].addr))
  {
    seq(|t|, i requires 0 <= i < |t| => A.Address(t[i].addr, plen(t[i].addr)))
  }

  /** Whoever reads these packets finds these messages and nothing else, and no packet exceeds the MTU. */
  ghost predicate Carries(packets: seq<Bytes>, ms: seq<Message>, mtu: nat) {
    && ValidMessages(ms) && Received(packets) == MessagesOf(ms)
    && forall i :: 0 <= i < |packets| ==> ParsePacket(packets[i]).Parsed? && |packets[i]| <= mtu
  }

  /** The fragments into the open packet, and the flush. */
  method Dispatch(w: MessageWriter, iface: Interface, ghost f: Format, ghost orig: Addr, ghost cs: seq<H.Com<Addr>>,
                  fragments: seq<seq<A.Block>>, seqno: nat) returns (next: nat)
    requires ValidFormat(f) && Composed(w, f, orig, cs) && seqno < SEQNO_WRAP
    requires iface.Valid() && !iface.isFlushed && iface.pending == [] && Bare(iface) && w.msg.buffer.Length == iface.mtu
    requires w.msg != iface.pkt && w.msg.buffer != iface.pkt.buffer && Fragmented(f, orig, cs, fragments, iface.mtu)
    modifies w`seqno, w`binAddrSize, w.msg`used, w.msg`late, w.msg.buffer
    modifies iface`isFlushed, iface`binMsgsSize, iface`seqno, iface`wire, iface`sent, iface`pending, iface.pkt
    modifies iface.pkt.buffer
    ensures iface.Valid() && iface.isFlushed && iface.pending == [] && next == (seqno + |fragments|) % SEQNO_WRAP
    ensures |old(iface.wire)| <= |iface.wire| && iface.wire[..|old(iface.wire)|] == old(iface.wire)
    ensures Carries(iface.wire[|old(iface.wire)|..], HelloMessages(f, orig, seqno, cs, fragments), iface.mtu)
  {
    hide TlvsBytes, A.BlocksBytes, A.ValidBlocks, ValidMessages, ValidMessage, MessageBytes, FragmentsBytes,
         HelloMessages;
    hide Concat, FragmentsOf, PacketBytes, HelloMessage, Stands, Accepted, ParsePacket, MessagesOf, Received,
         Fragmented;
    BareBase(iface);
    ghost var sent, before := iface.sent, Concat(FragmentsOf(iface.sent));
    assert before + [] == before;
    next := SendFragments(w, iface, f, orig, cs, fragments, seqno);
    iface.Flush(false, 0);
    ShortNothing();
    iface.DeliveredSince(|sent|, sent, HelloMessages(f, orig, seqno, cs, fragments));
  }

  /** hello_add_addresses on the empty list with which every message starts. */
  method ListNeighbors(table: H.Table<Addr>, clock: nat -> Time, timeout: nat, plen: Addr -> Byte)
    returns (list: seq<A.Address>)
    requires table.Valid() && H.UniqueNbrs(table.View())
    modifies table`nlist, table`n, table.list, Elems(table.list.elms)
    ensures table.Valid() && table.View() == H.Fresh(old(table.View()), clock, timeout)
    ensures list == Named(table.View(), plen)
  {
    hide Agree, AllDistinct, H.Fresh, H.UniqueNbrs;
    var book := new AddressBook();
    AddAddresses(table, book, clock, timeout, plen);
    list := book.list;
  }

  /** One round of the hello writer's thread: create the message, add the commodities that fit and the
      neighbours that are left after a refresh, send fragment after fragment, flush.  Whoever reads the
      packets of this round finds the messages of this hello and nothing else.  The fragments stand for
      any way of cutting the list of addresses, also an empty one, into one message or more. */
  method SendHello(f: Format, orig: Addr, clist: seq<Commodity<Addr>>, table: H.Table<Addr>, clock: nat -> Time,
                   timeout: nat, plen: Addr -> Byte, iface: Interface, fragments: seq<seq<A.Block>>, seqno: nat)
    returns (next: nat, ghost n: nat)
    requires ValidFormat(f) && 1 <= |orig| <= A.MAX_ADDRLEN && seqno < SEQNO_WRAP
    requires table.Valid() && H.UniqueNbrs(table.View()) && iface.Valid() && iface.isFlushed && Bare(iface)
    requires fragments != [] && Concat(Lists(fragments)) == Named(H.Fresh(table.View(), clock, timeout), plen)
    requires forall k: nat :: AnnouncesFirst(f, orig, Announcement(clist), iface.mtu, k) ==>
               Fragmented(f, orig, Announcement(clist)[..k], fragments, iface.mtu)
    modifies table`nlist, table`n, table.list, Elems(table.list.elms)
    modifies iface`isFlushed, iface`binMsgsSize, iface`seqno, iface`wire, iface`sent, iface`pending, iface.pkt
    modifies iface.pkt.buffer
    ensures table.Valid() && table.View() == H.Fresh(old(table.View()), clock, timeout)
    ensures AnnouncesFirst(f, orig, Announcement(clist), iface.mtu, n) && next == (seqno + |fragments|) % SEQNO_WRAP
    ensures iface.Valid() && iface.isFlushed && iface.pending == []
    ensures |old(iface.wire)| <= |iface.wire| && iface.wire[..|old(iface.wire)|] == old(iface.wire)
    ensures var cs := Announcement(clist)[..n];
            Carries(iface.wire[|old(iface.wire)|..], HelloMessages(f, orig, seqno, cs, fragments), iface.mtu)
  {
    hide HelloMessages, Concat, Lists, Composed, Fragmented, Carries, ValidFormat, Named, Announcement;
    hide H.Fresh, H.UniqueNbrs, TlvsBytes, Stands, Accepted, PacketBytes;
    hide Interface.Valid, Interface.IsOpen, Interface.Posted, H.Table.Valid, H.Table.View, AnnouncesFirst;
    NothingPending(iface);
    var room := iface.Open();
    var w;
    w, n := Compose(f, orig, clist, iface.mtu);
    var list := ListNeighbors(table, clock, timeout, plen);
    assert list == Concat(Lists(fragments));
    next := Dispatch(w, iface, f, orig, Announcement(clist)[..n], fragments, seqno);
  }

  lemma {:induction false} NothingPending(iface: Interface)
    requires iface.Valid() && iface.isFlushed
    ensures iface.pending == []
  {
  }

  lemma {:induction false} ShortNothing()
    ensures Short([]) && TlvsBytes([]) == []
  {
  }

  /** A node without neighbours and commodities has something to send, too. */
  lemma {:induction false} BareHello(orig: Addr, mtu: nat, plen: Addr -> Byte)
    requires 1 <= |orig| <= A.MAX_ADDRLEN && HelloHeader(orig) <= HelloRoom(mtu)
    ensures ValidFormat(Struct(|orig|)) && Encodable(Struct(|orig|), [])
    ensures Fragmented(Struct(|orig|), orig, [], [[]], mtu)
    ensures AnnouncesFirst(Struct(|orig|), orig, [], mtu, 0) && Concat(Lists([[]])) == Named([], plen)
  {
    StructIsValid(|orig|);
    assert TlvsOf(Struct(|orig|), []) == [];
    NoTlvBytes();
    assert Lists([[]])[..0] == [] && Lists([[]])[0] == [];
  }

  // ------------------------------------------------------------ what it means

  /** What one message of a hello does to whoever handles it. */
  lemma {:induction false} HelloMeans(f: Format, orig: Addr, seqno: nat, cs: seq<H.Com<Addr>>, blocks: seq<A.Block>,
                                      t: seq<H.Nbr<Addr>>, me: Addr, now: Time)
    requires ValidFormat(f) && Encodable(f, cs) && ValidMessage(HelloMessage(f, orig, seqno, cs, blocks))
    ensures var m := MessageOf(HelloMessage(f, orig, seqno, cs, blocks));
            && ValidBlocksIn(m.blocks)
            && AfterEvent(t, me, f, EventOf(m), now) == Lives(H.Handled(t, me, H.Hello(orig, cs, Tiled(blocks)), now))
  {
    hide HelloMessage, MessageOf, ValidMessage, ValidFormat, EventOf, H.Handled, Tiled, ItemsOf, AddrsOf, H.ComsOf,
         ValidBlocksIn;
    HelloRoundTrip(f, orig, seqno, cs, blocks);
    EventHead(MessageOf(HelloMessage(f, orig, seqno, cs, blocks)));
  }

  lemma {:induction false} TiledIs(bs: seq<A.Block>)
    ensures Tiled(bs) == BytesOfAddrs(AddressesIn(bs))
  {
    if bs == [] {
    } else {
      var k := |bs| - 1;
      TiledIs(bs[..k]);
      assert BytesOfAddrs(AddressesIn(bs[..k]) + bs[k].addrs)
        == BytesOfAddrs(AddressesIn(bs[..k])) + BytesOfAddrs(bs[k].addrs);
    }
  }

  lemma {:induction false} ByteListsAre(fragments: seq<seq<A.Block>>)
    ensures Concat(ByteLists(fragments)) == BytesOfAddrs(Concat(Lists(fragments)))
  {
    if fragments == [] {
    } else {
      var k := |fragments| - 1;
      ByteListsAre(fragments[..k]);
      TiledIs(fragments[k]);
      var a, b := Lists(fragments), ByteLists(fragments);
      assert a[..k] == Lists(fragments[..k]) && b[..k] == ByteLists(fragments[..k]);
      assert BytesOfAddrs(Concat(a[..k]) + a[k]) == BytesOfAddrs(Concat(a[..k])) + BytesOfAddrs(a[k]);
    }
  }

  /** The bytes refine the runs: a round of the writer is a Send that is enabled, and handling message k
      of that round does to any node b what delivering packet k of that Send does. */
  lemma {:induction false} WireRefinesRun(s: R.State<Addr>, f: Format, orig: Addr, seqno: nat, cs: seq<H.Com<Addr>>,
                                          fragments: seq<seq<A.Block>>, clock: nat -> Time, timeout: nat,
                                          plen: Addr -> Byte, at: nat, k: nat, b: Addr, now: Time)
    requires ValidFormat(f) && Encodable(f, cs) && k < |fragments|
    requires ValidMessages(HelloMessages(f, orig, seqno, cs, fragments))
    requires Concat(Lists(fragments)) == Named(H.Fresh(R.TableOf(s, orig), clock, timeout), plen)
    ensures var send := R.Send(orig, clock, timeout, cs, ByteLists(fragments));
            R.Enabled(s, send)
            && var sent := R.Next(s, send, at);
               var deliver := R.Deliver(b, |s.net| + k, now);
               var m := MessageOf(HelloMessages(f, orig, seqno, cs, fragments)[k]);
               R.Enabled(sent, deliver) && ValidBlocksIn(m.blocks)
               && AfterEvent(R.TableOf(sent, b), b, f, EventOf(m), now)
                  == Lives(R.TableOf(R.Next(sent, deliver, at + 1), b))
  {
    hide Concat, H.Fresh, H.Handled, HelloMessage, MessageOf, ValidMessage, ValidFormat, AfterEvent, EventOf,
         ValidBlocksIn;
    ByteListsAre(fragments);
    var left := H.Fresh(R.TableOf(s, orig), clock, timeout);
    assert BytesOfAddrs(Named(left, plen)) == R.Addresses(left);
    var sent := R.Next(s, R.Send(orig, clock, timeout, cs, ByteLists(fragments)), at);
    assert sent.net[|s.net| + k] == R.Packets(orig, cs, ByteLists(fragments), at)[k];
    assert ValidMessage(HelloMessages(f, orig, seqno, cs, fragments)[k]);
    HelloMeans(f, orig, (seqno + k) % SEQNO_WRAP, cs, fragments[k], R.TableOf(sent, b), b, now);
  }
}
