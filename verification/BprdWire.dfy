/** Hellos on the wire: what src/hello_writer.c puts into a message and src/hello_reader.c takes out of
    it again. */
module BprdWire {
  import opened Basics
  import opened PbbBytes
  import opened PbbTlv
  import opened PbbTlvBlock
  import opened PbbMessage
  import opened PbbReader
  import A = PbbAddr
  import H = BprdHello

  const MSG_TYPE_HELLO: Byte := 1
  const TLV_TYPE_COM: Byte := 1

  type Addr = Bytes

  /** The struct that travels in a TLV: size bytes, in which a commodity can be told again if its
      address has addrLen bytes. */
  datatype Format = Format(addrLen: nat, size: nat, enc: H.Com<Addr> -> Bytes, dec: Bytes -> H.Com<Addr>)

  ghost predicate ValidFormat(f: Format) {
    && 0 < f.size <= 65535 && (forall c :: |f.enc(c)| == f.size)
    && forall c: H.Com<Addr> :: |c.addr| == f.addrLen ==> f.dec(f.enc(c)) == c
  }

  /** Commodities that the struct has room for. */
  ghost predicate Encodable(f: Format, cs: seq<H.Com<Addr>>) {
    forall i :: 0 <= i < |cs| ==> |cs[i].addr| == f.addrLen
  }

  // ---------------------------------------------------------------- a struct

  /** The four bytes of a uint32_t, and back. */
  function Bytes32(x: Uint32): (r: Bytes)
    ensures |r| == 4
  {
    [x / 0x100_0000, x / 0x1_0000 % 256, x / 256 % 256, x % 256]
  }

  function Value32(b: Bytes): Uint32
    requires |b| == 4
  {
    var w: nat, x: nat, y: nat, z: nat := b[0], b[1], b[2], b[3];
    w * 0x100_0000 + x * 0x1_0000 + y * 256 + z
  }

  lemma {:induction false} Value32Back(x: Uint32)
    ensures Value32(Bytes32(x)) == x
  {
    assert x == x / 256 * 256 + x % 256;
    assert x / 256 == x / 0x1_0000 * 256 + x / 256 % 256;
    assert x / 0x1_0000 == x / 0x100_0000 * 256 + x / 0x1_0000 % 256;
  }

  /** An array of n bytes with s in it. */
  function Fitted(s: Bytes, n: nat): (r: Bytes)
    ensures |r| == n
  {
    if |s| >= n then s[..n] else s + A.Zeros(n - |s|)
  }

  /** The address in n bytes, then the backlog. */
  function Struct(n: nat): Format {
    Format(n, n + 4,
      (c: H.Com<Addr>) => Fitted(c.addr, n) + Bytes32(c.backlog),
      (b: Bytes) => if |b| == n + 4 then H.Com(b[..n], Value32(b[n..])) else H.Com(b, 0))
  }

  /** Such a struct is a valid format. */
  lemma {:induction false} StructIsValid(n: nat)
    requires n + 4 <= 65535
    ensures ValidFormat(Struct(n))
  {
    var f := Struct(n);
    forall c: H.Com<Addr> | |c.addr| == f.addrLen ensures f.dec(f.enc(c)) == c {
      var b := f.enc(c);
      assert b[..n] == c.addr && b[n..] == Bytes32(c.backlog);
      Value32Back(c.backlog);
    }
  }

  // ---------------------------------------------------------------- writing

  function TlvOf(f: Format, c: H.Com<Addr>): Tlv { Tlv(TLV_TYPE_COM, 0, f.enc(c)) }

  function TlvsOf(f: Format, cs: seq<H.Com<Addr>>): (r: seq<Tlv>)
    ensures |r| == |cs| && forall i :: 0 <= i < |cs| ==> r[i] == TlvOf(f, cs[i])
  {
    seq(|cs|, i requires 0 <= i < |cs| => TlvOf(f, cs[i]))
  }

  /** The message of one hello fragment: sequence number and originator, one TLV for each commodity,
      and the blocks that hold its addresses. */
  function HelloMessage(f: Format, orig: Addr, seqno: nat, cs: seq<H.Com<Addr>>, blocks: seq<A.Block>): Message {
    Message(MSG_TYPE_HELLO, |orig|, Some(orig), None, None, Some(seqno), TlvsOf(f, cs), blocks)
  }

  function BytesOfAddrs(s: seq<A.Address>): (r: seq<Addr>)
    ensures |r| == |s| && forall i :: 0 <= i < |s| ==> r[i] == s[i].bytes
  {
    seq(|s|, i requires 0 <= i < |s| => s[i].bytes)
  }

  /** The addresses that the blocks tile. */
  function Tiled(bs: seq<A.Block>): seq<Addr> {
    if bs == [] then [] else Tiled(bs[..|bs| - 1]) + BytesOfAddrs(bs[|bs| - 1].addrs)
  }

  // ---------------------------------------------------------------- reading

  /** The test of hello_cons_msg_tlv. */
  function ItemOf(f: Format, d: Delivery): H.Item<Addr> {
    if d.typ == TLV_TYPE_COM && |d.value| == f.size then H.Known(f.dec(d.value)) else H.Unrecognised
  }

  function ItemsOf(f: Format, ds: seq<Delivery>): (r: seq<H.Item<Addr>>)
    ensures |r| == |ds| && forall i :: 0 <= i < |ds| ==> r[i] == ItemOf(f, ds[i])
  {
    seq(|ds|, i requires 0 <= i < |ds| => ItemOf(f, ds[i]))
  }

  function AddrsOf(es: seq<AddrEvent>): (r: seq<Addr>)
    ensures |r| == |es| && forall i :: 0 <= i < |es| ==> r[i] == es[i].addr.bytes
  {
    seq(|es|, i requires 0 <= i < |es| => es[i].addr.bytes)
  }

  /** hello_cons_addr_tlv ends the process if an address has a TLV. */
  predicate NoAddressTlvs(es: seq<AddrEvent>) {
    forall i :: 0 <= i < |es| ==> es[i].tlvs == []
  }

  // ---------------------------------------------------------------- there and back

  lemma {:induction false} PlacedLast(s: seq<Entry>, e: Entry)
    requires forall i :: 0 <= i < |s| ==> s[i].Order() == e.Order()
    ensures Placed(s, e) == s + [e]
  {
    if s == [] {
    } else {
      PlacedLast(s[1..], e);
    }
  }

  /** TLVs of one type and extension keep their order. */
  lemma {:induction false} ArrangedSame(s: seq<Entry>, order: nat)
    requires forall i :: 0 <= i < |s| ==> s[i].Order() == order
    ensures Arranged(s) == s
  {
    hide Placed;
    if s == [] {
    } else {
      var k := |s| - 1;
      ArrangedSame(s[..k], order);
      PlacedLast(s[..k], s[k]);
      assert s[..k] + [s[k]] == s;
    }
  }

  lemma {:induction false} ItemsBack(f: Format, cs: seq<H.Com<Addr>>)
    requires ValidFormat(f) && Encodable(f, cs)
    ensures var items := ItemsOf(f, Delivered(Arranged(EntriesOf(TlvsOf(f, cs))), 0));
            && |items| == |cs| && (forall i :: 0 <= i < |cs| ==> items[i] == H.Known(cs[i]))
            && H.Unrecognised !in items && H.ComsOf(items) == cs
  {
    hide TlvFlags;
    var es := EntriesOf(TlvsOf(f, cs));
    ArrangedSame(es, TLV_TYPE_COM * 256);
    DeliveredAll(es, 0);
    var items := ItemsOf(f, Delivered(es, 0));
    assert forall i :: 0 <= i < |cs| ==> items[i] == H.Known(cs[i]);
    AllKnown(items, cs);
  }

  lemma {:induction false} AllKnown(items: seq<H.Item<Addr>>, cs: seq<H.Com<Addr>>)
    requires |items| == |cs| && forall i :: 0 <= i < |cs| ==> items[i] == H.Known(cs[i])
    ensures H.ComsOf(items) == cs
  {
    if cs == [] {
    } else {
      var k := |cs| - 1;
      AllKnown(items[..k], cs[..k]);
      assert cs == cs[..k] + [cs[k]];
    }
  }

  lemma {:induction false} BlockBack(b: A.Block, n: nat, k: nat)
    requires A.ValidBlock(b, n) && k <= |b.addrs|
    ensures A.ValidEntry(A.EntryOf(b, n)) && A.EntryOf(b, n).num == |b.addrs|
    ensures var es := BlockEvents(BlockIn(A.EntryOf(b, n), []), k);
            AddrsOf(es) == BytesOfAddrs(b.addrs[..k]) && NoAddressTlvs(es)
  {
    hide A.EntryOf, A.ValidEntry, A.AssembleOne, A.ValidBlock;
    A.EntryAssembles(b, n);
    assert A.EntryOf(b, n).num == |A.Assembled(A.EntryOf(b, n))|;
    if k == 0 {
    } else {
      BlockBack(b, n, k - 1);
      NothingDelivered(k - 1);
      assert A.Assembled(A.EntryOf(b, n))[k - 1] == b.addrs[k - 1];
      assert b.addrs[..k] == b.addrs[..k - 1] + [b.addrs[k - 1]];
    }
  }

  lemma {:induction false} NothingDelivered(i: nat)
    ensures Arranged([]) == [] && (i < 256 ==> Delivered([], i) == [])
  {
  }

  lemma {:induction false} BlocksBack(bs: seq<A.Block>, n: nat)
    requires A.ValidBlocks(bs, n)
    ensures ValidBlocksIn(BlocksOf(bs, n))
    ensures AddrsOf(BlocksEvents(BlocksOf(bs, n))) == Tiled(bs) && NoAddressTlvs(BlocksEvents(BlocksOf(bs, n)))
  {
    hide A.EntryOf, A.ValidEntry, A.ValidBlock, BlockEvents;
    forall i | 0 <= i < |bs| ensures A.ValidEntry(A.EntryOf(bs[i], n)) {
      BlockBack(bs[i], n, 0);
    }
    if bs == [] {
    } else {
      var k := |bs| - 1;
      BlocksBack(bs[..k], n);
      BlockBack(bs[k], n, |bs[k].addrs|);
      assert bs[k].addrs[..|bs[k].addrs|] == bs[k].addrs;
      assert BlocksOf(bs, n)[..k] == BlocksOf(bs[..k], n);
    }
  }

  /** What the hello writer announces is what the hello reader hears: the originator, every commodity
      once and in order, and every address once and in order. */
  lemma {:induction false} HelloRoundTrip(f: Format, orig: Addr, seqno: nat, cs: seq<H.Com<Addr>>, blocks: seq<A.Block>)
    requires ValidFormat(f) && Encodable(f, cs) && ValidMessage(HelloMessage(f, orig, seqno, cs, blocks))
    ensures var m := MessageOf(HelloMessage(f, orig, seqno, cs, blocks));
            && ValidBlocksIn(m.blocks) && m.head.typ == MSG_TYPE_HELLO && m.head.orig == Some(orig)
            && var ev := EventOf(m);
               && H.Unrecognised !in ItemsOf(f, ev.tlvs) && H.ComsOf(ItemsOf(f, ev.tlvs)) == cs
               && NoAddressTlvs(ev.addrs) && AddrsOf(ev.addrs) == Tiled(blocks)
  {
    hide TlvsOf, ItemsOf, BlocksOf, EntriesOf, Delivered, Arranged, A.ValidBlocks, A.BlocksBytes;
    ItemsBack(f, cs);
    BlocksBack(blocks, |orig|);
  }
}
