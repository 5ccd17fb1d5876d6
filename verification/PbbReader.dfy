/** The loops of lib/packetbb/pbb_reader.c over packets, messages, address blocks and addresses, for
    one consumer whose callbacks never drop anything. */
module PbbReader {
  import opened Basics
  import opened AvlShape
  import opened AvlOrder
  import opened AvlHeap
  import opened AvlTree
  import opened PbbBytes
  import opened PbbTlv
  import opened PbbTlvBlock
  import opened PbbTlvReader
  import opened PbbMessage
  import opened PbbPacket
  import A = PbbAddr

  /** What the callbacks see of one address and of one message. */
  datatype AddrEvent = AddrEvent(addr: A.Address, tlvs: seq<Delivery>)
  datatype MessageEvent = MessageEvent(head: HeadIn, tlvs: seq<Delivery>, addrs: seq<AddrEvent>)

  ghost predicate ValidBlocksIn(bs: seq<BlockIn>) {
    forall i :: 0 <= i < |bs| ==> A.ValidEntry(bs[i].addr)
  }

  ghost function EventAt(b: BlockIn, i: nat): AddrEvent
    requires A.ValidEntry(b.addr) && i < b.addr.num
  {
    AddrEvent(A.AssembleOne(b.addr, i), Delivered(Arranged(b.tlvs), i))
  }

  /** The events of the first n addresses of a block. */
  ghost function BlockEvents(b: BlockIn, n: nat): seq<AddrEvent>
    requires A.ValidEntry(b.addr) && n <= b.addr.num
  {
    if n == 0 then [] else BlockEvents(b, n - 1) + [EventAt(b, n - 1)]
  }

  ghost function BlocksEvents(bs: seq<BlockIn>): seq<AddrEvent>
    requires ValidBlocksIn(bs)
  {
    if bs == [] then [] else BlocksEvents(bs[..|bs| - 1]) + BlockEvents(bs[|bs| - 1], bs[|bs| - 1].addr.num)
  }

  ghost function EventOf(m: MessageIn): MessageEvent
    requires ValidBlocksIn(m.blocks)
  {
    MessageEvent(m.head, Delivered(Arranged(m.tlvs), 0), BlocksEvents(m.blocks))
  }

  // ---------------------------------------------------------------- addresses

  /** A parsed block on the heap: its address data, the buffer in which addresses are put together,
      and its TLVs. */
  class Block {
    const addr: A.AddrEntry
    const buffer: array<Byte>
    const tree: AvlTree<Entry>
    ghost const nodes: set<object>

    constructor (addr: A.AddrEntry, tree: AvlTree<Entry>)
      requires A.ValidEntry(addr)
      ensures this.addr == addr && this.tree == tree && nodes == {tree, tree.listHead} + (set n | n in tree.elems)
      ensures fresh(buffer) && Framed()
    {
      this.addr, this.tree := addr, tree;
      nodes := {tree, tree.listHead} + (set n | n in tree.elems);
      var b := new Byte[|addr.head| + addr.midLen + |addr.tail|];
      buffer := b;
      new;
      Copy(buffer, 0, addr.head);
      Copy(buffer, buffer.Length - |addr.tail|, addr.tail);
    }

    /** Head and tail stand in the buffer. */
    ghost predicate Framed()
      reads buffer
    {
      && buffer.Length == |addr.head| + addr.midLen + |addr.tail|
      && buffer[..|addr.head|] == addr.head && buffer[buffer.Length - |addr.tail|..] == addr.tail
    }

    /** Put the middle of address i between head and tail. */
    method Assemble(i: nat) returns (a: A.Address)
      requires A.ValidEntry(addr) && i < addr.num && Framed()
      modifies buffer
      ensures Framed() && a == A.AssembleOne(addr, i)
    {
      hide Overwrite, A.AssembleOne;
      ghost var was := buffer[..];
      A.MidInside(addr.num, addr.midLen, i);
      var mid := addr.mids[i * addr.midLen..i * addr.midLen + addr.midLen];
      Refilled(was, addr.head, mid, addr.tail);
      A.AssembledFrom(addr, i, i * addr.midLen, mid);
      Copy(buffer, |addr.head|, mid);
      a := A.Address(buffer[..], if addr.listed then addr.plens[i] else addr.plens[0]);
    }
  }

  lemma {:induction false} Refilled(was: Bytes, head: Bytes, mid: Bytes, tail: Bytes)
    requires |was| == |head| + |mid| + |tail| && was[..|head|] == head && was[|was| - |tail|..] == tail
    ensures var r := Overwrite(was, |head|, mid);
            r == head + mid + tail && r[..|head|] == head && r[|r| - |tail|..] == tail
  {
  }

  ghost predicate Stored(block: Block, b: BlockIn)
    reads block.nodes, block.buffer
  {
    && block.addr == b.addr && A.ValidEntry(b.addr) && block.Framed() && |b.tlvs| < WRAP
    && block.tree in block.nodes && block.tree.listHead in block.nodes && Elems(block.tree.elems) <= block.nodes
    && Holding(block.tree, b.tlvs)
  }

  /** One address block of schedule_msgaddr_consumer: callbacks for address after address. */
  method ScheduleAddresses(block: Block, ghost b: BlockIn, log: seq<AddrEvent>) returns (r: seq<AddrEvent>)
    requires Stored(block, b)
    modifies block.buffer
    ensures Stored(block, b) && r == log + BlockEvents(b, b.addr.num)
  {
    hide A.AssembleOne, Arranged, Delivered, Keys, Sorted, Firsts, Inorder, Nodes, Avl, Sep, LinksOf, TotalOrder;
    r := log;
    var i := 0;
    assert log + [] == log;
    while i < block.addr.num
      invariant i <= block.addr.num && Stored(block, b) && r == log + BlockEvents(b, i)
    {
      var a := block.Assemble(i);
      var tlvs := ScheduleBlock(block.tree, i, b.tlvs);
      assert log + BlockEvents(b, i) + [EventAt(b, i)] == log + BlockEvents(b, i + 1);
      r := r + [AddrEvent(a, tlvs)];
      i := i + 1;
    }
  }

  // ---------------------------------------------------------------- messages

  ghost function OntoBlocks(done: seq<BlockIn>, rest: Parsed<seq<BlockIn>>): Parsed<seq<BlockIn>> {
    if rest.Failed? then rest else Parsed(done + rest.value, rest.next)
  }

  lemma {:induction false} OntoNoBlocks(rest: Parsed<seq<BlockIn>>)
    ensures OntoBlocks([], rest) == rest
  {
    if rest.Parsed? { assert [] + rest.value == rest.value; }
  }

  lemma {:induction false} OntoOneBlock(done: seq<BlockIn>, first: BlockIn, rest: Parsed<seq<BlockIn>>)
    ensures OntoBlocks(done + [first], rest)
         == OntoBlocks(done, if rest.Failed? then rest else Parsed([first] + rest.value, rest.next))
  {
    if rest.Parsed? { assert (done + [first]) + rest.value == done + ([first] + rest.value); }
  }

  /** One round of the loop over address blocks in _handle_message. */
  function ParseBlockAt(buf: Bytes, pos: nat, end: nat, n: nat): (r: Parsed<BlockIn>)
    requires end <= |buf| && n <= A.MAX_ADDRLEN
    ensures r.Failed? ==> r.code != Okay
  {
    var addr := A.ParseAddrBlock(buf, pos, end, n);
    if addr.Failed? then Failed(addr.code)
    else
      var tlvs := ParseTlvBlock(buf, addr.next, end);
      if tlvs.Failed? then Failed(tlvs.code) else Parsed(BlockIn(addr.value, tlvs.value), tlvs.next)
  }

  lemma {:induction false} BlocksStep(buf: Bytes, pos: nat, end: nat, n: nat)
    requires pos < end <= |buf| && n <= A.MAX_ADDRLEN
    ensures var first := ParseBlockAt(buf, pos, end, n);
            if first.Failed? then ParseBlocks(buf, pos, end, n) == Failed(first.code)
            else pos < first.next <= end
                 && var rest := ParseBlocks(buf, first.next, end, n);
                    ParseBlocks(buf, pos, end, n) == if rest.Failed? then rest
                      else Parsed([first.value] + rest.value, rest.next)
  {
    hide A.ParseAddrBlock, ParseTlvBlock;
    if A.ParseAddrBlock(buf, pos, end, n).Parsed? { A.AddrBlockProgress(buf, pos, end, n); }
  }

  method ReadBlock(buf: Bytes, pos: nat, end: nat, n: nat) returns (code: Code, next: nat, block: Block?)
    requires end <= |buf| && n <= A.MAX_ADDRLEN
    ensures match ParseBlockAt(buf, pos, end, n)
            case Parsed(b, p) => code == Okay && next == p && block != null && fresh(block.buffer) && Stored(block, b)
            case Failed(c) => code == c
  {
    hide A.ParseAddrBlock, ParseTlvBlock, Keys, Arranged;
    block := null;
    var addr := A.ParseAddrBlock(buf, pos, end, n);
    if addr.Failed? {
      return addr.code, end, null;
    }
    A.AddrBlockProgress(buf, pos, end, n);
    var tree;
    code, next, tree := ParseBlock(buf, addr.next, end);
    if ParseTlvBlock(buf, addr.next, end).Parsed? { BlockCount(buf, addr.next, end); }
    if code == Okay {
      block := new Block(addr.value, tree);
    }
  }

  /** A list of parsed blocks, each with a buffer of its own. */
  ghost predicate AllStored(blocks: seq<Block>, bs: seq<BlockIn>)
    reads set b | b in blocks :: b.buffer, set b, n | b in blocks && n in b.nodes :: n
  {
    && |blocks| == |bs| && (forall i :: 0 <= i < |bs| ==> Stored(blocks[i], bs[i]))
    && (forall i, j :: 0 <= i < j < |blocks| ==> blocks[i].buffer != blocks[j].buffer)
  }

  /** The loop over the address blocks in _handle_message. */
  method ReadBlocks(buf: Bytes, pos: nat, end: nat, n: nat)
    returns (code: Code, blocks: seq<Block>, ghost bs: seq<BlockIn>)
    requires end <= |buf| && n <= A.MAX_ADDRLEN
    ensures match ParseBlocks(buf, pos, end, n)
            case Parsed(all, p) => code == Okay && bs == all && AllStored(blocks, bs)
            case Failed(c) => code == c
    ensures forall i :: 0 <= i < |blocks| ==> fresh(blocks[i].buffer)
  {
    hide ParseBlockAt, ParseBlocks, Holding, A.ValidEntry;
    var next := pos;
    code, blocks, bs := Okay, [], [];
    OntoNoBlocks(ParseBlocks(buf, pos, end, n));
    while next < end
      invariant code == Okay && AllStored(blocks, bs) && forall i :: 0 <= i < |blocks| ==> fresh(blocks[i].buffer)
      invariant ParseBlocks(buf, pos, end, n) == OntoBlocks(bs, ParseBlocks(buf, next, end, n))
      decreases end - next
    {
      BlocksStep(buf, next, end, n);
      var block;
      ghost var first := ParseBlockAt(buf, next, end, n);
      code, next, block := ReadBlock(buf, next, end, n);
      if code != Okay {
        return;
      }
      OntoOneBlock(bs, first.value, ParseBlocks(buf, next, end, n));
      blocks, bs := blocks + [block], bs + [first.value];
    }
    NoMoreBlocks(buf, next, end, n);
    assert bs + [] == bs;
  }

  lemma {:induction false} NoMoreBlocks(buf: Bytes, pos: nat, end: nat, n: nat)
    requires end <= pos && end <= |buf| && n <= A.MAX_ADDRLEN
    ensures ParseBlocks(buf, pos, end, n) == Parsed([], pos)
  {
  }

  /** schedule_msgaddr_consumer */
  method ScheduleBlocks(blocks: seq<Block>, ghost bs: seq<BlockIn>) returns (log: seq<AddrEvent>)
    requires AllStored(blocks, bs)
    modifies set b | b in blocks :: b.buffer
    ensures ValidBlocksIn(bs) && log == BlocksEvents(bs)
  {
    hide Holding, A.ValidEntry, BlockEvents, BlocksEvents, EventAt, ValidBlocksIn;
    log := [];
    var i := 0;
    StoredValid(blocks, bs);
    while i < |blocks|
      invariant i <= |blocks| && AllStored(blocks, bs)
      invariant ValidBlocksIn(bs[..i]) && log == BlocksEvents(bs[..i])
    {
      BlocksEventsStep(bs, i);
      log := ScheduleAddresses(blocks[i], bs[i], log);
      i := i + 1;
    }
    assert bs[..i] == bs;
  }

  lemma {:induction false} StoredValid(blocks: seq<Block>, bs: seq<BlockIn>)
    requires AllStored(blocks, bs)
    ensures ValidBlocksIn(bs) && ValidBlocksIn(bs[..0]) && BlocksEvents(bs[..0]) == []
  {
  }

  lemma {:induction false} BlocksEventsStep(bs: seq<BlockIn>, i: nat)
    requires ValidBlocksIn(bs) && i < |bs|
    ensures ValidBlocksIn(bs[..i]) && ValidBlocksIn(bs[..i + 1]) && A.ValidEntry(bs[i].addr)
    ensures BlocksEvents(bs[..i + 1]) == BlocksEvents(bs[..i]) + BlockEvents(bs[i], bs[i].addr.num)
  {
    assert bs[..i + 1][..i] == bs[..i];
  }

  lemma {:induction false} MessageBlocks(buf: Bytes, start: nat, eob: nat)
    requires eob <= |buf| && ParseMessage(buf, start, eob).Parsed?
    ensures ValidBlocksIn(ParseMessage(buf, start, eob).value.blocks)
  {
    hide ParseHead, ParseTlvBlock, ParseBlocks, A.ValidEntry;
    var head := ParseHead(buf, start, eob);
    var end := start + head.value.size;
    BlocksValid(buf, ParseTlvBlock(buf, head.next, end).next, end, head.value.addrLen);
  }

  /** _handle_message: parse everything, then call back for the message's TLVs and for its addresses. */
  method HandleMessage(buf: Bytes, start: nat, eob: nat) returns (code: Code, next: nat, event: MessageEvent)
    requires eob <= |buf|
    ensures match ParseMessage(buf, start, eob)
            case Parsed(m, n) => code == Okay && next == n && ValidBlocksIn(m.blocks) && event == EventOf(m)
            case Failed(c) => code == c
  {
    hide ParseHead, ParseTlvBlock, ParseBlocks, Holding, AllStored, A.ValidEntry, Arranged, Delivered;
    event := MessageEvent(HeadIn(0, 0, None, None, None, None, 0), [], []);
    next := eob;
    if ParseMessage(buf, start, eob).Parsed? { MessageBlocks(buf, start, eob); }
    var head := ParseHead(buf, start, eob);
    if head.Failed? {
      return head.code, next, event;
    }
    var end := start + head.value.size;
    var ptr, tree;
    code, ptr, tree := ParseBlock(buf, head.next, end);
    if code != Okay {
      return;
    }
    ghost var es := ParseTlvBlock(buf, head.next, end).value;
    BlockCount(buf, head.next, end);
    var tlvs := ScheduleBlock(tree, 0, es);
    var blocks; ghost var bs;
    code, blocks, bs := ReadBlocks(buf, ptr, end, head.value.addrLen);
    if code != Okay {
      return;
    }
    var addrs := ScheduleBlocks(blocks, bs);
    next := end;
    event := MessageEvent(head.value, tlvs, addrs);
  }

  // ---------------------------------------------------------------- packets

  ghost predicate ValidMessagesIn(ms: seq<MessageIn>) {
    forall i :: 0 <= i < |ms| ==> ValidBlocksIn(ms[i].blocks)
  }

  ghost function EventsOf(ms: seq<MessageIn>): (r: seq<MessageEvent>)
    requires ValidMessagesIn(ms)
    ensures |r| == |ms| && forall i :: 0 <= i < |ms| ==> r[i] == EventOf(ms[i])
  {
    seq(|ms|, i requires 0 <= i < |ms| => EventOf(ms[i]))
  }

  /** One round of the message loop. */
  lemma {:induction false} MessagesStep(buf: Bytes, pos: nat, eob: nat)
    requires pos < eob <= |buf|
    ensures var first := ParseMessage(buf, pos, eob);
            if first.Failed? then ParseMessages(buf, pos, eob) == Failed(first.code)
              && GoodMessages(buf, pos, eob) == []
            else pos < first.next <= eob && ValidBlocksIn(first.value.blocks)
                 && CodeOf(ParseMessages(buf, pos, eob)) == CodeOf(ParseMessages(buf, first.next, eob))
                 && GoodMessages(buf, pos, eob) == [first.value] + GoodMessages(buf, first.next, eob)
  {
    hide ParseMessage, ValidBlocksIn;
    if ParseMessage(buf, pos, eob).Parsed? {
      MessageProgress(buf, pos, eob);
      MessageBlocks(buf, pos, eob);
    }
  }

  function CodeOf<T>(p: Parsed<T>): Code { if p.Failed? then p.code else Okay }

  /** The message loop of pbb_reader_handle_packet.  The messages in front of the first one that does
      not parse have been handled, also if there is an error.  Every message moves the cursor forward, so the
      bytes that remain bound the number of rounds. */
  method HandleMessages(buf: Bytes, pos: nat, eob: nat) returns (code: Code, events: seq<MessageEvent>)
    requires pos <= eob <= |buf|
    ensures code == CodeOf(ParseMessages(buf, pos, eob))
    ensures ValidMessagesIn(GoodMessages(buf, pos, eob)) && events == EventsOf(GoodMessages(buf, pos, eob))
  {
    hide ParseMessage, ParseMessages, GoodMessages, EventOf, ValidBlocksIn;
    var ptr := pos;
    code, events := Okay, [];
    ghost var done: seq<MessageIn>, all := [], GoodMessages(buf, pos, eob);
    assert all == [] + all;
    while code == Okay && ptr < eob
      invariant ptr <= eob && ValidMessagesIn(done) && events == EventsOf(done)
      invariant code == Okay ==> CodeOf(ParseMessages(buf, pos, eob)) == CodeOf(ParseMessages(buf, ptr, eob))
      invariant code == Okay ==> all == done + GoodMessages(buf, ptr, eob)
      invariant code != Okay ==> CodeOf(ParseMessages(buf, pos, eob)) == code && all == done
      decreases eob - ptr, code == Okay
    {
      MessagesStep(buf, ptr, eob);
      var event;
      ghost var first := ParseMessage(buf, ptr, eob);
      var next;
      code, next, event := HandleMessage(buf, ptr, eob);
      if code == Okay {
        ghost var rest := GoodMessages(buf, next, eob);
        assert done + ([first.value] + rest) == done + [first.value] + rest;
        ptr := next;
        events := events + [event];
        done := done + [first.value];
      } else {
        assert done + [] == done;
      }
    }
    if code == Okay {
      NoMoreMessages(buf, ptr, eob);
      assert done + [] == done;
    }
  }

  lemma {:induction false} NoMoreMessages(buf: Bytes, pos: nat, eob: nat)
    requires pos == eob <= |buf|
    ensures ParseMessages(buf, pos, eob) == Parsed([], eob) && GoodMessages(buf, pos, eob) == []
  {
  }

  /** pbb_reader_handle_packet: the code of the first error, if there is one; everything in front of it
      has been handed to the consumers by then. */
  method HandlePacket(buf: Bytes) returns (code: Code, tlvs: seq<Delivery>, events: seq<MessageEvent>)
    ensures code == CodeOf(ParsePacket(buf))
    ensures tlvs == if ParsePacketStart(buf).Failed? then []
      else Delivered(Arranged(ParsePacketStart(buf).value.tlvs), 0)
    ensures ValidMessagesIn(MessagesSeen(buf)) && events == EventsOf(MessagesSeen(buf))
  {
    hide ParseTlvBlock, ParseMessages, GoodMessages, Holding, Delivered, Has, EventOf, ValidBlocksIn;
    tlvs, events := [], [];
    var first := GetU8(buf, Cursor(0, Okay), |buf|);
    if first.0 / 16 != 0 {
      return UnsupportedVersion, tlvs, events;
    }
    var seqno := GetOptWord(buf, Has(first.0, PKT_SEQNO), first.1, |buf|);
    if seqno.1.code != Okay {
      return seqno.1.code, tlvs, events;
    }
    var ptr := seqno.1.pos;
    NothingDelivered();
    if Has(first.0, PKT_TLV) {
      var tree;
      code, ptr, tree := ParseBlock(buf, ptr, |buf|);
      if code != Okay {
        return;
      }
      BlockCount(buf, seqno.1.pos, |buf|);
      tlvs := ScheduleBlock(tree, 0, ParseTlvBlock(buf, seqno.1.pos, |buf|).value);
    }
    code, events := HandleMessages(buf, ptr, |buf|);
  }

  lemma {:induction false} NothingDelivered()
    ensures Delivered(Arranged([]), 0) == []
  {
  }
}
