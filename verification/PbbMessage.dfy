/** Messages (section 5.2 of RFC 5444): what _write_msgheader and _finalize_message_fragment of
    lib/packetbb/pbb_msg_generator.c put on the wire, and what _handle_message of
    lib/packetbb/pbb_reader.c makes of it. */
module PbbMessage {
  import opened Basics
  import opened PbbBytes
  import opened PbbTlv
  import opened PbbTlvBlock
  import A = PbbAddr

  const ORIGINATOR := 0x80
  const HOPLIMIT := 0x40
  const HOPCOUNT := 0x20
  const SEQNO := 0x10

  /** A message as its creator and its content providers fill it. */
  datatype Message = Message(
    typ: Byte,
    addrLen: nat,
    orig: Option<Bytes>,
    hopLimit: Option<Byte>,
    hopCount: Option<Byte>,
    seqno: Option<nat>,
    tlvs: seq<Tlv>,
    blocks: seq<A.Block>)

  ghost predicate ValidMessage(m: Message) {
    && 1 <= m.addrLen <= A.MAX_ADDRLEN && (m.orig.Some? ==> |m.orig.value| == m.addrLen)
    && (m.seqno.Some? ==> m.seqno.value < 65536)
    && Short(m.tlvs) && A.ValidBlocks(m.blocks, m.addrLen) && MessageSize(m) <= 65535
  }

  // ---------------------------------------------------------------- writing

  /** The header bytes counted by pbb_writer_set_msg_header; they include the length of the TLV block. */
  function HeaderSize(addrLen: nat, orig: bool, hopLimit: bool, hopCount: bool, seqno: bool): nat {
    6 + (if orig then addrLen else 0) + (if hopLimit then 1 else 0) + (if hopCount then 1 else 0)
      + (if seqno then 2 else 0)
  }

  function HeaderSizeOf(m: Message): nat {
    HeaderSize(m.addrLen, m.orig.Some?, m.hopLimit.Some?, m.hopCount.Some?, m.seqno.Some?)
  }

  ghost function MessageSize(m: Message): nat
    requires A.ValidBlocks(m.blocks, m.addrLen)
  {
    HeaderSizeOf(m) + |TlvsBytes(m.tlvs)| + |A.BlocksBytes(m.blocks, m.addrLen)|
  }

  function MessageFlags(addrLen: nat, orig: bool, hopLimit: bool, hopCount: bool, seqno: bool): Byte
    requires 1 <= addrLen <= A.MAX_ADDRLEN
  {
    addrLen - 1 + (if orig then ORIGINATOR else 0) + (if hopLimit then HOPLIMIT else 0)
    + (if hopCount then HOPCOUNT else 0) + (if seqno then SEQNO else 0)
  }

  function FlagsOf(m: Message): Byte
    requires 1 <= m.addrLen <= A.MAX_ADDRLEN
  {
    MessageFlags(m.addrLen, m.orig.Some?, m.hopLimit.Some?, m.hopCount.Some?, m.seqno.Some?)
  }

  function Word(n: nat): (r: Bytes)
    ensures |r| == 2
  {
    [High(n), Low(n)]
  }

  function OptBytes(o: Option<Bytes>): Bytes { if o.Some? then o.value else [] }

  function OptByte(o: Option<Byte>): Bytes { if o.Some? then [o.value] else [] }

  function OptWord(o: Option<nat>): Bytes { if o.Some? then Word(o.value) else [] }

  /** _write_msgheader, for a message of size bytes with a TLV block of tlvSize bytes */
  function HeaderBytes(m: Message, size: nat, tlvSize: nat): Bytes
    requires 1 <= m.addrLen <= A.MAX_ADDRLEN
  {
    [m.typ] + ([FlagsOf(m)] + (Word(size) + (OptBytes(m.orig) + (OptByte(m.hopLimit)
      + (OptByte(m.hopCount) + (OptWord(m.seqno) + Word(tlvSize)))))))
  }

  ghost function MessageBytes(m: Message): Bytes
    requires ValidMessage(m)
  {
    HeaderBytes(m, MessageSize(m), |TlvsBytes(m.tlvs)|) + (TlvsBytes(m.tlvs) + A.BlocksBytes(m.blocks, m.addrLen))
  }

  lemma {:induction false} MessageBytesSize(m: Message)
    requires ValidMessage(m)
    ensures |HeaderBytes(m, MessageSize(m), |TlvsBytes(m.tlvs)|)| == HeaderSizeOf(m)
    ensures |MessageBytes(m)| == MessageSize(m)
  {
  }

  // ---------------------------------------------------------------- reading

  /** One address block with its TLVs. */
  datatype BlockIn = BlockIn(addr: A.AddrEntry, tlvs: seq<Entry>)

  datatype HeadIn = HeadIn(typ: Byte, addrLen: nat, orig: Option<Bytes>, hopLimit: Option<Byte>, hopCount: Option<Byte>,
                           seqno: Option<nat>, size: nat)

  datatype MessageIn = MessageIn(head: HeadIn, tlvs: seq<Entry>, blocks: seq<BlockIn>)

  function GetOptByte(buf: Bytes, present: bool, c: Cursor, eob: nat): (r: (Option<Byte>, Cursor))
    requires eob <= |buf|
    ensures c.pos <= r.1.pos
  {
    if present then var b := GetU8(buf, c, eob); (Some(b.0), b.1) else (None, c)
  }

  function GetOptWord(buf: Bytes, present: bool, c: Cursor, eob: nat): (r: (Option<nat>, Cursor))
    requires eob <= |buf|
    ensures c.pos <= r.1.pos
  {
    if present then var w := GetU16(buf, c, eob); (Some(w.0), w.1) else (None, c)
  }

  function GetOrig(buf: Bytes, present: bool, n: nat, c: Cursor, eob: nat): (r: (Option<Bytes>, Cursor))
    requires eob <= |buf|
    ensures c.pos <= r.1.pos
  {
    if !present then (None, c)
    else if c.pos + n > eob then (None, c.(code := EndOfBuffer))
    else (Some(buf[c.pos..c.pos + n]), c.(pos := c.pos + n))
  }

  /** The header of _handle_message. */
  function ParseHead(buf: Bytes, start: nat, eob: nat): (r: Parsed<HeadIn>)
    requires eob <= |buf|
    ensures r.Failed? ==> r.code != Okay
    ensures r.Parsed? ==> start + r.value.size <= eob && 1 <= r.value.addrLen <= A.MAX_ADDRLEN
  {
    var typ := GetU8(buf, Cursor(start, Okay), eob);
    var flags := GetU8(buf, typ.1, eob);
    var size := GetU16(buf, flags.1, eob);
    var n := flags.0 % 16 + 1;
    var orig := GetOrig(buf, Has(flags.0, ORIGINATOR), n, size.1, eob);
    var limit := GetOptByte(buf, Has(flags.0, HOPLIMIT), orig.1, eob);
    var count := GetOptByte(buf, Has(flags.0, HOPCOUNT), limit.1, eob);
    var seqno := GetOptWord(buf, Has(flags.0, SEQNO), count.1, eob);
    if start + size.0 > eob then Failed(EndOfBuffer)
    else if seqno.1.code != Okay then Failed(seqno.1.code)
    else Parsed(HeadIn(typ.0, n, orig.0, limit.0, count.0, seqno.0, size.0), seqno.1.pos)
  }

  lemma {:induction false} HeadProgress(buf: Bytes, start: nat, eob: nat)
    requires eob <= |buf| && ParseHead(buf, start, eob).Parsed?
    ensures start + 4 <= ParseHead(buf, start, eob).next
  {
    hide Has, GetOrig, GetOptByte, GetOptWord;
    var typ := GetU8(buf, Cursor(start, Okay), eob);
    var flags := GetU8(buf, typ.1, eob);
    var size := GetU16(buf, flags.1, eob);
    StickyWord(buf, flags.1, eob);
    var n := flags.0 % 16 + 1;
    var orig := GetOrig(buf, Has(flags.0, ORIGINATOR), n, size.1, eob);
    var limit := GetOptByte(buf, Has(flags.0, HOPLIMIT), orig.1, eob);
    var count := GetOptByte(buf, Has(flags.0, HOPCOUNT), limit.1, eob);
    Sticky(buf, flags.0, n, size.1, orig.1, limit.1, count.1, eob);
  }

  lemma {:induction false} StickyWord(buf: Bytes, c: Cursor, eob: nat)
    requires eob <= |buf|
    ensures var w := GetU16(buf, c, eob); w.1.code == Okay ==> c.code == Okay && w.1.pos == c.pos + 2
  {
  }

  /** An error in an early field is still there behind the last. */
  lemma {:induction false} Sticky(buf: Bytes, flags: Byte, n: nat, c0: Cursor, c1: Cursor, c2: Cursor, c3: Cursor,
                                  eob: nat)
    requires eob <= |buf|
    requires c1 == GetOrig(buf, Has(flags, ORIGINATOR), n, c0, eob).1
    requires c2 == GetOptByte(buf, Has(flags, HOPLIMIT), c1, eob).1
    requires c3 == GetOptByte(buf, Has(flags, HOPCOUNT), c2, eob).1
    ensures GetOptWord(buf, Has(flags, SEQNO), c3, eob).1.code == Okay ==> c0.code == Okay
  {
    hide Has;
  }

  /** The loop over the address blocks of _handle_message. */
  function ParseBlocks(buf: Bytes, pos: nat, end: nat, n: nat): (r: Parsed<seq<BlockIn>>)
    requires end <= |buf| && n <= A.MAX_ADDRLEN
    ensures r.Failed? ==> r.code != Okay
    decreases end - pos
  {
    if pos >= end then Parsed([], pos)
    else
      var addr := A.ParseAddrBlock(buf, pos, end, n);
      if addr.Failed? then Failed(addr.code)
      else
        A.AddrBlockProgress(buf, pos, end, n);
        var tlvs := ParseTlvBlock(buf, addr.next, end);
        if tlvs.Failed? then Failed(tlvs.code)
        else
          var rest := ParseBlocks(buf, tlvs.next, end, n);
          if rest.Failed? then rest else Parsed([BlockIn(addr.value, tlvs.value)] + rest.value, rest.next)
  }

  /** _handle_message up to the consumers; the cursor moves to the end that the header announces. */
  function ParseMessage(buf: Bytes, start: nat, eob: nat): (r: Parsed<MessageIn>)
    requires eob <= |buf|
    ensures r.Failed? ==> r.code != Okay
  {
    var head := ParseHead(buf, start, eob);
    if head.Failed? then Failed(head.code)
    else
      var end := start + head.value.size;
      var tlvs := ParseTlvBlock(buf, head.next, end);
      if tlvs.Failed? then Failed(tlvs.code)
      else
        var blocks := ParseBlocks(buf, tlvs.next, end, head.value.addrLen);
        if blocks.Failed? then Failed(blocks.code)
        else Parsed(MessageIn(head.value, tlvs.value, blocks.value), end)
  }

  /** A message that parses takes six bytes at least and stays inside the packet. */
  lemma {:induction false} MessageProgress(buf: Bytes, start: nat, eob: nat)
    requires eob <= |buf| && ParseMessage(buf, start, eob).Parsed?
    ensures start + 6 <= ParseMessage(buf, start, eob).next <= eob
  {
    hide ParseHead, ParseTlvBlock, ParseBlocks;
    HeadProgress(buf, start, eob);
  }

  lemma {:induction false} BlocksValid(buf: Bytes, pos: nat, end: nat, n: nat)
    requires end <= |buf| && n <= A.MAX_ADDRLEN && ParseBlocks(buf, pos, end, n).Parsed?
    ensures forall i :: 0 <= i < |ParseBlocks(buf, pos, end, n).value| ==>
      A.ValidEntry(ParseBlocks(buf, pos, end, n).value[i].addr)
    decreases end - pos
  {
    hide A.ParseAddrBlock, ParseTlvBlock, A.ValidEntry;
    if end <= pos {
    } else {
      A.AddrBlockProgress(buf, pos, end, n);
      var addr := A.ParseAddrBlock(buf, pos, end, n);
      BlocksValid(buf, ParseTlvBlock(buf, addr.next, end).next, end, n);
    }
  }

  // ---------------------------------------------------------------- there and back

  ghost function HeadOf(m: Message, size: nat): HeadIn {
    HeadIn(m.typ, m.addrLen, m.orig, m.hopLimit, m.hopCount, m.seqno, size)
  }

  ghost function BlocksOf(bs: seq<A.Block>, n: nat): (r: seq<BlockIn>)
    requires A.ValidBlocks(bs, n)
    ensures |r| == |bs| && forall i :: 0 <= i < |bs| ==> r[i] == BlockIn(A.EntryOf(bs[i], n), [])
  {
    seq(|bs|, i requires 0 <= i < |bs| => BlockIn(A.EntryOf(bs[i], n), []))
  }

  ghost function MessageOf(m: Message): MessageIn
    requires ValidMessage(m)
  {
    MessageIn(HeadOf(m, MessageSize(m)), EntriesOf(m.tlvs), BlocksOf(m.blocks, m.addrLen))
  }

  lemma {:induction false} MessageFlagsBack(addrLen: nat, orig: bool, hopLimit: bool, hopCount: bool, seqno: bool)
    requires 1 <= addrLen <= A.MAX_ADDRLEN
    ensures var f := MessageFlags(addrLen, orig, hopLimit, hopCount, seqno);
            && f % 16 + 1 == addrLen && (Has(f, ORIGINATOR) <==> orig) && (Has(f, HOPLIMIT) <==> hopLimit)
            && (Has(f, HOPCOUNT) <==> hopCount) && (Has(f, SEQNO) <==> seqno)
  {
  }

  lemma {:induction false} WordBack(buf: Bytes, pos: nat, eob: nat, n: nat)
    requires n < 65536 && Stands(buf, pos, Word(n)) && pos + 2 <= eob <= |buf|
    ensures GetU16(buf, Cursor(pos, Okay), eob) == (n, Cursor(pos + 2, Okay))
  {
    StandsAt(buf, pos, Word(n), 0);
    StandsAt(buf, pos, Word(n), 1);
    HighLow(n);
  }

  lemma {:induction false} OptByteBack(buf: Bytes, pos: nat, eob: nat, o: Option<Byte>)
    requires Stands(buf, pos, OptByte(o)) && pos + |OptByte(o)| <= eob <= |buf|
    ensures GetOptByte(buf, o.Some?, Cursor(pos, Okay), eob) == (o, Cursor(pos + |OptByte(o)|, Okay))
  {
    if o.Some? { StandsAt(buf, pos, [o.value], 0); }
  }

  lemma {:induction false} OptWordBack(buf: Bytes, pos: nat, eob: nat, o: Option<nat>)
    requires o.Some? ==> o.value < 65536
    requires Stands(buf, pos, OptWord(o)) && pos + |OptWord(o)| <= eob <= |buf|
    ensures GetOptWord(buf, o.Some?, Cursor(pos, Okay), eob) == (o, Cursor(pos + |OptWord(o)|, Okay))
  {
    if o.Some? { WordBack(buf, pos, eob, o.value); }
  }

  lemma {:induction false} OrigBack(buf: Bytes, pos: nat, eob: nat, o: Option<Bytes>, n: nat)
    requires o.Some? ==> |o.value| == n
    requires Stands(buf, pos, OptBytes(o)) && pos + |OptBytes(o)| <= eob <= |buf|
    ensures GetOrig(buf, o.Some?, n, Cursor(pos, Okay), eob) == (o, Cursor(pos + |OptBytes(o)|, Okay))
  {
  }

  /** Where the fields of a header stand. */
  lemma {:induction false} HeadStands(buf: Bytes, pos: nat, m: Message, size: nat, tlvSize: nat)
    requires 1 <= m.addrLen <= A.MAX_ADDRLEN && Stands(buf, pos, HeaderBytes(m, size, tlvSize))
    ensures pos + 2 <= |buf| && buf[pos] == m.typ && buf[pos + 1] == FlagsOf(m) && Stands(buf, pos + 2, Word(size))
    ensures var o, l, h, s := OptBytes(m.orig), OptByte(m.hopLimit), OptByte(m.hopCount), OptWord(m.seqno);
            && Stands(buf, pos + 4, o) && Stands(buf, pos + 4 + |o|, l) && Stands(buf, pos + 4 + |o| + |l|, h)
            && Stands(buf, pos + 4 + |o| + |l| + |h|, s) && Stands(buf, pos + 4 + |o| + |l| + |h| + |s|, Word(tlvSize))
  {
    hide Word, OptBytes, OptByte, OptWord, FlagsOf;
    var f := FlagsOf(m);
    var o, l, h, s := OptBytes(m.orig), OptByte(m.hopLimit), OptByte(m.hopCount), OptWord(m.seqno);
    StandsHead(buf, pos, m.typ, [f] + (Word(size) + (o + (l + (h + (s + Word(tlvSize)))))));
    StandsHead(buf, pos + 1, f, Word(size) + (o + (l + (h + (s + Word(tlvSize))))));
    StandsSplit(buf, pos + 2, Word(size), o + (l + (h + (s + Word(tlvSize)))));
    StandsSplit(buf, pos + 4, o, l + (h + (s + Word(tlvSize))));
    StandsSplit(buf, pos + 4 + |o|, l, h + (s + Word(tlvSize)));
    StandsSplit(buf, pos + 4 + |o| + |l|, h, s + Word(tlvSize));
    StandsSplit(buf, pos + 4 + |o| + |l| + |h|, s, Word(tlvSize));
  }

  lemma {:induction false} HeadRoundTrip(buf: Bytes, pos: nat, eob: nat, m: Message, size: nat, tlvSize: nat)
    requires 1 <= m.addrLen <= A.MAX_ADDRLEN && (m.orig.Some? ==> |m.orig.value| == m.addrLen)
    requires (m.seqno.Some? ==> m.seqno.value < 65536) && HeaderSizeOf(m) <= size < 65536
    requires Stands(buf, pos, HeaderBytes(m, size, tlvSize)) && pos + size <= eob <= |buf|
    ensures ParseHead(buf, pos, eob) == Parsed(HeadOf(m, size), pos + HeaderSizeOf(m) - 2)
    ensures Stands(buf, pos + HeaderSizeOf(m) - 2, Word(tlvSize))
  {
    hide Stands, Has, HeaderBytes, Word, MessageFlags, GetOrig, GetOptByte, GetOptWord, OptBytes, OptByte, OptWord,
         GetU16, HeaderSizeOf;
    var o, l, h := OptBytes(m.orig), OptByte(m.hopLimit), OptByte(m.hopCount);
    HeaderParts(m);
    HeadStands(buf, pos, m, size, tlvSize);
    MessageFlagsBack(m.addrLen, m.orig.Some?, m.hopLimit.Some?, m.hopCount.Some?, m.seqno.Some?);
    WordBack(buf, pos + 2, eob, size);
    OrigBack(buf, pos + 4, eob, m.orig, m.addrLen);
    OptByteBack(buf, pos + 4 + |o|, eob, m.hopLimit);
    OptByteBack(buf, pos + 4 + |o| + |l|, eob, m.hopCount);
    OptWordBack(buf, pos + 4 + |o| + |l| + |h|, eob, m.seqno);
  }

  lemma {:induction false} HeaderParts(m: Message)
    requires m.orig.Some? ==> |m.orig.value| == m.addrLen
    ensures 6 + |OptBytes(m.orig)| + |OptByte(m.hopLimit)| + |OptByte(m.hopCount)| + |OptWord(m.seqno)|
      == HeaderSizeOf(m)
  {
  }

  lemma {:induction false} BlocksRoundTrip(buf: Bytes, pos: nat, bs: seq<A.Block>, n: nat)
    requires A.ValidBlocks(bs, n) && n <= A.MAX_ADDRLEN
    requires Stands(buf, pos, A.BlocksBytes(bs, n))
    ensures ParseBlocks(buf, pos, pos + |A.BlocksBytes(bs, n)|, n)
      == Parsed(BlocksOf(bs, n), pos + |A.BlocksBytes(bs, n)|)
    decreases |bs|
  {
    hide A.BlockBytes, A.ParseAddrBlock, ParseTlvBlock, A.ValidBlock, Stands, A.EntryOf;
    StandsInside(buf, pos, A.BlocksBytes(bs, n));
    if bs == [] {
    } else {
      var b, rest := bs[0], A.BlocksBytes(bs[1..], n);
      var bb, end := A.BlockBytes(b, n), pos + |A.BlocksBytes(bs, n)|;
      assert bb + [0, 0] + rest == bb + ([0, 0] + rest);
      StandsSplit(buf, pos, bb, [0, 0] + rest);
      StandsSplit(buf, pos + |bb|, [0, 0], rest);
      A.BlockParses(buf, pos, end, b, n);
      A.AddrBlockProgress(buf, pos, end, n);
      NoTlvs(buf, pos + |bb|, end);
      BlocksRoundTrip(buf, pos + |bb| + 2, bs[1..], n);
      assert BlocksOf(bs, n) == [BlockIn(A.EntryOf(b, n), [])] + BlocksOf(bs[1..], n);
    }
  }

  lemma {:induction false} NoTlvs(buf: Bytes, pos: nat, eob: nat)
    requires Stands(buf, pos, [0, 0]) && pos + 2 <= eob <= |buf|
    ensures ParseTlvBlock(buf, pos, eob) == Parsed([], pos + 2)
  {
    assert TlvsBytes([]) == [] && TlvBlockBytes([]) == [0, 0];
    TlvBlockRoundTrip(buf, pos, eob, []);
    assert EntriesOf([]) == [];
  }

  /** A written message is read back as the same header fields, TLVs and address blocks, consuming
      exactly its bytes. */
  lemma {:induction false} MessageRoundTrip(buf: Bytes, pos: nat, eob: nat, m: Message)
    requires ValidMessage(m) && Stands(buf, pos, MessageBytes(m)) && pos + |MessageBytes(m)| <= eob <= |buf|
    ensures ParseMessage(buf, pos, eob) == Parsed(MessageOf(m), pos + |MessageBytes(m)|)
  {
    hide Stands, HeaderBytes, TlvsBytes, A.BlocksBytes, HeaderSizeOf, ParseHead, ParseTlvBlock, ParseBlocks,
         TlvBlockBytes, Word,
         EntriesOf, BlocksOf, Short, A.ValidBlocks;
    MessageBytesSize(m);
    var t, b := TlvsBytes(m.tlvs), A.BlocksBytes(m.blocks, m.addrLen);
    var hb, hs := HeaderBytes(m, MessageSize(m), |t|), HeaderSizeOf(m);
    StandsSplit(buf, pos, hb, t + b);
    StandsSplit(buf, pos + hs, t, b);
    HeadRoundTrip(buf, pos, eob, m, MessageSize(m), |t|);
    var end := pos + MessageSize(m);
    TlvsAt(buf, pos + hs - 2, m.tlvs);
    TlvBlockRoundTrip(buf, pos + hs - 2, end, m.tlvs);
    BlocksRoundTrip(buf, pos + hs + |t|, m.blocks, m.addrLen);
  }

  lemma {:induction false} TlvsAt(buf: Bytes, pos: nat, ts: seq<Tlv>)
    requires Stands(buf, pos, Word(|TlvsBytes(ts)|)) && Stands(buf, pos + 2, TlvsBytes(ts))
    ensures Stands(buf, pos, TlvBlockBytes(ts)) && |TlvBlockBytes(ts)| == 2 + |TlvsBytes(ts)|
  {
    StandsSplit(buf, pos, Word(|TlvsBytes(ts)|), TlvsBytes(ts));
  }
}
