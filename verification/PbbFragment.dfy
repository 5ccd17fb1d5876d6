/** One message in the writer's buffer: header fields, TLVs, address blocks, and the fragment that
    _finalize_message_fragment of lib/packetbb/pbb_msg_generator.c copies out of it. */
module PbbFragment {
  import opened Basics
  import opened PbbBytes
  import opened PbbTlvBlock
  import opened PbbTlvWriter
  import opened PbbMessage
  import A = PbbAddr
  import W = PbbAddrWriter

  class MessageWriter {
    const msg: TlvWriter
    const typ: Byte
    var addrLen: nat
    var hasOrig: bool
    var orig: Bytes
    var hasHopLimit: bool
    var hopLimit: Byte
    var hasHopCount: bool
    var hopCount: Byte
    var hasSeqno: bool
    var seqno: nat
    var binAddrSize: nat

    ghost predicate Valid()
      reads this, msg, msg.buffer
    {
      msg.Valid() && Counted()
    }

    /** The header length is counted right. */
    ghost predicate Counted()
      reads this, msg
    {
      && 1 <= addrLen <= A.MAX_ADDRLEN && |orig| == A.MAX_ADDRLEN && seqno < 65536
      && msg.header == HeaderSize(addrLen, hasOrig, hasHopLimit, hasHopCount, hasSeqno)
    }

    /** The message that the fields describe. */
    function Described(tlvs: seq<Tlv>, blocks: seq<A.Block>): (m: Message)
      requires |orig| == A.MAX_ADDRLEN && addrLen <= A.MAX_ADDRLEN
      reads this
    {
      Message(
        typ,
        addrLen,
        if hasOrig then Some(orig[..addrLen]) else None,
        if hasHopLimit then Some(hopLimit) else None,
        if hasHopCount then Some(hopCount) else None,
        if hasSeqno then Some(seqno) else None,
        tlvs,
        blocks)
    }

    /** The start of pbb_writer_create_message: an empty message of maxSize bytes at most. */
    constructor (typ: Byte, addrLen: nat, mtu: nat, maxSize: nat)
      requires 1 <= addrLen <= A.MAX_ADDRLEN && maxSize <= mtu
      ensures Valid() && fresh(msg) && fresh(msg.buffer) && msg.buffer.Length == mtu && msg.max == maxSize
      ensures this.typ == typ && this.addrLen == addrLen
      ensures msg.early == [] && msg.late == [] && msg.added == 0 && msg.reserved == 0 && msg.used == 0
    {
      this.typ, this.addrLen := typ, addrLen;
      hasOrig, hasHopLimit, hasHopCount, hasSeqno := false, false, false, false;
      orig, hopLimit, hopCount, seqno := A.Zeros(A.MAX_ADDRLEN), 0, 0, 0;
      binAddrSize := 0;
      var w := new TlvWriter(mtu);
      msg := w;
      new;
      msg.Init(maxSize);
      msg.SetHeader(6);
    }

    /** pbb_writer_set_msg_header */
    method SetHeader(orig: bool, hopCount: bool, hopLimit: bool, seqno: bool)
      requires Valid() && msg.added == 0 && msg.reserved == 0
      modifies this`hasOrig, this`hasHopLimit, this`hasHopCount, this`hasSeqno, msg`header
      ensures Valid() && hasOrig == orig && hasHopLimit == hopLimit && hasHopCount == hopCount && hasSeqno == seqno
    {
      hasOrig := orig;
      hasHopLimit := hopLimit;
      hasHopCount := hopCount;
      hasSeqno := seqno;
      var header := 6;
      if orig { header := header + addrLen; }
      if hopLimit { header := header + 1; }
      if hopCount { header := header + 1; }
      if seqno { header := header + 2; }
      msg.SetHeader(header);
    }

    /** pbb_writer_set_msg_addrlen, before or after the header is set up */
    method SetAddrLen(n: nat)
      requires Valid() && 1 <= n <= A.MAX_ADDRLEN && msg.added == 0 && msg.reserved == 0
      modifies this`addrLen, msg`header
      ensures Valid() && addrLen == n
    {
      if hasOrig && addrLen != n {
        msg.SetHeader(msg.header + n - addrLen);
      }
      addrLen := n;
    }

    /** pbb_writer_set_msg_originator: as many bytes as an address has. */
    method SetOriginator(o: Bytes)
      requires Valid() && |o| == addrLen
      modifies this`orig
      ensures Valid() && orig[..addrLen] == o
    {
      orig := o + orig[addrLen..];
    }

    /** _write_msgheader: the header goes in front of the TLVs and fills the room that was counted for it. */
    method WriteHeader(ghost m: Message)
      requires Counted() && m == Described(m.tlvs, m.blocks) && msg.header <= msg.buffer.Length
      modifies msg.buffer
      ensures |HeaderBytes(m, msg.header + msg.added + msg.used + binAddrSize, msg.added + msg.used)| == msg.header
      ensures msg.buffer[..] == Overwrite(old(msg.buffer[..]), 0,
                HeaderBytes(m, msg.header + msg.added + msg.used + binAddrSize, msg.added + msg.used))
    {
      hide Overwrite, MessageFlags, Word, OptBytes, OptByte, OptWord, HeaderBytes, HeaderSize;
      var size, tlvSize := msg.header + msg.added + msg.used + binAddrSize, msg.added + msg.used;
      ghost var was := msg.buffer[..];
      ghost var o, l, h, s := OptBytes(m.orig), OptByte(m.hopLimit), OptByte(m.hopCount), OptWord(m.seqno);
      HeaderParts(m);
      Parts(orig[..addrLen], hopLimit, hopCount, seqno);
      var flags := MessageFlags(addrLen, hasOrig, hasHopLimit, hasHopCount, hasSeqno);
      var ptr := PutFirst(msg.buffer, typ, flags, was);
      ghost var done: Bytes := [typ, flags];
      ptr := W.Put(msg.buffer, ptr, Word(size), was, 0, done);
      done := done + Word(size);
      ptr := PutIf(msg.buffer, ptr, hasOrig, orig[..addrLen], was, done);
      done := done + o;
      ptr := PutIf(msg.buffer, ptr, hasHopLimit, [hopLimit], was, done);
      done := done + l;
      ptr := PutIf(msg.buffer, ptr, hasHopCount, [hopCount], was, done);
      done := done + h;
      ptr := PutIf(msg.buffer, ptr, hasSeqno, Word(seqno), was, done);
      done := done + s;
      ptr := W.Put(msg.buffer, ptr, Word(tlvSize), was, 0, done);
      LayOut(m, size, tlvSize);
    }

    /** The providers' finishMessageTLVs callbacks: set TLVs as long as they fit the reserved room. */
    method SetLate(late: seq<Tlv>)
      requires Valid()
      modifies msg`used, msg`late, msg.buffer
      ensures Valid() && msg.late == Accepted(late, msg.reserved)
      ensures SameFrom(old(msg.buffer[..]), msg.buffer[..], msg.header + msg.added + msg.used)
    {
      hide TlvsBytes, Stands, HeaderSize, Accepted, SameFrom;
      msg.ClearLate();
      SetEach(msg, late);
      assert [] + msg.late == msg.late;
    }

    /** Write the address blocks behind the TLVs and the header in front of them. */
    method Emit(blocks: seq<A.Block>, ghost m: Message)
      requires Valid() && A.ValidBlocks(blocks, addrLen) && m == Described(msg.early + msg.late, blocks)
      requires msg.header + msg.added + msg.used + |A.BlocksBytes(blocks, addrLen)| <= msg.buffer.Length
      modifies msg.buffer, this`binAddrSize
      ensures Valid() && binAddrSize == |A.BlocksBytes(blocks, addrLen)|
      ensures var t, at := TlvsBytes(m.tlvs), msg.header + msg.added + msg.used;
              && msg.buffer[..at] == HeaderBytes(m, at + binAddrSize, |t|) + t
              && msg.buffer[at..at + binAddrSize] == A.BlocksBytes(blocks, addrLen)
              && SameFrom(old(msg.buffer[..]), msg.buffer[..], at + binAddrSize)
    {
      hide TlvsBytes, Stands, A.BlocksBytes, HeaderBytes, HeaderSize, Overwrite, A.ValidBlocks;
      ghost var t, bytes := TlvsBytes(m.tlvs), A.BlocksBytes(blocks, addrLen);
      ghost var was, head := msg.buffer[..], HeaderBytes(m, msg.header + |t| + |bytes|, |t|);
      binAddrSize := W.WriteBlocks(msg.buffer, msg.header + msg.added + msg.used, blocks, addrLen);
      WriteHeader(m);
      Assembly(was, msg.buffer[..], t, bytes, head);
    }

    /** _finalize_message_fragment up to the interfaces: set the late TLVs, write address blocks and
        header, and copy the fragment out of the buffer.  The address blocks are written behind the
        late TLVs but copied from behind the reserved room, so what the buffer held before shows
        through a gap in that room (GapMatters); the fragment is the message if that room is full or
        there is no address. */
    method Finalize(late: seq<Tlv>, blocks: seq<A.Block>) returns (fragment: Bytes, ghost m: Message)
      requires Valid() && A.ValidBlocks(blocks, addrLen)
      requires msg.header + msg.added + msg.reserved + |A.BlocksBytes(blocks, addrLen)| <= msg.buffer.Length
      modifies msg`used, msg`late, msg.buffer, this`binAddrSize
      ensures Valid() && msg.used == 0 && binAddrSize == 0
      ensures m == Described(msg.early + Accepted(late, msg.reserved), blocks)
      ensures CutOut(old(msg.buffer[..]), m, msg.reserved - |TlvsBytes(Accepted(late, msg.reserved))|, fragment)
      ensures |TlvsBytes(Accepted(late, msg.reserved))| == msg.reserved || blocks == [] ==>
                ValidMessage(m) ==> fragment == MessageBytes(m)
    {
      hide TlvsBytes, Stands, A.BlocksBytes, HeaderBytes, HeaderSize, ValidMessage, MessageBytes, A.ValidBlocks;
      hide SameFrom, CutOut, Accepted, TakenOut, Short;
      ghost var was := msg.buffer[..];
      SetLate(late);
      ghost var mid := msg.buffer[..];
      m := Described(msg.early + msg.late, blocks);
      Emit(blocks, m);
      SameFromOn(was, mid, msg.buffer[..], msg.header + msg.added + msg.used,
        msg.header + msg.added + msg.used + binAddrSize);
      fragment := TakeOut(m, was);
      binAddrSize := 0;
      msg.ClearLate();
    }

    /** The two memcpy calls for each interface. */
    method TakeOut(ghost m: Message, ghost was: Bytes) returns (fragment: Bytes)
      requires Counted() && m == Described(m.tlvs, m.blocks) && A.ValidBlocks(m.blocks, m.addrLen)
      requires msg.used <= msg.reserved && msg.header + msg.added + msg.reserved + binAddrSize <= msg.buffer.Length
      requires binAddrSize == |A.BlocksBytes(m.blocks, m.addrLen)| && msg.added + msg.used == |TlvsBytes(m.tlvs)|
      requires var at := msg.header + msg.added + msg.used;
               && msg.buffer[..at] == HeaderBytes(m, at + binAddrSize, |TlvsBytes(m.tlvs)|) + TlvsBytes(m.tlvs)
               && msg.buffer[at..at + binAddrSize] == A.BlocksBytes(m.blocks, m.addrLen)
               && SameFrom(was, msg.buffer[..], at + binAddrSize)
      ensures CutOut(was, m, msg.reserved - msg.used, fragment)
      ensures msg.used == msg.reserved || m.blocks == [] ==> ValidMessage(m) ==> fragment == MessageBytes(m)
    {
      hide A.BlocksBytes, HeaderSize, A.ValidBlocks, HeaderBytes, TlvsBytes, SameFrom, ValidMessage, MessageBytes,
           TakenOut;
      ghost var t, b := TlvsBytes(m.tlvs), A.BlocksBytes(m.blocks, m.addrLen);
      ghost var head := HeaderBytes(m, msg.header + |t| + |b|, |t|);
      fragment := msg.buffer[..msg.header + msg.added + msg.used]
                + msg.buffer[msg.header + msg.added + msg.reserved..msg.header + msg.added + msg.reserved
                  + binAddrSize];
      OnTop(was, msg.buffer[..], head, t, b);
      TakenOutIs(was, head, t, b, msg.reserved - msg.used);
      if ValidMessage(m) {
        Whole(m);
        if msg.used == msg.reserved || m.blocks == [] { NoGap(was, head, t, b, msg.reserved - msg.used); }
      }
    }
  }

  lemma {:induction false} Whole(m: Message)
    requires ValidMessage(m)
    ensures var t, b := TlvsBytes(m.tlvs), A.BlocksBytes(m.blocks, m.addrLen);
            MessageBytes(m) == HeaderBytes(m, HeaderSizeOf(m) + |t| + |b|, |t|) + t + b
    ensures m.blocks == [] ==> A.BlocksBytes(m.blocks, m.addrLen) == []
  {
    hide HeaderBytes, HeaderSizeOf, TlvsBytes, Short, A.BlockBytes, A.ValidBlocks;
    var t, b := TlvsBytes(m.tlvs), A.BlocksBytes(m.blocks, m.addrLen);
    var h := HeaderBytes(m, HeaderSizeOf(m) + |t| + |b|, |t|);
    assert h + (t + b) == h + t + b;
  }

  method PutFirst(buf: array<Byte>, typ: Byte, flags: Byte, ghost was: Bytes) returns (next: nat)
    requires 2 <= buf.Length && buf[..] == was
    modifies buf
    ensures next == 2 && buf[..] == Overwrite(was, 0, [typ, flags])
  {
    W.OverwriteNothing(was, 0);
    assert [] + [typ, flags] == [typ, flags];
    next := W.Put(buf, 0, [typ, flags], was, 0, []);
  }

  method PutIf(buf: array<Byte>, ptr: nat, present: bool, b: Bytes, ghost was: Bytes, ghost done: Bytes)
    returns (next: nat)
    requires |was| == buf.Length && ptr == |done| && ptr + (if present then |b| else 0) <= buf.Length
    requires buf[..] == Overwrite(was, 0, done)
    modifies buf
    ensures next == ptr + (if present then |b| else 0)
    ensures buf[..] == Overwrite(was, 0, done + if present then b else [])
  {
    next := ptr;
    if present {
      next := W.Put(buf, ptr, b, was, 0, done);
    } else {
      assert done + [] == done;
    }
  }

  lemma {:induction false} Parts(orig: Bytes, hopLimit: Byte, hopCount: Byte, seqno: nat)
    ensures OptBytes(None) == [] && OptByte(None) == [] && OptWord(None) == []
    ensures OptBytes(Some(orig)) == orig && OptByte(Some(hopLimit)) == [hopLimit]
    ensures OptByte(Some(hopCount)) == [hopCount] && OptWord(Some(seqno)) == Word(seqno)
  {
  }

  /** The buffer after address blocks and header were written around the TLVs. */
  lemma {:induction false} Assembly(was: Bytes, buf: Bytes, tlvs: Bytes, blocks: Bytes, head: Bytes)
    requires |head| + |tlvs| + |blocks| <= |was| && (|tlvs| > 0 ==> Stands(was, |head|, tlvs))
    requires buf == Overwrite(Overwrite(was, |head| + |tlvs|, blocks), 0, head)
    ensures buf[..|head| + |tlvs|] == head + tlvs
    ensures buf[|head| + |tlvs|..|head| + |tlvs| + |blocks|] == blocks
    ensures |tlvs| > 0 ==> Stands(buf, |head|, tlvs)
    ensures SameFrom(was, buf, |head| + |tlvs| + |blocks|)
  {
    if |tlvs| > 0 {
      StandsStays(was, |head|, tlvs, |head| + |tlvs|, blocks);
      StandsStays(Overwrite(was, |head| + |tlvs|, blocks), |head|, tlvs, 0, head);
    }
    StandsStays(Overwrite(was, |head| + |tlvs|, blocks), |head| + |tlvs|, blocks, 0, head);
    assert buf[..|head|] == head;
    assert buf[..|head| + |tlvs|] == buf[..|head|] + buf[|head|..|head| + |tlvs|];
  }

  lemma {:induction false} LayOut(m: Message, size: nat, tlvSize: nat)
    requires 1 <= m.addrLen <= A.MAX_ADDRLEN
    ensures [m.typ, FlagsOf(m)] + Word(size) + OptBytes(m.orig) + OptByte(m.hopLimit) + OptByte(m.hopCount)
      + OptWord(m.seqno)
            + Word(tlvSize) == HeaderBytes(m, size, tlvSize)
  {
    hide Word, OptBytes, OptByte, OptWord, FlagsOf;
    assert [m.typ, FlagsOf(m)] == [m.typ] + [FlagsOf(m)];
  }

  /** What the two memcpy calls take out of a buffer that held was before head, TLVs and address
      blocks were written into it, when gap bytes of the reserved room are unused. */
  function TakenOut(was: Bytes, head: Bytes, tlvs: Bytes, blocks: Bytes, gap: nat): Bytes
    requires |head| + |tlvs| + |blocks| + gap <= |was|
  {
    var at := |head| + |tlvs|;
    var buf := Overwrite(was, 0, head + tlvs + blocks);
    buf[..at] + buf[at + gap..at + gap + |blocks|]
  }

  /** The fragment of m that goes out when gap bytes of the reserved room are unused and the buffer held
      was before. */
  ghost predicate CutOut(was: Bytes, m: Message, gap: int, fragment: Bytes) {
    && 1 <= m.addrLen <= A.MAX_ADDRLEN && A.ValidBlocks(m.blocks, m.addrLen)
    && var t, b := TlvsBytes(m.tlvs), A.BlocksBytes(m.blocks, m.addrLen);
       var head := HeaderBytes(m, HeaderSizeOf(m) + |t| + |b|, |t|);
       gap >= 0 && |head| + |t| + |b| + gap <= |was| && fragment == TakenOut(was, head, t, b, gap)
  }

  lemma {:induction false} OnTop(was: Bytes, buf: Bytes, head: Bytes, tlvs: Bytes, blocks: Bytes)
    requires |head| + |tlvs| + |blocks| <= |buf| && SameFrom(was, buf, |head| + |tlvs| + |blocks|)
    requires buf[..|head| + |tlvs|] == head + tlvs
    requires buf[|head| + |tlvs|..|head| + |tlvs| + |blocks|] == blocks
    ensures buf == Overwrite(was, 0, head + tlvs + blocks)
  {
    var at := |head| + |tlvs|;
    assert buf == buf[..at] + buf[at..at + |blocks|] + buf[at + |blocks|..];
    assert was[at + |blocks|..] == buf[at + |blocks|..];
  }

  lemma {:induction false} TakenOutIs(was: Bytes, head: Bytes, tlvs: Bytes, blocks: Bytes, gap: nat)
    requires |head| + |tlvs| + |blocks| + gap <= |was|
    ensures var at, buf := |head| + |tlvs|, Overwrite(was, 0, head + tlvs + blocks);
            TakenOut(was, head, tlvs, blocks, gap) == buf[..at] + buf[at + gap..at + gap + |blocks|]
  {
  }

  /** Whatever the buffer held before, the message goes out. */
  ghost predicate AlwaysWhole(n: nat, m: Message, gap: nat)
    requires ValidMessage(m)
  {
    forall was: Bytes, fragment: Bytes :: |was| == n && CutOut(was, m, gap, fragment) ==> fragment == MessageBytes(m)
  }

  /** The fragment is the message, whatever the buffer held before, if and only if the reserved room
      is fully used or there is no address block. */
  lemma {:induction false} GapMatters(n: nat, m: Message, gap: nat)
    requires ValidMessage(m) && MessageSize(m) + gap <= n
    ensures AlwaysWhole(n, m, gap) <==> gap == 0 || m.blocks == []
  {
    hide HeaderBytes, HeaderSizeOf, TlvsBytes, A.BlocksBytes, A.ValidBlocks, TakenOut, Short;
    var t, b := TlvsBytes(m.tlvs), A.BlocksBytes(m.blocks, m.addrLen);
    var head := HeaderBytes(m, HeaderSizeOf(m) + |t| + |b|, |t|);
    MessageBytesSize(m);
    Whole(m);
    if gap == 0 || m.blocks == [] {
      forall was: Bytes, fragment: Bytes | |was| == n && CutOut(was, m, gap, fragment)
        ensures fragment == MessageBytes(m) {
        NoGap(was, head, t, b, gap);
      }
    } else {
      BlocksHaveBytes(m.blocks, m.addrLen);
      var was := Spoiler(n, head, t, b, gap);
      assert CutOut(was, m, gap, TakenOut(was, head, t, b, gap));
    }
  }

  lemma {:induction false} BlocksHaveBytes(blocks: seq<A.Block>, n: nat)
    requires A.ValidBlocks(blocks, n) && blocks != []
    ensures A.BlocksBytes(blocks, n) != []
  {
  }

  lemma {:induction false} NoGap(was: Bytes, head: Bytes, tlvs: Bytes, blocks: Bytes, gap: nat)
    requires |head| + |tlvs| + |blocks| + gap <= |was| && (gap == 0 || blocks == [])
    ensures TakenOut(was, head, tlvs, blocks, gap) == head + tlvs + blocks
  {
    var at, all := |head| + |tlvs|, head + tlvs + blocks;
    assert Overwrite(was, 0, all)[..at] == head + tlvs;
    assert Overwrite(was, 0, all)[at..at + |blocks|] == blocks;
  }

  /** An old buffer that shows through the gap. */
  lemma {:induction false} Spoiler(n: nat, head: Bytes, tlvs: Bytes, blocks: Bytes, gap: nat) returns (was: Bytes)
    requires |head| + |tlvs| + |blocks| + gap <= n && gap > 0 && blocks != []
    ensures |was| == n && TakenOut(was, head, tlvs, blocks, gap) != head + tlvs + blocks
  {
    var at, all, k := |head| + |tlvs|, head + tlvs + blocks, |blocks| - 1;
    var other: Byte := if blocks[k] == 0 then 1 else 0;
    was := seq(n, _ => other);
    assert Overwrite(was, 0, all)[at + gap + k] == other;
    assert TakenOut(was, head, tlvs, blocks, gap)[at + k] == other;
    assert all[at + k] == blocks[k];
  }
}
