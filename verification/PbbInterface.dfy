/** One outgoing interface of the writer: fragments are packed into packets of at most mtu bytes
    (lib/packetbb/pbb_pkt_generator.c and the loop over the interfaces in
    lib/packetbb/pbb_msg_generator.c). */
module PbbInterface {
  import opened Basics
  import opened PbbBytes
  import opened PbbTlvBlock
  import opened PbbTlvWriter
  import opened PbbMessage
  import opened PbbPacket
  import W = PbbAddrWriter

  /** What one packet carries. */
  datatype Sent = Sent(seqno: Option<nat>, fragments: seq<Bytes>)

  ghost function FragmentsOf(ps: seq<Sent>): (r: seq<seq<Bytes>>)
    ensures |r| == |ps| && forall i :: 0 <= i < |ps| ==> r[i] == ps[i].fragments
  {
    seq(|ps|, i requires 0 <= i < |ps| => ps[i].fragments)
  }

  class Interface {
    const mtu: nat
    const withSeqno: bool
    const handlerTlvs: seq<Tlv>  // what the packet handlers try to add to every packet
    const pkt: TlvWriter
    var isFlushed: bool
    var binMsgsSize: nat
    var seqno: nat
    var wire: seq<Bytes>  // the buffers handed to sendPacket

    ghost var sent: seq<Sent>
    ghost var pending: seq<Bytes>

    /** The bytes counted for the packet header. */
    ghost function HeaderRoom(): nat { if withSeqno then 5 else 3 }

    /** The TLVs of every packet: those of the handlers' that fit. */
    ghost function Carried(): seq<Tlv> {
      if HeaderRoom() <= mtu then Accepted(handlerTlvs, mtu - HeaderRoom()) else []
    }

    /** The bytes in front of the messages of the packet under construction. */
    ghost function Base(): nat { HeaderRoom() + |TlvsBytes(Carried())| }

    ghost predicate IsOpen()
      reads this, pkt, pkt.buffer
    {
      && pkt.Valid() && pkt.max == mtu && pkt.header == (if withSeqno then 5 else 3)
      && pkt.early == Carried() && pkt.late == [] && pkt.reserved == 0
      && binMsgsSize == |Concat(pending)| && Base() + binMsgsSize <= mtu
      && Stands(pkt.buffer[..], Base(), Concat(pending))
    }

    /** Every packet on the wire is a header, the handlers' TLVs and whole fragments, and obeys the MTU. */
    ghost predicate Posted()
      reads this`sent, this`wire
    {
      && |sent| == |wire|
      && (forall i :: 0 <= i < |wire| ==> wire[i] == PacketBytes(sent[i].seqno, Carried(), Concat(sent[i].fragments)))
      && (forall i :: 0 <= i < |wire| ==> |wire[i]| <= mtu)
      && (forall i :: 0 <= i < |sent| ==>
            sent[i].seqno.Some? == withSeqno && (withSeqno ==> sent[i].seqno.value < 65536))
    }

    ghost predicate Valid()
      reads this, pkt, pkt.buffer
    {
      && pkt.buffer.Length == mtu && Base() <= mtu && seqno < 65536 && Posted()
      && (if isFlushed then binMsgsSize == 0 && pending == [] && pkt.max <= mtu else IsOpen())
    }

    /** Everything that was ever appended, in order: first what was sent, then what waits. */
    ghost function History(): seq<Bytes>
      reads this
    {
      Concat(FragmentsOf(sent)) + pending
    }

    constructor (mtu: nat, withSeqno: bool, handlerTlvs: seq<Tlv>)
      requires (if withSeqno then 5 else 3) <= mtu
      ensures Valid() && isFlushed && wire == [] && History() == [] && fresh(pkt) && fresh(pkt.buffer)
      ensures this.mtu == mtu && this.withSeqno == withSeqno && this.handlerTlvs == handlerTlvs
      ensures HeaderRoom() + |TlvsBytes(handlerTlvs)| <= mtu ==> Carried() == handlerTlvs
    {
      this.mtu, this.withSeqno, this.handlerTlvs := mtu, withSeqno, handlerTlvs;
      isFlushed, binMsgsSize, seqno, wire := true, 0, 0, [];
      sent, pending := [], [];
      var w := new TlvWriter(mtu);
      pkt := w;
      new;
      assert FragmentsOf([]) == [];
      CarriedFits();
    }

    lemma {:induction false} CarriedIs()
      requires HeaderRoom() <= mtu
      ensures [] + Accepted(handlerTlvs, mtu - HeaderRoom()) == Carried()
    {
    }

    lemma {:induction false} CarriedFits()
      requires HeaderRoom() <= mtu
      ensures Base() <= mtu
      ensures HeaderRoom() + |TlvsBytes(handlerTlvs)| <= mtu ==> Carried() == handlerTlvs
    {
      AcceptedFits(handlerTlvs, mtu - HeaderRoom());
      if HeaderRoom() + |TlvsBytes(handlerTlvs)| <= mtu { AllAccepted(handlerTlvs, mtu - HeaderRoom()); }
    }

    /** _pbb_writer_begin_packet */
    method Begin()
      requires Valid() && binMsgsSize == 0 && pending == []
      modifies this`isFlushed, pkt, pkt.buffer
      ensures Valid() && !isFlushed
    {
      hide TlvsBytes, PacketBytes, Concat, FragmentsOf, Accepted, Carried, Posted, Stands;
      CarriedFits();
      ConcatNone<Byte>();
      pkt.Init(mtu);
      pkt.SetHeader(if withSeqno then 5 else 3);
      NoTlvBytes();
      AddEach(pkt, handlerTlvs);
      CarriedIs();
      Nothing(pkt.buffer[..], Base(), []);
      isFlushed := false;
    }

    /** The part of pbb_writer_create_message for one interface: open a packet if there is none, and
        report how long a fragment may be. */
    method Open() returns (room: nat)
      requires Valid()
      modifies this`isFlushed, pkt, pkt.buffer
      ensures Valid() && !isFlushed && room == mtu - Base() && History() == old(History())
    {
      if isFlushed {
        Begin();
      }
      NoTlvBytes();
      room := mtu - (pkt.header + pkt.added + pkt.reserved);
    }

    /** _write_pktheader */
    method WriteHeader() returns (ghost head: Bytes)
      requires IsOpen() && pkt.buffer.Length == mtu && seqno < 65536
      modifies pkt.buffer
      ensures head == PacketHeader(if withSeqno then Some(seqno) else None, pkt.added + pkt.used)
      ensures |head| <= pkt.header && pkt.buffer[..] == Overwrite(old(pkt.buffer[..]), 0, head)
    {
      hide Overwrite, Stands, PacketFlags, PacketHeader, TlvsBytes, High, Low;
      ghost var was := pkt.buffer[..];
      var len := pkt.added + pkt.used;
      var flags := PacketFlags(withSeqno, len > 0);
      W.OverwriteNothing(was, 0);
      head := [flags];
      assert [] + head == head;
      var ptr := W.Put(pkt.buffer, 0, [flags], was, 0, []);
      if withSeqno {
        ptr := W.Put(pkt.buffer, ptr, Word(seqno), was, 0, head);
        head := head + Word(seqno);
      }
      if len > 0 {
        ptr := W.Put(pkt.buffer, ptr, Word(len), was, 0, head);
        head := head + Word(len);
      }
      HeaderLayOut(flags, withSeqno, seqno, len);
    }

    /** pbb_writer_flush: send what is in the buffer as one packet.  The header was counted with the
        length of a TLV block; without TLVs the messages move down over that gap. */
    method Flush(force: bool, newSeqno: nat)
      requires Valid() && newSeqno < 65536
      modifies this`isFlushed, this`binMsgsSize, this`seqno, this`wire, this`sent, this`pending, pkt, pkt.buffer
      ensures Valid() && isFlushed && pending == []
      ensures if old(isFlushed) && !force then wire == old(wire) && sent == old(sent)
              else |wire| == old(|wire|) + 1 && wire[..old(|wire|)] == old(wire)
                   && sent == old(sent) + [Sent(if withSeqno then Some(newSeqno) else None, old(pending))]
      ensures History() == old(History())
    {
      hide TlvsBytes, PacketBytes, Concat, FragmentsOf;
      if isFlushed {
        if !force {
          return;
        }
        Begin();
      }
      seqno := newSeqno;
      var packet := Assemble();
      Post(packet);
    }

    /** Write the header and move the messages down behind it. */
    method Assemble() returns (packet: Bytes)
      requires IsOpen() && pkt.buffer.Length == mtu && seqno < 65536
      modifies pkt.buffer
      ensures packet == PacketBytes(if withSeqno then Some(seqno) else None, Carried(), Concat(pending))
      ensures |packet| <= mtu
    {
      hide TlvsBytes, PacketHeader, Overwrite, Concat, Stands;
      ghost var was, tlvs := pkt.buffer[..], TlvsBytes(Carried());
      assert Carried() + [] == Carried();
      NoTlvBytes();
      ghost var head := WriteHeader();
      ghost var buf := pkt.buffer[..];
      var len := 1 + (if withSeqno then 2 else 0) + (if pkt.added + pkt.used > 0 then 2 else 0);
      HeaderLength(if withSeqno then Some(seqno) else None, pkt.added + pkt.used);
      if binMsgsSize > 0 {
        var from := pkt.header + pkt.added + pkt.reserved;
        Copy(pkt.buffer, len + pkt.added + pkt.used, pkt.buffer[from..from + binMsgsSize]);
      }
      packet := pkt.buffer[..len + pkt.added + pkt.used + binMsgsSize];
      MovedDown(was, buf, pkt.buffer[..], head, pkt.header, tlvs, Concat(pending));
    }

    /** sendPacket, and the clean-up behind it. */
    method Post(packet: Bytes)
      requires Posted() && Base() <= mtu && |packet| <= mtu && seqno < 65536 && pkt.buffer.Length == mtu
      requires pkt.max <= mtu
      requires packet == PacketBytes(if withSeqno then Some(seqno) else None, Carried(), Concat(pending))
      modifies this`isFlushed, this`binMsgsSize, this`wire, this`sent, this`pending
      ensures Valid() && isFlushed && pending == [] && wire == old(wire) + [packet]
      ensures sent == old(sent) + [Sent(if withSeqno then Some(seqno) else None, old(pending))]
      ensures History() == old(History())
    {
      hide TlvsBytes, PacketBytes, Concat;
      ghost var now := Sent(if withSeqno then Some(seqno) else None, pending);
      HistoryMoves(sent, now, pending);
      sent := sent + [now];
      pending := [];
      wire := wire + [packet];
      binMsgsSize := 0;
      isFlushed := true;
    }

    /** From end to end: if every fragment appended is a message, a reader of the packets sent so far
        finds exactly the messages that are not pending, in the order in which they were appended. */
    lemma {:induction false} Delivered(ms: seq<Message>)
      requires Valid() && Short(Carried()) && |TlvsBytes(Carried())| <= 65535
      requires ValidMessages(ms) && History() == FragmentsBytes(ms)
      ensures |pending| <= |ms| && Received(wire) == MessagesOf(ms[..|ms| - |pending|])
      ensures forall i :: 0 <= i < |wire| ==> ParsePacket(wire[i]).Parsed?
    {
      hide MessageBytes, ValidMessage, TlvsBytes, PacketBytes, ParsePacket, Short, Concat, Received, FragmentsOf;
      var k := |Concat(FragmentsOf(sent))|;
      assert FragmentsBytes(ms[..k]) == FragmentsBytes(ms)[..k] == Concat(FragmentsOf(sent));
      ArriveInOrder(sent, wire, Carried(), ms[..k]);
    }

    /** The same for the packets sent since there were `since` of them, when nothing is pending. */
    lemma {:induction false} DeliveredSince(since: nat, was: seq<Sent>, ms: seq<Message>)
      requires Valid() && pending == [] && Short(Carried()) && |TlvsBytes(Carried())| <= 65535
      requires since == |was| <= |sent| && sent[..since] == was
      requires ValidMessages(ms) && History() == Concat(FragmentsOf(was)) + FragmentsBytes(ms)
      ensures since <= |wire| && Received(wire[since..]) == MessagesOf(ms)
      ensures forall i :: since <= i < |wire| ==> ParsePacket(wire[i]).Parsed? && |wire[i]| <= mtu
    {
      hide MessageBytes, ValidMessage, TlvsBytes, PacketBytes, ParsePacket, Short, Concat, Received, FragmentsOf;
      hide FragmentsBytes, Accepted, Carried;
      assert History() == Concat(FragmentsOf(sent)) + [] == Concat(FragmentsOf(sent));
      SentSince(was, sent, FragmentsBytes(ms));
      ArriveInOrder(sent[since..], wire[since..], Carried(), ms);
      forall i | since <= i < |wire| ensures ParsePacket(wire[i]).Parsed? {
        assert wire[since..][i - since] == wire[i];
      }
    }

    /** The part of _finalize_message_fragment for one interface: a fragment that does not fit any
        more sends the packet first.  The message creation has opened the packet, and the fragment
        fits an empty one. */
    method Append(fragment: Bytes, newSeqno: nat)
      requires Valid() && !isFlushed && Base() + |fragment| <= mtu && newSeqno < 65536
      modifies this`isFlushed, this`binMsgsSize, this`seqno, this`wire, this`sent, this`pending, pkt, pkt.buffer
      ensures Valid() && !isFlushed
      ensures History() == old(History()) + [fragment]
      ensures |old(wire)| <= |wire| && wire[..|old(wire)|] == old(wire)
      ensures if old(Base() + binMsgsSize) + |fragment| <= mtu
              then sent == old(sent) && pending == old(pending) + [fragment]
              else pending == [fragment]
                   && sent == old(sent) + [Sent(if withSeqno then Some(newSeqno) else None, old(pending))]
    {
      hide TlvsBytes, Posted, PacketBytes, Overwrite, FragmentsOf, Concat, Carried, Stands, Accepted;
      NoTlvBytes();
      if pkt.header + pkt.added + pkt.used + binMsgsSize + |fragment| > pkt.max {
        Flush(false, newSeqno);
        Begin();
      }
      Place(fragment);
    }

    /** Copy a fragment behind the messages of the open packet. */
    method Place(fragment: Bytes)
      requires Valid() && !isFlushed && Base() + binMsgsSize + |fragment| <= mtu
      modifies this`binMsgsSize, this`pending, pkt.buffer
      ensures Valid() && !isFlushed && pending == old(pending) + [fragment] && History() == old(History()) + [fragment]
    {
      hide TlvsBytes, Overwrite, FragmentsOf, Concat, Stands, PacketBytes;
      ghost var was, tlvs := pkt.buffer[..], TlvsBytes(Carried());
      assert Carried() + [] == Carried();
      NoTlvBytes();
      ConcatAppend(pending, fragment);
      Copy(pkt.buffer, pkt.header + pkt.added + pkt.reserved + binMsgsSize, fragment);
      StandsGrow(was, Base(), Concat(pending), fragment);
      if |tlvs| > 0 { StandsStays(was, pkt.header, tlvs, Base() + binMsgsSize, fragment); }
      HistoryGrows(Concat(FragmentsOf(sent)), pending, fragment);
      pending := pending + [fragment];
      binMsgsSize := binMsgsSize + |fragment|;
    }
  }

  lemma {:induction false} HistoryGrows(a: seq<Bytes>, b: seq<Bytes>, x: Bytes)
    ensures a + (b + [x]) == a + b + [x]
  {
  }

  lemma {:induction false} HistoryMoves(sent: seq<Sent>, now: Sent, pending: seq<Bytes>)
    requires now.fragments == pending
    ensures Concat(FragmentsOf(sent + [now])) + [] == Concat(FragmentsOf(sent)) + pending
  {
    var ps := FragmentsOf(sent + [now]);
    assert ps[..|sent|] == FragmentsOf(sent) && ps[|sent|] == pending;
  }

  /** The packet in the buffer after header and messages have moved together. */
  lemma {:induction false} MovedDown(was: Bytes, buf: Bytes, end: Bytes, head: Bytes, room: nat, tlvs: Bytes,
                                     msgs: Bytes)
    requires |head| <= room && (|tlvs| > 0 ==> |head| == room && Stands(was, room, tlvs))
    requires room + |tlvs| + |msgs| <= |was| && Stands(was, room + |tlvs|, msgs) && buf == Overwrite(was, 0, head)
    requires end == if |msgs| > 0 then Overwrite(buf, |head| + |tlvs|, buf[room + |tlvs|..room + |tlvs| + |msgs|])
      else buf
    ensures end[..|head| + |tlvs| + |msgs|] == head + (tlvs + msgs)
  {
    hide Overwrite, Stands;
    var base, to := room + |tlvs|, |head| + |tlvs|;
    StandsStays(was, base, msgs, 0, head);
    StandsIs(buf, base, msgs);
    if |tlvs| > 0 { StandsStays(was, room, tlvs, 0, head); }
    Nothing(buf, |head|, tlvs);
    Nothing(end, |head|, tlvs);
    if |msgs| > 0 {
      StandsStays(buf, 0, head, to, msgs);
      if |tlvs| > 0 { StandsStays(buf, |head|, tlvs, to, msgs); }
    }
    Nothing(end, to, msgs);
    StandsSplit(end, |head|, tlvs, msgs);
    StandsSplit(end, 0, head, tlvs + msgs);
    StandsIs(end, 0, head + (tlvs + msgs));
  }

  lemma {:induction false} Nothing(buf: Bytes, pos: nat, s: Bytes)
    requires pos <= |buf|
    ensures s == [] ==> Stands(buf, pos, s)
  {
  }

  lemma {:induction false} HeaderLayOut(flags: Byte, withSeqno: bool, seqno: nat, len: nat)
    ensures var head := [flags] + (if withSeqno then Word(seqno) else []) + (if len > 0 then Word(len) else []);
            flags == PacketFlags(withSeqno, len > 0) ==>
              head == PacketHeader(if withSeqno then Some(seqno) else None, len)
  {
  }

  lemma {:induction false} HeaderLength(seqno: Option<nat>, len: nat)
    ensures |PacketHeader(seqno, len)| == 1 + (if seqno.Some? then 2 else 0) + (if len > 0 then 2 else 0)
  {
  }

  // ---------------------------------------------------------------- the other end

  ghost function FragmentsBytes(ms: seq<Message>): (r: seq<Bytes>)
    requires ValidMessages(ms)
    ensures |r| == |ms| && forall i :: 0 <= i < |ms| ==> r[i] == MessageBytes(ms[i])
  {
    seq(|ms|, i requires 0 <= i < |ms| => MessageBytes(ms[i]))
  }

  /** The messages that a reader finds in the packets, in order. */
  ghost function Received(wire: seq<Bytes>): seq<MessageIn> {
    if wire == [] then []
    else
      var last := ParsePacket(wire[|wire| - 1]);
      Received(wire[..|wire| - 1]) + if last.Parsed? then last.value.messages else []
  }

  lemma {:induction false} ConcatMessages(ms: seq<Message>)
    requires ValidMessages(ms)
    ensures Concat(FragmentsBytes(ms)) == MessagesBytes(ms)
  {
    if ms == [] {
    } else {
      hide Concat, FragmentsBytes, MessageBytes, ValidMessage;
      ConcatMessages(ms[1..]);
      FragmentsStep(ms);
      ConcatPrepend(MessageBytes(ms[0]), FragmentsBytes(ms[1..]));
    }
  }

  lemma {:induction false} SentSince(was: seq<Sent>, now: seq<Sent>, fs: seq<Bytes>)
    requires |was| <= |now| && now[..|was|] == was && Concat(FragmentsOf(now)) == Concat(FragmentsOf(was)) + fs
    ensures Concat(FragmentsOf(now[|was|..])) == fs
  {
    hide Concat;
    var a, b := FragmentsOf(was), FragmentsOf(now[|was|..]);
    assert FragmentsOf(now) == a + b;
    ConcatJoin(a, b);
    assert fs == (Concat(a) + fs)[|Concat(a)|..] == (Concat(a) + Concat(b))[|Concat(a)|..] == Concat(b);
  }

  lemma {:induction false} FragmentsStep(ms: seq<Message>)
    requires ms != [] && ValidMessages(ms)
    ensures FragmentsBytes(ms) == [MessageBytes(ms[0])] + FragmentsBytes(ms[1..])
  {
  }

  lemma {:induction false} OnePacket(w: Bytes, p: Sent, tlvs: seq<Tlv>, ms: seq<Message>)
    requires Short(tlvs) && |TlvsBytes(tlvs)| <= 65535 && ValidMessages(ms) && (p.seqno.Some? ==> p.seqno.value < 65536)
    requires w == PacketBytes(p.seqno, tlvs, Concat(p.fragments)) && p.fragments == FragmentsBytes(ms)
    ensures ParsePacket(w).Parsed? && ParsePacket(w).value.messages == MessagesOf(ms)
  {
    hide ValidMessages, TlvsBytes, PacketBytes, ParsePacket, Short, Concat, MessagesOf, FragmentsBytes;
    ConcatMessages(ms);
    PacketRoundTrip(p.seqno, tlvs, ms);
  }

  lemma {:induction false} FragmentsCut(a: seq<Bytes>, f: seq<Bytes>, ms: seq<Message>) returns (k: nat)
    requires ValidMessages(ms) && a + f == FragmentsBytes(ms)
    ensures k == |a| <= |ms| && a == FragmentsBytes(ms[..k]) && f == FragmentsBytes(ms[k..])
    ensures MessagesOf(ms) == MessagesOf(ms[..k]) + MessagesOf(ms[k..])
  {
    hide MessageBytes, ValidMessage, MessageOf;
    k := |a|;
    assert |a + f| == |ms|;
    assert a == (a + f)[..k] && f == (a + f)[k..];
  }

  /** The packets of an interface are read back as the messages that went into them, in order. */
  lemma {:induction false} ArriveInOrder(ps: seq<Sent>, wire: seq<Bytes>, tlvs: seq<Tlv>, ms: seq<Message>)
    requires |ps| == |wire| && Short(tlvs) && |TlvsBytes(tlvs)| <= 65535 && ValidMessages(ms)
    requires forall i :: 0 <= i < |ps| ==> ps[i].seqno.Some? ==> ps[i].seqno.value < 65536
    requires forall i :: 0 <= i < |wire| ==> wire[i] == PacketBytes(ps[i].seqno, tlvs, Concat(ps[i].fragments))
    requires Concat(FragmentsOf(ps)) == FragmentsBytes(ms)
    ensures Received(wire) == MessagesOf(ms)
    ensures forall i :: 0 <= i < |wire| ==> ParsePacket(wire[i]).Parsed?
    decreases |ps|
  {
    hide TlvsBytes, PacketBytes, ParsePacket, Short, Concat, FragmentsBytes, MessagesOf, MessageBytes, ValidMessage;
    if ps == [] {
      ConcatNone<Bytes>();
      assert FragmentsOf(ps) == [];
      NoMessages(ms);
    } else {
      var n := |ps| - 1;
      assert FragmentsOf(ps) == FragmentsOf(ps[..n]) + [ps[n].fragments];
      ConcatAppend(FragmentsOf(ps[..n]), ps[n].fragments);
      var k := FragmentsCut(Concat(FragmentsOf(ps[..n])), ps[n].fragments, ms);
      ArriveInOrder(ps[..n], wire[..n], tlvs, ms[..k]);
      OnePacket(wire[n], ps[n], tlvs, ms[k..]);
      forall i | 0 <= i < |wire| ensures ParsePacket(wire[i]).Parsed? {
        if i < n { assert wire[i] == wire[..n][i]; }
      }
    }
  }

  lemma {:induction false} NoMessages(ms: seq<Message>)
    requires ValidMessages(ms) && FragmentsBytes(ms) == []
    ensures MessagesOf(ms) == []
  {
    assert |FragmentsBytes(ms)| == |ms|;
  }
}
