/** Packets (section 5.1 of RFC 5444): _write_pktheader and pbb_writer_flush of
    lib/packetbb/pbb_pkt_generator.c against pbb_reader_handle_packet of lib/packetbb/pbb_reader.c. */
module PbbPacket {
  import opened Basics
  import opened PbbBytes
  import opened PbbTlv
  import opened PbbTlvBlock
  import opened PbbMessage

  const PKT_SEQNO := 0x08
  const PKT_TLV := 0x04

  // ---------------------------------------------------------------- writing

  function PacketFlags(seqno: bool, tlvs: bool): Byte {
    (if seqno then PKT_SEQNO else 0) + (if tlvs then PKT_TLV else 0)
  }

  /** The length of the TLV block, written only if there is a TLV. */
  function BlockLength(n: nat): Bytes { if n > 0 then Word(n) else [] }

  /** _write_pktheader, for tlvSize bytes of TLVs */
  function PacketHeader(seqno: Option<nat>, tlvSize: nat): Bytes {
    [PacketFlags(seqno.Some?, tlvSize > 0)] + (OptWord(seqno) + BlockLength(tlvSize))
  }

  /** A packet as it is sent: header, TLVs, and the bytes of its messages. */
  function PacketBytes(seqno: Option<nat>, tlvs: seq<Tlv>, msgs: Bytes): Bytes {
    PacketHeader(seqno, |TlvsBytes(tlvs)|) + (TlvsBytes(tlvs) + msgs)
  }

  ghost predicate ValidMessages(ms: seq<Message>) {
    forall i :: 0 <= i < |ms| ==> ValidMessage(ms[i])
  }

  ghost function MessagesBytes(ms: seq<Message>): Bytes
    requires ValidMessages(ms)
  {
    if ms == [] then [] else MessageBytes(ms[0]) + MessagesBytes(ms[1..])
  }

  // ---------------------------------------------------------------- reading

  datatype PacketIn = PacketIn(seqno: Option<nat>, tlvs: seq<Entry>, messages: seq<MessageIn>)

  /** The loop over the messages of pbb_reader_handle_packet. */
  function ParseMessages(buf: Bytes, pos: nat, eob: nat): (r: Parsed<seq<MessageIn>>)
    requires eob <= |buf|
    ensures r.Failed? ==> r.code != Okay
    ensures r.Parsed? && pos <= eob ==> r.next == eob
    decreases eob - pos
  {
    if pos >= eob then Parsed([], pos)
    else
      var first := ParseMessage(buf, pos, eob);
      if first.Failed? then Failed(first.code)
      else
        MessageProgress(buf, pos, eob);
        var rest := ParseMessages(buf, first.next, eob);
        if rest.Failed? then rest else Parsed([first.value] + rest.value, rest.next)
  }

  /** The packet TLV block, if the header announces one. */
  function ParsePacketTlvs(buf: Bytes, present: bool, pos: nat, eob: nat): (r: Parsed<seq<Entry>>)
    requires pos <= eob <= |buf|
    ensures r.Failed? ==> r.code != Okay
    ensures r.Parsed? ==> r.next <= eob
  {
    if present then ParseTlvBlock(buf, pos, eob) else Parsed([], pos)
  }

  /** Packet header and packet TLVs. */
  datatype PacketStart = PacketStart(seqno: Option<nat>, tlvs: seq<Entry>)

  function ParsePacketStart(buf: Bytes): (r: Parsed<PacketStart>)
    ensures r.Failed? ==> r.code != Okay
    ensures r.Parsed? ==> r.next <= |buf|
  {
    var first := GetU8(buf, Cursor(0, Okay), |buf|);
    if first.0 / 16 != 0 then Failed(UnsupportedVersion)
    else
      var seqno := GetOptWord(buf, Has(first.0, PKT_SEQNO), first.1, |buf|);
      if seqno.1.code != Okay then Failed(seqno.1.code)
      else
        assert seqno.1.pos <= |buf|;
        var tlvs := ParsePacketTlvs(buf, Has(first.0, PKT_TLV), seqno.1.pos, |buf|);
        if tlvs.Failed? then Failed(tlvs.code) else Parsed(PacketStart(seqno.0, tlvs.value), tlvs.next)
  }

  /** pbb_reader_handle_packet without the consumers */
  function ParsePacket(buf: Bytes): (r: Parsed<PacketIn>)
    ensures r.Failed? ==> r.code != Okay
    ensures r.Parsed? ==> r.next == |buf|
  {
    var start := ParsePacketStart(buf);
    if start.Failed? then Failed(start.code)
    else
      var messages := ParseMessages(buf, start.next, |buf|);
      if messages.Failed? then Failed(messages.code)
      else Parsed(PacketIn(start.value.seqno, start.value.tlvs, messages.value), messages.next)
  }

  /** The messages in front of the first one that does not parse. */
  function GoodMessages(buf: Bytes, pos: nat, eob: nat): seq<MessageIn>
    requires eob <= |buf|
    decreases eob - pos
  {
    if pos >= eob then []
    else
      var first := ParseMessage(buf, pos, eob);
      if first.Failed? then []
      else
        MessageProgress(buf, pos, eob);
        [first.value] + GoodMessages(buf, first.next, eob)
  }

  lemma {:induction false} AllGood(buf: Bytes, pos: nat, eob: nat)
    requires eob <= |buf| && ParseMessages(buf, pos, eob).Parsed?
    ensures GoodMessages(buf, pos, eob) == ParseMessages(buf, pos, eob).value
    decreases eob - pos
  {
    hide ParseMessage;
    if pos >= eob {
    } else {
      MessageProgress(buf, pos, eob);
      AllGood(buf, ParseMessage(buf, pos, eob).next, eob);
    }
  }

  /** The messages that the consumers get to see before an error, if there is one, ends the packet. */
  function MessagesSeen(buf: Bytes): seq<MessageIn> {
    var start := ParsePacketStart(buf);
    if start.Failed? then [] else GoodMessages(buf, start.next, |buf|)
  }

  /** Without an error they see all of them. */
  lemma {:induction false} AllSeen(buf: Bytes)
    requires ParsePacket(buf).Parsed?
    ensures MessagesSeen(buf) == ParsePacket(buf).value.messages
  {
    hide ParsePacketStart, ParseMessages;
    AllGood(buf, ParsePacketStart(buf).next, |buf|);
  }

  // ---------------------------------------------------------------- there and back

  ghost function MessagesOf(ms: seq<Message>): (r: seq<MessageIn>)
    requires ValidMessages(ms)
    ensures |r| == |ms| && forall i :: 0 <= i < |ms| ==> r[i] == MessageOf(ms[i])
  {
    seq(|ms|, i requires 0 <= i < |ms| => MessageOf(ms[i]))
  }

  lemma {:induction false} MessagesRoundTrip(buf: Bytes, pos: nat, ms: seq<Message>)
    requires ValidMessages(ms) && Stands(buf, pos, MessagesBytes(ms)) && pos + |MessagesBytes(ms)| == |buf|
    ensures ParseMessages(buf, pos, |buf|) == Parsed(MessagesOf(ms), |buf|)
    decreases |ms|
  {
    hide MessageBytes, ParseMessage, ValidMessage, Stands, MessageOf;
    if ms == [] {
    } else {
      var b := MessageBytes(ms[0]);
      StandsSplit(buf, pos, b, MessagesBytes(ms[1..]));
      MessageRoundTrip(buf, pos, |buf|, ms[0]);
      MessageProgress(buf, pos, |buf|);
      MessagesRoundTrip(buf, pos + |b|, ms[1..]);
      assert MessagesOf(ms) == [MessageOf(ms[0])] + MessagesOf(ms[1..]);
    }
  }

  lemma {:induction false} PacketFlagsBack(seqno: bool, tlvs: bool)
    ensures var f := PacketFlags(seqno, tlvs);
            f / 16 == 0 && (Has(f, PKT_SEQNO) <==> seqno) && (Has(f, PKT_TLV) <==> tlvs)
  {
  }

  lemma {:induction false} PacketTlvsBack(buf: Bytes, pos: nat, ts: seq<Tlv>)
    requires Short(ts) && |TlvsBytes(ts)| <= 65535
    requires Stands(buf, pos, BlockLength(|TlvsBytes(ts)|))
    requires Stands(buf, pos + |BlockLength(|TlvsBytes(ts)|)|, TlvsBytes(ts))
    ensures pos + |BlockLength(|TlvsBytes(ts)|)| + |TlvsBytes(ts)| <= |buf|
    ensures ParsePacketTlvs(buf, |TlvsBytes(ts)| > 0, pos, |buf|)
         == Parsed(EntriesOf(ts), pos + |BlockLength(|TlvsBytes(ts)|)| + |TlvsBytes(ts)|)
  {
    hide Short, Word, ParseTlvBlock, TlvBlockBytes;
    var n := |TlvsBytes(ts)|;
    if n > 0 {
      TlvsAt(buf, pos, ts);
      StandsInside(buf, pos, TlvBlockBytes(ts));
      TlvBlockRoundTrip(buf, pos, |buf|, ts);
    } else {
      if ts != [] { TlvsHaveBytes(ts); }
      assert EntriesOf(ts) == [];
    }
  }

  /** A packet is read back as the same sequence number, TLVs and messages, and the reader consumes
      every byte of it. */
  lemma {:induction false} PacketRoundTrip(seqno: Option<nat>, tlvs: seq<Tlv>, ms: seq<Message>)
    requires (seqno.Some? ==> seqno.value < 65536) && Short(tlvs) && |TlvsBytes(tlvs)| <= 65535 && ValidMessages(ms)
    ensures var buf := PacketBytes(seqno, tlvs, MessagesBytes(ms));
            ParsePacket(buf) == Parsed(PacketIn(seqno, EntriesOf(tlvs), MessagesOf(ms)), |buf|)
  {
    hide Short, Word, BlockLength, OptWord, GetOptWord, ValidMessages, PacketFlags, Has, TlvsBytes, MessagesBytes,
         ParsePacketTlvs, ParseMessages, GoodMessages, EntriesOf, MessagesOf, Stands;
    var msgs := MessagesBytes(ms);
    var buf, n := PacketBytes(seqno, tlvs, msgs), |TlvsBytes(tlvs)|;
    var f, s, l := PacketFlags(seqno.Some?, n > 0), OptWord(seqno), BlockLength(n);
    PacketFlagsBack(seqno.Some?, n > 0);
    StandsWhole(buf);
    StandsSplit(buf, 0, [f] + (s + l), TlvsBytes(tlvs) + msgs);
    StandsHead(buf, 0, f, s + l);
    StandsSplit(buf, 1, s, l);
    StandsSplit(buf, 1 + |s| + |l|, TlvsBytes(tlvs), msgs);
    OptWordBack(buf, 1, |buf|, seqno);
    PacketTlvsBack(buf, 1 + |s|, tlvs);
    MessagesRoundTrip(buf, 1 + |s| + |l| + n, ms);
  }

  lemma {:induction false} StandsWhole(buf: Bytes)
    ensures Stands(buf, 0, buf)
  {
  }
}
