/** hello_recv of src/hello_reader.c from bytes to the neighbour table. */
module BprdHelloReader {
  import opened Basics
  import opened PbbBytes
  import opened PbbTlvBlock
  import opened PbbMessage
  import opened PbbPacket
  import opened PbbReader
  import opened BprdExpiry
  import opened BprdWire
  import A = PbbAddr
  import H = BprdHello

  /** The table after the process ended, or goes on with this value. */
  datatype Fate = Ended | Lives(table: seq<H.Nbr<Addr>>)

  /** What one message does: other types have no consumer; a hello without originator, with a TLV that
      is not a commodity, or with an address TLV ends the process. */
  ghost function AfterEvent(t: seq<H.Nbr<Addr>>, me: Addr, f: Format, ev: MessageEvent, now: Time): Fate {
    if ev.head.typ != MSG_TYPE_HELLO then Lives(t)
    else if ev.head.orig.None? || H.Unrecognised in ItemsOf(f, ev.tlvs) || !NoAddressTlvs(ev.addrs) then Ended
    else Lives(H.Handled(t, me, H.Hello(ev.head.orig.value, H.ComsOf(ItemsOf(f, ev.tlvs)), AddrsOf(ev.addrs)), now))
  }

  /** Message after message; message k is stamped with the clock's reading k. */
  ghost function AfterEvents(t: seq<H.Nbr<Addr>>, me: Addr, f: Format, evs: seq<MessageEvent>, clock: nat -> Time)
    : Fate {
    if evs == [] then Lives(t)
    else
      var k := |evs| - 1;
      var before := AfterEvents(t, me, f, evs[..k], clock);
      if before.Ended? then Ended else AfterEvent(before.table, me, f, evs[k], clock(k))
  }

  lemma {:induction false} EndedStays(t: seq<H.Nbr<Addr>>, me: Addr, f: Format, evs: seq<MessageEvent>,
                                      clock: nat -> Time, k: nat)
    requires k <= |evs| && AfterEvents(t, me, f, evs[..k], clock).Ended?
    ensures AfterEvents(t, me, f, evs, clock).Ended?
    decreases |evs| - k
  {
    if k == |evs| {
      assert evs[..k] == evs;
    } else {
      assert evs[..k + 1][..k] == evs[..k];
      EndedStays(t, me, f, evs, clock, k + 1);
    }
  }

  /** hello_recv: parse the packet and let every message in it loose on the table; after an error the
      messages in front of it have changed the table. */
  method HelloRecv(table: H.Table<Addr>, f: Format, buf: Bytes, clock: nat -> Time) returns (ended: bool, code: Code)
    requires table.Valid()
    modifies table`nlist, table`n, table.list, Elems(table.list.elms)
    modifies (set x | x in table.nlist)`updateTime, (set x | x in table.nlist)`clist, (set x | x in table.nlist)`bidir
    ensures table.Valid()
    ensures code == CodeOf(ParsePacket(buf)) && ValidMessagesIn(MessagesSeen(buf))
    ensures match AfterEvents(old(table.View()), table.me, f, EventsOf(MessagesSeen(buf)), clock)
            case Ended => ended
            case Lives(t) => !ended && table.View() == t
  {
    hide AfterEvent, ParsePacket, MessagesSeen, EventsOf, ValidMessagesIn, ItemsOf;
    ended := false;
    var tlvs, events;
    code, tlvs, events := HandlePacket(buf);
    ended := HandleEvents(table, f, events, clock);
  }

  /** The message loop, as far as the table is concerned. */
  method HandleEvents(table: H.Table<Addr>, f: Format, events: seq<MessageEvent>, clock: nat -> Time)
    returns (ended: bool)
    requires table.Valid()
    modifies table`nlist, table`n, table.list, Elems(table.list.elms)
    modifies (set x | x in table.nlist)`updateTime, (set x | x in table.nlist)`clist, (set x | x in table.nlist)`bidir
    ensures table.Valid()
    ensures match AfterEvents(old(table.View()), table.me, f, events, clock)
            case Ended => ended
            case Lives(t) => !ended && table.View() == t
  {
    hide AfterEvent, ItemsOf;
    ended := false;
    ghost var was := table.View();
    var k := 0;
    assert events[..0] == [];
    while k < |events|
      invariant k <= |events| && table.Valid() && !ended
      invariant forall x :: x in table.nlist ==> x in old(table.nlist) || fresh(x)
      invariant forall e :: e in table.list.elms ==> e in old(table.list.elms) || fresh(e)
      invariant AfterEvents(was, table.me, f, events[..k], clock) == Lives(table.View())
    {
      assert events[..k + 1][..k] == events[..k];
      ended := HandleEvent(table, f, events[k], clock(k));
      if ended {
        EndedStays(was, table.me, f, events, clock, k + 1);
        return;
      }
      k := k + 1;
    }
    assert events[..k] == events;
  }

  /** The consumers for one message. */
  method HandleEvent(table: H.Table<Addr>, f: Format, ev: MessageEvent, now: Time) returns (ended: bool)
    requires table.Valid()
    modifies table`nlist, table`n, table.list, Elems(table.list.elms)
    modifies (set x | x in table.nlist)`updateTime, (set x | x in table.nlist)`clist, (set x | x in table.nlist)`bidir
    ensures table.Valid() && (forall x :: x in table.nlist ==> x in old(table.nlist) || fresh(x))
    ensures forall e :: e in table.list.elms ==> e in old(table.list.elms) || fresh(e)
    ensures match AfterEvent(old(table.View()), table.me, f, ev, now)
            case Ended => ended
            case Lives(t) => !ended && table.View() == t
  {
    hide H.Handled, H.ComsOf, ItemsOf, AddrsOf;
    if ev.head.typ != MSG_TYPE_HELLO {
      return false;
    }
    if ev.head.orig.None? {
      return true;
    }
    ended := table.Receive(ev.head.orig.value, ItemsOf(f, ev.tlvs), AddrsOf(ev.addrs), now);
    if !NoAddressTlvs(ev.addrs) {
      ended := true;
    }
  }

  /** From writer to reader: a packet with one hello message leaves the receiver's table exactly as
      the meaning of that hello says. */
  lemma {:induction false} HelloArrives(t: seq<H.Nbr<Addr>>, me: Addr, f: Format, pktSeqno: Option<nat>, orig: Addr,
                                        seqno: nat,
                     cs: seq<H.Com<Addr>>, blocks: seq<A.Block>, clock: nat -> Time)
    requires ValidFormat(f) && Encodable(f, cs) && ValidMessage(HelloMessage(f, orig, seqno, cs, blocks))
    requires pktSeqno.Some? ==> pktSeqno.value < 65536
    ensures var m := HelloMessage(f, orig, seqno, cs, blocks);
            var p := ParsePacket(PacketBytes(pktSeqno, [], MessageBytes(m)));
            && p.Parsed? && ValidMessagesIn(p.value.messages)
            && AfterEvents(t, me, f, EventsOf(p.value.messages), clock)
               == Lives(H.Handled(t, me, H.Hello(orig, cs, Tiled(blocks)), clock(0)))
  {
    hide HelloMessage, MessageBytes, PacketBytes, ParsePacket, MessageOf, ValidMessage, ValidFormat, EventOf,
         H.Handled, Tiled,
         ItemsOf, AddrsOf, H.ComsOf, ValidBlocksIn;
    var m := HelloMessage(f, orig, seqno, cs, blocks);
    OneMessage(m);
    PacketRoundTrip(pktSeqno, [], [m]);
    HelloRoundTrip(f, orig, seqno, cs, blocks);
    var ms := MessagesOf([m]);
    assert ms == [MessageOf(m)] && ValidMessagesIn(ms);
    var evs := EventsOf(ms);
    EventHead(MessageOf(m));
    assert evs == [EventOf(MessageOf(m))] && evs[..0] == [];
  }

  lemma {:induction false} EventHead(m: MessageIn)
    requires ValidBlocksIn(m.blocks)
    ensures EventOf(m).head == m.head
  {
  }

  lemma {:induction false} OneMessage(m: Message)
    requires ValidMessage(m)
    ensures ValidMessages([m]) && MessagesBytes([m]) == MessageBytes(m)
    ensures Short([]) && |TlvsBytes([])| == 0
  {
    hide MessageBytes;
    assert [m][1..] == [];
    assert MessageBytes(m) + [] == MessageBytes(m);
  }
}
