/** TLV blocks (section 5.4 of RFC 5444): the TLVs of one block in wire order, and in the order in
    which lib/packetbb/pbb_reader.c hands them to a consumer. */
module PbbTlvBlock {
  import opened PbbBytes
  import opened PbbTlv

  /** A TLV as its author gives it to the writer. */
  datatype Tlv = Tlv(typ: Byte, ext: Byte, value: Bytes)

  function BytesOf(t: Tlv): Bytes { TlvBytes(t.typ, t.ext, 0, 255, t.value) }

  function SizeOf(t: Tlv): nat { TlvSize(t.ext != 0, |t.value|) }

  function EntryOf(t: Tlv): Entry { Written(t.typ, t.ext, 0, 255, t.value) }

  function TlvsBytes(ts: seq<Tlv>): Bytes {
    if ts == [] then [] else BytesOf(ts[0]) + TlvsBytes(ts[1..])
  }

  function EntriesOf(ts: seq<Tlv>): (r: seq<Entry>)
    ensures |r| == |ts| && forall i :: 0 <= i < |ts| ==> r[i] == EntryOf(ts[i])
  {
    seq(|ts|, i requires 0 <= i < |ts| => EntryOf(ts[i]))
  }

  ghost predicate Short(ts: seq<Tlv>) {
    forall i :: 0 <= i < |ts| ==> |ts[i].value| <= 65535
  }

  lemma {:induction false} TlvsBytesAppend(ts: seq<Tlv>, t: Tlv)
    ensures TlvsBytes(ts + [t]) == TlvsBytes(ts) + BytesOf(t)
  {
    hide BytesOf;
    if ts == [] {
      assert [] + [t] == [t] && [t][1..] == [];
    } else {
      TlvsBytesAppend(ts[1..], t);
      assert (ts + [t])[1..] == ts[1..] + [t];
    }
  }

  lemma {:induction false} TlvsBytesJoin(a: seq<Tlv>, b: seq<Tlv>)
    ensures TlvsBytes(a + b) == TlvsBytes(a) + TlvsBytes(b)
  {
    hide BytesOf;
    if a == [] {
      assert a + b == b;
    } else {
      TlvsBytesJoin(a[1..], b);
      assert (a + b)[1..] == a[1..] + b && (a + b)[0] == a[0];
    }
  }

  lemma {:induction false} NoTlvBytes()
    ensures TlvsBytes([]) == []
  {
  }

  lemma {:induction false} TlvsHaveBytes(ts: seq<Tlv>)
    requires ts != []
    ensures |TlvsBytes(ts)| > 0
  {
    assert |BytesOf(ts[0])| >= 2;
  }

  // ---------------------------------------------------------------- parsing

  /** The loop of _parse_tlvblock.  A TLV is bounded by eob, not by the end of its block. */
  function ParseTlvs(buf: Bytes, pos: nat, end: nat, eob: nat): (r: Parsed<seq<Entry>>)
    requires end <= eob <= |buf|
    ensures r.Failed? ==> r.code != Okay
    ensures r.Parsed? ==> end <= r.next && (pos <= eob ==> pos <= r.next <= eob)
    decreases eob - pos
  {
    if pos >= end then Parsed([], pos)
    else
      var first := ParseTlv(buf, pos, eob);
      if first.Failed? then Failed(first.code)
      else
        TlvProgress(buf, pos, eob);
        var rest := ParseTlvs(buf, first.next, end, eob);
        if rest.Failed? then rest else Parsed([first.value] + rest.value, rest.next)
  }

  /** _parse_tlvblock, without the sorted tree. */
  function ParseTlvBlock(buf: Bytes, pos: nat, eob: nat): (r: Parsed<seq<Entry>>)
    requires eob <= |buf|
    ensures r.Failed? ==> r.code != Okay
    ensures r.Parsed? ==> pos + 2 <= r.next <= eob
  {
    var len := GetU16(buf, Cursor(pos, Okay), eob);
    var end := len.1.pos + len.0;
    if len.1.code != Okay || end > eob then Failed(EndOfBuffer)
    else ParseTlvs(buf, len.1.pos, end, eob)
  }

  /** A block as the writers lay it out: its length, then its TLVs. */
  function TlvBlockBytes(ts: seq<Tlv>): Bytes {
    [High(|TlvsBytes(ts)|), Low(|TlvsBytes(ts)|)] + TlvsBytes(ts)
  }

  lemma {:induction false} TlvsRoundTrip(buf: Bytes, pos: nat, eob: nat, ts: seq<Tlv>)
    requires Short(ts) && Stands(buf, pos, TlvsBytes(ts)) && pos + |TlvsBytes(ts)| <= eob <= |buf|
    ensures ParseTlvs(buf, pos, pos + |TlvsBytes(ts)|, eob) == Parsed(EntriesOf(ts), pos + |TlvsBytes(ts)|)
    decreases |ts|
  {
    hide ParseTlv, TlvBytes;
    if ts == [] {
    } else {
      var t := ts[0];
      StandsSplit(buf, pos, BytesOf(t), TlvsBytes(ts[1..]));
      TlvRoundTrip(buf, pos, eob, t.typ, t.ext, 0, 255, t.value);
      TlvProgress(buf, pos, eob);
      TlvsRoundTrip(buf, pos + |BytesOf(t)|, eob, ts[1..]);
      assert EntriesOf(ts) == [EntryOf(t)] + EntriesOf(ts[1..]);
    }
  }

  /** A written block is read back as its TLVs in order, and the cursor ends behind it. */
  lemma {:induction false} TlvBlockRoundTrip(buf: Bytes, pos: nat, eob: nat, ts: seq<Tlv>)
    requires Short(ts) && |TlvsBytes(ts)| <= 65535
    requires Stands(buf, pos, TlvBlockBytes(ts)) && pos + |TlvBlockBytes(ts)| <= eob <= |buf|
    ensures ParseTlvBlock(buf, pos, eob) == Parsed(EntriesOf(ts), pos + |TlvBlockBytes(ts)|)
  {
    hide ParseTlvs, EntriesOf, Short, Stands;
    var n := |TlvsBytes(ts)|;
    StandsSplit(buf, pos, [High(n), Low(n)], TlvsBytes(ts));
    StandsAt(buf, pos, [High(n), Low(n)], 0);
    StandsAt(buf, pos, [High(n), Low(n)], 1);
    HighLow(n);
    TlvsRoundTrip(buf, pos + 2, eob, ts);
  }

  /** The value of a multivalue entry has room for every index. */
  ghost predicate WellCut(e: Entry) {
    e.multi ==> forall k :: 0 <= k <= e.index2 - e.index1 ==> k * e.length + e.length <= |e.value|
  }

  lemma {:induction false} CutFits(count: nat, q: nat, k: nat)
    requires k < count
    ensures k * q + q <= count * q
  {
    var d := count - k - 1;
    assert count * q == (k + 1 + d) * q == k * q + q + d * q;
  }

  /** A parsed multivalue TLV holds a value of its length for every index that it covers. */
  lemma {:induction false} ParsedWellCut(buf: Bytes, pos: nat, eob: nat)
    requires eob <= |buf| && ParseTlv(buf, pos, eob).Parsed?
    ensures WellCut(ParseTlv(buf, pos, eob).value)
  {
    hide Has, GetLength, GetIndices, GetExt;
    var e := ParseTlv(buf, pos, eob).value;
    if e.multi && e.index1 <= e.index2 && |e.value| > 0 {
      var count := (e.index2 - e.index1 + 1) % 256;
      assert |e.value| == count * e.length;
      forall k | 0 <= k <= e.index2 - e.index1 ensures k * e.length + e.length <= |e.value| {
        CutFits(count, e.length, k);
      }
    }
  }

  // ---------------------------------------------------------------- the order of delivery

  /** Insert behind every entry whose order is not greater. */
  ghost function Placed(s: seq<Entry>, e: Entry): seq<Entry> {
    if s == [] || e.Order() < s[0].Order() then [e] + s else [s[0]] + Placed(s[1..], e)
  }

  /** The entries in the order of the reader's tree after all of them were inserted. */
  ghost function Arranged(s: seq<Entry>): seq<Entry> {
    if s == [] then [] else Placed(Arranged(s[..|s| - 1]), s[|s| - 1])
  }

  ghost predicate Ascending(s: seq<Entry>) {
    forall i, j :: 0 <= i < j < |s| ==> s[i].Order() <= s[j].Order()
  }

  /** The entries of one type and extension, in their order in s. */
  ghost function OfOrder(s: seq<Entry>, order: nat): seq<Entry> {
    if s == [] then [] else (if s[0].Order() == order then [s[0]] else []) + OfOrder(s[1..], order)
  }

  lemma {:induction false} AscendingFront(e: Entry, s: seq<Entry>)
    requires Ascending(s) && forall x :: x in s ==> e.Order() <= x.Order()
    ensures Ascending([e] + s) && multiset([e] + s) == multiset{e} + multiset(s)
  {
    assert forall i :: 0 <= i < |s| ==> s[i] in s;
  }

  lemma {:induction false} PlacedMembers(s: seq<Entry>, e: Entry)
    ensures multiset(Placed(s, e)) == multiset(s) + multiset{e}
  {
    hide Entry.Order;
    if s == [] {
    } else {
      PlacedMembers(s[1..], e);
      assert s == [s[0]] + s[1..];
    }
  }

  lemma {:induction false} PlacedFacts(s: seq<Entry>, e: Entry)
    requires Ascending(s)
    ensures Ascending(Placed(s, e)) && multiset(Placed(s, e)) == multiset(s) + multiset{e}
  {
    PlacedMembers(s, e);
    hide Entry.Order;
    if s == [] || e.Order() < s[0].Order() {
    } else {
      var first, rest := s[0], s[1..];
      PlacedFacts(rest, e);
      var r := Placed(rest, e);
      forall x | x in r ensures first.Order() <= x.Order() {
        assert x in multiset(r);
        if x in rest { var k :| 0 <= k < |rest| && rest[k] == x; assert s[k + 1] == x; }
      }
      AscendingFront(first, r);
    }
  }

  lemma {:induction false} OfOrderAppend(s: seq<Entry>, e: Entry, order: nat)
    ensures OfOrder(s + [e], order) == OfOrder(s, order) + if e.Order() == order then [e] else []
  {
    hide Entry.Order;
    if s == [] {
      assert s + [e] == [e] && [e][1..] == [];
    } else {
      OfOrderAppend(s[1..], e, order);
      assert (s + [e])[1..] == s[1..] + [e];
    }
  }

  lemma {:induction false} OfOrderNone(s: seq<Entry>, order: nat)
    requires forall i :: 0 <= i < |s| ==> s[i].Order() != order
    ensures OfOrder(s, order) == []
  {
    if s == [] {
    } else {
      OfOrderNone(s[1..], order);
    }
  }

  lemma {:induction false} OfOrderFront(x: Entry, s: seq<Entry>, order: nat)
    ensures OfOrder([x] + s, order) == (if x.Order() == order then [x] else []) + OfOrder(s, order)
  {
    assert ([x] + s)[1..] == s;
  }

  lemma {:induction false} PlacedStable(s: seq<Entry>, e: Entry, order: nat)
    requires Ascending(s)
    ensures OfOrder(Placed(s, e), order) == OfOrder(s, order) + if e.Order() == order then [e] else []
  {
    hide Entry.Order;
    if s == [] || e.Order() < s[0].Order() {
      OfOrderFront(e, s, order);
      if e.Order() == order {
        assert forall i :: 0 < i < |s| ==> s[0].Order() <= s[i].Order();
        OfOrderNone(s, order);
      }
    } else {
      PlacedStable(s[1..], e, order);
      OfOrderFront(s[0], Placed(s[1..], e), order);
      var a: seq<Entry>, b, c: seq<Entry> := if s[0].Order() == order then [s[0]]
        else [], OfOrder(s[1..], order), if e.Order() == order then [e] else [];
      assert a + (b + c) == a + b + c;
    }
  }

  /** The delivery order has every entry once, is sorted by type and extension, and keeps the wire
      order among entries of one type and extension. */
  lemma {:induction false} ArrangedFacts(s: seq<Entry>)
    ensures Ascending(Arranged(s)) && multiset(Arranged(s)) == multiset(s)
    ensures forall order: nat :: OfOrder(Arranged(s), order) == OfOrder(s, order)
  {
    hide Entry.Order, Placed;
    if s == [] {
    } else {
      var s', e := s[..|s| - 1], s[|s| - 1];
      ArrangedFacts(s');
      PlacedFacts(Arranged(s'), e);
      assert s == s' + [e];
      forall order: nat ensures OfOrder(Arranged(s), order) == OfOrder(s, order) {
        PlacedStable(Arranged(s'), e, order);
        OfOrderAppend(s', e, order);
      }
    }
  }

  // ---------------------------------------------------------------- delivery

  /** What one call of a consumer's TLV callback sees. */
  datatype Delivery = Delivery(typ: Byte, ext: Byte, value: Bytes)

  predicate Covers(e: Entry, idx: Byte) {
    e.index1 <= idx <= e.index2
  }

  /** The value for one index; a multivalue TLV holds one value for each index (ParsedWellCut). */
  function ValueAt(e: Entry, idx: Byte): Bytes
    requires Covers(e, idx)
  {
    if !e.multi then e.value
    else
      var from := (idx - e.index1) * e.length;
      if from + e.length <= |e.value| then e.value[from..from + e.length] else []
  }

  /** The value for the index is there in full; the last case of ValueAt is not taken. */
  ghost predicate HasValueAt(e: Entry, idx: Byte)
    requires Covers(e, idx)
  {
    e.multi ==> (idx - e.index1) * e.length + e.length <= |e.value|
  }

  ghost function Delivered(s: seq<Entry>, idx: Byte): seq<Delivery> {
    if s == [] then []
    else
      Delivered(s[..|s| - 1], idx)
      + var e := s[|s| - 1]; if Covers(e, idx) then [Delivery(e.typ, e.ext, ValueAt(e, idx))] else []
  }

  /** A TLV takes two bytes, so a block holds few of them. */
  lemma {:induction false} TlvsCount(buf: Bytes, pos: nat, end: nat, eob: nat)
    requires end <= eob <= |buf| && ParseTlvs(buf, pos, end, eob).Parsed?
    ensures 2 * |ParseTlvs(buf, pos, end, eob).value| <= if pos < end then end - pos + 1 else 0
    decreases eob - pos
  {
    hide ParseTlv;
    if end <= pos {
    } else {
      TlvProgress(buf, pos, eob);
      TlvsCount(buf, ParseTlv(buf, pos, eob).next, end, eob);
    }
  }

  lemma {:induction false} BlockCount(buf: Bytes, pos: nat, eob: nat)
    requires eob <= |buf| && ParseTlvBlock(buf, pos, eob).Parsed?
    ensures |ParseTlvBlock(buf, pos, eob).value| <= 32768
  {
    hide ParseTlvs;
    var len := GetU16(buf, Cursor(pos, Okay), eob);
    TlvsCount(buf, len.1.pos, len.1.pos + len.0, eob);
  }

  lemma {:induction false} DeliveredAll(s: seq<Entry>, idx: Byte)
    requires forall i :: 0 <= i < |s| ==> Covers(s[i], idx) && !s[i].multi
    ensures |Delivered(s, idx)| == |s|
    ensures forall i :: 0 <= i < |s| ==> Delivered(s, idx)[i] == Delivery(s[i].typ, s[i].ext, s[i].value)
  {
    if s == [] {
    } else {
      DeliveredAll(s[..|s| - 1], idx);
    }
  }

  /** A consumer sees every TLV that the writer was given exactly once, sorted by type and extension,
      and TLVs of one type and extension in the order in which they were written. */
  lemma {:induction false} EachOnce(ts: seq<Tlv>, idx: Byte)
    ensures var s, d := Arranged(EntriesOf(ts)), Delivered(Arranged(EntriesOf(ts)), idx);
            && |d| == |s| == |ts| && (forall i :: 0 <= i < |s| ==> d[i] == Delivery(s[i].typ, s[i].ext, s[i].value))
            && Ascending(s) && multiset(s) == multiset(EntriesOf(ts))
            && forall order: nat :: OfOrder(s, order) == OfOrder(EntriesOf(ts), order)
  {
    var es := EntriesOf(ts);
    var s := Arranged(es);
    ArrangedFacts(es);
    assert |multiset(s)| == |s| && |multiset(es)| == |es|;
    forall i | 0 <= i < |s| ensures Covers(s[i], idx) && !s[i].multi {
      assert s[i] in multiset(s);
      var k :| 0 <= k < |es| && es[k] == s[i];
    }
    DeliveredAll(s, idx);
  }
}
