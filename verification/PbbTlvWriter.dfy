/** struct pbb_tlv_writer_data of lib/packetbb/pbb_tlv_writer.c: a buffer with a header in front, TLVs
    that are added, and room that is reserved first and filled with TLVs later. */
module PbbTlvWriter {
  import opened PbbBytes
  import opened PbbTlv
  import opened PbbTlvBlock

  class TlvWriter {
    const buffer: array<Byte>
    var header: nat
    var added: nat
    var reserved: nat  // the C field allocated
    var used: nat  // the C field set
    var max: nat

    /** The TLVs that were added and those that fill reserved room. */
    ghost var early: seq<Tlv>
    ghost var late: seq<Tlv>

    ghost predicate Valid()
      reads this, buffer
    {
      && max <= buffer.Length && used <= reserved
      && (added + reserved > 0 ==> header + added + reserved <= max)
      && added == |TlvsBytes(early)| && used == |TlvsBytes(late)|
      && added + used == |TlvsBytes(early + late)|
      && (added + used > 0 ==> Stands(buffer[..], header, TlvsBytes(early + late)))
    }

    /** The space that is not spoken for. */
    ghost predicate Fits(size: nat)
      reads this
    {
      header + added + reserved + size <= max
    }

    constructor (mtu: nat)
      ensures Valid() && fresh(buffer) && buffer.Length == mtu
      ensures header == 0 && added == 0 && reserved == 0 && used == 0 && max == 0
    {
      buffer := new Byte[mtu](_ => 0);
      header, added, reserved, used, max := 0, 0, 0, 0, 0;
      early, late := [], [];
    }

    /** _pbb_tlv_writer_init */
    method Init(newMax: nat)
      requires newMax <= buffer.Length
      modifies this
      ensures Valid() && max == newMax && header == 0 && added == 0 && reserved == 0 && used == 0
      ensures early == [] && late == []
    {
      header := 0;
      added := 0;
      reserved := 0;
      used := 0;
      max := newMax;
      early, late := [], [];
    }

    /** Set the header length; the header is set up before any TLV. */
    method SetHeader(size: nat)
      requires Valid() && added == 0 && reserved == 0
      modifies this`header
      ensures Valid() && header == size
    {
      header := size;
    }

    /** _pbb_tlv_writer_add, which the writer allows until the first reserved TLV is set */
    method Add(t: Tlv) returns (code: Code)
      requires Valid() && used == 0
      modifies this`added, this`early, buffer
      ensures Valid() && (code == Okay <==> old(Fits(SizeOf(t))))
      ensures if code == Okay then early == old(early) + [t] && added == old(added) + SizeOf(t)
                                   && header + added + reserved <= max
              else code == MtuTooSmall && early == old(early) && added == old(added) && buffer[..] == old(buffer[..])
    {
      hide TlvsBytes, Stands, Overwrite, BytesOf, TlvSize;
      var s := TlvSize(t.ext != 0, |t.value|);
      if header + added + reserved + s > max {
        return MtuTooSmall;
      }
      if late != [] { TlvsHaveBytes(late); }
      assert early + late == early && early + [t] + late == early + [t];
      Grow(buffer[..], header, early, t);
      Copy(buffer, header + added, BytesOf(t));
      added := added + s;
      early := early + [t];
      return Okay;
    }

    /** _pbb_tlv_writer_allocate */
    method Allocate(hasExt: bool, length: nat) returns (code: Code)
      requires Valid()
      modifies this`reserved
      ensures Valid() && (code == Okay <==> old(Fits(TlvSize(hasExt, length))))
      ensures if code == Okay then reserved == old(reserved) + TlvSize(hasExt, length)
        && header + added + reserved <= max
              else code == MtuTooSmall && reserved == old(reserved)
    {
      var s := TlvSize(hasExt, length);
      if header + added + reserved + s > max {
        return MtuTooSmall;
      }
      reserved := reserved + s;
      return Okay;
    }

    /** _pbb_tlv_writer_set */
    method Set(t: Tlv) returns (code: Code)
      requires Valid()
      modifies this`used, this`late, buffer
      ensures Valid() && (code == Okay <==> old(used) + SizeOf(t) <= reserved)
      ensures if code == Okay then late == old(late) + [t] && used == old(used) + SizeOf(t)
              else code == MtuTooSmall && late == old(late) && used == old(used) && buffer[..] == old(buffer[..])
      ensures SameFrom(old(buffer[..]), buffer[..], header + added + used)
    {
      hide TlvsBytes, Stands, Overwrite, BytesOf, TlvSize, SameFrom;
      var s := TlvSize(t.ext != 0, |t.value|);
      SameSelf(buffer[..], header + added + used);
      if reserved - used < s {
        return MtuTooSmall;
      }
      TlvsBytesAppend(late, t);
      assert early + late + [t] == early + (late + [t]);
      Grow(buffer[..], header, early + late, t);
      SameBehind(buffer[..], header + added + used, BytesOf(t));
      Copy(buffer, header + added + used, BytesOf(t));
      used := used + s;
      late := late + [t];
      return Okay;
    }

    /** set = 0: forget the TLVs in the reserved room, keep the room. */
    method ClearLate()
      requires Valid()
      modifies this`used, this`late
      ensures Valid() && used == 0 && late == []
    {
      hide TlvsBytes, Stands;
      TlvsBytesJoin(early, late);
      assert early + [] == early;
      if added > 0 { StandsSplit(buffer[..], header, TlvsBytes(early), TlvsBytes(late)); }
      used, late := 0, [];
      NoTlvBytes();
    }

    /** After any sequence of additions, reservations and settings the TLV area parses back as the
        TLVs added and then set, in order. */
    lemma {:induction false} ReadBack()
      requires Valid() && Short(early + late) && added + used > 0
      ensures header + added + used <= buffer.Length
      ensures ParseTlvs(buffer[..], header, header + added + used, buffer.Length)
           == Parsed(EntriesOf(early + late), header + added + used)
    {
      hide TlvsBytes, Stands, EntriesOf, ParseTlvs, Short;
      StandsInside(buffer[..], header, TlvsBytes(early + late));
      TlvsRoundTrip(buffer[..], header, buffer.Length, early + late);
    }
  }

  /** One more TLV behind the ones that stand already. */
  lemma {:induction false} Grow(buf: Bytes, pos: nat, ts: seq<Tlv>, t: Tlv)
    requires |TlvsBytes(ts)| > 0 ==> Stands(buf, pos, TlvsBytes(ts))
    requires pos + |TlvsBytes(ts)| + SizeOf(t) <= |buf|
    ensures |BytesOf(t)| == SizeOf(t) > 0 && |TlvsBytes(ts + [t])| == |TlvsBytes(ts)| + SizeOf(t)
    ensures Stands(Overwrite(buf, pos + |TlvsBytes(ts)|, BytesOf(t)), pos, TlvsBytes(ts + [t]))
  {
    SizeExact(t.typ, t.ext, t.value);
    TlvsBytesAppend(ts, t);
    StandsGrow(buf, pos, TlvsBytes(ts), BytesOf(t));
  }

  // ---------------------------------------------------------------- rows of calls

  /** The TLVs that a row of calls accepts, of _pbb_tlv_writer_add or _pbb_tlv_writer_set, if there are
      room bytes left: each that fits behind those accepted before it. */
  function Accepted(ts: seq<Tlv>, room: nat): seq<Tlv> {
    if ts == [] then []
    else if SizeOf(ts[0]) <= room then [ts[0]] + Accepted(ts[1..], room - SizeOf(ts[0]))
    else Accepted(ts[1..], room)
  }

  /** All of them, if they fit together. */
  lemma {:induction false} AllAccepted(ts: seq<Tlv>, room: nat)
    requires |TlvsBytes(ts)| <= room
    ensures Accepted(ts, room) == ts
  {
    if ts == [] {
    } else {
      SizeExact(ts[0].typ, ts[0].ext, ts[0].value);
      AllAccepted(ts[1..], room - SizeOf(ts[0]));
    }
  }

  /** The bytes that may still be added. */
  ghost function Room(w: TlvWriter): nat
    reads w
  {
    if w.header + w.added + w.reserved <= w.max then w.max - (w.header + w.added + w.reserved) else 0
  }

  /** Add TLV after TLV; one that does not fit is left out. */
  method AddEach(w: TlvWriter, ts: seq<Tlv>)
    requires w.Valid() && w.used == 0
    modifies w`added, w`early, w.buffer
    ensures w.Valid() && w.early == old(w.early) + Accepted(ts, old(Room(w)))
  {
    hide TlvsBytes, Stands, BytesOf, Accepted, TlvWriter.Valid;
    ghost var room := Room(w);
    var i := 0;
    assert ts[0..] == ts;
    while i < |ts|
      invariant i <= |ts| && w.Valid() && w.used == 0
      invariant w.early + Accepted(ts[i..], Room(w)) == old(w.early) + Accepted(ts, room)
    {
      ghost var was, left := w.early, Room(w);
      var code := w.Add(ts[i]);
      AcceptedStep(ts, i, left);
      if code == Okay {
        assert was + ([ts[i]] + Accepted(ts[i + 1..], Room(w))) == w.early + Accepted(ts[i + 1..], Room(w));
      }
      i := i + 1;
    }
    assert ts[i..] == [];
    NothingAccepted(Room(w));
  }

  /** Set TLV after TLV; one that does not fit into the reserved room is left out.  Nothing behind the
      TLVs changes. */
  method SetEach(w: TlvWriter, ts: seq<Tlv>)
    requires w.Valid()
    modifies w`used, w`late, w.buffer
    ensures w.Valid() && w.late == old(w.late) + Accepted(ts, old(w.reserved - w.used))
    ensures SameFrom(old(w.buffer[..]), w.buffer[..], w.header + w.added + w.used)
  {
    hide TlvsBytes, Stands, BytesOf, Accepted, SameFrom;
    ghost var was, room := w.buffer[..], w.reserved - w.used;
    SameSelf(was, w.header + w.added + w.used);
    var i := 0;
    assert ts[0..] == ts;
    while i < |ts|
      invariant i <= |ts| && w.Valid() && SameFrom(was, w.buffer[..], w.header + w.added + w.used)
      invariant w.late + Accepted(ts[i..], w.reserved - w.used) == old(w.late) + Accepted(ts, room)
    {
      ghost var late, buf, from := w.late, w.buffer[..], w.header + w.added + w.used;
      AcceptedStep(ts, i, w.reserved - w.used);
      var code := w.Set(ts[i]);
      SameFromOn(was, buf, w.buffer[..], from, w.header + w.added + w.used);
      if code == Okay {
        assert late + ([ts[i]] + Accepted(ts[i + 1..], w.reserved - w.used))
            == w.late + Accepted(ts[i + 1..], w.reserved - w.used);
      }
      i := i + 1;
    }
    assert ts[i..] == [];
    NothingAccepted(w.reserved - w.used);
  }

  lemma {:induction false} NothingAccepted(room: nat)
    ensures Accepted([], room) == []
  {
  }

  lemma {:induction false} AcceptedStep(ts: seq<Tlv>, i: nat, room: nat)
    requires i < |ts|
    ensures Accepted(ts[i..], room)
         == if SizeOf(ts[i]) <= room then [ts[i]] + Accepted(ts[i + 1..], room - SizeOf(ts[i]))
           else Accepted(ts[i + 1..], room)
  {
    assert ts[i..][0] == ts[i] && ts[i..][1..] == ts[i + 1..];
  }

  lemma {:induction false} AcceptedFits(ts: seq<Tlv>, room: nat)
    ensures |TlvsBytes(Accepted(ts, room))| <= room
  {
    if ts == [] {
    } else if SizeOf(ts[0]) <= room {
      SizeExact(ts[0].typ, ts[0].ext, ts[0].value);
      AcceptedFits(ts[1..], room - SizeOf(ts[0]));
    } else {
      AcceptedFits(ts[1..], room);
    }
  }
}
