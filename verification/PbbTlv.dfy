/** One TLV on the wire: what lib/packetbb/pbb_tlv_writer.c writes and lib/packetbb/pbb_reader.c reads. */
module PbbTlv {
  import opened PbbBytes

  const TYPEEXT := 0x80
  const SINGLE_IDX := 0x40
  const MULTI_IDX := 0x20
  const VALUE := 0x10
  const EXTVALUE := 0x08
  const MULTIVALUE := 0x04

  /** struct pbb_reader_tlvblock_entry.  length is the length of one value; a multivalue TLV holds
      one value for each index. */
  datatype Entry = Entry(typ: Byte, flags: Byte, ext: Byte, index1: Byte, index2: Byte,
                         length: nat, value: Bytes, multi: bool)
  {
    /** _calc_tlv_intorder */
    function Order(): nat { typ * 256 + ext }
  }

  // ---------------------------------------------------------------- writing

  /** _calc_tlv_size */
  function TlvSize(hasExt: bool, length: nat): (s: nat)
    ensures s >= 2
  {
    2 + (if hasExt then 1 else 0) + length + (if length > 255 then 2 else if length > 0 then 1 else 0)
  }

  function TlvFlags(ext: Byte, idx1: Byte, idx2: Byte, length: nat): Byte {
    (if ext > 0 then TYPEEXT else 0)
    + (if idx1 == idx2 then SINGLE_IDX else if idx1 > 0 || idx2 < 255 then MULTI_IDX else 0)
    + (if length > 255 then EXTVALUE else 0)
    + (if length > 0 then VALUE else 0)
  }

  /** The indices as written; none for the whole range 0 to 255. */
  function IndexBytes(idx1: Byte, idx2: Byte): Bytes {
    if idx1 == idx2 then [idx1] else if idx1 > 0 || idx2 < 255 then [idx1, idx2] else []
  }

  function LengthBytes(length: nat): Bytes {
    if length > 255 then [High(length), Low(length)] else if length > 0 then [Low(length)] else []
  }

  /** The bytes of _write_tlv. */
  function TlvBytes(typ: Byte, ext: Byte, idx1: Byte, idx2: Byte, value: Bytes): (r: Bytes) {
    [typ] + ([TlvFlags(ext, idx1, idx2, |value|)] + ((if ext > 0 then [ext] else [])
                                                    + (IndexBytes(idx1, idx2) + (LengthBytes(|value|) + value))))
  }

  // ---------------------------------------------------------------- reading

  function GetExt(buf: Bytes, flags: Byte, c: Cursor, eob: nat): (r: (Byte, Cursor))
    requires eob <= |buf|
  {
    if Has(flags, TYPEEXT) then GetU8(buf, c, eob) else (0, c)
  }

  function GetIndices(buf: Bytes, flags: Byte, c: Cursor, eob: nat): (r: (Byte, Byte, Cursor))
    requires eob <= |buf|
  {
    if !Has(flags, SINGLE_IDX) && !Has(flags, MULTI_IDX) then
      (0, 255, c)
    else if !Has(flags, MULTI_IDX) then
      var i := GetU8(buf, c, eob);
      (i.0, i.0, i.1)
    else if !Has(flags, SINGLE_IDX) then
      var i := GetU8(buf, c, eob);
      var j := GetU8(buf, i.1, eob);
      (i.0, j.0, j.1)
    else
      (0, 0, c.(code := BadTlvIdxFlags))
  }

  function GetLength(buf: Bytes, flags: Byte, c: Cursor, eob: nat): (r: (nat, Cursor))
    requires eob <= |buf|
    ensures r.0 < 65536
  {
    if !Has(flags, VALUE) && !Has(flags, EXTVALUE) then
      (0, c)
    else if !Has(flags, EXTVALUE) then
      var n := GetU8(buf, c, eob);
      (n.0, n.1)
    else if Has(flags, VALUE) then
      GetU16(buf, c, eob)
    else
      (0, c.(code := BadTlvValueFlags))
  }

  /** The part of _parse_tlv behind the header: the value, cut for a multivalue TLV. */
  function FinishTlv(buf: Bytes, typ: Byte, flags: Byte, ext: Byte, idx1: Byte, idx2: Byte, length: nat, pos: nat)
    : (r: Parsed<Entry>)
    requires pos + length <= |buf|
    ensures r.Failed? ==> r.code != Okay
  {
    var value := buf[pos..pos + length];
    var count := (idx2 - idx1 + 1) % 256;
    if length == 0 then
      Parsed(Entry(typ, flags, ext, idx1, idx2, 0, [], Has(flags, MULTIVALUE)), pos)
    else if !Has(flags, MULTIVALUE) || count == 1 then
      Parsed(Entry(typ, flags, ext, idx1, idx2, length, value, false), pos + length)
    else if count == 0 then
      Failed(Undefined)
    else if length % count != 0 then
      Failed(BadTlvLength)
    else
      Parsed(Entry(typ, flags, ext, idx1, idx2, length / count, value, true), pos + length)
  }

  /** _parse_tlv */
  function ParseTlv(buf: Bytes, pos: nat, eob: nat): (r: Parsed<Entry>)
    requires eob <= |buf|
    ensures r.Failed? ==> r.code != Okay
  {
    var typ := GetU8(buf, Cursor(pos, Okay), eob);
    var flags := GetU8(buf, typ.1, eob);
    var ext := GetExt(buf, flags.0, flags.1, eob);
    var idx := GetIndices(buf, flags.0, ext.1, eob);
    var len := GetLength(buf, flags.0, idx.2, eob);
    if len.1.pos + len.0 > eob then Failed(EndOfBuffer)
    else if len.1.code != Okay then Failed(len.1.code)
    else FinishTlv(buf, typ.0, flags.0, ext.0, idx.0, idx.1, len.0, len.1.pos)
  }

  /** A TLV that parses takes two bytes at least and stays inside the buffer. */
  lemma {:induction false} TlvProgress(buf: Bytes, pos: nat, eob: nat)
    requires eob <= |buf| && ParseTlv(buf, pos, eob).Parsed?
    ensures pos + 2 <= ParseTlv(buf, pos, eob).next <= eob
  {
    hide Has;
  }

  // ---------------------------------------------------------------- there and back

  lemma {:induction false} FlagsBack(ext: Byte, idx1: Byte, idx2: Byte, length: nat)
    ensures var f := TlvFlags(ext, idx1, idx2, length);
            && (Has(f, TYPEEXT) <==> ext > 0)
            && (Has(f, SINGLE_IDX) <==> idx1 == idx2)
            && (Has(f, MULTI_IDX) <==> idx1 != idx2 && (idx1 > 0 || idx2 < 255))
            && (Has(f, VALUE) <==> length > 0) && (Has(f, EXTVALUE) <==> length > 255)
            && !Has(f, MULTIVALUE)
  {
  }

  /** The size that the writer counts is the size that it writes. */
  lemma {:induction false} SizeExact(typ: Byte, ext: Byte, value: Bytes)
    ensures |TlvBytes(typ, ext, 0, 255, value)| == TlvSize(ext != 0, |value|)
  {
  }

  lemma {:induction false} IndicesBack(buf: Bytes, pos: nat, eob: nat, flags: Byte, idx1: Byte, idx2: Byte)
    requires Stands(buf, pos, IndexBytes(idx1, idx2)) && pos + |IndexBytes(idx1, idx2)| <= eob <= |buf|
    requires Has(flags, SINGLE_IDX) <==> idx1 == idx2
    requires Has(flags, MULTI_IDX) <==> idx1 != idx2 && (idx1 > 0 || idx2 < 255)
    ensures GetIndices(buf, flags, Cursor(pos, Okay), eob) == (idx1, idx2, Cursor(pos + |IndexBytes(idx1, idx2)|, Okay))
  {
    var b := IndexBytes(idx1, idx2);
    if |b| > 0 { StandsAt(buf, pos, b, 0); }
    if |b| > 1 { StandsAt(buf, pos, b, 1); }
  }

  lemma {:induction false} HighLowBack(n: nat)
    ensures High(n) * 256 + Low(n) == n % 65536
  {
    var q, r := n / 65536, n % 65536;
    var h, l := r / 256, r % 256;
    assert n == (q * 256 + h) * 256 + l;
    assert n / 256 == q * 256 + h && n % 256 == l;
  }

  lemma {:induction false} LengthBack(buf: Bytes, pos: nat, eob: nat, flags: Byte, length: nat)
    requires Stands(buf, pos, LengthBytes(length)) && pos + |LengthBytes(length)| <= eob <= |buf|
    requires (Has(flags, VALUE) <==> length > 0) && (Has(flags, EXTVALUE) <==> length > 255)
    ensures GetLength(buf, flags, Cursor(pos, Okay), eob)
         == (if length < 65536 then length else length % 65536, Cursor(pos + |LengthBytes(length)|, Okay))
  {
    hide Has, High, Low, Stands;
    HighLowBack(length);
    StandsInside(buf, pos, LengthBytes(length));
    var b := LengthBytes(length);
    if |b| > 0 { StandsAt(buf, pos, b, 0); }
    if |b| > 1 { StandsAt(buf, pos, b, 1); }
  }

  /** The entry that a written TLV should be read back as. */
  function Written(typ: Byte, ext: Byte, idx1: Byte, idx2: Byte, value: Bytes): Entry {
    Entry(typ, TlvFlags(ext, idx1, idx2, |value|), ext, idx1, idx2, |value|, value, false)
  }

  /** A written TLV is read back with its type, extension, indices and value, consuming exactly its
      bytes, if and only if its value's length fits 16 bits. */
  lemma {:induction false} TlvRoundTrip(buf: Bytes, pos: nat, eob: nat, typ: Byte, ext: Byte, idx1: Byte, idx2: Byte,
                                        value: Bytes)
    requires Stands(buf, pos, TlvBytes(typ, ext, idx1, idx2, value))
    requires pos + |TlvBytes(typ, ext, idx1, idx2, value)| <= eob <= |buf|
    ensures ParseTlv(buf, pos, eob) == Parsed(Written(typ, ext, idx1, idx2, value),
      pos + |TlvBytes(typ, ext, idx1, idx2, value)|)
       <==> |value| <= 65535
  {
    hide GetExt, GetIndices, GetLength, Has, TlvFlags, Stands, IndexBytes, LengthBytes;
    var f := TlvFlags(ext, idx1, idx2, |value|);
    var e: Bytes := if ext > 0 then [ext] else [];
    var i, l := IndexBytes(idx1, idx2), LengthBytes(|value|);
    FlagsBack(ext, idx1, idx2, |value|);
    StandsHead(buf, pos, typ, [f] + (e + (i + (l + value))));
    StandsHead(buf, pos + 1, f, e + (i + (l + value)));
    StandsSplit(buf, pos + 2, e, i + (l + value));
    StandsSplit(buf, pos + 2 + |e|, i, l + value);
    StandsSplit(buf, pos + 2 + |e| + |i|, l, value);
    ExtBack(buf, pos + 2, eob, f, ext);
    IndicesBack(buf, pos + 2 + |e|, eob, f, idx1, idx2);
    LengthBack(buf, pos + 2 + |e| + |i|, eob, f, |value|);
    var p := pos + 2 + |e| + |i| + |l|;
    StandsIs(buf, p, value);
  }

  lemma {:induction false} ExtBack(buf: Bytes, pos: nat, eob: nat, flags: Byte, ext: Byte)
    requires Stands(buf, pos, if ext > 0 then [ext] else []) && pos + (if ext > 0 then 1 else 0) <= eob <= |buf|
    requires Has(flags, TYPEEXT) <==> ext > 0
    ensures GetExt(buf, flags, Cursor(pos, Okay), eob) == (ext, Cursor(pos + (if ext > 0 then 1 else 0), Okay))
  {
    if ext > 0 { StandsAt(buf, pos, [ext], 0); }
  }
}
