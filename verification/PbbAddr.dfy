/** Address blocks (section 5.3 of RFC 5444) as lib/packetbb/pbb_msg_generator.c writes them and
    lib/packetbb/pbb_reader.c reads them. */
module PbbAddr {
  import opened PbbBytes

  const HEAD := 0x80
  const FULLTAIL := 0x40
  const ZEROTAIL := 0x20
  const SINGLEPLEN := 0x10
  const MULTIPLEN := 0x08
  const MAX_ADDRLEN := 16

  datatype Address = Address(bytes: Bytes, plen: Byte)

  /** One block of the tiling: headLen is block_headlen, multi is block_multiple_prefixlen. */
  datatype Block = Block(headLen: nat, multi: bool, addrs: seq<Address>)

  /** What the writer may be given: 1 to 255 addresses of n bytes that share the head and, unless
      multi is set, the prefix length. */
  ghost predicate ValidBlock(b: Block, n: nat) {
    && 1 <= n <= MAX_ADDRLEN && 1 <= |b.addrs| <= 255 && b.headLen < n
    && (forall i :: 0 <= i < |b.addrs| ==> |b.addrs[i].bytes| == n)
    && (forall i :: 0 <= i < |b.addrs| ==> b.addrs[i].bytes[..b.headLen] == b.addrs[0].bytes[..b.headLen])
    && (!b.multi ==> forall i :: 0 <= i < |b.addrs| ==> b.addrs[i].plen == b.addrs[0].plen)
  }

  function Zeros(n: nat): (r: Bytes)
    ensures |r| == n
  {
    seq(n, _ => 0)
  }

  // ---------------------------------------------------------------- elision

  /** Every address ends in the last t bytes of the first. */
  predicate TailShared(addrs: seq<Address>, n: nat, t: nat)
    requires t <= n && forall i :: 0 <= i < |addrs| ==> |addrs[i].bytes| == n
  {
    forall i :: 0 <= i < |addrs| ==> addrs[i].bytes[n - t..] == addrs[0].bytes[n - t..]
  }

  /** The longest shared tail of limit bytes at most. */
  function LongestTail(addrs: seq<Address>, n: nat, limit: nat): (t: nat)
    requires limit <= n && forall i :: 0 <= i < |addrs| ==> |addrs[i].bytes| == n
    ensures t <= limit
  {
    if limit == 0 || TailShared(addrs, n, limit) then limit else LongestTail(addrs, n, limit - 1)
  }

  lemma {:induction false} LongestTailIsLongest(addrs: seq<Address>, n: nat, limit: nat)
    requires limit <= n && forall i :: 0 <= i < |addrs| ==> |addrs[i].bytes| == n
    ensures TailShared(addrs, n, LongestTail(addrs, n, limit))
    ensures forall k :: LongestTail(addrs, n, limit) < k <= limit ==> !TailShared(addrs, n, k)
  {
    if !(limit == 0 || TailShared(addrs, n, limit)) {
      LongestTailIsLongest(addrs, n, limit - 1);
    } else if limit == 0 {
      forall i | 0 <= i < |addrs| ensures addrs[i].bytes[n - limit..] == addrs[0].bytes[n - limit..] {
        assert addrs[i].bytes[n..] == [] && addrs[0].bytes[n..] == [];
      }
    }
  }

  /** Head and tail are only cut from blocks of several addresses, and leave a byte at least. */
  function HeadLen(b: Block): nat {
    if |b.addrs| == 1 then 0 else b.headLen
  }

  function TailLen(b: Block, n: nat): (t: nat)
    requires ValidBlock(b, n)
    ensures HeadLen(b) + t < n
  {
    if |b.addrs| == 1 then 0 else LongestTail(b.addrs, n, n - b.headLen - 1)
  }

  predicate ZeroTail(b: Block, n: nat)
    requires ValidBlock(b, n)
  {
    TailLen(b, n) > 0 && b.addrs[0].bytes[n - TailLen(b, n)..] == Zeros(TailLen(b, n))
  }

  // ---------------------------------------------------------------- writing

  function Mids(addrs: seq<Address>, from: nat, to: nat): (r: Bytes)
    requires from <= to && forall i :: 0 <= i < |addrs| ==> to <= |addrs[i].bytes|
    ensures |r| == |addrs| * (to - from)
  {
    if addrs == [] then [] else Mids(addrs[..|addrs| - 1], from, to) + addrs[|addrs| - 1].bytes[from..to]
  }

  function Plens(addrs: seq<Address>): (r: Bytes)
    ensures |r| == |addrs| && forall i :: 0 <= i < |addrs| ==> r[i] == addrs[i].plen
  {
    seq(|addrs|, i requires 0 <= i < |addrs| => addrs[i].plen)
  }

  function HeadBytes(head: Bytes): Bytes
    requires |head| < 256
  {
    if head == [] then [] else [|head|] + head
  }

  function TailBytes(tail: Bytes, zero: bool): Bytes
    requires |tail| < 256
  {
    if tail == [] then [] else if zero then [|tail|] else [|tail|] + tail
  }

  function PlenBytes(b: Block, n: nat): Bytes
    requires |b.addrs| > 0
  {
    if b.multi then Plens(b.addrs) else if b.addrs[0].plen != n * 8 then [b.addrs[0].plen] else []
  }

  function BlockFlags(h: nat, t: nat, zero: bool, multi: bool, plain: bool): Byte {
    (if h > 0 then HEAD else 0)
    + (if t > 0 then if zero then ZEROTAIL else FULLTAIL else 0)
    + (if multi then MULTIPLEN else if plain then 0 else SINGLEPLEN)
  }

  function FlagsOf(b: Block, n: nat): Byte
    requires ValidBlock(b, n)
  {
    BlockFlags(HeadLen(b), TailLen(b, n), ZeroTail(b, n), b.multi, b.addrs[0].plen == n * 8)
  }

  /** The address part of one block in _write_addresses. */
  function BlockBytes(b: Block, n: nat): Bytes
    requires ValidBlock(b, n)
  {
    var h, t, first := HeadLen(b), TailLen(b, n), b.addrs[0].bytes;
    [|b.addrs|] + ([FlagsOf(b, n)]
      + (HeadBytes(first[..h]) + (TailBytes(first[n - t..], ZeroTail(b, n))
                                  + (Mids(b.addrs, h, n - t) + PlenBytes(b, n)))))
  }

  /** The same block with nothing cut out. */
  function PlainBytes(b: Block, n: nat): Bytes
    requires ValidBlock(b, n)
  {
    [|b.addrs|] + [BlockFlags(0, 0, false, b.multi, b.addrs[0].plen == n * 8)] + Mids(b.addrs, 0, n) + PlenBytes(b, n)
  }

  lemma {:induction false} BlockSizes(b: Block, n: nat)
    requires ValidBlock(b, n)
    ensures var h, t := HeadLen(b), TailLen(b, n);
            && |BlockBytes(b, n)| <= 2 + (if h > 0 then 1 + h else 0) + (if t > 0 then 1 + t else 0)
                                     + |b.addrs| * (n - t - h) + |PlenBytes(b, n)|
            && |PlainBytes(b, n)| == 2 + |b.addrs| * n + |PlenBytes(b, n)|
  {
    hide PlenBytes, LongestTail, TailShared, ZeroTail, FlagsOf, BlockFlags, HeadBytes, TailBytes, Mids, HeadLen,
         TailLen;
    var h, t, first := HeadLen(b), TailLen(b, n), b.addrs[0].bytes;
    PieceSizes(first[..h], first[n - t..], ZeroTail(b, n));
    assert |Mids(b.addrs, h, n - t)| == |b.addrs| * (n - t - h);
    assert |Mids(b.addrs, 0, n)| == |b.addrs| * n;
  }

  lemma {:induction false} PieceSizes(head: Bytes, tail: Bytes, zero: bool)
    requires |head| < 256 && |tail| < 256
    ensures |HeadBytes(head)| == if |head| > 0 then 1 + |head| else 0
    ensures |TailBytes(tail, zero)| <= if |tail| > 0 then 1 + |tail| else 0
  {
  }

  /** Cutting head and tail never makes a block longer. */
  lemma {:induction false} ElisionShortens(b: Block, n: nat)
    requires ValidBlock(b, n)
    ensures |BlockBytes(b, n)| <= |PlainBytes(b, n)|
  {
    hide BlockBytes, PlainBytes, PlenBytes, LongestTail;
    BlockSizes(b, n);
    CutsPay(|b.addrs|, HeadLen(b), TailLen(b, n), n);
  }

  lemma {:induction false} CutsPay(k: nat, h: nat, t: nat, n: nat)
    requires h + t < n && (k <= 1 ==> h == 0 && t == 0)
    ensures (if h > 0 then 1 + h else 0) + (if t > 0 then 1 + t else 0) + k * (n - t - h) <= k * n
  {
    var m := n - t - h;
    assert k * n == k * (m + (t + h)) == k * m + k * (t + h);
    if k > 1 {
      var d := k - 2;
      assert k * (t + h) == (2 + d) * (t + h) == 2 * (t + h) + d * (t + h);
    }
  }

  // ---------------------------------------------------------------- reading

  datatype Piece = Piece(bytes: Bytes, cur: Cursor) | Bad(code: Code)

  /** A length byte and as many bytes, at most room of them. */
  function GetPiece(buf: Bytes, c: Cursor, eob: nat, room: nat): (r: Piece)
    requires eob <= |buf|
    ensures r.Bad? ==> r.code != Okay
    ensures r.Piece? ==> |r.bytes| <= room && c.pos <= r.cur.pos
  {
    var len := GetU8(buf, c, eob);
    if len.1.pos + len.0 > eob then Bad(EndOfBuffer)
    else if len.0 > room then Bad(Undefined)
    else Piece(buf[len.1.pos..len.1.pos + len.0], len.1.(pos := len.1.pos + len.0))
  }

  function GetHead(buf: Bytes, flags: Byte, c: Cursor, eob: nat, n: nat): (r: Piece)
    requires eob <= |buf|
    ensures r.Bad? ==> r.code != Okay
    ensures r.Piece? ==> |r.bytes| <= n && c.pos <= r.cur.pos
  {
    if Has(flags, HEAD) then GetPiece(buf, c, eob, n) else Piece([], c)
  }

  function GetTail(buf: Bytes, flags: Byte, c: Cursor, eob: nat, room: nat): (r: Piece)
    requires eob <= |buf|
    ensures r.Bad? ==> r.code != Okay
    ensures r.Piece? ==> |r.bytes| <= room && c.pos <= r.cur.pos
  {
    if Has(flags, ZEROTAIL) && !Has(flags, FULLTAIL) then
      var len := GetU8(buf, c, eob);
      if len.0 > room then Bad(Undefined) else Piece(Zeros(len.0), len.1)
    else if Has(flags, FULLTAIL) && !Has(flags, ZEROTAIL) then
      GetPiece(buf, c, eob, room)
    else if Has(flags, FULLTAIL) then
      Bad(BadTailFlags)
    else
      Piece([], c)
  }

  /** The prefix lengths: one for each address, or one for all. */
  function GetPlens(buf: Bytes, flags: Byte, c: Cursor, eob: nat, num: nat, n: nat): (r: Piece)
    requires eob <= |buf| && n <= MAX_ADDRLEN
    ensures r.Bad? ==> r.code != Okay
  {
    if !Has(flags, SINGLEPLEN) && !Has(flags, MULTIPLEN) then
      Piece([n * 8], c)
    else if !Has(flags, MULTIPLEN) then
      if c.pos + 1 > eob then Bad(EndOfBuffer) else Piece([buf[c.pos]], c.(pos := c.pos + 1))
    else if !Has(flags, SINGLEPLEN) then
      if c.pos + num > eob then Bad(EndOfBuffer) else Piece(buf[c.pos..c.pos + num], c.(pos := c.pos + num))
    else
      Bad(BadPrefixFlags)
  }

  /** struct pbb_reader_addrblock_entry: head and tail of every address, the middle parts of all of
      them in one row, and the prefix lengths (one if the block has no list of them). */
  datatype AddrEntry = AddrEntry(num: nat, head: Bytes, tail: Bytes, midLen: nat, mids: Bytes, plens: Bytes,
    listed: bool)

  ghost predicate ValidEntry(e: AddrEntry) {
    && 1 <= e.num <= 255 && |e.mids| == e.num * e.midLen
    && |e.head| + e.midLen + |e.tail| <= MAX_ADDRLEN && |e.plens| == if e.listed then e.num else 1
  }

  /** The mids and prefix lengths of _parse_addrblock. */
  function FinishBlock(buf: Bytes, flags: Byte, c: Cursor, eob: nat, num: nat, n: nat, head: Bytes, tail: Bytes)
    : (r: Parsed<AddrEntry>)
    requires eob <= |buf| && n <= MAX_ADDRLEN && |head| + |tail| <= n
    ensures r.Failed? ==> r.code != Okay
  {
    var mid := n - |head| - |tail|;
    FinishMids(buf, flags, c, eob, num, n, head, tail, num * mid)
  }

  /** The end of a block whose middles take total bytes. */
  function FinishMids(buf: Bytes, flags: Byte, c: Cursor, eob: nat, num: nat, n: nat, head: Bytes, tail: Bytes,
                      total: nat)
    : (r: Parsed<AddrEntry>)
    requires eob <= |buf| && n <= MAX_ADDRLEN && |head| + |tail| <= n
    ensures r.Failed? ==> r.code != Okay
  {
    if c.pos + total > eob then Failed(EndOfBuffer)
    else
      var plens := GetPlens(buf, flags, c.(pos := c.pos + total), eob, num, n);
      if plens.Bad? then Failed(plens.code)
      else if plens.cur.code != Okay then Failed(plens.cur.code)
      else Parsed(AddrEntry(num, head, tail, n - |head| - |tail|, buf[c.pos..c.pos + total], plens.bytes,
                            Has(flags, MULTIPLEN)), plens.cur.pos)
  }

  /** _parse_addrblock for addresses of n bytes */
  function ParseAddrBlock(buf: Bytes, pos: nat, eob: nat, n: nat): (r: Parsed<AddrEntry>)
    requires eob <= |buf| && n <= MAX_ADDRLEN
    ensures r.Failed? ==> r.code != Okay
  {
    var num := GetU8(buf, Cursor(pos, Okay), eob);
    if num.0 == 0 then Failed(EmptyAddrBlock)
    else
      var flags := GetU8(buf, num.1, eob);
      var head := GetHead(buf, flags.0, flags.1, eob, n);
      if head.Bad? then Failed(head.code)
      else
        var tail := GetTail(buf, flags.0, head.cur, eob, n - |head.bytes|);
        if tail.Bad? then Failed(tail.code)
        else FinishBlock(buf, flags.0, tail.cur, eob, num.0, n, head.bytes, tail.bytes)
  }

  lemma {:induction false} FinishProgress(buf: Bytes, flags: Byte, c: Cursor, eob: nat, num: nat, n: nat, head: Bytes,
                                          tail: Bytes)
    requires eob <= |buf| && n <= MAX_ADDRLEN && |head| + |tail| <= n && 1 <= num <= 255
    requires FinishBlock(buf, flags, c, eob, num, n, head, tail).Parsed?
    ensures c.code == Okay && c.pos <= FinishBlock(buf, flags, c, eob, num, n, head, tail).next <= eob
    ensures ValidEntry(FinishBlock(buf, flags, c, eob, num, n, head, tail).value)
  {
    hide Has, GetPlens, FinishBlock;
    var total := FinishIs(buf, flags, c, eob, num, n, head, tail);
    PlensInside(buf, flags, c.(pos := c.pos + total), eob, num, n);
  }

  lemma {:induction false} FinishIs(buf: Bytes, flags: Byte, c: Cursor, eob: nat, num: nat, n: nat, head: Bytes,
                                    tail: Bytes) returns (total: nat)
    requires eob <= |buf| && n <= MAX_ADDRLEN && |head| + |tail| <= n
    requires FinishBlock(buf, flags, c, eob, num, n, head, tail).Parsed?
    ensures total == num * (n - |head| - |tail|) && c.pos + total <= eob
    ensures var plens := GetPlens(buf, flags, c.(pos := c.pos + total), eob, num, n);
            && plens.Piece? && plens.cur.code == Okay
            && FinishBlock(buf, flags, c, eob, num, n, head, tail)
               == Parsed(AddrEntry(num, head, tail, n - |head| - |tail|, buf[c.pos..c.pos + total], plens.bytes,
                                   Has(flags, MULTIPLEN)), plens.cur.pos)
  {
    hide Has, GetPlens, FinishMids;
    total := num * (n - |head| - |tail|);
    MidsParsed(buf, flags, c, eob, num, n, head, tail, total);
  }

  lemma {:induction false} MidsParsed(buf: Bytes, flags: Byte, c: Cursor, eob: nat, num: nat, n: nat, head: Bytes,
                                      tail: Bytes, total: nat)
    requires eob <= |buf| && n <= MAX_ADDRLEN && |head| + |tail| <= n
    requires FinishMids(buf, flags, c, eob, num, n, head, tail, total).Parsed?
    ensures c.pos + total <= eob
    ensures var plens := GetPlens(buf, flags, c.(pos := c.pos + total), eob, num, n);
            && plens.Piece? && plens.cur.code == Okay
            && FinishMids(buf, flags, c, eob, num, n, head, tail, total)
               == Parsed(AddrEntry(num, head, tail, n - |head| - |tail|, buf[c.pos..c.pos + total], plens.bytes,
                                   Has(flags, MULTIPLEN)), plens.cur.pos)
  {
    hide Has, GetPlens;
  }

  lemma {:induction false} PlensInside(buf: Bytes, flags: Byte, c: Cursor, eob: nat, num: nat, n: nat)
    requires eob <= |buf| && n <= MAX_ADDRLEN && c.pos <= eob && GetPlens(buf, flags, c, eob, num, n).Piece?
    ensures var r := GetPlens(buf, flags, c, eob, num, n);
            r.cur.code == c.code && c.pos <= r.cur.pos <= eob && |r.bytes| == if Has(flags, MULTIPLEN) then num else 1
  {
    hide Has;
  }

  /** A block that parses takes two bytes at least, stays inside the buffer, and has all of its parts. */
  lemma {:induction false} AddrBlockProgress(buf: Bytes, pos: nat, eob: nat, n: nat)
    requires eob <= |buf| && n <= MAX_ADDRLEN && ParseAddrBlock(buf, pos, eob, n).Parsed?
    ensures pos + 2 <= ParseAddrBlock(buf, pos, eob, n).next <= eob
    ensures ValidEntry(ParseAddrBlock(buf, pos, eob, n).value)
  {
    hide Has, FinishBlock, Zeros, ValidEntry;
    var num := GetU8(buf, Cursor(pos, Okay), eob);
    var flags := GetU8(buf, num.1, eob);
    var head := GetHead(buf, flags.0, flags.1, eob, n);
    var tail := GetTail(buf, flags.0, head.cur, eob, n - |head.bytes|);
    FinishProgress(buf, flags.0, tail.cur, eob, num.0, n, head.bytes, tail.bytes);
  }

  /** Address i of a block, put together as in schedule_msgaddr_consumer. */
  function AssembleOne(e: AddrEntry, i: nat): Address
    requires ValidEntry(e) && i < e.num
  {
    MidInside(e.num, e.midLen, i);
    Address(e.head + e.mids[i * e.midLen..i * e.midLen + e.midLen] + e.tail, if e.listed then e.plens[i]
      else e.plens[0])
  }

  lemma {:induction false} MidInside(num: nat, mid: nat, i: nat)
    requires i < num
    ensures i * mid + mid <= num * mid
  {
    var d := num - i - 1;
    assert num * mid == (i + 1 + d) * mid == i * mid + mid + d * mid;
  }

  function Assembled(e: AddrEntry): (r: seq<Address>)
    requires ValidEntry(e)
    ensures |r| == e.num && forall i :: 0 <= i < e.num ==> r[i] == AssembleOne(e, i)
  {
    seq(e.num, i requires 0 <= i < e.num => AssembleOne(e, i))
  }

  // ---------------------------------------------------------------- there and back

  lemma {:induction false} BlockFlagsBack(h: nat, t: nat, zero: bool, multi: bool, plain: bool)
    ensures var f := BlockFlags(h, t, zero, multi, plain);
            && (Has(f, HEAD) <==> h > 0)
            && (Has(f, ZEROTAIL) <==> t > 0 && zero) && (Has(f, FULLTAIL) <==> t > 0 && !zero)
            && (Has(f, MULTIPLEN) <==> multi) && (Has(f, SINGLEPLEN) <==> !multi && !plain)
  {
  }

  lemma {:induction false} PieceBack(buf: Bytes, pos: nat, eob: nat, room: nat, s: Bytes)
    requires 0 < |s| < 256 && |s| <= room && Stands(buf, pos, [|s|] + s) && pos + 1 + |s| <= eob <= |buf|
    ensures GetPiece(buf, Cursor(pos, Okay), eob, room) == Piece(s, Cursor(pos + 1 + |s|, Okay))
  {
    StandsHead(buf, pos, |s|, s);
  }

  lemma {:induction false} HeadBack(buf: Bytes, pos: nat, eob: nat, flags: Byte, n: nat, head: Bytes)
    requires |head| <= n <= MAX_ADDRLEN && (Has(flags, HEAD) <==> |head| > 0)
    requires Stands(buf, pos, HeadBytes(head)) && pos + |HeadBytes(head)| <= eob <= |buf|
    ensures GetHead(buf, flags, Cursor(pos, Okay), eob, n) == Piece(head, Cursor(pos + |HeadBytes(head)|, Okay))
  {
    hide GetPiece;
    if head != [] { PieceBack(buf, pos, eob, n, head); }
  }

  lemma {:induction false} TailBack(buf: Bytes, pos: nat, eob: nat, flags: Byte, room: nat, tail: Bytes, zero: bool)
    requires |tail| <= room <= MAX_ADDRLEN && (zero ==> tail == Zeros(|tail|))
    requires (Has(flags, ZEROTAIL) <==> |tail| > 0 && zero) && (Has(flags, FULLTAIL) <==> |tail| > 0 && !zero)
    requires Stands(buf, pos, TailBytes(tail, zero)) && pos + |TailBytes(tail, zero)| <= eob <= |buf|
    ensures GetTail(buf, flags, Cursor(pos, Okay), eob, room)
      == Piece(tail, Cursor(pos + |TailBytes(tail, zero)|, Okay))
  {
    hide GetPiece, Zeros;
    if tail != [] {
      if zero { StandsAt(buf, pos, [|tail|], 0); } else { PieceBack(buf, pos, eob, room, tail); }
    }
  }

  lemma {:induction false} PlensBack(buf: Bytes, pos: nat, eob: nat, flags: Byte, b: Block, n: nat)
    requires ValidBlock(b, n) && Stands(buf, pos, PlenBytes(b, n)) && pos + |PlenBytes(b, n)| <= eob <= |buf|
    requires (Has(flags, MULTIPLEN) <==> b.multi) && (Has(flags, SINGLEPLEN) <==> !b.multi && b.addrs[0].plen != n * 8)
    ensures GetPlens(buf, flags, Cursor(pos, Okay), eob, |b.addrs|, n)
         == Piece(if b.multi then Plens(b.addrs) else [b.addrs[0].plen], Cursor(pos + |PlenBytes(b, n)|, Okay))
  {
    hide Has;
    if !b.multi && b.addrs[0].plen != n * 8 { StandsAt(buf, pos, [b.addrs[0].plen], 0); }
  }

  lemma {:induction false} MidsLast(addrs: seq<Address>, from: nat, to: nat)
    requires from <= to && addrs != [] && forall j :: 0 <= j < |addrs| ==> to <= |addrs[j].bytes|
    ensures var k := |addrs| - 1;
            && Mids(addrs, from, to) == Mids(addrs[..k], from, to) + addrs[k].bytes[from..to]
            && |Mids(addrs[..k], from, to)| == k * (to - from)
  {
    assert |addrs[..|addrs| - 1]| == |addrs| - 1;
  }

  /** The middle of address i stands at p, i times the length m of a middle. */
  lemma {:induction false} MidAt(addrs: seq<Address>, from: nat, to: nat, i: nat, m: nat, p: nat)
    requires from <= to && i < |addrs| && forall j :: 0 <= j < |addrs| ==> to <= |addrs[j].bytes|
    requires m == to - from && p == i * m
    ensures p + m <= |Mids(addrs, from, to)| && Mids(addrs, from, to)[p..p + m] == addrs[i].bytes[from..to]
    decreases |addrs|
  {
    hide Mids;
    var k := |addrs| - 1;
    var rest, last := Mids(addrs[..k], from, to), addrs[k].bytes[from..to];
    MidsLast(addrs, from, to);
    if i == k {
      SliceRight(rest, last);
    } else {
      MidAt(addrs[..k], from, to, i, m, p);
      SliceLeft(rest, last, p, p + m);
    }
  }

  lemma {:induction false} SliceLeft(a: Bytes, b: Bytes, i: nat, j: nat)
    requires i <= j <= |a|
    ensures (a + b)[i..j] == a[i..j]
  {
  }

  lemma {:induction false} SliceRight(a: Bytes, b: Bytes)
    ensures (a + b)[|a|..|a| + |b|] == b
  {
  }

  /** The entry that a written block is parsed into. */
  function EntryOf(b: Block, n: nat): AddrEntry
    requires ValidBlock(b, n)
  {
    var h, t, first := HeadLen(b), TailLen(b, n), b.addrs[0].bytes;
    AddrEntry(|b.addrs|, first[..h], first[n - t..], n - h - t, Mids(b.addrs, h, n - t),
              if b.multi then Plens(b.addrs) else [b.addrs[0].plen], b.multi)
  }

  lemma {:induction false} BlockParses(buf: Bytes, pos: nat, eob: nat, b: Block, n: nat)
    requires ValidBlock(b, n) && Stands(buf, pos, BlockBytes(b, n)) && pos + |BlockBytes(b, n)| <= eob <= |buf|
    ensures ParseAddrBlock(buf, pos, eob, n) == Parsed(EntryOf(b, n), pos + |BlockBytes(b, n)|)
  {
    hide Stands, Mids, Plens, PlenBytes, HeadBytes, TailBytes, GetPiece, GetHead, GetTail, GetPlens, Has, BlockFlags,
         LongestTail, TailLen, HeadLen, FinishBlock;
    var h, t, first := HeadLen(b), TailLen(b, n), b.addrs[0].bytes;
    assert |first| == n;
    var z, f, k := ZeroTail(b, n), FlagsOf(b, n), |b.addrs|;
    var head, tail := first[..h], first[n - t..];
    var hb, tb, mb, pb := HeadBytes(head), TailBytes(tail, z), Mids(b.addrs, h, n - t), PlenBytes(b, n);
    BlockFlagsBack(h, t, z, b.multi, b.addrs[0].plen == n * 8);
    StandsHead(buf, pos, k, [f] + (hb + (tb + (mb + pb))));
    StandsHead(buf, pos + 1, f, hb + (tb + (mb + pb)));
    StandsSplit(buf, pos + 2, hb, tb + (mb + pb));
    StandsSplit(buf, pos + 2 + |hb|, tb, mb + pb);
    StandsSplit(buf, pos + 2 + |hb| + |tb|, mb, pb);
    HeadBack(buf, pos + 2, eob, f, n, head);
    TailBack(buf, pos + 2 + |hb|, eob, f, n - h, tail, z);
    FinishBack(buf, pos + 2 + |hb| + |tb|, eob, f, b, n);
  }

  lemma {:induction false} FinishBack(buf: Bytes, pos: nat, eob: nat, flags: Byte, b: Block, n: nat)
    requires ValidBlock(b, n)
    requires (Has(flags, MULTIPLEN) <==> b.multi) && (Has(flags, SINGLEPLEN) <==> !b.multi && b.addrs[0].plen != n * 8)
    requires var mb := Mids(b.addrs, HeadLen(b), n - TailLen(b, n));
             && Stands(buf, pos, mb) && Stands(buf, pos + |mb|, PlenBytes(b, n))
               && pos + |mb| + |PlenBytes(b, n)| <= eob <= |buf|
    ensures var e := EntryOf(b, n);
            FinishBlock(buf, flags, Cursor(pos, Okay), eob, |b.addrs|, n, e.head, e.tail)
            == Parsed(e, pos + |e.mids| + |PlenBytes(b, n)|)
  {
    hide Stands, Plens, PlenBytes, GetPlens, Has, LongestTail;
    var mb := Mids(b.addrs, HeadLen(b), n - TailLen(b, n));
    PlensBack(buf, pos + |mb|, eob, flags, b, n);
    StandsIs(buf, pos, mb);
    assert n - TailLen(b, n) - HeadLen(b) == n - HeadLen(b) - TailLen(b, n);
  }

  lemma {:induction false} EntryIsValid(b: Block, n: nat)
    requires ValidBlock(b, n)
    ensures ValidEntry(EntryOf(b, n)) && EntryOf(b, n).num == |b.addrs|
  {
    hide LongestTail, Mids;
  }

  lemma {:induction false} AssembledFrom(e: AddrEntry, i: nat, p: nat, mid: Bytes)
    requires ValidEntry(e) && i < e.num && p == i * e.midLen && p + e.midLen <= |e.mids|
    requires mid == e.mids[p..p + e.midLen]
    ensures AssembleOne(e, i).bytes == e.head + mid + e.tail
    ensures AssembleOne(e, i).plen == if e.listed then e.plens[i] else e.plens[0]
  {
  }

  lemma {:induction false} AssemblesAt(b: Block, n: nat, i: nat)
    requires ValidBlock(b, n) && i < |b.addrs| && ValidEntry(EntryOf(b, n))
    ensures AssembleOne(EntryOf(b, n), i) == b.addrs[i]
  {
    hide LongestTail, Mids, AssembleOne;
    var h, t, e := HeadLen(b), TailLen(b, n), EntryOf(b, n);
    var m, p, a := e.midLen, i * e.midLen, b.addrs[i].bytes;
    MidAt(b.addrs, h, n - t, i, m, p);
    AssembledFrom(e, i, p, a[h..n - t]);
    assert a[..h] == e.head;
    assert a[n - t..] == e.tail by { if |b.addrs| > 1 { LongestTailIsLongest(b.addrs, n, n - b.headLen - 1); } }
    assert a == a[..h] + a[h..n - t] + a[n - t..];
  }

  /** The parts of a block put together again are its addresses. */
  lemma {:induction false} EntryAssembles(b: Block, n: nat)
    requires ValidBlock(b, n)
    ensures ValidEntry(EntryOf(b, n)) && Assembled(EntryOf(b, n)) == b.addrs
  {
    hide EntryOf, ValidEntry, ValidBlock, AssembleOne;
    EntryIsValid(b, n);
    forall i | 0 <= i < |b.addrs| ensures AssembleOne(EntryOf(b, n), i) == b.addrs[i] {
      AssemblesAt(b, n, i);
    }
  }

  /** What _write_addresses writes for a block, the reader turns back into the same addresses and
      prefix lengths in the same order, consuming exactly the bytes written. */
  lemma {:induction false} BlockRoundTrip(buf: Bytes, pos: nat, eob: nat, b: Block, n: nat)
    requires ValidBlock(b, n) && Stands(buf, pos, BlockBytes(b, n)) && pos + |BlockBytes(b, n)| <= eob <= |buf|
    ensures var r := ParseAddrBlock(buf, pos, eob, n);
            r.Parsed? && r.next == pos + |BlockBytes(b, n)| && ValidEntry(r.value) && Assembled(r.value) == b.addrs
  {
    hide ParseAddrBlock, BlockBytes, EntryOf, Assembled, ValidEntry, ValidBlock;
    BlockParses(buf, pos, eob, b, n);
    EntryAssembles(b, n);
  }

  // ---------------------------------------------------------------- all blocks of a message

  ghost predicate ValidBlocks(bs: seq<Block>, n: nat) {
    forall i :: 0 <= i < |bs| ==> ValidBlock(bs[i], n)
  }

  /** The blocks one after the other, each followed by the length of its empty TLV block. */
  function BlocksBytes(bs: seq<Block>, n: nat): Bytes
    requires ValidBlocks(bs, n)
  {
    if bs == [] then [] else BlockBytes(bs[0], n) + [0, 0] + BlocksBytes(bs[1..], n)
  }

  lemma {:induction false} BlocksBytesAppend(bs: seq<Block>, b: Block, n: nat)
    requires ValidBlocks(bs, n) && ValidBlock(b, n)
    ensures ValidBlocks(bs + [b], n)
    ensures BlocksBytes(bs + [b], n) == BlocksBytes(bs, n) + (BlockBytes(b, n) + [0, 0])
  {
    hide BlockBytes, ValidBlock;
    if bs == [] {
      assert [] + [b] == [b] && [b][1..] == [];
    } else {
      BlocksBytesAppend(bs[1..], b, n);
      assert (bs + [b])[1..] == bs[1..] + [b];
    }
  }

  lemma {:induction false} BlocksBytesPrefix(bs: seq<Block>, n: nat, i: nat)
    requires ValidBlocks(bs, n) && i < |bs|
    ensures BlocksBytes(bs[..i + 1], n) == BlocksBytes(bs[..i], n) + (BlockBytes(bs[i], n) + [0, 0])
    ensures |BlocksBytes(bs[..i + 1], n)| <= |BlocksBytes(bs, n)|
    decreases |bs| - i
  {
    hide BlockBytes, ValidBlock;
    BlocksBytesAppend(bs[..i], bs[i], n);
    assert bs[..i + 1] == bs[..i] + [bs[i]];
    if i + 1 < |bs| {
      BlocksBytesPrefix(bs, n, i + 1);
    } else {
      assert bs[..i + 1] == bs;
    }
  }
}
