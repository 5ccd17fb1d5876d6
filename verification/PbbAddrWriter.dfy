/** _write_addresses of lib/packetbb/pbb_msg_generator.c, its address part, step by step. */
module PbbAddrWriter {
  import opened PbbBytes
  import opened PbbAddr

  /** t is the longest shared tail of limit bytes at most. */
  ghost predicate Longest(addrs: seq<Address>, n: nat, limit: nat, t: nat)
    requires limit <= n && forall i :: 0 <= i < |addrs| ==> |addrs[i].bytes| == n
  {
    t <= limit && TailShared(addrs, n, t) && (t < limit ==> !TailShared(addrs, n, t + 1))
  }

  lemma {:induction false} SharedLess(addrs: seq<Address>, n: nat, t: nat, k: nat)
    requires k <= t <= n && forall i :: 0 <= i < |addrs| ==> |addrs[i].bytes| == n
    requires TailShared(addrs, n, t)
    ensures TailShared(addrs, n, k)
  {
    forall i | 0 <= i < |addrs| ensures addrs[i].bytes[n - k..] == addrs[0].bytes[n - k..] {
      assert addrs[i].bytes[n - k..] == addrs[i].bytes[n - t..][t - k..];
      assert addrs[0].bytes[n - k..] == addrs[0].bytes[n - t..][t - k..];
    }
  }

  lemma {:induction false} LongestIsUnique(addrs: seq<Address>, n: nat, limit: nat, t: nat)
    requires limit <= n && forall i :: 0 <= i < |addrs| ==> |addrs[i].bytes| == n
    requires Longest(addrs, n, limit, t)
    ensures t == LongestTail(addrs, n, limit)
  {
    var r := LongestTail(addrs, n, limit);
    LongestTailIsLongest(addrs, n, limit);
    if t < r { SharedLess(addrs, n, r, t + 1); }
  }

  lemma {:induction false} SharedByPrefix(addrs: seq<Address>, n: nat, t: nat, i: nat, k: nat)
    requires t <= n && i <= k <= |addrs| && forall j :: 0 <= j < |addrs| ==> |addrs[j].bytes| == n
    requires TailShared(addrs[..k], n, t)
    ensures TailShared(addrs[..i], n, t)
  {
    var a, b := addrs[..i], addrs[..k];
    forall j | 0 <= j < |a| ensures a[j].bytes[n - t..] == a[0].bytes[n - t..] {
      assert a[j] == b[j] && a[0] == b[0];
    }
  }

  /** One more address can only shorten the shared tail. */
  lemma {:induction false} LongestStep(addrs: seq<Address>, n: nat, limit: nat, t: nat, i: nat, t': nat)
    requires limit <= n && i < |addrs| && forall j :: 0 <= j < |addrs| ==> |addrs[j].bytes| == n
    requires Longest(addrs[..i], n, limit, t) && t' <= t
    requires addrs[i].bytes[n - t'..] == addrs[0].bytes[n - t'..]
    requires t' < t ==> addrs[i].bytes[n - t' - 1] != addrs[0].bytes[n - t' - 1]
    ensures Longest(addrs[..i + 1], n, limit, t')
  {
    var a := addrs[..i + 1];
    SharedLess(addrs[..i], n, t, t');
    forall j | 0 <= j < |a| ensures a[j].bytes[n - t'..] == a[0].bytes[n - t'..] {
      if j < i { assert addrs[..i][j] == a[j] && addrs[..i][0] == a[0]; }
    }
    if t' < t {
      assert a[i].bytes[n - t' - 1..][0] != a[0].bytes[n - t' - 1..][0];
      assert !TailShared(a, n, t' + 1);
    } else if t < limit && TailShared(a, n, t + 1) {
      SharedByPrefix(addrs, n, t + 1, i, i + 1);
    }
  }

  /** The two nested loops that find the length of the shared tail. */
  method FindTail(addrs: seq<Address>, n: nat, limit: nat) returns (tailLen: nat)
    requires limit <= n && forall i :: 0 <= i < |addrs| ==> |addrs[i].bytes| == n
    ensures tailLen == LongestTail(addrs, n, limit)
  {
    hide LongestTail, TailShared;
    tailLen := limit;
    var i := 0;
    assert Longest(addrs[..0], n, limit, limit) by { NothingShared(n, limit); }
    while i < |addrs| && tailLen > 0
      invariant i <= |addrs| && tailLen <= limit && Longest(addrs[..i], n, limit, tailLen)
    {
      ghost var was := tailLen;
      var tail := 1;
      assert addrs[i].bytes[n..] == addrs[0].bytes[n..];
      while tail <= tailLen
        invariant 1 <= tail <= was + 1 && tailLen == was
        invariant addrs[i].bytes[n - (tail - 1)..] == addrs[0].bytes[n - (tail - 1)..]
        decreases tailLen + 1 - tail
      {
        if addrs[0].bytes[n - tail] != addrs[i].bytes[n - tail] {
          tailLen := tail - 1;
          break;
        }
        SuffixGrows(addrs[i].bytes, addrs[0].bytes, n, tail);
        tail := tail + 1;
      }
      LongestStep(addrs, n, limit, was, i, tailLen);
      i := i + 1;
    }
    if i < |addrs| { LongestZero(addrs, n, limit, i); } else { assert addrs[..i] == addrs; }
    LongestIsUnique(addrs, n, limit, tailLen);
  }

  lemma {:induction false} NothingShared(n: nat, limit: nat)
    requires limit <= n
    ensures TailShared([], n, limit)
  {
  }

  lemma {:induction false} SuffixGrows(a: Bytes, b: Bytes, n: nat, tail: nat)
    requires |a| == n && |b| == n && 1 <= tail <= n
    requires a[n - (tail - 1)..] == b[n - (tail - 1)..] && a[n - tail] == b[n - tail]
    ensures a[n - tail..] == b[n - tail..]
  {
    assert a[n - tail..] == [a[n - tail]] + a[n - (tail - 1)..];
    assert b[n - tail..] == [b[n - tail]] + b[n - (tail - 1)..];
  }

  /** Once no tail is shared, the other addresses need no look. */
  lemma {:induction false} LongestZero(addrs: seq<Address>, n: nat, limit: nat, i: nat)
    requires limit <= n && i <= |addrs| && forall j :: 0 <= j < |addrs| ==> |addrs[j].bytes| == n
    requires Longest(addrs[..i], n, limit, 0)
    ensures Longest(addrs, n, limit, 0)
  {
    forall j | 0 <= j < |addrs| ensures addrs[j].bytes[n - 0..] == addrs[0].bytes[n - 0..] {
      assert addrs[j].bytes[n..] == [] && addrs[0].bytes[n..] == [];
    }
    assert addrs[..|addrs|] == addrs;
    if limit > 0 && TailShared(addrs, n, 1) {
      SharedByPrefix(addrs, n, 1, i, |addrs|);
    }
  }

  /** The loop that tests whether the shared tail is all zeros. */
  method IsZeroTail(bytes: Bytes, n: nat, tailLen: nat) returns (zero: bool)
    requires |bytes| == n && tailLen <= n
    ensures zero <==> tailLen > 0 && bytes[n - tailLen..] == Zeros(tailLen)
  {
    zero := tailLen > 0;
    var tail := 0;
    while zero && tail < tailLen
      invariant tail <= tailLen
      invariant zero ==> tailLen > 0 && forall p :: n - tail <= p < n ==> bytes[p] == 0
      invariant !zero ==> tailLen == 0 || exists p :: n - tailLen <= p < n && bytes[p] != 0
      decreases tailLen - tail, zero
    {
      if bytes[n - tail - 1] != 0 {
        zero := false;
      } else {
        tail := tail + 1;
      }
    }
    var end := bytes[n - tailLen..];
    if !zero && tailLen > 0 {
      var p :| n - tailLen <= p < n && bytes[p] != 0;
      assert end[p - (n - tailLen)] != 0;
    }
  }

  /** Put b into the buffer and move the pointer behind it. */
  method Put(buf: array<Byte>, ptr: nat, b: Bytes, ghost was: Bytes, ghost at: nat, ghost done: Bytes)
    returns (next: nat)
    requires |was| == buf.Length && ptr == at + |done| && ptr + |b| <= buf.Length
    requires buf[..] == Overwrite(was, at, done)
    modifies buf
    ensures next == ptr + |b| && buf[..] == Overwrite(was, at, done + b)
  {
    Copy(buf, ptr, b);
    OverwriteTwice(was, at, done, b);
    next := ptr + |b|;
  }

  method WriteHead(buf: array<Byte>, ptr: nat, head: Bytes, ghost was: Bytes, ghost at: nat, ghost done: Bytes)
    returns (next: nat)
    requires |was| == buf.Length && ptr == at + |done| && |head| < 256 && ptr + |HeadBytes(head)| <= buf.Length
    requires buf[..] == Overwrite(was, at, done)
    modifies buf
    ensures next == ptr + |HeadBytes(head)| && buf[..] == Overwrite(was, at, done + HeadBytes(head))
  {
    next := ptr;
    if |head| > 0 {
      next := Put(buf, next, [|head|], was, at, done);
      next := Put(buf, next, head, was, at, done + [|head|]);
      assert done + [|head|] + head == done + ([|head|] + head);
    } else {
      assert done + [] == done;
    }
  }

  method WriteTail(buf: array<Byte>, ptr: nat, tail: Bytes, zero: bool, ghost was: Bytes, ghost at: nat,
                   ghost done: Bytes)
    returns (next: nat)
    requires |was| == buf.Length && ptr == at + |done| && |tail| < 256 && ptr + |TailBytes(tail, zero)| <= buf.Length
    requires buf[..] == Overwrite(was, at, done)
    modifies buf
    ensures next == ptr + |TailBytes(tail, zero)| && buf[..] == Overwrite(was, at, done + TailBytes(tail, zero))
  {
    next := ptr;
    if |tail| > 0 {
      next := Put(buf, next, [|tail|], was, at, done);
      if !zero {
        next := Put(buf, next, tail, was, at, done + [|tail|]);
        assert done + [|tail|] + tail == done + ([|tail|] + tail);
      }
    } else {
      assert done + [] == done;
    }
  }

  /** The loop over the MID parts. */
  method WriteMids(buf: array<Byte>, ptr: nat, addrs: seq<Address>, from: nat, to: nat,
                   ghost was: Bytes, ghost at: nat, ghost done: Bytes) returns (next: nat)
    requires from <= to && forall i :: 0 <= i < |addrs| ==> to <= |addrs[i].bytes|
    requires |was| == buf.Length && ptr == at + |done| && ptr + |Mids(addrs, from, to)| <= buf.Length
    requires buf[..] == Overwrite(was, at, done)
    modifies buf
    ensures next == ptr + |Mids(addrs, from, to)| && buf[..] == Overwrite(was, at, done + Mids(addrs, from, to))
  {
    hide Overwrite;
    hide Mids;
    next := ptr;
    var i := 0;
    NoMids(addrs, from, to, done);
    while i < |addrs|
      invariant i <= |addrs| && next == ptr + |Mids(addrs[..i], from, to)| <= ptr + |Mids(addrs, from, to)|
      invariant buf[..] == Overwrite(was, at, done + Mids(addrs[..i], from, to))
    {
      MidsStep(addrs, from, to, i, done);
      next := Put(buf, next, addrs[i].bytes[from..to], was, at, done + Mids(addrs[..i], from, to));
      i := i + 1;
    }
    assert addrs[..i] == addrs;
  }

  lemma {:induction false} NoMids(addrs: seq<Address>, from: nat, to: nat, done: Bytes)
    requires from <= to && forall i :: 0 <= i < |addrs| ==> to <= |addrs[i].bytes|
    ensures Mids(addrs[..0], from, to) == [] && done + Mids(addrs[..0], from, to) == done
  {
  }

  lemma {:induction false} MidsStep(addrs: seq<Address>, from: nat, to: nat, i: nat, done: Bytes)
    requires from <= to && i < |addrs| && forall j :: 0 <= j < |addrs| ==> to <= |addrs[j].bytes|
    ensures var before, after := Mids(addrs[..i], from, to), Mids(addrs[..i + 1], from, to);
            && |after| == |before| + (to - from) && |after| <= |Mids(addrs, from, to)|
            && done + before + addrs[i].bytes[from..to] == done + after
  {
    assert addrs[..i + 1][..i] == addrs[..i];
    MidInside(|addrs|, to - from, i);
  }

  /** The prefix lengths: a loop over all of them, one, or none. */
  method WritePlens(buf: array<Byte>, ptr: nat, b: Block, n: nat, ghost was: Bytes, ghost at: nat, ghost done: Bytes)
    returns (next: nat)
    requires |b.addrs| > 0
    requires |was| == buf.Length && ptr == at + |done| && ptr + |PlenBytes(b, n)| <= buf.Length
    requires buf[..] == Overwrite(was, at, done)
    modifies buf
    ensures next == ptr + |PlenBytes(b, n)| && buf[..] == Overwrite(was, at, done + PlenBytes(b, n))
  {
    hide Overwrite;
    next := ptr;
    if b.multi {
      var i := 0;
      assert done + Plens(b.addrs)[..0] == done;
      while i < |b.addrs|
        invariant i <= |b.addrs| && next == ptr + i
        invariant buf[..] == Overwrite(was, at, done + Plens(b.addrs)[..i])
      {
        assert Plens(b.addrs)[..i + 1] == Plens(b.addrs)[..i] + [b.addrs[i].plen];
        assert done + Plens(b.addrs)[..i] + [b.addrs[i].plen] == done + Plens(b.addrs)[..i + 1];
        next := Put(buf, next, [b.addrs[i].plen], was, at, done + Plens(b.addrs)[..i]);
        i := i + 1;
      }
      assert Plens(b.addrs)[..i] == Plens(b.addrs);
    } else if b.addrs[0].plen != n * 8 {
      next := Put(buf, next, [b.addrs[0].plen], was, at, done);
    } else {
      assert done + [] == done;
    }
  }

  /** One round of the loop over the address blocks. */
  method WriteBlock(buf: array<Byte>, at: nat, b: Block, n: nat) returns (next: nat)
    requires ValidBlock(b, n) && at + |BlockBytes(b, n)| + 2 <= buf.Length
    modifies buf
    ensures next == at + |BlockBytes(b, n)| + 2
    ensures buf[..] == Overwrite(old(buf[..]), at, BlockBytes(b, n) + [0, 0])
  {
    hide Overwrite, BlockBytes, LongestTail;
    var headLen, tailLen, zero := 0, 0, false;
    if |b.addrs| != 1 {
      headLen := b.headLen;
      tailLen := FindTail(b.addrs, n, n - headLen - 1);
      zero := IsZeroTail(b.addrs[0].bytes, n, tailLen);
    }
    next := WriteParts(buf, at, b, n, headLen, tailLen, zero);
  }

  /** Header, head, tail, middles, prefix lengths, and the length of the empty TLV block. */
  method WriteParts(buf: array<Byte>, at: nat, b: Block, n: nat, headLen: nat, tailLen: nat, zero: bool)
    returns (next: nat)
    requires ValidBlock(b, n) && at + |BlockBytes(b, n)| + 2 <= buf.Length
    requires headLen == HeadLen(b) && tailLen == TailLen(b, n) && zero == ZeroTail(b, n)
    modifies buf
    ensures next == at + |BlockBytes(b, n)| + 2
    ensures buf[..] == Overwrite(old(buf[..]), at, BlockBytes(b, n) + [0, 0])
  {
    hide Overwrite, Mids, PlenBytes, HeadBytes, TailBytes, BlockFlags, BlockBytes, HeadLen, TailLen, ZeroTail;
    var first := b.addrs[0].bytes;
    var head, tail := first[..headLen], first[n - tailLen..];
    var flags := BlockFlags(headLen, tailLen, zero, b.multi, b.addrs[0].plen == n * 8);
    ghost var was := buf[..];
    ghost var hb, tb, mb, pb := HeadBytes(head), TailBytes(tail, zero), Mids(b.addrs, headLen, n - tailLen),
      PlenBytes(b, n);
    ghost var d0: Bytes := [|b.addrs|, flags];
    BlockIs(b, n);
    OverwriteNothing(was, at);
    next := Put(buf, at, [|b.addrs|, flags], was, at, []);
    assert [] + d0 == d0;
    next := WriteHead(buf, next, head, was, at, d0);
    next := WriteTail(buf, next, tail, zero, was, at, d0 + hb);
    next := WriteMids(buf, next, b.addrs, headLen, n - tailLen, was, at, d0 + hb + tb);
    next := WritePlens(buf, next, b, n, was, at, d0 + hb + tb + mb);
    next := Put(buf, next, [0, 0], was, at, d0 + hb + tb + mb + pb);
  }

  lemma {:induction false} BlockIs(b: Block, n: nat)
    requires ValidBlock(b, n)
    ensures var h, t, first := HeadLen(b), TailLen(b, n), b.addrs[0].bytes;
            h + t < n == |first|
            && [|b.addrs|, FlagsOf(b, n)] + HeadBytes(first[..h]) + TailBytes(first[n - t..], ZeroTail(b, n))
               + Mids(b.addrs, h, n - t) + PlenBytes(b, n) == BlockBytes(b, n)
  {
    hide Mids, PlenBytes, HeadBytes, TailBytes, FlagsOf, ZeroTail, LongestTail;
    var h, t, first := HeadLen(b), TailLen(b, n), b.addrs[0].bytes;
    LayOut(|b.addrs|, FlagsOf(b, n), HeadBytes(first[..h]), TailBytes(first[n - t..], ZeroTail(b, n)),
           Mids(b.addrs, h, n - t), PlenBytes(b, n));
  }

  lemma {:induction false} OverwriteNothing(was: Bytes, at: nat)
    requires at <= |was|
    ensures Overwrite(was, at, []) == was
  {
  }

  lemma {:induction false} LayOut(k: Byte, f: Byte, hb: Bytes, tb: Bytes, mb: Bytes, pb: Bytes)
    ensures [k, f] + hb + tb + mb + pb == [k] + ([f] + (hb + (tb + (mb + pb))))
  {
    assert [k, f] == [k] + [f];
  }

  /** The loop over the address blocks of _write_addresses; the result is bin_addr_size. */
  method WriteBlocks(buf: array<Byte>, at: nat, bs: seq<Block>, n: nat) returns (size: nat)
    requires ValidBlocks(bs, n) && at + |BlocksBytes(bs, n)| <= buf.Length
    modifies buf
    ensures size == |BlocksBytes(bs, n)|
    ensures buf[..] == Overwrite(old(buf[..]), at, BlocksBytes(bs, n))
  {
    hide Overwrite, BlockBytes, ValidBlock;
    ghost var was := buf[..];
    var ptr, i := at, 0;
    OverwriteNothing(was, at);
    assert bs[..0] == [];
    while i < |bs|
      invariant i <= |bs| && ptr == at + |BlocksBytes(bs[..i], n)| <= at + |BlocksBytes(bs, n)|
      invariant buf[..] == Overwrite(was, at, BlocksBytes(bs[..i], n))
    {
      BlocksBytesPrefix(bs, n, i);
      ghost var done, b := BlocksBytes(bs[..i], n), BlockBytes(bs[i], n) + [0, 0];
      OverwriteTwice(was, at, done, b);
      ptr := WriteBlock(buf, ptr, bs[i], n);
      i := i + 1;
    }
    assert bs[..i] == bs;
    size := ptr - at;
  }
}
