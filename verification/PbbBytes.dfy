/** Bytes, result codes and the reading cursor of lib/packetbb. */
module PbbBytes {
  type Byte = x: int | 0 <= x < 256
  type Bytes = seq<Byte>

  /** The results of enum pbb_result that the modelled code can give.  Undefined stands for input on
      which the C code divides by zero or copies outside an address. */
  datatype Code =
    | Okay
    | UnsupportedVersion
    | EndOfBuffer
    | BadTlvIdxFlags
    | BadTlvValueFlags
    | BadTlvLength
    | EmptyAddrBlock
    | BadTailFlags
    | BadPrefixFlags
    | MtuTooSmall
    | Undefined

  /** What a parser gives: a value and the position behind it, or the error that stops the packet. */
  datatype Parsed<+T> = Parsed(value: T, next: nat) | Failed(code: Code)

  /** bit is set in flags; bit is a power of two. */
  predicate Has(flags: Byte, bit: nat)
    requires bit > 0
  {
    (flags / bit) % 2 == 1
  }

  /** The high and the low byte of a 16-bit field; higher bits are cut off. */
  function High(n: nat): Byte { (n / 256) % 256 }

  function Low(n: nat): Byte { n % 256 }

  lemma {:induction false} HighLow(n: nat)
    requires n < 65536
    ensures High(n) * 256 + Low(n) == n
  {
  }

  /** A read position and the first error met so far. */
  datatype Cursor = Cursor(pos: nat, code: Code)

  /** _pbb_get_u8: an earlier error sticks and reads as 0. */
  function GetU8(buf: Bytes, c: Cursor, end: nat): (r: (Byte, Cursor))
    requires end <= |buf|
  {
    if c.code != Okay then (0, c)
    else if c.pos >= end then (0, c.(code := EndOfBuffer))
    else (buf[c.pos], c.(pos := c.pos + 1))
  }

  /** _pbb_get_u16 */
  function GetU16(buf: Bytes, c: Cursor, end: nat): (r: (nat, Cursor))
    requires end <= |buf|
    ensures r.0 < 65536
  {
    var hi := GetU8(buf, c, end);
    var lo := GetU8(buf, hi.1, end);
    (hi.0 * 256 + lo.0, lo.1)
  }

  // ---------------------------------------------------------------- pieces of a buffer

  /** s stands in buf at pos. */
  ghost predicate Stands(buf: Bytes, pos: nat, s: Bytes) {
    pos + |s| <= |buf| && buf[pos..pos + |s|] == s
  }

  lemma {:induction false} StandsAt(buf: Bytes, pos: nat, s: Bytes, i: nat)
    requires Stands(buf, pos, s) && i < |s|
    ensures buf[pos + i] == s[i]
  {
  }

  lemma {:induction false} StandsIs(buf: Bytes, pos: nat, s: Bytes)
    requires Stands(buf, pos, s)
    ensures pos + |s| <= |buf| && buf[pos..pos + |s|] == s
  {
  }

  lemma {:induction false} StandsSplit(buf: Bytes, pos: nat, a: Bytes, b: Bytes)
    ensures Stands(buf, pos, a + b) <==> Stands(buf, pos, a) && Stands(buf, pos + |a|, b)
  {
    if Stands(buf, pos, a + b) {
      assert a == (a + b)[..|a|] == buf[pos..pos + |a|];
      assert b == (a + b)[|a|..] == buf[pos + |a|..pos + |a| + |b|];
    }
  }

  lemma {:induction false} StandsHead(buf: Bytes, pos: nat, x: Byte, s: Bytes)
    requires Stands(buf, pos, [x] + s)
    ensures buf[pos] == x && Stands(buf, pos + 1, s)
  {
    StandsSplit(buf, pos, [x], s);
    StandsAt(buf, pos, [x], 0);
  }

  // ---------------------------------------------------------------- writing

  /** buf with b put at position at. */
  function Overwrite(buf: Bytes, at: nat, b: Bytes): (r: Bytes)
    requires at + |b| <= |buf|
    ensures |r| == |buf| && Stands(r, at, b)
  {
    buf[..at] + b + buf[at + |b|..]
  }

  /** Two writes in a row are one write. */
  lemma {:induction false} OverwriteTwice(buf: Bytes, at: nat, a: Bytes, b: Bytes)
    requires at + |a| + |b| <= |buf|
    ensures Overwrite(Overwrite(buf, at, a), at + |a|, b) == Overwrite(buf, at, a + b)
  {
  }

  /** From position at on, now is what was. */
  ghost predicate SameFrom(was: Bytes, now: Bytes, at: nat) {
    |was| == |now| && forall i :: at <= i < |was| ==> now[i] == was[i]
  }

  lemma {:induction false} SameFromOn(a: Bytes, b: Bytes, c: Bytes, p: nat, q: nat)
    requires SameFrom(a, b, p) && SameFrom(b, c, q)
    ensures SameFrom(a, c, if p <= q then q else p)
  {
  }

  lemma {:induction false} SameBehind(buf: Bytes, at: nat, b: Bytes)
    requires at + |b| <= |buf|
    ensures SameFrom(buf, Overwrite(buf, at, b), at + |b|)
  {
  }

  lemma {:induction false} SameSelf(buf: Bytes, at: nat)
    ensures SameFrom(buf, buf, at)
  {
  }

  lemma {:induction false} StandsGrow(buf: Bytes, pos: nat, a: Bytes, b: Bytes)
    requires |a| > 0 ==> Stands(buf, pos, a)
    requires pos + |a| + |b| <= |buf|
    ensures Stands(Overwrite(buf, pos + |a|, b), pos, a + b)
  {
    var r := Overwrite(buf, pos + |a|, b);
    assert Stands(r, pos, a) by { assert r[pos..pos + |a|] == buf[pos..pos + |a|]; }
    StandsSplit(r, pos, a, b);
  }

  lemma {:induction false} StandsInside(buf: Bytes, pos: nat, s: Bytes)
    requires Stands(buf, pos, s)
    ensures pos + |s| <= |buf|
  {
  }

  /** A write elsewhere leaves s where it stands. */
  lemma {:induction false} StandsStays(buf: Bytes, pos: nat, s: Bytes, at: nat, b: Bytes)
    requires Stands(buf, pos, s) && at + |b| <= |buf| && (at + |b| <= pos || pos + |s| <= at)
    ensures Stands(Overwrite(buf, at, b), pos, s)
  {
    var r := Overwrite(buf, at, b);
    assert r[pos..pos + |s|] == buf[pos..pos + |s|];
  }

  /** memcpy of src to dst[at..]. */
  method Copy(dst: array<Byte>, at: nat, src: Bytes)
    requires at + |src| <= dst.Length
    modifies dst
    ensures dst[..] == Overwrite(old(dst[..]), at, src)
  {
    var i := 0;
    while i < |src|
      invariant i <= |src|
      invariant dst[..] == Overwrite(old(dst[..]), at, src[..i])
    {
      dst[at + i] := src[i];
      i := i + 1;
    }
    assert src[..i] == src;
  }
}
