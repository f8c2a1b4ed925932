/** Bytes, little-endian integers and the block copies the C code does with
    memcpy.  The macros they stand for are drizzle_get_byteN and
    drizzle_set_byteN of include/libdrizzle-redux/constants.h. */
module Bytes {
  /** A byte as a number: what lengths, counters and text are made of. */
  type byte = x: int | 0 <= x < 256

  /** A byte as eight bits: what hashes, masks and bitmaps are made of. */
  type Octet = bv8

  /** The number eight bits stand for. */
  function Wire(o: Octet): byte {
    o as int
  }

  /** The eight bits of a number, counted up from zero. */
  function Bits(b: byte): (o: Octet)
    ensures Wire(o) == b
  {
    if b == 0 then 0 else Successor(Bits(b - 1))
  }

  function Successor(o: Octet): (r: Octet)
    requires Wire(o) < 255
    ensures Wire(r) == Wire(o) + 1
  {
    o + 1
  }

  /** Bits undoes Wire. */
  lemma BitsOfWire(o: Octet)
    ensures Bits(Wire(o)) == o
  {
    WireInjective(Bits(Wire(o)), o);
  }

  lemma WireInjective(o: Octet, p: Octet)
    requires Wire(o) == Wire(p)
    ensures o == p
  {
  }

  /** Byte strings between the two views. */
  function OctetsOf(s: seq<byte>): (r: seq<Octet>)
    ensures |r| == |s|
  {
    seq(|s|, k requires 0 <= k < |s| => Bits(s[k]))
  }

  function WireOf(s: seq<Octet>): (r: seq<byte>)
    ensures |r| == |s|
  {
    seq(|s|, k requires 0 <= k < |s| => Wire(s[k]))
  }

  lemma OctetsOfWire(s: seq<Octet>)
    ensures OctetsOf(WireOf(s)) == s
  {
    hide Bits, Wire;
    forall k | 0 <= k < |s|
      ensures Bits(Wire(s[k])) == s[k]
    {
      BitsOfWire(s[k]);
    }
  }

  lemma WireOfOctets(s: seq<byte>)
    ensures WireOf(OctetsOf(s)) == s
  {
    hide Bits, Wire;
  }

  /** 256 to the power k: the number of values k bytes can hold. */
  function Span(k: nat): (r: nat)
    ensures r >= 1
  {
    if k == 0 then 1 else 256 * Span(k - 1)
  }

  /** The k low bytes of n, least significant first: drizzle_set_byteN. */
  function Le(n: nat, k: nat): (s: seq<byte>)
    ensures |s| == k
  {
    if k == 0 then [] else [n % 256] + Le(n / 256, k - 1)
  }

  /** The integer whose bytes are s, least significant first: drizzle_get_byteN. */
  function LeValue(s: seq<byte>): nat {
    if s == [] then 0 else s[0] + 256 * LeValue(s[1..])
  }

  /** A value that fits k bytes is recovered from them. */
  lemma {:induction false} LeRoundTrip(n: nat, k: nat)
    requires n < Span(k)
    ensures LeValue(Le(n, k)) == n
  {
    if k == 0 {
    } else {
      LeRoundTrip(n / 256, k - 1);
      assert Le(n, k)[1..] == Le(n / 256, k - 1);
    }
  }

  /** Every byte string is the encoding of its value. */
  lemma {:induction false} LeOfValue(s: seq<byte>)
    ensures LeValue(s) < Span(|s|)
    ensures Le(LeValue(s), |s|) == s
  {
    if s == [] {
    } else {
      LeOfValue(s[1..]);
      var v := LeValue(s);
      assert v / 256 == LeValue(s[1..]) && v % 256 == s[0];
      assert s == [s[0]] + s[1..];
    }
  }

  /** The spans of the field widths the protocol uses. */
  lemma Spans()
    ensures Span(1) == 256 && Span(2) == 65536 && Span(3) == 0x100_0000
    ensures Span(4) == 0x1_0000_0000 && Span(8) == 0x1_0000_0000_0000_0000
  {
    assert Span(4) == 256 * Span(3);
    assert Span(8) == 256 * Span(7) && Span(7) == 256 * Span(6) && Span(6) == 256 * Span(5);
  }

  /** s with piece written over it from index at on: what memcpy leaves behind. */
  function Splice<T>(s: seq<T>, at: nat, piece: seq<T>): (r: seq<T>)
    requires at + |piece| <= |s|
    ensures |r| == |s|
  {
    s[..at] + piece + s[at + |piece|..]
  }

  /** memcpy into an array. */
  method Copy<T>(a: array<T>, at: nat, piece: seq<T>)
    requires at + |piece| <= a.Length
    modifies a
    ensures a[..] == Splice(old(a[..]), at, piece)
  {
    forall i | 0 <= i < |piece| {
      a[at + i] := piece[i];
    }
    assert forall i :: 0 <= i < |piece| ==> a[at + i] == piece[i];
    assert a[at..at + |piece|] == piece;
  }

  /** Writing two pieces one behind the other is writing their concatenation. */
  lemma SpliceTwice<T>(s: seq<T>, at: nat, p: seq<T>, q: seq<T>)
    requires at + |p| + |q| <= |s|
    ensures Splice(Splice(s, at, p), at + |p|, q) == Splice(s, at, p + q)
  {
  }

  /** The same when the piece behind is written first. */
  lemma SpliceBefore<T>(s: seq<T>, at: nat, p: seq<T>, q: seq<T>)
    requires at + |p| + |q| <= |s|
    ensures Splice(Splice(s, at + |p|, q), at, p) == Splice(s, at, p + q)
  {
  }

  lemma Regroup<T>(a: seq<T>, b: seq<T>, c: seq<T>)
    ensures (a + b) + c == a + (b + c)
  {
  }

  lemma SliceOfSlice<T>(s: seq<T>, at: nat, n: nat, j: nat, k: nat)
    requires at + n <= |s| && j <= k <= n
    ensures s[at..at + n][j..k] == s[at + j..at + k]
  {
    var l, r := s[at..at + n][j..k], s[at + j..at + k];
    assert forall i :: 0 <= i < |r| ==> l[i] == r[i];
  }

  lemma SliceOfTail<T>(s: seq<T>, j: nat, k: nat)
    requires j + k <= |s|
    ensures s[j..][..k] == s[j..j + k] && s[j..][k..] == s[j + k..]
  {
  }
}
