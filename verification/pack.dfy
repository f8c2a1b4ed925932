/** Length-encoded integers and strings of src/pack.cc. */
module Pack {
  import opened Bytes

  const MAX_LENGTH: nat := 0xFFFF_FFFF_FFFF_FFFF

  /** The wire form of a length, a 64-bit number. */
  function LengthBytes(n: nat): (s: seq<byte>)
    ensures 1 <= |s| <= 9
  {
    if n < 251 then [n]
    else if n < 65536 then [252] + Le(n, 2)
    else if n < 0x100_0000 then [253] + Le(n, 3)
    else [254] + Le(n, 8)
  }

  datatype Unpacked = Length(value: nat, used: nat) | NullSize | Wait

  /** What drizzle_unpack_length makes of the unread bytes: the branches of the
      source, in order. */
  function DecodeLength(s: seq<byte>): (r: Unpacked)
    requires s != []
    ensures r.Length? ==> 1 <= r.used <= |s| && r.value <= MAX_LENGTH
  {
    if s[0] < 251 then Length(s[0], 1)
    else if s[0] == 251 then NullSize
    else if s[0] == 252 && |s| > 2 then LengthField(s, 2)
    else if s[0] == 253 && |s| > 3 then LengthField(s, 3)
    else if |s| > 8 then LengthField(s, 8)
    else Wait
  }

  function LengthField(s: seq<byte>, k: nat): (r: Unpacked)
    requires |s| > k && k <= 8
    ensures r.Length? && r.used == k + 1 && r.value <= MAX_LENGTH
  {
    FieldFits(s[1..k + 1]);
    Length(LeValue(s[1..k + 1]), k + 1)
  }

  lemma FieldFits(s: seq<byte>)
    requires |s| <= 8
    ensures LeValue(s) <= MAX_LENGTH
  {
    LeOfValue(s);
    Spans();
    SpanGrows(|s|, 8);
  }

  lemma SpanGrows(j: nat, k: nat)
    requires j <= k
    ensures Span(j) <= Span(k)
    decreases k - j
  {
    if j < k {
      SpanGrows(j + 1, k);
    }
  }

  /** Unpacking inverts packing on every 64-bit length, whatever follows it. */
  lemma LengthRoundTrip(n: nat, rest: seq<byte>)
    requires n <= MAX_LENGTH
    ensures DecodeLength(LengthBytes(n) + rest) == Length(n, |LengthBytes(n)|)
  {
    Spans();
    var s := LengthBytes(n) + rest;
    var k := |LengthBytes(n)| - 1;
    if k > 0 {
      LeRoundTrip(n, k);
      assert s[1..k + 1] == Le(n, k);
    }
  }

  /** A cut-off length is never misread: the decoder waits, taking nothing. */
  lemma CutLengthWaits(n: nat, i: nat)
    requires n <= MAX_LENGTH && 0 < i < |LengthBytes(n)|
    ensures DecodeLength(LengthBytes(n)[..i]) == Wait
  {
  }

  /** Once the decoder has an answer, more bytes do not change it. */
  lemma MoreBytesSameLength(s: seq<byte>, more: seq<byte>)
    requires s != [] && !DecodeLength(s).Wait?
    ensures DecodeLength(s + more) == DecodeLength(s)
  {
    var k := if s[0] == 252 then 2 else if s[0] == 253 then 3 else 8;
    if |s| > k {
      assert (s + more)[1..k + 1] == s[1..k + 1];
    }
  }

  /** A length never starts with the NULL marker or the error marker, and starts
      with the EOF marker only from 2^24 on. */
  lemma FirstByte(n: nat)
    ensures LengthBytes(n)[0] != 251 && LengthBytes(n)[0] != 255
    ensures LengthBytes(n)[0] == 254 <==> n >= 0x100_0000
  {
  }

  /** drizzle_pack_length: writes at ptr and returns the pointer behind. */
  method PackLength(a: array<byte>, ptr: nat, number: nat) returns (end: nat)
    requires number <= MAX_LENGTH && ptr + |LengthBytes(number)| <= a.Length
    modifies a
    ensures end == ptr + |LengthBytes(number)|
    ensures a[..] == Splice(old(a[..]), ptr, LengthBytes(number))
  {
    hide Splice, Le;
    ghost var before := a[..];
    end := ptr;
    if number < 251 {
      Copy(a, end, [number]);
      end := end + 1;
    } else if number < 65536 {
      Copy(a, end, [252]);
      end := end + 1;
      Copy(a, end, Le(number, 2));
      end := end + 2;
      SpliceTwice(before, ptr, [252], Le(number, 2));
    } else if number < 16777216 {
      Copy(a, end, [253]);
      end := end + 1;
      Copy(a, end, Le(number, 3));
      end := end + 3;
      SpliceTwice(before, ptr, [253], Le(number, 3));
    } else {
      Copy(a, end, [254]);
      end := end + 1;
      Copy(a, end, Le(number, 8));
      end := end + 8;
      SpliceTwice(before, ptr, [254], Le(number, 8));
    }
  }

  function BinaryBytes(data: seq<byte>): seq<byte> {
    LengthBytes(|data|) + data
  }

  /** drizzle_pack_binary; drizzle_pack_string is the same on the characters
      before the terminator. */
  method PackBinary(a: array<byte>, ptr: nat, data: seq<byte>) returns (end: nat)
    requires |data| <= MAX_LENGTH && ptr + |BinaryBytes(data)| <= a.Length
    modifies a
    ensures end == ptr + |BinaryBytes(data)|
    ensures a[..] == Splice(old(a[..]), ptr, BinaryBytes(data))
  {
    hide LengthBytes, Splice;
    ghost var before, length := a[..], LengthBytes(|data|);
    end := PackLength(a, ptr, |data|);
    SpliceTwice(before, ptr, length, data);
    if |data| > 0 {
      Copy(a, end, data);
      end := end + |data|;
    } else {
      SpliceNothing(a[..], end, data);
    }
  }

  lemma SpliceNothing(s: seq<byte>, at: nat, piece: seq<byte>)
    requires at <= |s| && piece == []
    ensures Splice(s, at, piece) == s
  {
  }

  /** A string copied into a field of the given size, with a terminator behind it. */
  function Clip(s: seq<byte>, size: nat): (r: seq<byte>)
    requires size > 0
    ensures |r| < size
  {
    if |s| < size then s else s[..size - 1]
  }

  /** All of a string that fits, and the front of one that does not. */
  lemma ClipKeeps(s: seq<byte>, size: nat)
    requires size > 0
    ensures Clip(s, size) <= s && (Clip(s, size) == s || |Clip(s, size)| == size - 1)
  {
  }

  /** The index of the first NUL, or the length when there is none: memchr. */
  function FindZero(s: seq<byte>): (i: nat)
    ensures i <= |s| && 0 !in s[..i] && (i < |s| ==> s[i] == 0)
  {
    if s == [] || s[0] == 0 then 0
    else
      var i := FindZero(s[1..]);
      assert s[..i + 1] == [s[0]] + s[1..][..i];
      i + 1
  }

  /** What snprintf leaves of a text in a field of `size` bytes: it stops at a NUL. */
  function Text(s: seq<byte>, size: nat): (r: seq<byte>)
    requires size > 0
    ensures |r| < size && 0 !in r && r <= s
    ensures |r| == size - 1 || |r| == |s| || s[|r|] == 0
  {
    Clip(s[..FindZero(s)], size)
  }
}
