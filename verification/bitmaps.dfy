/** NULL bitmaps: setting, testing and counting bits the way src/field.cc and
    src/statement.cc do. */
module Bitmaps {
  import opened Bytes

  /** The mask 1 << k. */
  function Mask(k: nat): (m: Octet)
    requires k < 8
  {
    if k == 0 then 1 else if k == 1 then 2 else if k == 2 then 4 else if k == 3 then 8
    else if k == 4 then 16 else if k == 5 then 32 else if k == 6 then 64 else 128
  }

  predicate HasBit(o: Octet, k: nat)
    requires k < 8
  {
    o & Mask(k) != 0
  }

  /** Bit j of a bitmap, counted from its first byte on. */
  predicate BitAt(bitmap: seq<Octet>, j: nat)
    requires j < 8 * |bitmap|
  {
    HasBit(bitmap[j / 8], j % 8)
  }

  function One(b: bool): nat {
    if b then 1 else 0
  }

  /** The number of bits set among the first k of a byte. */
  function ByteCount(o: Octet, k: nat): nat
    requires k <= 8
  {
    if k == 0 then 0 else ByteCount(o, k - 1) + One(HasBit(o, k - 1))
  }

  /** The number of bits set among the first n of a bitmap. */
  function CountBits(bitmap: seq<Octet>, n: nat): nat
    requires n <= 8 * |bitmap|
  {
    if n == 0 then 0 else CountBits(bitmap, n - 1) + One(BitAt(bitmap, n - 1))
  }

  function Eight(b0: bool, b1: bool, b2: bool, b3: bool, b4: bool, b5: bool, b6: bool, b7: bool): nat {
    One(b0) + One(b1) + One(b2) + One(b3) + One(b4) + One(b5) + One(b6) + One(b7)
  }

  lemma ByteCountIs(o: Octet)
    ensures ByteCount(o, 8) ==
      Eight(o & 1 != 0, o & 2 != 0, o & 4 != 0, o & 8 != 0, o & 16 != 0, o & 32 != 0, o & 64 != 0, o & 128 != 0)
  {
    hide HasBit, ByteCount;
    EmptyCount(o);
    NextBit(o, 0); NextBit(o, 1); NextBit(o, 2); NextBit(o, 3);
    NextBit(o, 4); NextBit(o, 5); NextBit(o, 6); NextBit(o, 7);
    BitsAre(o);
  }

  lemma EmptyCount(o: Octet)
    ensures ByteCount(o, 0) == 0
  {
  }

  lemma BitsAre(o: Octet)
    ensures HasBit(o, 0) == (o & 1 != 0) && HasBit(o, 1) == (o & 2 != 0) && HasBit(o, 2) == (o & 4 != 0)
    ensures HasBit(o, 3) == (o & 8 != 0) && HasBit(o, 4) == (o & 16 != 0) && HasBit(o, 5) == (o & 32 != 0)
    ensures HasBit(o, 6) == (o & 64 != 0) && HasBit(o, 7) == (o & 128 != 0)
  {
  }

  lemma NextBit(o: Octet, k: nat)
    requires k < 8
    ensures ByteCount(o, k + 1) == ByteCount(o, k) + One(HasBit(o, k))
  {
  }

  /** data &= data - 1 clears exactly one bit. */
  lemma ClearsOne(o: Octet)
    requires o != 0
    ensures ByteCount(o & (o - 1), 8) == ByteCount(o, 8) - 1
  {
    ByteCountIs(o);
    ByteCountIs(o & (o - 1));
  }

  lemma NoBits(k: nat)
    requires k <= 8
    ensures ByteCount(0, k) == 0
  {
  }

  /** The counting loop of drizzle_state_binary_null_read. */
  method CountSetBits(bitmap: seq<Octet>) returns (count: nat)
    ensures count == CountBits(bitmap, 8 * |bitmap|)
  {
    hide CountBits, ByteCount;
    count := 0;
    CountNone(bitmap);
    var it := 0;
    while it < |bitmap|
      invariant it <= |bitmap| && count == CountBits(bitmap, 8 * it)
    {
      var data := bitmap[it];
      ghost var before := count;
      while data != 0
        invariant count + ByteCount(data, 8) == before + ByteCount(bitmap[it], 8)
        decreases data
      {
        ClearsOne(data);
        Smaller(data);
        data := data & (data - 1);
        count := count + 1;
      }
      NoBits(8);
      CountByte(bitmap, it, 8);
      it := it + 1;
    }
  }

  lemma Smaller(o: Octet)
    requires o != 0
    ensures o & (o - 1) < o
  {
  }

  lemma CountNone(bitmap: seq<Octet>)
    ensures CountBits(bitmap, 0) == 0
  {
  }

  lemma {:induction false} CountByte(bitmap: seq<Octet>, i: nat, k: nat)
    requires i < |bitmap| && k <= 8
    ensures CountBits(bitmap, 8 * i + k) == CountBits(bitmap, 8 * i) + ByteCount(bitmap[i], k)
  {
    hide HasBit;
    if k > 0 {
      CountByte(bitmap, i, k - 1);
      assert (8 * i + k - 1) / 8 == i && (8 * i + k - 1) % 8 == k - 1;
    }
  }

  /** Bits between two positions. */
  lemma {:induction false} CountGrows(bitmap: seq<Octet>, j: nat, n: nat)
    requires j <= n <= 8 * |bitmap|
    ensures CountBits(bitmap, j) <= CountBits(bitmap, n)
    ensures CountBits(bitmap, n) - CountBits(bitmap, j) <= n - j
    ensures CountBits(bitmap, j) == CountBits(bitmap, n) <==> forall i :: j <= i < n ==> !BitAt(bitmap, i)
    decreases n
  {
    hide BitAt;
    if j < n {
      CountGrows(bitmap, j, n - 1);
    }
  }

  /** The byte with bit k set as well: bitmap[i] |= 1 << k. */
  lemma SetBit(o: Octet, k: nat, j: nat)
    requires k < 8 && j < 8
    ensures HasBit(o | Mask(k), j) <==> HasBit(o, j) || j == k
  {
  }
}
