/** SHA-1 as FIPS PUB 180-4 defines it, on byte messages. */
module Sha1Spec {
  import opened Bytes

  type Word = bv32

  const DIGEST_LENGTH: nat := 20

  datatype State = State(a: Word, b: Word, c: Word, d: Word, e: Word)

  /** Section 5.3.1. */
  const Initial := State(0x67452301, 0xEFCDAB89, 0x98BADCFE, 0x10325476, 0xC3D2E1F0)

  /** Section 3.2, operation 5. */
  function Rotl(x: Word, n: Word): Word
    requires n <= 32
  {
    (x << n) | (x >> (32 - n))
  }

  // Section 4.1.1.
  function Ch(x: Word, y: Word, z: Word): Word { (x & y) ^ (!x & z) }

  function Parity(x: Word, y: Word, z: Word): Word { x ^ y ^ z }

  function Maj(x: Word, y: Word, z: Word): Word { (x & y) ^ (x & z) ^ (y & z) }

  function F(t: nat, x: Word, y: Word, z: Word): Word {
    if t < 20 then Ch(x, y, z)
    else if t < 40 then Parity(x, y, z)
    else if t < 60 then Maj(x, y, z)
    else Parity(x, y, z)
  }

  /** Section 4.2.1. */
  function K(t: nat): Word {
    if t < 20 then 0x5A827999
    else if t < 40 then 0x6ED9EBA1
    else if t < 60 then 0x8F1BBCDC
    else 0xCA62C1D6
  }

  /** Section 6.1.2, step 1: word t of the message schedule of the block m. */
  function W(m: seq<Word>, t: nat): Word
    requires |m| == 16
  {
    if t < 16 then m[t]
    else Expand(W(m, t - 3), W(m, t - 8), W(m, t - 14), W(m, t - 16))
  }

  function Expand(w3: Word, w8: Word, w14: Word, w16: Word): Word {
    Rotl(w3 ^ w8 ^ w14 ^ w16, 1)
  }

  /** The value T of section 6.1.2, step 3. */
  function Temp(a: Word, f: Word, e: Word, k: Word, w: Word): Word {
    Rotl(a, 5) + f + e + k + w
  }

  /** Section 6.1.2, step 3: one round with constant k and schedule word w. */
  function Round(s: State, f: Word, k: Word, w: Word): State {
    State(Temp(s.a, f, s.e, k, w), s.a, Rotl(s.b, 30), s.c, s.d)
  }

  /** The working variables after the first t rounds. */
  function Rounds(h: State, m: seq<Word>, t: nat): State
    requires |m| == 16
  {
    if t == 0 then h
    else
      var s := Rounds(h, m, t - 1);
      Round(s, F(t - 1, s.b, s.c, s.d), K(t - 1), W(m, t - 1))
  }

  /** Addition modulo 2^32, section 3.2, operation 4. */
  function Plus(x: Word, y: Word): Word { x + y }

  function AddStates(s: State, u: State): State {
    State(Plus(s.a, u.a), Plus(s.b, u.b), Plus(s.c, u.c), Plus(s.d, u.d), Plus(s.e, u.e))
  }

  /** A big-endian word. */
  function BeWord(b0: Octet, b1: Octet, b2: Octet, b3: Octet): Word {
    ((b0 as Word) << 24) | ((b1 as Word) << 16) | ((b2 as Word) << 8) | (b3 as Word)
  }

  /** The sixteen words of a block, section 5.2.1. */
  function Words(block: seq<Octet>): (m: seq<Word>)
    requires |block| == 64
    ensures |m| == 16
  {
    seq(16, i requires 0 <= i < 16 =>
      BeWord(block[4 * i], block[4 * i + 1], block[4 * i + 2], block[4 * i + 3]))
  }

  /** Section 6.1.2 for one block: steps 1 to 4. */
  function Compress(h: State, block: seq<Octet>): State
    requires |block| == 64
  {
    AddStates(h, Rounds(h, Words(block), 80))
  }

  /** Section 6.1.2 for all blocks in order. */
  function Blocks(s: seq<Octet>): State
    requires |s| % 64 == 0
  {
    if |s| == 0 then Initial
    else
      var last := |s| - 64;
      Compress(Blocks(s[..last]), s[last..])
  }

  /** The number of zero bytes between the 0x80 byte and the length field. */
  function PadZeros(length: nat): (k: nat)
    ensures (length + 1 + k + 8) % 64 == 0 && k < 64
  {
    (119 - length % 64) % 64
  }

  /** The k low bytes of n, most significant first. */
  function Be(n: nat, k: nat): (s: seq<Octet>)
    ensures |s| == k
  {
    if k == 0 then [] else Be(n / 256, k - 1) + [Bits(n % 256)]
  }

  /** The message length in bits as a 64-bit big-endian field.  Section 5.1.1
      only admits messages below 2^64 bits; beyond that the count wraps. */
  function BitCount(length: nat): (s: seq<Octet>)
    ensures |s| == 8
  {
    Be(8 * length % 0x1_0000_0000_0000_0000, 8)
  }

  /** Section 5.1.1. */
  function Pad(msg: seq<Octet>): (r: seq<Octet>)
    ensures |r| % 64 == 0
  {
    msg + [0x80] + seq(PadZeros(|msg|), _ => 0) + BitCount(|msg|)
  }

  /** Byte i of a word, the most significant first. */
  function WordByte(w: Word, i: nat): Octet
    requires i < 4
  {
    if i == 0 then ((w >> 24) & 255) as bv8
    else if i == 1 then ((w >> 16) & 255) as bv8
    else if i == 2 then ((w >> 8) & 255) as bv8
    else (w & 255) as bv8
  }

  function WordBytes(w: Word): (s: seq<Octet>)
    ensures |s| == 4
  {
    [WordByte(w, 0), WordByte(w, 1), WordByte(w, 2), WordByte(w, 3)]
  }

  /** The message digest of a final state. */
  function DigestOf(h: State): (s: seq<Octet>)
    ensures |s| == DIGEST_LENGTH
  {
    WordBytes(h.a) + WordBytes(h.b) + WordBytes(h.c) + WordBytes(h.d) + WordBytes(h.e)
  }

  function Hash(msg: seq<Octet>): (digest: seq<Octet>)
    ensures |digest| == DIGEST_LENGTH
  {
    DigestOf(Blocks(Pad(msg)))
  }

  /** The padding is the one of section 5.1.1: after the message's l bits and a
      one bit come k zero bits, k being the smallest non-negative solution of
      l + 1 + k = 448 (mod 512). */
  lemma PaddingIsSmallest(msg: seq<Octet>, j: nat)
    ensures (8 * |msg| + 1 + 7 + 8 * PadZeros(|msg|)) % 512 == 448
    ensures (8 * |msg| + 1 + j) % 512 == 448 ==> j >= 7 + 8 * PadZeros(|msg|)
  {
    hide PadZeros;
    var k := PadZeros(|msg|);
    EightTimes(|msg| + 1 + k);
    SmallestSolution(8 * |msg| + 1, 7 + 8 * k, j);
  }

  lemma EightTimes(x: nat)
    requires (x + 8) % 64 == 0
    ensures 8 * x % 512 == 448
  {
    var q := (x + 8) / 64;
    assert 8 * x == 448 + 512 * (q - 1);
  }

  lemma SmallestSolution(l: nat, k: nat, j: nat)
    requires (l + k) % 512 == 448 && k < 512
    ensures (l + j) % 512 == 448 ==> j >= k
  {
    var q := (l + k) / 512 - (l + j) / 512;
    if (l + j) % 512 == 448 {
      assert k - j == 512 * q;
    }
  }
}
