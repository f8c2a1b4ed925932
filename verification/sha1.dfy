/** The SHA-1 of src/sha1.cc: an unrolled transform that expands the message
    schedule inside the sixteen-word block, and a streaming front end.  Every
    method is proved against Sha1Spec. */
module Sha1 {
  import opened Bytes
  import opened Sha1Spec

  /** A word as a little-endian machine reads it from memory. */
  function LeWord(b0: Octet, b1: Octet, b2: Octet, b3: Octet): Word {
    (b0 as Word) | ((b1 as Word) << 8) | ((b2 as Word) << 16) | ((b3 as Word) << 24)
  }

  // The bit operations of the macros, and what they stand for.

  lemma ChForm(w: Word, x: Word, y: Word)
    ensures (w & (x ^ y)) ^ y == Ch(w, x, y)
  {
  }

  lemma MajForm(w: Word, x: Word, y: Word)
    ensures ((w | x) & y) | (w & x) == Maj(w, x, y)
  {
  }

  /** The rotations by rol. */
  lemma RolForm(x: Word)
    ensures (x << 1) | (x >> 31) == Rotl(x, 1) && (x << 5) | (x >> 27) == Rotl(x, 5)
    ensures (x << 30) | (x >> 2) == Rotl(x, 30)
    ensures (x << 24) | (x >> 8) == Rotl(x, 24) && (x << 8) | (x >> 24) == Rotl(x, 8)
  {
  }

  /** The word that blk computes from four words of the block. */
  function BlkWord(w3: Word, w8: Word, w14: Word, w16: Word): Word {
    var x := w3 ^ w8 ^ w14 ^ w16;
    (x << 1) | (x >> 31)
  }

  lemma ExpandForm(w3: Word, w8: Word, w14: Word, w16: Word)
    ensures var x := w3 ^ w8 ^ w14 ^ w16; Expand(w3, w8, w14, w16) == (x << 1) | (x >> 31)
  {
    hide Rotl;
    RolForm(w3 ^ w8 ^ w14 ^ w16);
  }

  lemma BlkWordIs(w3: Word, w8: Word, w14: Word, w16: Word)
    ensures BlkWord(w3, w8, w14, w16) == Expand(w3, w8, w14, w16)
  {
    hide Expand;
    ExpandForm(w3, w8, w14, w16);
  }

  /** The byte swap of blk0 turns the little-endian reading into the big-endian one. */
  lemma SwapForm(b0: Octet, b1: Octet, b2: Octet, b3: Octet)
    ensures var l := LeWord(b0, b1, b2, b3);
      (((l << 24) | (l >> 8)) & 0xFF00FF00) | (((l << 8) | (l >> 24)) & 0x00FF00FF) == BeWord(b0, b1, b2, b3)
  {
  }

  /** v, w, x, y, z hold the working variables after t rounds. */
  ghost predicate At(h: State, m: seq<Word>, t: nat, v: Word, w: Word, x: Word, y: Word, z: Word)
    requires |m| == 16
  {
    Rounds(h, m, t) == State(v, w, x, y, z)
  }

  /** What the macros R0 to R4 add up for their argument z. */
  function Mixed(z: Word, f: Word, word: Word, k: Word, v: Word): Word {
    Sum(z, f, word, k, (v << 5) | (v >> 27))
  }

  function Sum(z: Word, f: Word, word: Word, k: Word, r: Word): Word {
    z + (f + word + k + r)
  }

  lemma SumIsTemp(z: Word, f: Word, word: Word, k: Word, v: Word)
    ensures Sum(z, f, word, k, Rotl(v, 5)) == Temp(v, f, z, k, word)
  {
    hide Rotl;
  }

  lemma MixedIsTemp(z: Word, f: Word, word: Word, k: Word, v: Word)
    ensures Mixed(z, f, word, k, v) == Temp(v, f, z, k, word)
  {
    hide Rotl, Sum, Temp;
    RolForm(v);
    SumIsTemp(z, f, word, k, v);
  }

  /** One round, with the roles of the variables rotated instead of their values. */
  lemma Advance(h: State, m: seq<Word>, t: nat, v: Word, w: Word, x: Word, y: Word, z: Word,
                f: Word, k: Word)
    requires |m| == 16
    requires At(h, m, t, v, w, x, y, z)
    requires f == F(t, w, x, y) && k == K(t)
    ensures At(h, m, t + 1, Mixed(z, f, W(m, t), k, v), v, (w << 30) | (w >> 2), x, y)
  {
    hide Rotl, F, K, W, Rounds, Mixed, Temp;
    RoundsStep(h, m, t);
    MixedIsTemp(z, f, W(m, t), K(t), v);
    RolForm(w);
  }

  lemma RoundsStep(h: State, m: seq<Word>, t: nat)
    requires |m| == 16
    ensures var s := Rounds(h, m, t);
      Rounds(h, m, t + 1) == Round(s, F(t, s.b, s.c, s.d), K(t), W(m, t))
  {
    hide Round, F, K, W;
  }

  /** The function and constant of each group of twenty rounds. */
  lemma Groups(t: nat, x: Word, y: Word, z: Word)
    ensures t < 20 ==> F(t, x, y, z) == Ch(x, y, z) && K(t) == 0x5A827999
    ensures 20 <= t < 40 ==> F(t, x, y, z) == Parity(x, y, z) && K(t) == 0x6ED9EBA1
    ensures 40 <= t < 60 ==> F(t, x, y, z) == Maj(x, y, z) && K(t) == 0x8F1BBCDC
    ensures 60 <= t < 80 ==> F(t, x, y, z) == Parity(x, y, z) && K(t) == 0xCA62C1D6
  {
    hide Ch, Parity, Maj;
  }

  lemma ScheduleStep(m: seq<Word>, t: nat)
    requires |m| == 16 && t >= 16
    ensures W(m, t) == Expand(W(m, t - 3), W(m, t - 8), W(m, t - 14), W(m, t - 16))
  {
    hide Expand;
  }

  /** The first i words are swapped, the others are as copied from the buffer. */
  ghost predicate Loaded(block: seq<Word>, bytes: seq<Octet>, i: nat)
    requires |bytes| == 64
  {
    && |block| == 16
    && i <= 16
    && (forall j :: 0 <= j < i ==> block[j] == Words(bytes)[j])
    && (forall j :: i <= j < 16 ==>
          block[j] == LeWord(bytes[4 * j], bytes[4 * j + 1], bytes[4 * j + 2], bytes[4 * j + 3]))
  }

  /** The block holds the last sixteen words of the schedule before word t. */
  ghost predicate Circular(block: seq<Word>, m: seq<Word>, t: nat)
    requires |m| == 16
  {
    && |block| == 16
    && t >= 16
    && (forall j :: t - 16 <= j < t ==> block[j % 16] == W(m, j))
  }

  lemma LoadedIsCircular(block: seq<Word>, bytes: seq<Octet>)
    requires |bytes| == 64
    requires Loaded(block, bytes, 16)
    ensures Circular(block, Words(bytes), 16)
  {
  }

  lemma CircularAt(block: seq<Word>, m: seq<Word>, t: nat)
    requires |m| == 16
    requires Circular(block, m, t)
    ensures block[(t + 13) % 16] == W(m, t - 3) && block[(t + 8) % 16] == W(m, t - 8)
    ensures block[(t + 2) % 16] == W(m, t - 14) && block[t % 16] == W(m, t - 16)
  {
    hide W;
    assert (t + 13) % 16 == (t - 3) % 16 && (t + 8) % 16 == (t - 8) % 16;
    assert (t + 2) % 16 == (t - 14) % 16 && t % 16 == (t - 16) % 16;
  }

  /** Writing word t where word t - 16 was keeps the window. */
  lemma CircularStep(block: seq<Word>, m: seq<Word>, t: nat)
    requires |m| == 16
    requires Circular(block, m, t)
    ensures Circular(block[t % 16 := W(m, t)], m, t + 1)
  {
    hide W;
    forall j | t + 1 - 16 <= j < t
      ensures j % 16 != t % 16
    {
    }
  }

  /** The macro blk0. */
  method Blk0(block: array<Word>, i: nat, ghost bytes: seq<Octet>) returns (word: Word)
    requires |bytes| == 64 && i < 16
    requires Loaded(block[..], bytes, i)
    modifies block
    ensures Loaded(block[..], bytes, i + 1)
    ensures word == W(Words(bytes), i)
  {
    SwapForm(bytes[4 * i], bytes[4 * i + 1], bytes[4 * i + 2], bytes[4 * i + 3]);
    var l := block[i];
    block[i] := (((l << 24) | (l >> 8)) & 0xFF00FF00) | (((l << 8) | (l >> 24)) & 0x00FF00FF);
    word := block[i];
  }

  /** The macro blk; the mask 15 is a remainder by 16. */
  method Blk(block: array<Word>, i: nat, ghost m: seq<Word>) returns (word: Word)
    requires |m| == 16
    requires Circular(block[..], m, i)
    modifies block
    ensures Circular(block[..], m, i + 1)
    ensures word == W(m, i)
  {
    hide Expand, BlkWord, W;
    ghost var before := block[..];
    CircularAt(before, m, i);
    ScheduleStep(m, i);
    BlkWordIs(before[(i + 13) % 16], before[(i + 8) % 16], before[(i + 2) % 16], before[i % 16]);
    block[i % 16] := BlkWord(block[(i + 13) % 16], block[(i + 8) % 16], block[(i + 2) % 16], block[i % 16]);
    word := block[i % 16];
    assert block[..] == before[i % 16 := word];
    CircularStep(before, m, i);
  }

  // The round macros.  Each returns the new values of its arguments z and w.

  method R0(block: array<Word>, v: Word, w: Word, x: Word, y: Word, z: Word, i: nat,
            ghost h: State, ghost bytes: seq<Octet>)
    returns (z': Word, w': Word)
    requires |bytes| == 64 && i < 16
    requires Loaded(block[..], bytes, i)
    requires At(h, Words(bytes), i, v, w, x, y, z)
    modifies block
    ensures Loaded(block[..], bytes, i + 1)
    ensures At(h, Words(bytes), i + 1, z', v, w', x, y)
  {
    hide Rotl, F, K, W, Rounds, Ch, Maj, Mixed, At, Loaded, Circular;
    Groups(i, w, x, y);
    var word := Blk0(block, i, bytes);
    z' := Mixed(z, (w & (x ^ y)) ^ y, word, 0x5A827999, v);
    w' := (w << 30) | (w >> 2);
    ChForm(w, x, y);
    Advance(h, Words(bytes), i, v, w, x, y, z, Ch(w, x, y), K(i));
  }

  method R1(block: array<Word>, v: Word, w: Word, x: Word, y: Word, z: Word, i: nat,
            ghost h: State, ghost m: seq<Word>)
    returns (z': Word, w': Word)
    requires |m| == 16 && 16 <= i < 20
    requires Circular(block[..], m, i)
    requires At(h, m, i, v, w, x, y, z)
    modifies block
    ensures Circular(block[..], m, i + 1)
    ensures At(h, m, i + 1, z', v, w', x, y)
  {
    hide Rotl, F, K, W, Rounds, Ch, Maj, Mixed, At, Loaded, Circular;
    Groups(i, w, x, y);
    var word := Blk(block, i, m);
    z' := Mixed(z, (w & (x ^ y)) ^ y, word, 0x5A827999, v);
    w' := (w << 30) | (w >> 2);
    ChForm(w, x, y);
    Advance(h, m, i, v, w, x, y, z, Ch(w, x, y), K(i));
  }

  method R2(block: array<Word>, v: Word, w: Word, x: Word, y: Word, z: Word, i: nat,
            ghost h: State, ghost m: seq<Word>)
    returns (z': Word, w': Word)
    requires |m| == 16 && 20 <= i < 40
    requires Circular(block[..], m, i)
    requires At(h, m, i, v, w, x, y, z)
    modifies block
    ensures Circular(block[..], m, i + 1)
    ensures At(h, m, i + 1, z', v, w', x, y)
  {
    hide Rotl, F, K, W, Rounds, Ch, Maj, Mixed, At, Loaded, Circular;
    Groups(i, w, x, y);
    var word := Blk(block, i, m);
    z' := Mixed(z, w ^ x ^ y, word, 0x6ED9EBA1, v);
    w' := (w << 30) | (w >> 2);
    Advance(h, m, i, v, w, x, y, z, Parity(w, x, y), K(i));
  }

  method R3(block: array<Word>, v: Word, w: Word, x: Word, y: Word, z: Word, i: nat,
            ghost h: State, ghost m: seq<Word>)
    returns (z': Word, w': Word)
    requires |m| == 16 && 40 <= i < 60
    requires Circular(block[..], m, i)
    requires At(h, m, i, v, w, x, y, z)
    modifies block
    ensures Circular(block[..], m, i + 1)
    ensures At(h, m, i + 1, z', v, w', x, y)
  {
    hide Rotl, F, K, W, Rounds, Ch, Maj, Mixed, At, Loaded, Circular;
    Groups(i, w, x, y);
    var word := Blk(block, i, m);
    z' := Mixed(z, ((w | x) & y) | (w & x), word, 0x8F1BBCDC, v);
    w' := (w << 30) | (w >> 2);
    MajForm(w, x, y);
    Advance(h, m, i, v, w, x, y, z, Maj(w, x, y), K(i));
  }

  method R4(block: array<Word>, v: Word, w: Word, x: Word, y: Word, z: Word, i: nat,
            ghost h: State, ghost m: seq<Word>)
    returns (z': Word, w': Word)
    requires |m| == 16 && 60 <= i < 80
    requires Circular(block[..], m, i)
    requires At(h, m, i, v, w, x, y, z)
    modifies block
    ensures Circular(block[..], m, i + 1)
    ensures At(h, m, i + 1, z', v, w', x, y)
  {
    hide Rotl, F, K, W, Rounds, Ch, Maj, Mixed, At, Loaded, Circular;
    Groups(i, w, x, y);
    var word := Blk(block, i, m);
    z' := Mixed(z, w ^ x ^ y, word, 0xCA62C1D6, v);
    w' := (w << 30) | (w >> 2);
    Advance(h, m, i, v, w, x, y, z, Parity(w, x, y), K(i));
  }

  // The four groups of twenty rounds, unrolled as in the source.

  method Rounds0To19(block: array<Word>, a0: Word, b0: Word, c0: Word, d0: Word, e0: Word,
                 ghost h: State, ghost bytes: seq<Octet>)
    returns (a: Word, b: Word, c: Word, d: Word, e: Word)
    requires |bytes| == 64
    requires Loaded(block[..], bytes, 0)
    requires At(h, Words(bytes), 0, a0, b0, c0, d0, e0)
    modifies block
    ensures Circular(block[..], Words(bytes), 20)
    ensures At(h, Words(bytes), 20, a, b, c, d, e)
  {
    hide *;
    a, b, c, d, e := a0, b0, c0, d0, e0;
    e, b := R0(block, a, b, c, d, e, 0, h, bytes);
    d, a := R0(block, e, a, b, c, d, 1, h, bytes);
    c, e := R0(block, d, e, a, b, c, 2, h, bytes);
    b, d := R0(block, c, d, e, a, b, 3, h, bytes);
    a, c := R0(block, b, c, d, e, a, 4, h, bytes);
    e, b := R0(block, a, b, c, d, e, 5, h, bytes);
    d, a := R0(block, e, a, b, c, d, 6, h, bytes);
    c, e := R0(block, d, e, a, b, c, 7, h, bytes);
    b, d := R0(block, c, d, e, a, b, 8, h, bytes);
    a, c := R0(block, b, c, d, e, a, 9, h, bytes);
    e, b := R0(block, a, b, c, d, e, 10, h, bytes);
    d, a := R0(block, e, a, b, c, d, 11, h, bytes);
    c, e := R0(block, d, e, a, b, c, 12, h, bytes);
    b, d := R0(block, c, d, e, a, b, 13, h, bytes);
    a, c := R0(block, b, c, d, e, a, 14, h, bytes);
    e, b := R0(block, a, b, c, d, e, 15, h, bytes);
    ghost var m := Words(bytes);
    LoadedIsCircular(block[..], bytes);
    d, a := R1(block, e, a, b, c, d, 16, h, m);
    c, e := R1(block, d, e, a, b, c, 17, h, m);
    b, d := R1(block, c, d, e, a, b, 18, h, m);
    a, c := R1(block, b, c, d, e, a, 19, h, m);
  }

  method Rounds20To39(block: array<Word>, a0: Word, b0: Word, c0: Word, d0: Word, e0: Word,
                 ghost h: State, ghost bytes: seq<Octet>)
    returns (a: Word, b: Word, c: Word, d: Word, e: Word)
    requires |bytes| == 64
    requires Circular(block[..], Words(bytes), 20)
    requires At(h, Words(bytes), 20, a0, b0, c0, d0, e0)
    modifies block
    ensures Circular(block[..], Words(bytes), 40)
    ensures At(h, Words(bytes), 40, a, b, c, d, e)
  {
    hide *;
    a, b, c, d, e := a0, b0, c0, d0, e0;
    ghost var m := Words(bytes);
    e, b := R2(block, a, b, c, d, e, 20, h, m);
    d, a := R2(block, e, a, b, c, d, 21, h, m);
    c, e := R2(block, d, e, a, b, c, 22, h, m);
    b, d := R2(block, c, d, e, a, b, 23, h, m);
    a, c := R2(block, b, c, d, e, a, 24, h, m);
    e, b := R2(block, a, b, c, d, e, 25, h, m);
    d, a := R2(block, e, a, b, c, d, 26, h, m);
    c, e := R2(block, d, e, a, b, c, 27, h, m);
    b, d := R2(block, c, d, e, a, b, 28, h, m);
    a, c := R2(block, b, c, d, e, a, 29, h, m);
    e, b := R2(block, a, b, c, d, e, 30, h, m);
    d, a := R2(block, e, a, b, c, d, 31, h, m);
    c, e := R2(block, d, e, a, b, c, 32, h, m);
    b, d := R2(block, c, d, e, a, b, 33, h, m);
    a, c := R2(block, b, c, d, e, a, 34, h, m);
    e, b := R2(block, a, b, c, d, e, 35, h, m);
    d, a := R2(block, e, a, b, c, d, 36, h, m);
    c, e := R2(block, d, e, a, b, c, 37, h, m);
    b, d := R2(block, c, d, e, a, b, 38, h, m);
    a, c := R2(block, b, c, d, e, a, 39, h, m);
  }

  method Rounds40To59(block: array<Word>, a0: Word, b0: Word, c0: Word, d0: Word, e0: Word,
                 ghost h: State, ghost bytes: seq<Octet>)
    returns (a: Word, b: Word, c: Word, d: Word, e: Word)
    requires |bytes| == 64
    requires Circular(block[..], Words(bytes), 40)
    requires At(h, Words(bytes), 40, a0, b0, c0, d0, e0)
    modifies block
    ensures Circular(block[..], Words(bytes), 60)
    ensures At(h, Words(bytes), 60, a, b, c, d, e)
  {
    hide *;
    a, b, c, d, e := a0, b0, c0, d0, e0;
    ghost var m := Words(bytes);
    e, b := R3(block, a, b, c, d, e, 40, h, m);
    d, a := R3(block, e, a, b, c, d, 41, h, m);
    c, e := R3(block, d, e, a, b, c, 42, h, m);
    b, d := R3(block, c, d, e, a, b, 43, h, m);
    a, c := R3(block, b, c, d, e, a, 44, h, m);
    e, b := R3(block, a, b, c, d, e, 45, h, m);
    d, a := R3(block, e, a, b, c, d, 46, h, m);
    c, e := R3(block, d, e, a, b, c, 47, h, m);
    b, d := R3(block, c, d, e, a, b, 48, h, m);
    a, c := R3(block, b, c, d, e, a, 49, h, m);
    e, b := R3(block, a, b, c, d, e, 50, h, m);
    d, a := R3(block, e, a, b, c, d, 51, h, m);
    c, e := R3(block, d, e, a, b, c, 52, h, m);
    b, d := R3(block, c, d, e, a, b, 53, h, m);
    a, c := R3(block, b, c, d, e, a, 54, h, m);
    e, b := R3(block, a, b, c, d, e, 55, h, m);
    d, a := R3(block, e, a, b, c, d, 56, h, m);
    c, e := R3(block, d, e, a, b, c, 57, h, m);
    b, d := R3(block, c, d, e, a, b, 58, h, m);
    a, c := R3(block, b, c, d, e, a, 59, h, m);
  }

  method Rounds60To79(block: array<Word>, a0: Word, b0: Word, c0: Word, d0: Word, e0: Word,
                 ghost h: State, ghost bytes: seq<Octet>)
    returns (a: Word, b: Word, c: Word, d: Word, e: Word)
    requires |bytes| == 64
    requires Circular(block[..], Words(bytes), 60)
    requires At(h, Words(bytes), 60, a0, b0, c0, d0, e0)
    modifies block
    ensures Circular(block[..], Words(bytes), 80)
    ensures At(h, Words(bytes), 80, a, b, c, d, e)
  {
    hide *;
    a, b, c, d, e := a0, b0, c0, d0, e0;
    ghost var m := Words(bytes);
    e, b := R4(block, a, b, c, d, e, 60, h, m);
    d, a := R4(block, e, a, b, c, d, 61, h, m);
    c, e := R4(block, d, e, a, b, c, 62, h, m);
    b, d := R4(block, c, d, e, a, b, 63, h, m);
    a, c := R4(block, b, c, d, e, a, 64, h, m);
    e, b := R4(block, a, b, c, d, e, 65, h, m);
    d, a := R4(block, e, a, b, c, d, 66, h, m);
    c, e := R4(block, d, e, a, b, c, 67, h, m);
    b, d := R4(block, c, d, e, a, b, 68, h, m);
    a, c := R4(block, b, c, d, e, a, 69, h, m);
    e, b := R4(block, a, b, c, d, e, 70, h, m);
    d, a := R4(block, e, a, b, c, d, 71, h, m);
    c, e := R4(block, d, e, a, b, c, 72, h, m);
    b, d := R4(block, c, d, e, a, b, 73, h, m);
    a, c := R4(block, b, c, d, e, a, 74, h, m);
    e, b := R4(block, a, b, c, d, e, 75, h, m);
    d, a := R4(block, e, a, b, c, d, 76, h, m);
    c, e := R4(block, d, e, a, b, c, 77, h, m);
    b, d := R4(block, c, d, e, a, b, 78, h, m);
    a, c := R4(block, b, c, d, e, a, 79, h, m);
  }

  lemma BlocksStep(s: seq<Octet>, block: seq<Octet>)
    requires |s| % 64 == 0 && |block| == 64
    ensures Blocks(s + block) == Compress(Blocks(s), block)
  {
    hide Compress;
    assert (s + block)[..|s|] == s && (s + block)[|s|..] == block;
  }

  /** The length of the partial block at the end of a message. */
  function Part(length: nat): nat {
    length % 64
  }

  /** The length of the whole blocks at the front of a message. */
  function Whole(length: nat): nat {
    length - Part(length)
  }

  lemma WholeAndPart(length: nat)
    ensures Whole(length) % 64 == 0 && Part(length) < 64
    ensures Whole(length) + Part(length) == length
  {
  }

  lemma WholeIs(length: nat, i: nat)
    requires i <= length < i + 64 && i % 64 == 0
    ensures Whole(length) == i && Part(length) == length - i
  {
  }

  /** The message one block further. */
  lemma NextBlock(s: seq<Octet>, i: nat)
    requires i + 64 <= |s| && i % 64 == 0
    ensures (i + 64) % 64 == 0
    ensures Blocks(s[..i + 64]) == Compress(Blocks(s[..i]), s[i..i + 64])
  {
    hide Compress, Blocks;
    BlocksStep(s[..i], s[i..i + 64]);
    assert s[..i] + s[i..i + 64] == s[..i + 64];
  }

  const COUNT_LIMIT: nat := 0x1_0000_0000_0000_0000

  /** The 64-bit counter of bits after a message. */
  function CountOf(length: nat): nat {
    8 * length % COUNT_LIMIT
  }

  /** The bytes in the buffer as the counter tells them: (count >> 3) & 63. */
  function Buffered(count: nat): nat {
    count / 8 % 64
  }

  function AddCount(count: nat, length: nat): nat {
    (count + 8 * length) % COUNT_LIMIT
  }

  /** The counter, though it wraps, gives the length of the partial block. */
  lemma CountGivesPart(length: nat)
    ensures Buffered(CountOf(length)) == Part(length)
  {
    var n, q := 8 * length % 0x1_0000_0000_0000_0000, 8 * length / 0x1_0000_0000_0000_0000;
    var u := length - 0x2000_0000_0000_0000 * q;
    EighthOf(n, u);
    SamePart(u, 0x80_0000_0000_0000 * q);
  }

  lemma EighthOf(n: nat, u: int)
    requires n == 8 * u
    ensures n / 8 == u
  {
  }

  lemma SamePart(u: int, w: int)
    ensures (u + 64 * w) % 64 == u % 64
  {
  }

  lemma CountAdds(length: nat, more: nat)
    ensures AddCount(CountOf(length), more) == CountOf(length + more)
  {
    var n, q := 8 * length % 0x1_0000_0000_0000_0000, 8 * length / 0x1_0000_0000_0000_0000;
    SameCount(n + 8 * more, q);
  }

  lemma SameCount(n: nat, q: nat)
    ensures (n + 0x1_0000_0000_0000_0000 * q) % 0x1_0000_0000_0000_0000 == n % 0x1_0000_0000_0000_0000
  {
  }

  /** The byte that SHA1Final shifts out of a word. */
  function ShiftedOut(w: Word, bits: nat): Octet
    requires bits < 32
  {
    ((w >> bits) & 255) as bv8
  }

  /** The bytes shifted out of a word, the most significant first, make the word again. */
  lemma WordByteForm(w: Word, i: nat)
    requires i < 4
    ensures ShiftedOut(w, (3 - i) * 8) == WordByte(w, i)
    ensures BeWord(ShiftedOut(w, 24), ShiftedOut(w, 16), ShiftedOut(w, 8), ShiftedOut(w, 0)) == w
  {
  }

  /** Word k of a state. */
  function Nth(h: State, k: nat): Word
    requires k < 5
  {
    if k == 0 then h.a else if k == 1 then h.b else if k == 2 then h.c else if k == 3 then h.d else h.e
  }

  /** The digest, byte by byte. */
  lemma DigestAt(h: State, i: nat)
    requires i < DIGEST_LENGTH
    ensures DigestOf(h)[i] == WordByte(Nth(h, i / 4), i % 4)
  {
    hide DigestOf, WordByte;
    DigestWord(h, i / 4, i % 4);
  }

  lemma DigestWord(h: State, k: nat, r: nat)
    requires k < 5 && r < 4
    ensures DigestOf(h)[4 * k + r] == WordBytes(Nth(h, k))[r]
  {
    hide WordByte, WordBytes;
    FiveFours(WordBytes(h.a), WordBytes(h.b), WordBytes(h.c), WordBytes(h.d), WordBytes(h.e), 4 * k + r);
  }

  lemma FiveFours<T>(a: seq<T>, b: seq<T>, c: seq<T>, d: seq<T>, e: seq<T>, i: nat)
    requires |a| == |b| == |c| == |d| == |e| == 4 && i < 20
    ensures (a + b + c + d + e)[i] == [a, b, c, d, e][i / 4][i % 4]
  {
  }

  /** The chaining value covers the whole blocks of the message, the buffer the rest. */
  ghost predicate Holds(h: State, buffer: seq<Octet>, m: seq<Octet>) {
    && |buffer| == 64
    && h == Blocks(m[..Whole(|m|)])
    && buffer[..Part(|m|)] == m[Whole(|m|)..]
  }

  lemma NothingAbsorbed(buffer: seq<Octet>)
    requires |buffer| == 64
    ensures CountOf(0) == 0
    ensures Holds(State(0x67452301, 0xEFCDAB89, 0x98BADCFE, 0x10325476, 0xC3D2E1F0), buffer, [])
  {
  }

  /** The last memcpy of SHA1Update: bytes from w on are the new partial block. */
  lemma KeepsTail(h: State, buffer: seq<Octet>, m: seq<Octet>, w: nat, j: nat)
    requires w + j <= |m| < w + 64 && w % 64 == 0 && |buffer| == 64
    requires h == Blocks(m[..w]) && buffer[..j] == m[w..w + j]
    ensures Holds(h, Splice(buffer, j, m[w + j..]), m)
  {
    hide Blocks;
    WholeIs(|m|, w);
    var after := Splice(buffer, j, m[w + j..]);
    assert after[..|m| - w] == buffer[..j] + m[w + j..];
    assert m[w..] == m[w..w + j] + m[w + j..];
  }

  /** The first memcpy of SHA1Update completes a block. */
  lemma FillsBlock(h: State, buffer: seq<Octet>, m: seq<Octet>, data: seq<Octet>)
    requires Holds(h, buffer, m) && Part(|m|) + |data| > 63
    ensures var i := 64 - Part(|m|);
      (|m| + i) % 64 == 0 && |m| + i <= |m + data| &&
      Compress(h, Splice(buffer, Part(|m|), data[..i])) == Blocks((m + data)[..|m| + i])
  {
    hide Blocks, Compress;
    WholeAndPart(|m|);
    var i, w := 64 - Part(|m|), Whole(|m|);
    NextBlock(m + data, w);
    assert (m + data)[w..w + 64] == m[w..] + data[..i];
    assert Splice(buffer, Part(|m|), data[..i]) == m[w..] + data[..i];
    assert (m + data)[..w] == m[..w];
  }

  /** Data that does not complete a block leaves the partial block where it is. */
  lemma StaysPartial(h: State, buffer: seq<Octet>, m: seq<Octet>, data: seq<Octet>)
    requires Holds(h, buffer, m)
    ensures var w, j := Whole(|m|), Part(|m|);
      w + j == |m| && w % 64 == 0 && h == Blocks((m + data)[..w]) && buffer[..j] == (m + data)[w..|m|]
  {
    hide Blocks;
    WholeAndPart(|m|);
    var w := Whole(|m|);
    assert (m + data)[..w] == m[..w] && (m + data)[w..|m|] == m[w..];
  }

  /** SHA1_CTX with the functions that work on it. */
  class Sha1Context {
    const state: array<Word>
    const buffer: array<Octet>
    var count: nat
    /** Everything absorbed since the last SHA1Init. */
    ghost var message: seq<Octet>

    ghost predicate Shaped() {
      state.Length == 5 && buffer.Length == 64
    }

    ghost function Chaining(): State
      reads state
      requires Shaped()
    {
      State(state[0], state[1], state[2], state[3], state[4])
    }

    ghost predicate Valid()
      reads this, state, buffer
    {
      && Shaped()
      && count == CountOf(|message|)
      && Holds(Chaining(), buffer[..], message)
    }

    constructor ()
      ensures Valid() && message == []
      ensures fresh(state) && fresh(buffer)
    {
      state := new Word[5];
      buffer := new Octet[64](_ => 0);
      new;
      Init();
    }

    /** SHA1Init. */
    method Init()
      requires Shaped()
      modifies this, state
      ensures Valid() && message == []
    {
      hide Holds, CountOf;
      NothingAbsorbed(buffer[..]);
      count := 0;
      state[0] := 0x67452301;
      state[1] := 0xEFCDAB89;
      state[2] := 0x98BADCFE;
      state[3] := 0x10325476;
      state[4] := 0xC3D2E1F0;
      message := [];
    }

    /** state[k] += x. */
    method AddTo(k: nat, x: Word)
      requires Shaped() && k < 5
      modifies state
      ensures state[..] == old(state[..])[k := Plus(old(state[k]), x)]
    {
      state[k] := state[k] + x;
    }

    /** SHA1Transform. */
    method Transform(data: seq<Octet>)
      requires Shaped() && |data| == 64
      modifies state
      ensures Chaining() == Compress(old(Chaining()), data)
    {
      hide Rounds, Plus, At, Circular, LeWord, BeWord, Words, Blocks;
      ghost var h := Chaining();
      var block := new Word[16](i requires 0 <= i < 16 =>
        LeWord(data[4 * i], data[4 * i + 1], data[4 * i + 2], data[4 * i + 3]));
      var a, b, c, d, e := state[0], state[1], state[2], state[3], state[4];
      StartAt(h, Words(data));
      a, b, c, d, e := Rounds0To19(block, a, b, c, d, e, h, data);
      a, b, c, d, e := Rounds20To39(block, a, b, c, d, e, h, data);
      a, b, c, d, e := Rounds40To59(block, a, b, c, d, e, h, data);
      a, b, c, d, e := Rounds60To79(block, a, b, c, d, e, h, data);
      AddTo(0, a);
      AddTo(1, b);
      AddTo(2, c);
      AddTo(3, d);
      AddTo(4, e);
      EndAt(h, Words(data), a, b, c, d, e);
    }

    /** SHA1Update. */
    method Update(data: seq<Octet>)
      requires Valid()
      modifies this, state, buffer
      ensures Valid() && message == old(message) + data
    {
      hide Blocks, Compress, Whole, Part, CountOf, Buffered, AddCount, Holds, Chaining, Splice;
      ghost var m, after := message, message + data;
      CountGivesPart(|m|);
      CountAdds(|m|, |data|);
      WholeAndPart(|m|);
      var j := Buffered(count);
      count := AddCount(count, |data|);
      var i := 0;
      if j + |data| > 63 {
        i := 64 - j;
        FillsBlock(Chaining(), buffer[..], m, data);
        Copy(buffer, j, data[..i]);
        Transform(buffer[..]);
        while i + 63 < |data|
          invariant 0 <= i <= |data| && (|m| + i) % 64 == 0
          invariant Chaining() == Blocks(after[..|m| + i])
          invariant count == CountOf(|after|)
        {
          NextBlock(after, |m| + i);
          assert after[|m| + i..|m| + i + 64] == data[i..i + 64];
          Transform(data[i..i + 64]);
          i := i + 64;
        }
        j := 0;
      } else {
        StaysPartial(Chaining(), buffer[..], m, data);
      }
      KeepsTail(Chaining(), buffer[..], after, |m| + i - j, j);
      assert after[|m| + i..] == data[i..];
      Copy(buffer, j, data[i..]);
      message := after;
    }

    /** The counter as SHA1Pad stores it in finalcount. */
    method CountBytes() returns (finalcount: array<Octet>)
      ensures fresh(finalcount) && finalcount[..] == Be(count, 8)
    {
      hide Bits, Be, Shifted;
      finalcount := new Octet[8];
      var i := 0;
      while i < 8
        invariant 0 <= i <= 8
        invariant forall k :: 0 <= k < i ==> finalcount[k] == Bits(Shifted(count, 7 - k) % 256)
      {
        finalcount[i] := Bits(Shifted(count, 7 - i) % 256);
        i := i + 1;
      }
      BigEndianCount(count, finalcount[..]);
    }

    /** SHA1Pad: the message grows into its padded form, one zero byte at a time. */
    method Pad()
      requires Valid()
      modifies this, state, buffer
      ensures Valid() && message == Sha1Spec.Pad(old(message))
    {
      hide Blocks, Bits, Be, PadZeros, Buffered, Whole, Part, Span, Holds, Chaining;
      ghost var m := message;
      var finalcount := CountBytes();
      ghost var field := finalcount[..];
      Update([0x80]);
      ghost var k := 0;
      CountGivesPart(|message|);
      PadStops(|m|, k);
      while Buffered(count) != 56
        invariant Valid() && k <= PadZeros(|m|)
        invariant message == m + [0x80] + seq(k, _ => 0)
        invariant Buffered(count) == 56 <==> k == PadZeros(|m|)
        invariant finalcount[..] == field
        decreases PadZeros(|m|) - k
      {
        Update([0]);
        k := k + 1;
        CountGivesPart(|message|);
        PadStops(|m|, k);
      }
      Update(finalcount[..]);
    }

    /** SHA1Final: the digest of everything absorbed; the context is wiped. */
    method Final() returns (digest: array<Octet>)
      requires Valid()
      modifies this, state, buffer
      ensures fresh(digest) && digest[..] == Hash(old(message))
      ensures forall k :: 0 <= k < state.Length ==> state[k] == 0
      ensures forall k :: 0 <= k < buffer.Length ==> buffer[k] == 0
      ensures count == 0
    {
      hide Blocks, Sha1Spec.Pad, WordByte, WordBytes;
      ghost var m := message;
      Pad();
      assert message[..Whole(|message|)] == message;
      digest := Digest();
      Wipe();
    }

    /** The bytes of the state. */
    method Digest() returns (digest: array<Octet>)
      requires Shaped()
      ensures fresh(digest) && digest[..] == DigestOf(Chaining())
    {
      hide WordByte, ShiftedOut, BeWord, DigestOf, Nth, Chaining;
      ghost var h := Chaining();
      digest := new Octet[DIGEST_LENGTH](_ => 0);
      var i := 0;
      while i < DIGEST_LENGTH
        invariant 0 <= i <= DIGEST_LENGTH
        invariant forall k :: 0 <= k < i ==> digest[k] == DigestOf(h)[k]
      {
        DigestAt(h, i);
        WordAt(i / 4);
        WordByteForm(state[i / 4], i % 4);
        digest[i] := ShiftedOut(state[i / 4], (3 - i % 4) * 8);
        i := i + 1;
      }
    }

    lemma WordAt(k: nat)
      requires Shaped() && k < 5
      ensures state[k] == Nth(Chaining(), k)
    {
    }

    /** The memsets of SHA1Final. */
    method Wipe()
      modifies this, state, buffer
      ensures forall k :: 0 <= k < state.Length ==> state[k] == 0
      ensures forall k :: 0 <= k < buffer.Length ==> buffer[k] == 0
      ensures count == 0
    {
      forall k | 0 <= k < state.Length { state[k] := 0; }
      forall k | 0 <= k < buffer.Length { buffer[k] := 0; }
      count := 0;
    }
  }

  lemma StartAt(h: State, m: seq<Word>)
    requires |m| == 16
    ensures At(h, m, 0, h.a, h.b, h.c, h.d, h.e)
  {
  }

  lemma EndAt(h: State, m: seq<Word>, a: Word, b: Word, c: Word, d: Word, e: Word)
    requires |m| == 16 && At(h, m, 80, a, b, c, d, e)
    ensures AddStates(h, Rounds(h, m, 80)) ==
      State(Plus(h.a, a), Plus(h.b, b), Plus(h.c, c), Plus(h.d, d), Plus(h.e, e))
  {
    hide Rounds, Plus;
  }

  /** The padding loop stops exactly when all the zero bytes are in. */
  lemma PadStops(n: nat, k: nat)
    requires k <= PadZeros(n)
    ensures Part(n + 1 + k) == 56 <==> k == PadZeros(n)
  {
    var z := PadZeros(n);
    if (n + 1 + k) % 64 == 56 {
      assert z - k == 64 * ((n + 1 + z) / 64 - (n + 1 + k) / 64);
    }
  }

  /** n shifted right by 8 * k bits. */
  function Shifted(n: nat, k: nat): nat {
    if k == 0 then n else Shifted(n / 256, k - 1)
  }

  /** The bytes shifted out of the counter are its big-endian form. */
  lemma BigEndianCount(n: nat, s: seq<Octet>)
    requires |s| == 8
    requires forall k :: 0 <= k < 8 ==> s[k] == Bits(Shifted(n, 7 - k) % 256)
    ensures s == Be(n, 8)
  {
    hide Bits, Be;
    forall k | 0 <= k < 8
      ensures s[k] == Be(n, 8)[k]
    {
      BigEndianAt(n, 8, k);
    }
  }

  lemma {:induction false} BigEndianAt(n: nat, k: nat, j: nat)
    requires j < k
    ensures Be(n, k)[j] == Bits(Shifted(n, k - 1 - j) % 256)
  {
    hide Bits;
    if j < k - 1 {
      BigEndianAt(n / 256, k - 1, j);
    }
  }

  /** The digest does not depend on how a message is cut into updates. */
  method HashPieces(pieces: seq<seq<Octet>>) returns (digest: seq<Octet>)
    ensures digest == Hash(Joined(pieces))
  {
    hide Hash, Blocks, Holds, Sha1Context.Valid, CountOf;
    var context := new Sha1Context();
    var i := 0;
    while i < |pieces|
      invariant 0 <= i <= |pieces|
      invariant context.Valid() && fresh(context) && fresh(context.state) && fresh(context.buffer)
      invariant context.message == Joined(pieces[..i])
    {
      context.Update(pieces[i]);
      JoinedStep(pieces, i);
      i := i + 1;
    }
    assert pieces[..i] == pieces;
    var bytes := context.Final();
    digest := bytes[..];
  }

  function Joined<T>(pieces: seq<seq<T>>): seq<T> {
    if pieces == [] then [] else Joined(pieces[..|pieces| - 1]) + pieces[|pieces| - 1]
  }

  lemma JoinedStep<T>(pieces: seq<seq<T>>, i: nat)
    requires i < |pieces|
    ensures Joined(pieces[..i + 1]) == Joined(pieces[..i]) + pieces[i]
  {
    assert pieces[..i + 1][..i] == pieces[..i];
  }
}
