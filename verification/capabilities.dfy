/** Capability masks as sets of bit numbers, and their words on the wire
    (src/handshake.cc, include/libdrizzle-redux/constants.h). */
module Capabilities {
  import opened Bytes
  import opened Bitmaps

  type Flags = set<nat>

  const LONG_PASSWORD := 0
  const FOUND_ROWS := 1
  const LONG_FLAG := 2
  const CONNECT_WITH_DB := 3
  const COMPRESS := 5
  const PROTOCOL_41 := 9
  const INTERACTIVE := 10
  const TRANSACTIONS := 13
  const SECURE_CONNECTION := 15
  const MULTI_STATEMENTS := 16
  const PLUGIN_AUTH := 19

  const CLIENT: Flags :=
    {LONG_PASSWORD, FOUND_ROWS, LONG_FLAG, CONNECT_WITH_DB, PLUGIN_AUTH, TRANSACTIONS, PROTOCOL_41, SECURE_CONNECTION}

  /** The number that bits k up to top of a mask make. */
  function Word(f: Flags, k: nat, top: nat): nat
    decreases top - k
  {
    if k >= top then 0 else One(k in f) + 2 * Word(f, k + 1, top)
  }

  /** The bits of a number, the lowest of them numbered k. */
  function FlagsOf(n: nat, k: nat, top: nat): Flags
    decreases top - k
  {
    if k >= top then {} else (if n % 2 == 1 then {k} else {}) + FlagsOf(n / 2, k + 1, top)
  }

  function Below(f: Flags, top: nat): Flags {
    set j | j in f && j < top
  }

  /** n * 2^k. */
  function Shifted(n: nat, k: nat): nat {
    if k == 0 then n else 2 * Shifted(n, k - 1)
  }

  lemma {:induction false} FlagsRoundTrip(f: Flags, k: nat, top: nat, more: nat)
    requires k <= top
    ensures FlagsOf(Word(f, k, top) + Shifted(more, top - k), k, top) == set j | j in f && k <= j < top
    decreases top - k
  {
    if k < top {
      FlagsRoundTrip(f, k + 1, top, more);
      OneBit(k in f, Word(f, k + 1, top) + Shifted(more, top - k - 1), k, top);
      assert Word(f, k, top) + Shifted(more, top - k) ==
        One(k in f) + 2 * (Word(f, k + 1, top) + Shifted(more, top - k - 1));
    }
  }

  lemma OneBit(bit: bool, rest: nat, k: nat, top: nat)
    requires k < top
    ensures FlagsOf(One(bit) + 2 * rest, k, top) == (if bit then {k} else {}) + FlagsOf(rest, k + 1, top)
  {
  }

  function Pow2(k: nat): nat {
    if k == 0 then 1 else 2 * Pow2(k - 1)
  }

  /** Bit k of a mask weighs 2^k. */
  lemma {:induction false} BitWeight(k: nat, from: nat)
    requires k < 32 && from <= 32
    ensures Word({k}, from, 32) == if k < from then 0 else Pow2(k - from)
    decreases 32 - from
  {
    if from < 32 {
      BitWeight(k, from + 1);
    }
  }

  lemma {:induction false} WordFits(f: Flags, k: nat, top: nat)
    requires k <= top
    ensures Word(f, k, top) < Pow2(top - k)
    decreases top - k
  {
    if k < top {
      WordFits(f, k + 1, top);
    }
  }

  /** The bits below `mid` and all the rest. */
  lemma {:induction false} WordSplits(f: Flags, k: nat, mid: nat, top: nat)
    requires k <= mid <= top
    ensures Word(f, k, top) == Word(f, k, mid) + Shifted(Word(f, mid, top), mid - k)
    decreases mid - k
  {
    if k < mid {
      WordSplits(f, k + 1, mid, top);
    } else if k < top {
      assert Word(f, k, mid) == 0;
    }
  }

  lemma ShiftedByFour(n: nat, k: nat)
    requires k >= 4
    ensures Shifted(n, k) == 16 * Shifted(n, k - 4)
  {
    assert Shifted(n, k) == 2 * Shifted(n, k - 1) && Shifted(n, k - 1) == 2 * Shifted(n, k - 2);
    assert Shifted(n, k - 2) == 2 * Shifted(n, k - 3) && Shifted(n, k - 3) == 2 * Shifted(n, k - 4);
  }

  lemma ShiftedBy16(n: nat)
    ensures Shifted(n, 16) == 65536 * n
  {
    ShiftedByFour(n, 16);
    ShiftedByFour(n, 12);
    ShiftedByFour(n, 8);
    ShiftedByFour(n, 4);
  }

  lemma ShiftedZero(k: nat)
    ensures Shifted(0, k) == 0
  {
  }

  /** The mask that 32 bits on the wire stand for. */
  lemma MaskArrives(f: Flags)
    requires f == Below(f, 32)
    ensures FlagsOf(LeValue(Le(Word(f, 0, 32), 4)), 0, 32) == f
  {
    hide Word, FlagsOf;
    WordFits(f, 0, 32);
    Powers();
    Spans();
    LeRoundTrip(Word(f, 0, 32), 4);
    ShiftedZero(32);
    FlagsRoundTrip(f, 0, 32, 0);
  }

  /** Of a mask sent in two bytes the low 16 bits arrive. */
  lemma LowHalfArrives(f: Flags)
    ensures FlagsOf(LeValue(Le(Word(f, 0, 32), 2)), 0, 16) == Below(f, 16)
  {
    hide Word, FlagsOf;
    WordFits(f, 0, 16);
    Powers();
    WordSplits(f, 0, 16, 32);
    ShiftedBy16(Word(f, 16, 32));
    LowTwo(Word(f, 0, 16), Word(f, 16, 32));
    ShiftedZero(16);
    FlagsRoundTrip(f, 0, 16, 0);
  }

  lemma Powers()
    ensures Pow2(16) == 65536 && Pow2(32) == 0x1_0000_0000
  {
    assert Pow2(8) == 256 && Pow2(12) == 4096 && Pow2(16) == 65536;
    assert Pow2(20) == 0x10_0000 && Pow2(24) == 0x100_0000 && Pow2(28) == 0x1000_0000;
  }

  lemma LowTwo(low: nat, high: nat)
    requires low < 65536
    ensures LeValue(Le(low + 65536 * high, 2)) == low
  {
    var n := low + 65536 * high;
    assert n % 256 == low % 256 && n / 256 == low / 256 + 256 * high;
    assert n / 256 % 256 == low / 256;
    assert Le(n, 2) == [n % 256] + Le(n / 256, 1);
    assert Le(n / 256, 1) == [n / 256 % 256] + Le(n / 256 / 256, 0);
    assert Le(n, 2) == [low % 256, low / 256];
    assert LeValue([low % 256, low / 256]) == low % 256 + 256 * LeValue([low / 256]);
    assert LeValue([low / 256]) == low / 256 + 256 * LeValue([]);
  }
}
