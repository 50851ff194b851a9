/**
 * Bit-level vocabulary shared by the scanner and the transmitter: single bits
 * of 8-bit port values and 32-bit status words, single-bit masks and the
 * position of the lowest set bit. Bit positions are bit-vectors themselves,
 * so that every fact below stays inside bit-vector arithmetic.
 */
module Bits {

  /** Bit `n` of an 8-bit value is set. */
  predicate Bit8(m: bv8, n: bv8)
    requires n < 8
  {
    (m >> n) & 1 == 1
  }

  /** Bit `n` of a 32-bit word is set. */
  predicate Bit32(w: bv32, n: bv32)
    requires n < 32
  {
    (w >> n) & 1 == 1
  }

  /** `m` has exactly one bit set, as every GPIO_PIN_n mask does. */
  predicate IsSingleBit(m: bv8)
  {
    m != 0 && m & (m - 1) == 0
  }

  /** `n` is the position of the lowest set bit of `m`. */
  ghost predicate IsLowestSetBit(m: bv8, n: bv8)
  {
    n < 8 && Bit8(m, n) && forall j: bv8 :: j < n ==> !Bit8(m, j)
  }

  /**
   * The position of the lowest set bit of a non-zero 8-bit value, by
   * recursion on the value shifted right.
   */
  function LowestSetBit(m: bv8): (n: bv8)
    requires m != 0
    ensures IsLowestSetBit(m, n)
    decreases m as int
  {
    if m & 1 == 1 then 0
    else
      var n' := LowestSetBit(m >> 1);
      ShiftedBit(m, n');
      n' + 1
  }

  /** Bit `j` of `m >> 1` is bit `j + 1` of `m`. */
  lemma ShiftedBit(m: bv8, n': bv8)
    requires m != 0 && m & 1 == 0 && IsLowestSetBit(m >> 1, n')
    ensures m >> 1 < m
    ensures IsLowestSetBit(m, n' + 1)
  {
    forall j: bv8 | j < n' + 1 ensures !Bit8(m, j) {
      if j > 0 {
        assert !Bit8(m >> 1, j - 1);
      }
    }
  }

  /** The lowest set bit is unique: any position with the property is it. */
  lemma {:induction false} LowestSetBitUnique(m: bv8, n: bv8)
    requires IsLowestSetBit(m, n)
    ensures m != 0 && LowestSetBit(m) == n
  {
    assert m != 0 by { assert Bit8(m, n); }
    var k := LowestSetBit(m);
  }

  /** A single-bit mask is `1 << n` with `n` its lowest set bit, and conversely. */
  lemma SingleBitIsShiftedOne(m: bv8)
    ensures IsSingleBit(m) <==> m != 0 && m == 1 << LowestSetBit(m)
  {
    if m != 0 {
      var n := LowestSetBit(m);
      assert IsLowestSetBit(m, n);
    }
  }

  /** `1 << n` is a single-bit mask whose lowest set bit is `n`. */
  lemma ShiftedOneLowestBit(n: bv8)
    requires n < 8
    ensures IsSingleBit(1 << n)
    ensures LowestSetBit(1 << n) == n
  {
    LowestSetBitUnique(1 << n, n);
  }

  /**
   * Two 32-bit words whose bits at positions `n` and above agree are equal
   * from position `n` up.
   */
  lemma {:induction false} EqualFrom(a: bv32, b: bv32, n: bv32)
    requires n <= 32
    requires forall j: bv32 :: n <= j < 32 ==> Bit32(a, j) == Bit32(b, j)
    ensures a >> n == b >> n
    decreases 32 - n as int
  {
    if n < 32 {
      EqualFrom(a, b, n + 1);
      ExtendDown(a, b, n);
    } else {
      AllShiftedOut(a, n);
      AllShiftedOut(b, n);
    }
  }

  /** Agreement from position `n + 1` up, plus agreement at `n`, is agreement from `n` up. */
  lemma ExtendDown(a: bv32, b: bv32, n: bv32)
    requires n < 32
    requires a >> (n + 1) == b >> (n + 1)
    requires Bit32(a, n) == Bit32(b, n)
    ensures a >> n == b >> n
  {
    LowBitEqual(a >> n, b >> n);
  }

  /** Two words whose lowest bits are both set or both clear agree in bit 0. */
  lemma LowBitEqual(x: bv32, y: bv32)
    requires (x & 1 == 1) == (y & 1 == 1)
    ensures x & 1 == y & 1
  {
  }

  /** Shifting a 32-bit word right by its full width leaves nothing. */
  lemma AllShiftedOut(a: bv32, n: bv32)
    requires n == 32
    ensures a >> n == 0
  {
  }

  /** Two 32-bit words with the same bits are the same word. */
  lemma BitsEqual(a: bv32, b: bv32)
    requires forall j: bv32 :: j < 32 ==> Bit32(a, j) == Bit32(b, j)
    ensures a == b
  {
    EqualFrom(a, b, 0);
  }

  /**
   * `w` packs the first `n` of the levels `bs`: bit j is level j for j < n,
   * and every bit from `n` up is clear.
   */
  ghost predicate PacksPrefix(bs: seq<bool>, w: bv32, n: bv32)
    requires n <= 25 && |bs| == 25
  {
    forall j: bv32 :: j < 32 ==> Bit32(w, j) == (j < n && bs[j as int])
  }

  /**
   * Reference packing of a list of levels into a word, first level in bit 0,
   * built from the end of the list by shifting left.
   */
  function Pack(bs: seq<bool>): bv32
    requires |bs| <= 32
  {
    if bs == [] then 0 else (Pack(bs[1..]) << 1) | (if bs[0] then 1 else 0)
  }

  /** Bit j of Pack(bs) is the j-th level, and clear beyond the list. */
  lemma {:induction false} PackBit(bs: seq<bool>, j: bv32)
    requires |bs| <= 32 && j < 32
    ensures Bit32(Pack(bs), j) == (j as int < |bs| && bs[j as int])
  {
    if bs != [] {
      var b: bv32 := if bs[0] then 1 else 0;
      ShiftInBit(Pack(bs[1..]), b, j);
      if j > 0 {
        PackBit(bs[1..], j - 1);
      }
    }
  }

  /** Packing 25 levels gives a word that packs all of them. */
  lemma PackPacksPrefix(bs: seq<bool>)
    requires |bs| == 25
    ensures PacksPrefix(bs, Pack(bs), 25)
  {
    var w := Pack(bs);
    forall j: bv32 | j < 32 ensures Bit32(w, j) == (j < 25 && bs[j as int]) {
      PackBit(bs, j);
    }
  }

  /** Shifting a word left and putting `b` in bit 0 moves bit j - 1 to j. */
  lemma ShiftInBit(p: bv32, b: bv32, j: bv32)
    requires b <= 1 && j < 32
    ensures Bit32((p << 1) | b, j) == if j == 0 then b == 1 else Bit32(p, j - 1)
  {
  }

  /** The packing of a prefix is unique. */
  lemma PacksPrefixUnique(bs: seq<bool>, a: bv32, b: bv32, n: bv32)
    requires n <= 25 && |bs| == 25
    requires PacksPrefix(bs, a, n) && PacksPrefix(bs, b, n)
    ensures a == b
  {
    BitsEqual(a, b);
  }

  /** A packed prefix of 25 levels is below 2^25. */
  lemma PacksPrefixBound(bs: seq<bool>, w: bv32, n: bv32)
    requires n <= 25 && |bs| == 25
    requires PacksPrefix(bs, w, n)
    ensures w < 0x200_0000
  {
    EqualFrom(w, 0, 25);
    HighClear(w);
  }

  /** A word with nothing left after shifting out 25 bits is below 2^25. */
  lemma HighClear(w: bv32)
    requires w >> 25 == 0
    ensures w < 0x200_0000
  {
  }

  /** One scan step: or-ing in level i at bit i extends the packed prefix to i + 1. */
  lemma AccumulateStep(bs: seq<bool>, w: bv32, i: bv32, bit: bv32)
    requires i < 25 && |bs| == 25 && PacksPrefix(bs, w, i)
    requires bit == if bs[i as int] then 1 else 0
    ensures PacksPrefix(bs, w | (bit << i), i + 1)
  {
    var w' := w | (bit << i);
    forall j: bv32 | j < 32 ensures Bit32(w', j) == (j < i + 1 && bs[j as int]) {
      AccumulateBit(bs, w, i, bit, j);
    }
  }

  /** AccumulateStep at one bit position j. */
  lemma AccumulateBit(bs: seq<bool>, w: bv32, i: bv32, bit: bv32, j: bv32)
    requires i < 25 && j < 32 && |bs| == 25
    requires Bit32(w, j) == (j < i && bs[j as int])
    requires bit == if bs[i as int] then 1 else 0
    ensures Bit32(w | (bit << i), j) == (j < i + 1 && bs[j as int])
  {
    OrBit(w, bit, i, j);
    IndexStep(i, j);
  }

  /** Below i + 1 is below i or at i. */
  lemma IndexStep(i: bv32, j: bv32)
    requires i < 25 && j < 32
    ensures (j < i + 1) == (j < i || j == i)
    ensures j == i ==> j as int == i as int
  {
  }

  /** Or-ing a 0 or 1 shifted to position k sets bit k to it and keeps the other bits. */
  lemma OrBit(a: bv32, b: bv32, k: bv32, j: bv32)
    requires b <= 1 && k < 32 && j < 32
    ensures Bit32(a | (b << k), j) == (Bit32(a, j) || (b == 1 && j == k))
  {
  }

  /** Once all 25 levels are in, clearing bits 25..31 changes nothing. */
  lemma ClearHighKeeps(bs: seq<bool>, w: bv32)
    requires |bs| == 25 && PacksPrefix(bs, w, 25)
    ensures PacksPrefix(bs, w & !0xFE00_0000, 25)
  {
    var masked := w & !0xFE00_0000;
    forall j: bv32 | j < 32 ensures Bit32(masked, j) == (j < 25 && bs[j as int]) {
      ClearHigh(w, j);
    }
  }

  /** Masking with ~0xFE000000 keeps bits 0..24 and clears bits 25..31. */
  lemma ClearHigh(w: bv32, j: bv32)
    requires j < 32
    ensures Bit32(w & !0xFE00_0000, j) == (j < 25 && Bit32(w, j))
  {
  }
}
