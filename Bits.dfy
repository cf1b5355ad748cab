/** Bit-field helpers of the instruction decoder (AsmCommand.java).
    A Java `int` is represented by its 32-bit pattern; `Signed` gives the
    value Java sees. */
module Bits {

  /** The value Java gives an `int` whose bit pattern is `x`. */
  function Signed(x: bv32): int
  {
    if x < 0x8000_0000 then x as int else -((!x) as int) - 1
  }

  lemma SignedLow(x: bv32)
    ensures -0x8000_0000 <= Signed(x)
  {}

  lemma SignedHigh(x: bv32)
    ensures Signed(x) < 0x8000_0000
  {}

  /** Bit 31 is the sign. */
  lemma SignedNonNegative(x: bv32)
    ensures Signed(x) >= 0 <==> x < 0x8000_0000
  {}

  /** Java's `>>`: shift right, filling the vacated high bits with copies of bit 31. */
  function Sar(x: bv32, n: bv32): (r: bv32)
    requires n < 32
  {
    if x < 0x8000_0000 then x >> n else (x >> n) | !(0xFFFF_FFFF >> n)
  }

  /** getBit: bit `b` of `x`, as 0 or 1. */
  function GetBit(x: bv32, b: bv32): bv32
    requires b < 32
  {
    (x >> b) & 1
  }

  /** getBit's own `(x >> b) & 1` uses the sign-filling shift, whose fill never
      reaches bit 0 when `b < 32`. */
  lemma GetBitArithmetic(x: bv32, b: bv32)
    requires b < 32
    ensures GetBit(x, b) == Sar(x, b) & 1
  {}

  /** The mask of the low `w` bits. */
  function LowMask(w: bv32): bv32
    requires w < 32
  {
    ((1 as bv32) << w) - 1
  }

  /** getBitSubseq: bits `l..r` of `x`, moved down to bit 0. */
  function GetBitSubseq(x: bv32, l: bv32, r: bv32): bv32
    requires l <= r < 32 && r - l < 31
  {
    Sar(x, l) & ((1 << (r - l + 1)) - 1)
  }

  /** The field has `r - l + 1` bits. */
  lemma GetBitSubseqBelow(x: bv32, l: bv32, r: bv32)
    requires l <= r < 32 && r - l < 31
    ensures GetBitSubseq(x, l, r) < (1 as bv32) << (r - l + 1)
  {}

  /** Every bit from `b` to 31. */
  function HighBits(b: bv32): bv32
    requires b < 32
  {
    !(((1 as bv32) << b) - 1)
  }

  /** signExtend: copies bit `signBit` into every higher bit. */
  function SignExtend(x: bv32, signBit: bv32): bv32
    requires 0 < signBit < 32
  {
    var len := 32 - signBit;
    var mask := ((GetBit(x, signBit) << len) - GetBit(x, signBit)) << signBit;
    x | mask
  }

  /** A value whose sign bit is clear is returned unchanged. */
  lemma SignExtendClear(x: bv32, b: bv32)
    requires 0 < b < 32 && GetBit(x, b) == 0
    ensures SignExtend(x, b) == x
  {}

  /** A value whose sign bit is set gets every bit from `b` up set. */
  lemma SignExtendSet(x: bv32, b: bv32)
    requires 0 < b < 32 && GetBit(x, b) == 1
    ensures SignExtend(x, b) == x | HighBits(b)
  {}

  /** When bit `b` is set, sign extension sets every bit from `b` up ... */
  lemma SignExtendSetsHighBits(x: bv32, b: bv32)
    requires 0 < b < 32 && GetBit(x, b) == 1
    ensures SignExtend(x, b) & HighBits(b) == HighBits(b)
  {}

  /** ... and keeps the bits below `b`. */
  lemma SignExtendKeepsLowBits(x: bv32, b: bv32)
    requires 0 < b < 32
    ensures SignExtend(x, b) & !HighBits(b) == x & !HighBits(b)
  {}

  /** Sign extension at a fixed bit is idempotent. */
  lemma SignExtendIdempotent(x: bv32, b: bv32)
    requires 0 < b < 32
    ensures SignExtend(SignExtend(x, b), b) == SignExtend(x, b)
  {}

  // ---------------------------------------------------------------------
  // reorder

  /** The loop counter of `reorder` after `i` increments, as a Java `int`. */
  function BitIndex(i: nat): bv32
  {
    if i == 0 then 0 else BitIndex(i - 1) + 1
  }

  lemma Succ(c: bv32)
    requires c < 31
    ensures (c + 1) as int == c as int + 1
  {}

  lemma {:induction false} BitIndexValue(i: nat)
    requires i < 32
    ensures BitIndex(i) as int == i
  {
    if i > 0 {
      BitIndexValue(i - 1);
      Succ(BitIndex(i - 1));
    }
  }

  lemma {:induction false} BitIndexBound(i: nat)
    requires i < 32
    ensures BitIndex(i) < 32
  {
    BitIndexValue(i);
  }

  lemma {:induction false} BitIndexInjective(i: nat, k: nat)
    requires i < 32 && k < 32 && BitIndex(i) == BitIndex(k)
    ensures i == k
  {
    BitIndexValue(i);
    BitIndexValue(k);
  }

  predicate ValidPositions(wp: seq<bv32>)
  {
    |wp| < 32 && forall i :: 0 <= i < |wp| ==> wp[i] < 32
  }

  predicate Distinct(wp: seq<bv32>)
  {
    forall i, k :: 0 <= i < k < |wp| ==> wp[i] != wp[k]
  }

  lemma DistinctAt(wp: seq<bv32>, i: nat, k: nat)
    requires Distinct(wp) && i < k < |wp|
    ensures wp[i] != wp[k]
  {}

  lemma PositionAt(wp: seq<bv32>, i: nat)
    requires ValidPositions(wp) && i < |wp|
    ensures wp[i] < 32
  {}

  lemma AvoidsAt(wp: seq<bv32>, n: nat, q: bv32, k: nat)
    requires n <= |wp| && k < n && forall j :: 0 <= j < n ==> wp[j] != q
    ensures wp[k] != q
  {}

  /** Bit `i` of `imm`, placed at position `wp[i]`. */
  function Placed(imm: bv32, wp: seq<bv32>, i: nat): bv32
    requires ValidPositions(wp) && i < |wp|
  {
    BitIndexBound(i);
    GetBit(imm, BitIndex(i)) << wp[i]
  }

  /** The bits of `imm` below index `n`, each placed at its position in `wp`. */
  function ReorderedUpTo(imm: bv32, wp: seq<bv32>, n: nat): bv32
    requires ValidPositions(wp) && n <= |wp|
  {
    if n == 0 then 0 else ReorderedUpTo(imm, wp, n - 1) | Placed(imm, wp, n - 1)
  }

  /** The result `reorder(imm, wp...)` specifies: bit k of `imm` moved to `wp[k]`. */
  function Reordered(imm: bv32, wp: seq<bv32>): bv32
    requires ValidPositions(wp)
  {
    ReorderedUpTo(imm, wp, |wp|)
  }

  /** reorder: ORs bit i of `immediate` into position `wherePut[i]`, for each i. */
  method Reorder(immediate: bv32, wherePut: seq<bv32>) returns (answer: bv32)
    requires ValidPositions(wherePut)
    ensures answer == Reordered(immediate, wherePut)
  {
    answer := 0;
    var i: nat := 0;
    while i < |wherePut|
      invariant i <= |wherePut|
      invariant answer == ReorderedUpTo(immediate, wherePut, i)
    {
      answer := answer | Placed(immediate, wherePut, i);
      i := i + 1;
    }
  }

  // Where the bits land.

  lemma OtherPosition(bit: bv32, rest: bv32, p: bv32, q: bv32)
    requires bit <= 1 && p < 32 && q < 32 && p != q
    ensures ((rest | (bit << p)) >> q) & 1 == (rest >> q) & 1
  {}

  lemma SamePosition(bit: bv32, rest: bv32, p: bv32)
    requires bit <= 1 && p < 32 && (rest >> p) & 1 == 0
    ensures ((rest | (bit << p)) >> p) & 1 == bit
  {}

  lemma {:induction false} PlacedOther(imm: bv32, wp: seq<bv32>, i: nat, rest: bv32, q: bv32)
    requires ValidPositions(wp) && i < |wp| && q < 32 && wp[i] != q
    ensures ((rest | Placed(imm, wp, i)) >> q) & 1 == (rest >> q) & 1
  {
    BitIndexBound(i);
    OtherPosition(GetBit(imm, BitIndex(i)), rest, wp[i], q);
  }

  lemma {:induction false} PlacedSame(imm: bv32, wp: seq<bv32>, i: nat, rest: bv32)
    requires ValidPositions(wp) && i < |wp| && (rest >> wp[i]) & 1 == 0
    ensures BitIndex(i) < 32 && ((rest | Placed(imm, wp, i)) >> wp[i]) & 1 == GetBit(imm, BitIndex(i))
  {
    BitIndexBound(i);
    SamePosition(GetBit(imm, BitIndex(i)), rest, wp[i]);
  }

  lemma {:induction false} ReorderedUpToUnfold(imm: bv32, wp: seq<bv32>, n: nat)
    requires ValidPositions(wp) && 0 < n <= |wp|
    ensures ReorderedUpTo(imm, wp, n) == ReorderedUpTo(imm, wp, n - 1) | Placed(imm, wp, n - 1)
  {}

  lemma {:induction false} PositionMaskUnfold(wp: seq<bv32>, n: nat)
    requires ValidPositions(wp) && 0 < n <= |wp|
    ensures PositionMask(wp, n) == PositionMask(wp, n - 1) | ((1 as bv32) << wp[n - 1])
  {}

  /** No bit is set at a position not yet filled. */
  lemma {:induction false} ReorderedBitOutside(imm: bv32, wp: seq<bv32>, n: nat, q: bv32)
    requires ValidPositions(wp) && n <= |wp| && q < 32
    requires forall k :: 0 <= k < n ==> wp[k] != q
    ensures (ReorderedUpTo(imm, wp, n) >> q) & 1 == 0
  {
    if n > 0 {
      ReorderedBitOutside(imm, wp, n - 1, q);
      AvoidsAt(wp, n, q, n - 1);
      ReorderedUpToUnfold(imm, wp, n);
      PlacedOther(imm, wp, n - 1, ReorderedUpTo(imm, wp, n - 1), q);
    }
  }

  /** The bit placed last is found at its position. */
  lemma {:induction false} ReorderedUpToLastBit(imm: bv32, wp: seq<bv32>, n: nat)
    requires ValidPositions(wp) && Distinct(wp) && 0 < n <= |wp|
    ensures BitIndex(n - 1) < 32 && (ReorderedUpTo(imm, wp, n) >> wp[n - 1]) & 1 == GetBit(imm, BitIndex(n - 1))
  {
    ReorderedBitOutside(imm, wp, n - 1, wp[n - 1]);
    ReorderedUpToUnfold(imm, wp, n);
    PlacedSame(imm, wp, n - 1, ReorderedUpTo(imm, wp, n - 1));
  }

  /** Placing a later bit leaves the bits at earlier positions alone. */
  lemma {:induction false} ReorderedUpToKeepsBit(imm: bv32, wp: seq<bv32>, n: nat, k: nat)
    requires ValidPositions(wp) && Distinct(wp) && k < n - 1 && n <= |wp|
    ensures (ReorderedUpTo(imm, wp, n) >> wp[k]) & 1 == (ReorderedUpTo(imm, wp, n - 1) >> wp[k]) & 1
  {
    DistinctAt(wp, k, n - 1);
    PositionAt(wp, k);
    ReorderedUpToUnfold(imm, wp, n);
    PlacedOther(imm, wp, n - 1, ReorderedUpTo(imm, wp, n - 1), wp[k]);
  }

  /** With distinct positions, bit `k` of `imm` is found at `wp[k]` once placed. */
  lemma {:induction false} ReorderedUpToPlacesBit(imm: bv32, wp: seq<bv32>, n: nat, k: nat)
    requires ValidPositions(wp) && Distinct(wp) && k < n <= |wp|
    ensures BitIndex(k) < 32 && (ReorderedUpTo(imm, wp, n) >> wp[k]) & 1 == GetBit(imm, BitIndex(k))
  {
    if k == n - 1 {
      ReorderedUpToLastBit(imm, wp, n);
    } else {
      ReorderedUpToPlacesBit(imm, wp, n - 1, k);
      ReorderedUpToKeepsBit(imm, wp, n, k);
    }
  }

  /** reorder puts bit `k` of its input at `wherePut[k]`. */
  lemma {:induction false} ReorderedPlacesBit(imm: bv32, wp: seq<bv32>, k: nat)
    requires ValidPositions(wp) && Distinct(wp) && k < |wp|
    ensures BitIndex(k) < 32 && (Reordered(imm, wp) >> wp[k]) & 1 == GetBit(imm, BitIndex(k))
  {
    ReorderedUpToPlacesBit(imm, wp, |wp|, k);
  }

  /** The bits the first `n` positions of `wp` name. */
  function PositionMask(wp: seq<bv32>, n: nat): bv32
    requires ValidPositions(wp) && n <= |wp|
  {
    if n == 0 then 0 else PositionMask(wp, n - 1) | ((1 as bv32) << wp[n - 1])
  }

  lemma MaskStep(bit: bv32, rest: bv32, p: bv32, m: bv32)
    requires bit <= 1 && p < 32 && rest & !m == 0
    ensures (rest | (bit << p)) & !(m | ((1 as bv32) << p)) == 0
  {}

  lemma {:induction false} PlacedWithinMask(imm: bv32, wp: seq<bv32>, i: nat, rest: bv32, m: bv32)
    requires ValidPositions(wp) && i < |wp| && rest & !m == 0
    ensures (rest | Placed(imm, wp, i)) & !(m | ((1 as bv32) << wp[i])) == 0
  {
    BitIndexBound(i);
    PositionAt(wp, i);
  }

  lemma {:induction false} ReorderedUpToMaskStep(imm: bv32, wp: seq<bv32>, n: nat)
    requires ValidPositions(wp) && 0 < n <= |wp|
    requires ReorderedUpTo(imm, wp, n - 1) & !PositionMask(wp, n - 1) == 0
    ensures ReorderedUpTo(imm, wp, n) & !PositionMask(wp, n) == 0
  {
    PositionAt(wp, n - 1);
    ReorderedUpToUnfold(imm, wp, n);
    PositionMaskUnfold(wp, n);
    PlacedWithinMask(imm, wp, n - 1, ReorderedUpTo(imm, wp, n - 1), PositionMask(wp, n - 1));
  }

  lemma {:induction false} ReorderedUpToWithinMask(imm: bv32, wp: seq<bv32>, n: nat)
    requires ValidPositions(wp) && n <= |wp|
    ensures ReorderedUpTo(imm, wp, n) & !PositionMask(wp, n) == 0
  {
    if n > 0 {
      ReorderedUpToWithinMask(imm, wp, n - 1);
      ReorderedUpToMaskStep(imm, wp, n);
    }
  }

  /** reorder sets no bit outside the positions listed. */
  lemma {:induction false} ReorderedWithinMask(imm: bv32, wp: seq<bv32>)
    requires ValidPositions(wp)
    ensures Reordered(imm, wp) & !PositionMask(wp, |wp|) == 0
  {
    ReorderedUpToWithinMask(imm, wp, |wp|);
  }
}
