/** Immediate reconstruction of the instruction decoder (AsmCommand.java):
    the I, S, B, U and J formats of the RISC-V base ISA (Unprivileged ISA,
    section 2.3, "Immediate Encoding Variants") and the scattered immediates of
    the "C" compressed extension (chapter 16). Every immediate is the 32-bit
    pattern of the Java `int` the source computes; `Signed` gives its value.
    "Even" or "a multiple of 4" is stated as the low bits of the pattern being
    zero, which is what it means for a two's complement value. */
module Immediates {
  import opened Bits

  // ---------------------------------------------------------------------
  // The 32-bit formats

  /** getIImmediate: bits 20..31, sign-extended from bit 11. */
  function IImmediate(inst: bv32): bv32
  {
    SignExtend(GetBitSubseq(inst, 20, 31), 11)
  }

  /** getSImmediate: bits 7..11 and 25..31, sign-extended from bit 11. */
  function SImmediate(inst: bv32): bv32
  {
    SignExtend(GetBitSubseq(inst, 7, 11) | (GetBitSubseq(inst, 25, 31) << 5), 11)
  }

  /** getBImmediate: {bit 31, bit 7, bits 25..30, bits 8..11, 0}, sign-extended from bit 12. */
  function BImmediate(inst: bv32): bv32
  {
    var imm := (GetBitSubseq(inst, 8, 11) << 1)
      | (GetBitSubseq(inst, 25, 30) << 5)
      | (GetBitSubseq(inst, 7, 7) << 11)
      | (GetBit(inst, 31) << 12);
    SignExtend(imm, 12)
  }

  /** getUImmediate: bits 12..31 in place, low twelve bits zero. */
  function UImmediate(inst: bv32): bv32
  {
    GetBitSubseq(inst, 12, 31) << 12
  }

  /** getJImmediate: {bit 31, bits 12..19, bit 20, bits 21..30, 0}, sign-extended from bit 20. */
  function JImmediate(inst: bv32): bv32
  {
    var imm := (GetBitSubseq(inst, 21, 24) << 1)
      | (GetBitSubseq(inst, 25, 30) << 5)
      | (GetBitSubseq(inst, 20, 20) << 11)
      | (GetBitSubseq(inst, 12, 19) << 12)
      | (GetBit(inst, 31) << 20);
    SignExtend(imm, 20)
  }

  // The encoders: where the ISA puts each immediate bit in the instruction word.

  const IField: bv32 := 0xFFF0_0000
  const SBField: bv32 := 0xFE00_0F80
  const UJField: bv32 := 0xFFFF_F000

  function EncodeI(v: bv32): (w: bv32)
    ensures w & !IField == 0
  {
    (v & 0xFFF) << 20
  }

  function EncodeS(v: bv32): (w: bv32)
    ensures w & !SBField == 0
  {
    ((v & 0x1F) << 7) | (((v >> 5) & 0x7F) << 25)
  }

  function EncodeB(v: bv32): (w: bv32)
    ensures w & !SBField == 0
  {
    (((v >> 1) & 0xF) << 8) | (((v >> 5) & 0x3F) << 25) | (((v >> 11) & 1) << 7) | (((v >> 12) & 1) << 31)
  }

  function EncodeU(v: bv32): (w: bv32)
    ensures w & !UJField == 0
  {
    v & 0xFFFF_F000
  }

  function EncodeJ(v: bv32): (w: bv32)
    ensures w & !UJField == 0
  {
    (((v >> 1) & 0x3FF) << 21) | (((v >> 11) & 1) << 20) | (((v >> 12) & 0xFF) << 12) | (((v >> 20) & 1) << 31)
  }

  // The immediates as the ISA draws them (Unprivileged ISA, section 2.3, figure
  // "Types of immediate produced by RISC-V instructions"): bit groups of the word
  // moved to their place, and bit 31 of the word copied into every higher bit.

  /** Copies of bit 31 of the word in the bits `high` names. */
  function Fill(inst: bv32, high: bv32): bv32
  {
    if inst < 0x8000_0000 then 0 else high
  }

  function IsaI(inst: bv32): bv32
  {
    Fill(inst, 0xFFFF_F800) | ((inst >> 20) & 0x7FF)
  }

  function IsaS(inst: bv32): bv32
  {
    Fill(inst, 0xFFFF_F800) | (((inst >> 25) & 0x3F) << 5) | ((inst >> 7) & 0x1F)
  }

  function IsaB(inst: bv32): bv32
  {
    Fill(inst, 0xFFFF_F000) | (((inst >> 7) & 1) << 11) | (((inst >> 25) & 0x3F) << 5) | (((inst >> 8) & 0xF) << 1)
  }

  function IsaU(inst: bv32): bv32
  {
    inst & 0xFFFF_F000
  }

  function IsaJ(inst: bv32): bv32
  {
    Fill(inst, 0xFFF0_0000) | (inst & 0xF_F000) | (((inst >> 20) & 1) << 11) | (((inst >> 21) & 0x3FF) << 1)
  }

  // Sign extension at the fixed bits the decoder uses.

  lemma SignExtend11(x: bv32)
    ensures x & 0x800 < 0x800 ==> SignExtend(x, 11) == x
    ensures x & 0x800 >= 0x800 ==> SignExtend(x, 11) == x | 0xFFFF_F800
  {
    if GetBit(x, 11) < 1 { SignExtendClear(x, 11); } else { SignExtendSet(x, 11); }
  }

  lemma SignExtend12(x: bv32)
    ensures x & 0x1000 < 0x1000 ==> SignExtend(x, 12) == x
    ensures x & 0x1000 >= 0x1000 ==> SignExtend(x, 12) == x | 0xFFFF_F000
  {
    if GetBit(x, 12) < 1 { SignExtendClear(x, 12); } else { SignExtendSet(x, 12); }
  }

  lemma SignExtend20(x: bv32)
    ensures x & 0x10_0000 < 0x10_0000 ==> SignExtend(x, 20) == x
    ensures x & 0x10_0000 >= 0x10_0000 ==> SignExtend(x, 20) == x | 0xFFF0_0000
  {
    if GetBit(x, 20) < 1 { SignExtendClear(x, 20); } else { SignExtendSet(x, 20); }
  }

  // Fields at fixed positions, as plain shifts and masks.

  /** A field that reaches bit 31 is the plain unsigned shift: the mask cuts off
      the copies of the sign that `>>` brings in. */
  lemma Top12(x: bv32)
    ensures GetBitSubseq(x, 12, 31) == x >> 12
  {
    if x < 0x8000_0000 {
      assert Sar(x, 12) == x >> 12;
    } else {
      assert Sar(x, 12) == (x >> 12) | 0xFFF0_0000;
    }
  }

  lemma Top20(x: bv32)
    ensures GetBitSubseq(x, 20, 31) == x >> 20
  {
    if x < 0x8000_0000 {
      assert Sar(x, 20) == x >> 20;
    } else {
      assert Sar(x, 20) == (x >> 20) | 0xFFFF_F000;
    }
  }

  lemma Top25(x: bv32)
    ensures GetBitSubseq(x, 25, 31) == x >> 25
  {
    if x < 0x8000_0000 {
      assert Sar(x, 25) == x >> 25;
    } else {
      assert Sar(x, 25) == (x >> 25) | 0xFFFF_FF80;
    }
  }

  lemma SFields(x: bv32)
    ensures GetBitSubseq(x, 7, 11) == (x >> 7) & 0x1F
  {}

  lemma BFields(x: bv32)
    ensures GetBitSubseq(x, 8, 11) == (x >> 8) & 0xF
    ensures GetBitSubseq(x, 25, 30) == (x >> 25) & 0x3F
    ensures GetBitSubseq(x, 7, 7) == (x >> 7) & 1
  {}

  lemma JLowFields(x: bv32)
    ensures GetBitSubseq(x, 21, 24) == (x >> 21) & 0xF
    ensures GetBitSubseq(x, 25, 30) == (x >> 25) & 0x3F
  {}

  lemma JHighFields(x: bv32)
    ensures GetBitSubseq(x, 20, 20) == (x >> 20) & 1
    ensures GetBitSubseq(x, 12, 19) == (x >> 12) & 0xFF
  {}

  // The decoder's immediates are the ISA's.

  lemma IFieldsSigned(inst: bv32)
    ensures IImmediate(inst) == SignExtend(inst >> 20, 11)
  {
    Top20(inst);
  }

  lemma ISignExtended(inst: bv32)
    ensures SignExtend(inst >> 20, 11) == IsaI(inst)
  {
    SignExtend11(inst >> 20);
  }

  /** getIImmediate computes the ISA's I-immediate. */
  lemma IMatchesIsa(inst: bv32)
    ensures IImmediate(inst) == IsaI(inst)
  {
    IFieldsSigned(inst);
    ISignExtended(inst);
  }

  lemma SFieldsSigned(inst: bv32)
    ensures SImmediate(inst) == SignExtend(((inst >> 7) & 0x1F) | ((inst >> 25) << 5), 11)
  {
    SFields(inst);
    Top25(inst);
  }

  lemma SSignExtended(inst: bv32)
    ensures SignExtend(((inst >> 7) & 0x1F) | ((inst >> 25) << 5), 11) == IsaS(inst)
  {
    SignExtend11(((inst >> 7) & 0x1F) | ((inst >> 25) << 5));
  }

  /** getSImmediate computes the ISA's S-immediate. */
  lemma SMatchesIsa(inst: bv32)
    ensures SImmediate(inst) == IsaS(inst)
  {
    SFieldsSigned(inst);
    SSignExtended(inst);
  }

  /** The B-immediate's bits gathered, before sign extension. */
  function BRaw(inst: bv32): bv32
  {
    (((inst >> 8) & 0xF) << 1) | (((inst >> 25) & 0x3F) << 5) | (((inst >> 7) & 1) << 11) | ((inst >> 31) << 12)
  }

  lemma BFieldsSigned(inst: bv32)
    ensures BImmediate(inst) == SignExtend(BRaw(inst), 12)
  {
    BFields(inst);
  }

  lemma BSignExtended(inst: bv32)
    ensures SignExtend(BRaw(inst), 12) == IsaB(inst)
  {
    SignExtend12(BRaw(inst));
  }

  /** getBImmediate computes the ISA's B-immediate. */
  lemma BMatchesIsa(inst: bv32)
    ensures BImmediate(inst) == IsaB(inst)
  {
    BFieldsSigned(inst);
    BSignExtended(inst);
  }

  /** getUImmediate computes the ISA's U-immediate. */
  lemma UMatchesIsa(inst: bv32)
    ensures UImmediate(inst) == IsaU(inst)
  {
    Top12(inst);
  }

  /** The J-immediate's bits gathered, before sign extension. */
  function JRaw(inst: bv32): bv32
  {
    (((inst >> 21) & 0xF) << 1) | (((inst >> 25) & 0x3F) << 5) | (((inst >> 20) & 1) << 11)
      | (((inst >> 12) & 0xFF) << 12) | ((inst >> 31) << 20)
  }

  lemma JFieldsSigned(inst: bv32)
    ensures JImmediate(inst) == SignExtend(JRaw(inst), 20)
  {
    JLowFields(inst);
    JHighFields(inst);
  }

  lemma JSignExtended(inst: bv32)
    ensures SignExtend(JRaw(inst), 20) == IsaJ(inst)
  {
    SignExtend20(JRaw(inst));
  }

  /** getJImmediate computes the ISA's J-immediate. */
  lemma JMatchesIsa(inst: bv32)
    ensures JImmediate(inst) == IsaJ(inst)
  {
    JFieldsSigned(inst);
    JSignExtended(inst);
  }

  // Ranges of the Java values.

  lemma SignedFrom11(v: bv32)
    requires v < 0x800 || v >= 0xFFFF_F800
    ensures -2048 <= Signed(v) <= 2047
  {}

  lemma SignedFrom12Even(v: bv32)
    requires (v < 0x1000 || v >= 0xFFFF_F000) && v & 1 < 1
    ensures -4096 <= Signed(v) <= 4094
  {}

  lemma SignedFrom20Even(v: bv32)
    requires (v < 0x10_0000 || v >= 0xFFF0_0000) && v & 1 < 1
    ensures -0x10_0000 <= Signed(v) <= 0xF_FFFE
  {}

  lemma IsaIBits(inst: bv32)
    ensures IsaI(inst) < 0x800 || IsaI(inst) >= 0xFFFF_F800
  {
    // the two signs separately
    if inst < 0x8000_0000 {} else {}
  }

  /** The I immediate lies in [-2048, 2047]. */
  lemma IImmediateRange(inst: bv32)
    ensures -2048 <= Signed(IImmediate(inst)) <= 2047
  {
    IMatchesIsa(inst);
    IsaIBits(inst);
    SignedFrom11(IImmediate(inst));
  }

  lemma IsaSBits(inst: bv32)
    ensures IsaS(inst) < 0x800 || IsaS(inst) >= 0xFFFF_F800
  {
    // the two signs separately
    if inst < 0x8000_0000 {} else {}
  }

  /** The S immediate lies in [-2048, 2047]. */
  lemma SImmediateRange(inst: bv32)
    ensures -2048 <= Signed(SImmediate(inst)) <= 2047
  {
    SMatchesIsa(inst);
    IsaSBits(inst);
    SignedFrom11(SImmediate(inst));
  }

  lemma IsaBBits(inst: bv32)
    ensures IsaB(inst) & 1 < 1
    ensures IsaB(inst) < 0x1000 || IsaB(inst) >= 0xFFFF_F000
  {
    // the two signs separately
    if inst < 0x8000_0000 {} else {}
  }

  /** The B immediate is even and lies in [-4096, 4094]. */
  lemma BImmediateRange(inst: bv32)
    ensures BImmediate(inst) & 1 == 0
    ensures -4096 <= Signed(BImmediate(inst)) <= 4094
  {
    BMatchesIsa(inst);
    IsaBBits(inst);
    SignedFrom12Even(BImmediate(inst));
  }

  /** The U immediate has its low twelve bits zero. */
  lemma UImmediateLowZero(inst: bv32)
    ensures UImmediate(inst) & 0xFFF == 0
  {
    UMatchesIsa(inst);
  }

  lemma IsaJBits(inst: bv32)
    ensures IsaJ(inst) & 1 < 1
    ensures IsaJ(inst) < 0x10_0000 || IsaJ(inst) >= 0xFFF0_0000
  {
    // the two signs separately
    if inst < 0x8000_0000 {} else {}
  }

  /** The J immediate is even and lies in [-2^20, 2^20 - 2]. */
  lemma JImmediateRange(inst: bv32)
    ensures JImmediate(inst) & 1 == 0
    ensures -0x10_0000 <= Signed(JImmediate(inst)) <= 0xF_FFFE
  {
    JMatchesIsa(inst);
    IsaJBits(inst);
    SignedFrom20Even(JImmediate(inst));
  }

  // Round trips: an in-range immediate scattered into its layout, whatever the
  // other bits of the word, decodes to itself; and the decoded immediate,
  // scattered again, gives back exactly the immediate bits of the word.

  // A Java value in a range has a bit pattern in the matching unsigned ranges.
  // Each step compares a pattern with one constant, where the solver is quick.

  lemma AtLeast800(w: bv32)
    requires 0x800 <= w
    ensures 0x800 <= w as int
  {}

  lemma AtLeast1000(w: bv32)
    requires 0x1000 <= w
    ensures 0x1000 <= w as int
  {}

  lemma AtLeast10_0000(w: bv32)
    requires 0x10_0000 <= w
    ensures 0x10_0000 <= w as int
  {}

  lemma Above11(v: bv32)
    requires 0x800 <= v < 0x8000_0000
    ensures Signed(v) > 2047
  {
    AtLeast800(v);
  }

  lemma Below11(v: bv32)
    requires 0x8000_0000 <= v < 0xFFFF_F800
    ensures Signed(v) < -2048
  {
    AtLeast800(!v);
  }

  lemma Unsigned11(v: bv32)
    requires -2048 <= Signed(v) <= 2047
    ensures v < 0x800 || v >= 0xFFFF_F800
  {
    if 0x800 <= v < 0x8000_0000 {
      Above11(v);
    } else if 0x8000_0000 <= v < 0xFFFF_F800 {
      Below11(v);
    }
  }

  lemma Above12(v: bv32)
    requires 0x1000 <= v < 0x8000_0000
    ensures Signed(v) > 4095
  {
    AtLeast1000(v);
  }

  lemma Below12(v: bv32)
    requires 0x8000_0000 <= v < 0xFFFF_F000
    ensures Signed(v) < -4096
  {
    AtLeast1000(!v);
  }

  lemma Unsigned12(v: bv32)
    requires -4096 <= Signed(v) <= 4095
    ensures v < 0x1000 || v >= 0xFFFF_F000
  {
    if 0x1000 <= v < 0x8000_0000 {
      Above12(v);
    } else if 0x8000_0000 <= v < 0xFFFF_F000 {
      Below12(v);
    }
  }

  lemma Above20(v: bv32)
    requires 0x10_0000 <= v < 0x8000_0000
    ensures Signed(v) > 0xF_FFFF
  {
    AtLeast10_0000(v);
  }

  lemma Below20(v: bv32)
    requires 0x8000_0000 <= v < 0xFFF0_0000
    ensures Signed(v) < -0x10_0000
  {
    AtLeast10_0000(!v);
  }

  lemma Unsigned20(v: bv32)
    requires -0x10_0000 <= Signed(v) <= 0xF_FFFF
    ensures v < 0x10_0000 || v >= 0xFFF0_0000
  {
    if 0x10_0000 <= v < 0x8000_0000 {
      Above20(v);
    } else if 0x8000_0000 <= v < 0xFFF0_0000 {
      Below20(v);
    }
  }

  lemma IsaIEncode(v: bv32, rest: bv32)
    requires v < 0x800 || v >= 0xFFFF_F800
    ensures IsaI(EncodeI(v) | (rest & !IField)) == v
  {
    // the two signs separately
    var w := EncodeI(v) | (rest & !IField);
    if v < 0x8000_0000 {
      assert w < 0x8000_0000;
    } else {
      assert w >= 0x8000_0000;
    }
  }

  lemma IRoundTrip(v: bv32, rest: bv32)
    requires -2048 <= Signed(v) <= 2047
    ensures IImmediate(EncodeI(v) | (rest & !IField)) == v
  {
    Unsigned11(v);
    IsaIEncode(v, rest);
    IMatchesIsa(EncodeI(v) | (rest & !IField));
  }

  lemma IsaIField(inst: bv32)
    ensures EncodeI(IsaI(inst)) == inst & IField
  {
    // the two signs separately
    if inst < 0x8000_0000 {} else {}
  }

  lemma IEncodesField(inst: bv32)
    ensures EncodeI(IImmediate(inst)) == inst & IField
  {
    IMatchesIsa(inst);
    IsaIField(inst);
  }

  lemma IsaSEncode(v: bv32, rest: bv32)
    requires v < 0x800 || v >= 0xFFFF_F800
    ensures IsaS(EncodeS(v) | (rest & !SBField)) == v
  {
    // the two signs separately
    var w := EncodeS(v) | (rest & !SBField);
    if v < 0x8000_0000 {
      assert w < 0x8000_0000;
    } else {
      assert w >= 0x8000_0000;
    }
  }

  lemma SRoundTrip(v: bv32, rest: bv32)
    requires -2048 <= Signed(v) <= 2047
    ensures SImmediate(EncodeS(v) | (rest & !SBField)) == v
  {
    Unsigned11(v);
    IsaSEncode(v, rest);
    SMatchesIsa(EncodeS(v) | (rest & !SBField));
  }

  lemma IsaSField(inst: bv32)
    ensures EncodeS(IsaS(inst)) == inst & SBField
  {
    // the two signs separately
    if inst < 0x8000_0000 {} else {}
  }

  lemma SEncodesField(inst: bv32)
    ensures EncodeS(SImmediate(inst)) == inst & SBField
  {
    SMatchesIsa(inst);
    IsaSField(inst);
  }

  lemma IsaBEncode(v: bv32, rest: bv32)
    requires (v < 0x1000 || v >= 0xFFFF_F000) && v & 1 < 1
    ensures IsaB(EncodeB(v) | (rest & !SBField)) == v
  {
    // the two signs separately
    var w := EncodeB(v) | (rest & !SBField);
    if v < 0x8000_0000 {
      assert w < 0x8000_0000;
    } else {
      assert w >= 0x8000_0000;
    }
  }

  lemma BRoundTrip(v: bv32, rest: bv32)
    requires -4096 <= Signed(v) <= 4094 && v & 1 == 0
    ensures BImmediate(EncodeB(v) | (rest & !SBField)) == v
  {
    Unsigned12(v);
    IsaBEncode(v, rest);
    BMatchesIsa(EncodeB(v) | (rest & !SBField));
  }

  lemma IsaBField(inst: bv32)
    ensures EncodeB(IsaB(inst)) == inst & SBField
  {
    // the two signs separately
    if inst < 0x8000_0000 {} else {}
  }

  lemma BEncodesField(inst: bv32)
    ensures EncodeB(BImmediate(inst)) == inst & SBField
  {
    BMatchesIsa(inst);
    IsaBField(inst);
  }

  lemma URoundTrip(v: bv32, rest: bv32)
    requires v & 0xFFF == 0
    ensures UImmediate(EncodeU(v) | (rest & !UJField)) == v
  {
    UMatchesIsa(EncodeU(v) | (rest & !UJField));
  }

  lemma UEncodesField(inst: bv32)
    ensures EncodeU(UImmediate(inst)) == inst & UJField
  {
    UMatchesIsa(inst);
  }

  lemma IsaJEncode(v: bv32, rest: bv32)
    requires (v < 0x10_0000 || v >= 0xFFF0_0000) && v & 1 < 1
    ensures IsaJ(EncodeJ(v) | (rest & !UJField)) == v
  {
    // the two signs separately
    var w := EncodeJ(v) | (rest & !UJField);
    if v < 0x8000_0000 {
      assert w < 0x8000_0000;
    } else {
      assert w >= 0x8000_0000;
    }
  }

  lemma JRoundTrip(v: bv32, rest: bv32)
    requires -0x10_0000 <= Signed(v) <= 0xF_FFFE && v & 1 == 0
    ensures JImmediate(EncodeJ(v) | (rest & !UJField)) == v
  {
    Unsigned20(v);
    IsaJEncode(v, rest);
    JMatchesIsa(EncodeJ(v) | (rest & !UJField));
  }

  lemma IsaJField(inst: bv32)
    ensures EncodeJ(IsaJ(inst)) == inst & UJField
  {
    // the two signs separately
    if inst < 0x8000_0000 {} else {}
  }

  lemma JEncodesField(inst: bv32)
    ensures EncodeJ(JImmediate(inst)) == inst & UJField
  {
    JMatchesIsa(inst);
    IsaJField(inst);
  }

  // ---------------------------------------------------------------------
  // The compressed formats: a field of the word is permuted by `reorder`.

  /** The positions of the C.J and C.JAL immediate bits. */
  const JalPositions: seq<bv32> := [5, 1, 2, 3, 7, 6, 10, 8, 9, 4, 11]

  /** The positions are valid bit numbers and pairwise distinct. */
  lemma JalPositionsValid()
    ensures ValidPositions(JalPositions) && Distinct(JalPositions)
  {}

  lemma JalPositionsMaskHalf()
    requires ValidPositions(JalPositions)
    ensures PositionMask(JalPositions, 6) == 0xEE
  {
    assert PositionMask(JalPositions, 1) == 0x20;
    assert PositionMask(JalPositions, 2) == 0x22;
    assert PositionMask(JalPositions, 3) == 0x26;
    assert PositionMask(JalPositions, 4) == 0x2E;
    assert PositionMask(JalPositions, 5) == 0xAE;
  }

  /** The positions cover exactly the mask 0xFFE. */
  lemma JalPositionsMask()
    requires ValidPositions(JalPositions)
    ensures PositionMask(JalPositions, 11) == 0xFFE
  {
    JalPositionsMaskHalf();
    assert PositionMask(JalPositions, 7) == 0x4EE;
    assert PositionMask(JalPositions, 8) == 0x5EE;
    assert PositionMask(JalPositions, 9) == 0x7EE;
    assert PositionMask(JalPositions, 10) == 0x7FE;
    assert PositionMask(JalPositions, 11) == 0xFFE;
  }

  /** The positions of the C.BEQZ and C.BNEZ immediate bits. */
  const BranchPositions: seq<bv32> := [5, 1, 2, 6, 7, 3, 4, 8]

  /** The positions are valid bit numbers and pairwise distinct. */
  lemma BranchPositionsValid()
    ensures ValidPositions(BranchPositions) && Distinct(BranchPositions)
  {}

  /** The positions cover exactly the mask 0x1FE. */
  lemma BranchPositionsMask()
    requires ValidPositions(BranchPositions)
    ensures PositionMask(BranchPositions, 8) == 0x1FE
  {
    assert PositionMask(BranchPositions, 1) == 0x20;
    assert PositionMask(BranchPositions, 2) == 0x22;
    assert PositionMask(BranchPositions, 3) == 0x26;
    assert PositionMask(BranchPositions, 4) == 0x66;
    assert PositionMask(BranchPositions, 5) == 0xE6;
    assert PositionMask(BranchPositions, 6) == 0xEE;
    assert PositionMask(BranchPositions, 7) == 0xFE;
    assert PositionMask(BranchPositions, 8) == 0x1FE;
  }

  /** The positions of the C.ADDI4SPN immediate bits. */
  const Addi4spnPositions: seq<bv32> := [3, 2, 6, 7, 8, 9, 4, 5]

  /** The positions are valid bit numbers and pairwise distinct. */
  lemma Addi4spnPositionsValid()
    ensures ValidPositions(Addi4spnPositions) && Distinct(Addi4spnPositions)
  {}

  /** The positions cover exactly the mask 0x3FC. */
  lemma Addi4spnPositionsMask()
    requires ValidPositions(Addi4spnPositions)
    ensures PositionMask(Addi4spnPositions, 8) == 0x3FC
  {
    assert PositionMask(Addi4spnPositions, 1) == 0x8;
    assert PositionMask(Addi4spnPositions, 2) == 0xC;
    assert PositionMask(Addi4spnPositions, 3) == 0x4C;
    assert PositionMask(Addi4spnPositions, 4) == 0xCC;
    assert PositionMask(Addi4spnPositions, 5) == 0x1CC;
    assert PositionMask(Addi4spnPositions, 6) == 0x3CC;
    assert PositionMask(Addi4spnPositions, 7) == 0x3DC;
    assert PositionMask(Addi4spnPositions, 8) == 0x3FC;
  }

  /** The positions of the C.LW and C.SW immediate bits. */
  const WordOffsetPositions: seq<bv32> := [6, 2, 3, 4, 5]

  /** The positions are valid bit numbers and pairwise distinct. */
  lemma WordOffsetPositionsValid()
    ensures ValidPositions(WordOffsetPositions) && Distinct(WordOffsetPositions)
  {}

  /** The positions cover exactly the mask 0x7C. */
  lemma WordOffsetPositionsMask()
    requires ValidPositions(WordOffsetPositions)
    ensures PositionMask(WordOffsetPositions, 5) == 0x7C
  {
    assert PositionMask(WordOffsetPositions, 1) == 0x40;
    assert PositionMask(WordOffsetPositions, 2) == 0x44;
    assert PositionMask(WordOffsetPositions, 3) == 0x4C;
    assert PositionMask(WordOffsetPositions, 4) == 0x5C;
    assert PositionMask(WordOffsetPositions, 5) == 0x7C;
  }

  /** The positions of the C.LWSP and C.SWSP immediate bits. */
  const StackOffsetPositions: seq<bv32> := [6, 7, 2, 3, 4, 5]

  /** The positions are valid bit numbers and pairwise distinct. */
  lemma StackOffsetPositionsValid()
    ensures ValidPositions(StackOffsetPositions) && Distinct(StackOffsetPositions)
  {}

  /** The positions cover exactly the mask 0xFC. */
  lemma StackOffsetPositionsMask()
    requires ValidPositions(StackOffsetPositions)
    ensures PositionMask(StackOffsetPositions, 6) == 0xFC
  {
    assert PositionMask(StackOffsetPositions, 1) == 0x40;
    assert PositionMask(StackOffsetPositions, 2) == 0xC0;
    assert PositionMask(StackOffsetPositions, 3) == 0xC4;
    assert PositionMask(StackOffsetPositions, 4) == 0xCC;
    assert PositionMask(StackOffsetPositions, 5) == 0xDC;
    assert PositionMask(StackOffsetPositions, 6) == 0xFC;
  }

  /** The positions of the C.ADDI16SP immediate bits. */
  const Addi16spPositions: seq<bv32> := [5, 7, 8, 6, 4, 9]

  /** The positions are valid bit numbers and pairwise distinct. */
  lemma Addi16spPositionsValid()
    ensures ValidPositions(Addi16spPositions) && Distinct(Addi16spPositions)
  {}

  /** The positions cover exactly the mask 0x3F0. */
  lemma Addi16spPositionsMask()
    requires ValidPositions(Addi16spPositions)
    ensures PositionMask(Addi16spPositions, 6) == 0x3F0
  {
    assert PositionMask(Addi16spPositions, 1) == 0x20;
    assert PositionMask(Addi16spPositions, 2) == 0xA0;
    assert PositionMask(Addi16spPositions, 3) == 0x1A0;
    assert PositionMask(Addi16spPositions, 4) == 0x1E0;
    assert PositionMask(Addi16spPositions, 5) == 0x1F0;
    assert PositionMask(Addi16spPositions, 6) == 0x3F0;
  }

  /** getJalCompressedImmediate: bits 2..12 permuted, sign-extended from bit 11. */
  function JalCompressedImmediate(inst: bv32): bv32
  {
    JalPositionsValid();
    SignExtend(Reordered(GetBitSubseq(inst, 2, 12), JalPositions), 11)
  }

  /** getBranchCompressedImmediate: bits 2..6 and 10..12 permuted, sign-extended from bit 8. */
  function BranchCompressedImmediate(inst: bv32): bv32
  {
    BranchPositionsValid();
    SignExtend(Reordered(BranchRaw(inst), BranchPositions), 8)
  }

  /** The C.ADDI4SPN immediate: bits 5..12 permuted, not sign-extended. */
  function Addi4spnImmediate(inst: bv32): bv32
  {
    Addi4spnPositionsValid();
    Reordered(GetBitSubseq(inst, 5, 12), Addi4spnPositions)
  }

  /** The C.LW / C.SW offset: bits 5..6 and 10..12 permuted. */
  function WordOffset(inst: bv32): bv32
  {
    WordOffsetPositionsValid();
    Reordered(GetBitSubseq(inst, 5, 6) | (GetBitSubseq(inst, 10, 12) << 2), WordOffsetPositions)
  }

  /** The six-bit field {bit 12, bits 2..6} of quadrants 1 and 2. */
  function SixBitField(inst: bv32): bv32
  {
    GetBitSubseq(inst, 2, 6) | (GetBit(inst, 12) << 5)
  }

  /** The C.LWSP offset: the six-bit field permuted. */
  function LoadStackOffset(inst: bv32): bv32
  {
    StackOffsetPositionsValid();
    Reordered(SixBitField(inst), StackOffsetPositions)
  }

  /** The C.SWSP offset: bits 7..12 permuted as for C.LWSP. */
  function StoreStackOffset(inst: bv32): bv32
  {
    StackOffsetPositionsValid();
    Reordered(GetBitSubseq(inst, 7, 12), StackOffsetPositions)
  }

  /** The C.ADDI16SP immediate: the six-bit field permuted, sign-extended from bit 9. */
  function Addi16spImmediate(inst: bv32): bv32
  {
    Addi16spPositionsValid();
    SignExtend(Reordered(SixBitField(inst), Addi16spPositions), 9)
  }

  /** The C.ADDI, C.LI, C.LUI and C.ANDI immediate: the six-bit field, sign-extended from bit 5. */
  function SixBitImmediate(inst: bv32): bv32
  {
    SignExtend(SixBitField(inst), 5)
  }

  // Sign extension of a value whose bits lie within a mask.

  lemma SignExtendWithin11(r: bv32)
    requires r & !0xFFE == 0
    ensures SignExtend(r, 11) & 1 == 0
    ensures SignExtend(r, 11) < 0x800 || SignExtend(r, 11) >= 0xFFFF_F800
  {
    SignExtend11(r);
  }

  lemma SignExtend8(x: bv32)
    ensures x & 0x100 < 0x100 ==> SignExtend(x, 8) == x
    ensures x & 0x100 >= 0x100 ==> SignExtend(x, 8) == x | 0xFFFF_FF00
  {
    if GetBit(x, 8) < 1 { SignExtendClear(x, 8); } else { SignExtendSet(x, 8); }
  }

  lemma SignExtendWithin8(r: bv32)
    requires r & !0x1FE == 0
    ensures SignExtend(r, 8) & 1 == 0
    ensures SignExtend(r, 8) < 0x100 || SignExtend(r, 8) >= 0xFFFF_FF00
  {
    SignExtend8(r);
  }

  lemma SignExtend9(x: bv32)
    ensures x & 0x200 < 0x200 ==> SignExtend(x, 9) == x
    ensures x & 0x200 >= 0x200 ==> SignExtend(x, 9) == x | 0xFFFF_FE00
  {
    if GetBit(x, 9) < 1 { SignExtendClear(x, 9); } else { SignExtendSet(x, 9); }
  }

  lemma SignExtendWithin9(r: bv32)
    requires r & !0x3F0 == 0
    ensures SignExtend(r, 9) & 15 == 0
    ensures SignExtend(r, 9) < 0x200 || SignExtend(r, 9) >= 0xFFFF_FE00
  {
    SignExtend9(r);
  }

  lemma SignExtend5(x: bv32)
    ensures x & 0x20 < 0x20 ==> SignExtend(x, 5) == x
    ensures x & 0x20 >= 0x20 ==> SignExtend(x, 5) == x | 0xFFFF_FFE0
  {
    if GetBit(x, 5) < 1 { SignExtendClear(x, 5); } else { SignExtendSet(x, 5); }
  }

  lemma SignExtendWithin5(r: bv32)
    requires r < 0x40
    ensures SignExtend(r, 5) < 0x20 || SignExtend(r, 5) >= 0xFFFF_FFE0
  {
    SignExtend5(r);
  }

  lemma SignedFrom11Even(v: bv32)
    requires (v < 0x800 || v >= 0xFFFF_F800) && v & 1 == 0
    ensures -2048 <= Signed(v) <= 2046
  {}

  lemma SignedFrom8Even(v: bv32)
    requires (v < 0x100 || v >= 0xFFFF_FF00) && v & 1 == 0
    ensures -256 <= Signed(v) <= 254
  {}

  lemma SignedFrom9Aligned(v: bv32)
    requires (v < 0x200 || v >= 0xFFFF_FE00) && v & 15 == 0
    ensures -512 <= Signed(v) <= 496
  {}

  lemma SignedFrom5(v: bv32)
    requires v < 0x20 || v >= 0xFFFF_FFE0
    ensures -32 <= Signed(v) <= 31
  {}

  // Ranges of the compressed immediates.

  lemma JalReorderedWithin(inst: bv32)
    requires ValidPositions(JalPositions)
    ensures Reordered(GetBitSubseq(inst, 2, 12), JalPositions) & !0xFFE == 0
  {
    JalPositionsMask();
    ReorderedWithinMask(GetBitSubseq(inst, 2, 12), JalPositions);
  }

  /** The C.J / C.JAL immediate is even and lies in [-2048, 2046]. */
  lemma JalCompressedImmediateRange(inst: bv32)
    ensures JalCompressedImmediate(inst) & 1 == 0
    ensures -2048 <= Signed(JalCompressedImmediate(inst)) <= 2046
  {
    JalPositionsValid();
    JalReorderedWithin(inst);
    SignExtendWithin11(Reordered(GetBitSubseq(inst, 2, 12), JalPositions));
    SignedFrom11Even(JalCompressedImmediate(inst));
  }

  /** The bits C.BEQZ and C.BNEZ gather before the permutation. */
  function BranchRaw(inst: bv32): bv32
  {
    GetBitSubseq(inst, 2, 6) | (GetBitSubseq(inst, 10, 12) << 5)
  }

  lemma BranchReorderedWithin(inst: bv32)
    requires ValidPositions(BranchPositions)
    ensures Reordered(BranchRaw(inst), BranchPositions) & !0x1FE == 0
  {
    BranchPositionsMask();
    ReorderedWithinMask(BranchRaw(inst), BranchPositions);
  }

  /** The C.BEQZ / C.BNEZ immediate is even and lies in [-256, 254]. */
  lemma BranchCompressedImmediateRange(inst: bv32)
    ensures BranchCompressedImmediate(inst) & 1 == 0
    ensures -256 <= Signed(BranchCompressedImmediate(inst)) <= 254
  {
    BranchPositionsValid();
    BranchReorderedWithin(inst);
    SignExtendWithin8(Reordered(BranchRaw(inst), BranchPositions));
    SignedFrom8Even(BranchCompressedImmediate(inst));
  }

  /** The C.ADDI4SPN immediate is a multiple of 4 below 1024. */
  lemma Addi4spnImmediateRange(inst: bv32)
    ensures Addi4spnImmediate(inst) & 3 == 0 && Addi4spnImmediate(inst) < 1024
  {
    Addi4spnPositionsValid();
    Addi4spnPositionsMask();
    ReorderedWithinMask(GetBitSubseq(inst, 5, 12), Addi4spnPositions);
  }

  /** The C.LW / C.SW offset is a multiple of 4 below 128. */
  lemma WordOffsetRange(inst: bv32)
    ensures WordOffset(inst) & 3 == 0 && WordOffset(inst) < 128
  {
    WordOffsetPositionsValid();
    WordOffsetPositionsMask();
    ReorderedWithinMask(GetBitSubseq(inst, 5, 6) | (GetBitSubseq(inst, 10, 12) << 2), WordOffsetPositions);
  }

  /** The C.LWSP offset is a multiple of 4 below 256. */
  lemma LoadStackOffsetRange(inst: bv32)
    ensures LoadStackOffset(inst) & 3 == 0 && LoadStackOffset(inst) < 256
  {
    StackOffsetPositionsValid();
    StackOffsetPositionsMask();
    ReorderedWithinMask(SixBitField(inst), StackOffsetPositions);
  }

  /** The C.SWSP offset is a multiple of 4 below 256. */
  lemma StoreStackOffsetRange(inst: bv32)
    ensures StoreStackOffset(inst) & 3 == 0 && StoreStackOffset(inst) < 256
  {
    StackOffsetPositionsValid();
    StackOffsetPositionsMask();
    ReorderedWithinMask(GetBitSubseq(inst, 7, 12), StackOffsetPositions);
  }

  lemma Addi16spReorderedWithin(inst: bv32)
    requires ValidPositions(Addi16spPositions)
    ensures Reordered(SixBitField(inst), Addi16spPositions) & !0x3F0 == 0
  {
    Addi16spPositionsMask();
    ReorderedWithinMask(SixBitField(inst), Addi16spPositions);
  }

  /** The C.ADDI16SP immediate is a multiple of 16 in [-512, 496]. */
  lemma Addi16spImmediateRange(inst: bv32)
    ensures Addi16spImmediate(inst) & 15 == 0
    ensures -512 <= Signed(Addi16spImmediate(inst)) <= 496
  {
    Addi16spPositionsValid();
    Addi16spReorderedWithin(inst);
    SignExtendWithin9(Reordered(SixBitField(inst), Addi16spPositions));
    SignedFrom9Aligned(Addi16spImmediate(inst));
  }

  lemma SixBitFieldBelow(inst: bv32)
    ensures SixBitField(inst) < 0x40
  {}

  /** The six-bit signed immediate lies in [-32, 31]. */
  lemma SixBitImmediateRange(inst: bv32)
    ensures -32 <= Signed(SixBitImmediate(inst)) <= 31
  {
    SixBitFieldBelow(inst);
    SignExtendWithin5(SixBitField(inst));
    SignedFrom5(SixBitImmediate(inst));
  }
}
