/** The instruction decoder of AsmCommand.java: the field extraction, the
    opcode and funct dispatch over RV32I, RV32M (Unprivileged ISA, chapters 2
    and 7) and the three compressed quadrants (chapter 16), and the jump
    targets the label pass uses. A decoded instruction is a mnemonic and its
    operands; the `printf` layout around them is not modelled. */
module Decoder {
  import opened Wrappers
  import opened Bits
  import opened Immediates
  import opened Registers
  import opened Text

  // ---------------------------------------------------------------------
  // Results

  /** A register operand: `X(n)` is printed by xRegToAbi, `C(n)` (a three-bit
      field of the compressed formats) by xRegToC. */
  datatype Register = X(number: bv32) | C(field: bv32)

  /** One printed operand. Values are kept as the Java `int` bit pattern and
      printed as `Signed` of it. `Target` is the label `go.get(..)` found for a
      jump target; `Csr` holds the number given to toCsrRegister. */
  datatype Operand =
    | Reg(reg: Register)
    | Imm(value: bv32)
    | Mem(offset: bv32, base: Register)
    | Target(found: Option<string>)
    | Csr(number: bv32)

  /** The RV32I and RV32M instructions the decoder names. */
  datatype BaseOp =
    | Lui | Auipc | Jal | Jalr | Beq | Bne | Blt | Bge | Bltu
    | Bgeu | Lb | Lh | Lw | Lbu | Lhu | Sb | Sh | Sw
    | Addi | Slti | Sltiu | Xori | Ori | Andi | Slli | Srli | Srai
    | Add | Sub | Sll | Slt | Sltu | Xor | Srl | Sra | Or
    | And | Mul | Mulh | Mulhsu | Mulhu | Div | Divu | Rem | Remu
    | Ecall | Ebreak | Csrrw | Csrrs | Csrrc | Csrrwi | Csrrsi | Csrrci

  /** The compressed instructions the decoder names. */
  datatype CompressedOp =
    | CAddi4spn | CLw | CSw | CNop | CAddi | CJal | CJ | CBeqz | CBnez
    | CLi | CAddi16sp | CLui | CSrli | CSrai | CAndi | CSub | CXor | COr
    | CAnd | CSlli | CLwsp | CSwsp | CJr | CMv | CEbreak | CJalr | CAdd

  /** What the decoder prints in the mnemonic's place: an instruction's name, or
      one of the texts for words it does not decode. */
  datatype Mnemonic =
    | Base(op: BaseOp)
    | Compressed(cop: CompressedOp)
    | Unknown | Invalid | Q0Unknown | VeryBad | Q1Unknown | BadQ2 | Q2Unknown

  /** The text printed for each mnemonic. */
  function MnemonicText(m: Mnemonic): string
  {
    match m
    case Base(op) => BaseText(op)
    case Compressed(cop) => CompressedText(cop)
    case Unknown => "UNKNOWN_COMMAND"
    case Invalid => "INVALID"
    case Q0Unknown => "Q0 UNKNOWN_COMMAND"
    case VeryBad => "VERY BAD"
    case Q1Unknown => "Q1 UNKNOWN_COMMAND"
    case BadQ2 => "BAD Q2"
    case Q2Unknown => "UNKNOWN_COMMAND Q2"
  }

  function BaseText(op: BaseOp): string
  {
    match op
    case Lui => "LUI"
    case Auipc => "AUIPC"
    case Jal => "JAL"
    case Jalr => "JALR"
    case Beq => "BEQ"
    case Bne => "BNE"
    case Blt => "BLT"
    case Bge => "BGE"
    case Bltu => "BLTU"
    case Bgeu => "BGEU"
    case Lb => "LB"
    case Lh => "LH"
    case Lw => "LW"
    case Lbu => "LBU"
    case Lhu => "LHU"
    case Sb => "SB"
    case Sh => "SH"
    case Sw => "SW"
    case Addi => "ADDI"
    case Slti => "SLTI"
    case Sltiu => "SLTIU"
    case Xori => "XORI"
    case Ori => "ORI"
    case Andi => "ANDI"
    case Slli => "SLLI"
    case Srli => "SRLI"
    case Srai => "SRAI"
    case Add => "ADD"
    case Sub => "SUB"
    case Sll => "SLL"
    case Slt => "SLT"
    case Sltu => "SLTU"
    case Xor => "XOR"
    case Srl => "SRL"
    case Sra => "SRA"
    case Or => "OR"
    case And => "AND"
    case Mul => "MUL"
    case Mulh => "MULH"
    case Mulhsu => "MULHSU"
    case Mulhu => "MULHU"
    case Div => "DIV"
    case Divu => "DIVU"
    case Rem => "REM"
    case Remu => "REMU"
    case Ecall => "ECALL"
    case Ebreak => "EBREAK"
    case Csrrw => "CSRRW"
    case Csrrs => "CSRRS"
    case Csrrc => "CSRRC"
    case Csrrwi => "CSRRWI"
    case Csrrsi => "CSRRSI"
    case Csrrci => "CSRRCI"
  }

  function CompressedText(cop: CompressedOp): string
  {
    match cop
    case CAddi4spn => "C.ADDI4SPN"
    case CLw => "C.LW"
    case CSw => "C.SW"
    case CNop => "C.NOP"
    case CAddi => "C.ADDI"
    case CJal => "C.JAL"
    case CJ => "C.J"
    case CBeqz => "C.BEQZ"
    case CBnez => "C.BNEZ"
    case CLi => "C.LI"
    case CAddi16sp => "C.ADDI16SP"
    case CLui => "C.LUI"
    case CSrli => "C.SRLI"
    case CSrai => "C.SRAI"
    case CAndi => "C.ANDI"
    case CSub => "C.SUB"
    case CXor => "C.XOR"
    case COr => "C.OR"
    case CAnd => "C.AND"
    case CSlli => "C.SLLI"
    case CLwsp => "C.LWSP"
    case CSwsp => "C.SWSP"
    case CJr => "C.JR"
    case CMv => "C.MV"
    case CEbreak => "C.EBREAK"
    case CJalr => "C.JALR"
    case CAdd => "C.ADD"
  }

  datatype Decoded = Decoded(mnemonic: Mnemonic, operands: seq<Operand>)

  /** `go.get(key)` on the label map. */
  function Lookup(go: map<int, string>, key: bv32): Option<string>
  {
    if key as int in go then Some(go[key as int]) else None
  }

  /** The name printed for a register operand. */
  function RegisterName(r: Register): string
  {
    match r
    case X(n) => XRegToAbi(n as int)
    case C(n) => XRegToC(n as int)
  }

  /** The name toCsrRegister gives the CSR operand; the number is a Java `int`. */
  function CsrName(number: bv32): Option<string>
  {
    ToCsrRegister(Signed(number))
  }

  /** What `%s` prints for an operand; a null name or label prints as "null". */
  function OperandText(op: Operand): string
  {
    match op
    case Reg(r) => RegisterName(r)
    case Imm(v) => IntToString(Signed(v))
    case Mem(offset, base) => IntToString(Signed(offset)) + "(" + RegisterName(base) + ")"
    case Target(found) => if found.Some? then found.value else "null"
    case Csr(n) => var name := CsrName(n); if name.Some? then name.value else "null"
  }

  // ---------------------------------------------------------------------
  // Fields of the 32-bit formats and of the compressed formats

  function Opcode(inst: bv32): bv32 { GetBitSubseq(inst, 0, 6) }
  function Rd(inst: bv32): bv32 { GetBitSubseq(inst, 7, 11) }
  function Funct3(inst: bv32): bv32 { GetBitSubseq(inst, 12, 14) }
  function Rs1(inst: bv32): bv32 { GetBitSubseq(inst, 15, 19) }
  function Rs2(inst: bv32): bv32 { GetBitSubseq(inst, 20, 24) }
  function Funct7(inst: bv32): bv32 { GetBitSubseq(inst, 25, 31) }
  /** The low two bits: quadrant 0, 1 or 2 of the compressed set, 3 for RV32. */
  function Quadrant(inst: bv32): bv32 { GetBitSubseq(inst, 0, 1) }
  /** The compressed formats' funct3, bits 13..15. */
  function CFunct(inst: bv32): bv32 { GetBitSubseq(inst, 13, 15) }

  // ---------------------------------------------------------------------
  // The 32-bit formats

  /** The loads' switch on funct3. */
  function LoadName(funct3: bv32): Mnemonic
  {
    if funct3 == 0 then Base(Lb)
    else if funct3 == 1 then Base(Lh)
    else if funct3 == 2 then Base(Lw)
    else if funct3 == 4 then Base(Lbu)
    else if funct3 == 5 then Base(Lhu)
    else Unknown
  }

  /** The immediate arithmetic's switch on funct3, and on funct7 for the right shifts. */
  function OpImmName(funct3: bv32, funct7: bv32): Mnemonic
  {
    if funct3 == 0 then Base(Addi)
    else if funct3 == 2 then Base(Slti)
    else if funct3 == 3 then Base(Sltiu)
    else if funct3 == 4 then Base(Xori)
    else if funct3 == 6 then Base(Ori)
    else if funct3 == 7 then Base(Andi)
    else if funct3 == 1 then Base(Slli)
    else if funct3 == 5 then
      (if funct7 == 0 then Base(Srli) else if funct7 == 0x20 then Base(Srai) else Unknown)
    else Unknown
  }

  /** The system instructions with rd = x0: the I-immediate alone decides. */
  function EnvironmentName(immediate: bv32): Mnemonic
  {
    if immediate == 0 then Base(Ecall) else if immediate == 1 then Base(Ebreak) else Unknown
  }

  /** The CSR instructions' switch on funct3. */
  function CsrOpName(funct3: bv32): Mnemonic
  {
    if funct3 == 1 then Base(Csrrw)
    else if funct3 == 2 then Base(Csrrs)
    else if funct3 == 3 then Base(Csrrc)
    else if funct3 == 5 then Base(Csrrwi)
    else if funct3 == 6 then Base(Csrrsi)
    else if funct3 == 7 then Base(Csrrci)
    else Unknown
  }

  /** decodeIType: JALR, the loads, the immediate arithmetic and the system
      instructions. The shifts print bits 20..24 instead of the immediate. */
  function DecodeIType(inst: bv32): Decoded
  {
    var opcode := Opcode(inst);
    var rd := Rd(inst);
    var funct3 := Funct3(inst);
    var rs1 := Rs1(inst);
    var immediate := IImmediate(inst);
    if opcode == 0x67 then
      Decoded(Base(Jalr), [Reg(X(rd)), Mem(immediate, X(rs1))])
    else if opcode == 0x03 then
      Decoded(LoadName(funct3), [Reg(X(rd)), Mem(immediate, X(rs1))])
    else if opcode == 0x13 then
      var value := if funct3 == 1 || funct3 == 5 then GetBitSubseq(inst, 20, 24) else immediate;
      Decoded(OpImmName(funct3, Funct7(inst)), [Reg(X(rd)), Reg(X(rs1)), Imm(value)])
    else if opcode == 0x73 then
      if rd == 0 then
        Decoded(EnvironmentName(immediate), [])
      else
        var source := if funct3 <= 3 then Reg(X(rs1)) else Imm(rs1);
        Decoded(CsrOpName(funct3), [Reg(X(rd)), Csr(immediate), source])
    else
      Decoded(Unknown, [Reg(X(rd)), Reg(X(rs1)), Imm(immediate)])
  }

  /** decodeRType's switch on funct7, then funct3: RV32I and RV32M. */
  function RTypeName(funct3: bv32, funct7: bv32): Mnemonic
  {
    if funct7 == 0x20 then
      (if funct3 == 0 then Base(Sub) else if funct3 == 5 then Base(Sra) else Unknown)
    else if funct7 == 0 then
      (if funct3 == 0 then Base(Add)
       else if funct3 == 1 then Base(Sll)
       else if funct3 == 2 then Base(Slt)
       else if funct3 == 3 then Base(Sltu)
       else if funct3 == 4 then Base(Xor)
       else if funct3 == 5 then Base(Srl)
       else if funct3 == 6 then Base(Or)
       else if funct3 == 7 then Base(And)
       else Unknown)
    else if funct7 == 1 then
      (if funct3 == 0 then Base(Mul)
       else if funct3 == 1 then Base(Mulh)
       else if funct3 == 2 then Base(Mulhsu)
       else if funct3 == 3 then Base(Mulhu)
       else if funct3 == 4 then Base(Div)
       else if funct3 == 5 then Base(Divu)
       else if funct3 == 6 then Base(Rem)
       else if funct3 == 7 then Base(Remu)
       else Unknown)
    else Unknown
  }

  /** decodeRType: the register-register operations. */
  function DecodeRType(inst: bv32): Decoded
  {
    Decoded(RTypeName(Funct3(inst), Funct7(inst)), [Reg(X(Rd(inst))), Reg(X(Rs1(inst))), Reg(X(Rs2(inst)))])
  }

  /** The stores' switch on funct3. */
  function StoreName(funct3: bv32): Mnemonic
  {
    if funct3 == 0 then Base(Sb) else if funct3 == 1 then Base(Sh) else if funct3 == 2 then Base(Sw) else Unknown
  }

  /** decodeSType: the stores; any other opcode gives a bare UNKNOWN_COMMAND. */
  function DecodeSType(inst: bv32): Decoded
  {
    if Opcode(inst) == 0x23 then
      Decoded(StoreName(Funct3(inst)), [Reg(X(Rs2(inst))), Mem(SImmediate(inst), X(Rs1(inst)))])
    else
      Decoded(Unknown, [])
  }

  /** The branches' switch on funct3. */
  function BranchName(funct3: bv32): Mnemonic
  {
    if funct3 == 0 then Base(Beq)
    else if funct3 == 1 then Base(Bne)
    else if funct3 == 4 then Base(Blt)
    else if funct3 == 5 then Base(Bge)
    else if funct3 == 6 then Base(Bltu)
    else if funct3 == 7 then Base(Bgeu)
    else Unknown
  }

  /** decodeBType: the conditional branches, with the label of the target. */
  function DecodeBType(inst: bv32, address: bv32, go: map<int, string>): Decoded
  {
    Decoded(BranchName(Funct3(inst)), [Reg(X(Rs1(inst))), Reg(X(Rs2(inst))), Target(Lookup(go, BImmediate(inst) + address))])
  }

  /** decodeUType: LUI and AUIPC with the U-immediate as a Java int. */
  function DecodeUType(inst: bv32): Decoded
  {
    var opcode := Opcode(inst);
    var name := if opcode == 0x37 then Base(Lui) else if opcode == 0x17 then Base(Auipc) else Unknown;
    Decoded(name, [Reg(X(Rd(inst))), Imm(UImmediate(inst))])
  }

  /** decodeJType: JAL with the label of the target. */
  function DecodeJType(inst: bv32, address: bv32, go: map<int, string>): Decoded
  {
    Decoded(Base(Jal), [Reg(X(Rd(inst))), Target(Lookup(go, JImmediate(inst) + address))])
  }

  // ---------------------------------------------------------------------
  // The compressed quadrants

  /** decodeQ0: the all-zero word is INVALID; C.ADDI4SPN, C.LW, C.SW. */
  function DecodeQ0(inst: bv32): Decoded
  {
    if inst == 0 then Decoded(Invalid, [])
    else
      var funct := CFunct(inst);
      var rd := GetBitSubseq(inst, 2, 4);
      var rs1 := GetBitSubseq(inst, 7, 9);
      if funct == 0 then
        Decoded(Compressed(CAddi4spn), [Reg(C(rd)), Reg(X(2)), Imm(Addi4spnImmediate(inst))])
      else if funct == 2 then
        Decoded(Compressed(CLw), [Reg(C(rd)), Mem(WordOffset(inst), C(rs1))])
      else if funct == 6 then
        Decoded(Compressed(CSw), [Reg(C(rd)), Mem(WordOffset(inst), C(rs1))])
      else
        Decoded(Q0Unknown, [])
  }

  /** The arithmetic group of quadrant 1 (funct 100): C.SRLI, C.SRAI, C.ANDI and
      the register-register group, whose choice ignores bit 12. */
  function DecodeQ1Arith(inst: bv32): Decoded
  {
    var rdF := GetBitSubseq(inst, 10, 11);
    var rd := GetBitSubseq(inst, 7, 9);
    var imm := SixBitField(inst);
    var rs := GetBitSubseq(inst, 2, 4);
    var rsF := GetBitSubseq(inst, 5, 6);
    if rdF == 0 then Decoded(Compressed(CSrli), [Reg(C(rd)), Imm(imm)])
    else if rdF == 1 then Decoded(Compressed(CSrai), [Reg(C(rd)), Imm(imm)])
    else if rdF == 2 then Decoded(Compressed(CAndi), [Reg(C(rd)), Imm(SixBitImmediate(inst))])
    else if rdF == 3 then
      var name :=
        if rsF == 0 then Compressed(CSub)
        else if rsF == 1 then Compressed(CXor)
        else if rsF == 2 then Compressed(COr)
        else if rsF == 3 then Compressed(CAnd)
        else Unknown;
      Decoded(name, [Reg(C(rd)), Reg(C(rs))])
    else Decoded(VeryBad, [])
  }

  /** decodeQ1: C.NOP/C.ADDI, C.JAL, C.J, C.BEQZ, C.BNEZ, C.LI, C.ADDI16SP/C.LUI
      and the arithmetic group. */
  function DecodeQ1(inst: bv32, address: bv32, go: map<int, string>): Decoded
  {
    var funct := CFunct(inst);
    if funct == 0 then
      if GetBitSubseq(inst, 2, 15) == 0 then Decoded(Compressed(CNop), [])
      else Decoded(Compressed(CAddi), [Reg(X(Rd(inst))), Imm(SixBitImmediate(inst))])
    else if funct == 1 then
      Decoded(Compressed(CJal), [Target(Lookup(go, address + JalCompressedImmediate(inst)))])
    else if funct == 5 then
      Decoded(Compressed(CJ), [Target(Lookup(go, address + JalCompressedImmediate(inst)))])
    else if funct == 6 then
      Decoded(Compressed(CBeqz), [Reg(C(GetBitSubseq(inst, 7, 9))), Target(Lookup(go, BranchCompressedImmediate(inst) + address))])
    else if funct == 7 then
      Decoded(Compressed(CBnez), [Reg(C(GetBitSubseq(inst, 7, 9))), Target(Lookup(go, BranchCompressedImmediate(inst) + address))])
    else if funct == 2 then
      Decoded(Compressed(CLi), [Reg(X(Rd(inst))), Imm(SixBitImmediate(inst))])
    else if funct == 3 then
      if Rd(inst) == 2 then Decoded(Compressed(CAddi16sp), [Reg(X(2)), Imm(Addi16spImmediate(inst))])
      else Decoded(Compressed(CLui), [Reg(X(Rd(inst))), Imm(SixBitImmediate(inst))])
    else if funct == 4 then
      DecodeQ1Arith(inst)
    else
      Decoded(Q1Unknown, [])
  }

  /** The funct 100 group of quadrant 2, chosen by bit 12: C.JR, C.MV, C.EBREAK,
      C.JALR, C.ADD. */
  function DecodeQ2Jump(inst: bv32): Decoded
  {
    var rd := Rd(inst);
    var rs := GetBitSubseq(inst, 2, 6);
    var rdFlag := GetBit(inst, 12);
    if rdFlag == 0 then
      if rs == 0 then Decoded(Compressed(CJr), [Reg(X(rd))])
      else Decoded(Compressed(CMv), [Reg(X(rd)), Reg(X(rs))])
    else if rdFlag == 1 then
      if rd == 0 && rs == 0 then Decoded(Compressed(CEbreak), [])
      else if rs == 0 then Decoded(Compressed(CJalr), [Reg(X(rd))])
      else Decoded(Compressed(CAdd), [Reg(X(rd)), Reg(X(rs))])
    else Decoded(BadQ2, [])
  }

  /** decodeQ2: C.SLLI, C.LWSP, C.SWSP and the funct 100 group. */
  function DecodeQ2(inst: bv32): Decoded
  {
    var funct := CFunct(inst);
    var rd := Rd(inst);
    if funct == 0 then Decoded(Compressed(CSlli), [Reg(X(rd)), Imm(SixBitField(inst))])
    else if funct == 2 then Decoded(Compressed(CLwsp), [Reg(X(rd)), Mem(LoadStackOffset(inst), X(2))])
    else if funct == 6 then Decoded(Compressed(CSwsp), [Reg(X(GetBitSubseq(inst, 2, 6))), Mem(StoreStackOffset(inst), X(2))])
    else if funct == 4 then DecodeQ2Jump(inst)
    else Decoded(Q2Unknown, [])
  }

  // ---------------------------------------------------------------------
  // Dispatch

  /** The six 32-bit formats. */
  datatype Format = RFormat | IFormat | SFormat | BFormat | UFormat | JFormat

  /** The first switch of toString: the format of each of the ten RV32 opcodes
      the decoder knows, None (Java's null) for every other opcode. */
  function Rv32Format(opcode: bv32): Option<Format>
  {
    if opcode == 0x33 then Some(RFormat)
    else if opcode == 0x03 || opcode == 0x13 || opcode == 0x67 || opcode == 0x73 then Some(IFormat)
    else if opcode == 0x23 then Some(SFormat)
    else if opcode == 0x63 then Some(BFormat)
    else if opcode == 0x37 || opcode == 0x17 then Some(UFormat)
    else if opcode == 0x6F then Some(JFormat)
    else None
  }

  /** The ten RV32 opcodes the decoder knows. */
  predicate KnownOpcode(opcode: bv32)
  {
    opcode == 0x33 || opcode == 0x03 || opcode == 0x13 || opcode == 0x67 || opcode == 0x73
    || opcode == 0x23 || opcode == 0x63 || opcode == 0x37 || opcode == 0x17 || opcode == 0x6F
  }

  /** toString: the RV32 opcodes to their format's decoder, any other word by its
      low two bits to a compressed quadrant or to UNKNOWN_COMMAND. */
  function Decode(inst: bv32, address: bv32, go: map<int, string>): Decoded
  {
    match Rv32Format(Opcode(inst))
    case Some(RFormat) => DecodeRType(inst)
    case Some(IFormat) => DecodeIType(inst)
    case Some(SFormat) => DecodeSType(inst)
    case Some(BFormat) => DecodeBType(inst, address, go)
    case Some(UFormat) => DecodeUType(inst)
    case Some(JFormat) => DecodeJType(inst, address, go)
    case None =>
      var low := Opcode(inst) & 3;
      if low == 0 then DecodeQ0(inst)
      else if low == 1 then DecodeQ1(inst, address, go)
      else if low == 2 then DecodeQ2(inst)
      else Decoded(Unknown, [])
  }

  // ---------------------------------------------------------------------
  // Jump targets

  /** getCompressedJumpAddress: C.JAL and C.J jump, C.BEQZ and C.BNEZ branch;
      nothing else in any quadrant has a target. */
  function CompressedJumpAddress(inst: bv32, address: bv32): Option<bv32>
  {
    var q := Quadrant(inst);
    var funct := CFunct(inst);
    if q == 1 && (funct == 1 || funct == 5) then Some(address + JalCompressedImmediate(inst))
    else if q == 1 && (funct == 6 || funct == 7) then Some(address + BranchCompressedImmediate(inst))
    else None
  }

  /** getJumpAddress: the target of JAL or of a branch, relative to `address`
      and wrapping as Java's `int` addition does; null (None) for the rest. */
  function JumpAddress(inst: bv32, address: bv32): Option<bv32>
  {
    var opcode := Opcode(inst);
    if opcode & 3 != 3 then CompressedJumpAddress(inst, address)
    else if opcode == 0x6F then Some(JImmediate(inst) + address)
    else if opcode == 0x63 then Some(BImmediate(inst) + address)
    else None
  }

  // ---------------------------------------------------------------------
  // Dispatch properties

  /** The first switch knows exactly the ten opcodes; JAL is the only J-format
      opcode and 1100011 the only B-format one. */
  lemma Rv32FormatKnown(opcode: bv32)
    ensures Rv32Format(opcode).Some? <==> KnownOpcode(opcode)
    ensures Rv32Format(opcode) == Some(JFormat) <==> opcode == 0x6F
    ensures Rv32Format(opcode) == Some(BFormat) <==> opcode == 0x63
  {}

  /** The opcode's low two bits are the quadrant; every known RV32 opcode lies in quadrant 3. */
  lemma OpcodeQuadrant(inst: bv32)
    ensures Opcode(inst) & 3 == Quadrant(inst)
    ensures KnownOpcode(Opcode(inst)) ==> Quadrant(inst) == 3
  {
    if inst < 0x8000_0000 {} else {}
  }

  /** A word whose low bits are 11 but whose opcode is none of the ten gives a
      bare UNKNOWN_COMMAND. */
  lemma DecodeUnknownOpcode(inst: bv32, address: bv32, go: map<int, string>)
    requires Quadrant(inst) == 3 && !KnownOpcode(Opcode(inst))
    ensures Decode(inst, address, go) == Decoded(Unknown, [])
  {
    OpcodeQuadrant(inst);
    Rv32FormatKnown(Opcode(inst));
  }

  /** Every word whose low bits are not 11 goes to the quadrant its low bits name. */
  lemma DecodeCompressed(inst: bv32, address: bv32, go: map<int, string>)
    requires Quadrant(inst) != 3
    ensures Quadrant(inst) == 0 ==> Decode(inst, address, go) == DecodeQ0(inst)
    ensures Quadrant(inst) == 1 ==> Decode(inst, address, go) == DecodeQ1(inst, address, go)
    ensures Quadrant(inst) == 2 ==> Decode(inst, address, go) == DecodeQ2(inst)
  {
    OpcodeQuadrant(inst);
    Rv32FormatKnown(Opcode(inst));
  }

  // ---------------------------------------------------------------------
  // The labels a decoded instruction prints are the labels of its jump target

  /** The labels of the `Target` operands, in order. */
  function Targets(operands: seq<Operand>): seq<Option<string>>
  {
    if operands == [] then []
    else (if operands[0].Target? then [operands[0].found] else []) + Targets(operands[1..])
  }

  lemma TargetsOfRegisters(a: Operand, b: Operand, c: Operand)
    requires !a.Target? && !b.Target? && !c.Target?
    ensures Targets([a, b, c]) == Targets([a, b]) == Targets([a]) == Targets([]) == []
  {
    assert [a, b, c][1..] == [b, c];
    assert [b, c][1..] == [c];
    assert [a, b][1..] == [b];
    assert [c][1..] == [] && [b][1..] == [] && [a][1..] == [];
    assert Targets([c]) == [] && Targets([b]) == [] && Targets([a]) == [];
    assert Targets([b, c]) == [];
  }

  lemma TargetsOfLast(a: Operand, b: Operand, c: Operand)
    requires !a.Target? && !b.Target? && c.Target?
    ensures Targets([a, b, c]) == [c.found]
    ensures Targets([b, c]) == [c.found]
    ensures Targets([c]) == [c.found]
  {
    assert [a, b, c][1..] == [b, c];
    assert [b, c][1..] == [c];
    assert [c][1..] == [];
    assert Targets([c]) == [c.found] + [];
    assert Targets([b, c]) == [] + Targets([c]);
  }

  lemma DecodeITypeNoTargets(inst: bv32)
    ensures Targets(DecodeIType(inst).operands) == []
  {
    var d := DecodeIType(inst);
    if |d.operands| == 3 {
      TargetsOfRegisters(d.operands[0], d.operands[1], d.operands[2]);
    } else if |d.operands| == 2 {
      TargetsOfRegisters(d.operands[0], d.operands[1], Imm(0));
    }
  }

  lemma DecodeQ0NoTargets(inst: bv32)
    ensures Targets(DecodeQ0(inst).operands) == []
  {
    var d := DecodeQ0(inst);
    if |d.operands| == 3 {
      TargetsOfRegisters(d.operands[0], d.operands[1], d.operands[2]);
    } else if |d.operands| == 2 {
      TargetsOfRegisters(d.operands[0], d.operands[1], Imm(0));
    }
  }

  lemma DecodeQ1ArithNoTargets(inst: bv32)
    ensures Targets(DecodeQ1Arith(inst).operands) == []
  {
    var d := DecodeQ1Arith(inst);
    if |d.operands| == 2 {
      TargetsOfRegisters(d.operands[0], d.operands[1], Imm(0));
    }
  }

  lemma DecodeQ2NoTargets(inst: bv32)
    ensures Targets(DecodeQ2(inst).operands) == []
  {
    var d := DecodeQ2(inst);
    if |d.operands| == 2 {
      TargetsOfRegisters(d.operands[0], d.operands[1], Imm(0));
    } else if |d.operands| == 1 {
      TargetsOfRegisters(d.operands[0], Imm(0), Imm(0));
    }
  }

  /** Quadrant 1 prints a label exactly for the four jumps, and it is the label of
      their target. */
  lemma DecodeQ1Targets(inst: bv32, address: bv32, go: map<int, string>)
    requires Quadrant(inst) == 1
    ensures var target := CompressedJumpAddress(inst, address);
      Targets(DecodeQ1(inst, address, go).operands)
      == if target.Some? then [Lookup(go, target.value)] else []
  {
    var d := DecodeQ1(inst, address, go);
    var funct := CFunct(inst);
    if funct == 1 || funct == 5 {
      TargetsOfLast(Imm(0), Imm(0), d.operands[0]);
    } else if funct == 6 || funct == 7 {
      TargetsOfLast(Imm(0), d.operands[0], d.operands[1]);
    } else if funct == 4 {
      DecodeQ1ArithNoTargets(inst);
    } else if |d.operands| == 2 {
      TargetsOfRegisters(d.operands[0], d.operands[1], Imm(0));
    }
  }

  lemma DecodeRegisterFormatsNoTargets(inst: bv32)
    ensures Targets(DecodeRType(inst).operands) == []
    ensures Targets(DecodeSType(inst).operands) == []
    ensures Targets(DecodeUType(inst).operands) == []
  {
    var r := DecodeRType(inst).operands;
    TargetsOfRegisters(r[0], r[1], r[2]);
    var u := DecodeUType(inst).operands;
    TargetsOfRegisters(u[0], u[1], Imm(0));
    var s := DecodeSType(inst).operands;
    if s != [] {
      TargetsOfRegisters(s[0], s[1], Imm(0));
    }
  }

  lemma DecodeJumpFormatsTargets(inst: bv32, address: bv32, go: map<int, string>)
    ensures Targets(DecodeJType(inst, address, go).operands) == [Lookup(go, JImmediate(inst) + address)]
    ensures Targets(DecodeBType(inst, address, go).operands) == [Lookup(go, BImmediate(inst) + address)]
  {
    var j := DecodeJType(inst, address, go).operands;
    TargetsOfLast(Imm(0), j[0], j[1]);
    var b := DecodeBType(inst, address, go).operands;
    TargetsOfLast(b[0], b[1], b[2]);
  }

  /** In quadrant 3, JAL and the branches print the label of their target and
      nothing else prints a label. */
  lemma DecodeRv32Targets(inst: bv32, address: bv32, go: map<int, string>)
    requires Quadrant(inst) == 3
    ensures var target := JumpAddress(inst, address);
      Targets(Decode(inst, address, go).operands)
      == if target.Some? then [Lookup(go, target.value)] else []
  {
    OpcodeQuadrant(inst);
    Rv32FormatKnown(Opcode(inst));
    match Rv32Format(Opcode(inst))
    case Some(JFormat) => DecodeJumpFormatsTargets(inst, address, go);
    case Some(BFormat) => DecodeJumpFormatsTargets(inst, address, go);
    case Some(IFormat) => DecodeITypeNoTargets(inst);
    case Some(_) => DecodeRegisterFormatsNoTargets(inst);
    case None =>
  }

  /** An instruction prints a label exactly when getJumpAddress finds a target,
      and then it prints the label the map holds for that target. */
  lemma DecodeTargets(inst: bv32, address: bv32, go: map<int, string>)
    ensures var target := JumpAddress(inst, address);
      Targets(Decode(inst, address, go).operands)
      == if target.Some? then [Lookup(go, target.value)] else []
  {
    OpcodeQuadrant(inst);
    if Quadrant(inst) == 3 {
      DecodeRv32Targets(inst, address, go);
    } else {
      DecodeCompressed(inst, address, go);
      if Quadrant(inst) == 0 {
        DecodeQ0NoTargets(inst);
      } else if Quadrant(inst) == 1 {
        DecodeQ1Targets(inst, address, go);
      } else {
        DecodeQ2NoTargets(inst);
      }
    }
  }

  // ---------------------------------------------------------------------
  // Mnemonics that only one word, or no word, produces

  /** The four mnemonics that single out a word: INVALID and C.NOP, and VERY
      BAD and BAD Q2, the defaults of two switches whose cases are exhaustive.
      UNKNOWN_COMMAND is not one of them. */
  predicate Special(m: Mnemonic)
  {
    m == Invalid || m == Compressed(CNop) || m == VeryBad || m == BadQ2
  }

  lemma ITypeNamesNotSpecial(funct3: bv32, funct7: bv32, immediate: bv32)
    ensures !Special(LoadName(funct3)) && !Special(OpImmName(funct3, funct7))
    ensures !Special(EnvironmentName(immediate)) && !Special(CsrOpName(funct3))
  {}

  lemma ITypeNotSpecial(inst: bv32)
    ensures !Special(DecodeIType(inst).mnemonic)
  {
    ITypeNamesNotSpecial(Funct3(inst), Funct7(inst), IImmediate(inst));
  }

  lemma RTypeNotSpecial(inst: bv32)
    ensures !Special(DecodeRType(inst).mnemonic)
  {}

  lemma STypeNotSpecial(inst: bv32)
    ensures !Special(DecodeSType(inst).mnemonic)
  {}

  lemma BTypeNotSpecial(inst: bv32, address: bv32, go: map<int, string>)
    ensures !Special(DecodeBType(inst, address, go).mnemonic)
  {}

  lemma UJTypeNotSpecial(inst: bv32, address: bv32, go: map<int, string>)
    ensures !Special(DecodeUType(inst).mnemonic)
    ensures !Special(DecodeJType(inst, address, go).mnemonic)
  {}

  lemma Rv32NotSpecial(inst: bv32, address: bv32, go: map<int, string>)
    requires Rv32Format(Opcode(inst)).Some?
    ensures !Special(Decode(inst, address, go).mnemonic)
  {
    match Rv32Format(Opcode(inst))
    case Some(RFormat) => RTypeNotSpecial(inst);
    case Some(IFormat) => ITypeNotSpecial(inst);
    case Some(SFormat) => STypeNotSpecial(inst);
    case Some(BFormat) => BTypeNotSpecial(inst, address, go);
    case Some(_) => UJTypeNotSpecial(inst, address, go);
  }

  /** The arithmetic group's two-bit switch never reaches its default. */
  lemma Q1ArithNotSpecial(inst: bv32)
    ensures !Special(DecodeQ1Arith(inst).mnemonic)
  {
    GetBitSubseqBelow(inst, 10, 11);
  }

  /** The funct 100 group of quadrant 2 switches on one bit and never reaches its default. */
  lemma Q2NotSpecial(inst: bv32)
    ensures !Special(DecodeQ2(inst).mnemonic)
  {
    assert GetBit(inst, 12) < 2;
  }

  /** Quadrant 1 says C.NOP exactly for funct 000 with bits 2..15 clear. */
  lemma Q1Special(inst: bv32, address: bv32, go: map<int, string>)
    ensures DecodeQ1(inst, address, go).mnemonic != Invalid
    ensures DecodeQ1(inst, address, go).mnemonic != VeryBad
    ensures DecodeQ1(inst, address, go).mnemonic != BadQ2
    ensures DecodeQ1(inst, address, go).mnemonic == Compressed(CNop) <==> GetBitSubseq(inst, 2, 15) == 0
  {
    Q1ArithNotSpecial(inst);
    if GetBitSubseq(inst, 2, 15) == 0 {
      assert CFunct(inst) == 0 by {
        if inst < 0x8000_0000 {} else {}
      }
    }
  }

  /** Quadrant 0 says INVALID exactly for the all-zero word. */
  lemma Q0Special(inst: bv32)
    ensures DecodeQ0(inst).mnemonic == Invalid <==> inst == 0
    ensures DecodeQ0(inst).mnemonic != Compressed(CNop) && DecodeQ0(inst).mnemonic != VeryBad
    ensures DecodeQ0(inst).mnemonic != BadQ2
  {}

  lemma NopWord(inst: bv32)
    requires Quadrant(inst) == 1
    ensures GetBitSubseq(inst, 2, 15) == 0 <==> inst & 0xFFFF == 1
  {
    if inst < 0x8000_0000 {} else {}
  }

  /** INVALID is the all-zero word and nothing else; C.NOP is the halfword
      0x0001 and nothing else; VERY BAD and BAD Q2 are never produced. */
  lemma DecodeSpecial(inst: bv32, address: bv32, go: map<int, string>)
    ensures Decode(inst, address, go).mnemonic == Invalid <==> inst == 0
    ensures Decode(inst, address, go).mnemonic == Compressed(CNop) <==> inst & 0xFFFF == 1
    ensures Decode(inst, address, go).mnemonic != VeryBad
    ensures Decode(inst, address, go).mnemonic != BadQ2
  {
    OpcodeQuadrant(inst);
    Rv32FormatKnown(Opcode(inst));
    var q := Quadrant(inst);
    assert inst == 0 ==> q == 0;
    assert inst & 0xFFFF == 1 ==> q == 1 by {
      if inst < 0x8000_0000 {} else {}
    }
    if q == 3 {
      if KnownOpcode(Opcode(inst)) {
        Rv32NotSpecial(inst, address, go);
      } else {
        DecodeUnknownOpcode(inst, address, go);
      }
    } else {
      DecodeCompressed(inst, address, go);
      if q == 0 {
        Q0Special(inst);
      } else if q == 1 {
        Q1Special(inst, address, go);
        NopWord(inst);
      } else {
        Q2NotSpecial(inst);
      }
    }
  }

  // ---------------------------------------------------------------------
  // Quirks of the switches

  /** Two words that agree outside funct3 agree on the opcode, rd and bits 20..31. */
  lemma SameOutsideFunct3(a: bv32, b: bv32)
    requires a & 0xFFFF_8FFF == b & 0xFFFF_8FFF
    ensures Opcode(a) == Opcode(b) && Rd(a) == Rd(b)
    ensures GetBitSubseq(a, 20, 31) == GetBitSubseq(b, 20, 31)
  {
    SameOpcodeRd(a, b);
    SameImmediateBits(a, b);
  }

  lemma SameOpcodeRd(a: bv32, b: bv32)
    requires a & 0xFFFF_8FFF == b & 0xFFFF_8FFF
    ensures Opcode(a) == Opcode(b) && Rd(a) == Rd(b)
  {
    if a < 0x8000_0000 {
      assert b < 0x8000_0000;
    } else {
      assert b >= 0x8000_0000;
    }
  }

  lemma SameImmediateBits(a: bv32, b: bv32)
    requires a & 0xFFFF_8FFF == b & 0xFFFF_8FFF
    ensures GetBitSubseq(a, 20, 31) == GetBitSubseq(b, 20, 31)
  {
    if a < 0x8000_0000 {
      assert b < 0x8000_0000;
    } else {
      assert b >= 0x8000_0000;
    }
  }

  /** A system instruction with rd = x0 is ECALL, EBREAK or UNKNOWN_COMMAND by
      its I-immediate alone, whatever its funct3: it never reaches the CSR switch. */
  lemma SystemIgnoresFunct3(inst: bv32, other: bv32, address: bv32, go: map<int, string>)
    requires Opcode(inst) == 0x73 && Rd(inst) == 0
    requires inst & 0xFFFF_8FFF == other & 0xFFFF_8FFF
    ensures Decode(other, address, go) == Decode(inst, address, go)
    ensures Decode(inst, address, go).operands == []
    ensures Decode(inst, address, go).mnemonic == Base(Ecall) <==> IImmediate(inst) == 0
    ensures Decode(inst, address, go).mnemonic == Base(Ebreak) <==> IImmediate(inst) == 1
  {
    SameOutsideFunct3(inst, other);
  }

  /** The I-immediate of a word with bit 31 clear is bits 20..31 ... */
  lemma PositiveIImmediate(inst: bv32)
    requires inst < 0x8000_0000
    ensures Signed(IImmediate(inst)) == (inst >> 20) as int
  {
    IMatchesIsa(inst);
    assert IsaI(inst) == inst >> 20;
  }

  /** ... and of a word with bit 31 set it is negative. */
  lemma NegativeIImmediate(inst: bv32)
    requires inst >= 0x8000_0000
    ensures Signed(IImmediate(inst)) < 0
  {
    IMatchesIsa(inst);
    assert IsaI(inst) >= 0x8000_0000;
  }

  /** The CSR operand is named by the number in bits 20..31 when bit 31 is clear;
      a CSR number 0x800..0xFFF is sign-extended to a negative Java `int` and
      prints as null. */
  lemma SystemCsrName(inst: bv32, address: bv32, go: map<int, string>)
    requires Opcode(inst) == 0x73 && Rd(inst) != 0
    ensures var d := Decode(inst, address, go);
      |d.operands| == 3 && d.operands[1].Csr?
      && CsrName(d.operands[1].number)
         == if inst < 0x8000_0000 then ToCsrRegister((inst >> 20) as int) else None
  {
    if inst < 0x8000_0000 {
      PositiveIImmediate(inst);
    } else {
      NegativeIImmediate(inst);
      ToCsrRegisterNamed(Signed(IImmediate(inst)));
    }
  }

  /** Two words that agree outside bit 12 agree on every field the arithmetic
      group of quadrant 1 reads, except the immediate. */
  lemma SameOutsideBit12(a: bv32, b: bv32)
    requires a & 0xFFFF_EFFF == b & 0xFFFF_EFFF
    ensures Opcode(a) == Opcode(b) && CFunct(a) == CFunct(b)
    ensures GetBitSubseq(a, 10, 11) == GetBitSubseq(b, 10, 11)
    ensures GetBitSubseq(a, 7, 9) == GetBitSubseq(b, 7, 9)
    ensures GetBitSubseq(a, 5, 6) == GetBitSubseq(b, 5, 6)
    ensures GetBitSubseq(a, 2, 4) == GetBitSubseq(b, 2, 4)
  {
    SameHighFields(a, b);
    SameMiddleFields(a, b);
    SameLowFields(a, b);
  }

  lemma SameHighFields(a: bv32, b: bv32)
    requires a & 0xFFFF_EFFF == b & 0xFFFF_EFFF
    ensures CFunct(a) == CFunct(b)
    ensures GetBitSubseq(a, 10, 11) == GetBitSubseq(b, 10, 11)
  {
    if a < 0x8000_0000 {
      assert b < 0x8000_0000;
    } else {
      assert b >= 0x8000_0000;
    }
  }

  lemma SameLowFields(a: bv32, b: bv32)
    requires a & 0xFFFF_EFFF == b & 0xFFFF_EFFF
    ensures Opcode(a) == Opcode(b)
    ensures GetBitSubseq(a, 2, 4) == GetBitSubseq(b, 2, 4)
  {
    if a < 0x8000_0000 {
      assert b < 0x8000_0000;
    } else {
      assert b >= 0x8000_0000;
    }
  }

  lemma SameMiddleFields(a: bv32, b: bv32)
    requires a & 0xFFFF_EFFF == b & 0xFFFF_EFFF
    ensures GetBitSubseq(a, 7, 9) == GetBitSubseq(b, 7, 9)
    ensures GetBitSubseq(a, 5, 6) == GetBitSubseq(b, 5, 6)
  {
    if a < 0x8000_0000 {
      assert b < 0x8000_0000;
    } else {
      assert b >= 0x8000_0000;
    }
  }

  /** C.SUB, C.XOR, C.OR and C.AND are chosen without looking at bit 12: flipping
      it changes nothing. */
  lemma Q1IgnoresBit12(inst: bv32, other: bv32, address: bv32, go: map<int, string>)
    requires Quadrant(inst) == 1 && CFunct(inst) == 4 && GetBitSubseq(inst, 10, 11) == 3
    requires inst & 0xFFFF_EFFF == other & 0xFFFF_EFFF
    ensures Decode(other, address, go) == Decode(inst, address, go)
  {
    SameOutsideBit12(inst, other);
    OpcodeQuadrant(inst);
    OpcodeQuadrant(other);
    DecodeCompressed(inst, address, go);
    DecodeCompressed(other, address, go);
  }

  // ---------------------------------------------------------------------
  // Every register operand has a name

  /** A register the naming functions know: x0..x31, or a three-bit field. */
  predicate ValidRegister(r: Register)
  {
    match r
    case X(n) => n < 32
    case C(f) => f < 8
  }

  predicate OperandRegistersValid(op: Operand)
  {
    match op
    case Reg(r) => ValidRegister(r)
    case Mem(_, base) => ValidRegister(base)
    case _ => true
  }

  predicate RegistersValid(operands: seq<Operand>)
  {
    forall i :: 0 <= i < |operands| ==> OperandRegistersValid(operands[i])
  }

  /** A known register prints as its ABI name, never "??"; a compressed field
      names x8..x15. */
  lemma RegisterNameAbi(r: Register)
    requires ValidRegister(r)
    ensures r.X? ==> RegisterName(r) == AbiNames[r.number as int]
    ensures r.C? ==> RegisterName(r) == AbiNames[r.field as int + 8]
    ensures RegisterName(r) != "??"
  {
    match r
    case X(n) => XRegToAbiNames(n as int);
    case C(f) => XRegToCNames(f as int); XRegToAbiNames(f as int + 8);
  }

  lemma RegisterFieldsBelow(inst: bv32)
    ensures Rd(inst) < 32 && Rs1(inst) < 32 && Rs2(inst) < 32
  {
    GetBitSubseqBelow(inst, 7, 11);
    GetBitSubseqBelow(inst, 15, 19);
    GetBitSubseqBelow(inst, 20, 24);
  }

  lemma CompressedFieldsBelow(inst: bv32)
    ensures GetBitSubseq(inst, 2, 4) < 8 && GetBitSubseq(inst, 7, 9) < 8
    ensures GetBitSubseq(inst, 2, 6) < 32
  {
    GetBitSubseqBelow(inst, 2, 4);
    GetBitSubseqBelow(inst, 7, 9);
    GetBitSubseqBelow(inst, 2, 6);
  }

  lemma ITypeRegistersValid(inst: bv32)
    ensures RegistersValid(DecodeIType(inst).operands)
  {
    RegisterFieldsBelow(inst);
  }

  lemma RTypeRegistersValid(inst: bv32)
    ensures RegistersValid(DecodeRType(inst).operands)
  {
    RegisterFieldsBelow(inst);
  }

  lemma StoreBranchRegistersValid(inst: bv32, address: bv32, go: map<int, string>)
    ensures RegistersValid(DecodeSType(inst).operands)
    ensures RegistersValid(DecodeBType(inst, address, go).operands)
  {
    RegisterFieldsBelow(inst);
  }

  lemma UJTypeRegistersValid(inst: bv32, address: bv32, go: map<int, string>)
    ensures RegistersValid(DecodeUType(inst).operands)
    ensures RegistersValid(DecodeJType(inst, address, go).operands)
  {
    RegisterFieldsBelow(inst);
  }

  lemma Q0RegistersValid(inst: bv32)
    ensures RegistersValid(DecodeQ0(inst).operands)
  {
    CompressedFieldsBelow(inst);
  }

  lemma Q1ArithRegistersValid(inst: bv32)
    ensures RegistersValid(DecodeQ1Arith(inst).operands)
  {
    CompressedFieldsBelow(inst);
  }

  lemma Q1RegistersValid(inst: bv32, address: bv32, go: map<int, string>)
    ensures RegistersValid(DecodeQ1(inst, address, go).operands)
  {
    Q1ArithRegistersValid(inst);
    CompressedFieldsBelow(inst);
    RegisterFieldsBelow(inst);
  }

  lemma Q2RegistersValid(inst: bv32)
    ensures RegistersValid(DecodeQ2Jump(inst).operands)
    ensures RegistersValid(DecodeQ2(inst).operands)
  {
    CompressedFieldsBelow(inst);
    RegisterFieldsBelow(inst);
  }

  /** Every register a decoded word names is one the naming functions know, so
      no operand ever prints as "??". */
  lemma DecodeRegistersValid(inst: bv32, address: bv32, go: map<int, string>)
    ensures RegistersValid(Decode(inst, address, go).operands)
  {
    match Rv32Format(Opcode(inst))
    case Some(RFormat) => RTypeRegistersValid(inst);
    case Some(IFormat) => ITypeRegistersValid(inst);
    case Some(SFormat) => StoreBranchRegistersValid(inst, address, go);
    case Some(BFormat) => StoreBranchRegistersValid(inst, address, go);
    case Some(_) => UJTypeRegistersValid(inst, address, go);
    case None =>
      Q0RegistersValid(inst);
      Q1RegistersValid(inst, address, go);
      Q2RegistersValid(inst);
  }

  // ---------------------------------------------------------------------
  // Which words have a jump target

  /** getJumpAddress is non-null exactly for JAL, the branches, and C.JAL, C.J,
      C.BEQZ and C.BNEZ, and is then the address plus the immediate of that
      format, modulo 2^32. */
  lemma JumpAddressCases(inst: bv32, address: bv32)
    ensures JumpAddress(inst, address).Some? <==>
      ((Quadrant(inst) == 3 && (Opcode(inst) == 0x6F || Opcode(inst) == 0x63))
       || (Quadrant(inst) == 1 && (CFunct(inst) == 1 || CFunct(inst) == 5 || CFunct(inst) == 6 || CFunct(inst) == 7)))
    ensures Quadrant(inst) == 3 && Opcode(inst) == 0x6F ==> JumpAddress(inst, address) == Some(JImmediate(inst) + address)
    ensures Quadrant(inst) == 3 && Opcode(inst) == 0x63 ==> JumpAddress(inst, address) == Some(BImmediate(inst) + address)
    ensures Quadrant(inst) == 1 && (CFunct(inst) == 1 || CFunct(inst) == 5) ==>
      JumpAddress(inst, address) == Some(address + JalCompressedImmediate(inst))
    ensures Quadrant(inst) == 1 && (CFunct(inst) == 6 || CFunct(inst) == 7) ==>
      JumpAddress(inst, address) == Some(address + BranchCompressedImmediate(inst))
  {
    OpcodeQuadrant(inst);
    if Quadrant(inst) != 3 {
      assert JumpAddress(inst, address) == CompressedJumpAddress(inst, address);
    }
  }

  // ---------------------------------------------------------------------
  // InstructionType

  /** The four kinds of word the low two bits announce. */
  datatype InstructionType = CompressedQ0 | CompressedQ1 | CompressedQ2 | Rv32

  /** getIsaInstructionType: the kind for the Java `int` x, which must be 0..3;
      any other value fails the assertion. */
  function IsaInstructionType(x: int): Result<InstructionType, string>
  {
    if !(x < 4 && x >= 0) then Failure("Expected first two bits, got " + IntToString(x))
    else if x == 0 then Success(CompressedQ0)
    else if x == 1 then Success(CompressedQ1)
    else if x == 2 then Success(CompressedQ2)
    else Success(Rv32)
  }

  /** The low two bits of any word give a kind, and it is RV32 exactly when the
      word is not compressed; the kinds are distinct for distinct values. */
  lemma IsaInstructionTypeOfQuadrant(inst: bv32)
    ensures IsaInstructionType(Quadrant(inst) as int).Success?
    ensures IsaInstructionType(Quadrant(inst) as int).value == Rv32 <==> Quadrant(inst) == 3
  {
    GetBitSubseqBelow(inst, 0, 1);
  }

  lemma IsaInstructionTypeDomain(x: int, y: int)
    ensures IsaInstructionType(x).Success? <==> 0 <= x < 4
    ensures (IsaInstructionType(x).Success? && IsaInstructionType(y).Success?
             && IsaInstructionType(x).value == IsaInstructionType(y).value) ==> x == y
  {}
}
