/** Register and CSR naming of the instruction decoder (AsmCommand.java):
    the integer registers by their ABI names (RISC-V calling convention),
    the eight registers the compressed formats reach, and the CSR numbers
    of the Privileged ISA, section 2.2, "CSR Listing". */
module Registers {
  import opened Wrappers
  import opened Text

  /** The ABI names of x0..x31, as the calling convention lists them. */
  const AbiNames: seq<string> := [
    "zero", "ra", "sp", "gp", "tp", "t0", "t1", "t2",
    "s0", "s1", "a0", "a1", "a2", "a3", "a4", "a5",
    "a6", "a7", "s2", "s3", "s4", "s5", "s6", "s7",
    "s8", "s9", "s10", "s11", "t3", "t4", "t5", "t6"]

  /** xRegToAbi: the ABI name of register `x`, "??" when it has none. */
  function XRegToAbi(x: int): string
  {
    if 10 <= x <= 17 then "a" + IntToString(x - 10)
    else if 18 <= x <= 27 then "s" + IntToString(x - 16)
    else if x >= 28 then "t" + IntToString(x - 25)
    else if 5 <= x <= 7 then "t" + IntToString(x - 5)
    else if x == 0 then "zero"
    else if x == 1 then "ra"
    else if x == 2 then "sp"
    else if x == 3 then "gp"
    else if x == 4 then "tp"
    else if x == 8 then "s0"
    else if x == 9 then "s1"
    else "??"
  }

  /** xRegToC: the name of register x8 + `x`, the registers a three-bit field of
      the compressed formats reaches. */
  function XRegToC(x: int): string
  {
    if x <= 1 then "s" + IntToString(x) else "a" + IntToString(x - 2)
  }

  /** The one-digit numbers print as their digit. */
  lemma SmallDecimal(k: int)
    requires 0 <= k < 10
    ensures IntToString(k) == [DigitChars[k]]
  {}

  lemma TwoDigitDecimal()
    ensures IntToString(10) == "10" && IntToString(11) == "11"
  {
    assert ToBase(1, 10) == "1";
    assert ToBase(10, 10) == ToBase(1, 10) + "0";
    assert ToBase(11, 10) == ToBase(1, 10) + "1";
  }

  lemma XRegToAbiLow(x: int)
    requires 0 <= x < 10
    ensures XRegToAbi(x) == AbiNames[x]
  {
    if x == 5 { SmallDecimal(0); }
    else if x == 6 { SmallDecimal(1); }
    else if x == 7 { SmallDecimal(2); }
  }

  lemma XRegToAbiArguments(x: int)
    requires 10 <= x < 14
    ensures XRegToAbi(x) == AbiNames[x]
  {
    if x == 10 { SmallDecimal(0); }
    else if x == 11 { SmallDecimal(1); }
    else if x == 12 { SmallDecimal(2); }
    else if x == 13 { SmallDecimal(3); }
  }

  lemma XRegToAbiArgumentsHigh(x: int)
    requires 14 <= x < 18
    ensures XRegToAbi(x) == AbiNames[x]
  {
    if x == 14 { SmallDecimal(4); }
    else if x == 15 { SmallDecimal(5); }
    else if x == 16 { SmallDecimal(6); }
    else if x == 17 { SmallDecimal(7); }
  }

  lemma XRegToAbiSaved(x: int)
    requires 18 <= x < 23
    ensures XRegToAbi(x) == AbiNames[x]
  {
    if x == 18 { SmallDecimal(2); }
    else if x == 19 { SmallDecimal(3); }
    else if x == 20 { SmallDecimal(4); }
    else if x == 21 { SmallDecimal(5); }
    else if x == 22 { SmallDecimal(6); }
  }

  lemma XRegToAbiSavedHigh(x: int)
    requires 23 <= x < 28
    ensures XRegToAbi(x) == AbiNames[x]
  {
    if x == 23 { SmallDecimal(7); }
    else if x == 24 { SmallDecimal(8); }
    else if x == 25 { SmallDecimal(9); }
    else if x == 26 { TwoDigitDecimal(); }
    else if x == 27 { TwoDigitDecimal(); }
  }

  lemma XRegToAbiTemporaries(x: int)
    requires 28 <= x < 32
    ensures XRegToAbi(x) == AbiNames[x]
  {
    if x == 28 { SmallDecimal(3); }
    else if x == 29 { SmallDecimal(4); }
    else if x == 30 { SmallDecimal(5); }
    else if x == 31 { SmallDecimal(6); }
  }

  /** Every register number 0..31 has its ABI name, never "??". */
  lemma XRegToAbiNames(x: int)
    requires 0 <= x < 32
    ensures XRegToAbi(x) == AbiNames[x]
    ensures XRegToAbi(x) != "??"
  {
    NoUnknownAbiName(x);
    if x < 10 {
      XRegToAbiLow(x);
    } else if x < 14 {
      XRegToAbiArguments(x);
    } else if x < 18 {
      XRegToAbiArgumentsHigh(x);
    } else if x < 23 {
      XRegToAbiSaved(x);
    } else if x < 28 {
      XRegToAbiSavedHigh(x);
    } else {
      XRegToAbiTemporaries(x);
    }
  }

  lemma NoUnknownAbiName(x: int)
    requires 0 <= x < 32
    ensures AbiNames[x] != "??"
  {
    assert |AbiNames[x]| >= 2 && AbiNames[x][0] != '?';
  }

  /** A compressed register field names x8..x15: s0, s1, a0..a5. */
  lemma XRegToCNames(x: int)
    requires 0 <= x < 8
    ensures XRegToC(x) == XRegToAbi(x + 8) == AbiNames[x + 8]
  {
    XRegToAbiNames(x + 8);
    if x <= 1 {
      SmallDecimal(x);
    } else {
      SmallDecimal(x - 2);
    }
  }

  /** The switch of toCsrRegister: a CSR named one by one, or null. */
  function CsrByNumber(imm: int): Option<string>
  {
    match imm
    case 0xf11 => Some("mvandorid")
    case 0xf12 => Some("marchid")
    case 0xf13 => Some("mimpid")
    case 0xf14 => Some("mhartid")
    case 0x300 => Some("mstatus")
    case 0x301 => Some("misa")
    case 0x302 => Some("medeleg")
    case 0x303 => Some("mideleg")
    case 0x304 => Some("mie")
    case 0x305 => Some("mtvec")
    case 0x306 => Some("mcounteren")
    case 0x310 => Some("mstatush")
    case 0x340 => Some("mscratch")
    case 0x341 => Some("mepc")
    case 0x342 => Some("mcause")
    case 0x343 => Some("mtval")
    case 0x344 => Some("mip")
    case 0x34A => Some("mtinst")
    case 0x34B => Some("mtval2")
    case 0xb00 => Some("mcycle")
    case 0xb02 => Some("minstret")
    case 0xb80 => Some("mcycleh")
    case 0xb82 => Some("minstreth")
    case 0x320 => Some("mcountinhibit")
    case 0x7a0 => Some("tselect")
    case 0x7a1 => Some("tdata1")
    case 0x7a2 => Some("tdata2")
    case 0x7a3 => Some("tdata3")
    case 0x7b0 => Some("dcsr")
    case 0x7b1 => Some("dpc")
    case 0x7b2 => Some("dscratch0")
    case 0x7b3 => Some("dscratch1")
    case 0x100 => Some("sstatus")
    case 0x102 => Some("sedeleg")
    case 0x103 => Some("sideleg")
    case 0x104 => Some("sie")
    case 0x105 => Some("stvec")
    case 0x106 => Some("scounteren")
    case 0x140 => Some("sscratch")
    case 0x141 => Some("sepc")
    case 0x142 => Some("scause")
    case 0x143 => Some("stval")
    case 0x144 => Some("sip")
    case 0x180 => Some("satp")
    case _ => None
  }

  /** The numbered CSR families. */
  predicate InCsrRanges(imm: int)
  {
    0x3a0 <= imm <= 0x3ef || 0xb03 <= imm <= 0xb1f || 0xb83 <= imm <= 0xb9f || 0x323 <= imm <= 0x33f
  }

  /** toCsrRegister: the name of CSR number `imm`, or null (None). */
  function ToCsrRegister(imm: int): Option<string>
  {
    var name := CsrByNumber(imm);
    if name.Some? then name
    else if 0x3a0 <= imm <= 0x3af then Some("pmpcfg" + IntToString(imm - 0x3a0))
    else if 0x3b0 <= imm <= 0x3ef then Some("pmpaddr" + IntToString(imm - 0x3b0))
    else if 0xb03 <= imm <= 0xb1f then Some("mhpmcounter" + IntToString(imm - 0xb03 + 3))
    else if 0xb83 <= imm <= 0xb9f then Some("mhpmcounter" + IntToString(imm - 0xb83 + 3) + "h")
    else if 0x323 <= imm <= 0x33f then Some("mhpmevent" + IntToString(imm - 0x323 + 3))
    else None
  }

  /** The CSRs the switch names lie between 0x100 and 0xf14, outside the numbered families. */
  lemma CsrByNumberOutsideRanges(imm: int)
    requires CsrByNumber(imm).Some?
    ensures 0x100 <= imm <= 0xf14 && !InCsrRanges(imm)
  {}

  /** A CSR number has a name exactly when the switch names it or it lies in a
      numbered family; every other number, every negative one included, gives null. */
  lemma ToCsrRegisterNamed(imm: int)
    ensures ToCsrRegister(imm).Some? <==> CsrByNumber(imm).Some? || InCsrRanges(imm)
    ensures imm < 0x100 ==> ToCsrRegister(imm) == None
  {
    if CsrByNumber(imm).Some? {
      CsrByNumberOutsideRanges(imm);
    }
  }

  lemma MtvecName()
    ensures ToCsrRegister(0x305) == Some("mtvec")
  {}

  /** The numbered families: pmpcfg0..15, pmpaddr0..63, mhpmcounter3..31 (and
      their upper halves with an "h"), mhpmevent3..31. */
  lemma ToCsrRegisterFamilies(imm: int)
    ensures 0x3a0 <= imm <= 0x3af ==> ToCsrRegister(imm) == Some("pmpcfg" + IntToString(imm - 0x3a0))
    ensures 0x3b0 <= imm <= 0x3ef ==> ToCsrRegister(imm) == Some("pmpaddr" + IntToString(imm - 0x3b0))
    ensures 0xb03 <= imm <= 0xb1f ==> ToCsrRegister(imm) == Some("mhpmcounter" + IntToString(imm - 0xb00))
    ensures 0xb83 <= imm <= 0xb9f ==> ToCsrRegister(imm) == Some("mhpmcounter" + IntToString(imm - 0xb80) + "h")
    ensures 0x323 <= imm <= 0x33f ==> ToCsrRegister(imm) == Some("mhpmevent" + IntToString(imm - 0x320))
  {
    if CsrByNumber(imm).Some? {
      CsrByNumberOutsideRanges(imm);
    }
  }
}
