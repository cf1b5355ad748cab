/** The symbol classifier of Symbol.java: the `st_info` and `st_other` bytes
    of an ELF32 symbol decoded into type, binding and visibility (System V gABI,
    "Symbol Table", ELF32_ST_TYPE, ELF32_ST_BIND, ELF32_ST_VISIBILITY), and the
    `st_shndx` special values ("Special Section Indexes"). */
module Symbols {
  import opened Text
  import opened JavaInts

  /** A Java `byte` as the `int` it widens to: bytes 0x80..0xFF are negative. */
  function SignedByte(b: bv8): (v: int)
    ensures -128 <= v < 128
    ensures v >= 0 <==> b < 0x80
  {
    if b < 0x80 then b as int else b as int - 256
  }

  /** One symbol table entry as the parser fills it in. `info` and `other` hold
      the sign-extended bytes that `take` returned; `shndx` is a two-byte
      little-endian read, so 0..65535. */
  datatype Symbol = Symbol(
    symbolIndex: int,
    name: Int32,
    value: Int32,
    size: Int32,
    info: int,
    other: int,
    shndx: int)

  /** getType: `info & 0xf`. On a two's complement `int` this is the Euclidean
      remainder by 16, which is Dafny's `%`. */
  function Type(info: int): int
  {
    info % 16
  }

  /** getBind: `info >> 4`, an arithmetic shift, which is division by 16
      rounding down, which is Dafny's `/` for a positive divisor. */
  function Bind(info: int): int
  {
    info / 16
  }

  /** getVis: `other & 0x3`. */
  function Vis(other: int): int
  {
    other % 4
  }

  /** getTypeString. */
  function TypeString(t: int): string
  {
    if t == 0 then "NOTYPE"
    else if t == 1 then "OBJECT"
    else if t == 2 then "FUNC"
    else if t == 3 then "SECTION"
    else if t == 4 then "FILE"
    else if 13 <= t <= 15 then "PROC_SPEC"
    else "UNK"
  }

  /** getBindString. */
  function BindString(b: int): string
  {
    if b == 0 then "LOCAL"
    else if b == 1 then "GLOBAL"
    else if b == 2 then "WEAK"
    else if 13 <= b <= 15 then "PROC"
    else "UNK"
  }

  /** getVisString. */
  function VisString(v: int): string
  {
    if v == 0 then "DEFAULT"
    else if v == 1 then "INTERNAL"
    else if v == 2 then "HIDDEN"
    else if v == 3 then "PROTECTED"
    else "UNK"
  }

  /** getIndexString: the reserved section indexes by name, any other index as
      its decimal value. */
  function IndexString(shndx: int): string
  {
    if shndx == 0 then "UNDEF"
    else if 0xff00 <= shndx <= 0xff1f then "PROC_SPEC"
    else if 0xff20 <= shndx <= 0xff3f then "OS_SPEC"
    else if shndx == 0xfff1 then "ABS"
    else if shndx == 0xfff2 then "COMMON"
    else if shndx == 0xffff then "XINDEX"
    else IntToString(shndx)
  }

  /** One line of the `.symtab` listing, its fields in the order
      getStringRepresentation prints them. */
  datatype SymbolRow = SymbolRow(
    index: int,
    value: Int32,
    size: Int32,
    typeName: string,
    bindName: string,
    visName: string,
    section: string,
    name: string)

  /** getStringRepresentation, given the name the string table holds at `s.name`. */
  function Row(s: Symbol, name: string): SymbolRow
  {
    SymbolRow(s.symbolIndex, s.value, s.size, TypeString(Type(s.info)), BindString(Bind(s.info)),
              VisString(Vis(s.other)), IndexString(s.shndx), name)
  }

  // ---------------------------------------------------------------------
  // Properties

  /** The type is the low nibble of the byte, 0..15, whatever the byte's sign. */
  lemma TypeOfByte(b: bv8)
    ensures 0 <= Type(SignedByte(b)) < 16
    ensures Type(SignedByte(b)) == (b & 0xF) as int
  {
    var v := (b & 0xF) as int;
    var h := (b >> 4) as int;
    assert b as int == 16 * h + v by {
      NibbleSplit(b);
    }
  }

  lemma NibbleSplit(b: bv8)
    ensures b as int == 16 * (b >> 4) as int + (b & 0xF) as int
  {}

  /** The binding of a sign-extended byte is its high nibble for bytes below
      0x80 and that nibble minus 16 above: bytes 0x80..0xFF bind negatively. */
  lemma BindOfByte(b: bv8)
    ensures Bind(SignedByte(b)) == if b < 0x80 then (b >> 4) as int else (b >> 4) as int - 16
    ensures -8 <= Bind(SignedByte(b)) < 8
  {
    NibbleSplit(b);
  }

  /** So a parsed symbol binds LOCAL, GLOBAL, WEAK or UNK, never PROC: bindings
      13..15 would need an unsigned byte. */
  lemma BindStringOfByte(b: bv8)
    ensures BindString(Bind(SignedByte(b))) != "PROC"
    ensures b >= 0x80 ==> BindString(Bind(SignedByte(b))) == "UNK"
    ensures b < 0x30 ==> BindString(Bind(SignedByte(b))) != "UNK"
  {
    BindOfByte(b);
  }

  /** The visibility is 0..3 for every `other`, so its name is never UNK. */
  lemma VisNamed(other: int)
    ensures 0 <= Vis(other) < 4
    ensures VisString(Vis(other)) != "UNK"
  {}

  /** The type names: 0..4 by name, 13..15 processor-specific, UNK for the rest. */
  lemma TypeStringUnknown(t: int)
    ensures t == 0 ==> TypeString(t) == "NOTYPE"
    ensures t == 1 ==> TypeString(t) == "OBJECT"
    ensures t == 2 ==> TypeString(t) == "FUNC"
    ensures t == 3 ==> TypeString(t) == "SECTION"
    ensures t == 4 ==> TypeString(t) == "FILE"
    ensures TypeString(t) == "UNK" <==> !(0 <= t <= 4 || 13 <= t <= 15)
    ensures 13 <= t <= 15 <==> TypeString(t) == "PROC_SPEC"
  {}

  /** An index that is not reserved prints as its decimal value: decimal
      digits only, which read back as the index. */
  lemma IndexStringDecimal(shndx: int)
    requires 0 <= shndx < 0x10000
    requires shndx != 0 && !(0xff00 <= shndx <= 0xff3f) && shndx != 0xfff1 && shndx != 0xfff2 && shndx != 0xffff
    ensures FromBase(IndexString(shndx), 10) == shndx
    ensures |IndexString(shndx)| > 0
    ensures forall i :: 0 <= i < |IndexString(shndx)| ==> IndexString(shndx)[i] in "0123456789"
  {
    assert DigitChars[..10] == "0123456789";
    IntToStringReadsBack(shndx);
  }

  /** The reserved indexes print by name: SHN_UNDEF, the processor- and
      OS-specific ranges, SHN_ABS, SHN_COMMON and SHN_XINDEX. */
  lemma IndexStringReserved(shndx: int)
    ensures shndx == 0 ==> IndexString(shndx) == "UNDEF"
    ensures 0xff00 <= shndx <= 0xff1f ==> IndexString(shndx) == "PROC_SPEC"
    ensures 0xff20 <= shndx <= 0xff3f ==> IndexString(shndx) == "OS_SPEC"
    ensures shndx == 0xfff1 ==> IndexString(shndx) == "ABS"
    ensures shndx == 0xfff2 ==> IndexString(shndx) == "COMMON"
    ensures shndx == 0xffff ==> IndexString(shndx) == "XINDEX"
  {}

  /** A global function with default visibility: info 0x12, other 0. */
  lemma GlobalFunction(s: Symbol, name: string)
    requires s.info == SignedByte(0x12) && s.other == SignedByte(0x00)
    ensures Row(s, name).typeName == "FUNC"
    ensures Row(s, name).bindName == "GLOBAL"
    ensures Row(s, name).visName == "DEFAULT"
  {}
}
