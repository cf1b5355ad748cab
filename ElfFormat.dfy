/** What ElfParser.java reads from an ELF32 file, as functions of the file's
    bytes: bounds-checked byte and word access, the ELF header (System V gABI,
    "ELF Header"), section headers ("Sections"), NUL-terminated names in a
    string table ("String Table") and symbols ("Symbol Table"). The parser's
    methods, with their cursors and loops, are proved against these. */
module ElfFormat {
  import opened Wrappers
  import opened JavaInts
  import opened Text
  import opened Symbols

  /** A Java array's length is an `int`. */
  predicate ValidFile(file: seq<bv8>)
  {
    |file| <= IntMax
  }

  // ---------------------------------------------------------------------
  // Failures

  /** The messages of the parser's `Assert.ensure` calls, with their arguments. */
  datatype Message =
    | ReadPastEnd(byteNumber: int, length: int)
    | ByteMismatch(byteNumber: int, expected: int, got: int)
    | SequencePastEnd(pos: int, len: int, length: int)
    | Not32Bit
    | NotLittleEndian
    | NotRiscV
    | BadFormatVersion
    | BadStringIndex(index: int, size: int)
    | FirstTwoBits(bits: int)

  /** The text `String.format` makes of each message. */
  function MessageText(m: Message): string
  {
    match m
    case ReadPastEnd(n, len) =>
      "Tried to read byte " + IntToString(n) + ", while there are " + IntToString(len) + " bytes only"
    case ByteMismatch(n, e, g) =>
      "Expected byte " + IntToString(n) + " to be " + IntToString(e) + ", but got " + IntToString(g)
    case SequencePastEnd(p, l, s) =>
      "Couldn't read sequence. Pos is " + IntToString(p) + ", len is " + IntToString(l)
      + " but file size is " + IntToString(s)
    case Not32Bit => "This is not a 32-bit file"
    case NotLittleEndian => "This is not a Little-Endian file"
    case NotRiscV => "RISC-V is supported only"
    case BadFormatVersion => "Format version must be equal to 1"
    case BadStringIndex(i, s) =>
      "Bad index: " + IntToString(i) + ", but stringTable size is " + IntToString(s)
    case FirstTwoBits(x) => "Expected first two bits, got " + IntToString(x)
  }

  /** What stops the parser: a failed `Assert.ensure` (an AssertionError), or
      an exception the Java runtime throws. */
  datatype Error =
    | AssertionFailed(message: Message)
    | IndexOutOfBounds
    | IllegalArgument
    | NegativeArraySize
    | DivisionByZero

  /** A result with `prefix` in front of its value; a failure stays. */
  function Prepend<T>(prefix: seq<T>, r: Result<seq<T>, Error>): Result<seq<T>, Error>
  {
    if r.Success? then Success(prefix + r.value) else r
  }

  /** Putting `a` in front of a result with `b` in front is putting `a + b` in front. */
  lemma PrependTwice<T>(a: seq<T>, b: seq<T>, r: Result<seq<T>, Error>)
    ensures Prepend(a, Prepend(b, r)) == Prepend(a + b, r)
  {
    if r.Success? {
      assert a + (b + r.value) == (a + b) + r.value;
    }
  }

  // ---------------------------------------------------------------------
  // Byte access

  /** take: the byte at `pos`, after asserting `pos < file.length`; a negative
      position passes the assertion and fails the array access. */
  function Take(file: seq<bv8>, pos: Int32): Result<bv8, Error>
  {
    if !(pos < |file|) then Failure(AssertionFailed(ReadPastEnd(Add(pos, 1), |file|)))
    else if pos < 0 then Failure(IndexOutOfBounds)
    else Success(file[pos])
  }

  /** readSeq: `Arrays.copyOfRange(file, pos, pos + len)` after asserting
      `pos + len <= file.length` on the wrapped sum. */
  function ReadSeq(file: seq<bv8>, pos: Int32, len: Int32): Result<seq<bv8>, Error>
  {
    var end := Add(pos, len);
    if !(end <= |file|) then Failure(AssertionFailed(SequencePastEnd(pos, len, |file|)))
    else if pos < 0 || pos > |file| then Failure(IndexOutOfBounds)
    else if pos > end then Failure(IllegalArgument)
    else Success(file[pos..end])
  }

  /** take fails exactly past the end of the file (for a position that is not negative). */
  lemma TakeFails(file: seq<bv8>, pos: Int32)
    requires pos >= 0
    ensures Take(file, pos).Failure? <==> pos >= |file|
    ensures Take(file, pos).Success? ==> Take(file, pos).value == file[pos]
  {}

  /** readSeq fails exactly when the sequence would run past the end, and
      otherwise copies `len` bytes from `pos`. */
  lemma ReadSeqFails(file: seq<bv8>, pos: Int32, len: Int32)
    requires ValidFile(file) && pos >= 0 && 0 <= len <= 8
    ensures ReadSeq(file, pos, len).Failure? <==> pos + len > |file|
    ensures ReadSeq(file, pos, len).Success? ==> ReadSeq(file, pos, len).value == file[pos..pos + len]
  {
  }

  /** A successful read of a short sequence at any `int` position stays inside
      the file, so the cursor after it does not wrap. */
  lemma ReadSeqInside(file: seq<bv8>, pos: Int32, len: Int32)
    requires ValidFile(file) && 0 <= len <= 8
    requires ReadSeq(file, pos, len).Success?
    ensures 0 <= pos && pos + len <= |file| && Add(pos, len) == pos + len
  {
  }

  /** A short word read succeeds exactly inside the file, and reads the bytes there. */
  lemma ReadIntAt(file: seq<bv8>, pos: Int32, len: Int32)
    requires ValidFile(file) && 0 <= len <= 8
    ensures ReadInt(file, pos, len).Success? <==> 0 <= pos && pos + len <= |file|
    ensures ReadInt(file, pos, len).Success? ==> ReadInt(file, pos, len).value == LittleEndian(file[pos..pos + len])
  {
    if pos >= 0 {
      ReadSeqFails(file, pos, len);
    }
  }

  // ---------------------------------------------------------------------
  // Little-endian words

  /** Σ bytes[i]·256^i: the bytes as an unsigned little-endian number. */
  function LittleEndianSum(bytes: seq<bv8>): nat
  {
    if bytes == [] then 0 else bytes[0] as nat + 256 * LittleEndianSum(bytes[1..])
  }

  /** littleEndianToInt: the bytes, least significant first, shifted into an
      `int`, whose high bits fall off: the sum modulo 2^32, as an `int`. */
  function LittleEndian(bytes: seq<bv8>): Int32
  {
    Wrap(LittleEndianSum(bytes))
  }

  /** One turn of littleEndianToInt: `res <<= 8` keeps the `int` congruent to
      res·256, whose low byte is clear, so `res |= b` adds the byte; the
      result is congruent to b + 256·s when res is congruent to s. */
  lemma ShiftInByte(res: Int32, s: int, b: bv8)
    requires res % 0x1_0000_0000 == s % 0x1_0000_0000
    ensures IsInt(Wrap(res * 256) + b as int)
    ensures Wrap(res * 256) + b as int == Wrap(b as int + 256 * s)
  {
    var t := Wrap(res * 256);
    ShiftRoom(res);
    Congruent(res, s, 256, b as int);
    Congruent(t, 256 * res, 1, b as int);
    WrapSame(t + b as int, b as int + 256 * s);
  }

  /** The byte sum of a read, first byte lowest. */
  lemma SumOfBytes(bytes: seq<bv8>)
    requires |bytes| == 2 || |bytes| == 4
    ensures |bytes| == 2 ==> LittleEndianSum(bytes) == bytes[0] as int + 0x100 * bytes[1] as int
    ensures |bytes| == 4 ==>
      LittleEndianSum(bytes) == bytes[0] as int + 0x100 * (bytes[1] as int + 0x100 * (bytes[2] as int + 0x100 * bytes[3] as int))
  {
    var r1 := bytes[1..];
    var r2 := r1[1..];
    assert LittleEndianSum(bytes) == bytes[0] as int + 0x100 * LittleEndianSum(r1);
    assert LittleEndianSum(r1) == bytes[1] as int + 0x100 * LittleEndianSum(r2);
    if |bytes| == 4 {
      var r3 := r2[1..];
      assert LittleEndianSum(r2) == bytes[2] as int + 0x100 * LittleEndianSum(r3);
      assert LittleEndianSum(r3) == bytes[3] as int + 0x100 * LittleEndianSum(r3[1..]);
      assert r3[1..] == [];
    } else {
      assert r2 == [];
    }
  }

  /** A two-byte read is 0..65535: the sign bit is never reached. */
  lemma TwoBytesBelow(bytes: seq<bv8>)
    requires |bytes| == 2
    ensures LittleEndian(bytes) == bytes[0] as int + 256 * bytes[1] as int
    ensures 0 <= LittleEndian(bytes) < 0x1_0000
  {
    SumOfBytes(bytes);
  }

  /** read2BytesAsInt and read4BytesAsInt. */
  function ReadInt(file: seq<bv8>, pos: Int32, len: Int32): Result<Int32, Error>
  {
    var bytes :- ReadSeq(file, pos, len);
    Success(LittleEndian(bytes))
  }

  // ---------------------------------------------------------------------
  // The ELF header

  const Magic: seq<int> := [0x7f, 0x45, 0x4c, 0x46]

  /** ensureBlock from the `j`-th expected byte on: each byte read with take and
      compared, as a Java `byte` widened to `int`, with the expected value. */
  function EnsureBlockFrom(file: seq<bv8>, pos: Int32, block: seq<int>, j: nat): Result<bool, Error>
    requires |block| <= IntMax
    requires j <= |block|
    decreases |block| - j
  {
    if j == |block| then Success(true)
    else
      var b :- Take(file, Add(pos, j));
      if block[j] != SignedByte(b) then
        Failure(AssertionFailed(ByteMismatch(Add(Add(pos, j), 1), block[j], SignedByte(b))))
      else EnsureBlockFrom(file, pos, block, j + 1)
  }

  /** The header fields the parser keeps (ElfHeader.java); the names follow the
      gABI. */
  datatype ElfHeader = ElfHeader(
    eiClass: bv8, eiData: bv8, eiOsAbi: bv8, eiAbiVersion: bv8,
    eType: Int32, eMachine: Int32, eEntry: Int32,
    programHeadersOffset: Int32, sectionHeadersOffset: Int32, eFlags: Int32,
    headerSize: Int32, programHeaderSize: Int32, programHeaderCount: Int32,
    sectionHeaderSize: Int32, sectionHeaderCount: Int32, sectionNamesIndex: Int32)

  /** readElfHeader, with each field at its fixed offset and the checks in the
      order the parser makes them. Byte 6 (EI_VERSION) is skipped unchecked:
      the parser's `ensureBlock(0x01)` passes an empty block. */
  function ElfHeaderOf(file: seq<bv8>): Result<ElfHeader, Error>
  {
    var _ :- EnsureBlockFrom(file, 0, Magic, 0);
    var eiClass :- Take(file, 4);
    if eiClass != 1 then Failure(AssertionFailed(Not32Bit)) else
    var eiData :- Take(file, 5);
    if eiData != 1 then Failure(AssertionFailed(NotLittleEndian)) else
    var _ :- EnsureBlockFrom(file, 1, [], 0);
    var eiOsAbi :- Take(file, 7);
    var eiAbiVersion :- Take(file, 8);
    var _ :- ReadSeq(file, 9, 7);
    HeaderFieldsOf(file, eiClass, eiData, eiOsAbi, eiAbiVersion)
  }

  /** The rest of readElfHeader, after the 16 identification bytes. */
  function HeaderFieldsOf(file: seq<bv8>, eiClass: bv8, eiData: bv8, eiOsAbi: bv8, eiAbiVersion: bv8)
    : Result<ElfHeader, Error>
  {
    var eType :- ReadInt(file, 16, 2);
    var eMachine :- ReadInt(file, 18, 2);
    if eMachine != 0xf3 then Failure(AssertionFailed(NotRiscV)) else
    var version :- ReadInt(file, 20, 4);
    if version != 1 then Failure(AssertionFailed(BadFormatVersion)) else
    var eEntry :- ReadInt(file, 24, 4);
    var phoff :- ReadInt(file, 28, 4);
    var shoff :- ReadInt(file, 32, 4);
    var eFlags :- ReadInt(file, 36, 4);
    var ehsize :- ReadInt(file, 40, 2);
    var phentsize :- ReadInt(file, 42, 2);
    var phnum :- ReadInt(file, 44, 2);
    var shentsize :- ReadInt(file, 46, 2);
    var shnum :- ReadInt(file, 48, 2);
    var shstrndx :- ReadInt(file, 50, 2);
    Success(ElfHeader(eiClass, eiData, eiOsAbi, eiAbiVersion, eType, eMachine, eEntry,
                      phoff, shoff, eFlags, ehsize, phentsize, phnum, shentsize, shnum, shstrndx))
  }

  /** The checks readElfHeader makes: the magic number, ELFCLASS32, ELFDATA2LSB,
      EM_RISCV and EV_CURRENT, and a file long enough for the 52-byte header. */
  predicate HeaderChecksPass(file: seq<bv8>)
  {
    |file| >= 52
    && file[0] == 0x7f && file[1] == 0x45 && file[2] == 0x4c && file[3] == 0x46
    && file[4] == 1 && file[5] == 1
    && LittleEndian(file[18..20]) == 0xf3
    && LittleEndian(file[20..24]) == 1
  }

  lemma MagicBlock(file: seq<bv8>)
    requires |file| >= 4
    ensures EnsureBlockFrom(file, 0, Magic, 0).Success?
        <==> file[0] == 0x7f && file[1] == 0x45 && file[2] == 0x4c && file[3] == 0x46
  {
    assert EnsureBlockFrom(file, 0, Magic, 4).Success?;
  }

  /** The header is accepted exactly when every check passes; byte 6 is never
      looked at. */
  lemma ElfHeaderAccepted(file: seq<bv8>)
    requires ValidFile(file)
    ensures ElfHeaderOf(file).Success? <==> HeaderChecksPass(file)
  {
    if |file| >= 4 {
      MagicBlock(file);
    }
    if |file| >= 52 {
      HeaderReads(file);
    } else {
      HeaderTooShort(file);
    }
  }

  lemma HeaderReads(file: seq<bv8>)
    requires ValidFile(file) && |file| >= 52
    ensures forall p :: 16 <= p <= 50 ==> ReadInt(file, p, 2) == Success(LittleEndian(file[p..p + 2]))
    ensures forall p :: 20 <= p <= 48 ==> ReadInt(file, p, 4) == Success(LittleEndian(file[p..p + 4]))
    ensures ReadSeq(file, 9, 7).Success?
  {}

  lemma HeaderTooShort(file: seq<bv8>)
    requires ValidFile(file) && |file| < 52
    ensures ElfHeaderOf(file).Failure?
  {
    if |file| >= 4 {
      MagicBlock(file);
    }
    assert ReadInt(file, 50, 2).Failure?;
  }

  /** Every field of an accepted header sits at its fixed offset of the
      52-byte layout: the identification bytes at 4, 5, 7 and 8, then the
      two- and four-byte little-endian words from e_type at 16 to e_shstrndx
      at 50. */
  lemma ElfHeaderLayout(file: seq<bv8>)
    requires ValidFile(file) && ElfHeaderOf(file).Success?
    ensures |file| >= 52
    ensures var h := ElfHeaderOf(file).value;
      h.eiClass == file[4] == 1 && h.eiData == file[5] == 1
      && h.eiOsAbi == file[7] && h.eiAbiVersion == file[8]
    ensures var h := ElfHeaderOf(file).value;
      h.eType == LittleEndian(file[16..18])
      && h.eMachine == LittleEndian(file[18..20]) == 0xf3
      && h.eEntry == LittleEndian(file[24..28])
      && h.programHeadersOffset == LittleEndian(file[28..32])
      && h.sectionHeadersOffset == LittleEndian(file[32..36])
      && h.eFlags == LittleEndian(file[36..40])
    ensures var h := ElfHeaderOf(file).value;
      h.headerSize == LittleEndian(file[40..42])
      && h.programHeaderSize == LittleEndian(file[42..44])
      && h.programHeaderCount == LittleEndian(file[44..46])
      && h.sectionHeaderSize == LittleEndian(file[46..48])
      && h.sectionHeaderCount == LittleEndian(file[48..50])
      && h.sectionNamesIndex == LittleEndian(file[50..52])
  {
    ElfHeaderAccepted(file);
    HeaderReads(file);
  }

  /** Reads that start after byte 6 see the same bytes in two files that differ
      only there. */
  lemma SameReads(file: seq<bv8>, other: seq<bv8>, pos: Int32, len: Int32)
    requires |file| == |other| && 7 <= pos && 0 <= len <= 8
    requires forall i :: 7 <= i < |file| ==> file[i] == other[i]
    ensures ReadSeq(file, pos, len) == ReadSeq(other, pos, len)
  {
    if ReadSeq(file, pos, len).Success? {
      assert file[pos..Add(pos, len)] == other[pos..Add(pos, len)];
    }
  }

  /** EI_VERSION is never checked: changing byte 6 changes nothing. */
  lemma VersionByteIgnored(file: seq<bv8>, b: bv8)
    requires ValidFile(file) && |file| > 6
    ensures ElfHeaderOf(file[6 := b]) == ElfHeaderOf(file)
  {
    var g := file[6 := b];
    assert EnsureBlockFrom(g, 0, Magic, 0) == EnsureBlockFrom(file, 0, Magic, 0) by {
      assert g[..6] == file[..6];
    }
    SameReads(file, g, 9, 7);
    SameReads(file, g, 16, 2);
    SameReads(file, g, 18, 2);
    SameReads(file, g, 20, 4);
    SameReads(file, g, 24, 4);
    SameReads(file, g, 28, 4);
    SameReads(file, g, 32, 4);
    SameReads(file, g, 36, 4);
    SameReads(file, g, 40, 2);
    SameReads(file, g, 42, 2);
    SameReads(file, g, 44, 2);
    SameReads(file, g, 46, 2);
    SameReads(file, g, 48, 2);
    SameReads(file, g, 50, 2);
  }

  /** The checks come in order: a wrong magic byte is reported (1-based) before
      anything else, then the class, then the byte order, then the machine,
      then the format version. */
  lemma ElfHeaderErrorOrder(file: seq<bv8>)
    requires ValidFile(file) && |file| >= 52
    ensures file[0] != 0x7f ==> ElfHeaderOf(file) == Failure(AssertionFailed(ByteMismatch(1, 0x7f, SignedByte(file[0]))))
    ensures file[0] == 0x7f && file[1] != 0x45
      ==> ElfHeaderOf(file) == Failure(AssertionFailed(ByteMismatch(2, 0x45, SignedByte(file[1]))))
    ensures file[..2] == [0x7f, 0x45] && file[2] != 0x4c
      ==> ElfHeaderOf(file) == Failure(AssertionFailed(ByteMismatch(3, 0x4c, SignedByte(file[2]))))
    ensures file[..3] == [0x7f, 0x45, 0x4c] && file[3] != 0x46
      ==> ElfHeaderOf(file) == Failure(AssertionFailed(ByteMismatch(4, 0x46, SignedByte(file[3]))))
    ensures file[..4] == [0x7f, 0x45, 0x4c, 0x46] && file[4] != 1
      ==> ElfHeaderOf(file) == Failure(AssertionFailed(Not32Bit))
    ensures file[..4] == [0x7f, 0x45, 0x4c, 0x46] && file[4] == 1 && file[5] != 1
      ==> ElfHeaderOf(file) == Failure(AssertionFailed(NotLittleEndian))
    ensures file[..4] == [0x7f, 0x45, 0x4c, 0x46] && file[4] == 1 && file[5] == 1
        && LittleEndian(file[18..20]) != 0xf3
      ==> ElfHeaderOf(file) == Failure(AssertionFailed(NotRiscV))
    ensures file[..4] == [0x7f, 0x45, 0x4c, 0x46] && file[4] == 1 && file[5] == 1
        && LittleEndian(file[18..20]) == 0xf3 && LittleEndian(file[20..24]) != 1
      ==> ElfHeaderOf(file) == Failure(AssertionFailed(BadFormatVersion))
  {
    MagicBlock(file);
    MagicMismatch(file);
    HeaderReads(file);
    if file[..4] == [0x7f, 0x45, 0x4c, 0x46] {
      assert file[0] == 0x7f && file[1] == 0x45 && file[2] == 0x4c && file[3] == 0x46;
    }
  }

  /** The first magic byte that differs is the one ensureBlock reports. */
  lemma MagicMismatch(file: seq<bv8>)
    requires |file| >= 4
    ensures file[0] != 0x7f ==> EnsureBlockFrom(file, 0, Magic, 0) == Failure(AssertionFailed(ByteMismatch(1, 0x7f, SignedByte(file[0]))))
    ensures file[0] == 0x7f && file[1] != 0x45
      ==> EnsureBlockFrom(file, 0, Magic, 0) == Failure(AssertionFailed(ByteMismatch(2, 0x45, SignedByte(file[1]))))
    ensures file[0] == 0x7f && file[1] == 0x45 && file[2] != 0x4c
      ==> EnsureBlockFrom(file, 0, Magic, 0) == Failure(AssertionFailed(ByteMismatch(3, 0x4c, SignedByte(file[2]))))
    ensures file[0] == 0x7f && file[1] == 0x45 && file[2] == 0x4c && file[3] != 0x46
      ==> EnsureBlockFrom(file, 0, Magic, 0) == Failure(AssertionFailed(ByteMismatch(4, 0x46, SignedByte(file[3]))))
  {
    if file[0] == 0x7f {
      assert EnsureBlockFrom(file, 0, Magic, 0) == EnsureBlockFrom(file, 0, Magic, 1);
      if file[1] == 0x45 {
        assert EnsureBlockFrom(file, 0, Magic, 1) == EnsureBlockFrom(file, 0, Magic, 2);
        if file[2] == 0x4c {
          assert EnsureBlockFrom(file, 0, Magic, 2) == EnsureBlockFrom(file, 0, Magic, 3);
        }
      }
    }
  }
}
