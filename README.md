# RISC-V ELF32 disassembler, modelled in Dafny

This is a model of a small RISC-V disassembler for ELF32 files. The parser
(`ElfParser.java`) does five things:

- it checks the ELF header;
- it reads the section header table;
- it chooses the last symbol table (`SHT_SYMTAB`) and the last `PROGBITS`
  section whose flags are exactly `SHF_ALLOC|SHF_EXECINSTR` (6), so a section
  with any further flag bit is never chosen;
- it reads the symbols, and labels every function symbol's address with the
  symbol's name;
- it walks the code section as a stream of 32-bit RV32 words and 16-bit
  compressed (RVC) words, giving every jump target that has no label a
  synthetic `LOC_%05x` label.

Then it prints one line per instruction (`AsmCommand.java`) and one row per
symbol (`Symbol.java`).

The model keeps the form of the source:

- **Decoding is pure.** `Bits`, `Immediates`, `Registers` and `Decoder` are
  functions over the 32-bit word (`bv32`), its address and the label map.
  `Decoder.Decode` is `toString` without the text layout: a mnemonic and its
  operands.
- **The classifiers are pure.** `Symbols` holds the symbol classifiers.
  `Text` holds Java's decimal printing and `String.format("LOC_%05x", n)`.
- **The parser is a class.** `Parser.ElfParser` has fields `file`,
  `sectionHeaders`, `tags` and `loc`. Its methods move a cursor and loop the
  way the Java does. `Commands.AsmCommand` is a class whose mutable field is
  `tag`.
- **Every method is proved against a specification function.** The
  specification functions live in `ElfFormat` (the header), `ElfTables` (the
  section headers, string tables and symbols), `ElfText` (the read loop of the
  code section and the label allocation) and `Listing` (the whole of `parse`).
  Lemmas then state what the source promises about those functions.
- **Java `int` semantics are explicit.** `JavaInts` covers 32-bit
  wrap-around. `Symbols.SignedByte` sign-extends a `byte` to an `int`, and
  `ElfTables.JavaDiv` divides rounding toward zero.
- **Exceptions are values.** An exception escaping the parser is a `Failure`
  (`ElfFormat.Error`). `Assert.ensure` is `AssertionFailed` carrying its
  message.

The model keeps these quirks of the source as they are:

- The `EI_VERSION` byte is never checked, because `ensureBlock(0x01)` is
  given an empty block.
- The CSR number is the sign-extended I-immediate, so numbers from 0x800
  up print as no name (`null`).
- `st_info` is a sign-extended byte, so `st_info` bytes from 0x80 up bind "UNK".
- A SYSTEM word with `rd = x0` is ECALL, EBREAK or UNKNOWN_COMMAND whatever
  its `funct3`.
- Quadrant 1's arithmetic group with `funct 100` and bits 10..11 = 11 ignores
  bit 12.

## Model

| member | source | states |
|---|---|---|
| Bits.GetBitArithmetic | src/project/AsmCommand.java:33-35 | getBit's sign-filling shift picks the same bit as a logical one |
| Bits.GetBitSubseqBelow | src/project/AsmCommand.java:29-31 | bits l..r right-aligned are below 2^(r-l+1) |
| Bits.SignExtendClear | src/project/AsmCommand.java:37-41 | signExtend returns x unchanged when bit b is 0 |
| Bits.SignExtendSet | src/project/AsmCommand.java:37-41 | signExtend ORs in every bit from b up when bit b is 1 |
| Bits.SignExtendSetsHighBits | src/project/AsmCommand.java:37-41 | with bit b set, every bit b..31 of the result is set |
| Bits.SignExtendKeepsLowBits | src/project/AsmCommand.java:37-41 | the bits below b are kept |
| Bits.SignExtendIdempotent | src/project/AsmCommand.java:37-41 | sign-extending twice at the same bit is sign-extending once |
| Bits.Reorder | src/project/AsmCommand.java:43-49 | reorder's loop computes the reference permutation Reordered |
| Bits.ReorderedPlacesBit | src/project/AsmCommand.java:43-49 | with distinct positions, bit k of the input lands at wherePut[k] |
| Bits.ReorderedBitOutside | src/project/AsmCommand.java:43-49 | no bit is set at a position not yet filled |
| Bits.ReorderedWithinMask | src/project/AsmCommand.java:43-49 | reorder sets no bit outside the listed positions |
| Immediates.IMatchesIsa | src/project/AsmCommand.java:192-195 | getIImmediate equals the RISC-V ISA's I-immediate, defined independently |
| Immediates.SMatchesIsa | src/project/AsmCommand.java:197-201 | getSImmediate equals the ISA's S-immediate |
| Immediates.BMatchesIsa | src/project/AsmCommand.java:203-209 | getBImmediate equals the ISA's B-immediate |
| Immediates.UMatchesIsa | src/project/AsmCommand.java:211-213 | getUImmediate equals the ISA's U-immediate |
| Immediates.JMatchesIsa | src/project/AsmCommand.java:215-223 | getJImmediate equals the ISA's J-immediate |
| Immediates.IImmediateRange | src/project/AsmCommand.java:192-195 | the I-immediate lies in [-2048, 2047] |
| Immediates.SImmediateRange | src/project/AsmCommand.java:197-201 | the S-immediate lies in [-2048, 2047] |
| Immediates.BImmediateRange | src/project/AsmCommand.java:203-209 | the B-immediate is even and lies in [-4096, 4094] |
| Immediates.UImmediateLowZero | src/project/AsmCommand.java:211-213 | the U-immediate has its low twelve bits zero |
| Immediates.JImmediateRange | src/project/AsmCommand.java:215-223 | the J-immediate is even and lies in [-2^20, 2^20-2] |
| Immediates.IRoundTrip | src/project/AsmCommand.java:192-195 | an in-range value scattered into the I layout decodes back to itself, whatever the other bits |
| Immediates.SRoundTrip | src/project/AsmCommand.java:197-201 | the same round trip for the S layout |
| Immediates.BRoundTrip | src/project/AsmCommand.java:203-209 | the same round trip for the B layout (even values) |
| Immediates.URoundTrip | src/project/AsmCommand.java:211-213 | the same round trip for the U layout |
| Immediates.JRoundTrip | src/project/AsmCommand.java:215-223 | the same round trip for the J layout (even values) |
| Immediates.IEncodesField | src/project/AsmCommand.java:192-195 | the other direction: re-encoding the decoded I-immediate gives back exactly the word's immediate field |
| Immediates.SEncodesField | src/project/AsmCommand.java:197-201 | the same for the S field |
| Immediates.BEncodesField | src/project/AsmCommand.java:203-209 | the same for the B field |
| Immediates.UEncodesField | src/project/AsmCommand.java:211-213 | the same for the U field |
| Immediates.JEncodesField | src/project/AsmCommand.java:215-223 | the same for the J field |
| Immediates.JalPositionsValid | src/project/AsmCommand.java:225-230 | the C.J/C.JAL position list has distinct entries below 32 |
| Immediates.BranchPositionsValid | src/project/AsmCommand.java:232-237 | the C.BEQZ/C.BNEZ position list has distinct entries below 32 |
| Immediates.Addi4spnPositionsValid | src/project/AsmCommand.java:509-513 | the C.ADDI4SPN position list has distinct entries below 32 |
| Immediates.WordOffsetPositionsValid | src/project/AsmCommand.java:514-521 | the C.LW/C.SW position list has distinct entries below 32 |
| Immediates.StackOffsetPositionsValid | src/project/AsmCommand.java:624-632 | the C.LWSP/C.SWSP position lists have distinct entries below 32 |
| Immediates.Addi16spPositionsValid | src/project/AsmCommand.java:565-577 | the C.ADDI16SP position list has distinct entries below 32 |
| Immediates.JalCompressedImmediateRange | src/project/AsmCommand.java:225-230 | the C.J/C.JAL immediate is even and lies in [-2048, 2046] |
| Immediates.BranchCompressedImmediateRange | src/project/AsmCommand.java:232-237 | the C.BEQZ/C.BNEZ immediate is even and lies in [-256, 254] |
| Immediates.Addi4spnImmediateRange | src/project/AsmCommand.java:509-513 | the C.ADDI4SPN immediate is a multiple of 4 below 1024 |
| Immediates.WordOffsetRange | src/project/AsmCommand.java:514-521 | the C.LW/C.SW offset is a multiple of 4 below 128 |
| Immediates.LoadStackOffsetRange | src/project/AsmCommand.java:624-627 | the C.LWSP offset is a multiple of 4 below 256 |
| Immediates.StoreStackOffsetRange | src/project/AsmCommand.java:628-632 | the C.SWSP offset is a multiple of 4 below 256 |
| Immediates.Addi16spImmediateRange | src/project/AsmCommand.java:565-577 | the C.ADDI16SP immediate is a multiple of 16 in [-512, 496] |
| Immediates.SixBitImmediateRange | src/project/AsmCommand.java:530-540 | the six-bit C.ADDI/C.LI immediate lies in [-32, 31] |
| Registers.XRegToAbiNames | src/project/AsmCommand.java:96-119 | every register 0..31 gets its ABI name from the standard table, never "??" |
| Registers.XRegToCNames | src/project/AsmCommand.java:121-126 | a 3-bit compressed field f names register x(f+8): s0, s1, a0..a5 |
| Registers.ToCsrRegisterNamed | src/project/AsmCommand.java:128-190 | a CSR number has a name exactly when the switch or one of the numbered families covers it; no number below 0x100 has one |
| Registers.ToCsrRegisterFamilies | src/project/AsmCommand.java:176-187 | pmpcfg, pmpaddr, mhpmcounter, mhpmcounter…h and mhpmevent are numbered from the start of their ranges |
| Registers.MtvecName | src/project/AsmCommand.java:128-175 | a sample: 0x305 is "mtvec" (the whole switch is ToCsrRegisterNamed) |
| Registers.CsrByNumberOutsideRanges | src/project/AsmCommand.java:128-175 | the named CSRs lie in 0x100..0xf14, outside the numbered families |
| Decoder.DecodeUnknownOpcode | src/project/AsmCommand.java:664-685 | a word with low bits 11 and an unknown opcode is UNKNOWN_COMMAND with no operands |
| Decoder.DecodeCompressed | src/project/AsmCommand.java:664-685 | every other word goes to Q0, Q1 or Q2 by its low two bits |
| Decoder.DecodeSpecial | src/project/AsmCommand.java:500-685 | INVALID is exactly the all-zero word, C.NOP exactly a halfword 0x0001, and "VERY BAD" and "BAD Q2" are never produced |
| Decoder.Q0Special | src/project/AsmCommand.java:500-503 | quadrant 0 says INVALID exactly for the zero word |
| Decoder.Q1Special | src/project/AsmCommand.java:530-540 | quadrant 1 says C.NOP exactly when bits 2..15 are clear |
| Decoder.Q1ArithNotSpecial | src/project/AsmCommand.java:578-608 | the two-bit switch of the arithmetic group never reaches its "VERY BAD" default |
| Decoder.Q2NotSpecial | src/project/AsmCommand.java:633-657 | the one-bit switch of quadrant 2's jump group never reaches "BAD Q2" |
| Decoder.Rv32NotSpecial | src/project/AsmCommand.java:239-498 | no RV32 decoder produces INVALID, C.NOP, VERY BAD or BAD Q2 |
| Decoder.SystemIgnoresFunct3 | src/project/AsmCommand.java:308-318 | a SYSTEM word with rd = x0 decodes the same whatever funct3 is: ECALL iff the immediate is 0, EBREAK iff it is 1, else UNKNOWN_COMMAND, with no operands |
| Decoder.SystemCsrName | src/project/AsmCommand.java:319-336 | a SYSTEM word with rd ≠ x0 names the CSR of bits 20..31 when bit 31 is clear, and no CSR when it is set |
| Decoder.PositiveIImmediate | src/project/AsmCommand.java:192-195 | with bit 31 clear the I-immediate is bits 20..31 |
| Decoder.NegativeIImmediate | src/project/AsmCommand.java:192-195 | with bit 31 set it is negative |
| Decoder.Q1IgnoresBit12 | src/project/AsmCommand.java:584-607 | in the C.SUB/C.XOR/C.OR/C.AND group, flipping bit 12 changes nothing |
| Decoder.JumpAddressCases | src/project/AsmCommand.java:66-94 | getJumpAddress is non-null exactly for JAL, the branches, C.JAL, C.J, C.BEQZ and C.BNEZ, and is then the address plus that format's immediate, modulo 2^32 |
| Decoder.DecodeTargets | src/project/AsmCommand.java:664-685 | a decoded word prints a label exactly when getJumpAddress finds a target, and then prints the map's entry for that target |
| Decoder.DecodeQ1Targets | src/project/AsmCommand.java:541-558 | in quadrant 1 only the four jumps print a label, the label of their target |
| Decoder.DecodeRv32Targets | src/project/AsmCommand.java:452-498 | in quadrant 3 only JAL and the branches print a label, the label of their target |
| Decoder.DecodeRegistersValid | src/project/AsmCommand.java:96-126 | every register a decoded word names has an ABI name, so "??" is never printed |
| Decoder.RegisterNameAbi | src/project/AsmCommand.java:96-126 | a register operand prints as its ABI name, and a compressed field as that of x(f+8) |
| Decoder.IsaInstructionTypeOfQuadrant | src/project/AsmCommand.java:12-21 | the low two bits of any word give a kind, RV32 exactly when they are 11 |
| Decoder.IsaInstructionTypeDomain | src/project/AsmCommand.java:12-21 | getIsaInstructionType succeeds exactly on 0..3 and is one-to-one there |
| Commands.AsmCommand.constructor | src/project/AsmCommand.java:51-56 | a new command holds its word and address and has no label |
| Commands.AsmCommand.SetTag | src/project/AsmCommand.java:62-64 | setTag sets the label and nothing else |
| Commands.AsmCommand.GetJumpAddress | src/project/AsmCommand.java:66-80 | a target exists exactly for JAL, the branches and the four compressed jumps |
| Commands.AsmCommand.ToLine | src/project/AsmCommand.java:664-685 | toString gives the command's address and label, its only label operand is the map's entry for its jump target, and every register is named |
| Commands.WordsOfAt | src/project/ElfParser.java:166-195 | the k-th command holds the k-th word and address |
| Symbols.SignedByte | src/project/ElfParser.java:20-24 | a byte taken from the file widens to -128..127, negative exactly from 0x80 up |
| Symbols.TypeOfByte | src/project/Symbol.java:86-88 | getType is the low nibble of the byte, 0..15, even for a negative byte |
| Symbols.BindOfByte | src/project/Symbol.java:82-84 | getBind of a sign-extended byte is its high nibble, minus 16 from 0x80 up |
| Symbols.BindStringOfByte | src/project/Symbol.java:50-58 | a parsed symbol never binds PROC; info bytes from 0x80 up bind UNK |
| Symbols.VisNamed | src/project/Symbol.java:72-80 | getVis is 0..3, so getVisString is never UNK |
| Symbols.TypeStringUnknown | src/project/Symbol.java:60-70 | types 0..4 are NOTYPE, OBJECT, FUNC, SECTION and FILE, 13..15 PROC_SPEC, and UNK exactly for the rest |
| Symbols.IndexStringDecimal | src/project/Symbol.java:28-48 | an index that is not reserved prints as decimal digits only, which read back as the index |
| Symbols.IndexStringReserved | src/project/Symbol.java:28-48 | 0 prints UNDEF, 0xff00..0xff1f PROC_SPEC, 0xff20..0xff3f OS_SPEC, 0xfff1 ABS, 0xfff2 COMMON and 0xffff XINDEX |
| Symbols.GlobalFunction | src/project/Symbol.java:14-26 | a sample: info 0x12 with other 0 prints as FUNC, GLOBAL, DEFAULT (the whole domain is TypeOfByte, BindStringOfByte and VisNamed) |
| Text.FromToBase | src/project/Symbol.java:47 | Integer.toString writes a numeral that reads back as the number |
| Text.ToBaseCanonical | src/project/Symbol.java:47 | a numeral has no leading zero unless it is "0" |
| Text.IntToStringReadsBack | src/project/AsmCommand.java:176-187 | the decimal of a number is decimal digits with no leading zero that read back to it, with a minus sign exactly for negatives |
| Text.Hex5 | src/project/ElfParser.java:187 | %05x is at least five lower-case hexadecimal digits that read back to the counter, with a leading zero only when padding to exactly five |
| Text.LocLabel | src/project/ElfParser.java:187 | a synthetic label is "LOC_" followed by at least five more characters |
| Text.LocLabelDigits | src/project/ElfParser.java:187 | the characters after "LOC_" are hexadecimal digits that read back to the counter |
| Text.LocLabelInjective | src/project/ElfParser.java:187 | distinct counters give distinct labels |
| Text.LocLabelLength | src/project/ElfParser.java:187 | below 16^5 a label has exactly nine characters |
| JavaInts.Wrap | src/project/ElfParser.java:41-48 | a Java int result is the one congruent to the exact value modulo 2^32 |
| JavaInts.Add | src/project/ElfParser.java:166-195 | Java int addition equals the exact sum when that fits |
| JavaInts.AddWraps | src/project/ElfParser.java:166-195 | Java int addition is the exact sum wrapped modulo 2^32, overflow or not |
| ElfFormat.TakeFails | src/project/ElfParser.java:20-24 | take fails exactly past the end of the file, and otherwise returns that byte |
| ElfFormat.ReadSeqFails | src/project/ElfParser.java:34-39 | readSeq fails exactly when pos+len passes the end, and otherwise returns those bytes |
| ElfFormat.ReadIntAt | src/project/ElfParser.java:50-56 | a 2- or 4-byte read succeeds exactly inside the file and reads the bytes there |
| ElfFormat.SumOfBytes | src/project/ElfParser.java:41-48 | littleEndianToInt is the byte sum Σ b[i]·256^i |
| ElfFormat.TwoBytesBelow | src/project/ElfParser.java:54-56 | a two-byte read lies in [0, 65535] |
| ElfFormat.ShiftInByte | src/project/ElfParser.java:41-48 | one turn of the shift loop keeps the int congruent to the byte sum so far |
| ElfFormat.ElfHeaderAccepted | src/project/ElfParser.java:58-98 | the header is accepted exactly when every check passes |
| ElfFormat.ElfHeaderErrorOrder | src/project/ElfParser.java:26-81 | the checks run in order: each magic byte by its 1-based number, then class, data, machine 0xF3 and version 1, each with its own message |
| ElfFormat.VersionByteIgnored | src/project/ElfParser.java:69 | changing EI_VERSION (byte 6) changes nothing |
| ElfFormat.HeaderTooShort | src/project/ElfParser.java:58-98 | a file shorter than 52 bytes is never accepted |
| ElfFormat.ElfHeaderLayout | src/project/ElfParser.java:58-97 | every field of an accepted header is read at its offset: class and data (both 1) at 4 and 5, OS ABI at 7, ABI version at 8, and e_type through e_shstrndx at 16..50 |
| ElfTables.SectionHeaderAtFields | src/project/ElfParser.java:100-116 | a section header is read exactly when its 40 bytes are in the file, as ten words in order |
| ElfTables.SectionHeadersRecords | src/project/ElfParser.java:118-126 | the table has e_shnum records, record k read at e_shoff + k·e_shentsize |
| ElfTables.TableFirstFailure | src/project/ElfParser.java:118-126 | a table that cannot be read fails with its first unreadable record |
| ElfTables.SelectLast | src/project/ElfParser.java:208-216 | the symbol table is the last type-2 header and the code section the last type-1 header with flags 6; each exists exactly when such a header does |
| ElfTables.StringFromContents | src/project/ElfParser.java:128-137 | a name is the characters of the bytes before the first NUL |
| ElfTables.StringFromTerminated | src/project/ElfParser.java:128-137 | a name is read whenever a NUL follows its start inside the file |
| ElfTables.NameHasNoNul | src/project/ElfParser.java:128-137 | a name is found only for an index below sh_size and holds no NUL |
| ElfTables.SymbolAtFields | src/project/ElfParser.java:139-150 | a symbol is read exactly when its 16 bytes are in the file, with name, value, size, info, other and shndx at their offsets |
| ElfTables.SymbolCountValue | src/project/ElfParser.java:152-155 | for non-negative size and positive entry size, the count is the number of whole records |
| ElfTables.SymbolCountFails | src/project/ElfParser.java:152-155 | a zero entry size throws ArithmeticException, and a negative count NegativeArraySizeException |
| ElfTables.JavaDivTruncates | src/project/ElfParser.java:154 | Java division rounds toward zero: the remainder is smaller than the divisor in magnitude and zero or of the dividend's sign |
| ElfTables.SymtabRecords | src/project/ElfParser.java:152-164 | readSymtab has sh_size / sh_entsize entries, entry k read at sh_offset + k·sh_entsize |
| ElfTables.SymtabEntry | src/project/ElfParser.java:152-164 | symbol k is numbered k and named exactly when it is a function symbol |
| ElfTables.TagsAfterKeys | src/project/ElfParser.java:156-160 | afterwards the label map holds the old keys and every function symbol's value, and keeps the other old labels |
| ElfTables.TagsAfterLast | src/project/ElfParser.java:156-160 | a function symbol's address is labelled with the name of the last function symbol at that address |
| ElfTables.SymtabFails | src/project/ElfParser.java:152-164 | readSymtab fails with the first turn that fails |
| ElfTables.SymtabDone | src/project/ElfParser.java:152-164 | otherwise it holds every turn's entry and the label map their names make |
| ElfText.PlaceAt | src/project/ElfParser.java:166-182 | word k is the k-th fetched instruction at sh_addr plus the strides of the words before it |
| ElfText.PlaceFirst | src/project/ElfParser.java:168 | the first word is listed at sh_addr |
| ElfText.PlaceNext | src/project/ElfParser.java:171-182 | each next address is the previous one advanced by 4 after an RV32 word or by 2 after a compressed one, modulo 2^32 |
| ElfText.CutTiled | src/project/ElfParser.java:171-182 | the read loop succeeds with a sequence of words exactly when those words tile the range back to back from sh_offset |
| ElfText.CutCovers | src/project/ElfParser.java:171 | the words read reach sh_offset + sh_size |
| ElfText.CutAt | src/project/ElfParser.java:171-182 | word k is read at sh_offset plus the widths of the words before it, a position before the end |
| ElfText.CutKinds | src/project/ElfParser.java:173-181 | a word is four bytes wide exactly when its low bits are 11, and a compressed word is a 16-bit value |
| ElfText.IsaInstructionTypeOfByte | src/project/ElfParser.java:173 | the kind from a byte's low two bits is always defined, RV32 exactly for 11 |
| ElfText.KindOfRead | src/project/ElfParser.java:173-181 | the first byte decides the kind of the word read |
| ElfText.TextLoopFails | src/project/ElfParser.java:171-182 | a turn that cannot fetch is the failure of the whole reading |
| ElfText.TextLoopDone | src/project/ElfParser.java:171-189 | a finished loop has read every word and taken every label step |
| ElfText.LabelsKeep | src/project/ElfParser.java:184-189 | a label, once given, never changes, and LOC grows at most once per word |
| ElfText.LabelsTargets | src/project/ElfParser.java:184-189 | afterwards every jump target has a label, and the only new keys are jump targets |
| ElfText.LabelStepCases | src/project/ElfParser.java:184-189 | one step adds at most one label, LOC_ of the counter at a key that had none, and advances the counter |
| ElfText.LabelsFreshNamed | src/project/ElfParser.java:184-189 | every new label is LOC_ of a counter value used in this run |
| ElfText.LabelsFreshUsed | src/project/ElfParser.java:184-189 | every counter value used labels some new key, so no counter value is skipped |
| ElfText.LabelsScanOrder | src/project/ElfParser.java:184-189 | a target without a label when its word is scanned gets LOC_ of the counter at that moment and keeps it, and the counter then grows by one; a word with no such target changes nothing, so labels are numbered in scan order |
| ElfText.LabelsFreshDistinct | src/project/ElfParser.java:184-189 | no two new labels are the same |
| Listing.TagFor | src/project/ElfParser.java:227-233 | an instruction's tag is tags[address], or "" without an entry |
| Listing.LinesAt | src/project/ElfParser.java:235-238 | line k of the listing is word k with its label and its decoding |
| Listing.RowsStopped | src/project/ElfParser.java:242-244 | once a name lookup fails, no further row is printed |
| Listing.ParseUnsupported | src/project/ElfParser.java:197-205 | parse reports "Unsupported file" and the message exactly when a header check fails |
| Listing.FinalLabelsCoverTargets | src/project/ElfParser.java:184-189 | once reading is done no jump or branch prints a missing label |
| Listing.ParseLines | src/project/ElfParser.java:197-246 | in a printed listing every jump or branch operand of every line has a label |
| Parser.GetStringFromStringTable | src/project/ElfParser.java:128-137 | the StringBuilder loop computes GetString, which fails for index ≥ sh_size or a missing NUL |
| Parser.ElfParser.constructor | src/project/ElfParser.java:15-18 | a parser holds its file, no labels, and LOC 0 |
| Parser.ElfParser.LittleEndianToInt | src/project/ElfParser.java:41-48 | the shift loop computes the wrapped little-endian value |
| Parser.ElfParser.Read4BytesAsInt | src/project/ElfParser.java:50-52 | read4BytesAsInt is a bounds-checked 4-byte little-endian read |
| Parser.ElfParser.Read2BytesAsInt | src/project/ElfParser.java:54-56 | read2BytesAsInt is a bounds-checked 2-byte little-endian read |
| Parser.ElfParser.EnsureBlock | src/project/ElfParser.java:26-32 | ensureBlock compares each expected byte in order and reports the first mismatch by its 1-based number |
| Parser.ElfParser.ReadElfHeader | src/project/ElfParser.java:58-98 | the cursor walk over the header computes ElfHeaderOf |
| Parser.ElfParser.ReadSectionHeader | src/project/ElfParser.java:100-116 | the cursor walk over one section header computes SectionHeaderAt |
| Parser.ElfParser.ReadAllSectionHeaders | src/project/ElfParser.java:118-126 | the loop computes SectionHeaders |
| Parser.ElfParser.ReadSymbol | src/project/ElfParser.java:139-150 | the cursor walk over one symbol computes SymbolAt |
| Parser.ElfParser.ReadSymbolTurn | src/project/ElfParser.java:155-160 | one turn of readSymtab's loop computes SymbolTurn |
| Parser.ElfParser.ReadSymbols | src/project/ElfParser.java:152-164 | readSymtab's loop computes Symtab on the labels it starts with |
| Parser.ElfParser.ReadSymtab | src/project/ElfParser.java:152-164 | readSymtab leaves the symbols and the new label map as Symtab gives them, and keeps the other fields |
| Parser.ElfParser.FetchWord | src/project/ElfParser.java:173-181 | the read step at pos computes FetchAt |
| Parser.ElfParser.NextLabels | src/project/ElfParser.java:184-189 | the label step of the loop computes LabelStep |
| Parser.ElfParser.ReadTextWords | src/project/ElfParser.java:166-189 | readText's loop fails exactly as TextWords does, and otherwise yields TextWords' words and the labels after every label step |
| Parser.ElfParser.NewCommands | src/project/ElfParser.java:174-182 | one new, unlabelled command per word, in order |
| Parser.ElfParser.ReadText | src/project/ElfParser.java:166-195 | readText returns fresh commands for the section's words and leaves tags and LOC as the label steps over those words give them |
| Parser.ElfParser.SelectSections | src/project/ElfParser.java:208-216 | the selection loop computes SelectUpTo |
| Parser.ElfParser.SetTags | src/project/ElfParser.java:227-233 | every command gets the label of its address, or "" |
| Parser.ElfParser.PrintLines | src/project/ElfParser.java:235-238 | the printing loop yields the listing Lines of the commands' words |
| Parser.ElfParser.PrintRows | src/project/ElfParser.java:239-244 | the symbol printing loop yields RowsUpTo, stopping at the first failed lookup |
| Parser.ElfParser.Parse | src/project/ElfParser.java:197-246 | parse on a new parser produces Listing.Parse of the file |
| Parser.ElfParser.ParseSections | src/project/ElfParser.java:206-246 | the rest of parse produces Listing.ParseSections of the headers read |

## Left out

- Printing and layout are left out: `Main`, `ElfReader`, the `PrintWriter`, the `.text`/`.symtab` headings and the `%08x %10s`, `%-15X` and `%5d` layouts. A printed line is a `Line` or a `SymbolRow` value. The label `LOC_%05x` is modelled exactly.
- The `System.err` diagnostics of the decoders are left out. Only the UNKNOWN_COMMAND result is modelled.
- Java exceptions become `Failure` values that end the parse. A failure before printing is `Crashed`; one during the symbol rows ends the rows (`Rows.stop`). `OutOfMemoryError` is not modelled.
- The static fields of `ElfHeader` become an `ElfHeader` datatype that `ReadElfHeader` returns. `SectionHeader` and `Symbol` become datatypes, and their setters become the record built at the end of each read.
- Java arrays and `ArrayList`s become sequences. The `AsmCommand[]` is a sequence of objects.
- The shared label map `go` that every `AsmCommand` holds is passed explicitly to `ToLine` when the command prints. It is the parser's final `tags`, so the effect is the same.
- Label keys are the unsigned values of the addresses, not Java `Integer`s. The correspondence is one-to-one.
- `Parser.ElfParser.ReadText` first reads all the words, with their label steps, and then allocates the commands. The Java allocates each command inside the loop. The order of allocation is not observable.
- `Parser.ElfParser.Parse` requires a new parser (no labels, LOC 0), as `Main` uses it. Its loops are split into helper methods.
- `Parser.ElfParser.Parse` requires the file to have fewer than 2^31 bytes (`ValidFile`), as a Java array does.
- `loc` is a natural number, so LOC's own overflow past 2^31 is not modelled. It would need 2^31 labels.
- ElfText.PlaceNext: the addresses increase by 4 or 2 modulo 2^32. That they strictly increase holds only while `sh_addr` plus the section size stays below 2^32, and the model does not state it as an inequality.
- The `FirstTwoBits` failure path of `getIsaInstructionType` is modelled (`IsaInstructionType`), but it is unreachable from the parser. `Decoder.IsaInstructionTypeOfQuadrant` shows why.
- A string table with no NUL after a name is modelled as the `IndexOutOfBounds` the Java would throw.
- A last instruction that runs past the end of the file fails the way the Java does. The first byte past the end is `take`'s assertion (`ReadPastEnd`), and a four-byte word cut short by the end is `readSeq`'s assertion (`SequencePastEnd`). Only a negative cursor gives `IndexOutOfBounds`. A word that runs past the end of the section but stays inside the file is read normally (`ElfText.CutCovers`).
