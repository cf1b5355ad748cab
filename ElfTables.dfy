/** The tables ElfParser.java reads after the ELF header, as functions of the
    file's bytes: the section header table (System V gABI, "Sections"), the
    NUL-terminated names of a string table ("String Table") and the symbol
    table ("Symbol Table"), with the label map the symbol table fills. */
module ElfTables {
  import opened Wrappers
  import opened JavaInts
  import opened Symbols
  import opened ElfFormat

  // ---------------------------------------------------------------------
  // Section headers

  /** The ten words of a section header (SectionHeader.java), in file order. */
  datatype SectionHeader = SectionHeader(
    name: Int32, sectionType: Int32, flags: Int32, address: Int32, offset: Int32,
    size: Int32, link: Int32, info: Int32, addressAlign: Int32, entrySize: Int32)

  /** readSectionHeader: ten consecutive read4BytesAsInt calls, the cursor
      moving on by four after each as a Java `int` sum. The first failing read
      stops them. */
  function SectionHeaderAt(file: seq<bv8>, pos: Int32): Result<SectionHeader, Error>
  {
    var name :- ReadInt(file, pos, 4);
    var sectionType :- ReadInt(file, Add(pos, 4), 4);
    var flags :- ReadInt(file, Add(pos, 8), 4);
    var address :- ReadInt(file, Add(pos, 12), 4);
    var offset :- ReadInt(file, Add(pos, 16), 4);
    var size :- ReadInt(file, Add(pos, 20), 4);
    var link :- ReadInt(file, Add(pos, 24), 4);
    var info :- ReadInt(file, Add(pos, 28), 4);
    var addressAlign :- ReadInt(file, Add(pos, 32), 4);
    var entrySize :- ReadInt(file, Add(pos, 36), 4);
    Success(SectionHeader(name, sectionType, flags, address, offset, size, link, info, addressAlign, entrySize))
  }

  /** The little-endian word at byte `p`. */
  function WordAt(file: seq<bv8>, p: int): Int32
    requires 0 <= p && p + 4 <= |file|
  {
    LittleEndian(file[p..p + 4])
  }

  /** A section header is read exactly when its 40 bytes lie inside the file,
      and then each field is the word at its offset in the record: a cursor
      that wraps past Integer.MAX_VALUE is negative and fails. */
  lemma SectionHeaderAtFields(file: seq<bv8>, pos: Int32)
    requires ValidFile(file)
    ensures SectionHeaderAt(file, pos).Success? <==> 0 <= pos && pos + 40 <= |file|
    ensures SectionHeaderAt(file, pos).Success? ==>
      var h := SectionHeaderAt(file, pos).value;
      h.name == WordAt(file, pos) && h.sectionType == WordAt(file, pos + 4)
      && h.flags == WordAt(file, pos + 8) && h.address == WordAt(file, pos + 12)
      && h.offset == WordAt(file, pos + 16) && h.size == WordAt(file, pos + 20)
      && h.link == WordAt(file, pos + 24) && h.info == WordAt(file, pos + 28)
      && h.addressAlign == WordAt(file, pos + 32) && h.entrySize == WordAt(file, pos + 36)
  {
    ReadIntAt(file, pos, 4);
    ReadIntAt(file, Add(pos, 4), 4);
    ReadIntAt(file, Add(pos, 8), 4);
    ReadIntAt(file, Add(pos, 12), 4);
    ReadIntAt(file, Add(pos, 16), 4);
    ReadIntAt(file, Add(pos, 20), 4);
    ReadIntAt(file, Add(pos, 24), 4);
    ReadIntAt(file, Add(pos, 28), 4);
    ReadIntAt(file, Add(pos, 32), 4);
    ReadIntAt(file, Add(pos, 36), 4);
  }

  // ---------------------------------------------------------------------
  // Tables of records

  /** The cursor of a table at `base` whose records are `step` bytes apart,
      after `i` turns of Java's `pos += step`. */
  function RecordPosition(base: Int32, step: Int32, i: nat): Int32
  {
    if i == 0 then base else Add(RecordPosition(base, step, i - 1), step)
  }

  /** Without overflow, record `i` sits at base + i·step. */
  lemma {:induction false} RecordPositionValue(base: Int32, step: Int32, i: nat)
    requires forall k :: 0 <= k <= i ==> IsInt(base + k * step)
    ensures RecordPosition(base, step, i) == base + i * step
  {
    if i > 0 {
      RecordPositionValue(base, step, i - 1);
      assert base + (i - 1) * step + step == base + i * step;
    }
  }

  /** The records of a table read so far, and the cursor after them. */
  datatype Table<T> = Table(records: seq<T>, cursor: Int32)

  /** The loop shared by readAllSectionHeaders and readSymtab after `n` turns:
      each turn reads a record at the cursor (`read` is given the cursor and the
      turn number), then advances the cursor by `step`. The first failing
      read stops the loop. */
  function TableUpTo<T>(read: (Int32, nat) -> Result<T, Error>, base: Int32, step: Int32, n: nat): Result<Table<T>, Error>
  {
    if n == 0 then Success(Table([], base))
    else
      var t :- TableUpTo(read, base, step, n - 1);
      var r :- read(t.cursor, n - 1);
      Success(Table(t.records + [r], Add(t.cursor, step)))
  }

  /** One more turn of a running loop: its record is appended and the cursor
      moves on; a failing read stops the loop with its error. */
  lemma TableStep<T>(read: (Int32, nat) -> Result<T, Error>, base: Int32, step: Int32, n: nat, t: Table<T>)
    requires TableUpTo(read, base, step, n) == Success(t)
    ensures read(t.cursor, n).Success? ==>
      TableUpTo(read, base, step, n + 1) == Success(Table(t.records + [read(t.cursor, n).value], Add(t.cursor, step)))
    ensures read(t.cursor, n).Failure? ==> TableUpTo(read, base, step, n + 1) == Failure(read(t.cursor, n).error)
  {}

  /** Once a turn fails, the loop has stopped with that failure. */
  lemma {:induction false} TableFailureStays<T>(read: (Int32, nat) -> Result<T, Error>, base: Int32, step: Int32,
                                                i: nat, n: nat)
    requires i <= n && TableUpTo(read, base, step, i).Failure?
    ensures TableUpTo(read, base, step, n) == TableUpTo(read, base, step, i)
    decreases n - i
  {
    if i < n {
      TableFailureStays(read, base, step, i, n - 1);
    }
  }

  /** A table read holds one record per turn, record `k` read at turn `k`'s cursor. */
  lemma {:induction false} TableRecords<T>(read: (Int32, nat) -> Result<T, Error>, base: Int32, step: Int32, n: nat)
    requires TableUpTo(read, base, step, n).Success?
    ensures var t := TableUpTo(read, base, step, n).value;
      |t.records| == n && t.cursor == RecordPosition(base, step, n)
      && forall k :: 0 <= k < n ==> read(RecordPosition(base, step, k), k) == Success(t.records[k])
  {
    if n > 0 {
      TableRecords(read, base, step, n - 1);
      var t := TableUpTo(read, base, step, n - 1).value;
      var u := TableUpTo(read, base, step, n).value;
      assert u.records == t.records + [read(t.cursor, n - 1).value];
      assert forall k :: 0 <= k < n - 1 ==> u.records[k] == t.records[k];
    }
  }

  /** And the table is read whenever every record is. */
  lemma {:induction false} TableInside<T>(read: (Int32, nat) -> Result<T, Error>, base: Int32, step: Int32, n: nat)
    requires forall k :: 0 <= k < n ==> read(RecordPosition(base, step, k), k).Success?
    ensures TableUpTo(read, base, step, n).Success?
  {
    if n > 0 {
      TableInside(read, base, step, n - 1);
      TableRecords(read, base, step, n - 1);
    }
  }

  /** Otherwise the first record that cannot be read is the error. */
  lemma {:induction false} TableFirstFailure<T>(read: (Int32, nat) -> Result<T, Error>, base: Int32, step: Int32,
                                                n: nat, k: nat)
    requires k < n && read(RecordPosition(base, step, k), k).Failure?
    requires forall j :: 0 <= j < k ==> read(RecordPosition(base, step, j), j).Success?
    ensures TableUpTo(read, base, step, n) == Failure(read(RecordPosition(base, step, k), k).error)
  {
    if n == k + 1 {
      TableInside(read, base, step, k);
      TableRecords(read, base, step, k);
    } else {
      TableFirstFailure(read, base, step, n - 1, k);
    }
  }

  // ---------------------------------------------------------------------
  // The section header table

  /** One record of the section header table. */
  function SectionHeaderReader(file: seq<bv8>): (Int32, nat) -> Result<SectionHeader, Error>
  {
    (pos: Int32, i: nat) => SectionHeaderAt(file, pos)
  }

  /** readAllSectionHeaders: e_shnum records of e_shentsize bytes from e_shoff. */
  function SectionHeaders(file: seq<bv8>, header: ElfHeader): Result<seq<SectionHeader>, Error>
  {
    SectionHeaderTable(file, header.sectionHeadersOffset, header.sectionHeaderSize,
                       header.sectionHeaderCount)
  }

  /** `n` records of `step` bytes from `base`; a negative count fails the
      array allocation. */
  function SectionHeaderTable(file: seq<bv8>, base: Int32, step: Int32, n: Int32): Result<seq<SectionHeader>, Error>
  {
    if n < 0 then Failure(NegativeArraySize)
    else
      var t :- TableUpTo(SectionHeaderReader(file), base, step, n);
      Success(t.records)
  }

  /** A turn of readAllSectionHeaders appends the header at the cursor and
      moves the cursor on... */
  lemma SectionHeaderNext(file: seq<bv8>, base: Int32, step: Int32, i: nat, t: Table<SectionHeader>)
    requires TableUpTo(SectionHeaderReader(file), base, step, i) == Success(t)
    requires SectionHeaderAt(file, t.cursor).Success?
    ensures TableUpTo(SectionHeaderReader(file), base, step, i + 1)
      == Success(Table(t.records + [SectionHeaderAt(file, t.cursor).value], Add(t.cursor, step)))
  {
    TableStep(SectionHeaderReader(file), base, step, i, t);
    assert SectionHeaderReader(file)(t.cursor, i) == SectionHeaderAt(file, t.cursor);
  }

  /** ...and the first header that cannot be read is the error of the table. */
  lemma SectionHeaderStops(file: seq<bv8>, base: Int32, step: Int32, i: nat, n: nat, t: Table<SectionHeader>)
    requires i < n && TableUpTo(SectionHeaderReader(file), base, step, i) == Success(t)
    requires SectionHeaderAt(file, t.cursor).Failure?
    ensures TableUpTo(SectionHeaderReader(file), base, step, n) == Failure(SectionHeaderAt(file, t.cursor).error)
  {
    TableStep(SectionHeaderReader(file), base, step, i, t);
    assert SectionHeaderReader(file)(t.cursor, i) == SectionHeaderAt(file, t.cursor);
    TableFailureStays(SectionHeaderReader(file), base, step, i + 1, n);
  }

  /** readAllSectionHeaders fails with the first header that fails... */
  lemma SectionHeadersFail(file: seq<bv8>, header: ElfHeader, e: Error)
    requires header.sectionHeaderCount >= 0
    requires TableUpTo(SectionHeaderReader(file), header.sectionHeadersOffset, header.sectionHeaderSize,
                       header.sectionHeaderCount) == Failure(e)
    ensures SectionHeaders(file, header) == Failure(e)
  {}

  /** ...or holds every header read. */
  lemma SectionHeadersDone(file: seq<bv8>, header: ElfHeader, t: Table<SectionHeader>)
    requires header.sectionHeaderCount >= 0
    requires TableUpTo(SectionHeaderReader(file), header.sectionHeadersOffset, header.sectionHeaderSize,
                       header.sectionHeaderCount) == Success(t)
    ensures SectionHeaders(file, header) == Success(t.records)
  {}

  /** The table has e_shnum records; record `k` is the section header at
      e_shoff + k·e_shentsize (as Java `int`s). */
  lemma SectionHeadersRecords(file: seq<bv8>, header: ElfHeader)
    requires SectionHeaders(file, header).Success?
    ensures var hs := SectionHeaders(file, header).value;
      var base := header.sectionHeadersOffset;
      var step := header.sectionHeaderSize;
      |hs| == header.sectionHeaderCount
      && forall k :: 0 <= k < |hs| ==> SectionHeaderAt(file, RecordPosition(base, step, k)) == Success(hs[k])
  {
    TableRecords(SectionHeaderReader(file), header.sectionHeadersOffset,
                 header.sectionHeaderSize, header.sectionHeaderCount);
  }

  // ---------------------------------------------------------------------
  // Section selection

  /** SHT_SYMTAB. */
  predicate IsSymtab(h: SectionHeader)
  {
    h.sectionType == 2
  }

  /** SHT_PROGBITS with exactly SHF_ALLOC | SHF_EXECINSTR: the code section. */
  predicate IsText(h: SectionHeader)
  {
    h.sectionType == 1 && h.flags == 2 + 4
  }

  datatype Selection = Selection(symtab: Option<SectionHeader>, text: Option<SectionHeader>)

  /** The selection loop of parse after its first `n` turns: a later match
      replaces an earlier one. */
  function SelectUpTo(headers: seq<SectionHeader>, n: nat): Selection
    requires n <= |headers|
  {
    if n == 0 then Selection(None, None)
    else
      var s := SelectUpTo(headers, n - 1);
      var h := headers[n - 1];
      Selection(if IsSymtab(h) then Some(h) else s.symtab, if IsText(h) then Some(h) else s.text)
  }

  /** The symbol table chosen is the last SHT_SYMTAB header, and there is one
      exactly when some header is SHT_SYMTAB; likewise for the code section. */
  lemma {:induction false} SelectLast(headers: seq<SectionHeader>, n: nat)
    requires n <= |headers|
    ensures SelectUpTo(headers, n).symtab.Some? <==> exists k :: 0 <= k < n && IsSymtab(headers[k])
    ensures SelectUpTo(headers, n).text.Some? <==> exists k :: 0 <= k < n && IsText(headers[k])
    ensures SelectUpTo(headers, n).symtab.Some? ==>
      (exists k :: 0 <= k < n && SelectUpTo(headers, n).symtab.value == headers[k] && IsSymtab(headers[k])
                   && forall j :: k < j < n ==> !IsSymtab(headers[j]))
    ensures SelectUpTo(headers, n).text.Some? ==>
      (exists k :: 0 <= k < n && SelectUpTo(headers, n).text.value == headers[k] && IsText(headers[k])
                   && forall j :: k < j < n ==> !IsText(headers[j]))
  {
    if n > 0 {
      SelectLast(headers, n - 1);
      var s := SelectUpTo(headers, n);
      if IsSymtab(headers[n - 1]) {
        assert s.symtab.value == headers[n - 1];
      } else if s.symtab.Some? {
        var k :| 0 <= k < n - 1 && s.symtab.value == headers[k] && IsSymtab(headers[k])
          && forall j :: k < j < n - 1 ==> !IsSymtab(headers[j]);
        assert forall j :: k < j < n ==> !IsSymtab(headers[j]);
      }
      if IsText(headers[n - 1]) {
        assert s.text.value == headers[n - 1];
      } else if s.text.Some? {
        var k :| 0 <= k < n - 1 && s.text.value == headers[k] && IsText(headers[k])
          && forall j :: k < j < n - 1 ==> !IsText(headers[j]);
        assert forall j :: k < j < n ==> !IsText(headers[j]);
      }
    }
  }

  // ---------------------------------------------------------------------
  // String tables

  /** `(char)` of a Java `byte`: the byte sign-extended to a 16-bit code unit. */
  function CharOf(b: bv8): (c: char)
    ensures b != 0 ==> c != 0 as char
  {
    if b < 0x80 then b as int as char else (0xFF00 + b as int) as char
  }

  /** The loop of getStringFromStringTable from file position `p`: characters
      up to the first NUL; running off either end of the file throws. */
  function StringFrom(file: seq<bv8>, p: int): Result<string, Error>
    decreases |file| - p
  {
    if p < 0 || p >= |file| then Failure(IndexOutOfBounds)
    else if file[p] == 0 then Success([])
    else
      var rest :- StringFrom(file, p + 1);
      Success([CharOf(file[p])] + rest)
  }

  /** getStringFromStringTable: the name at `index` in the table, after
      asserting `index < sh_size` (as Java `int`s, so a negative index passes). */
  function GetString(file: seq<bv8>, index: Int32, table: SectionHeader): Result<string, Error>
  {
    if !(index < table.size) then
      Failure(AssertionFailed(BadStringIndex(index, table.size)))
    else StringFrom(file, Add(index, table.offset))
  }

  /** A name read is the characters of the bytes before the first NUL. */
  lemma {:induction false} StringFromContents(file: seq<bv8>, p: int)
    requires StringFrom(file, p).Success?
    ensures var s := StringFrom(file, p).value;
      0 <= p && p + |s| < |file| && file[p + |s|] == 0
      && forall q :: p <= q < p + |s| ==> file[q] != 0 && s[q - p] == CharOf(file[q])
    decreases |file| - p
  {
    if file[p] != 0 {
      StringFromContents(file, p + 1);
      var rest := StringFrom(file, p + 1).value;
      var s := StringFrom(file, p).value;
      assert s == [CharOf(file[p])] + rest;
      forall q | p < q < p + |s|
        ensures s[q - p] == CharOf(file[q])
      {
        assert s[q - p] == rest[q - (p + 1)];
      }
    }
  }

  /** A name is read whenever a NUL follows its start inside the file. */
  lemma {:induction false} StringFromTerminated(file: seq<bv8>, p: int, q: int)
    requires 0 <= p <= q < |file| && file[q] == 0
    ensures StringFrom(file, p).Success?
    decreases q - p
  {
    if file[p] != 0 {
      StringFromTerminated(file, p + 1, q);
    }
  }

  /** No name holds a NUL character. */
  lemma NameHasNoNul(file: seq<bv8>, index: Int32, table: SectionHeader)
    requires GetString(file, index, table).Success?
    ensures index < table.size
    ensures 0 as char !in GetString(file, index, table).value
  {
    var p := Add(index, table.offset);
    StringFromContents(file, p);
    var s := StringFrom(file, p).value;
    forall i | 0 <= i < |s|
      ensures s[i] != 0 as char
    {
      assert s[(p + i) - p] == CharOf(file[p + i]);
    }
  }

  // ---------------------------------------------------------------------
  // Symbols

  /** readSymbol: st_name, st_value, st_size, then st_info and st_other as Java
      `byte`s, then the two-byte st_shndx. */
  function SymbolAt(file: seq<bv8>, pos: Int32, index: int): Result<Symbol, Error>
  {
    var name :- ReadInt(file, pos, 4);
    var value :- ReadInt(file, Add(pos, 4), 4);
    var size :- ReadInt(file, Add(pos, 8), 4);
    var info :- Take(file, Add(pos, 12));
    var other :- Take(file, Add(pos, 13));
    var shndx :- ReadInt(file, Add(pos, 14), 2);
    Success(Symbol(index, name, value, size, SignedByte(info), SignedByte(other), shndx))
  }

  /** The index is set after the record is read: it changes nothing else. */
  lemma SymbolAtIndex(file: seq<bv8>, pos: Int32, index: int)
    ensures SymbolAt(file, pos, index).Success? <==> SymbolAt(file, pos, 0).Success?
    ensures SymbolAt(file, pos, index).Success? ==>
      SymbolAt(file, pos, index).value == SymbolAt(file, pos, 0).value.(symbolIndex := index)
    ensures SymbolAt(file, pos, index).Failure? ==> SymbolAt(file, pos, index) == SymbolAt(file, pos, 0)
  {}

  /** A symbol is read exactly when its 16 bytes lie inside the file, and its
      fields are the bytes of the record. */
  lemma SymbolAtFields(file: seq<bv8>, pos: Int32, index: int)
    requires ValidFile(file)
    ensures SymbolAt(file, pos, index).Success? <==> 0 <= pos && pos + 16 <= |file|
    ensures SymbolAt(file, pos, index).Success? ==>
      var s := SymbolAt(file, pos, index).value;
      s.symbolIndex == index
      && s.name == WordAt(file, pos) && s.value == WordAt(file, pos + 4) && s.size == WordAt(file, pos + 8)
      && s.info == SignedByte(file[pos + 12]) && s.other == SignedByte(file[pos + 13])
      && s.shndx == file[pos + 14] as int + 256 * file[pos + 15] as int
  {
    if 0 <= pos && pos + 16 <= |file| {
      SymbolAtInside(file, pos, index);
    } else {
      SymbolAtOutside(file, pos, index);
    }
  }

  lemma SymbolAtInside(file: seq<bv8>, pos: Int32, index: int)
    requires ValidFile(file) && 0 <= pos && pos + 16 <= |file|
    ensures SymbolAt(file, pos, index) == Success(Symbol(index, WordAt(file, pos), WordAt(file, pos + 4),
      WordAt(file, pos + 8), SignedByte(file[pos + 12]), SignedByte(file[pos + 13]),
      file[pos + 14] as int + 256 * file[pos + 15] as int))
  {
    assert Add(pos, 4) == pos + 4 && Add(pos, 8) == pos + 8;
    assert Add(pos, 12) == pos + 12 && Add(pos, 13) == pos + 13 && Add(pos, 14) == pos + 14;
    ReadIntAt(file, pos, 4);
    ReadIntAt(file, pos + 4, 4);
    ReadIntAt(file, pos + 8, 4);
    ReadIntAt(file, pos + 14, 2);
    TwoBytesBelow(file[pos + 14..pos + 16]);
  }

  lemma SymbolAtOutside(file: seq<bv8>, pos: Int32, index: int)
    requires ValidFile(file) && !(0 <= pos && pos + 16 <= |file|)
    ensures SymbolAt(file, pos, index).Failure?
  {
    ReadIntAt(file, pos, 4);
    ReadIntAt(file, Add(pos, 4), 4);
    ReadIntAt(file, Add(pos, 8), 4);
    ReadIntAt(file, Add(pos, 14), 2);
  }

  /** The symbol count: Java's `sh_size / sh_entsize`, truncating toward zero
      (and wrapping for MIN_VALUE / -1), which throws on a zero divisor; a
      negative count fails the array allocation. */
  function SymbolCount(size: Int32, step: Int32): Result<nat, Error>
  {
    if step == 0 then Failure(DivisionByZero)
    else
      var q := JavaDiv(size, step);
      var count: int := if q > IntMax then q - 0x1_0000_0000 else q;
      if count < 0 then Failure(NegativeArraySize) else Success(count)
  }

  /** Java's integer division, rounding toward zero. */
  function JavaDiv(a: int, b: int): int
    requires b != 0
  {
    var q := Abs(a) / Abs(b);
    if (a < 0) == (b < 0) then q else -q
  }

  function Abs(x: int): nat
  {
    if x < 0 then -x else x
  }

  /** Java's quotient leaves the remainder Java's `%` defines: smaller than
      the divisor in magnitude, and zero or of the dividend's sign. */
  lemma JavaDivTruncates(a: int, b: int)
    requires b != 0
    ensures var rem := a - JavaDiv(a, b) * b;
      Abs(rem) < Abs(b) && (rem == 0 || (rem < 0) == (a < 0))
  {
    var q := Abs(a) / Abs(b);
    var m := Abs(a) % Abs(b);
    assert Abs(a) == q * Abs(b) + m && 0 <= m < Abs(b);
    if b < 0 {
      assert q * b == -(q * Abs(b));
    }
  }

  /** The count is the number of whole records, rounded toward zero. */
  lemma SymbolCountValue(size: Int32, step: Int32)
    requires size >= 0 && step > 0
    ensures SymbolCount(size, step).Success?
    ensures SymbolCount(size, step).value * step <= size < (SymbolCount(size, step).value + 1) * step
  {
    var q: int := size / step;
    var r: int := size % step;
    assert size == q * step + r && 0 <= r < step;
    assert (q + 1) * step == q * step + step;
    DivAtMost(size, step);
    assert JavaDiv(size, step) == q;
  }

  lemma DivAtMost(a: nat, b: nat)
    requires b > 0
    ensures a / b <= a
  {
    var q := a / b;
    assert a == q * b + a % b;
    MulAtLeast(q, b);
  }

  lemma MulAtLeast(q: nat, b: nat)
    requires b > 0
    ensures q <= q * b
  {
    assert q * b == q * (b - 1) + q;
  }

  /** A zero entry size throws, and a size and entry size of opposite signs
      give a negative count. */
  lemma SymbolCountFails(size: Int32, step: Int32)
    ensures step == 0 ==> SymbolCount(size, step) == Failure(DivisionByZero)
    ensures 0 < step <= -(size as int) ==> SymbolCount(size, step) == Failure(NegativeArraySize)
    ensures 0 < -(step as int) <= size ==> SymbolCount(size, step) == Failure(NegativeArraySize)
    ensures 0 <= size && 0 < step ==> SymbolCount(size, step).Success?
  {
    if 0 < step <= -(size as int) {
      DivPositive(-(size as int), step);
    } else if 0 < -(step as int) <= size {
      DivPositive(size, -(step as int));
    } else if 0 <= size && 0 < step {
      SymbolCountValue(size, step);
    }
  }

  lemma DivPositive(a: int, b: int)
    requires 0 < b <= a
    ensures a / b >= 1
  {
    assert a == (a / b) * b + a % b;
  }

  /** A function symbol: STT_FUNC. */
  predicate IsFunction(s: Symbol)
  {
    Type(s.info) == 2
  }

  /** One turn of readSymtab's loop: the symbol, and for a function symbol the
      name the string table holds for it. */
  datatype SymbolEntry = SymbolEntry(symbol: Symbol, name: Option<string>)

  function SymbolTurn(file: seq<bv8>, strtab: SectionHeader, pos: Int32, i: nat): Result<SymbolEntry, Error>
  {
    var s :- SymbolAt(file, pos, i);
    if IsFunction(s) then
      var name :- GetString(file, s.name, strtab);
      Success(SymbolEntry(s, Some(name)))
    else Success(SymbolEntry(s, None))
  }

  function SymbolReader(file: seq<bv8>, strtab: SectionHeader): (Int32, nat) -> Result<SymbolEntry, Error>
  {
    (pos: Int32, i: nat) => SymbolTurn(file, strtab, pos, i)
  }

  /** The turn of a symbol that cannot be read fails with the read's error... */
  lemma SymbolTurnFails(file: seq<bv8>, strtab: SectionHeader, pos: Int32, i: nat)
    requires SymbolAt(file, pos, 0).Failure?
    ensures SymbolTurn(file, strtab, pos, i) == Failure(SymbolAt(file, pos, 0).error)
  {
    SymbolAtIndex(file, pos, i);
  }

  /** ...that of any other symbol is the symbol numbered `i`, unnamed... */
  lemma SymbolTurnPlain(file: seq<bv8>, strtab: SectionHeader, pos: Int32, i: nat, s: Symbol)
    requires SymbolAt(file, pos, 0) == Success(s) && !IsFunction(s)
    ensures SymbolTurn(file, strtab, pos, i) == Success(SymbolEntry(s.(symbolIndex := i), None))
  {
    SymbolAtIndex(file, pos, i);
  }

  /** ...unless it is a function symbol, named from the string table. */
  lemma SymbolTurnNamed(file: seq<bv8>, strtab: SectionHeader, pos: Int32, i: nat, s: Symbol)
    requires SymbolAt(file, pos, 0) == Success(s) && IsFunction(s)
    ensures var name := GetString(file, s.name, strtab);
      (name.Success? ==> SymbolTurn(file, strtab, pos, i) == Success(SymbolEntry(s.(symbolIndex := i), Some(name.value))))
      && (name.Failure? ==> SymbolTurn(file, strtab, pos, i) == Failure(name.error))
  {
    SymbolAtIndex(file, pos, i);
  }

  /** One turn of readSymtab's loop adds its entry, moving the cursor on... */
  lemma SymtabNext(file: seq<bv8>, strtab: SectionHeader, base: Int32, step: Int32, i: nat,
                   t: Table<SymbolEntry>, entry: SymbolEntry)
    requires TableUpTo(SymbolReader(file, strtab), base, step, i) == Success(t)
    requires SymbolTurn(file, strtab, t.cursor, i) == Success(entry)
    ensures TableUpTo(SymbolReader(file, strtab), base, step, i + 1)
      == Success(Table(t.records + [entry], Add(t.cursor, step)))
  {
    TableStep(SymbolReader(file, strtab), base, step, i, t);
    assert SymbolReader(file, strtab)(t.cursor, i) == SymbolTurn(file, strtab, t.cursor, i);
  }

  /** ...and a turn that fails is the error of the whole table. */
  lemma SymtabStops(file: seq<bv8>, strtab: SectionHeader, base: Int32, step: Int32, i: nat, n: nat,
                    t: Table<SymbolEntry>, e: Error)
    requires i < n && TableUpTo(SymbolReader(file, strtab), base, step, i) == Success(t)
    requires SymbolTurn(file, strtab, t.cursor, i) == Failure(e)
    ensures TableUpTo(SymbolReader(file, strtab), base, step, n) == Failure(e)
  {
    TableStep(SymbolReader(file, strtab), base, step, i, t);
    assert SymbolReader(file, strtab)(t.cursor, i) == SymbolTurn(file, strtab, t.cursor, i);
    TableFailureStays(SymbolReader(file, strtab), base, step, i + 1, n);
  }

  /** A turn numbers its symbol and looks up a name exactly for a function symbol. */
  lemma SymbolTurnEntry(file: seq<bv8>, strtab: SectionHeader, pos: Int32, i: nat)
    requires SymbolTurn(file, strtab, pos, i).Success?
    ensures var e := SymbolTurn(file, strtab, pos, i).value;
      SymbolAt(file, pos, i) == Success(e.symbol) && e.symbol.symbolIndex == i
      && (e.name.Some? <==> IsFunction(e.symbol))
      && (e.name.Some? ==> GetString(file, e.symbol.name, strtab) == Success(e.name.value))
  {}

  /** The puts of readSymtab: each named entry maps its symbol's value to the
      name, in order, so a later entry at the same value overwrites. */
  function TagsAfter(tags: map<int, string>, entries: seq<SymbolEntry>): map<int, string>
  {
    if entries == [] then tags
    else
      var t := TagsAfter(tags, entries[..|entries| - 1]);
      var e := entries[|entries| - 1];
      if e.name.Some? then t[Unsigned(e.symbol.value) := e.name.value] else t
  }

  lemma TagsAfterStep(tags: map<int, string>, entries: seq<SymbolEntry>)
    requires entries != []
    ensures var t := TagsAfter(tags, entries[..|entries| - 1]);
      var e := entries[|entries| - 1];
      TagsAfter(tags, entries) == if e.name.Some? then t[Unsigned(e.symbol.value) := e.name.value] else t
  {}

  /** One more turn of readSymtab puts its name, if it has one. */
  lemma TagsAfterAppend(tags: map<int, string>, entries: seq<SymbolEntry>, e: SymbolEntry)
    ensures TagsAfter(tags, entries + [e])
      == if e.name.Some? then TagsAfter(tags, entries)[Unsigned(e.symbol.value) := e.name.value] else TagsAfter(tags, entries)
  {
    assert (entries + [e])[..|entries|] == entries;
  }

  /** Whether a named entry has value `key`. */
  predicate NamedAt(entries: seq<SymbolEntry>, key: int)
  {
    exists k :: 0 <= k < |entries| && entries[k].name.Some? && Unsigned(entries[k].symbol.value) == key
  }

  /** Entry `k` is the last named entry with its value. */
  predicate LastNamed(entries: seq<SymbolEntry>, k: int)
    requires 0 <= k < |entries|
  {
    entries[k].name.Some?
    && forall j :: k < j < |entries| ==> !(entries[j].name.Some? && Unsigned(entries[j].symbol.value) == Unsigned(entries[k].symbol.value))
  }

  lemma NamedAtStep(entries: seq<SymbolEntry>, key: int)
    requires entries != []
    ensures var e := entries[|entries| - 1];
      NamedAt(entries, key) <==> NamedAt(entries[..|entries| - 1], key) || (e.name.Some? && Unsigned(e.symbol.value) == key)
  {
    var n := |entries|;
    var prev := entries[..n - 1];
    if NamedAt(entries, key) {
      var k :| 0 <= k < n && entries[k].name.Some? && Unsigned(entries[k].symbol.value) == key;
      if k < n - 1 {
        assert prev[k] == entries[k];
      }
    }
    if NamedAt(prev, key) {
      var k :| 0 <= k < n - 1 && prev[k].name.Some? && Unsigned(prev[k].symbol.value) == key;
      assert entries[k] == prev[k];
    }
  }

  /** The label map afterwards holds the old labels and the value of every named
      (function) symbol, no more; an address no named symbol has keeps its old
      label. */
  lemma {:induction false} TagsAfterKeys(tags: map<int, string>, entries: seq<SymbolEntry>)
    ensures forall key :: key in TagsAfter(tags, entries) <==> key in tags || NamedAt(entries, key)
    ensures forall key :: key in tags && !NamedAt(entries, key) ==> TagsAfter(tags, entries)[key] == tags[key]
  {
    if entries != [] {
      var prev := entries[..|entries| - 1];
      var e := entries[|entries| - 1];
      TagsAfterKeys(tags, prev);
      TagsAfterStep(tags, entries);
      forall key
        ensures key in TagsAfter(tags, entries) <==> key in tags || NamedAt(entries, key)
        ensures key in tags && !NamedAt(entries, key) ==> TagsAfter(tags, entries)[key] == tags[key]
      {
        NamedAtStep(entries, key);
        if !NamedAt(entries, key) {
          assert !(e.name.Some? && Unsigned(e.symbol.value) == key);
        }
      }
    }
  }

  /** The address of a named symbol is labelled with the name of the last named
      symbol at that address. */
  lemma {:induction false} TagsAfterLast(tags: map<int, string>, entries: seq<SymbolEntry>, k: nat)
    requires k < |entries| && LastNamed(entries, k)
    ensures Unsigned(entries[k].symbol.value) in TagsAfter(tags, entries)
    ensures TagsAfter(tags, entries)[Unsigned(entries[k].symbol.value)] == entries[k].name.value
  {
    var n := |entries|;
    TagsAfterStep(tags, entries);
    if k < n - 1 {
      var prev := entries[..n - 1];
      assert prev[k] == entries[k];
      forall j | k < j < n - 1
        ensures !(prev[j].name.Some? && Unsigned(prev[j].symbol.value) == Unsigned(prev[k].symbol.value))
      {
        assert prev[j] == entries[j];
      }
      TagsAfterLast(tags, prev, k);
      var e := entries[n - 1];
      assert !(e.name.Some? && Unsigned(e.symbol.value) == Unsigned(entries[k].symbol.value));
    }
  }

  /** What readSymtab returns, and the label map it leaves. */
  datatype SymtabState = SymtabState(entries: seq<SymbolEntry>, tags: map<int, string>)

  /** readSymtab: sh_size / sh_entsize symbols from sh_offset, function
      symbols labelling their value with their name. */
  function Symtab(file: seq<bv8>, symtab: SectionHeader, strtab: SectionHeader,
                  tags: map<int, string>): Result<SymtabState, Error>
  {
    var n :- SymbolCount(symtab.size, symtab.entrySize);
    var t :- TableUpTo(SymbolReader(file, strtab), symtab.offset, symtab.entrySize, n);
    Success(SymtabState(t.records, TagsAfter(tags, t.records)))
  }

  /** readSymtab fails with the first turn that fails... */
  lemma SymtabFails(file: seq<bv8>, symtab: SectionHeader, strtab: SectionHeader, tags: map<int, string>,
                    n: nat, e: Error)
    requires SymbolCount(symtab.size, symtab.entrySize) == Success(n)
    requires TableUpTo(SymbolReader(file, strtab), symtab.offset, symtab.entrySize, n) == Failure(e)
    ensures Symtab(file, symtab, strtab, tags) == Failure(e)
  {}

  /** ...or holds every turn's entry, and the label map their names make. */
  lemma SymtabDone(file: seq<bv8>, symtab: SectionHeader, strtab: SectionHeader, tags: map<int, string>,
                   n: nat, t: Table<SymbolEntry>)
    requires SymbolCount(symtab.size, symtab.entrySize) == Success(n)
    requires TableUpTo(SymbolReader(file, strtab), symtab.offset, symtab.entrySize, n) == Success(t)
    ensures Symtab(file, symtab, strtab, tags) == Success(SymtabState(t.records, TagsAfter(tags, t.records)))
  {}

  /** The symbols of a read symbol table. */
  function SymbolList(entries: seq<SymbolEntry>): (symbols: seq<Symbol>)
    ensures |symbols| == |entries|
  {
    if entries == [] then [] else SymbolList(entries[..|entries| - 1]) + [entries[|entries| - 1].symbol]
  }

  lemma SymbolListAppend(entries: seq<SymbolEntry>, e: SymbolEntry)
    ensures SymbolList(entries + [e]) == SymbolList(entries) + [e.symbol]
  {
    assert (entries + [e])[..|entries|] == entries;
  }

  /** There are sh_size / sh_entsize entries; entry `k` is the turn at
      sh_offset + k·sh_entsize. */
  lemma SymtabRecords(file: seq<bv8>, symtab: SectionHeader, strtab: SectionHeader, tags: map<int, string>)
    requires Symtab(file, symtab, strtab, tags).Success?
    ensures var st := Symtab(file, symtab, strtab, tags).value;
      var base := symtab.offset;
      var step := symtab.entrySize;
      SymbolCount(symtab.size, step) == Success(|st.entries|)
      && forall k :: 0 <= k < |st.entries| ==> SymbolTurn(file, strtab, RecordPosition(base, step, k), k) == Success(st.entries[k])
  {
    var n := SymbolCount(symtab.size, symtab.entrySize).value;
    TableRecords(SymbolReader(file, strtab), symtab.offset, symtab.entrySize, n);
  }

  /** Symbol `k` is the record at sh_offset + k·sh_entsize, numbered `k`, and
      it is named exactly when it is a function symbol. */
  lemma SymtabEntry(file: seq<bv8>, symtab: SectionHeader, strtab: SectionHeader, tags: map<int, string>, k: nat)
    requires Symtab(file, symtab, strtab, tags).Success?
    requires k < |Symtab(file, symtab, strtab, tags).value.entries|
    ensures var e := Symtab(file, symtab, strtab, tags).value.entries[k];
      SymbolAt(file, RecordPosition(symtab.offset, symtab.entrySize, k), k) == Success(e.symbol)
      && e.symbol.symbolIndex == k
      && (e.name.Some? <==> IsFunction(e.symbol))
      && (e.name.Some? ==> GetString(file, e.symbol.name, strtab) == Success(e.name.value))
  {
    SymtabRecords(file, symtab, strtab, tags);
    SymbolTurnEntry(file, strtab, RecordPosition(symtab.offset, symtab.entrySize, k), k);
  }
}
