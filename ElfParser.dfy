/** ElfParser.java as an object: the file's bytes, the label map `tags` that
    readSymtab and readText fill in, and the LOC counter of the generated
    labels. Each method works as the parser does, with its cursor and its
    loop, and is proved to compute the function of the file that specifies
    it; a failed `Assert.ensure` or a Java runtime exception is a `Failure`. */
module Parser {
  import opened Wrappers
  import opened Text
  import opened Symbols
  import Decoder
  import opened JavaInts
  import opened ElfFormat
  import opened ElfTables
  import opened ElfText
  import opened Listing
  import opened Commands

  /** Index and offset are Java `int`s: moving the index on by one moves their
      sum on by one. */
  lemma AddOneSwap(index: Int32, offset: Int32)
    ensures Add(Add(index, 1), offset) == Add(Add(index, offset), 1)
  {}

  /** getStringFromStringTable: the characters of the table from `index` up
      to the first NUL, after asserting `index < sh_size`. */
  method GetStringFromStringTable(index: Int32, stringTable: SectionHeader, file: seq<bv8>)
    returns (r: Result<string, Error>)
    requires ValidFile(file)
    ensures r == GetString(file, index, stringTable)
  {
    var size := stringTable.size;
    var offset := stringTable.offset;
    if !(index < size) {
      return Failure(AssertionFailed(BadStringIndex(index, size)));
    }
    var i: Int32 := index;
    var val: string := [];
    assert StringFrom(file, Add(index, offset)).Success? ==>
      [] + StringFrom(file, Add(index, offset)).value == StringFrom(file, Add(index, offset)).value;
    while true
      invariant StringFrom(file, Add(index, offset)) == Prepend(val, StringFrom(file, Add(i, offset)))
      decreases |file| - Add(i, offset)
    {
      var p := Add(i, offset);
      if p < 0 || p >= |file| {
        return Failure(IndexOutOfBounds);
      }
      if file[p] == 0 {
        assert val + [] == val;
        return Success(val);
      }
      var c := CharOf(file[p]);
      assert StringFrom(file, p) == Prepend([c], StringFrom(file, p + 1));
      assert StringFrom(file, p + 1).Success? ==>
        val + ([c] + StringFrom(file, p + 1).value) == (val + [c]) + StringFrom(file, p + 1).value;
      val := val + [CharOf(file[p])];
      AddOneSwap(i, offset);
      i := Add(i, 1);
      assert Add(i, offset) == p + 1;
    }
  }

  class ElfParser {
    const file: seq<bv8>
    var sectionHeaders: seq<SectionHeader>
    var tags: map<int, string>
    var loc: nat

    /** A parser for `file`, with no labels and the counter at zero. */
    constructor(file: seq<bv8>)
      ensures this.file == file && sectionHeaders == [] && tags == map[] && loc == 0
    {
      this.file := file;
      sectionHeaders := [];
      tags := map[];
      loc := 0;
    }

    /** littleEndianToInt: from the last byte down to the first, shift the
        `int` result left by a byte and OR the byte in. The shift leaves the
        low byte clear, so the OR adds the byte (ShiftInByte). */
    method LittleEndianToInt(number: seq<bv8>) returns (res: Int32)
      ensures res == LittleEndian(number)
    {
      res := 0;
      var i := |number|;
      while i > 0
        invariant 0 <= i <= |number|
        invariant res % 0x1_0000_0000 == LittleEndianSum(number[i..]) % 0x1_0000_0000
      {
        i := i - 1;
        assert number[i..][1..] == number[i + 1..];
        ShiftInByte(res, LittleEndianSum(number[i + 1..]), number[i]);
        res := Wrap(res * 256) + number[i] as int;
      }
      assert number[0..] == number;
      WrapSame(res, LittleEndianSum(number));
    }

    /** read4BytesAsInt. */
    method Read4BytesAsInt(pos: Int32) returns (r: Result<Int32, Error>)
      ensures r == ReadInt(file, pos, 4)
    {
      var number :- ReadSeq(file, pos, 4);
      var v := LittleEndianToInt(number);
      return Success(v);
    }

    /** read2BytesAsInt. */
    method Read2BytesAsInt(pos: Int32) returns (r: Result<Int32, Error>)
      ensures r == ReadInt(file, pos, 2)
    {
      var number :- ReadSeq(file, pos, 2);
      var v := LittleEndianToInt(number);
      return Success(v);
    }

    /** ensureBlock: each expected byte compared, in order, with the byte at
        pos + j; the first mismatch fails. */
    method EnsureBlock(pos: Int32, block: seq<int>) returns (r: Result<bool, Error>)
      requires |block| <= IntMax
      ensures r == EnsureBlockFrom(file, pos, block, 0)
    {
      var j: nat := 0;
      while j < |block|
        invariant j <= |block|
        invariant EnsureBlockFrom(file, pos, block, 0) == EnsureBlockFrom(file, pos, block, j)
      {
        var b :- Take(file, Add(pos, j));
        if block[j] != SignedByte(b) {
          return Failure(AssertionFailed(ByteMismatch(Add(Add(pos, j), 1), block[j], SignedByte(b))));
        }
        j := j + 1;
      }
      return Success(true);
    }

    /** readElfHeader: the fields at their offsets, the cursor moving on past
        each, and the checks in order. The parser keeps the fields in the
        static ElfHeader class; here they are the result. */
    method ReadElfHeader() returns (r: Result<ElfHeader, Error>)
      ensures r == ElfHeaderOf(file)
    {
      var pos: Int32 := 0;
      var magic :- EnsureBlock(0, Magic);
      pos := pos + 4;
      var eiClass :- Take(file, pos);
      pos := pos + 1;
      if eiClass != 1 {
        return Failure(AssertionFailed(Not32Bit));
      }
      var eiData :- Take(file, pos);
      pos := pos + 1;
      if eiData != 1 {
        return Failure(AssertionFailed(NotLittleEndian));
      }
      // ensureBlock(0x01) checks an empty block at position 1: it cannot fail.
      var version := EnsureBlock(0x01, []);
      assert version.Success?;
      pos := pos + 1;
      var eiOsAbi :- Take(file, pos);
      pos := pos + 1;
      var eiAbiVersion :- Take(file, pos);
      pos := pos + 1;
      var padding :- ReadSeq(file, pos, 7);
      pos := pos + 7;
      assert ElfHeaderOf(file) == HeaderFieldsOf(file, eiClass, eiData, eiOsAbi, eiAbiVersion);
      var eType :- Read2BytesAsInt(pos);
      pos := pos + 2;
      var eMachine :- Read2BytesAsInt(pos);
      pos := pos + 2;
      if eMachine != 0xf3 {
        return Failure(AssertionFailed(NotRiscV));
      }
      var eVersion :- Read4BytesAsInt(pos);
      if eVersion != 1 {
        return Failure(AssertionFailed(BadFormatVersion));
      }
      pos := pos + 4;
      var eEntry :- Read4BytesAsInt(pos);
      pos := pos + 4;
      var phoff :- Read4BytesAsInt(pos);
      pos := pos + 4;
      var shoff :- Read4BytesAsInt(pos);
      pos := pos + 4;
      var eFlags :- Read4BytesAsInt(pos);
      pos := pos + 4;
      var ehsize :- Read2BytesAsInt(pos);
      pos := pos + 2;
      var phentsize :- Read2BytesAsInt(pos);
      pos := pos + 2;
      var phnum :- Read2BytesAsInt(pos);
      pos := pos + 2;
      var shentsize :- Read2BytesAsInt(pos);
      pos := pos + 2;
      var shnum :- Read2BytesAsInt(pos);
      pos := pos + 2;
      var shstrndx :- Read2BytesAsInt(pos);
      return Success(ElfHeader(eiClass, eiData, eiOsAbi, eiAbiVersion, eType, eMachine, eEntry,
                               phoff, shoff, eFlags, ehsize, phentsize, phnum, shentsize, shnum, shstrndx));
    }

    /** readSectionHeader: ten four-byte words, the cursor moving on by four
        after each. */
    method ReadSectionHeader(pos: Int32) returns (r: Result<SectionHeader, Error>)
      ensures r == SectionHeaderAt(file, pos)
    {
      var p := pos;
      var name :- Read4BytesAsInt(p);
      p := Add(p, 4);
      var sectionType :- Read4BytesAsInt(p);
      AddTwice(pos, 4, 4);
      p := Add(p, 4);
      var flags :- Read4BytesAsInt(p);
      AddTwice(pos, 8, 4);
      p := Add(p, 4);
      var address :- Read4BytesAsInt(p);
      AddTwice(pos, 12, 4);
      p := Add(p, 4);
      var offset :- Read4BytesAsInt(p);
      AddTwice(pos, 16, 4);
      p := Add(p, 4);
      var size :- Read4BytesAsInt(p);
      AddTwice(pos, 20, 4);
      p := Add(p, 4);
      var link :- Read4BytesAsInt(p);
      AddTwice(pos, 24, 4);
      p := Add(p, 4);
      var info :- Read4BytesAsInt(p);
      AddTwice(pos, 28, 4);
      p := Add(p, 4);
      var addressAlign :- Read4BytesAsInt(p);
      AddTwice(pos, 32, 4);
      p := Add(p, 4);
      var entrySize :- Read4BytesAsInt(p);
      return Success(SectionHeader(name, sectionType, flags, address, offset, size, link, info, addressAlign, entrySize));
    }

    method ReadAllSectionHeaders(header: ElfHeader) returns (r: Result<seq<SectionHeader>, Error>)
      ensures r == SectionHeaders(file, header)
    {
      var pos := header.sectionHeadersOffset;
      var step := header.sectionHeaderSize;
      var n := header.sectionHeaderCount;
      if n < 0 {
        return Failure(NegativeArraySize);
      }
      ghost var base := pos;
      var headers: seq<SectionHeader> := [];
      var i := 0;
      while i < n
        invariant 0 <= i <= n
        invariant TableUpTo(SectionHeaderReader(file), base, step, i) == Success(Table(headers, pos))
      {
        var h := ReadSectionHeader(pos);
        if h.Failure? {
          SectionHeaderStops(file, base, step, i, n, Table(headers, pos));
          SectionHeadersFail(file, header, h.error);
          return Failure(h.error);
        }
        SectionHeaderNext(file, base, step, i, Table(headers, pos));
        headers := headers + [h.value];
        pos := Add(pos, step);
        i := i + 1;
      }
      SectionHeadersDone(file, header, Table(headers, pos));
      return Success(headers);
    }

    /** readSymbol: st_name, st_value and st_size, then st_info and st_other
        one byte each, then the two-byte st_shndx; the symbol's index is
        still 0. */
    method ReadSymbol(pos: Int32) returns (r: Result<Symbol, Error>)
      ensures r == SymbolAt(file, pos, 0)
    {
      var p := pos;
      var name :- Read4BytesAsInt(p);
      p := Add(p, 4);
      var value :- Read4BytesAsInt(p);
      AddTwice(pos, 4, 4);
      p := Add(p, 4);
      var size :- Read4BytesAsInt(p);
      AddTwice(pos, 8, 4);
      p := Add(p, 4);
      var info :- Take(file, p);
      AddTwice(pos, 12, 1);
      p := Add(p, 1);
      var other :- Take(file, p);
      AddTwice(pos, 13, 1);
      p := Add(p, 1);
      var shndx :- Read2BytesAsInt(p);
      return Success(Symbol(0, name, value, size, SignedByte(info), SignedByte(other), shndx));
    }

    /** One turn of readSymtab's loop: the symbol at `pos`, numbered `i`, and
        for a function symbol (type 2) its name from the string table. */
    method ReadSymbolTurn(pos: Int32, i: nat, stringTable: SectionHeader) returns (r: Result<SymbolEntry, Error>)
      requires ValidFile(file)
      ensures r == SymbolTurn(file, stringTable, pos, i)
    {
      var s := ReadSymbol(pos);
      if s.Failure? {
        SymbolTurnFails(file, stringTable, pos, i);
        return Failure(s.error);
      }
      var symbol := s.value.(symbolIndex := i);
      if Type(symbol.info) == 2 {
        SymbolTurnNamed(file, stringTable, pos, i, s.value);
        var name :- GetStringFromStringTable(symbol.name, stringTable, file);
        return Success(SymbolEntry(symbol, Some(name)));
      }
      SymbolTurnPlain(file, stringTable, pos, i, s.value);
      return Success(SymbolEntry(symbol, None));
    }

    /** The loop of readSymtab: sh_size / sh_entsize symbols from sh_offset,
        each numbered by its turn; a function symbol labels its value with its
        name from the string table, in the label map that starts as `start`.
        The symbols and the labels are those of the symbol table read from the
        file; on a failure, `labels` holds the puts made before it. */
    method ReadSymbols(symtab: SectionHeader, stringTable: SectionHeader, start: map<int, string>)
      returns (r: Result<seq<Symbol>, Error>, labels: map<int, string>)
      requires ValidFile(file)
      ensures var st := Symtab(file, symtab, stringTable, start);
        (r.Success? <==> st.Success?)
        && (r.Success? ==> r.value == SymbolList(st.value.entries) && labels == st.value.tags)
        && (r.Failure? ==> st == Failure(r.error))
    {
      labels := start;
      var index := symtab.offset;
      var step := symtab.entrySize;
      var count := SymbolCount(symtab.size, step);
      if count.Failure? {
        return Failure(count.error), labels;
      }
      var n := count.value;
      ghost var base := index;
      ghost var entries: seq<SymbolEntry> := [];
      var res: seq<Symbol> := [];
      var i := 0;
      while i < n
        invariant 0 <= i <= n
        invariant TableUpTo(SymbolReader(file, stringTable), base, step, i) == Success(Table(entries, index))
        invariant labels == TagsAfter(start, entries) && res == SymbolList(entries)
      {
        ghost var t := Table(entries, index);
        var turn := ReadSymbolTurn(index, i, stringTable);
        if turn.Failure? {
          SymtabStops(file, stringTable, base, step, i, n, t, turn.error);
          SymtabFails(file, symtab, stringTable, start, n, turn.error);
          return Failure(turn.error), labels;
        }
        var entry := turn.value;
        if entry.name.Some? {
          labels := labels[Unsigned(entry.symbol.value) := entry.name.value];
        }
        SymtabNext(file, stringTable, base, step, i, t, entry);
        TagsAfterAppend(start, entries, entry);
        SymbolListAppend(entries, entry);
        entries := entries + [entry];
        res := res + [entry.symbol];
        index := Add(index, step);
        i := i + 1;
      }
      SymtabDone(file, symtab, stringTable, start, n, Table(entries, index));
      return Success(res), labels;
    }

    /** readSymtab: the loop above run on the parser's label map, which it
        then holds the new labels. */
    method ReadSymtab(symtab: SectionHeader, stringTable: SectionHeader) returns (r: Result<seq<Symbol>, Error>)
      requires ValidFile(file)
      modifies this
      ensures var st := Symtab(file, symtab, stringTable, old(tags));
        (r.Success? <==> st.Success?)
        && (r.Success? ==> r.value == SymbolList(st.value.entries) && tags == st.value.tags)
        && (r.Failure? ==> st == Failure(r.error))
      ensures sectionHeaders == old(sectionHeaders) && loc == old(loc)
    {
      var labels;
      r, labels := ReadSymbols(symtab, stringTable, tags);
      tags := labels;
    }

    /** The read step of readText's loop at `pos`: `take(pos) & 0x3` names
        the kind, then four bytes are read for RV32 and two otherwise. */
    method FetchWord(pos: Int32) returns (r: Result<Fetch, Error>)
      ensures r == FetchAt(file, pos)
    {
      var b :- Take(file, pos);
      IsaInstructionTypeOfByte(b);
      if Decoder.IsaInstructionType((b & 3) as int).value == Decoder.Rv32 {
        var inst :- Read4BytesAsInt(pos);
        return Success(Fetch(inst, true));
      } else {
        var inst :- Read2BytesAsInt(pos);
        return Success(Fetch(inst, false));
      }
    }

    /** The label step of readText's loop: the jump target of the word, if
        it has one and it has no label yet, is labelled LOC_ of the counter,
        which moves on. */
    static method NextLabels(labels: Labels, w: Word) returns (r: Labels)
      ensures r == LabelStep(labels, JumpKey(w))
    {
      r := labels;
      var jmp := Decoder.JumpAddress(w.inst, w.address);
      if jmp.Some? && jmp.value as int !in labels.tags {
        r := Labels(labels.tags[jmp.value as int := LocLabel(labels.loc)], labels.loc + 1);
      }
    }

    /** readText's loop: from sh_offset while the cursor is below
        sh_offset + sh_size, a word read as FetchWord says at the address,
        which moves on by the word's width, and the label step of its jump
        target. The words are those of the code section, and the labels have
        taken the label step of each, in order. */
    method ReadTextWords(text: SectionHeader, first: Labels) returns (r: Result<seq<Word>, Error>, labels: Labels)
      requires ValidFile(file)
      ensures r.Failure? ==> TextWords(file, text.offset, text.size, text.address) == Failure(r.error)
      ensures r.Success? ==>
        TextWords(file, text.offset, text.size, text.address) == Success(r.value)
        && labels == LabelAll(first, Jumps(r.value))
    {
      var pos: Int32 := text.offset;
      var end: Int32 := Add(text.offset, text.size);
      var address := IntBits(text.address);
      labels := first;
      ghost var fetched: seq<Fetch> := [];
      var words: seq<Word> := [];
      TextLoopStart(file, pos, end, address, first);
      while pos < end
        invariant TextLoop(file, text.offset, end, IntBits(text.address), first, pos, address, fetched, words, labels)
        decreases |file| - pos
      {
        var fetch := FetchWord(pos);
        if fetch.Failure? {
          TextLoopFails(file, text.offset, text.size, text.address, first, pos, address, fetched, words, labels);
          return Failure(fetch.error), labels;
        }
        var f := fetch.value;
        TextLoopStep(file, text.offset, end, IntBits(text.address), first, pos, address, fetched, words, labels, f);
        var w := Word(IntBits(f.inst), address);
        words := words + [w];
        fetched := fetched + [f];
        pos := Add(pos, Width(f));
        address := Advance(address, f);
        labels := NextLabels(labels, w);
      }
      TextLoopDone(file, text.offset, text.size, text.address, first, pos, address, fetched, words, labels);
      return Success(words), labels;
    }

    /** A new command, with no label yet, for each word, in order. */
    static method NewCommands(words: seq<Word>) returns (cmds: seq<AsmCommand>)
      ensures WordsOf(cmds) == words && fresh(cmds)
      ensures forall k :: 0 <= k < |cmds| ==> cmds[k].tag == ""
    {
      cmds := [];
      for i := 0 to |words|
        invariant WordsOf(cmds) == words[..i] && fresh(cmds)
        invariant forall k :: 0 <= k < |cmds| ==> cmds[k].tag == ""
      {
        var cmd := new AsmCommand(words[i].inst, words[i].address);
        WordsOfAppend(cmds, cmd);
        assert words[..i + 1] == words[..i] + [words[i]];
        cmds := cmds + [cmd];
      }
    }

    /** readText: the commands for the words of the code section, and the
        label map and counter after the label step of each. */
    method ReadText(text: SectionHeader) returns (r: Result<seq<AsmCommand>, Error>)
      requires ValidFile(file)
      modifies this
      ensures var words := TextWords(file, text.offset, text.size, text.address);
        (r.Success? <==> words.Success?)
        && (r.Failure? ==> words == Failure(r.error))
        && (r.Success? ==>
              WordsOf(r.value) == words.value && fresh(r.value)
              && (forall k :: 0 <= k < |r.value| ==> r.value[k].tag == "")
              && Labels(tags, loc) == LabelAll(Labels(old(tags), old(loc)), Jumps(words.value)))
      ensures sectionHeaders == old(sectionHeaders)
    {
      var words, labels := ReadTextWords(text, Labels(tags, loc));
      tags, loc := labels.tags, labels.loc;
      if words.Failure? {
        return Failure(words.error);
      }
      var cmds := NewCommands(words.value);
      return Success(cmds);
    }

    /** The selection loop of parse: the last SHT_SYMTAB header is the symbol
        table, the last SHT_PROGBITS header with flags ALLOC | EXECINSTR the
        code section. */
    method SelectSections() returns (symtab: Option<SectionHeader>, textData: Option<SectionHeader>)
      ensures Selection(symtab, textData) == SelectUpTo(sectionHeaders, |sectionHeaders|)
    {
      symtab, textData := None, None;
      for i := 0 to |sectionHeaders|
        invariant Selection(symtab, textData) == SelectUpTo(sectionHeaders, i)
      {
        var header := sectionHeaders[i];
        if header.sectionType == 2 {
          symtab := Some(header);
        }
        if header.sectionType == 1 && header.flags == 2 + 4 {
          textData := Some(header);
        }
      }
    }

    /** The setTag loop of parse: each command gets the label of its address,
        or "". Two entries that are one object share an address, so they get
        the same label. */
    static method SetTags(text: seq<AsmCommand>, tags: map<int, string>)
      modifies text
      ensures forall k :: 0 <= k < |text| ==> text[k].tag == TagFor(tags, text[k].address)
    {
      for i := 0 to |text|
        invariant forall k :: 0 <= k < i ==> text[k].tag == TagFor(tags, text[k].address)
      {
        var tag := "";
        if text[i].address as int in tags {
          tag := tags[text[i].address as int];
        }
        text[i].SetTag(tag);
      }
    }

    /** The `.text` printing loop of parse: each command's toString with the
        final labels, which, once its tag is set, is the listing line of its
        word. */
    static method PrintLines(text: seq<AsmCommand>, tags: map<int, string>) returns (lines: seq<Line>)
      requires forall k :: 0 <= k < |text| ==> text[k].tag == TagFor(tags, text[k].address)
      ensures lines == Lines(WordsOf(text), tags)
    {
      ghost var words := WordsOf(text);
      lines := [];
      for i := 0 to |text|
        invariant lines == Lines(words[..i], tags)
      {
        var line := text[i].ToLine(tags);
        WordsOfAt(text, i);
        LinesStep(words, i, tags);
        lines := lines + [line];
      }
      assert words[..|text|] == words;
    }

    /** The `.symtab` printing loop of parse: each symbol's
        getStringRepresentation, its name looked up in the string table; an
        exception from the lookup ends the printing. */
    method PrintRows(symbols: seq<Symbol>, strtab: SectionHeader) returns (rows: Rows)
      requires ValidFile(file)
      ensures rows == RowsUpTo(file, strtab, symbols, |symbols|)
    {
      var printed: seq<SymbolRow> := [];
      for i := 0 to |symbols|
        invariant RowsUpTo(file, strtab, symbols, i) == Rows(printed, None)
      {
        var name := GetStringFromStringTable(symbols[i].name, strtab, file);
        RowsNext(file, strtab, symbols, i, printed);
        if name.Failure? {
          RowsStopped(file, strtab, symbols, i + 1, |symbols|);
          return Rows(printed, Some(name.error));
        }
        printed := printed + [Row(symbols[i], name.value)];
      }
      return Rows(printed, None);
    }

    /** parse, on a new parser: the header, rejected with its message if a
        check fails; the section headers; the symbol table and the code
        section chosen; the symbols read, then the code; each command's label
        set; then the listing and the symbol rows. A Java exception before
        the printing starts is a crash. */
    method Parse() returns (outcome: Outcome)
      requires ValidFile(file) && tags == map[] && loc == 0
      modifies this
      ensures outcome == Listing.Parse(file)
    {
      var header := ReadElfHeader();
      if header.Failure? {
        if header.error.AssertionFailed? {
          return Unsupported("Unsupported file\n" + MessageText(header.error.message));
        }
        return Crashed(header.error);
      }
      var headers := ReadAllSectionHeaders(header.value);
      if headers.Failure? {
        return Crashed(headers.error);
      }
      sectionHeaders := headers.value;
      outcome := ParseSections();
    }

    /** parse after the section headers are read, on a parser with no
        labels yet. */
    method ParseSections() returns (outcome: Outcome)
      requires ValidFile(file) && tags == map[] && loc == 0
      modifies this
      ensures outcome == Listing.ParseSections(file, old(sectionHeaders))
    {
      var symtab, textData := SelectSections();

      var symbols: seq<Symbol> := [];
      var strtab: SectionHeader;
      ghost var section: Option<SymbolSection> := None;
      if symtab.Some? {
        var link := symtab.value.link;
        if !(0 <= link < |sectionHeaders|) {
          return Crashed(IndexOutOfBounds);
        }
        strtab := sectionHeaders[link];
        var read := ReadSymtab(symtab.value, strtab);
        if read.Failure? {
          return Crashed(read.error);
        }
        symbols := read.value;
        section := Some(SymbolSection(strtab, Symtab(file, symtab.value, strtab, map[]).value));
      }
      assert SymbolsOf(file, sectionHeaders, symtab) == Success(section);

      var text: seq<AsmCommand> := [];
      if textData.Some? {
        var read := ReadText(textData.value);
        if read.Failure? {
          return Crashed(read.error);
        }
        text := read.value;
      }
      assert TextOf(file, textData) == Success(WordsOf(text));
      assert Labels(tags, loc) == FinalLabels(section, WordsOf(text));

      SetTags(text, tags);
      var lines := PrintLines(text, tags);
      var rows := Rows([], None);
      if symtab.Some? {
        rows := PrintRows(symbols, strtab);
      }
      return Printed(lines, rows);
    }
  }
}
