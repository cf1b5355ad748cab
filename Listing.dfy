/** What ElfParser.java's `parse` produces for a file: the `.text` listing,
    each instruction with its label and decoded form, and the `.symtab` rows,
    or the reason it stopped. The parser's methods are proved against these. */
module Listing {
  import opened Wrappers
  import opened Text
  import opened Symbols
  import opened Decoder
  import opened ElfFormat
  import opened ElfTables
  import opened ElfText

  /** One instruction of the `.text` listing: its address, the label printed
      before it ("" for none) and what it decodes to with the final labels. */
  datatype Line = Line(address: bv32, tag: string, decoded: Decoded)

  /** The setTag loop of parse: the label of `address`, or "" without one. */
  function TagFor(tags: map<int, string>, address: bv32): (tag: string)
    ensures address as int in tags ==> tag == tags[address as int]
    ensures address as int !in tags ==> tag == ""
  {
    match Lookup(tags, address)
    case Some(name) => name
    case None => ""
  }

  function LineOf(w: Word, tags: map<int, string>): Line
  {
    Line(w.address, TagFor(tags, w.address), Decode(w.inst, w.address, tags))
  }

  /** The `.text` listing of `words` once every label is in `tags`. */
  function Lines(words: seq<Word>, tags: map<int, string>): (lines: seq<Line>)
    ensures |lines| == |words|
  {
    if words == [] then [] else Lines(words[..|words| - 1], tags) + [LineOf(words[|words| - 1], tags)]
  }

  lemma {:induction false} LinesAt(words: seq<Word>, tags: map<int, string>, k: nat)
    requires k < |words|
    ensures Lines(words, tags)[k] == LineOf(words[k], tags)
  {
    var n := |words| - 1;
    if k < n {
      LinesAt(words[..n], tags, k);
      assert words[..n][k] == words[k];
    }
  }

  /** One more word adds its line at the end. */
  lemma LinesStep(words: seq<Word>, i: nat, tags: map<int, string>)
    requires i < |words|
    ensures Lines(words[..i + 1], tags) == Lines(words[..i], tags) + [LineOf(words[i], tags)]
  {
    assert words[..i + 1][..i] == words[..i];
  }

  /** The `.symtab` rows printed, and the failure that stopped the printing
      loop, if one did. */
  datatype Rows = Rows(rows: seq<SymbolRow>, stop: Option<Error>)

  /** The printing loop of parse after its first `n` turns: each symbol's row,
      its name looked up in the string table; a failed lookup ends the loop. */
  function RowsUpTo(file: seq<bv8>, strtab: SectionHeader, symbols: seq<Symbol>, n: nat): (r: Rows)
    requires n <= |symbols|
    ensures |r.rows| <= n
  {
    if n == 0 then Rows([], None)
    else
      var r := RowsUpTo(file, strtab, symbols, n - 1);
      if r.stop.Some? then r
      else
        var s := symbols[n - 1];
        match GetString(file, s.name, strtab)
        case Failure(e) => Rows(r.rows, Some(e))
        case Success(name) => Rows(r.rows + [Row(s, name)], None)
  }

  /** One more turn of the printing loop, while nothing has failed: the
      symbol's row when its name is found, else the failure. */
  lemma RowsNext(file: seq<bv8>, strtab: SectionHeader, symbols: seq<Symbol>, i: nat, printed: seq<SymbolRow>)
    requires i < |symbols| && RowsUpTo(file, strtab, symbols, i) == Rows(printed, None)
    ensures var name := GetString(file, symbols[i].name, strtab);
      RowsUpTo(file, strtab, symbols, i + 1)
        == if name.Success? then Rows(printed + [Row(symbols[i], name.value)], None) else Rows(printed, Some(name.error))
  {}

  /** Once a lookup has failed, later turns print nothing more. */
  lemma {:induction false} RowsStopped(file: seq<bv8>, strtab: SectionHeader, symbols: seq<Symbol>, i: nat, n: nat)
    requires i <= n <= |symbols| && RowsUpTo(file, strtab, symbols, i).stop.Some?
    ensures RowsUpTo(file, strtab, symbols, n) == RowsUpTo(file, strtab, symbols, i)
    decreases n
  {
    if n > i {
      RowsStopped(file, strtab, symbols, i, n - 1);
    }
  }

  /** The symbol table's string table: section sh_link, which must exist. */
  function StringTableOf(headers: seq<SectionHeader>, symtab: SectionHeader): Result<SectionHeader, Error>
  {
    var link := symtab.link;
    if 0 <= link < |headers| then Success(headers[link]) else Failure(IndexOutOfBounds)
  }

  /** A symbol table read, with the string table its names come from. */
  datatype SymbolSection = SymbolSection(strtab: SectionHeader, state: SymtabState)

  /** readSymtab of the chosen symbol table, if there is one; the label map
      starts empty. */
  function SymbolsOf(file: seq<bv8>, headers: seq<SectionHeader>, symtab: Option<SectionHeader>)
    : Result<Option<SymbolSection>, Error>
  {
    match symtab
    case None => Success(None)
    case Some(h) =>
      var strtab :- StringTableOf(headers, h);
      var st :- Symtab(file, h, strtab, map[]);
      Success(Some(SymbolSection(strtab, st)))
  }

  /** readText of the chosen code section, if there is one. */
  function TextOf(file: seq<bv8>, text: Option<SectionHeader>): Result<seq<Word>, Error>
    requires ValidFile(file)
  {
    match text
    case None => Success([])
    case Some(h) => TextWords(file, h.offset, h.size, h.address)
  }

  /** How parse ends: the header is rejected ("Unsupported file" and the
      message), an exception escapes before anything is printed, or the listing
      is printed, possibly cut short by an exception in the symbol rows. */
  datatype Outcome =
    | Unsupported(message: string)
    | Crashed(error: Error)
    | Printed(lines: seq<Line>, rows: Rows)

  /** The labels after reading: the function symbols' names, then LOC_ labels
      for the jump targets without one. */
  function FinalLabels(section: Option<SymbolSection>, words: seq<Word>): Labels
  {
    var tags := if section.Some? then section.value.state.tags else map[];
    LabelAll(Labels(tags, 0), Jumps(words))
  }

  /** The rows printed for the symbol table, none without one. */
  function RowsOf(file: seq<bv8>, section: Option<SymbolSection>): Rows
  {
    match section
    case None => Rows([], None)
    case Some(sec) =>
      var symbols := SymbolList(sec.state.entries);
      RowsUpTo(file, sec.strtab, symbols, |symbols|)
  }

  /** parse. */
  function Parse(file: seq<bv8>): Outcome
    requires ValidFile(file)
  {
    match ElfHeaderOf(file)
    case Failure(AssertionFailed(m)) => Unsupported("Unsupported file\n" + MessageText(m))
    case Failure(e) => Crashed(e)
    case Success(header) =>
      match SectionHeaders(file, header)
      case Failure(e) => Crashed(e)
      case Success(headers) => ParseSections(file, headers)
  }

  /** parse once the section headers are read: the chosen symbol table and
      code section read, then the listing and the symbol rows printed. */
  function ParseSections(file: seq<bv8>, headers: seq<SectionHeader>): Outcome
    requires ValidFile(file)
  {
    var sel := SelectUpTo(headers, |headers|);
    match SymbolsOf(file, headers, sel.symtab)
    case Failure(e) => Crashed(e)
    case Success(section) =>
      match TextOf(file, sel.text)
      case Failure(e) => Crashed(e)
      case Success(words) =>
        var labels := FinalLabels(section, words);
        Printed(Lines(words, labels.tags), RowsOf(file, section))
  }

  // ---------------------------------------------------------------------
  // Properties

  /** A header that fails a check is reported as an unsupported file with the
      check's message, and only such a header is. */
  lemma ParseUnsupported(file: seq<bv8>)
    requires ValidFile(file)
    ensures Parse(file).Unsupported? <==> ElfHeaderOf(file).Failure? && ElfHeaderOf(file).error.AssertionFailed?
    ensures Parse(file).Unsupported? ==>
      Parse(file).message == "Unsupported file\n" + MessageText(ElfHeaderOf(file).error.message)
  {}

  /** Every jump target the listing names has a label once reading is done: a
      jump or branch never prints "null". */
  lemma FinalLabelsCoverTargets(section: Option<SymbolSection>, words: seq<Word>, k: nat)
    requires k < |words|
    ensures var tags := FinalLabels(section, words).tags;
      forall t :: t in Targets(Decode(words[k].inst, words[k].address, tags).operands) ==> t.Some?
  {
    var tags := if section.Some? then section.value.state.tags else map[];
    var jumps := Jumps(words);
    var r := FinalLabels(section, words);
    var w := words[k];
    DecodeTargets(w.inst, w.address, r.tags);
    var target := JumpAddress(w.inst, w.address);
    if target.Some? {
      JumpsAt(words, k);
      assert jumps[k] == Some(target.value as int);
      LabelsTargets(Labels(tags, 0), jumps);
      assert IsTarget(jumps, target.value as int);
    }
  }

  /** In a printed listing no jump or branch prints "null": every target
      operand of every line has its label. */
  lemma ParseLines(file: seq<bv8>, k: nat)
    requires ValidFile(file) && Parse(file).Printed? && k < |Parse(file).lines|
    ensures var line := Parse(file).lines[k];
      forall t :: t in Targets(line.decoded.operands) ==> t.Some?
  {
    var header := ElfHeaderOf(file).value;
    var headers := SectionHeaders(file, header).value;
    var sel := SelectUpTo(headers, |headers|);
    assert Parse(file) == ParseSections(file, headers);
    var section := SymbolsOf(file, headers, sel.symtab).value;
    var words := TextOf(file, sel.text).value;
    var labels := FinalLabels(section, words);
    LinesAt(words, labels.tags, k);
    FinalLabelsCoverTargets(section, words, k);
  }
}
