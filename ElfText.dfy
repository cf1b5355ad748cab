/** The code section as ElfParser.java's readText walks it: a stream of 32-bit
    and 16-bit (compressed) instruction words, told apart by their two low bits
    (RISC-V unprivileged ISA, section 1.5, "Base Instruction-Length Encoding"),
    and the LOC_ labels it gives the jump targets that have no symbol. */
module ElfText {
  import opened Wrappers
  import opened Bits
  import opened Text
  import opened Decoder
  import opened JavaInts
  import opened ElfFormat

  /** An instruction word as read, and the address it is listed at. */
  datatype Word = Word(inst: bv32, address: bv32)

  /** A word as the read loop fetched it, and whether it was read as a
      four-byte RV32 word (`wide`) or a two-byte compressed one. */
  datatype Fetch = Fetch(inst: Int32, wide: bool)

  /** The bytes a fetched word takes. */
  function Width(f: Fetch): Int32
  {
    if f.wide then 4 else 2
  }

  /** `getIsaInstructionType(take(pos) & 0x3) == RV32`: the byte sign-extends
      to an `int`, which keeps its two low bits, so the kind is always defined
      (IsaInstructionTypeOfByte) and RV32 exactly when those bits are 11. */
  function WideAt(file: seq<bv8>, pos: Int32): Result<bool, Error>
  {
    var b :- Take(file, pos);
    Success(b & 3 == 3)
  }

  /** One turn of readText's read loop at `pos`: the kind from the byte
      there, then the word of that width. */
  function FetchAt(file: seq<bv8>, pos: Int32): Result<Fetch, Error>
  {
    var wide :- WideAt(file, pos);
    var inst :- ReadInt(file, pos, if wide then 4 else 2);
    Success(Fetch(inst, wide))
  }

  /** The read loop of readText from cursor `pos` while `pos < end`: a four-byte
      word when the kind is RV32, else a two-byte one, the cursor advancing by
      its width. A file has at most 2^31 - 1 bytes. */
  function Cut(file: seq<bv8>, pos: Int32, end: Int32): Result<seq<Fetch>, Error>
    requires ValidFile(file)
    decreases |file| - pos
  {
    if !(pos < end) then Success([])
    else
      var wide :- WideAt(file, pos);
      var width: Int32 := if wide then 4 else 2;
      var inst :- ReadInt(file, pos, width);
      ReadIntAt(file, pos, width);
      var rest :- Cut(file, JavaInts.Add(pos, width), end);
      Success([Fetch(inst, wide)] + rest)
  }

  /** The address step of readText: `address += 4` after a 32-bit word,
      `address += 2` after a compressed one, wrapping like a Java `int`. */
  function Stride(f: Fetch): bv32
  {
    if f.wide then 4 else 2
  }

  /** The address of the word after `f` when `f` is listed at `at`. */
  function Advance(at: bv32, f: Fetch): bv32
  {
    at + Stride(f)
  }

  /** The address after a run of fetched words listed from `address`. */
  function After(fs: seq<Fetch>, address: bv32): bv32
  {
    if fs == [] then address else Advance(After(fs[..|fs| - 1], address), fs[|fs| - 1])
  }

  /** The fetched words listed from `address` on, each at the address after
      the words before it. */
  function Place(fs: seq<Fetch>, address: bv32): (words: seq<Word>)
    ensures |words| == |fs|
  {
    if fs == [] then []
    else Place(fs[..|fs| - 1], address) + [Word(IntBits(fs[|fs| - 1].inst), After(fs[..|fs| - 1], address))]
  }

  /** The words of the code section: from sh_offset up to sh_offset + sh_size
      (a Java `int` sum), listed from sh_addr. */
  function TextWords(file: seq<bv8>, offset: Int32, size: Int32, address: Int32): Result<seq<Word>, Error>
    requires ValidFile(file)
  {
    var fs :- Cut(file, offset, JavaInts.Add(offset, size));
    Success(Place(fs, IntBits(address)))
  }

  /** The bytes a run of fetched words takes. */
  function Span(fs: seq<Fetch>): nat
  {
    if fs == [] then 0 else Width(fs[0]) + Span(fs[1..])
  }

  /** Word `k` holds the `k`-th fetched instruction at the address after the
      ones before it: the first at `address`, each next one a stride further. */
  lemma {:induction false} PlaceAt(fs: seq<Fetch>, address: bv32, k: nat)
    requires k < |fs|
    ensures Place(fs, address)[k] == Word(IntBits(fs[k].inst), After(fs[..k], address))
  {
    var n := |fs| - 1;
    if k < n {
      PlaceAt(fs[..n], address, k);
      assert fs[..n][..k] == fs[..k];
      assert fs[..n][k] == fs[k];
    } else {
      assert fs[..k] == fs[..n];
    }
  }

  /** One more fetched word moves the address on by its stride. */
  lemma AfterAppend(fs: seq<Fetch>, f: Fetch, address: bv32)
    ensures After(fs + [f], address) == Advance(After(fs, address), f)
  {
    var all := fs + [f];
    assert all[..|fs|] == fs;
    assert all[|fs|] == f;
  }

  /** Placing one more fetched word appends it at the address after the others. */
  lemma PlaceAppend(fs: seq<Fetch>, f: Fetch, address: bv32)
    ensures Place(fs + [f], address) == Place(fs, address) + [Word(IntBits(f.inst), After(fs, address))]
  {
    var all := fs + [f];
    assert all[..|fs|] == fs;
    assert all[|fs|] == f;
  }

  /** The first word is listed at sh_addr... */
  lemma PlaceFirst(fs: seq<Fetch>, address: bv32)
    requires fs != []
    ensures Place(fs, address)[0].address == address
  {
    PlaceAddress(fs, address, 0);
    assert fs[..0] == [];
  }

  /** ...and each next one at the address of the one before it plus that
      one's stride (4 after an RV32 word, 2 after a compressed one), modulo
      2^32. */
  lemma PlaceNext(fs: seq<Fetch>, address: bv32, k: nat)
    requires k + 1 < |fs|
    ensures Place(fs, address)[k + 1].address == Advance(Place(fs, address)[k].address, fs[k])
  {
    PlaceAddress(fs, address, k);
    PlaceAddress(fs, address, k + 1);
    assert fs[..k + 1][..k] == fs[..k];
  }

  lemma PlaceAddress(fs: seq<Fetch>, address: bv32, k: nat)
    requires k < |fs|
    ensures Place(fs, address)[k].address == After(fs[..k], address)
  {
    PlaceAt(fs, address, k);
  }

  // ---------------------------------------------------------------------
  // Reading words

  lemma QuadrantLowBits(v: bv32)
    ensures Quadrant(v) == v & 3
  {
    if v < 0x8000_0000 {} else {}
  }

  /** The bits of a word read from `bytes`, lowest byte first. */
  function BytesBits(bytes: seq<bv8>): bv32
    requires |bytes| == 2 || |bytes| == 4
  {
    if |bytes| == 2 then WordOfBytes(bytes[0], bytes[1], 0, 0)
    else WordOfBytes(bytes[0], bytes[1], bytes[2], bytes[3])
  }

  /** The `int` read from two or four bytes holds exactly those bytes. */
  lemma ReadBits(bytes: seq<bv8>)
    requires |bytes| == 2 || |bytes| == 4
    ensures IntBits(LittleEndian(bytes)) == BytesBits(bytes)
  {
    var b2: bv8 := if |bytes| == 4 then bytes[2] else 0;
    var b3: bv8 := if |bytes| == 4 then bytes[3] else 0;
    var sum := LittleEndianSum(bytes);
    SumOfBytes(bytes);
    assert sum == bytes[0] as int + 0x100 * (bytes[1] as int + 0x100 * (b2 as int + 0x100 * b3 as int));
    UnsignedWrap(sum);
    IntBitsOfBytes(LittleEndian(bytes), bytes[0], bytes[1], b2, b3);
  }

  /** The kind of a word is decided by its first byte. */
  lemma LowBits(bytes: seq<bv8>)
    requires |bytes| == 2 || |bytes| == 4
    ensures BytesBits(bytes) & 3 == (bytes[0] & 3) as bv32
    ensures |bytes| == 2 ==> BytesBits(bytes) < 0x1_0000
  {}

  lemma ByteLowBits(b: bv8)
    ensures (b & 3) as bv32 < 3 <==> b & 3 != 3
  {}

  /** A word read four bytes wide has low bits 11 and a two-byte one does not
      and is a 16-bit value. */
  lemma KindOfRead(bytes: seq<bv8>, wide: bool)
    requires |bytes| == if wide then 4 else 2
    requires wide <==> bytes[0] & 3 == 3
    ensures wide <==> IntBits(LittleEndian(bytes)) & 3 == 3
    ensures !wide ==> IntBits(LittleEndian(bytes)) < 0x1_0000
  {
    ReadBits(bytes);
    LowBits(bytes);
    ByteLowBits(bytes[0]);
  }

  /** The state of readText's loop after it has fetched `fetched` from
      `offset`: the rest of the loop from the cursor `pos` completes the
      reading, `words` are the fetched words placed from `start`, `address`
      is the address after them, and `labels` are `first` after the label
      step of each. */
  predicate TextLoop(file: seq<bv8>, offset: Int32, end: Int32, start: bv32, first: Labels,
                     pos: Int32, address: bv32, fetched: seq<Fetch>, words: seq<Word>, labels: Labels)
    requires ValidFile(file)
  {
    Cut(file, offset, end) == Prepend(fetched, Cut(file, pos, end))
    && words == Place(fetched, start) && address == After(fetched, start)
    && labels == LabelAll(first, Jumps(words))
  }

  lemma TextLoopStart(file: seq<bv8>, offset: Int32, end: Int32, start: bv32, first: Labels)
    requires ValidFile(file)
    ensures TextLoop(file, offset, end, start, first, offset, start, [], [], first)
  {
    assert Cut(file, offset, end).Success? ==> [] + Cut(file, offset, end).value == Cut(file, offset, end).value;
  }

  /** A turn of the loop that fetches `f` at `pos` moves the cursor and the
      address on by its width, places its word, and takes its label step. */
  lemma TextLoopStep(file: seq<bv8>, offset: Int32, end: Int32, start: bv32, first: Labels,
                     pos: Int32, address: bv32, fetched: seq<Fetch>, words: seq<Word>, labels: Labels, f: Fetch)
    requires ValidFile(file) && pos < end && FetchAt(file, pos) == Success(f)
    requires TextLoop(file, offset, end, start, first, pos, address, fetched, words, labels)
    ensures 0 <= pos && pos + Width(f) <= |file|
    ensures var w := Word(IntBits(f.inst), address);
      TextLoop(file, offset, end, start, first, pos + Width(f), Advance(address, f),
               fetched + [f], words + [w], LabelStep(labels, JumpKey(w)))
  {
    CutUnfold(file, pos, end);
    var w := Word(IntBits(f.inst), address);
    PrependTwice(fetched, [f], Cut(file, pos + Width(f), end));
    PlaceAppend(fetched, f, start);
    AfterAppend(fetched, f, start);
    JumpsAppend(words, w);
    LabelAllAppend(first, Jumps(words), JumpKey(w));
  }

  /** A turn that cannot fetch is the failure of the whole reading... */
  lemma TextLoopFails(file: seq<bv8>, offset: Int32, size: Int32, at: Int32, first: Labels, pos: Int32, address: bv32,
                      fetched: seq<Fetch>, words: seq<Word>, labels: Labels)
    requires ValidFile(file) && pos < JavaInts.Add(offset, size) && FetchAt(file, pos).Failure?
    requires TextLoop(file, offset, JavaInts.Add(offset, size), IntBits(at), first,
                      pos, address, fetched, words, labels)
    ensures TextWords(file, offset, size, at) == Failure(FetchAt(file, pos).error)
  {
    CutUnfold(file, pos, JavaInts.Add(offset, size));
  }

  /** ...and a cursor at or past the end has read every word. */
  lemma TextLoopDone(file: seq<bv8>, offset: Int32, size: Int32, at: Int32, first: Labels, pos: Int32, address: bv32,
                     fetched: seq<Fetch>, words: seq<Word>, labels: Labels)
    requires ValidFile(file) && !(pos < JavaInts.Add(offset, size))
    requires TextLoop(file, offset, JavaInts.Add(offset, size), IntBits(at), first,
                      pos, address, fetched, words, labels)
    ensures TextWords(file, offset, size, at) == Success(words)
    ensures labels == LabelAll(first, Jumps(words))
  {
    assert fetched + [] == fetched;
  }

  /** The two low bits of a byte always name an instruction kind, and it is
      RV32 exactly when they are 11. */
  lemma IsaInstructionTypeOfByte(b: bv8)
    ensures IsaInstructionType((b & 3) as int).Success?
    ensures IsaInstructionType((b & 3) as int).value == Rv32 <==> b & 3 == 3
  {
    IsaInstructionTypeDomain((b & 3) as int, 3);
  }

  /** One turn of the loop: the word at `pos`, four bytes wide exactly when
      its first byte's low bits are 11, then the rest of the loop from
      pos + width. */
  lemma CutStep(file: seq<bv8>, pos: Int32, end: Int32)
    requires ValidFile(file) && pos < end && Cut(file, pos, end).Success?
    ensures var fs := Cut(file, pos, end).value;
      fs != [] && 0 <= pos && pos + Width(fs[0]) <= |file|
      && (fs[0].wide <==> file[pos] & 3 == 3)
      && fs[0].inst == LittleEndian(file[pos..pos + Width(fs[0])])
      && Cut(file, pos + Width(fs[0]), end).Success?
      && fs[1..] == Cut(file, pos + Width(fs[0]), end).value
  {
    var width: Int32 := if file[pos] & 3 == 3 then 4 else 2;
    ReadIntAt(file, pos, width);
  }

  /** A turn that fails stops the loop with its error; one that succeeds puts
      its word in front of the rest of the loop, from the cursor moved on by
      the word's width inside the file. */
  lemma CutUnfold(file: seq<bv8>, pos: Int32, end: Int32)
    requires ValidFile(file) && pos < end
    ensures FetchAt(file, pos).Failure? ==> Cut(file, pos, end) == Failure(FetchAt(file, pos).error)
    ensures FetchAt(file, pos).Success? ==>
      var f := FetchAt(file, pos).value;
      0 <= pos && pos + Width(f) <= |file|
      && Cut(file, pos, end) == Prepend([f], Cut(file, pos + Width(f), end))
  {
    if FetchAt(file, pos).Success? {
      var f := FetchAt(file, pos).value;
      ReadIntAt(file, pos, Width(f));
    }
  }

  /** The loop stops at the first position at or after `end`: the words
      fill the range from `pos` to `end` and at most one reaches past it. */
  lemma {:induction false} CutCovers(file: seq<bv8>, pos: Int32, end: Int32)
    requires ValidFile(file) && Cut(file, pos, end).Success?
    ensures end <= pos + Span(Cut(file, pos, end).value)
    decreases |file| - pos
  {
    if pos < end {
      CutStep(file, pos, end);
      var fs := Cut(file, pos, end).value;
      CutCovers(file, pos + Width(fs[0]), end);
      assert Span(fs) == Width(fs[0]) + Span(fs[1..]);
    }
  }

  /** Fetched word `f` is the one at `p`: the little-endian word of its width
      there, four bytes wide exactly when the byte there has low bits 11. */
  predicate FetchedAt(file: seq<bv8>, p: int, f: Fetch)
  {
    0 <= p && p + Width(f) <= |file|
    && (f.wide <==> file[p] & 3 == 3)
    && f.inst == LittleEndian(file[p..p + Width(f)])
  }

  /** `fs` tiles the bytes from `pos`: each word is the one at its position,
      each next one starts where the one before ends, every word starts before
      `end`, and the last one reaches `end` or past it. */
  predicate Tiled(file: seq<bv8>, pos: int, end: int, fs: seq<Fetch>)
    decreases |fs|
  {
    if fs == [] then end <= pos
    else pos < end && FetchedAt(file, pos, fs[0]) && Tiled(file, pos + Width(fs[0]), end, fs[1..])
  }

  /** The read loop succeeds with `fs` exactly when `fs` tiles the range: the
      words are read back to back, and no other reading is possible. */
  lemma {:induction false} CutTiled(file: seq<bv8>, pos: Int32, end: Int32, fs: seq<Fetch>)
    requires ValidFile(file)
    ensures Cut(file, pos, end) == Success(fs) <==> Tiled(file, pos, end, fs)
    decreases |fs|
  {
    if Cut(file, pos, end) == Success(fs) {
      if pos < end {
        CutStep(file, pos, end);
        CutTiled(file, pos + Width(fs[0]), end, fs[1..]);
      }
    }
    if Tiled(file, pos, end, fs) && fs != [] {
      var w := Width(fs[0]);
      ReadIntAt(file, pos, w);
      assert Take(file, pos) == Success(file[pos]);
      assert JavaInts.Add(pos, w) == pos + w;
      CutTiled(file, pos + w, end, fs[1..]);
      assert fs == [fs[0]] + fs[1..];
    }
  }

  /** In a tiling, word `k` is the one at pos + the span of the words before
      it, a position before `end`. */
  lemma {:induction false} TiledAt(file: seq<bv8>, pos: int, end: int, fs: seq<Fetch>, k: nat)
    requires Tiled(file, pos, end, fs) && k < |fs|
    ensures pos + Span(fs[..k]) < end && FetchedAt(file, pos + Span(fs[..k]), fs[k])
    decreases k
  {
    if k > 0 {
      var rest := fs[1..];
      TiledAt(file, pos + Width(fs[0]), end, rest, k - 1);
      assert fs[..k] == [fs[0]] + rest[..k - 1];
      assert Span(fs[..k]) == Width(fs[0]) + Span(rest[..k - 1]);
      assert fs[k] == rest[k - 1];
    } else {
      assert fs[..0] == [];
    }
  }

  /** The words are read back to back from `pos`: word `k` is the one at
      pos + the span of the words before it, a position before `end`. */
  lemma CutAt(file: seq<bv8>, pos: Int32, end: Int32, k: nat)
    requires ValidFile(file) && Cut(file, pos, end).Success? && k < |Cut(file, pos, end).value|
    ensures var fs := Cut(file, pos, end).value;
      pos + Span(fs[..k]) < end && FetchedAt(file, pos + Span(fs[..k]), fs[k])
  {
    CutTiled(file, pos, end, Cut(file, pos, end).value);
    TiledAt(file, pos, end, Cut(file, pos, end).value, k);
  }

  /** A fetched word is four bytes wide exactly when its own low bits are 11,
      and a compressed one is a 16-bit value: the decoder sees the word the
      reader chose. */
  lemma CutKinds(file: seq<bv8>, pos: Int32, end: Int32, k: nat)
    requires ValidFile(file) && Cut(file, pos, end).Success? && k < |Cut(file, pos, end).value|
    ensures var f := Cut(file, pos, end).value[k];
      (f.wide <==> IntBits(f.inst) & 3 == 3) && (!f.wide ==> IntBits(f.inst) < 0x1_0000)
  {
    CutAt(file, pos, end, k);
    var fs := Cut(file, pos, end).value;
    var p := pos + Span(fs[..k]);
    assert FetchedAt(file, p, fs[k]);
    KindOfRead(file[p..p + Width(fs[k])], fs[k].wide);
  }

  // ---------------------------------------------------------------------
  // Labels

  /** The label map and the LOC counter. */
  datatype Labels = Labels(tags: map<int, string>, loc: nat)

  /** The map key of a word's jump target, if it has one. Java's map keys are
      the `int` values of the addresses; here they are the unsigned values,
      the same one-to-one correspondence. */
  function JumpKey(w: Word): Option<int>
  {
    match JumpAddress(w.inst, w.address)
    case None => None
    case Some(target) => Some(target as int)
  }

  /** The jump keys of `words`, in order. */
  function Jumps(words: seq<Word>): (keys: seq<Option<int>>)
    ensures |keys| == |words|
  {
    if words == [] then [] else Jumps(words[..|words| - 1]) + [JumpKey(words[|words| - 1])]
  }

  /** The label step of readText after a word with jump key `jump`: a target
      with no label yet is labelled LOC_%05x of the counter, which then
      advances. */
  function LabelStep(s: Labels, jump: Option<int>): Labels
  {
    match jump
    case None => s
    case Some(key) =>
      if key in s.tags then s
      else Labels(s.tags[key := LocLabel(s.loc)], s.loc + 1)
  }

  /** The label steps for each of `jumps`, in order. */
  function LabelAll(s: Labels, jumps: seq<Option<int>>): Labels
  {
    if jumps == [] then s else LabelStep(LabelAll(s, jumps[..|jumps| - 1]), jumps[|jumps| - 1])
  }

  /** One more word adds its jump key at the end. */
  lemma JumpsAppend(words: seq<Word>, w: Word)
    ensures Jumps(words + [w]) == Jumps(words) + [JumpKey(w)]
  {
    assert (words + [w])[..|words|] == words;
  }

  /** One more jump key is one more label step. */
  lemma LabelAllAppend(s: Labels, jumps: seq<Option<int>>, jump: Option<int>)
    ensures LabelAll(s, jumps + [jump]) == LabelStep(LabelAll(s, jumps), jump)
  {
    assert (jumps + [jump])[..|jumps|] == jumps;
  }

  /** Jump key `k` of `words` is that of word `k`. */
  lemma {:induction false} JumpsAt(words: seq<Word>, k: nat)
    requires k < |words|
    ensures Jumps(words)[k] == JumpKey(words[k])
  {
    var n := |words| - 1;
    if k < n {
      JumpsAt(words[..n], k);
      assert words[..n][k] == words[k];
    }
  }

  /** Whether `key` is one of `jumps`. */
  predicate IsTarget(jumps: seq<Option<int>>, key: int)
  {
    exists k :: 0 <= k < |jumps| && jumps[k] == Some(key)
  }

  lemma IsTargetStep(jumps: seq<Option<int>>, key: int)
    requires jumps != []
    ensures IsTarget(jumps, key) <==> IsTarget(jumps[..|jumps| - 1], key) || jumps[|jumps| - 1] == Some(key)
  {
    var n := |jumps|;
    var prev := jumps[..n - 1];
    if IsTarget(jumps, key) {
      var k :| 0 <= k < n && jumps[k] == Some(key);
      if k < n - 1 {
        assert prev[k] == jumps[k];
      }
    }
    if IsTarget(prev, key) {
      var k :| 0 <= k < n - 1 && prev[k] == Some(key);
      assert jumps[k] == prev[k];
    }
  }

  /** A label, once given, is never changed: the map only grows, and the
      counter advances at most once per word. */
  lemma {:induction false} LabelsKeep(s: Labels, jumps: seq<Option<int>>)
    ensures forall key :: key in s.tags ==> key in LabelAll(s, jumps).tags && LabelAll(s, jumps).tags[key] == s.tags[key]
    ensures s.loc <= LabelAll(s, jumps).loc <= s.loc + |jumps|
  {
    if jumps != [] {
      LabelsKeep(s, jumps[..|jumps| - 1]);
    }
  }

  /** Afterwards every jump target has a label, and the only new labels are
      those of jump targets. */
  lemma {:induction false} LabelsTargets(s: Labels, jumps: seq<Option<int>>)
    ensures forall key :: key in LabelAll(s, jumps).tags <==> key in s.tags || IsTarget(jumps, key)
  {
    if jumps != [] {
      LabelsTargets(s, jumps[..|jumps| - 1]);
      forall key {
        IsTargetStep(jumps, key);
      }
    }
  }

  /** Taking the label steps of `a + b` is taking those of `a`, then those of `b`. */
  lemma {:induction false} LabelAllSplit(s: Labels, a: seq<Option<int>>, b: seq<Option<int>>)
    ensures LabelAll(s, a + b) == LabelAll(LabelAll(s, a), b)
    decreases |b|
  {
    if b == [] {
      assert a + b == a;
    } else {
      var c := b[..|b| - 1];
      assert (a + b)[..|a + b| - 1] == a + c;
      assert (a + b)[|a + b| - 1] == b[|b| - 1];
      LabelAllSplit(s, a, c);
    }
  }

  /** Labels are numbered in scan order: the target of word `i`, if it has no
      label yet when the word is scanned, gets LOC_ of the counter at that
      moment, keeps it to the end, and the counter moves on by one; any other
      word leaves labels and counter as they were. */
  lemma LabelsScanOrder(s: Labels, jumps: seq<Option<int>>, i: nat)
    requires i < |jumps|
    ensures var before := LabelAll(s, jumps[..i]);
      jumps[i].Some? && jumps[i].value !in before.tags ==>
        jumps[i].value in LabelAll(s, jumps).tags
        && LabelAll(s, jumps).tags[jumps[i].value] == LocLabel(before.loc)
        && LabelAll(s, jumps[..i + 1]).loc == before.loc + 1
    ensures var before := LabelAll(s, jumps[..i]);
      !(jumps[i].Some? && jumps[i].value !in before.tags) ==> LabelAll(s, jumps[..i + 1]) == before
  {
    var head := jumps[..i + 1];
    assert head[..i] == jumps[..i];
    assert head + jumps[i + 1..] == jumps;
    LabelAllSplit(s, head, jumps[i + 1..]);
    LabelsKeep(LabelAll(s, head), jumps[i + 1..]);
  }

  /** Whether `key` got a label in this run. */
  predicate Fresh(s: Labels, r: Labels, key: int)
  {
    key in r.tags && key !in s.tags
  }

  /** One label step adds at most one label, LOC_ of the counter, at a key
      that had none, and the counter counts it. */
  lemma LabelStepCases(t: Labels, jump: Option<int>)
    ensures var r := LabelStep(t, jump);
      (r == t)
      || (jump.Some? && jump.value !in t.tags && r.tags == t.tags[jump.value := LocLabel(t.loc)] && r.loc == t.loc + 1)
  {}

  /** Every new label is LOC_ of a counter value this run used. */
  lemma {:induction false} LabelsFreshNamed(s: Labels, jumps: seq<Option<int>>)
    ensures var r := LabelAll(s, jumps);
      forall key :: Fresh(s, r, key) ==> exists j :: s.loc <= j < r.loc && r.tags[key] == LocLabel(j)
  {
    if jumps != [] {
      var prev := jumps[..|jumps| - 1];
      var t := LabelAll(s, prev);
      var r := LabelAll(s, jumps);
      LabelsFreshNamed(s, prev);
      LabelsKeep(s, prev);
      LabelStepCases(t, jumps[|jumps| - 1]);
      forall key | Fresh(s, r, key)
        ensures exists j :: s.loc <= j < r.loc && r.tags[key] == LocLabel(j)
      {
        if r == t || key != jumps[|jumps| - 1].value {
          assert Fresh(s, t, key);
        }
      }
    }
  }

  /** Whether counter value `j` labels a key that got its label in this run. */
  ghost predicate Used(s: Labels, r: Labels, j: nat)
  {
    exists key :: Fresh(s, r, key) && r.tags[key] == LocLabel(j)
  }

  /** A label step keeps every counter value used so far used, and uses
      the one it gives out. */
  lemma UsedStep(s: Labels, t: Labels, jump: Option<int>, j: nat)
    requires s.loc <= t.loc && (forall key :: key in s.tags ==> key in t.tags)
    requires s.loc <= j < LabelStep(t, jump).loc
    requires j < t.loc ==> Used(s, t, j)
    ensures Used(s, LabelStep(t, jump), j)
  {
    var r := LabelStep(t, jump);
    LabelStepCases(t, jump);
    if r != t {
      if j < t.loc {
        var key :| Fresh(s, t, key) && t.tags[key] == LocLabel(j);
        assert Fresh(s, r, key) && r.tags[key] == LocLabel(j);
      } else {
        assert j == t.loc;
        assert Fresh(s, r, jump.value) && r.tags[jump.value] == LocLabel(j);
      }
    }
  }

  /** Every counter value this run used labels some new key. */
  lemma {:induction false} LabelsFreshUsed(s: Labels, jumps: seq<Option<int>>)
    ensures var r := LabelAll(s, jumps);
      forall j: nat :: s.loc <= j < r.loc ==> Used(s, r, j)
  {
    if jumps != [] {
      var prev := jumps[..|jumps| - 1];
      var t := LabelAll(s, prev);
      LabelsFreshUsed(s, prev);
      LabelsKeep(s, prev);
      forall j: nat | s.loc <= j < LabelAll(s, jumps).loc
        ensures Used(s, LabelAll(s, jumps), j)
      {
        UsedStep(s, t, jumps[|jumps| - 1], j);
      }
    }
  }

  /** No two new labels are the same. */
  lemma {:induction false} LabelsFreshDistinct(s: Labels, jumps: seq<Option<int>>)
    ensures var r := LabelAll(s, jumps);
      forall k1, k2 :: Fresh(s, r, k1) && Fresh(s, r, k2) && k1 != k2 ==> r.tags[k1] != r.tags[k2]
  {
    if jumps != [] {
      var prev := jumps[..|jumps| - 1];
      var t := LabelAll(s, prev);
      var r := LabelAll(s, jumps);
      LabelsFreshDistinct(s, prev);
      LabelsFreshNamed(s, prev);
      LabelsKeep(s, prev);
      LabelStepCases(t, jumps[|jumps| - 1]);
      if r != t {
        var target := jumps[|jumps| - 1].value;
        forall k1, k2 | Fresh(s, r, k1) && Fresh(s, r, k2) && k1 != k2
          ensures r.tags[k1] != r.tags[k2]
        {
          if k1 == target || k2 == target {
            var other := if k1 == target then k2 else k1;
            assert Fresh(s, t, other);
            var j :| s.loc <= j < t.loc && t.tags[other] == LocLabel(j);
            if LocLabel(j) == LocLabel(t.loc) {
              LocLabelInjective(j, t.loc);
            }
          } else {
            assert Fresh(s, t, k1) && Fresh(s, t, k2);
          }
        }
      }
    }
  }
}
