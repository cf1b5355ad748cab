/** AsmCommand.java as an object: one instruction word at its address, with
    the label `parse` sets once every label is known. Decoding itself is the
    pure Decoder module; the label map a command prints with is passed in. */
module Commands {
  import opened Wrappers
  import opened Decoder
  import opened Listing
  import opened ElfText

  class AsmCommand {
    const inst: bv32
    const address: bv32
    var tag: string

    /** A command for the word `inst` read at `pos`, with no label yet. */
    constructor(inst: bv32, pos: bv32)
      ensures this.inst == inst && address == pos && tag == ""
    {
      this.inst := inst;
      address := pos;
      tag := "";
    }

    /** setTag. */
    method SetTag(tag: string)
      modifies this
      ensures this.tag == tag
    {
      this.tag := tag;
    }

    /** getJumpAddress: a target exactly for JAL, the branches, C.JAL, C.J,
        C.BEQZ and C.BNEZ. */
    function GetJumpAddress(): (target: Option<bv32>)
      ensures target.Some? <==>
        ((Quadrant(inst) == 3 && (Opcode(inst) == 0x6F || Opcode(inst) == 0x63))
         || (Quadrant(inst) == 1 && (CFunct(inst) == 1 || CFunct(inst) == 5 || CFunct(inst) == 6 || CFunct(inst) == 7)))
    {
      JumpAddressCases(inst, address);
      JumpAddress(inst, address)
    }

    /** toString, with the label map `go` as it is when the command is
        printed: the address, the label, and the decoded word, whose only
        label operand is the label of its jump target, and whose registers
        all have names. */
    function ToLine(go: map<int, string>): (line: Line)
      reads this
      ensures line.address == address && line.tag == tag
      ensures Targets(line.decoded.operands)
              == if GetJumpAddress().Some? then [Lookup(go, GetJumpAddress().value)] else []
      ensures RegistersValid(line.decoded.operands)
    {
      DecodeTargets(inst, address, go);
      DecodeRegistersValid(inst, address, go);
      Line(address, tag, Decode(inst, address, go))
    }
  }

  /** The words commands hold, in order. */
  function WordsOf(cmds: seq<AsmCommand>): (words: seq<Word>)
    ensures |words| == |cmds|
  {
    if cmds == [] then [] else WordsOf(cmds[..|cmds| - 1]) + [Word(cmds[|cmds| - 1].inst, cmds[|cmds| - 1].address)]
  }

  lemma WordsOfAppend(cmds: seq<AsmCommand>, c: AsmCommand)
    ensures WordsOf(cmds + [c]) == WordsOf(cmds) + [Word(c.inst, c.address)]
  {
    assert (cmds + [c])[..|cmds|] == cmds;
  }

  /** The `k`th word is that of the `k`th command. */
  lemma {:induction false} WordsOfAt(cmds: seq<AsmCommand>, k: nat)
    requires k < |cmds|
    ensures WordsOf(cmds)[k] == Word(cmds[k].inst, cmds[k].address)
  {
    var n := |cmds| - 1;
    if k < n {
      WordsOfAt(cmds[..n], k);
    }
  }
}
