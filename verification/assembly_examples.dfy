/** Lines of the kind qtcore-C1 programs are written in, and the bytes they
    assemble to. */
module AssemblyExamples {
  import opened PyText
  import opened Opcodes
  import opened Assembler
  import opened EncodingLaws
  import opened LineLaws

  /** `a: LDA n` stores `n` at `a`. */
  lemma LoadLine(a: Index, n: nat)
    requires n < 16
    ensures AssembleLine(Spell(a, "LDA", Some(n))) == Ok(Write(a, n))
  {
    assert Upper("LDA") == "LDA";
    SpelledLine(a, "LDA", Some(n));
    assert Spelled(Some(n)) == Some(Some(n));
    EncodeLoad(a, n);
  }

  /** `a: HLT` stores 0xFF at `a`. */
  lemma HaltLine(a: Index)
    ensures AssembleLine(Spell(a, "HLT", None)) == Ok(Write(a, 0xFF))
  {
    assert Upper("HLT") == "HLT";
    SpelledLine(a, "HLT", None);
    EncodeHalt(a);
  }

  /** `a: BNE -3` stores 0xDB at `a`. */
  lemma BranchBackLine(a: Index)
    ensures AssembleLine(Spell(a, "BNE", Some(-3))) == Ok(Write(a, 0xDB))
  {
    assert Upper("BNE") == "BNE";
    SpelledLine(a, "BNE", Some(-3));
    assert Spelled(Some(-3)) == Some(Some(-3));
    EncodeBranchBack(a);
  }

  /** `a: CSW 5` stores 0xBD at `a`. */
  lemma ControlWriteLine(a: Index)
    ensures AssembleLine(Spell(a, "CSW", Some(5))) == Ok(Write(a, 0xBD))
  {
    assert Upper("CSW") == "CSW";
    SpelledLine(a, "CSW", Some(5));
    assert Spelled(Some(5)) == Some(Some(5));
    EncodeControlWrite(a);
  }

  /** `a: DATA n` stores any number, even one that is no byte. */
  lemma DataLine(a: Index, n: int)
    ensures AssembleLine(Spell(a, "DATA", Some(n))) == Ok(Write(a, n))
  {
    assert Upper("DATA") == "DATA";
    SpelledLine(a, "DATA", Some(n));
    EncodeData(a, n);
  }

  /** A mnemonic not in the table stops assembly with its name and address. */
  lemma UnknownLine(a: Index)
    ensures AssembleLine(Spell(a, "NOP", None)) == Err(UnknownInstruction("NOP", a))
  {
    NotInTable("NOP");
    assert Upper("NOP") == "NOP";
    SpelledLine(a, "NOP", None);
  }
}
