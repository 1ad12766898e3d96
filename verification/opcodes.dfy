/** The qtcore-C1 instruction table and the operand spelling rules the
    assembler applies after a mnemonic. */
module Opcodes {
  import opened BinaryText

  /** A table entry: the opcode's leading bits as text, or the `DATA`
      directive that stores its operand verbatim. */
  datatype Opcode = Bits(bits: string) | DataDirective

  /** `instruction_set` as written: its mnemonic and opcode pairs in source
      order. */
  const Table: seq<(string, Opcode)> := [
    ("LDA", Bits("0000")),
    ("STA", Bits("0001")),
    ("ADD", Bits("0010")),
    ("SUB", Bits("0011")),
    ("AND", Bits("0100")),
    ("OR", Bits("0101")),
    ("XOR", Bits("0110")),
    ("ADDI", Bits("1000")),
    ("LUI", Bits("1001")),
    ("SETSEG", Bits("1010")),
    ("CSR", Bits("10110")),
    ("CSW", Bits("10111")),
    ("JMP", Bits("11110000")),
    ("JSR", Bits("11110001")),
    ("HLT", Bits("11111111")),
    ("BEQ", Bits("1100")),
    ("BNE", Bits("1101")),
    ("BRA", Bits("1110")),
    ("SHL", Bits("11110110")),
    ("SHR", Bits("11110111")),
    ("ROL", Bits("11111000")),
    ("ROR", Bits("11111001")),
    ("LDAR", Bits("11111010")),
    ("SETSEG_ACC", Bits("11111011")),
    ("DEC", Bits("11111100")),
    ("CLR", Bits("11111101")),
    ("INV", Bits("11111110")),
    ("DATA", DataDirective)
  ]

  /** A dict display: the pairs inserted in order, a later key replacing an
      earlier one. */
  function MapOf(entries: seq<(string, Opcode)>): map<string, Opcode>
    decreases |entries|
  {
    if |entries| == 0 then map[]
    else
      var last := entries[|entries| - 1];
      MapOf(entries[..|entries| - 1])[last.0 := last.1]
  }

  /** The instruction table, as a dictionary. */
  const InstructionSet: map<string, Opcode> := MapOf(Table)

  /** A pair whose key no later pair repeats is in the dictionary. */
  lemma {:induction false} MapOfHas(entries: seq<(string, Opcode)>, i: nat)
    requires i < |entries|
    requires forall j :: i < j < |entries| ==> entries[j].0 != entries[i].0
    ensures entries[i].0 in MapOf(entries) && MapOf(entries)[entries[i].0] == entries[i].1
    decreases |entries|
  {
    var n := |entries|;
    if i < n - 1 {
      var front := entries[..n - 1];
      assert front[i] == entries[i];
      forall j | i < j < |front|
        ensures front[j].0 != front[i].0
      {
        assert front[j] == entries[j];
      }
      MapOfHas(front, i);
    }
  }

  /** Every key of the dictionary comes from a pair that carries its
      value. */
  lemma {:induction false} MapOfFrom(entries: seq<(string, Opcode)>, k: string)
    requires k in MapOf(entries)
    ensures exists j :: 0 <= j < |entries| && entries[j].0 == k && entries[j].1 == MapOf(entries)[k]
    decreases |entries|
  {
    var n := |entries|;
    var last := entries[n - 1];
    if k != last.0 {
      var front := entries[..n - 1];
      MapOfFrom(front, k);
      var j :| 0 <= j < |front| && front[j].0 == k && front[j].1 == MapOf(front)[k];
      assert entries[j] == front[j];
    }
  }

  /** No mnemonic appears twice in the table. */
  lemma KeysDistinct()
    ensures forall i, j :: 0 <= i < j < |Table| ==> Table[i].0 != Table[j].0
  {
  }

  /** Mnemonics whose operand is a sign-magnitude branch offset. */
  const Branches: set<string> := {"BEQ", "BNE", "BRA"}

  /** Mnemonics with a 5-bit opcode and a 3-bit register operand. */
  const ControlStatus: set<string> := {"CSR", "CSW"}

  function Abs(n: int): nat {
    if n < 0 then -n else n
  }

  /** The text appended to the opcode bits for operand `n`: a sign bit and
      three magnitude bits for branches, three bits for CSR/CSW, four bits
      otherwise. `format` widens an operand that does not fit, and spells a
      negative non-branch operand with a '-'. */
  function OperandBits(mnemonic: string, n: int): (s: string)
    ensures mnemonic in Branches ==> IsBinary(s) && |s| >= 4
    ensures mnemonic !in Branches ==> (IsBinary(s) <==> n >= 0)
  {
    if mnemonic in Branches then
      if n < 0 then "1" + Format(Abs(n), 3) else "0" + Format(n, 3)
    else if mnemonic in ControlStatus then Format(n, 3)
    else Format(n, 4)
  }

  /** Every opcode is a non-empty bit string of width 4, 5 or 8; the 5-bit
      ones are exactly CSR and CSW, and the branches have 4 bits. */
  lemma TableShape(m: string)
    requires m in InstructionSet && InstructionSet[m].Bits?
    ensures IsBinary(InstructionSet[m].bits)
    ensures |InstructionSet[m].bits| in {4, 5, 8}
    ensures |InstructionSet[m].bits| == 5 <==> m in ControlStatus
    ensures m in Branches ==> |InstructionSet[m].bits| == 4
  {
    MapOfFrom(Table, m);
    var j :| 0 <= j < |Table| && Table[j].0 == m && Table[j].1 == InstructionSet[m];
    PairShapes();
  }

  /** The shape of every pair of the table. */
  lemma PairShapes()
    ensures forall j :: 0 <= j < |Table| ==> Table[j].1.Bits? ==>
      && IsBinary(Table[j].1.bits)
      && |Table[j].1.bits| in {4, 5, 8}
      && (|Table[j].1.bits| == 5 <==> Table[j].0 in ControlStatus)
      && (Table[j].0 in Branches ==> |Table[j].1.bits| == 4)
  {
  }

  /** `DATA` is the only directive in the table. */
  lemma OnlyDataIsDirective(m: string)
    requires m in InstructionSet
    ensures InstructionSet[m].DataDirective? <==> m == "DATA"
  {
    MapOfFrom(Table, m);
    var j :| 0 <= j < |Table| && Table[j].0 == m && Table[j].1 == InstructionSet[m];
    DataPairs();
  }

  /** Only the `DATA` pair holds the directive. */
  lemma DataPairs()
    ensures forall j :: 0 <= j < |Table| ==> (Table[j].1.DataDirective? <==> Table[j].0 == "DATA")
  {
  }

  /** Each pair of the table is in the dictionary. */
  lemma Entry(i: nat)
    requires i < |Table|
    ensures Table[i].0 in InstructionSet && InstructionSet[Table[i].0] == Table[i].1
  {
    KeysDistinct();
    MapOfHas(Table, i);
  }

  /** A name no pair carries is not in the dictionary. */
  lemma NotInTable(m: string)
    requires forall j :: 0 <= j < |Table| ==> Table[j].0 != m
    ensures m !in InstructionSet
  {
    if m in InstructionSet {
      MapOfFrom(Table, m);
    }
  }

  /** The numbers some opcodes' bits spell. */
  lemma OpcodeValues()
    ensures BinValue("0000") == 0 && BinValue("0001") == 1 && BinValue("0011") == 3
    ensures BinValue("1101") == 13 && BinValue("10111") == 23
    ensures BinValue("11111111") == 255 && BinValue("11111101") == 253
  {
    NibbleValue("0000");
    NibbleValue("0001");
    NibbleValue("0011");
    NibbleValue("1101");
    NibbleValue("1111");
    NibbleValue("1011");
    BinValueAppend("1011", "1");
    assert "1011" + "1" == "10111";
    assert BinValue("1") == 1 by {
      assert "1"[..0] == [];
    }
    BinValueAppend("1111", "1111");
    assert "1111" + "1111" == "11111111";
    BinValueAppend("1111", "1101");
    assert "1111" + "1101" == "11111101";
  }
}
