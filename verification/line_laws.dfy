/** Properties of single source lines: comments after ';' are ignored and
    the line is read without regard to letter case. */
module LineLaws {
  import opened PyText
  import opened Assembler

  /** Text after the first ';' plays no part in how a line assembles. */
  lemma TrailingCommentIgnored(code: string, comment: string)
    requires ';' !in code
    ensures AssembleLine(code + ";" + comment) == AssembleLine(code)
  {
    var line := code + [';'] + comment;
    assert code + ";" + comment == line;
    FirstIndexAfter(code, ';', comment);
    FirstIndexAbsent(code, ';');
    SplitOnStep(line, ';');
    SplitOnStep(code, ';');
    assert line[..|code|] == code;
  }

  /** A statement reads only the number its address spells, how many words
      its instruction has, the mnemonic in upper case and the operand's
      number. */
  lemma StatementReads(addressText: string, instruction: string, addressText': string, instruction': string)
    requires ParseInt(Strip(addressText)) == ParseInt(Strip(addressText'))
    requires |Words(Strip(instruction))| == |Words(Strip(instruction'))|
    requires |Words(Strip(instruction))| > 0 ==>
      Upper(Words(Strip(instruction))[0]) == Upper(Words(Strip(instruction'))[0])
    requires Operand(Words(Strip(instruction))) == Operand(Words(Strip(instruction')))
    ensures AssembleStatement(addressText, instruction) == AssembleStatement(addressText', instruction')
  {
  }

  /** The statement read in upper case assembles the same. */
  lemma StatementIgnoresCase(addressText: string, instruction: string)
    ensures AssembleStatement(Upper(addressText), Upper(instruction))
         == AssembleStatement(addressText, instruction)
  {
    StripUpper(addressText);
    ParseIntUpper(Strip(addressText));
    StripUpper(instruction);
    var parts := Words(Strip(instruction));
    WordsUpper(Strip(instruction));
    var parts' := Words(Strip(Upper(instruction)));
    assert parts' == UpperAll(parts);
    if |parts| > 0 {
      UpperIdempotent(parts[0]);
      assert Upper(parts'[0]) == Upper(parts[0]);
    }
    if |parts| > 1 {
      ParseIntUpper(parts[1]);
    }
    assert Operand(parts') == Operand(parts);
    StatementReads(Upper(addressText), Upper(instruction), addressText, instruction);
  }

  /** Mnemonics, and indeed whole lines, are matched without regard to case:
      upper-casing a line does not change what it assembles to. */
  lemma AssembleLineIgnoresCase(line: string)
    ensures AssembleLine(Upper(line)) == AssembleLine(line)
  {
    var code := SplitOn(line, ';')[0];
    SplitOnUpper(line, ';');
    assert SplitOn(Upper(line), ';')[0] == Upper(code);
    var fields := SplitOn(code, ':');
    SplitOnUpper(code, ':');
    var fields' := SplitOn(Upper(code), ':');
    assert fields' == UpperAll(fields);
    if |fields| == 2 {
      StatementIgnoresCase(fields[0], fields[1]);
    }
  }

  /** A mnemonic as the table spells it: upper case, one word, none of the
      line's punctuation. */
  predicate PlainMnemonic(m: string) {
    |m| > 0 && NoSpace(m) && ':' !in m && ';' !in m && Upper(m) == m
  }

  /** The usual spelling of a statement, `address: MNEMONIC [operand]`. */
  function Spell(address: int, m: string, operand: Option<int>): string {
    Decimal(address) + ": " + Instruction(m, operand)
  }

  function Instruction(m: string, operand: Option<int>): string {
    m + (if operand.Some? then " " + Decimal(operand.value) else "")
  }

  /** An operand word that is present and spells `operand.value`. */
  function Spelled(operand: Option<int>): Option<Option<int>> {
    if operand.Some? then Some(Some(operand.value)) else None
  }

  /** A statement whose address parses and whose instruction has words. */
  lemma StatementOf(addressText: string, instruction: string, address: int, parts: seq<string>)
    requires ParseInt(Strip(addressText)) == Some(address)
    requires Words(Strip(instruction)) == parts && |parts| > 0
    ensures AssembleStatement(addressText, instruction) ==
      (var value :- Encode(address, Upper(parts[0]), Operand(parts));
       var index :- Slot(address);
       Ok(Write(index, value)))
  {
  }

  /** A spelled line splits into its address and the rest. */
  lemma SpelledFields(address: int, instruction: string)
    requires ':' !in instruction && ';' !in instruction
    ensures AssembleLine(Decimal(address) + ": " + instruction)
         == AssembleStatement(Decimal(address), " " + instruction)
  {
    var d := Decimal(address);
    var rest := " " + instruction;
    var line := d + ": " + instruction;
    assert line == d + [':'] + rest;
    DecimalPlain(address);
    assert ';' !in line;
    FirstIndexAbsent(line, ';');
    SplitOnStep(line, ';');
    assert ':' !in rest;
    SplitJoin([d, rest], ':');
    assert Join([d, rest], ':') == line;
  }

  /** The words of a spelled instruction: the mnemonic, then the operand. */
  lemma InstructionWords(m: string, operand: Option<int>)
    requires PlainMnemonic(m)
    ensures ':' !in Instruction(m, operand) && ';' !in Instruction(m, operand)
    ensures Words(Strip(" " + Instruction(m, operand))) ==
      if operand.Some? then [m, Decimal(operand.value)] else [m]
  {
    if operand.Some? {
      var e := Decimal(operand.value);
      DecimalPlain(operand.value);
      assert Instruction(m, operand) == m + " " + e;
      SpacedWords(m, e);
    } else {
      assert Instruction(m, operand) == m;
      SpacedWord(m);
    }
  }

  /** Reading back a spelled statement: the line stores at the address's
      slot what `Encode` gives for the mnemonic and the operand's value. */
  lemma SpelledLine(address: int, m: string, operand: Option<int>)
    requires PlainMnemonic(m)
    ensures AssembleLine(Spell(address, m, operand)) ==
      (var value :- Encode(address, m, Spelled(operand));
       var index :- Slot(address);
       Ok(Write(index, value)))
  {
    var d := Decimal(address);
    var instruction := Instruction(m, operand);
    InstructionWords(m, operand);
    SpelledFields(address, instruction);
    DecimalStripped(address);
    ParseDecimal(address);
    var parts := Words(Strip(" " + instruction));
    if operand.Some? {
      ParseDecimal(operand.value);
    }
    assert Operand(parts) == Spelled(operand);
    StatementOf(d, " " + instruction, address, parts);
  }
}
