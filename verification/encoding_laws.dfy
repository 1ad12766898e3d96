/** What `Encode` computes, read as numbers: an opcode's bits shifted left
    by the operand field's width, plus the operand field. In range, every
    instruction fits in one byte; out of range, `format` widens the field
    and the operand spills into the opcode bits. */
module EncodingLaws {
  import opened PyText
  import opened BinaryText
  import opened Opcodes
  import opened Assembler

  /** The text `int(opcode, 2)` reads for an opcode with bits `bits` and
      operand `n` is the two fields side by side. */
  lemma BitsWithOperand(address: int, m: string, bits: string, n: int)
    requires m in InstructionSet && InstructionSet[m] == Bits(bits)
    ensures Encode(address, m, Some(Some(n))) ==
      if IsBinary(OperandBits(m, n)) then Ok(BinValue(bits + OperandBits(m, n)))
      else Err(NegativeOperand(address))
  {
    TableShape(m);
    var text := bits + OperandBits(m, n);
    if IsBinary(OperandBits(m, n)) {
      assert IsBinary(text);
    } else {
      var i :| 0 <= i < |OperandBits(m, n)| && OperandBits(m, n)[i] !in "01";
      assert text[|bits| + i] == OperandBits(m, n)[i];
    }
  }

  /** An operand whose field, appended to the opcode bits, reads as a
      number stores that number. */
  lemma BitsWithField(address: int, m: string, bits: string, n: int, field: string, v: nat)
    requires m in InstructionSet && InstructionSet[m] == Bits(bits)
    requires OperandBits(m, n) == field && ParseBinary(bits + field) == Some(v)
    ensures Encode(address, m, Some(Some(n))) == Ok(v)
  {
  }

  /** A mnemonic written without an operand stores its opcode bits alone. */
  lemma EncodeBare(address: int, m: string, bits: string)
    requires m in InstructionSet && InstructionSet[m] == Bits(bits)
    ensures Encode(address, m, None) == Ok(BinValue(bits))
    ensures BinValue(bits) < 256
  {
    TableShape(m);
    BinValueBound(bits);
    assert Pow2(|bits|) <= Pow2(8) == 256;
  }

  /** Four opcode bits followed by a four-bit field read as
      `opcode * 16 + n`. */
  lemma NibbleField(bits: string, code: nat, n: int)
    requires |bits| == 4 && IsBinary(bits) && BinValue(bits) == code && 0 <= n < 16
    ensures ParseBinary(bits + Format(n, 4)) == Some(code * 16 + n)
    ensures code * 16 + n < 256
  {
    var field := Format(n, 4);
    assert Pow2(4) == 16;
    FormatInRange(n, 4);
    BinValueAppend(bits, field);
    BinValueBound(bits);
    assert IsBinary(bits + field);
  }

  /** The 4-bit opcodes other than the branches take a 4-bit operand:
      `opcode * 16 + n`, which fits in a byte. */
  lemma EncodeNibble(address: int, m: string, bits: string, code: nat, n: int)
    requires m in InstructionSet && InstructionSet[m] == Bits(bits) && BinValue(bits) == code
    requires |bits| == 4 && m !in Branches && m !in ControlStatus
    requires 0 <= n < 16
    ensures Encode(address, m, Some(Some(n))) == Ok(code * 16 + n)
    ensures code * 16 + n < 256
  {
    assert IsBinary(bits) by {
      TableShape(m);
    }
    NibbleField(bits, code, n);
    BitsWithField(address, m, bits, n, Format(n, 4), code * 16 + n);
  }

  /** Five opcode bits followed by a three-bit field read as
      `opcode * 8 + n`. */
  lemma ControlField(bits: string, code: nat, n: int)
    requires |bits| == 5 && IsBinary(bits) && BinValue(bits) == code && 0 <= n < 8
    ensures ParseBinary(bits + Format(n, 3)) == Some(code * 8 + n)
    ensures code * 8 + n < 256
  {
    var field := Format(n, 3);
    assert Pow2(3) == 8 && Pow2(5) == 32;
    FormatInRange(n, 3);
    BinValueAppend(bits, field);
    BinValueBound(bits);
    assert IsBinary(bits + field);
  }

  /** CSR and CSW have 5 opcode bits and a 3-bit register number:
      `opcode * 8 + n`, which fits in a byte. */
  lemma EncodeControlStatus(address: int, m: string, bits: string, code: nat, n: int)
    requires m in InstructionSet && InstructionSet[m] == Bits(bits) && BinValue(bits) == code
    requires m in ControlStatus
    requires 0 <= n < 8
    ensures Encode(address, m, Some(Some(n))) == Ok(code * 8 + n)
    ensures code * 8 + n < 256
  {
    assert |bits| == 5 && IsBinary(bits) && m !in Branches by {
      TableShape(m);
    }
    ControlField(bits, code, n);
    BitsWithField(address, m, bits, n, Format(n, 3), code * 8 + n);
  }

  /** The operand field of a branch: a sign bit, then the magnitude in
      three bits. */
  function BranchField(n: int): string
    requires -8 < n < 8
  {
    (if n < 0 then "1" else "0") + Format(Abs(n), 3)
  }

  /** Four opcode bits followed by a branch offset read as
      `opcode * 16 + sign * 8 + magnitude`. */
  lemma BranchFieldValue(bits: string, code: nat, n: int)
    requires |bits| == 4 && IsBinary(bits) && BinValue(bits) == code && -8 < n < 8
    ensures ParseBinary(bits + BranchField(n)) == Some(code * 16 + (if n < 0 then 8 else 0) + Abs(n))
    ensures code * 16 + 8 + Abs(n) < 256
  {
    var sign := if n < 0 then "1" else "0";
    var magnitude := Format(Abs(n), 3);
    assert Pow2(3) == 8 && Pow2(4) == 16;
    FormatInRange(Abs(n), 3);
    BinValueAppend(sign, magnitude);
    assert BinValue(sign) == if n < 0 then 1 else 0;
    BinValueAppend(bits, sign + magnitude);
    BinValueBound(bits);
    assert IsBinary(bits + (sign + magnitude));
  }

  /** A branch offset is sign and magnitude: bit 3 set for a backward
      branch, the magnitude in bits 0..2. */
  lemma EncodeBranch(address: int, m: string, bits: string, code: nat, n: int)
    requires m in InstructionSet && InstructionSet[m] == Bits(bits) && BinValue(bits) == code
    requires m in Branches
    requires -8 < n < 8
    ensures Encode(address, m, Some(Some(n))) == Ok(code * 16 + (if n < 0 then 8 else 0) + Abs(n))
    ensures code * 16 + 8 + Abs(n) < 256
  {
    assert |bits| == 4 && IsBinary(bits) by {
      TableShape(m);
    }
    assert OperandBits(m, n) == BranchField(n);
    BranchFieldValue(bits, code, n);
    BitsWithField(address, m, bits, n, BranchField(n), code * 16 + (if n < 0 then 8 else 0) + Abs(n));
  }

  /** `DATA n` stores `n` itself, unchecked: any integer, negative or
      wider than a byte, lands in the image. */
  lemma EncodeData(address: int, n: int)
    ensures Encode(address, "DATA", Some(Some(n))) == Ok(n)
    ensures Encode(address, "DATA", None) == Err(MissingOperand(address))
    ensures Encode(address, "DATA", Some(None)) == Err(BadNumeral)
  {
    Entry(27);
  }

  /** A negative operand is an error for every opcode but the branches,
      and only a negative operand is. */
  lemma EncodeNegativeIff(address: int, m: string, bits: string, n: int)
    requires m in InstructionSet && InstructionSet[m] == Bits(bits)
    requires m !in Branches
    ensures Encode(address, m, Some(Some(n))).Err? <==> n < 0
    ensures n < 0 ==> Encode(address, m, Some(Some(n))) == Err(NegativeOperand(address))
  {
    BitsWithOperand(address, m, bits, n);
  }

  /** No operand is range checked: past its field's width the operand is
      written in full and its high bits add into the opcode's. */
  lemma EncodeWidens(address: int, m: string, bits: string, n: nat)
    requires m in InstructionSet && InstructionSet[m] == Bits(bits)
    requires m !in Branches
    ensures Encode(address, m, Some(Some(n))) ==
      Ok(BinValue(bits) * Pow2(|OperandBits(m, n)|) + n)
  {
    BitsWithOperand(address, m, bits, n);
    BinValueAppend(bits, OperandBits(m, n));
    if m in ControlStatus {
      FormatValue(n, 3);
    } else {
      FormatValue(n, 4);
    }
  }

  /** `STA 16` stores 48: the operand's fifth bit lands in the opcode. */
  lemma StoreSixteen()
    ensures Encode(0, "STA", Some(Some(16))) == Ok(48)
  {
    Entry(1);
    OpcodeValues();
    assert ToBinary(16) == "10000";
    assert OperandBits("STA", 16) == "10000";
    EncodeWidens(0, "STA", "0001", 16);
    assert Pow2(5) == 32;
  }

  /** `SUB 0` stores 48 as well. */
  lemma SubtractZero()
    ensures Encode(0, "SUB", Some(Some(0))) == Ok(48)
  {
    Entry(3);
    OpcodeValues();
    EncodeNibble(0, "SUB", "0011", 3, 0);
  }

  /** Out of range, different instructions collide: `STA 16` stores the
      byte of `SUB 0`. */
  lemma OperandSpills()
    ensures Encode(0, "STA", Some(Some(16))) == Encode(0, "SUB", Some(Some(0)))
  {
    StoreSixteen();
    SubtractZero();
  }

  /** `LDA n` is `n`: LDA's opcode bits are all zero. */
  lemma EncodeLoad(address: int, n: nat)
    requires n < 16
    ensures Encode(address, "LDA", Some(Some(n))) == Ok(n)
  {
    Entry(0);
    OpcodeValues();
    EncodeNibble(address, "LDA", "0000", 0, n);
  }

  /** `HLT` is 0xFF. */
  lemma EncodeHalt(address: int)
    ensures Encode(address, "HLT", None) == Ok(0xFF)
  {
    Entry(14);
    OpcodeValues();
    EncodeBare(address, "HLT", "11111111");
  }

  /** `CLR` is 0xFD. */
  lemma EncodeClear(address: int)
    ensures Encode(address, "CLR", None) == Ok(0xFD)
  {
    Entry(25);
    OpcodeValues();
    EncodeBare(address, "CLR", "11111101");
  }

  /** `BNE -3` is 0xDB: opcode 1101, sign bit set, magnitude 3. */
  lemma EncodeBranchBack(address: int)
    ensures Encode(address, "BNE", Some(Some(-3))) == Ok(0xDB)
  {
    Entry(16);
    OpcodeValues();
    EncodeBranch(address, "BNE", "1101", 13, -3);
  }

  /** `CSW 5` is 0xBD: opcode 10111, register 5. */
  lemma EncodeControlWrite(address: int)
    ensures Encode(address, "CSW", Some(Some(5))) == Ok(0xBD)
  {
    Entry(11);
    OpcodeValues();
    EncodeControlStatus(address, "CSW", "10111", 23, 5);
  }
}
