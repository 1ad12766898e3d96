/** The qtcore-C1 assembler: each `address: MNEMONIC [operand]` line is
    encoded into one slot of a 256-entry memory image. Python's exceptions
    are the `Err` cases of `Result`. */
module Assembler {
  import opened PyText
  import opened BinaryText
  import opened Opcodes

  const ImageSize: int := 256

  /** The assembled memory image, one integer per address. */
  type Image = seq<int>

  /** Why a line cannot be assembled; each is an exception the script raises. */
  datatype AsmError =
      /** ValueError: `line.split(":")` does not give exactly two fields. */
    | MalformedLine
      /** ValueError: `int()` of something that is not a decimal numeral. */
    | BadNumeral
      /** IndexError: nothing after the colon, so no `parts[0]`. */
    | MissingMnemonic(address: int)
      /** The explicit "Unknown instruction" exception. */
    | UnknownInstruction(mnemonic: string, address: int)
      /** IndexError: `DATA` without `parts[1]`. */
    | MissingOperand(address: int)
      /** ValueError: `int(opcode, 2)` meets the '-' that `format` writes for
          a negative operand of a non-branch mnemonic. */
    | NegativeOperand(address: int)
      /** IndexError: `assembled[address]` outside -256..255. */
    | AddressOutOfRange(address: int)

  datatype Result<+T> = Ok(value: T) | Err(error: AsmError) {
    predicate IsFailure() {
      Err?
    }

    function PropagateFailure<U>(): Result<U>
      requires Err?
    {
      Err(error)
    }

    function Extract(): T
      requires Ok?
    {
      value
    }
  }

  /** A slot of the image. */
  type Index = i: nat | i < ImageSize

  /** One line's effect: store `value` at image slot `index`. */
  datatype Write = Write(index: Index, value: int)

  /** `int(text)`: a parse failure is Python's `ValueError`. */
  function Numeral(parsed: Option<int>): Result<int> {
    match parsed
    case Some(n) => Ok(n)
    case None => Err(BadNumeral)
  }

  /** The slot a Python list assignment `assembled[address]` reaches:
      negative addresses count from the end. */
  function Slot(address: int): (r: Result<Index>)
    ensures r.Ok? <==> -ImageSize <= address < ImageSize
    ensures r.Ok? ==> r.value % ImageSize == address % ImageSize
  {
    if 0 <= address < ImageSize then Ok(address)
    else if -ImageSize <= address < 0 then Ok(address + ImageSize)
    else Err(AddressOutOfRange(address))
  }

  /** The number spelled by the word after the mnemonic, if there is one.
      Python parses that word only in the branches that use it; parsing is
      pure, so reading the result only there gives the same outcome. */
  function Operand(parts: seq<string>): Option<Option<int>> {
    if |parts| > 1 then Some(ParseInt(parts[1])) else None
  }

  /** The value a line stores, from its upper-cased mnemonic and its
      operand. */
  function Encode(address: int, mnemonic: string, operand: Option<Option<int>>): (r: Result<int>)
    ensures r.Err? && r.error.UnknownInstruction? <==> mnemonic !in InstructionSet
  {
    if mnemonic !in InstructionSet then Err(UnknownInstruction(mnemonic, address))
    else
      match InstructionSet[mnemonic]
      case DataDirective =>
        if operand.None? then Err(MissingOperand(address)) else Numeral(operand.value)
      case Bits(bits) =>
        var text :- if operand.None? then Ok(bits)
                    else var n :- Numeral(operand.value); Ok(bits + OperandBits(mnemonic, n));
        match ParseBinary(text)
        case Some(v) => Ok(v)
        case None => Err(NegativeOperand(address))
  }

  /** One source line: everything after the first ';' is dropped, the rest
      must split on ':' into exactly an address and an instruction. */
  function AssembleLine(line: string): Result<Write> {
    var code := SplitOn(line, ';')[0];
    var fields := SplitOn(code, ':');
    if |fields| != 2 then Err(MalformedLine)
    else AssembleStatement(fields[0], fields[1])
  }

  /** The address and instruction halves of a line: the address is a
      decimal numeral, the instruction a mnemonic and optional operand
      words. */
  function AssembleStatement(addressText: string, instruction: string): Result<Write> {
    var address :- Numeral(ParseInt(Strip(addressText)));
    var parts := Words(Strip(instruction));
    if |parts| == 0 then Err(MissingMnemonic(address))
    else
      var value :- Encode(address, Upper(parts[0]), Operand(parts));
      var index :- Slot(address);
      Ok(Write(index, value))
  }

  function Blank(): (image: Image)
    ensures |image| == ImageSize
    ensures forall a :: 0 <= a < ImageSize ==> image[a] == 0
  {
    seq(ImageSize, _ => 0)
  }

  /** The assembly loop, over the outcomes of the lines in order: each
      successful line stores its value, the first failing line aborts. */
  function ApplyLines(image: Image, outcomes: seq<Result<Write>>): (r: Result<Image>)
    requires |image| == ImageSize
    ensures r.Ok? ==> |r.value| == ImageSize
    decreases |outcomes|
  {
    if |outcomes| == 0 then Ok(image)
    else
      match outcomes[0]
      case Err(e) => Err(e)
      case Ok(w) => ApplyLines(image[w.index := w.value], outcomes[1..])
  }

  /** Each line's outcome; lines are independent of one another. */
  function LineOutcomes(lines: seq<string>): (outcomes: seq<Result<Write>>)
    ensures |outcomes| == |lines|
    ensures forall j :: 0 <= j < |lines| ==> outcomes[j] == AssembleLine(lines[j])
  {
    seq(|lines|, j requires 0 <= j < |lines| => AssembleLine(lines[j]))
  }

  /** `assemble(program)`: a zero image updated by every line. */
  function Assemble(lines: seq<string>): (r: Result<Image>)
    ensures r.Ok? ==> |r.value| == ImageSize
  {
    ApplyLines(Blank(), LineOutcomes(lines))
  }

  /** The script's pre-filter: every line stripped, then lines starting with
      ';' and empty lines dropped. */
  function Prefilter(raw: seq<string>): (kept: seq<string>)
    ensures |kept| <= |raw|
    ensures forall j :: 0 <= j < |kept| ==> |kept[j]| > 0 && kept[j][0] != ';'
  {
    if |raw| == 0 then []
    else
      var line := Strip(raw[0]);
      (if |line| > 0 && line[0] != ';' then [line] else []) + Prefilter(raw[1..])
  }

  /** What the script assembles from the lines of a source file. */
  function AssembleFile(raw: seq<string>): Result<Image> {
    Assemble(Prefilter(raw))
  }
}
