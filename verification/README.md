# qtcore-C1: assembler and scan-chain test firmware, in Dafny

This project models two small pieces of the qtcore-C1 repository and proves what they do.

**1. The qtcore-C1 assembler** (`qtcore-C1_assembler/assembler.py`).
- The opcode table `instruction_set`:
  - `Opcodes.Table` lists the pairs in source order;
  - `Opcodes.InstructionSet` is the dictionary built from that list.
- `assemble` (`Assembler.Assemble`):
  - turns `address: MNEMONIC [operand]` lines into a 256-entry memory image;
  - is modelled at the level of text: the comment cut at `;`, `split(":")`, `strip()`, `split()`, `upper()`, `int()`, `format(n, '0wb')` and `int(opcode, 2)` each appear as a function (modules `PyText` and `BinaryText`).
  - Every Python exception the loop can raise becomes an `Err` value of `Result` rather than a precondition. The one exception is the digit limit of `int()`, listed under "Left out".
- The script's pre-filter (`Assembler.Prefilter`):
  - strips each line;
  - drops lines that start with `;` and lines that are empty.
- The numeric part of the `.caravel.c` writer (`Packing.Pack`):
  - reverses the image;
  - reads it four bytes at a time as big-endian 32-bit words;
  - appends the three register words.

**2. `main` of the `wb_port_test4` firmware** (`verilog/dv/wb_port_test4/wb_port_test4.c`, lines 165–225). This is the handshake with the user project over the scan-chain registers:
- scan in the 67-word payload, with write-verify and a bounded ready poll;
- request a halt;
- scan out two words;
- check the first of them.

The device is a finite *trace*: the successive values that reads of its registers return. `ScanHarness.RunMain` maps a trace to:
- every register access the firmware makes;
- the status codes it writes to `reg_mprj_datal`;
- the outcome.

Each `while(1)` after a status code is a terminal outcome. The model has one outcome of its own, `Starved`: the trace ran out before the firmware finished. That outcome never arises once the trace has 496 values (`RunScenarios.RunNeverStarves`).

The C is modelled as written. In C, `!=` and `==` bind tighter than `&`, so:
- `ctrl & 0b11 != 0b00` is `ctrl & 1`;
- `ctrl & 0b100 == 0b000` is `ctrl & 0`.

`ScanHarness.Masking` chooses between:
- `Literal`: the code as written;
- `Intended`: the reading the comments describe.

The run lemmas that take a masking `m` hold for both readings. `RunScenarios.RunNeverStarves` is about the code as written. The findings name the reading they are about.

`Payload.Program` is the firmware's 67-word payload. It is tied back to the assembler: it is the packing of a byte image whose first instruction assembles from `CLR`.

## Model

| member | source | states |
|---|---|---|
| Opcodes.KeysDistinct | qtcore-C1_assembler/assembler.py:1-30 | no mnemonic occurs twice in the opcode table, so every pair of the table is in the dictionary as written |
| Opcodes.Entry | qtcore-C1_assembler/assembler.py:1-30 | each mnemonic of the table maps to its own bit string (or to the DATA directive) |
| Opcodes.NotInTable | qtcore-C1_assembler/assembler.py:1-30 | a name that no table line carries is not an instruction |
| Opcodes.TableShape | qtcore-C1_assembler/assembler.py:1-30 | every opcode is a bit string of width 4, 5 or 8; exactly CSR and CSW have 5 bits; the branches have 4 |
| Opcodes.OnlyDataIsDirective | qtcore-C1_assembler/assembler.py:29 | DATA is the one entry that is not an opcode |
| Opcodes.OperandBits | qtcore-C1_assembler/assembler.py:54-63 | the operand text is all binary digits for the branches, and for the other mnemonics exactly when the operand is not negative |
| Assembler.Encode | qtcore-C1_assembler/assembler.py:46-64 | the line fails as an unknown instruction exactly when the upper-cased mnemonic is not in the table |
| Assembler.Slot | qtcore-C1_assembler/assembler.py:51-64 | `assembled[address]` reaches a slot exactly for -256..255; negative addresses count from the end |
| Assembler.Assemble | qtcore-C1_assembler/assembler.py:32-65 | a successful assembly is an image of exactly 256 entries |
| Assembler.Prefilter | qtcore-C1_assembler/assembler.py:89-97 | what survives the pre-filter is never empty and never starts with ';', and there are no more lines than in the input (that each kept line is a stripped input line is `PrefilterLaws.PrefilterStages`) |
| EncodingLaws.EncodeNibble | qtcore-C1_assembler/assembler.py:62-64 | a 4-bit opcode other than a branch with operand 0..15 stores `opcode*16 + n`, below 256 |
| EncodingLaws.EncodeControlStatus | qtcore-C1_assembler/assembler.py:60-64 | CSR/CSW with operand 0..7 store `opcode*8 + n`, below 256 |
| EncodingLaws.EncodeBranch | qtcore-C1_assembler/assembler.py:54-64 | BEQ/BNE/BRA with -7..7 store `opcode*16 + (n<0 ? 8 : 0) + abs(n)` (sign and magnitude), below 256 |
| EncodingLaws.EncodeBare | qtcore-C1_assembler/assembler.py:53-64 | a mnemonic without an operand stores its table bits read in base 2, below 256 |
| EncodingLaws.EncodeData | qtcore-C1_assembler/assembler.py:50-51 | `DATA n` stores n unchanged, whatever its size or sign; DATA without an operand is an IndexError, and a malformed one a ValueError |
| EncodingLaws.EncodeNegativeIff | qtcore-C1_assembler/assembler.py:60-64 | for a mnemonic that is not a branch, an operand makes the line fail if and only if it is negative, because of the '-' that `format` writes |
| EncodingLaws.EncodeWidens | qtcore-C1_assembler/assembler.py:60-64 | an operand of any size is written in full (`format` does not truncate): the value is `opcode * 2^width + n` with the widened field |
| EncodingLaws.OperandSpills | qtcore-C1_assembler/assembler.py:63-64 | out of range, instructions collide: `STA 16` stores the same byte as `SUB 0` |
| EncodingLaws.StoreSixteen | qtcore-C1_assembler/assembler.py:63-64 | `STA 16` stores 48 |
| EncodingLaws.SubtractZero | qtcore-C1_assembler/assembler.py:63-64 | `SUB 0` stores 48 |
| EncodingLaws.EncodeLoad | qtcore-C1_assembler/assembler.py:62-64 | `LDA n` stores n for n in 0..15 |
| EncodingLaws.EncodeHalt | qtcore-C1_assembler/assembler.py:53-64 | `HLT` stores 0xFF |
| EncodingLaws.EncodeClear | qtcore-C1_assembler/assembler.py:53-64 | `CLR` stores 0xFD |
| EncodingLaws.EncodeBranchBack | qtcore-C1_assembler/assembler.py:54-64 | `BNE -3` stores 0xDB |
| EncodingLaws.EncodeControlWrite | qtcore-C1_assembler/assembler.py:60-64 | `CSW 5` stores 0xBD |
| AssemblyExamples.LoadLine | qtcore-C1_assembler/assembler.py:41-64 | the line `a: LDA n` writes n at a |
| AssemblyExamples.HaltLine | qtcore-C1_assembler/assembler.py:41-64 | the line `a: HLT` writes 0xFF at a |
| AssemblyExamples.BranchBackLine | qtcore-C1_assembler/assembler.py:41-64 | the line `a: BNE -3` writes 0xDB at a |
| AssemblyExamples.ControlWriteLine | qtcore-C1_assembler/assembler.py:41-64 | the line `a: CSW 5` writes 0xBD at a |
| AssemblyExamples.DataLine | qtcore-C1_assembler/assembler.py:41-51 | the line `a: DATA n` writes n at a |
| AssemblyExamples.UnknownLine | qtcore-C1_assembler/assembler.py:47-49 | the line `a: NOP` raises the unknown-instruction error naming NOP and a |
| LineLaws.TrailingCommentIgnored | qtcore-C1_assembler/assembler.py:41 | text after the first ';' on a line does not change what the line assembles to |
| LineLaws.AssembleLineIgnoresCase | qtcore-C1_assembler/assembler.py:46 | upper-casing a line does not change its outcome: mnemonics match case-insensitively |
| LineLaws.StatementIgnoresCase | qtcore-C1_assembler/assembler.py:43-64 | the same, for the address and instruction halves of a line |
| LineLaws.StatementReads | qtcore-C1_assembler/assembler.py:44-64 | a line's outcome depends only on its address number, its word count, its upper-cased mnemonic and its operand's number |
| LineLaws.SpelledLine | qtcore-C1_assembler/assembler.py:41-64 | the line `address: M [n]` stores at `address` what `Encode` gives for M and n, or fails with `Encode`'s error |
| LineLaws.SpelledFields | qtcore-C1_assembler/assembler.py:41-43 | such a line splits into exactly its address text and its instruction text |
| LineLaws.InstructionWords | qtcore-C1_assembler/assembler.py:45 | the instruction `M n` splits into the words M and n |
| AssemblyLaws.ApplySnoc | qtcore-C1_assembler/assembler.py:39-64 | one more line either fails the assembly or updates exactly its own slot of the image so far |
| AssemblyLaws.ApplyOkIff | qtcore-C1_assembler/assembler.py:39-64 | the loop succeeds if and only if every line succeeds |
| AssemblyLaws.ApplyFirstError | qtcore-C1_assembler/assembler.py:39-64 | the first failing line's error is the loop's error |
| AssemblyLaws.ApplyContents | qtcore-C1_assembler/assembler.py:33-64 | every slot of the result holds the value of the last line written there, or the initial value |
| AssemblyLaws.AssembleOkIff | qtcore-C1_assembler/assembler.py:32-65 | `assemble` returns an image if and only if every line assembles |
| AssemblyLaws.AssembleFirstError | qtcore-C1_assembler/assembler.py:47-49 | a line that fails (an unknown mnemonic, say) makes `assemble` fail with that line's error, and no image is produced |
| AssemblyLaws.UntouchedStaysZero | qtcore-C1_assembler/assembler.py:33 | an address that no line names stays 0 |
| AssemblyLaws.LastLineWins | qtcore-C1_assembler/assembler.py:51-64 | a later line for the same address overwrites an earlier one |
| PrefilterLaws.PrefilterStages | qtcore-C1_assembler/assembler.py:89-97 | the one-pass pre-filter equals the script's three passes: strip, drop comment lines, drop empty lines |
| PrefilterLaws.PrefilterAppend | qtcore-C1_assembler/assembler.py:94-97 | filtering a concatenation filters each part |
| PrefilterLaws.PrefilterLine | qtcore-C1_assembler/assembler.py:92-97 | one line survives, stripped, exactly when it is not blank or a comment |
| PrefilterLaws.PrefilterIdempotent | qtcore-C1_assembler/assembler.py:92-97 | filtering twice is filtering once |
| PrefilterLaws.PrefilterKeepsClean | qtcore-C1_assembler/assembler.py:92-97 | stripped lines that are neither blank nor comments all pass through unchanged |
| PrefilterLaws.NoiseLineIgnored | qtcore-C1_assembler/assembler.py:89-100 | inserting a blank or comment line anywhere in a source file does not change the assembled image or the error |
| PrefilterLaws.DropComments | qtcore-C1_assembler/assembler.py:95 | no line that survives starts with ';' |
| PrefilterLaws.DropEmpty | qtcore-C1_assembler/assembler.py:97 | no line that survives is empty |
| PyText.SplitOn | qtcore-C1_assembler/assembler.py:41-43 | `split(sep)` gives at least one part, no part contains the separator, and the parts joined give the text back |
| PyText.SplitJoin | qtcore-C1_assembler/assembler.py:41-43 | splitting the join of separator-free parts gives the parts back |
| PyText.Strip | qtcore-C1_assembler/assembler.py:44-45 | `strip()` leaves no whitespace at either end |
| PyText.StripSpan | qtcore-C1_assembler/assembler.py:44-45 | `strip()` keeps one contiguous slice of its input and removes only whitespace on either side of it, so an all-whitespace line strips to the empty string |
| PyText.StripIdempotent | qtcore-C1_assembler/assembler.py:92 | stripping twice is stripping once |
| PyText.Words | qtcore-C1_assembler/assembler.py:45 | `split()` gives non-empty words without whitespace |
| PyText.WordsKeepText | qtcore-C1_assembler/assembler.py:45 | `split()` loses only whitespace: its words, run together, are the non-whitespace characters of the line in order |
| PyText.WordsEmptyIff | qtcore-C1_assembler/assembler.py:45 | `split()` finds no word exactly when the line is all whitespace |
| PyText.WordsJoin | qtcore-C1_assembler/assembler.py:45 | splitting non-empty, whitespace-free words joined by single blanks gives the same words back |
| PyText.ParseDecimal | qtcore-C1_assembler/assembler.py:44 | `int()` reads back the decimal spelling of any integer |
| PyText.WordsUpper | qtcore-C1_assembler/assembler.py:45-46 | splitting commutes with upper-casing |
| PyText.ParseIntUpper | qtcore-C1_assembler/assembler.py:44 | upper-casing never changes what `int()` reads |
| BinaryText.FormatInRange | qtcore-C1_assembler/assembler.py:57-63 | in range, `format(n, '0wb')` is exactly w binary digits whose value is n |
| BinaryText.FormatValue | qtcore-C1_assembler/assembler.py:57-63 | out of range, `format` widens the field and still spells n |
| BinaryText.ParseBinary | qtcore-C1_assembler/assembler.py:64 | `int(s, 2)` succeeds exactly on non-empty strings of binary digits, with a value below 2^len |
| BinaryText.BinValueAppend | qtcore-C1_assembler/assembler.py:57-64 | appending a field shifts the opcode left by the field's width and adds the field |
| Packing.Pack | qtcore-C1_assembler/assembler.py:121-141 | 67 words; word k is the bytes at addresses 255-4k, 254-4k, 253-4k, 252-4k, most significant first; every word is below 2^32; the last three are 0, 0xFF and 0x2 |
| Packing.UnpackPack | qtcore-C1_assembler/assembler.py:121-141 | loading a packed image gives the image back |
| Packing.PackUnpack | qtcore-C1_assembler/assembler.py:121-141 | and packing the image a 67-word payload loads gives the payload back |
| Packing.WordBytesOfWord | qtcore-C1_assembler/assembler.py:127 | four bytes written as `{:02x}` four times read back as one 32-bit number, and split back into the same bytes |
| Packing.FirstInstructionLast | qtcore-C1_assembler/assembler.py:123-127 | the first instruction is the low byte of the last memory word, and the last address is the high byte of the first |
| Payload.ProgramIsPacked | verilog/dv/wb_port_test4/wb_port_test4.c:30-98 | the firmware's payload has 67 words, ends with the assembler's trailer, and is the packing of the byte image it loads |
| Payload.ProgramStartsWithClear | verilog/dv/wb_port_test4/wb_port_test4.c:30-94 | the payload's first instruction is the assembler's encoding of `CLR` |
| ScanHarness.PollReady | verilog/dv/wb_port_test4/wb_port_test4.c:179-186 | the ready poll reads forward from its position and never past the trace |
| ScanHarness.WaitHalt | verilog/dv/wb_port_test4/wb_port_test4.c:191 | the halt wait never times out: it has no retry limit |
| ScanHarness.ScanOutFrom | verilog/dv/wb_port_test4/wb_port_test4.c:197-216 | a scan-out that goes through captures exactly one word per pass (which words: `ScanLaws.ScanOutCaptures`) |
| ScanHarness.RunMain | verilog/dv/wb_port_test4/wb_port_test4.c:165-225 | the run uses only values the trace holds, and a run that reaches a verdict makes at least two register accesses (which status codes it writes is stated by `RunLaws.RunPassed` and `RunLaws.RunFaultIsLast`) |
| ScanLaws.PollShape | verilog/dv/wb_port_test4/wb_port_test4.c:179-186 | the poll makes at most limit+1 control reads; it expires exactly when that many reads are all busy, and is ready at the first read that is not |
| ScanLaws.PollQuiet | verilog/dv/wb_port_test4/wb_port_test4.c:180-186 | polling only reads the control register: no writes and no status codes |
| ScanLaws.DriveWrites | verilog/dv/wb_port_test4/wb_port_test4.c:172-176 | driving a word writes that word, and only it, to the scan register |
| ScanLaws.DriveStatuses | verilog/dv/wb_port_test4/wb_port_test4.c:172-186 | driving a word writes no status code, unless it faults; then the fault's code is the one status code and the last access |
| ScanLaws.DriveEnds | verilog/dv/wb_port_test4/wb_port_test4.c:172-186 | driving a word reads at most 2+limit values; it ends in a mismatch exactly when the read-back differs, or in a timeout; with enough trace it never starves |
| ScanLaws.ScanInWritesAll | verilog/dv/wb_port_test4/wb_port_test4.c:171-172 | a complete scan-in writes every payload word, in index order |
| ScanLaws.ScanInStops | verilog/dv/wb_port_test4/wb_port_test4.c:171-187 | scan-in stops only on a scan-in fault at one of its indices |
| ScanLaws.ScanInFirstFault | verilog/dv/wb_port_test4/wb_port_test4.c:173-176 | a word that faults ends scan-in right there, after that word's one write |
| ScanLaws.ScanInWritesUpTo | verilog/dv/wb_port_test4/wb_port_test4.c:171-186 | a scan-in fault at index k comes after exactly the writes of words 0..k, in order |
| ScanLaws.ScanInStatuses | verilog/dv/wb_port_test4/wb_port_test4.c:171-187 | scan-in writes no status code except the code of the fault that ends it, which is its last access |
| ScanLaws.ScanInEnds | verilog/dv/wb_port_test4/wb_port_test4.c:171-187 | scan-in reads at most 7 values per word, and never starves with that many |
| ScanLaws.WaitHaltShape | verilog/dv/wb_port_test4/wb_port_test4.c:191 | the halt wait reads while the condition holds and stops at the first value for which it does not |
| ScanLaws.HaltFilters | verilog/dv/wb_port_test4/wb_port_test4.c:189-193 | the halt phase writes no scan word, and writes the one status code 0xAB620000 when it goes through |
| ScanLaws.LiteralHaltReadsOnce | verilog/dv/wb_port_test4/wb_port_test4.c:189-193 | as written, the halt phase writes 0b10, makes one control read whatever it returns, writes 0xAB620000 and then 0b00 |
| ScanLaws.IntendedHaltWaits | verilog/dv/wb_port_test4/wb_port_test4.c:191 | as intended, the halt phase goes on only after a read with bit 2 set, and every earlier read had bit 2 clear |
| ScanLaws.ScanOutWordFilters | verilog/dv/wb_port_test4/wb_port_test4.c:198-215 | one scan-out pass re-drives `program[i]` and writes the marker `0xF0000000` OR `i<<16` as its only status when it goes through |
| ScanLaws.ScanOutWordEnds | verilog/dv/wb_port_test4/wb_port_test4.c:198-215 | a scan-out pass reads at most 13 values; a fault in it logs the marker and then the fault's code, as its last access |
| ScanLaws.DriveReads | verilog/dv/wb_port_test4/wb_port_test4.c:172-186 | driving a word reads the device's values in order, one per register read, from where it starts to where it stops |
| ScanLaws.ScanOutWordCaptures | verilog/dv/wb_port_test4/wb_port_test4.c:198-215 | a scan-out pass that goes on read `program[i]` back, polled until the first read that is not busy, and stores the device's very next value as `scan_in[i]`, with that read as its last access |
| ScanLaws.ScanOutReads | verilog/dv/wb_port_test4/wb_port_test4.c:197-216 | the scan-out loop reads the device's values in order, one per register read, whether it goes through or stops |
| ScanLaws.ScanOutCaptures | verilog/dv/wb_port_test4/wb_port_test4.c:197-216 | a completed scan-out returns exactly the scan-register reads of its log that directly follow a control read showing ready, in order, and its log starts with the marker of word 0 |
| ScanLaws.ScanOutMarkers | verilog/dv/wb_port_test4/wb_port_test4.c:197-198 | a complete scan-out writes the markers for words 0 and 1, in order |
| ScanLaws.ScanOutRewrites | verilog/dv/wb_port_test4/wb_port_test4.c:197-199 | a complete scan-out writes program[0] and program[1] again |
| ScanLaws.ScanOutStops | verilog/dv/wb_port_test4/wb_port_test4.c:197-216 | scan-out stops only on a scan-out fault |
| ScanLaws.ScanOutFaultLog | verilog/dv/wb_port_test4/wb_port_test4.c:197-213 | on a fault, scan-out's log is the markers up to the faulty word and then the fault's code, as its last access |
| ScanLaws.ScanOutEnds | verilog/dv/wb_port_test4/wb_port_test4.c:197-216 | scan-out reads at most 13 values per word, and never starves with that many |
| RunLaws.RunCaptures | verilog/dv/wb_port_test4/wb_port_test4.c:197-223 | the words a run passes with, or the first word it fails the readout check on, are the scan reads right after a ready poll in its scan-out log, which reads the device's values in order from where the halt wait stopped |
| RunLaws.RunPassed | verilog/dv/wb_port_test4/wb_port_test4.c:166-223 | a passing run's statuses are 0xAB600000, 0xAB620000, the two markers, then 0xAB610000 as its last access; it captured two words, the first 0xf1fd0200 |
| RunLaws.RunPassedWrites | verilog/dv/wb_port_test4/wb_port_test4.c:171-199 | a passing run writes the 67 payload words in order, then program[0] and program[1] |
| RunLaws.RunScanInFault | verilog/dv/wb_port_test4/wb_port_test4.c:166-186 | a scan-in fault at index k logs 0xAB600000 and then only the fault's code, as the last access, after exactly k+1 scan writes |
| RunLaws.RunScanOutFault | verilog/dv/wb_port_test4/wb_port_test4.c:166-213 | a scan-out fault at word i logs the start and halt codes, the markers up to i, and then the fault's code, as the last access |
| RunLaws.RunReadoutFail | verilog/dv/wb_port_test4/wb_port_test4.c:218-220 | a readout failure happens only when the first captured word is not 0xf1fd0200, and logs 0xAB7F0000 last |
| RunLaws.RunFaultKinds | verilog/dv/wb_port_test4/wb_port_test4.c:171-220 | every fault is a scan-in fault, a scan-out fault or a readout failure |
| RunLaws.RunFaultIsLast | verilog/dv/wb_port_test4/wb_port_test4.c:175-220 | every fault code is final: it is the last access and the last status, and no status before it is a fault code |
| RunLaws.ReachesCheck | verilog/dv/wb_port_test4/wb_port_test4.c:218-223 | a run that passes or fails the readout went through all three phases, and its verdict is the check of the captured words |
| RunScenarios.RunNeverStarves | verilog/dv/wb_port_test4/wb_port_test4.c:171-223 | as written, the firmware reads the device at most 7*67+1+13*2 = 496 times, so a trace that long always reaches a verdict |
| RunScenarios.HappyPath | verilog/dv/wb_port_test4/wb_port_test4.c:165-223 | on a device that echoes each word and is at once ready and halted, the run uses the whole trace and passes if and only if the first captured word is 0xf1fd0200; otherwise it fails the readout with that word |
| Findings.LiteralReadyTestsBitZero | verilog/dv/wb_port_test4/wb_port_test4.c:180-207 | as written, the ready poll stops at the first read with bit 0 clear and looks at no other bit |
| Findings.BusyBitOneMissed | verilog/dv/wb_port_test4/wb_port_test4.c:180-207 | with bit 1 set and bit 0 clear, the code as written goes on after one read, where the intended test times out |
| Findings.IntendedReadyIsIdle | verilog/dv/wb_port_test4/wb_port_test4.c:178-180 | as intended, the poll is ready only at a read with both low bits clear |
| Findings.HaltNotAwaited | verilog/dv/wb_port_test4/wb_port_test4.c:190-192 | a read with bit 2 clear lets the code as written report the halt, where the intended wait keeps waiting |

## Left out

- The GPIO pin modes, the SPI and wishbone enables, the `reg_mprj_xfer` busy-wait and the logic-analyser setup (wb_port_test4.c lines 121–163): these are hardware bring-up against registers this model does not see.
- Volatile memory-mapped I/O and its timing: the device is the trace of values its reads return, so the device's own behaviour is not modelled.
- `Starved` is an outcome of the model, not of the firmware. It stands for a device that never answers the remaining reads.
- `ScanLaws.IntendedHaltWaits`: under the intended reading, the halt wait has no bound, so it can starve on any finite trace. This is stated on the traces that let it go on.
- The `isinstance(program, str)` branch of `assemble` (lines 36–37): the script only calls it with a list of lines.
- `print_assembled`, the `.bin`, `.hex` and `.scanchain.v` writers, and all file handling (`sys.argv`, `open`): output and I/O only.
- The text of the `.caravel.c` file: only the numbers it spells are modelled, not the `0x…` and `0b…` formatting or the comments.
- `Packing.Pack`: requires every slot of the image to hold a byte. A value outside 0..255 (for example from `DATA 300`) makes `{v:02x}` write more or fewer than two digits, and that text is not modelled.
- `PyText.ParseInt`: does not model the limit on the number of digits that `int()` accepts from Python 3.11 on (4300 by default, above which it raises `ValueError`). The model reads a numeral of any length. The assembler's addresses and operands are far shorter than the limit.
- `int()` is modelled for ASCII decimal numerals: an optional sign, surrounding whitespace, and single underscores between digits. Other Unicode digits and other bases are not modelled.
- `upper()` and `isspace()` are modelled for ASCII letters and Python's whitespace set; full Unicode case mapping is not.
- `int(opcode, 2)` is modelled on the strings the assembler can build: binary digits, possibly with a '-' from a negative operand. It rejects anything else.
- `EncodingLaws.EncodeNibble`: also requires the opcode to have 4 bits. The table's 8-bit opcodes take an operand the same way, but they then produce a 12-bit value, which `EncodingLaws.EncodeWidens` covers.

## Findings

| source | as written | input that shows it | evidently intended | confidence | as-written member | corrected member |
|---|---|---|---|---|---|---|
| verilog/dv/wb_port_test4/wb_port_test4.c:180-207 | `ctrl & 0b11 != 0b00` parses as `ctrl & (0b11 != 0b00)`, i.e. `ctrl & 1`: only bit 0 is polled | control value 2 (bit 1 set): the code goes on at once instead of waiting | wait while either of the two low bits is set, `(ctrl & 0b11) != 0` | high (C precedence); not executed | Findings.BusyBitOneMissed | Findings.IntendedReadyIsIdle |
| verilog/dv/wb_port_test4/wb_port_test4.c:191 | `ctrl & 0b100 == 0b000` parses as `ctrl & (0b100 == 0b000)`, i.e. `ctrl & 0`: the loop never repeats | control value 0 (halt bit clear): the halt is reported after one read | wait while bit 2 (halt_out) is clear, `(ctrl & 0b100) == 0` | high (C precedence); not executed | Findings.HaltNotAwaited | ScanLaws.IntendedHaltWaits |
