/** The wb_port_test4 firmware's scan-chain handshake with the qtcore-C1
    user project: scan in the 67-word payload with write-verify and a
    bounded ready poll, request a halt, scan out two words, and check the
    first one.

    The device is a trace: the values its registers return to successive
    reads, in order, whichever register is read. The run is a function from
    that trace to the accesses the firmware makes (reads with the value
    seen, writes with the value written; status codes are the writes to
    `reg_mprj_datal`) and an outcome. Each `while(1)` after a status code
    is a terminal outcome. A run that needs more reads than the trace holds
    ends `Starved`; that outcome belongs to the model, not the firmware. */
module ScanHarness {

  type Word = bv32

  // Status codes written to reg_mprj_datal.
  const StartCode: Word := 0xAB60_0000
  const MismatchCode: Word := 0xAB6F_0000
  const ScanInTimeoutCode: Word := 0xAB8F_0000
  const HaltCode: Word := 0xAB62_0000
  const ScanOutTimeoutCode: Word := 0xAB9F_0000
  const ReadoutFailCode: Word := 0xAB7F_0000
  const FinishCode: Word := 0xAB61_0000

  // Values written to reg_mprj_slave_ctrl.
  const Strobe: Word := 1
  const HaltRequest: Word := 2
  const Off: Word := 0

  /** The word the first scanned-out value must equal. */
  const Expected: Word := 0xF1FD_0200

  const PayloadLength: nat := 67
  const ScanOutWords: nat := 2
  const ScanInLimit: nat := 5
  const ScanOutLimit: nat := 10

  /** The status written before scanning out word `i`. */
  function Marker(i: nat): Word
    requires i < ScanOutWords
  {
    0xF000_0000 | ((i as bv32) << 16)
  }

  /** C's conversion of a comparison result to an integer. */
  function CBool(b: bool): Word {
    if b then 1 else 0
  }

  /** How the control register is tested: as the C is written, where `!=`
      and `==` bind tighter than `&`, or as its comments intend. */
  datatype Masking = Literal | Intended

  /** The ready-poll loop condition, `ctrl & 0b11 != 0b00`. Written, it
      parses as `ctrl & (0b11 != 0b00)`, which is `ctrl & 1`. */
  predicate Busy(m: Masking, ctrl: Word) {
    match m
    case Literal => ctrl & CBool(3 != 0) != 0
    case Intended => ctrl & 3 != 0
  }

  /** The halt-wait loop condition, `ctrl & 0b100 == 0b000`. Written, it
      parses as `ctrl & (0b100 == 0b000)`, which is `ctrl & 0`: never true. */
  predicate HaltPending(m: Masking, ctrl: Word) {
    match m
    case Literal => ctrl & CBool(4 == 0) != 0
    case Intended => ctrl & 4 == 0
  }

  /** One register access, in program order. */
  datatype Event =
    | ScanWrite(word: Word)
    | ScanRead(word: Word)
    | CtrlWrite(ctrl: Word)
    | CtrlRead(ctrl: Word)
    | Status(code: Word)

  datatype Phase = ScanIn | ScanOut

  datatype Fault =
      /** A scan register read back differs from the word just written. */
    | Mismatch(phase: Phase, index: nat)
      /** The ready poll ran out of retries. */
    | ReadyTimeout(phase: Phase, index: nat)
      /** The first scanned-out word is not `Expected`. */
    | ReadoutFail(captured: Word)

  datatype Outcome = Passed(captured: seq<Word>) | Faulted(fault: Fault) | Starved

  /** The status code the firmware writes just before hanging on a fault. */
  function FaultCode(f: Fault): Word {
    match f
    case Mismatch(_, _) => MismatchCode
    case ReadyTimeout(phase, _) => if phase == ScanIn then ScanInTimeoutCode else ScanOutTimeoutCode
    case ReadoutFail(_) => ReadoutFailCode
  }

  /** Whether a phase lets the run go on (with a value) or ends it. */
  datatype Flow<T> = Go(value: T) | Stop(outcome: Outcome)

  /** A phase's effect: the position in the trace it stops reading at, the
      accesses it makes, and how it ends. */
  datatype Step<T> = Step(pos: nat, events: seq<Event>, flow: Flow<T>)

  datatype PollEnd = Ready | Expired | Dry

  datatype Poll = Poll(pos: nat, events: seq<Event>, end: PollEnd)

  /** `cnt = 0; while (busy(ctrl)) { cnt++; if (cnt > limit) fail; }`, from
      the trace position `pos` with `cnt` retries already spent. */
  function PollReady(trace: seq<Word>, pos: nat, cnt: nat, limit: nat, m: Masking): (p: Poll)
    requires pos <= |trace|
    ensures pos <= p.pos <= |trace|
    decreases |trace| - pos
  {
    if pos == |trace| then Poll(pos, [], Dry)
    else
      var v := trace[pos];
      if !Busy(m, v) then Poll(pos + 1, [CtrlRead(v)], Ready)
      else if cnt + 1 > limit then Poll(pos + 1, [CtrlRead(v)], Expired)
      else
        var rest := PollReady(trace, pos + 1, cnt + 1, limit, m);
        Poll(rest.pos, [CtrlRead(v)] + rest.events, rest.end)
  }

  /** The write-verify-strobe-poll sequence for one word: write it to the
      scan register, read it back, strobe, and wait for ready. */
  function Drive(trace: seq<Word>, pos: nat, word: Word, phase: Phase, index: nat, m: Masking): (s: Step<()>)
    requires pos <= |trace|
    ensures pos <= s.pos <= |trace|
  {
    if pos == |trace| then Step(pos, [ScanWrite(word)], Stop(Starved))
    else
      var back := trace[pos];
      if back != word then
        Step(pos + 1, [ScanWrite(word), ScanRead(back), Status(MismatchCode)], Stop(Faulted(Mismatch(phase, index))))
      else Strobed(trace, pos + 1, word, phase, index, m)
  }

  /** The retry limit of a phase's ready poll. */
  function Limit(phase: Phase): nat {
    if phase == ScanIn then ScanInLimit else ScanOutLimit
  }

  /** The rest of `Drive` once `word` was read back: strobe, and poll from
      trace position `pos`. */
  function Strobed(trace: seq<Word>, pos: nat, word: Word, phase: Phase, index: nat, m: Masking): (s: Step<()>)
    requires pos <= |trace|
    ensures pos <= s.pos <= |trace|
  {
    var head := [ScanWrite(word), ScanRead(word), CtrlWrite(Strobe)];
    var p := PollReady(trace, pos, 0, Limit(phase), m);
    match p.end
    case Ready => Step(p.pos, head + p.events, Go(()))
    case Expired =>
      var fault := ReadyTimeout(phase, index);
      Step(p.pos, head + p.events + [Status(FaultCode(fault))], Stop(Faulted(fault)))
    case Dry => Step(p.pos, head + p.events, Stop(Starved))
  }

  /** The scan-in loop from word `i` on. */
  function ScanInFrom(trace: seq<Word>, pos: nat, program: seq<Word>, i: nat, m: Masking): (s: Step<()>)
    requires pos <= |trace| && i <= |program|
    ensures pos <= s.pos <= |trace|
    decreases |program| - i
  {
    if i == |program| then Step(pos, [], Go(()))
    else
      var d := Drive(trace, pos, program[i], ScanIn, i, m);
      if d.flow.Stop? then d
      else
        var rest := ScanInFrom(trace, d.pos, program, i + 1, m);
        Step(rest.pos, d.events + rest.events, rest.flow)
  }

  /** `while (halt_pending(ctrl));`. */
  function WaitHalt(trace: seq<Word>, pos: nat, m: Masking): (p: Poll)
    requires pos <= |trace|
    ensures pos <= p.pos <= |trace|
    ensures p.end != Expired
    decreases |trace| - pos
  {
    if pos == |trace| then Poll(pos, [], Dry)
    else
      var v := trace[pos];
      if HaltPending(m, v) then
        var rest := WaitHalt(trace, pos + 1, m);
        Poll(rest.pos, [CtrlRead(v)] + rest.events, rest.end)
      else Poll(pos + 1, [CtrlRead(v)], Ready)
  }

  /** Request a halt, wait for it, report it and switch the processor off. */
  function Halt(trace: seq<Word>, pos: nat, m: Masking): (s: Step<()>)
    requires pos <= |trace|
    ensures pos <= s.pos <= |trace|
  {
    var w := WaitHalt(trace, pos, m);
    if w.end == Ready then
      Step(w.pos, [CtrlWrite(HaltRequest)] + w.events + [Status(HaltCode), CtrlWrite(Off)], Go(()))
    else Step(w.pos, [CtrlWrite(HaltRequest)] + w.events, Stop(Starved))
  }

  /** One pass of the scan-out loop: announce word `i`, drive `program[i]`
      again, then capture the scan register. */
  function ScanOutWord(trace: seq<Word>, pos: nat, program: seq<Word>, i: nat, m: Masking): (s: Step<Word>)
    requires pos <= |trace| && i < ScanOutWords <= |program|
    ensures pos <= s.pos <= |trace|
  {
    var d := Drive(trace, pos, program[i], ScanOut, i, m);
    var head := [Status(Marker(i))] + d.events;
    if d.flow.Stop? then Step(d.pos, head, Stop(d.flow.outcome))
    else if d.pos == |trace| then Step(d.pos, head, Stop(Starved))
    else Step(d.pos + 1, head + [ScanRead(trace[d.pos])], Go(trace[d.pos]))
  }

  /** The scan-out loop from word `i` on, with the words it captures. */
  function ScanOutFrom(trace: seq<Word>, pos: nat, program: seq<Word>, i: nat, m: Masking): (s: Step<seq<Word>>)
    requires pos <= |trace| && i <= ScanOutWords <= |program|
    ensures pos <= s.pos <= |trace|
    ensures s.flow.Go? ==> |s.flow.value| == ScanOutWords - i
    decreases ScanOutWords - i
  {
    if i == ScanOutWords then Step(pos, [], Go([]))
    else
      var w := ScanOutWord(trace, pos, program, i, m);
      if w.flow.Stop? then Step(w.pos, w.events, Stop(w.flow.outcome))
      else
        var rest := ScanOutFrom(trace, w.pos, program, i + 1, m);
        var flow := if rest.flow.Go? then Go([w.flow.value] + rest.flow.value) else rest.flow;
        Step(rest.pos, w.events + rest.events, flow)
  }

  /** The readout check on the captured words. */
  function Check(captured: seq<Word>): (s: Step<()>)
    requires |captured| >= 1
  {
    if captured[0] != Expected then
      Step(0, [Status(ReadoutFailCode)], Stop(Faulted(ReadoutFail(captured[0]))))
    else Step(0, [Status(FinishCode)], Stop(Passed(captured)))
  }

  /** Everything `main` does from the start flag on: the reads it uses, its
      register accesses, and how it ends. */
  datatype Run = Run(used: nat, events: seq<Event>, outcome: Outcome)

  function RunMain(trace: seq<Word>, program: seq<Word>, m: Masking): (r: Run)
    requires |program| == PayloadLength
    ensures r.used <= |trace|
    ensures r.outcome != Starved ==> |r.events| >= 2
  {
    var start := [Status(StartCode)];
    var a := ScanInFrom(trace, 0, program, 0, m);
    if a.flow.Stop? then Run(a.pos, start + a.events, a.flow.outcome)
    else
      var h := Halt(trace, a.pos, m);
      if h.flow.Stop? then Run(h.pos, start + a.events + h.events, h.flow.outcome)
      else
        var o := ScanOutFrom(trace, h.pos, program, 0, m);
        if o.flow.Stop? then Run(o.pos, start + a.events + h.events + o.events, o.flow.outcome)
        else
          var c := Check(o.flow.value);
          Run(o.pos, start + a.events + h.events + o.events + c.events, c.flow.outcome)
  }
}
