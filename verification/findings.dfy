/** The two control-register tests of `main`, as written and as their
    comments describe them. In C, `==` and `!=` bind tighter than `&`, so
    `ctrl & 0b11 != 0b00` tests bit 0 only, and `ctrl & 0b100 == 0b000` is
    `ctrl & 0`, which never holds. */
module Findings {
  import opened ScanHarness
  import opened ScanLaws

  /** As written, the ready poll stops at the first read with bit 0 clear,
      whatever bit 1 says, and every read before it had bit 0 set. */
  lemma LiteralReadyTestsBitZero(trace: seq<Word>, pos: nat, limit: nat)
    requires pos <= |trace|
    ensures var p := PollReady(trace, pos, 0, limit, Literal);
      && (p.end == Ready ==> p.pos > pos && trace[p.pos - 1] & 1 == 0)
      && (forall j :: pos <= j < p.pos - 1 ==> trace[j] & 1 != 0)
  {
    PollShape(trace, pos, 0, limit, Literal);
  }

  /** A device that holds bit 1 (still busy) for six reads: as written, the
      firmware takes the first read as ready and moves on; with the
      intended test, the scan-in poll times out on it. */
  lemma BusyBitOneMissed(word: Word)
    ensures var trace := [word, 2, 2, 2, 2, 2, 2];
      && Drive(trace, 0, word, ScanIn, 0, Literal) ==
         Step(2, [ScanWrite(word), ScanRead(word), CtrlWrite(Strobe), CtrlRead(2)], Go(()))
      && Drive(trace, 0, word, ScanIn, 0, Intended).flow == Stop(Faulted(ReadyTimeout(ScanIn, 0)))
  {
    var trace := [word, 2, 2, 2, 2, 2, 2];
    assert !Busy(Literal, 2) && Busy(Intended, 2);
    assert PollReady(trace, 1, 0, ScanInLimit, Literal) == Poll(2, [CtrlRead(2)], Ready);
    PollShape(trace, 1, 0, ScanInLimit, Intended);
  }

  /** With the intended test, the poll stops only at a read with both
      status bits clear, and every read before it had one of them set. */
  lemma IntendedReadyIsIdle(trace: seq<Word>, pos: nat, limit: nat)
    requires pos <= |trace|
    ensures var p := PollReady(trace, pos, 0, limit, Intended);
      && (p.end == Ready ==> p.pos > pos && trace[p.pos - 1] & 3 == 0)
      && (forall j :: pos <= j < p.pos - 1 ==> trace[j] & 3 != 0)
  {
    PollShape(trace, pos, 0, limit, Intended);
  }

  /** A processor that never reports the halt: as written, the firmware
      writes the halt code after one read anyway; with the intended test,
      it is still waiting when the trace ends. */
  lemma HaltNotAwaited()
    ensures var trace: seq<Word> := [0];
      && trace[0] & 4 == 0
      && Halt(trace, 0, Literal) ==
         Step(1, [CtrlWrite(HaltRequest), CtrlRead(0), Status(HaltCode), CtrlWrite(Off)], Go(()))
      && Halt(trace, 0, Intended).flow == Stop(Starved)
  {
    LiteralHaltReadsOnce([0], 0);
    assert WaitHalt([0], 1, Intended) == Poll(1, [], Dry);
  }
}
