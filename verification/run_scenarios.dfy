/** Whole runs against particular devices: a long enough trace never
    starves the firmware as written; a device that echoes every scanned
    word, reports ready and halted at once and then shows two captured
    words takes the run to the readout check; and the two control-register
    tests as written against the tests their comments describe. */
module RunScenarios {
  import opened ScanHarness
  import opened ScanLaws

  /** Reads a run as written can make: seven per scan-in word, one for the
      halt wait, thirteen per scan-out word. */
  const MaxReads: nat := 7 * PayloadLength + 1 + 13 * ScanOutWords

  /** As written, the firmware reads the device at most `MaxReads` times,
      so a trace that long always reaches a verdict. */
  lemma RunNeverStarves(trace: seq<Word>, program: seq<Word>)
    requires |program| == PayloadLength
    ensures RunMain(trace, program, Literal).used <= MaxReads
    ensures MaxReads <= |trace| ==> RunMain(trace, program, Literal).outcome != Starved
  {
    var a := ScanInFrom(trace, 0, program, 0, Literal);
    assert a.pos <= 7 * PayloadLength && (7 * PayloadLength <= |trace| ==> a.flow != Stop(Starved)) by {
      ScanInEnds(trace, 0, program, 0, Literal);
    }
    if a.flow.Go? {
      var h := Halt(trace, a.pos, Literal);
      if a.pos < |trace| {
        assert h.pos == a.pos + 1 && h.flow.Go? by {
          LiteralHaltReadsOnce(trace, a.pos);
        }
        var o := ScanOutFrom(trace, h.pos, program, 0, Literal);
        assert o.pos <= h.pos + 13 * ScanOutWords
          && (h.pos + 13 * ScanOutWords <= |trace| ==> o.flow != Stop(Starved)) by {
          ScanOutEnds(trace, h.pos, program, 0, Literal);
        }
      } else {
        assert h.pos == |trace|;
      }
    }
  }

  // -----------------------------------------------------------------------
  // An echoing device that is at once ready and halted
  // -----------------------------------------------------------------------

  /** The ready value: no bit of the control register set. */
  const Idle: Word := 0

  /** The halt value: bit 2 set. */
  const Halted: Word := 4

  /** What an ideal device returns during scan-in: each word read back as
      written, then one idle control read. */
  function Echo(program: seq<Word>): (t: seq<Word>)
    ensures |t| == 2 * |program|
    ensures forall j :: 0 <= j < |program| ==> t[2 * j] == program[j] && t[2 * j + 1] == Idle
  {
    if |program| == 0 then []
    else
      var rest := Echo(program[1..]);
      assert forall j :: 1 <= j < |program| ==> program[j] == program[1..][j - 1];
      [program[0], Idle] + rest
  }

  /** The whole trace of an ideal device that captures `c0` and `c1`. */
  function DeviceTrace(program: seq<Word>, c0: Word, c1: Word): seq<Word>
    requires |program| == PayloadLength
  {
    Echo(program) + [Halted, program[0], Idle, c0, program[1], Idle, c1]
  }

  /** A word echoed back and an idle control register take one word
      through in two reads. */
  lemma DriveEcho(trace: seq<Word>, pos: nat, word: Word, phase: Phase, index: nat, m: Masking)
    requires pos + 2 <= |trace| && trace[pos] == word && trace[pos + 1] == Idle
    ensures Drive(trace, pos, word, phase, index, m) ==
      Step(pos + 2, [ScanWrite(word), ScanRead(word), CtrlWrite(Strobe), CtrlRead(Idle)], Go(()))
  {
    assert !Busy(m, Idle);
    assert PollReady(trace, pos + 1, 0, Limit(phase), m) == Poll(pos + 2, [CtrlRead(Idle)], Ready);
  }

  /** Scan-in against an echoing device goes through every word, two reads
      each. */
  lemma {:induction false} ScanInEcho(trace: seq<Word>, program: seq<Word>, i: nat, m: Masking)
    requires i <= |program| && 2 * |program| <= |trace|
    requires forall j :: i <= j < |program| ==> trace[2 * j] == program[j] && trace[2 * j + 1] == Idle
    ensures var a := ScanInFrom(trace, 2 * i, program, i, m);
      a.pos == 2 * |program| && a.flow == Go(())
    decreases |program| - i
  {
    if i < |program| {
      DriveEcho(trace, 2 * i, program[i], ScanIn, i, m);
      ScanInGoStep(trace, 2 * i, program, i, m);
      ScanInEcho(trace, program, i + 1, m);
    }
  }

  /** Scan-out against an echoing device that then shows `c`. */
  lemma ScanOutWordEcho(trace: seq<Word>, pos: nat, program: seq<Word>, i: nat, m: Masking)
    requires i < ScanOutWords <= |program| && pos + 3 <= |trace|
    requires trace[pos] == program[i] && trace[pos + 1] == Idle
    ensures var w := ScanOutWord(trace, pos, program, i, m);
      w.pos == pos + 3 && w.flow == Go(trace[pos + 2])
  {
    DriveEcho(trace, pos, program[i], ScanOut, i, m);
  }

  /** Both scan-out words against an echoing device. */
  lemma ScanOutEcho(trace: seq<Word>, pos: nat, program: seq<Word>, m: Masking)
    requires ScanOutWords <= |program| && pos + 6 <= |trace|
    requires trace[pos] == program[0] && trace[pos + 1] == Idle
    requires trace[pos + 3] == program[1] && trace[pos + 4] == Idle
    ensures var o := ScanOutFrom(trace, pos, program, 0, m);
      o.pos == pos + 6 && o.flow == Go([trace[pos + 2], trace[pos + 5]])
  {
    ScanOutWordEcho(trace, pos, program, 0, m);
    ScanOutGoStep(trace, pos, program, 0, m);
    ScanOutWordEcho(trace, pos + 3, program, 1, m);
    ScanOutGoStep(trace, pos + 3, program, 1, m);
    var last := ScanOutFrom(trace, pos + 6, program, 2, m);
    assert last.pos == pos + 6 && last.flow == Go([]);
    var second := ScanOutFrom(trace, pos + 3, program, 1, m);
    assert second.pos == pos + 6 && second.flow == Go([trace[pos + 5]] + []);
    assert [trace[pos + 5]] + [] == [trace[pos + 5]];
    assert [trace[pos + 2]] + [trace[pos + 5]] == [trace[pos + 2], trace[pos + 5]];
  }

  /** The ideal device's scan-in part. */
  lemma DeviceScanIn(program: seq<Word>, c0: Word, c1: Word, m: Masking)
    requires |program| == PayloadLength
    ensures var a := ScanInFrom(DeviceTrace(program, c0, c1), 0, program, 0, m);
      a.pos == 2 * PayloadLength && a.flow == Go(())
  {
    var trace := DeviceTrace(program, c0, c1);
    EchoThen(program, [Halted, program[0], Idle, c0, program[1], Idle, c1]);
    ScanInEcho(trace, program, 0, m);
  }

  /** An echo followed by anything still echoes. */
  lemma EchoThen(program: seq<Word>, tail: seq<Word>)
    ensures var trace := Echo(program) + tail;
      forall j :: 0 <= j < |program| ==> trace[2 * j] == program[j] && trace[2 * j + 1] == Idle
  {
    var trace := Echo(program) + tail;
    forall j | 0 <= j < |program|
      ensures trace[2 * j] == program[j] && trace[2 * j + 1] == Idle
    {
      assert trace[2 * j] == Echo(program)[2 * j];
      assert trace[2 * j + 1] == Echo(program)[2 * j + 1];
    }
  }

  /** A device that echoes every word, is ready at once, reports the halt
      and shows `c0` and `c1` takes the run to the readout check, under
      either reading of the control tests; the check passes exactly when
      `c0` is the expected word. */
  lemma HappyPath(program: seq<Word>, c0: Word, c1: Word, m: Masking)
    requires |program| == PayloadLength
    ensures var r := RunMain(DeviceTrace(program, c0, c1), program, m);
      && r.used == |DeviceTrace(program, c0, c1)|
      && r.outcome == if c0 == Expected then Passed([c0, c1]) else Faulted(ReadoutFail(c0))
  {
    var trace := DeviceTrace(program, c0, c1);
    var n := 2 * PayloadLength;
    assert |trace| == n + 7;
    var a := ScanInFrom(trace, 0, program, 0, m);
    assert a.pos == n && a.flow == Go(()) by {
      DeviceScanIn(program, c0, c1, m);
    }
    assert trace[n..] == [Halted, program[0], Idle, c0, program[1], Idle, c1];
    var h := Halt(trace, n, m);
    assert h.pos == n + 1 && h.flow.Go? by {
      assert !HaltPending(m, Halted);
      assert WaitHalt(trace, n, m) == Poll(n + 1, [CtrlRead(Halted)], Ready);
    }
    var o := ScanOutFrom(trace, n + 1, program, 0, m);
    assert o.pos == n + 7 && o.flow == Go([c0, c1]) by {
      ScanOutEcho(trace, n + 1, program, m);
    }
  }
}
