/** What a whole run of the firmware writes and how it ends, for every
    trace: the status codes in order, the fault code as the very last
    access, the payload in the scan register, and the readout check that
    decides between passing and failing. */
module RunLaws {
  import opened ScanHarness
  import opened ScanLaws

  /** The progress codes of a run that reaches the readout check, in order. */
  const Progress: seq<Word> := [StartCode, HaltCode, Marker(0), Marker(1)]

  /** The start code in front of some accesses. */
  lemma StartThen(a: seq<Event>)
    ensures Statuses([Status(StartCode)] + a) == [StartCode] + Statuses(a)
    ensures ScanWrites([Status(StartCode)] + a) == ScanWrites(a)
  {
    FiltersCons(Status(StartCode), a);
  }

  /** A status log made of the start code, the halt code, the markers and
      one last code. */
  lemma LogAfterHalt(a: seq<Event>, h: seq<Event>, o: seq<Event>, last: Word)
    requires Statuses(a) == [] && Statuses(h) == [HaltCode] && Statuses(o) == Markers(0, ScanOutWords)
    ensures Statuses([Status(StartCode)] + a + h + o + [Status(last)]) == Progress + [last]
  {
    var e1 := [Status(StartCode)] + a;
    StartThen(a);
    assert Statuses(e1) == [StartCode];
    StatusesAppend(e1, h);
    assert Statuses(e1 + h) == [StartCode, HaltCode];
    StatusesAppend(e1 + h, o);
    assert Markers(0, ScanOutWords) == [Marker(0), Marker(1)];
    assert Statuses(e1 + h + o) == Progress;
    StatusesAppend(e1 + h + o, [Status(last)]);
    FiltersOne(Status(last));
  }

  /** The phases of a run, as `RunMain` composes them. */
  datatype Phases = Phases(scanIn: Step<()>, halt: Step<()>, scanOut: Step<seq<Word>>)

  function PhasesOf(trace: seq<Word>, program: seq<Word>, m: Masking): Phases
    requires |program| == PayloadLength
  {
    var a := ScanInFrom(trace, 0, program, 0, m);
    var h := Halt(trace, a.pos, m);
    var o := ScanOutFrom(trace, h.pos, program, 0, m);
    Phases(a, h, o)
  }

  /** Only the readout check passes a run or fails it on the captured word;
      a run gets there after all three phases went on. */
  lemma ReachesCheck(trace: seq<Word>, program: seq<Word>, m: Masking)
    requires |program| == PayloadLength
    ensures var r := RunMain(trace, program, m);
      var ph := PhasesOf(trace, program, m);
      r.outcome.Passed? || (r.outcome.Faulted? && r.outcome.fault.ReadoutFail?) ==>
        && ph.scanIn.flow.Go? && ph.halt.flow.Go? && ph.scanOut.flow.Go?
        && var c := Check(ph.scanOut.flow.value);
           && r.events == [Status(StartCode)] + ph.scanIn.events + ph.halt.events + ph.scanOut.events + c.events
           && r.outcome == c.flow.outcome
  {
    var a := ScanInFrom(trace, 0, program, 0, m);
    ScanInStops(trace, 0, program, 0, m);
    if a.flow.Go? {
      var h := Halt(trace, a.pos, m);
      HaltFilters(trace, a.pos, m);
      if h.flow.Go? {
        ScanOutStops(trace, h.pos, program, 0, m);
      }
    }
  }

  /** The words a run compares at the readout check are what its scan-out
      phase captured: the scan reads that directly follow a ready control
      read in that phase's log. That log reads the trace in order, from
      where the halt wait stopped. */
  lemma RunCaptures(trace: seq<Word>, program: seq<Word>, m: Masking)
    requires |program| == PayloadLength
    ensures var r := RunMain(trace, program, m);
      var ph := PhasesOf(trace, program, m);
      && (r.outcome.Passed? ==> r.outcome.captured == Captures(ph.scanOut.events, m))
      && (r.outcome.Faulted? && r.outcome.fault.ReadoutFail? ==>
            && |Captures(ph.scanOut.events, m)| == ScanOutWords
            && r.outcome.fault.captured == Captures(ph.scanOut.events, m)[0])
      && (r.outcome.Passed? || (r.outcome.Faulted? && r.outcome.fault.ReadoutFail?) ==>
            Reads(ph.scanOut.events) == trace[ph.halt.pos..ph.scanOut.pos])
  {
    var ph := PhasesOf(trace, program, m);
    ReachesCheck(trace, program, m);
    ScanOutCaptures(trace, ph.halt.pos, program, 0, m);
    ScanOutReads(trace, ph.halt.pos, program, 0, m);
  }

  /** The scan writes of the four parts of a passing run. */
  lemma PassedWrites(a: seq<Event>, h: seq<Event>, o: seq<Event>, first: seq<Word>, again: seq<Word>)
    requires ScanWrites(a) == first && ScanWrites(h) == [] && ScanWrites(o) == again
    ensures ScanWrites([Status(StartCode)] + a + h + o + [Status(FinishCode)]) == first + again
  {
    var e1 := [Status(StartCode)] + a;
    StartThen(a);
    ScanWritesAppend(e1, h);
    assert ScanWrites(e1 + h) == first;
    ScanWritesAppend(e1 + h, o);
    ScanWritesAppend(e1 + h + o, [Status(FinishCode)]);
    FiltersOne(Status(FinishCode));
    assert first + again + [] == first + again;
  }

  /** A run that passes wrote the start, halt and two marker codes and then
      the finish code, as its last access, and the first word it captured
      is the expected one. */
  lemma RunPassed(trace: seq<Word>, program: seq<Word>, m: Masking)
    requires |program| == PayloadLength
    ensures var r := RunMain(trace, program, m);
      r.outcome.Passed? ==>
        && Statuses(r.events) == Progress + [FinishCode]
        && r.events[|r.events| - 1] == Status(FinishCode)
        && |r.outcome.captured| == ScanOutWords
        && r.outcome.captured[0] == Expected
  {
    var r := RunMain(trace, program, m);
    var ph := PhasesOf(trace, program, m);
    ReachesCheck(trace, program, m);
    if r.outcome.Passed? {
      ScanInStatuses(trace, 0, program, 0, m);
      HaltFilters(trace, ph.scanIn.pos, m);
      ScanOutMarkers(trace, ph.halt.pos, program, 0, m);
      LogAfterHalt(ph.scanIn.events, ph.halt.events, ph.scanOut.events, FinishCode);
    }
  }

  /** A run that passes scanned in the payload and then its first two words
      again. */
  lemma RunPassedWrites(trace: seq<Word>, program: seq<Word>, m: Masking)
    requires |program| == PayloadLength
    ensures var r := RunMain(trace, program, m);
      r.outcome.Passed? ==> ScanWrites(r.events) == program + program[..ScanOutWords]
  {
    var r := RunMain(trace, program, m);
    var ph := PhasesOf(trace, program, m);
    ReachesCheck(trace, program, m);
    if r.outcome.Passed? {
      ScanInWritesAll(trace, 0, program, 0, m);
      HaltFilters(trace, ph.scanIn.pos, m);
      ScanOutRewrites(trace, ph.halt.pos, program, 0, m);
      assert program[0..] == program;
      assert program[0..ScanOutWords] == program[..ScanOutWords];
      PassedWrites(ph.scanIn.events, ph.halt.events, ph.scanOut.events, program, program[..ScanOutWords]);
    }
  }

  /** A run that stopped during scan-in. */
  lemma StoppedInScanIn(trace: seq<Word>, program: seq<Word>, m: Masking)
    requires |program| == PayloadLength
    requires PhasesOf(trace, program, m).scanIn.flow.Stop?
    ensures var a := PhasesOf(trace, program, m).scanIn;
      RunMain(trace, program, m) == Run(a.pos, [Status(StartCode)] + a.events, a.flow.outcome)
  {
  }

  /** A run that stopped during scan-out. */
  lemma StoppedInScanOut(trace: seq<Word>, program: seq<Word>, m: Masking)
    requires |program| == PayloadLength
    requires var ph := PhasesOf(trace, program, m);
      ph.scanIn.flow.Go? && ph.halt.flow.Go? && ph.scanOut.flow.Stop?
    ensures var ph := PhasesOf(trace, program, m);
      RunMain(trace, program, m) ==
        Run(ph.scanOut.pos, [Status(StartCode)] + ph.scanIn.events + ph.halt.events + ph.scanOut.events,
            ph.scanOut.flow.outcome)
  {
  }

  /** Past scan-in, a run faults only in scan-out or at the readout check. */
  lemma PastScanIn(trace: seq<Word>, program: seq<Word>, m: Masking)
    requires |program| == PayloadLength
    requires PhasesOf(trace, program, m).scanIn.flow.Go?
    ensures var r := RunMain(trace, program, m);
      r.outcome.Faulted? ==>
        r.outcome.fault.ReadoutFail? || ScanOutFault(r.outcome.fault, 0, ScanOutWords)
  {
    var ph := PhasesOf(trace, program, m);
    HaltFilters(trace, ph.scanIn.pos, m);
    if ph.halt.flow.Go? {
      ScanOutStops(trace, ph.halt.pos, program, 0, m);
    }
  }

  /** A run that faults during scan-in at word `k` wrote the start code and
      the fault's code, as its last access, and the payload up to word `k`. */
  lemma RunScanInFault(trace: seq<Word>, program: seq<Word>, m: Masking)
    requires |program| == PayloadLength
    ensures var r := RunMain(trace, program, m);
      r.outcome.Faulted? && ScanInFault(r.outcome.fault, 0, PayloadLength) ==>
        var f := r.outcome.fault;
        && Statuses(r.events) == [StartCode, FaultCode(f)]
        && r.events[|r.events| - 1] == Status(FaultCode(f))
        && ScanWrites(r.events) == program[..f.index + 1]
  {
    var r := RunMain(trace, program, m);
    var a := PhasesOf(trace, program, m).scanIn;
    if a.flow.Go? {
      PastScanIn(trace, program, m);
    } else {
      StoppedInScanIn(trace, program, m);
      if r.outcome.Faulted? {
        ScanInStatuses(trace, 0, program, 0, m);
        ScanInWritesUpTo(trace, 0, program, 0, m);
        ScanInLogged(a.events, r.outcome.fault, program[0..r.outcome.fault.index + 1]);
        assert program[0..r.outcome.fault.index + 1] == program[..r.outcome.fault.index + 1];
      }
    }
  }

  /** The log of a run whose scan-in faulted. */
  lemma ScanInLogged(a: seq<Event>, f: Fault, written: seq<Word>)
    requires Statuses(a) == [FaultCode(f)] && |a| > 0 && a[|a| - 1] == Status(FaultCode(f))
    requires ScanWrites(a) == written
    ensures var e := [Status(StartCode)] + a;
      && Statuses(e) == [StartCode, FaultCode(f)]
      && e[|e| - 1] == Status(FaultCode(f))
      && ScanWrites(e) == written
  {
    StartThen(a);
    var e := [Status(StartCode)] + a;
    assert e[|e| - 1] == a[|a| - 1];
  }

  /** A run that faults during scan-out at word `k` wrote the start, halt
      and marker codes up to word `k`, then the fault's code, as its last
      access. */
  lemma RunScanOutFault(trace: seq<Word>, program: seq<Word>, m: Masking)
    requires |program| == PayloadLength
    ensures var r := RunMain(trace, program, m);
      r.outcome.Faulted? && ScanOutFault(r.outcome.fault, 0, ScanOutWords) ==>
        var f := r.outcome.fault;
        && Statuses(r.events) == [StartCode, HaltCode] + Markers(0, f.index + 1) + [FaultCode(f)]
        && r.events[|r.events| - 1] == Status(FaultCode(f))
  {
    var r := RunMain(trace, program, m);
    var ph := PhasesOf(trace, program, m);
    if ph.scanIn.flow.Stop? {
      StoppedInScanIn(trace, program, m);
      ScanInStops(trace, 0, program, 0, m);
    } else if ph.halt.flow.Stop? {
      HaltFilters(trace, ph.scanIn.pos, m);
    } else if ph.scanOut.flow.Stop? {
      ScanOutStoppedLog(trace, program, m);
    } else {
      ReachesCheck(trace, program, m);
    }
  }

  /** The log of a run that stopped in scan-out on a fault. */
  lemma ScanOutStoppedLog(trace: seq<Word>, program: seq<Word>, m: Masking)
    requires |program| == PayloadLength
    requires var ph := PhasesOf(trace, program, m);
      ph.scanIn.flow.Go? && ph.halt.flow.Go? && ph.scanOut.flow.Stop?
    ensures var r := RunMain(trace, program, m);
      r.outcome.Faulted? ==>
        var f := r.outcome.fault;
        && ScanOutFault(f, 0, ScanOutWords)
        && Statuses(r.events) == [StartCode, HaltCode] + Markers(0, f.index + 1) + [FaultCode(f)]
        && r.events[|r.events| - 1] == Status(FaultCode(f))
  {
    var ph := PhasesOf(trace, program, m);
    var o := ph.scanOut;
    var e := [Status(StartCode)] + ph.scanIn.events + ph.halt.events + o.events;
    assert RunMain(trace, program, m) == Run(o.pos, e, o.flow.outcome) by {
      StoppedInScanOut(trace, program, m);
    }
    if o.flow.outcome.Faulted? {
      var f := o.flow.outcome.fault;
      assert ScanOutFaultLogged(o.events, f, 0) by {
        ScanOutFaultLog(trace, ph.halt.pos, program, 0, m);
      }
      assert Statuses(ph.scanIn.events) == [] by {
        ScanInStatuses(trace, 0, program, 0, m);
      }
      assert Statuses(ph.halt.events) == [HaltCode] by {
        HaltFilters(trace, ph.scanIn.pos, m);
      }
      ScanOutLogged(ph.scanIn.events, ph.halt.events, o.events,
        Markers(0, f.index + 1) + [FaultCode(f)], Status(FaultCode(f)));
    }
  }

  /** The log of a run whose scan-out faulted. */
  lemma ScanOutLogged(a: seq<Event>, h: seq<Event>, o: seq<Event>, tail: seq<Word>, last: Event)
    requires Statuses(a) == [] && Statuses(h) == [HaltCode]
    requires Statuses(o) == tail && |o| > 0 && o[|o| - 1] == last
    ensures var e := [Status(StartCode)] + a + h + o;
      Statuses(e) == [StartCode, HaltCode] + tail && e[|e| - 1] == last
  {
    var e1 := [Status(StartCode)] + a;
    StartThen(a);
    StatusesAppend(e1, h);
    assert Statuses(e1 + h) == [StartCode, HaltCode];
    StatusesAppend(e1 + h, o);
    var e := e1 + h + o;
    assert e[|e| - 1] == o[|o| - 1];
  }

  /** A run that fails the readout check captured a word other than the
      expected one, and wrote the progress codes and then the readout
      failure code, as its last access. */
  lemma RunReadoutFail(trace: seq<Word>, program: seq<Word>, m: Masking)
    requires |program| == PayloadLength
    ensures var r := RunMain(trace, program, m);
      r.outcome.Faulted? && r.outcome.fault.ReadoutFail? ==>
        && r.outcome.fault.captured != Expected
        && Statuses(r.events) == Progress + [ReadoutFailCode]
        && r.events[|r.events| - 1] == Status(ReadoutFailCode)
  {
    var r := RunMain(trace, program, m);
    var ph := PhasesOf(trace, program, m);
    ReachesCheck(trace, program, m);
    if r.outcome.Faulted? && r.outcome.fault.ReadoutFail? {
      ScanInStatuses(trace, 0, program, 0, m);
      HaltFilters(trace, ph.scanIn.pos, m);
      ScanOutMarkers(trace, ph.halt.pos, program, 0, m);
      LogAfterHalt(ph.scanIn.events, ph.halt.events, ph.scanOut.events, ReadoutFailCode);
    }
  }

  /** No progress code is a fault code. */
  lemma ProgressIsNoFault()
    ensures forall j :: 0 <= j < |Progress| ==> !IsFaultCode(Progress[j])
  {
    assert Marker(0) == 0xF000_0000;
    assert Marker(1) == 0xF001_0000;
  }

  /** Every fault a run ends in belongs to scan-in, scan-out or the
      readout check. */
  lemma RunFaultKinds(trace: seq<Word>, program: seq<Word>, m: Masking)
    requires |program| == PayloadLength
    ensures var r := RunMain(trace, program, m);
      r.outcome.Faulted? ==>
        || ScanInFault(r.outcome.fault, 0, PayloadLength)
        || ScanOutFault(r.outcome.fault, 0, ScanOutWords)
        || r.outcome.fault.ReadoutFail?
  {
    var ph := PhasesOf(trace, program, m);
    if ph.scanIn.flow.Stop? {
      StoppedInScanIn(trace, program, m);
      ScanInStops(trace, 0, program, 0, m);
    } else {
      PastScanIn(trace, program, m);
    }
  }

  /** A status log made of the first `n` progress codes and a fault code. */
  lemma FaultAfterProgress(st: seq<Word>, n: nat, code: Word)
    requires 1 <= n <= |Progress| && IsFaultCode(code)
    requires st == Progress[..n] + [code]
    ensures |st| >= 2 && st[|st| - 1] == code && st[..|st| - 1] <= Progress
    ensures forall j :: 0 <= j < |st| - 1 ==> !IsFaultCode(st[j])
  {
    ProgressIsNoFault();
    assert st[..|st| - 1] == Progress[..n];
  }

  /** A run whose fault is final: the fault's code is its last access, and
      before it the run wrote only an initial part of the progress codes,
      none of them a fault code. */
  predicate FaultIsLast(r: Run)
    requires r.outcome.Faulted?
  {
    var st := Statuses(r.events);
    && |r.events| > 0
    && r.events[|r.events| - 1] == Status(FaultCode(r.outcome.fault))
    && |st| >= 2
    && st[|st| - 1] == FaultCode(r.outcome.fault)
    && IsFaultCode(st[|st| - 1])
    && st[..|st| - 1] <= Progress
    && forall j :: 0 <= j < |st| - 1 ==> !IsFaultCode(st[j])
  }

  /** Whatever its kind, a fault is final. */
  lemma FaultFinal(r: Run, program: seq<Word>)
    requires |program| == PayloadLength && |r.events| >= 2 && r.outcome.Faulted?
    requires var f := r.outcome.fault;
      || ScanInFault(f, 0, PayloadLength)
      || ScanOutFault(f, 0, ScanOutWords)
      || f.ReadoutFail?
    requires var f := r.outcome.fault;
      ScanInFault(f, 0, PayloadLength) ==>
        && Statuses(r.events) == [StartCode, FaultCode(f)]
        && r.events[|r.events| - 1] == Status(FaultCode(f))
    requires var f := r.outcome.fault;
      ScanOutFault(f, 0, ScanOutWords) ==>
        && Statuses(r.events) == [StartCode, HaltCode] + Markers(0, f.index + 1) + [FaultCode(f)]
        && r.events[|r.events| - 1] == Status(FaultCode(f))
    requires var f := r.outcome.fault;
      f.ReadoutFail? ==>
        && Statuses(r.events) == Progress + [ReadoutFailCode]
        && r.events[|r.events| - 1] == Status(ReadoutFailCode)
    ensures FaultIsLast(r)
  {
    var f := r.outcome.fault;
    var st := Statuses(r.events);
    if ScanInFault(f, 0, PayloadLength) {
      FaultAfterProgress(st, 1, FaultCode(f));
    } else if ScanOutFault(f, 0, ScanOutWords) {
      assert Markers(0, 1) == [Marker(0)];
      assert Markers(0, 2) == [Marker(0), Marker(1)];
      FaultAfterProgress(st, 3 + f.index, FaultCode(f));
    } else {
      FaultAfterProgress(st, 4, FaultCode(f));
    }
  }

  /** A fault is final, whichever phase it happens in. */
  lemma RunFaultIsLast(trace: seq<Word>, program: seq<Word>, m: Masking)
    requires |program| == PayloadLength
    ensures var r := RunMain(trace, program, m);
      r.outcome.Faulted? ==> FaultIsLast(r)
  {
    var r := RunMain(trace, program, m);
    if r.outcome.Faulted? {
      RunFaultKinds(trace, program, m);
      RunScanInFault(trace, program, m);
      RunScanOutFault(trace, program, m);
      RunReadoutFail(trace, program, m);
      FaultFinal(r, program);
    }
  }
}
