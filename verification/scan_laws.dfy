/** What each phase of the handshake does to the trace and the register
    log: how many reads it may use, which words it scans in, which status
    codes it writes, and that a fault code is always its last access. */
module ScanLaws {
  import opened ScanHarness

  /** The status code an access writes, if it writes one. */
  function StatusOf(e: Event): seq<Word> {
    if e.Status? then [e.code] else []
  }

  /** The word an access writes to the scan register, if it writes one. */
  function ScanWriteOf(e: Event): seq<Word> {
    if e.ScanWrite? then [e.word] else []
  }

  /** The status codes among some accesses, in order. */
  function Statuses(events: seq<Event>): seq<Word> {
    if |events| == 0 then [] else StatusOf(events[0]) + Statuses(events[1..])
  }

  /** The words written to the scan register among some accesses, in order. */
  function ScanWrites(events: seq<Event>): seq<Word> {
    if |events| == 0 then [] else ScanWriteOf(events[0]) + ScanWrites(events[1..])
  }

  lemma {:induction false} StatusesAppend(a: seq<Event>, b: seq<Event>)
    ensures Statuses(a + b) == Statuses(a) + Statuses(b)
  {
    if |a| == 0 {
      assert a + b == b;
    } else {
      assert (a + b)[0] == a[0];
      assert (a + b)[1..] == a[1..] + b;
      StatusesAppend(a[1..], b);
    }
  }

  lemma {:induction false} ScanWritesAppend(a: seq<Event>, b: seq<Event>)
    ensures ScanWrites(a + b) == ScanWrites(a) + ScanWrites(b)
  {
    if |a| == 0 {
      assert a + b == b;
    } else {
      assert (a + b)[0] == a[0];
      assert (a + b)[1..] == a[1..] + b;
      ScanWritesAppend(a[1..], b);
    }
  }

  /** Both filters distribute over concatenation. */
  lemma FiltersAppend(a: seq<Event>, b: seq<Event>)
    ensures Statuses(a + b) == Statuses(a) + Statuses(b)
    ensures ScanWrites(a + b) == ScanWrites(a) + ScanWrites(b)
  {
    StatusesAppend(a, b);
    ScanWritesAppend(a, b);
  }

  /** Control reads carry neither status codes nor scan writes. */
  predicate OnlyCtrlReads(events: seq<Event>) {
    forall j :: 0 <= j < |events| ==> events[j].CtrlRead?
  }

  lemma {:induction false} CtrlReadsFilterEmpty(events: seq<Event>)
    requires OnlyCtrlReads(events)
    ensures Statuses(events) == [] && ScanWrites(events) == []
  {
    if |events| > 0 {
      CtrlReadsFilterEmpty(events[1..]);
    }
  }

  /** The codes the firmware writes when it hangs on a fault. */
  predicate IsFaultCode(c: Word) {
    c == MismatchCode || c == ScanInTimeoutCode || c == ScanOutTimeoutCode || c == ReadoutFailCode
  }

  // -----------------------------------------------------------------------
  // The ready poll
  // -----------------------------------------------------------------------

  /** The poll reads the control register at most `limit + 1 - cnt` times;
      it expires exactly when that many reads are all busy, and is ready at
      the first read that is not. */
  lemma {:induction false} PollShape(trace: seq<Word>, pos: nat, cnt: nat, limit: nat, m: Masking)
    requires pos <= |trace| && cnt <= limit
    ensures var p := PollReady(trace, pos, cnt, limit, m);
      && p.pos <= pos + (limit + 1 - cnt)
      && |p.events| == p.pos - pos
      && (forall j :: 0 <= j < |p.events| ==> p.events[j] == CtrlRead(trace[pos + j]))
      && (forall j :: pos <= j < p.pos - 1 ==> Busy(m, trace[j]))
      && (p.end == Ready ==> p.pos > pos && !Busy(m, trace[p.pos - 1]))
      && (p.end == Dry ==> p.pos == |trace| && |trace| < pos + (limit + 1 - cnt))
      && (p.end == Expired <==>
            pos + (limit + 1 - cnt) <= |trace|
            && forall j :: pos <= j < pos + (limit + 1 - cnt) ==> Busy(m, trace[j]))
    decreases |trace| - pos
  {
    var p := PollReady(trace, pos, cnt, limit, m);
    if pos < |trace| {
      var v := trace[pos];
      if Busy(m, v) && cnt + 1 <= limit {
        PollShape(trace, pos + 1, cnt + 1, limit, m);
        var rest := PollReady(trace, pos + 1, cnt + 1, limit, m);
        assert p.events == [CtrlRead(v)] + rest.events;
        forall j | 0 <= j < |p.events|
          ensures p.events[j] == CtrlRead(trace[pos + j])
        {
          if j > 0 {
            assert p.events[j] == rest.events[j - 1];
          }
        }
      }
    }
  }

  /** The poll's accesses are control reads only. */
  lemma PollQuiet(trace: seq<Word>, pos: nat, cnt: nat, limit: nat, m: Masking)
    requires pos <= |trace| && cnt <= limit
    ensures OnlyCtrlReads(PollReady(trace, pos, cnt, limit, m).events)
    ensures Statuses(PollReady(trace, pos, cnt, limit, m).events) == []
    ensures ScanWrites(PollReady(trace, pos, cnt, limit, m).events) == []
  {
    PollShape(trace, pos, cnt, limit, m);
    CtrlReadsFilterEmpty(PollReady(trace, pos, cnt, limit, m).events);
  }

  // -----------------------------------------------------------------------
  // One word: write, verify, strobe, poll
  // -----------------------------------------------------------------------

  /** The filters of one access in front of others. */
  lemma FiltersCons(e: Event, rest: seq<Event>)
    ensures Statuses([e] + rest) == StatusOf(e) + Statuses(rest)
    ensures ScanWrites([e] + rest) == ScanWriteOf(e) + ScanWrites(rest)
  {
    assert ([e] + rest)[1..] == rest;
  }

  /** The three accesses before a poll write `word` and no status code. */
  lemma HeadFilters(word: Word)
    ensures Statuses([ScanWrite(word), ScanRead(word), CtrlWrite(Strobe)]) == []
    ensures ScanWrites([ScanWrite(word), ScanRead(word), CtrlWrite(Strobe)]) == [word]
  {
    FiltersCons(CtrlWrite(Strobe), []);
    assert [CtrlWrite(Strobe)] == [CtrlWrite(Strobe)] + [];
    FiltersCons(ScanRead(word), [CtrlWrite(Strobe)]);
    assert [ScanRead(word), CtrlWrite(Strobe)] == [ScanRead(word)] + [CtrlWrite(Strobe)];
    FiltersCons(ScanWrite(word), [ScanRead(word), CtrlWrite(Strobe)]);
    assert [ScanWrite(word), ScanRead(word), CtrlWrite(Strobe)] == [ScanWrite(word)] + [ScanRead(word), CtrlWrite(Strobe)];
  }

  /** The accesses of a read-back mismatch write `word` and the mismatch
      code. */
  lemma MismatchFilters(word: Word, back: Word)
    ensures Statuses([ScanWrite(word), ScanRead(back), Status(MismatchCode)]) == [MismatchCode]
    ensures ScanWrites([ScanWrite(word), ScanRead(back), Status(MismatchCode)]) == [word]
  {
    FiltersCons(Status(MismatchCode), []);
    assert [Status(MismatchCode)] == [Status(MismatchCode)] + [];
    FiltersCons(ScanRead(back), [Status(MismatchCode)]);
    assert [ScanRead(back), Status(MismatchCode)] == [ScanRead(back)] + [Status(MismatchCode)];
    FiltersCons(ScanWrite(word), [ScanRead(back), Status(MismatchCode)]);
    assert [ScanWrite(word), ScanRead(back), Status(MismatchCode)] == [ScanWrite(word)] + [ScanRead(back), Status(MismatchCode)];
  }

  /** The accesses of a word that was read back correctly: write, read
      back, strobe, the poll's control reads, and perhaps a timeout code. */
  lemma PolledFilters(word: Word, polls: seq<Event>, code: Word)
    requires OnlyCtrlReads(polls)
    ensures var head := [ScanWrite(word), ScanRead(word), CtrlWrite(Strobe)];
      && Statuses(head + polls) == [] && ScanWrites(head + polls) == [word]
      && Statuses(head + polls + [Status(code)]) == [code]
      && ScanWrites(head + polls + [Status(code)]) == [word]
  {
    var head := [ScanWrite(word), ScanRead(word), CtrlWrite(Strobe)];
    HeadFilters(word);
    CtrlReadsFilterEmpty(polls);
    FiltersAppend(head, polls);
    FiltersAppend(head + polls, [Status(code)]);
    FiltersCons(Status(code), []);
    assert [Status(code)] + [] == [Status(code)];
  }

  lemma StrobedWrites(trace: seq<Word>, pos: nat, word: Word, phase: Phase, index: nat, m: Masking)
    requires pos <= |trace|
    ensures ScanWrites(Strobed(trace, pos, word, phase, index, m).events) == [word]
  {
    var d := Strobed(trace, pos, word, phase, index, m);
    var p := PollReady(trace, pos, 0, Limit(phase), m);
    var head := [ScanWrite(word), ScanRead(word), CtrlWrite(Strobe)];
    var code := FaultCode(ReadyTimeout(phase, index));
    PollQuiet(trace, pos, 0, Limit(phase), m);
    PolledFilters(word, p.events, code);
    if p.end == Expired {
      assert d.events == head + p.events + [Status(code)];
    } else {
      assert d.events == head + p.events;
    }
  }

  lemma StrobedStatuses(trace: seq<Word>, pos: nat, word: Word, phase: Phase, index: nat, m: Masking)
    requires pos <= |trace|
    ensures var d := Strobed(trace, pos, word, phase, index, m);
      && (d.flow.Stop? && d.flow.outcome.Faulted? ==>
            |d.events| > 0
            && Statuses(d.events) == [FaultCode(d.flow.outcome.fault)]
            && d.events[|d.events| - 1] == Status(FaultCode(d.flow.outcome.fault)))
      && (!(d.flow.Stop? && d.flow.outcome.Faulted?) ==> Statuses(d.events) == [])
  {
    var d := Strobed(trace, pos, word, phase, index, m);
    var p := PollReady(trace, pos, 0, Limit(phase), m);
    var head := [ScanWrite(word), ScanRead(word), CtrlWrite(Strobe)];
    var code := FaultCode(ReadyTimeout(phase, index));
    PollQuiet(trace, pos, 0, Limit(phase), m);
    PolledFilters(word, p.events, code);
    if p.end == Expired {
      assert d.events == head + p.events + [Status(code)];
      assert d.flow == Stop(Faulted(ReadyTimeout(phase, index)));
    } else {
      assert d.events == head + p.events;
      assert !d.flow.Stop? || d.flow.outcome == Starved;
    }
  }

  /** Driving one word writes exactly that word to the scan register. */
  lemma DriveWrites(trace: seq<Word>, pos: nat, word: Word, phase: Phase, index: nat, m: Masking)
    requires pos <= |trace|
    ensures ScanWrites(Drive(trace, pos, word, phase, index, m).events) == [word]
  {
    if pos == |trace| {
      FiltersCons(ScanWrite(word), []);
      assert [ScanWrite(word)] + [] == [ScanWrite(word)];
    } else if trace[pos] != word {
      MismatchFilters(word, trace[pos]);
    } else {
      StrobedWrites(trace, pos + 1, word, phase, index, m);
    }
  }

  /** A fault writes one status code, its last access; otherwise driving a
      word writes no status code. */
  lemma DriveStatuses(trace: seq<Word>, pos: nat, word: Word, phase: Phase, index: nat, m: Masking)
    requires pos <= |trace|
    ensures var d := Drive(trace, pos, word, phase, index, m);
      && (d.flow.Stop? && d.flow.outcome.Faulted? ==>
            |d.events| > 0
            && Statuses(d.events) == [FaultCode(d.flow.outcome.fault)]
            && d.events[|d.events| - 1] == Status(FaultCode(d.flow.outcome.fault)))
      && (!(d.flow.Stop? && d.flow.outcome.Faulted?) ==> Statuses(d.events) == [])
  {
    if pos == |trace| {
      FiltersCons(ScanWrite(word), []);
      assert [ScanWrite(word)] + [] == [ScanWrite(word)];
    } else if trace[pos] != word {
      MismatchFilters(word, trace[pos]);
    } else {
      StrobedStatuses(trace, pos + 1, word, phase, index, m);
    }
  }

  /** Driving one word faults on a read-back mismatch exactly when the value
      read back differs, and otherwise only by a poll timeout. It uses at
      most `2 + limit` reads, so it is never starved of that many. */
  lemma DriveEnds(trace: seq<Word>, pos: nat, word: Word, phase: Phase, index: nat, m: Masking)
    requires pos <= |trace|
    ensures var d := Drive(trace, pos, word, phase, index, m);
      && d.pos <= pos + 2 + Limit(phase)
      && (d.flow.Stop? ==>
            d.flow.outcome == Starved
            || d.flow.outcome == Faulted(Mismatch(phase, index))
            || d.flow.outcome == Faulted(ReadyTimeout(phase, index)))
      && (d.flow == Stop(Starved) ==> d.pos == |trace|)
      && (pos + 2 + Limit(phase) <= |trace| ==> d.flow != Stop(Starved))
      && (pos < |trace| ==> (d.flow == Stop(Faulted(Mismatch(phase, index))) <==> trace[pos] != word))
  {
    if pos < |trace| && trace[pos] == word {
      PollShape(trace, pos + 1, 0, Limit(phase), m);
    }
  }

  // -----------------------------------------------------------------------
  // Scan-in
  // -----------------------------------------------------------------------

  /** A fault of the scan-in phase at word `k`. */
  predicate ScanInFault(f: Fault, lo: nat, hi: nat) {
    (f.Mismatch? || f.ReadyTimeout?) && f.phase == ScanIn && lo <= f.index < hi
  }

  /** Scan-in past a word that went through. */
  lemma ScanInGoStep(trace: seq<Word>, pos: nat, program: seq<Word>, i: nat, m: Masking)
    requires pos <= |trace| && i < |program|
    requires Drive(trace, pos, program[i], ScanIn, i, m).flow.Go?
    ensures var d := Drive(trace, pos, program[i], ScanIn, i, m);
      var rest := ScanInFrom(trace, d.pos, program, i + 1, m);
      ScanInFrom(trace, pos, program, i, m) == Step(rest.pos, d.events + rest.events, rest.flow)
  {
  }

  /** Scan-in stopped at a word. */
  lemma ScanInStopStep(trace: seq<Word>, pos: nat, program: seq<Word>, i: nat, m: Masking)
    requires pos <= |trace| && i < |program|
    requires Drive(trace, pos, program[i], ScanIn, i, m).flow.Stop?
    ensures ScanInFrom(trace, pos, program, i, m) == Drive(trace, pos, program[i], ScanIn, i, m)
  {
  }

  /** One word's accesses, then the accesses of the words after it. */
  lemma PrependWrite(first: seq<Event>, rest: seq<Event>, program: seq<Word>, i: nat, hi: nat)
    requires i < hi <= |program|
    requires ScanWrites(first) == [program[i]] && ScanWrites(rest) == program[i + 1..hi]
    ensures ScanWrites(first + rest) == program[i..hi]
  {
    ScanWritesAppend(first, rest);
    assert program[i..hi] == [program[i]] + program[i + 1..hi];
  }

  /** A completed scan-in wrote the whole payload to the scan register,
      in order. */
  lemma {:induction false} ScanInWritesAll(trace: seq<Word>, pos: nat, program: seq<Word>, i: nat, m: Masking)
    requires pos <= |trace| && i <= |program|
    ensures var s := ScanInFrom(trace, pos, program, i, m);
      s.flow.Go? ==> ScanWrites(s.events) == program[i..]
    decreases |program| - i
  {
    var s := ScanInFrom(trace, pos, program, i, m);
    if i < |program| {
      var d := Drive(trace, pos, program[i], ScanIn, i, m);
      if d.flow.Go? {
        var rest := ScanInFrom(trace, d.pos, program, i + 1, m);
        assert s == Step(rest.pos, d.events + rest.events, rest.flow) by {
          ScanInGoStep(trace, pos, program, i, m);
        }
        if rest.flow.Go? {
          ScanInWritesAll(trace, d.pos, program, i + 1, m);
          DriveWrites(trace, pos, program[i], ScanIn, i, m);
          PrependWrite(d.events, rest.events, program, i, |program|);
          assert program[i..|program|] == program[i..];
        }
      } else {
        assert s == d by {
          ScanInStopStep(trace, pos, program, i, m);
        }
      }
    }
  }

  /** Scan-in stops only on a fault of its own, at some word from `i` on,
      or when the trace runs out. */
  lemma {:induction false} ScanInStops(trace: seq<Word>, pos: nat, program: seq<Word>, i: nat, m: Masking)
    requires pos <= |trace| && i <= |program|
    ensures var s := ScanInFrom(trace, pos, program, i, m);
      s.flow.Stop? ==> s.flow.outcome.Starved? || (s.flow.outcome.Faulted? && ScanInFault(s.flow.outcome.fault, i, |program|))
    decreases |program| - i
  {
    var s := ScanInFrom(trace, pos, program, i, m);
    if i < |program| {
      var d := Drive(trace, pos, program[i], ScanIn, i, m);
      if d.flow.Stop? {
        assert s == d by {
          ScanInStopStep(trace, pos, program, i, m);
        }
        DriveEnds(trace, pos, program[i], ScanIn, i, m);
      } else {
        var rest := ScanInFrom(trace, d.pos, program, i + 1, m);
        assert s == Step(rest.pos, d.events + rest.events, rest.flow) by {
          ScanInGoStep(trace, pos, program, i, m);
        }
        ScanInStops(trace, d.pos, program, i + 1, m);
      }
    }
  }

  /** A scan-in that faults at its first word has written just that word. */
  lemma ScanInFirstFault(trace: seq<Word>, pos: nat, program: seq<Word>, i: nat, m: Masking)
    requires pos <= |trace| && i < |program|
    requires Drive(trace, pos, program[i], ScanIn, i, m).flow.Stop?
    ensures var s := ScanInFrom(trace, pos, program, i, m);
      s.flow.Stop? && s.flow.outcome.Faulted? ==>
        ScanInFault(s.flow.outcome.fault, i, i + 1) && ScanWrites(s.events) == program[i..i + 1]
  {
    ScanInStopStep(trace, pos, program, i, m);
    DriveEnds(trace, pos, program[i], ScanIn, i, m);
    DriveWrites(trace, pos, program[i], ScanIn, i, m);
    assert program[i..i + 1] == [program[i]];
  }

  /** A scan-in that faults at word `k` has written the payload up to and
      including word `k`. */
  lemma {:induction false} ScanInWritesUpTo(trace: seq<Word>, pos: nat, program: seq<Word>, i: nat, m: Masking)
    requires pos <= |trace| && i <= |program|
    ensures var s := ScanInFrom(trace, pos, program, i, m);
      s.flow.Stop? && s.flow.outcome.Faulted? ==>
        ScanInFault(s.flow.outcome.fault, i, |program|)
        && ScanWrites(s.events) == program[i..s.flow.outcome.fault.index + 1]
    decreases |program| - i
  {
    if i < |program| {
      var d := Drive(trace, pos, program[i], ScanIn, i, m);
      if d.flow.Stop? {
        ScanInFirstFault(trace, pos, program, i, m);
      } else {
        var rest := ScanInFrom(trace, d.pos, program, i + 1, m);
        ScanInGoStep(trace, pos, program, i, m);
        ScanInWritesUpTo(trace, d.pos, program, i + 1, m);
        DriveWrites(trace, pos, program[i], ScanIn, i, m);
        FaultAfterWord(ScanInFrom(trace, pos, program, i, m), d.events, rest, program, i);
      }
    }
  }

  /** A scan-in that went past word `i` and then faulted has written word
      `i` and the words up to the faulty one. */
  lemma FaultAfterWord(s: Step<()>, first: seq<Event>, rest: Step<()>, program: seq<Word>, i: nat)
    requires i < |program|
    requires s == Step(rest.pos, first + rest.events, rest.flow)
    requires ScanWrites(first) == [program[i]]
    requires rest.flow.Stop? && rest.flow.outcome.Faulted? ==>
      ScanInFault(rest.flow.outcome.fault, i + 1, |program|)
      && ScanWrites(rest.events) == program[i + 1..rest.flow.outcome.fault.index + 1]
    ensures s.flow.Stop? && s.flow.outcome.Faulted? ==>
      ScanInFault(s.flow.outcome.fault, i, |program|)
      && ScanWrites(s.events) == program[i..s.flow.outcome.fault.index + 1]
  {
    if rest.flow.Stop? && rest.flow.outcome.Faulted? {
      PrependWrite(first, rest.events, program, i, rest.flow.outcome.fault.index + 1);
    }
  }

  /** Scan-in writes no status code unless it faults, and then the fault's
      code, as its last access. */
  lemma {:induction false} ScanInStatuses(trace: seq<Word>, pos: nat, program: seq<Word>, i: nat, m: Masking)
    requires pos <= |trace| && i <= |program|
    ensures var s := ScanInFrom(trace, pos, program, i, m);
      && (!(s.flow.Stop? && s.flow.outcome.Faulted?) ==> Statuses(s.events) == [])
      && (s.flow.Stop? && s.flow.outcome.Faulted? ==>
            var f := s.flow.outcome.fault;
            && |s.events| > 0
            && Statuses(s.events) == [FaultCode(f)]
            && s.events[|s.events| - 1] == Status(FaultCode(f)))
    decreases |program| - i
  {
    if i < |program| {
      var d := Drive(trace, pos, program[i], ScanIn, i, m);
      DriveStatuses(trace, pos, program[i], ScanIn, i, m);
      if d.flow.Stop? {
        ScanInStopStep(trace, pos, program, i, m);
      } else {
        var rest := ScanInFrom(trace, d.pos, program, i + 1, m);
        ScanInGoStep(trace, pos, program, i, m);
        ScanInStatuses(trace, d.pos, program, i + 1, m);
        FiltersAppend(d.events, rest.events);
        if rest.flow.Stop? && rest.flow.outcome.Faulted? {
          assert (d.events + rest.events)[|d.events + rest.events| - 1] == rest.events[|rest.events| - 1];
        }
      }
    }
  }

  /** Scan-in uses at most seven reads per word, so a trace that long never
      starves it; it starves only at the end of the trace. */
  lemma {:induction false} ScanInEnds(trace: seq<Word>, pos: nat, program: seq<Word>, i: nat, m: Masking)
    requires pos <= |trace| && i <= |program|
    ensures var s := ScanInFrom(trace, pos, program, i, m);
      && s.pos <= pos + 7 * (|program| - i)
      && (s.flow == Stop(Starved) ==> s.pos == |trace|)
      && (pos + 7 * (|program| - i) <= |trace| ==> s.flow != Stop(Starved))
    decreases |program| - i
  {
    if i < |program| {
      var d := Drive(trace, pos, program[i], ScanIn, i, m);
      DriveEnds(trace, pos, program[i], ScanIn, i, m);
      if d.flow.Go? {
        ScanInEnds(trace, d.pos, program, i + 1, m);
      }
    }
  }

  // -----------------------------------------------------------------------
  // Halt
  // -----------------------------------------------------------------------

  /** The halt wait reads the control register until a read is not
      pending; every read before that one was. */
  lemma {:induction false} WaitHaltShape(trace: seq<Word>, pos: nat, m: Masking)
    requires pos <= |trace|
    ensures var w := WaitHalt(trace, pos, m);
      && |w.events| == w.pos - pos
      && (forall j :: 0 <= j < |w.events| ==> w.events[j] == CtrlRead(trace[pos + j]))
      && (forall j :: pos <= j < w.pos - 1 ==> HaltPending(m, trace[j]))
      && (w.end == Ready ==> w.pos > pos && !HaltPending(m, trace[w.pos - 1]))
      && (w.end == Dry ==> w.pos == |trace| && forall j :: pos <= j < |trace| ==> HaltPending(m, trace[j]))
    decreases |trace| - pos
  {
    var w := WaitHalt(trace, pos, m);
    if pos < |trace| && HaltPending(m, trace[pos]) {
      WaitHaltShape(trace, pos + 1, m);
      var rest := WaitHalt(trace, pos + 1, m);
      assert w.events == [CtrlRead(trace[pos])] + rest.events;
      forall j | 0 <= j < |w.events|
        ensures w.events[j] == CtrlRead(trace[pos + j])
      {
        if j > 0 {
          assert w.events[j] == rest.events[j - 1];
        }
      }
    }
  }

  /** The halt step writes the halt code, and no other status code, when it
      goes on; otherwise it is starved and writes none. */
  lemma HaltFilters(trace: seq<Word>, pos: nat, m: Masking)
    requires pos <= |trace|
    ensures var h := Halt(trace, pos, m);
      && ScanWrites(h.events) == []
      && (h.flow.Go? ==> Statuses(h.events) == [HaltCode])
      && (h.flow.Stop? ==> h.flow.outcome == Starved && Statuses(h.events) == [] && h.pos == |trace|)
  {
    var w := WaitHalt(trace, pos, m);
    WaitHaltShape(trace, pos, m);
    HaltAccessFilters(w.events);
  }

  /** The halt request, the wait's reads, and the halt code with the
      switch-off. */
  lemma HaltAccessFilters(polls: seq<Event>)
    requires OnlyCtrlReads(polls)
    ensures var a := [CtrlWrite(HaltRequest)] + polls;
      && Statuses(a) == [] && ScanWrites(a) == []
      && Statuses(a + [Status(HaltCode), CtrlWrite(Off)]) == [HaltCode]
      && ScanWrites(a + [Status(HaltCode), CtrlWrite(Off)]) == []
  {
    CtrlReadsFilterEmpty(polls);
    var a := [CtrlWrite(HaltRequest)] + polls;
    FiltersCons(CtrlWrite(HaltRequest), polls);
    var tail := [Status(HaltCode), CtrlWrite(Off)];
    FiltersCons(CtrlWrite(Off), []);
    assert [CtrlWrite(Off)] == [CtrlWrite(Off)] + [];
    FiltersCons(Status(HaltCode), [CtrlWrite(Off)]);
    assert tail == [Status(HaltCode)] + [CtrlWrite(Off)];
    FiltersAppend(a, tail);
  }

  /** As written, the halt wait's condition is never true: the firmware
      reads the control register once and reports the halt whatever it
      read. */
  lemma LiteralHaltReadsOnce(trace: seq<Word>, pos: nat)
    requires pos < |trace|
    ensures Halt(trace, pos, Literal) ==
      Step(pos + 1, [CtrlWrite(HaltRequest), CtrlRead(trace[pos]), Status(HaltCode), CtrlWrite(Off)], Go(()))
  {
    assert !HaltPending(Literal, trace[pos]);
    assert WaitHalt(trace, pos, Literal) == Poll(pos + 1, [CtrlRead(trace[pos])], Ready);
  }

  /** With the intended test, the halt code is written only after a read
      with the halt bit (bit 2) set, and every earlier read had it clear. */
  lemma IntendedHaltWaits(trace: seq<Word>, pos: nat)
    requires pos <= |trace|
    ensures var h := Halt(trace, pos, Intended);
      h.flow.Go? ==>
        && h.pos > pos
        && trace[h.pos - 1] & 4 != 0
        && forall j :: pos <= j < h.pos - 1 ==> trace[j] & 4 == 0
  {
    WaitHaltShape(trace, pos, Intended);
  }

  // -----------------------------------------------------------------------
  // Scan-out
  // -----------------------------------------------------------------------

  /** The progress markers of scan-out words `i` up to `hi`. */
  function Markers(i: nat, hi: nat): seq<Word>
    requires hi <= ScanOutWords
    decreases hi - i
  {
    if i >= hi then [] else [Marker(i)] + Markers(i + 1, hi)
  }

  /** A fault of the scan-out phase at a word from `lo` up to `hi`. */
  predicate ScanOutFault(f: Fault, lo: nat, hi: nat) {
    (f.Mismatch? || f.ReadyTimeout?) && f.phase == ScanOut && lo <= f.index < hi
  }

  /** Scan-out past a word that went through and was captured. */
  lemma ScanOutGoStep(trace: seq<Word>, pos: nat, program: seq<Word>, i: nat, m: Masking)
    requires pos <= |trace| && i < ScanOutWords <= |program|
    requires ScanOutWord(trace, pos, program, i, m).flow.Go?
    ensures var w := ScanOutWord(trace, pos, program, i, m);
      var rest := ScanOutFrom(trace, w.pos, program, i + 1, m);
      ScanOutFrom(trace, pos, program, i, m) ==
        Step(rest.pos, w.events + rest.events,
             if rest.flow.Go? then Go([w.flow.value] + rest.flow.value) else rest.flow)
  {
  }

  /** Scan-out stopped at a word. */
  lemma ScanOutStopStep(trace: seq<Word>, pos: nat, program: seq<Word>, i: nat, m: Masking)
    requires pos <= |trace| && i < ScanOutWords <= |program|
    requires ScanOutWord(trace, pos, program, i, m).flow.Stop?
    ensures var w := ScanOutWord(trace, pos, program, i, m);
      ScanOutFrom(trace, pos, program, i, m) == Step(w.pos, w.events, Stop(w.flow.outcome))
  {
  }

  /** The filters of a single access. */
  lemma FiltersOne(e: Event)
    ensures Statuses([e]) == StatusOf(e) && ScanWrites([e]) == ScanWriteOf(e)
  {
    FiltersCons(e, []);
    assert [e] + [] == [e];
  }

  /** One scan-out word writes its marker and `program[i]`; when it goes on
      it writes no other status code. */
  lemma ScanOutWordFilters(trace: seq<Word>, pos: nat, program: seq<Word>, i: nat, m: Masking)
    requires pos <= |trace| && i < ScanOutWords <= |program|
    ensures var w := ScanOutWord(trace, pos, program, i, m);
      && ScanWrites(w.events) == [program[i]]
      && (w.flow.Go? ==> Statuses(w.events) == [Marker(i)])
  {
    var d := Drive(trace, pos, program[i], ScanOut, i, m);
    var head := [Status(Marker(i))] + d.events;
    DriveWrites(trace, pos, program[i], ScanOut, i, m);
    DriveStatuses(trace, pos, program[i], ScanOut, i, m);
    FiltersCons(Status(Marker(i)), d.events);
    if d.flow.Go? && d.pos < |trace| {
      FiltersAppend(head, [ScanRead(trace[d.pos])]);
      FiltersOne(ScanRead(trace[d.pos]));
    }
  }

  /** One scan-out word stops only on its own fault or for want of reads,
      and a fault's code comes after the word's marker, as its last access.
      It uses at most thirteen reads: the read-back, up to eleven polls, and
      the capture. */
  lemma ScanOutWordEnds(trace: seq<Word>, pos: nat, program: seq<Word>, i: nat, m: Masking)
    requires pos <= |trace| && i < ScanOutWords <= |program|
    ensures var w := ScanOutWord(trace, pos, program, i, m);
      && w.pos <= pos + 13
      && (w.flow == Stop(Starved) ==> w.pos == |trace|)
      && (pos + 13 <= |trace| ==> w.flow != Stop(Starved))
      && (w.flow.Stop? ==> w.flow.outcome.Starved? || w.flow.outcome.Faulted?)
      && (w.flow.Stop? && w.flow.outcome.Faulted? ==>
            var f := w.flow.outcome.fault;
            && ScanOutFault(f, i, i + 1)
            && Statuses(w.events) == [Marker(i), FaultCode(f)]
            && |w.events| > 0
            && w.events[|w.events| - 1] == Status(FaultCode(f)))
  {
    var d := Drive(trace, pos, program[i], ScanOut, i, m);
    DriveEnds(trace, pos, program[i], ScanOut, i, m);
    DriveStatuses(trace, pos, program[i], ScanOut, i, m);
    FiltersCons(Status(Marker(i)), d.events);
  }

  // -----------------------------------------------------------------------
  // What scan-out reads and captures
  // -----------------------------------------------------------------------

  /** The value an access reads, if it reads one. */
  function ReadOf(e: Event): seq<Word> {
    if e.ScanRead? then [e.word] else if e.CtrlRead? then [e.ctrl] else []
  }

  /** The values read among some accesses, in order, whichever register. */
  function Reads(events: seq<Event>): seq<Word> {
    if |events| == 0 then [] else ReadOf(events[0]) + Reads(events[1..])
  }

  lemma ReadsCons(e: Event, rest: seq<Event>)
    ensures Reads([e] + rest) == ReadOf(e) + Reads(rest)
  {
    assert ([e] + rest)[1..] == rest;
  }

  lemma {:induction false} ReadsAppend(a: seq<Event>, b: seq<Event>)
    ensures Reads(a + b) == Reads(a) + Reads(b)
  {
    if |a| == 0 {
      assert a + b == b;
    } else {
      assert (a + b)[0] == a[0];
      assert (a + b)[1..] == a[1..] + b;
      ReadsAppend(a[1..], b);
    }
  }

  /** Adjacent slices of the trace join up. */
  lemma SliceJoin(trace: seq<Word>, a: nat, b: nat, c: nat)
    requires a <= b <= c <= |trace|
    ensures trace[a..c] == trace[a..b] + trace[b..c]
  {
  }

  /** Control reads of the values `vs`, in order, read `vs`. */
  lemma {:induction false} CtrlReadsRead(events: seq<Event>, vs: seq<Word>)
    requires |events| == |vs|
    requires forall j :: 0 <= j < |events| ==> events[j] == CtrlRead(vs[j])
    ensures Reads(events) == vs
  {
    if |events| > 0 {
      CtrlReadsRead(events[1..], vs[1..]);
      assert vs == [vs[0]] + vs[1..];
    }
  }

  /** The three accesses before a poll read the word read back. */
  lemma HeadReads(word: Word)
    ensures Reads([ScanWrite(word), ScanRead(word), CtrlWrite(Strobe)]) == [word]
  {
    ReadsCons(CtrlWrite(Strobe), []);
    assert [CtrlWrite(Strobe)] + [] == [CtrlWrite(Strobe)];
    ReadsCons(ScanRead(word), [CtrlWrite(Strobe)]);
    ReadsCons(ScanWrite(word), [ScanRead(word), CtrlWrite(Strobe)]);
  }

  /** A status code reads nothing. */
  lemma StatusReads(events: seq<Event>, code: Word)
    ensures Reads(events + [Status(code)]) == Reads(events)
  {
    ReadsCons(Status(code), []);
    assert [Status(code)] + [] == [Status(code)];
    ReadsAppend(events, [Status(code)]);
  }

  /** The accesses of a read-back mismatch read the value read back. */
  lemma MismatchReads(word: Word, back: Word)
    ensures Reads([ScanWrite(word), ScanRead(back), Status(MismatchCode)]) == [back]
  {
    StatusReads([ScanWrite(word), ScanRead(back)], MismatchCode);
    ReadsCons(ScanRead(back), []);
    assert [ScanRead(back)] + [] == [ScanRead(back)];
    ReadsCons(ScanWrite(word), [ScanRead(back)]);
    assert [ScanWrite(word), ScanRead(back)] + [Status(MismatchCode)]
      == [ScanWrite(word), ScanRead(back), Status(MismatchCode)];
  }

  /** After a read-back of `word`, the rest of driving it reads the trace
      from `pos` on, in order. */
  lemma StrobedReads(trace: seq<Word>, pos: nat, word: Word, phase: Phase, index: nat, m: Masking)
    requires pos <= |trace|
    ensures var d := Strobed(trace, pos, word, phase, index, m);
      Reads(d.events) == [word] + trace[pos..d.pos]
  {
    var p := PollReady(trace, pos, 0, Limit(phase), m);
    var head := [ScanWrite(word), ScanRead(word), CtrlWrite(Strobe)];
    PollShape(trace, pos, 0, Limit(phase), m);
    CtrlReadsRead(p.events, trace[pos..p.pos]);
    HeadReads(word);
    ReadsAppend(head, p.events);
    StatusReads(head + p.events, FaultCode(ReadyTimeout(phase, index)));
  }

  /** Driving a word reads the trace from `pos` on, in order, up to where
      it stops. */
  lemma DriveReads(trace: seq<Word>, pos: nat, word: Word, phase: Phase, index: nat, m: Masking)
    requires pos <= |trace|
    ensures var d := Drive(trace, pos, word, phase, index, m);
      Reads(d.events) == trace[pos..d.pos]
  {
    if pos == |trace| {
      ReadsCons(ScanWrite(word), []);
      assert [ScanWrite(word)] + [] == [ScanWrite(word)];
    } else if trace[pos] != word {
      MismatchReads(word, trace[pos]);
      assert trace[pos..pos + 1] == [trace[pos]];
    } else {
      var d := Strobed(trace, pos + 1, word, phase, index, m);
      StrobedReads(trace, pos + 1, word, phase, index, m);
      assert trace[pos..d.pos] == [word] + trace[pos + 1..d.pos];
    }
  }

  /** A marker in front of a drive that read `trace[pos..at]`, and perhaps
      a scan read of `trace[at]` after it, read the trace from `pos` on. */
  lemma MarkedReads(trace: seq<Word>, pos: nat, at: nat, drive: seq<Event>, marker: Word)
    requires pos <= at <= |trace| && Reads(drive) == trace[pos..at]
    ensures Reads([Status(marker)] + drive) == trace[pos..at]
    ensures at < |trace| ==> Reads([Status(marker)] + drive + [ScanRead(trace[at])]) == trace[pos..at + 1]
  {
    ReadsCons(Status(marker), drive);
    if at < |trace| {
      ReadsCons(ScanRead(trace[at]), []);
      assert [ScanRead(trace[at])] + [] == [ScanRead(trace[at])];
      ReadsAppend([Status(marker)] + drive, [ScanRead(trace[at])]);
      SliceJoin(trace, pos, at, at + 1);
      assert trace[at..at + 1] == [trace[at]];
    }
  }

  /** One scan-out word reads the trace from `pos` on, in order. */
  lemma ScanOutWordReads(trace: seq<Word>, pos: nat, program: seq<Word>, i: nat, m: Masking)
    requires pos <= |trace| && i < ScanOutWords <= |program|
    ensures var w := ScanOutWord(trace, pos, program, i, m);
      Reads(w.events) == trace[pos..w.pos]
  {
    var d := Drive(trace, pos, program[i], ScanOut, i, m);
    DriveReads(trace, pos, program[i], ScanOut, i, m);
    MarkedReads(trace, pos, d.pos, d.events, Marker(i));
  }

  /** The scan-out loop reads the trace from `pos` on, in order, up to where
      it stops, whether it goes through or not. */
  lemma {:induction false} ScanOutReads(trace: seq<Word>, pos: nat, program: seq<Word>, i: nat, m: Masking)
    requires pos <= |trace| && i <= ScanOutWords <= |program|
    ensures var o := ScanOutFrom(trace, pos, program, i, m);
      Reads(o.events) == trace[pos..o.pos]
    decreases ScanOutWords - i
  {
    if i < ScanOutWords {
      var w := ScanOutWord(trace, pos, program, i, m);
      ScanOutWordReads(trace, pos, program, i, m);
      if w.flow.Go? {
        var rest := ScanOutFrom(trace, w.pos, program, i + 1, m);
        var o := ScanOutFrom(trace, pos, program, i, m);
        assert o.pos == rest.pos && o.events == w.events + rest.events by {
          ScanOutGoStep(trace, pos, program, i, m);
        }
        ScanOutReads(trace, w.pos, program, i + 1, m);
        ReadsAppend(w.events, rest.events);
        SliceJoin(trace, pos, w.pos, rest.pos);
      } else {
        ScanOutStopStep(trace, pos, program, i, m);
      }
    }
  }

  /** The scan-register reads that directly follow a control read showing
      ready, in order: the words the firmware keeps. */
  function Captures(events: seq<Event>, m: Masking): seq<Word>
    decreases |events|
  {
    if |events| < 2 then [] else Capture(events[0], events[1], m) + Captures(events[1..], m)
  }

  /** The word kept from two successive accesses: the second one's value
      when a ready control read is followed by a scan read. */
  function Capture(e: Event, next: Event, m: Masking): seq<Word> {
    if e.CtrlRead? && !Busy(m, e.ctrl) && next.ScanRead? then [next.word] else []
  }

  /** Accesses with no scan read right after a control read capture nothing. */
  lemma {:induction false} CapturesNone(events: seq<Event>, m: Masking)
    requires forall j :: 1 <= j < |events| ==> !(events[j - 1].CtrlRead? && events[j].ScanRead?)
    ensures Captures(events, m) == []
  {
    if |events| >= 2 {
      assert !(events[0].CtrlRead? && events[1].ScanRead?);
      CapturesNone(events[1..], m);
    }
  }

  /** Captures split where the second part does not start with a scan read. */
  lemma {:induction false} CapturesAppend(a: seq<Event>, b: seq<Event>, m: Masking)
    requires |b| == 0 || !b[0].ScanRead?
    ensures Captures(a + b, m) == Captures(a, m) + Captures(b, m)
  {
    if |a| == 0 {
      assert a + b == b;
    } else if |b| == 0 {
      assert a + b == a;
    } else if |a| == 1 {
      assert (a + b)[1..] == b;
      assert Capture((a + b)[0], (a + b)[1], m) == [];
    } else {
      assert (a + b)[1..] == a[1..] + b;
      assert Capture((a + b)[0], (a + b)[1], m) == Capture(a[0], a[1], m);
      CapturesAppend(a[1..], b, m);
    }
  }

  /** Control reads that end with a ready one, then a scan read: that scan
      read is the one capture. */
  lemma {:induction false} PolledCapture(polls: seq<Event>, c: Word, m: Masking)
    requires |polls| > 0 && OnlyCtrlReads(polls)
    requires !Busy(m, polls[|polls| - 1].ctrl)
    ensures Captures(polls + [ScanRead(c)], m) == [c]
  {
    var e := polls + [ScanRead(c)];
    if |polls| == 1 {
      assert e[1..] == [ScanRead(c)];
    } else {
      assert e[1] == polls[1];
      assert e[1..] == polls[1..] + [ScanRead(c)];
      PolledCapture(polls[1..], c, m);
    }
  }

  /** A scan-out word that goes on read `program[i]` back at `pos`, polled
      the control register until its first read that was not busy, and
      captured the scan register with the very next read: the captured word
      is that read's value, and reading it is the word's last access. */
  lemma ScanOutWordCaptures(trace: seq<Word>, pos: nat, program: seq<Word>, i: nat, m: Masking)
    requires pos <= |trace| && i < ScanOutWords <= |program|
    ensures var w := ScanOutWord(trace, pos, program, i, m);
      w.flow.Go? ==>
        && pos + 3 <= w.pos
        && trace[pos] == program[i]
        && (forall j :: pos + 1 <= j < w.pos - 2 ==> Busy(m, trace[j]))
        && !Busy(m, trace[w.pos - 2])
        && w.flow.value == trace[w.pos - 1]
        && w.events[|w.events| - 1] == ScanRead(w.flow.value)
  {
    if pos < |trace| && trace[pos] == program[i] {
      PollShape(trace, pos + 1, 0, ScanOutLimit, m);
    }
  }

  /** After the read-back, the accesses of a word that goes on capture
      nothing and end with a ready control read. */
  lemma StrobedGoes(trace: seq<Word>, pos: nat, word: Word, phase: Phase, index: nat, m: Masking)
    requires pos <= |trace|
    ensures var d := Strobed(trace, pos, word, phase, index, m);
      d.flow.Go? ==>
        exists polls: seq<Event> ::
          && d.events == [ScanWrite(word), ScanRead(word), CtrlWrite(Strobe)] + polls
          && |polls| > 0 && OnlyCtrlReads(polls) && !Busy(m, polls[|polls| - 1].ctrl)
  {
    var p := PollReady(trace, pos, 0, Limit(phase), m);
    PollShape(trace, pos, 0, Limit(phase), m);
    if p.end == Ready {
      assert p.events[|p.events| - 1] == CtrlRead(trace[p.pos - 1]);
    }
  }

  /** A scan-out word that goes on: its marker, a read-back of
      `program[i]` that matched, the rest of the drive, and the capture. */
  lemma ScanOutWordGoes(trace: seq<Word>, pos: nat, program: seq<Word>, i: nat, m: Masking)
    requires pos <= |trace| && i < ScanOutWords <= |program|
    ensures var w := ScanOutWord(trace, pos, program, i, m);
      && |w.events| > 0 && w.events[0] == Status(Marker(i))
      && (w.flow.Go? ==>
            && pos < |trace| && trace[pos] == program[i]
            && var d := Strobed(trace, pos + 1, program[i], ScanOut, i, m);
               && d.flow.Go?
               && w.events == [Status(Marker(i))] + d.events + [ScanRead(w.flow.value)])
  {
  }

  /** The log of a word that goes on captures the scan read at its end. */
  lemma DrivenCapture(marker: Word, word: Word, polls: seq<Event>, c: Word, m: Masking)
    requires |polls| > 0 && OnlyCtrlReads(polls) && !Busy(m, polls[|polls| - 1].ctrl)
    ensures Captures([Status(marker)] + ([ScanWrite(word), ScanRead(word), CtrlWrite(Strobe)] + polls)
                     + [ScanRead(c)], m) == [c]
  {
    var a := [Status(marker), ScanWrite(word), ScanRead(word), CtrlWrite(Strobe)];
    var b := polls + [ScanRead(c)];
    assert [Status(marker)] + ([ScanWrite(word), ScanRead(word), CtrlWrite(Strobe)] + polls)
           + [ScanRead(c)] == a + b;
    CapturesNone(a, m);
    CapturesAppend(a, b, m);
    PolledCapture(polls, c, m);
  }

  /** In its own log, a scan-out word that goes on captures exactly the
      word it returns; its log starts with its marker. */
  lemma ScanOutWordLogsCapture(trace: seq<Word>, pos: nat, program: seq<Word>, i: nat, m: Masking)
    requires pos <= |trace| && i < ScanOutWords <= |program|
    ensures var w := ScanOutWord(trace, pos, program, i, m);
      && |w.events| > 0 && w.events[0] == Status(Marker(i))
      && (w.flow.Go? ==> Captures(w.events, m) == [w.flow.value])
  {
    var w := ScanOutWord(trace, pos, program, i, m);
    ScanOutWordGoes(trace, pos, program, i, m);
    if w.flow.Go? {
      var word := program[i];
      StrobedGoes(trace, pos + 1, word, ScanOut, i, m);
      var polls: seq<Event> :| && Strobed(trace, pos + 1, word, ScanOut, i, m).events
                                  == [ScanWrite(word), ScanRead(word), CtrlWrite(Strobe)] + polls
                               && |polls| > 0 && OnlyCtrlReads(polls) && !Busy(m, polls[|polls| - 1].ctrl);
      DrivenCapture(Marker(i), word, polls, w.flow.value, m);
    }
  }

  /** A completed scan-out returns exactly the scan reads of its log that
      directly follow a ready control read, in order; and the log starts with
      the first word's marker. */
  lemma {:induction false} ScanOutCaptures(trace: seq<Word>, pos: nat, program: seq<Word>, i: nat, m: Masking)
    requires pos <= |trace| && i <= ScanOutWords <= |program|
    ensures var o := ScanOutFrom(trace, pos, program, i, m);
      && (i < ScanOutWords ==> |o.events| > 0 && o.events[0] == Status(Marker(i)))
      && (o.flow.Go? ==> o.flow.value == Captures(o.events, m))
    decreases ScanOutWords - i
  {
    if i < ScanOutWords {
      var w := ScanOutWord(trace, pos, program, i, m);
      ScanOutWordLogsCapture(trace, pos, program, i, m);
      if w.flow.Go? {
        var rest := ScanOutFrom(trace, w.pos, program, i + 1, m);
        ScanOutGoStep(trace, pos, program, i, m);
        ScanOutCaptures(trace, w.pos, program, i + 1, m);
        if rest.flow.Go? {
          assert (w.events + rest.events)[0] == w.events[0];
          CapturesAppend(w.events, rest.events, m);
        }
      } else {
        ScanOutStopStep(trace, pos, program, i, m);
      }
    }
  }

  /** A completed scan-out wrote each of its words' markers, in order, and
      no other status code. */
  lemma {:induction false} ScanOutMarkers(trace: seq<Word>, pos: nat, program: seq<Word>, i: nat, m: Masking)
    requires pos <= |trace| && i <= ScanOutWords <= |program|
    ensures var o := ScanOutFrom(trace, pos, program, i, m);
      o.flow.Go? ==> Statuses(o.events) == Markers(i, ScanOutWords)
    decreases ScanOutWords - i
  {
    if i < ScanOutWords {
      var w := ScanOutWord(trace, pos, program, i, m);
      if w.flow.Go? {
        var rest := ScanOutFrom(trace, w.pos, program, i + 1, m);
        ScanOutGoStep(trace, pos, program, i, m);
        ScanOutMarkers(trace, w.pos, program, i + 1, m);
        ScanOutWordFilters(trace, pos, program, i, m);
        FiltersAppend(w.events, rest.events);
      } else {
        ScanOutStopStep(trace, pos, program, i, m);
      }
    }
  }

  /** A completed scan-out sent the first two payload words to the scan
      register again. */
  lemma {:induction false} ScanOutRewrites(trace: seq<Word>, pos: nat, program: seq<Word>, i: nat, m: Masking)
    requires pos <= |trace| && i <= ScanOutWords <= |program|
    ensures var o := ScanOutFrom(trace, pos, program, i, m);
      o.flow.Go? ==> ScanWrites(o.events) == program[i..ScanOutWords]
    decreases ScanOutWords - i
  {
    if i < ScanOutWords {
      var w := ScanOutWord(trace, pos, program, i, m);
      if w.flow.Go? {
        var rest := ScanOutFrom(trace, w.pos, program, i + 1, m);
        ScanOutGoStep(trace, pos, program, i, m);
        if rest.flow.Go? {
          ScanOutRewrites(trace, w.pos, program, i + 1, m);
          ScanOutWordFilters(trace, pos, program, i, m);
          PrependWrite(w.events, rest.events, program, i, ScanOutWords);
        }
      } else {
        ScanOutStopStep(trace, pos, program, i, m);
      }
    }
  }

  /** Scan-out stops only on a fault of its own, at some word from `i` on,
      or when the trace runs out. */
  lemma {:induction false} ScanOutStops(trace: seq<Word>, pos: nat, program: seq<Word>, i: nat, m: Masking)
    requires pos <= |trace| && i <= ScanOutWords <= |program|
    ensures var o := ScanOutFrom(trace, pos, program, i, m);
      o.flow.Stop? ==>
        o.flow.outcome.Starved? || (o.flow.outcome.Faulted? && ScanOutFault(o.flow.outcome.fault, i, ScanOutWords))
    decreases ScanOutWords - i
  {
    if i < ScanOutWords {
      var w := ScanOutWord(trace, pos, program, i, m);
      if w.flow.Stop? {
        ScanOutStopStep(trace, pos, program, i, m);
        ScanOutWordEnds(trace, pos, program, i, m);
      } else {
        ScanOutGoStep(trace, pos, program, i, m);
        ScanOutStops(trace, w.pos, program, i + 1, m);
      }
    }
  }

  /** The log of a scan-out that faulted with `f` after starting at word
      `i`: the markers of the words up to the faulty one, then the fault's
      code, as the last access. */
  predicate ScanOutFaultLogged(events: seq<Event>, f: Fault, i: nat) {
    && ScanOutFault(f, i, ScanOutWords)
    && Statuses(events) == Markers(i, f.index + 1) + [FaultCode(f)]
    && |events| > 0
    && events[|events| - 1] == Status(FaultCode(f))
  }

  /** On a fault, scan-out's log is the markers up to the faulty word and
      then the fault's code, as its last access. */
  lemma {:induction false} ScanOutFaultLog(trace: seq<Word>, pos: nat, program: seq<Word>, i: nat, m: Masking)
    requires pos <= |trace| && i <= ScanOutWords <= |program|
    ensures var o := ScanOutFrom(trace, pos, program, i, m);
      o.flow.Stop? && o.flow.outcome.Faulted? ==> ScanOutFaultLogged(o.events, o.flow.outcome.fault, i)
    decreases ScanOutWords - i
  {
    if i < ScanOutWords {
      var w := ScanOutWord(trace, pos, program, i, m);
      if w.flow.Stop? {
        ScanOutFirstFault(trace, pos, program, i, m);
      } else {
        var rest := ScanOutFrom(trace, w.pos, program, i + 1, m);
        ScanOutGoStep(trace, pos, program, i, m);
        if rest.flow.Stop? && rest.flow.outcome.Faulted? {
          ScanOutFaultLog(trace, w.pos, program, i + 1, m);
          ScanOutWordFilters(trace, pos, program, i, m);
          PrependMarker(w.events, rest.events, i, rest.flow.outcome.fault);
        }
      }
    }
  }

  /** A scan-out that faults at its first word has written that word's
      marker and the fault's code. */
  lemma ScanOutFirstFault(trace: seq<Word>, pos: nat, program: seq<Word>, i: nat, m: Masking)
    requires pos <= |trace| && i < ScanOutWords <= |program|
    requires ScanOutWord(trace, pos, program, i, m).flow.Stop?
    ensures var o := ScanOutFrom(trace, pos, program, i, m);
      o.flow.Stop? && o.flow.outcome.Faulted? ==> ScanOutFaultLogged(o.events, o.flow.outcome.fault, i)
  {
    ScanOutStopStep(trace, pos, program, i, m);
    ScanOutWordEnds(trace, pos, program, i, m);
    assert Markers(i, i + 1) == [Marker(i)];
  }

  /** One scan-out word's accesses, then those of a later word that
      faulted. */
  lemma PrependMarker(first: seq<Event>, rest: seq<Event>, i: nat, f: Fault)
    requires i < ScanOutWords
    requires Statuses(first) == [Marker(i)]
    requires ScanOutFaultLogged(rest, f, i + 1)
    ensures ScanOutFaultLogged(first + rest, f, i)
  {
    StatusesAppend(first, rest);
    assert Markers(i, f.index + 1) == [Marker(i)] + Markers(i + 1, f.index + 1);
    assert (first + rest)[|first + rest| - 1] == rest[|rest| - 1];
  }

  /** Scan-out uses at most thirteen reads per word. */
  lemma {:induction false} ScanOutEnds(trace: seq<Word>, pos: nat, program: seq<Word>, i: nat, m: Masking)
    requires pos <= |trace| && i <= ScanOutWords <= |program|
    ensures var o := ScanOutFrom(trace, pos, program, i, m);
      && o.pos <= pos + 13 * (ScanOutWords - i)
      && (o.flow == Stop(Starved) ==> o.pos == |trace|)
      && (pos + 13 * (ScanOutWords - i) <= |trace| ==> o.flow != Stop(Starved))
    decreases ScanOutWords - i
  {
    if i < ScanOutWords {
      var w := ScanOutWord(trace, pos, program, i, m);
      ScanOutWordEnds(trace, pos, program, i, m);
      if w.flow.Stop? {
        ScanOutStopStep(trace, pos, program, i, m);
      } else {
        ScanOutGoStep(trace, pos, program, i, m);
        ScanOutEnds(trace, w.pos, program, i + 1, m);
      }
    }
  }
}
