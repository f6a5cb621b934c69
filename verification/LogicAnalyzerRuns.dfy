/** All runs of an acquisition: DMA transfers and interrupts in any order that the
    hardware allows, over any input. */
module LogicAnalyzerRuns {
  import opened Channels
  import opened IoCapture
  import opened LogicAnalyzer

  datatype Step = TakeSample | ServeInterrupt

  predicate CanStep(la: La, step: Step) {
    match step
    case TakeSample => CanSample(la.ioc)
    case ServeInterrupt => IrqRaised(la.ioc) && InMemory(la.ioc)
  }

  function Do(la: La, step: Step, input: nat -> bv8): La
    requires CanStep(la, step)
  {
    match step
    case TakeSample => Capture(la, input)
    case ServeInterrupt => Interrupt(la)
  }

  predicate Possible(la: La, steps: seq<Step>, input: nat -> bv8)
    decreases |steps|
  {
    steps == [] || (CanStep(la, steps[0]) && Possible(Do(la, steps[0], input), steps[1..], input))
  }

  function After(la: La, steps: seq<Step>, input: nat -> bv8): La
    requires Possible(la, steps, input)
    decreases |steps|
  {
    if steps == [] then la else After(Do(la, steps[0], input), steps[1..], input)
  }

  /** Looking for the trigger, on the way to the stop, or done. */
  ghost predicate Inv(la: La, bs: nat, input: nat -> bv8) {
    || Searching(la, bs, input)
    || (exists stop :: Stopping(la, bs, input, stop))
    || (exists trigger: nat :: Captured(la, bs, input, trigger))
  }

  lemma StartKeepsInv(mem: seq<bv8>, mask: bv8, val: bv8, readCnt: nat, input: nat -> bv8)
    requires |mem| == BUFFER_SIZE && 0 < BufSize(readCnt)
    ensures Inv(StartAcq(mem, mask, val, readCnt), BufSize(readCnt), input)
  {
    hide Searching, Stopping, Captured;
    if mask != 0 {
      StartSearches(mem, mask, val, readCnt, input);
    } else {
      StartStops(mem, val, readCnt, input);
    }
  }

  lemma SearchingStep(la: La, bs: nat, input: nat -> bv8, step: Step)
    requires Searching(la, bs, input) && CanStep(la, step)
    ensures Inv(Do(la, step, input), bs, input)
  {
    hide Searching, Stopping, Captured, Interrupt, FindTrigger;
    if step == TakeSample {
      CaptureWhileSearching(la, bs, input);
    } else {
      ScannedIsInput(la, bs, input);
      var found := FindTrigger(Scanned(la), la.mask, la.val);
      if found == UINT_MAX {
        InterruptWithoutHit(la, bs, input);
      } else {
        InterruptWithHit(la, bs, input, found);
      }
    }
  }

  lemma StoppingStep(la: La, bs: nat, input: nat -> bv8, stop: Stop, step: Step)
    requires Stopping(la, bs, input, stop) && CanStep(la, step)
    ensures Inv(Do(la, step, input), bs, input)
  {
    hide Searching, Stopping, Captured, Interrupt;
    if step == TakeSample {
      CaptureWhileStopping(la, bs, input, stop);
    } else if la.ioc.current == stop.b {
      if RxBuff(la.ioc) {
        InterruptAtStop(la, bs, input, stop);
      } else {
        InterruptTooEarly(la, bs, input, stop);
      }
    } else {
      InterruptBeforeStop(la, bs, input, stop);
    }
  }

  lemma StepKeepsInv(la: La, bs: nat, input: nat -> bv8, step: Step)
    requires Inv(la, bs, input) && CanStep(la, step)
    ensures Inv(Do(la, step, input), bs, input)
  {
    if Searching(la, bs, input) {
      SearchingStep(la, bs, input, step);
    } else {
      var stop :| Stopping(la, bs, input, stop);
      StoppingStep(la, bs, input, stop, step);
    }
  }

  lemma {:induction false} RunKeepsInv(la: La, bs: nat, input: nat -> bv8, steps: seq<Step>)
    requires Inv(la, bs, input) && Possible(la, steps, input)
    ensures Inv(After(la, steps, input), bs, input)
    decreases |steps|
  {
    hide Inv, Do, CanStep;
    if steps != [] {
      StepKeepsInv(la, bs, input, steps[0]);
      RunKeepsInv(Do(la, steps[0], input), bs, input, steps[1..]);
    }
  }

  /** The main loop runs only while no interrupt is raised. */
  predicate MainLoopRuns(la: La) {
    !IrqRaised(la.ioc)
  }

  lemma EndedLetsMainLoopRun(la: La)
    ensures !la.ioc.busy ==> MainLoopRuns(la)
  {
  }

  /** Whenever the main loop can run, the state
      Acquired means that the transfer has ended with the samples in the ring, although
      the handler may set that state before the last buffer is full. */
  lemma MainLoopSeesTheEnd(la: La, bs: nat, input: nat -> bv8)
    requires Inv(la, bs, input) && MainLoopRuns(la)
    ensures la.state == Acquired <==> !la.ioc.busy
    ensures la.state == Acquired ==> exists trigger: nat :: Captured(la, bs, input, trigger)
  {
    hide RingData, TriggerAt, NoHitBefore, RingIsInput, StopFits, Marked, Place;
  }

  /** An acquisition that the main loop finds ended has its trigger, and the samples
      belong to it. */
  lemma AcquiredMeansTriggered(mem: seq<bv8>, mask: bv8, val: bv8, readCnt: nat, input: nat -> bv8, steps: seq<Step>)
    requires |mem| == BUFFER_SIZE && 0 < BufSize(readCnt)
    requires Possible(StartAcq(mem, mask, val, readCnt), steps, input)
    ensures
      var end := After(StartAcq(mem, mask, val, readCnt), steps, input);
      end.state == Acquired && MainLoopRuns(end) ==>
        exists trigger: nat :: Captured(end, BufSize(readCnt), input, trigger)
  {
    hide StartAcq, Captured, Possible, After, Inv, MainLoopRuns;
    StartKeepsInv(mem, mask, val, readCnt, input);
    RunKeepsInv(StartAcq(mem, mask, val, readCnt), BufSize(readCnt), input, steps);
    var end := After(StartAcq(mem, mask, val, readCnt), steps, input);
    if MainLoopRuns(end) {
      MainLoopSeesTheEnd(end, BufSize(readCnt), input);
    }
  }

  /** The finish handler of the analyzer keeps the driver's contract in every state
      of every run. */
  lemma HandlerMeetsContract(la: La, bs: nat, input: nat -> bv8)
    requires Inv(la, bs, input) && CanStep(la, ServeInterrupt)
    ensures
      var buf := la.ioc.bufs[la.ioc.current];
      var (changed, _, _, finished) := AcqFinished(la, buf);
      HandlerContract(buf, changed, finished)
  {
    hide RingData, TriggerAt, NoHitBefore, RingIsInput, Hit, FindTrigger, InputFrom;
    if Searching(la, bs, input) {
      ScannedIsInput(la, bs, input);
      FindTriggerIsFirstHit(Scanned(la), la.mask, la.val);
    } else {
      var s :| Stopping(la, bs, input, s);
      if la.ioc.current == s.b {
        NextAddr(s.b, bs);
      } else {
        HandlerWaits(la, bs, s);
      }
    }
  }

  // ----- The analyzer's runs are runs of the driver -----

  /** What a step of the analyzer is for the driver. */
  function EventOf(la: La, step: Step, input: nat -> bv8): Event<bv8>
    requires CanStep(la, step)
  {
    match step
    case TakeSample => Take(input(la.taken))
    case ServeInterrupt =>
      var answer := AcqFinished(la, la.ioc.bufs[la.ioc.current]);
      Serve(answer.0, answer.3)
  }

  function EventsOf(la: La, steps: seq<Step>, input: nat -> bv8): seq<Event<bv8>>
    requires Possible(la, steps, input)
    decreases |steps|
  {
    if steps == [] then [] else [EventOf(la, steps[0], input)] + EventsOf(Do(la, steps[0], input), steps[1..], input)
  }

  lemma StepIsEvent(la: La, bs: nat, input: nat -> bv8, step: Step, r: Run<bv8>)
    requires Inv(la, bs, input) && CanStep(la, step) && r.ioc == la.ioc
    ensures Enabled(r, EventOf(la, step, input))
    ensures Apply(r, EventOf(la, step, input)).ioc == Do(la, step, input).ioc
  {
    hide Inv, AcqFinished, HandlerContract;
    if step == ServeInterrupt {
      HandlerMeetsContract(la, bs, input);
    }
  }

  lemma {:induction false} RunIsDriverRun(la: La, bs: nat, input: nat -> bv8, steps: seq<Step>, r: Run<bv8>)
    requires Inv(la, bs, input) && Possible(la, steps, input) && r.ioc == la.ioc
    ensures IoCapture.Possible(r, EventsOf(la, steps, input))
    ensures IoCapture.After(r, EventsOf(la, steps, input)).ioc == After(la, steps, input).ioc
    decreases |steps|
  {
    hide Inv, Do, CanStep, EventOf, Enabled, Apply;
    if steps != [] {
      var e, next := EventOf(la, steps[0], input), Do(la, steps[0], input);
      StepKeepsInv(la, bs, input, steps[0]);
      StepIsEvent(la, bs, input, steps[0], r);
      RunIsDriverRun(next, bs, input, steps[1..], Apply(r, e));
      assert EventsOf(la, steps, input)[1..] == EventsOf(next, steps[1..], input);
    }
  }

  /** The ring is safe in every run of the analyzer: its steps are events of the driver
      with a finish handler that keeps the contract. */
  lemma AnalyzerRingIsSafe(mem: seq<bv8>, mask: bv8, val: bv8, readCnt: nat, input: nat -> bv8, steps: seq<Step>)
    requires |mem| == BUFFER_SIZE && 0 < BufSize(readCnt)
    requires Possible(StartAcq(mem, mask, val, readCnt), steps, input)
    ensures
      var start := StartAcq(mem, mask, val, readCnt);
      var begin, events := Run(start.ioc, [], [], 0), EventsOf(start, steps, input);
      && IoCapture.Possible(begin, events)
      && IoCapture.After(begin, events).ioc == After(start, steps, input).ioc
      && RingSafe(IoCapture.After(begin, events))
  {
    var start, bs := StartAcq(mem, mask, val, readCnt), BufSize(readCnt);
    var bufs := [
      IocBuffer(Addr(0, bs), bs, false), IocBuffer(Addr(1, bs), bs, false),
      IocBuffer(Addr(2, bs), bs, false), IocBuffer(Addr(3, bs), bs, mask == 0)];
    assert start.ioc == IoCapture.Start(mem, bufs);
    hide StartAcq, Inv, Possible, After, IoCapture.Possible, IoCapture.After, RingSafe, EventsOf;
    StartKeepsInv(mem, mask, val, readCnt, input);
    RunIsDriverRun(start, bs, input, steps, Run(start.ioc, [], [], 0));
    RingIsSafe(mem, bufs, EventsOf(start, steps, input));
  }

  /** The write position is outside the buffer that the handler is called for. */
  predicate ScansApart(c: Ioc<bv8>) {
    && InMemory(c) && c.rcr > 1 && c.pending
    && (c.rpr < c.bufs[c.current].addr || c.bufs[c.current].addr + c.bufs[c.current].size <= c.rpr)
  }

  lemma SearchingScansApart(la: La, bs: nat, input: nat -> bv8)
    requires Searching(la, bs, input) && CanStep(la, ServeInterrupt) && CanStep(la, TakeSample)
    ensures ScansApart(la.ioc)
  {
    hide RingData, NoHitBefore, Hit;
    NextAddr(la.ioc.current, bs);
    BufferAddr(la.ioc, bs, la.ioc.current);
  }

  lemma StoppingScansApart(la: La, bs: nat, input: nat -> bv8, stop: Stop)
    requires Stopping(la, bs, input, stop) && CanStep(la, ServeInterrupt) && CanStep(la, TakeSample)
    requires la.ioc.current != stop.b
    ensures ScansApart(la.ioc)
  {
    hide RingData, TriggerAt, Hit;
    NextAddr(la.ioc.current, bs);
    BufferAddr(la.ioc, bs, la.ioc.current);
  }

  lemma NotBusyIsDone(la: La)
    ensures CanStep(la, TakeSample) ==> la.ioc.busy && !RxBuff(la.ioc)
  {
  }

  lemma ApartIsUntouched(la: La, input: nat -> bv8)
    requires ScansApart(la.ioc) && CanStep(la, TakeSample)
    ensures InMemory(Capture(la, input).ioc) && Scanned(Capture(la, input)) == Scanned(la)
  {
    assert |Scanned(Capture(la, input))| == |Scanned(la)|;
  }

  lemma HandlersAgree(la: La, other: La)
    requires InMemory(la.ioc) && InMemory(other.ioc) && Scanned(la) == Scanned(other)
    requires la.ioc.bufs == other.ioc.bufs && la.ioc.current == other.ioc.current
    requires (la.trigOffset, la.mask, la.val, la.state) == (other.trigOffset, other.mask, other.val, other.state)
    ensures AcqFinished(la, la.ioc.bufs[la.ioc.current]) == AcqFinished(other, other.ioc.bufs[other.ioc.current])
  {
    hide FindTrigger;
  }

  /** Both orders of an interrupt and a transfer lead to the same state, or do so after
      one more interrupt. */
  ghost predicate OrdersAgree(la: La, input: nat -> bv8)
    requires CanStep(la, ServeInterrupt) && CanStep(la, TakeSample)
  {
    && CanStep(Do(la, TakeSample, input), ServeInterrupt)
    && CanStep(Do(la, ServeInterrupt, input), TakeSample)
    && var served := Do(Do(la, TakeSample, input), ServeInterrupt, input);
       var taken := Do(Do(la, ServeInterrupt, input), TakeSample, input);
       served == taken || (la.ioc.rcr == 1 && CanStep(taken, ServeInterrupt)
         && served == Do(taken, ServeInterrupt, input))
  }

  lemma OrdersAgreeApart(la: La, input: nat -> bv8)
    requires CanStep(la, ServeInterrupt) && CanStep(la, TakeSample) && ScansApart(la.ioc)
    ensures OrdersAgree(la, input)
  {
    ApartIsUntouched(la, input);
    hide AcqFinished, Handle, Sample, CanSample, IrqRaised, Scanned;
    var sampled := Capture(la, input);
    HandlersAgree(la, sampled);
    var answer := AcqFinished(la, la.ioc.bufs[la.ioc.current]);
    DriverCommutes(la.ioc, input(la.taken), answer.0, answer.3);
  }

  lemma StopIsFound(la: La, bs: nat, input: nat -> bv8, stop: Stop)
    requires Stopping(la, bs, input, stop) && la.ioc.current == stop.b
    ensures InMemory(la.ioc)
    ensures Interrupt(la.(state := Acquired)) == Interrupt(la)
  {
    hide RingData, TriggerAt, StoppingShape;
    NextAddr(stop.b, bs);
  }

  lemma OrdersAgreeAtStop(la: La, bs: nat, input: nat -> bv8, stop: Stop)
    requires Stopping(la, bs, input, stop) && la.ioc.current == stop.b
    requires CanStep(la, ServeInterrupt) && CanStep(la, TakeSample)
    ensures OrdersAgree(la, input)
  {
    NotBusyIsDone(la);
    InterruptTooEarly(la, bs, input, stop);
    CaptureWhileStopping(la, bs, input, stop);
    var sampled := Capture(la, input);
    SampledAtStop(la, input);
    hide Stopping, Interrupt, Sample;
    StopIsFound(sampled, bs, input, stop);
    if !RxBuff(sampled.ioc) {
      InterruptTooEarly(sampled, bs, input, stop);
    }
  }

  lemma SampledAtStop(la: La, input: nat -> bv8)
    requires CanSample(la.ioc) && la.ioc.busy && la.ioc.endrx
    ensures var sampled := Capture(la, input);
      && Capture(la.(state := Acquired), input) == sampled.(state := Acquired)
      && sampled.ioc.current == la.ioc.current && IrqRaised(sampled.ioc)
      && (RxBuff(sampled.ioc) ==> la.ioc.rcr == 1)
  {
  }

  /** Handler and DMA do not get in each other's way: in every state of every run where
      both can go on, the order of the two makes no difference, except that the handler
      may miss the very last sample and then runs once more. This is why the handler may
      be taken as one step although the DMA goes on during its scan. */
  lemma HandlerAndDmaCommute(la: La, bs: nat, input: nat -> bv8)
    requires Inv(la, bs, input) && CanStep(la, ServeInterrupt) && CanStep(la, TakeSample)
    ensures OrdersAgree(la, input)
  {
    hide Searching, Stopping, CanStep, OrdersAgree;
    if Searching(la, bs, input) {
      SearchingScansApart(la, bs, input);
      OrdersAgreeApart(la, input);
    } else if s: Stop :| Stopping(la, bs, input, s) {
      if la.ioc.current == s.b {
        OrdersAgreeAtStop(la, bs, input, s);
      } else {
        StoppingScansApart(la, bs, input, s);
        OrdersAgreeApart(la, input);
      }
    } else {
      var t: nat :| Captured(la, bs, input, t);
      NotBusyIsDone(la);
    }
  }

  /** With more than one transfer left, a transfer and the driver's part of the handler
      touch different variables, whatever the finish handler answers. */
  lemma DriverCommutes(c: Ioc<bv8>, x: bv8, changed: IocBuffer, finished: bool)
    requires ScansApart(c) && CanSample(c) && IrqRaised(c)
    ensures
      var sampled := Sample(c, x);
      InMemory(sampled) && IrqRaised(sampled) && sampled.bufs == c.bufs && sampled.current == c.current
    ensures CanSample(Handle(c, changed, finished))
    ensures Handle(Sample(c, x), changed, finished) == Sample(Handle(c, changed, finished), x)
  {
  }

  // ----- Progress -----

  lemma TriggerIsUnique(input: nat -> bv8, mask: bv8, val: bv8, s: nat, t: nat)
    requires TriggerAt(input, mask, val, s) && TriggerAt(input, mask, val, t)
    ensures s == t
  {
    hide Hit;
  }

  /** Never more than one ring of samples is taken after the trigger. */
  lemma TakenIsBounded(la: La, bs: nat, input: nat -> bv8, trigger: nat)
    requires Inv(la, bs, input) && TriggerAt(input, la.mask, la.val, trigger)
    ensures la.taken <= trigger + 4 * bs
    ensures !la.ioc.busy ==> la.taken == trigger + 4 * bs && Captured(la, bs, input, trigger)
  {
    hide Hit, RingData, RingIsInput;
    if Searching(la, bs, input) {
      NextAddr(la.ioc.current, bs);
      SearchIsBeforeTrigger(la, bs, input, trigger);
    } else if s: Stop :| Stopping(la, bs, input, s) {
      TriggerIsUnique(input, la.mask, la.val, s.trigger, trigger);
      StopIsAhead(la, bs, input, s);
    } else {
      var t: nat :| Captured(la, bs, input, t);
      TriggerIsUnique(input, la.mask, la.val, t, trigger);
    }
  }

  lemma SearchIsBeforeTrigger(la: La, bs: nat, input: nat -> bv8, trigger: nat)
    requires Searching(la, bs, input) && TriggerAt(input, la.mask, la.val, trigger)
    ensures la.taken < trigger + 2 * bs
  {
    hide Hit, RingData;
    NextAddr(la.ioc.current, bs);
  }

  lemma StopIsAhead(la: La, bs: nat, input: nat -> bv8, stop: Stop)
    requires Stopping(la, bs, input, stop)
    ensures la.taken <= stop.trigger + 4 * bs
  {
    hide Hit, RingData, TriggerAt;
    NextAddr(la.ioc.current, bs);
    NextAddr(la.ioc.idx, bs);
  }

  /** Samples that are still to come keep the counters from running out. */
  lemma StopCounts(la: La, bs: nat, input: nat -> bv8, stop: Stop)
    requires Stopping(la, bs, input, stop)
    ensures RxBuff(la.ioc) <==> la.taken == stop.trigger + 4 * bs
  {
    hide Hit, RingData, TriggerAt;
    NextAddr(la.ioc.current, bs);
    NextAddr(la.ioc.idx, bs);
  }

  /** A requested stop ends the acquisition at an interrupt if and only if all samples have
      been taken by then; at any other interrupt the request is lost and nothing else
      changes. */
  lemma StopRequestExact(la: La, bs: nat, input: nat -> bv8, trigger: nat)
    requires Inv(la, bs, input) && CanStep(la, ServeInterrupt) && TriggerAt(input, la.mask, la.val, trigger)
    ensures !HandleStop(la.ioc).busy <==> la.taken == trigger + 4 * bs
    ensures la.taken != trigger + 4 * bs ==> HandleStop(la.ioc) == la.ioc
  {
    hide Searching, Stopping, TriggerAt, Captured, InMemory;
    if Searching(la, bs, input) {
      SearchIsBeforeTrigger(la, bs, input, trigger);
      SearchKeepsCounting(la, bs, input);
    } else if s: Stop :| Stopping(la, bs, input, s) {
      TriggerOfStop(la, bs, input, s, trigger);
      StopCounts(la, bs, input, s);
    } else {
      var t: nat :| Captured(la, bs, input, t);
      CapturedIsIdle(la, bs, input, t);
    }
  }

  lemma SearchKeepsCounting(la: La, bs: nat, input: nat -> bv8)
    requires Searching(la, bs, input)
    ensures 0 < la.ioc.rcr && 0 < bs
  {
    hide Hit, RingData, NoHitBefore;
  }

  lemma TriggerOfStop(la: La, bs: nat, input: nat -> bv8, stop: Stop, trigger: nat)
    requires Stopping(la, bs, input, stop) && TriggerAt(input, la.mask, la.val, trigger)
    ensures stop.trigger == trigger
  {
    hide TriggerAt, RingData, StoppingShape;
    TriggerIsUnique(input, la.mask, la.val, stop.trigger, trigger);
  }

  lemma CapturedIsIdle(la: La, bs: nat, input: nat -> bv8, trigger: nat)
    requires Captured(la, bs, input, trigger)
    ensures !CanStep(la, ServeInterrupt)
  {
    hide TriggerAt, RingIsInput, Place;
  }

  lemma SearchingGoesOn(la: La, bs: nat, input: nat -> bv8)
    requires Searching(la, bs, input)
    ensures CanStep(la, TakeSample) || (CanStep(la, ServeInterrupt) && la.ioc.pending)
  {
    hide Hit, RingData, NoHitBefore;
    NextAddr(la.ioc.current, bs);
    NextAddr(la.ioc.idx, bs);
  }

  lemma StoppingGoesOn(la: La, bs: nat, input: nat -> bv8, stop: Stop)
    requires Stopping(la, bs, input, stop)
    ensures CanStep(la, TakeSample) || (CanStep(la, ServeInterrupt)
      && (la.ioc.pending || (RxBuff(la.ioc) && la.ioc.current == stop.b)))
  {
    hide Hit, RingData, TriggerAt;
    NextAddr(la.ioc.current, bs);
    NextAddr(la.ioc.idx, bs);
    BufferAddr(la.ioc, bs, la.ioc.current);
  }

  lemma InterruptEffect(la: La)
    requires InMemory(la.ioc)
    ensures
      var next := Interrupt(la);
      && next.taken == la.taken && next.mask == la.mask && next.val == la.val
      && !next.ioc.pending && (next.ioc.busy ==> la.ioc.busy)
      && (la.state == Acquired ==> next.state == Acquired)
  {
    hide FindTrigger;
  }

  /** Until the transfer has ended the hardware can always go on, with a transfer or with
      an interrupt that changes something; afterwards nothing happens any more. */
  lemma NeverStuck(la: La, bs: nat, input: nat -> bv8)
    requires Inv(la, bs, input)
    ensures la.ioc.busy ==>
      CanStep(la, TakeSample) || (CanStep(la, ServeInterrupt) && Do(la, ServeInterrupt, input) != la)
    ensures !la.ioc.busy ==> !CanStep(la, TakeSample) && !CanStep(la, ServeInterrupt)
  {
    hide Searching, Stopping, Captured, Interrupt;
    if Searching(la, bs, input) {
      SearchingGoesOn(la, bs, input);
    } else if s: Stop :| Stopping(la, bs, input, s) {
      StoppingGoesOn(la, bs, input, s);
      if CanStep(la, ServeInterrupt) && RxBuff(la.ioc) && la.ioc.current == s.b {
        InterruptAtStop(la, bs, input, s);
        BusyIsNotCaptured(Interrupt(la), bs, input, s.trigger);
      }
    } else {
      var t: nat :| Captured(la, bs, input, t);
      BusyIsNotCaptured(la, bs, input, t);
    }
    if InMemory(la.ioc) {
      InterruptEffect(la);
    }
  }

  lemma BusyIsNotCaptured(la: La, bs: nat, input: nat -> bv8, trigger: nat)
    requires Captured(la, bs, input, trigger)
    ensures !la.ioc.busy
  {
    hide TriggerAt, RingIsInput, Place;
  }

  /** Changes that can still come when the trigger is at a given sample. */
  function Measure(la: La, bs: nat, trigger: nat): int {
    2 * (trigger + 4 * bs - la.taken)
    + (if la.ioc.pending then 1 else 0) + (if la.state == Acquired then 0 else 1) + (if la.ioc.busy then 1 else 0)
  }

  /** An interrupt without a completed buffer behind it is one of the last buffer: it ends
      the transfer, or sets the state Acquired, or changes nothing. */
  lemma RepeatedInterrupt(la: La, bs: nat, input: nat -> bv8)
    requires Inv(la, bs, input) && CanStep(la, ServeInterrupt) && !la.ioc.pending
    ensures Interrupt(la) == la.(state := Acquired) || (la.ioc.busy && !Interrupt(la).ioc.busy)
  {
    hide Hit, RingData, TriggerAt, NoHitBefore, RingIsInput, Interrupt, Captured;
    if s: Stop :| Stopping(la, bs, input, s) {
      if RxBuff(la.ioc) {
        InterruptAtStop(la, bs, input, s);
        BusyIsNotCaptured(Interrupt(la), bs, input, s.trigger);
      } else {
        InterruptTooEarly(la, bs, input, s);
      }
    } else if !Searching(la, bs, input) {
      var t: nat :| Captured(la, bs, input, t);
      BusyIsNotCaptured(la, bs, input, t);
    }
  }

  lemma StepDecreases(la: La, bs: nat, input: nat -> bv8, trigger: nat, step: Step)
    requires Inv(la, bs, input) && CanStep(la, step) && TriggerAt(input, la.mask, la.val, trigger)
    ensures
      var next := Do(la, step, input);
      && Inv(next, bs, input) && TriggerAt(input, next.mask, next.val, trigger)
      && 0 <= Measure(next, bs, trigger)
      && (next == la || Measure(next, bs, trigger) < Measure(la, bs, trigger))
  {
    hide Inv, TriggerAt, Interrupt, Captured;
    StepKeepsInv(la, bs, input, step);
    if step == ServeInterrupt {
      InterruptEffect(la);
      if !la.ioc.pending {
        RepeatedInterrupt(la, bs, input);
      }
    }
    TakenIsBounded(Do(la, step, input), bs, input, trigger);
  }

  /** The number of steps of a run that change anything. The others are interrupts that
      are raised again while the last buffer is being filled. */
  ghost function Changes(la: La, steps: seq<Step>, input: nat -> bv8): nat
    requires Possible(la, steps, input)
    decreases |steps|
  {
    if steps == [] then 0
    else (if Do(la, steps[0], input) == la then 0 else 1) + Changes(Do(la, steps[0], input), steps[1..], input)
  }

  lemma {:induction false} RunsEnd(la: La, bs: nat, input: nat -> bv8, trigger: nat, steps: seq<Step>)
    requires Inv(la, bs, input) && TriggerAt(input, la.mask, la.val, trigger) && Possible(la, steps, input)
    ensures
      var end := After(la, steps, input);
      && Inv(end, bs, input) && TriggerAt(input, end.mask, end.val, trigger)
      && Changes(la, steps, input) + Measure(end, bs, trigger) <= Measure(la, bs, trigger)
    decreases |steps|
  {
    hide Inv, TriggerAt, Measure, Do, CanStep;
    if steps != [] {
      StepDecreases(la, bs, input, trigger, steps[0]);
      RunsEnd(Do(la, steps[0], input), bs, input, trigger, steps[1..]);
    }
  }

  // ----- The memory behind the ring, and the existence of runs -----

  lemma SearchWritesInRing(la: La, bs: nat, input: nat -> bv8)
    requires Searching(la, bs, input)
    ensures la.ioc.rpr < 4 * bs <= BUFFER_SIZE == |la.ioc.mem|
  {
    hide Hit, RingData, NoHitBefore;
    NextAddr(la.ioc.current, bs);
    NextAddr(la.ioc.idx, bs);
  }

  lemma StopWritesInRing(la: La, bs: nat, input: nat -> bv8, stop: Stop)
    requires Stopping(la, bs, input, stop) && CanSample(la.ioc)
    ensures la.ioc.rpr < 4 * bs <= BUFFER_SIZE == |la.ioc.mem|
  {
    hide Hit, RingData, TriggerAt;
    NextAddr(la.ioc.current, bs);
    NextAddr(la.ioc.idx, bs);
  }

  lemma TransferStaysInRing(la: La, bs: nat, input: nat -> bv8)
    requires Inv(la, bs, input) && CanStep(la, TakeSample)
    ensures la.ioc.rpr < 4 * bs <= BUFFER_SIZE == |la.ioc.mem|
  {
    hide Searching, Stopping;
    if Searching(la, bs, input) {
      SearchWritesInRing(la, bs, input);
    } else if s: Stop :| Stopping(la, bs, input, s) {
      StopWritesInRing(la, bs, input, s);
    } else {
      NotBusyIsDone(la);
    }
  }

  predicate SameBehindRing(mem: seq<bv8>, other: seq<bv8>, bs: nat) {
    |mem| == |other| && forall a :: 4 * bs <= a < |mem| ==> mem[a] == other[a]
  }

  lemma StepStaysInRing(la: La, bs: nat, input: nat -> bv8, step: Step)
    requires Inv(la, bs, input) && CanStep(la, step)
    ensures SameBehindRing(Do(la, step, input).ioc.mem, la.ioc.mem, bs)
  {
    hide Inv, AcqFinished;
    if step == TakeSample {
      TransferStaysInRing(la, bs, input);
    }
  }

  /** No run writes behind the ring. */
  lemma {:induction false} RunStaysInRing(la: La, bs: nat, input: nat -> bv8, steps: seq<Step>)
    requires Inv(la, bs, input) && Possible(la, steps, input)
    ensures SameBehindRing(After(la, steps, input).ioc.mem, la.ioc.mem, bs)
    decreases |steps|
  {
    hide Inv, Do, CanStep;
    if steps != [] {
      StepKeepsInv(la, bs, input, steps[0]);
      StepStaysInRing(la, bs, input, steps[0]);
      RunStaysInRing(Do(la, steps[0], input), bs, input, steps[1..]);
    }
  }

  /** Going on with steps that change something ends the transfer. */
  lemma {:induction false} GoingOnAcquires(la: La, bs: nat, input: nat -> bv8, trigger: nat) returns (steps: seq<Step>)
    requires Inv(la, bs, input) && TriggerAt(input, la.mask, la.val, trigger)
    ensures Possible(la, steps, input) && !After(la, steps, input).ioc.busy
    decreases Measure(la, bs, trigger)
  {
    hide Inv, TriggerAt, Measure, Do, CanStep;
    if !la.ioc.busy {
      return [];
    }
    NeverStuck(la, bs, input);
    var step := if CanStep(la, TakeSample) then TakeSample else ServeInterrupt;
    TransferChanges(la, input);
    StepDecreases(la, bs, input, trigger, step);
    var rest := GoingOnAcquires(Do(la, step, input), bs, input, trigger);
    steps := [step] + rest;
    assert steps[1..] == rest;
  }

  lemma TransferChanges(la: La, input: nat -> bv8)
    ensures CanStep(la, TakeSample) ==> Do(la, TakeSample, input) != la
  {
  }

  ghost predicate SameUpTo(input: nat -> bv8, other: nat -> bv8, n: nat) {
    forall g: nat :: g < n ==> input(g) == other(g)
  }

  lemma StepSeesTaken(la: La, bs: nat, input: nat -> bv8, other: nat -> bv8, trigger: nat, step: Step)
    requires Inv(la, bs, input) && TriggerAt(input, la.mask, la.val, trigger)
    requires CanStep(la, step) && SameUpTo(input, other, trigger + 4 * bs)
    ensures Do(la, step, other) == Do(la, step, input)
  {
    hide Inv, TriggerAt, Interrupt, Captured;
    if step == TakeSample {
      StepKeepsInv(la, bs, input, step);
      TakenIsBounded(Do(la, step, input), bs, input, trigger);
    }
  }

  /** A run does not see the input from one ring behind the trigger on. */
  lemma {:induction false} RunSeesTaken(la: La, bs: nat, input: nat -> bv8, other: nat -> bv8, trigger: nat,
      steps: seq<Step>)
    requires Inv(la, bs, input) && TriggerAt(input, la.mask, la.val, trigger)
    requires Possible(la, steps, input) && SameUpTo(input, other, trigger + 4 * bs)
    ensures Possible(la, steps, other) && After(la, steps, other) == After(la, steps, input)
    decreases |steps|
  {
    hide Inv, TriggerAt, Do, CanStep, SameUpTo;
    if steps != [] {
      StepSeesTaken(la, bs, input, other, trigger, steps[0]);
      StepDecreases(la, bs, input, trigger, steps[0]);
      RunSeesTaken(Do(la, steps[0], input), bs, input, other, trigger, steps[1..]);
    }
  }

  /** The theorem of the capture path. For every input with a trigger sample, every
      memory, every sample count and every run:
      - the number of steps that change anything is bounded, and at most one ring of
        samples is taken after the trigger;
      - until the transfer has ended, a transfer or an interrupt that changes something
        is possible, and afterwards nothing is;
      - whenever the main loop can run, that is when no interrupt is raised, the state is
        Acquired exactly if the transfer has ended;
      - when it has, the ring, read circularly from the trigger offset, is the input from
        the trigger on. */
  lemma AcquisitionIsRight(mem: seq<bv8>, mask: bv8, val: bv8, readCnt: nat, input: nat -> bv8, trigger: nat,
      steps: seq<Step>)
    requires |mem| == BUFFER_SIZE && 0 < BufSize(readCnt)
    requires TriggerAt(input, mask, val, trigger)
    requires Possible(StartAcq(mem, mask, val, readCnt), steps, input)
    ensures
      var bs := BufSize(readCnt);
      var start := StartAcq(mem, mask, val, readCnt);
      var end := After(start, steps, input);
      && Changes(start, steps, input) <= 2 * (trigger + 4 * bs) + 2
      && end.taken <= trigger + 4 * bs
      && (end.ioc.busy ==>
            CanStep(end, TakeSample) || (CanStep(end, ServeInterrupt) && Do(end, ServeInterrupt, input) != end))
      && (!end.ioc.busy ==> !CanStep(end, TakeSample) && !CanStep(end, ServeInterrupt))
      && (MainLoopRuns(end) ==> (end.state == Acquired <==> !end.ioc.busy))
      && (!end.ioc.busy ==> Captured(end, bs, input, trigger))
  {
    var start, bs := StartAcq(mem, mask, val, readCnt), BufSize(readCnt);
    StartMeasure(mem, mask, val, readCnt, trigger);
    hide Inv, TriggerAt, Do, CanStep, StartAcq, Captured, Possible, After, Measure, MainLoopRuns, Changes;
    StartKeepsInv(mem, mask, val, readCnt, input);
    RunsEnd(start, bs, input, trigger, steps);
    var end := After(start, steps, input);
    TakenIsBounded(end, bs, input, trigger);
    MeasureIsPositive(end, bs, trigger);
    NeverStuck(end, bs, input);
    if MainLoopRuns(end) {
      MainLoopSeesTheEnd(end, bs, input);
    }
  }

  lemma StartMeasure(mem: seq<bv8>, mask: bv8, val: bv8, readCnt: nat, trigger: nat)
    ensures
      var start, bs := StartAcq(mem, mask, val, readCnt), BufSize(readCnt);
      && start.mask == mask && start.val == val
      && Measure(start, bs, trigger) == 2 * (trigger + 4 * bs) + 2
  {
  }

  lemma MeasureIsPositive(la: La, bs: nat, trigger: nat)
    requires la.taken <= trigger + 4 * bs
    ensures 0 <= Measure(la, bs, trigger)
  {
  }
}
