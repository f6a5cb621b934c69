/** From the start command to the host: which sample counts and trigger positions make
    the host receive the input from the trigger on, over all runs and all memories. */
module LogicAnalyzerEndToEnd {
  import opened Channels
  import opened LogicAnalyzer
  import opened LogicAnalyzerReadout
  import opened LogicAnalyzerRuns
  import opened Options

  /** A run from the start command, with `mem` in the memory before, after which the main
      loop finds the samples acquired. It runs only while no interrupt is raised. */
  ghost predicate Acquires(mem: seq<bv8>, mask: bv8, val: bv8, readCnt: nat, input: nat -> bv8, steps: seq<Step>) {
    && |mem| == BUFFER_SIZE
    && Possible(StartAcq(mem, mask, val, readCnt), steps, input)
    && var end := After(StartAcq(mem, mask, val, readCnt), steps, input);
       end.state == Acquired && MainLoopRuns(end)
  }

  /** What is sent after a run. */
  ghost function SentAfter(mem: seq<bv8>, mask: bv8, val: bv8, readCnt: nat, input: nat -> bv8,
      steps: seq<Step>): Option<seq<bv8>>
    requires Acquires(mem, mask, val, readCnt, input, steps)
  {
    var end := After(StartAcq(mem, mask, val, readCnt), steps, input);
    if |end.ioc.mem| == BUFFER_SIZE && end.trigOffset < BUFFER_SIZE
    then Readout(end.ioc.mem, end.trigOffset, readCnt) else None
  }

  /** Whatever the memory held before and however the run went, the host receives the
      input from the trigger on, in the user's channel order, newest sample first. */
  ghost predicate AlwaysDelivers(mask: bv8, val: bv8, readCnt: nat, input: nat -> bv8, trigger: nat) {
    forall mem: seq<bv8>, steps: seq<Step> | Acquires(mem, mask, val, readCnt, input, steps) ::
      Delivered(SentAfter(mem, mask, val, readCnt, input, steps), input, trigger, readCnt)
  }

  /** The trigger sample is followed on the ring by at least the samples asked for. */
  predicate StaysOnRing(readCnt: nat, trigger: nat)
    requires 0 < readCnt
  {
    readCnt >= 4096 || trigger % (16 * readCnt) <= 15 * readCnt
  }

  lemma OnRingByPlace(readCnt: nat, trigger: nat)
    requires 0 < readCnt <= BUFFER_SIZE
    ensures 0 < BufSize(readCnt)
    ensures Place(trigger, BufSize(readCnt)) < 4 * BufSize(readCnt) <= BUFFER_SIZE
    ensures StaysOnRing(readCnt, trigger) <==> WindowOnRing(readCnt, Place(trigger, BufSize(readCnt)))
  {
    RingSize(readCnt);
  }

  /** What a run leaves: the ring with the trigger at its place, and the rest of the
      memory as it was. */
  lemma AcquiredRun(mem: seq<bv8>, mask: bv8, val: bv8, readCnt: nat, input: nat -> bv8, trigger: nat, steps: seq<Step>)
    requires 0 < BufSize(readCnt) && TriggerAt(input, mask, val, trigger)
    requires Acquires(mem, mask, val, readCnt, input, steps)
    ensures
      var bs := BufSize(readCnt);
      var end := After(StartAcq(mem, mask, val, readCnt), steps, input);
      && |end.ioc.mem| == BUFFER_SIZE && end.trigOffset == Place(trigger, bs)
      && RingIsInput(end.ioc.mem, bs, end.trigOffset, input, trigger)
      && SameBehindRing(end.ioc.mem, mem, bs)
  {
    assert StartAcq(mem, mask, val, readCnt).ioc.mem == mem;
    hide StartAcq, Possible, After, TriggerAt, RingIsInput, Place, SameBehindRing, Inv, MainLoopRuns, CanStep,
      Changes, Do;
    AcquisitionIsRight(mem, mask, val, readCnt, input, trigger, steps);
    StartKeepsInv(mem, mask, val, readCnt, input);
    RunStaysInRing(StartAcq(mem, mask, val, readCnt), BufSize(readCnt), input, steps);
  }

  lemma DeliversOnRing(mem: seq<bv8>, mask: bv8, val: bv8, readCnt: nat, input: nat -> bv8, trigger: nat,
      steps: seq<Step>)
    requires 0 < readCnt <= BUFFER_SIZE && TriggerAt(input, mask, val, trigger) && StaysOnRing(readCnt, trigger)
    requires Acquires(mem, mask, val, readCnt, input, steps)
    ensures Delivered(SentAfter(mem, mask, val, readCnt, input, steps), input, trigger, readCnt)
  {
    hide StartAcq, Possible, After, TriggerAt, RingIsInput, Place, StaysOnRing, WindowOnRing, BufSize, Readout,
      Delivered;
    OnRingByPlace(readCnt, trigger);
    AcquiredRun(mem, mask, val, readCnt, input, trigger, steps);
    var end := After(StartAcq(mem, mask, val, readCnt), steps, input);
    ReadoutOnRing(end.ioc.mem, input, trigger, readCnt, end.trigOffset);
  }

  /** From every memory there is a run that acquires. */
  lemma SomeRunAcquires(mem: seq<bv8>, mask: bv8, val: bv8, readCnt: nat, input: nat -> bv8, trigger: nat)
    returns (steps: seq<Step>)
    requires |mem| == BUFFER_SIZE && 0 < BufSize(readCnt) && TriggerAt(input, mask, val, trigger)
    ensures Acquires(mem, mask, val, readCnt, input, steps)
  {
    var start := StartAcq(mem, mask, val, readCnt);
    assert start.mask == mask && start.val == val;
    hide StartAcq, TriggerAt, Inv, Possible, After, CanStep, Do, Changes, Captured, MainLoopRuns;
    StartKeepsInv(mem, mask, val, readCnt, input);
    steps := GoingOnAcquires(start, BufSize(readCnt), input, trigger);
    AcquisitionIsRight(mem, mask, val, readCnt, input, trigger, steps);
    EndedLetsMainLoopRun(After(start, steps, input));
  }

  /** The memory that gives a window past the ring away: no cell of it is the sample that
      should follow the ring's last one. */
  function StaleMemory(readCnt: nat, input: nat -> bv8, trigger: nat): (mem: seq<bv8>)
    requires 0 < BufSize(readCnt)
    ensures |mem| == BUFFER_SIZE
  {
    var next: nat := trigger + 4 * BufSize(readCnt) - Place(trigger, BufSize(readCnt));
    seq(BUFFER_SIZE, _ => !input(next))
  }

  lemma NotIsDifferent(x: bv8)
    ensures !x != x
  {
  }

  /** Every run that starts from that memory and acquires sends a wrong byte. */
  lemma StaleRunFails(mask: bv8, val: bv8, readCnt: nat, input: nat -> bv8, trigger: nat, steps: seq<Step>)
    requires 0 < readCnt <= BUFFER_SIZE && TriggerAt(input, mask, val, trigger) && !StaysOnRing(readCnt, trigger)
    requires 0 < BufSize(readCnt)
    requires Acquires(StaleMemory(readCnt, input, trigger), mask, val, readCnt, input, steps)
    ensures
      var mem := StaleMemory(readCnt, input, trigger);
      !Delivered(SentAfter(mem, mask, val, readCnt, input, steps), input, trigger, readCnt)
  {
    var mem, bs := StaleMemory(readCnt, input, trigger), BufSize(readCnt);
    hide StartAcq, Possible, After, TriggerAt, RingIsInput, Place, StaysOnRing, WindowOnRing, BufSize, Readout,
      Delivered;
    OnRingByPlace(readCnt, trigger);
    AcquiredRun(mem, mask, val, readCnt, input, trigger, steps);
    var end := After(StartAcq(mem, mask, val, readCnt), steps, input);
    if 4 * bs < BUFFER_SIZE {
      NotIsDifferent(input(trigger + (4 * bs - end.trigOffset)));
      assert end.ioc.mem[4 * bs] == mem[4 * bs];
    }
    StaleCellIsSent(end.ioc.mem, input, trigger, readCnt, end.trigOffset);
  }

  /** The end-to-end theorem. For every sample count up to the size of the memory, every
      trigger configuration and every input with a trigger sample: the host receives the
      right bytes from every memory and over every run if and only if 4096 samples or
      more are asked for, or the trigger sample is not among the last ones of its turn
      of the ring. */
  lemma EndToEnd(mask: bv8, val: bv8, readCnt: nat, input: nat -> bv8, trigger: nat)
    requires 0 < readCnt <= BUFFER_SIZE && TriggerAt(input, mask, val, trigger)
    ensures AlwaysDelivers(mask, val, readCnt, input, trigger) <==> StaysOnRing(readCnt, trigger)
  {
    hide Acquires, SentAfter, TriggerAt, StaysOnRing, Delivered, StaleMemory, BufSize;
    OnRingByPlace(readCnt, trigger);
    if StaysOnRing(readCnt, trigger) {
      forall mem: seq<bv8>, steps: seq<Step> | Acquires(mem, mask, val, readCnt, input, steps)
        ensures Delivered(SentAfter(mem, mask, val, readCnt, input, steps), input, trigger, readCnt)
      {
        DeliversOnRing(mem, mask, val, readCnt, input, trigger, steps);
      }
    } else {
      var mem := StaleMemory(readCnt, input, trigger);
      var steps := SomeRunAcquires(mem, mask, val, readCnt, input, trigger);
      StaleRunFails(mask, val, readCnt, input, trigger, steps);
    }
  }

  // ----- Sample counts beyond the memory -----

  /** The input with another sample one memory behind the trigger. */
  function OtherInput(input: nat -> bv8, trigger: nat): nat -> bv8 {
    (g: nat) => if g == trigger + BUFFER_SIZE then !input(g) else input(g)
  }

  lemma SameTrigger(input: nat -> bv8, mask: bv8, val: bv8, trigger: nat, n: nat)
    requires TriggerAt(input, mask, val, trigger) && n <= BUFFER_SIZE
    ensures TriggerAt(OtherInput(input, trigger), mask, val, trigger)
    ensures SameUpTo(input, OtherInput(input, trigger), trigger + n)
  {
    hide Hit;
    var other := OtherInput(input, trigger);
    assert forall g: nat :: g < trigger + BUFFER_SIZE ==> other(g) == input(g);
  }

  /** The same bytes cannot be both inputs. */
  lemma DeliveredOnce(sent: Option<seq<bv8>>, input: nat -> bv8, trigger: nat, readCnt: nat)
    requires BUFFER_SIZE < readCnt
    ensures !(Delivered(sent, input, trigger, readCnt) && Delivered(sent, OtherInput(input, trigger), trigger, readCnt))
  {
    hide InUserOrder;
    var other, g := OtherInput(input, trigger), trigger + BUFFER_SIZE;
    NotIsDifferent(input(g));
    var i := readCnt - 1 - BUFFER_SIZE;
    assert trigger + (readCnt - 1 - i) == g && other(g) != input(g);
    if sent.Some? && |sent.value| == readCnt {
      var data := sent.value[i];
      if InUserOrder(data, input(g)) && InUserOrder(data, other(g)) {
        UserOrderDetermines(data, input(g), other(g));
      }
    }
  }

  /** More samples than the memory holds: of two inputs with the same runs, at most one
      is what the host receives. */
  lemma TooManySamplesFail(mask: bv8, val: bv8, readCnt: nat, input: nat -> bv8, trigger: nat)
    requires BUFFER_SIZE < readCnt && 0 < BufSize(readCnt) && TriggerAt(input, mask, val, trigger)
    ensures TriggerAt(OtherInput(input, trigger), mask, val, trigger)
    ensures !AlwaysDelivers(mask, val, readCnt, input, trigger)
      || !AlwaysDelivers(mask, val, readCnt, OtherInput(input, trigger), trigger)
  {
    var other, bs := OtherInput(input, trigger), BufSize(readCnt);
    var mem := seq(BUFFER_SIZE, _ => 0 as bv8);
    var start := StartAcq(mem, mask, val, readCnt);
    assert start.mask == mask && start.val == val;
    hide StartAcq, TriggerAt, Inv, Possible, After, Delivered, OtherInput, Readout, BufSize, SameUpTo;
    SameTrigger(input, mask, val, trigger, 4 * bs);
    var steps := SomeRunAcquires(mem, mask, val, readCnt, input, trigger);
    StartKeepsInv(mem, mask, val, readCnt, input);
    RunSeesTaken(start, bs, input, other, trigger, steps);
    assert Acquires(mem, mask, val, readCnt, other, steps);
    var sent := SentAfter(mem, mask, val, readCnt, input, steps);
    assert sent == SentAfter(mem, mask, val, readCnt, other, steps);
    DeliveredOnce(sent, input, trigger, readCnt);
  }

  /** For every 32-bit sample count with which a run can acquire, and every place of the
      trigger that some input has: all inputs with the trigger there are delivered right
      if and only if the count is at most the size of the memory and the window stays on
      the ring. */
  lemma ReadoutExact(mask: bv8, val: bv8, readCnt: nat, input: nat -> bv8, trigger: nat)
    requires readCnt < 0x1_0000_0000 && 0 < BufSize(readCnt) && TriggerAt(input, mask, val, trigger)
    ensures 0 < readCnt
    ensures
      (forall other: nat -> bv8 | TriggerAt(other, mask, val, trigger) ::
        AlwaysDelivers(mask, val, readCnt, other, trigger))
      <==> readCnt <= BUFFER_SIZE && StaysOnRing(readCnt, trigger)
  {
    assert 0 < readCnt;
    hide TriggerAt, AlwaysDelivers, StaysOnRing, BufSize, OtherInput;
    if readCnt <= BUFFER_SIZE {
      forall other: nat -> bv8 | TriggerAt(other, mask, val, trigger)
        ensures AlwaysDelivers(mask, val, readCnt, other, trigger) <==> StaysOnRing(readCnt, trigger)
      {
        EndToEnd(mask, val, readCnt, other, trigger);
      }
    } else {
      TooManySamplesFail(mask, val, readCnt, input, trigger);
    }
  }

  /** One of the counts that fail: 2048 samples with the trigger at sample 32000, near
      the end of the ring of 32768 bytes. */
  lemma LateTriggerFails(mask: bv8, val: bv8, input: nat -> bv8)
    requires TriggerAt(input, mask, val, 32000)
    ensures !AlwaysDelivers(mask, val, 2048, input, 32000)
  {
    EndToEnd(mask, val, 2048, input, 32000);
  }
}
