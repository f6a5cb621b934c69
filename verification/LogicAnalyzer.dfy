/** The acquisition of the logic analyzer (logic_analyzer.c) on top of the capture
    driver: four equal buffers form a ring at the start of the sample memory, and the
    finish handler looks for the trigger in each completed buffer. */
module LogicAnalyzer {
  import opened Channels
  import opened IoCapture
  import opened Remainders

  const BUFFER_SIZE: nat := 65536

  datatype LaState = Idle | Running | Acquired

  /** The analyzer's variables with the driver's, and the number of samples that
      the DMA has taken from the input. */
  datatype La = La(ioc: Ioc<bv8>, state: LaState, trigOffset: nat, mask: bv8, val: bv8, taken: nat)

  /** The size of each of the four buffers; the product is a 32-bit one. */
  function BufSize(readCnt: nat): (size: nat)
    ensures size <= 16384
  {
    var wanted := (readCnt * 4) % 0x1_0000_0000;
    if wanted < 16384 then wanted else 16384
  }

  /** Where buffer i of the ring starts. */
  function Addr(i: nat, bs: nat): nat
    requires i < 4
  {
    if i == 0 then 0 else if i == 1 then bs else if i == 2 then 2 * bs else 3 * bs
  }

  /** la_start_acq from Idle */
  function StartAcq(mem: seq<bv8>, mask: bv8, val: bv8, readCnt: nat): La {
    var bs := BufSize(readCnt);
    var bufs := [
      IocBuffer(Addr(0, bs), bs, false), IocBuffer(Addr(1, bs), bs, false),
      IocBuffer(Addr(2, bs), bs, false), IocBuffer(Addr(3, bs), bs, mask == 0)];
    La(IoCapture.Start(mem, bufs), Running, UINT_MAX, mask, val, 0)
  }

  /** The handler holds the size of a buffer in 16 bits. */
  function LowHalf(size: nat): (r: nat)
    ensures r <= size && (size < 0x1_0000 ==> r == size)
  {
    size % 0x1_0000
  }

  /** la_acq_finished for a completed buffer: the descriptor it leaves behind, the
      trigger offset, the state, and its answer. */
  function AcqFinished(la: La, buf: IocBuffer): (r: (IocBuffer, nat, LaState, bool))
    requires buf.addr + buf.size <= |la.ioc.mem|
  {
    if la.trigOffset == UINT_MAX then
      var found := FindTrigger(la.ioc.mem[buf.addr..buf.addr + LowHalf(buf.size)], la.mask, la.val);
      if found != UINT_MAX && la.mask != 0 then (buf.(size := found, last := true), found + buf.addr, la.state, false)
      else (buf, found, la.state, false)
    else if buf.last then (buf, la.trigOffset, Acquired, true)
    else (buf, la.trigOffset, la.state, false)
  }

  predicate InMemory(c: Ioc<bv8>) {
    && c.idx < |c.bufs| && c.current < |c.bufs|
    && c.bufs[c.current].addr + c.bufs[c.current].size <= |c.mem|
  }

  /** One interrupt: the driver's part and the finish handler's. */
  function Interrupt(la: La): La
    requires InMemory(la.ioc)
  {
    var (changed, trigOffset, state, finished) := AcqFinished(la, la.ioc.bufs[la.ioc.current]);
    La(Handle(la.ioc, changed, finished), state, trigOffset, la.mask, la.val, la.taken)
  }

  /** One DMA transfer of the next sample of the input. */
  function Capture(la: La, input: nat -> bv8): La
    requires CanSample(la.ioc)
  {
    la.(ioc := Sample(la.ioc, input(la.taken)), taken := la.taken + 1)
  }

  // ----- What every run keeps -----

  /** The trigger is at sample t of the input: the first that meets the condition,
      or the very first one when no trigger is configured. */
  ghost predicate TriggerAt(input: nat -> bv8, mask: bv8, val: bv8, t: nat) {
    if mask == 0 then t == 0 else Hit(input(t), mask, val) && NoHitBefore(input, mask, val, t)
  }

  ghost predicate NoHitBefore(input: nat -> bv8, mask: bv8, val: bv8, t: nat) {
    forall g: nat :: g < t ==> !Hit(input(g), mask, val)
  }

  /** Four buffers in a row, of the given sizes and marks. */
  predicate Layout(c: Ioc<bv8>, bs: nat) {
    && |c.bufs| == 4 && |c.mem| == BUFFER_SIZE && 0 < bs <= 16384
    && c.idx < 4 && c.current < 4 && c.busy
    && c.bufs[0].addr == 0 && c.bufs[1].addr == bs && c.bufs[2].addr == 2 * bs && c.bufs[3].addr == 3 * bs
  }

  /** Each lap of the ring starts at a whole number of rings of samples. */
  predicate StartsLap(lap: int, bs: nat) {
    0 < bs && lap % (4 * bs) == 0
  }

  /** Where in the ring a sample of the input is stored. */
  function Place(sample: nat, bs: nat): (offset: nat)
    requires 0 < bs
    ensures offset < 4 * bs
  {
    sample % (4 * bs)
  }

  lemma FirstLap(bs: nat)
    requires 0 < bs
    ensures StartsLap(0, bs)
  {
    RemainderIs(0, 4 * bs, 0, 0);
  }

  lemma NextLap(lap: int, bs: nat)
    requires StartsLap(lap, bs)
    ensures StartsLap(lap + 4 * bs, bs)
  {
    RemainderIs(lap + 4 * bs, 4 * bs, lap / (4 * bs) + 1, 0);
  }

  lemma PlaceInLap(lap: int, bs: nat, sample: nat, offset: nat)
    requires StartsLap(lap, bs) && offset < 4 * bs
    requires sample == lap + offset || sample == lap + offset - 4 * bs
    ensures Place(sample, bs) == offset
  {
    var q := lap / (4 * bs);
    if sample == lap + offset {
      RemainderIs(sample, 4 * bs, q, offset);
    } else {
      assert 4 * bs * (q - 1) == 4 * bs * q - 4 * bs;
      RemainderIs(sample, 4 * bs, q - 1, offset);
    }
  }

  /** The ring holds the newest samples: those of this lap, which started at sample
      `lap`, up to the write position, and behind it those of the lap before. */
  ghost predicate RingData(mem: seq<bv8>, pos: nat, bs: nat, lap: int, input: nat -> bv8)
    requires |mem| == BUFFER_SIZE && bs <= 16384
  {
    && pos <= 4 * bs && StartsLap(lap, bs)
    && (lap == 0 || lap >= 4 * bs)
    && (forall a :: 0 <= a < pos ==> mem[a] == input(lap + a))
    && (lap != 0 ==> forall a :: pos <= a < 4 * bs ==> mem[a] == input(lap - 4 * bs + a))
  }

  /** The DMA fills buffer i, which it will leave full. */
  predicate Fills(c: Ioc<bv8>, bs: nat, i: nat)
    requires i < 4
  {
    Addr(i, bs) <= c.rpr < Addr(i, bs) + bs && c.rcr == Addr(i, bs) + bs - c.rpr
  }

  /** The buffer that follows the current one is in the queue. */
  predicate QueuesNext(c: Ioc<bv8>, bs: nat)
    requires Layout(c, bs)
  {
    c.idx == Next(c.current, 4) && c.rnpr == Addr(c.idx, bs) && c.rncr == c.bufs[c.idx].size
  }

  /** The trigger has not been found in the buffers scanned so far. */
  ghost predicate Searching(la: La, bs: nat, input: nat -> bv8) {
    var c := la.ioc;
    var lap := la.taken - c.rpr;
    && la.mask != 0 && la.trigOffset == UINT_MAX && la.state == Running
    && Layout(c, bs) && 0 <= lap && RingData(c.mem, c.rpr, bs, lap, input)
    && (forall i :: 0 <= i < 4 ==> c.bufs[i].size == bs && !c.bufs[i].last)
    && if !c.pending then
         !c.endrx && Fills(c, bs, c.current) && QueuesNext(c, bs)
           && NoHitBefore(input, la.mask, la.val, lap + Addr(c.current, bs))
       else
         && c.endrx && c.idx == Next(c.current, 4) && c.rncr == 0 && Fills(c, bs, c.idx)
         && bs <= lap + Addr(c.idx, bs)
         && NoHitBefore(input, la.mask, la.val, lap + Addr(c.idx, bs) - bs)
  }

  lemma NextAddr(i: nat, bs: nat)
    requires i < 4
    ensures Next(i, 4) < 4
    ensures Next(i, 4) != 0 ==> Addr(Next(i, 4), bs) == Addr(i, bs) + bs
    ensures Next(i, 4) == 0 ==> Addr(i, bs) + bs == 4 * bs
    ensures Addr(i, bs) + bs <= 4 * bs
  {
  }

  lemma StartSearches(mem: seq<bv8>, mask: bv8, val: bv8, readCnt: nat, input: nat -> bv8)
    requires |mem| == BUFFER_SIZE && mask != 0 && 0 < BufSize(readCnt)
    ensures Searching(StartAcq(mem, mask, val, readCnt), BufSize(readCnt), input)
  {
    FirstLap(BufSize(readCnt));
    hide Hit, StartsLap;
  }

  /** Storing the next sample extends the data; finishing the last buffer of the
      ring begins a new lap. */
  lemma StoreKeepsRing(mem: seq<bv8>, pos: nat, bs: nat, lap: int, input: nat -> bv8)
    requires |mem| == BUFFER_SIZE && bs <= 16384 && 0 <= lap && RingData(mem, pos, bs, lap, input) && pos < 4 * bs
    ensures
      var stored := mem[pos := input(lap + pos)];
      && RingData(stored, pos + 1, bs, lap, input)
      && (pos + 1 == 4 * bs ==> RingData(stored, 0, bs, lap + 4 * bs, input))
  {
    NextLap(lap, bs);
    hide StartsLap;
  }

  lemma CaptureWhileSearching(la: La, bs: nat, input: nat -> bv8)
    requires Searching(la, bs, input) && CanSample(la.ioc)
    ensures Searching(Capture(la, input), bs, input)
  {
    hide Hit, NoHitBefore, RingData;
    var c := la.ioc;
    StoreKeepsRing(c.mem, c.rpr, bs, la.taken - c.rpr, input);
    NextAddr(c.current, bs);
    NextAddr(c.idx, bs);
  }

  /** Where the ring will stop: in buffer b after t bytes, in the lap that starts at
      sample `lapEnd`, which is one whole ring of samples after the trigger. */
  datatype Stop = Stop(b: nat, t: nat, lapEnd: int, trigger: nat)

  /** The start of the lap in which buffer i is filled. */
  function LapOf(stop: Stop, bs: nat, i: nat): int {
    if i <= stop.b then stop.lapEnd else stop.lapEnd - 4 * bs
  }

  predicate StopFits(la: La, bs: nat, stop: Stop) {
    && stop.b < 4 && stop.t <= bs
    && stop.lapEnd + Addr(stop.b, bs) + stop.t == stop.trigger + 4 * bs
    && (if la.mask != 0 then stop.t < bs && la.trigOffset == Addr(stop.b, bs) + stop.t
        else stop.b == 3 && stop.t == bs && la.trigOffset == if la.ioc.current == 0 then UINT_MAX else 0)
  }

  /** The buffer to stop in is marked, and the DMA is on its way to it. When it fills that
      buffer, the interrupt flag is up all the time, and the handler may already have
      left the state Acquired behind. */
  ghost predicate Stopping(la: La, bs: nat, input: nat -> bv8, stop: Stop) {
    var c, lap := la.ioc, la.taken - la.ioc.rpr;
    && (la.state == Running || (la.state == Acquired && c.current == stop.b))
    && Layout(c, bs) && 0 <= lap && RingData(c.mem, c.rpr, bs, lap, input)
    && StopFits(la, bs, stop) && TriggerAt(input, la.mask, la.val, stop.trigger)
    && Marked(c, bs, stop)
    && StoppingShape(c, bs, lap, stop)
  }

  /** The DMA is behind an address and stops `size` bytes after it. */
  predicate FillsTo(c: Ioc<bv8>, addr: nat, size: nat) {
    addr <= c.rpr && c.rpr + c.rcr == addr + size
  }

  predicate StoppingShape(c: Ioc<bv8>, bs: nat, lap: int, stop: Stop)
    requires Layout(c, bs) && stop.b < 4
  {
    if c.current == stop.b then
      // the last buffer is being filled, or complete
      && c.endrx && c.idx == stop.b && c.rncr == 0
      && (if c.rcr == 0 then StoppedAt(c.rpr, bs, lap, stop)
          else !c.pending && lap == stop.lapEnd && FillsTo(c, Addr(stop.b, bs), stop.t))
    else if !c.pending then
      !c.endrx && Fills(c, bs, c.current) && QueuesNext(c, bs) && lap == LapOf(stop, bs, c.current)
    else
      && c.endrx && c.idx == Next(c.current, 4) && c.rncr == 0
      && (if c.rcr == 0 then c.idx == stop.b && stop.t == 0 && StoppedAt(c.rpr, bs, lap, stop)
          else FillsTo(c, Addr(c.idx, bs), c.bufs[c.idx].size) && lap == LapOf(stop, bs, c.idx))
  }

  /** The write position after the last sample. A stop at the very start of the ring
      leaves it at the end of the buffer before. */
  predicate StoppedAt(pos: nat, bs: nat, lap: int, stop: Stop)
    requires stop.b < 4
  {
    || (pos == Addr(stop.b, bs) + stop.t && lap == stop.lapEnd)
    || (stop.b == 0 && stop.t == 0 && pos == 4 * bs && lap == stop.lapEnd - 4 * bs)
  }

  function RingCell(mem: seq<bv8>, bs: nat, offset: nat, i: nat): bv8
    requires offset < 4 * bs <= |mem| && i < 4 * bs
  {
    if offset + i < 4 * bs then mem[offset + i] else mem[offset + i - 4 * bs]
  }

  /** Read circularly from `offset`, the ring is the input from `trigger` on. */
  ghost predicate RingIsInput(mem: seq<bv8>, bs: nat, offset: nat, input: nat -> bv8, trigger: nat) {
    && offset < 4 * bs <= |mem|
    && forall i :: 0 <= i < 4 * bs ==> RingCell(mem, bs, offset, i) == input(trigger + i)
  }

  /** The acquisition has ended: the trigger offset is where the trigger sample is stored,
      and the ring holds the input from the trigger on. */
  ghost predicate Captured(la: La, bs: nat, input: nat -> bv8, trigger: nat) {
    && la.state == Acquired && !la.ioc.busy && |la.ioc.mem| == BUFFER_SIZE
    && TriggerAt(input, la.mask, la.val, trigger)
    && la.taken == trigger + 4 * bs
    && 0 < bs && la.trigOffset == Place(trigger, bs)
    && RingIsInput(la.ioc.mem, bs, la.trigOffset, input, trigger)
  }

  lemma StartStops(mem: seq<bv8>, val: bv8, readCnt: nat, input: nat -> bv8)
    requires |mem| == BUFFER_SIZE && 0 < BufSize(readCnt)
    ensures var bs := BufSize(readCnt); Stopping(StartAcq(mem, 0, val, readCnt), bs, input, Stop(3, bs, 0, 0))
  {
    FirstLap(BufSize(readCnt));
    hide StartsLap;
  }

  /** The marks of the four descriptors. */
  predicate Marked(c: Ioc<bv8>, bs: nat, stop: Stop)
    requires Layout(c, bs)
  {
    forall i :: 0 <= i < 4 ==> c.bufs[i].last == (i == stop.b) && c.bufs[i].size == if i == stop.b then stop.t else bs
  }

  /** A sample inside a buffer. */
  lemma ShapeInside(c: Ioc<bv8>, next: Ioc<bv8>, bs: nat, lap: int, stop: Stop)
    requires Layout(c, bs) && stop.b < 4 && stop.t <= bs && Marked(c, bs, stop)
    requires StoppingShape(c, bs, lap, stop) && c.rcr > 1
    requires next == c.(mem := next.mem, rpr := c.rpr + 1, rcr := c.rcr - 1) && |next.mem| == BUFFER_SIZE
    ensures StoppingShape(next, bs, lap, stop) && c.rpr + 1 < 4 * bs
  {
    hide StoppedAt, LapOf;
    NextAddr(c.current, bs);
    NextAddr(c.idx, bs);
  }

  /** The sample that completes the last buffer. */
  lemma ShapeAtStop(c: Ioc<bv8>, next: Ioc<bv8>, bs: nat, lap: int, stop: Stop)
    requires Layout(c, bs) && stop.b < 4 && StoppingShape(c, bs, lap, stop) && c.rcr == 1 && c.current == stop.b
    requires next == c.(mem := next.mem, rpr := c.rpr + 1, rcr := 0, endrx := true, pending := true)
      && |next.mem| == BUFFER_SIZE
    ensures StoppingShape(next, bs, lap, stop)
  {
  }

  /** The sample that completes any other buffer. */
  lemma ShapeAtNext(c: Ioc<bv8>, next: Ioc<bv8>, bs: nat, lap: int, stop: Stop)
    requires Layout(c, bs) && stop.b < 4 && stop.t <= bs && Marked(c, bs, stop)
    requires StoppingShape(c, bs, lap, stop) && c.rcr == 1 && !c.pending && c.current != stop.b
    requires |next.mem| == BUFFER_SIZE
    requires next ==
      if c.rncr != 0 then c.(mem := next.mem, endrx := true, pending := true, rpr := c.rnpr, rcr := c.rncr, rncr := 0)
      else c.(mem := next.mem, endrx := true, pending := true, rpr := c.rpr + 1, rcr := 0)
    ensures c.rncr != 0 ==> next.rpr == if c.rpr + 1 == 4 * bs then 0 else c.rpr + 1
    ensures c.rpr + 1 <= 4 * bs
    ensures StoppingShape(next, bs, if c.rncr != 0 && c.rpr + 1 == 4 * bs then lap + 4 * bs else lap, stop)
  {
    NextAddr(c.current, bs);
    if c.rncr != 0 {
      NextAddr(c.idx, bs);
    }
  }

  lemma CaptureWhileStopping(la: La, bs: nat, input: nat -> bv8, stop: Stop)
    requires Stopping(la, bs, input, stop) && CanSample(la.ioc)
    ensures Stopping(Capture(la, input), bs, input, stop)
  {
    hide Hit, TriggerAt, RingData, StoppingShape;
    var c, next, lap := la.ioc, Capture(la, input).ioc, la.taken - la.ioc.rpr;
    if c.rcr > 1 {
      ShapeInside(c, next, bs, lap, stop);
    } else if c.current == stop.b {
      StopBound(c, bs, lap, stop);
      ShapeAtStop(c, next, bs, lap, stop);
    } else {
      ShapeAtNext(c, next, bs, lap, stop);
    }
    StoreKeepsRing(c.mem, c.rpr, bs, lap, input);
  }

  lemma StopBound(c: Ioc<bv8>, bs: nat, lap: int, stop: Stop)
    requires Layout(c, bs) && stop.b < 4 && stop.t <= bs && StoppingShape(c, bs, lap, stop) && 0 < c.rcr
      && c.current == stop.b
    ensures c.rpr < 4 * bs && !c.pending && c.rncr == 0
  {
    NextAddr(c.current, bs);
  }

  // ----- Interrupts -----

  /** The interrupt of a buffer before the one to stop in. */
  lemma ShapeAfterServing(c: Ioc<bv8>, bs: nat, lap: int, stop: Stop)
    requires Layout(c, bs) && stop.b < 4 && stop.t <= bs && Marked(c, bs, stop)
    requires StoppingShape(c, bs, lap, stop) && IrqRaised(c) && c.current != stop.b
    ensures
      var next := Handle(c, c.bufs[c.current], false);
      && next == c.(
           pending := false, endrx := next.endrx, current := c.idx, idx := next.idx, rnpr := next.rnpr,
             rncr := next.rncr)
      && next.current == Next(c.current, 4)
      && Layout(next, bs) && StoppingShape(next, bs, lap, stop)
  {
    NextAddr(c.current, bs);
    NextAddr(c.idx, bs);
    assert c.bufs[c.current := c.bufs[c.current]] == c.bufs;
  }

  lemma InterruptBeforeStop(la: La, bs: nat, input: nat -> bv8, stop: Stop)
    requires Stopping(la, bs, input, stop) && IrqRaised(la.ioc) && la.ioc.current != stop.b
    ensures InMemory(la.ioc)
    ensures Stopping(Interrupt(la), bs, input, stop)
  {
    hide Hit, TriggerAt, RingData, StoppingShape, Handle, IrqRaised, FindTrigger;
    var c, lap := la.ioc, la.taken - la.ioc.rpr;
    ShapeAfterServing(c, bs, lap, stop);
    NextAddr(c.current, bs);
    assert !c.bufs[c.current].last && c.bufs[c.current].size == bs;
    HandlerWaits(la, bs, stop);
  }

  /** The handler leaves the buffers before the stop alone. */
  lemma HandlerWaits(la: La, bs: nat, stop: Stop)
    requires Layout(la.ioc, bs) && StopFits(la, bs, stop) && !la.ioc.bufs[la.ioc.current].last
    requires la.ioc.bufs[la.ioc.current].size == bs && la.ioc.current != stop.b
    ensures InMemory(la.ioc)
    ensures AcqFinished(la, la.ioc.bufs[la.ioc.current])
      == (la.ioc.bufs[la.ioc.current], if la.mask == 0 then 0 else la.trigOffset, la.state, false)
  {
    BufferAddr(la.ioc, bs, la.ioc.current);
    NextAddr(stop.b, bs);
    NextAddr(la.ioc.current, bs);
  }

  lemma ShapeAtEnd(c: Ioc<bv8>, bs: nat, lap: int, stop: Stop)
    requires Layout(c, bs) && stop.b < 4 && StoppingShape(c, bs, lap, stop)
    requires RxBuff(c) && c.current == stop.b
    ensures c.idx == stop.b && StoppedAt(c.rpr, bs, lap, stop)
  {
  }

  /** The ring is read out from the write position on, where the trigger is. */
  lemma DataIsInput(mem: seq<bv8>, pos: nat, bs: nat, lap: int, input: nat -> bv8, offset: nat, trigger: nat)
    requires |mem| == BUFFER_SIZE && bs <= 16384 && 0 <= lap && RingData(mem, pos, bs, lap, input)
    requires offset < 4 * bs && (pos == offset || (pos == 4 * bs && offset == 0))
    requires lap + pos == trigger + 4 * bs
    ensures RingIsInput(mem, bs, offset, input, trigger)
    ensures 0 < bs && offset == Place(trigger, bs)
  {
    PlaceInLap(lap, bs, trigger, offset);
    hide Place, StartsLap;
    assert pos == offset ==> lap != 0;
    forall i | 0 <= i < 4 * bs ensures RingCell(mem, bs, offset, i) == input(trigger + i) {
      if pos == 4 * bs {
        assert mem[i] == input(lap + i);
      } else if offset + i < 4 * bs {
        assert mem[offset + i] == input(lap - 4 * bs + (offset + i));
      } else {
        assert mem[offset + i - 4 * bs] == input(lap + (offset + i - 4 * bs));
      }
    }
  }

  /** An interrupt for the buffer to stop in, when it is full, ends the acquisition. */
  lemma InterruptAtStop(la: La, bs: nat, input: nat -> bv8, stop: Stop)
    requires Stopping(la, bs, input, stop) && IrqRaised(la.ioc) && la.ioc.current == stop.b && RxBuff(la.ioc)
    ensures InMemory(la.ioc)
    ensures Captured(Interrupt(la), bs, input, stop.trigger)
  {
    hide Hit, TriggerAt, RingData, StoppingShape, RingIsInput, Place;
    var c, lap := la.ioc, la.taken - la.ioc.rpr;
    ShapeAtEnd(c, bs, lap, stop);
    NextAddr(stop.b, bs);
    assert c.bufs[stop.b].last && la.trigOffset != UINT_MAX;
    assert AcqFinished(la, c.bufs[stop.b]) == (c.bufs[stop.b], la.trigOffset, Acquired, true);
    DataIsInput(c.mem, c.rpr, bs, lap, input, la.trigOffset, stop.trigger);
  }

  /** An interrupt for the buffer to stop in, before it is full, announces the end of the
      acquisition too early and changes nothing else. */
  lemma InterruptTooEarly(la: La, bs: nat, input: nat -> bv8, stop: Stop)
    requires Stopping(la, bs, input, stop) && la.ioc.current == stop.b && !RxBuff(la.ioc)
    ensures InMemory(la.ioc) && IrqRaised(la.ioc)
    ensures Interrupt(la) == la.(state := Acquired)
    ensures Stopping(Interrupt(la), bs, input, stop)
  {
    hide Hit, TriggerAt, RingData;
    var c := la.ioc;
    NextAddr(stop.b, bs);
    assert c.bufs[stop.b].last && la.trigOffset != UINT_MAX;
    assert c.bufs[stop.b := c.bufs[stop.b]] == c.bufs;
    assert Handle(c, c.bufs[stop.b], true) == c;
  }

  /** The input sample at the start of the completed buffer. */
  function ScanStart(la: La, bs: nat): int
    requires la.ioc.idx < 4
  {
    la.taken - la.ioc.rpr + Addr(la.ioc.idx, bs) - bs
  }

  /** The completed buffer that the handler scans. */
  function Scanned(la: La): seq<bv8>
    requires InMemory(la.ioc)
  {
    var buf := la.ioc.bufs[la.ioc.current];
    la.ioc.mem[buf.addr..buf.addr + LowHalf(buf.size)]
  }

  ghost predicate InputFrom(samples: seq<bv8>, input: nat -> bv8, start: nat) {
    forall k :: 0 <= k < |samples| ==> samples[k] == input(start + k)
  }

  /** A completed buffer of the ring, behind or (across the ring's end) ahead of the
      write position. */
  lemma SliceIsInput(mem: seq<bv8>, pos: nat, bs: nat, lap: int, input: nat -> bv8, addr: nat, start: nat)
    requires |mem| == BUFFER_SIZE && bs <= 16384 && 0 <= lap && RingData(mem, pos, bs, lap, input)
    requires addr + bs <= 4 * bs
    requires (addr + bs <= pos && start == lap + addr) || (pos <= addr && 0 < lap && start == lap - 4 * bs + addr)
    ensures InputFrom(mem[addr..addr + bs], input, start)
  {
    var samples := mem[addr..addr + bs];
    forall k | 0 <= k < |samples| ensures samples[k] == input(start + k) {
      if pos <= addr {
        assert mem[addr + k] == input(lap - 4 * bs + (addr + k));
      } else {
        assert mem[addr + k] == input(lap + (addr + k));
      }
    }
  }

  /** The handler scans the samples in the order in which they came in. */
  lemma ScannedIsInput(la: La, bs: nat, input: nat -> bv8)
    requires Searching(la, bs, input) && IrqRaised(la.ioc)
    ensures la.ioc.pending && InMemory(la.ioc) && 0 <= ScanStart(la, bs)
    ensures |Scanned(la)| == bs && InputFrom(Scanned(la), input, ScanStart(la, bs))
    ensures NoHitBefore(input, la.mask, la.val, ScanStart(la, bs))
  {
    hide Hit, NoHitBefore, RingData, InputFrom;
    var c := la.ioc;
    NextAddr(c.current, bs);
    BufferAddr(c, bs, c.current);
    SliceIsInput(c.mem, c.rpr, bs, la.taken - c.rpr, input, Addr(c.current, bs), ScanStart(la, bs));
  }

  /** Without a hit in the scanned buffer the next one is queued. */
  lemma ServeWithoutHit(c: Ioc<bv8>, bs: nat)
    requires Layout(c, bs) && c.idx == Next(c.current, 4)
    requires forall i :: 0 <= i < 4 ==> c.bufs[i].size == bs && !c.bufs[i].last
    ensures
      var next := Handle(c, c.bufs[c.current], false);
      && next == c.(
           endrx := false, pending := false, current := c.idx, idx := next.idx, rnpr := next.rnpr, rncr := bs)
      && Layout(next, bs) && QueuesNext(next, bs)
  {
    NextAddr(c.idx, bs);
    assert c.bufs[c.current := c.bufs[c.current]] == c.bufs;
  }

  lemma NoHitExtends(input: nat -> bv8, mask: bv8, val: bv8, start: nat, scanned: seq<bv8>, n: nat)
    requires NoHitBefore(input, mask, val, start) && n <= |scanned|
    requires InputFrom(scanned, input, start)
    requires forall k :: 0 <= k < n ==> !Hit(scanned[k], mask, val)
    ensures NoHitBefore(input, mask, val, start + n)
  {
    hide Hit;
    forall g: nat | g < start + n ensures !Hit(input(g), mask, val) {
      if start <= g {
        assert scanned[g - start] == input(g);
      }
    }
  }

  lemma InterruptWithoutHit(la: La, bs: nat, input: nat -> bv8)
    requires Searching(la, bs, input) && IrqRaised(la.ioc) && InMemory(la.ioc)
    requires FindTrigger(Scanned(la), la.mask, la.val) == UINT_MAX
    ensures Searching(Interrupt(la), bs, input)
  {
    hide Hit, NoHitBefore, RingData, FindTrigger, InputFrom, Handle, Addr, Next;
    var c, start := la.ioc, ScanStart(la, bs);
    ScannedIsInput(la, bs, input);
    FindTriggerIsFirstHit(Scanned(la), la.mask, la.val);
    NoHitExtends(input, la.mask, la.val, start, Scanned(la), bs);
    ServeWithoutHit(c, bs);
    var next := Interrupt(la);
    assert next == la.(ioc := Handle(c, c.bufs[c.current], false));
  }

  lemma ServeWithHit(c: Ioc<bv8>, bs: nat, t: nat)
    requires Layout(c, bs) && c.idx == Next(c.current, 4) && t < bs
    requires forall i :: 0 <= i < 4 ==> c.bufs[i].size == bs && !c.bufs[i].last
    ensures
      var next := Handle(c, c.bufs[c.current].(size := t, last := true), false);
      && next == c.(
           endrx := false, pending := false, current := c.idx, idx := next.idx, rnpr := next.rnpr, rncr := bs,
             bufs := next.bufs)
      && Layout(next, bs) && QueuesNext(next, bs) && next.current != c.current
      && Marked(next, bs, Stop(c.current, t, 0, 0))
  {
    NextAddr(c.idx, bs);
    NextAddr(c.current, bs);
  }

  /** Where the ring will stop after a hit at position t of the scanned buffer. */
  function StopAfterHit(la: La, bs: nat, t: nat): Stop
    requires la.ioc.idx < 4 && la.ioc.current < 4 && 0 <= ScanStart(la, bs)
  {
    Stop(la.ioc.current, t, ScanStart(la, bs) + 4 * bs - Addr(la.ioc.current, bs), ScanStart(la, bs) + t)
  }

  lemma ShapeAfterHit(la: La, next: Ioc<bv8>, bs: nat, t: nat)
    requires Layout(la.ioc, bs) && la.ioc.idx == Next(la.ioc.current, 4) && 0 <= ScanStart(la, bs)
    requires Fills(la.ioc, bs, la.ioc.idx)
    requires next == la.ioc.(
      endrx := false, pending := false, current := la.ioc.idx, idx := next.idx, rnpr := next.rnpr,
        rncr := next.rncr, bufs := next.bufs)
    requires Layout(next, bs) && QueuesNext(next, bs) && next.current != la.ioc.current
    ensures StoppingShape(next, bs, la.taken - la.ioc.rpr, StopAfterHit(la, bs, t))
  {
    NextAddr(la.ioc.current, bs);
  }

  /** The searching state when a buffer is complete. */
  lemma SearchingAtInterrupt(la: La, bs: nat, input: nat -> bv8)
    requires Searching(la, bs, input) && IrqRaised(la.ioc)
    ensures
      var c := la.ioc;
      && la.mask != 0 && la.trigOffset == UINT_MAX && la.state == Running
      && Layout(c, bs) && c.pending && c.idx == Next(c.current, 4) && Fills(c, bs, c.idx)
      && 0 <= la.taken - c.rpr && RingData(c.mem, c.rpr, bs, la.taken - c.rpr, input)
      && forall i :: 0 <= i < 4 ==> c.bufs[i].size == bs && !c.bufs[i].last
  {
    hide Hit, NoHitBefore, RingData;
  }

  lemma StopAfterHitFits(la: La, next: La, bs: nat, t: nat)
    requires Layout(la.ioc, bs) && 0 <= ScanStart(la, bs) && t < bs && la.mask != 0
    requires next == la.(trigOffset := t + Addr(la.ioc.current, bs), ioc := next.ioc)
    ensures StopFits(next, bs, StopAfterHit(la, bs, t))
  {
    hide ScanStart;
  }

  lemma InterruptWithHit(la: La, bs: nat, input: nat -> bv8, t: nat)
    requires Searching(la, bs, input) && IrqRaised(la.ioc) && InMemory(la.ioc) && 0 <= ScanStart(la, bs)
    requires FindTrigger(Scanned(la), la.mask, la.val) == t != UINT_MAX
    ensures Stopping(Interrupt(la), bs, input, StopAfterHit(la, bs, t))
  {
    hide Hit, NoHitBefore, RingData, FindTrigger, InputFrom, Handle, Addr, Next, StoppingShape, StopFits, Searching,
      IrqRaised, Fills;
    ScannedIsInput(la, bs, input);
    SearchingAtInterrupt(la, bs, input);
    var c, start := la.ioc, ScanStart(la, bs);
    FindTriggerIsFirstHit(Scanned(la), la.mask, la.val);
    NoHitExtends(input, la.mask, la.val, start, Scanned(la), t);
    HitIsInput(Scanned(la), input, start, t);
    ServeWithHit(c, bs, t);
    var next := Interrupt(la);
    BufferAddr(c, bs, c.current);
    assert next == la.(trigOffset := t + Addr(c.current, bs),
      ioc := Handle(c, c.bufs[c.current].(size := t, last := true), false));
    ShapeAfterHit(la, next.ioc, bs, t);
    StopAfterHitFits(la, next, bs, t);
    assert TriggerAt(input, la.mask, la.val, start + t);
  }

  lemma HitIsInput(samples: seq<bv8>, input: nat -> bv8, start: nat, t: nat)
    requires InputFrom(samples, input, start) && t < |samples|
    ensures samples[t] == input(start + t)
  {
  }

  lemma BufferAddr(c: Ioc<bv8>, bs: nat, i: nat)
    requires Layout(c, bs) && i < 4
    ensures c.bufs[i].addr == Addr(i, bs)
  {
  }
}
