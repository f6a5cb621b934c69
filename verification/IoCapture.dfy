/** The capture driver (io_capture.c) and the peripheral DMA controller (PDC) it
    programs. The DMA fills the current buffer; an interrupt queues the buffer after
    next and then calls a finish handler for the buffer just completed. */
module IoCapture {
  import opened Remainders

  /** ioc_buffer_t */
  datatype IocBuffer = IocBuffer(addr: nat, size: nat, last: bool)

  /** Driver variables, PDC registers and sample memory. `endrx` is the interrupt
      flag of a completed buffer, which stays until a counter is written; `busy` also
      stands for the enabled transfer. `pending` says that the handler has not run since
      the last completion. It is no variable of the code, but carries the timing
      assumption that the handler runs before the next buffer completes. */
  datatype Ioc<T> = Ioc(
    mem: seq<T>, bufs: seq<IocBuffer>,
    idx: nat, current: nat, busy: bool,
    rpr: nat, rcr: nat, rnpr: nat, rncr: nat, endrx: bool, pending: bool)

  /** No buffer is being filled or queued. */
  predicate RxBuff<T>(c: Ioc<T>) {
    c.rcr == 0 && c.rncr == 0
  }

  predicate IrqRaised<T>(c: Ioc<T>) {
    c.busy && (c.endrx || RxBuff(c))
  }

  function Next(i: nat, count: nat): nat {
    if i + 1 >= count then 0 else i + 1
  }

  /** ioc_set_next_buffer. Writing the counter clears the interrupt flag. */
  function SetNextBuffer<T>(c: Ioc<T>): Ioc<T>
    requires c.idx < |c.bufs|
  {
    var saved := c.(current := c.idx);
    if c.bufs[c.idx].last then saved
    else
      var next := Next(c.idx, |c.bufs|);
      saved.(idx := next, rnpr := c.bufs[next].addr, rncr := c.bufs[next].size, endrx := false)
  }

  /** ioc_start */
  function Start<T>(mem: seq<T>, bufs: seq<IocBuffer>): Ioc<T>
    requires bufs != []
  {
    SetNextBuffer(Ioc(mem, bufs, 0, 0, true, bufs[0].addr, bufs[0].size, 0, 0, false, false))
  }

  /** The DMA can take a sample. The handler runs before the next buffer completes, so
      the completing sample waits for it. */
  predicate CanSample<T>(c: Ioc<T>) {
    c.busy && 0 < c.rcr && (c.rcr == 1 ==> !c.pending) && c.rpr < |c.mem|
  }

  /** One sample. When the counter runs out the PDC goes on with the next buffer. */
  function Sample<T>(c: Ioc<T>, x: T): Ioc<T>
    requires CanSample(c)
  {
    var stored := c.(mem := c.mem[c.rpr := x], rpr := c.rpr + 1, rcr := c.rcr - 1);
    if stored.rcr != 0 then stored
    else if c.rncr != 0 then stored.(endrx := true, pending := true, rpr := c.rnpr, rcr := c.rncr, rncr := 0)
    else stored.(endrx := true, pending := true)
  }

  /** PIOA_Handler around a finish handler that leaves `changed` in the buffer
      descriptor it was called for, and returns `finished`. Behind a last buffer nothing
      is written, so the interrupt flag stays and the handler runs again. */
  function Handle<T>(c: Ioc<T>, changed: IocBuffer, finished: bool): Ioc<T>
    requires c.idx < |c.bufs| && c.current < |c.bufs|
  {
    var queued := SetNextBuffer(c.(pending := false));
    var handled := queued.(bufs := queued.bufs[c.current := changed]);
    if finished && RxBuff(handled) then handled.(busy := false) else handled
  }

  /** PIOA_Handler when a stop is requested: nothing is queued and no finish handler is
      called. No counter is written, so the flag stays and the handler runs again. */
  function HandleStop<T>(c: Ioc<T>): Ioc<T> {
    if RxBuff(c) then c.(busy := false) else c
  }

  // ----- All runs with any finish handler -----

  /** What a finish handler may do to the descriptor of the completed buffer: shrink
      it when it marks it last. It returns finished for the buffer it finds last. */
  predicate HandlerContract(before: IocBuffer, changed: IocBuffer, finished: bool) {
    && changed.addr == before.addr
    && (changed.size == before.size || (changed.size < before.size && changed.last))
    && (before.last ==> changed == before)
    && (finished <==> before.last)
  }

  datatype Event<T> = Take(x: T) | Serve(changed: IocBuffer, finished: bool)

  /** A run, with the buffers completed, the buffers before the last that the handler
      was called for, and the number of its calls for the last one. */
  datatype Run<T> = Run(ioc: Ioc<T>, filled: seq<nat>, served: seq<nat>, lastCalls: nat)

  predicate Enabled<T>(r: Run<T>, e: Event<T>) {
    match e
    case Take(_) => CanSample(r.ioc)
    case Serve(changed, finished) =>
      && IrqRaised(r.ioc) && r.ioc.idx < |r.ioc.bufs| && r.ioc.current < |r.ioc.bufs|
      && HandlerContract(r.ioc.bufs[r.ioc.current], changed, finished)
  }

  function Apply<T>(r: Run<T>, e: Event<T>): Run<T>
    requires Enabled(r, e)
  {
    match e
    case Take(x) =>
      var c := r.ioc;
      // a queued buffer of size zero completes at once
      var completed :=
        if c.rcr != 1 then [] else if c.rncr == 0 && c.idx != c.current then [c.current, c.idx] else [c.current];
      Run(Sample(c, x), r.filled + completed, r.served, r.lastCalls)
    case Serve(changed, finished) =>
      var next := Handle(r.ioc, changed, finished);
      if r.ioc.bufs[r.ioc.current].last then Run(next, r.filled, r.served, r.lastCalls + 1)
      else Run(next, r.filled, r.served + [r.ioc.current], r.lastCalls)
  }

  function Position(n: nat, count: nat): nat
    requires 0 < count
  {
    n % count
  }

  /** Circular order from buffer zero, none left out and none repeated. */
  predicate Circular(order: seq<nat>, count: nat) {
    0 < count && forall i :: 0 <= i < |order| ==> order[i] == Position(i, count)
  }

  lemma CircularGrows(order: seq<nat>, count: nat, i: nat)
    requires Circular(order, count) && i == Position(|order|, count)
    ensures Circular(order + [i], count)
    ensures Position(|order| + 1, count) == Next(i, count)
  {
    if i + 1 < count {
      RemainderIs(|order| + 1, count, |order| / count, i + 1);
    } else {
      RemainderIs(|order| + 1, count, |order| / count + 1, 0);
    }
  }

  /** The DMA pointer is inside buffer i and will stop at its end. */
  predicate Filling<T>(c: Ioc<T>, i: nat) {
    && i < |c.bufs| && 0 < c.rcr
    && c.bufs[i].addr <= c.rpr && c.rpr + c.rcr == c.bufs[i].addr + c.bufs[i].size
  }

  predicate Queued<T>(c: Ioc<T>, i: nat) {
    i < |c.bufs| && c.rnpr == c.bufs[i].addr && c.rncr == c.bufs[i].size
  }

  /** What every run keeps, for any number of buffers from three on. */
  ghost predicate RunInv<T>(r: Run<T>) {
    var c, count := r.ioc, |r.ioc.bufs|;
    && 3 <= count && c.idx < count && c.current < count
    && Circular(r.filled, count) && Circular(r.served, count)
    && |r.served| <= |r.filled| && c.current == Position(|r.served|, count)
    && (forall i :: 0 <= i < count ==> 0 < c.bufs[i].size || c.bufs[i].last)
    && (0 < r.lastCalls ==> c.bufs[c.current].last)
    && (if c.busy then RunningShape(r) else StoppedShape(r))
  }

  ghost predicate RunningShape<T>(r: Run<T>)
    requires r.ioc.current < |r.ioc.bufs| && r.ioc.idx < |r.ioc.bufs|
  {
    var c, current := r.ioc, r.ioc.current;
    if c.bufs[current].last then
      // the last buffer: nothing is queued behind it
      && c.idx == current && c.rncr == 0
      && (if c.rcr == 0 then |r.filled| == |r.served| + 1
          else !c.pending && Filling(c, current) && |r.filled| == |r.served|)
    else if !c.pending then
      && !c.endrx && c.idx == Next(current, |c.bufs|)
      && Filling(c, current) && Queued(c, c.idx) && |r.filled| == |r.served|
    else
      && c.idx == Next(current, |c.bufs|) && c.rncr == 0
      && (if c.rcr == 0 then c.bufs[c.idx].last && |r.filled| == |r.served| + 2
          else Filling(c, c.idx) && |r.filled| == |r.served| + 1)
  }

  ghost predicate StoppedShape<T>(r: Run<T>)
    requires r.ioc.current < |r.ioc.bufs|
  {
    && RxBuff(r.ioc) && r.ioc.bufs[r.ioc.current].last
    && |r.filled| == |r.served| + 1 && 0 < r.lastCalls
  }

  lemma StartKeepsInv<T>(mem: seq<T>, bufs: seq<IocBuffer>)
    requires 3 <= |bufs| && forall i :: 0 <= i < |bufs| ==> 0 < bufs[i].size
    ensures RunInv(Run(Start(mem, bufs), [], [], 0))
  {
  }

  lemma TakeKeepsInv<T>(r: Run<T>, x: T)
    requires RunInv(r) && Enabled(r, Take(x))
    ensures RunInv(Apply(r, Take(x)))
  {
    var c, count := r.ioc, |r.ioc.bufs|;
    if c.rcr == 1 {
      CircularGrows(r.filled, count, c.current);
      CircularGrows(r.filled + [c.current], count, Next(c.current, count));
      assert r.filled + [c.current] + [c.idx] == r.filled + [c.current, c.idx];
    } else {
      assert r.filled + [] == r.filled;
    }
  }

  lemma ServeLastKeepsInv<T>(r: Run<T>, changed: IocBuffer, finished: bool)
    requires RunInv(r) && Enabled(r, Serve(changed, finished))
    requires r.ioc.bufs[r.ioc.current].last
    ensures RunInv(Apply(r, Serve(changed, finished)))
    ensures Apply(r, Serve(changed, finished)).ioc.busy <==> !RxBuff(r.ioc)
  {
    hide Position, Circular;
    assert Handle(r.ioc, changed, finished).bufs == r.ioc.bufs;
  }

  lemma ServeNextKeepsInv<T>(r: Run<T>, changed: IocBuffer, finished: bool)
    requires RunInv(r) && Enabled(r, Serve(changed, finished))
    requires !r.ioc.bufs[r.ioc.current].last
    ensures RunInv(Apply(r, Serve(changed, finished)))
  {
    hide Position, Circular;
    CircularGrows(r.served, |r.ioc.bufs|, r.ioc.current);
    var c, next := r.ioc, Handle(r.ioc, changed, finished);
    assert c.idx == Next(c.current, |c.bufs|) && c.idx != c.current;
    assert next.current == c.idx && next.bufs[c.idx] == c.bufs[c.idx];
    if !c.bufs[c.idx].last {
      assert next.idx == Next(c.idx, |c.bufs|) != c.current;
      assert next.bufs[next.idx] == c.bufs[next.idx];
    }
  }

  lemma EventKeepsInv<T>(r: Run<T>, e: Event<T>)
    requires RunInv(r) && Enabled(r, e)
    ensures RunInv(Apply(r, e))
  {
    match e
    case Take(x) => TakeKeepsInv(r, x);
    case Serve(changed, finished) =>
      if r.ioc.bufs[r.ioc.current].last {
        ServeLastKeepsInv(r, changed, finished);
      } else {
        ServeNextKeepsInv(r, changed, finished);
      }
  }

  ghost predicate Possible<T>(r: Run<T>, events: seq<Event<T>>)
    decreases |events|
  {
    events == [] || (Enabled(r, events[0]) && Possible(Apply(r, events[0]), events[1..]))
  }

  ghost function After<T>(r: Run<T>, events: seq<Event<T>>): Run<T>
    requires Possible(r, events)
    decreases |events|
  {
    if events == [] then r else After(Apply(r, events[0]), events[1..])
  }

  lemma {:induction false} EventsKeepInv<T>(r: Run<T>, events: seq<Event<T>>)
    requires RunInv(r) && Possible(r, events)
    ensures RunInv(After(r, events))
    decreases |events|
  {
    hide RunInv, Apply, Enabled;
    if events != [] {
      EventKeepsInv(r, events[0]);
      EventsKeepInv(Apply(r, events[0]), events[1..]);
    }
  }

  /** What holds after every run:
      - buffers complete in circular order, and the handler is called once for each of
        them before the last, in that order and when it is complete;
      - after that it is called only for the last buffer, perhaps more than once and
        before that is full, and changes nothing any more;
      - the DMA pointer is inside the buffer that will be logged as completed next, and
        the buffer after it is in the queue, unless the current one is the last;
      - when the handler is called for a buffer before the last, the DMA fills the next
        one and the one after that is queued;
      - behind a buffer found last nothing is queued, and the driver is busy until the
        handler has been called for that buffer when it is full. */
  ghost predicate RingSafe<T>(r: Run<T>) {
    var c := r.ioc;
    && Circular(r.filled, |c.bufs|) && r.served <= r.filled && |r.filled| <= |r.served| + 2
    && c.current < |c.bufs| && c.idx < |c.bufs|
    && (0 < r.lastCalls ==> c.bufs[c.current].last)
    && (c.busy && 0 < c.rcr ==> Filling(c, if c.pending then c.idx else c.current))
    && (c.busy && !c.pending && !c.bufs[c.current].last ==> Queued(c, c.idx) && c.idx == Next(c.current, |c.bufs|))
    && (c.bufs[c.current].last ==> c.rncr == 0)
    && (IrqRaised(c) && !c.bufs[c.current].last ==>
          |r.served| < |r.filled| && r.filled[|r.served|] == c.current && ScanIsSafe(c))
    && (IrqRaised(c) && c.bufs[c.current].last && !RxBuff(c) ==> Handle(c, c.bufs[c.current], true) == c)
    && (!c.busy ==> c.bufs[c.current].last && r.filled == r.served + [c.current] && 0 < r.lastCalls)
  }

  /** While the handler has the completed buffer, the DMA fills the next one and the one
      after that is queued. */
  predicate ScanIsSafe<T>(c: Ioc<T>)
    requires c.current < |c.bufs| && c.idx < |c.bufs|
  {
    var next := Handle(c, c.bufs[c.current], false);
    && next.current != c.current && next.idx != c.current
    && (0 < next.rcr ==> Filling(next, next.current))
    && (0 < next.rncr ==> Queued(next, next.idx))
  }

  lemma InvIsSafe<T>(r: Run<T>)
    requires RunInv(r)
    ensures RingSafe(r)
  {
    PrefixOfCircular(r);
    assert r.ioc.bufs[r.ioc.current := r.ioc.bufs[r.ioc.current]] == r.ioc.bufs;
    if r.ioc.busy && !r.ioc.bufs[r.ioc.current].last && IrqRaised(r.ioc) {
      ServedIsSafe(r);
    }
  }

  lemma ServedIsSafe<T>(r: Run<T>)
    requires RunInv(r) && IrqRaised(r.ioc) && !r.ioc.bufs[r.ioc.current].last
    ensures ScanIsSafe(r.ioc)
  {
    hide Circular, Position;
    var c := r.ioc;
    assert c.bufs[c.current := c.bufs[c.current]] == c.bufs;
  }

  /** For three buffers or more, any finish handler of the contract and any run, the
      ring is safe. */
  lemma RingIsSafe<T>(mem: seq<T>, bufs: seq<IocBuffer>, events: seq<Event<T>>)
    requires 3 <= |bufs| && forall i :: 0 <= i < |bufs| ==> 0 < bufs[i].size
    requires Possible(Run(Start(mem, bufs), [], [], 0), events)
    ensures RingSafe(After(Run(Start(mem, bufs), [], [], 0), events))
  {
    hide Possible, After, RunInv, RingSafe;
    StartKeepsInv(mem, bufs);
    EventsKeepInv(Run(Start(mem, bufs), [], [], 0), events);
    InvIsSafe(After(Run(Start(mem, bufs), [], [], 0), events));
  }

  lemma PrefixOfCircular<T>(r: Run<T>)
    requires RunInv(r)
    ensures r.served <= r.filled
    ensures |r.served| < |r.filled| ==> r.filled[|r.served|] == r.ioc.current
    ensures |r.filled| == |r.served| + 1 ==> r.filled == r.served + [r.ioc.current]
  {
  }

  /** Three buffers are needed: with two, the buffer that the handler is about to scan
      is the one that has just been queued. */
  lemma TwoBuffersAreTooFew<T>(c: Ioc<T>, changed: IocBuffer, finished: bool)
    requires |c.bufs| == 2 && c.current < 2 && c.idx == Next(c.current, 2) && !c.bufs[c.idx].last
    ensures Handle(c, changed, finished).idx == c.current
  {
  }
}
