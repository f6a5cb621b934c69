/** One producer and one consumer share a FIFO without a lock. Each call is cut
    into its micro-steps in program order: read the other side's index, touch the
    slot, publish the own index ("must be the last thing to do"). The micro-steps
    of the two sides interleave in any order. */
module FifoConcurrent {
  import opened Fifo
  import opened Remainders

  /** Where the producer is inside its push. */
  datatype Producer<T> =
    | Ready
    | Admitted(item: T)                          // saw room, has not touched the buffer
    | Stored(storedItem: T, nextWrite: nat)      // wrote the slot, has not published

  /** Where the consumer is inside its pull. */
  datatype Consumer<T> =
    | Waiting
    | Granted                                    // saw an element
    | Fetched(item: T, nextRead: nat)            // read the slot, has not published

  datatype Shared<T> = Shared(
    buf: seq<T>, readIndex: nat, writeIndex: nat,
    producer: Producer<T>, consumer: Consumer<T>)
  {
    function Mask(): int { 2 * |buf| - 1 }
  }

  /** Who moves. The item matters only when the producer starts a push. */
  datatype Move<T> = Produce(item: T) | Consume

  function Start<T>(buf: seq<T>): Shared<T> {
    Shared(buf, 0, 0, Ready, Waiting)
  }

  lemma SlotInside(size: nat, index: nat)
    requires ValidSize(size)
    ensures Slot(index, 2 * size - 1) < size
  {
    SlotIsPosition(size, index);
  }

  function ProducerStep<T>(s: Shared<T>, item: T): (next: Shared<T>)
    requires ValidSize(|s.buf|)
    ensures |next.buf| == |s.buf|
  {
    SlotInside(|s.buf|, s.writeIndex);
    match s.producer
    case Ready =>
      if Used(s.writeIndex, s.readIndex, s.Mask()) == |s.buf| then s else s.(producer := Admitted(item))
    case Admitted(x) =>
      s.(buf := s.buf[Slot(s.writeIndex, s.Mask()) := x], producer := Stored(x, Next(s.writeIndex, s.Mask())))
    case Stored(_, next) =>
      s.(writeIndex := next, producer := Ready)
  }

  function ConsumerStep<T>(s: Shared<T>): (next: Shared<T>)
    requires ValidSize(|s.buf|)
    ensures |next.buf| == |s.buf|
  {
    SlotInside(|s.buf|, s.readIndex);
    match s.consumer
    case Waiting =>
      if s.writeIndex == s.readIndex then s else s.(consumer := Granted)
    case Granted =>
      s.(consumer := Fetched(s.buf[Slot(s.readIndex, s.Mask())], Next(s.readIndex, s.Mask())))
    case Fetched(_, next) =>
      s.(readIndex := next, consumer := Waiting)
  }

  function Step<T>(s: Shared<T>, move: Move<T>): (next: Shared<T>)
    requires ValidSize(|s.buf|)
    ensures |next.buf| == |s.buf|
  {
    match move
    case Produce(item) => ProducerStep(s, item)
    case Consume => ConsumerStep(s)
  }

  /** What a pull returns when it ends with this move. */
  function Returned<T>(s: Shared<T>, move: Move<T>): seq<T> {
    if move.Consume? && s.consumer.Fetched? then [s.consumer.item] else []
  }

  /** The state after a schedule of moves. */
  function Run<T>(s: Shared<T>, moves: seq<Move<T>>): (end: Shared<T>)
    requires ValidSize(|s.buf|)
    ensures |end.buf| == |s.buf|
    decreases |moves|
  {
    if moves == [] then s else Run(Step(s, moves[0]), moves[1..])
  }

  /** What the pulls of a schedule return, in order. */
  function Pulled<T>(s: Shared<T>, moves: seq<Move<T>>): seq<T>
    requires ValidSize(|s.buf|)
    decreases |moves|
  {
    if moves == [] then [] else Returned(s, moves[0]) + Pulled(Step(s, moves[0]), moves[1..])
  }

  // ----- Reference: a queue that only counts -----

  /** The items of all pushes begun, how many of them are published and how many are
      pulled, and how many micro-steps the two sides have made of their current calls. */
  datatype Queue<T> = Queue(begun: seq<T>, sent: nat, got: nat, pushSteps: nat, pullSteps: nat)

  function EmptyQueue<T>(): Queue<T> {
    Queue([], 0, 0, 0, 0)
  }

  /** A push is begun unless `size` items are unread, and takes three moves; a pull is begun
      unless no item is, and takes three moves. The other moves are refused calls. */
  function QueueStep<T>(q: Queue<T>, size: nat, move: Move<T>): Queue<T> {
    match move
    case Produce(item) =>
      if q.pushSteps == 0 then
        if q.sent == q.got + size then q else q.(begun := q.begun + [item], pushSteps := 1)
      else if q.pushSteps == 1 then q.(pushSteps := 2)
      else q.(pushSteps := 0, sent := q.sent + 1)
    case Consume =>
      if q.pullSteps == 0 then
        if q.sent == q.got then q else q.(pullSteps := 1)
      else if q.pullSteps == 1 then q.(pullSteps := 2)
      else q.(pullSteps := 0, got := q.got + 1)
  }

  function QueueAfter<T>(q: Queue<T>, size: nat, moves: seq<Move<T>>): Queue<T>
    decreases |moves|
  {
    if moves == [] then q else QueueAfter(QueueStep(q, size, moves[0]), size, moves[1..])
  }

  // ----- Refinement -----

  /** Item k of the queue is in its slot. */
  ghost predicate InSlot<T>(s: Shared<T>, q: Queue<T>, k: nat)
    requires 0 < |s.buf| && k < |q.begun|
  {
    s.buf[SlotOf(k, |s.buf|)] == q.begun[k]
  }

  ghost predicate Refines<T>(s: Shared<T>, q: Queue<T>) {
    var size := |s.buf|;
    && ValidSize(size)
    && q.got <= q.sent <= q.got + size
    && |q.begun| == q.sent + (if q.pushSteps == 0 then 0 else 1)
    && s.writeIndex == q.sent % (2 * size)
    && s.readIndex == q.got % (2 * size)
    && (forall k :: q.got <= k < q.sent ==> InSlot(s, q, k))
    && (match s.producer
        case Ready => q.pushSteps == 0
        case Admitted(x) => q.pushSteps == 1 && q.sent < q.got + size && x == q.begun[q.sent]
        case Stored(x, next) =>
          && q.pushSteps == 2 && q.sent < q.got + size && x == q.begun[q.sent]
          && InSlot(s, q, q.sent) && next == (q.sent + 1) % (2 * size))
    && (match s.consumer
        case Waiting => q.pullSteps == 0
        case Granted => q.pullSteps == 1 && q.got < q.sent
        case Fetched(x, next) =>
          && q.pullSteps == 2 && q.got < q.sent && x == q.begun[q.got]
          && next == (q.got + 1) % (2 * size))
  }

  lemma IndicesAreCounts<T>(s: Shared<T>, q: Queue<T>)
    requires Refines(s, q)
    ensures Slot(s.writeIndex, s.Mask()) == SlotOf(q.sent, |s.buf|)
    ensures Slot(s.readIndex, s.Mask()) == SlotOf(q.got, |s.buf|)
    ensures Next(s.writeIndex, s.Mask()) == (q.sent + 1) % (2 * |s.buf|)
    ensures Next(s.readIndex, s.Mask()) == (q.got + 1) % (2 * |s.buf|)
    ensures Used(s.writeIndex, s.readIndex, s.Mask()) == q.sent - q.got
    ensures s.writeIndex == s.readIndex <==> q.sent == q.got
  {
    hide Slot, Next, Used, ValidSize;
    var size := |s.buf|;
    IndexArithmetic(size, q.sent);
    IndexArithmetic(size, q.got);
    UsedIsDifference(size, q.sent, q.got);
    UsedIsDifference(size, q.got, q.got);
  }

  /** Each micro-step of a push is a step of the queue; in particular it leaves every
      unread item where it is. */
  lemma ProducerRefines<T>(s: Shared<T>, q: Queue<T>, item: T)
    requires Refines(s, q)
    ensures Refines(ProducerStep(s, item), QueueStep(q, |s.buf|, Produce(item)))
  {
    hide Slot, Next, Used, ValidSize, SlotOf;
    IndicesAreCounts(s, q);
    var size := |s.buf|;
    forall k: nat | q.got <= k < q.sent && q.sent < q.got + size
      ensures SlotOf(k, size) != SlotOf(q.sent, size)
    {
      SlotsApart(q.sent, k, size);
    }
    var next, after := ProducerStep(s, item), QueueStep(q, size, Produce(item));
    forall k: nat | q.got <= k < q.sent ensures InSlot(next, after, k) {
      assert InSlot(s, q, k);
    }
  }

  lemma SlotsApart(x: nat, y: nat, size: nat)
    requires y < x < y + size
    ensures SlotOf(x, size) != SlotOf(y, size)
  {
    SlotsDiffer(x, y, size);
  }

  /** Each micro-step of a pull is a step of the queue, and a pull that ends returns the
      oldest unread item. */
  lemma ConsumerRefines<T>(s: Shared<T>, q: Queue<T>)
    requires Refines(s, q)
    ensures Refines(ConsumerStep(s), QueueStep(q, |s.buf|, Consume))
    ensures
      var after := QueueStep(q, |s.buf|, Consume);
      Returned(s, Consume) == if after.got == q.got then [] else [q.begun[q.got]]
  {
    hide Slot, Next, Used, ValidSize, SlotOf;
    IndicesAreCounts(s, q);
    var next, after := ConsumerStep(s), QueueStep(q, |s.buf|, Consume);
    if s.consumer.Granted? {
      assert InSlot(s, q, q.got);
    }
    forall k: nat | after.got <= k < after.sent ensures InSlot(next, after, k) {
      assert InSlot(s, q, k);
    }
    if s.producer.Stored? {
      assert InSlot(s, q, q.sent);
    }
  }

  lemma StepRefines<T>(s: Shared<T>, q: Queue<T>, move: Move<T>)
    requires Refines(s, q)
    ensures
      var after := QueueStep(q, |s.buf|, move);
      && Refines(Step(s, move), after) && q.begun <= after.begun
      && q.got <= after.got <= |after.begun| && after.begun[q.got..after.got] == Returned(s, move)
  {
    match move
    case Produce(item) => ProducerRefines(s, q, item);
    case Consume =>
      ConsumerRefines(s, q);
      hide Refines, ConsumerStep;
  }

  lemma {:induction false} RunRefines<T>(s: Shared<T>, q: Queue<T>, moves: seq<Move<T>>)
    requires Refines(s, q)
    ensures
      var end := QueueAfter(q, |s.buf|, moves);
      && Refines(Run(s, moves), end) && q.begun <= end.begun
      && q.got <= end.got <= |end.begun| && end.begun[q.got..end.got] == Pulled(s, moves)
    decreases |moves|
  {
    hide Refines, Step, QueueStep, Returned, ValidSize;
    RefinesIsValid(s, q);
    if moves != [] {
      var next, after := Step(s, moves[0]), QueueStep(q, |s.buf|, moves[0]);
      StepRefines(s, q, moves[0]);
      RunRefines(next, after, moves[1..]);
      var end := QueueAfter(q, |s.buf|, moves);
      JoinSlices(after.begun, end.begun, q.got, after.got, end.got);
    }
  }

  lemma JoinSlices<T>(first: seq<T>, all: seq<T>, i: nat, j: nat, k: nat)
    requires first <= all && i <= j <= |first| && j <= k <= |all|
    ensures all[i..k] == first[i..j] + all[j..k]
  {
  }

  lemma RefinesIsValid<T>(s: Shared<T>, q: Queue<T>)
    requires Refines(s, q)
    ensures ValidSize(|s.buf|) && q.got <= |q.begun|
  {
  }

  lemma StartRefines<T>(buf: seq<T>)
    requires ValidSize(|buf|)
    ensures Refines(Start(buf), EmptyQueue())
  {
  }

  /** The items of the moves of a schedule at which the producer is between two calls and
      fewer than a buffer of items are unread. */
  function ItemsBegun<T>(q: Queue<T>, size: nat, moves: seq<Move<T>>): seq<T>
    decreases |moves|
  {
    if moves == [] then []
    else
      (if moves[0].Produce? && q.pushSteps == 0 && q.sent != q.got + size then [moves[0].item] else [])
      + ItemsBegun(QueueStep(q, size, moves[0]), size, moves[1..])
  }

  /** The pushes begun are those of the schedule, in its order. */
  lemma {:induction false} BegunIsScheduled<T>(q: Queue<T>, size: nat, moves: seq<Move<T>>)
    ensures QueueAfter(q, size, moves).begun == q.begun + ItemsBegun(q, size, moves)
    decreases |moves|
  {
    if moves != [] {
      BegunIsScheduled(QueueStep(q, size, moves[0]), size, moves[1..]);
    }
  }

  lemma UnreadIsIntact<T>(s: Shared<T>, q: Queue<T>)
    requires Refines(s, q)
    ensures q.got <= q.sent <= |q.begun| <= q.sent + 1 && q.sent <= q.got + |s.buf| && 0 < |s.buf|
    ensures Queued(s.buf, q.got, q.sent) == q.begun[q.got..q.sent]
    ensures (s.producer.Ready? <==> q.pushSteps == 0) && (s.consumer.Waiting? <==> q.pullSteps == 0)
  {
    hide SlotOf;
    forall i | 0 <= i < q.sent - q.got
      ensures Queued(s.buf, q.got, q.sent)[i] == q.begun[q.got..q.sent][i]
    {
      assert InSlot(s, q, q.got + i);
    }
  }

  /** For every buffer and every interleaving, without any lock: the items that pulls have
      returned are a prefix of the items of the pushes begun, as many as the queue counts;
      all but at most one of those are published, never more than a buffer of them are
      unread, and every unread item is intact in its slot. Pushes and pulls are refused,
      take effect and end at the moves at which those of the queue do. */
  lemma PulledIsPrefixOfPushed<T>(buf: seq<T>, moves: seq<Move<T>>)
    requires ValidSize(|buf|)
    ensures
      var s, q := Run(Start(buf), moves), QueueAfter(EmptyQueue(), |buf|, moves);
      && q.got <= q.sent <= |q.begun| <= q.sent + 1 && q.sent <= q.got + |buf|
      && q.begun == ItemsBegun(EmptyQueue(), |buf|, moves)
      && Pulled(Start(buf), moves) == q.begun[..q.got]
      && Queued(s.buf, q.got, q.sent) == q.begun[q.got..q.sent]
      && (s.producer.Ready? <==> q.pushSteps == 0) && (s.consumer.Waiting? <==> q.pullSteps == 0)
  {
    hide Refines, Run, Pulled, QueueAfter, ValidSize, ItemsBegun, Queued;
    StartRefines(buf);
    RunRefines(Start(buf), EmptyQueue(), moves);
    BegunIsScheduled(EmptyQueue(), |buf|, moves);
    var s, q := Run(Start(buf), moves), QueueAfter(EmptyQueue(), |buf|, moves);
    assert q.begun[0..q.got] == q.begun[..q.got];
    UnreadIsIntact(s, q);
  }
}
