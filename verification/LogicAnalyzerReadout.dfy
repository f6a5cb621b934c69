/** Sending the acquired samples: the channel order is put right in place, and a
    circular window of the sample memory goes out in reverse. */
module LogicAnalyzerReadout {
  import opened Channels
  import opened LogicAnalyzer
  import opened Options

  /** Position i of the window that starts at offset, wrapped at the end of memory. */
  function WindowIndex(offset: nat, i: nat): nat {
    if offset + i < BUFFER_SIZE then offset + i else offset + i - BUFFER_SIZE
  }

  /** How often la_fix_channels comes to cell a when it takes `size` steps from offset. */
  function Passes(a: nat, offset: nat, size: nat): nat
    requires a < BUFFER_SIZE && offset < BUFFER_SIZE
  {
    var distance := if offset <= a then a - offset else a + BUFFER_SIZE - offset;
    (size + 65535 - distance) / 65536
  }

  lemma NoPasses(a: nat, offset: nat)
    requires a < BUFFER_SIZE && offset < BUFFER_SIZE
    ensures Passes(a, offset, 0) == 0
  {
  }

  lemma PassesStep(a: nat, offset: nat, size: nat)
    requires a < BUFFER_SIZE && offset < BUFFER_SIZE
    ensures Passes(a, offset, size + 1) == Passes(a, offset, size) + if a == (offset + size) % 65536 then 1 else 0
  {
  }

  /** la_fix_channels: every cell is permuted as often as the window comes to it. */
  function FixedWindow(mem: seq<bv8>, offset: nat, size: nat): (r: seq<bv8>)
    requires |mem| == BUFFER_SIZE && offset < BUFFER_SIZE
    ensures |r| == BUFFER_SIZE
  {
    seq(BUFFER_SIZE, a requires 0 <= a < BUFFER_SIZE =>
      if Passes(a, offset, size) % 2 == 1 then FixOrder(mem[a]) else mem[a])
  }

  /** The bytes of the window in order. */
  function Window(mem: seq<bv8>, offset: nat, size: nat): (r: seq<bv8>)
    requires |mem| == BUFFER_SIZE && offset < BUFFER_SIZE && offset + size <= 2 * BUFFER_SIZE
    ensures |r| == size
  {
    seq(size, i requires 0 <= i < size => mem[WindowIndex(offset, i)])
  }

  function Reverse<T>(s: seq<T>): (r: seq<T>)
    ensures |r| == |s|
  {
    seq(|s|, i requires 0 <= i < |s| => s[|s| - 1 - i])
  }

  /** cdc_write_buf_reverted; None if it would read outside the sample memory. */
  function Chunk(mem: seq<bv8>, data: nat, size: nat): Option<seq<bv8>> {
    if data + size <= |mem| then Some(Reverse(mem[data..data + size])) else None
  }

  /** la_usb_send: the reverted chunks, in the order in which they are written. The end
      of the window is compared in 32 bits. */
  function UsbSent(mem: seq<bv8>, offset: nat, size: nat): Option<seq<bv8>>
    requires |mem| == BUFFER_SIZE && offset < BUFFER_SIZE
  {
    if (offset + size) % 0x1_0000_0000 <= BUFFER_SIZE then
      Chunk(mem, offset, size)
    else
      var firstChunk := BUFFER_SIZE - offset;
      match Chunk(mem, 0, size - firstChunk)
      case None => None
      case Some(wrapped) => Some(wrapped + Reverse(mem[offset..]))
  }

  lemma StraightWindow(mem: seq<bv8>, offset: nat, size: nat)
    requires |mem| == BUFFER_SIZE && offset < BUFFER_SIZE && offset + size <= BUFFER_SIZE
    ensures Reverse(mem[offset..offset + size]) == Reverse(Window(mem, offset, size))
  {
    assert mem[offset..offset + size] == Window(mem, offset, size);
  }

  lemma WrappedWindow(mem: seq<bv8>, offset: nat, size: nat)
    requires |mem| == BUFFER_SIZE && offset < BUFFER_SIZE && BUFFER_SIZE < offset + size <= 2 * BUFFER_SIZE
    ensures Reverse(mem[..size - (BUFFER_SIZE - offset)]) + Reverse(mem[offset..]) == Reverse(Window(mem, offset, size))
  {
    var window := Window(mem, offset, size);
    assert window == mem[offset..] + mem[..size - (BUFFER_SIZE - offset)];
    ReverseJoins(mem[offset..], mem[..size - (BUFFER_SIZE - offset)]);
  }

  lemma ReverseJoins<T>(s: seq<T>, t: seq<T>)
    ensures Reverse(s + t) == Reverse(t) + Reverse(s)
  {
  }

  /** In the straight and in the wrapped case the bytes sent are the window in reverse,
      for every 32-bit size with which the reads stay in the sample memory. */
  lemma SentIsReversedWindow(mem: seq<bv8>, offset: nat, size: nat)
    requires |mem| == BUFFER_SIZE && offset < BUFFER_SIZE && size < 0x1_0000_0000
    ensures UsbSent(mem, offset, size) ==
      if offset + size <= 2 * BUFFER_SIZE then Some(Reverse(Window(mem, offset, size))) else None
  {
    hide Reverse, Window;
    if offset + size <= BUFFER_SIZE {
      StraightWindow(mem, offset, size);
    } else if offset + size <= 2 * BUFFER_SIZE {
      WrappedWindow(mem, offset, size);
      assert mem[0..size - (BUFFER_SIZE - offset)] == mem[..size - (BUFFER_SIZE - offset)];
    }
  }

  /** The cells of a window that is not longer than the memory. */
  predicate InWindow(a: nat, offset: nat, size: nat) {
    offset <= a < offset + size || a + BUFFER_SIZE < offset + size
  }

  lemma PassesOnce(a: nat, offset: nat, size: nat)
    requires a < BUFFER_SIZE && offset < BUFFER_SIZE && size <= BUFFER_SIZE
    ensures Passes(a, offset, size) == if InWindow(a, offset, size) then 1 else 0
  {
  }

  /** Each cell of a window of at most the whole memory is put into the user's order once
      and no other cell changes. */
  lemma FixingTheWindow(mem: seq<bv8>, offset: nat, size: nat)
    requires |mem| == BUFFER_SIZE && offset < BUFFER_SIZE && size <= BUFFER_SIZE
    ensures forall a :: 0 <= a < BUFFER_SIZE ==>
      if InWindow(a, offset, size) then InUserOrder(FixedWindow(mem, offset, size)[a], mem[a])
      else FixedWindow(mem, offset, size)[a] == mem[a]
  {
    hide FixOrder, Passes, InUserOrder;
    forall a | 0 <= a < BUFFER_SIZE
      ensures
        if InWindow(a, offset, size) then InUserOrder(FixedWindow(mem, offset, size)[a], mem[a])
        else FixedWindow(mem, offset, size)[a] == mem[a]
    {
      PassesOnce(a, offset, size);
      FixOrderIsUserOrder(mem[a]);
    }
  }

  lemma PassesTwice(offset: nat, size: nat, i: nat)
    requires offset < BUFFER_SIZE <= size <= 2 * BUFFER_SIZE && i < size - BUFFER_SIZE
    ensures Passes(WindowIndex(offset, i), offset, size) == 2
  {
  }

  /** The cells that a longer window comes to twice keep the hardware order. */
  lemma FixingTooMuch(mem: seq<bv8>, offset: nat, size: nat)
    requires |mem| == BUFFER_SIZE && offset < BUFFER_SIZE <= size <= 2 * BUFFER_SIZE
    ensures forall i :: 0 <= i < size - BUFFER_SIZE ==>
      FixedWindow(mem, offset, size)[WindowIndex(offset, i)] == mem[WindowIndex(offset, i)]
  {
    hide FixOrder, Passes;
    forall i | 0 <= i < size - BUFFER_SIZE
      ensures FixedWindow(mem, offset, size)[WindowIndex(offset, i)] == mem[WindowIndex(offset, i)]
    {
      PassesTwice(offset, size, i);
    }
  }

  /** Permuting the same window twice restores the memory, for every size. */
  lemma FixingTwiceRestores(mem: seq<bv8>, offset: nat, size: nat)
    requires |mem| == BUFFER_SIZE && offset < BUFFER_SIZE
    ensures FixedWindow(FixedWindow(mem, offset, size), offset, size) == mem
  {
    hide FixOrder, Passes;
    forall a | 0 <= a < BUFFER_SIZE
      ensures FixedWindow(FixedWindow(mem, offset, size), offset, size)[a] == mem[a]
    {
      FixOrderIsInvolution(mem[a]);
    }
  }

  /** The bytes are the samples from the trigger on, last one first, and bit k of each is
      the user's channel k. */
  ghost predicate Delivered(sent: Option<seq<bv8>>, input: nat -> bv8, trigger: nat, count: nat) {
    && sent.Some? && |sent.value| == count
    && forall i :: 0 <= i < count ==> InUserOrder(sent.value[i], input(trigger + (count - 1 - i)))
  }

  function Readout(mem: seq<bv8>, offset: nat, count: nat): Option<seq<bv8>>
    requires |mem| == BUFFER_SIZE && offset < BUFFER_SIZE
  {
    UsbSent(FixedWindow(mem, offset, count), offset, count)
  }

  /** A readout of at most the whole memory, byte by byte. */
  lemma ReadoutBytes(mem: seq<bv8>, offset: nat, count: nat)
    requires |mem| == BUFFER_SIZE && offset < BUFFER_SIZE && count <= BUFFER_SIZE
    ensures Readout(mem, offset, count).Some? && |Readout(mem, offset, count).value| == count
    ensures forall i :: 0 <= i < count ==>
      InUserOrder(Readout(mem, offset, count).value[i], mem[WindowIndex(offset, count - 1 - i)])
  {
    hide InUserOrder, FixedWindow, UsbSent;
    var fixed := FixedWindow(mem, offset, count);
    FixingTheWindow(mem, offset, count);
    SentIsReversedWindow(fixed, offset, count);
    forall i | 0 <= i < count
      ensures InUserOrder(Readout(mem, offset, count).value[i], mem[WindowIndex(offset, count - 1 - i)])
    {
      var a := WindowIndex(offset, count - 1 - i);
      assert InWindow(a, offset, count);
      assert Window(fixed, offset, count)[count - 1 - i] == fixed[a];
    }
  }

  /** The readout wraps at the end of the whole memory, the ring at its own end. The
      window stays on the ring when the ring is the whole memory, or when it does not
      reach the ring's end. */
  predicate WindowOnRing(readCnt: nat, offset: nat) {
    readCnt >= 4096 || offset + readCnt <= 4 * BufSize(readCnt)
  }

  lemma RingSize(readCnt: nat)
    requires 0 < readCnt <= BUFFER_SIZE
    ensures 4 * BufSize(readCnt) == if readCnt >= 4096 then BUFFER_SIZE else 16 * readCnt
  {
  }

  lemma ReadoutOnRing(mem: seq<bv8>, input: nat -> bv8, trigger: nat, readCnt: nat, offset: nat)
    requires |mem| == BUFFER_SIZE && 0 < readCnt <= BUFFER_SIZE && offset < BUFFER_SIZE
    requires RingIsInput(mem, BufSize(readCnt), offset, input, trigger) && WindowOnRing(readCnt, offset)
    ensures Delivered(Readout(mem, offset, readCnt), input, trigger, readCnt)
  {
    hide InUserOrder, Readout;
    RingSize(readCnt);
    ReadoutBytes(mem, offset, readCnt);
    var sent := Readout(mem, offset, readCnt).value;
    forall i | 0 <= i < readCnt ensures InUserOrder(sent[i], input(trigger + (readCnt - 1 - i))) {
      var k := readCnt - 1 - i;
      assert mem[WindowIndex(offset, k)] == RingCell(mem, BufSize(readCnt), offset, k);
    }
  }

  /** A window that runs past the ring sends the first cell behind the ring. */
  lemma StaleCellIsSent(mem: seq<bv8>, input: nat -> bv8, trigger: nat, readCnt: nat, offset: nat)
    requires |mem| == BUFFER_SIZE && 0 < readCnt <= BUFFER_SIZE && offset < 4 * BufSize(readCnt)
    requires !WindowOnRing(readCnt, offset)
    requires 4 * BufSize(readCnt) < BUFFER_SIZE ==>
      mem[4 * BufSize(readCnt)] != input(trigger + (4 * BufSize(readCnt) - offset))
    ensures !Delivered(Readout(mem, offset, readCnt), input, trigger, readCnt)
  {
    hide InUserOrder, Readout;
    RingSize(readCnt);
    var ring := 4 * BufSize(readCnt);
    var k := ring - offset;
    ReadoutBytes(mem, offset, readCnt);
    var i := readCnt - 1 - k;
    var sent := Readout(mem, offset, readCnt).value;
    assert InUserOrder(sent[i], mem[ring]);
    if InUserOrder(sent[i], input(trigger + k)) {
      UserOrderDetermines(sent[i], mem[ring], input(trigger + k));
    }
  }
}
