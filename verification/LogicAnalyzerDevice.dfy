/** logic_analyzer.c and io_capture.c with their static variables, updated in place.
    Every method is tied to the function of the value models that it computes. */
module LogicAnalyzerDevice {
  import opened Channels
  import opened IoCapture
  import opened LogicAnalyzer
  import opened LogicAnalyzerReadout
  import opened Options

  class Device {
    // the sample memory and the analyzer's variables
    const laBuffer: array<bv8>
    var laState: LaState
    var trigOffset: nat
    var triggerMask: bv8
    var triggerVal: bv8
    var iocBuffers: seq<IocBuffer>
    // the driver's variables
    var bufferIdx: nat
    var bufferCurrent: nat
    var busy: bool
    var stopAcq: bool
    // PDC registers and its interrupt flag
    var rpr: nat
    var rcr: nat
    var rnpr: nat
    var rncr: nat
    var endrx: bool
    // the handler has not run since the last completion
    ghost var pending: bool
    ghost var taken: nat

    constructor ()
      ensures laBuffer.Length == BUFFER_SIZE && laState == Idle && !busy && !stopAcq
    {
      laBuffer := new bv8[BUFFER_SIZE](_ => 0);
      laState, trigOffset, triggerMask, triggerVal, iocBuffers := Idle, UINT_MAX, 0, 0, [];
      bufferIdx, bufferCurrent, busy, stopAcq := 0, 0, false, false;
      rpr, rcr, rnpr, rncr, endrx := 0, 0, 0, 0, false;
      pending, taken := false, 0;
    }

    ghost function IocValue(): Ioc<bv8>
      reads this, laBuffer
    {
      Ioc(laBuffer[..], iocBuffers, bufferIdx, bufferCurrent, busy, rpr, rcr, rnpr, rncr, endrx, pending)
    }

    ghost function Value(): La
      reads this, laBuffer
    {
      La(IocValue(), laState, trigOffset, triggerMask, triggerVal, taken)
    }

    /** ioc_set_next_buffer */
    method SetNextBuffer()
      requires bufferIdx < |iocBuffers|
      modifies this`bufferCurrent, this`bufferIdx, this`rnpr, this`rncr, this`endrx
      ensures IocValue() == IoCapture.SetNextBuffer(old(IocValue()))
    {
      bufferCurrent := bufferIdx;
      if iocBuffers[bufferIdx].last {
        return;
      }
      bufferIdx := bufferIdx + 1;
      if bufferIdx >= |iocBuffers| {
        bufferIdx := 0;
      }
      rnpr := iocBuffers[bufferIdx].addr;
      rncr := iocBuffers[bufferIdx].size;
      // writing the counter clears the flag
      endrx := false;
    }

    /** la_find_trigger_unfixed */
    method FindTriggerUnfixed(addr: nat, size: nat) returns (r: nat)
      requires addr + size <= laBuffer.Length
      ensures r == FindTrigger(laBuffer[addr..addr + size], triggerMask, triggerVal)
    {
      hide FixOrder;
      if triggerMask == 0 {
        return 0;
      }
      var mask, val := FixOrder(triggerMask), FixOrder(triggerVal);
      ghost var buf := laBuffer[addr..addr + size];
      for i := 0 to size
        invariant FindTrigger(buf, triggerMask, triggerVal) == FindFrom(buf, i, triggerMask, triggerVal)
      {
        if laBuffer[addr + i] & mask == val {
          return i;
        }
      }
      return UINT_MAX;
    }

    /** ioc_start */
    method IocStart(buffers: seq<IocBuffer>)
      requires buffers != []
      modifies this`busy, this`bufferIdx, this`bufferCurrent, this`iocBuffers, this`rpr, this`rcr, this`rnpr,
        this`rncr, this`endrx, this`pending
      ensures IocValue() == IoCapture.Start(old(laBuffer[..]), buffers)
    {
      hide IoCapture.SetNextBuffer;
      busy := true;
      bufferIdx := 0;
      iocBuffers := buffers;
      rpr := iocBuffers[0].addr;
      rcr := iocBuffers[0].size;
      // nothing is queued yet, and writing the counter cleared the flag
      bufferCurrent, rnpr, rncr, endrx, pending := 0, 0, 0, false, false;
      SetNextBuffer();
    }

    /** la_start_acq */
    method StartAcq(readCnt: nat)
      requires laBuffer.Length == BUFFER_SIZE
      modifies this
      ensures old(laState) != Idle ==> Value() == old(Value())
      ensures old(laState) == Idle ==>
        Value() == LogicAnalyzer.StartAcq(old(laBuffer[..]), old(triggerMask), old(triggerVal), readCnt)
    {
      if laState != Idle {
        return;
      }
      hide Addr, BufSize, IoCapture.Start;
      trigOffset := UINT_MAX;
      var bufSize := BufSize(readCnt);
      var buffers: seq<IocBuffer> := [];
      for i := 0 to 4
        invariant |buffers| == i
        invariant forall k :: 0 <= k < i ==> buffers[k] == IocBuffer(Addr(k, bufSize), bufSize, false)
      {
        buffers := buffers + [IocBuffer(Addr(i, bufSize), bufSize, false)];
      }
      if triggerMask == 0 {
        buffers := buffers[3 := buffers[3].(last := true)];
      }
      assert buffers == [
        IocBuffer(Addr(0, bufSize), bufSize, false), IocBuffer(Addr(1, bufSize), bufSize, false),
        IocBuffer(Addr(2, bufSize), bufSize, false), IocBuffer(Addr(3, bufSize), bufSize, triggerMask == 0)];
      laState := Running;
      taken := 0;
      IocStart(buffers);
    }

    /** The PDC when its counter has run out. */
    method Complete()
      modifies this`rpr, this`rcr, this`rncr, this`endrx, this`pending
      ensures
        var c := old(IocValue()).(endrx := true, pending := true);
        IocValue() == if c.rncr != 0 then c.(rpr := c.rnpr, rcr := c.rncr, rncr := 0) else c
    {
      endrx, pending := true, true;
      if rncr != 0 {
        rpr, rcr, rncr := rnpr, rncr, 0;
      }
    }

    /** One sample taken by the DMA. */
    method TakeSample(x: bv8)
      requires laBuffer.Length == BUFFER_SIZE && CanSample(IocValue())
      modifies this`rpr, this`rcr, this`rncr, this`endrx, this`pending, this`taken, laBuffer
      ensures Value() == old(Value()).(ioc := Sample(old(IocValue()), x), taken := old(taken) + 1)
    {
      laBuffer[rpr] := x;
      rpr := rpr + 1;
      rcr := rcr - 1;
      taken := taken + 1;
      assert IocValue() == old(IocValue()).(
          mem := old(laBuffer[..])[old(rpr) := x], rpr := old(rpr) + 1, rcr := old(rcr) - 1);
      if rcr == 0 {
        Complete();
      }
    }

    /** la_acq_finished */
    method AcqFinished(bufIdx: nat) returns (finished: bool)
      requires bufIdx < |iocBuffers| && iocBuffers[bufIdx].addr + iocBuffers[bufIdx].size <= laBuffer.Length
      modifies this`iocBuffers, this`trigOffset, this`laState
      ensures
        var (changed, offset, state, done) := LogicAnalyzer.AcqFinished(old(Value()), old(iocBuffers)[bufIdx]);
        && iocBuffers == old(iocBuffers)[bufIdx := changed]
        && trigOffset == offset && laState == state && finished == done
    {
      if trigOffset == UINT_MAX {
        var bufAddr, bufSize := iocBuffers[bufIdx].addr, LowHalf(iocBuffers[bufIdx].size);
        trigOffset := FindTriggerUnfixed(bufAddr, bufSize);
        assert laBuffer[bufAddr..bufAddr + bufSize] == laBuffer[..][bufAddr..bufAddr + bufSize];
        if trigOffset != UINT_MAX {
          if triggerMask != 0 {
            iocBuffers := iocBuffers[bufIdx := iocBuffers[bufIdx].(size := trigOffset)];
            iocBuffers := iocBuffers[bufIdx := iocBuffers[bufIdx].(last := true)];
            trigOffset := trigOffset + bufAddr;
          }
        }
      } else if iocBuffers[bufIdx].last {
        laState := Acquired;
        return true;
      }
      return false;
    }

    /** ioc_stop */
    method IocStop()
      modifies this`stopAcq
      ensures stopAcq == (busy || old(stopAcq))
    {
      if busy {
        stopAcq := true;
      }
    }

    /** The part of PIOA_Handler without a requested stop. */
    method ServeBuffer() returns (finished: bool)
      requires InMemory(IocValue())
      modifies this`iocBuffers, this`trigOffset, this`laState, this`bufferCurrent, this`bufferIdx, this`rnpr,
        this`rncr, this`endrx, this`pending
      ensures Value().(ioc := if finished && RxBuff(IocValue()) then IocValue().(busy := false) else IocValue())
        == Interrupt(old(Value()))
    {
      hide FindTrigger, LogicAnalyzer.AcqFinished, IoCapture.SetNextBuffer;
      SetNextKeeps(IocValue().(pending := false));
      ghost var before := Value();
      var curBuf := bufferCurrent;
      pending := false;
      SetNextBuffer();
      HandlerSeesTheSame(before, Value(), iocBuffers[curBuf]);
      finished := AcqFinished(curBuf);
    }

    /** PIOA_Handler */
    method PioaHandler()
      requires InMemory(IocValue())
      modifies this
      ensures !stopAcq
      ensures old(stopAcq) ==> Value() == old(Value()).(ioc := HandleStop(old(IocValue())))
      ensures !old(stopAcq) ==> Value() == Interrupt(old(Value()))
    {
      hide Interrupt, InMemory;
      var finished := true;
      if stopAcq {
        stopAcq := false;
      } else {
        finished := ServeBuffer();
      }
      if finished && rcr == 0 && rncr == 0 {
        busy := false;
      }
    }

    /** la_fix_channels */
    method FixChannels(offset: nat, size: nat)
      requires laBuffer.Length == BUFFER_SIZE && offset < BUFFER_SIZE
      modifies laBuffer
      ensures laBuffer[..] == FixedWindow(old(laBuffer[..]), offset, size)
    {
      hide FixOrder, Passes;
      ghost var before := laBuffer[..];
      forall a | 0 <= a < BUFFER_SIZE ensures Passes(a, offset, 0) == 0 {
        NoPasses(a, offset);
      }
      var bufPtr := offset;
      for i := 0 to size
        invariant bufPtr < BUFFER_SIZE && bufPtr == (offset + i) % 65536
        invariant laBuffer[..] == FixedWindow(before, offset, i)
      {
        OnePass(before, laBuffer[..], offset, i, bufPtr);
        laBuffer[bufPtr] := FixOrder(laBuffer[bufPtr]);
        bufPtr := bufPtr + 1;
        if bufPtr > BUFFER_SIZE - 1 {
          bufPtr := 0;
        }
      }
    }

    /** cdc_write_buf_reverted: the bytes in the order in which they are written; None if
        the read leaves the sample memory. */
    method CdcWriteBufReverted(data: nat, size: nat) returns (sent: Option<seq<bv8>>)
      ensures sent == Chunk(laBuffer[..], data, size)
    {
      if data + size > laBuffer.Length {
        return None;
      }
      var bytes: seq<bv8> := [];
      var ptr := data + size;
      while ptr > data
        invariant data <= ptr <= data + size
        invariant |bytes| == data + size - ptr
        invariant forall i :: 0 <= i < |bytes| ==> bytes[i] == laBuffer[data + size - 1 - i]
      {
        ptr := ptr - 1;
        bytes := bytes + [laBuffer[ptr]];
      }
      assert bytes == Reverse(laBuffer[..][data..data + size]);
      return Some(bytes);
    }

    /** la_usb_send */
    method UsbSend(offset: nat, size: nat) returns (sent: Option<seq<bv8>>)
      requires laBuffer.Length == BUFFER_SIZE && offset < BUFFER_SIZE
      ensures sent == UsbSent(laBuffer[..], offset, size)
    {
      if (offset + size) % 0x1_0000_0000 <= BUFFER_SIZE {
        sent := CdcWriteBufReverted(offset, size);
      } else {
        var firstChunk := BUFFER_SIZE - offset;
        var secondChunk := size - firstChunk;
        sent := CdcWriteBufReverted(0, secondChunk);
        if sent.Some? {
          var rest := CdcWriteBufReverted(offset, firstChunk);
          sent := Some(sent.value + rest.value);
          assert laBuffer[..][offset..offset + firstChunk] == laBuffer[..][offset..];
        }
      }
    }

    /** The part of the USB main loop that answers a finished acquisition. The main loop
        runs only while no interrupt is raised. */
    method SendAcquired(readCnt: nat) returns (sent: Option<seq<bv8>>)
      requires laBuffer.Length == BUFFER_SIZE
      requires laState == Acquired ==> trigOffset < BUFFER_SIZE
      modifies this`laState, laBuffer
      ensures old(laState) == Acquired ==> sent == Readout(old(laBuffer[..]), old(trigOffset), readCnt)
      ensures old(laState) == Acquired ==> laState == Idle
      ensures old(laState) != Acquired ==> sent == Some([]) && laState == old(laState)
      ensures old(laState) != Acquired ==> laBuffer[..] == old(laBuffer[..])
    {
      if laState != Acquired {
        return Some([]);
      }
      FixChannels(trigOffset, readCnt);
      sent := UsbSend(trigOffset, readCnt);
      laState := Idle;
    }
  }

  /** One step of la_fix_channels brings the window one cell further. */
  lemma OnePass(before: seq<bv8>, mem: seq<bv8>, offset: nat, i: nat, at: nat)
    requires |before| == BUFFER_SIZE && offset < BUFFER_SIZE && at == (offset + i) % 65536
    requires mem == FixedWindow(before, offset, i)
    ensures mem[at := FixOrder(mem[at])] == FixedWindow(before, offset, i + 1)
  {
    hide FixOrder, Passes;
    var next := mem[at := FixOrder(mem[at])];
    forall a | 0 <= a < BUFFER_SIZE ensures next[a] == FixedWindow(before, offset, i + 1)[a] {
      PassesStep(a, offset, i);
      FixOrderIsInvolution(before[a]);
    }
  }

  lemma SetNextKeeps(c: Ioc<bv8>)
    requires c.idx < |c.bufs|
    ensures
      var next := IoCapture.SetNextBuffer(c);
      next == c.(current := c.idx, idx := next.idx, rnpr := next.rnpr, rncr := next.rncr, endrx := next.endrx)
  {
  }

  /** The finish handler does not look at what the driver changes before calling it. */
  lemma HandlerSeesTheSame(before: La, la: La, buf: IocBuffer)
    requires buf.addr + buf.size <= |la.ioc.mem|
    requires la == before.(ioc := la.ioc) && la.ioc.mem == before.ioc.mem
    ensures LogicAnalyzer.AcqFinished(la, buf) == LogicAnalyzer.AcqFinished(before, buf)
  {
    hide FindTrigger;
  }
}
