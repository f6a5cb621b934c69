/** The double-index FIFO (common/services/fifo): read and write indices run over
    twice the buffer size, so that full and empty are told apart and every slot
    of the buffer is used. */
module Fifo {
  import opened Bytes
  import opened Options
  import opened Remainders

  datatype Status = Ok | Overflow | Underflow

  /** What fifo_init asserts of the size. */
  predicate ValidSize(size: nat) {
    0 < size <= 128 && And(size, size - 1) == 0
  }

  /** Masking with a power of two less one is the remainder. The hypothesis is
      the test for a power of two that fifo_init makes. */
  lemma {:induction false} MaskIsRemainder(x: nat, n: nat)
    requires 0 < n && And(n, n - 1) == 0
    ensures And(x, n - 1) == x % n
    decreases n
  {
    hide And;
    PowerOfTwoHalves(n);
    AndStep(x, n - 1);
    if n != 1 {
      var m := n / 2;
      assert (n - 1) / 2 == m - 1 && (n - 1) % 2 == 1;
      MaskIsRemainder(x / 2, m);
      RemainderByHalf(x, m);
    }
  }

  /** A power of two, by the test of fifo_init, is one or twice a power of two. */
  lemma PowerOfTwoHalves(n: nat)
    requires 0 < n && And(n, n - 1) == 0
    ensures n == 1 || (n % 2 == 0 && And(n / 2, n / 2 - 1) == 0)
  {
    hide And;
    AndStep(n, n - 1);
    AndSelf(n / 2);
    if n % 2 == 1 {
      assert n / 2 == (n - 1) / 2;
    } else {
      assert (n - 1) / 2 == n / 2 - 1;
    }
  }

  lemma {:induction false} PowersPass(k: nat)
    ensures 0 < Power(k) && And(Power(k), Power(k) - 1) == 0
    decreases k
  {
    if k != 0 {
      PowersPass(k - 1);
      hide And;
      AndStep(Power(k), Power(k) - 1);
      assert (Power(k) - 1) / 2 == Power(k - 1) - 1;
    } else {
      AndStep(1, 0);
    }
  }

  lemma {:induction false} OnlyPowersPass(n: nat, k: nat) returns (j: nat)
    requires 0 < n <= Power(k) && And(n, n - 1) == 0
    ensures j <= k && n == Power(j)
    decreases n
  {
    hide And;
    PowerOfTwoHalves(n);
    if n == 1 {
      j := 0;
    } else {
      j := OnlyPowersPass(n / 2, k - 1);
      j := j + 1;
    }
  }

  lemma {:induction false} PowersGrow(j: nat, k: nat)
    requires j <= k
    ensures Power(j) <= Power(k)
    decreases k
  {
    if j < k {
      PowersGrow(j, k - 1);
    }
  }

  /** The sizes that fifo_init allows are the powers of two up to 128. */
  lemma SizesArePowers(size: nat)
    ensures ValidSize(size) <==> exists j :: 0 <= j <= 7 && size == Power(j)
  {
    hide And;
    assert Power(3) == 8 && Power(7) == 16 * Power(3);
    if ValidSize(size) {
      var j := OnlyPowersPass(size, 7);
    }
    forall j: nat | j <= 7 && size == Power(j) ensures ValidSize(size) {
      PowersPass(j);
      PowersGrow(j, 7);
    }
  }

  lemma {:induction false} DividesPower(n: nat, k: nat)
    requires 0 < n <= Power(k) && And(n, n - 1) == 0
    ensures Power(k) % n == 0
    decreases n
  {
    hide And;
    PowerOfTwoHalves(n);
    if n != 1 {
      DividesPower(n / 2, k - 1);
      DoubleMultiple(Power(k - 1), n / 2);
    }
  }

  // ----- The index expressions of the source, on 8-bit operands -----

  function Next(index: nat, mask: nat): nat {
    And((index + 1) % 256, mask)
  }

  /** The mask is shifted right once to select the slot. */
  function Slot(index: nat, mask: nat): nat {
    And(index, mask / 2)
  }

  function Used(writeIndex: nat, readIndex: nat, mask: nat): nat {
    And((writeIndex - readIndex) % 256, mask)
  }

  lemma DoubleIsPower(size: nat)
    requires ValidSize(size)
    ensures And(2 * size, 2 * size - 1) == 0
    ensures 256 % (2 * size) == 0
  {
    hide And;
    assert (2 * size - 1) / 2 == size - 1;
    AndStep(2 * size, 2 * size - 1);
    assert Power(4) == 16 && Power(8) == 16 * Power(4);
    DividesPower(2 * size, 8);
  }

  /** The masked successor of an index, also across the wrap of its eight bits. */
  lemma NextIsSuccessor(n: nat, index: nat)
    requires 0 < n <= 256 && And(n, n - 1) == 0 && index < n
    ensures Next(index, n - 1) == (index + 1) % n
  {
    hide And;
    MaskIsRemainder((index + 1) % 256, n);
    if index + 1 == n {
      RemainderIs(n, n, 1, 0);
    }
  }

  lemma SlotIsPosition(size: nat, index: nat)
    requires 0 < size && And(size, size - 1) == 0
    ensures Slot(index, 2 * size - 1) == index % size
  {
    hide And;
    assert (2 * size - 1) / 2 == size - 1;
    MaskIsRemainder(index, size);
  }

  /** With indices that count modulo twice the size, the masked expressions are
      the plain ones: successor and slot. */
  lemma IndexArithmetic(size: nat, count: nat)
    requires ValidSize(size)
    ensures Next(count % (2 * size), 2 * size - 1) == (count + 1) % (2 * size)
    ensures Slot(count % (2 * size), 2 * size - 1) == count % size
  {
    hide And, Next, Slot;
    var n := 2 * size;
    DoubleIsPower(size);
    NextIsSuccessor(n, count % n);
    RemainderOfSuccessor(count, n);
    SlotIsPosition(size, count % n);
    SlotOfIndex(count, size);
  }

  lemma UsedIsDifference(size: nat, written: nat, read: nat)
    requires ValidSize(size) && read <= written <= read + size
    ensures Used(written % (2 * size), read % (2 * size), 2 * size - 1) == written - read
  {
    hide And;
    var n := 2 * size;
    DoubleIsPower(size);
    var d := written % n - read % n;
    MaskIsRemainder(d % 256, n);
    RemainderOfDifference(written, read, n);
    AddMultiple(d, n, 256);
    assert d % 256 == d || d % 256 == d + 256;
  }

  // ----- The queue that a buffer and two counts represent -----

  function SlotOf(count: nat, size: nat): (r: nat)
    requires 0 < size
    ensures r < size
  {
    count % size
  }

  /** The elements numbered read to written, oldest first. */
  function Queued<T>(buf: seq<T>, read: nat, written: nat): (s: seq<T>)
    requires 0 < |buf| && read <= written
    ensures |s| == written - read
  {
    seq(written - read, i requires 0 <= i < written - read => buf[SlotOf(read + i, |buf|)])
  }

  lemma StoreAppends<T>(buf: seq<T>, read: nat, written: nat, item: T)
    requires read <= written < read + |buf|
    ensures Queued(buf[SlotOf(written, |buf|) := item], read, written + 1) == Queued(buf, read, written) + [item]
  {
    forall k: nat | read <= k < written ensures SlotOf(k, |buf|) != SlotOf(written, |buf|) {
      SlotsDiffer(written, k, |buf|);
    }
    hide SlotOf;
    var stored := Queued(buf[SlotOf(written, |buf|) := item], read, written + 1);
    var expected := Queued(buf, read, written) + [item];
    assert |stored| == |expected|;
    forall i | 0 <= i < |stored| ensures stored[i] == expected[i] {
      assert stored[i] == buf[SlotOf(written, |buf|) := item][SlotOf(read + i, |buf|)];
    }
  }

  /** struct fifo_desc with its buffer. The ghost counters number all elements
      ever pushed and pulled since the FIFO was last empty at index zero. */
  class Fifo<T> {
    const buffer: array<T>
    const size: nat
    const mask: nat
    var readIndex: nat
    var writeIndex: nat
    ghost var read: nat
    ghost var written: nat

    ghost predicate Valid()
      reads this, buffer
    {
      && ValidSize(size) && mask == 2 * size - 1 && buffer.Length == size
      && read <= written <= read + size
      && readIndex == read % (2 * size)
      && writeIndex == written % (2 * size)
    }

    /** The queued elements, oldest first. */
    ghost function Contents(): (s: seq<T>)
      reads this, buffer
      requires Valid()
      ensures |s| <= size
    {
      Queued(buffer[..], read, written)
    }

    constructor (buffer: array<T>)
      requires ValidSize(buffer.Length)
      ensures Valid() && this.buffer == buffer && size == buffer.Length && Contents() == []
    {
      this.buffer := buffer;
      size := buffer.Length;
      mask := 2 * buffer.Length - 1;
      readIndex, writeIndex := 0, 0;
      read, written := 0, 0;
    }

    method UsedSize() returns (n: nat)
      requires Valid()
      ensures n == |Contents()|
    {
      hide ValidSize, Used;
      UsedIsDifference(size, written, read);
      n := Used(writeIndex, readIndex, mask);
    }

    method FreeSize() returns (n: nat)
      requires Valid()
      ensures n == size - |Contents()|
    {
      var used := UsedSize();
      n := size - used;
    }

    method IsEmpty() returns (empty: bool)
      requires Valid()
      ensures empty <==> Contents() == []
    {
      hide ValidSize, Used;
      UsedIsDifference(size, written, read);
      UsedIsDifference(size, read, read);
      empty := writeIndex == readIndex;
    }

    method IsFull() returns (full: bool)
      requires Valid()
      ensures full <==> |Contents()| == size
    {
      var used := UsedSize();
      full := used == size;
    }

    method Push(item: T) returns (status: Status)
      requires Valid()
      modifies this`writeIndex, this`written, buffer
      ensures Valid()
      ensures status == if |old(Contents())| == size then Overflow else Ok
      ensures Contents() == if status == Ok then old(Contents()) + [item] else old(Contents())
      ensures status == Overflow ==> buffer[..] == old(buffer[..])
    {
      hide And, Slot, Next, Queued;
      var full := IsFull();
      if full {
        return Overflow;
      }
      IndexArithmetic(size, written);
      StoreAppends(buffer[..], read, written, item);
      ghost var stored := buffer[..][SlotOf(written, size) := item];
      buffer[Slot(writeIndex, mask)] := item;
      assert buffer[..] == stored;
      writeIndex := Next(writeIndex, mask);
      written := written + 1;
      status := Ok;
    }

    /** On underflow the caller's item is left alone: there is no result. */
    method Pull() returns (status: Status, item: Option<T>)
      requires Valid()
      modifies this`readIndex, this`read
      ensures Valid()
      ensures old(Contents()) == [] ==> status == Underflow && item == None && Contents() == []
      ensures old(Contents()) != [] ==>
        status == Ok && item == Some(old(Contents())[0]) && Contents() == old(Contents())[1..]
    {
      hide And, Slot, Next;
      var empty := IsEmpty();
      if empty {
        return Underflow, None;
      }
      IndexArithmetic(size, read);
      assert Queued(buffer[..], read, written)[0] == buffer[SlotOf(read + 0, size)];
      item := Some(buffer[Slot(readIndex, mask)]);
      readIndex := Next(readIndex, mask);
      read := read + 1;
      status := Ok;
    }

    method Peek() returns (item: T)
      requires Valid()
      ensures Contents() != [] ==> item == Contents()[0]
    {
      hide And, Slot, Next;
      IndexArithmetic(size, read);
      assert Contents() != [] ==> Contents()[0] == buffer[SlotOf(read + 0, size)];
      item := buffer[Slot(readIndex, mask)];
    }

    method Flush()
      requires Valid()
      modifies this
      ensures Valid() && Contents() == []
    {
      writeIndex := 0;
      readIndex := writeIndex;
      read, written := 0, 0;
    }
  }
}
