/** The channel order of the logic probe (LA_FIX_ORDER in logic_analyzer.c) and the
    trigger condition. */
module Channels {
  import opened Bits

  /** Channels 4 to 7 are wired in reverse. */
  function FixOrder(val: bv8): bv8 {
    (val & 0x0f) | ((val & 0x80) >> 3) | ((val & 0x40) >> 1) | ((val & 0x20) << 1) | ((val & 0x10) << 3)
  }

  lemma FixOrderIsInvolution(val: bv8)
    ensures FixOrder(FixOrder(val)) == val
  {
  }

  /** The input pin of each of the user's channels. */
  function Pin(channel: nat): nat
    requires channel < 8
  {
    if channel < 4 then channel else 11 - channel
  }

  /** What the user's channel shows in a raw sample. */
  predicate Channel(sample: bv8, k: nat)
    requires k < 8
  {
    BitOfByte(sample, Pin(k))
  }

  /** A byte in the user's order: bit k is channel k of the raw sample. */
  predicate InUserOrder(byte: bv8, sample: bv8) {
    forall k :: 0 <= k < 8 ==> BitOfByte(byte, k) == Channel(sample, k)
  }

  lemma FixOrderMasks(x: bv8)
    ensures
      var y := FixOrder(x);
      && (y & 1 != 0) == (x & 1 != 0) && (y & 2 != 0) == (x & 2 != 0)
      && (y & 4 != 0) == (x & 4 != 0) && (y & 8 != 0) == (x & 8 != 0)
      && (y & 16 != 0) == (x & 128 != 0) && (y & 32 != 0) == (x & 64 != 0)
      && (y & 64 != 0) == (x & 32 != 0) && (y & 128 != 0) == (x & 16 != 0)
  {
  }

  /** The macro puts each of the eight channels in its place. */
  lemma FixOrderIsUserOrder(sample: bv8)
    ensures InUserOrder(FixOrder(sample), sample)
  {
    FixOrderMasks(sample);
    BitMasks(sample);
    BitMasks(FixOrder(sample));
    hide FixOrder, BitOfByte;
  }

  /** There is one byte in the user's order for each sample. */
  lemma UserOrderIsFixOrder(byte: bv8, sample: bv8)
    ensures InUserOrder(byte, sample) <==> byte == FixOrder(sample)
  {
    FixOrderIsUserOrder(sample);
    hide FixOrder, BitOfByte;
    if InUserOrder(byte, sample) {
      BitsDetermineByte(byte, FixOrder(sample));
    }
  }

  lemma UserOrderDetermines(byte: bv8, x: bv8, y: bv8)
    requires InUserOrder(byte, x) && InUserOrder(byte, y)
    ensures x == y
  {
    UserOrderIsFixOrder(byte, x);
    UserOrderIsFixOrder(byte, y);
    FixOrderIsInvolution(x);
    FixOrderIsInvolution(y);
  }

  /** The trigger condition, channel by channel: a channel in the mask has the level that
      the value gives, and the value has no level for any other. */
  predicate Hit(sample: bv8, mask: bv8, val: bv8) {
    forall k :: 0 <= k < 8 ==> BitOfByte(val, k) == (BitOfByte(mask, k) && Channel(sample, k))
  }

  /** The condition that the code tests on raw samples. */
  predicate RawHit(sample: bv8, mask: bv8, val: bv8) {
    sample & FixOrder(mask) == FixOrder(val)
  }

  lemma BitOfAnd(x: bv8, y: bv8, k: nat)
    requires k < 8
    ensures BitOfByte(x & y, k) == (BitOfByte(x, k) && BitOfByte(y, k))
  {
  }

  lemma FixOrderOfAnd(x: bv8, y: bv8)
    ensures FixOrder(x & y) == FixOrder(x) & FixOrder(y)
  {
  }

  /** The test on raw samples is the same test in the user's order. */
  lemma RawHitIsMasked(sample: bv8, mask: bv8, val: bv8)
    ensures RawHit(sample, mask, val) <==> FixOrder(sample) & mask == val
  {
    FixOrderOfAnd(FixOrder(sample), mask);
    FixOrderIsInvolution(sample);
    FixOrderIsInvolution(mask);
    FixOrderIsInvolution(val);
    FixOrderIsInvolution(FixOrder(sample) & mask);
  }

  lemma RawHitIsHit(sample: bv8, mask: bv8, val: bv8)
    ensures RawHit(sample, mask, val) <==> Hit(sample, mask, val)
  {
    RawHitIsMasked(sample, mask, val);
    hide RawHit, FixOrder, BitOfByte;
    FixOrderIsUserOrder(sample);
    var tested := FixOrder(sample) & mask;
    forall k | 0 <= k < 8 ensures BitOfByte(tested, k) == (BitOfByte(mask, k) && Channel(sample, k)) {
      BitOfAnd(FixOrder(sample), mask, k);
    }
    if Hit(sample, mask, val) {
      BitsDetermineByte(tested, val);
    }
  }

  const UINT_MAX: nat := 0xFFFF_FFFF

  /** Position of the first raw sample that meets the trigger, or UINT_MAX. Without
      a trigger mask it is the first position, even of an empty buffer. */
  function FindTrigger(buf: seq<bv8>, mask: bv8, val: bv8): nat {
    if mask == 0 then 0 else FindFrom(buf, 0, mask, val)
  }

  function FindFrom(buf: seq<bv8>, from: nat, mask: bv8, val: bv8): nat
    decreases |buf| - from
  {
    if from >= |buf| then UINT_MAX
    else if RawHit(buf[from], mask, val) then from
    else FindFrom(buf, from + 1, mask, val)
  }

  lemma {:induction false} FindFromIsFirst(buf: seq<bv8>, from: nat, mask: bv8, val: bv8)
    requires |buf| < UINT_MAX
    ensures
      var i := FindFrom(buf, from, mask, val);
      if i == UINT_MAX then forall k :: from <= k < |buf| ==> !Hit(buf[k], mask, val)
      else from <= i < |buf| && Hit(buf[i], mask, val) && forall k :: from <= k < i ==> !Hit(buf[k], mask, val)
    decreases |buf| - from
  {
    hide Hit, RawHit;
    if from < |buf| {
      RawHitIsHit(buf[from], mask, val);
      FindFromIsFirst(buf, from + 1, mask, val);
    }
  }

  /** Searching raw samples in hardware order finds the first sample that meets the
      trigger in the user's order, and UINT_MAX exactly when there is none. */
  lemma FindTriggerIsFirstHit(buf: seq<bv8>, mask: bv8, val: bv8)
    requires |buf| < UINT_MAX && mask != 0
    ensures
      var i := FindTrigger(buf, mask, val);
      && (i == UINT_MAX <==> forall k :: 0 <= k < |buf| ==> !Hit(buf[k], mask, val))
      && (i != UINT_MAX ==> i < |buf| && Hit(buf[i], mask, val) && forall k :: 0 <= k < i ==> !Hit(buf[k], mask, val))
  {
    hide Hit, RawHit;
    FindFromIsFirst(buf, 0, mask, val);
  }
}
