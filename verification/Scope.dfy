/** The oscilloscope's interrupt handler (scope.c): tagged conversions of two channels
    are scaled to pixels and sorted into two buffers. */
module Scope {

  const LCD_WIDTH: nat := 128
  /** Entries of one channel's buffer. */
  const CHANNEL_SIZE: nat := 256

  /** struct adc_ch: the tag of its conversions, its first pixel row, and where in the
      common buffer its samples go. */
  datatype Channel = Channel(tag: nat, offsetPixels: nat, base: nat, threshold: nat)

  /** A conversion is a 16-bit word with the channel number in its upper four bits. */
  function Tag(conversion: nat): nat {
    conversion / 4096
  }

  /** RESOLUTION scales the 12-bit readout to the channel's pixel rows. */
  function Scale(conversion: nat, pages: nat, offsetPixels: nat): nat
    requires 0 < pages
  {
    (conversion % 4096) * (pages * 8 - 1) / 4095 + offsetPixels
  }

  /** scope_configure for two channels */
  function TwoChannels(tag0: nat, tag1: nat): (Channel, Channel) {
    (Channel(tag0, 32, 0, 32), Channel(tag1, 0, CHANNEL_SIZE, 32))
  }

  // ----- What the handler should leave for one channel -----

  /** The number of conversions before the first one of neither channel. */
  function FirstForeign(block: seq<nat>, tag0: nat, tag1: nat): (n: nat)
    ensures n <= |block|
    ensures forall k :: 0 <= k < n ==> Tag(block[k]) == tag0 || Tag(block[k]) == tag1
    ensures n < |block| ==> Tag(block[n]) != tag0 && Tag(block[n]) != tag1
    decreases |block|
  {
    if block == [] || (Tag(block[0]) != tag0 && Tag(block[0]) != tag1) then 0
    else 1 + FirstForeign(block[1..], tag0, tag1)
  }

  /** The scaled conversions of a channel among the first n, in order. */
  function Values(block: seq<nat>, n: nat, pages: nat, c: Channel): (vs: seq<nat>)
    requires n <= |block| && 0 < pages
    ensures |vs| <= n
  {
    if n == 0 then []
    else if Tag(block[n - 1]) == c.tag
      then Values(block, n - 1, pages, c) + [Scale(block[n - 1], pages, c.offsetPixels)]
    else Values(block, n - 1, pages, c)
  }

  /** The first of at most 128 samples that reaches the threshold. */
  ghost predicate TriggersAt(vs: seq<nat>, threshold: nat, k: nat) {
    k < |vs| && k < 128 && vs[k] >= threshold && forall j :: 0 <= j < k ==> vs[j] < threshold
  }

  ghost predicate NeverTriggers(vs: seq<nat>, threshold: nat) {
    forall j :: 0 <= j < |vs| && j < 128 ==> vs[j] < threshold
  }

  function StoredCount(vs: seq<nat>, draw: nat): nat {
    if |vs| < draw + 128 then |vs| else draw + 128
  }

  /** A channel's buffer holds its samples up to a full display width from the drawing
      position; that is the first sample at the threshold, or else the first sample. */
  ghost predicate Sorted(vs: seq<nat>, threshold: nat, stored: seq<nat>, draw: nat) {
    && stored <= vs && draw + 128 <= 256
    && |stored| == StoredCount(vs, draw)
    && (TriggersAt(vs, threshold, draw) || (NeverTriggers(vs, threshold) && draw == 0))
  }

  /** The local variables of the handler for one channel. */
  datatype Progress = Progress(counter: nat, found: bool, index: nat)

  ghost predicate SoFar(vs: seq<nat>, threshold: nat, stored: seq<nat>, p: Progress) {
    && Sorted(vs, threshold, stored, p.index) && p.counter == |stored|
    && p.found == TriggersAt(vs, threshold, p.index)
  }

  /** One more sample, kept or dropped as the handler does. */
  function Sample(p: Progress, v: nat, threshold: nat): Progress {
    if p.counter - p.index >= LCD_WIDTH then p
    else if !p.found && v >= threshold then Progress(p.counter + 1, true, p.counter)
    else p.(counter := p.counter + 1)
  }

  lemma SampleKeeps(vs: seq<nat>, threshold: nat, stored: seq<nat>, p: Progress, v: nat)
    requires SoFar(vs, threshold, stored, p)
    ensures p.counter < CHANNEL_SIZE || p.counter - p.index >= LCD_WIDTH
    ensures SoFar(vs + [v], threshold, if p.counter - p.index >= LCD_WIDTH then stored else stored + [v],
      Sample(p, v, threshold))
  {
    var more := vs + [v];
    assert forall j :: 0 <= j < |vs| ==> more[j] == vs[j];
    if p.found {
      assert TriggersAt(more, threshold, p.index);
    } else if p.counter < LCD_WIDTH {
      assert p.counter == |vs|;
      if v >= threshold {
        assert TriggersAt(more, threshold, p.counter);
      }
    }
  }

  /** Half of the common buffer, with a channel's samples so far at its start. */
  ghost predicate Holds(vs: seq<nat>, threshold: nat, half: seq<nat>, p: Progress) {
    p.counter <= CHANNEL_SIZE == |half| && SoFar(vs, threshold, half[..p.counter], p)
  }

  /** What the handler does to the half of the buffer for one more sample. */
  lemma StoringKeeps(vs: seq<nat>, threshold: nat, half: seq<nat>, p: Progress, v: nat)
    requires Holds(vs, threshold, half, p)
    ensures p.counter - p.index >= LCD_WIDTH ==> Holds(vs + [v], threshold, half, p)
    ensures p.counter - p.index < LCD_WIDTH ==>
      p.counter < CHANNEL_SIZE && Holds(vs + [v], threshold, half[p.counter := v], Sample(p, v, threshold))
  {
    hide SoFar;
    SampleKeeps(vs, threshold, half[..p.counter], p, v);
    if p.counter - p.index < LCD_WIDTH {
      assert half[p.counter := v][..p.counter + 1] == half[..p.counter] + [v];
    }
  }

  /** The channel buffers with the drawing positions, updated in place. */
  class Oscilloscope {
    const buffer: array<nat>
    var channel0: Channel
    var channel1: Channel
    var pages: nat
    var draw0: nat
    var draw1: nat
    var buffersReady: bool

    ghost predicate Valid()
      reads this
    {
      && buffer.Length == 2 * CHANNEL_SIZE && 0 < pages
      && channel0.base == 0 && channel1.base == CHANNEL_SIZE && channel0.tag != channel1.tag
    }

    constructor (tag0: nat, tag1: nat)
      requires tag0 != tag1
      ensures Valid() && (channel0, channel1) == TwoChannels(tag0, tag1) && pages == 4 && !buffersReady
    {
      buffer := new nat[2 * CHANNEL_SIZE](_ => 0);
      channel0, channel1 := TwoChannels(tag0, tag1).0, TwoChannels(tag0, tag1).1;
      pages, draw0, draw1, buffersReady := 4, 0, CHANNEL_SIZE, false;
    }

    ghost function Half(base: nat): (half: seq<nat>)
      reads buffer
      requires base + CHANNEL_SIZE <= buffer.Length
      ensures |half| == CHANNEL_SIZE
    {
      buffer[base..base + CHANNEL_SIZE]
    }

    /** Both channels' buffers after a block, with the drawing positions. */
    ghost predicate Shows(block: seq<nat>)
      reads this, buffer
      requires Valid()
    {
      var n := FirstForeign(block, channel0.tag, channel1.tag);
      var vs0, vs1 := Values(block, n, pages, channel0), Values(block, n, pages, channel1);
      && draw0 + LCD_WIDTH <= CHANNEL_SIZE <= draw1 && draw1 + LCD_WIDTH <= 2 * CHANNEL_SIZE
      && Sorted(vs0, channel0.threshold, Half(0)[..StoredCount(vs0, draw0)], draw0)
      && Sorted(vs1, channel1.threshold, Half(CHANNEL_SIZE)[..StoredCount(vs1, draw1 - CHANNEL_SIZE)],
         draw1 - CHANNEL_SIZE)
    }

    /** One conversion of one channel: stored behind the others, unless a full display
        width has been stored from the drawing position on. */
    method Store(base: nat, threshold: nat, p: Progress, v: nat, ghost vs: seq<nat>) returns (next: Progress)
      requires buffer.Length == 2 * CHANNEL_SIZE && (base == 0 || base == CHANNEL_SIZE)
      requires Holds(vs, threshold, Half(base), p)
      modifies buffer
      ensures Holds(vs + [v], threshold, Half(base), next)
      ensures Half(CHANNEL_SIZE - base) == old(Half(CHANNEL_SIZE - base))
    {
      hide SoFar;
      StoringKeeps(vs, threshold, Half(base), p, v);
      next := p;
      if p.counter - p.index >= LCD_WIDTH {
        return;
      }
      buffer[base + p.counter] := v;
      assert Half(base) == old(Half(base))[p.counter := v];
      if !p.found && v >= threshold {
        next := next.(index := p.counter, found := true);
      }
      next := next.(counter := p.counter + 1);
    }

    /** ADC_Handler when the DMA has delivered a block */
    method Handler(block: seq<nat>)
      requires Valid()
      modifies this`draw0, this`draw1, this`buffersReady, buffer
      ensures buffersReady
      ensures old(buffersReady) ==> buffer[..] == old(buffer[..]) && draw0 == old(draw0) && draw1 == old(draw1)
      ensures !old(buffersReady) ==> Shows(block)
    {
      hide Scale, Values, Sorted, Tag, Holds, Half, FirstForeign, StoredCount;
      if buffersReady {
        return;
      }
      var p0, p1 := Progress(0, false, 0), Progress(0, false, 0);
      ghost var n := FirstForeign(block, channel0.tag, channel1.tag);
      NoValuesYet(block, pages, channel0, Half(0));
      NoValuesYet(block, pages, channel1, Half(CHANNEL_SIZE));
      var i := 0;
      while i < |block|
        invariant i <= n
        invariant Holds(Values(block, i, pages, channel0), channel0.threshold, Half(0), p0)
        invariant Holds(Values(block, i, pages, channel1), channel1.threshold, Half(CHANNEL_SIZE), p1)
      {
        var number := Tag(block[i]);
        NextValue(block, i, pages, channel0);
        NextValue(block, i, pages, channel1);
        if channel0.tag == number {
          p0 := Store(0, channel0.threshold, p0, Scale(block[i], pages, channel0.offsetPixels),
            Values(block, i, pages, channel0));
        } else if channel1.tag == number {
          p1 := Store(CHANNEL_SIZE, channel1.threshold, p1, Scale(block[i], pages, channel1.offsetPixels),
            Values(block, i, pages, channel1));
        } else {
          break;
        }
        i := i + 1;
      }
      draw0, draw1 := p0.index, CHANNEL_SIZE + p1.index;
      HoldsSorted(Values(block, n, pages, channel0), channel0.threshold, Half(0), p0);
      HoldsSorted(Values(block, n, pages, channel1), channel1.threshold, Half(CHANNEL_SIZE), p1);
      buffersReady := true;
    }
  }

  lemma NoValuesYet(block: seq<nat>, pages: nat, c: Channel, half: seq<nat>)
    requires 0 < pages && |half| == CHANNEL_SIZE
    ensures Holds(Values(block, 0, pages, c), c.threshold, half, Progress(0, false, 0))
  {
    assert half[..0] == [];
  }

  lemma NextValue(block: seq<nat>, i: nat, pages: nat, c: Channel)
    requires i < |block| && 0 < pages
    ensures Values(block, i + 1, pages, c) ==
      if Tag(block[i]) == c.tag then Values(block, i, pages, c) + [Scale(block[i], pages, c.offsetPixels)]
      else Values(block, i, pages, c)
  {
    hide Scale;
  }

  lemma HoldsSorted(vs: seq<nat>, threshold: nat, half: seq<nat>, p: Progress)
    requires Holds(vs, threshold, half, p)
    ensures p.index + LCD_WIDTH <= CHANNEL_SIZE && StoredCount(vs, p.index) <= |half|
    ensures Sorted(vs, threshold, half[..StoredCount(vs, p.index)], p.index)
  {
  }

  // ----- What the conversions stand for -----

  /** A conversion as the hardware delivers it: a channel number and twelve bits. */
  datatype Reading = Reading(channel: nat, value: nat)

  function WordOf(r: Reading): nat {
    4096 * r.channel + r.value
  }

  lemma WordHasItsTag(r: Reading)
    requires r.value < 4096
    ensures Tag(WordOf(r)) == r.channel && WordOf(r) % 4096 == r.value
  {
  }

  /** The values of one channel, in order. */
  function ReadingsOf(rs: seq<Reading>, n: nat, channel: nat): (values: seq<nat>)
    requires n <= |rs|
    decreases n
  {
    if n == 0 then []
    else ReadingsOf(rs, n - 1, channel) + (if rs[n - 1].channel == channel then [rs[n - 1].value] else [])
  }

  /** The pixel of a value: zero is on the channel's first row, 4095 on its last, and any
      other on the row that its share of the way reaches. */
  predicate IsPixel(pixel: nat, value: nat, pages: nat, offsetPixels: nat) {
    && offsetPixels <= pixel
    && 4095 * (pixel - offsetPixels) <= value * (8 * pages - 1) < 4095 * (pixel - offsetPixels + 1)
  }

  lemma ScaleIsPixel(conversion: nat, pages: nat, offsetPixels: nat)
    requires 0 < pages
    ensures IsPixel(Scale(conversion, pages, offsetPixels), conversion % 4096, pages, offsetPixels)
  {
    QuotientIs(conversion % 4096 * (pages * 8 - 1));
  }

  lemma QuotientIs(x: nat)
    ensures 4095 * (x / 4095) <= x < 4095 * (x / 4095 + 1)
  {
  }

  /** The samples of a channel are the pixels of its values, one for each, in order. */
  lemma {:induction false} ValuesArePixels(block: seq<nat>, rs: seq<Reading>, n: nat, pages: nat, c: Channel)
    requires |block| == |rs| && n <= |rs| && 0 < pages
    requires forall i :: 0 <= i < |rs| ==> rs[i].value < 4096 && block[i] == WordOf(rs[i])
    ensures
      var pixels, values := Values(block, n, pages, c), ReadingsOf(rs, n, c.tag);
      |pixels| == |values| && forall i :: 0 <= i < |values| ==> IsPixel(pixels[i], values[i], pages, c.offsetPixels)
    decreases n
  {
    hide Scale, IsPixel, Tag, WordOf;
    if n != 0 {
      WordHasItsTag(rs[n - 1]);
      ScaleIsPixel(block[n - 1], pages, c.offsetPixels);
      ValuesArePixels(block, rs, n - 1, pages, c);
    }
  }

  // ----- Pixel rows -----

  /** A channel's samples stay on its own rows of the display. */
  lemma {:induction false} ValuesStayOnRows(block: seq<nat>, n: nat, pages: nat, c: Channel)
    requires n <= |block| && 0 < pages
    ensures forall v :: v in Values(block, n, pages, c) ==> c.offsetPixels <= v < c.offsetPixels + pages * 8
    decreases n
  {
    if n != 0 {
      ValuesStayOnRows(block, n - 1, pages, c);
      ScaleStaysOnRows(block[n - 1], pages, c.offsetPixels);
    }
  }

  lemma ProductBound(x: nat, bound: nat, y: nat)
    requires x <= bound
    ensures x * y <= bound * y
  {
  }

  lemma QuotientBound(x: nat, y: nat)
    requires x <= 4095 * y
    ensures 0 <= x / 4095 <= y
  {
  }

  lemma ScaleStaysOnRows(conversion: nat, pages: nat, offsetPixels: nat)
    requires 0 < pages
    ensures offsetPixels <= Scale(conversion, pages, offsetPixels) < offsetPixels + pages * 8
  {
    var x, rows := conversion % 4096, pages * 8 - 1;
    ProductBound(x, 4095, rows);
    QuotientBound(x * rows, rows);
  }

  /** With the two configured channels the traces never share a row, and the common
      threshold of 32 decides nothing: every sample of the first channel reaches it
      and none of the second does, so both traces are drawn from their first sample. */
  lemma TwoTracesAreApart(block: seq<nat>, n: nat, tag0: nat, tag1: nat, stored0: seq<nat>, stored1: seq<nat>,
      draw0: nat, draw1: nat)
    requires n <= |block|
    requires
      var (c0, c1) := TwoChannels(tag0, tag1);
      && Sorted(Values(block, n, 4, c0), c0.threshold, stored0, draw0)
      && Sorted(Values(block, n, 4, c1), c1.threshold, stored1, draw1)
    ensures forall v, w :: v in stored0 && w in stored1 ==> w < 32 <= v < 64
    ensures draw0 == 0 && draw1 == 0
  {
    hide Scale, Values;
    var (c0, c1) := TwoChannels(tag0, tag1);
    ValuesStayOnRows(block, n, 4, c0);
    ValuesStayOnRows(block, n, 4, c1);
    var vs0, vs1 := Values(block, n, 4, c0), Values(block, n, 4, c1);
    assert vs0 != [] ==> vs0[0] in vs0;
    assert draw1 < |vs1| ==> vs1[draw1] in vs1;
    assert forall v :: v in stored0 ==> v in vs0;
    assert forall w :: w in stored1 ==> w in vs1;
  }
}
