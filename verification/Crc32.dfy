/** The CRC-32 service (common/services/crc32): a word-at-a-time CRC, proved
    against the bit-serial shift register of clause 3.2.9 of IEEE Std 802.3. */
module Crc32 {
  import opened Bits
  import opened Folds

  const POLYNOMIAL: bv32 := 0xEDB88320

  function Complement(crc: bv32): bv32 {
    crc ^ 0xffff_ffff
  }

  // ----- Reference: the standard's shift register, one message bit at a time -----

  /** The feedback is the XOR of the register's output bit and the message bit. */
  function ShiftBit(crc: bv32, bit: bool): bv32 {
    if (crc & 1 == 1) != bit then (crc >> 1) ^ POLYNOMIAL else crc >> 1
  }

  /** Octets are transmitted least significant bit first. */
  function BitsOf(b: bv8): seq<bool> {
    [b & 1 != 0, b & 2 != 0, b & 4 != 0, b & 8 != 0, b & 16 != 0, b & 32 != 0, b & 64 != 0, b & 128 != 0]
  }

  function ShiftByte(crc: bv32, b: bv8): bv32 {
    Fold(ShiftBit, crc, BitsOf(b))
  }

  /** The CRC of data, continuing from the CRC `seed` of what came before it. */
  function Crc(data: seq<bv8>, seed: bv32): bv32 {
    Complement(Fold(ShiftByte, Complement(seed), data))
  }

  // ----- The register step of the implementation -----

  function Step(crc: bv32): bv32 {
    if crc & 1 == 1 then (crc >> 1) ^ POLYNOMIAL else crc >> 1
  }

  /** The little-endian word made of up to four bytes. */
  function Word(bytes: seq<bv8>): bv32
    requires |bytes| <= 4
    decreases |bytes|
  {
    if bytes == [] then 0 else Append(bytes[0], Word(bytes[1..]))
  }

  function Append(low: bv8, high: bv32): bv32 {
    low as bv32 | (high << 8)
  }

  lemma StepInjective(x: bv32, y: bv32)
    requires Step(x) == Step(y)
    ensures x == y
  {
  }

  function LowByte(w: bv32): bv8 {
    (w & 0xff) as bv8
  }

  function DropByte(w: bv32): bv32 {
    w >> 8
  }

  function StepByte(crc: bv32): bv32 {
    Iterate(Step, crc, 8)
  }

  lemma XorSwaps(x: bv32, y: bv32, z: bv32)
    ensures (x ^ y) ^ z == (x ^ z) ^ y
  {
  }

  lemma ShiftBitParts(crc: bv32, bit: bool)
    ensures ShiftBit(crc, bit) == if LowBit(crc) != bit then Xor(DropBit(crc), POLYNOMIAL) else DropBit(crc)
    ensures Step(crc) == if LowBit(crc) then Xor(DropBit(crc), POLYNOMIAL) else DropBit(crc)
  {
  }

  /** One register step consumes the low bit of the word mixed in. */
  lemma StepFeedsLowBit(crc: bv32, w: bv32)
    ensures Step(Xor(crc, w)) == Xor(ShiftBit(crc, LowBit(w)), DropBit(w))
  {
    ShiftBitParts(crc, LowBit(w));
    ShiftBitParts(Xor(crc, w), false);
    ShiftOfXor(crc, w);
    LowBitOfXor(crc, w);
    XorSwaps(DropBit(crc), DropBit(w), POLYNOMIAL);
    assert Xor(Xor(DropBit(crc), DropBit(w)), POLYNOMIAL) == Xor(Xor(DropBit(crc), POLYNOMIAL), DropBit(w));
    hide Step, ShiftBit, Xor, LowBit, DropBit;
  }

  lemma BitTests(w: bv32)
    ensures LowBit(w) == (LowByte(w) & 1 != 0)
    ensures LowBit(w >> 1) == (LowByte(w) & 2 != 0)
    ensures LowBit(w >> 2) == (LowByte(w) & 4 != 0)
    ensures LowBit(w >> 3) == (LowByte(w) & 8 != 0)
    ensures LowBit(w >> 4) == (LowByte(w) & 16 != 0)
    ensures LowBit(w >> 5) == (LowByte(w) & 32 != 0)
    ensures LowBit(w >> 6) == (LowByte(w) & 64 != 0)
    ensures LowBit(w >> 7) == (LowByte(w) & 128 != 0)
  {
  }

  lemma DropEightBits(w: bv32)
    ensures Iterate(DropBit, w, 8) == DropByte(w)
    ensures Outputs(LowBit, DropBit, w, 8) == BitsOf(LowByte(w))
  {
    assert DropByte(w) == w >> 8;
    hide LowByte, LowBit, DropBit, DropByte;
    Drops(w);
    BitTests(w);
    Eight(LowBit, DropBit, w, w >> 4);
  }

  /** Eight register steps consume the low byte of the word mixed in. */
  lemma StepByteFeedsLowByte(crc: bv32, w: bv32)
    ensures StepByte(Xor(crc, w)) == Xor(ShiftByte(crc, LowByte(w)), DropByte(w))
  {
    hide Step, Xor, ShiftBit, LowBit, DropBit;
    forall s, w ensures Step(Xor(s, w)) == Xor(ShiftBit(s, LowBit(w)), DropBit(w)) {
      StepFeedsLowBit(s, w);
    }
    StepsFeedOutputs(Step, ShiftBit, Xor, LowBit, DropBit, crc, w, 8);
    DropEightBits(w);
  }

  // ----- Words -----

  lemma {:induction false} WordFits(bytes: seq<bv8>)
    requires |bytes| < 4
    ensures Word(bytes) & 0xff00_0000 == 0
    ensures |bytes| <= 2 ==> Word(bytes) & 0xffff_0000 == 0
    ensures |bytes| <= 1 ==> Word(bytes) & 0xffff_ff00 == 0
    decreases |bytes|
  {
    if bytes != [] {
      WordFits(bytes[1..]);
    }
  }

  lemma AppendPeel(low: bv8, high: bv32)
    requires high & 0xff00_0000 == 0
    ensures LowByte(Append(low, high)) == low
    ensures DropByte(Append(low, high)) == high
  {
  }

  lemma WordPeel(bytes: seq<bv8>)
    requires 0 < |bytes| <= 4
    ensures LowByte(Word(bytes)) == bytes[0]
    ensures DropByte(Word(bytes)) == Word(bytes[1..])
  {
    hide LowByte, DropByte, Append;
    WordFits(bytes[1..]);
    AppendPeel(bytes[0], Word(bytes[1..]));
  }

  lemma {:induction false} WordOutputs(bytes: seq<bv8>)
    requires |bytes| <= 4
    ensures Outputs(LowByte, DropByte, Word(bytes), |bytes|) == bytes
    ensures Iterate(DropByte, Word(bytes), |bytes|) == 0
    decreases |bytes|
  {
    hide LowByte, DropByte;
    if bytes != [] {
      WordPeel(bytes);
      WordOutputs(bytes[1..]);
    }
  }

  /** Mixing a word of up to four bytes into the register and stepping eight
      times per byte is the reference on those bytes. */
  lemma WordStepsAreReference(crc: bv32, bytes: seq<bv8>)
    requires |bytes| <= 4
    ensures Iterate(Step, Xor(crc, Word(bytes)), 8 * |bytes|) == Fold(ShiftByte, crc, bytes)
  {
    hide Step, Xor, ShiftByte, StepByte, LowByte, DropByte, Word;
    forall s, w ensures StepByte(Xor(s, w)) == Xor(ShiftByte(s, LowByte(w)), DropByte(w)) {
      StepByteFeedsLowByte(s, w);
    }
    forall s ensures StepByte(s) == Iterate(Step, s, 8) {
      StepByteIsEightSteps(s);
    }
    IterateBlocks(Step, StepByte, 8, Xor(crc, Word(bytes)), |bytes|);
    StepsFeedOutputs(StepByte, ShiftByte, Xor, LowByte, DropByte, crc, Word(bytes), |bytes|);
    WordOutputs(bytes);
    XorZero(Fold(ShiftByte, crc, bytes));
  }

  lemma StepByteIsEightSteps(crc: bv32)
    ensures StepByte(crc) == Iterate(Step, crc, 8)
  {
  }

  lemma XorZero(crc: bv32)
    ensures Xor(crc, 0) == crc
  {
  }

  /** The code's shift by 8 * (4 - n) bits, which moves the last n bytes
      of a word to its bottom. */
  function LastBytes(word: bv32, n: nat): bv32
    requires 1 <= n < 4
  {
    if n == 1 then word >> 24 else if n == 2 then word >> 16 else word >> 8
  }

  lemma DropBytes(w: bv32)
    ensures DropByte(w) == w >> 8
    ensures DropByte(w >> 8) == w >> 16
    ensures DropByte(w >> 16) == w >> 24
  {
  }

  lemma LastBytesDrop(w: bv32)
    ensures LastBytes(w, 3) == DropByte(w)
    ensures LastBytes(w, 2) == DropByte(DropByte(w))
    ensures LastBytes(w, 1) == DropByte(DropByte(DropByte(w)))
  {
    hide DropByte;
    DropBytes(w);
  }

  /** Shifting a word right keeps its last n bytes. */
  lemma ShiftKeepsLastBytes(b: seq<bv8>, n: nat)
    requires |b| == 4 && 1 <= n < 4
    ensures LastBytes(Word(b), n) == Word(b[4 - n..])
  {
    hide LowByte, DropByte, Word, LastBytes;
    WordPeel(b);
    WordPeel(b[1..]);
    WordPeel(b[2..]);
    assert b[1..][1..] == b[2..] && b[2..][1..] == b[3..];
    LastBytesDrop(Word(b));
  }

  /** The code's mask of the first n bytes of a word. */
  function FirstBytesMask(n: nat): bv32
    requires 1 <= n < 4
  {
    0xffff_ffff >> (8 * (4 - n))
  }

  lemma MaskAppend(low: bv8, high: bv32, mask: bv32)
    ensures Append(low, high) & ((mask << 8) | 0xff) == Append(low, high & mask)
  {
  }

  lemma Masks()
    ensures FirstBytesMask(1) == 0xff
    ensures FirstBytesMask(2) == (FirstBytesMask(1) << 8) | 0xff
    ensures FirstBytesMask(3) == (FirstBytesMask(2) << 8) | 0xff
  {
  }

  lemma MaskOneByte(low: bv8, high: bv32)
    ensures Append(low, high) & 0xff == Append(low, 0)
  {
  }

  /** Masking a word keeps its first n bytes. */
  lemma {:induction false} MaskKeepsFirstBytes(b: seq<bv8>, n: nat)
    requires 1 <= n < 4 && n <= |b| <= 4
    ensures Word(b) & FirstBytesMask(n) == Word(b[..n])
    decreases n
  {
    hide Append, FirstBytesMask;
    assert b[..n][1..] == b[1..][..n - 1];
    Masks();
    if n == 1 {
      MaskOneByte(b[0], Word(b[1..]));
    } else {
      MaskKeepsFirstBytes(b[1..], n - 1);
      MaskAppend(b[0], Word(b[1..]), FirstBytesMask(n - 1));
    }
  }

  // ----- The implementation -----

  method RecalculateBytes(data: bv32, crc: bv32, bytes: nat) returns (r: bv32)
    requires bytes <= 4
    ensures r == Iterate(Step, Xor(crc, data), 8 * bytes)
  {
    hide Step;
    r := crc ^ data;
    var bit := 8 * bytes;
    while bit > 0
      invariant 0 <= bit
      invariant Iterate(Step, r, bit) == Iterate(Step, Xor(crc, data), 8 * bytes)
    {
      ghost var before := r;
      if r & 1 == 1 {
        r := (r >> 1) ^ POLYNOMIAL;
      } else {
        r := r >> 1;
      }
      StepIs(before, r);
      bit := bit - 1;
    }
  }

  lemma StepIs(crc: bv32, next: bv32)
    requires next == if crc & 1 == 1 then (crc >> 1) ^ POLYNOMIAL else crc >> 1
    ensures Step(crc) == next
  {
  }

  /** The bytes that take part in the calculation. A block shorter than a word
      is taken from the end of the first aligned word, wherever it starts. */
  function BytesUsed(mem: seq<bv8>, data: nat, length: nat): (r: seq<bv8>)
    requires |mem| % 4 == 0 && data + length <= |mem|
    ensures |r| == length
  {
    if 0 < length < 4 then
      var wordEnd := data - data % 4 + 4;
      mem[wordEnd - length..wordEnd]
    else
      mem[data..data + length]
  }

  /** Stepping through one word's bytes extends a run of the reference. */
  lemma Extend(seed: bv32, mem: seq<bv8>, start: nat, from: nat, to: nat, word: bv32)
    requires start <= from <= to <= |mem| && to - from <= 4
    requires word == Word(mem[from..to])
    ensures Iterate(Step, Xor(Fold(ShiftByte, seed, mem[start..from]), word), 8 * (to - from))
         == Fold(ShiftByte, seed, mem[start..to])
  {
    hide Step, Xor, ShiftByte, Word;
    WordStepsAreReference(Fold(ShiftByte, seed, mem[start..from]), mem[from..to]);
    FoldAppend(ShiftByte, seed, mem[start..from], mem[from..to]);
    assert mem[start..from] + mem[from..to] == mem[start..to];
  }

  /** The whole words and trailing bytes of a block that starts on a word boundary. */
  method RecalculateAligned(mem: seq<bv8>, start: nat, length: nat, crc: bv32) returns (r: bv32)
    requires |mem| % 4 == 0 && start % 4 == 0 && start + length <= |mem|
    ensures r == Fold(ShiftByte, crc, mem[start..start + length])
  {
    hide Step, ShiftByte, Word, FirstBytesMask, Xor, Fold, Iterate;
    var wordPtr := start;
    var words := length / 4;
    var remaining := length % 4;
    assert remaining != 0 ==> start + 4 * words + 4 <= |mem|;
    FoldEmpty(ShiftByte, crc, mem[start..start]);
    r := crc;
    while words != 0
      invariant 0 <= words && start <= wordPtr
      invariant wordPtr + 4 * words + remaining == start + length
      invariant remaining != 0 ==> wordPtr + 4 * words + 4 <= |mem|
      invariant r == Fold(ShiftByte, crc, mem[start..wordPtr])
      decreases words
    {
      var word := Word(mem[wordPtr..wordPtr + 4]);
      Extend(crc, mem, start, wordPtr, wordPtr + 4, word);
      wordPtr := wordPtr + 4;
      r := RecalculateBytes(word, r, 4);
      words := words - 1;
    }

    if remaining != 0 {
      var bytes := mem[wordPtr..wordPtr + 4];
      var word := Word(bytes) & FirstBytesMask(remaining);
      MaskKeepsFirstBytes(bytes, remaining);
      assert bytes[..remaining] == mem[wordPtr..wordPtr + remaining];
      Extend(crc, mem, start, wordPtr, wordPtr + remaining, word);
      r := RecalculateBytes(word, r, remaining);
    }
  }

  /** How many bytes the code takes from the first word. */
  function HeadLength(data: nat, length: nat): (r: nat)
    ensures r <= length && r < 4
  {
    if length < 4 then length else (4 - data) % 4
  }

  /** The block starts on a word boundary, or is empty. */
  lemma UsedWithoutHead(mem: seq<bv8>, data: nat, length: nat)
    requires |mem| % 4 == 0 && data + length <= |mem| && HeadLength(data, length) == 0
    ensures length == 0 || data % 4 == 0
    ensures BytesUsed(mem, data, length) == mem[data..data + length]
  {
  }

  lemma WordEndIsInside(size: nat, data: nat)
    requires size % 4 == 0 && data < size
    ensures data - data % 4 + 4 <= size
  {
  }

  lemma WordsAreAligned(data: nat)
    ensures (data - data % 4) % 4 == 0 && (data - data % 4 + 4) % 4 == 0
  {
  }

  lemma HeadOfLongBlock(data: nat, length: nat)
    requires 4 <= length && HeadLength(data, length) != 0
    ensures data + HeadLength(data, length) == data - data % 4 + 4
  {
  }

  /** A block of a word or more: its head ends on the first word boundary. */
  lemma UsedOfLongBlock(mem: seq<bv8>, data: nat, length: nat)
    requires |mem| % 4 == 0 && data + length <= |mem| && 4 <= length && HeadLength(data, length) != 0
    ensures
      var head, wordEnd := HeadLength(data, length), data - data % 4 + 4;
      && wordEnd + (length - head) <= |mem|
      && BytesUsed(mem, data, length) == mem[wordEnd - head..wordEnd] + mem[wordEnd..wordEnd + (length - head)]
  {
    hide HeadLength, BytesUsed;
    HeadOfLongBlock(data, length);
    LongBlockIsUsed(mem, data, length);
    SplitAt(mem, data, data + HeadLength(data, length), data + length);
  }

  lemma LongBlockIsUsed(mem: seq<bv8>, data: nat, length: nat)
    requires |mem| % 4 == 0 && data + length <= |mem| && 4 <= length
    ensures BytesUsed(mem, data, length) == mem[data..data + length]
  {
  }

  lemma SplitAt(mem: seq<bv8>, from: nat, middle: nat, end: nat)
    requires from <= middle <= end <= |mem|
    ensures mem[from..end] == mem[from..middle] + mem[middle..end]
  {
  }

  /** A block of one to three bytes: all of them are taken from the first word. */
  lemma UsedOfShortBlock(mem: seq<bv8>, data: nat, length: nat)
    requires |mem| % 4 == 0 && data + length <= |mem| && 0 < length < 4
    ensures
      var wordEnd := data - data % 4 + 4;
      && HeadLength(data, length) == length && wordEnd <= |mem|
      && BytesUsed(mem, data, length) == mem[wordEnd - length..wordEnd] + mem[wordEnd..wordEnd]
  {
    WordEndIsInside(|mem|, data);
    var wordEnd := data - data % 4 + 4;
    assert mem[wordEnd..wordEnd] == [];
  }

  lemma UsedSplits(mem: seq<bv8>, data: nat, length: nat)
    requires |mem| % 4 == 0 && data + length <= |mem|
    ensures
      var head, wordEnd := HeadLength(data, length), data - data % 4 + 4;
      if head == 0 then
        (length == 0 || data % 4 == 0) && BytesUsed(mem, data, length) == mem[data..data + length]
      else
        && wordEnd + (length - head) <= |mem|
        && BytesUsed(mem, data, length) == mem[wordEnd - head..wordEnd] + mem[wordEnd..wordEnd + (length - head)]
  {
    hide HeadLength, BytesUsed;
    if HeadLength(data, length) == 0 {
      UsedWithoutHead(mem, data, length);
    } else if 4 <= length {
      UsedOfLongBlock(mem, data, length);
    } else {
      UsedOfShortBlock(mem, data, length);
    }
  }

  /** mem is the whole memory, from an aligned address to an aligned address. */
  method Recalculate(mem: seq<bv8>, data: nat, length: nat, crc: bv32) returns (r: bv32)
    requires |mem| % 4 == 0 && data + length <= |mem|
    ensures r == Crc(BytesUsed(mem, data, length), crc)
  {
    hide Step, ShiftByte, Word, LastBytes, Xor, Complement, BytesUsed, HeadLength, Fold, Iterate;
    UsedSplits(mem, data, length);
    WordsAreAligned(data);
    var wordPtr := data - data % 4;
    var remaining := length;
    var tempCrc := Complement(crc);

    var tempLength := HeadLength(data, length);
    if tempLength != 0 {
      remaining := remaining - tempLength;
      var bytes := mem[wordPtr..wordPtr + 4];
      var word := LastBytes(Word(bytes), tempLength);
      wordPtr := wordPtr + 4;
      ShiftKeepsLastBytes(bytes, tempLength);
      assert bytes[4 - tempLength..] == mem[wordPtr - tempLength..wordPtr];
      WordStepsAreReference(tempCrc, bytes[4 - tempLength..]);
      tempCrc := RecalculateBytes(word, tempCrc, tempLength);
      FoldAppend(ShiftByte, Complement(crc), mem[wordPtr - tempLength..wordPtr], mem[wordPtr..wordPtr + remaining]);
    }

    assert wordPtr % 4 == 0;
    assert tempLength == 0 ==> mem[wordPtr..wordPtr + remaining] == BytesUsed(mem, data, length);
    tempCrc := RecalculateAligned(mem, wordPtr, remaining, tempCrc);
    r := Complement(tempCrc);
  }

  // ----- When the result is the CRC of the block -----

  lemma XorCancels(crc: bv32, v: bv32, w: bv32)
    requires Xor(crc, v) == Xor(crc, w)
    ensures v == w
  {
    assert crc ^ Xor(crc, v) == v && crc ^ Xor(crc, w) == w;
  }

  /** Blocks of one to four bytes are told apart by their CRC. */
  lemma ShortBlocksDiffer(x: seq<bv8>, y: seq<bv8>, seed: bv32)
    requires |x| == |y| <= 4
    requires Crc(x, seed) == Crc(y, seed)
    ensures x == y
  {
    hide Step, Xor, ShiftByte, Word, LowByte, DropByte, Fold, Iterate, Outputs;
    var c := Complement(seed);
    assert Fold(ShiftByte, c, x) == Fold(ShiftByte, c, y) by {
      ComplementInjective(Fold(ShiftByte, c, x), Fold(ShiftByte, c, y));
    }
    WordStepsAreReference(c, x);
    WordStepsAreReference(c, y);
    forall u, v | Step(u) == Step(v) ensures u == v {
      StepInjective(u, v);
    }
    IterateInjective(Step, Xor(c, Word(x)), Xor(c, Word(y)), 8 * |x|);
    XorCancels(c, Word(x), Word(y));
    WordOutputs(x);
    WordOutputs(y);
  }

  lemma ComplementInjective(x: bv32, y: bv32)
    requires Complement(x) == Complement(y)
    ensures x == y
  {
  }

  /** The blocks that the code reads correctly: a caller can check this from the
      address and the length alone. */
  predicate ReadsItsBlock(data: nat, length: nat) {
    length == 0 || length >= 4 || data % 4 + length == 4
  }

  /** The service promises blocks of any size at any alignment. It keeps that
      promise exactly for the blocks of `ReadsItsBlock`: for any seed, the result
      equals the standard's CRC for all memory contents if and only if. */
  lemma RecalculateExact(size: nat, data: nat, length: nat, seed: bv32)
    requires size % 4 == 0 && data + length <= size
    ensures
      (forall mem: seq<bv8> | |mem| == size ::
         Crc(BytesUsed(mem, data, length), seed) == Crc(mem[data..data + length], seed))
      <==> ReadsItsBlock(data, length)
  {
    hide Crc, BytesUsed, ReadsItsBlock;
    if ReadsItsBlock(data, length) {
      forall mem: seq<bv8> | |mem| == size
        ensures Crc(BytesUsed(mem, data, length), seed) == Crc(mem[data..data + length], seed)
      {
        UsedIsBlock(mem, data, length);
      }
    } else {
      var mem := MisreadMemory(size, data, length);
      if Crc(BytesUsed(mem, data, length), seed) == Crc(mem[data..data + length], seed) {
        LengthsRead(data, length);
        ShortBlocksDiffer(BytesUsed(mem, data, length), mem[data..data + length], seed);
      }
    }
  }

  lemma UsedIsBlock(mem: seq<bv8>, data: nat, length: nat)
    requires |mem| % 4 == 0 && data + length <= |mem| && ReadsItsBlock(data, length)
    ensures BytesUsed(mem, data, length) == mem[data..data + length]
  {
  }

  lemma LengthsRead(data: nat, length: nat)
    requires !ReadsItsBlock(data, length)
    ensures 0 < length < 4
  {
  }

  /** A memory with one nonzero byte, at the start of the block. */
  lemma MisreadMemory(size: nat, data: nat, length: nat) returns (mem: seq<bv8>)
    requires size % 4 == 0 && data + length <= size && !ReadsItsBlock(data, length)
    ensures |mem| == size && BytesUsed(mem, data, length) != mem[data..data + length]
  {
    mem := seq(size, i => if i == data then 1 else 0 as bv8);
    var start := data - data % 4 + 4 - length;
    assert start != data && BytesUsed(mem, data, length)[0] == mem[start] == 0;
    assert mem[data..data + length][0] == mem[data] == 1;
  }

  /** One byte at an aligned address: the code uses the byte three addresses up. */
  lemma AlignedSingleByteIsMisread()
    ensures Crc(BytesUsed([1, 0, 0, 0], 0, 1), 0) != Crc([1, 0, 0, 0][0..1], 0)
  {
    hide Crc;
    assert BytesUsed([1, 0, 0, 0], 0, 1) == [0];
    assert [1 as bv8, 0, 0, 0][0..1] == [1];
    if Crc([0], 0) == Crc([1], 0) {
      ShortBlocksDiffer([0], [1], 0);
    }
  }

  /** Calculating over a first block and recalculating over a second gives the
      CRC of the two blocks joined, from any seed. */
  lemma BlocksCompose(a: seq<bv8>, b: seq<bv8>, seed: bv32)
    ensures Crc(b, Crc(a, seed)) == Crc(a + b, seed)
  {
    hide ShiftByte, Fold;
    var c := Complement(seed);
    DoubleComplement(Fold(ShiftByte, c, a));
    FoldAppend(ShiftByte, c, a, b);
  }

  lemma DoubleComplement(crc: bv32)
    ensures Complement(Complement(crc)) == crc
  {
  }

  /** crc32_calculate on a first block, then crc32_recalculate on a second. */
  method CalculateTwoBlocks(mem: seq<bv8>, data1: nat, length1: nat, data2: nat, length2: nat) returns (r: bv32)
    requires |mem| % 4 == 0 && data1 + length1 <= |mem| && data2 + length2 <= |mem|
    ensures ReadsItsBlock(data1, length1) && ReadsItsBlock(data2, length2) ==>
      r == Crc(mem[data1..data1 + length1] + mem[data2..data2 + length2], 0)
  {
    hide Crc;
    r := Recalculate(mem, data1, length1, 0);
    assert ReadsItsBlock(data1, length1) ==> BytesUsed(mem, data1, length1) == mem[data1..data1 + length1];
    assert ReadsItsBlock(data2, length2) ==> BytesUsed(mem, data2, length2) == mem[data2..data2 + length2];
    BlocksCompose(mem[data1..data1 + length1], mem[data2..data2 + length2], 0);
    r := Recalculate(mem, data2, length2, r);
  }
}
