/** The bits of machine words, numbered from the least significant one. */
module Bits {

  function BitOfByte(x: bv8, k: nat): bool
    requires k < 8
  {
    (x >> k) & 1 == 1
  }

  lemma BitMasks(x: bv8)
    ensures BitOfByte(x, 0) == (x & 1 != 0) && BitOfByte(x, 1) == (x & 2 != 0)
    ensures BitOfByte(x, 2) == (x & 4 != 0) && BitOfByte(x, 3) == (x & 8 != 0)
    ensures BitOfByte(x, 4) == (x & 16 != 0) && BitOfByte(x, 5) == (x & 32 != 0)
    ensures BitOfByte(x, 6) == (x & 64 != 0) && BitOfByte(x, 7) == (x & 128 != 0)
  {
  }

  lemma MasksDetermineByte(x: bv8, y: bv8)
    requires (x & 1 != 0) == (y & 1 != 0) && (x & 2 != 0) == (y & 2 != 0)
    requires (x & 4 != 0) == (y & 4 != 0) && (x & 8 != 0) == (y & 8 != 0)
    requires (x & 16 != 0) == (y & 16 != 0) && (x & 32 != 0) == (y & 32 != 0)
    requires (x & 64 != 0) == (y & 64 != 0) && (x & 128 != 0) == (y & 128 != 0)
    ensures x == y
  {
  }

  /** A byte is the sequence of its bits. */
  lemma BitsDetermineByte(x: bv8, y: bv8)
    requires forall k :: 0 <= k < 8 ==> BitOfByte(x, k) == BitOfByte(y, k)
    ensures x == y
  {
    BitMasks(x);
    BitMasks(y);
    assert BitOfByte(x, 0) == BitOfByte(y, 0) && BitOfByte(x, 1) == BitOfByte(y, 1);
    assert BitOfByte(x, 2) == BitOfByte(y, 2) && BitOfByte(x, 3) == BitOfByte(y, 3);
    assert BitOfByte(x, 4) == BitOfByte(y, 4) && BitOfByte(x, 5) == BitOfByte(y, 5);
    assert BitOfByte(x, 6) == BitOfByte(y, 6) && BitOfByte(x, 7) == BitOfByte(y, 7);
    hide BitOfByte;
    MasksDetermineByte(x, y);
  }

  function Xor(x: bv32, y: bv32): bv32 {
    x ^ y
  }

  function LowBit(x: bv32): bool {
    x & 1 == 1
  }

  function DropBit(x: bv32): bv32 {
    x >> 1
  }

  /** Bit k of a 32-bit word; zero from bit 32 on. */
  function BitOfWord(x: bv32, k: nat): bool
    decreases k
  {
    if k == 0 then LowBit(x) else BitOfWord(DropBit(x), k - 1)
  }

  lemma LowBitOfXor(x: bv32, y: bv32)
    ensures LowBit(Xor(x, y)) <==> LowBit(x) != LowBit(y)
  {
  }

  lemma ShiftOfXor(x: bv32, y: bv32)
    ensures DropBit(Xor(x, y)) == Xor(DropBit(x), DropBit(y))
  {
  }

  lemma {:induction false} BitOfXor(x: bv32, y: bv32, k: nat)
    ensures BitOfWord(Xor(x, y), k) == (BitOfWord(x, k) != BitOfWord(y, k))
    decreases k
  {
    LowBitOfXor(x, y);
    ShiftOfXor(x, y);
    hide Xor, LowBit, DropBit;
    if k != 0 {
      BitOfXor(DropBit(x), DropBit(y), k - 1);
    }
  }

  lemma Drops(w: bv32)
    ensures DropBit(w) == w >> 1
    ensures DropBit(w >> 1) == w >> 2
    ensures DropBit(w >> 2) == w >> 3
    ensures DropBit(w >> 3) == w >> 4
    ensures DropBit(w >> 4) == w >> 5
    ensures DropBit(w >> 5) == w >> 6
    ensures DropBit(w >> 6) == w >> 7
    ensures DropBit(w >> 7) == w >> 8
  {
  }

  lemma NextBit(x: bv32, k: nat)
    ensures BitOfWord(x, k + 1) == BitOfWord(DropBit(x), k)
  {
  }

  /** Bits are the same bits of the shifted word. */
  lemma BitBehind(x: bv32, k: nat)
    ensures BitOfWord(x, k + 1) == BitOfWord(x >> 1, k)
    ensures BitOfWord(x, k + 2) == BitOfWord(x >> 2, k)
    ensures BitOfWord(x, k + 3) == BitOfWord(x >> 3, k)
    ensures BitOfWord(x, k + 4) == BitOfWord(x >> 4, k)
  {
    Drops(x);
    hide BitOfWord, DropBit;
    NextBit(x, k);
    NextBit(x, k + 1);
    NextBit(x >> 1, k);
    NextBit(x, k + 2);
    NextBit(x >> 1, k + 1);
    NextBit(x >> 2, k);
    NextBit(x, k + 3);
    NextBit(x >> 1, k + 2);
    NextBit(x >> 2, k + 1);
    NextBit(x >> 3, k);
  }

  lemma ShiftFour(x: bv32)
    ensures (x >> 4) >> 1 == x >> 5 && (x >> 4) >> 2 == x >> 6 && (x >> 4) >> 3 == x >> 7 && (x >> 4) >> 4 == x >> 8
  {
  }

  lemma BitBehindByte(x: bv32, k: nat)
    ensures BitOfWord(x, k + 8) == BitOfWord(x >> 8, k)
  {
    hide BitOfWord;
    BitBehind(x, k + 4);
    BitBehind(x >> 4, k);
    ShiftFour(x);
  }

  lemma LowBitMasks(x: bv32)
    ensures LowBit(x >> 1) <==> x & 2 != 0
    ensures LowBit(x >> 2) <==> x & 4 != 0
    ensures LowBit(x >> 3) <==> x & 8 != 0
    ensures LowBit(x >> 4) <==> x & 16 != 0
    ensures LowBit(x >> 5) <==> x & 32 != 0
    ensures LowBit(x >> 6) <==> x & 64 != 0
    ensures LowBit(x >> 7) <==> x & 128 != 0
  {
  }

  lemma FirstBit(x: bv32)
    ensures BitOfWord(x, 0) == LowBit(x)
  {
  }

  lemma LowBits(x: bv32)
    ensures BitOfWord(x, 0) == LowBit(x) && BitOfWord(x, 1) == (x & 2 != 0)
    ensures BitOfWord(x, 2) == (x & 4 != 0) && BitOfWord(x, 3) == (x & 8 != 0)
    ensures BitOfWord(x, 4) == (x & 16 != 0) && BitOfWord(x, 5) == (x & 32 != 0)
    ensures BitOfWord(x, 6) == (x & 64 != 0) && BitOfWord(x, 7) == (x & 128 != 0)
  {
    LowBitMasks(x);
    ShiftFour(x);
    hide BitOfWord, LowBit;
    BitBehind(x, 0);
    BitBehind(x >> 4, 0);
    BitBehind(x, 1);
    BitBehind(x, 2);
    BitBehind(x, 3);
    FirstBit(x);
    FirstBit(x >> 1);
    FirstBit(x >> 2);
    FirstBit(x >> 3);
    FirstBit(x >> 4);
    FirstBit((x >> 4) >> 1);
    FirstBit((x >> 4) >> 2);
    FirstBit((x >> 4) >> 3);
  }

  lemma FourBytesEmpty(x: bv32)
    ensures ((((x >> 8) >> 8) >> 8) >> 8) == 0
  {
  }

  lemma NoBit32(x: bv32)
    ensures !BitOfWord(x, 32)
  {
    BitBehindByte(x, 24);
    BitBehindByte(x >> 8, 16);
    BitBehindByte((x >> 8) >> 8, 8);
    BitBehindByte(((x >> 8) >> 8) >> 8, 0);
    FourBytesEmpty(x);
  }
}
