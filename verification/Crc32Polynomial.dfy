/** The CRC as the standard defines it: the remainder of a polynomial division over the
    field of two elements (clause 3.2.9 of IEEE Std 802.3). */
module Crc32Polynomial {
  import opened Bits
  import opened Crc32
  import opened Folds

  /** A polynomial with coefficients zero and one: the exponents of its terms. */
  type Polynomial = set<nat>

  /** G(x) of the standard. */
  const GENERATOR: Polynomial := {32, 26, 23, 22, 16, 12, 11, 10, 8, 7, 5, 4, 2, 1, 0}

  /** Equal terms cancel. */
  function Plus(p: Polynomial, q: Polynomial): Polynomial {
    (p - q) + (q - p)
  }

  /** The product with x to the power n. */
  function Raise(p: Polynomial, n: nat): Polynomial {
    set e | e in p :: e + n
  }

  /** The first bit is the coefficient of the highest power. */
  function PolynomialOf(bits: seq<bool>): Polynomial {
    set i | 0 <= i < |bits| && bits[i] :: |bits| - 1 - i
  }

  /** The product of a polynomial, given by its coefficients, with the generator. */
  function Multiple(coefficients: seq<bool>): Polynomial
    decreases |coefficients|
  {
    if coefficients == [] then {}
    else
      var last := |coefficients| - 1;
      Plus(Raise(Multiple(coefficients[..last]), 1), if coefficients[last] then GENERATOR else {})
  }

  /** The bits of a message, octet by octet, least significant bit first. */
  function MessageBits(data: seq<bv8>): (bits: seq<bool>)
    ensures |bits| == 8 * |data|
    decreases |data|
  {
    if data == [] then [] else seq(8, k requires 0 <= k < 8 => BitOfByte(data[0], k)) + MessageBits(data[1..])
  }

  /** Bit 31 - e of the register is the coefficient of x to the power e. */
  predicate Coefficient(crc: bv32, e: nat) {
    e < 32 && BitOfWord(crc, 31 - e)
  }

  function RegisterOf(crc: bv32): Polynomial {
    set e: nat | e < 32 && Coefficient(crc, e)
  }

  /** The same of the complement of the register. */
  function ComplementOf(crc: bv32): Polynomial {
    set e: nat | e < 32 && !Coefficient(crc, e)
  }

  // ----- The shift register divides by the generator -----

  predicate GeneratorBit(k: nat) {
    k < 32 && 31 - k in GENERATOR
  }

  lemma GeneratorBytes()
    ensures POLYNOMIAL & 1 == 0 && POLYNOMIAL & 2 == 0 && POLYNOMIAL & 4 == 0 && POLYNOMIAL & 8 == 0
    ensures POLYNOMIAL & 16 == 0 && POLYNOMIAL & 32 != 0 && POLYNOMIAL & 64 == 0 && POLYNOMIAL & 128 == 0
    ensures POLYNOMIAL >> 8 == 0xEDB883 && (POLYNOMIAL >> 8) >> 8 == 0xEDB8 && ((POLYNOMIAL >> 8) >> 8) >> 8 == 0xED
  {
  }

  lemma BitsOfConstants()
    ensures forall k :: 0 <= k < 8 ==> (BitOfWord(0xEDB883, k) <==> k in {0, 1, 7})
    ensures forall k :: 0 <= k < 8 ==> (BitOfWord(0xEDB8, k) <==> k in {3, 4, 5, 7})
    ensures forall k :: 0 <= k < 8 ==> (BitOfWord(0xED, k) <==> k in {0, 2, 3, 5, 6, 7})
  {
    LowBits(0xEDB883);
    LowBits(0xEDB8);
    LowBits(0xED);
  }

  /** The constant of the code has the bits of the generator. */
  lemma PolynomialIsGenerator(k: nat)
    requires k < 32
    ensures BitOfWord(POLYNOMIAL, k) <==> GeneratorBit(k)
  {
    GeneratorBytes();
    LowBits(POLYNOMIAL);
    BitsOfConstants();
    hide BitOfWord;
    if 8 <= k {
      BitBehindByte(POLYNOMIAL, k - 8);
      if 16 <= k {
        BitBehindByte(POLYNOMIAL >> 8, k - 16);
        if 24 <= k {
          BitBehindByte((POLYNOMIAL >> 8) >> 8, k - 24);
        }
      }
    }
  }

  lemma InPlus(p: Polynomial, q: Polynomial, e: nat)
    ensures e in Plus(p, q) <==> (e in p) != (e in q)
  {
  }

  lemma InRegister(crc: bv32, e: nat)
    ensures e in RegisterOf(crc) <==> Coefficient(crc, e)
    ensures e in Raise(RegisterOf(crc), 1) <==> 0 < e && Coefficient(crc, e - 1)
  {
    RaisedBy(RegisterOf(crc), 1, e);
  }

  /** The register shifted: the coefficient of x to the power e moves up by one. */
  lemma CoefficientMoves(crc: bv32, e: nat)
    requires e < 32
    ensures BitOfWord(DropBit(crc), 31 - e) <==> 0 < e && Coefficient(crc, e - 1)
    ensures Coefficient(crc, 31) == LowBit(crc)
  {
    NextBit(crc, 31 - e);
    NoBit32(crc);
    FirstBit(crc);
    hide BitOfWord, DropBit, LowBit;
  }

  /** The register after a message bit, times x and less the generator at the feedback. */
  function Divided(crc: bv32, bit: bool): Polynomial {
    Plus(Plus(Raise(RegisterOf(crc), 1), if bit then {32} else {}), if LowBit(crc) != bit then GENERATOR else {})
  }

  lemma InDivided(crc: bv32, bit: bool, e: nat)
    ensures e < 32 ==>
      (e in Divided(crc, bit) <==> (0 < e && Coefficient(crc, e - 1)) != (LowBit(crc) != bit && e in GENERATOR))
    ensures 32 <= e ==> e !in Divided(crc, bit)
  {
    CoefficientMoves(crc, 31);
    InRegister(crc, e);
    hide BitOfWord, LowBit, Coefficient, Raise, Plus, RegisterOf;
    var top: Polynomial, g: Polynomial := if bit then {32} else {}, if LowBit(crc) != bit then GENERATOR else {};
    InPlus(Raise(RegisterOf(crc), 1), top, e);
    InPlus(Plus(Raise(RegisterOf(crc), 1), top), g, e);
    if 32 < e {
      NoHighCoefficient(crc, e - 1);
    }
  }

  lemma NoHighCoefficient(crc: bv32, e: nat)
    requires 32 <= e
    ensures !Coefficient(crc, e)
  {
  }

  lemma InShifted(crc: bv32, bit: bool, e: nat)
    requires e < 32
    ensures Coefficient(ShiftBit(crc, bit), e)
      <==> (0 < e && Coefficient(crc, e - 1)) != (LowBit(crc) != bit && e in GENERATOR)
  {
    ShiftBitParts(crc, bit);
    CoefficientMoves(crc, e);
    PolynomialIsGenerator(31 - e);
    BitOfXor(DropBit(crc), POLYNOMIAL, 31 - e);
    hide BitOfWord, LowBit, DropBit, Xor, ShiftBit;
  }

  /** One shift is a multiplication with x, less the generator where x to the power 32
      comes up; the message bit goes in there. */
  lemma ShiftDivides(crc: bv32, bit: bool)
    ensures RegisterOf(ShiftBit(crc, bit)) == Divided(crc, bit)
  {
    var shifted := ShiftBit(crc, bit);
    hide ShiftBit, LowBit, Coefficient, RegisterOf, Divided;
    forall e: nat ensures e in RegisterOf(shifted) <==> e in Divided(crc, bit) {
      InRegister(shifted, e);
      InDivided(crc, bit, e);
      if e < 32 {
        InShifted(crc, bit, e);
      } else {
        NoHighCoefficient(shifted, e);
      }
    }
  }

  lemma PolynomialGrows(bits: seq<bool>, bit: bool)
    ensures PolynomialOf(bits + [bit]) == Plus(Raise(PolynomialOf(bits), 1), if bit then {0} else {})
  {
    var more := bits + [bit];
    forall e | e in PolynomialOf(more) ensures e in Plus(Raise(PolynomialOf(bits), 1), if bit then {0} else {}) {
      var i :| 0 <= i < |more| && more[i] && e == |more| - 1 - i;
      if i < |bits| {
        assert |bits| - 1 - i in PolynomialOf(bits);
      }
    }
    forall e | e in Plus(Raise(PolynomialOf(bits), 1), if bit then {0} else {}) ensures e in PolynomialOf(more) {
      if e == 0 {
        assert more[|bits|] == bit;
      } else {
        var d :| d in PolynomialOf(bits) && e == d + 1;
        var i :| 0 <= i < |bits| && bits[i] && d == |bits| - 1 - i;
        assert more[i];
      }
    }
  }

  lemma RaisePlus(p: Polynomial, q: Polynomial, n: nat)
    ensures Raise(Plus(p, q), n) == Plus(Raise(p, n), Raise(q, n))
  {
    forall e: nat ensures e in Raise(Plus(p, q), n) <==> e in Plus(Raise(p, n), Raise(q, n)) {
      RaisedBy(p, n, e);
      RaisedBy(q, n, e);
      RaisedBy(Plus(p, q), n, e);
    }
  }

  lemma RaisedBy(p: Polynomial, n: nat, e: nat)
    ensures e in Raise(p, n) <==> n <= e && e - n in p
  {
    if n <= e && e - n in p {
      assert (e - n) + n == e;
    }
  }

  lemma RaiseTwice(p: Polynomial, m: nat, n: nat)
    ensures Raise(Raise(p, m), n) == Raise(p, m + n)
  {
    forall e: nat ensures e in Raise(Raise(p, m), n) <==> e in Raise(p, m + n) {
      RaisedBy(Raise(p, m), n, e);
      if n <= e {
        RaisedBy(p, m, e - n);
      }
      RaisedBy(p, m + n, e);
    }
  }

  lemma RaiseNone(p: Polynomial)
    ensures Raise(p, 0) == p
  {
  }

  /** Sums of polynomials can be rearranged, and a term added twice cancels. */
  lemma Rearrange(a: Polynomial, b: Polynomial, c: Polynomial, d: Polynomial, g: Polynomial)
    requires Plus(a, b) == Plus(c, d)
    ensures Plus(a, Plus(b, g)) == Plus(c, Plus(d, g))
  {
    forall e: nat ensures e in Plus(a, Plus(b, g)) <==> e in Plus(c, Plus(d, g)) {
      assert e in Plus(a, b) <==> e in Plus(c, d);
    }
  }

  lemma Cancel(a: Polynomial, b: Polynomial, g: Polynomial)
    ensures Plus(Plus(a, g), Plus(b, g)) == Plus(a, b)
  {
  }

  /** Dividing: from any register, the register after some message bits is the remainder
      of the register and the message, moved to their places, modulo the generator. */
  lemma {:induction false} RegisterIsRemainder(crc: bv32, bits: seq<bool>) returns (quotient: seq<bool>)
    ensures
      Plus(Raise(RegisterOf(crc), |bits|), Raise(PolynomialOf(bits), 32))
      == Plus(Multiple(quotient), RegisterOf(Fold(ShiftBit, crc, bits)))
    decreases |bits|
  {
    hide ShiftBit, RegisterOf;
    if bits == [] {
      quotient := [];
      RaiseNone(RegisterOf(crc));
      assert PolynomialOf(bits) == {} && Raise(PolynomialOf(bits), 32) == {};
    } else {
      var n := |bits| - 1;
      var before, bit := bits[..n], bits[n];
      var q := RegisterIsRemainder(crc, before);
      var register := Fold(ShiftBit, crc, before);
      assert bits == before + [bit];
      FoldAppend(ShiftBit, crc, before, [bit]);
      assert [bit][1..] == [] && Fold(ShiftBit, register, [bit]) == ShiftBit(register, bit);
      var feedback := LowBit(register) != bit;
      quotient := q + [feedback];
      assert quotient[..|q|] == q;
      ShiftDivides(register, bit);
      PolynomialGrows(before, bit);
      DivideOnce(RegisterOf(crc), PolynomialOf(before), Multiple(q), RegisterOf(register), n, bit, feedback);
    }
  }

  /** One step of the division on both sides of the equation. */
  lemma DivideOnce(first: Polynomial, message: Polynomial, multiple: Polynomial, register: Polynomial, n: nat,
      bit: bool, feedback: bool)
    requires Plus(Raise(first, n), Raise(message, 32)) == Plus(multiple, register)
    ensures
      var g := if feedback then GENERATOR else {};
      Plus(Raise(first, n + 1), Raise(Plus(Raise(message, 1), if bit then {0} else {}), 32))
      == Plus(Plus(Raise(multiple, 1), g), Plus(Plus(Raise(register, 1), if bit then {32} else {}), g))
  {
    hide Plus, Raise;
    var g := if feedback then GENERATOR else {};
    var one: Polynomial, top: Polynomial := if bit then {0} else {}, if bit then {32} else {};
    RaisePlus(Raise(first, n), Raise(message, 32), 1);
    RaisePlus(multiple, register, 1);
    RaiseTwice(first, n, 1);
    RaiseTwice(message, 32, 1);
    RaiseTwice(message, 1, 32);
    RaisePlus(Raise(message, 1), one, 32);
    TopBit(bit);
    Rearrange(Raise(first, n + 1), Raise(message, 33), Raise(multiple, 1), Raise(register, 1), top);
    Cancel(Raise(multiple, 1), Plus(Raise(register, 1), top), g);
  }

  lemma TopBit(bit: bool)
    ensures Raise(if bit then {0} else {}, 32) == if bit then {32} else {}
  {
    var one: Polynomial := if bit then {0} else {};
    if bit {
      RaisedBy(one, 32, 32);
    }
  }

  // ----- The CRC of a message -----

  lemma ByteBits(b: bv8)
    ensures BitsOf(b) == seq(8, k requires 0 <= k < 8 => BitOfByte(b, k))
  {
    BitMasks(b);
    hide BitOfByte;
    assert |BitsOf(b)| == 8;
  }

  lemma {:induction false} BytesAreBits(crc: bv32, data: seq<bv8>)
    ensures Fold(ShiftByte, crc, data) == Fold(ShiftBit, crc, MessageBits(data))
    decreases |data|
  {
    hide ShiftBit, BitsOf, BitOfByte;
    if data != [] {
      ByteBits(data[0]);
      FoldAppend(ShiftBit, crc, seq(8, k requires 0 <= k < 8 => BitOfByte(data[0], k)), MessageBits(data[1..]));
      BytesAreBits(ShiftByte(crc, data[0]), data[1..]);
    }
  }

  lemma OnesBytes()
    ensures 0xffff_ffff >> 8 == 0xff_ffff as bv32 && (0xff_ffff as bv32) >> 8 == 0xffff && (0xffff as bv32) >> 8 == 0xff
  {
  }

  lemma OnesBits(k: nat)
    requires k < 32
    ensures BitOfWord(0xffff_ffff, k)
  {
    OnesBytes();
    LowBits(0xffff_ffff);
    LowBits(0xff_ffff);
    LowBits(0xffff);
    LowBits(0xff);
    hide BitOfWord;
    if 8 <= k {
      BitBehindByte(0xffff_ffff, k - 8);
      if 16 <= k {
        BitBehindByte(0xff_ffff, k - 16);
        if 24 <= k {
          BitBehindByte(0xffff, k - 24);
        }
      }
    }
  }

  lemma ComplementIs(crc: bv32)
    ensures RegisterOf(Complement(crc)) == ComplementOf(crc)
  {
    assert Complement(crc) == Xor(crc, 0xffff_ffff);
    hide BitOfWord, Complement;
    forall k: nat | k < 32 ensures BitOfWord(Complement(crc), k) == !BitOfWord(crc, k) {
      BitOfXor(crc, 0xffff_ffff, k);
      OnesBits(k);
    }
  }

  /** What the CRC is. For every seed and every message: the complement of the CRC, read as
      a polynomial of degree below 32, is the remainder of the complement of the seed,
      moved up by the length of the message, and the message, moved up by 32, modulo the
      generator. With seed zero that is the definition of the standard, which complements
      the first 32 bits of the message and the remainder. */
  lemma CrcIsRemainder(data: seq<bv8>, seed: bv32) returns (quotient: seq<bool>)
    ensures
      Plus(Raise(ComplementOf(seed), 8 * |data|), Raise(PolynomialOf(MessageBits(data)), 32))
      == Plus(Multiple(quotient), ComplementOf(Crc(data, seed)))
  {
    hide ComplementOf, Complement, RegisterOf, Plus, Raise, Multiple, PolynomialOf, MessageBits, ShiftBit, ShiftByte;
    quotient := RegisterIsRemainder(Complement(seed), MessageBits(data));
    ComplementIs(seed);
    var register := Fold(ShiftByte, Complement(seed), data);
    BytesAreBits(Complement(seed), data);
    ComplementIs(Crc(data, seed));
    DoubleComplement(register);
  }
}
