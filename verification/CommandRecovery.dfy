/** What the command parser does with streams that are not well-formed commands. */
module CommandRecovery {
  import opened Bytes
  import opened Commands
  import opened Folds
  import opened Options

  // ----- Length byte 255 -----

  /** A command that announces 255 payload bytes does not fit the buffer: whatever
      the bytes, the 257th brings an overflow, and no handler is called before. */
  lemma {:induction false} LongestLengthOverflows(d: Device, bytes: seq<byte>, k: nat)
    requires |bytes| == 257 && bytes[0] == 255
    requires Holds(d, bytes, k)
    ensures
      var end := Fold(Receive, d, bytes[k..]);
      end.idx == 0 && !end.overflow && end.handled == d.handled + [Overflow]
    ensures forall n :: k <= n < 257 ==> Fold(Receive, d, bytes[k..n]).handled == d.handled
    decreases 257 - k
  {
    LongStep(d, bytes, k);
    hide Receive;
    var next := Receive(d, bytes[k]);
    assert bytes[k..][1..] == bytes[k + 1..];
    if k + 1 == 257 {
      assert bytes[k + 1..] == [] && bytes[k..k] == [];
    } else {
      LongestLengthOverflows(next, bytes, k + 1);
      forall n | k <= n < 257 ensures Fold(Receive, d, bytes[k..n]).handled == d.handled {
        if k < n {
          assert bytes[k..n][0] == bytes[k] && bytes[k..n][1..] == bytes[k + 1..n];
        }
      }
    }
  }

  lemma LongStep(d: Device, bytes: seq<byte>, k: nat)
    requires |bytes| == 257 && bytes[0] == 255
    requires Holds(d, bytes, k)
    ensures
      var next := Receive(d, bytes[k]);
      if k + 1 == 257 then next.idx == 0 && !next.overflow && next.handled == d.handled + [Overflow]
      else Holds(next, bytes, k + 1) && next.handled == d.handled
  {
    hide Crc, Execute;
    var d1 := NewData(d, bytes[k]);
    assert d1.buf[..k + 1] == bytes[..k] + [bytes[k]] == bytes[..k + 1];
    assert d1.buf[0] == bytes[0];
  }

  /** A command of the host reaches its handler with its type and data if and only if it
      has at most 253 bytes of data. With 254 the host packs it and the device overflows;
      with more the host cannot pack it. */
  lemma CommandArrivesExact(d: Device, c: Command)
    requires Inv(d) && d.idx == 0
    ensures
      MakeCmd(c).Some? && Fold(Receive, d, MakeCmd(c).value).handled == d.handled +
        [if c.kind in {1, 2, 3, 5, 6, 7} then Executed(c.kind, c.data) else InvalidCommand]
      <==> |c.data| <= 253
    ensures |c.data| == 254 ==> MakeCmd(c).Some? && Fold(Receive, d, MakeCmd(c).value).handled == d.handled + [Overflow]
    ensures |c.data| >= 255 ==> MakeCmd(c) == None
  {
    hide Receive, Crc;
    if |c.data| <= 253 {
      CommandArrives(d, c);
    } else if |c.data| == 254 {
      var bytes := MakeCmd(c).value;
      LongestLengthOverflows(d, bytes, 0);
      assert bytes[0..] == bytes;
      var outcome := if c.kind in {1, 2, 3, 5, 6, 7} then Executed(c.kind, c.data) else InvalidCommand;
      assert (d.handled + [Overflow])[|d.handled|] != (d.handled + [outcome])[|d.handled|];
    }
  }

  // ----- Resynchronisation -----

  function Zeros(n: nat): (r: seq<byte>)
    ensures |r| == n
  {
    if n == 0 then [] else [0] + Zeros(n - 1)
  }

  /** How many zero bytes the host has to send from a state between two bytes. */
  function ZerosToReset(d: Device): nat
    requires Inv(d)
  {
    if d.idx == 0 then 1 else d.buf[0] as int + 3 - d.idx
  }

  lemma ZeroStep(d: Device)
    requires Inv(d)
    ensures
      var next := Receive(d, 0);
      if d.idx == 0 then
        next.idx == 0 && !next.overflow && next.handled == d.handled + [Reset]
      else if d.idx == d.buf[0] as int + 1 then
        next.idx == 0 && !next.overflow && |next.handled| == |d.handled| + 1
        && next.handled[..|d.handled|] == d.handled && next.handled[|d.handled|] != Reset
      else
        next.idx == d.idx + 1 && next.buf[0] == d.buf[0] && !next.overflow && next.handled == d.handled
  {
    hide Crc, HasHandler;
  }

  /** From whatever the parser was left with, zero bytes bring a reset response and
      an empty buffer: after exactly ZerosToReset of them, at most 257, and with at
      most one other outcome on the way. */
  lemma {:induction false} ZerosResynchronise(d: Device)
    requires Inv(d)
    ensures 1 <= ZerosToReset(d) <= 257
    ensures
      var end := Fold(Receive, d, Zeros(ZerosToReset(d)));
      var others := if d.idx == 0 then 0 else 1;
      && Inv(end) && end.idx == 0
      && |end.handled| == |d.handled| + others + 1
      && end.handled[..|d.handled|] == d.handled
      && end.handled[|end.handled| - 1] == Reset
      && (d.idx != 0 ==> end.handled[|d.handled|] != Reset)
    decreases ZerosToReset(d)
  {
    ZeroStep(d);
    hide Receive;
    var n := ZerosToReset(d);
    var next := Receive(d, 0);
    assert Zeros(n)[1..] == Zeros(n - 1);
    if d.idx != 0 {
      ZerosResynchronise(next);
    } else {
      assert Zeros(0) == [];
    }
  }

  // ----- Error detection -----

  /** How many of the bytes have binary digit k set. */
  function Ones(data: seq<byte>, k: nat): nat
    decreases |data|
  {
    if data == [] then 0 else Digit(data[0], k) + Ones(data[1..], k)
  }

  lemma {:induction false} FoldIsParity(seed: byte, data: seq<byte>, k: nat)
    ensures Digit(Fold(XorByte, seed, data), k) == (Digit(seed, k) + Ones(data, k)) % 2
    decreases |data|
  {
    hide Xor, Digit;
    if data == [] {
      DigitIsBinary(seed, k);
    } else {
      XorDigit(seed, data[0], k);
      FoldIsParity(XorByte(seed, data[0]), data[1..], k);
    }
  }

  /** Every bit of the CRC is the parity of that bit over all bytes. */
  lemma CrcIsParity(data: seq<byte>, k: nat)
    ensures Digit(Crc(data), k) == Ones(data, k) % 2
  {
    hide XorByte;
    ZeroDigit(k);
    FoldIsParity(0, data, k);
  }

  lemma {:induction false} CrcSeedMatters(x: byte, y: byte, data: seq<byte>)
    requires Fold(XorByte, x, data) == Fold(XorByte, y, data)
    ensures x == y
    decreases |data|
  {
    hide Xor;
    if data != [] {
      CrcSeedMatters(XorByte(x, data[0]), XorByte(y, data[0]), data[1..]);
      XorCommutes(x, data[0]);
      XorCommutes(y, data[0]);
      XorInjective(data[0], x, y);
    }
  }

  /** Changing any one byte changes the CRC, at any length. */
  lemma CrcByteMatters(data: seq<byte>, i: nat, x: byte)
    requires i < |data| && x != data[i]
    ensures Crc(data[i := x]) != Crc(data)
  {
    hide Xor;
    var before, after := data[..i], data[i + 1..];
    var seed := Fold(XorByte, 0, before);
    CrcSplits(data, i);
    CrcSplits(data[i := x], i);
    assert data[i := x][..i] == before && data[i := x][i + 1..] == after;
    if Crc(data[i := x]) == Crc(data) {
      CrcSeedMatters(XorByte(seed, x), XorByte(seed, data[i]), after);
      XorInjective(seed, x, data[i]);
    }
  }

  lemma CrcSplits(data: seq<byte>, i: nat)
    requires i < |data|
    ensures Crc(data) == Fold(XorByte, XorByte(Fold(XorByte, 0, data[..i]), data[i]), data[i + 1..])
  {
    hide XorByte;
    FoldAppend(XorByte, 0, data[..i], data[i..]);
    assert data[..i] + data[i..] == data;
    assert data[i..][1..] == data[i + 1..];
  }

  /** A frame whose length byte is intact but one other byte is not fails the check:
      the check that both the device and the host make. */
  lemma CorruptedFrameFailsCrc(payload: seq<byte>, i: nat, x: byte)
    requires |payload| <= 255
    requires 1 <= i < |Frame(payload)| && x != Frame(payload)[i]
    ensures
      var frame := Frame(payload)[i := x];
      Crc(frame[1..|frame| - 1]) != frame[|frame| - 1]
  {
    hide Crc;
    var frame := Frame(payload)[i := x];
    if i + 1 < |frame| {
      assert frame[1..|frame| - 1] == payload[i - 1 := x];
      CrcByteMatters(payload, i - 1, x);
    } else {
      assert frame[1..|frame| - 1] == payload;
    }
  }

  /** On the device: a command with one wrong type, data or CRC byte calls no
      handler and gets a CRC error. */
  lemma CorruptedCommandIsRejected(d: Device, c: Command, i: nat, x: byte)
    requires Inv(d) && d.idx == 0 && Fits(c)
    requires 1 <= i < |Frame(Payload(c))| && x != Frame(Payload(c))[i]
    ensures
      var end := Fold(Receive, d, Frame(Payload(c))[i := x]);
      end.idx == 0 && end.handled == d.handled + [CrcError]
  {
    hide Receive, Crc;
    var frame := Frame(Payload(c))[i := x];
    CorruptedFrameFailsCrc(Payload(c), i, x);
    FrameIsDecided(d, frame, 0);
    assert frame[0..] == frame;
  }
}
