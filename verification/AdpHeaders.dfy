/** What the receiver does with bytes that no sender of whole frames produces: noise and
    repeated start tokens between packets, lengths that contain the token, empty packets,
    and a lone token inside the data. */
module AdpHeaders {
  import opened Adp
  import opened Bytes
  import opened Folds

  /** A frame, byte by byte. */
  lemma FrameBytes()
    ensures ValidFrame(Frame(0x30, [1, 0xFF, 2]))
    ensures Encode(Frame(0x30, [1, 0xFF, 2])) == [0xFF, 0x30, 3, 0, 1, 0xFF, 0xFF, 2]
  {
    assert Stuff([2]) == [2];
    assert [0xFF as byte, 2][1..] == [2] && Stuff([0xFF, 2]) == [0xFF, 0xFF, 2];
    assert [1 as byte, 0xFF, 2][1..] == [0xFF, 2] && Stuff([1, 0xFF, 2]) == [1, 0xFF, 0xFF, 2];
  }

  lemma {:induction false} PlainIsItself(data: seq<byte>)
    requires forall b :: b in data ==> b != 0xFF
    ensures Stuff(data) == data
    decreases |data|
  {
    if data != [] {
      assert data[0] in data && forall b :: b in data[1..] ==> b in data;
      PlainIsItself(data[1..]);
    }
  }

  /** Payloads without a token: 1 to 254 bytes make a frame, and go out as they are. */
  lemma PlainFrames(id: byte, payload: seq<byte>)
    requires id != 0xFF && forall b :: b in payload ==> b != 0xFF
    ensures ValidFrame(Frame(id, payload)) <==> 1 <= |payload| <= 254
    ensures 1 <= |payload| <= 254 ==> Encode(Frame(id, payload)) == [0xFF, id, |payload|, 0] + payload
  {
    PlainIsItself(payload);
  }

  // ----- Between packets -----

  lemma {:induction false} NoiseIsSkipped(l: Link, noise: seq<byte>)
    requires AtRest(l) && forall b :: b in noise ==> b != 0xFF
    ensures
      var end := Fold(Feed, l, noise);
      AtRest(end) && end == l.(rx := end.rx)
    decreases |noise|
  {
    if noise != [] {
      assert noise[0] in noise && forall b :: b in noise[1..] ==> b in noise;
      NoiseIsSkipped(Feed(l, noise[0]), noise[1..]);
    }
  }

  lemma TokenTwice(l: Link)
    requires AtRest(l)
    ensures Feed(Feed(l, 0xFF), 0xFF) == Feed(l, 0xFF)
  {
  }

  lemma {:induction false} TokensAreOne(l: Link, k: nat, rest: seq<byte>)
    requires AtRest(l) && rest != [] && rest[0] == 0xFF
    ensures Fold(Feed, l, seq(k, _ => 0xFF) + rest) == Fold(Feed, l, rest)
    decreases k
  {
    if k == 0 {
      assert seq(0, _ => 0xFF) + rest == rest;
    } else {
      hide Feed;
      TokenTwice(l);
      var fewer := seq(k - 1, _ => 0xFF) + rest;
      var more := seq(k, _ => 0xFF) + rest;
      assert more[0] == 0xFF && more[1..] == fewer && fewer[0] == 0xFF;
      assert Fold(Feed, l, more) == Fold(Feed, Feed(l, 0xFF), fewer);
      assert Fold(Feed, Feed(l, 0xFF), fewer) == Fold(Feed, Feed(Feed(l, 0xFF), 0xFF), fewer[1..]);
      assert Fold(Feed, l, fewer) == Fold(Feed, Feed(l, 0xFF), fewer[1..]);
      TokensAreOne(l, k - 1, rest);
    }
  }

  /** From rest, any bytes but tokens, then any number of tokens, and then a frame: the
      frame is delivered as if it had come alone. */
  lemma FrameAfterNoise(l: Link, noise: seq<byte>, k: nat, f: Frame)
    requires AtRest(l) && (forall b :: b in noise ==> b != 0xFF)
    requires ValidFrame(f) && |f.payload| <= |l.buf|
    ensures Delivered(Fold(Feed, l, noise + (seq(k, _ => 0xFF) + Encode(f))), l, f)
  {
    hide Feed, Stuff;
    NoiseIsSkipped(l, noise);
    var quiet := Fold(Feed, l, noise);
    FoldAppend(Feed, l, noise, seq(k, _ => 0xFF) + Encode(f));
    TokensAreOne(quiet, k, Encode(f));
    FrameArrives(quiet, f, 0);
  }

  // ----- Lengths -----

  function Next(r: Receiver, data: byte): Receiver {
    AddReceiveByte(r, data).0
  }

  /** A length byte as a sender stuffs it: doubled if it is the token. */
  function Stuffed(r: Receiver, data: byte): Receiver {
    if data == 0xFF then Next(Next(r, data), data) else Next(r, data)
  }

  lemma LsbIsRead(r: Receiver, lsb: byte)
    requires r.state == WaitLengthLsb && r.prevData == 0
    ensures Stuffed(r, lsb) == r.(state := WaitLengthMsb, lengthReceived := lsb)
  {
  }

  lemma MsbIsRead(r: Receiver, msb: byte)
    requires r.state == WaitLengthMsb && r.prevData == 0 && r.lengthReceived < 256
    ensures
      var length, end := r.lengthReceived + 256 * msb, Stuffed(r, msb);
      && end.lengthReceived == length && end.messageId == r.messageId && end.prevData == 0
      && (length != 0 ==> end.state == GetData && end.bytesReceived == 0 && end.packetReceived == r.packetReceived)
      && (length == 0 ==> end.state == Idle && end.packetReceived && end.lastReceivedId == r.messageId)
  {
  }

  /** Any length is read from its two stuffed bytes. Data follows, from its first byte on;
      or, for length zero, the packet is complete and nothing more of it comes. */
  lemma LengthIsRead(r: Receiver, length: nat)
    requires r.state == WaitLengthLsb && r.prevData == 0 && length <= 65535
    ensures
      var end := Stuffed(Stuffed(r, length % 256), length / 256);
      && end.lengthReceived == length && end.messageId == r.messageId && end.prevData == 0
      && (length != 0 ==> end.state == GetData && end.bytesReceived == 0 && end.packetReceived == r.packetReceived)
      && (length == 0 ==> end.state == Idle && end.packetReceived && end.lastReceivedId == r.messageId)
  {
    hide Stuffed;
    LsbIsRead(r, length % 256);
    MsbIsRead(Stuffed(r, length % 256), length / 256);
  }

  // ----- A lone token in the data -----

  /** A token that is not doubled ends the packet: the byte behind it is taken for the
      first length byte of another one with the same id, and neither byte is data. */
  lemma LoneTokenAborts(r: Receiver, data: byte)
    requires r.state == GetData && r.prevData == 0 && data != 0xFF
    ensures !AddReceiveByte(r, 0xFF).1 && !AddReceiveByte(Next(r, 0xFF), data).1
    ensures Next(Next(r, 0xFF), data) == r.(state := WaitLengthMsb, lengthReceived := data)
  {
  }
}
