/** The badge's command protocol: the device's parser (commands.c) and the host's
    packets (python/kicon_badge.py). */
module Commands {
  import opened Bytes
  import opened Folds
  import opened Options

  // cmd_type_t and cmd_resp_t of commands_def.h
  const TYPE_RESET: byte := 0
  const TYPE_UART: byte := 1
  const TYPE_I2C: byte := 2
  const TYPE_SPI: byte := 3
  const TYPE_LED: byte := 5
  const TYPE_LCD: byte := 6
  const TYPE_BTN: byte := 7
  const RESP_RESET: byte := 1
  const RESP_OK: byte := 2
  const RESP_INVALID_CMD: byte := 3
  const RESP_OVERFLOW: byte := 4
  const RESP_CRC_ERR: byte := 5

  /** cmd_buf and cmd_resp_buf */
  type Buffer = b: seq<byte> | |b| == 257 witness seq(257, _ => 0)

  /** cmd_buf_idx between two bytes */
  type Index = n: nat | n < 257

  /** cmd_crc, and the host's _crc: all bytes exclusive-ored. */
  function Crc(data: seq<byte>): byte {
    Fold(XorByte, 0, data)
  }

  // ----- The device's parser -----

  /** What one received byte leads to. */
  datatype Outcome =
    | Waiting                                   // the command is not complete
    | Executed(kind: byte, data: seq<byte>)     // its handler was called
    | InvalidCommand
    | CrcError
    | Overflow
    | Reset

  /** handled: every outcome but Waiting, in order. */
  datatype Device = Device(buf: Buffer, idx: Index, overflow: bool, handled: seq<Outcome>)

  predicate HasHandler(kind: byte) {
    kind in {TYPE_UART, TYPE_BTN, TYPE_LED, TYPE_I2C, TYPE_SPI, TYPE_LCD}
  }

  function Execute(kind: byte, data: seq<byte>): Outcome {
    if HasHandler(kind) then Executed(kind, data) else InvalidCommand
  }

  /** cmd_new_data */
  function NewData(d: Device, data: byte): Device {
    var buf := d.buf[d.idx := data];
    if d.idx + 1 == 257 then d.(buf := buf, idx := 0, overflow := true)
    else d.(buf := buf, idx := d.idx + 1)
  }

  /** cmd_execute_normal, up to the response */
  function Decide(d: Device): Outcome {
    var length: nat := d.buf[0];
    if d.overflow then Overflow
    else if d.idx == 1 && length == TYPE_RESET then Reset
    else if length + 2 > d.idx then Waiting
    else if Crc(d.buf[1..length + 1]) != d.buf[length + 1] then CrcError
    else Execute(d.buf[1], if length == 0 then [] else d.buf[2..length + 1])
  }

  /** One round of the command loop: cmd_new_data, then cmd_try_execute. */
  function Receive(d: Device, data: byte): Device {
    var d1 := NewData(d, data);
    var outcome := Decide(d1);
    if outcome == Waiting then d1 else d1.(idx := 0, overflow := false, handled := d1.handled + [outcome])
  }

  /** After every processed byte: no overflow is pending, and the buffer is empty
      or holds part of a command whose length byte is not zero. */
  predicate Inv(d: Device) {
    !d.overflow && (d.idx == 0 || (1 <= d.buf[0] && d.idx <= d.buf[0] as int + 1))
  }

  lemma InvKept(d: Device, data: byte)
    requires Inv(d)
    ensures Inv(Receive(d, data))
  {
  }

  /** The device is inside a frame and holds its first k bytes. */
  predicate Holds(d: Device, frame: seq<byte>, k: nat) {
    !d.overflow && d.idx == k <= |frame| && k < 257 && d.buf[..k] == frame[..k]
  }

  // ----- The host's packets -----

  /** A command of the host: a type and the data behind it, if any. */
  datatype Command = Command(kind: byte, data: seq<byte>)

  function Payload(c: Command): seq<byte> {
    [c.kind] + c.data
  }

  /** Length, payload and CRC. */
  function Frame(payload: seq<byte>): seq<byte>
    requires |payload| <= 255
  {
    [|payload|] + payload + [Crc(payload)]
  }

  /** _make_cmd. struct.pack has no length byte for a payload over 255 bytes. */
  function MakeCmd(c: Command): Option<seq<byte>> {
    if |Payload(c)| > 255 then None else Some(Frame(Payload(c)))
  }

  /** _make_cmd without data, where _crc gets a bare integer. */
  function MakeBareCmd(kind: byte): seq<byte> {
    [1, kind, kind]
  }

  lemma BareCmdIsCmd(kind: byte)
    ensures MakeCmd(Command(kind, [])) == Some(MakeBareCmd(kind))
  {
    XorZero(kind);
    assert Payload(Command(kind, [])) == [kind];
    assert XorByte(0, kind) == kind;
    FoldEmpty(XorByte, kind, [kind][1..]);
    var packet := MakeCmd(Command(kind, [])).value;
    assert packet == MakeBareCmd(kind);
  }

  /** The commands that the device's buffer can take. */
  predicate Fits(c: Command) {
    |Payload(c)| <= 254
  }

  function FrameAll(cs: seq<Command>): seq<byte>
    requires forall c :: c in cs ==> Fits(c)
    decreases |cs|
  {
    if cs == [] then [] else
      assert Fits(cs[0]);
      Frame(Payload(cs[0])) + FrameAll(cs[1..])
  }

  function Outcomes(cs: seq<Command>): seq<Outcome>
    decreases |cs|
  {
    if cs == [] then [] else [Execute(cs[0].kind, cs[0].data)] + Outcomes(cs[1..])
  }

  // ----- Round trip -----

  /** A length byte of 1 to 254, as many payload bytes, and one byte more. */
  predicate IsFrame(frame: seq<byte>) {
    3 <= |frame| <= 256 && |frame| == frame[0] as int + 2
  }

  /** A byte that does not complete its command is stored, and nothing happens. */
  lemma StoresByte(d: Device, frame: seq<byte>, k: nat)
    requires IsFrame(frame)
    requires Holds(d, frame, k) && k + 1 < |frame|
    ensures Holds(Receive(d, frame[k]), frame, k + 1)
    ensures Receive(d, frame[k]).handled == d.handled
  {
    var d1 := NewData(d, frame[k]);
    assert d1.buf[..k + 1] == frame[..k] + [frame[k]] == frame[..k + 1];
    assert d1.buf[0] == frame[0];
  }

  /** The last byte of a frame of any content decides it. */
  lemma CompletesFrame(d: Device, frame: seq<byte>, k: nat)
    requires IsFrame(frame)
    requires Holds(d, frame, k) && k + 1 == |frame|
    ensures
      var end := Receive(d, frame[k]);
      var payload := frame[1..|frame| - 1];
      && end.idx == 0 && !end.overflow
      && end.handled == d.handled +
         [if Crc(payload) != frame[|frame| - 1] then CrcError
          else if payload[0] in {1, 2, 3, 5, 6, 7} then Executed(payload[0], payload[1..]) else InvalidCommand]
  {
    hide Crc, Execute;
    var d1 := NewData(d, frame[k]);
    var length: nat := frame[0];
    assert d1.buf[..k + 1] == frame[..k] + [frame[k]] == frame;
    assert d1.buf[0] == length && d1.idx == |frame|;
    assert d1.buf[1..length + 1] == d1.buf[..k + 1][1..length + 1] == frame[1..|frame| - 1];
    assert d1.buf[2..length + 1] == d1.buf[1..length + 1][1..];
    assert d1.buf[length + 1] == d1.buf[..k + 1][length + 1] == frame[|frame| - 1];
    assert d1.buf[1] == frame[1..|frame| - 1][0];
    var payload := frame[1..|frame| - 1];
    assert Decide(d1) == if Crc(payload) != frame[|frame| - 1] then CrcError else Execute(payload[0], payload[1..]);
    ExecuteIs(payload[0], payload[1..]);
  }

  /** The command types with a handler, by their numbers. */
  lemma ExecuteIs(kind: byte, data: seq<byte>)
    ensures Execute(kind, data) == if kind in {1, 2, 3, 5, 6, 7} then Executed(kind, data) else InvalidCommand
  {
  }

  /** Feeding a frame of at most 254 payload bytes, byte by byte from a state that
      holds its beginning: nothing happens on any proper prefix, then one outcome. */
  lemma {:induction false} FrameIsDecided(d: Device, frame: seq<byte>, k: nat)
    requires IsFrame(frame)
    requires Holds(d, frame, k) && k < |frame|
    ensures
      var end := Fold(Receive, d, frame[k..]);
      var payload := frame[1..|frame| - 1];
      && end.idx == 0 && !end.overflow
      && end.handled == d.handled +
         [if Crc(payload) != frame[|frame| - 1] then CrcError
          else if payload[0] in {1, 2, 3, 5, 6, 7} then Executed(payload[0], payload[1..]) else InvalidCommand]
    ensures forall n :: k <= n < |frame| ==> Fold(Receive, d, frame[k..n]).handled == d.handled
    decreases |frame| - k
  {
    hide Receive, Crc;
    var next := Receive(d, frame[k]);
    assert frame[k..][1..] == frame[k + 1..];
    if k + 1 == |frame| {
      CompletesFrame(d, frame, k);
      assert frame[k + 1..] == [];
      assert frame[k..k] == [];
    } else {
      StoresByte(d, frame, k);
      FrameIsDecided(next, frame, k + 1);
      forall n | k <= n < |frame| ensures Fold(Receive, d, frame[k..n]).handled == d.handled {
        if k < n {
          assert frame[k..n][0] == frame[k] && frame[k..n][1..] == frame[k + 1..n];
        }
      }
    }
  }

  /** One host command reaches its handler once, with its type and data, at its
      last byte and not before. */
  lemma CommandArrives(d: Device, c: Command)
    requires Inv(d) && d.idx == 0 && Fits(c)
    ensures MakeCmd(c) == Some(Frame(Payload(c)))
    ensures
      var bytes := Frame(Payload(c));
      var end := Fold(Receive, d, bytes);
      && Inv(end) && end.idx == 0
      && end.handled == d.handled +
           [if c.kind in {1, 2, 3, 5, 6, 7} then Executed(c.kind, c.data) else InvalidCommand]
      && forall n :: 0 <= n < |bytes| ==> Fold(Receive, d, bytes[..n]).handled == d.handled
  {
    hide Receive, Crc;
    var bytes := Frame(Payload(c));
    FrameIsDecided(d, bytes, 0);
    assert bytes[0..] == bytes && bytes[1..|bytes| - 1] == Payload(c) && Payload(c)[1..] == c.data;
    forall n | 0 <= n < |bytes| ensures Fold(Receive, d, bytes[..n]).handled == d.handled {
      assert bytes[0..n] == bytes[..n];
    }
  }

  lemma CommandOutcome(d: Device, c: Command)
    requires Inv(d) && d.idx == 0 && Fits(c)
    ensures
      var end := Fold(Receive, d, Frame(Payload(c)));
      Inv(end) && end.idx == 0 && end.handled == d.handled + [Execute(c.kind, c.data)]
  {
    hide Receive, Frame, Execute, Inv, Payload;
    CommandArrives(d, c);
    ExecuteIs(c.kind, c.data);
  }

  lemma {:induction false} StreamOutcomes(d: Device, cs: seq<Command>)
    requires Inv(d) && d.idx == 0
    requires forall c :: c in cs ==> Fits(c)
    ensures
      var end := Fold(Receive, d, FrameAll(cs));
      Inv(end) && end.idx == 0 && end.handled == d.handled + Outcomes(cs)
    decreases |cs|
  {
    hide Receive, Frame, Execute, Inv, Payload;
    if cs != [] {
      CommandOutcome(d, cs[0]);
      var next := Fold(Receive, d, Frame(Payload(cs[0])));
      FoldAppend(Receive, d, Frame(Payload(cs[0])), FrameAll(cs[1..]));
      StreamOutcomes(next, cs[1..]);
      assert next.handled + Outcomes(cs[1..]) == d.handled + Outcomes(cs);
    }
  }

  lemma {:induction false} OutcomesAre(cs: seq<Command>)
    ensures |Outcomes(cs)| == |cs|
    ensures forall i :: 0 <= i < |cs| && cs[i].kind in {1, 2, 3, 5, 6, 7} ==>
      Outcomes(cs)[i] == Executed(cs[i].kind, cs[i].data)
    ensures forall i :: 0 <= i < |cs| && cs[i].kind !in {1, 2, 3, 5, 6, 7} ==> Outcomes(cs)[i] == InvalidCommand
    decreases |cs|
  {
    hide Execute;
    if cs != [] {
      ExecuteIs(cs[0].kind, cs[0].data);
      OutcomesAre(cs[1..]);
    }
  }

  /** For every list of host commands that fit, the concatenated packets, received
      one byte at a time, lead to exactly one outcome per command, in order: the handler
      of its type is called with its data, or there is none for its type. */
  lemma StreamRoundTrip(d: Device, cs: seq<Command>)
    requires Inv(d) && d.idx == 0
    requires forall c :: c in cs ==> Fits(c)
    ensures
      var end := Fold(Receive, d, FrameAll(cs));
      && Inv(end) && end.idx == 0
      && |end.handled| == |d.handled| + |cs| && end.handled[..|d.handled|] == d.handled
      && (forall i :: 0 <= i < |cs| && cs[i].kind in {1, 2, 3, 5, 6, 7} ==>
            end.handled[|d.handled| + i] == Executed(cs[i].kind, cs[i].data))
      && (forall i :: 0 <= i < |cs| && cs[i].kind !in {1, 2, 3, 5, 6, 7} ==>
            end.handled[|d.handled| + i] == InvalidCommand)
  {
    hide Receive, FrameAll, Inv, Fits;
    StreamOutcomes(d, cs);
    OutcomesAre(cs);
  }
}
