/** The device's response buffer and the host's reading of a response. */
module CommandResponses {
  import opened Bytes
  import opened Commands
  import opened CommandRecovery
  import opened Folds

  // ----- Device -----

  /** The response payload that the buffer holds: status, then data. */
  function RespPayload(buf: Buffer): seq<byte> {
    buf[1..buf[0] as int + 1]
  }

  function RespInit(buf: Buffer, status: byte): Buffer {
    buf[0 := 1][1 := status]
  }

  /** The length is an 8-bit field. */
  function RespWrite(buf: Buffer, data: byte): Buffer {
    var length: byte := (buf[0] as int + 1) % 256;
    buf[0 := length][length := data]
  }

  /** The caller's data has to end inside the buffer. */
  function RespWriten(buf: Buffer, data: seq<byte>): Buffer
    requires buf[0] as int + 1 + |data| <= 257
  {
    var start := buf[0] as int + 1;
    var copied := buf[..start] + data + buf[start + |data|..];
    copied[0 := (buf[0] as int + |data|) % 256]
  }

  /** cmd_fix_resp_crc */
  function FixCrc(buf: Buffer): Buffer {
    buf[buf[0] as int + 1 := Crc(RespPayload(buf))]
  }

  /** What the command loop sends: cmd_response keeps the length in eight bits. */
  function Transmitted(buf: Buffer): seq<byte> {
    buf[..(buf[0] as int + 2) % 256]
  }

  lemma InitStartsPayload(buf: Buffer, status: byte)
    ensures RespPayload(RespInit(buf, status)) == [status]
  {
  }

  lemma WriteAppends(buf: Buffer, data: byte)
    requires buf[0] < 255
    ensures RespPayload(RespWrite(buf, data)) == RespPayload(buf) + [data]
  {
  }

  lemma WritenAppends(buf: Buffer, data: seq<byte>)
    requires buf[0] as int + |data| <= 255
    ensures RespPayload(RespWriten(buf, data)) == RespPayload(buf) + data
  {
  }

  lemma FixCrcMakesFrame(buf: Buffer)
    ensures
      var payload := RespPayload(buf);
      RespPayload(FixCrc(buf)) == payload && FixCrc(buf)[..|payload| + 2] == Frame(payload)
  {
    hide Crc;
    var payload, fixed := RespPayload(buf), FixCrc(buf);
    assert fixed[..|payload| + 2] == [fixed[0]] + fixed[1..|payload| + 1] + [fixed[|payload| + 1]];
  }

  /** The whole frame is sent exactly when its payload is at most 253 bytes; at 254
      nothing is sent, and at 255 only the length byte. */
  lemma SentWholeUpTo253(buf: Buffer)
    ensures
      var payload := RespPayload(buf);
      && (Transmitted(FixCrc(buf)) == Frame(payload) <==> |payload| <= 253)
      && (|payload| == 254 ==> Transmitted(FixCrc(buf)) == [])
      && (|payload| == 255 ==> Transmitted(FixCrc(buf)) == [255])
  {
    hide Crc;
    FixCrcMakesFrame(buf);
  }

  // ----- Host -----

  /** The results of _get_resp; all but Data are exceptions. */
  datatype Answer =
    | Data(data: seq<byte>)
    | NotOk(status: byte, data: seq<byte>)
    | CrcMismatch
    | NoAnswer

  /** _get_resp on the bytes that have arrived; reads come up short at their end. */
  function GetResp(stream: seq<byte>): (Answer, seq<byte>) {
    if stream == [] then (NoAnswer, [])
    else
      var length := stream[0] as int + 1;
      var wanted := if length <= |stream| - 1 then length else |stream| - 1;
      var respData, rest := stream[1..wanted + 1], stream[wanted + 1..];
      if respData == [] then (NoAnswer, rest)
      else
        var last := |respData| - 1;
        var raw := if last == 0 then [] else respData[1..last];
        if respData[last] != Crc(respData[..last]) then (CrcMismatch, rest)
        else if respData[0] != RESP_OK then (NotOk(respData[0], raw), rest)
        else (Data(raw), rest)
  }

  function AnswerOf(payload: seq<byte>): Answer
    requires payload != []
  {
    if payload[0] == RESP_OK then Data(payload[1..]) else NotOk(payload[0], payload[1..])
  }

  /** A frame is read as its status and data, and no byte beyond it is consumed. */
  lemma FrameIsRead(payload: seq<byte>, rest: seq<byte>)
    requires 1 <= |payload| <= 255
    ensures GetResp(Frame(payload) + rest) == (AnswerOf(payload), rest)
  {
    hide Crc;
    var stream := Frame(payload) + rest;
    var length := stream[0] as int + 1;
    assert stream[1..length + 1] == payload + [Crc(payload)];
    assert (payload + [Crc(payload)])[..|payload|] == payload;
    assert stream[length + 1..] == rest;
    assert |payload| > 1 ==> (payload + [Crc(payload)])[1..|payload|] == payload[1..];
  }

  /** What a handler does after cmd_resp_init: any mixture of the two writes. */
  datatype Write = One(data: byte) | Many(block: seq<byte>)

  function WrittenBy(w: Write): seq<byte> {
    match w
    case One(data) => [data]
    case Many(block) => block
  }

  function AllWritten(ws: seq<Write>): seq<byte>
    decreases |ws|
  {
    if ws == [] then [] else WrittenBy(ws[0]) + AllWritten(ws[1..])
  }

  /** The length byte after a write. A single write that brings it round to zero puts
      its data there. */
  function LengthAfter(length: byte, w: Write): byte {
    match w
    case One(data) => if length == 255 then data else length + 1
    case Many(block) => (length + |block|) % 256
  }

  /** Every block ends inside the buffer. */
  predicate StaysInside(length: byte, ws: seq<Write>)
    decreases |ws|
  {
    ws == [] ||
    ((ws[0].Many? ==> length + 1 + |ws[0].block| <= 257) && StaysInside(LengthAfter(length, ws[0]), ws[1..]))
  }

  function Put(buf: Buffer, w: Write): (r: Buffer)
    requires w.Many? ==> buf[0] as int + 1 + |w.block| <= 257
    ensures r[0] == LengthAfter(buf[0], w)
  {
    match w
    case One(data) => RespWrite(buf, data)
    case Many(block) => RespWriten(buf, block)
  }

  function Build(buf: Buffer, ws: seq<Write>): Buffer
    requires StaysInside(buf[0], ws)
    decreases |ws|
  {
    if ws == [] then buf else Build(Put(buf, ws[0]), ws[1..])
  }

  lemma PutAppends(buf: Buffer, w: Write)
    requires buf[0] as int + |WrittenBy(w)| <= 255
    ensures RespPayload(Put(buf, w)) == RespPayload(buf) + WrittenBy(w)
    ensures Put(buf, w)[0] as int == buf[0] as int + |WrittenBy(w)|
  {
    match w
    case One(data) => WriteAppends(buf, data);
    case Many(block) => WritenAppends(buf, block);
  }

  lemma {:induction false} ShortWritesStayInside(length: byte, ws: seq<Write>)
    requires length as int + |AllWritten(ws)| <= 255
    ensures StaysInside(length, ws)
    decreases |ws|
  {
    if ws != [] {
      ShortWritesStayInside(LengthAfter(length, ws[0]), ws[1..]);
    }
  }

  lemma {:induction false} BuildAppends(buf: Buffer, ws: seq<Write>)
    requires buf[0] as int + |AllWritten(ws)| <= 255
    ensures StaysInside(buf[0], ws)
    ensures RespPayload(Build(buf, ws)) == RespPayload(buf) + AllWritten(ws)
    decreases |ws|
  {
    ShortWritesStayInside(buf[0], ws);
    hide Put, RespPayload, WrittenBy, LengthAfter, AllWritten;
    JoinWrites(RespPayload(buf), ws);
    if ws != [] {
      var next := PutOne(buf, ws);
      BuildAppends(next, ws[1..]);
    }
  }

  lemma JoinWrites(payload: seq<byte>, ws: seq<Write>)
    ensures ws == [] ==> payload + AllWritten(ws) == payload
    ensures ws != [] ==>
      && |AllWritten(ws)| == |WrittenBy(ws[0])| + |AllWritten(ws[1..])|
      && payload + AllWritten(ws) == payload + WrittenBy(ws[0]) + AllWritten(ws[1..])
  {
  }

  lemma PutOne(buf: Buffer, ws: seq<Write>) returns (next: Buffer)
    requires ws != [] && StaysInside(buf[0], ws) && buf[0] as int + |WrittenBy(ws[0])| <= 255
    ensures next[0] as int == buf[0] as int + |WrittenBy(ws[0])| && StaysInside(next[0], ws[1..])
    ensures RespPayload(next) == RespPayload(buf) + WrittenBy(ws[0])
    ensures Build(buf, ws) == Build(next, ws[1..])
  {
    hide RespPayload;
    PutAppends(buf, ws[0]);
    next := Put(buf, ws[0]);
  }

  /** A response as a handler writes it. No handler answers with CMD_RESP_NULL. */
  datatype Written = Written(status: byte, writes: seq<Write>)

  /** CMD_RESP_NULL */
  const RESP_NULL: byte := 0

  type Response = r: Written | r.status != RESP_NULL && StaysInside(1, r.writes) witness Written(RESP_OK, [])

  function PayloadOf(r: Response): (payload: seq<byte>)
    ensures payload != []
  {
    [r.status] + AllWritten(r.writes)
  }

  /** The response buffer after cmd_resp_init, the writes and cmd_fix_resp_crc. */
  function Answered(buf: Buffer, r: Response): Buffer {
    FixCrc(Build(RespInit(buf, r.status), r.writes))
  }

  /** A response of at most 253 payload bytes goes out as its frame. */
  lemma ShortResponseIsFrame(buf: Buffer, r: Response)
    requires |PayloadOf(r)| <= 253
    ensures Transmitted(Answered(buf, r)) == Frame(PayloadOf(r))
  {
    hide Crc, Frame, FixCrc, Transmitted, RespPayload, Build, AllWritten;
    InitStartsPayload(buf, r.status);
    BuildAppends(RespInit(buf, r.status), r.writes);
    SentWholeUpTo253(Build(RespInit(buf, r.status), r.writes));
  }

  /** Never more than 255 bytes go out. */
  lemma TransmittedIsShort(buf: Buffer)
    ensures |Transmitted(buf)| <= 255
  {
  }

  /** To read a payload the host has to take all of its bytes. */
  lemma AnswerTakesItsBytes(stream: seq<byte>, payload: seq<byte>)
    requires payload != [] && payload[0] != RESP_NULL
    requires GetResp(stream).0 == AnswerOf(payload)
    ensures |GetResp(stream).1| + |payload| + 2 <= |stream|
  {
    hide Fold, XorByte;
    var length := stream[0] as int + 1;
    var wanted := if length <= |stream| - 1 then length else |stream| - 1;
    var respData := stream[1..wanted + 1];
    FoldEmpty(XorByte, 0, respData[..0]);
    assert respData != [] && GetResp(stream).1 == stream[|respData| + 1..];
    assert 1 < |respData|;
    assert GetResp(stream).0.data == respData[1..|respData| - 1];
    assert AnswerOf(payload).data == payload[1..];
    assert |respData[1..|respData| - 1]| == |payload[1..]|;
  }

  /** For every status and every mixture of writes that stays inside the buffer, whatever
      the buffer held before and however often the length byte wraps: the host reads what
      was written, and no byte more, if and only if the payload has at most 253 bytes. */
  lemma ResponseRoundTrip(buf: Buffer, r: Response)
    ensures GetResp(Transmitted(Answered(buf, r))) == (AnswerOf(PayloadOf(r)), []) <==> |PayloadOf(r)| <= 253
  {
    hide GetResp, AnswerOf, Transmitted, Answered, Frame;
    var sent := Transmitted(Answered(buf, r));
    if |PayloadOf(r)| <= 253 {
      ShortResponseIsFrame(buf, r);
      FrameIsRead(PayloadOf(r), []);
      assert sent + [] == sent;
    } else {
      TransmittedIsShort(Answered(buf, r));
      if GetResp(sent).0 == AnswerOf(PayloadOf(r)) {
        AnswerTakesItsBytes(sent, PayloadOf(r));
      }
    }
  }

  /** cmd_spi with a count of 255 writes as many bytes one by one: the length byte wraps
      and the host does not read them. */
  lemma LongTransferIsNotRead(buf: Buffer, data: seq<Write>)
    requires |data| == 255 && forall w :: w in data ==> w.One?
    ensures StaysInside(1, data)
    ensures
      var r: Response := Written(RESP_OK, data);
      GetResp(Transmitted(Answered(buf, r))) != (AnswerOf(PayloadOf(r)), [])
  {
    SingleWrites(1, data);
    hide GetResp, AnswerOf, Transmitted, Answered, StaysInside;
    ResponseRoundTrip(buf, Written(RESP_OK, data));
  }

  lemma {:induction false} SingleWrites(length: byte, data: seq<Write>)
    requires forall w :: w in data ==> w.One?
    ensures StaysInside(length, data) && |AllWritten(data)| == |data|
    decreases |data|
  {
    if data != [] {
      SingleWrites(LengthAfter(length, data[0]), data[1..]);
    }
  }

  /** On the host: a response with one wrong status, data or CRC byte is refused. */
  lemma CorruptedResponseIsRefused(payload: seq<byte>, i: nat, x: byte, rest: seq<byte>)
    requires 1 <= |payload| <= 255
    requires 1 <= i < |Frame(payload)| && x != Frame(payload)[i]
    ensures GetResp(Frame(payload)[i := x] + rest) == (CrcMismatch, rest)
  {
    hide Crc;
    var frame := Frame(payload)[i := x];
    CorruptedFrameFailsCrc(payload, i, x);
    var stream := frame + rest;
    var length := stream[0] as int + 1;
    assert length == |payload| + 1;
    assert stream[1..length + 1] == frame[1..];
    assert frame[1..][..|payload|] == frame[1..|frame| - 1];
    assert stream[length + 1..] == rest;
  }
}
