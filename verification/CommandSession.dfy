/** A whole conversation: the device's command loop (app_command_func in commands.c)
    writes a response for each command, and the host reads the responses back. */
module CommandSession {
  import opened Bytes
  import opened CommandResponses
  import opened Commands
  import opened Folds

  /** The response that the handler of a command type builds for the command's data. */
  type Handlers = (byte, seq<byte>) -> Response

  /** The response to each outcome. */
  function Reply(outcome: Outcome, handlers: Handlers): Response {
    match outcome
    case Overflow => Written(RESP_OVERFLOW, [])
    case Reset => Written(RESP_RESET, [])
    case CrcError => Written(RESP_CRC_ERR, [])
    case InvalidCommand => Written(RESP_INVALID_CMD, [])
    case Executed(kind, data) => handlers(kind, data)
    case Waiting => Written(RESP_OK, [])
  }

  /** The device with its response buffer, and what it has written to the host. */
  datatype Session = Session(device: Device, resp: Buffer, sent: seq<byte>)

  /** One received byte and, when it decides a command, the response. */
  function Serve(handlers: Handlers, s: Session, data: byte): Session {
    var device, outcome := Receive(s.device, data), Decide(NewData(s.device, data));
    if outcome == Waiting then s.(device := device)
    else
      var resp := Answered(s.resp, Reply(outcome, handlers));
      Session(device, resp, s.sent + Transmitted(resp))
  }

  function ServeAll(handlers: Handlers, s: Session, bytes: seq<byte>): Session
    decreases |bytes|
  {
    if bytes == [] then s else ServeAll(handlers, Serve(handlers, s, bytes[0]), bytes[1..])
  }

  /** What goes out for a list of outcomes, from some content of the response buffer. */
  function SentForAll(resp: Buffer, outcomes: seq<Outcome>, handlers: Handlers): seq<byte>
    decreases |outcomes|
  {
    if outcomes == [] then []
    else
      var next := Answered(resp, Reply(outcomes[0], handlers));
      Transmitted(next) + SentForAll(next, outcomes[1..], handlers)
  }

  /** A byte that decides a command adds its outcome and the response to it. */
  lemma ServeAddsOne(handlers: Handlers, s: Session, data: byte)
    ensures
      var next, outcome := Serve(handlers, s, data), Decide(NewData(s.device, data));
      && next.device == Receive(s.device, data)
      && next.device.handled == s.device.handled + (if outcome == Waiting then [] else [outcome])
      && next.resp == (if outcome == Waiting then s.resp else Answered(s.resp, Reply(outcome, handlers)))
      && next.sent == s.sent + if outcome == Waiting then [] else Transmitted(next.resp)
  {
    hide Answered, Transmitted, Reply, Decide;
  }

  /** The bytes written are the responses to the outcomes, in order. */
  lemma {:induction false} SessionSends(handlers: Handlers, s: Session, bytes: seq<byte>)
    ensures
      var end := ServeAll(handlers, s, bytes);
      && end.device == Fold(Receive, s.device, bytes)
      && s.device.handled <= end.device.handled
      && end.sent == s.sent + SentForAll(s.resp, end.device.handled[|s.device.handled|..], handlers)
    decreases |bytes|
  {
    hide Answered, Transmitted, Reply, Serve, Receive, Decide;
    if bytes == [] {
      assert s.device.handled[|s.device.handled|..] == [];
    } else {
      var next := Serve(handlers, s, bytes[0]);
      ServeAddsOne(handlers, s, bytes[0]);
      SessionSends(handlers, next, bytes[1..]);
      var end := ServeAll(handlers, s, bytes);
      if next.device.handled != s.device.handled {
        var outcomes := end.device.handled[|s.device.handled|..];
        assert outcomes[1..] == end.device.handled[|next.device.handled|..];
        assert outcomes[0] == next.device.handled[|s.device.handled|];
      }
    }
  }

  /** _get_resp, n times in a row */
  function GetResps(stream: seq<byte>, n: nat): (seq<Answer>, seq<byte>) {
    if n == 0 then ([], stream)
    else
      var (answer, rest) := GetResp(stream);
      var (answers, end) := GetResps(rest, n - 1);
      ([answer] + answers, end)
  }

  function Answers(outcomes: seq<Outcome>, handlers: Handlers): (r: seq<Answer>)
    ensures |r| == |outcomes|
    decreases |outcomes|
  {
    if outcomes == [] then []
    else [AnswerOf(PayloadOf(Reply(outcomes[0], handlers)))] + Answers(outcomes[1..], handlers)
  }

  /** Every response is short enough to be sent whole. */
  ghost predicate AllSentWhole(outcomes: seq<Outcome>, handlers: Handlers) {
    forall o :: o in outcomes ==> |PayloadOf(Reply(o, handlers))| <= 253
  }

  lemma {:induction false} WholeResponsesAreRead(resp: Buffer, outcomes: seq<Outcome>, handlers: Handlers)
    requires AllSentWhole(outcomes, handlers)
    ensures GetResps(SentForAll(resp, outcomes, handlers), |outcomes|) == (Answers(outcomes, handlers), [])
    decreases |outcomes|
  {
    hide GetResp, Frame, Answered, Transmitted, Reply, AnswerOf, PayloadOf;
    if outcomes != [] {
      var r := Reply(outcomes[0], handlers);
      var next := Answered(resp, r);
      ShortResponseIsFrame(resp, r);
      FrameIsRead(PayloadOf(r), SentForAll(next, outcomes[1..], handlers));
      WholeResponsesAreRead(next, outcomes[1..], handlers);
    }
  }

  function BytesOf(outcomes: seq<Outcome>, handlers: Handlers): nat
    decreases |outcomes|
  {
    if outcomes == [] then 0 else |PayloadOf(Reply(outcomes[0], handlers))| + 2 + BytesOf(outcomes[1..], handlers)
  }

  lemma {:induction false} AnswersTakeTheirBytes(stream: seq<byte>, outcomes: seq<Outcome>, handlers: Handlers)
    requires GetResps(stream, |outcomes|).0 == Answers(outcomes, handlers)
    ensures BytesOf(outcomes, handlers) <= |stream|
    decreases |outcomes|
  {
    hide GetResp, AnswerOf, Reply;
    if outcomes != [] {
      var (answer, rest) := GetResp(stream);
      var more := GetResps(rest, |outcomes| - 1).0;
      assert ([answer] + more)[1..] == more;
      assert Answers(outcomes, handlers)[1..] == Answers(outcomes[1..], handlers);
      AnswerTakesItsBytes(stream, PayloadOf(Reply(outcomes[0], handlers)));
      AnswersTakeTheirBytes(rest, outcomes[1..], handlers);
    }
  }

  /** A response sends its payload and two bytes more, or less when it is too long. */
  lemma ResponseSends(resp: Buffer, r: Response)
    ensures |Transmitted(Answered(resp, r))| <= |PayloadOf(r)| + 2
    ensures 253 < |PayloadOf(r)| ==> |Transmitted(Answered(resp, r))| < |PayloadOf(r)| + 2
  {
    hide Answered, PayloadOf, Transmitted, Crc;
    TransmittedIsShort(Answered(resp, r));
    if |PayloadOf(r)| <= 253 {
      ShortResponseIsFrame(resp, r);
    }
  }

  lemma {:induction false} CutResponsesSendLess(resp: Buffer, outcomes: seq<Outcome>, handlers: Handlers)
    ensures |SentForAll(resp, outcomes, handlers)| <= BytesOf(outcomes, handlers)
    ensures !AllSentWhole(outcomes, handlers) ==> |SentForAll(resp, outcomes, handlers)| < BytesOf(outcomes, handlers)
    decreases |outcomes|
  {
    hide Answered, Transmitted, Reply, PayloadOf;
    if outcomes != [] {
      var r := Reply(outcomes[0], handlers);
      ResponseSends(resp, r);
      CutResponsesSendLess(Answered(resp, r), outcomes[1..], handlers);
      assert outcomes == [outcomes[0]] + outcomes[1..];
    }
  }

  /** Over any list of outcomes the host reads the responses to them, and no byte more,
      if and only if each response has at most 253 bytes. */
  lemma ResponsesReadExact(resp: Buffer, outcomes: seq<Outcome>, handlers: Handlers)
    ensures GetResps(SentForAll(resp, outcomes, handlers), |outcomes|) == (Answers(outcomes, handlers), [])
      <==> AllSentWhole(outcomes, handlers)
  {
    hide GetResps, SentForAll, AllSentWhole;
    if AllSentWhole(outcomes, handlers) {
      WholeResponsesAreRead(resp, outcomes, handlers);
    } else {
      CutResponsesSendLess(resp, outcomes, handlers);
      if GetResps(SentForAll(resp, outcomes, handlers), |outcomes|).0 == Answers(outcomes, handlers) {
        AnswersTakeTheirBytes(SentForAll(resp, outcomes, handlers), outcomes, handlers);
      }
    }
  }

  lemma ConversationExact(d: Device, resp: Buffer, cs: seq<Command>, handlers: Handlers)
    requires Inv(d) && d.idx == 0
    requires forall c :: c in cs ==> Fits(c)
    ensures |Outcomes(cs)| == |cs|
    ensures
      var end := ServeAll(handlers, Session(d, resp, []), FrameAll(cs));
      && Inv(end.device) && end.device.idx == 0
      && (GetResps(end.sent, |cs|) == (Answers(Outcomes(cs), handlers), []) <==> AllSentWhole(Outcomes(cs), handlers))
  {
    hide Receive, Inv, FrameAll, AllSentWhole, GetResps, Answers, SentForAll, ServeAll;
    StreamOutcomes(d, cs);
    SessionSends(handlers, Session(d, resp, []), FrameAll(cs));
    assert (d.handled + Outcomes(cs))[|d.handled|..] == Outcomes(cs);
    assert ServeAll(handlers, Session(d, resp, []), FrameAll(cs)).sent == SentForAll(resp, Outcomes(cs), handlers);
    OutcomesAre(cs);
    ResponsesReadExact(resp, Outcomes(cs), handlers);
  }

  /** What the host should be told about a command: what its handler wrote, as data if the
      status is 2 (OK), or status 3 (invalid command) if its type has no handler. */
  predicate IsAnswer(answer: Answer, c: Command, handlers: Handlers) {
    if c.kind in {1, 2, 3, 5, 6, 7} then
      var r := handlers(c.kind, c.data);
      answer == if r.status == 2 then Data(AllWritten(r.writes)) else NotOk(r.status, AllWritten(r.writes))
    else
      answer == NotOk(3, [])
  }

  lemma AnswerIs(c: Command, handlers: Handlers, outcome: Outcome)
    requires c.kind in {1, 2, 3, 5, 6, 7} ==> outcome == Executed(c.kind, c.data)
    requires c.kind !in {1, 2, 3, 5, 6, 7} ==> outcome == InvalidCommand
    ensures forall answer :: IsAnswer(answer, c, handlers) <==> answer == AnswerOf(PayloadOf(Reply(outcome, handlers)))
    ensures |PayloadOf(Reply(outcome, handlers))|
      == 1 + if c.kind in {1, 2, 3, 5, 6, 7} then |AllWritten(handlers(c.kind, c.data).writes)| else 0
  {
    var r := Reply(outcome, handlers);
    assert PayloadOf(r)[0] == r.status && PayloadOf(r)[1..] == AllWritten(r.writes);
  }

  lemma {:induction false} AnswersAt(outcomes: seq<Outcome>, handlers: Handlers)
    ensures forall i :: 0 <= i < |outcomes| ==>
      Answers(outcomes, handlers)[i] == AnswerOf(PayloadOf(Reply(outcomes[i], handlers)))
    decreases |outcomes|
  {
    hide AnswerOf, PayloadOf, Reply;
    if outcomes != [] {
      AnswersAt(outcomes[1..], handlers);
    }
  }

  lemma {:induction false} RespsAreMany(stream: seq<byte>, n: nat)
    ensures |GetResps(stream, n).0| == n
    decreases n
  {
    hide GetResp;
    if n != 0 {
      RespsAreMany(GetResp(stream).1, n - 1);
    }
  }

  /** The answers that the host should read, and when responses are short enough. */
  lemma AnswersAreRight(cs: seq<Command>, handlers: Handlers, answers: seq<Answer>)
    requires |answers| == |cs| == |Outcomes(cs)|
    ensures answers == Answers(Outcomes(cs), handlers)
      <==> forall i :: 0 <= i < |cs| ==> IsAnswer(answers[i], cs[i], handlers)
    ensures AllSentWhole(Outcomes(cs), handlers)
      <==> forall i :: 0 <= i < |cs| && cs[i].kind in {1, 2, 3, 5, 6, 7} ==>
             |AllWritten(handlers(cs[i].kind, cs[i].data).writes)| <= 252
  {
    var outcomes := Outcomes(cs);
    OutcomesAre(cs);
    AnswersAt(outcomes, handlers);
    hide AnswerOf, PayloadOf, Reply, IsAnswer, AllWritten, Outcomes, Answers;
    forall i | 0 <= i < |cs|
      ensures IsAnswer(answers[i], cs[i], handlers) <==> answers[i] == Answers(outcomes, handlers)[i]
      ensures |PayloadOf(Reply(outcomes[i], handlers))| <= 253
        <==> (cs[i].kind in {1, 2, 3, 5, 6, 7} ==> |AllWritten(handlers(cs[i].kind, cs[i].data).writes)| <= 252)
    {
      AnswerIs(cs[i], handlers, outcomes[i]);
    }
  }

  /** The conversation. For every list of commands that fit the device's buffer, and any
      handlers: the device, receiving the packets byte by byte, is ready for the next
      command afterwards, and the host reads from what came back exactly one answer per
      command, what the handler of its type wrote when called with its data, if and only
      if no handler writes more than 252 bytes behind its status. */
  lemma SessionRoundTrip(d: Device, resp: Buffer, cs: seq<Command>, handlers: Handlers)
    requires Inv(d) && d.idx == 0
    requires forall c :: c in cs ==> Fits(c)
    ensures
      var end := ServeAll(handlers, Session(d, resp, []), FrameAll(cs));
      var (answers, rest) := GetResps(end.sent, |cs|);
      && Inv(end.device) && end.device.idx == 0 && |answers| == |cs|
      && (rest == [] && (forall i :: 0 <= i < |cs| ==> IsAnswer(answers[i], cs[i], handlers))
          <==> forall i :: 0 <= i < |cs| && cs[i].kind in {1, 2, 3, 5, 6, 7} ==>
                 |AllWritten(handlers(cs[i].kind, cs[i].data).writes)| <= 252)
  {
    hide Inv, FrameAll, AllSentWhole, GetResps, Answers, ServeAll, Outcomes, IsAnswer, AllWritten;
    ConversationExact(d, resp, cs, handlers);
    var sent := ServeAll(handlers, Session(d, resp, []), FrameAll(cs)).sent;
    RespsAreMany(sent, |cs|);
    AnswersAreRight(cs, handlers, GetResps(sent, |cs|).0);
  }

  // ----- The responses to errors -----

  lemma CrcOfOne(x: byte)
    ensures Crc([x]) == x
  {
    XorZero(x);
    FoldEmpty(XorByte, XorByte(0, x), [x][1..]);
  }

  lemma ErrorIsSent(resp: Buffer, outcome: Outcome, handlers: Handlers, status: byte)
    requires !outcome.Executed? && Reply(outcome, handlers) == Written(status, [])
    ensures Transmitted(Answered(resp, Reply(outcome, handlers))) == [1, status, status]
  {
    hide Transmitted, Answered;
    var r := Reply(outcome, handlers);
    assert PayloadOf(r) == [status];
    ShortResponseIsFrame(resp, r);
    CrcOfOne(status);
  }

  /** The bytes that answer an overflow, a reset, a CRC error and an invalid command. */
  lemma ErrorsAreSent(resp: Buffer, handlers: Handlers)
    ensures Transmitted(Answered(resp, Reply(Reset, handlers))) == [1, 1, 1]
    ensures Transmitted(Answered(resp, Reply(InvalidCommand, handlers))) == [1, 3, 3]
    ensures Transmitted(Answered(resp, Reply(Overflow, handlers))) == [1, 4, 4]
    ensures Transmitted(Answered(resp, Reply(CrcError, handlers))) == [1, 5, 5]
  {
    hide Transmitted, Answered;
    ErrorIsSent(resp, Reset, handlers, 1);
    ErrorIsSent(resp, InvalidCommand, handlers, 3);
    ErrorIsSent(resp, Overflow, handlers, 4);
    ErrorIsSent(resp, CrcError, handlers, 5);
  }
}
