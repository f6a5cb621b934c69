/** commands.c with its static buffers, updated in place. */
module CommandDevice {
  import opened Bytes
  import opened Commands
  import opened CommandResponses
  import opened CommandSession
  import opened Folds

  class CommandDevice {
    const cmdBuf: array<byte>
    const respBuf: array<byte>
    var cmdBufIdx: Index
    var cmdOverflow: bool
    // cmd_resp is set, and cmd_resp_len
    var cmdResp: bool
    var cmdRespLen: byte
    ghost var handled: seq<Outcome>

    ghost predicate Valid()
      reads this
    {
      cmdBuf.Length == 257 && respBuf.Length == 257 && cmdBuf != respBuf
    }

    ghost function Value(): Device
      reads this, cmdBuf
      requires Valid()
    {
      Device(cmdBuf[..], cmdBufIdx, cmdOverflow, handled)
    }

    constructor ()
      ensures Valid() && fresh(cmdBuf) && fresh(respBuf)
      ensures Value() == Device(seq(257, _ => 0), 0, false, [])
    {
      cmdBuf := new byte[257](_ => 0);
      respBuf := new byte[257](_ => 0);
      cmdBufIdx, cmdOverflow, handled := 0, false, [];
      cmdResp, cmdRespLen := false, 0;
      new;
      assert cmdBuf[..] == seq(257, _ => 0);
    }

    /** cmd_new_data */
    method NewData(data: byte)
      requires Valid()
      modifies this`cmdBufIdx, this`cmdOverflow, cmdBuf
      ensures Value() == Commands.NewData(old(Value()), data)
    {
      cmdBuf[cmdBufIdx] := data;
      if cmdBufIdx + 1 == 257 {
        cmdOverflow := true;
        cmdBufIdx := 0;
      } else {
        cmdBufIdx := cmdBufIdx + 1;
      }
    }

    /** cmd_crc over the payload of one of the two buffers */
    method CrcOf(buf: array<byte>, len: nat) returns (crc: byte)
      requires len + 1 <= buf.Length
      ensures crc == Crc(buf[1..len + 1])
    {
      hide XorByte;
      crc := 0;
      for i := 0 to len
        invariant crc == Fold(XorByte, 0, buf[1..i + 1])
      {
        FoldAppend(XorByte, 0, buf[1..i + 1], [buf[i + 1]]);
        assert buf[1..i + 1] + [buf[i + 1]] == buf[1..i + 2];
        assert Fold(XorByte, crc, [buf[i + 1]]) == Fold(XorByte, XorByte(crc, buf[i + 1]), [buf[i + 1]][1..]);
        FoldEmpty(XorByte, XorByte(crc, buf[i + 1]), [buf[i + 1]][1..]);
        crc := XorByte(crc, buf[i + 1]);
      }
    }

    method RespInit(status: byte)
      requires Valid()
      modifies respBuf
      ensures respBuf[..] == CommandResponses.RespInit(old(respBuf[..]), status)
    {
      respBuf[0] := 1;
      respBuf[1] := status;
    }

    method RespWrite(data: byte)
      requires Valid()
      modifies respBuf
      ensures respBuf[..] == CommandResponses.RespWrite(old(respBuf[..]), data)
    {
      respBuf[0] := (respBuf[0] as int + 1) % 256;
      respBuf[respBuf[0]] := data;
    }

    method RespWriten(data: seq<byte>)
      requires Valid() && respBuf[0] as int + 1 + |data| <= 257
      modifies respBuf
      ensures respBuf[..] == CommandResponses.RespWriten(old(respBuf[..]), data)
    {
      var start := respBuf[0] as int + 1;
      forall i | 0 <= i < |data| {
        respBuf[start + i] := data[i];
      }
      assert respBuf[..] == old(respBuf[..start]) + data + old(respBuf[start + |data|..]);
      respBuf[0] := (respBuf[0] as int + |data|) % 256;
    }

    /** cmd_fix_resp_crc */
    method FixRespCrc()
      requires Valid()
      modifies respBuf
      ensures respBuf[..] == FixCrc(old(respBuf[..]))
    {
      var len: nat := respBuf[0];
      var crc := CrcOf(respBuf, len);
      assert respBuf[1..len + 1] == respBuf[..][1..len + 1];
      respBuf[len + 1] := crc;
    }

    /** cmd_execute_normal and the reset that cmd_try_execute adds. A handler that is
        called writes the response that `handlers` gives; its length is kept in eight
        bits. */
    method TryExecute(handlers: Handlers) returns (outcome: Outcome)
      requires Valid()
      modifies this`cmdBufIdx, this`cmdOverflow, this`cmdResp, this`cmdRespLen, this`handled, respBuf
      ensures Valid()
      ensures outcome == Decide(old(Value()))
      ensures outcome == Waiting ==> Value() == old(Value()) && respBuf[..] == old(respBuf[..])
      ensures outcome == Waiting ==> cmdResp == old(cmdResp) && cmdRespLen == old(cmdRespLen)
      ensures outcome != Waiting ==>
        && Value() == old(Value()).(idx := 0, overflow := false, handled := old(handled) + [outcome])
        && respBuf[..] == Answered(old(respBuf[..]), Reply(outcome, handlers))
        && cmdResp && cmdRespLen == (respBuf[0] as int + 2) % 256
    {
      hide Crc, Answered;
      var cmdLen: nat := cmdBuf[0];
      var response: Response := Written(RESP_OK, []);
      if cmdOverflow {
        response := Written(RESP_OVERFLOW, []);
        outcome := Overflow;
      } else if cmdBufIdx == 1 && cmdLen == TYPE_RESET {
        response := Written(RESP_RESET, []);
        outcome := Reset;
      } else if cmdLen + 2 > cmdBufIdx {
        return Waiting;
      } else {
        var crc := CrcOf(cmdBuf, cmdLen);
        assert cmdBuf[1..cmdLen + 1] == cmdBuf[..][1..cmdLen + 1];
        if crc != cmdBuf[cmdLen + 1] {
          response := Written(RESP_CRC_ERR, []);
          outcome := CrcError;
        } else if HasHandler(cmdBuf[1]) {
          var data := if cmdLen == 0 then [] else cmdBuf[2..cmdLen + 1];
          assert cmdLen != 0 ==> data == cmdBuf[..][2..cmdLen + 1];
          response := handlers(cmdBuf[1], data);
          outcome := Executed(cmdBuf[1], data);
        } else {
          response := Written(RESP_INVALID_CMD, []);
          outcome := InvalidCommand;
        }
      }
      Respond(response);
      cmdOverflow := false;
      cmdBufIdx := 0;
      handled := handled + [outcome];
    }

    /** cmd_resp_init, the writes, cmd_fix_resp_crc and cmd_response, in that order */
    method Respond(response: Response)
      requires Valid()
      modifies this`cmdResp, this`cmdRespLen, respBuf
      ensures respBuf[..] == Answered(old(respBuf[..]), response)
      ensures cmdResp && cmdRespLen == (respBuf[0] as int + 2) % 256
    {
      hide Crc, CommandResponses.RespInit, CommandResponses.RespWrite, CommandResponses.RespWriten, FixCrc, LengthAfter;
      ghost var before := respBuf[..];
      InitHasLengthOne(before, response.status);
      RespInit(response.status);
      var writes := response.writes;
      for i := 0 to |writes|
        invariant StaysInside(respBuf[0], writes[i..])
        invariant Build(respBuf[..], writes[i..]) == Build(CommandResponses.RespInit(before, response.status), writes)
      {
        assert writes[i..][0] == writes[i] && writes[i..][1..] == writes[i + 1..];
        ghost var buf := respBuf[..];
        match writes[i] {
          case One(data) => RespWrite(data);
          case Many(block) => RespWriten(block);
        }
        assert respBuf[..] == Put(buf, writes[i]);
        assert respBuf[0] == respBuf[..][0];
      }
      assert writes[|writes|..] == [];
      FixRespCrc();
      cmdResp := true;
      cmdRespLen := (respBuf[0] as int + 2) % 256;
    }

    /** One round of app_command_func for a received byte: the bytes that it writes. */
    method Round(data: byte, handlers: Handlers) returns (sent: seq<byte>)
      requires Valid()
      modifies this`cmdBufIdx, this`cmdOverflow, this`cmdResp, this`cmdRespLen, this`handled, cmdBuf, respBuf
      ensures Valid()
      ensures Session(Value(), respBuf[..], sent) == Serve(handlers, Session(old(Value()), old(respBuf[..]), []), data)
    {
      hide Decide, Reply, Answered;
      NewData(data);
      var outcome := TryExecute(handlers);
      sent := [];
      if outcome != Waiting {
        if cmdResp && cmdRespLen > 0 {
          sent := respBuf[..cmdRespLen];
          cmdResp, cmdRespLen := false, 0;
        }
        assert sent == Transmitted(respBuf[..]);
      }
    }
  }

  lemma InitHasLengthOne(buf: Buffer, status: byte)
    ensures CommandResponses.RespInit(buf, status)[0] == 1
  {
  }
}
