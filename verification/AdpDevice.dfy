/** The receiver's static variables (common/services/adp/adp.c), updated in place. */
module AdpDevice {
  import opened Adp
  import opened AdpWait
  import opened Bytes
  import opened Options

  class AdpReceiver {
    var rxState: RxState
    var messageId: byte
    var lastReceivedId: byte
    var packetReceived: bool
    var bytesReceived: nat
    var lengthReceived: nat
    var prevData: byte

    constructor ()
      ensures Value() == RESET
    {
      rxState, messageId, lastReceivedId, packetReceived := Idle, 0, 0xFF, false;
      bytesReceived, lengthReceived, prevData := 0, 0, 0;
    }

    function Value(): Receiver
      reads this
    {
      Receiver(rxState, messageId, lastReceivedId, packetReceived, bytesReceived, lengthReceived, prevData)
    }

    /** adp_add_receive_byte */
    method AddByte(data: byte) returns (isData: bool)
      modifies this
      ensures (Value(), isData) == AddReceiveByte(old(Value()), data)
    {
      if rxState == GotSymbol && data != TOKEN {
        rxState := WaitLengthLsb;
      }
      if rxState == Idle {
        packetReceived := false;
        lastReceivedId := 0xFF;
        if data == TOKEN {
          rxState := WaitMsgId;
        }
        return false;
      } else if rxState == WaitMsgId {
        if data != TOKEN {
          messageId := data;
          rxState := WaitLengthLsb;
        }
        return false;
      } else if rxState == WaitLengthLsb || rxState == WaitLengthMsb {
        if data == TOKEN && prevData != TOKEN {
          prevData := TOKEN;
          return false;
        }
        prevData := 0;
        if rxState == WaitLengthLsb {
          lengthReceived := data;
          rxState := WaitLengthMsb;
          return false;
        }
        lengthReceived := (lengthReceived + data * 256) % 65536;
        if lengthReceived == 0 {
          rxState := Idle;
          packetReceived := true;
          lastReceivedId := messageId;
          return false;
        }
        bytesReceived := 0;
        rxState := GetData;
        return false;
      }
      if data == TOKEN && rxState == GetData {
        rxState := GotSymbol;
        return false;
      }
      bytesReceived := (bytesReceived + 1) % 65536;
      if lengthReceived == bytesReceived {
        packetReceived := true;
        rxState := Idle;
        lastReceivedId := messageId;
        return true;
      }
      rxState := GetData;
      return true;
    }

    /** The receiver with a buffer that has not been overrun. */
    ghost function LinkWith(buf: array<byte>, completed: seq<Frame>): Link
      reads this, buf
    {
      Link(Value(), buf[..], completed, false)
    }

    /** adp_protocol_add_byte, with a buffer of any size that the bytes up to the match
        do not overrun. */
    method ProtocolAddByte(id: byte, bytes: seq<byte>, protocolBuf: array<byte>, ghost completed: seq<Frame>)
      returns (found: bool)
      requires Inv(Value())
      requires !Listen(LinkWith(protocolBuf, completed), id, bytes).0.overrun
      modifies this, protocolBuf
      ensures Inv(Value())
      ensures
        var (end, matched) := Listen(old(LinkWith(protocolBuf, completed)), id, bytes);
        Value() == end.rx && protocolBuf[..] == end.buf && found == matched
    {
      hide AddReceiveByte, Inv;
      ghost var start := LinkWith(protocolBuf, completed);
      ghost var link := start;
      for i := 0 to |bytes|
        invariant Inv(Value())
        invariant link.rx == Value() && link.buf == protocolBuf[..]
        invariant Listen(start, id, bytes) == Listen(link, id, bytes[i..])
      {
        InvKept(Value(), bytes[i]);
        ghost var next := Feed(link, bytes[i]);
        assert bytes[i..][0] == bytes[i] && bytes[i..][1..] == bytes[i + 1..];
        OverrunStays(next, id, bytes[i + 1..]);
        var isData := AddByte(bytes[i]);
        if isData {
          protocolBuf[bytesReceived - 1] := bytes[i];
        }
        assert next.buf == protocolBuf[..];
        if bytesReceived != 0 && packetReceived && lastReceivedId == id {
          return true;
        }
        link := next;
      }
      return false;
    }

    /** adp_wait_for_response; `results` are those of the reads, None for a failure. It
        goes on until a packet has come or the reads end. */
    method WaitForResponse(id: byte, results: seq<Option<seq<byte>>>, protocolBuf: array<byte>,
        ghost completed: seq<Frame>)
      returns (ended: bool)
      requires Inv(Value())
      requires !AdpWait.WaitForResponse(LinkWith(protocolBuf, completed), id, results).0.overrun
      modifies this, protocolBuf
      ensures Inv(Value())
      ensures
        var (end, done) := AdpWait.WaitForResponse(old(LinkWith(protocolBuf, completed)), id, results);
        Value() == end.rx && protocolBuf[..] == end.buf && ended == done
    {
      hide Inv, Listen;
      ClearedKeepsInv(Value());
      packetReceived := false;
      ghost var start := LinkWith(protocolBuf, completed);
      ghost var link := start;
      var i := 0;
      while !(bytesReceived != 0 && packetReceived) && i < |results|
        invariant i <= |results| && Inv(Value())
        invariant link.rx == Value() && link.buf == protocolBuf[..] && !link.overrun
        invariant Wait(start, id, results) == Wait(link, id, results[i..])
      {
        assert results[i..][0] == results[i] && results[i..][1..] == results[i + 1..];
        WaitKeepsOverrun(ReadInto(link, id, results[i]), id, results[i + 1..]);
        ghost var next := ReadInto(link, id, results[i]);
        if results[i].Some? {
          var found := ProtocolAddByte(id, results[i].value, protocolBuf, link.completed);
        }
        link := next;
        i := i + 1;
      }
      return bytesReceived != 0 && packetReceived;
    }

    /** adp_check_for_response */
    method CheckForResponse(id: byte, results: seq<Option<seq<byte>>>, protocolBuf: array<byte>,
        ghost completed: seq<Frame>)
      returns (status: bool)
      requires Inv(Value())
      requires !AdpWait.CheckForResponse(LinkWith(protocolBuf, completed), id, results).0.overrun
      modifies this, protocolBuf
      ensures Inv(Value())
      ensures
        var (end, found) := AdpWait.CheckForResponse(old(LinkWith(protocolBuf, completed)), id, results);
        Value() == end.rx && protocolBuf[..] == end.buf && status == found
    {
      hide Inv, Listen;
      ClearedKeepsInv(Value());
      packetReceived := false;
      status := false;
      var retry := 50;
      ghost var start := LinkWith(protocolBuf, completed);
      ghost var link := start;
      var i := 0;
      while !(bytesReceived != 0 && packetReceived) && retry > 0 && i < |results|
        invariant i <= |results| && 0 <= retry && Inv(Value()) && !status
        invariant link.rx == Value() && link.buf == protocolBuf[..] && !link.overrun
        invariant Check(start, id, results, 50) == Check(link, id, results[i..], retry)
      {
        assert results[i..][0] == results[i] && results[i..][1..] == results[i + 1..];
        CheckKeepsOverrun(ReadInto(link, id, results[i]), id, results[i + 1..], retry - 1);
        retry := retry - 1;
        if results[i].Some? {
          ghost var next := ReadInto(link, id, results[i]);
          status := ProtocolAddByte(id, results[i].value, protocolBuf, link.completed);
          link := next;
          if status {
            return true;
          }
        }
        i := i + 1;
      }
    }
  }

  lemma ClearedKeepsInv(r: Receiver)
    requires Inv(r)
    ensures Inv(r.(packetReceived := false))
  {
  }
}
