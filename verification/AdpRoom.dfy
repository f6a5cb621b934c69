/** How much room the receiver needs: adp_protocol_add_byte stores every byte that it
    accepts at its position in the packet, whatever the size of the caller's buffer. */
module AdpRoom {
  import opened Adp
  import opened Bytes
  import opened Folds

  /** The byte completes a length, and the data of a packet follows. */
  predicate OpensData(r: Receiver, next: Receiver) {
    r.state == WaitLengthMsb && next.state == GetData
  }

  /** The data bytes that a stream delivers, packet by packet: first those of the packet
      that the receiver is in, then those of each packet whose header is in the stream. */
  function Packets(r: Receiver, bytes: seq<byte>): (ps: seq<seq<byte>>)
    ensures ps != []
    decreases |bytes|
  {
    if bytes == [] then [[]]
    else
      var (next, isData) := AddReceiveByte(r, bytes[0]);
      var ps := Packets(next, bytes[1..]);
      if isData then [[bytes[0]] + ps[0]] + ps[1..]
      else if OpensData(r, next) then [[]] + ps
      else ps
  }

  predicate InsideData(r: Receiver) {
    r.state == GetData || r.state == GotSymbol
  }

  lemma {:induction false} OutsideDataNothingComes(r: Receiver, bytes: seq<byte>)
    requires !InsideData(r)
    ensures Packets(r, bytes)[0] == []
    decreases |bytes|
  {
    if bytes != [] {
      var next := AddReceiveByte(r, bytes[0]).0;
      if !InsideData(next) {
        OutsideDataNothingComes(next, bytes[1..]);
      }
    }
  }

  /** Too many bytes for the buffer, in the packet under way or in a later one. */
  ghost predicate Exceeds(ps: seq<seq<byte>>, received: nat, room: nat)
    requires ps != []
  {
    (ps[0] != [] && room < received + |ps[0]|) || exists i :: 1 <= i < |ps| && room < |ps[i]|
  }

  lemma ByteOfBytesReceived(r: Receiver, data: byte)
    requires Inv(r)
    ensures
      var (next, isData) := AddReceiveByte(r, data);
      next.bytesReceived == if isData then r.bytesReceived + 1 else if OpensData(r, next) then 0 else r.bytesReceived
  {
  }

  lemma ExceedsShifts(ps: seq<seq<byte>>, room: nat)
    requires ps != []
    ensures Exceeds([[]] + ps, 0, room) <==> Exceeds(ps, 0, room)
    ensures forall received: nat :: Exceeds([[]] + ps, received, room) <==> Exceeds(ps, 0, room)
  {
    var shifted := [[]] + ps;
    assert forall i :: 1 <= i < |shifted| ==> shifted[i] == ps[i - 1];
    assert forall i :: 0 <= i < |ps| ==> ps[i] == shifted[i + 1];
  }

  lemma ExceedsGrows(ps: seq<seq<byte>>, data: byte, received: nat, room: nat)
    requires ps != []
    ensures Exceeds([[data] + ps[0]] + ps[1..], received, room)
      <==> room < received + 1 || Exceeds(ps, received + 1, room)
  {
    var grown := [[data] + ps[0]] + ps[1..];
    assert forall i :: 1 <= i < |ps| ==> grown[i] == ps[i];
  }

  /** From any state of the invariant: an accepted byte has no place in the buffer if and
      only if some packet delivers more data bytes than the buffer has. */
  lemma {:induction false} OverrunFromAnywhere(l: Link, bytes: seq<byte>)
    requires Inv(l.rx)
    ensures Fold(Feed, l, bytes).overrun <==> l.overrun || Exceeds(Packets(l.rx, bytes), l.rx.bytesReceived, |l.buf|)
    decreases |bytes|
  {
    if bytes != [] {
      InvKept(l.rx, bytes[0]);
      ByteOfBytesReceived(l.rx, bytes[0]);
      hide Exceeds, Inv, AddReceiveByte;
      var next := Feed(l, bytes[0]);
      OverrunFromAnywhere(next, bytes[1..]);
      var ps := Packets(next.rx, bytes[1..]);
      ExceedsGrows(ps, bytes[0], l.rx.bytesReceived, |l.buf|);
      ExceedsShifts(ps, |l.buf|);
    }
  }

  ghost predicate RoomForAll(ps: seq<seq<byte>>, room: nat) {
    forall p :: p in ps ==> |p| <= room
  }

  /** Outside the data of a packet, over any bytes: every accepted byte is stored inside
      the caller's buffer if and only if no packet delivers more than the buffer has. */
  lemma OverrunExact(l: Link, bytes: seq<byte>)
    requires Inv(l.rx) && !InsideData(l.rx) && !l.overrun
    ensures !Fold(Feed, l, bytes).overrun <==> RoomForAll(Packets(l.rx, bytes), |l.buf|)
  {
    hide Feed, AddReceiveByte, Inv, Packets;
    OverrunFromAnywhere(l, bytes);
    OutsideDataNothingComes(l.rx, bytes);
    RoomIsNotExceeded(Packets(l.rx, bytes), l.rx.bytesReceived, |l.buf|);
  }

  lemma RoomIsNotExceeded(ps: seq<seq<byte>>, received: nat, room: nat)
    requires ps != [] && ps[0] == []
    ensures RoomForAll(ps, room) <==> !Exceeds(ps, received, room)
  {
    if RoomForAll(ps, room) {
      assert forall i :: 0 <= i < |ps| ==> ps[i] in ps;
    }
  }

  /** The bytes that adp_protocol_add_byte takes: up to the one that completes a match. */
  function Heard(r: Receiver, id: byte, bytes: seq<byte>): (heard: seq<byte>)
    ensures heard <= bytes
    decreases |bytes|
  {
    if bytes == [] then []
    else
      var next := AddReceiveByte(r, bytes[0]).0;
      if Matches(next, id) then [bytes[0]] else [bytes[0]] + Heard(next, id, bytes[1..])
  }

  lemma {:induction false} ListenFeedsHeard(l: Link, id: byte, bytes: seq<byte>)
    ensures Listen(l, id, bytes).0 == Fold(Feed, l, Heard(l.rx, id, bytes))
    decreases |bytes|
  {
    hide AddReceiveByte, Matches;
    if bytes != [] {
      var next := Feed(l, bytes[0]);
      var heard := Heard(l.rx, id, bytes);
      assert heard[0] == bytes[0];
      if Matches(next.rx, id) {
        assert heard[1..] == [];
      } else {
        ListenFeedsHeard(next, id, bytes[1..]);
        assert heard[1..] == Heard(next.rx, id, bytes[1..]);
      }
    }
  }

  /** The same of one call of adp_protocol_add_byte: its stores stay inside the caller's
      buffer if and only if no packet up to the match delivers more than the buffer has. */
  lemma ListenRoomExact(l: Link, id: byte, bytes: seq<byte>)
    requires Inv(l.rx) && !InsideData(l.rx) && !l.overrun
    ensures !Listen(l, id, bytes).0.overrun <==> RoomForAll(Packets(l.rx, Heard(l.rx, id, bytes)), |l.buf|)
  {
    hide RoomForAll, Feed, Inv;
    ListenFeedsHeard(l, id, bytes);
    OverrunExact(l, Heard(l.rx, id, bytes));
  }

  // ----- Streams of frames -----

  /** In the data of a packet of n bytes, k of which have come. */
  predicate AtByte(r: Receiver, n: nat, k: nat) {
    k < n < 65536 && r.state == GetData && r.lengthReceived == n && r.bytesReceived == k && r.prevData == 0
  }

  predicate BetweenPackets(r: Receiver) {
    r.state == Idle && r.prevData == 0
  }

  lemma ByteIsAccepted(r: Receiver, data: byte, n: nat, k: nat)
    requires AtByte(r, n, k)
    ensures data == TOKEN ==> AddReceiveByte(r, TOKEN) == (r.(state := GotSymbol), false)
    ensures
      var r1 := if data == TOKEN then r.(state := GotSymbol) else r;
      var (next, isData) := AddReceiveByte(r1, data);
      isData && if k + 1 == n then BetweenPackets(next) else AtByte(next, n, k + 1)
  {
    DataByteStep(r, data);
    hide AddReceiveByte;
  }

  /** The stuffed rest of a payload delivers the rest of the payload. */
  lemma {:induction false} PacketsOfPayload(r: Receiver, data: seq<byte>, n: nat, k: nat, tail: seq<byte>)
    returns (end: Receiver)
    requires AtByte(r, n, k) && k + |data| == n
    ensures BetweenPackets(end)
    ensures Packets(r, Stuff(data) + tail) == [data] + Packets(end, tail)[1..]
    decreases |data|
  {
    ByteIsAccepted(r, data[0], n, k);
    hide AddReceiveByte;
    var bytes, rest := Stuff(data) + tail, Stuff(data[1..]) + tail;
    var r1 := if data[0] == TOKEN then r.(state := GotSymbol) else r;
    var next := AddReceiveByte(r1, data[0]).0;
    if data[0] == TOKEN {
      assert bytes[1..] == [TOKEN] + rest;
    }
    assert ([data[0]] + rest)[1..] == rest;
    assert data[0] != TOKEN ==> bytes == [data[0]] + rest;
    assert Packets(r, bytes) == Packets(r1, [data[0]] + rest)
      == [[data[0]] + Packets(next, rest)[0]] + Packets(next, rest)[1..];
    if k + 1 == n {
      end := next;
      assert data[1..] == [] && rest == tail;
      OutsideDataNothingComes(end, tail);
      assert [data[0]] + [] == data;
    } else {
      end := PacketsOfPayload(next, data[1..], n, k + 1, tail);
      assert [data[0]] + data[1..] == data;
    }
  }

  lemma HeaderOpensData(r: Receiver, f: Frame)
    requires BetweenPackets(r) && ValidFrame(f)
    ensures
      var (r1, data1) := AddReceiveByte(r, TOKEN);
      var (r2, data2) := AddReceiveByte(r1, f.id);
      var (r3, data3) := AddReceiveByte(r2, |f.payload| % 256);
      var (r4, data4) := AddReceiveByte(r3, |f.payload| / 256);
      && !data1 && !data2 && !data3 && !data4
      && !OpensData(r, r1) && !OpensData(r1, r2) && !OpensData(r2, r3) && OpensData(r3, r4)
      && AtByte(r4, |f.payload|, 0)
  {
    assert |f.payload| < 255;
  }

  lemma PacketsOfFrame(r: Receiver, f: Frame, tail: seq<byte>) returns (end: Receiver)
    requires BetweenPackets(r) && ValidFrame(f)
    ensures BetweenPackets(end)
    ensures Packets(r, Encode(f) + tail) == [[], f.payload] + Packets(end, tail)[1..]
  {
    HeaderOpensData(r, f);
    hide AddReceiveByte, Stuff, OpensData;
    var r1 := AddReceiveByte(r, TOKEN).0;
    var r2 := AddReceiveByte(r1, f.id).0;
    var r3 := AddReceiveByte(r2, |f.payload| % 256).0;
    var r4 := AddReceiveByte(r3, |f.payload| / 256).0;
    var bytes := Encode(f) + tail;
    var data := Stuff(f.payload) + tail;
    assert bytes[1..][1..] == bytes[2..] && bytes[2..][1..] == bytes[3..] && bytes[3..][1..] == bytes[4..] == data;
    end := PacketsOfPayload(r4, f.payload, |f.payload|, 0, tail);
    assert Packets(r3, bytes[3..]) == [[]] + Packets(r4, data);
    assert Packets(r, bytes) == Packets(r1, bytes[1..]) == Packets(r2, bytes[2..]) == Packets(r3, bytes[3..]);
    assert [[]] + ([f.payload] + Packets(end, tail)[1..]) == [[], f.payload] + Packets(end, tail)[1..];
  }

  function Payloads(fs: seq<Frame>): (ps: seq<seq<byte>>)
    ensures |ps| == |fs| && forall i :: 0 <= i < |fs| ==> ps[i] == fs[i].payload
    decreases |fs|
  {
    if fs == [] then [] else [fs[0].payload] + Payloads(fs[1..])
  }

  lemma OnePacketMore(p: seq<byte>, ps: seq<seq<byte>>)
    ensures [[], p] + ([[]] + ps)[1..] == [[]] + ([p] + ps)
  {
  }

  lemma NoPackets(r: Receiver)
    ensures Packets(r, []) == [[]]
  {
  }

  /** An encoded stream delivers exactly the payloads of its frames, packet by packet. */
  lemma {:induction false} PacketsOfFrames(r: Receiver, fs: seq<Frame>)
    requires BetweenPackets(r) && forall f :: f in fs ==> ValidFrame(f)
    ensures Packets(r, EncodeAll(fs)) == [[]] + Payloads(fs)
    decreases |fs|
  {
    hide Encode, ValidFrame, BetweenPackets, Packets;
    if fs == [] {
      NoPackets(r);
    } else {
      var end := PacketsOfFrame(r, fs[0], EncodeAll(fs[1..]));
      PacketsOfFrames(end, fs[1..]);
      OnePacketMore(fs[0].payload, Payloads(fs[1..]));
    }
  }

  /** For every list of frames: from rest, the encoded stream stays inside the caller's
      buffer if and only if the buffer has room for each payload. */
  lemma FramesFitExact(l: Link, fs: seq<Frame>)
    requires Inv(l.rx) && AtRest(l) && !l.overrun && forall f :: f in fs ==> ValidFrame(f)
    ensures !Fold(Feed, l, EncodeAll(fs)).overrun <==> forall f :: f in fs ==> |f.payload| <= |l.buf|
  {
    OverrunExact(l, EncodeAll(fs));
    PacketsOfFrames(l.rx, fs);
    hide Feed, EncodeAll, Packets;
    var ps := [[]] + Payloads(fs);
    if RoomForAll(ps, |l.buf|) {
      forall f | f in fs ensures |f.payload| <= |l.buf| {
        var i :| 0 <= i < |fs| && fs[i] == f;
        assert ps[i + 1] in ps;
      }
    } else {
      var p :| p in ps && |l.buf| < |p|;
      var i :| 0 <= i < |ps| && ps[i] == p;
      assert fs[i - 1] in fs;
    }
  }

  /** Without a match all bytes are taken. */
  lemma {:induction false} AllIsHeard(l: Link, id: byte, bytes: seq<byte>)
    requires !Listen(l, id, bytes).1
    ensures Heard(l.rx, id, bytes) == bytes
    decreases |bytes|
  {
    hide AddReceiveByte, Matches;
    if bytes != [] {
      AllIsHeard(Feed(l, bytes[0]), id, bytes[1..]);
    }
  }

  /** A frame that is not the awaited one needs its room all the same. */
  lemma OtherFrameFitsExact(l: Link, id: byte, f: Frame)
    requires Inv(l.rx) && AtRest(l) && !l.overrun && ValidFrame(f) && f.id != id
    ensures !Listen(l, id, Encode(f)).0.overrun <==> |f.payload| <= |l.buf|
  {
    hide Feed, Encode, Packets;
    var roomy := l.(buf := f.payload);
    FrameArrives(roomy, f, id);
    AllIsHeard(roomy, id, Encode(f));
    ListenFeedsHeard(l, id, Encode(f));
    assert EncodeAll([f]) == Encode(f) by {
      assert [f][1..] == [];
    }
    FramesFitExact(l, [f]);
    assert f in [f];
  }

  /** A caller that waits for an acknowledgement has a buffer of one byte. A status
      response of two bytes that comes before it does not fit. */
  lemma StatusOverrunsAcknowledgement(acknowledgement: byte)
    ensures Listen(Link(RESET, [acknowledgement], [], false), 0x30, Encode(Frame(0x12, [1, 0]))).0.overrun
  {
    hide Encode;
    OtherFrameFitsExact(Link(RESET, [acknowledgement], [], false), 0x30, Frame(0x12, [1, 0]));
  }
}
