/** The framed byte protocol of the ADP service (common/services/adp): byte
    stuffing on the way out, a state machine on the way in. */
module Adp {
  import opened Bytes
  import opened Folds

  const TOKEN: byte := 0xFF
  const MAX_PACKET_DATA_SIZE: nat := 254
  /** The largest length that two length bytes can announce. */
  const MAX_LENGTH: nat := 65535

  // ----- Sender -----

  /** Every token in the data is doubled. */
  function Stuff(data: seq<byte>): (r: seq<byte>)
    ensures |data| <= |r| <= 2 * |data|
    decreases |data|
  {
    if data == [] then []
    else (if data[0] == TOKEN then [TOKEN, TOKEN] else [data[0]]) + Stuff(data[1..])
  }

  lemma {:induction false} StuffAppend(a: seq<byte>, b: seq<byte>)
    ensures Stuff(a + b) == Stuff(a) + Stuff(b)
    decreases |a|
  {
    if a == [] {
      assert a + b == b;
    } else {
      assert (a + b)[1..] == a[1..] + b;
      StuffAppend(a[1..], b);
    }
  }

  lemma StuffNext(data: seq<byte>, i: nat)
    requires i < |data|
    ensures Stuff(data[..i + 1]) == Stuff(data[..i]) + (if data[i] == TOKEN then [TOKEN, TOKEN] else [data[i]])
    ensures |Stuff(data[..i + 1])| <= |Stuff(data)|
  {
    assert data[..i + 1] == data[..i] + [data[i]];
    StuffAppend(data[..i], [data[i]]);
    assert data == data[..i + 1] + data[i + 1..];
    StuffAppend(data[..i + 1], data[i + 1..]);
  }

  /** adp_add_send_byte: appends stuffed data to a message at an 8-bit index. */
  method AddSendByte(buffer: array<byte>, start: nat, data: seq<byte>) returns (index: nat)
    requires start + |Stuff(data)| <= buffer.Length <= MAX_PACKET_DATA_SIZE
    modifies buffer
    ensures index == start + |Stuff(data)|
    ensures buffer[..] == old(buffer[..start]) + Stuff(data) + old(buffer[index..])
  {
    hide Stuff, Sent;
    ghost var before := buffer[..];
    ghost var out := [];
    assert data[..0] == [];
    StuffNothing();
    SentNothing(before, start);
    index := start;
    for i := 0 to |data|
      invariant out == Stuff(data[..i]) && index == start + |out| <= buffer.Length
      invariant buffer[..] == Sent(before, start, out)
    {
      StuffNext(data, i);
      if data[i] == TOKEN {
        SentNext(before, start, out, TOKEN);
        buffer[index] := TOKEN;
        index := (index + 1) % 256;
        out := out + [TOKEN];
      }
      SentNext(before, start, out, data[i]);
      buffer[index] := data[i];
      index := (index + 1) % 256;
      out := out + [data[i]];
    }
    assert data[..|data|] == data;
    SentIs(before, start, out);
  }

  /** A buffer with some of its bytes from start on overwritten. */
  ghost function Sent(before: seq<byte>, start: nat, out: seq<byte>): (r: seq<byte>)
    requires start + |out| <= |before|
  {
    before[..start] + out + before[start + |out|..]
  }

  lemma SentNothing(before: seq<byte>, start: nat)
    requires start <= |before|
    ensures Sent(before, start, []) == before
  {
  }

  lemma SentNext(before: seq<byte>, start: nat, out: seq<byte>, x: byte)
    requires start + |out| < |before|
    ensures |Sent(before, start, out)| == |before|
    ensures Sent(before, start, out)[start + |out| := x] == Sent(before, start, out + [x])
  {
  }

  lemma SentIs(before: seq<byte>, start: nat, out: seq<byte>)
    requires start + |out| <= |before|
    ensures Sent(before, start, out) == before[..start] + out + before[start + |out|..]
  {
  }

  lemma StuffNothing()
    ensures Stuff([]) == []
  {
  }

  datatype Frame = Frame(id: byte, payload: seq<byte>)

  /** The frames that a message structure can hold: the stuffed payload fits its
      data array, and there is a payload. */
  predicate ValidFrame(f: Frame) {
    f.id != TOKEN && f.payload != [] && |Stuff(f.payload)| <= MAX_PACKET_DATA_SIZE
  }

  /** Token, message id, length before stuffing in little endian, stuffed payload. */
  function Encode(f: Frame): seq<byte>
    requires ValidFrame(f)
  {
    [TOKEN, f.id, |f.payload| % 256, |f.payload| / 256] + Stuff(f.payload)
  }

  function EncodeAll(fs: seq<Frame>): seq<byte>
    requires forall f :: f in fs ==> ValidFrame(f)
    decreases |fs|
  {
    if fs == [] then [] else Encode(fs[0]) + EncodeAll(fs[1..])
  }

  // ----- Receiver -----

  datatype RxState = Idle | WaitMsgId | WaitLengthLsb | WaitLengthMsb | GetData | GotSymbol

  /** The static variables of the receiver. */
  datatype Receiver = Receiver(
    state: RxState, messageId: byte, lastReceivedId: byte, packetReceived: bool,
    bytesReceived: nat, lengthReceived: nat, prevData: byte)

  const RESET: Receiver := Receiver(Idle, 0, 0xFF, false, 0, 0, 0)

  /** adp_add_receive_byte: the next state, and whether the byte is message data. */
  function AddReceiveByte(r0: Receiver, data: byte): (Receiver, bool) {
    // a lone token inside the data aborts the packet
    var r := if r0.state == GotSymbol && data != TOKEN then r0.(state := WaitLengthLsb) else r0;
    match r.state
    case Idle =>
      (r.(packetReceived := false, lastReceivedId := 0xFF, state := if data == TOKEN then WaitMsgId else Idle), false)
    case WaitMsgId =>
      (if data == TOKEN then r else r.(messageId := data, state := WaitLengthLsb), false)
    case WaitLengthLsb =>
      if data == TOKEN && r.prevData != TOKEN then (r.(prevData := TOKEN), false)
      else (r.(lengthReceived := data, state := WaitLengthMsb, prevData := 0), false)
    case WaitLengthMsb =>
      if data == TOKEN && r.prevData != TOKEN then (r.(prevData := TOKEN), false)
      else
        var length := (r.lengthReceived + data * 256) % 65536;
        if length == 0 then
          (r.(lengthReceived := length, prevData := 0, state := Idle, packetReceived := true,
            lastReceivedId := r.messageId), false)
        else
          (r.(lengthReceived := length, prevData := 0, bytesReceived := 0, state := GetData), false)
    case _ =>
      if data == TOKEN && r.state == GetData then (r.(state := GotSymbol), false)
      else
        var received := (r.bytesReceived + 1) % 65536;
        if r.lengthReceived == received then
          (r.(bytesReceived := received, packetReceived := true, state := Idle, lastReceivedId := r.messageId), true)
        else
          (r.(bytesReceived := received, state := GetData), true)
  }

  /** What every byte stream keeps. */
  predicate Inv(r: Receiver) {
    && r.lengthReceived <= MAX_LENGTH && r.bytesReceived <= MAX_LENGTH
    && (r.state == GetData || r.state == GotSymbol ==> r.bytesReceived < r.lengthReceived)
    && (r.state == WaitLengthMsb ==> r.lengthReceived < 256)
    && (r.state != WaitLengthLsb && r.state != WaitLengthMsb ==> r.prevData == 0)
    && (r.packetReceived ==> r.state == Idle)
  }

  /** From any state of the invariant any byte leads to one, and an accepted byte
      has its place inside the announced length. */
  lemma InvKept(r: Receiver, data: byte)
    requires Inv(r)
    ensures
      var (next, isData) := AddReceiveByte(r, data);
      Inv(next) && (isData ==> 1 <= next.bytesReceived <= next.lengthReceived)
  {
  }

  /** The receiver with the caller's buffer, the packets completed so far, and whether
      an accepted byte had no place in the buffer. */
  datatype Link = Link(rx: Receiver, buf: seq<byte>, completed: seq<Frame>, overrun: bool)

  /** One received byte. What a store behind the buffer does is not modelled; that it
      happens is. */
  function Feed(l: Link, data: byte): Link {
    var (rx, isData) := AddReceiveByte(l.rx, data);
    var buf := if isData && 0 < rx.bytesReceived <= |l.buf| then l.buf[rx.bytesReceived - 1 := data] else l.buf;
    var done := isData && rx.state == Idle && rx.lengthReceived <= |buf|;
    Link(rx, buf,
         if done then l.completed + [Frame(rx.lastReceivedId, buf[..rx.lengthReceived])] else l.completed,
         l.overrun || (isData && |l.buf| < rx.bytesReceived))
  }

  /** Over every byte stream the receiver keeps its invariant. */
  lemma {:induction false} InvAlways(l: Link, bytes: seq<byte>)
    requires Inv(l.rx)
    ensures Inv(Fold(Feed, l, bytes).rx)
    decreases |bytes|
  {
    hide Inv, AddReceiveByte;
    if bytes != [] {
      InvKept(l.rx, bytes[0]);
      InvAlways(Feed(l, bytes[0]), bytes[1..]);
    }
  }

  /** adp_is_received */
  predicate IsReceived(rx: Receiver) {
    rx.bytesReceived != 0 && rx.packetReceived
  }

  /** The test that ends adp_protocol_add_byte. */
  predicate Matches(rx: Receiver, id: byte) {
    IsReceived(rx) && rx.lastReceivedId == id
  }

  /** adp_protocol_add_byte: stops at the first match. */
  function Listen(l: Link, id: byte, bytes: seq<byte>): (Link, bool)
    decreases |bytes|
  {
    if bytes == [] then (l, false)
    else
      var next := Feed(l, bytes[0]);
      if Matches(next.rx, id) then (next, true) else Listen(next, id, bytes[1..])
  }

  /** Successive calls, each with the next chunk, until one reports a match. */
  function ListenChunks(l: Link, id: byte, chunks: seq<seq<byte>>): (Link, bool)
    decreases |chunks|
  {
    if chunks == [] then (l, false)
    else
      var (next, found) := Listen(l, id, chunks[0]);
      if found then (next, true) else ListenChunks(next, id, chunks[1..])
  }

  function Concat(chunks: seq<seq<byte>>): seq<byte>
    decreases |chunks|
  {
    if chunks == [] then [] else chunks[0] + Concat(chunks[1..])
  }

  lemma {:induction false} ListenAppend(l: Link, id: byte, a: seq<byte>, b: seq<byte>)
    ensures Listen(l, id, a + b)
      == if Listen(l, id, a).1 then Listen(l, id, a) else Listen(Listen(l, id, a).0, id, b)
    decreases |a|
  {
    hide Feed, Matches;
    if a == [] {
      assert a + b == b;
    } else {
      assert (a + b)[1..] == a[1..] + b;
      ListenAppend(Feed(l, a[0]), id, a[1..], b);
    }
  }

  /** However a stream is cut into chunks, the outcome is that of the whole stream
      up to the first match: the receiver, the buffer and the answer. */
  lemma {:induction false} ChunkingDoesNotMatter(l: Link, id: byte, chunks: seq<seq<byte>>)
    ensures ListenChunks(l, id, chunks) == Listen(l, id, Concat(chunks))
    decreases |chunks|
  {
    if chunks != [] {
      ListenAppend(l, id, chunks[0], Concat(chunks[1..]));
      ChunkingDoesNotMatter(Listen(l, id, chunks[0]).0, id, chunks[1..]);
    }
  }

  // ----- Round trip -----

  /** Between packets: waiting for a start token. */
  predicate AtRest(l: Link) {
    l.rx.state == Idle && l.rx.prevData == 0
  }

  /** In the data of frame f, with its first k payload bytes in the buffer. */
  predicate InData(l: Link, f: Frame, k: nat) {
    && k < |f.payload| <= |l.buf| && |f.payload| < 65536
    && l.rx.state == GetData && l.rx.prevData == 0 && !l.rx.packetReceived
    && l.rx.messageId == f.id
    && l.rx.lengthReceived == |f.payload| && l.rx.bytesReceived == k
    && l.buf[..k] == f.payload[..k]
  }

  /** After frame f has come in whole. */
  predicate Delivered(l: Link, before: Link, f: Frame) {
    && AtRest(l)
    && |l.buf| == |before.buf| && |f.payload| <= |l.buf|
    && l.buf[..|f.payload|] == f.payload
    && l.completed == before.completed + [f] && l.overrun == before.overrun
    && l.rx.packetReceived && l.rx.lastReceivedId == f.id && l.rx.bytesReceived == |f.payload|
  }

  lemma PayloadByte(l: Link, f: Frame, k: nat)
    requires InData(l, f, k)
    ensures
      var data := f.payload[k];
      var l1 := if data == TOKEN then Feed(l, TOKEN) else l;
      var next := Feed(l1, data);
      && (data == TOKEN ==> !l1.rx.packetReceived)
      && (if k + 1 == |f.payload| then Delivered(next, l, f)
          else InData(next, f, k + 1) && next == l.(rx := next.rx, buf := next.buf) && |next.buf| == |l.buf|)
  {
    var data := f.payload[k];
    var l1 := if data == TOKEN then Feed(l, TOKEN) else l;
    var next := Feed(l1, data);
    DataByteStep(l.rx, data);
    PrefixGrows(l.buf, f.payload, k);
    hide AddReceiveByte;
    assert next.buf == l.buf[k := data];
  }

  /** A data byte, doubled if it is a token, in the data of a packet. */
  lemma DataByteStep(r: Receiver, data: byte)
    requires r.state == GetData && r.bytesReceived < r.lengthReceived < 65536
    ensures data == TOKEN ==> AddReceiveByte(r, TOKEN) == (r.(state := GotSymbol), false)
    ensures
      var r1 := if data == TOKEN then r.(state := GotSymbol) else r;
      AddReceiveByte(r1, data) ==
        (if r.bytesReceived + 1 == r.lengthReceived
         then r1.(bytesReceived := r.lengthReceived, packetReceived := true, state := Idle,
           lastReceivedId := r.messageId)
         else r1.(bytesReceived := r.bytesReceived + 1, state := GetData), true)
  {
  }

  lemma PrefixGrows(buf: seq<byte>, payload: seq<byte>, k: nat)
    requires k < |payload| <= |buf| && buf[..k] == payload[..k]
    ensures buf[k := payload[k]][..k + 1] == payload[..k + 1]
    ensures k + 1 == |payload| ==> payload[..k + 1] == payload
  {
    assert buf[k := payload[k]][..k + 1] == buf[..k] + [payload[k]];
  }

  lemma {:induction false} PayloadArrives(l: Link, f: Frame, k: nat, id: byte)
    requires InData(l, f, k)
    ensures
      var end := Fold(Feed, l, Stuff(f.payload[k..]));
      Delivered(end, l, f) && Listen(l, id, Stuff(f.payload[k..])) == (end, f.id == id)
    decreases |f.payload| - k
  {
    hide Feed;
    var data, rest := f.payload[k], Stuff(f.payload[k + 1..]);
    PayloadByte(l, f, k);
    var l1 := if data == TOKEN then Feed(l, TOKEN) else l;
    var next := Feed(l1, data);
    assert f.payload[k..][1..] == f.payload[k + 1..];
    var stuffed := Stuff(f.payload[k..]);
    if data == TOKEN {
      assert stuffed == [TOKEN, TOKEN] + rest;
      assert stuffed[1..] == [TOKEN] + rest && stuffed[1..][1..] == rest;
    } else {
      assert stuffed == [data] + rest && stuffed[1..] == rest;
    }
    if k + 1 == |f.payload| {
      assert f.payload[k + 1..] == [] && rest == [];
      assert Fold(Feed, next, rest) == next;
      assert f.id != id ==> Listen(next, id, rest) == (next, false);
    } else {
      PayloadArrives(next, f, k + 1, id);
    }
  }

  lemma HeaderArrives(l: Link, f: Frame)
    requires AtRest(l) && ValidFrame(f) && |f.payload| <= |l.buf|
    ensures
      var l1 := Feed(l, TOKEN);
      var l2 := Feed(l1, f.id);
      var l3 := Feed(l2, |f.payload| % 256);
      var l4 := Feed(l3, |f.payload| / 256);
      && !l1.rx.packetReceived && !l2.rx.packetReceived && !l3.rx.packetReceived
      && InData(l4, f, 0) && l4.completed == l.completed && |l4.buf| == |l.buf| && l4.overrun == l.overrun
  {
    assert |f.payload| < 255;
  }

  /** One frame from rest: it is delivered whole, the receiver is at rest again, and
      a listener for an id matches at its last byte exactly if the id is the frame's. */
  lemma FrameArrives(l: Link, f: Frame, id: byte)
    requires AtRest(l) && ValidFrame(f) && |f.payload| <= |l.buf|
    ensures
      var end := Fold(Feed, l, Encode(f));
      Delivered(end, l, f) && Listen(l, id, Encode(f)) == (end, f.id == id)
  {
    hide Feed, Stuff, AtRest, Delivered;
    HeaderArrives(l, f);
    var bytes := Encode(f);
    var l2 := Feed(Feed(l, TOKEN), f.id);
    var l4 := Feed(Feed(l2, |f.payload| % 256), |f.payload| / 256);
    assert bytes[1..][1..] == bytes[2..] && bytes[2..][1..] == bytes[3..] && bytes[3..][1..] == bytes[4..];
    assert bytes[4..] == Stuff(f.payload);
    assert f.payload[0..] == f.payload;
    assert Fold(Feed, l, bytes) == Fold(Feed, l2, bytes[2..]) == Fold(Feed, l4, bytes[4..]);
    assert Listen(l, id, bytes) == Listen(l2, id, bytes[2..]) == Listen(l4, id, bytes[4..]);
    PayloadArrives(l4, f, 0, id);
    DeliveredFrom(l4, l, f, id);
  }

  lemma DeliveredFrom(inData: Link, l: Link, f: Frame, id: byte)
    requires inData.completed == l.completed && |inData.buf| == |l.buf| && inData.overrun == l.overrun
    ensures forall end :: Delivered(end, inData, f) ==> Delivered(end, l, f)
  {
  }

  /** For every list of frames: the encoded stream, fed byte by byte to a receiver at
      rest whose buffer has room for each payload, delivers exactly those frames in
      order. */
  lemma {:induction false} StreamRoundTrip(l: Link, fs: seq<Frame>)
    requires AtRest(l)
    requires forall f :: f in fs ==> ValidFrame(f) && |f.payload| <= |l.buf|
    ensures
      var end := Fold(Feed, l, EncodeAll(fs));
      AtRest(end) && end.completed == l.completed + fs && |end.buf| == |l.buf| && end.overrun == l.overrun
    decreases |fs|
  {
    hide Feed, Encode, Stuff;
    if fs != [] {
      var next := Fold(Feed, l, Encode(fs[0]));
      FrameArrives(l, fs[0], 0);
      FoldAppend(Feed, l, Encode(fs[0]), EncodeAll(fs[1..]));
      StreamRoundTrip(next, fs[1..]);
      assert [fs[0]] + fs[1..] == fs;
    }
  }

  /** One call of adp_protocol_add_byte passes over frames with other ids, and the first
      frame with the awaited id ends it with its payload in the buffer, whatever
      follows. */
  lemma {:induction false} ResponseIsFound(l: Link, id: byte, others: seq<Frame>, response: Frame, rest: seq<byte>)
    requires AtRest(l)
    requires forall f :: f in others ==> ValidFrame(f) && f.id != id && |f.payload| <= |l.buf|
    requires ValidFrame(response) && response.id == id && |response.payload| <= |l.buf|
    ensures
      var (end, found) := Listen(l, id, EncodeAll(others) + Encode(response) + rest);
      && found && AtRest(end) && end.overrun == l.overrun
      && end.completed == l.completed + others + [response]
      && |response.payload| <= |end.buf| && end.buf[..|response.payload|] == response.payload
    decreases |others|
  {
    hide Feed, Encode, Stuff, Listen, AtRest;
    var bytes := EncodeAll(others) + Encode(response) + rest;
    if others == [] {
      assert bytes == Encode(response) + rest;
      FrameArrives(l, response, id);
      ListenAppend(l, id, Encode(response), rest);
    } else {
      var f := others[0];
      var more := EncodeAll(others[1..]) + Encode(response) + rest;
      assert bytes == Encode(f) + more;
      FrameArrives(l, f, id);
      ListenAppend(l, id, Encode(f), more);
      var next := Listen(l, id, Encode(f)).0;
      ResponseIsFound(next, id, others[1..], response, rest);
      assert l.completed + [f] + others[1..] == l.completed + others;
    }
  }

  /** An overrun is not forgotten. */
  lemma {:induction false} OverrunStays(l: Link, id: byte, bytes: seq<byte>)
    ensures l.overrun ==> Listen(l, id, bytes).0.overrun
    decreases |bytes|
  {
    hide AddReceiveByte, Matches;
    if bytes != [] {
      OverrunStays(Feed(l, bytes[0]), id, bytes[1..]);
    }
  }
}
