/** The two loops that wait for a response (adp_check_for_response and
    adp_wait_for_response): they read chunk after chunk and stop between two chunks when
    a packet has come, whatever its id. */
module AdpWait {
  import opened Adp
  import opened Bytes
  import opened Folds
  import opened Options

  // ----- The loops -----

  /** One read, which may fail. */
  function ReadInto(l: Link, id: byte, read: Option<seq<byte>>): Link {
    match read
    case None => l
    case Some(chunk) => Listen(l, id, chunk).0
  }

  /** The loop of adp_wait_for_response, over the results of the reads. */
  function Wait(l: Link, id: byte, results: seq<Option<seq<byte>>>): (Link, bool)
    decreases |results|
  {
    if IsReceived(l.rx) then (l, true)
    else if results == [] then (l, false)
    else Wait(ReadInto(l, id, results[0]), id, results[1..])
  }

  /** Both functions forget an earlier packet first. */
  function Cleared(l: Link): Link {
    l.(rx := l.rx.(packetReceived := false))
  }

  /** adp_wait_for_response */
  function WaitForResponse(l: Link, id: byte, results: seq<Option<seq<byte>>>): (Link, bool) {
    Wait(Cleared(l), id, results)
  }

  /** The loop of adp_check_for_response. */
  function Check(l: Link, id: byte, results: seq<Option<seq<byte>>>, retry: nat): (Link, bool)
    decreases |results|
  {
    if IsReceived(l.rx) || retry == 0 || results == [] then (l, false)
    else
      match results[0]
      case None => Check(l, id, results[1..], retry - 1)
      case Some(chunk) =>
        var (next, status) := Listen(l, id, chunk);
        if status then (next, true) else Check(next, id, results[1..], retry - 1)
  }

  /** adp_check_for_response */
  function CheckForResponse(l: Link, id: byte, results: seq<Option<seq<byte>>>): (Link, bool) {
    Check(Cleared(l), id, results, 50)
  }

  lemma {:induction false} WaitKeepsOverrun(l: Link, id: byte, results: seq<Option<seq<byte>>>)
    ensures l.overrun ==> Wait(l, id, results).0.overrun
    decreases |results|
  {
    hide IsReceived;
    if results != [] {
      if results[0].Some? {
        OverrunStays(l, id, results[0].value);
      }
      WaitKeepsOverrun(ReadInto(l, id, results[0]), id, results[1..]);
    }
  }

  lemma {:induction false} CheckKeepsOverrun(l: Link, id: byte, results: seq<Option<seq<byte>>>, retry: nat)
    ensures l.overrun ==> Check(l, id, results, retry).0.overrun
    decreases |results|
  {
    hide IsReceived;
    if results != [] && retry != 0 {
      if results[0].Some? {
        OverrunStays(l, id, results[0].value);
      }
      CheckKeepsOverrun(ReadInto(l, id, results[0]), id, results[1..], retry - 1);
    }
  }

  lemma {:induction false} QuietDoesNotMatch(l: Link, id: byte, bytes: seq<byte>)
    requires !Matches(l.rx, id) && !Listen(l, id, bytes).1
    ensures !Matches(Listen(l, id, bytes).0.rx, id)
    decreases |bytes|
  {
    hide Feed, Matches;
    if bytes != [] {
      QuietDoesNotMatch(Feed(l, bytes[0]), id, bytes[1..]);
    }
  }

  lemma {:induction false} FoundMatches(l: Link, id: byte, bytes: seq<byte>)
    requires Listen(l, id, bytes).1
    ensures Matches(Listen(l, id, bytes).0.rx, id)
    decreases |bytes|
  {
    hide Feed, Matches;
    if !Matches(Feed(l, bytes[0]).rx, id) {
      FoundMatches(Feed(l, bytes[0]), id, bytes[1..]);
    }
  }

  /** With reads enough for the retries, the checking loop does what the waiting loop does,
      and reports whether the packet is the awaited one. */
  lemma {:induction false} CheckIsWait(l: Link, id: byte, results: seq<Option<seq<byte>>>, retry: nat)
    requires !Matches(l.rx, id) && |results| <= retry
    ensures Check(l, id, results, retry).0 == Wait(l, id, results).0
    ensures Check(l, id, results, retry).1 <==> Matches(Wait(l, id, results).0.rx, id)
    decreases |results|
  {
    hide Listen;
    if !IsReceived(l.rx) && results != [] {
      var next := ReadInto(l, id, results[0]);
      if results[0].Some? {
        var chunk := results[0].value;
        if Listen(l, id, chunk).1 {
          FoundMatches(l, id, chunk);
        } else {
          QuietDoesNotMatch(l, id, chunk);
        }
      }
      if !Matches(next.rx, id) {
        CheckIsWait(next, id, results[1..], retry - 1);
      }
    }
  }

  // ----- Where the frames of a stream end -----

  /** Token, id and length, then the stuffed payload. */
  function FrameLength(f: Frame): nat {
    4 + |Stuff(f.payload)|
  }

  /** A frame of the encoded stream ends at byte q. */
  predicate EndsFrame(fs: seq<Frame>, q: int)
    decreases |fs|
  {
    fs != [] && (q == FrameLength(fs[0]) || EndsFrame(fs[1..], q - FrameLength(fs[0])))
  }

  /** The link at the end of frame k - 1 of the stream. */
  predicate Received(at: Link, l: Link, fs: seq<Frame>, k: nat) {
    && 0 < k <= |fs| && AtRest(at) && IsReceived(at.rx)
    && at.completed == l.completed + fs[..k] && at.overrun == l.overrun && |at.buf| == |l.buf|
    && at.rx.lastReceivedId == fs[k - 1].id
    && |fs[k - 1].payload| <= |at.buf| && at.buf[..|fs[k - 1].payload|] == fs[k - 1].payload
  }

  lemma {:induction false} PayloadIsPending(l: Link, f: Frame, k: nat, n: nat)
    requires InData(l, f, k) && n < |Stuff(f.payload[k..])|
    ensures !Fold(Feed, l, Stuff(f.payload[k..])[..n]).rx.packetReceived
    decreases |f.payload| - k
  {
    hide Feed;
    var data, rest, stuffed := f.payload[k], Stuff(f.payload[k + 1..]), Stuff(f.payload[k..]);
    PayloadByte(l, f, k);
    var l1 := if data == TOKEN then Feed(l, TOKEN) else l;
    var next := Feed(l1, data);
    assert f.payload[k..][1..] == f.payload[k + 1..];
    var width := if data == TOKEN then 2 else 1;
    assert k + 1 == |f.payload| ==> f.payload[k + 1..] == [];
    assert stuffed == (if data == TOKEN then [TOKEN, TOKEN] else [data]) + rest;
    if n == 0 {
      assert stuffed[..n] == [];
    } else if n < width {
      assert stuffed[..n] == [TOKEN] && [TOKEN as byte][1..] == [];
    } else {
      SkipBytes(l, stuffed, n, width);
      assert stuffed[width..n] == rest[..n - width];
      PayloadIsPending(next, f, k + 1, n - width);
    }
  }

  /** One or two bytes fed first. */
  lemma SkipBytes(l: Link, bytes: seq<byte>, n: nat, width: nat)
    requires 1 <= width <= 2 && width <= n <= |bytes|
    ensures
      var fed := if width == 2 then Feed(Feed(l, bytes[0]), bytes[1]) else Feed(l, bytes[0]);
      Fold(Feed, l, bytes[..n]) == Fold(Feed, fed, bytes[width..n])
  {
    hide Feed;
    assert bytes[..n][1..] == bytes[1..n];
    if width == 2 {
      assert bytes[1..n][1..] == bytes[2..n];
    }
  }

  /** Inside a header no packet is received. */
  lemma HeaderIsPending(l: Link, f: Frame, n: nat)
    requires AtRest(l) && ValidFrame(f) && |f.payload| <= |l.buf| && 0 < n < 4
    ensures !Fold(Feed, l, Encode(f)[..n]).rx.packetReceived
  {
    HeaderArrives(l, f);
    hide Feed, Stuff, AtRest;
    var bytes := Encode(f);
    if n == 1 {
      assert bytes[..1] == [TOKEN] && [TOKEN as byte][1..] == [];
    } else {
      SkipBytes(l, bytes, n, 2);
      assert n == 2 ==> bytes[2..n] == [];
      assert n == 3 ==> bytes[2..n] == [bytes[2]] && [bytes[2]][1..] == [];
    }
  }

  /** The bytes behind the header. */
  lemma SkipHeader(l: Link, f: Frame, n: nat)
    requires ValidFrame(f) && 4 <= n <= |Encode(f)|
    ensures n - 4 <= |Stuff(f.payload)|
    ensures
      var l4 := Feed(Feed(Feed(Feed(l, TOKEN), f.id), |f.payload| % 256), |f.payload| / 256);
      Fold(Feed, l, Encode(f)[..n]) == Fold(Feed, l4, Stuff(f.payload)[..n - 4])
  {
    hide Feed, Stuff;
    var bytes := Encode(f);
    SkipBytes(l, bytes, n, 2);
    assert bytes[2..n][..n - 2] == bytes[2..n] && bytes[2..n][2..n - 2] == bytes[4..n];
    SkipBytes(Feed(Feed(l, TOKEN), f.id), bytes[2..n], n - 2, 2);
    assert bytes[4..] == Stuff(f.payload) && bytes[4..n] == bytes[4..][..n - 4];
  }

  /** Inside a frame no packet is received. */
  lemma FrameIsPending(l: Link, f: Frame, n: nat)
    requires AtRest(l) && ValidFrame(f) && |f.payload| <= |l.buf| && 0 < n < |Encode(f)|
    ensures !Fold(Feed, l, Encode(f)[..n]).rx.packetReceived
  {
    if n < 4 {
      HeaderIsPending(l, f, n);
    } else {
      HeaderArrives(l, f);
      hide Feed, Stuff, AtRest;
      SkipHeader(l, f, n);
      assert f.payload[0..] == f.payload;
      PayloadIsPending(Feed(Feed(Feed(Feed(l, TOKEN), f.id), |f.payload| % 256), |f.payload| / 256), f, 0, n - 4);
    }
  }

  lemma DeliveredIsReceived(at: Link, l: Link, fs: seq<Frame>)
    requires fs != [] && Delivered(at, l, fs[0]) && fs[0].payload != []
    ensures Received(at, l, fs, 1)
  {
    assert fs[..1] == [fs[0]];
  }

  lemma ReceivedLater(at: Link, next: Link, l: Link, fs: seq<Frame>, k: nat)
    requires fs != [] && Delivered(next, l, fs[0]) && Received(at, next, fs[1..], k)
    ensures Received(at, l, fs, k + 1)
  {
    assert fs[..k + 1] == [fs[0]] + fs[1..][..k];
  }

  /** At every byte of an encoded stream: a packet is received exactly where a frame ends,
      and it is that frame. */
  lemma {:induction false} StreamPosition(l: Link, fs: seq<Frame>, q: nat) returns (k: nat)
    requires AtRest(l) && forall f :: f in fs ==> ValidFrame(f) && |f.payload| <= |l.buf|
    requires 0 < q <= |EncodeAll(fs)|
    ensures var at := Fold(Feed, l, EncodeAll(fs)[..q]);
      if EndsFrame(fs, q) then Received(at, l, fs, k) && (k == |fs| <==> q == |EncodeAll(fs)|) else !IsReceived(at.rx)
    decreases |fs|
  {
    hide Feed, Encode, AtRest, Delivered, Received, FrameLength;
    k := 0;
    var first, rest := Encode(fs[0]), EncodeAll(fs[1..]);
    FrameArrives(l, fs[0], 0);
    EncodedLength(fs[0]);
    var next := Fold(Feed, l, first);
    if q < |first| {
      assert EncodeAll(fs)[..q] == first[..q];
      FrameIsPending(l, fs[0], q);
      FrameEndsInside(fs[1..], q - |first|);
    } else if q == |first| {
      k := 1;
      assert EncodeAll(fs)[..q] == first;
      DeliveredIsReceived(next, l, fs);
      EncodeAllNonempty(fs[1..]);
    } else {
      assert EncodeAll(fs)[..q] == first + rest[..q - |first|];
      FoldAppend(Feed, l, first, rest[..q - |first|]);
      DeliveredKeeps(next, l, fs[0]);
      k := StreamPosition(next, fs[1..], q - |first|);
      if EndsFrame(fs, q) {
        ReceivedLater(Fold(Feed, l, EncodeAll(fs)[..q]), next, l, fs, k);
        k := k + 1;
      }
    }
  }

  lemma DeliveredKeeps(next: Link, l: Link, f: Frame)
    requires Delivered(next, l, f)
    ensures AtRest(next) && |next.buf| == |l.buf|
  {
  }

  lemma EncodedLength(f: Frame)
    requires ValidFrame(f)
    ensures 5 <= |Encode(f)| == FrameLength(f) && f.payload != []
  {
  }

  lemma EncodeAllNonempty(fs: seq<Frame>)
    requires forall f :: f in fs ==> ValidFrame(f)
    ensures |EncodeAll(fs)| == 0 <==> fs == []
  {
    if fs != [] {
      EncodedLength(fs[0]);
    }
  }

  lemma {:induction false} FrameEndsInside(fs: seq<Frame>, q: int)
    requires forall f :: f in fs ==> ValidFrame(f)
    ensures EndsFrame(fs, q) ==> 0 < q <= |EncodeAll(fs)|
    decreases |fs|
  {
    hide Encode, ValidFrame, FrameLength;
    if fs != [] {
      EncodedLength(fs[0]);
      FrameEndsInside(fs[1..], q - FrameLength(fs[0]));
    }
  }

  lemma {:induction false} LastFrameEnds(fs: seq<Frame>)
    requires fs != [] && forall f :: f in fs ==> ValidFrame(f)
    ensures EndsFrame(fs, |EncodeAll(fs)|)
    decreases |fs|
  {
    hide Encode, ValidFrame, FrameLength;
    EncodedLength(fs[0]);
    if fs[1..] != [] {
      LastFrameEnds(fs[1..]);
    }
  }

  /** The frames before the response end where frames of the whole stream end before its
      end. */
  lemma {:induction false} FramesBeforeResponse(others: seq<Frame>, response: Frame, q: int)
    requires ValidFrame(response) && forall f :: f in others ==> ValidFrame(f)
    ensures forall f :: f in others + [response] ==> ValidFrame(f)
    ensures EndsFrame(others + [response], q) && q != |EncodeAll(others + [response])| <==> EndsFrame(others, q)
    ensures EncodeAll(others + [response]) == EncodeAll(others) + Encode(response)
    decreases |others|
  {
    hide Encode, ValidFrame, FrameLength;
    var fs := others + [response];
    assert forall f :: f in fs ==> ValidFrame(f);
    EncodedLength(response);
    if others == [] {
      assert fs == [response] && fs[1..] == [];
    } else {
      assert fs[1..] == others[1..] + [response];
      EncodedLength(others[0]);
      FramesBeforeResponse(others[1..], response, q - FrameLength(others[0]));
      assert EncodeAll(fs) == Encode(others[0]) + EncodeAll(fs[1..]);
      FrameEndsInside(others[1..], q - FrameLength(others[0]));
      assert |EncodeAll(fs)| > FrameLength(others[0]);
    }
  }

  // ----- What the loops end with -----

  lemma {:induction false} QuietListen(l: Link, id: byte, bytes: seq<byte>)
    requires forall n :: 0 < n <= |bytes| ==> !Matches(Fold(Feed, l, bytes[..n]).rx, id)
    ensures Listen(l, id, bytes) == (Fold(Feed, l, bytes), false)
    decreases |bytes|
  {
    hide Feed, Matches;
    if bytes != [] {
      var next := Feed(l, bytes[0]);
      assert bytes[..1][1..] == [] && Fold(Feed, l, bytes[..1]) == next;
      forall n | 0 < n <= |bytes[1..]| ensures !Matches(Fold(Feed, next, bytes[1..][..n]).rx, id) {
        assert bytes[..n + 1][1..] == bytes[1..][..n];
        assert Fold(Feed, l, bytes[..n + 1]) == Fold(Feed, next, bytes[1..][..n]);
      }
      QuietListen(next, id, bytes[1..]);
    }
  }

  lemma {:induction false} HitListen(l: Link, id: byte, bytes: seq<byte>, more: seq<byte>)
    requires bytes != [] && Matches(Fold(Feed, l, bytes).rx, id)
    requires forall n :: 0 < n < |bytes| ==> !Matches(Fold(Feed, l, bytes[..n]).rx, id)
    ensures Listen(l, id, bytes + more) == (Fold(Feed, l, bytes), true)
  {
    hide Feed, Matches;
    var n := |bytes| - 1;
    var before, last := bytes[..n], [bytes[n]] + more;
    forall m | 0 < m <= |before| ensures !Matches(Fold(Feed, l, before[..m]).rx, id) {
      assert before[..m] == bytes[..m];
    }
    QuietListen(l, id, before);
    assert bytes + more == before + last;
    ListenAppend(l, id, before, last);
    assert bytes == before + [bytes[n]];
    FoldAppend(Feed, l, before, [bytes[n]]);
    assert [bytes[n]][1..] == [];
    assert Fold(Feed, Fold(Feed, l, before), [bytes[n]]) == Feed(Fold(Feed, l, before), bytes[n]);
  }

  /** An encoded stream of frames that each have room in the buffer, of which only the
      last has the awaited id. */
  predicate Stream(fs: seq<Frame>, bytes: seq<byte>, id: byte, room: nat) {
    && fs != [] && fs[|fs| - 1].id == id
    && (forall f :: f in fs ==> ValidFrame(f) && |f.payload| <= room)
    && (forall i :: 0 <= i < |fs| - 1 ==> fs[i].id != id)
    && bytes == EncodeAll(fs)
  }

  /** The link after p bytes of the stream. */
  function At(l: Link, bytes: seq<byte>, p: nat): Link
    requires p <= |bytes|
  {
    Fold(Feed, l, bytes[..p])
  }

  /** At every byte of the stream: a packet is received exactly where a frame ends, and it
      matches exactly at the end of the stream. */
  lemma StreamAt(l: Link, fs: seq<Frame>, bytes: seq<byte>, id: byte, q: nat) returns (k: nat)
    requires AtRest(l) && Stream(fs, bytes, id, |l.buf|) && 0 < q <= |bytes|
    ensures EndsFrame(fs, q) ==> Received(At(l, bytes, q), l, fs, k) && (k == |fs| <==> q == |bytes|)
    ensures IsReceived(At(l, bytes, q).rx) <==> EndsFrame(fs, q)
    ensures Matches(At(l, bytes, q).rx, id) <==> q == |bytes|
    ensures EndsFrame(fs, |bytes|)
  {
    hide Feed, EncodeAll, AtRest, EndsFrame, ValidFrame;
    k := StreamPosition(l, fs, q);
    LastFrameEnds(fs);
  }

  lemma AtFurther(l: Link, bytes: seq<byte>, p: nat, n: nat)
    requires p + n <= |bytes|
    ensures Fold(Feed, At(l, bytes, p), bytes[p..p + n]) == At(l, bytes, p + n)
  {
    hide Feed;
    assert bytes[..p + n] == bytes[..p] + bytes[p..p + n];
    FoldAppend(Feed, l, bytes[..p], bytes[p..p + n]);
  }

  lemma MatchInChunk(l: Link, fs: seq<Frame>, bytes: seq<byte>, id: byte, p: nat, at: Link, chunk: seq<byte>)
    requires AtRest(l) && Stream(fs, bytes, id, |l.buf|)
    requires p + |chunk| <= |bytes| && chunk == bytes[p..p + |chunk|] && at == At(l, bytes, p)
    ensures Fold(Feed, at, chunk) == At(l, bytes, p + |chunk|)
    ensures forall n :: 0 < n <= |chunk| ==> (Matches(Fold(Feed, at, chunk[..n]).rx, id) <==> n == |bytes| - p)
  {
    hide Feed, Matches, AtRest, Stream, At, IsReceived, EndsFrame;
    AtFurther(l, bytes, p, |chunk|);
    forall n | 0 < n <= |chunk| ensures Matches(Fold(Feed, at, chunk[..n]).rx, id) <==> n == |bytes| - p {
      AtFurther(l, bytes, p, n);
      assert chunk[..n] == bytes[p..p + n];
      var k := StreamAt(l, fs, bytes, id, p + n);
    }
  }

  lemma ChunkInside(l: Link, fs: seq<Frame>, bytes: seq<byte>, id: byte, p: nat, chunk: seq<byte>)
    requires AtRest(l) && Stream(fs, bytes, id, |l.buf|)
    requires p + |chunk| < |bytes| && chunk == bytes[p..p + |chunk|]
    ensures Listen(At(l, bytes, p), id, chunk) == (At(l, bytes, p + |chunk|), false)
  {
    hide Feed, Matches, AtRest, Stream, At, Listen;
    MatchInChunk(l, fs, bytes, id, p, At(l, bytes, p), chunk);
    QuietListen(At(l, bytes, p), id, chunk);
  }

  lemma ChunkWithEnd(l: Link, fs: seq<Frame>, bytes: seq<byte>, id: byte, p: nat, more: seq<byte>)
    requires AtRest(l) && Stream(fs, bytes, id, |l.buf|) && p < |bytes|
    ensures Listen(At(l, bytes, p), id, bytes[p..] + more) == (At(l, bytes, |bytes|), true)
  {
    hide Feed, Matches, AtRest, Stream, At, Listen;
    var part := bytes[p..];
    assert bytes[p..p + |part|] == part && part[..|part|] == part;
    MatchInChunk(l, fs, bytes, id, p, At(l, bytes, p), part);
    HitListen(At(l, bytes, p), id, part, more);
  }

  /** What a call of adp_protocol_add_byte with a chunk from byte p of the stream on does:
      it stops at the end of the stream. */
  lemma ChunkTaken(
    l: Link, fs: seq<Frame>, bytes: seq<byte>, id: byte, p: nat, chunk: seq<byte>, more: seq<byte>, rest: seq<byte>)
    requires AtRest(l) && Stream(fs, bytes, id, |l.buf|) && p < |bytes| && chunk + more == bytes[p..] + rest
    ensures
      var q := p + |chunk|;
      if q < |bytes| then
        Listen(At(l, bytes, p), id, chunk) == (At(l, bytes, q), false) && more == bytes[q..] + rest
      else
        Listen(At(l, bytes, p), id, chunk) == (At(l, bytes, |bytes|), true)
  {
    hide AtRest, Stream, At, Listen;
    SplitStream(bytes, p, chunk, more, rest);
    if p + |chunk| < |bytes| {
      ChunkInside(l, fs, bytes, id, p, chunk);
    } else {
      ChunkWithEnd(l, fs, bytes, id, p, chunk[|bytes| - p..]);
    }
  }

  /** A chunk against the rest of the stream. */
  lemma SplitStream(bytes: seq<byte>, p: nat, chunk: seq<byte>, more: seq<byte>, rest: seq<byte>)
    requires p <= |bytes| && chunk + more == bytes[p..] + rest
    ensures p + |chunk| <= |bytes| ==>
      chunk == bytes[p..p + |chunk|] && more == bytes[p + |chunk|..] + rest
    ensures |bytes| <= p + |chunk| ==> chunk == bytes[p..] + chunk[|bytes| - p..]
  {
    assert chunk == (chunk + more)[..|chunk|] && more == (chunk + more)[|chunk|..];
  }

  /** A chunk ends before byte `size` of the stream at the end of one of these frames; the
      first chunk starts at byte p. */
  predicate EndsEarly(fs: seq<Frame>, size: nat, p: nat, chunks: seq<seq<byte>>)
    decreases |chunks|
  {
    var q := if chunks == [] then 0 else p + |chunks[0]|;
    chunks != [] && ((q < size && EndsFrame(fs, q)) || EndsEarly(fs, size, q, chunks[1..]))
  }

  lemma {:induction false} NothingEndsBehind(fs: seq<Frame>, size: nat, p: nat, chunks: seq<seq<byte>>)
    requires size <= p
    ensures !EndsEarly(fs, size, p, chunks)
    decreases |chunks|
  {
    if chunks != [] {
      NothingEndsBehind(fs, size, p + |chunks[0]|, chunks[1..]);
    }
  }

  /** The chunks of the reads that did not fail. */
  function Arrived(results: seq<Option<seq<byte>>>): seq<seq<byte>>
    decreases |results|
  {
    if results == [] then [] else (if results[0].Some? then [results[0].value] else []) + Arrived(results[1..])
  }

  lemma ArrivedNext(results: seq<Option<seq<byte>>>)
    requires results != []
    ensures results[0].None? ==> Arrived(results) == Arrived(results[1..])
    ensures results[0].Some? ==>
      && Arrived(results) == [results[0].value] + Arrived(results[1..])
      && Arrived(results)[1..] == Arrived(results[1..])
      && Concat(Arrived(results)) == results[0].value + Concat(Arrived(results[1..]))
  {
    assert results[0].None? ==> [] + Arrived(results[1..]) == Arrived(results[1..]);
    assert results[0].Some? ==> ([results[0].value] + Arrived(results[1..]))[1..] == Arrived(results[1..]);
  }

  /** The waiting loop from byte p of the stream on, where no packet is received. */
  lemma {:induction false} WaitFrom(l: Link, fs: seq<Frame>, bytes: seq<byte>, id: byte, p: nat, rest: seq<byte>,
      results: seq<Option<seq<byte>>>)
    returns (k: nat)
    requires AtRest(l) && Stream(fs, bytes, id, |l.buf|) && p < |bytes|
    requires !IsReceived(At(l, bytes, p).rx)
    requires Concat(Arrived(results)) == bytes[p..] + rest
    ensures
      var (end, ended) := Wait(At(l, bytes, p), id, results);
      ended && Received(end, l, fs, k) && (k == |fs| <==> !EndsEarly(fs, |bytes|, p, Arrived(results)))
    decreases |results|
  {
    hide Feed, AtRest, IsReceived, Listen, Received, EndsFrame, Stream, At, Arrived, Concat;
    if results == [] {
      NothingArrives();
    }
    ArrivedNext(results);
    if results[0].None? {
      k := WaitFrom(l, fs, bytes, id, p, rest, results[1..]);
      return;
    }
    var chunk, chunks := results[0].value, Arrived(results[1..]);
    var q := p + |chunk|;
    ChunkTaken(l, fs, bytes, id, p, chunk, Concat(chunks), rest);
    if |bytes| <= q {
      k := StreamAt(l, fs, bytes, id, |bytes|);
      NothingEndsBehind(fs, |bytes|, q, chunks);
    } else if EndsFrame(fs, q) {
      StreamEnds(fs, bytes, id, |l.buf|, q);
      k := StreamAt(l, fs, bytes, id, q);
    } else {
      if 0 < q {
        var n := StreamAt(l, fs, bytes, id, q);
      }
      k := WaitFrom(l, fs, bytes, id, q, rest, results[1..]);
    }
  }

  lemma NothingArrives()
    ensures Concat(Arrived([])) == []
  {
  }

  lemma StreamEnds(fs: seq<Frame>, bytes: seq<byte>, id: byte, room: nat, q: nat)
    requires Stream(fs, bytes, id, room) && EndsFrame(fs, q)
    ensures 0 < q <= |bytes|
  {
    hide EndsFrame, EncodeAll;
    FrameEndsInside(fs, q);
  }

  /** A chunk ends at the end of one of these frames; the first chunk starts at byte p. */
  predicate ChunkEndsFrame(fs: seq<Frame>, p: nat, chunks: seq<seq<byte>>)
    decreases |chunks|
  {
    chunks != [] && (EndsFrame(fs, p + |chunks[0]|) || ChunkEndsFrame(fs, p + |chunks[0]|, chunks[1..]))
  }

  lemma {:induction false} EarlyIsBeforeResponse(others: seq<Frame>, response: Frame, p: nat, chunks: seq<seq<byte>>)
    requires ValidFrame(response) && forall f :: f in others ==> ValidFrame(f)
    ensures EndsEarly(others + [response], |EncodeAll(others) + Encode(response)|, p, chunks)
      <==> ChunkEndsFrame(others, p, chunks)
    decreases |chunks|
  {
    hide Encode, ValidFrame, EndsFrame, EncodeAll;
    if chunks != [] {
      var q := p + |chunks[0]|;
      FramesBeforeResponse(others, response, q);
      FrameEndsInside(others + [response], q);
      EarlyIsBeforeResponse(others, response, q, chunks[1..]);
    }
  }

  lemma WholeStream(others: seq<Frame>, response: Frame, id: byte, room: nat)
    requires forall f :: f in others ==> ValidFrame(f) && f.id != id && |f.payload| <= room
    requires ValidFrame(response) && response.id == id && |response.payload| <= room
    ensures Stream(others + [response], EncodeAll(others) + Encode(response), id, room)
    ensures 0 < |EncodeAll(others) + Encode(response)|
  {
    hide Encode, ValidFrame, EncodeAll;
    FramesBeforeResponse(others, response, 0);
    EncodedLength(response);
  }

  /** Waiting for a response. The reads, failed ones left out, bring frames with other ids,
      the response and whatever follows, cut into any chunks. The wait ends with a packet
      of this stream, complete in the buffer; it is the response if and only if no chunk
      ends at the end of a frame before it. */
  lemma WaitExact(l: Link, id: byte, others: seq<Frame>, response: Frame, rest: seq<byte>,
      results: seq<Option<seq<byte>>>)
    returns (k: nat)
    requires AtRest(l) && forall f :: f in others ==> ValidFrame(f) && f.id != id && |f.payload| <= |l.buf|
    requires ValidFrame(response) && response.id == id && |response.payload| <= |l.buf|
    requires Concat(Arrived(results)) == EncodeAll(others) + Encode(response) + rest
    ensures
      var (end, ended) := WaitForResponse(l, id, results);
      && ended && Received(end, l, others + [response], k)
      && (k == |others| + 1 <==> !ChunkEndsFrame(others, 0, Arrived(results)))
      && (end.rx.lastReceivedId == id <==> !ChunkEndsFrame(others, 0, Arrived(results)))
  {
    var fs, bytes, cleared := others + [response], EncodeAll(others) + Encode(response), Cleared(l);
    hide Feed, Encode, EncodeAll, ValidFrame, Concat, Arrived, ChunkEndsFrame, Stream, Wait, EndsEarly;
    WholeStream(others, response, id, |l.buf|);
    assert bytes[..0] == [] && bytes[0..] == bytes;
    k := WaitFrom(cleared, fs, bytes, id, 0, rest, results);
    EarlyIsBeforeResponse(others, response, 0, Arrived(results));
  }

  /** adp_check_for_response with at most as many reads as retries: it reports success if
      and only if the waiting loop ends with the response. */
  lemma CheckExact(l: Link, id: byte, others: seq<Frame>, response: Frame, rest: seq<byte>,
      results: seq<Option<seq<byte>>>)
    requires AtRest(l) && forall f :: f in others ==> ValidFrame(f) && f.id != id && |f.payload| <= |l.buf|
    requires ValidFrame(response) && response.id == id && |response.payload| <= |l.buf|
    requires Concat(Arrived(results)) == EncodeAll(others) + Encode(response) + rest && |results| <= 50
    ensures CheckForResponse(l, id, results).0 == WaitForResponse(l, id, results).0
    ensures CheckForResponse(l, id, results).1 <==> !ChunkEndsFrame(others, 0, Arrived(results))
  {
    hide Wait, Check, EncodeAll, Encode, Concat, Arrived, ChunkEndsFrame, ValidFrame;
    CheckIsWait(Cleared(l), id, results, 50);
    var k := WaitExact(l, id, others, response, rest, results);
  }

  /** Reads behind the retries do not count. */
  lemma {:induction false} RetriesBoundReads(l: Link, id: byte, results: seq<Option<seq<byte>>>, retry: nat)
    requires retry <= |results|
    ensures Check(l, id, results, retry) == Check(l, id, results[..retry], retry)
    decreases retry
  {
    hide Listen, IsReceived;
    if retry != 0 {
      assert results[..retry][1..] == results[1..][..retry - 1];
      RetriesBoundReads(ReadInto(l, id, results[0]), id, results[1..], retry - 1);
    }
  }

  /** adp_check_for_response gives up after fifty reads. */
  lemma FiftyReads(l: Link, id: byte, results: seq<Option<seq<byte>>>)
    requires 50 <= |results|
    ensures CheckForResponse(l, id, results) == CheckForResponse(l, id, results[..50])
    ensures !CheckForResponse(l, id, seq(50, _ => None) + results).1
  {
    RetriesBoundReads(Cleared(l), id, results, 50);
    var failed: seq<Option<seq<byte>>> := seq(50, _ => None);
    RetriesBoundReads(Cleared(l), id, failed + results, 50);
    assert (failed + results)[..50] == failed;
    hide Check;
    NothingIsFound(Cleared(l), id, 50);
  }

  lemma {:induction false} NothingIsFound(l: Link, id: byte, n: nat)
    ensures !Check(l, id, seq(n, _ => None), n).1
    decreases n
  {
    if n != 0 {
      var failed: seq<Option<seq<byte>>> := seq(n, _ => None);
      assert failed[1..] == seq(n - 1, _ => None);
      NothingIsFound(l, id, n - 1);
    }
  }

  /** A caller that waits for a one-byte acknowledgement reads five bytes at a time. A
      frame of one byte with another id, read first, ends the wait: its byte is what the
      caller takes for the acknowledgement. */
  lemma OtherFrameIsTaken(acknowledgement: byte)
    ensures
      var l := Link(RESET, [acknowledgement], [], false);
      var other, response := Frame(0x12, [0]), Frame(0x30, [1]);
      && ValidFrame(other) && ValidFrame(response) && |Encode(other)| == |Encode(response)| == 5
      && var (end, ended) := WaitForResponse(l, 0x30, [Some(Encode(other)), Some(Encode(response))]);
         ended && end.rx.lastReceivedId == 0x12 && end.buf == [0]
  {
    var l := Link(RESET, [acknowledgement], [], false);
    var other, response := Frame(0x12, [0]), Frame(0x30, [1]);
    assert Stuff([0]) == [0] && Stuff([1]) == [1];
    assert |Encode(other)| == 5 && |Encode(response)| == 5;
    hide Encode, Stuff;
    var results := [Some(Encode(other)), Some(Encode(response))];
    TwoReads(Encode(other), Encode(response));
    assert [other][1..] == [] && EncodeAll([other]) == Encode(other);
    assert Encode(other) + Encode(response) + [] == Encode(other) + Encode(response);
    hide WaitForResponse, EncodeAll, Arrived, Concat;
    var k := WaitExact(l, 0x30, [other], response, [], results);
    assert EndsFrame([other], 5);
    assert ([other] + [response])[..k] == [other];
  }

  lemma TwoReads(a: seq<byte>, b: seq<byte>)
    ensures Arrived([Some(a), Some(b)]) == [a, b] && Concat([a, b]) == a + b
  {
    assert [Some(a), Some(b)][1..] == [Some(b)] && [Some(b)][1..] == [];
    assert [a, b][1..] == [b] && [b][1..] == [];
    assert Arrived([Some(b)]) == [b] && Concat([b]) == b;
  }
}
