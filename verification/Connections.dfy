/**
  A tcpx connection: the client writes a header and a block-framed body for
  every call, the server reads them, answers with a header and a framed body,
  and keeps the connection for the next request.
*/
module Connections {
  import opened Options
  import opened Sequences
  import opened Channels
  import opened BlockStreams
  import opened DataStreams
  import opened TcpxHeaders

  const BLOCK_SIZE: Int32 := 8192

  // ---------------------------------------------------------------- bodies

  /** What a serializer does to the body stream. */
  datatype WriteOp = PutByte(b: Int32) | PutArray(bytes: seq<Byte>) | FlushBody

  predicate IsOp(op: WriteOp) {
    op.PutArray? ==> |op.bytes| <= MAX_INT
  }

  function OpBytes(op: WriteOp): seq<Byte> {
    match op
    case PutByte(b) => [b % 0x100]
    case PutArray(bytes) => bytes
    case FlushBody => []
  }

  function Payload(ops: seq<WriteOp>): seq<Byte> {
    if ops == [] then [] else Payload(ops[..|ops| - 1]) + OpBytes(ops[|ops| - 1])
  }

  /** What is written is the bytes and the arrays, one behind the other; flushes add nothing. */
  lemma WritesAddUp(ops: seq<WriteOp>, op: WriteOp)
    ensures Payload([]) == []
    ensures op.PutByte? ==> Payload(ops + [op]) == Payload(ops) + [op.b % 0x100]
    ensures op.PutArray? ==> Payload(ops + [op]) == Payload(ops) + op.bytes
    ensures op.FlushBody? ==> Payload(ops + [op]) == Payload(ops)
  {
    assert (ops + [op])[..|ops|] == ops;
  }

  /** Any sequence of writes and flushes, ended by one close, leaves one frame that carries the bytes written. */
  method WriteBody(out: Sink, size: Int32, ops: seq<WriteOp>) returns (ghost frame: Frame)
    requires size > 0 && forall i :: 0 <= i < |ops| ==> IsOp(ops[i])
    modifies out
    ensures frame.Valid() && frame.size == size && frame.Payload() == Payload(ops)
    ensures out.sent == old(out.sent) + EncodeFrame(frame)
  {
    var stream := new BlockOutputStream(out, size);
    for i := 0 to |ops|
      invariant stream.Valid() && stream.out == out && fresh(stream) && fresh(stream.buf)
      invariant stream.buf.Length == size && stream.start == old(out.sent)
      invariant stream.Written() == Payload(ops[..i])
    {
      WriteOne(stream, ops[i]);
      assert ops[..i + 1][..i] == ops[..i];
    }
    assert ops[..|ops|] == ops;
    frame := stream.Close();
  }

  method WriteOne(stream: BlockOutputStream, op: WriteOp)
    requires stream.Valid() && IsOp(op)
    modifies stream, stream.out, stream.buf
    ensures stream.Valid() && stream.Written() == old(stream.Written()) + OpBytes(op)
  {
    match op
    case PutByte(b) => stream.Write(b);
    case PutArray(bytes) =>
      var a := new Byte[|bytes|](i requires 0 <= i < |bytes| => bytes[i]);
      assert a[..] == bytes;
      stream.WriteArray(a, 0, |bytes|);
    case FlushBody => stream.Flush();
  }

  function Sum(sizes: seq<nat>): nat {
    if sizes == [] then 0 else Sum(sizes[..|sizes| - 1]) + sizes[|sizes| - 1]
  }

  /** The part of a body that reads of these sizes deliver. */
  function Prefix(body: seq<Byte>, sizes: seq<nat>): seq<Byte> {
    body[..Min(Sum(sizes), |body|)]
  }

  /** Each read goes on where the ones before it stopped, and falls short only where the body ends. */
  lemma ReadsAddUp(body: seq<Byte>, sizes: seq<nat>, n: nat)
    ensures Prefix(body, []) == [] && Prefix(body, sizes) <= body
    ensures var got := |Prefix(body, sizes)|;
      Prefix(body, sizes + [n]) == if got + n <= |body| then body[..got + n] else body
  {
    assert (sizes + [n])[..|sizes|] == sizes;
  }

  /** Any sequence of reads delivers the body from its start, short only where the body ends. */
  method ReadBody(stream: BlockInputStream, sizes: seq<nat>) returns (got: seq<Byte>)
    requires stream.Valid()
    modifies stream, stream.source, stream.buf
    ensures stream.Valid() && (stream.buf != old(stream.buf) ==> stream.buf != null && fresh(stream.buf))
    ensures got == Prefix(old(stream.left), sizes)
    ensures got + stream.left == old(stream.left)
  {
    got := [];
    for i := 0 to |sizes|
      invariant stream.Valid() && (stream.buf != old(stream.buf) ==> stream.buf != null && fresh(stream.buf))
      invariant got + stream.left == old(stream.left)
      invariant |got| == Min(Sum(sizes[..i]), |old(stream.left)|)
    {
      var part := ReadPart(stream, sizes[i]);
      Associative(got, part, stream.left);
      got := got + part;
      assert sizes[..i + 1][..i] == sizes[..i];
    }
    assert sizes[..|sizes|] == sizes;
  }

  method ReadPart(stream: BlockInputStream, size: nat) returns (got: seq<Byte>)
    requires stream.Valid()
    modifies stream, stream.source, stream.buf
    ensures stream.Valid() && (stream.buf != old(stream.buf) ==> stream.buf != null && fresh(stream.buf))
    ensures got + stream.left == old(stream.left)
    ensures |got| == Min(size, |old(stream.left)|)
  {
    var b := new Byte[size];
    var ok, n := stream.ReadInto(b, 0, size);
    got := if n < 0 then [] else b[..n];
  }

  // -------------------------------------------------------------- requests

  /** A request or a response as it travels. */
  datatype Message = Message(header: RequestHeader, frame: Frame)
  datatype Reply = Reply(header: ResponseHeader, frame: Frame)

  predicate Travels(m: Message) {
    m.header.Fits() && m.frame.Valid()
  }

  function EncodeMessage(m: Message): seq<Byte>
    requires Travels(m)
  {
    EncodeRequest(m.header) + EncodeFrame(m.frame)
  }

  predicate MessagesTravel(ms: seq<Message>) {
    forall i :: 0 <= i < |ms| ==> Travels(ms[i])
  }

  function EncodeMessages(ms: seq<Message>): seq<Byte>
    requires MessagesTravel(ms)
  {
    if ms == [] then []
    else
      assert Travels(ms[0]);
      EncodeMessage(ms[0]) + EncodeMessages(ms[1..])
  }

  predicate ReplyTravels(r: Reply) {
    r.header.Fits() && r.frame.Valid()
  }

  function EncodeReply(r: Reply): seq<Byte>
    requires ReplyTravels(r)
  {
    EncodeResponse(r.header) + EncodeFrame(r.frame)
  }

  predicate AllReplyTravel(rs: seq<Reply>) {
    forall i :: 0 <= i < |rs| ==> ReplyTravels(rs[i])
  }

  function EncodeReplies(rs: seq<Reply>): seq<Byte>
    requires AllReplyTravel(rs)
  {
    if rs == [] then []
    else
      assert ReplyTravels(rs[|rs| - 1]);
      EncodeReplies(rs[..|rs| - 1]) + EncodeReply(rs[|rs| - 1])
  }

  /** What `getInputStream` hands out. */
  datatype Input = Cached(bytes: seq<Byte>) | Live(stream: BlockInputStream)

  /** A request whose body is still on the channel, is being read from it, or was cached. */
  class ServiceRequest {
    const source: Source
    var cachedData: Option<seq<Byte>>
    var live: BlockInputStream?
    ghost const frame: Frame
    ghost const tail: seq<Byte>
    ghost var Repr: set<object>

    ghost predicate Valid()
      reads this, live, Repr
    {
      && Repr == {this, source} + (if live == null then {} else {live})
               + (if live == null || live.buf == null then {} else {live.buf})
      && frame.Valid()
      && (live == null && cachedData == None ==> source.rest == EncodeFrame(frame) + tail)
      && (cachedData.Some? ==> live == null && cachedData.value == frame.Payload() && source.rest == tail)
      && (live != null ==> live.source == source && live.tail == tail && live.Valid())
    }

    constructor (source: Source, ghost frame: Frame, ghost tail: seq<Byte>)
      requires frame.Valid() && source.rest == EncodeFrame(frame) + tail
      ensures Valid() && fresh(Repr - {source})
      ensures this.source == source && this.frame == frame && this.tail == tail
      ensures live == null && cachedData == None
    {
      this.source := source;
      this.frame := frame;
      this.tail := tail;
      cachedData := None;
      live := null;
      Repr := {this, source};
    }

    /**
      Reads the whole body off the channel into memory, whatever the network's
      chunks. Opens a second stream, so the first must not have been opened.
    */
    method CacheInput()
      requires Valid() && live == null
      modifies Repr
      ensures Valid() && fresh(Repr - old(Repr)) && live == null
      ensures cachedData == Some(frame.Payload())
    {
      if cachedData.Some? {
        return;
      }
      var stream := new BlockInputStream(source, frame, tail);
      var data := Drain(stream);
      stream.Close();
      cachedData := Some(data);
    }

    /** The copy loop of `cacheInput` with its 8192-byte buffer. */
    static method Drain(stream: BlockInputStream) returns (data: seq<Byte>)
      requires stream.Valid() && stream.buf == null
      modifies stream, stream.source
      ensures stream.Valid() && (stream.buf != null ==> fresh(stream.buf))
      ensures data == old(stream.left)
    {
      data := [];
      var part := ReadPart(stream, 8192);
      while part != []
        invariant stream.Valid() && (stream.buf != null ==> fresh(stream.buf))
        invariant data + part + stream.left == old(stream.left)
        invariant part == [] ==> stream.left == []
        decreases |part| + |stream.left|
      {
        data := data + part;
        part := ReadPart(stream, 8192);
        Associative(data, part, stream.left);
      }
    }

    /** The cached bytes from their start, or the one live stream over the channel. */
    method GetInputStream() returns (input: Input)
      requires Valid()
      modifies Repr
      ensures Valid() && fresh(Repr - old(Repr)) && cachedData == old(cachedData)
      ensures input.Cached? <==> cachedData.Some?
      ensures input.Cached? ==> input.bytes == frame.Payload() && live == null
      ensures input.Live? ==> input.stream == live && live in Repr
      ensures input.Live? && old(live) == null ==> live.left == frame.Payload()
      ensures old(live) != null ==> live == old(live) && live.left == old(live.left)
    {
      if cachedData.Some? {
        return Cached(cachedData.value);
      }
      if live == null {
        live := new BlockInputStream(source, frame, tail);
        Repr := {this, source, live};
      }
      return Live(live);
    }

    /** One pass of a deserializer over the input, from wherever `getInputStream` starts. */
    method ReadInput(sizes: seq<nat>) returns (got: seq<Byte>)
      requires Valid() && live == null
      modifies Repr
      ensures Valid() && fresh(Repr - old(Repr)) && cachedData == old(cachedData)
      ensures cachedData.Some? ==> live == null
      ensures got == Prefix(frame.Payload(), sizes)
    {
      var input := GetInputStream();
      match input
      case Cached(bytes) =>
        got := Prefix(bytes, sizes);
      case Live(stream) =>
        got := ReadBody(stream, sizes);
        Repr := {this, source, live} + if live.buf == null then {} else {live.buf};
    }

    /** `getInputStream().close()`: nothing of this request is left on the channel. */
    method CloseInput()
      requires Valid()
      modifies Repr
      ensures source.rest == tail
    {
      var input := GetInputStream();
      match input
      case Cached(bytes) =>
      case Live(stream) => stream.Close();
    }
  }

  // ----------------------------------------------------------- the invoker

  /**
    What comes of one try to read the arguments: they fit; they do not, which the
    serializer says with an exception of its own; some other exception; or an
    `IOException`.
  */
  datatype Reading = Fits | Misfits | Refuses | Breaks

  /** One method the request may mean, how the deserializer reads its arguments and what comes of it. */
  datatype Candidate = Candidate(aliasEquals: bool, sizes: seq<nat>, reading: Reading)

  /** What the method itself does, once its arguments fit. */
  datatype Work = Returns | Throws | ThrowsIo

  /**
    Everything in the handling of one request that is not decided by the bytes on
    the channel. `reply` is what the serializer writes, and `written` whether it
    gets to the end.
  */
  datatype Handling = Handling(
    debugText: bool,
    duplicateMethodNamesSafe: bool,
    candidates: seq<Candidate>,
    work: Work,
    reply: seq<WriteOp>,
    written: bool,
    newSessionId: Text)
  {
    predicate Valid() {
      FitsUtf(newSessionId) && newSessionId != [] && forall i :: 0 <= i < |reply| ==> IsOp(reply[i])
    }

    predicate EndsSearch(c: Candidate) {
      !c.reading.Misfits? || c.aliasEquals || !duplicateMethodNamesSafe
    }

    /** The number of candidates tried: up to the first that does more than misfit, or whose misfit is final. */
    function Tried(from: nat): (n: nat)
      requires from <= |candidates|
      ensures from <= n <= |candidates|
      decreases |candidates| - from
    {
      if from == |candidates| then from else if EndsSearch(candidates[from]) then from + 1 else Tried(from + 1)
    }

    /** What came of the last candidate tried; where there is none, no method was found. */
    function Last(): Reading {
      if Tried(0) == 0 then Refuses else candidates[Tried(0) - 1].reading
    }

    predicate Success() {
      Last().Fits? && work.Returns?
    }

    /** An `IOException` leaves the invoker before it has begun to reply. */
    predicate Aborts() {
      Last().Breaks? || (Last().Fits? && work.ThrowsIo?)
    }

    /** Candidate `k` is tried: all before it misfit, and none of them was the last chance. */
    ghost predicate Tries(k: nat) {
      k < |candidates| && forall j :: 0 <= j < k ==> candidates[j].reading.Misfits? && !candidates[j].aliasEquals && duplicateMethodNamesSafe
    }

    /** Some candidate tried fits, and the method returns. */
    ghost predicate Succeeds() {
      work.Returns? && exists k: nat :: Tries(k) && candidates[k].reading.Fits?
    }
  }

  lemma {:induction false} TriedInOrder(h: Handling, from: nat)
    requires from <= |h.candidates| && forall j :: 0 <= j < from ==> !h.EndsSearch(h.candidates[j])
    ensures forall k: nat :: from <= k ==> (k < h.Tried(from) <==> h.Tries(k))
    decreases |h.candidates| - from
  {
    if from < |h.candidates| && !h.EndsSearch(h.candidates[from]) {
      TriedInOrder(h, from + 1);
    }
  }

  /** How many candidates are tried, and what success and an abort mean, told from the candidates one by one. */
  lemma HandlingMeans(h: Handling)
    ensures forall k: nat :: k < h.Tried(0) <==> h.Tries(k)
    ensures h.Success() <==> h.Succeeds()
    ensures h.Aborts() <==> exists k: nat :: h.Tries(k) && (h.candidates[k].reading.Breaks? || (h.candidates[k].reading.Fits? && h.work.ThrowsIo?))
  {
    TriedInOrder(h, 0);
    var n := h.Tried(0);
    if n > 0 {
      assert h.Tries(n - 1) && h.Last() == h.candidates[n - 1].reading;
      forall k: nat | h.Tries(k) && !h.candidates[k].reading.Misfits?
        ensures k == n - 1
      {
        assert k < n;
      }
    }
  }

  /** What the server made of a request: its header and session, and what each deserialization attempt read. */
  datatype Handled = Handled(header: RequestHeader, sessionId: Text, seen: seq<seq<Byte>>)

  /** Each attempt read the body from its first byte, whether it was cached or not. */
  ghost predicate SawBody(h: Handling, body: seq<Byte>, seen: seq<seq<Byte>>) {
    && |seen| == h.Tried(0)
    && forall i :: 0 <= i < |seen| ==> seen[i] == Prefix(body, h.candidates[i].sizes)
  }

  /** The candidate loop: caches before every attempt after which another may follow. */
  method GetInvocationContext(request: ServiceRequest, h: Handling) returns (seen: seq<seq<Byte>>, last: Reading)
    requires request.Valid() && request.live == null
    modifies request.Repr
    ensures request.Valid() && fresh(request.Repr - old(request.Repr))
    ensures SawBody(h, request.frame.Payload(), seen) && last == h.Last()
  {
    hide Prefix, ServiceRequest.Valid;
    seen, last := [], Refuses;
    for i := 0 to |h.candidates|
      invariant request.Valid() && fresh(request.Repr - old(request.Repr)) && request.live == null
      invariant |seen| == i && h.Tried(0) == h.Tried(i)
      invariant last == if i == 0 then Refuses else h.candidates[i - 1].reading
      invariant forall j :: 0 <= j < i ==> seen[j] == Prefix(request.frame.Payload(), h.candidates[j].sizes)
    {
      var c := h.candidates[i];
      var retries := h.duplicateMethodNamesSafe && !c.aliasEquals;
      if retries {
        request.CacheInput();
      }
      var got := request.ReadInput(c.sizes);
      seen, last := seen + [got], c.reading;
      if !c.reading.Misfits? || !retries {
        return;
      }
    }
  }

  /** The session a request belongs to: the one it names, or a new one. */
  function SessionOf(header: RequestHeader, h: Handling): Text {
    if header.sessionId.GetOr([]) == [] then h.newSessionId else header.sessionId.value
  }

  /** A request belongs to the session it names, and to the new one when it names none. */
  ghost predicate BelongsTo(header: RequestHeader, newSessionId: Text, sessionId: Text) {
    && (forall s :: header.sessionId == Some(s) && s != [] ==> sessionId == s)
    && (header.sessionId == None || header.sessionId == Some([]) ==> sessionId == newSessionId)
  }

  lemma SessionsAreKept(header: RequestHeader, h: Handling)
    ensures BelongsTo(header, h.newSessionId, SessionOf(header.Received(), h))
  {
  }

  /**
    `invoke`: the input is drained however the call ends. A call that aborts sends
    nothing; any other sends one complete reply, though the invoker may still
    throw behind it.
  */
  method Invoke(request: ServiceRequest, h: Handling, sessionId: Text, out: Sink)
    returns (seen: seq<seq<Byte>>, thrown: bool, ghost reply: Option<Reply>)
    requires request.Valid() && request.live == null && out !in request.Repr
    requires h.Valid() && FitsUtf(sessionId)
    modifies request.Repr, out
    ensures request.source.rest == request.tail
    ensures SawBody(h, request.frame.Payload(), seen)
    ensures thrown <==> h.Aborts() || !h.written
    ensures reply.None? <==> h.Aborts()
    ensures reply.None? ==> out.sent == old(out.sent)
    ensures reply.Some? ==> Answers(h, sessionId, reply.value) && out.sent == old(out.sent) + EncodeReply(reply.value)
  {
    if h.debugText {
      request.CacheInput();
    }
    var last;
    seen, last := GetInvocationContext(request, h);
    request.CloseInput();
    if last.Breaks? || (last.Fits? && h.work.ThrowsIo?) {
      return seen, true, None;
    }
    var header := ResponseHeader(sessionId, last.Fits? && h.work.Returns?);
    ghost var frame;
    frame := Respond(out, header, h.reply);
    return seen, !h.written, Some(Reply(header, frame));
  }

  /** The reply that a call which does not abort gets. */
  ghost predicate Answers(h: Handling, sessionId: Text, reply: Reply) {
    && ReplyTravels(reply)
    && reply.header == ResponseHeader(sessionId, h.Success())
    && reply.frame.Payload() == Payload(h.reply)
  }

  /** The response header, then the framed body. */
  method Respond(out: Sink, header: ResponseHeader, body: seq<WriteOp>) returns (ghost frame: Frame)
    requires header.Fits() && forall i :: 0 <= i < |body| ==> IsOp(body[i])
    modifies out
    ensures frame.Valid() && frame.Payload() == Payload(body)
    ensures out.sent == old(out.sent) + (EncodeResponse(header) + EncodeFrame(frame))
  {
    var responseHeader := new TcpxResponseHeader(header.sessionId);
    responseHeader.success := header.success;
    var ok := responseHeader.Write(out);
    frame := WriteBody(out, BLOCK_SIZE, body);
    Associative(old(out.sent), EncodeResponse(header), EncodeFrame(frame));
  }

  // ------------------------------------------------------------ the server

  /** What `handleRequest` comes to: the connection is kept, or given up, or an exception ends it. */
  datatype End = Keeps | Leaves | Throws

  function EndOf(header: RequestHeader, loadable: Text -> bool, h: Handling): End {
    if !header.Loads(loadable) || h.Aborts() || !h.written then End.Throws
    else if header.keepConnection then Keeps
    else Leaves
  }

  /** The connection is kept through the first `n` of these requests. */
  ghost predicate Goes(headers: seq<RequestHeader>, loadable: Text -> bool, handlings: nat -> Handling, n: nat)
    requires n <= |headers|
  {
    forall j :: 0 <= j < n ==> EndOf(headers[j], loadable, handlings(j)).Keeps?
  }

  /** Request `i` is handed to the invoker: it can be read, and none before it ended the connection. */
  ghost predicate IsServed(headers: seq<RequestHeader>, loadable: Text -> bool, handlings: nat -> Handling, i: nat) {
    i < |headers| && headers[i].Loads(loadable) && Goes(headers, loadable, handlings, i)
  }

  ghost predicate IsAnswered(headers: seq<RequestHeader>, loadable: Text -> bool, handlings: nat -> Handling, i: nat) {
    IsServed(headers, loadable, handlings, i) && !handlings(i).Aborts()
  }

  /** Request `i` can be read, does not abort, and does not end the connection unless it is the last. */
  ghost predicate IsHarmless(headers: seq<RequestHeader>, loadable: Text -> bool, handlings: nat -> Handling, i: nat)
    requires i < |headers|
  {
    && headers[i].Loads(loadable) && !handlings(i).Aborts()
    && (i < |headers| - 1 ==> handlings(i).written && headers[i].keepConnection)
  }

  /** Every request of a connection is answered exactly when all can be read, none aborts, and only the last may end it. */
  lemma AllAnsweredIff(headers: seq<RequestHeader>, loadable: Text -> bool, handlings: nat -> Handling)
    ensures (forall i :: 0 <= i < |headers| ==> IsAnswered(headers, loadable, handlings, i)) <==>
      forall i :: 0 <= i < |headers| ==> IsHarmless(headers, loadable, handlings, i)
  {
    var last := |headers| - 1;
    if forall i :: 0 <= i < |headers| ==> IsAnswered(headers, loadable, handlings, i) {
      forall i | 0 <= i < |headers|
        ensures IsHarmless(headers, loadable, handlings, i)
      {
        assert IsAnswered(headers, loadable, handlings, i) && IsAnswered(headers, loadable, handlings, last);
        assert i < last ==> EndOf(headers[i], loadable, handlings(i)).Keeps?;
      }
    } else {
      var i :| 0 <= i < |headers| && !IsAnswered(headers, loadable, handlings, i);
      if IsHarmless(headers, loadable, handlings, i) {
        var j :| 0 <= j < i && !EndOf(headers[j], loadable, handlings(j)).Keeps?;
        assert !IsHarmless(headers, loadable, handlings, j);
      }
    }
  }

  /** A service method that throws an `IOException`. */
  function ThrowingMethod(): Handling {
    Handling(false, false, [Candidate(false, [], Fits)], ThrowsIo, [], true, [0])
  }

  /** Of two calls that both keep the connection, the first throws an `IOException`, and neither is answered. */
  lemma AbortedUnanswered(header: RequestHeader, loadable: Text -> bool, handlings: nat -> Handling)
    requires header.Loads(loadable) && header.keepConnection && handlings(0) == ThrowingMethod()
    ensures var headers := [header, header];
      && IsServed(headers, loadable, handlings, 0) && !IsAnswered(headers, loadable, handlings, 0)
      && !IsServed(headers, loadable, handlings, 1) && !IsAnswered(headers, loadable, handlings, 1)
  {
    var headers := [header, header];
    assert ThrowingMethod().Tried(0) == 1;
    assert !EndOf(headers[0], loadable, handlings(0)).Keeps?;
  }

  /** The server understood message `m`. */
  ghost predicate Understands(m: Message, h: Handling, handled: Handled) {
    && handled.header == m.header.Received()
    && handled.sessionId == SessionOf(m.header.Received(), h)
    && SawBody(h, m.frame.Payload(), handled.seen)
  }

  /**
    `handleRequest`: one message in, one reply out unless the call aborts, and what
    becomes of the connection. At the end of the stream there is no message, and
    the read of the header throws.
  */
  method HandleRequest(source: Source, out: Sink, loadable: Text -> bool, h: Handling,
                       ghost next: Option<Message>, ghost tail: seq<Byte>)
    returns (end: End, handled: Option<Handled>, ghost reply: Option<Reply>)
    requires h.Valid()
    requires match next
             case None => source.rest == []
             case Some(m) => Travels(m) && source.rest == EncodeMessage(m) + tail
    modifies source, out
    ensures end == if next.None? then End.Throws else EndOf(next.value.header, loadable, h)
    ensures handled.Some? <==> next.Some? && next.value.header.Loads(loadable)
    ensures handled.Some? ==> Understands(next.value, h, handled.value) && source.rest == tail
    ensures handled.Some? ==> BelongsTo(next.value.header, h.newSessionId, handled.value.sessionId)
    ensures reply.Some? <==> handled.Some? && !h.Aborts()
    ensures reply.Some? ==> reply.value.header.sessionId == handled.value.sessionId && (reply.value.header.success <==> h.Succeeds())
    ensures reply.Some? ==> Answers(h, handled.value.sessionId, reply.value)
    ensures out.sent == old(out.sent) + if reply.Some? then EncodeReply(reply.value) else []
  {
    HandlingMeans(h);
    hide ParseRequest, EncodeMessage, SawBody, Handling.Success, Handling.Succeeds, Handling.Aborts;
    var header := new TcpxRequestHeader();
    HeaderIsRead(next, loadable, tail);
    var error := header.Read(source, loadable);
    if error.Some? {
      return End.Throws, None, None;
    }
    var received := header.Value();
    var sessionId := SessionOf(received, h);
    if header.sessionId.GetOr([]) == [] {
      header.sessionId := Some(h.newSessionId);
    }
    var request := new ServiceRequest(source, next.value.frame, tail);
    var seen, thrown;
    seen, thrown, reply := Invoke(request, h, sessionId, out);
    handled := Some(Handled(received, sessionId, seen));
    end := if thrown then End.Throws else if header.keepConnection then Keeps else Leaves;
  }

  lemma HeaderIsRead(next: Option<Message>, loadable: Text -> bool, tail: seq<Byte>)
    requires next.Some? ==> Travels(next.value)
    ensures next.None? ==> ParseRequest(None, loadable, []).Failed?
    ensures next.Some? ==> var m := next.value;
      ParseRequest(None, loadable, EncodeMessage(m) + tail) ==
        if m.header.Loads(loadable) then Parsed(m.header.Received(), EncodeFrame(m.frame) + tail) else Failed(ClassNotFound)
  {
    if next.Some? {
      var m := next.value;
      Associative(EncodeRequest(m.header), EncodeFrame(m.frame), tail);
      if m.header.Loads(loadable) {
        RequestCodec(m.header, loadable, EncodeFrame(m.frame) + tail);
      } else {
        RequestRefused(m.header, loadable, EncodeFrame(m.frame) + tail);
      }
    }
  }

  /** A connection in mid-run, or at its end: what has been served and answered so far. */
  ghost predicate Progress(ms: seq<Message>, loadable: Text -> bool, handlings: nat -> Handling,
                           log: seq<Handled>, replies: seq<Reply>, going: bool)
  {
    && |replies| <= |log| <= |ms|
    && (forall i :: 0 <= i < |log| ==> Understands(ms[i], handlings(i), log[i]))
    && (forall i :: 0 <= i < |replies| ==> Answers(handlings(i), log[i].sessionId, replies[i]))
    && (going ==> |replies| == |log| && Goes(HeadersOf(ms), loadable, handlings, |log|))
    && (!going ==> forall i :: 0 <= i < |ms| ==>
          && (i < |log| <==> IsServed(HeadersOf(ms), loadable, handlings, i))
          && (i < |replies| <==> IsAnswered(HeadersOf(ms), loadable, handlings, i)))
  }

  function HeadersOf(ms: seq<Message>): (headers: seq<RequestHeader>)
    ensures |headers| == |ms|
  {
    seq(|ms|, i requires 0 <= i < |ms| => ms[i].header)
  }

  /** One request further: served, and answered unless it aborts. */
  lemma ProgressStep(ms: seq<Message>, loadable: Text -> bool, handlings: nat -> Handling,
                     log: seq<Handled>, replies: seq<Reply>, handled: Handled, reply: Option<Reply>)
    requires Progress(ms, loadable, handlings, log, replies, true) && |log| < |ms| && ms[|log|].header.Loads(loadable)
    requires Understands(ms[|log|], handlings(|log|), handled) && (reply.None? <==> handlings(|log|).Aborts())
    requires reply.Some? ==> Answers(handlings(|log|), handled.sessionId, reply.value)
    ensures Progress(ms, loadable, handlings, log + [handled], if reply.Some? then replies + [reply.value] else replies,
                     EndOf(ms[|log|].header, loadable, handlings(|log|)).Keeps?)
  {
    hide Understands, Answers, Handling.Aborts, RequestHeader.Loads;
    var headers, n := HeadersOf(ms), |log|;
    forall i | 0 <= i < n
      ensures EndOf(headers[i], loadable, handlings(i)).Keeps?
      ensures headers[i].Loads(loadable) && !handlings(i).Aborts()
    {
    }
    forall i | n < i < |ms| && !EndOf(headers[n], loadable, handlings(n)).Keeps?
      ensures !IsServed(headers, loadable, handlings, i)
    {
    }
  }

  /** The end of a connection at a request that cannot be read, or behind the last. */
  lemma ProgressEnds(ms: seq<Message>, loadable: Text -> bool, handlings: nat -> Handling, log: seq<Handled>, replies: seq<Reply>)
    requires Progress(ms, loadable, handlings, log, replies, true)
    requires |log| < |ms| ==> !ms[|log|].header.Loads(loadable)
    ensures Progress(ms, loadable, handlings, log, replies, false)
  {
    hide Understands, Answers, Handling.Aborts, RequestHeader.Loads;
    var headers, n := HeadersOf(ms), |log|;
    forall i | 0 <= i < |ms|
      ensures i < n <==> IsServed(headers, loadable, handlings, i)
      ensures i < n <==> IsAnswered(headers, loadable, handlings, i)
    {
      if i < n {
        assert EndOf(headers[i], loadable, handlings(i)).Keeps?;
      } else if i > n {
        assert !EndOf(headers[n], loadable, handlings(n)).Keeps?;
      }
    }
  }

  /** Where the channels stand: `rest` is still to be read, and `sent` has become `now`. */
  ghost predicate InService(ms: seq<Message>, tail: seq<Byte>, loadable: Text -> bool, handlings: nat -> Handling,
                            log: seq<Handled>, replies: seq<Reply>, end: End, rest: seq<Byte>, sent: seq<Byte>, now: seq<Byte>)
  {
    && MessagesTravel(ms) && Progress(ms, loadable, handlings, log, replies, end.Keeps?)
    && AllReplyTravel(replies) && now == sent + EncodeReplies(replies)
    && (end.Keeps? ==> rest == EncodeMessages(ms[|log|..]) + tail)
    && (|log| > 0 ==>
          var last := EndOf(ms[|log| - 1].header, loadable, handlings(|log| - 1));
          last.Keeps? || (last == end && rest == EncodeMessages(ms[|log|..]) + tail))
  }

  lemma ServiceStarts(ms: seq<Message>, tail: seq<Byte>, loadable: Text -> bool, handlings: nat -> Handling, sent: seq<Byte>)
    requires MessagesTravel(ms)
    ensures InService(ms, tail, loadable, handlings, [], [], Keeps, EncodeMessages(ms) + tail, sent, sent)
  {
    assert ms[0..] == ms && sent + EncodeReplies([]) == sent;
  }

  /** What the client thread leaves behind when no exception ends it, but for the byte it reads last. */
  lemma ServiceEnds(ms: seq<Message>, tail: seq<Byte>, loadable: Text -> bool, handlings: nat -> Handling,
                    log: seq<Handled>, replies: seq<Reply>, end: End, rest: seq<Byte>, sent: seq<Byte>, now: seq<Byte>)
    requires InService(ms, tail, loadable, handlings, log, replies, end, rest, sent, now) && !end.Keeps?
    ensures MessagesTravel(ms) && Progress(ms, loadable, handlings, log, replies, false) && |log| <= |ms|
    ensures AllReplyTravel(replies) && now == sent + EncodeReplies(replies)
    ensures |log| > 0 ==>
      var last := EndOf(ms[|log| - 1].header, loadable, handlings(|log| - 1));
      last.Keeps? || (last == end && rest == EncodeMessages(ms[|log|..]) + tail)
  {
  }

  lemma ServiceGoesOn(ms: seq<Message>, tail: seq<Byte>, loadable: Text -> bool, handlings: nat -> Handling,
                      log: seq<Handled>, replies: seq<Reply>, rest: seq<Byte>, sent: seq<Byte>, now: seq<Byte>)
    requires InService(ms, tail, loadable, handlings, log, replies, Keeps, rest, sent, now)
    ensures |log| <= |ms| && MessagesTravel(ms) && rest == EncodeMessages(ms[|log|..]) + tail
    ensures |log| == |ms| ==> Goes(HeadersOf(ms), loadable, handlings, |ms|)
  {
  }

  /** While the connection is kept, the last request served has kept it. */
  lemma ServiceKeeps(ms: seq<Message>, tail: seq<Byte>, loadable: Text -> bool, handlings: nat -> Handling,
                     log: seq<Handled>, replies: seq<Reply>, rest: seq<Byte>, sent: seq<Byte>, now: seq<Byte>)
    requires InService(ms, tail, loadable, handlings, log, replies, Keeps, rest, sent, now)
    ensures |log| <= |ms| && (|log| > 0 ==> EndOf(ms[|log| - 1].header, loadable, handlings(|log| - 1)).Keeps?)
  {
    assert |log| > 0 ==> EndOf(HeadersOf(ms)[|log| - 1], loadable, handlings(|log| - 1)).Keeps?;
  }

  lemma ServiceStops(ms: seq<Message>, tail: seq<Byte>, loadable: Text -> bool, handlings: nat -> Handling,
                     log: seq<Handled>, replies: seq<Reply>, rest: seq<Byte>, sent: seq<Byte>, now: seq<Byte>, left: seq<Byte>)
    requires InService(ms, tail, loadable, handlings, log, replies, Keeps, rest, sent, now)
    requires |log| < |ms| ==> !ms[|log|].header.Loads(loadable)
    ensures InService(ms, tail, loadable, handlings, log, replies, End.Throws, left, sent, now)
  {
    ServiceKeeps(ms, tail, loadable, handlings, log, replies, rest, sent, now);
    ProgressEnds(ms, loadable, handlings, log, replies);
    hide Progress, EncodeReplies, EncodeMessages, EndOf, RequestHeader.Loads;
  }

  lemma ServiceServes(ms: seq<Message>, tail: seq<Byte>, loadable: Text -> bool, handlings: nat -> Handling,
                      log: seq<Handled>, replies: seq<Reply>, rest: seq<Byte>, sent: seq<Byte>, now: seq<Byte>,
                      handled: Handled, reply: Option<Reply>, left: seq<Byte>)
    requires InService(ms, tail, loadable, handlings, log, replies, Keeps, rest, sent, now)
    requires |log| < |ms| && ms[|log|].header.Loads(loadable) && left == EncodeMessages(ms[|log| + 1..]) + tail
    requires Understands(ms[|log|], handlings(|log|), handled) && (reply.None? <==> handlings(|log|).Aborts())
    requires reply.Some? ==> Answers(handlings(|log|), handled.sessionId, reply.value)
    ensures InService(ms, tail, loadable, handlings, log + [handled], if reply.Some? then replies + [reply.value] else replies,
                      EndOf(ms[|log|].header, loadable, handlings(|log|)), left, sent,
                      now + if reply.Some? then EncodeReply(reply.value) else [])
  {
    var log' := log + [handled];
    var replies' := if reply.Some? then replies + [reply.value] else replies;
    ProgressStep(ms, loadable, handlings, log, replies, handled, reply);
    RepliesTravel(handlings(|log|), handled.sessionId, sent, replies, reply);
    hide Progress, AllReplyTravel, MessagesTravel, EncodeReplies, EncodeMessages, EncodeReply;
    hide EndOf, Answers, Understands, Handling.Aborts, RequestHeader.Loads;
    assert |log'| == |log| + 1;
    assert now + (if reply.Some? then EncodeReply(reply.value) else []) == sent + EncodeReplies(replies');
  }

  lemma RepliesTravel(h: Handling, sessionId: Text, sent: seq<Byte>, replies: seq<Reply>, reply: Option<Reply>)
    requires AllReplyTravel(replies) && (reply.Some? ==> Answers(h, sessionId, reply.value))
    ensures var replies' := if reply.Some? then replies + [reply.value] else replies;
      && AllReplyTravel(replies')
      && (sent + EncodeReplies(replies)) + (if reply.Some? then EncodeReply(reply.value) else []) == sent + EncodeReplies(replies')
  {
    if reply.Some? {
      assert ReplyTravels(reply.value);
      hide Answers, ReplyTravels, EncodeReply, EncodeReplies;
      AppendReply(sent, replies, reply.value);
    } else {
      assert (sent + EncodeReplies(replies)) + [] == sent + EncodeReplies(replies);
    }
  }

  lemma ServiceStep(ms: seq<Message>, tail: seq<Byte>, loadable: Text -> bool, handlings: nat -> Handling,
                    log: seq<Handled>, replies: seq<Reply>, rest: seq<Byte>, sent: seq<Byte>, now: seq<Byte>,
                    end: End, handled: Option<Handled>, reply: Option<Reply>, left: seq<Byte>)
    requires InService(ms, tail, loadable, handlings, log, replies, Keeps, rest, sent, now)
    requires handled.None? ==> end.Throws? && reply.None? && (|log| < |ms| ==> !ms[|log|].header.Loads(loadable))
    requires handled.Some? ==>
      && |log| < |ms| && ms[|log|].header.Loads(loadable) && left == EncodeMessages(ms[|log| + 1..]) + tail
      && end == EndOf(ms[|log|].header, loadable, handlings(|log|))
      && Understands(ms[|log|], handlings(|log|), handled.value)
      && (reply.None? <==> handlings(|log|).Aborts())
      && (reply.Some? ==> Answers(handlings(|log|), handled.value.sessionId, reply.value))
    ensures InService(ms, tail, loadable, handlings,
                      if handled.Some? then log + [handled.value] else log,
                      if reply.Some? then replies + [reply.value] else replies,
                      end, left, sent, now + if reply.Some? then EncodeReply(reply.value) else [])
  {
    hide InService, EncodeMessages, EndOf, Answers, Understands, Handling.Aborts, RequestHeader.Loads, EncodeReply;
    if handled.None? {
      assert now + [] == now;
      ServiceStops(ms, tail, loadable, handlings, log, replies, rest, sent, now, left);
    } else {
      ServiceServes(ms, tail, loadable, handlings, log, replies, rest, sent, now, handled.value, reply, left);
    }
  }

  /**
    The client thread: handles one request after the other while the connection
    is kept, and reads one byte more when it is given up. An exception, also
    that of a read at the end of the stream, ends it as well.
  */
  method Serve(source: Source, out: Sink, loadable: Text -> bool, handlings: nat -> Handling,
               ghost ms: seq<Message>, ghost tail: seq<Byte>)
    returns (log: seq<Handled>, ghost replies: seq<Reply>)
    requires MessagesTravel(ms)
    requires forall i: nat :: handlings(i).Valid()
    requires source.rest == EncodeMessages(ms) + tail
    requires tail == [] || !Goes(HeadersOf(ms), loadable, handlings, |ms|)
    modifies source, out
    ensures Progress(ms, loadable, handlings, log, replies, false)
    ensures AllReplyTravel(replies) && out.sent == old(out.sent) + EncodeReplies(replies)
    ensures |log| > 0 ==> var behind := EncodeMessages(ms[|log|..]) + tail;
      match EndOf(ms[|log| - 1].header, loadable, handlings(|log| - 1))
      case Keeps => true
      case Leaves => source.rest == if behind == [] then [] else behind[1..]
      case Throws => source.rest == behind
  {
    hide InService, Progress, Goes, EndOf, EncodeMessages, EncodeReplies, AllReplyTravel;
    log, replies := [], [];
    var end := Keeps;
    ServiceStarts(ms, tail, loadable, handlings, out.sent);
    while end.Keeps?
      invariant InService(ms, tail, loadable, handlings, log, replies, end, source.rest, old(out.sent), out.sent)
      decreases end.Keeps?, |ms| - |log|
    {
      ServiceGoesOn(ms, tail, loadable, handlings, log, replies, source.rest, old(out.sent), out.sent);
      var handled;
      ghost var reply;
      ghost var rest, now := source.rest, out.sent;
      end, handled, reply := HandleNext(source, out, loadable, handlings(|log|), ms, |log|, tail);
      ServiceStep(ms, tail, loadable, handlings, log, replies, rest, old(out.sent), now, end, handled, reply, source.rest);
      if handled.Some? {
        log := log + [handled.value];
      }
      if reply.Some? {
        replies := replies + [reply.value];
      }
    }
    ServiceEnds(ms, tail, loadable, handlings, log, replies, end, source.rest, old(out.sent), out.sent);
    if end.Leaves? {
      var b := source.Read();
    }
  }

  method HandleNext(source: Source, out: Sink, loadable: Text -> bool, h: Handling,
                    ghost ms: seq<Message>, ghost n: nat, ghost tail: seq<Byte>)
    returns (end: End, handled: Option<Handled>, ghost reply: Option<Reply>)
    requires n <= |ms| && MessagesTravel(ms) && h.Valid()
    requires source.rest == EncodeMessages(ms[n..]) + tail && (n == |ms| ==> tail == [])
    modifies source, out
    ensures end == if n == |ms| then End.Throws else EndOf(ms[n].header, loadable, h)
    ensures handled.None? ==> end.Throws?
    ensures handled.Some? <==> n < |ms| && ms[n].header.Loads(loadable)
    ensures handled.Some? ==> Understands(ms[n], h, handled.value) && source.rest == EncodeMessages(ms[n + 1..]) + tail
    ensures reply.Some? <==> handled.Some? && !h.Aborts()
    ensures reply.Some? ==> Answers(h, handled.value.sessionId, reply.value)
    ensures out.sent == old(out.sent) + if reply.Some? then EncodeReply(reply.value) else []
  {
    ghost var next := if n == |ms| then None else Some(ms[n]);
    if n < |ms| {
      NextMessage(ms, n, tail);
    }
    end, handled, reply := HandleRequest(source, out, loadable, h, next, EncodeMessages(ms[if n < |ms| then n + 1 else n..]) + tail);
  }

  lemma NextMessage(ms: seq<Message>, n: nat, tail: seq<Byte>)
    requires n < |ms| && MessagesTravel(ms)
    ensures Travels(ms[n])
    ensures EncodeMessages(ms[n..]) + tail == EncodeMessage(ms[n]) + (EncodeMessages(ms[n + 1..]) + tail)
  {
    assert ms[n..][1..] == ms[n + 1..];
    Associative(EncodeMessage(ms[n]), EncodeMessages(ms[n + 1..]), tail);
  }

  lemma AppendReply(sent: seq<Byte>, replies: seq<Reply>, r: Reply)
    requires AllReplyTravel(replies) && ReplyTravels(r)
    ensures AllReplyTravel(replies + [r])
    ensures sent + EncodeReplies(replies) + EncodeReply(r)
         == sent + EncodeReplies(replies + [r])
  {
    assert (replies + [r])[..|replies|] == replies;
    Associative(sent, EncodeReplies(replies), EncodeReply(r));
  }

  // ------------------------------------------------------------ the client

  /** A call as the client makes it: its header and what its serializer writes. */
  datatype Call = Call(header: RequestHeader, args: seq<WriteOp>) {
    predicate Valid() {
      header.Fits() && forall i :: 0 <= i < |args| ==> IsOp(args[i])
    }
  }

  /** `m` is what sending `call` puts on the channel. */
  ghost predicate Sends(call: Call, m: Message) {
    Travels(m) && m.header == call.header && m.frame.Payload() == Payload(call.args)
  }

  method SendCall(out: Sink, call: Call) returns (ghost m: Message)
    requires call.Valid()
    modifies out
    ensures Sends(call, m) && out.sent == old(out.sent) + EncodeMessage(m)
  {
    var header := new TcpxRequestHeader.Of(call.header);
    var ok := header.Write(out);
    ghost var frame;
    frame := WriteBody(out, BLOCK_SIZE, call.args);
    m := Message(call.header, frame);
    Associative(old(out.sent), EncodeRequest(m.header), EncodeFrame(m.frame));
  }

  lemma {:induction false} MessagesAppend(ms: seq<Message>, m: Message)
    requires Travels(m) && MessagesTravel(ms)
    ensures MessagesTravel(ms + [m])
    ensures EncodeMessages(ms + [m]) == EncodeMessages(ms) + EncodeMessage(m)
  {
    if ms == [] {
      assert ms + [m] == [m];
      assert EncodeMessages([m]) == EncodeMessage(m) + EncodeMessages([]);
    } else {
      assert (ms + [m])[1..] == ms[1..] + [m];
      MessagesAppend(ms[1..], m);
      Associative(EncodeMessage(ms[0]), EncodeMessages(ms[1..]), EncodeMessage(m));
    }
  }

  lemma {:induction false} RepliesFirst(rs: seq<Reply>)
    requires rs != [] && AllReplyTravel(rs)
    ensures ReplyTravels(rs[0]) && AllReplyTravel(rs[1..])
    ensures EncodeReplies(rs) == EncodeReply(rs[0]) + EncodeReplies(rs[1..])
  {
    var n := |rs| - 1;
    assert ReplyTravels(rs[n]);
    if n == 0 {
      assert rs[..0] == [] == rs[1..];
    } else {
      assert rs[..n][1..] == rs[1..][..n - 1] && rs[1..][n - 1] == rs[n];
      RepliesFirst(rs[..n]);
      Associative(EncodeReply(rs[0]), EncodeReplies(rs[..n][1..]), EncodeReply(rs[n]));
    }
  }

  /** What a client gets for one call: the header, and as much of the body as it asked for. */
  datatype Answer = Answer(header: ResponseHeader, body: seq<Byte>)

  /** The next reply, or the end of the stream that the server left behind. */
  method ReceiveReply(source: Source, sizes: seq<nat>, ghost replies: seq<Reply>) returns (answer: Option<Answer>)
    requires AllReplyTravel(replies) && source.rest == EncodeReplies(replies)
    modifies source
    ensures answer.Some? <==> replies != []
    ensures replies != [] ==>
      && answer.value == Answer(replies[0].header, Prefix(replies[0].frame.Payload(), sizes))
      && source.rest == EncodeReplies(replies[1..])
  {
    var header := new TcpxResponseHeader([]);
    ghost var tail: seq<Byte>;
    if replies != [] {
      tail := EncodeReplies(replies[1..]);
      ReplyIsRead(replies, tail);
    }
    var error := header.Read(source);
    if error.Some? {
      return None;
    }
    var stream := new BlockInputStream(source, replies[0].frame, tail);
    var body := ReadBody(stream, sizes);
    stream.Close();
    answer := Some(Answer(header.Value(), body));
  }

  lemma ReplyIsRead(replies: seq<Reply>, tail: seq<Byte>)
    requires replies != [] && AllReplyTravel(replies) && AllReplyTravel(replies[1..]) && tail == EncodeReplies(replies[1..])
    ensures ParseResponse(EncodeReplies(replies)) == Parsed(replies[0].header, EncodeFrame(replies[0].frame) + tail)
    ensures replies[0].frame.Valid()
  {
    var r := replies[0];
    RepliesFirst(replies);
    Associative(EncodeResponse(r.header), EncodeFrame(r.frame), tail);
    ResponseCodec(r.header, EncodeFrame(r.frame) + tail);
  }

  /** The answers to the calls of a connection, taken off the channel in order, as long as there are any. */
  method ReceiveAll(source: Source, count: nat, asks: nat -> seq<nat>, ghost replies: seq<Reply>) returns (answers: seq<Answer>)
    requires AllReplyTravel(replies) && |replies| <= count && source.rest == EncodeReplies(replies)
    modifies source
    ensures |answers| == |replies|
    ensures forall i :: 0 <= i < |answers| ==>
      answers[i] == Answer(replies[i].header, Prefix(replies[i].frame.Payload(), asks(i)))
  {
    hide Prefix, EncodeReplies;
    answers := [];
    assert replies[0..] == replies;
    for i := 0 to count
      invariant |answers| == i <= |replies| && source.rest == EncodeReplies(replies[i..])
      invariant forall j :: 0 <= j < i ==>
        answers[j] == Answer(replies[j].header, Prefix(replies[j].frame.Payload(), asks(j)))
    {
      var answer := ReceiveReply(source, asks(i), replies[i..]);
      if answer.None? {
        return;
      }
      assert replies[i..][1..] == replies[i + 1..] && replies[i..][0] == replies[i];
      answers := answers + [answer.value];
    }
  }

  ghost predicate AllSent(calls: seq<Call>, ms: seq<Message>) {
    |ms| == |calls| && forall i :: 0 <= i < |ms| ==> Sends(calls[i], ms[i])
  }

  lemma SentOneMore(calls: seq<Call>, i: nat, ms: seq<Message>, m: Message, sent: seq<Byte>)
    requires i < |calls| && AllSent(calls[..i], ms) && MessagesTravel(ms) && Sends(calls[i], m)
    ensures AllSent(calls[..i + 1], ms + [m]) && MessagesTravel(ms + [m])
    ensures sent + EncodeMessages(ms) + EncodeMessage(m) == sent + EncodeMessages(ms + [m])
  {
    forall j | 0 <= j < i + 1
      ensures Sends(calls[..i + 1][j], (ms + [m])[j])
    {
      if j < i {
        assert Sends(calls[..i][j], ms[j]);
      }
    }
    MessagesAppend(ms, m);
    Associative(sent, EncodeMessages(ms), EncodeMessage(m));
  }

  /** All calls of a connection, sent one after the other. */
  method SendAll(out: Sink, calls: seq<Call>) returns (ghost ms: seq<Message>)
    requires forall i :: 0 <= i < |calls| ==> calls[i].Valid()
    modifies out
    ensures AllSent(calls, ms) && MessagesTravel(ms)
    ensures out.sent == old(out.sent) + EncodeMessages(ms)
  {
    ms := [];
    for i := 0 to |calls|
      invariant AllSent(calls[..i], ms) && MessagesTravel(ms)
      invariant out.sent == old(out.sent) + EncodeMessages(ms)
    {
      ghost var m := SendCall(out, calls[i]);
      SentOneMore(calls, i, ms, m, old(out.sent));
      ms := ms + [m];
    }
    assert calls[..|calls|] == calls;
  }

  function CallHeaders(calls: seq<Call>): (headers: seq<RequestHeader>)
    ensures |headers| == |calls|
  {
    seq(|calls|, i requires 0 <= i < |calls| => calls[i].header)
  }

  /**
    A whole connection, client and server: for all calls, all ways the handler
    reads (or caches, or ignores) the bodies and ends, all chunkings of the
    network and all ways the client reads the answers, the server decodes exactly
    the calls that are served, the client gets exactly those answered, and answer
    i answers call i.
  */
  method Exchange(calls: seq<Call>, loadable: Text -> bool, handlings: nat -> Handling, asks: nat -> seq<nat>)
    returns (log: seq<Handled>, answers: seq<Answer>)
    requires forall i :: 0 <= i < |calls| ==> calls[i].Valid()
    requires forall i: nat :: handlings(i).Valid()
    ensures |answers| <= |log| <= |calls|
    ensures forall i :: 0 <= i < |calls| ==> (i < |log| <==> IsServed(CallHeaders(calls), loadable, handlings, i))
    ensures forall i :: 0 <= i < |calls| ==> (i < |answers| <==> IsAnswered(CallHeaders(calls), loadable, handlings, i))
    ensures forall i :: 0 <= i < |log| ==>
      && log[i].header == calls[i].header.Received()
      && SawBody(handlings(i), Payload(calls[i].args), log[i].seen)
      && log[i].sessionId == SessionOf(calls[i].header.Received(), handlings(i))
    ensures forall i :: 0 <= i < |answers| ==>
      answers[i] == Answer(ResponseHeader(log[i].sessionId, handlings(i).Success()),
                           Prefix(Payload(handlings(i).reply), asks(i)))
    ensures forall i :: 0 <= i < |log| ==> BelongsTo(calls[i].header, handlings(i).newSessionId, log[i].sessionId)
    ensures forall i :: 0 <= i < |answers| ==>
      answers[i].header.sessionId == log[i].sessionId && (answers[i].header.success <==> handlings(i).Succeeds())
    ensures forall i, j, s :: 0 <= i < j < |log| && calls[i].header.sessionId == calls[j].header.sessionId == Some(s) && s != [] ==>
      log[i].sessionId == log[j].sessionId
  {
    hide Prefix, SawBody, SessionOf, Payload, EncodeMessages, EncodeReplies, IsServed, IsAnswered;
    var up := new Sink();
    ghost var ms := SendAll(up, calls);
    assert HeadersOf(ms) == CallHeaders(calls) by {
      assert forall i :: 0 <= i < |ms| ==> Sends(calls[i], ms[i]);
    }
    var serverIn := new Source(up.sent);
    var down := new Sink();
    ghost var replies;
    assert EncodeMessages(ms) + [] == EncodeMessages(ms);
    log, replies := Serve(serverIn, down, loadable, handlings, ms, []);
    var clientIn := new Source(down.sent);
    answers := ReceiveAll(clientIn, |calls|, asks, replies);
    forall i | 0 <= i < |log|
      ensures Understands(ms[i], handlings(i), log[i]) && Sends(calls[i], ms[i])
      ensures BelongsTo(calls[i].header, handlings(i).newSessionId, log[i].sessionId)
      ensures handlings(i).Success() <==> handlings(i).Succeeds()
    {
      SessionsAreKept(calls[i].header, handlings(i));
      HandlingMeans(handlings(i));
    }
  }
}
