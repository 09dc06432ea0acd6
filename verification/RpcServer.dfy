/** The request path of rpc/rpc_server.hpp: framing a byte stream, dispatching each message through the
    registry, and answering it. */
module RpcServer {
  import opened Sequences
  import opened Modular
  import opened Bytes
  import opened Protocol
  import opened ServiceRegistry

  function Ascii(s: string): Str {
    seq(|s|, i requires 0 <= i < |s| => (s[i] as int) % 256)
  }

  const NOT_FOUND_TEXT := Ascii("Service or method not found")
  const INTERNAL_ERROR_TEXT := Ascii("Internal server error")
  const NO_PAD: seq<Byte> := [0, 0, 0, 0]  // a response has no padding bytes

  datatype Counters = Counters(requests: nat, errors: nat)

  /** A reply, and whether the handler threw. */
  datatype Answer = Answer(bytes: Str, threw: bool)

  function Reply(services: Services, msg: Message): Answer {
    if msg.header.kind == REQUEST then
      match FindMethod(services, msg.service, msg.methodName)
      case NoHandler =>
        Answer(Serialize(CreateError(msg.requestId, SERVICE_NOT_FOUND, NOT_FOUND_TEXT), NO_PAD), false)
      case Handler(run) =>
        match run(msg.payload)
        case Returns(result) => Answer(Serialize(CreateResponse(msg.requestId, result, OK), NO_PAD), false)
        case Throws => Answer(Serialize(CreateError(msg.requestId, UNKNOWN, INTERNAL_ERROR_TEXT), NO_PAD), true)
    else if msg.header.kind == HEARTBEAT then
      Answer(Serialize(CreateResponse(msg.requestId, [], OK), NO_PAD), false)
    else Answer([], false)
  }

  /** The parser does not read past the end of these bytes. */
  predicate Readable(data: Str) {
    !Deserialize(data, Fresh()).PastEnd?
  }

  /** `handle_message` on bytes that do not make it read past their end. */
  function Handle(services: Services, c: Counters, data: Str): (Counters, Str)
    requires Readable(data)
  {
    match Deserialize(data, Fresh())
    case Rejected => (c.(errors := c.errors + 1), [])
    case Parsed(msg) =>
      var a := Reply(services, msg);
      (Counters(c.requests + 1, c.errors + if a.threw then 1 else 0), a.bytes)
  }

  // ---------------------------------------------------------------- end to end

  lemma ReplyTexts()
    ensures |NOT_FOUND_TEXT| == 27 && |INTERNAL_ERROR_TEXT| == 21
  {
  }

  /** The bytes are the characters of this text. */
  ghost predicate Spells(bytes: Str, text: string) {
    |bytes| == |text| && forall i :: 0 <= i < |text| ==> bytes[i] == text[i] as int
  }

  predicate IsAscii(text: string) {
    forall i :: 0 <= i < |text| ==> text[i] < 128 as char
  }

  lemma AsciiSpells(text: string)
    requires IsAscii(text)
    ensures Spells(Ascii(text), text)
  {
  }

  lemma TextsAreAscii()
    ensures IsAscii("Service or method not found") && IsAscii("Internal server error")
  {
  }

  lemma TextsSpell()
    ensures Spells(NOT_FOUND_TEXT, "Service or method not found")
    ensures Spells(INTERNAL_ERROR_TEXT, "Internal server error")
  {
    hide Ascii, Spells, IsAscii;
    TextsAreAscii();
    AsciiSpells("Service or method not found");
    AsciiSpells("Internal server error");
  }

  /** What the reply to a request must say, from the registration history alone. */
  function ExpectedReply(history: seq<Registration>, request: Message): Message {
    match LastBinding(history, request.service, request.methodName)
    case Bound(Handler(run)) =>
      (match run(request.payload)
       case Returns(result) => CreateResponse(request.requestId, result, OK)
       case Throws => CreateError(request.requestId, UNKNOWN, INTERNAL_ERROR_TEXT))
    case _ => CreateError(request.requestId, SERVICE_NOT_FOUND, NOT_FOUND_TEXT)
  }

  lemma ExpectedIsSendable(history: seq<Registration>, request: Message)
    requires request.requestId < Pow256(8)
    requires |ExpectedReply(history, request).payload| < Pow256(4)
    ensures Sendable(ExpectedReply(history, request))
  {
    hide Sendable;
    ReplyTexts();
    Pow256Values();
    match LastBinding(history, request.service, request.methodName)
    case Bound(Handler(run)) => {
      match run(request.payload)
      case Returns(result) => ResponseIsSendable(request.requestId, result, OK);
      case Throws => ErrorIsSendable(request.requestId, UNKNOWN, INTERNAL_ERROR_TEXT);
    }
    case _ => ErrorIsSendable(request.requestId, SERVICE_NOT_FOUND, NOT_FOUND_TEXT);
  }

  lemma HandleRequest(history: seq<Registration>, c: Counters, request: Message, pad: seq<Byte>)
    requires |pad| == 4 && Sendable(request) && request.header.kind == REQUEST
    ensures var data := Serialize(request, pad);
            && Deserialize(data, Fresh()).Parsed?
            && Handle(ApplyAll(history), c, data).1 == Serialize(ExpectedReply(history, request), NO_PAD)
            && Handle(ApplyAll(history), c, data).0 ==
                 Counters(c.requests + 1, c.errors + if ExpectedReply(history, request).errorCode == UNKNOWN then 1 else 0)
  {
    hide Deserialize, Serialize, Sendable, Ascii;
    FrameRoundTrip(request, pad, []);
    assert Serialize(request, pad) + [] == Serialize(request, pad);
    FindIsLastBinding(history, request.service, request.methodName);
  }

  /** End to end, over any registration history: decoding the reply to an encoded request yields a
      response with the request's id, carrying the result of the handler last registered for the pair;
      or ServiceNotFound iff no handler is registered for it; or Unknown iff that handler throws. An error
      carries the text of its kind. */
  lemma EndToEnd(history: seq<Registration>, c: Counters, request: Message, pad: seq<Byte>, rest: seq<Byte>)
    requires |pad| == 4 && Sendable(request) && request.header.kind == REQUEST
    requires |ExpectedReply(history, request).payload| < Pow256(4)
    ensures Deserialize(Serialize(request, pad), Fresh()).Parsed?
    ensures var reply := Handle(ApplyAll(history), c, Serialize(request, pad)).1;
            var back := Deserialize(reply + rest, Fresh());
            var binding := LastBinding(history, request.service, request.methodName);
            var callable := binding.Bound? && binding.handler.Handler?;
            && back.Parsed?
            && back.msg.header.kind == RESPONSE && back.msg.requestId == request.requestId
            && (back.msg.errorCode == SERVICE_NOT_FOUND <==> !callable)
            && (back.msg.errorCode == UNKNOWN <==> callable && binding.handler.run(request.payload).Throws?)
            && (back.msg.errorCode == OK <==> callable && binding.handler.run(request.payload).Returns?)
            && (back.msg.errorCode == OK ==> back.msg.payload == binding.handler.run(request.payload).bytes)
            && (back.msg.errorCode != OK ==> back.msg.payload == [])
            && (back.msg.errorCode == SERVICE_NOT_FOUND ==> Spells(back.msg.errorMessage, "Service or method not found"))
            && (back.msg.errorCode == UNKNOWN ==> Spells(back.msg.errorMessage, "Internal server error"))
            && (back.msg.errorCode == OK ==> back.msg.errorMessage == [])
  {
    hide Deserialize, Serialize, Sendable, Ascii, Handle, Spells;
    TextsSpell();
    HandleRequest(history, c, request, pad);
    assert request.requestId < Pow256(8) by { SendableId(request); }
    ExpectedIsSendable(history, request);
    FrameRoundTrip(ExpectedReply(history, request), NO_PAD, rest);
  }

  /** The same from the arguments of `create_request` to the bytes of the reply and back. For every registration
      history and all arguments, the reply carries the request's id; what it says is decided by the handler last
      registered for this service and this method, called with this payload. */
  lemma RequestAnswered(history: seq<Registration>, c: Counters, id: nat, service: Str, methodName: Str, payload: Str,
                        timeoutMs: nat, clock: nat, pad: seq<Byte>, rest: seq<Byte>)
    requires |pad| == 4 && id < Pow256(8) && clock < Pow256(8) && timeoutMs < Pow256(4)
    requires 32 + |service| + |methodName| < Pow256(4) && |payload| < Pow256(4)
    requires var b := LastBinding(history, service, methodName);
             b.Bound? && b.handler.Handler? && b.handler.run(payload).Returns? ==>
               |b.handler.run(payload).bytes| < Pow256(4)
    ensures var frame := Serialize(CreateRequest(id, service, methodName, payload, timeoutMs, clock), pad);
            && Readable(frame)
            && var back := Deserialize(Handle(ApplyAll(history), c, frame).1 + rest, Fresh());
            && back.Parsed? && back.msg.header.kind == 1 && back.msg.requestId == id
            && match LastBinding(history, service, methodName)
               case Bound(Handler(run)) =>
                 (match run(payload)
                  case Returns(result) =>
                    back.msg.errorCode == 0 && back.msg.payload == result && back.msg.errorMessage == []
                  case Throws =>
                    && back.msg.errorCode == -1 && back.msg.payload == []
                    && Spells(back.msg.errorMessage, "Internal server error"))
               case _ =>
                 && back.msg.errorCode == -3 && back.msg.payload == []
                 && Spells(back.msg.errorMessage, "Service or method not found")
  {
    hide Deserialize, Serialize, Sendable, Ascii, Handle, Spells;
    var request := CreateRequest(id, service, methodName, payload, timeoutMs, clock);
    RequestIsSendable(id, service, methodName, payload, timeoutMs, clock);
    Pow256Values();
    EndToEnd(history, c, request, pad, rest);
  }

  /** A heartbeat is answered with an empty OK response. Its own metadata is not read, so the reply always carries
      id 0. A frame of any other kind but a request gets no reply. */
  lemma HeartbeatAnswered(services: Services, c: Counters, data: Str, rest: Str)
    requires |data| >= 16 && ReadInt(data, 0, 2) == 0x5250 && ReadInt(data, 3, 1) >= 2
    requires |data| >= 16 + ReadInt(data, 4, 4) + ReadInt(data, 8, 4)
    ensures Readable(data)
    ensures var (c', reply) := Handle(services, c, data);
            && c' == Counters(c.requests + 1, c.errors)
            && (ReadInt(data, 3, 1) > 2 ==> reply == [])
            && (ReadInt(data, 3, 1) == 2 ==>
                  var back := Deserialize(reply + rest, Fresh());
                  && back.Parsed? && back.msg.header.kind == 1 && back.msg.requestId == 0
                  && back.msg.errorCode == 0 && back.msg.errorMessage == [] && back.msg.payload == [])
  {
    hide Serialize, ReadInt, Sendable;
    Pow256Values();
    if ReadInt(data, 3, 1) == 2 {
      ResponseArguments(0, [], OK, [], NO_PAD, rest);
    }
  }

  /** A method is reported by `has_method` and yet answered with ServiceNotFound exactly if it was last
      registered with an empty handler. */
  lemma EmptyHandlerIff(history: seq<Registration>, c: Counters, request: Message, pad: seq<Byte>, rest: seq<Byte>)
    requires |pad| == 4 && Sendable(request) && request.header.kind == REQUEST
    requires |ExpectedReply(history, request).payload| < Pow256(4)
    ensures Deserialize(Serialize(request, pad), Fresh()).Parsed?
    ensures var reply := Handle(ApplyAll(history), c, Serialize(request, pad)).1;
            var back := Deserialize(reply + rest, Fresh());
            && back.Parsed?
            && (HasMethod(ApplyAll(history), request.service, request.methodName)
                && back.msg.errorCode == SERVICE_NOT_FOUND
                <==> LastBinding(history, request.service, request.methodName) == Bound(NoHandler))
  {
    hide Deserialize, Serialize, Sendable, Ascii, Handle;
    EndToEnd(history, c, request, pad, rest);
    FindIsLastBinding(history, request.service, request.methodName);
  }

  lemma SendableId(m: Message)
    requires Sendable(m)
    ensures m.requestId < Pow256(8)
  {
  }

  // ---------------------------------------------------------------- the counters over a run

  datatype Event = Registered(r: Registration) | Received(data: Str)

  function RunServer(history: seq<Registration>, c: Counters, evs: seq<Event>): Counters
    requires forall ev :: ev in evs && ev.Received? ==> Readable(ev.data)
    decreases |evs|
  {
    if evs == [] then c
    else if evs[0].Registered? then RunServer(history + [evs[0].r], c, evs[1..])
    else
      assert evs[0] in evs;
      RunServer(history, Handle(ApplyAll(history), c, evs[0].data).0, evs[1..])
  }

  function IsParsed(): Event -> bool {
    (ev: Event) => ev.Received? && Deserialize(ev.data, Fresh()).Parsed?
  }

  function IsRejected(): Event -> bool {
    (ev: Event) => ev.Received? && Deserialize(ev.data, Fresh()).Rejected?
  }

  /** A request whose handler, by the history so far, throws. */
  predicate HandlerThrows(history: seq<Registration>, p: Parse) {
    p.Parsed? && p.msg.header.kind == REQUEST &&
    var b := LastBinding(history, p.msg.service, p.msg.methodName);
    b.Bound? && b.handler.Handler? && b.handler.run(p.msg.payload).Throws?
  }

  /** Requests that reached a handler which threw, judged by the history up to each of them. */
  function ThrowCount(history: seq<Registration>, evs: seq<Event>): nat
    decreases |evs|
  {
    if evs == [] then 0
    else if evs[0].Registered? then ThrowCount(history + [evs[0].r], evs[1..])
    else
      (if HandlerThrows(history, Deserialize(evs[0].data, Fresh())) then 1 else 0) + ThrowCount(history, evs[1..])
  }

  lemma HandleCounts(history: seq<Registration>, c: Counters, data: Str)
    requires Readable(data)
    ensures var p := Deserialize(data, Fresh());
            Handle(ApplyAll(history), c, data).0 ==
              Counters(c.requests + (if p.Parsed? then 1 else 0),
                       c.errors + (if p.Rejected? then 1 else 0) + (if HandlerThrows(history, p) then 1 else 0))
  {
    hide Deserialize, Serialize, ApplyAll, LastBinding, FindMethod;
    var p := Deserialize(data, Fresh());
    if p.Parsed? {
      FindIsLastBinding(history, p.msg.service, p.msg.methodName);
    }
  }

  /** Over every run of messages and registrations, `total_requests` counts the messages that parsed and
      `total_errors` those that did not plus the calls whose handler threw. */
  lemma {:induction false} CountersAreTallies(history: seq<Registration>, c: Counters, evs: seq<Event>)
    requires forall ev :: ev in evs && ev.Received? ==> Readable(ev.data)
    ensures RunServer(history, c, evs) ==
              Counters(c.requests + Count(IsParsed(), evs),
                       c.errors + Count(IsRejected(), evs) + ThrowCount(history, evs))
    decreases |evs|
  {
    hide Deserialize, Serialize, ApplyAll, LastBinding, Handle, HandlerThrows;
    if evs != [] {
      assert evs[0] in evs;
      if evs[0].Registered? {
        CountersAreTallies(history + [evs[0].r], c, evs[1..]);
      } else {
        HandleCounts(history, c, evs[0].data);
        CountersAreTallies(history, Handle(ApplyAll(history), c, evs[0].data).0, evs[1..]);
      }
    }
  }

  // ---------------------------------------------------------------- framing

  /** What a connection came to: `rest` is the input left over when the last frame had been handled. */
  datatype Served = Served(counters: Counters, output: Str, handled: seq<Str>, rest: Str)

  /** How many bytes an operation on the socket moves that asks for n of the bytes there are: the kernel moves
      at most limits[0], and with 0 bytes or no limit left the operation fails. */
  function Moved(limits: seq<nat>, n: nat, available: nat): (k: nat)
    ensures k <= n && k <= available
  {
    if limits == [] then 0 else Min(limits[0], Min(n, available))
  }

  /** Bytes read over part of the buffer. */
  function Overlay(buffer: Str, at: nat, data: Str): (b: Str)
    requires at + |data| <= |buffer|
    ensures |b| == |buffer|
  {
    buffer[..at] + data + buffer[at + |data|..]
  }

  /** `std::vector::resize`, if the frame is longer than the buffer. */
  function Grown(buffer: Str, total: nat): (b: Str)
    ensures |b| >= total && |b| >= |buffer| && b[..|buffer|] == buffer
  {
    if total > |buffer| then buffer + Fill(total - |buffer|, 0) else buffer
  }

  /** The two reads of the loop: a frame, or the end of the connection with an error or without. */
  datatype FrameRead = Closed(errors: nat) | Got(buffer: Str, input: Str, inChunks: seq<nat>, frame: Str)

  /** The connection has `input` to deliver, in reads of at most the given sizes. Each read is one call: a short
      one leaves old bytes of the reused buffer in place. */
  function ReadFrame(maxSize: nat, buffer: Str, input: Str, inChunks: seq<nat>): (r: FrameRead)
    requires |buffer| >= 16
    ensures r.Got? ==> |r.buffer| >= 16 && |r.inChunks| < |inChunks| && |input| <= |r.input| + |r.frame|
  {
    var k1 := Moved(inChunks, 16, |input|);
    if k1 == 0 then Closed(0)
    else
      var buf1 := Overlay(buffer, 0, input[..k1]);
      var h := ParseHeader(buf1);
      var total := TotalSize(h);
      if h.magic != MAGIC || total > maxSize then Closed(1)
      else ReadBody(Grown(buf1, total), total, input[k1..], inChunks[1..])
  }

  function ReadBody(buffer: Str, total: nat, input: Str, inChunks: seq<nat>): (r: FrameRead)
    requires |buffer| >= total >= 16
    ensures r.Got? ==>
              |r.buffer| >= 16 && |r.inChunks| <= |inChunks| && |input| <= |r.input| + total - 16 && |r.frame| == total
  {
    if total == 16 then Got(buffer, input, inChunks, buffer[..total])
    else
      var k2 := Moved(inChunks, total - 16, |input|);
      if k2 == 0 then Closed(0)
      else
        var buf2 := Overlay(buffer, 16, input[..k2]);
        Got(buf2, input[k2..], inChunks[1..], buf2[..total])
  }

  /** One turn of the loop of `handle_connection`: it ends the connection, or handles a frame and sends what the
      socket takes of the response; the loop goes on unless that send failed. A frame that makes the parser
      read past its end stops the model. */
  datatype Turn =
    | Stop(counters: Counters)
    | Next(counters: Counters, buffer: Str, input: Str, inChunks: seq<nat>, outChunks: seq<nat>,
           frame: Str, sent: Str, open: bool)

  function ServeTurn(services: Services, maxSize: nat, c: Counters, buffer: Str, input: Str,
                     inChunks: seq<nat>, outChunks: seq<nat>): (t: Turn)
    requires |buffer| >= 16
    ensures t.Next? ==> |t.buffer| >= 16 && |t.inChunks| < |inChunks| && |input| <= |t.input| + |t.frame|
  {
    match ReadFrame(maxSize, buffer, input, inChunks)
    case Closed(errors) => Stop(c.(errors := c.errors + errors))
    case Got(buffer', input', inChunks', frame) =>
      if !Readable(frame) then Stop(c)
      else
        var (c', response) := Handle(services, c, frame);
        if response == [] then Next(c', buffer', input', inChunks', outChunks, frame, [], true)
        else
          var k := Moved(outChunks, |response|, |response|);
          Next(c', buffer', input', inChunks', if outChunks == [] then [] else outChunks[1..], frame, response[..k], k > 0)
  }

  function Serve(services: Services, maxSize: nat, c: Counters, buffer: Str, input: Str,
                 inChunks: seq<nat>, outChunks: seq<nat>): Served
    requires |buffer| >= 16
    decreases |inChunks|
  {
    match ServeTurn(services, maxSize, c, buffer, input, inChunks, outChunks)
    case Stop(c') => Served(c', [], [], input)
    case Next(c', buffer', input', inChunks', outChunks', frame, sent, open) =>
      var after := if open then Serve(services, maxSize, c', buffer', input', inChunks', outChunks')
                   else Served(c', [], [], input');
      Served(after.counters, sent + after.output, [frame] + after.handled, after.rest)
  }

  /** Handling a list of frames one by one: the counters and the responses. */
  function HandleAll(services: Services, c: Counters, frames: seq<Str>): (r: (Counters, seq<Str>))
    requires forall f :: f in frames ==> Readable(f)
    ensures |r.1| == |frames|
    decreases |frames|
  {
    if frames == [] then (c, [])
    else
      assert Readable(frames[0]);
      var (c1, r1) := Handle(services, c, frames[0]);
      var (c2, rs) := HandleAll(services, c1, frames[1..]);
      (c2, [r1] + rs)
  }

  /** How many reads a frame takes: its header, and its body if there is one. */
  function ReadsOf(f: Str): nat {
    if |f| > 16 then 2 else 1
  }

  /** Every read of the loop over these frames delivers the count asked for. */
  predicate FullReads(frames: seq<Str>, inChunks: seq<nat>)
    decreases |frames|
  {
    frames == [] ||
    (&& |inChunks| >= ReadsOf(frames[0]) && inChunks[0] >= 16
     && (|frames[0]| > 16 ==> inChunks[1] >= |frames[0]| - 16)
     && FullReads(frames[1..], inChunks[ReadsOf(frames[0])..]))
  }

  /** Every response that is not empty is taken by the socket in one piece. */
  predicate FullWrites(responses: seq<Str>, outChunks: seq<nat>)
    decreases |responses|
  {
    responses == [] ||
    if responses[0] == [] then FullWrites(responses[1..], outChunks)
    else outChunks != [] && outChunks[0] >= |responses[0]| && FullWrites(responses[1..], outChunks[1..])
  }

  /** A frame is one whose length is what its own header says. */
  predicate IsFrame(f: Str, maxSize: nat) {
    && |f| >= 16
    && ParseHeader(f).magic == MAGIC
    && TotalSize(ParseHeader(f)) == |f| <= maxSize
  }

  lemma SentMessageIsFrame(m: Message, pad: seq<Byte>, maxSize: nat)
    requires |pad| == 4 && Sendable(m) && |Serialize(m, pad)| <= maxSize
    ensures IsFrame(Serialize(m, pad), maxSize) && Readable(Serialize(m, pad))
  {
    hide Deserialize, Serialize, ParseHeader, TotalSize;
    var f := Serialize(m, pad);
    assert f + [] == f;
    FrameRoundTrip(m, pad, []);
    HeaderInRange(m);
    FrameHeader(m, pad, []);
  }

  /** What one turn reads, for any sizes of the two reads. The header is the bytes delivered over the old ones of
      the buffer, and so is the body; a bad header counts as an error and ends the connection, a read that
      delivers nothing ends it without. */
  lemma ReadFrameMeans(maxSize: nat, buffer: Str, input: Str, inChunks: seq<nat>)
    requires |buffer| >= 16
    ensures var r := ReadFrame(maxSize, buffer, input, inChunks);
            var k1 := if inChunks == [] then 0 else Min(inChunks[0], Min(16, |input|));
            var header := input[..k1] + buffer[k1..16];
            var total := 16 + ReadInt(header, 4, 4) + ReadInt(header, 8, 4);
            var bad := ReadInt(header, 0, 2) != 0x5250 || total > maxSize;
            var k2 := if |inChunks| < 2 then 0 else Min(inChunks[1], Min(total - 16, |input| - k1));
            if k1 == 0 then r == Closed(0)
            else if bad then r == Closed(1)
            else if total > 16 && k2 == 0 then r == Closed(0)
            else
              && r.Got? && |r.frame| == total && r.input == input[k1 + k2..]
              && r.inChunks == inChunks[if total > 16 then 2 else 1..]
              && forall i :: 0 <= i < total ==>
                   r.frame[i] == if i < 16 then header[i]
                                 else if i < 16 + k2 then input[k1 + (i - 16)]
                                 else if i < |buffer| then buffer[i]
                                 else 0
  {
    hide ReadInt;
    var k1 := if inChunks == [] then 0 else Min(inChunks[0], Min(16, |input|));
    if k1 > 0 {
      var header := input[..k1] + buffer[k1..16];
      var buf1 := Overlay(buffer, 0, input[..k1]);
      assert buf1[..16] == header;
      SameHeader(buf1, 16);
      var total := TotalSize(ParseHeader(buf1));
      assert forall i :: 0 <= i < total ==>
               Grown(buf1, total)[i] == if i < 16 then header[i] else if i < |buffer| then buffer[i] else 0;
      if total > 16 {
        ReadBodyMeans(Grown(buf1, total), total, input[k1..], inChunks[1..]);
      }
    }
  }

  lemma ReadBodyMeans(buffer: Str, total: nat, input: Str, inChunks: seq<nat>)
    requires |buffer| >= total > 16
    ensures var k2 := if inChunks == [] then 0 else Min(inChunks[0], Min(total - 16, |input|));
            var r := ReadBody(buffer, total, input, inChunks);
            if k2 == 0 then r == Closed(0)
            else
              && r.Got? && |r.frame| == total && r.input == input[k2..] && r.inChunks == inChunks[1..]
              && forall i :: 0 <= i < total ==>
                   r.frame[i] == if 16 <= i < 16 + k2 then input[i - 16] else buffer[i]
  {
  }

  lemma OverlayHeader(buffer: Str, f: Str)
    requires |buffer| >= 16 && |f| >= 16
    ensures Overlay(buffer, 0, f[..16])[..16] == f[..16]
  {
  }

  lemma OverlayBody(buffer: Str, f: Str)
    requires |buffer| >= 16 && |f| >= 16 && buffer[..16] == f[..16]
    ensures |f| > 16 ==> Overlay(Grown(buffer, |f|), 16, f[16..])[..|f|] == f
    ensures Grown(buffer, |f|)[..16] == f[..16]
  {
    assert Grown(buffer, |f|)[..16] == buffer[..16];
    assert f == f[..16] + f[16..];
  }

  lemma SplitInput(f: Str, rest: Str)
    requires |f| >= 16
    ensures (f + rest)[..16] == f[..16] && (f + rest)[16..] == f[16..] + rest
    ensures (f[16..] + rest)[..|f| - 16] == f[16..] && (f[16..] + rest)[|f| - 16..] == rest
    ensures |f| == 16 ==> f[..16] == f && f[16..] + rest == rest
  {
  }

  /** Full reads deliver the frame, and leave the rest of the input. */
  lemma ReadsWholeFrame(maxSize: nat, buffer: Str, f: Str, rest: Str, inChunks: seq<nat>)
    requires |buffer| >= 16 && IsFrame(f, maxSize)
    requires |inChunks| >= ReadsOf(f) && inChunks[0] >= 16 && (|f| > 16 ==> inChunks[1] >= |f| - 16)
    ensures var r := ReadFrame(maxSize, buffer, f + rest, inChunks);
            r.Got? && r.frame == f && r.input == rest && r.inChunks == inChunks[ReadsOf(f)..] && |r.buffer| >= 16
  {
    hide ParseHeader, TotalSize, Overlay, Grown, Deserialize;
    SplitInput(f, rest);
    OverlayHeader(buffer, f);
    var buf1 := Overlay(buffer, 0, f[..16]);
    HeaderOfPrefix(buf1, f);
    OverlayBody(buf1, f);
    BodyArrives(Grown(buf1, |f|), f, rest, inChunks[1..]);
    assert |f| > 16 ==> inChunks[1..][1..] == inChunks[2..];
  }

  lemma BodyArrives(buffer: Str, f: Str, rest: Str, inChunks: seq<nat>)
    requires |buffer| >= |f| >= 16 && buffer[..16] == f[..16]
    requires |f| > 16 ==> inChunks != [] && inChunks[0] >= |f| - 16 && Overlay(buffer, 16, f[16..])[..|f|] == f
    ensures var r := ReadBody(buffer, |f|, f[16..] + rest, inChunks);
            && r.Got? && r.frame == f && r.input == rest
            && r.inChunks == (if |f| > 16 then inChunks[1..] else inChunks)
  {
    hide Overlay;
    SplitInput(f, rest);
  }

  /** Only full reads take as many bytes off the input as the frame is long. */
  lemma WholeFrameMeansFullReads(maxSize: nat, buffer: Str, input: Str, inChunks: seq<nat>)
    requires |buffer| >= 16
    requires var r := ReadFrame(maxSize, buffer, input, inChunks); r.Got? && |input| >= |r.input| + |r.frame|
    ensures var f := ReadFrame(maxSize, buffer, input, inChunks).frame;
            && |inChunks| >= ReadsOf(f) && inChunks[0] >= 16 && (|f| > 16 ==> inChunks[1] >= |f| - 16)
  {
    hide ParseHeader, TotalSize, Overlay, Grown;
  }

  lemma HeaderOfPrefix(a: Str, b: Str)
    requires |a| >= 16 && |b| >= 16 && a[..16] == b[..16]
    ensures ParseHeader(a) == ParseHeader(b)
  {
    SameHeader(a, 16);
    SameHeader(b, 16);
  }

  /** With full reads and full writes the server loop splits any concatenation of frames within the size limit
      into exactly those frames, whatever was in the buffer, and answers them in order. */
  lemma {:induction false} LoopSplitsFrames(services: Services, maxSize: nat, c: Counters, buffer: Str, frames: seq<Str>,
                                            inChunks: seq<nat>, outChunks: seq<nat>)
    requires |buffer| >= 16 && forall f :: f in frames ==> IsFrame(f, maxSize) && Readable(f)
    requires FullReads(frames, inChunks) && FullWrites(HandleAll(services, c, frames).1, outChunks)
    ensures var (c', responses) := HandleAll(services, c, frames);
            Serve(services, maxSize, c, buffer, Flatten(frames), inChunks, outChunks)
              == Served(c', Flatten(responses), frames, [])
    decreases |frames|
  {
    hide Deserialize, Handle, ParseHeader, TotalSize, ReadFrame;
    if frames == [] {
      assert ReadFrame(maxSize, buffer, [], inChunks) == Closed(0) by { NothingToRead(maxSize, buffer, inChunks); }
    } else {
      var f, rest := frames[0], Flatten(frames[1..]);
      assert f in frames;
      ReadsWholeFrame(maxSize, buffer, f, rest, inChunks);
      var (c1, response) := Handle(services, c, f);
      var all := HandleAll(services, c, frames).1;
      assert all[0] == response && all[1..] == HandleAll(services, c1, frames[1..]).1;
      var buffer' := ReadFrame(maxSize, buffer, f + rest, inChunks).buffer;
      LoopSplitsFrames(services, maxSize, c1, buffer', frames[1..], inChunks[ReadsOf(f)..],
                       if response == [] then outChunks else outChunks[1..]);
      assert frames == [f] + frames[1..];
      assert response[..|response|] == response;
    }
  }

  lemma NothingToRead(maxSize: nat, buffer: Str, inChunks: seq<nat>)
    requires |buffer| >= 16
    ensures ReadFrame(maxSize, buffer, [], inChunks) == Closed(0)
  {
  }

  /** What the connection comes to after a turn that handled a frame. */
  function AfterTurn(services: Services, maxSize: nat, t: Turn): Served
    requires t.Next? && |t.buffer| >= 16
  {
    if t.open then Serve(services, maxSize, t.counters, t.buffer, t.input, t.inChunks, t.outChunks)
    else Served(t.counters, [], [], t.input)
  }

  lemma ServeUnfolds(services: Services, maxSize: nat, c: Counters, buffer: Str, input: Str,
                     inChunks: seq<nat>, outChunks: seq<nat>)
    requires |buffer| >= 16
    ensures var t := ServeTurn(services, maxSize, c, buffer, input, inChunks, outChunks);
            var s := Serve(services, maxSize, c, buffer, input, inChunks, outChunks);
            if t.Stop? then s == Served(t.counters, [], [], input)
            else
              var after := AfterTurn(services, maxSize, t);
              s == Served(after.counters, t.sent + after.output, [t.frame] + after.handled, after.rest)
  {
    hide ServeTurn;
  }

  /** What a turn that handled a frame has read, and what it has sent of the response. */
  lemma TurnUnfolds(services: Services, maxSize: nat, c: Counters, buffer: Str, input: Str,
                    inChunks: seq<nat>, outChunks: seq<nat>)
    requires |buffer| >= 16 && ServeTurn(services, maxSize, c, buffer, input, inChunks, outChunks).Next?
    ensures var t := ServeTurn(services, maxSize, c, buffer, input, inChunks, outChunks);
            && Readable(t.frame)
            && var (c', response) := Handle(services, c, t.frame);
            && ReadFrame(maxSize, buffer, input, inChunks) == Got(t.buffer, t.input, t.inChunks, t.frame)
            && t.counters == c' && t.sent <= response
            && |t.sent| == (if outChunks == [] then 0 else Min(outChunks[0], |response|))
            && (t.open <==> response == [] || t.sent != [])
            && t.outChunks == (if response == [] || outChunks == [] then outChunks else outChunks[1..])
            && (|t.sent| == |response| ==>
                  && t.sent == response && t.open
                  && (response == [] ==> t.outChunks == outChunks)
                  && (response != [] ==>
                        outChunks != [] && outChunks[0] >= |response| && t.outChunks == outChunks[1..]))
  {
    hide Handle, ReadFrame, Deserialize;
  }

  /** A turn that handles no frame ends the connection: a bad header has been counted, a closed connection has
      not. */
  lemma TurnEnds(services: Services, maxSize: nat, c: Counters, buffer: Str, input: Str,
                 inChunks: seq<nat>, outChunks: seq<nat>)
    requires |buffer| >= 16 && ServeTurn(services, maxSize, c, buffer, input, inChunks, outChunks).Stop?
    ensures var t := ServeTurn(services, maxSize, c, buffer, input, inChunks, outChunks);
            match ReadFrame(maxSize, buffer, input, inChunks)
            case Closed(errors) => t.counters.requests == c.requests && t.counters.errors == c.errors + errors
            case Got(_, _, _, frame) => !Readable(frame) && t.counters == c
  {
    hide Handle, ReadFrame, Readable;
  }

  /** The handled frames account for at least the bytes read. */
  lemma {:induction false} HandledCoverInput(services: Services, maxSize: nat, c: Counters, buffer: Str, input: Str,
                                             inChunks: seq<nat>, outChunks: seq<nat>)
    requires |buffer| >= 16
    ensures var s := Serve(services, maxSize, c, buffer, input, inChunks, outChunks);
            |input| <= |s.rest| + |Flatten(s.handled)|
    decreases |inChunks|, 1
  {
    hide ServeTurn, Serve, AfterTurn;
    ServeUnfolds(services, maxSize, c, buffer, input, inChunks, outChunks);
    var t := ServeTurn(services, maxSize, c, buffer, input, inChunks, outChunks);
    if t.Next? {
      var after := AfterTurn(services, maxSize, t);
      LaterCoverInput(services, maxSize, t);
      assert ([t.frame] + after.handled)[1..] == after.handled;
    }
  }

  lemma {:induction false} LaterCoverInput(services: Services, maxSize: nat, t: Turn)
    requires t.Next? && |t.buffer| >= 16
    ensures var after := AfterTurn(services, maxSize, t); |t.input| <= |after.rest| + |Flatten(after.handled)|
    decreases |t.inChunks|, 2
  {
    hide Serve;
    if t.open {
      HandledCoverInput(services, maxSize, t.counters, t.buffer, t.input, t.inChunks, t.outChunks);
    }
  }

  /** No more is sent than the responses to the handled frames. */
  lemma {:induction false} OutputWithinResponses(services: Services, maxSize: nat, c: Counters, buffer: Str, input: Str,
                                                 inChunks: seq<nat>, outChunks: seq<nat>)
    requires |buffer| >= 16
    ensures var s := Serve(services, maxSize, c, buffer, input, inChunks, outChunks);
            && (forall f :: f in s.handled ==> Readable(f))
            && |s.output| <= |Flatten(HandleAll(services, c, s.handled).1)|
    decreases |inChunks|, 1
  {
    hide ServeTurn, Serve, AfterTurn, Handle, Readable, ReadFrame;
    ServeUnfolds(services, maxSize, c, buffer, input, inChunks, outChunks);
    var t := ServeTurn(services, maxSize, c, buffer, input, inChunks, outChunks);
    if t.Next? {
      TurnUnfolds(services, maxSize, c, buffer, input, inChunks, outChunks);
      LaterOutput(services, maxSize, t);
      ResponsesUnfold(services, c, t.frame, AfterTurn(services, maxSize, t).handled);
    }
  }

  lemma {:induction false} LaterOutput(services: Services, maxSize: nat, t: Turn)
    requires t.Next? && |t.buffer| >= 16
    ensures var after := AfterTurn(services, maxSize, t);
            && (forall f :: f in after.handled ==> Readable(f))
            && |after.output| <= |Flatten(HandleAll(services, t.counters, after.handled).1)|
    decreases |t.inChunks|, 2
  {
    hide Serve, Readable;
    if t.open {
      OutputWithinResponses(services, maxSize, t.counters, t.buffer, t.input, t.inChunks, t.outChunks);
    }
  }

  lemma ResponsesUnfold(services: Services, c: Counters, f: Str, frames: seq<Str>)
    requires Readable(f) && forall g :: g in frames ==> Readable(g)
    ensures forall g :: g in [f] + frames ==> Readable(g)
    ensures var (c1, response) := Handle(services, c, f);
            var responses := HandleAll(services, c1, frames).1;
            && HandleAll(services, c, [f] + frames).1 == [response] + responses
            && Flatten([response] + responses) == response + Flatten(responses)
  {
    hide Handle, Readable;
    assert ([f] + frames)[1..] == frames;
    var (c1, response) := Handle(services, c, f);
    var responses := HandleAll(services, c1, frames).1;
    assert ([response] + responses)[1..] == responses;
  }

  /** If a connection handled these frames with no input left, the reads of its first turn were full. */
  lemma FirstReadsFull(services: Services, maxSize: nat, c: Counters, buffer: Str, f: Str, frames: seq<Str>,
                       inChunks: seq<nat>, outChunks: seq<nat>)
    requires |buffer| >= 16 && IsFrame(f, maxSize)
    requires var s := Serve(services, maxSize, c, buffer, f + Flatten(frames), inChunks, outChunks);
             s.handled == [f] + frames && s.rest == []
    ensures var t := ServeTurn(services, maxSize, c, buffer, f + Flatten(frames), inChunks, outChunks);
            && |inChunks| >= ReadsOf(f) && inChunks[0] >= 16 && (|f| > 16 ==> inChunks[1] >= |f| - 16)
            && t.Next? && t.frame == f && t.input == Flatten(frames) && t.inChunks == inChunks[ReadsOf(f)..]
  {
    hide ServeTurn, Serve, AfterTurn, Handle, Readable, ReadFrame, IsFrame, Flatten;
    var input := f + Flatten(frames);
    ServeUnfolds(services, maxSize, c, buffer, input, inChunks, outChunks);
    var t := ServeTurn(services, maxSize, c, buffer, input, inChunks, outChunks);
    var after := AfterTurn(services, maxSize, t);
    HeadAndTail(t.frame, after.handled, f, frames);
    LaterCoverInput(services, maxSize, t);
    TurnUnfolds(services, maxSize, c, buffer, input, inChunks, outChunks);
    WholeFrameMeansFullReads(maxSize, buffer, input, inChunks);
    ReadsWholeFrame(maxSize, buffer, f, Flatten(frames), inChunks);
  }

  lemma HeadAndTail(f: Str, fs: seq<Str>, g: Str, gs: seq<Str>)
    requires [f] + fs == [g] + gs
    ensures f == g && fs == gs
  {
    assert ([f] + fs)[0] == f && ([f] + fs)[1..] == fs;
    assert ([g] + gs)[0] == g && ([g] + gs)[1..] == gs;
  }

  /** If it also sent all responses, the write of its first turn was full, and the later ones sent the rest. */
  lemma FirstWriteFull(services: Services, maxSize: nat, c: Counters, buffer: Str, input: Str, f: Str, frames: seq<Str>,
                       inChunks: seq<nat>, outChunks: seq<nat>)
    requires |buffer| >= 16 && Readable(f) && forall g :: g in frames ==> Readable(g)
    requires var (c1, response) := Handle(services, c, f);
             var s := Serve(services, maxSize, c, buffer, input, inChunks, outChunks);
             && s.handled == [f] + frames
             && s.output == response + Flatten(HandleAll(services, c1, frames).1)
    ensures var t := ServeTurn(services, maxSize, c, buffer, input, inChunks, outChunks);
            var s := Serve(services, maxSize, c, buffer, input, inChunks, outChunks);
            var (c1, response) := Handle(services, c, f);
            && t.Next? && t.open && t.counters == c1
            && (response == [] ==> t.outChunks == outChunks)
            && (response != [] ==> outChunks != [] && outChunks[0] >= |response| && t.outChunks == outChunks[1..])
            && var after := Serve(services, maxSize, t.counters, t.buffer, t.input, t.inChunks, t.outChunks);
            && after.handled == frames && after.rest == s.rest
            && after.output == Flatten(HandleAll(services, c1, frames).1)
  {
    hide ServeTurn, Serve, Handle, Readable, ReadFrame, HandleAll, Flatten;
    ServeUnfolds(services, maxSize, c, buffer, input, inChunks, outChunks);
    var t := ServeTurn(services, maxSize, c, buffer, input, inChunks, outChunks);
    var after := AfterTurn(services, maxSize, t);
    HeadAndTail(t.frame, after.handled, f, frames);
    TurnUnfolds(services, maxSize, c, buffer, input, inChunks, outChunks);
    LaterOutput(services, maxSize, t);
    var (c1, response) := Handle(services, c, f);
    var later := Flatten(HandleAll(services, c1, frames).1);
    assert (t.sent + after.output)[|t.sent|..] == after.output;
    assert (response + later)[|response|..] == later;
  }

  lemma {:induction false} OnlyFullReadsSplit(services: Services, maxSize: nat, c: Counters, buffer: Str, frames: seq<Str>,
                                              inChunks: seq<nat>, outChunks: seq<nat>)
    requires |buffer| >= 16 && forall f :: f in frames ==> IsFrame(f, maxSize) && Readable(f)
    requires var s := Serve(services, maxSize, c, buffer, Flatten(frames), inChunks, outChunks);
             s.handled == frames && s.rest == [] && s.output == Flatten(HandleAll(services, c, frames).1)
    ensures FullReads(frames, inChunks) && FullWrites(HandleAll(services, c, frames).1, outChunks)
    decreases |frames|
  {
    hide Handle, ServeTurn, Serve, IsFrame, Readable, HandleAll;
    if frames != [] {
      var f, later := frames[0], frames[1..];
      assert f in frames && frames == [f] + later;
      ResponsesUnfold(services, c, f, later);
      FirstReadsFull(services, maxSize, c, buffer, f, later, inChunks, outChunks);
      FirstWriteFull(services, maxSize, c, buffer, f + Flatten(later), f, later, inChunks, outChunks);
      var t := ServeTurn(services, maxSize, c, buffer, f + Flatten(later), inChunks, outChunks);
      OnlyFullReadsSplit(services, maxSize, t.counters, t.buffer, later, t.inChunks, t.outChunks);
      FullWritesCons(Handle(services, c, f).1, HandleAll(services, t.counters, later).1, outChunks);
    }
  }

  lemma FullWritesCons(response: Str, responses: seq<Str>, outChunks: seq<nat>)
    ensures FullWrites([response] + responses, outChunks) <==>
              if response == [] then FullWrites(responses, outChunks)
              else outChunks != [] && outChunks[0] >= |response| && FullWrites(responses, outChunks[1..])
  {
    assert ([response] + responses)[1..] == responses;
  }

  /** The server loop hands on exactly the frames of a concatenation, each made of its own bytes, and sends
      exactly the responses, if and only if each read delivers the count asked for and each response is
      taken in one piece: the loop calls the socket once for each and does not ask again. */
  lemma FramesAnsweredIff(services: Services, maxSize: nat, c: Counters, buffer: Str, frames: seq<Str>,
                          inChunks: seq<nat>, outChunks: seq<nat>)
    requires |buffer| >= 16 && forall f :: f in frames ==> IsFrame(f, maxSize) && Readable(f)
    ensures var s := Serve(services, maxSize, c, buffer, Flatten(frames), inChunks, outChunks);
            var responses := HandleAll(services, c, frames).1;
            s.handled == frames && s.rest == [] && s.output == Flatten(responses)
            <==> FullReads(frames, inChunks) && FullWrites(responses, outChunks)
  {
    hide Readable, IsFrame, Handle, Serve, FullReads, FullWrites, HandleAll;
    var s := Serve(services, maxSize, c, buffer, Flatten(frames), inChunks, outChunks);
    var responses := HandleAll(services, c, frames).1;
    if FullReads(frames, inChunks) && FullWrites(responses, outChunks) {
      LoopSplitsFrames(services, maxSize, c, buffer, frames, inChunks, outChunks);
    }
    if s.handled == frames && s.rest == [] && s.output == Flatten(responses) {
      OnlyFullReadsSplit(services, maxSize, c, buffer, frames, inChunks, outChunks);
    }
  }

  /** A request with the padding bytes its sender's compiler left in it. */
  datatype Sent = Sent(request: Message, pad: seq<Byte>)

  predicate GoodRequest(s: Sent, maxSize: nat) {
    && |s.pad| == 4 && Sendable(s.request) && s.request.header.kind == REQUEST
    && |Serialize(s.request, s.pad)| <= maxSize
  }

  function Frames(sent: seq<Sent>, maxSize: nat): (fs: seq<Str>)
    requires forall s :: s in sent ==> GoodRequest(s, maxSize)
    ensures |fs| == |sent|
  {
    if sent == [] then []
    else
      assert GoodRequest(sent[0], maxSize);
      [Serialize(sent[0].request, sent[0].pad)] + Frames(sent[1..], maxSize)
  }

  function ReplyFrames(history: seq<Registration>, sent: seq<Sent>): (fs: seq<Str>)
    ensures |fs| == |sent|
  {
    if sent == [] then []
    else [Serialize(ExpectedReply(history, sent[0].request), NO_PAD)] + ReplyFrames(history, sent[1..])
  }

  lemma {:induction false} FramesAreFrames(sent: seq<Sent>, maxSize: nat)
    requires forall s :: s in sent ==> GoodRequest(s, maxSize)
    ensures forall f :: f in Frames(sent, maxSize) ==> IsFrame(f, maxSize) && Readable(f)
  {
    hide Deserialize, Serialize, Sendable;
    if sent != [] {
      assert GoodRequest(sent[0], maxSize);
      SentMessageIsFrame(sent[0].request, sent[0].pad, maxSize);
      FramesAreFrames(sent[1..], maxSize);
    }
  }

  lemma {:induction false} AnswersInOrder(history: seq<Registration>, c: Counters, sent: seq<Sent>, maxSize: nat)
    requires forall s :: s in sent ==> GoodRequest(s, maxSize)
    requires forall f :: f in Frames(sent, maxSize) ==> Readable(f)
    ensures var (c', responses) := HandleAll(ApplyAll(history), c, Frames(sent, maxSize));
            responses == ReplyFrames(history, sent) && c'.requests == c.requests + |sent|
    decreases |sent|
  {
    hide Deserialize, Serialize, Sendable, Handle, ExpectedReply;
    if sent != [] {
      var s := sent[0];
      assert GoodRequest(s, maxSize);
      HandleRequest(history, c, s.request, s.pad);
      var frames := Frames(sent, maxSize);
      assert frames[1..] == Frames(sent[1..], maxSize);
      assert frames[0] == Serialize(s.request, s.pad);
      AnswersInOrder(history, Handle(ApplyAll(history), c, frames[0]).0, sent[1..], maxSize);
    }
  }

  /** A whole conversation: the bytes of any list of requests, sent back to back, are each taken as sent and
      answered by the bytes of the expected replies, in the same order and nothing else, if and only if no
      read and no write is short. */
  lemma ConversationAnswered(history: seq<Registration>, maxSize: nat, c: Counters, buffer: Str, sent: seq<Sent>,
                             inChunks: seq<nat>, outChunks: seq<nat>)
    requires |buffer| >= 16
    requires forall s :: s in sent ==> GoodRequest(s, maxSize)
    ensures var frames, replies := Frames(sent, maxSize), ReplyFrames(history, sent);
            var s := Serve(ApplyAll(history), maxSize, c, buffer, Flatten(frames), inChunks, outChunks);
            var full := FullReads(frames, inChunks) && FullWrites(replies, outChunks);
            && (s.handled == frames && s.rest == [] && s.output == Flatten(replies) <==> full)
            && (full ==> s.counters.requests == c.requests + |sent|)
  {
    hide Deserialize, Serialize, Sendable, Serve, HandleAll, ParseHeader, TotalSize, FullReads, FullWrites;
    FramesAreFrames(sent, maxSize);
    var frames, replies := Frames(sent, maxSize), ReplyFrames(history, sent);
    AnswersInOrder(history, c, sent, maxSize);
    FramesAnsweredIff(ApplyAll(history), maxSize, c, buffer, frames, inChunks, outChunks);
    if FullReads(frames, inChunks) && FullWrites(replies, outChunks) {
      LoopSplitsFrames(ApplyAll(history), maxSize, c, buffer, frames, inChunks, outChunks);
    }
  }

  // ---------------------------------------------------------------- the code

  method ReceiveFrame(maxSize: nat, buffer: Str, input: Str, inChunks: seq<nat>) returns (r: FrameRead)
    requires |buffer| >= 16
    ensures r == ReadFrame(maxSize, buffer, input, inChunks)
  {
    hide ParseHeader, Overlay, Grown;
    var n := Moved(inChunks, 16, |input|);
    if n <= 0 {
      return Closed(0);
    }
    var buf, rest, limits := Overlay(buffer, 0, input[..n]), input[n..], inChunks[1..];
    var header := ParseHeader(buf);
    if header.magic != MAGIC {
      return Closed(1);
    }
    var totalSize := TotalSize(header);
    if totalSize > maxSize {
      return Closed(1);
    }
    buf := Grown(buf, totalSize);
    var remaining := totalSize - 16;
    if remaining > 0 {
      n := Moved(limits, remaining, |rest|);
      if n <= 0 {
        return Closed(0);
      }
      buf := Overlay(buf, 16, rest[..n]);
      rest, limits := rest[n..], limits[1..];
    }
    return Got(buf, rest, limits, buf[..totalSize]);
  }

  class RpcServer {
    const maxRequestSize: nat
    const registry: ServiceRegistry
    var totalRequests: nat
    var totalErrors: nat

    constructor (maxRequestSize: nat, registry: ServiceRegistry)
      ensures Tallies() == Counters(0, 0)
      ensures this.maxRequestSize == maxRequestSize && this.registry == registry
    {
      this.maxRequestSize, this.registry := maxRequestSize, registry;
      totalRequests, totalErrors := 0, 0;
    }

    function Tallies(): Counters
      reads this
    {
      Counters(totalRequests, totalErrors)
    }

    method HandleMessage(data: Str) returns (response: Str)
      requires Readable(data)
      modifies this`totalRequests, this`totalErrors
      ensures (Tallies(), response) == Handle(registry.services, old(Tallies()), data)
    {
      hide Deserialize, Serialize, FindMethod, Ascii;
      var parsed := DeserializeMessage(data, Fresh());
      if parsed.Rejected? {
        totalErrors := totalErrors + 1;
        return [];
      }
      totalRequests := totalRequests + 1;
      var msg := parsed.msg;
      if msg.header.kind == REQUEST {
        var handler := FindMethod(registry.services, msg.service, msg.methodName);
        if handler.NoHandler? {
          var notFound := SerializeMessage(CreateError(msg.requestId, SERVICE_NOT_FOUND, NOT_FOUND_TEXT), NO_PAD);
          return notFound[..];
        }
        match handler.run(msg.payload)
        case Returns(result) =>
          var answer := SerializeMessage(CreateResponse(msg.requestId, result, OK), NO_PAD);
          return answer[..];
        case Throws =>
          var failure := SerializeMessage(CreateError(msg.requestId, UNKNOWN, INTERNAL_ERROR_TEXT), NO_PAD);
          totalErrors := totalErrors + 1;
          return failure[..];
      } else if msg.header.kind == HEARTBEAT {
        var beat := SerializeMessage(CreateResponse(msg.requestId, [], OK), NO_PAD);
        return beat[..];
      }
      return [];
    }

    /** The body of the connection loop. */
    method HandleFrame(buffer: Str, input: Str, inChunks: seq<nat>, outChunks: seq<nat>) returns (t: Turn)
      requires |buffer| >= 16
      modifies this`totalRequests, this`totalErrors
      ensures t == ServeTurn(registry.services, maxRequestSize, old(Tallies()), buffer, input, inChunks, outChunks)
      ensures Tallies() == t.counters
    {
      hide Deserialize, Handle, ReadFrame;
      var r := ReceiveFrame(maxRequestSize, buffer, input, inChunks);
      if r.Closed? {
        totalErrors := totalErrors + r.errors;
        return Stop(Tallies());
      }
      if !Readable(r.frame) {
        return Stop(Tallies());
      }
      var response := HandleMessage(r.frame);
      if response == [] {
        return Next(Tallies(), r.buffer, r.input, r.inChunks, outChunks, r.frame, [], true);
      }
      var n := Moved(outChunks, |response|, |response|);
      var limits := if outChunks == [] then [] else outChunks[1..];
      return Next(Tallies(), r.buffer, r.input, r.inChunks, limits, r.frame, response[..n], n > 0);
    }

    method HandleConnection(stream: Str, inChunks: seq<nat>, outChunks: seq<nat>)
        returns (output: Str, rest: Str, ghost handled: seq<Str>)
      modifies this`totalRequests, this`totalErrors
      ensures Served(Tallies(), output, handled, rest) ==
                Serve(registry.services, maxRequestSize, old(Tallies()), Fill(4096, 0), stream, inChunks, outChunks)
    {
      hide ServeTurn, Serve;
      var buffer: Str := Fill(4096, 0);
      var readLimits, writeLimits := inChunks, outChunks;
      rest, output, handled := stream, [], [];
      ghost var all := Serve(registry.services, maxRequestSize, Tallies(), buffer, stream, inChunks, outChunks);
      var connected := true;
      while connected
        invariant |buffer| >= 16
        invariant var s := if connected
                           then Serve(registry.services, maxRequestSize, Tallies(), buffer, rest, readLimits, writeLimits)
                           else Served(Tallies(), [], [], rest);
                  all == Served(s.counters, output + s.output, handled + s.handled, s.rest)
        decreases |readLimits|, connected
      {
        ServeUnfolds(registry.services, maxRequestSize, Tallies(), buffer, rest, readLimits, writeLimits);
        var t := HandleFrame(buffer, rest, readLimits, writeLimits);
        if t.Stop? {
          connected := false;
        } else {
          buffer, rest, readLimits, writeLimits := t.buffer, t.input, t.inChunks, t.outChunks;
          output := output + t.sent;
          handled := handled + [t.frame];
          connected := t.open;
        }
      }
    }
  }
}
