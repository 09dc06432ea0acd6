/** The RPC frame of rpc/protocol.hpp: header, metadata and payload, as the structs lie in memory on a
    little-endian 64-bit target (header 16 bytes, RequestMeta 28 + 4 of padding, ResponseMeta 16). */
module Protocol {
  import opened Modular
  import opened Bytes

  type Str = seq<Byte>  // std::string and std::vector<uint8_t>

  const MAGIC: nat := 0x5250
  const VERSION: nat := 1
  const REQUEST: nat := 0
  const RESPONSE: nat := 1
  const HEARTBEAT: nat := 2

  const OK := 0
  const UNKNOWN := -1
  const SERVICE_NOT_FOUND := -3

  datatype Header = Header(magic: nat, version: nat, kind: nat, metaLen: nat, payloadLen: nat, reserved: nat) {
    predicate InRange() {
      && magic < Pow256(2) && version < Pow256(1) && kind < Pow256(1)
      && metaLen < Pow256(4) && payloadLen < Pow256(4) && reserved < Pow256(4)
    }
  }

  datatype Message = Message(
    header: Header, requestId: nat, service: Str, methodName: Str, payload: Str,
    errorCode: int, errorMessage: Str, timeoutMs: nat, timestamp: nat)

  function InitHeader(kind: nat): Header {
    Header(MAGIC, VERSION, kind, 0, 0, 0)
  }

  /** A default-constructed message. */
  function Fresh(): Message {
    Message(Header(0, 0, 0, 0, 0, 0), 0, [], [], [], OK, [], 30000, 0)
  }

  function CreateRequest(id: nat, service: Str, methodName: Str, payload: Str, timeoutMs: nat, clock: nat): Message {
    Fresh().(header := InitHeader(REQUEST), requestId := id, service := service, methodName := methodName,
             payload := payload, timeoutMs := timeoutMs, timestamp := clock)
  }

  function CreateResponse(id: nat, payload: Str, error: int): Message {
    Fresh().(header := InitHeader(RESPONSE), requestId := id, payload := payload, errorCode := error)
  }

  function CreateError(id: nat, error: int, text: Str): Message {
    Fresh().(header := InitHeader(RESPONSE), requestId := id, errorCode := error, errorMessage := text)
  }

  // ---------------------------------------------------------------- layout

  function HeaderBytes(h: Header): (s: seq<Byte>)
    ensures |s| == 16
  {
    ToBytes(h.magic, 2) + ToBytes(h.version, 1) + ToBytes(h.kind, 1)
    + ToBytes(h.metaLen, 4) + ToBytes(h.payloadLen, 4) + ToBytes(h.reserved, 4)
  }

  function ReadInt(data: seq<Byte>, at: nat, width: nat): nat
    requires at + width <= |data|
  {
    FromBytes(data[at..at + width])
  }

  function ParseHeader(data: seq<Byte>): (h: Header)
    requires |data| >= 16
  {
    Header(ReadInt(data, 0, 2), ReadInt(data, 2, 1), ReadInt(data, 3, 1),
           ReadInt(data, 4, 4), ReadInt(data, 8, 4), ReadInt(data, 12, 4))
  }

  function RequestMetaBytes(m: Message, pad: seq<Byte>): (s: seq<Byte>)
    requires |pad| == 4
    ensures |s| == 32
  {
    ToBytes(m.requestId, 8) + ToBytes(m.timestamp, 8) + ToBytes(m.timeoutMs, 4)
    + ToBytes(|m.service|, 4) + ToBytes(|m.methodName|, 4) + pad
  }

  function ResponseMetaBytes(m: Message): (s: seq<Byte>)
    ensures |s| == 16
  {
    ToBytes(m.requestId, 8) + ToBytes(m.errorCode, 4) + ToBytes(|m.errorMessage|, 4)
  }

  function MetaSize(m: Message): nat {
    if m.header.kind == REQUEST then 32 + |m.service| + |m.methodName| else 16 + |m.errorMessage|
  }

  /** The header as sent: both lengths are cast to uint32_t. */
  function SentHeader(m: Message): Header {
    m.header.(metaLen := MetaSize(m) % Pow256(4), payloadLen := |m.payload| % Pow256(4))
  }

  function MetaBytes(m: Message, pad: seq<Byte>): seq<Byte>
    requires |pad| == 4
  {
    if m.header.kind == REQUEST then RequestMetaBytes(m, pad) + m.service + m.methodName
    else ResponseMetaBytes(m) + m.errorMessage
  }

  /** `serialize`. The four padding bytes of RequestMeta are whatever the compiler leaves there. */
  function Serialize(m: Message, pad: seq<Byte>): seq<Byte>
    requires |pad| == 4
  {
    HeaderBytes(SentHeader(m)) + MetaBytes(m, pad) + m.payload
  }

  function TotalSize(h: Header): nat {
    16 + h.metaLen + h.payloadLen
  }

  /** What `deserialize` does with a byte string: refuses it, or fills the message, or (when the inner
      lengths contradict the header) would read past the bytes it was given. */
  datatype Parse = Rejected | PastEnd | Parsed(msg: Message)

  function Deserialize(data: seq<Byte>, m0: Message): Parse {
    if |data| < 16 then Rejected
    else
      var h := ParseHeader(data);
      if h.magic != MAGIC then Rejected
      else if |data| < TotalSize(h) then Rejected
      else if h.kind == REQUEST then ParseRequest(data, m0.(header := h))
      else if h.kind == RESPONSE then ParseResponse(data, m0.(header := h))
      else TakePayload(data, 16, m0.(header := h))
  }

  function ParseRequest(data: seq<Byte>, m0: Message): Parse {
    if |data| < 48 then PastEnd
    else
      var m := m0.(requestId := ReadInt(data, 16, 8), timestamp := ReadInt(data, 24, 8),
                   timeoutMs := ReadInt(data, 32, 4));
      var s := 48 + ReadInt(data, 36, 4);
      var e := s + ReadInt(data, 40, 4);
      if |data| < e then PastEnd
      else TakePayload(data, e, m.(service := data[48..s], methodName := data[s..e]))
  }

  function ParseResponse(data: seq<Byte>, m0: Message): Parse {
    if |data| < 32 then PastEnd
    else
      var m := m0.(requestId := ReadInt(data, 16, 8), errorCode := AsSigned(ReadInt(data, 24, 4), 4));
      var e := 32 + ReadInt(data, 28, 4);
      if |data| < e then PastEnd
      else TakePayload(data, e, if e > 32 then m.(errorMessage := data[32..e]) else m)
  }

  function TakePayload(data: seq<Byte>, at: nat, m: Message): Parse
    requires at <= |data|
  {
    if m.header.payloadLen == 0 then Parsed(m)
    else if |data| < at + m.header.payloadLen then PastEnd
    else Parsed(m.(payload := data[at..at + m.header.payloadLen]))
  }

  // ---------------------------------------------------------------- round trip

  lemma ReadAt(pre: seq<Byte>, v: nat, n: nat, post: seq<Byte>, data: seq<Byte>)
    requires v < Pow256(n) && data == pre + (ToBytes(v, n) + post)
    ensures |data| >= |pre| + n && ReadInt(data, |pre|, n) == v
  {
    UnsignedRoundTrip(v, n);
    assert data[|pre|..|pre| + n] == ToBytes(v, n);
  }

  /** Where each field of the header lies, and that parsing finds it there. */
  lemma HeaderRoundTrip(h: Header, rest: seq<Byte>)
    requires h.InRange()
    ensures var data := HeaderBytes(h) + rest;
            && ReadInt(data, 0, 2) == h.magic && ReadInt(data, 2, 1) == h.version && ReadInt(data, 3, 1) == h.kind
            && ReadInt(data, 4, 4) == h.metaLen && ReadInt(data, 8, 4) == h.payloadLen
            && ReadInt(data, 12, 4) == h.reserved
    ensures ParseHeader(HeaderBytes(h) + rest) == h
  {
    hide ToBytes, FromBytes, ReadInt, Pow256;
    var a, b, c := ToBytes(h.magic, 2), ToBytes(h.version, 1), ToBytes(h.kind, 1);
    var d, e, f := ToBytes(h.metaLen, 4), ToBytes(h.payloadLen, 4), ToBytes(h.reserved, 4);
    var data := HeaderBytes(h) + rest;
    assert data == [] + (a + (b + c + d + e + f + rest));
    ReadAt([], h.magic, 2, b + c + d + e + f + rest, data);
    assert data == a + (b + (c + d + e + f + rest));
    ReadAt(a, h.version, 1, c + d + e + f + rest, data);
    assert data == (a + b) + (c + (d + e + f + rest));
    ReadAt(a + b, h.kind, 1, d + e + f + rest, data);
    assert data == (a + b + c) + (d + (e + f + rest));
    ReadAt(a + b + c, h.metaLen, 4, e + f + rest, data);
    assert data == (a + b + c + d) + (e + (f + rest));
    ReadAt(a + b + c + d, h.payloadLen, 4, f + rest, data);
    assert data == (a + b + c + d + e) + (f + rest);
    ReadAt(a + b + c + d + e, h.reserved, 4, rest, data);
  }

  lemma SentHeaderInRange(m: Message)
    requires m.header.InRange()
    ensures SentHeader(m).InRange()
  {
  }

  lemma FrameHeader(m: Message, pad: seq<Byte>, rest: seq<Byte>)
    requires |pad| == 4 && m.header.InRange()
    ensures |Serialize(m, pad) + rest| >= 16 && ParseHeader(Serialize(m, pad) + rest) == SentHeader(m)
    ensures var data, h := Serialize(m, pad) + rest, SentHeader(m);
            && ReadInt(data, 0, 2) == h.magic && ReadInt(data, 2, 1) == h.version && ReadInt(data, 3, 1) == h.kind
            && ReadInt(data, 4, 4) == h.metaLen && ReadInt(data, 8, 4) == h.payloadLen
            && ReadInt(data, 12, 4) == h.reserved
  {
    hide HeaderBytes, MetaBytes, ParseHeader, ReadInt;
    SentHeaderInRange(m);
    assert Serialize(m, pad) + rest == HeaderBytes(SentHeader(m)) + (MetaBytes(m, pad) + m.payload + rest);
    HeaderRoundTrip(SentHeader(m), MetaBytes(m, pad) + m.payload + rest);
  }

  predicate SizesFit(m: Message) {
    MetaSize(m) < Pow256(4) && |m.payload| < Pow256(4)
  }

  lemma FrameLength(m: Message, pad: seq<Byte>)
    requires |pad| == 4
    ensures |Serialize(m, pad)| == 16 + MetaSize(m) + |m.payload|
  {
  }

  /** The size a receiver computes from the header is the frame's length exactly when the metadata and
      the payload each fit a 32-bit length. */
  lemma TotalSizeIff(m: Message, pad: seq<Byte>)
    requires |pad| == 4
    ensures TotalSize(SentHeader(m)) == |Serialize(m, pad)| <==> SizesFit(m)
  {
    FrameLength(m, pad);
    ModKeepsIff(MetaSize(m), Pow256(4));
    ModKeepsIff(|m.payload|, Pow256(4));
  }

  lemma ModKeepsIff(a: nat, m: nat)
    requires m >= 1
    ensures a % m <= a && (a % m == a <==> a < m)
  {
    if a < m {
      QuotientUnique(a, 0, a, m);
    } else {
      assert a == (a / m) * m + a % m;
      assert a / m >= 0;
      MulMonotone(0, a / m, m);
    }
  }

  lemma RequestMetaRoundTrip(m: Message, pad: seq<Byte>, pre: seq<Byte>, post: seq<Byte>, data: seq<Byte>)
    requires |pad| == 4 && |pre| == 16 && data == pre + (RequestMetaBytes(m, pad) + post)
    requires m.requestId < Pow256(8) && m.timestamp < Pow256(8) && m.timeoutMs < Pow256(4)
    requires |m.service| < Pow256(4) && |m.methodName| < Pow256(4)
    ensures |data| >= 48
    ensures ReadInt(data, 16, 8) == m.requestId && ReadInt(data, 24, 8) == m.timestamp
    ensures ReadInt(data, 32, 4) == m.timeoutMs
    ensures ReadInt(data, 36, 4) == |m.service| && ReadInt(data, 40, 4) == |m.methodName|
  {
    hide ToBytes, FromBytes, ReadInt, Pow256;
    var a, b, c := ToBytes(m.requestId, 8), ToBytes(m.timestamp, 8), ToBytes(m.timeoutMs, 4);
    var d, e := ToBytes(|m.service|, 4), ToBytes(|m.methodName|, 4);
    assert data == pre + (a + (b + c + d + e + pad + post));
    ReadAt(pre, m.requestId, 8, b + c + d + e + pad + post, data);
    assert data == (pre + a) + (b + (c + d + e + pad + post));
    ReadAt(pre + a, m.timestamp, 8, c + d + e + pad + post, data);
    assert data == (pre + a + b) + (c + (d + e + pad + post));
    ReadAt(pre + a + b, m.timeoutMs, 4, d + e + pad + post, data);
    assert data == (pre + a + b + c) + (d + (e + pad + post));
    ReadAt(pre + a + b + c, |m.service|, 4, e + pad + post, data);
    assert data == (pre + a + b + c + d) + (e + (pad + post));
    ReadAt(pre + a + b + c + d, |m.methodName|, 4, pad + post, data);
  }

  lemma ResponseMetaRoundTrip(m: Message, pre: seq<Byte>, post: seq<Byte>, data: seq<Byte>)
    requires |pre| == 16 && data == pre + (ResponseMetaBytes(m) + post)
    requires m.requestId < Pow256(8) && FitsSigned(m.errorCode, 4) && |m.errorMessage| < Pow256(4)
    ensures |data| >= 32
    ensures ReadInt(data, 16, 8) == m.requestId
    ensures AsSigned(ReadInt(data, 24, 4), 4) == m.errorCode && ReadInt(data, 28, 4) == |m.errorMessage|
  {
    hide ToBytes, FromBytes, Pow256, FitsSigned;
    var a, b, c := ToBytes(m.requestId, 8), ToBytes(m.errorCode, 4), ToBytes(|m.errorMessage|, 4);
    assert data == pre + (a + (b + c + post));
    ReadAt(pre, m.requestId, 8, b + c + post, data);
    assert data[24..28] == b;
    SignedRoundTrip(m.errorCode, 4);
    assert data == (pre + a + b) + (c + post);
    ReadAt(pre + a + b, |m.errorMessage|, 4, post, data);
  }

  /** The fields of a message that travel, within the widths they travel in. */
  predicate Sendable(m: Message) {
    && m.header == InitHeader(m.header.kind)
    && m.requestId < Pow256(8) && m.timestamp < Pow256(8) && m.timeoutMs < Pow256(4)
    && FitsSigned(m.errorCode, 4)
    && SizesFit(m)
    && (m.header.kind == REQUEST || m.header.kind == RESPONSE)
    && (m.header.kind == REQUEST ==> m.errorCode == OK && m.errorMessage == [])
    && (m.header.kind == RESPONSE ==>
          m.service == [] && m.methodName == [] && m.timeoutMs == 30000 && m.timestamp == 0)
  }

  /** The three ways to build a message all give one that can be sent, within the widths of the fields. */
  lemma RequestIsSendable(id: nat, service: Str, methodName: Str, payload: Str, timeoutMs: nat, clock: nat)
    requires id < Pow256(8) && clock < Pow256(8) && timeoutMs < Pow256(4)
    requires 32 + |service| + |methodName| < Pow256(4) && |payload| < Pow256(4)
    ensures Sendable(CreateRequest(id, service, methodName, payload, timeoutMs, clock))
  {
    Pow256Values();
  }

  lemma ResponseIsSendable(id: nat, payload: Str, error: int)
    requires id < Pow256(8) && |payload| < Pow256(4) && FitsSigned(error, 4)
    ensures Sendable(CreateResponse(id, payload, error))
  {
    Pow256Values();
  }

  lemma ErrorIsSendable(id: nat, error: int, text: Str)
    requires id < Pow256(8) && 16 + |text| < Pow256(4) && FitsSigned(error, 4)
    ensures Sendable(CreateError(id, error, text))
  {
    Pow256Values();
  }

  lemma HeaderInRange(m: Message)
    requires Sendable(m)
    ensures m.header.InRange()
  {
    Pow256Values();
  }

  lemma ThreeSlices(pre: seq<Byte>, a: seq<Byte>, b: seq<Byte>, c: seq<Byte>, rest: seq<Byte>, data: seq<Byte>)
    requires data == pre + (a + b + c + rest)
    ensures var i := |pre| + |a|; var j := i + |b|;
            |data| >= j + |c| && data[|pre|..i] == a && data[i..j] == b && data[j..j + |c|] == c
  {
  }

  lemma RequestFieldsParse(m: Message, pad: seq<Byte>, pre: seq<Byte>, rest: seq<Byte>, data: seq<Byte>, m0: Message)
    requires |pad| == 4 && |pre| == 16
    requires data == pre + (RequestMetaBytes(m, pad) + (m.service + m.methodName + m.payload + rest))
    requires m.requestId < Pow256(8) && m.timestamp < Pow256(8) && m.timeoutMs < Pow256(4)
    requires |m.service| < Pow256(4) && |m.methodName| < Pow256(4)
    requires m0 == Fresh().(header := m0.header) && m0.header.payloadLen == |m.payload|
    requires m.errorCode == OK && m.errorMessage == []
    ensures ParseRequest(data, m0) == Parsed(m.(header := m0.header))
  {
    hide RequestMetaBytes, ReadInt, Pow256, TakePayload;
    RequestMetaRoundTrip(m, pad, pre, m.service + m.methodName + m.payload + rest, data);
    var front := pre + RequestMetaBytes(m, pad);
    assert data == front + (m.service + m.methodName + m.payload + rest);
    ThreeSlices(front, m.service, m.methodName, m.payload, rest, data);
    PayloadParses(data, 48 + |m.service| + |m.methodName|, m.(header := m0.header, payload := []), m.payload);
  }

  lemma ResponseFieldsParse(m: Message, pre: seq<Byte>, rest: seq<Byte>, data: seq<Byte>, m0: Message)
    requires |pre| == 16
    requires data == pre + (ResponseMetaBytes(m) + (m.errorMessage + m.payload + rest))
    requires m.requestId < Pow256(8) && FitsSigned(m.errorCode, 4) && |m.errorMessage| < Pow256(4)
    requires m0 == Fresh().(header := m0.header) && m0.header.payloadLen == |m.payload|
    requires m.service == [] && m.methodName == [] && m.timeoutMs == 30000 && m.timestamp == 0
    ensures ParseResponse(data, m0) == Parsed(m.(header := m0.header))
  {
    hide ResponseMetaBytes, ReadInt, Pow256, TakePayload, FitsSigned, AsSigned;
    ResponseMetaRoundTrip(m, pre, m.errorMessage + m.payload + rest, data);
    var front := pre + ResponseMetaBytes(m);
    assert data == front + (m.errorMessage + m.payload + [] + rest);
    ThreeSlices(front, m.errorMessage, m.payload, [], rest, data);
    PayloadParses(data, 32 + |m.errorMessage|, m.(header := m0.header, payload := []), m.payload);
  }

  lemma RequestParses(m: Message, pad: seq<Byte>, rest: seq<Byte>)
    requires |pad| == 4 && Sendable(m) && m.header.kind == REQUEST
    ensures Deserialize(Serialize(m, pad) + rest, Fresh()) == Parsed(m.(header := SentHeader(m)))
  {
    hide HeaderBytes, RequestMetaBytes, ParseHeader, Pow256, ParseRequest, ParseResponse, TakePayload;
    var data := Serialize(m, pad) + rest;
    HeaderInRange(m);
    FrameHeader(m, pad, rest);
    TotalSizeIff(m, pad);
    SentLengths(m);
    var pre := HeaderBytes(SentHeader(m));
    assert data == pre + (RequestMetaBytes(m, pad) + (m.service + m.methodName + m.payload + rest));
    RequestFieldsParse(m, pad, pre, rest, data, Fresh().(header := SentHeader(m)));
  }

  lemma ResponseParses(m: Message, pad: seq<Byte>, rest: seq<Byte>)
    requires |pad| == 4 && Sendable(m) && m.header.kind == RESPONSE
    ensures Deserialize(Serialize(m, pad) + rest, Fresh()) == Parsed(m.(header := SentHeader(m)))
  {
    hide HeaderBytes, ResponseMetaBytes, ParseHeader, Pow256, ParseRequest, ParseResponse, TakePayload;
    var data := Serialize(m, pad) + rest;
    HeaderInRange(m);
    FrameHeader(m, pad, rest);
    TotalSizeIff(m, pad);
    SentLengths(m);
    var pre := HeaderBytes(SentHeader(m));
    assert data == pre + (ResponseMetaBytes(m) + (m.errorMessage + m.payload + rest));
    ResponseFieldsParse(m, pre, rest, data, Fresh().(header := SentHeader(m)));
  }

  lemma SentLengths(m: Message)
    requires SizesFit(m)
    ensures SentHeader(m).metaLen == MetaSize(m) && SentHeader(m).payloadLen == |m.payload|
  {
    ModKeepsIff(MetaSize(m), Pow256(4));
    ModKeepsIff(|m.payload|, Pow256(4));
  }

  lemma PayloadParses(data: seq<Byte>, at: nat, m: Message, payload: Str)
    requires at + |payload| <= |data| && data[at..at + |payload|] == payload
    requires m.payload == [] && m.header.payloadLen == |payload|
    ensures TakePayload(data, at, m) == Parsed(m.(payload := payload))
  {
  }

  /** Deserializing the bytes of a request, response or error message, followed by any other bytes, into
      a fresh message recovers every field, and `total_size()` is then the frame's length. */
  lemma FrameRoundTrip(m: Message, pad: seq<Byte>, rest: seq<Byte>)
    requires |pad| == 4 && Sendable(m)
    ensures Deserialize(Serialize(m, pad) + rest, Fresh()) == Parsed(m.(header := SentHeader(m)))
    ensures TotalSize(SentHeader(m)) == |Serialize(m, pad)|
  {
    hide Deserialize, Serialize, TotalSize;
    TotalSizeIff(m, pad);
    if m.header.kind == REQUEST {
      RequestParses(m, pad, rest);
    } else {
      ResponseParses(m, pad, rest);
    }
  }

  /** The bytes of a request, from the arguments it was made of: header, metadata, both names, payload. */
  lemma RequestLayout(id: nat, service: Str, methodName: Str, payload: Str, timeoutMs: nat, clock: nat, pad: seq<Byte>)
    requires |pad| == 4 && id < Pow256(8) && clock < Pow256(8) && timeoutMs < Pow256(4)
    requires 32 + |service| + |methodName| < Pow256(4) && |payload| < Pow256(4)
    ensures var f := Serialize(CreateRequest(id, service, methodName, payload, timeoutMs, clock), pad);
            var m := 48 + |service|;
            var p := m + |methodName|;
            && |f| == p + |payload|
            && ReadInt(f, 0, 2) == 0x5250 && ReadInt(f, 2, 1) == 1 && ReadInt(f, 3, 1) == 0
            && ReadInt(f, 4, 4) == p - 16 && ReadInt(f, 8, 4) == |payload| && ReadInt(f, 12, 4) == 0
            && ReadInt(f, 16, 8) == id && ReadInt(f, 24, 8) == clock && ReadInt(f, 32, 4) == timeoutMs
            && ReadInt(f, 36, 4) == |service| && ReadInt(f, 40, 4) == |methodName|
            && f[48..m] == service && f[m..p] == methodName && f[p..] == payload
  {
    hide HeaderBytes, RequestMetaBytes, ParseHeader, Pow256, ReadInt;
    var msg := CreateRequest(id, service, methodName, payload, timeoutMs, clock);
    var f := Serialize(msg, pad);
    RequestIsSendable(id, service, methodName, payload, timeoutMs, clock);
    HeaderInRange(msg);
    SentLengths(msg);
    FrameHeader(msg, pad, []);
    assert f + [] == f;
    var pre, meta := HeaderBytes(SentHeader(msg)), RequestMetaBytes(msg, pad);
    assert f == pre + (meta + (service + methodName + payload));
    RequestMetaRoundTrip(msg, pad, pre, service + methodName + payload, f);
    assert f == (pre + meta) + (service + methodName + payload + []);
    ThreeSlices(pre + meta, service, methodName, payload, [], f);
  }

  /** The bytes of a response or an error, from the message's fields. */
  lemma ResponseLayout(msg: Message, pad: seq<Byte>)
    requires |pad| == 4 && Sendable(msg) && msg.header.kind == RESPONSE
    ensures var f := Serialize(msg, pad);
            var p := 32 + |msg.errorMessage|;
            && |f| == p + |msg.payload|
            && ReadInt(f, 0, 2) == 0x5250 && ReadInt(f, 2, 1) == 1 && ReadInt(f, 3, 1) == 1
            && ReadInt(f, 4, 4) == p - 16 && ReadInt(f, 8, 4) == |msg.payload| && ReadInt(f, 12, 4) == 0
            && ReadInt(f, 16, 8) == msg.requestId && AsSigned(ReadInt(f, 24, 4), 4) == msg.errorCode
            && ReadInt(f, 28, 4) == |msg.errorMessage|
            && f[32..p] == msg.errorMessage && f[p..] == msg.payload
  {
    hide HeaderBytes, ResponseMetaBytes, ParseHeader, Pow256, ReadInt, AsSigned, FitsSigned;
    var f := Serialize(msg, pad);
    HeaderInRange(msg);
    SentLengths(msg);
    FrameHeader(msg, pad, []);
    assert f + [] == f;
    var pre, meta := HeaderBytes(SentHeader(msg)), ResponseMetaBytes(msg);
    assert f == pre + (meta + (msg.errorMessage + msg.payload));
    ResponseMetaRoundTrip(msg, pre, msg.errorMessage + msg.payload, f);
    assert f == (pre + meta) + (msg.errorMessage + msg.payload + [] + []);
    ThreeSlices(pre + meta, msg.errorMessage, msg.payload, [], [], f);
  }

  /** Deserializing the frame of a request gives back each argument in its own field. */
  lemma RequestArguments(id: nat, service: Str, methodName: Str, payload: Str, timeoutMs: nat, clock: nat,
                         pad: seq<Byte>, rest: seq<Byte>)
    requires |pad| == 4 && id < Pow256(8) && clock < Pow256(8) && timeoutMs < Pow256(4)
    requires 32 + |service| + |methodName| < Pow256(4) && |payload| < Pow256(4)
    ensures var r := Deserialize(Serialize(CreateRequest(id, service, methodName, payload, timeoutMs, clock), pad) + rest, Fresh());
            && r.Parsed? && r.msg.header.kind == 0 && r.msg.requestId == id
            && r.msg.service == service && r.msg.methodName == methodName && r.msg.payload == payload
            && r.msg.timeoutMs == timeoutMs && r.msg.timestamp == clock
            && r.msg.errorCode == 0 && r.msg.errorMessage == []
  {
    hide Deserialize, Serialize, Sendable;
    RequestIsSendable(id, service, methodName, payload, timeoutMs, clock);
    FrameRoundTrip(CreateRequest(id, service, methodName, payload, timeoutMs, clock), pad, rest);
  }

  /** The same for a response and for an error. */
  lemma ResponseArguments(id: nat, payload: Str, error: int, text: Str, pad: seq<Byte>, rest: seq<Byte>)
    requires |pad| == 4 && id < Pow256(8) && |payload| < Pow256(4) && FitsSigned(error, 4) && 16 + |text| < Pow256(4)
    ensures var r := Deserialize(Serialize(CreateResponse(id, payload, error), pad) + rest, Fresh());
            && r.Parsed? && r.msg.header.kind == 1 && r.msg.requestId == id
            && r.msg.errorCode == error && r.msg.errorMessage == [] && r.msg.payload == payload
    ensures var r := Deserialize(Serialize(CreateError(id, error, text), pad) + rest, Fresh());
            && r.Parsed? && r.msg.header.kind == 1 && r.msg.requestId == id
            && r.msg.errorCode == error && r.msg.errorMessage == text && r.msg.payload == []
  {
    hide Deserialize, Serialize, Sendable, FitsSigned;
    ResponseIsSendable(id, payload, error);
    FrameRoundTrip(CreateResponse(id, payload, error), pad, rest);
    ErrorIsSendable(id, error, text);
    FrameRoundTrip(CreateError(id, error, text), pad, rest);
  }

  /** `deserialize` refuses a byte string exactly if it is shorter than a header, does not start with the magic
      number, or is shorter than its header says. */
  lemma RejectedIff(data: seq<Byte>, m0: Message)
    ensures Deserialize(data, m0).Rejected? <==>
              || |data| < 16
              || ReadInt(data, 0, 2) != 0x5250
              || |data| < 16 + ReadInt(data, 4, 4) + ReadInt(data, 8, 4)
  {
    hide ReadInt, AsSigned;
  }

  /** A frame cut short anywhere is refused. */
  lemma TruncatedFrameRejected(m: Message, pad: seq<Byte>, k: nat)
    requires |pad| == 4 && Sendable(m) && k < |Serialize(m, pad)|
    ensures Deserialize(Serialize(m, pad)[..k], Fresh()) == Rejected
  {
    hide HeaderBytes, MetaBytes, ReadInt, ToBytes, FromBytes;
    var frame := Serialize(m, pad);
    HeaderInRange(m);
    TotalSizeIff(m, pad);
    FrameHeader(m, pad, []);
    assert frame + [] == frame;
    if k >= 16 {
      SameHeader(frame, k);
    }
  }

  lemma SameHeader(data: seq<Byte>, k: nat)
    requires 16 <= k <= |data|
    ensures ParseHeader(data[..k]) == ParseHeader(data)
  {
    var cut := data[..k];
    assert cut[0..2] == data[0..2] && cut[2..3] == data[2..3] && cut[3..4] == data[3..4];
    assert cut[4..8] == data[4..8] && cut[8..12] == data[8..12] && cut[12..16] == data[12..16];
  }

  // ---------------------------------------------------------------- the code

  method Append(buffer: array<Byte>, ptr: nat, src: seq<Byte>) returns (ptr': nat)
    requires ptr + |src| <= buffer.Length
    modifies buffer
    ensures ptr' == ptr + |src| && buffer[..ptr'] == old(buffer[..ptr]) + src
  {
    CopyBytes(buffer, ptr, src);
    ptr' := ptr + |src|;
    assert buffer[..ptr'] == buffer[..ptr] + buffer[ptr..ptr'];
  }

  method AppendMeta(buffer: array<Byte>, start: nat, m: Message, pad: seq<Byte>) returns (ptr: nat)
    requires |pad| == 4 && start + MetaSize(m) <= buffer.Length
    modifies buffer
    ensures ptr == start + MetaSize(m) && buffer[..ptr] == old(buffer[..start]) + MetaBytes(m, pad)
  {
    hide RequestMetaBytes, ResponseMetaBytes;
    if m.header.kind == REQUEST {
      ptr := Append(buffer, start, RequestMetaBytes(m, pad));
      ptr := Append(buffer, ptr, m.service);
      ptr := Append(buffer, ptr, m.methodName);
    } else {
      ptr := Append(buffer, start, ResponseMetaBytes(m));
      if m.errorMessage != [] {
        ptr := Append(buffer, ptr, m.errorMessage);
      }
    }
  }

  /** `serialize`: size the buffer, then fill it through an advancing pointer. */
  method SerializeMessage(m: Message, pad: seq<Byte>) returns (buffer: array<Byte>)
    requires |pad| == 4
    ensures buffer[..] == Serialize(m, pad)
  {
    hide HeaderBytes, MetaBytes, Pow256;
    var total := 16 + MetaSize(m) + |m.payload|;
    buffer := new Byte[total];
    var header := m.header.(metaLen := MetaSize(m) % Pow256(4), payloadLen := |m.payload| % Pow256(4));
    var ptr := Append(buffer, 0, HeaderBytes(header));
    ptr := AppendMeta(buffer, ptr, m, pad);
    if m.payload != [] {
      ptr := Append(buffer, ptr, m.payload);
    }
    assert buffer[..] == buffer[..ptr];
  }

  /** `deserialize`: fill the message through an advancing pointer. */
  method DeserializeMessage(data: seq<Byte>, initial: Message) returns (r: Parse)
    ensures r == Deserialize(data, initial)
  {
    hide ReadInt, AsSigned;
    if |data| < 16 {
      return Rejected;
    }
    var msg := initial.(header := ParseHeader(data));
    if msg.header.magic != MAGIC {
      return Rejected;
    }
    var expected := 16 + msg.header.metaLen + msg.header.payloadLen;
    if |data| < expected {
      return Rejected;
    }
    if msg.header.kind == REQUEST {
      r := DeserializeRequest(data, msg);
    } else if msg.header.kind == RESPONSE {
      r := DeserializeResponse(data, msg);
    } else {
      r := AssignPayload(data, 16, msg);
    }
  }

  method DeserializeRequest(data: seq<Byte>, initial: Message) returns (r: Parse)
    ensures r == ParseRequest(data, initial)
  {
    hide ReadInt, TakePayload;
    var msg, ptr := initial, 16;
    if |data| < ptr + 32 {
      return PastEnd;
    }
    msg := msg.(requestId := ReadInt(data, ptr, 8), timestamp := ReadInt(data, ptr + 8, 8),
                timeoutMs := ReadInt(data, ptr + 16, 4));
    var serviceLen, methodLen := ReadInt(data, ptr + 20, 4), ReadInt(data, ptr + 24, 4);
    ptr := ptr + 32;
    if |data| < ptr + serviceLen + methodLen {
      return PastEnd;
    }
    msg := msg.(service := data[ptr..ptr + serviceLen]);
    ptr := ptr + serviceLen;
    msg := msg.(methodName := data[ptr..ptr + methodLen]);
    ptr := ptr + methodLen;
    r := AssignPayload(data, ptr, msg);
  }

  method DeserializeResponse(data: seq<Byte>, initial: Message) returns (r: Parse)
    ensures r == ParseResponse(data, initial)
  {
    hide ReadInt, TakePayload, AsSigned;
    var msg, ptr := initial, 16;
    if |data| < ptr + 16 {
      return PastEnd;
    }
    msg := msg.(requestId := ReadInt(data, ptr, 8), errorCode := AsSigned(ReadInt(data, ptr + 8, 4), 4));
    var errorLen := ReadInt(data, ptr + 12, 4);
    ptr := ptr + 16;
    if errorLen > 0 {
      if |data| < ptr + errorLen {
        return PastEnd;
      }
      msg := msg.(errorMessage := data[ptr..ptr + errorLen]);
      ptr := ptr + errorLen;
    }
    r := AssignPayload(data, ptr, msg);
  }

  method AssignPayload(data: seq<Byte>, ptr: nat, initial: Message) returns (r: Parse)
    requires ptr <= |data|
    ensures r == TakePayload(data, ptr, initial)
  {
    var msg := initial;
    if msg.header.payloadLen > 0 {
      if |data| < ptr + msg.header.payloadLen {
        return PastEnd;
      }
      msg := msg.(payload := data[ptr..ptr + msg.header.payloadLen]);
    }
    return Parsed(msg);
  }
}
