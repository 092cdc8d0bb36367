/** The datagram codec (udp_wire.h): one framed message per request, each body preceded by its size and type. */
module UdpWire {
  import opened MatcherTypes
  import opened WireBytes

  const NEW_ORDER: int := 0
  const CANCEL_ORDER: int := 1
  const MESSAGE_HEADER_BYTES: nat := 14
  const REQUEST_HEADER_BYTES: nat := 6

  /** Every field is within its width on the wire. */
  predicate Fits(r: Request) {
    match r
    case NewOrder(msgId, order, _, instrumentId, limit, stop) =>
      && msgId < Pow256(8) && order.id < Pow256(8) && 0 <= 2 * order.lots + Pow256(8) < 2 * Pow256(8)
      && instrumentId < Pow256(8) && limit < Pow256(8) && stop < Pow256(8)
    case CancelOrder(msgId, toCancel, instrumentId) =>
      msgId < Pow256(8) && toCancel < Pow256(8) && instrumentId < Pow256(8)
  }

  function TypeCode(r: Request): int {
    if r.NewOrder? then NEW_ORDER else CANCEL_ORDER
  }

  /** The length of a body as its reader takes it: every type but a cancel is read as a new order. */
  function BodyLength(typeCode: int): nat {
    if typeCode == CANCEL_ORDER then 24 else 49
  }

  function BodyBytes(r: Request): (bytes: seq<byte>)
    requires Fits(r)
    ensures |bytes| == BodyLength(TypeCode(r))
  {
    match r
    case NewOrder(msgId, order, orderType, instrumentId, limit, stop) =>
      BigEndian(8, msgId) + BigEndian(8, order.id) + BigEndian(8, ToUnsigned(8, order.lots)) + [orderType]
      + BigEndian(8, instrumentId) + BigEndian(8, limit) + BigEndian(8, stop)
    case CancelOrder(msgId, toCancel, instrumentId) =>
      BigEndian(8, msgId) + BigEndian(8, toCancel) + BigEndian(8, instrumentId)
  }

  function U64(bytes: seq<byte>, at: nat): nat
    requires at + 8 <= |bytes|
  {
    FromBigEndian(bytes[at..at + 8])
  }

  function DecodedBody(bytes: seq<byte>, typeCode: int): Request
    requires |bytes| >= BodyLength(typeCode)
  {
    if typeCode == CANCEL_ORDER then CancelOrder(U64(bytes, 0), U64(bytes, 8), U64(bytes, 16))
    else NewOrder(U64(bytes, 0), Order(U64(bytes, 8), ToSigned(8, U64(bytes, 16))), bytes[24],
                  U64(bytes, 25), U64(bytes, 33), U64(bytes, 41))
  }

  /** A message: size and type of the body, the body, and padding counted in the size. */
  datatype Message = Message(request: Request, padding: seq<byte>) {
    predicate Ok() {
      Fits(request) && BodyLength(TypeCode(request)) + |padding| < Pow256(2)
    }

    function Bytes(): seq<byte>
      requires Ok()
    {
      var body := BodyBytes(request);
      BigEndian(2, |body| + |padding|) + BigEndian(4, ToUnsigned(4, TypeCode(request))) + body + padding
    }
  }

  predicate MessagesOk(messages: seq<Message>) {
    messages == [] || (messages[0].Ok() && MessagesOk(messages[1..]))
  }

  function MessagesBytes(messages: seq<Message>): seq<byte>
    requires MessagesOk(messages)
  {
    if messages == [] then [] else messages[0].Bytes() + MessagesBytes(messages[1..])
  }

  function Requests(messages: seq<Message>): seq<Request> {
    seq(|messages|, i requires 0 <= i < |messages| => messages[i].request)
  }

  function HeaderBytes(seqnum: nat, count: nat, timestamp: int): (bytes: seq<byte>)
    requires seqnum < Pow256(2) && count < Pow256(4) && 0 <= 2 * timestamp + Pow256(8) < 2 * Pow256(8)
    ensures |bytes| == MESSAGE_HEADER_BYTES
  {
    BigEndian(2, seqnum) + BigEndian(4, count) + BigEndian(8, ToUnsigned(8, timestamp))
  }

  // Decoding

  function SizeAt(bytes: seq<byte>): nat
    requires |bytes| >= REQUEST_HEADER_BYTES
  {
    FromBigEndian(bytes[..2])
  }

  function TypeAt(bytes: seq<byte>): int
    requires |bytes| >= REQUEST_HEADER_BYTES
  {
    ToSigned(4, FromBigEndian(bytes[2..6]))
  }

  /** The bytes hold n messages: each body can be read, and each declared size leads to the next message. */
  predicate Readable(bytes: seq<byte>, n: nat) {
    n == 0 ||
    (&& |bytes| >= REQUEST_HEADER_BYTES
     && |bytes| >= REQUEST_HEADER_BYTES + BodyLength(TypeAt(bytes))
     && (n == 1 ||
         (&& |bytes| >= REQUEST_HEADER_BYTES + SizeAt(bytes)
          && Readable(bytes[REQUEST_HEADER_BYTES + SizeAt(bytes)..], n - 1))))
  }

  function Decoded(bytes: seq<byte>, n: nat): (rs: seq<Request>)
    requires Readable(bytes, n)
    ensures |rs| == n
  {
    if n == 0 then []
    else
      [DecodedBody(bytes[REQUEST_HEADER_BYTES..], TypeAt(bytes))]
      + (if n == 1 then [] else Decoded(bytes[REQUEST_HEADER_BYTES + SizeAt(bytes)..], n - 1))
  }

  // The layout, place by place

  lemma {:induction false} NewOrderLayout(r: Request, tail: seq<byte>)
    requires Fits(r) && r.NewOrder?
    ensures var bytes := BodyBytes(r) + tail;
            && TypeCode(r) == 0 && |BodyBytes(r)| == 49
            && bytes[0..8] == BigEndian(8, r.msgId) && bytes[8..16] == BigEndian(8, r.order.id)
            && bytes[16..24] == BigEndian(8, ToUnsigned(8, r.order.lots)) && bytes[24] == r.orderType
            && bytes[25..33] == BigEndian(8, r.instrumentId)
            && bytes[33..41] == BigEndian(8, r.limit) && bytes[41..49] == BigEndian(8, r.stop)
  {
  }

  lemma {:induction false} CancelLayout(r: Request, tail: seq<byte>)
    requires Fits(r) && r.CancelOrder?
    ensures var bytes := BodyBytes(r) + tail;
            && TypeCode(r) == 1 && |BodyBytes(r)| == 24
            && bytes[0..8] == BigEndian(8, r.msgId) && bytes[8..16] == BigEndian(8, r.toCancel)
            && bytes[16..24] == BigEndian(8, r.instrumentId)
  {
  }

  /** A message is the size of its body and padding, its type, the body and the padding. */
  lemma {:induction false} MessageLayout(m: Message)
    requires m.Ok()
    ensures var bytes, body := m.Bytes(), BodyBytes(m.request);
            && |bytes| == 6 + |body| + |m.padding|
            && bytes[0..2] == BigEndian(2, |body| + |m.padding|)
            && bytes[2..6] == BigEndian(4, if m.request.NewOrder? then 0 else 1)
            && bytes[6..6 + |body|] == body && bytes[6 + |body|..] == m.padding
  {
  }

  /** A header is the sequence number, the number of messages and the time. */
  lemma {:induction false} HeaderLayout(seqnum: nat, count: nat, timestamp: int)
    requires seqnum < Pow256(2) && count < Pow256(4) && 0 <= 2 * timestamp + Pow256(8) < 2 * Pow256(8)
    ensures var bytes := HeaderBytes(seqnum, count, timestamp);
            && |bytes| == 14
            && bytes[0..2] == BigEndian(2, seqnum) && bytes[2..6] == BigEndian(4, count)
            && bytes[6..14] == BigEndian(8, ToUnsigned(8, timestamp))
  {
  }

  /** Every type but a cancel is read as a new order. */
  lemma {:induction false} OtherTypesAreOrders(bytes: seq<byte>, typeCode: int)
    requires typeCode != 1 && |bytes| >= 49
    ensures BodyLength(typeCode) == 49 && DecodedBody(bytes, typeCode) == DecodedBody(bytes, 0)
  {
  }

  /** A body is read back whatever follows it. */
  lemma {:induction false} BodyRoundTrip(r: Request, tail: seq<byte>)
    requires Fits(r)
    ensures DecodedBody(BodyBytes(r) + tail, TypeCode(r)) == r
  {
    match r
    case NewOrder(msgId, order, _, instrumentId, limit, stop) =>
      NewOrderLayout(r, tail);
      ValueRoundTrip(8, msgId);
      ValueRoundTrip(8, order.id);
      ValueRoundTrip(8, ToUnsigned(8, order.lots));
      ValueRoundTrip(8, instrumentId);
      ValueRoundTrip(8, limit);
      ValueRoundTrip(8, stop);
      SignedRoundTrip(8, order.lots);
    case CancelOrder(msgId, toCancel, instrumentId) =>
      CancelLayout(r, tail);
      ValueRoundTrip(8, msgId);
      ValueRoundTrip(8, toCancel);
      ValueRoundTrip(8, instrumentId);
  }

  /** Where the parts of a message are. */
  lemma {:induction false} Slices(size: seq<byte>, code: seq<byte>, body: seq<byte>, padding: seq<byte>,
                                  tail: seq<byte>)
    requires |size| == 2 && |code| == 4
    ensures var bytes := size + code + body + padding + tail;
            && bytes[..2] == size && bytes[2..6] == code
            && bytes[REQUEST_HEADER_BYTES..] == body + (padding + tail)
            && bytes[REQUEST_HEADER_BYTES + (|body| + |padding|)..] == tail
  {
  }

  /** What a reader finds in a frame. */
  lemma {:induction false} FrameRoundTrip(size: seq<byte>, code: seq<byte>, body: seq<byte>, padding: seq<byte>,
                                          tail: seq<byte>, typeCode: int)
    requires |size| == 2 && FromBigEndian(size) == |body| + |padding|
    requires |code| == 4 && ToSigned(4, FromBigEndian(code)) == typeCode
    ensures var bytes := size + code + body + padding + tail;
            && |bytes| >= REQUEST_HEADER_BYTES && SizeAt(bytes) == |body| + |padding| && TypeAt(bytes) == typeCode
            && bytes[REQUEST_HEADER_BYTES..] == body + (padding + tail)
            && bytes[REQUEST_HEADER_BYTES + SizeAt(bytes)..] == tail
  {
    Slices(size, code, body, padding, tail);
  }

  /** One frame in front of n - 1 readable messages. */
  lemma {:induction false} DecodeFrame(size: seq<byte>, code: seq<byte>, body: seq<byte>, padding: seq<byte>,
                                       rest: seq<byte>, r: Request, n: nat)
    requires |size| == 2 && FromBigEndian(size) == |body| + |padding|
    requires |code| == 4 && ToSigned(4, FromBigEndian(code)) == TypeCode(r)
    requires |body| == BodyLength(TypeCode(r)) && DecodedBody(body + (padding + rest), TypeCode(r)) == r
    requires n >= 1 && Readable(rest, n - 1)
    ensures Readable(size + code + body + padding + rest, n)
    ensures Decoded(size + code + body + padding + rest, n) == [r] + Decoded(rest, n - 1)
  {
    FrameRoundTrip(size, code, body, padding, rest, TypeCode(r));
  }

  /** The bytes of a message are a frame that a reader reads back. */
  lemma {:induction false} MessageIsFrame(m: Message)
    requires m.Ok()
    ensures var (size, code) := SizeAndCode(m);
            && m.Bytes() == size + code + BodyBytes(m.request) + m.padding
            && |size| == 2 && FromBigEndian(size) == |BodyBytes(m.request)| + |m.padding|
            && |code| == 4 && ToSigned(4, FromBigEndian(code)) == TypeCode(m.request)
  {
    ValueRoundTrip(2, |BodyBytes(m.request)| + |m.padding|);
    ValueRoundTrip(4, ToUnsigned(4, TypeCode(m.request)));
    SignedRoundTrip(4, TypeCode(m.request));
  }

  function SizeAndCode(m: Message): (seq<byte>, seq<byte>)
    requires m.Ok()
  {
    (BigEndian(2, |BodyBytes(m.request)| + |m.padding|), BigEndian(4, ToUnsigned(4, TypeCode(m.request))))
  }

  /** One message in front of n readable ones. */
  lemma {:induction false} DecodeOne(m: Message, first: seq<byte>, rest: seq<byte>, n: nat)
    requires m.Ok() && first == m.Bytes() && Readable(rest, n)
    ensures Readable(first + rest, n + 1) && Decoded(first + rest, n + 1) == [m.request] + Decoded(rest, n)
  {
    MessageIsFrame(m);
    BodyRoundTrip(m.request, m.padding + rest);
    var (size, code) := SizeAndCode(m);
    DecodeFrame(size, code, BodyBytes(m.request), m.padding, rest, m.request, n + 1);
  }

  lemma {:induction false} RequestsCons(messages: seq<Message>)
    requires messages != []
    ensures Requests(messages) == [messages[0].request] + Requests(messages[1..])
  {
  }

  lemma {:induction false} MessagesCons(messages: seq<Message>, tail: seq<byte>)
    requires MessagesOk(messages) && messages != []
    ensures messages == [messages[0]] + messages[1..]
    ensures MessagesBytes(messages) + tail == messages[0].Bytes() + (MessagesBytes(messages[1..]) + tail)
  {
  }

  /** The bytes can be read as n messages, and hold the requests of these ones. */
  ghost predicate DecodesTo(bytes: seq<byte>, n: nat, messages: seq<Message>) {
    Readable(bytes, n) && Decoded(bytes, n) == Requests(messages)
  }

  /** One more message in front. */
  lemma {:induction false} MessagesStep(first: Message, behind: seq<Message>, rest: seq<byte>, n: nat)
    requires first.Ok() && n == |behind|
    ensures DecodesTo(rest, n, behind) ==> DecodesTo(first.Bytes() + rest, n + 1, [first] + behind)
  {
    if DecodesTo(rest, n, behind) {
      RequestsCons([first] + behind);
      DecodeOne(first, first.Bytes(), rest, n);
    }
  }

  /** As MessagesRoundTrip, for bytes and a number known by other names. */
  lemma {:induction false} RoundTripOf(messages: seq<Message>, tail: seq<byte>, bytes: seq<byte>, n: nat)
    requires MessagesOk(messages) && bytes == MessagesBytes(messages) + tail && n == |messages|
    ensures DecodesTo(bytes, n, messages)
    decreases n
  {
    if n == 0 {
      assert Requests(messages) == [];
    } else {
      var first, behind := messages[0], messages[1..];
      var rest := MessagesBytes(behind) + tail;
      RoundTripOf(behind, tail, rest, n - 1);
      MessagesStep(first, behind, rest, n - 1);
      MessagesCons(messages, tail);
    }
  }

  /** Any messages, padded or not, one after the other and with anything behind them, decode to their requests. */
  lemma {:induction false} MessagesRoundTrip(messages: seq<Message>, tail: seq<byte>)
    requires MessagesOk(messages)
    ensures Readable(MessagesBytes(messages) + tail, |messages|)
    ensures Decoded(MessagesBytes(messages) + tail, |messages|) == Requests(messages)
  {
    RoundTripOf(messages, tail, MessagesBytes(messages) + tail, |messages|);
  }
}
