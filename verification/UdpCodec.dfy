/** The codec's procedures over a byte buffer, proved against the formats of module UdpWire. */
module UdpCodec {
  import opened MatcherTypes
  import opened WireBytes
  import opened UdpWire

  /** A datagram: header and messages. */
  function DatagramBytes(seqnum: nat, timestamp: int, messages: seq<Message>): seq<byte>
    requires seqnum < Pow256(2) && 0 <= 2 * timestamp + Pow256(8) < 2 * Pow256(8)
    requires |messages| < Pow256(4) && MessagesOk(messages)
  {
    HeaderBytes(seqnum, |messages|, timestamp) + MessagesBytes(messages)
  }

  lemma {:induction false} DatagramLayout(seqnum: nat, timestamp: int, messages: seq<Message>)
    requires seqnum < Pow256(2) && 0 <= 2 * timestamp + Pow256(8) < 2 * Pow256(8)
    requires |messages| < Pow256(4) && MessagesOk(messages)
    ensures var bytes := DatagramBytes(seqnum, timestamp, messages);
            && |bytes| >= 14 && bytes[0..2] == BigEndian(2, seqnum) && bytes[2..6] == BigEndian(4, |messages|)
            && bytes[6..14] == BigEndian(8, ToUnsigned(8, timestamp)) && bytes[14..] == MessagesBytes(messages)
  {
    HeaderLayout(seqnum, |messages|, timestamp);
    var header := HeaderBytes(seqnum, |messages|, timestamp);
    var bytes := DatagramBytes(seqnum, timestamp, messages);
    assert bytes[0..2] == header[0..2] && bytes[2..6] == header[2..6] && bytes[6..14] == header[6..14];
  }

  /** The number of messages a datagram's header announces. */
  function CountAt(bytes: seq<byte>): nat
    requires |bytes| >= MESSAGE_HEADER_BYTES
  {
    FromBigEndian(bytes[2..6])
  }

  lemma {:induction false} CountRoundTrip(seqnum: nat, count: nat, timestamp: int, tail: seq<byte>)
    requires seqnum < Pow256(2) && count < Pow256(4) && 0 <= 2 * timestamp + Pow256(8) < 2 * Pow256(8)
    ensures var bytes := HeaderBytes(seqnum, count, timestamp) + tail;
            CountAt(bytes) == count && bytes[MESSAGE_HEADER_BYTES..] == tail
  {
    var bytes := HeaderBytes(seqnum, count, timestamp) + tail;
    assert bytes[2..6] == BigEndian(4, count);
    ValueRoundTrip(4, count);
  }

  /** Any datagram, with anything behind it, announces its messages and decodes to their requests, in order. */
  lemma {:induction false} DatagramRoundTrip(seqnum: nat, timestamp: int, messages: seq<Message>, tail: seq<byte>)
    requires seqnum < Pow256(2) && 0 <= 2 * timestamp + Pow256(8) < 2 * Pow256(8)
    requires |messages| < Pow256(4) && MessagesOk(messages)
    ensures var bytes := DatagramBytes(seqnum, timestamp, messages) + tail;
            && |bytes| >= MESSAGE_HEADER_BYTES && CountAt(bytes) == |messages|
            && Readable(bytes[MESSAGE_HEADER_BYTES..], |messages|)
            && Decoded(bytes[MESSAGE_HEADER_BYTES..], |messages|) == Requests(messages)
  {
    var header, body := HeaderBytes(seqnum, |messages|, timestamp), MessagesBytes(messages);
    assert header + body + tail == header + (body + tail);
    CountRoundTrip(seqnum, |messages|, timestamp, body + tail);
    MessagesRoundTrip(messages, tail);
  }

  lemma {:induction false} OneByte(v: byte)
    ensures BigEndian(1, v) == [v]
  {
    assert BigEndian(0, 0) == [];
  }

  /** Put one more integer behind what was written from start on. */
  method PutNext(buf: array<byte>, start: nat, p: nat, width: nat, v: nat, bigHost: bool,
                 ghost before: seq<byte>, ghost bytes: seq<byte>)
    returns (next: nat)
    requires p + width <= buf.Length && v < Pow256(width)
    requires p == start + |bytes| && Wrote(before, buf[..], start, bytes)
    modifies buf
    ensures next == p + width && Wrote(before, buf[..], start, bytes + BigEndian(width, v))
  {
    ghost var was := buf[..];
    next := Put(buf, p, width, v, bigHost);
    WroteThen(before, was, buf[..], start, bytes, BigEndian(width, v));
  }

  method PutByte(buf: array<byte>, start: nat, p: nat, v: byte, bigHost: bool, ghost before: seq<byte>,
                 ghost bytes: seq<byte>)
    returns (next: nat)
    requires p + 1 <= buf.Length
    requires p == start + |bytes| && Wrote(before, buf[..], start, bytes)
    modifies buf
    ensures next == p + 1 && Wrote(before, buf[..], start, bytes + [v])
  {
    OneByte(v);
    next := PutNext(buf, start, p, 1, v, bigHost, before, bytes);
  }

  method EncodeNewOrder(buf: array<byte>, start: nat, r: Request, bigHost: bool) returns (next: nat)
    requires r.NewOrder? && Fits(r) && start + BodyLength(NEW_ORDER) <= buf.Length
    modifies buf
    ensures next == start + |BodyBytes(r)| && Wrote(old(buf[..]), buf[..], start, BodyBytes(r))
  {
    ghost var before := buf[..];
    var lots := ToUnsigned(8, r.order.lots);
    ghost var b1: seq<byte> := BigEndian(8, r.msgId);
    ghost var b2: seq<byte> := b1 + BigEndian(8, r.order.id);
    ghost var b3: seq<byte> := b2 + BigEndian(8, lots);
    ghost var b4: seq<byte> := b3 + [r.orderType];
    ghost var b5: seq<byte> := b4 + BigEndian(8, r.instrumentId);
    ghost var b6: seq<byte> := b5 + BigEndian(8, r.limit);
    var p := Put(buf, start, 8, r.msgId, bigHost);
    p := PutNext(buf, start, p, 8, r.order.id, bigHost, before, b1);
    p := PutNext(buf, start, p, 8, lots, bigHost, before, b2);
    p := PutByte(buf, start, p, r.orderType, bigHost, before, b3);
    p := PutNext(buf, start, p, 8, r.instrumentId, bigHost, before, b4);
    p := PutNext(buf, start, p, 8, r.limit, bigHost, before, b5);
    next := PutNext(buf, start, p, 8, r.stop, bigHost, before, b6);
  }

  method EncodeCancel(buf: array<byte>, start: nat, r: Request, bigHost: bool) returns (next: nat)
    requires r.CancelOrder? && Fits(r) && start + BodyLength(CANCEL_ORDER) <= buf.Length
    modifies buf
    ensures next == start + |BodyBytes(r)| && Wrote(old(buf[..]), buf[..], start, BodyBytes(r))
  {
    ghost var before := buf[..];
    ghost var b1: seq<byte> := BigEndian(8, r.msgId);
    ghost var b2: seq<byte> := b1 + BigEndian(8, r.toCancel);
    var p := Put(buf, start, 8, r.msgId, bigHost);
    p := PutNext(buf, start, p, 8, r.toCancel, bigHost, before, b1);
    next := PutNext(buf, start, p, 8, r.instrumentId, bigHost, before, b2);
  }

  /** Write the fields of a request in wire order, and say which type they are. */
  method EncodeBody(buf: array<byte>, start: nat, r: Request, bigHost: bool) returns (typeCode: int, next: nat)
    requires Fits(r) && start + BodyLength(TypeCode(r)) <= buf.Length
    modifies buf
    ensures typeCode == TypeCode(r) && next == start + |BodyBytes(r)|
    ensures Wrote(old(buf[..]), buf[..], start, BodyBytes(r))
  {
    if r.NewOrder? {
      typeCode := NEW_ORDER;
      next := EncodeNewOrder(buf, start, r, bigHost);
    } else {
      typeCode := CANCEL_ORDER;
      next := EncodeCancel(buf, start, r, bigHost);
    }
  }

  method EncodeHeader(buf: array<byte>, seqnum: nat, count: nat, timestamp: int, bigHost: bool) returns (p: nat)
    requires buf.Length >= MESSAGE_HEADER_BYTES
    requires seqnum < Pow256(2) && count < Pow256(4) && 0 <= 2 * timestamp + Pow256(8) < 2 * Pow256(8)
    modifies buf
    ensures p == MESSAGE_HEADER_BYTES && Wrote(old(buf[..]), buf[..], 0, HeaderBytes(seqnum, count, timestamp))
  {
    ghost var before := buf[..];
    p := Put(buf, 0, 2, seqnum, bigHost);
    p := PutNext(buf, 0, p, 4, count, bigHost, before, BigEndian(2, seqnum));
    p := PutNext(buf, 0, p, 8, ToUnsigned(8, timestamp), bigHost, before, BigEndian(2, seqnum) + BigEndian(4, count));
  }

  /** The size and type in front of a body. */
  function RequestHeaderBytes(size: nat, typeCode: int): (bytes: seq<byte>)
    requires size < Pow256(2) && 0 <= 2 * typeCode + Pow256(4) < 2 * Pow256(4)
    ensures |bytes| == REQUEST_HEADER_BYTES
  {
    BigEndian(2, size) + BigEndian(4, ToUnsigned(4, typeCode))
  }

  method EncodeRequestHeader(buf: array<byte>, reqHeaderAt: nat, size: nat, typeCode: int, bigHost: bool)
    requires reqHeaderAt + REQUEST_HEADER_BYTES <= buf.Length
    requires size < Pow256(2) && 0 <= 2 * typeCode + Pow256(4) < 2 * Pow256(4)
    modifies buf
    ensures Wrote(old(buf[..]), buf[..], reqHeaderAt, RequestHeaderBytes(size, typeCode))
  {
    ghost var before := buf[..];
    var hp := Put(buf, reqHeaderAt, 2, size, bigHost);
    hp := PutNext(buf, reqHeaderAt, hp, 4, ToUnsigned(4, typeCode), bigHost, before, BigEndian(2, size));
  }

  /** The body first, then the request header in front of it. */
  method EncodeMessage(buf: array<byte>, reqHeaderAt: nat, r: Request, bigHost: bool) returns (next: nat)
    requires Fits(r) && Message(r, []).Ok()
    requires reqHeaderAt + REQUEST_HEADER_BYTES + BodyLength(TypeCode(r)) <= buf.Length
    modifies buf
    ensures next == reqHeaderAt + |Message(r, []).Bytes()|
    ensures Wrote(old(buf[..]), buf[..], reqHeaderAt, Message(r, []).Bytes())
  {
    ghost var before := buf[..];
    var bodyStart := reqHeaderAt + REQUEST_HEADER_BYTES;
    var typeCode;
    typeCode, next := EncodeBody(buf, bodyStart, r, bigHost);
    ghost var withBody := buf[..];
    ghost var header := RequestHeaderBytes(next - bodyStart, typeCode);
    EncodeRequestHeader(buf, reqHeaderAt, next - bodyStart, typeCode, bigHost);
    WroteBefore(before, withBody, buf[..], reqHeaderAt, header, BodyBytes(r));
    assert Message(r, []).Bytes() == header + BodyBytes(r);
  }

  /** One framed request; the clock reading is a parameter. */
  method EncodeDatagram(buf: array<byte>, seqnum: nat, r: Request, now: int, bigHost: bool) returns (length: nat)
    requires Fits(r) && seqnum < Pow256(2) && 0 <= 2 * now + Pow256(8) < 2 * Pow256(8)
    requires buf.Length >= MESSAGE_HEADER_BYTES + REQUEST_HEADER_BYTES + BodyLength(TypeCode(r))
    modifies buf
    ensures Message(r, []).Ok() && length <= buf.Length
    ensures buf[..length] == DatagramBytes(seqnum, now, [Message(r, [])])
    ensures buf[length..] == old(buf[length..])
  {
    ghost var before := buf[..];
    var p := EncodeHeader(buf, seqnum, 1, now, bigHost);
    ghost var withHeader := buf[..];
    length := EncodeMessage(buf, p, r, bigHost);
    WroteThen(before, withHeader, buf[..], 0, HeaderBytes(seqnum, 1, now), Message(r, []).Bytes());
    OneMessage(r);
  }

  lemma {:induction false} OneMessage(r: Request)
    requires Fits(r)
    ensures Message(r, []).Ok() && MessagesBytes([Message(r, [])]) == Message(r, []).Bytes()
  {
    var one := [Message(r, [])];
    assert one[1..] == [];
  }

  /** The end-of-stream datagram: a header that announces nothing. */
  method EncodeSentinel(buf: array<byte>, seqnum: nat, bigHost: bool) returns (length: nat)
    requires seqnum < Pow256(2) && buf.Length >= MESSAGE_HEADER_BYTES
    modifies buf
    ensures length == MESSAGE_HEADER_BYTES && buf[..length] == DatagramBytes(seqnum, 0, [])
    ensures buf[length..] == old(buf[length..])
  {
    length := EncodeHeader(buf, seqnum, 0, 0, bigHost);
  }

  /** Read one integer at an offset of the bytes from start on. */
  method GetAt(buf: array<byte>, start: nat, p: nat, bigHost: bool) returns (v: nat, next: nat)
    requires start <= p && p + 8 <= buf.Length
    ensures next == p + 8 && v == U64(buf[start..], p - start)
  {
    v, next := Get(buf, p, 8, bigHost);
    assert buf[p..p + 8] == buf[start..][p - start..p - start + 8];
  }

  method DecodeBody(buf: array<byte>, start: nat, typeCode: int, bigHost: bool) returns (r: Request)
    requires start + BodyLength(typeCode) <= buf.Length
    ensures r == DecodedBody(buf[start..], typeCode)
  {
    var msgId, p := GetAt(buf, start, start, bigHost);
    if typeCode == CANCEL_ORDER {
      var toCancel, instrumentId;
      toCancel, p := GetAt(buf, start, p, bigHost);
      instrumentId, p := GetAt(buf, start, p, bigHost);
      return CancelOrder(msgId, toCancel, instrumentId);
    }
    var id, lots, orderType, instrumentId, limit, stop;
    id, p := GetAt(buf, start, p, bigHost);
    lots, p := GetAt(buf, start, p, bigHost);
    orderType := buf[p];
    p := p + 1;
    instrumentId, p := GetAt(buf, start, p, bigHost);
    limit, p := GetAt(buf, start, p, bigHost);
    stop, p := GetAt(buf, start, p, bigHost);
    return NewOrder(msgId, Order(id, ToSigned(8, lots)), orderType, instrumentId, limit, stop);
  }

  /** Decode every message, in order; false when the header announces none. */
  method DecodeDatagram(buf: array<byte>, bigHost: bool) returns (more: bool, requests: seq<Request>)
    requires buf.Length >= MESSAGE_HEADER_BYTES
    requires Readable(buf[MESSAGE_HEADER_BYTES..], CountAt(buf[..]))
    ensures more <==> CountAt(buf[..]) != 0
    ensures requests == Decoded(buf[MESSAGE_HEADER_BYTES..], CountAt(buf[..]))
  {
    var seqnum, numOfMessages, timestamp;
    var p: nat;
    seqnum, p := Get(buf, 0, 2, bigHost);
    numOfMessages, p := Get(buf, p, 4, bigHost);
    assert buf[2..6] == buf[..][2..6];
    timestamp, p := Get(buf, p, 8, bigHost);
    if numOfMessages == 0 {
      return false, [];
    }
    ghost var all := Decoded(buf[MESSAGE_HEADER_BYTES..], numOfMessages);
    assert buf[MESSAGE_HEADER_BYTES..] == buf[..][MESSAGE_HEADER_BYTES..];
    PendingStart(buf[..], p, numOfMessages, all);
    requests := DecodeMessages(buf, p, numOfMessages, bigHost, all);
    more := true;
  }

  /** With done decoded and left messages from p on, all is what will have been decoded. */
  ghost predicate Pending(bytes: seq<byte>, p: nat, left: nat, done: seq<Request>, all: seq<Request>) {
    if left == 0 then done == all
    else p <= |bytes| && Readable(bytes[p..], left) && done + Decoded(bytes[p..], left) == all
  }

  lemma {:induction false} PendingStart(bytes: seq<byte>, start: nat, n: nat, all: seq<Request>)
    requires start <= |bytes| && Readable(bytes[start..], n) && all == Decoded(bytes[start..], n)
    ensures Pending(bytes, start, n, [], all)
  {
    assert [] + all == all;
  }

  /** The loop over the messages. */
  method DecodeMessages(buf: array<byte>, start: nat, numOfMessages: nat, bigHost: bool, ghost all: seq<Request>)
    returns (requests: seq<Request>)
    requires Pending(buf[..], start, numOfMessages, [], all)
    ensures requests == all
  {
    requests := [];
    var p: nat := start;
    for m := 0 to numOfMessages
      invariant Pending(buf[..], p, numOfMessages - m, requests, all)
    {
      var r;
      r, p := DecodeNext(buf, p, bigHost, numOfMessages - m, requests, all);
      requests := requests + [r];
    }
  }

  /** One message: its request, and where its declared size says the next one is. */
  method DecodeNext(buf: array<byte>, at: nat, bigHost: bool, ghost left: nat, ghost done: seq<Request>,
                    ghost all: seq<Request>)
    returns (r: Request, next: nat)
    requires left > 0 && Pending(buf[..], at, left, done, all)
    ensures Pending(buf[..], next, left - 1, done + [r], all)
  {
    ghost var bytes := buf[..];
    SubSlices(bytes, at);
    var bodySize, p := Get(buf, at, 2, bigHost);
    var code;
    code, p := Get(buf, p, 4, bigHost);
    assert buf[at..at + 2] == bytes[at..at + 2] && buf[at + 2..at + 6] == bytes[at + 2..at + 6];
    r := DecodeBody(buf, p, ToSigned(4, code), bigHost);
    assert buf[p..] == bytes[p..];
    next := p + bodySize;
    PendingStep(bytes, at, left, done, all, r, next);
  }

  lemma {:induction false} PendingStep(bytes: seq<byte>, at: nat, left: nat, done: seq<Request>, all: seq<Request>,
                                       r: Request, next: nat)
    requires left > 0 && Pending(bytes, at, left, done, all)
    requires r == DecodedBody(bytes[at..][REQUEST_HEADER_BYTES..], TypeAt(bytes[at..]))
    requires next == at + REQUEST_HEADER_BYTES + SizeAt(bytes[at..])
    ensures Pending(bytes, next, left - 1, done + [r], all)
  {
    if left > 1 {
      SuffixOfSuffix(bytes, at, next - at);
      Reassociate(done, r, Decoded(bytes[at..][next - at..], left - 1));
    }
  }

  lemma {:induction false} Reassociate(a: seq<Request>, r: Request, b: seq<Request>)
    ensures a + ([r] + b) == (a + [r]) + b
  {
  }

  lemma {:induction false} SubSlices(bytes: seq<byte>, at: nat)
    requires at + REQUEST_HEADER_BYTES <= |bytes|
    ensures bytes[at..][..2] == bytes[at..at + 2] && bytes[at..][2..6] == bytes[at + 2..at + 6]
    ensures bytes[at..][REQUEST_HEADER_BYTES..] == bytes[at + REQUEST_HEADER_BYTES..]
  {
  }

  lemma {:induction false} SuffixOfSuffix(bytes: seq<byte>, at: nat, k: nat)
    requires at + k <= |bytes|
    ensures bytes[at..][k..] == bytes[at + k..]
  {
  }

  /** What one side encodes the other decodes, whatever the byte order of either host. */
  method Transmit(buf: array<byte>, seqnum: nat, r: Request, now: int, senderBig: bool, receiverBig: bool)
    returns (more: bool, requests: seq<Request>)
    requires Fits(r) && seqnum < Pow256(2) && 0 <= 2 * now + Pow256(8) < 2 * Pow256(8)
    requires buf.Length >= MESSAGE_HEADER_BYTES + REQUEST_HEADER_BYTES + BodyLength(TypeCode(r))
    modifies buf
    ensures more && requests == [r]
  {
    var length := EncodeDatagram(buf, seqnum, r, now, senderBig);
    ghost var messages := [Message(r, [])];
    DatagramRoundTrip(seqnum, now, messages, buf[length..]);
    assert buf[..] == DatagramBytes(seqnum, now, messages) + buf[length..];
    assert buf[..][MESSAGE_HEADER_BYTES..] == buf[MESSAGE_HEADER_BYTES..];
    more, requests := DecodeDatagram(buf, receiverBig);
    assert Requests(messages) == [r];
  }
}
