/** Modbus/TCP application data units as byte strings: the seven-byte MBAP header (section 3.1.3
    of the MODBUS Messaging on TCP/IP Implementation Guide V1.0b) followed by a protocol data
    unit, and what the two ends make of a stream of them. */
module Frames {
  import opened Wire
  import opened Requests
  import opened Responses

  const HEADER_SIZE: nat := 7
  const MAX_ADU_SIZE: nat := 260
  const PROTOCOL: word := 0

  datatype MbapHeader = MbapHeader(transactionId: word, protocol: word, length: word, unitId: byte) {
    /** `is_valid_length`. */
    predicate ValidLength() { length >= 2 && length + (HEADER_SIZE - 1) <= MAX_ADU_SIZE }
  }

  function HeaderBytes(h: MbapHeader): (s: seq<byte>)
    ensures |s| == HEADER_SIZE
  {
    [h.transactionId / 0x100, h.transactionId % 0x100, h.protocol / 0x100, h.protocol % 0x100,
     h.length / 0x100, h.length % 0x100, h.unitId]
  }

  function ParseHeader(s: seq<byte>): MbapHeader
    requires |s| == HEADER_SIZE
  {
    MbapHeader(s[0] as int * 0x100 + s[1], s[2] as int * 0x100 + s[3], s[4] as int * 0x100 + s[5], s[6])
  }

  lemma HeaderFields(s: seq<byte>)
    requires |s| == HEADER_SIZE
    ensures ParseHeader(s) == MbapHeader(MakeWord(s[0], s[1]), MakeWord(s[2], s[3]), MakeWord(s[4], s[5]), s[6])
  {}

  lemma HeaderRoundTrip(h: MbapHeader)
    ensures ParseHeader(HeaderBytes(h)) == h
  {}

  /** The length field counts the unit id and the protocol data unit. */
  function FrameHeader(tid: word, unit: byte, pdu: seq<byte>): MbapHeader {
    MbapHeader(tid, PROTOCOL, ToWord(1 + |pdu|), unit)
  }

  function Frame(tid: word, unit: byte, pdu: seq<byte>): (s: seq<byte>)
    ensures |s| == HEADER_SIZE + |pdu|
  {
    HeaderBytes(FrameHeader(tid, unit, pdu)) + pdu
  }

  /** The quantities that the MODBUS Application Protocol Specification allows. */
  predicate Documented(r: Request) {
    r.Consistent() &&
    match r
    case Plain(_, _, _) => true
    case WriteCoils(_, q, n, _) => 1 <= q <= 1968 && n == (q - 1) / 8 + 1
    case WriteRegisters(_, q, n, _) => 1 <= q <= 123 && n == 2 * q
    case ReadWriteRegisters(_, rq, _, q, n, _) => 1 <= rq <= 125 && 1 <= q <= 121 && n == 2 * q
  }

  /** Documented requests fit the 260-byte limit and their length field is not truncated. */
  lemma DocumentedFramesFit(tid: word, unit: byte, r: Request)
    requires Documented(r)
    ensures |Frame(tid, unit, Encode(r))| <= MAX_ADU_SIZE
    ensures FrameHeader(tid, unit, Encode(r)).length == 1 + |Encode(r)|
    ensures FrameHeader(tid, unit, Encode(r)).ValidLength()
  {
    hide WordsBytes, HeaderBytes;
  }

  // ---------------------------------------------------------------- the two-phase read

  /** What the two reads of `read_response` obtain from the transport: nothing for a broadcast, a
      transport error if the stream ends first, a refused header, or a body. */
  datatype Await =
    | Broadcast
    | Ended
    | Refused(ec: ErrorCode)
    | Body(pdu: seq<byte>)

  /** The header checks of `read_response`, in order. */
  function CheckHeader(h: MbapHeader, tid: word, unit: byte): ErrorCode {
    if h.transactionId != tid then TRANSACTION_ID_INVALID
    else if h.protocol != PROTOCOL then ILLEGAL_PROTOCOL
    else if h.unitId != unit then SLAVE_ID_INVALID
    else if h.length + 6 > 255 || h.length <= 1 then INVALID_RESPONSE
    else SUCCESS
  }

  /** The outcome of the two reads and the bytes they leave in the stream `s`. */
  function AwaitReply(tid: word, unit: byte, s: seq<byte>): (Await, seq<byte>) {
    if unit == 0 then (Broadcast, s)
    else if |s| < HEADER_SIZE then (Ended, [])
    else
      var h := ParseHeader(s[..HEADER_SIZE]);
      var ec := CheckHeader(h, tid, unit);
      if ec != SUCCESS then (Refused(ec), s[HEADER_SIZE..])
      else if |s| < 6 + h.length then (Ended, [])
      else (Body(s[HEADER_SIZE..6 + h.length]), s[6 + h.length..])
  }

  /** `Threw` is the exception that a synchronous read throws when the transport ends early. */
  datatype Outcome = Threw | Returned(ec: ErrorCode)

  datatype Exchange = Exchange(outcome: Outcome, byteCount: byte, filled: seq<byte>, unread: seq<byte>)

  /** `read_response` for a counted response. */
  function ReadPayloadResponse(code: byte, capacity: nat, prior: byte, tid: word, unit: byte, s: seq<byte>): (x: Exchange)
    ensures |x.filled| <= capacity
  {
    var (a, rest) := AwaitReply(tid, unit, s);
    match a
    case Broadcast => Exchange(Returned(SUCCESS), prior, [], rest)
    case Ended => Exchange(Threw, prior, [], rest)
    case Refused(ec) => Exchange(Returned(ec), prior, [], rest)
    case Body(pdu) =>
      var r := ReceivePayload(code, capacity, prior, pdu);
      Exchange(Returned(r.ec), r.byteCount, r.filled, rest)
  }

  datatype EchoExchange = EchoExchange(outcome: Outcome, address: word, value: word, unread: seq<byte>)

  /** `read_response` for an echo, into an object that holds `address` and `value`. */
  function ReadEchoResponse(code: byte, onOff: bool, address: word, value: word, tid: word, unit: byte, s: seq<byte>): EchoExchange {
    var (a, rest) := AwaitReply(tid, unit, s);
    match a
    case Broadcast => EchoExchange(Returned(SUCCESS), address, value, rest)
    case Ended => EchoExchange(Threw, address, value, rest)
    case Refused(ec) => EchoExchange(Returned(ec), address, value, rest)
    case Body(pdu) =>
      var r := ReceiveEcho(code, onOff, address, value, pdu);
      EchoExchange(Returned(r.ec), r.address, r.value, rest)
  }

  /** A stream that starts with a header for this transaction and unit, with a length that the
      client accepts. */
  predicate MatchingHeader(tid: word, unit: byte, s: seq<byte>) {
    && |s| >= HEADER_SIZE
    && s[0] == High(tid) && s[1] == Low(tid)
    && s[2] == 0 && s[3] == 0
    && s[4] == 0 && 2 <= s[5] <= 249
    && s[6] == unit
  }

  /** The same with all of a body of at least two bytes. */
  predicate MatchingStart(tid: word, unit: byte, s: seq<byte>) {
    MatchingHeader(tid, unit, s) && s[5] >= 3 && |s| >= 6 + s[5]
  }

  /** The wire condition under which a counted response is accepted, in terms of bytes alone. */
  predicate AcceptableStart(code: byte, capacity: nat, tid: word, unit: byte, s: seq<byte>) {
    && MatchingStart(tid, unit, s)
    && (|| (s[7] == code && s[8] <= capacity && s[8] as int + 3 <= s[5])
        || (s[7] >= 0x80 && s[8] == 0))
  }

  /** The wire condition under which an echo is accepted. It says nothing about the address, and
      about the value only whether it is an on/off value. */
  predicate AcceptableEcho(code: byte, onOff: bool, tid: word, unit: byte, s: seq<byte>) {
    && MatchingStart(tid, unit, s)
    && (|| (s[7] == code && s[5] >= 6 && (onOff ==> (s[10] == 0 || s[10] == 0xFF) && s[11] == 0))
        || (s[7] >= 0x80 && s[8] == 0))
  }

  /** Exact acceptance: for a nonzero unit `read_response` reports success if and only if the
      stream starts with a matching header, a length of at most 249 and either the expected
      counted reply or an exception reply with code 0. */
  lemma AcceptedIff(code: byte, capacity: nat, prior: byte, tid: word, unit: byte, s: seq<byte>)
    requires unit != 0 && code < 0x80
    ensures ReadPayloadResponse(code, capacity, prior, tid, unit, s).outcome == Returned(SUCCESS)
            <==> AcceptableStart(code, capacity, tid, unit, s)
  {
    hide ReceivePayload, CheckHeader, ParseHeader;
    if |s| >= HEADER_SIZE {
      var h := ParseHeader(s[..HEADER_SIZE]);
      HeaderAcceptedIff(tid, unit, s);
      if CheckHeader(h, tid, unit) == SUCCESS && |s| >= 6 + h.length {
        BodyAcceptedIff(code, capacity, prior, s[HEADER_SIZE..6 + h.length]);
      }
    }
  }

  /** Exact acceptance of the echoes 0x05, 0x06, 0x0F and 0x10, with what an accepted one leaves in
      the response object and in the stream. */
  lemma EchoAcceptedIff(code: byte, onOff: bool, address: word, value: word, tid: word, unit: byte, s: seq<byte>)
    requires unit != 0 && code < 0x80
    ensures var x := ReadEchoResponse(code, onOff, address, value, tid, unit, s);
            && (x.outcome == Returned(SUCCESS) <==> AcceptableEcho(code, onOff, tid, unit, s))
            && (x.outcome == Returned(SUCCESS) ==>
                  && x.unread == s[6 + s[5]..]
                  && (x.address, x.value) == if s[7] >= 0x80 then (address, value)
                                             else (MakeWord(s[8], s[9]), MakeWord(s[10], s[11])))
  {
    hide ReceiveEcho, CheckHeader, ParseHeader, MakeWord, High, Low;
    if |s| >= HEADER_SIZE {
      var h := ParseHeader(s[..HEADER_SIZE]);
      HeaderAcceptedIff(tid, unit, s);
      if CheckHeader(h, tid, unit) == SUCCESS && |s| >= 6 + h.length {
        EchoBodyAcceptedIff(code, onOff, address, value, s[HEADER_SIZE..6 + h.length]);
      }
    }
  }

  lemma EchoBodyAcceptedIff(code: byte, onOff: bool, address: word, value: word, pdu: seq<byte>)
    requires code < 0x80 && |pdu| >= 1
    ensures var r := ReceiveEcho(code, onOff, address, value, pdu);
            && (r.ec == SUCCESS <==>
                  || (|pdu| >= 5 && pdu[0] == code && (onOff ==> (pdu[3] == 0 || pdu[3] == 0xFF) && pdu[4] == 0))
                  || (|pdu| >= 2 && pdu[0] >= 0x80 && pdu[1] == 0))
            && (r.ec == SUCCESS ==> (r.address, r.value) == if pdu[0] >= 0x80 then (address, value)
                                                            else (MakeWord(pdu[1], pdu[2]), MakeWord(pdu[3], pdu[4])))
  {
    hide MakeWord, OnOff;
    if |pdu| >= 5 && pdu[0] == code {
      assert pdu[1..][2..] == pdu[3..];
      OnOffBytes(pdu[3], pdu[4]);
    }
  }

  lemma OnOffBytes(high: byte, low: byte)
    ensures OnOff(MakeWord(high, low)) <==> (high == 0 || high == 0xFF) && low == 0
  {}

  lemma HeaderAcceptedIff(tid: word, unit: byte, s: seq<byte>)
    requires |s| >= HEADER_SIZE
    ensures var h := ParseHeader(s[..HEADER_SIZE]);
            CheckHeader(h, tid, unit) == SUCCESS <==> MatchingHeader(tid, unit, s)
    ensures var h := ParseHeader(s[..HEADER_SIZE]);
            CheckHeader(h, tid, unit) == SUCCESS ==> h.length == s[5]
  {
    hide High, Low, CheckHeader;
    assert ParseHeader(s[..HEADER_SIZE])
        == MbapHeader(MakeWord(s[0], s[1]), MakeWord(s[2], s[3]), MakeWord(s[4], s[5]), s[6]);
    MakeWordIff(s[0], s[1], tid);
    FieldsAcceptedIff(MakeWord(s[0], s[1]), s[2], s[3], s[4], s[5], s[6], tid, unit);
  }

  lemma FieldsAcceptedIff(t: word, p0: byte, p1: byte, n0: byte, n1: byte, u: byte, tid: word, unit: byte)
    ensures var h := MbapHeader(t, MakeWord(p0, p1), MakeWord(n0, n1), u);
            && (CheckHeader(h, tid, unit) == SUCCESS <==>
                  t == tid && p0 == 0 && p1 == 0 && n0 == 0 && 2 <= n1 <= 249 && u == unit)
            && (n0 == 0 ==> h.length == n1)
  {}

  lemma BodyAcceptedIff(code: byte, capacity: nat, prior: byte, pdu: seq<byte>)
    requires code < 0x80 && |pdu| >= 1
    ensures ReceivePayload(code, capacity, prior, pdu).ec == SUCCESS <==>
            |pdu| >= 2 && ((pdu[0] == code && pdu[1] <= capacity && pdu[1] as int + 2 <= |pdu|)
                           || (pdu[0] >= 0x80 && pdu[1] == 0))
  {
    assert |pdu| >= 2 ==> pdu[1..][1..] == pdu[2..];
  }

  // ---------------------------------------------------------------- frame boundaries

  lemma FrameStart(tid: word, unit: byte, pdu: seq<byte>, t: seq<byte>)
    ensures var s := Frame(tid, unit, pdu) + t;
            s[HEADER_SIZE..] == pdu + t && ParseHeader(s[..HEADER_SIZE]) == FrameHeader(tid, unit, pdu)
  {
    hide HeaderBytes, ParseHeader;
    var h := HeaderBytes(FrameHeader(tid, unit, pdu));
    Assoc(h, pdu, t);
    var s := h + (pdu + t);
    assert s[..HEADER_SIZE] == h;
    HeaderRoundTrip(FrameHeader(tid, unit, pdu));
  }

  /** The client takes exactly the body of a frame sent for its request if and only if the
      protocol data unit has 1 to 248 bytes. */
  lemma AwaitFrameIff(tid: word, unit: byte, pdu: seq<byte>, t: seq<byte>)
    requires unit != 0
    ensures AwaitReply(tid, unit, Frame(tid, unit, pdu) + t) == (Body(pdu), t) <==> 1 <= |pdu| <= 248
  {
    hide ParseHeader, Frame;
    var s := Frame(tid, unit, pdu) + t;
    FrameStart(tid, unit, pdu, t);
    var n := FrameHeader(tid, unit, pdu).length;
    if 1 <= |pdu| <= 248 {
      assert s[HEADER_SIZE..6 + n] == s[HEADER_SIZE..][..|pdu|] == pdu;
      assert s[6 + n..] == s[HEADER_SIZE..][|pdu|..] == t;
    }
  }

  /** A frame with a longer body is refused after its header: the body stays in the stream. */
  lemma LongFrameRefused(tid: word, unit: byte, pdu: seq<byte>, t: seq<byte>)
    requires unit != 0 && 249 <= |pdu| < 0xFFFF
    ensures AwaitReply(tid, unit, Frame(tid, unit, pdu) + t) == (Refused(INVALID_RESPONSE), pdu + t)
  {
    hide ParseHeader, Frame;
    FrameStart(tid, unit, pdu, t);
  }

  /** One expected reply: the object the caller reads it into, and the ids it insists on. */
  datatype Expected =
    | Counted(tid: word, unit: byte, code: byte, capacity: nat)
    | Echo(tid: word, unit: byte, code: byte, onOff: bool, address: word, value: word)

  /** The stream after the read of one expected reply. */
  function ReadOne(e: Expected, s: seq<byte>): seq<byte> {
    match e
    case Counted(tid, unit, code, capacity) =>
      ReadPayloadResponse(code, capacity, ToByte(capacity), tid, unit, s).unread
    case Echo(tid, unit, code, onOff, address, value) =>
      ReadEchoResponse(code, onOff, address, value, tid, unit, s).unread
  }

  /** The stream after one read per expectation. */
  function ReadRun(es: seq<Expected>, s: seq<byte>): seq<byte> {
    if es == [] then s else ReadRun(es[1..], ReadOne(es[0], s))
  }

  function FrameStream(es: seq<Expected>, pdus: seq<seq<byte>>): seq<byte>
    requires |es| == |pdus|
  {
    if es == [] then [] else Frame(es[0].tid, es[0].unit, pdus[0]) + FrameStream(es[1..], pdus[1..])
  }

  /** Over any run of frames whose headers are accepted, counted and echo reads mixed in any order
      stay on frame boundaries, whatever the bodies contain and whether or not they decode. */
  lemma {:induction false} StaysOnFrameBoundaries(es: seq<Expected>, pdus: seq<seq<byte>>, t: seq<byte>)
    requires |es| == |pdus|
    requires forall i :: 0 <= i < |es| ==> es[i].unit != 0 && 1 <= |pdus[i]| <= 248
    ensures ReadRun(es, FrameStream(es, pdus) + t) == t
  {
    hide AwaitReply, ReceivePayload, ReceiveEcho, Frame;
    if es == [] {
      assert FrameStream(es, pdus) + t == t;
    } else {
      var e, rest := es[0], FrameStream(es[1..], pdus[1..]);
      Assoc(Frame(e.tid, e.unit, pdus[0]), rest, t);
      AwaitFrameIff(e.tid, e.unit, pdus[0], rest + t);
      StaysOnFrameBoundaries(es[1..], pdus[1..], t);
    }
  }

  // ---------------------------------------------------------------- the slave's read

  /** What `async_read_request` hands to its callback. */
  datatype RequestRead =
    | TransportError
    | LengthRefused(rest: seq<byte>)
    | GotRequest(tid: word, unit: byte, parse: Parse<Request>, rest: seq<byte>)

  function ReadRequestFrame(s: seq<byte>): RequestRead {
    if |s| < HEADER_SIZE then TransportError
    else
      var h := ParseHeader(s[..HEADER_SIZE]);
      if !h.ValidLength() then LengthRefused(s[HEADER_SIZE..])
      else if |s| < 6 + h.length then TransportError
      else GotRequest(h.transactionId, h.unitId, Decode(s[HEADER_SIZE..6 + h.length]), s[6 + h.length..])
  }

  /** The slave recovers transaction id, unit and request from a frame, and leaves what follows,
      if and only if the encoded request has at most 253 bytes; longer ones are refused. */
  lemma SlaveRecoversIff(tid: word, unit: byte, r: Request, t: seq<byte>)
    requires r.Consistent()
    ensures ReadRequestFrame(Frame(tid, unit, Encode(r)) + t) ==
            if |Encode(r)| <= 253 then GotRequest(tid, unit, Ok(r, []), t)
            else LengthRefused(Encode(r) + t)
  {
    hide ParseHeader, Frame, Decode, Encode;
    var pdu := Encode(r);
    var s := Frame(tid, unit, pdu) + t;
    FrameStart(tid, unit, pdu, t);
    EncodedSize(r);
    var n := FrameHeader(tid, unit, pdu).length;
    if |pdu| <= 253 {
      assert s[HEADER_SIZE..6 + n] == s[HEADER_SIZE..][..|pdu|] == pdu;
      assert s[6 + n..] == s[HEADER_SIZE..][|pdu|..] == t;
      assert pdu + [] == pdu;
      DecodeIffEncode(pdu, r, []);
    }
  }

  lemma EncodedSize(r: Request)
    requires r.Consistent()
    ensures 1 <= |Encode(r)| <= 265
  {
    hide WordBytes, WordsBytes;
  }
}
