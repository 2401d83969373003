/** Response protocol data units: what a slave writes and what a master reads back. */
module Responses {
  import opened Wire

  /** A response as its writer sees it. `Payload` is the counted form of 0x01 to 0x04 and 0x17,
      `Pair` the echo of 0x05, 0x06, 0x0F and 0x10. */
  datatype Reply =
    | Payload(code: byte, byteCount: byte, values: seq<byte>)
    | Pair(code: byte, address: word, value: word)
    | Exception(code: byte, exception: ErrorCode)

  /** The constructor of the counted responses. */
  function PayloadOf(code: byte, values: seq<byte>): Reply {
    Payload(code, ToByte(|values|), values)
  }

  /** `code |= 0x80`. */
  function ExceptionBit(code: byte): byte { if code < 0x80 then code + 0x80 else code }

  /** What `write(writer, resp)` puts into the sink. */
  function EncodeReply(r: Reply): seq<byte> {
    match r
    case Payload(code, n, values) => [code, n] + values
    case Pair(code, a, v) => [code] + (WordBytes(a) + WordBytes(v))
    case Exception(code, e) => [ExceptionBit(code), e % 0x100]
  }

  // ---------------------------------------------------------------- reading

  /** The common start of `read(reader, pdu_resp)`. A failure with code 0 is the early return on
      an exception reply whose exception code is 0, which its caller takes for success. */
  function TakeHead(code: byte, s: seq<byte>): Parse<byte> {
    var (c, s) :- TakeByte(s);
    if c >= 0x80 then
      var (e, s) :- TakeByte(s);
      Fail(e, s)
    else if c != code then Fail(INVALID_RESPONSE, s)
    else Ok(c, s)
  }

  /** The effect of reading a counted response: the returned error, the `byte_count` field, the
      bytes stored at the front of the caller's span, and the bytes not read. */
  datatype Received = Received(ec: ErrorCode, byteCount: byte, filled: seq<byte>, rest: seq<byte>)

  /** Reading a counted response into a span of `capacity` bytes; `prior` is the `byte_count`
      that its constructor set. */
  function ReceivePayload(code: byte, capacity: nat, prior: byte, s: seq<byte>): (r: Received)
    ensures |r.filled| <= capacity
  {
    match TakeHead(code, s)
    case Fail(ec, rest) => Received(ec, prior, [], rest)
    case Ok(_, s) => ReceiveCounted(capacity, prior, s)
  }

  function ReceiveCounted(capacity: nat, prior: byte, s: seq<byte>): (r: Received)
    ensures |r.filled| <= capacity
  {
    match TakeByte(s)
    case Fail(ec, rest) => Received(ec, prior, [], rest)
    case Ok(n, s) =>
      if n > capacity then Received(TOO_MANY_BYTES_RECEIVED, n, [], s)
      else if |s| < n then Received(TOO_MANY_BYTES_RECEIVED, n, s, [])
      else Received(SUCCESS, n, s[..n], s[n..])
  }

  /** The effect of reading an echo: the returned error, the two fields of the response object,
      which the reader overwrites, and the bytes not read. */
  datatype Echoed = Echoed(ec: ErrorCode, address: word, value: word, rest: seq<byte>)

  /** Reading an echo into an object that holds `address` and `value`. The 0x05 and 0x06 readers
      also insist on an on/off value. */
  function ReceiveEcho(code: byte, onOff: bool, address: word, value: word, s: seq<byte>): Echoed {
    match TakeHead(code, s)
    case Fail(ec, rest) => Echoed(ec, address, value, rest)
    case Ok(_, s) => ReceiveFields(onOff, address, value, s)
  }

  function ReceiveFields(onOff: bool, address: word, value: word, s: seq<byte>): Echoed {
    var a := WordInto(address, s);
    match TakeWord(s)
    case Fail(ec, rest) => Echoed(ec, a, value, rest)
    case Ok(_, s) =>
      var v := WordInto(value, s);
      match TakeWord(s)
      case Fail(ec, rest) => Echoed(ec, a, v, rest)
      case Ok(_, s) => Echoed(if onOff && !OnOff(v) then ILLEGAL_DATA_VALUE else SUCCESS, a, v, s)
  }

  predicate OnOff(v: word) { v == 0x0000 || v == 0xFF00 }

  // ---------------------------------------------------------------- reading what was written

  lemma HeadIff(code: byte, s: seq<byte>, t: seq<byte>)
    requires code < 0x80
    ensures TakeHead(code, s) == Ok(code, t) <==> s == [code] + t
  {}

  /** An exception reply carries its code to any reader, whatever it expected. */
  lemma ExceptionRoundTrip(expected: byte, code: byte, e: byte, t: seq<byte>)
    ensures TakeHead(expected, EncodeReply(Exception(code, e)) + t) == Fail(e, t)
  {
    var s := EncodeReply(Exception(code, e)) + t;
    assert s[1..] == [e] + t;
    assert s[1..][1..] == t;
  }

  lemma CountedAccepted(capacity: nat, prior: byte, n: byte, values: seq<byte>, t: seq<byte>)
    requires |values| == n
    ensures ReceiveCounted(capacity, prior, [n] + (values + t)) ==
            if n <= capacity then Received(SUCCESS, n, values, t)
            else Received(TOO_MANY_BYTES_RECEIVED, n, [], values + t)
  {
    var s := [n] + (values + t);
    assert s[1..] == values + t;
    assert (values + t)[..n] == values && (values + t)[n..] == t;
  }

  /** Reading a counted response never reports an error it did not receive: with the right code
      and all announced bytes present, it succeeds exactly when the span is large enough. */
  lemma PayloadAccepted(code: byte, capacity: nat, prior: byte, n: byte, values: seq<byte>, t: seq<byte>)
    requires code < 0x80 && |values| == n
    ensures ReceivePayload(code, capacity, prior, [code, n] + values + t) ==
            if n <= capacity then Received(SUCCESS, n, values, t)
            else Received(TOO_MANY_BYTES_RECEIVED, n, [], values + t)
  {
    hide TakeHead, ReceiveCounted;
    var s := [n] + (values + t);
    assert [code, n] + values + t == [code] + s;
    HeadIff(code, [code] + s, s);
    CountedAccepted(capacity, prior, n, values, t);
  }

  /** A counted response reads back exactly when its size fits the count byte and the reader's
      span. */
  lemma PayloadRoundTripIff(code: byte, values: seq<byte>, capacity: nat, prior: byte, t: seq<byte>)
    requires code < 0x80
    ensures ReceivePayload(code, capacity, prior, EncodeReply(PayloadOf(code, values)) + t)
              == Received(SUCCESS, ToByte(|values|), values, t)
            <==> |values| <= 255 && |values| <= capacity
  {
    hide ReceivePayload, EncodeReply;
    var n := ToByte(|values|);
    var s := values + t;
    assert EncodeReply(PayloadOf(code, values)) == [code, n] + values by { CountedEncoding(code, values); }
    if |values| <= 255 {
      PayloadAccepted(code, capacity, prior, n, values, t);
    } else {
      assert s == s[..n] + s[n..];
      Assoc([code, n], values, t);
      Assoc([code, n], s[..n], s[n..]);
      PayloadAccepted(code, capacity, prior, n, s[..n], s[n..]);
    }
  }

  lemma CountedEncoding(code: byte, values: seq<byte>)
    ensures EncodeReply(PayloadOf(code, values)) == [code, ToByte(|values|)] + values
  {}

  /** A read that reports success consumed exactly the reply it returns, unless it was an
      exception reply with code 0. */
  lemma PayloadSound(code: byte, capacity: nat, prior: byte, s: seq<byte>)
    requires code < 0x80
    ensures var r := ReceivePayload(code, capacity, prior, s);
            r.ec == SUCCESS && !(|s| >= 2 && s[0] >= 0x80) ==>
              r.byteCount == |r.filled| && s == EncodeReply(PayloadOf(code, r.filled)) + r.rest
  {
    hide TakeHead, EncodeReply;
    var r := ReceivePayload(code, capacity, prior, s);
    if r.ec == SUCCESS && !(|s| >= 2 && s[0] >= 0x80) {
      HeadErrors(code, s);
      var s1 := TakeHead(code, s).rest;
      assert TakeHead(code, s) == Ok(code, s1);
      HeadIff(code, s, s1);
      var n, s2 := r.byteCount, s1[1..];
      TakeByteIff(s1, n, s2);
      TakeBytesIff(s2, n, r.filled, r.rest);
      Prepend(code, n, r.filled, r.rest);
    }
  }

  lemma HeadErrors(code: byte, s: seq<byte>)
    requires !(|s| >= 2 && s[0] >= 0x80)
    ensures TakeHead(code, s).Fail? ==> TakeHead(code, s).ec != SUCCESS
    ensures TakeHead(code, s).Ok? ==> TakeHead(code, s).value == code
  {}

  lemma Prepend(code: byte, n: byte, values: seq<byte>, t: seq<byte>)
    requires |values| == n
    ensures [code] + ([n] + (values + t)) == EncodeReply(PayloadOf(code, values)) + t
  {}

  /** An echo reads back exactly, whatever the object held, except that a reader that insists on an
      on/off value reports any other. */
  lemma EchoRoundTripIff(code: byte, onOff: bool, address: word, value: word, a: word, v: word, t: seq<byte>)
    requires code < 0x80
    ensures ReceiveEcho(code, onOff, address, value, EncodeReply(Pair(code, a, v)) + t)
            == Echoed(if onOff && !OnOff(v) then ILLEGAL_DATA_VALUE else SUCCESS, a, v, t)
  {
    hide TakeHead, TakeWord, WordBytes, WordInto, OnOff;
    var t1 := WordBytes(v) + t;
    var t0 := WordBytes(a) + t1;
    Assoc([code], WordBytes(a) + WordBytes(v), t);
    Assoc(WordBytes(a), WordBytes(v), t);
    HeadIff(code, [code] + t0, t0);
    TakeWordIff(t0, a, t1);
    TakeWordIff(t1, v, t);
    WordIntoBytes(address, a, t1);
    WordIntoBytes(value, v, t);
  }

  lemma WordIntoBytes(prior: word, w: word, t: seq<byte>)
    ensures WordInto(prior, WordBytes(w) + t) == w
  {}
}
