/** `tcp::stream` of include/mothbus/adu/tcp.h: one 320-byte buffer reused for every message, a
    transaction counter, and a transport that delivers bytes in order. */
module TcpStreams {
  import opened Wire
  import opened Requests
  import opened Responses
  import opened Buffers
  import opened Codec
  import opened Frames
  import opened Transports

  /** The header as first written, with zero in place of the length. */
  function Placeholder(tid: word, unit: byte): (s: seq<byte>)
    ensures |s| == HEADER_SIZE
  {
    HeaderBytes(MbapHeader(tid, PROTOCOL, 0, unit))
  }

  lemma PlaceholderFields(tid: word, unit: byte)
    ensures WordBytes(tid) + WordBytes(PROTOCOL) + WordBytes(0) + [unit] == Placeholder(tid, unit)
  {}

  lemma PatchedHeader(tid: word, unit: byte, n: word)
    ensures Splice(Placeholder(tid, unit), 4, WordBytes(n)) == HeaderBytes(MbapHeader(tid, PROTOCOL, n, unit))
  {}

  /** Whatever stale bytes `a` held, writing the placeholder header and the body and then patching
      the length in place leaves the frame that a single pass would have written. */
  lemma BackPatch(a: seq<byte>, tid: word, unit: byte, pdu: seq<byte>)
    requires HEADER_SIZE + |pdu| <= |a|
    ensures var n := ToWord(1 + |pdu|);
            Splice(Splice(a, 0, Placeholder(tid, unit) + pdu), 4, WordBytes(n))[..HEADER_SIZE + |pdu|]
              == Frame(tid, unit, pdu)
  {
    hide HeaderBytes, WordBytes, Placeholder;
    var n := WordBytes(ToWord(1 + |pdu|));
    var h := Placeholder(tid, unit);
    PatchedHeader(tid, unit, ToWord(1 + |pdu|));
    var s := Splice(a, 0, h + pdu);
    assert s == h + (pdu + a[HEADER_SIZE + |pdu|..]);
    assert Splice(s, 4, n) == Splice(h, 4, n) + (pdu + a[HEADER_SIZE + |pdu|..]);
    assert Splice(s, 4, n)[..HEADER_SIZE + |pdu|] == Splice(h, 4, n) + pdu;
  }

  class TcpStream {
    const buffer: array<byte>
    const nextLayer: Transport
    var transactionId: word

    ghost predicate Valid() { buffer.Length == BUFFER_SIZE }

    constructor (nextLayer: Transport)
      ensures Valid() && fresh(buffer) && this.nextLayer == nextLayer && transactionId == 0
    {
      this.nextLayer := nextLayer;
      this.transactionId := 0;
      this.buffer := new byte[BUFFER_SIZE](_ => 0);
    }

    /** The part of the two writers before the body: a fresh buffer view holding the header with a
        placeholder length. */
    method StartFrame(tid: word, unit: byte) returns (sink: Buffer)
      requires Valid()
      modifies buffer
      ensures fresh(sink) && sink.bytes == buffer && sink.Valid()
      ensures sink.outputStart == HEADER_SIZE && sink.inputStart == sink.inputEnd == 0
      ensures buffer[..] == Splice(old(buffer[..]), 0, Placeholder(tid, unit))
    {
      hide Splice, WordBytes;
      ghost var a := buffer[..];
      sink := new Buffer(buffer);
      WriteWord(sink, tid);
      WriteWord(sink, PROTOCOL);
      SpliceTwice(a, 0, WordBytes(tid), WordBytes(PROTOCOL));
      WriteWord(sink, 0);
      SpliceTwice(a, 0, WordBytes(tid) + WordBytes(PROTOCOL), WordBytes(0));
      sink.Put(unit);
      SpliceTwice(a, 0, WordBytes(tid) + WordBytes(PROTOCOL) + WordBytes(0), [unit]);
      PlaceholderFields(tid, unit);
    }

    /** The part of the two writers after the body: patch the length in and send. */
    method FinishFrame(sink: Buffer, ghost a: seq<byte>, ghost tid: word, ghost unit: byte, ghost pdu: seq<byte>)
      requires Valid() && sink.bytes == buffer && sink.Valid() && sink.inputStart == sink.inputEnd == 0
      requires |a| == BUFFER_SIZE && HEADER_SIZE + |pdu| <= BUFFER_SIZE
      requires sink.outputStart == HEADER_SIZE + |pdu|
      requires buffer[..] == Splice(a, 0, Placeholder(tid, unit) + pdu)
      modifies sink, buffer, nextLayer`outgoing
      ensures nextLayer.outgoing == old(nextLayer.outgoing) + Frame(tid, unit, pdu)
    {
      hide Splice, WordBytes, HeaderBytes, Frame, Placeholder;
      var index := sink.outputStart;
      var length := ToWord(sink.outputStart - 6);
      sink.outputStart := 4;
      WriteWord(sink, length);
      sink.outputStart := index;
      sink.Commit(index);
      BackPatch(a, tid, unit, pdu);
      assert sink.bytes[sink.inputStart..sink.inputEnd] == buffer[..][..index];
      nextLayer.Write(sink.bytes[sink.inputStart..sink.inputEnd]);
    }

    /** `write_request`: sends one frame under the current transaction id and steps the id, which
        wraps after 65535. */
    method SendRequest(slave: byte, r: Request) returns (tid: word)
      requires Valid() && r.Writable() && HEADER_SIZE + |Encode(r)| <= BUFFER_SIZE
      modifies this`transactionId, buffer, nextLayer`outgoing
      ensures tid == old(transactionId) && transactionId == (tid + 1) % 0x1_0000
      ensures nextLayer.outgoing == old(nextLayer.outgoing) + Frame(tid, slave, Encode(r))
    {
      hide Splice, Encode, Placeholder, Frame;
      ghost var a := buffer[..];
      var sink := StartFrame(transactionId, slave);
      WriteRequest(sink, r);
      SpliceTwice(a, 0, Placeholder(transactionId, slave), Encode(r));
      FinishFrame(sink, a, transactionId, slave, Encode(r));
      tid := transactionId;
      transactionId := (transactionId + 1) % 0x1_0000;
    }

    /** `write_response`. */
    method SendReply(tid: word, slave: byte, r: Reply)
      requires Valid() && HEADER_SIZE + |EncodeReply(r)| <= BUFFER_SIZE
      modifies buffer, nextLayer`outgoing
      ensures nextLayer.outgoing == old(nextLayer.outgoing) + Frame(tid, slave, EncodeReply(r))
    {
      hide Splice, EncodeReply, Placeholder, Frame;
      ghost var a := buffer[..];
      var sink := StartFrame(tid, slave);
      WriteReply(sink, r);
      SpliceTwice(a, 0, Placeholder(tid, slave), EncodeReply(r));
      FinishFrame(sink, a, tid, slave, EncodeReply(r));
    }

    /** Reads the seven header bytes of the source buffer, as `parse_header` does. */
    method TakeHeader(source: Buffer) returns (h: MbapHeader)
      requires source.Valid() && |source.Unread()| == HEADER_SIZE
      modifies source`inputStart
      ensures source.Valid() && source.Unread() == [] && h == ParseHeader(old(source.Unread()))
    {
      hide ParseHeader, MakeWord;
      var ec: ErrorCode, tid: word, protocol: word, length: word, unit: byte;
      ghost var s := source.Unread();
      HeaderFields(s);
      ec, tid := ReadWord(source, 0);
      assert source.Unread() == s[2..];
      ec, protocol := ReadWord(source, 0);
      assert source.Unread() == s[4..];
      ec, length := ReadWord(source, 0);
      assert source.Unread() == s[6..];
      ec, unit := ReadByte(source);
      h := MbapHeader(tid, protocol, length, unit);
    }

    /** The two reads of `read_response`. On `go` the source buffer holds exactly the body. */
    method Await(tid: word, slave: byte) returns (go: bool, result: Outcome, source: Buffer)
      requires Valid()
      modifies buffer, nextLayer`incoming
      ensures fresh(source) && source.bytes == buffer && source.Valid()
      ensures var (a, rest) := AwaitReply(tid, slave, old(nextLayer.incoming));
              && nextLayer.incoming == rest
              && go == a.Body?
              && (go ==> source.Unread() == a.pdu)
              && result == (if a.Ended? then Threw else if a.Refused? then Returned(a.ec) else Returned(SUCCESS))
    {
      hide Splice, ParseHeader;
      source := new Buffer(buffer);
      if slave == 0 {
        return false, Returned(SUCCESS), source;
      }
      ghost var s := nextLayer.incoming;
      var ok, d := nextLayer.Read(HEADER_SIZE);
      if !ok { return false, Threw, source; }
      source.Receive(d);
      assert source.Unread() == d;
      var h := TakeHeader(source);
      if h.transactionId != tid { return false, Returned(TRANSACTION_ID_INVALID), source; }
      if h.protocol != PROTOCOL { return false, Returned(ILLEGAL_PROTOCOL), source; }
      if h.unitId != slave { return false, Returned(SLAVE_ID_INVALID), source; }
      if h.length + 6 > 255 || h.length <= 1 { return false, Returned(INVALID_RESPONSE), source; }
      ok, d := nextLayer.Read(h.length - 1);
      if !ok { return false, Threw, source; }
      source.Receive(d);
      assert d == s[HEADER_SIZE..6 + h.length];
      assert nextLayer.incoming == s[6 + h.length..];
      return true, Returned(SUCCESS), source;
    }

    /** `read_response` for a counted response. */
    method ReadPayload(tid: word, slave: byte, target: PayloadTarget) returns (result: Outcome)
      requires Valid() && target.out != buffer
      modifies buffer, nextLayer`incoming, target, target.out
      ensures var x := ReadPayloadResponse(target.code, target.out.Length, old(target.byteCount), tid, slave,
                                           old(nextLayer.incoming));
              && result == x.outcome && nextLayer.incoming == x.unread && target.byteCount == x.byteCount
              && target.out[..] == x.filled + old(target.out[..])[|x.filled|..]
    {
      hide ParseHeader, CheckHeader, ReceivePayload;
      var go: bool, source: Buffer;
      go, result, source := Await(tid, slave);
      if !go {
        assert target.out[..] == [] + old(target.out[..])[0..];
        return;
      }
      var ec := target.Read(source);
      result := Returned(ec);
    }

    /** `read_response` for an echo. */
    method ReadEcho(tid: word, slave: byte, target: EchoTarget) returns (result: Outcome)
      requires Valid()
      modifies buffer, nextLayer`incoming, target
      ensures EchoExchange(result, target.address, target.value, nextLayer.incoming)
              == ReadEchoResponse(target.code, target.onOff, old(target.address), old(target.value), tid, slave,
                                  old(nextLayer.incoming))
    {
      hide ParseHeader, CheckHeader, ReceiveEcho;
      var go: bool, source: Buffer;
      go, result, source := Await(tid, slave);
      if !go { return; }
      var ec := target.Read(source);
      result := Returned(ec);
    }

    /** `async_read_request` up to its callback. */
    method ReceiveRequest(prior: Variant) returns (result: RequestRead, ec: ErrorCode, request: Variant)
      requires Valid()
      modifies buffer, nextLayer`incoming
      ensures result == ReadRequestFrame(old(nextLayer.incoming))
      ensures match result
              case TransportError => nextLayer.incoming == [] && request == prior
              case LengthRefused(rest) =>
                nextLayer.incoming == rest && ec == REQUEST_TOO_BIG == 0x11 && request == prior
              case GotRequest(_, _, parse, rest) =>
                && nextLayer.incoming == rest
                && ec == (if parse.Ok? then SUCCESS else parse.ec)
                && request == VariantAfter(parse, prior)
    {
      hide Decode, Splice, ParseHeader;
      ec, request := SUCCESS, prior;
      ghost var s := nextLayer.incoming;
      var source := new Buffer(buffer);
      var ok, d := nextLayer.Read(HEADER_SIZE);
      if !ok { return TransportError, ec, request; }
      source.Receive(d);
      assert source.Unread() == d;
      var h := TakeHeader(source);
      if !h.ValidLength() {
        return LengthRefused(nextLayer.incoming), REQUEST_TOO_BIG, request;
      }
      ok, d := nextLayer.Read(h.length - 1);
      if !ok { return TransportError, ec, request; }
      source.Receive(d);
      assert source.Unread() == d == s[HEADER_SIZE..6 + h.length];
      assert nextLayer.incoming == s[6 + h.length..];
      ec, request := ReadRequest(source, prior);
      result := GotRequest(h.transactionId, h.unitId, Decode(d), nextLayer.incoming);
    }
  }
}
