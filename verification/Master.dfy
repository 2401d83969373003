/** The master of include/mothbus/adu/master.h over Modbus/TCP. */
module Masters {
  import opened Wire
  import opened Requests
  import opened Responses
  import opened Codec
  import opened Frames
  import opened Layout
  import opened Packing
  import opened Transports
  import opened TcpStreams

  function ZeroBytes(n: nat): (z: seq<byte>)
    ensures |z| == n
  {
    seq(n, _ => 0)
  }

  /** The byte reads (0x01 to 0x04) also insist on a count equal to the size of `out`. */
  function CheckCount(x: Exchange, size: nat): Outcome {
    if x.outcome == Returned(SUCCESS) && x.byteCount != size then Returned(INVALID_RESPONSE) else x.outcome
  }

  /** `read_response` into a span of `size` bytes. */
  function ByteRead(code: byte, size: nat, tid: word, unit: byte, s: seq<byte>): (x: Exchange)
    ensures |x.filled| <= size
  {
    ReadPayloadResponse(code, size, ToByte(size), tid, unit, s)
  }

  /** What the word-level reads (0x03 and 0x04) hand back. */
  datatype CallResult = Values(registers: seq<word>) | Failed(ec: ErrorCode) | Lost

  function WordRead(code: byte, n: nat, tid: word, unit: byte, s: seq<byte>): (CallResult, seq<byte>) {
    var x := ByteRead(code, 2 * n, tid, unit, s);
    match CheckCount(x, 2 * n)
    case Threw => (Lost, x.unread)
    case Returned(ec) =>
      if ec != SUCCESS then (Failed(ec), x.unread)
      else (Values(BytesWords(x.filled + ZeroBytes(2 * n - |x.filled|))), x.unread)
  }

  // ---------------------------------------------------------------- what success means

  /** The wire condition for a byte read: an acceptable reply of exactly the requested size, or an
      exception reply of code 0 when the size fits the count byte. */
  predicate ExactReply(code: byte, size: nat, tid: word, unit: byte, s: seq<byte>) {
    AcceptableStart(code, size, tid, unit, s) && if s[7] < 0x80 then s[8] == size else size <= 255
  }

  /** For a nonzero unit a byte read succeeds if and only if the stream starts with an exact reply.
      Then every byte of `out` is the payload byte on the wire, or `out` is untouched if it was an
      exception. An acceptable reply of another size is an invalid response, and every other
      outcome is that of `read_response`. */
  lemma ByteReadSuccessIff(code: byte, size: nat, tid: word, unit: byte, s: seq<byte>)
    requires unit != 0 && code < 0x80
    ensures var x := ByteRead(code, size, tid, unit, s);
            && (CheckCount(x, size) == Returned(SUCCESS) <==> ExactReply(code, size, tid, unit, s))
            && (!ExactReply(code, size, tid, unit, s) ==>
                  CheckCount(x, size) == if AcceptableStart(code, size, tid, unit, s) then Returned(0x0C) else x.outcome)
    ensures var x := ByteRead(code, size, tid, unit, s);
            ExactReply(code, size, tid, unit, s) ==>
              && x.unread == s[6 + s[5]..]
              && if s[7] < 0x80 then size <= 246 && |s| >= 9 + size && x.filled == s[9..9 + size] else x.filled == []
  {
    hide ReadPayloadResponse;
    AcceptedIff(code, size, ToByte(size), tid, unit, s);
    if AcceptableStart(code, size, tid, unit, s) {
      if s[7] < 0x80 {
        AcceptedPayload(code, size, ToByte(size), tid, unit, s);
      } else {
        AcceptedZeroException(code, size, ToByte(size), tid, unit, s);
      }
    }
  }

  /** A broadcast read reads nothing and stores nothing; it succeeds when the size fits the count
      byte, since the count is compared with the truncated size. */
  lemma BroadcastByteRead(code: byte, size: nat, tid: word, s: seq<byte>)
    ensures var x := ByteRead(code, size, tid, 0, s);
            && CheckCount(x, size) == Returned(if size <= 255 then 0x00 else 0x0C)
            && x.outcome == Returned(0x00) && x.filled == [] && x.unread == s
  {}

  /** The word-level read in wire bytes, for a nonzero unit: it returns registers if and only if the
      byte read succeeds, and they are the big-endian words on the wire, or zeros after an exception
      with code 0. */
  lemma WordReadIff(code: byte, n: nat, tid: word, unit: byte, s: seq<byte>)
    requires unit != 0 && code < 0x80
    ensures var (r, rest) := WordRead(code, n, tid, unit, s);
            var x := ByteRead(code, 2 * n, tid, unit, s);
            && rest == x.unread
            && (r.Values? <==> ExactReply(code, 2 * n, tid, unit, s))
            && (r.Values? ==>
                  && |r.registers| == n
                  && if s[7] < 0x80 then |s| >= 9 + 2 * n
                       && forall i :: 0 <= i < n ==> r.registers[i] == s[9 + 2 * i] as int * 0x100 + s[10 + 2 * i]
                     else forall i :: 0 <= i < n ==> r.registers[i] == 0)
            && (!r.Values? ==> r == if AcceptableStart(code, 2 * n, tid, unit, s) then Failed(0x0C)
                                    else if x.outcome == Threw then Lost else Failed(x.outcome.ec))
  {
    hide ByteRead, AcceptableStart, BytesWords, ZeroBytes;
    var x := ByteRead(code, 2 * n, tid, unit, s);
    ByteReadSuccessIff(code, 2 * n, tid, unit, s);
    ByteReadOutcome(code, 2 * n, tid, unit, s);
    if WordRead(code, n, tid, unit, s).0.Values? {
      if s[7] < 0x80 {
        assert x.filled + ZeroBytes(0) == x.filled;
        WordsOnWire(s, n);
      } else {
        assert [] + ZeroBytes(2 * n) == ZeroBytes(2 * n);
        ZeroWords(n);
      }
    }
  }

  lemma ByteReadOutcome(code: byte, size: nat, tid: word, unit: byte, s: seq<byte>)
    requires unit != 0 && code < 0x80
    ensures ByteRead(code, size, tid, unit, s).outcome == Returned(SUCCESS) <==> AcceptableStart(code, size, tid, unit, s)
    ensures AcceptableStart(code, size, tid, unit, s) ==> |s| >= 9
  {
    hide ReadPayloadResponse;
    AcceptedIff(code, size, ToByte(size), tid, unit, s);
  }

  lemma WordsOnWire(s: seq<byte>, n: nat)
    requires |s| >= 9 + 2 * n
    ensures forall i :: 0 <= i < n ==> BytesWords(s[9..9 + 2 * n])[i] == s[9 + 2 * i] as int * 0x100 + s[10 + 2 * i]
  {}

  lemma ZeroWords(n: nat)
    ensures |BytesWords(ZeroBytes(2 * n))| == n && forall i :: 0 <= i < n ==> BytesWords(ZeroBytes(2 * n))[i] == 0
  {}

  /** A broadcast word read returns zeros, up to 127 registers. */
  lemma BroadcastWordRead(code: byte, n: nat, tid: word, s: seq<byte>)
    ensures WordRead(code, n, tid, 0, s) == (if n <= 127 then Values(BytesWords(ZeroBytes(2 * n))) else Failed(0x0C), s)
  {
    hide ByteRead, BytesWords, ZeroBytes;
    BroadcastByteRead(code, 2 * n, tid, s);
    assert [] + ZeroBytes(2 * n) == ZeroBytes(2 * n);
  }

  lemma AcceptedPayload(code: byte, capacity: nat, prior: byte, tid: word, unit: byte, s: seq<byte>)
    requires unit != 0 && code < 0x80 && AcceptableStart(code, capacity, tid, unit, s) && s[7] < 0x80
    ensures var x := ReadPayloadResponse(code, capacity, prior, tid, unit, s);
            x.outcome == Returned(SUCCESS) && x.byteCount == s[8] && x.filled == s[9..9 + s[8]]
            && x.unread == s[6 + s[5]..]
  {
    hide ReceivePayload, CheckHeader, ParseHeader;
    HeaderAcceptedIff(tid, unit, s);
    var n := s[8];
    var pdu := s[HEADER_SIZE..6 + s[5]];
    assert pdu == [code, n] + s[9..9 + n] + pdu[2 + n..];
    PayloadAccepted(code, capacity, prior, n, s[9..9 + n], pdu[2 + n..]);
  }

  lemma AcceptedZeroException(code: byte, capacity: nat, prior: byte, tid: word, unit: byte, s: seq<byte>)
    requires unit != 0 && code < 0x80 && AcceptableStart(code, capacity, tid, unit, s) && s[7] >= 0x80
    ensures ReadPayloadResponse(code, capacity, prior, tid, unit, s)
            == Exchange(Returned(SUCCESS), prior, [], s[6 + s[5]..])
  {
    hide CheckHeader, ParseHeader;
    HeaderAcceptedIff(tid, unit, s);
  }

  /** The 0x17 call does not compare the count: it succeeds if and only if the reply is acceptable
      for its span, and then the front of the result is the wire payload. */
  lemma ReadWriteSuccessIff(n: nat, tid: word, unit: byte, s: seq<byte>)
    requires unit != 0
    ensures var code := READ_WRITE_MULTIPLE_REGISTERS;
            var x := ByteRead(code, 2 * n, tid, unit, s);
            && (x.outcome == Returned(SUCCESS) <==> AcceptableStart(code, 2 * n, tid, unit, s))
            && (x.outcome == Returned(SUCCESS) ==>
                  && x.unread == s[6 + s[5]..]
                  && if s[7] < 0x80 then |s| >= 9 + s[8] && x.filled == s[9..9 + s[8]] else x.filled == [])
  {
    hide ReadPayloadResponse;
    var code := READ_WRITE_MULTIPLE_REGISTERS;
    AcceptedIff(code, 2 * n, ToByte(2 * n), tid, unit, s);
    if AcceptableStart(code, 2 * n, tid, unit, s) {
      if s[7] < 0x80 {
        AcceptedPayload(code, 2 * n, ToByte(2 * n), tid, unit, s);
      } else {
        AcceptedZeroException(code, 2 * n, ToByte(2 * n), tid, unit, s);
      }
    }
  }

  /** An exception reply with code 0 is taken for success, with `out` left as it was. */
  lemma ZeroExceptionIsSuccess(code: byte, n: nat, tid: word, unit: byte, t: seq<byte>)
    requires unit != 0 && code < 0x80 && n <= 127
    ensures WordRead(code, n, tid, unit, Frame(tid, unit, EncodeReply(Exception(code, 0))) + t)
            == (Values(BytesWords(ZeroBytes(2 * n))), t)
  {
    hide Frame, AwaitReply, TakeHead, BytesWords, ZeroBytes, EncodeReply;
    var pdu := EncodeReply(Exception(code, 0));
    assert |pdu| == 2 by { ExceptionSize(code); }
    AwaitFrameIff(tid, unit, pdu, t);
    ExceptionRoundTrip(code, code, 0, []);
    assert pdu + [] == pdu;
    assert [] + ZeroBytes(2 * n) == ZeroBytes(2 * n);
  }

  /** What the master makes of any echo frame with its ids and function code: it succeeds exactly
      when the reader does not insist on an on/off value or the echoed value is one. So a performed
      0x06 write of any other value is reported as an illegal data value. */
  lemma EchoReported(code: byte, onOff: bool, address: word, value: word, a: word, v: word, tid: word, unit: byte, t: seq<byte>)
    requires unit != 0 && code < 0x80
    ensures ReadEchoResponse(code, onOff, address, value, tid, unit, Frame(tid, unit, EncodeReply(Pair(code, a, v))) + t)
            == EchoExchange(Returned(if onOff && !OnOff(v) then ILLEGAL_DATA_VALUE else SUCCESS), a, v, t)
  {
    hide Frame, AwaitReply, ReceiveEcho, WordBytes, OnOff;
    var pdu := EncodeReply(Pair(code, a, v));
    AwaitFrameIff(tid, unit, pdu, t);
    EchoRoundTripIff(code, onOff, address, value, a, v, []);
    assert pdu + [] == pdu;
  }

  /** The master never compares the echo with its request: the echo of another address, value or
      quantity has the same outcome as the right one. */
  lemma ForeignEchoAccepted(code: byte, onOff: bool, address: word, value: word, a: word, v: word, tid: word, unit: byte, t: seq<byte>)
    requires unit != 0 && code < 0x80 && (a != address || v != value)
    requires onOff ==> OnOff(value) && OnOff(v)
    ensures var right := Frame(tid, unit, EncodeReply(Pair(code, address, value))) + t;
            var foreign := Frame(tid, unit, EncodeReply(Pair(code, a, v))) + t;
            && right != foreign
            && ReadEchoResponse(code, onOff, address, value, tid, unit, right).outcome == Returned(SUCCESS)
            && ReadEchoResponse(code, onOff, address, value, tid, unit, foreign).outcome == Returned(SUCCESS)
  {
    hide ReadEchoResponse, Frame, OnOff;
    EchoReported(code, onOff, address, value, address, value, tid, unit, t);
    EchoReported(code, onOff, address, value, a, v, tid, unit, t);
  }

  /** Coils cross the wire: for every documented list of zeros and ones, the slave that reads the
      master's frame obtains a request from which unpacking restores the list. */
  lemma CoilsCrossTheWire(tid: word, unit: byte, address: word, values: seq<byte>, t: seq<byte>)
    requires 1 <= |values| <= 1968 && ZeroOne(values)
    ensures var r := WriteCoils(address, |values|, ByteCount(|values|), PackCoils(values));
            && ReadRequestFrame(Frame(tid, unit, Encode(r)) + t) == GotRequest(tid, unit, Ok(r, []), t)
            && UnpackCoils(r.coils, r.quantity) == values
  {
    hide Frame, PackCoils, ReadRequestFrame;
    CoilCountFits(|values|);
    var r := WriteCoils(address, |values|, ByteCount(|values|), PackCoils(values));
    DocumentedFramesFit(tid, unit, r);
    hide Encode;
    SlaveRecoversIff(tid, unit, r, t);
    UnpackRestoresIff(values);
  }

  lemma RegistersSize(r: Request)
    requires r.WriteRegisters? || r.ReadWriteRegisters?
    ensures |Encode(r)| == (if r.WriteRegisters? then 6 else 10) + 2 * |r.registers|
  {
    hide WordBytes, WordsBytes;
  }

  lemma ExceptionSize(code: byte)
    ensures |EncodeReply(Exception(code, 0))| == 2
  {}

  // ---------------------------------------------------------------- the calls

  class TcpMaster {
    const stream: TcpStream

    constructor (nextLayer: Transport)
      ensures fresh(stream) && fresh(stream.buffer) && stream.Valid()
      ensures stream.nextLayer == nextLayer && stream.transactionId == 0
    {
      stream := new TcpStream(nextLayer);
    }

    /** `read_coils`, `read_discrete_inputs`, `read_registers` and `read_input_registers` into
        bytes: one request frame, one reply. */
    method ReadBytes(code: byte, slave: byte, address: word, quantity: word, out: array<byte>)
      returns (result: Outcome)
      requires stream.Valid() && out != stream.buffer && 1 <= code <= 4
      modifies stream`transactionId, stream.buffer, stream.nextLayer, out
      ensures stream.transactionId == (old(stream.transactionId) + 1) % 0x1_0000
      ensures stream.nextLayer.outgoing == old(stream.nextLayer.outgoing)
              + Frame(old(stream.transactionId), slave, Encode(Plain(code, address, quantity)))
      ensures var x := ByteRead(code, out.Length, old(stream.transactionId), slave, old(stream.nextLayer.incoming));
              && result == CheckCount(x, out.Length) && stream.nextLayer.incoming == x.unread
              && out[..] == x.filled + old(out[..])[|x.filled|..]
      ensures slave == 0 ==> && result == Returned(if out.Length <= 255 then SUCCESS else INVALID_RESPONSE)
                             && out[..] == old(out[..]) && stream.nextLayer.incoming == old(stream.nextLayer.incoming)
    {
      hide Frame, ReadPayloadResponse;
      BroadcastByteRead(code, out.Length, stream.transactionId, stream.nextLayer.incoming);
      var r := Plain(code, address, quantity);
      var tid := stream.SendRequest(slave, r);
      hide Encode;
      var target := new PayloadTarget(code, out);
      result := stream.ReadPayload(tid, slave, target);
      if result == Returned(SUCCESS) && target.byteCount != out.Length {
        result := Returned(INVALID_RESPONSE);
      }
    }

    /** The word-level `read_registers` (0x03) and `read_input_registers` (0x04). */
    method ReadWords(code: byte, slave: byte, address: word, out: array<word>) returns (result: Outcome)
      requires stream.Valid() && 3 <= code <= 4
      modifies stream`transactionId, stream.buffer, stream.nextLayer, out
      ensures stream.transactionId == (old(stream.transactionId) + 1) % 0x1_0000
      ensures stream.nextLayer.outgoing == old(stream.nextLayer.outgoing)
              + Frame(old(stream.transactionId), slave, Encode(Plain(code, address, ToWord(out.Length))))
      ensures var (r, rest) := WordRead(code, out.Length, old(stream.transactionId), slave, old(stream.nextLayer.incoming));
              && stream.nextLayer.incoming == rest
              && match r
                 case Values(ws) => result == Returned(SUCCESS) && out[..] == ws
                 case Failed(ec) => result == Returned(ec) && out[..] == old(out[..])
                 case Lost => result == Threw && out[..] == old(out[..])
      ensures slave == 0 ==> && result == Returned(if out.Length <= 127 then SUCCESS else INVALID_RESPONSE)
                             && stream.nextLayer.incoming == old(stream.nextLayer.incoming)
    {
      hide Frame, Encode, ByteRead, BytesWords;
      var buffer := new byte[2 * out.Length](_ => 0);
      assert buffer[..] == ZeroBytes(buffer.Length);
      result := ReadBytes(code, slave, address, ToWord(buffer.Length / 2), buffer);
      if result == Returned(SUCCESS) {
        MakeWords(buffer, out);
        ghost var x := ByteRead(code, 2 * out.Length, old(stream.transactionId), slave, old(stream.nextLayer.incoming));
        assert ZeroBytes(2 * out.Length)[|x.filled|..] == ZeroBytes(2 * out.Length - |x.filled|);
      }
    }

    /** `read_write_multiple_registers` (0x17): on success the read values are the payload prefix
        followed by zeros. */
    method ReadWriteMultipleRegisters(slave: byte, readAddress: word, readValues: array<word>,
                                      writeAddress: word, writeValues: seq<word>)
      returns (result: Outcome)
      requires stream.Valid() && |writeValues| <= 151
      modifies stream`transactionId, stream.buffer, stream.nextLayer, readValues
      ensures stream.transactionId == (old(stream.transactionId) + 1) % 0x1_0000
      ensures stream.nextLayer.outgoing == old(stream.nextLayer.outgoing)
              + Frame(old(stream.transactionId), slave,
                      Encode(ReadWriteRegisters(readAddress, ToWord(readValues.Length), writeAddress,
                                                ToWord(|writeValues|), ToByte(2 * |writeValues|), writeValues)))
      ensures var n := 2 * readValues.Length;
              var x := ByteRead(READ_WRITE_MULTIPLE_REGISTERS, n, old(stream.transactionId), slave,
                                old(stream.nextLayer.incoming));
              && result == x.outcome && stream.nextLayer.incoming == x.unread
              && readValues[..] == if result == Returned(SUCCESS) then BytesWords(x.filled + ZeroBytes(n - |x.filled|))
                                   else old(readValues[..])
      ensures slave == 0 ==> result == Returned(SUCCESS) && stream.nextLayer.incoming == old(stream.nextLayer.incoming)
    {
      hide Frame, ByteRead, BytesWords, ZeroBytes, Encode;
      var r := ReadWriteRegisters(readAddress, ToWord(readValues.Length), writeAddress,
                                  ToWord(|writeValues|), ToByte(2 * ToWord(|writeValues|)), writeValues);
      RegistersSize(r);
      BroadcastByteRead(READ_WRITE_MULTIPLE_REGISTERS, 2 * readValues.Length, stream.transactionId, stream.nextLayer.incoming);
      var tid := stream.SendRequest(slave, r);
      var buffer: array<byte>;
      result, buffer := ReadZeroFilled(READ_WRITE_MULTIPLE_REGISTERS, tid, slave, 2 * readValues.Length);
      if result == Returned(SUCCESS) {
        MakeWords(buffer, readValues);
      }
    }

    /** `read_response` into a new buffer of zeros. */
    method ReadZeroFilled(code: byte, tid: word, slave: byte, n: nat) returns (result: Outcome, buffer: array<byte>)
      requires stream.Valid()
      modifies stream.buffer, stream.nextLayer`incoming
      ensures fresh(buffer) && buffer.Length == n
      ensures var x := ByteRead(code, n, tid, slave, old(stream.nextLayer.incoming));
              && result == x.outcome && stream.nextLayer.incoming == x.unread
              && buffer[..] == x.filled + ZeroBytes(n - |x.filled|)
    {
      hide ReadPayloadResponse;
      buffer := new byte[n](_ => 0);
      assert buffer[..] == ZeroBytes(n);
      var target := new PayloadTarget(code, buffer);
      ghost var x := ByteRead(code, n, tid, slave, stream.nextLayer.incoming);
      assert ZeroBytes(n)[|x.filled|..] == ZeroBytes(n - |x.filled|);
      result := stream.ReadPayload(tid, slave, target);
    }

    /** `write_single_coil` (0x05) and `write_single_register` (0x06). Success does not depend on
        the address and value that the reply echoes. */
    method WriteSingle(code: byte, slave: byte, address: word, value: word) returns (result: Outcome)
      requires stream.Valid() && (code == WRITE_SINGLE_REGISTER || (code == WRITE_SINGLE_COIL && OnOff(value)))
      modifies stream`transactionId, stream.buffer, stream.nextLayer
      ensures stream.transactionId == (old(stream.transactionId) + 1) % 0x1_0000
      ensures stream.nextLayer.outgoing == old(stream.nextLayer.outgoing)
              + Frame(old(stream.transactionId), slave, Encode(Plain(code, address, value)))
      ensures var x := ReadEchoResponse(code, true, address, value, old(stream.transactionId), slave,
                                        old(stream.nextLayer.incoming));
              result == x.outcome && stream.nextLayer.incoming == x.unread
      ensures slave != 0 ==> (result == Returned(SUCCESS) <==>
                AcceptableEcho(code, true, old(stream.transactionId), slave, old(stream.nextLayer.incoming)))
      ensures slave == 0 ==> result == Returned(SUCCESS) && stream.nextLayer.incoming == old(stream.nextLayer.incoming)
    {
      hide Frame, ReadEchoResponse, AcceptableEcho;
      var tid := stream.SendRequest(slave, Plain(code, address, value));
      hide Encode;
      result := AwaitEcho(tid, slave, code, true, address, value);
    }

    /** The end of every write: `read_response` into a response object made from the request. */
    method AwaitEcho(tid: word, slave: byte, code: byte, onOff: bool, address: word, value: word) returns (result: Outcome)
      requires stream.Valid() && code < 0x80
      modifies stream.buffer, stream.nextLayer`incoming
      ensures var x := ReadEchoResponse(code, onOff, address, value, tid, slave, old(stream.nextLayer.incoming));
              result == x.outcome && stream.nextLayer.incoming == x.unread
      ensures slave != 0 ==> (result == Returned(SUCCESS) <==>
                AcceptableEcho(code, onOff, tid, slave, old(stream.nextLayer.incoming)))
      ensures slave == 0 ==> result == Returned(SUCCESS) && stream.nextLayer.incoming == old(stream.nextLayer.incoming)
    {
      hide ReadEchoResponse, AcceptableEcho;
      var resp := new EchoTarget(code, onOff, address, value);
      if slave != 0 {
        EchoAcceptedIff(code, onOff, address, value, tid, slave, stream.nextLayer.incoming);
      } else {
        BroadcastReads(code, 0, 0, onOff, address, value, tid, stream.nextLayer.incoming);
      }
      result := stream.ReadEcho(tid, slave, resp);
    }

    /** `write_multiple_coils` (0x0F) up to the wire: the request carries the packed coils. */
    method WriteMultipleCoils(slave: byte, address: word, values: seq<byte>) returns (result: Outcome)
      requires stream.Valid() && 1 <= |values| <= 1968
      modifies stream`transactionId, stream.buffer, stream.nextLayer
      ensures stream.transactionId == (old(stream.transactionId) + 1) % 0x1_0000
      ensures stream.nextLayer.outgoing == old(stream.nextLayer.outgoing)
              + Frame(old(stream.transactionId), slave,
                      Encode(WriteCoils(address, |values|, ByteCount(|values|), PackCoils(values))))
      ensures var x := ReadEchoResponse(WRITE_MULTIPLE_COILS, false, address, |values|, old(stream.transactionId),
                                        slave, old(stream.nextLayer.incoming));
              result == x.outcome && stream.nextLayer.incoming == x.unread
      ensures slave != 0 ==> (result == Returned(SUCCESS) <==>
                AcceptableEcho(WRITE_MULTIPLE_COILS, false, old(stream.transactionId), slave, old(stream.nextLayer.incoming)))
      ensures slave == 0 ==> result == Returned(SUCCESS) && stream.nextLayer.incoming == old(stream.nextLayer.incoming)
    {
      hide Frame, WordBytes, PackCoils, ReadEchoResponse, AcceptableEcho;
      CoilCountFits(|values|);
      var v := Pack(values);
      var r := WriteCoils(address, |values|, ToByte(ByteCount(|values|)), v[..]);
      var tid := stream.SendRequest(slave, r);
      hide Encode;
      result := AwaitEcho(tid, slave, WRITE_MULTIPLE_COILS, false, address, |values|);
    }

    /** `write_multiple_registers` (0x10). */
    method WriteMultipleRegisters(slave: byte, address: word, values: seq<word>) returns (result: Outcome)
      requires stream.Valid() && 1 <= |values| <= 123
      modifies stream`transactionId, stream.buffer, stream.nextLayer
      ensures stream.transactionId == (old(stream.transactionId) + 1) % 0x1_0000
      ensures stream.nextLayer.outgoing == old(stream.nextLayer.outgoing)
              + Frame(old(stream.transactionId), slave, Encode(WriteRegisters(address, |values|, 2 * |values|, values)))
      ensures var x := ReadEchoResponse(WRITE_MULTIPLE_REGISTERS, false, address, |values|, old(stream.transactionId),
                                        slave, old(stream.nextLayer.incoming));
              result == x.outcome && stream.nextLayer.incoming == x.unread
      ensures slave != 0 ==> (result == Returned(SUCCESS) <==>
                AcceptableEcho(WRITE_MULTIPLE_REGISTERS, false, old(stream.transactionId), slave, old(stream.nextLayer.incoming)))
      ensures slave == 0 ==> result == Returned(SUCCESS) && stream.nextLayer.incoming == old(stream.nextLayer.incoming)
    {
      hide Frame, Encode, ReadEchoResponse, AcceptableEcho;
      var r := WriteRegisters(address, ToWord(|values|), ToByte(2 * ToWord(|values|)), values);
      RegistersSize(r);
      var tid := stream.SendRequest(slave, r);
      result := AwaitEcho(tid, slave, WRITE_MULTIPLE_REGISTERS, false, address, |values|);
    }
  }
}
