/** One register read over the wire: request frame, slave, reply frame, result. */
module RemoteCall {
  import opened Wire
  import opened Requests
  import opened Responses
  import opened Frames
  import opened Masters
  import opened Servers

  /** A word-level `read_registers` call: the unit, the address and the size of `out`. */
  datatype Call = Call(unit: byte, address: word, size: nat) {
    function Request(): Request { Plain(READ_HOLDING_REGISTERS, address, ToWord(size)) }

    /** The calls that the wire carries faithfully. The client refuses replies of 124 and 125
        registers, a broadcast is answered by this slave although nobody waits for it, and sizes
        above 65535 are truncated on the way out. */
    predicate Faithful() {
      && unit != 0
      && (size < 0x1_0000 || !(1 <= ToWord(size) <= 125))
      && !(124 <= size <= 125 && address + size <= REGISTER_COUNT)
    }
  }

  /** The same read made directly on the registers. */
  function LocalRead(regs: seq<word>, call: Call): CallResult {
    if !(1 <= call.size <= 125) then Failed(ILLEGAL_DATA_VALUE)
    else if call.address + call.size > |regs| then Failed(ILLEGAL_DATA_ADDRESS)
    else Values(regs[call.address..call.address + call.size])
  }

  function ReplyPdu(regs: seq<word>, call: Call): seq<byte> { EncodeReply(Handle(regs, call.Request())) }

  /** The end of the client's call, once the body of the reply is there. */
  function Conclude(call: Call, pdu: seq<byte>): CallResult {
    var n := 2 * call.size;
    var r := ReceivePayload(READ_HOLDING_REGISTERS, n, ToByte(n), pdu);
    if r.ec != SUCCESS then Failed(r.ec)
    else if r.byteCount != n then Failed(INVALID_RESPONSE)
    else Values(BytesWords(r.filled + ZeroBytes(n - |r.filled|)))
  }

  /** `Conclude` is what the master's word read returns once it has a body. */
  lemma ConcludeIsWordRead(call: Call, tid: word, s: seq<byte>, pdu: seq<byte>, rest: seq<byte>)
    requires AwaitReply(tid, call.unit, s) == (Body(pdu), rest)
    ensures WordRead(READ_HOLDING_REGISTERS, call.size, tid, call.unit, s) == (Conclude(call, pdu), rest)
  {
    hide AwaitReply, ReceivePayload, BytesWords;
  }

  lemma ConcludeException(call: Call, e: byte)
    requires e != SUCCESS
    ensures Conclude(call, EncodeReply(Exception(READ_HOLDING_REGISTERS, e))) == Failed(e)
    ensures |EncodeReply(Exception(READ_HOLDING_REGISTERS, e))| == 2
  {
    hide TakeHead, BytesWords;
    var pdu := EncodeReply(Exception(READ_HOLDING_REGISTERS, e));
    ExceptionRoundTrip(READ_HOLDING_REGISTERS, READ_HOLDING_REGISTERS, e, []);
    assert pdu + [] == pdu;
  }

  lemma ConcludePayload(call: Call, ws: seq<word>)
    requires |ws| == ToWord(call.size) <= 125
    ensures Conclude(call, EncodeReply(PayloadOf(READ_HOLDING_REGISTERS, WordsBytes(ws))))
            == if |ws| == call.size then Values(ws) else Failed(INVALID_RESPONSE)
    ensures |EncodeReply(PayloadOf(READ_HOLDING_REGISTERS, WordsBytes(ws)))| == 2 + 2 * |ws|
  {
    hide ReceivePayload, WordsBytes, BytesWords;
    var bs, n := WordsBytes(ws), 2 * call.size;
    var pdu := EncodeReply(PayloadOf(READ_HOLDING_REGISTERS, bs));
    PayloadRoundTripIff(READ_HOLDING_REGISTERS, bs, n, ToByte(n), []);
    assert pdu + [] == pdu;
    WordsRoundTrip(ws);
    if |ws| == call.size {
      assert bs + ZeroBytes(0) == bs;
    }
  }

  /** What the client makes of the slave's reply, in every case. */
  lemma ReplyConcluded(regs: seq<word>, call: Call)
    requires |regs| == REGISTER_COUNT
    ensures var q := ToWord(call.size);
            var pdu := ReplyPdu(regs, call);
            if !(1 <= q <= 125) then |pdu| == 2 && Conclude(call, pdu) == Failed(ILLEGAL_DATA_VALUE)
            else if call.address + q > REGISTER_COUNT then |pdu| == 2 && Conclude(call, pdu) == Failed(ILLEGAL_DATA_ADDRESS)
            else |pdu| == 2 + 2 * q && Conclude(call, pdu) == if q == call.size then LocalRead(regs, call) else Failed(INVALID_RESPONSE)
  {
    hide Conclude, EncodeReply, WordsBytes;
    ConcludeException(call, ILLEGAL_DATA_VALUE);
    ConcludeException(call, ILLEGAL_DATA_ADDRESS);
    var q := ToWord(call.size);
    if 1 <= q <= 125 && call.address + q <= REGISTER_COUNT {
      ConcludePayload(call, regs[call.address..call.address + q]);
    }
  }

  /** A faithful call concludes with the local result, from a reply that the client accepts. */
  lemma FaithfulConclusion(regs: seq<word>, call: Call)
    requires |regs| == REGISTER_COUNT && call.Faithful()
    ensures 1 <= |ReplyPdu(regs, call)| <= 248
    ensures Conclude(call, ReplyPdu(regs, call)) == LocalRead(regs, call)
  {
    hide Conclude, EncodeReply, Handle, ReplyPdu;
    ReplyConcluded(regs, call);
  }

  /** The request frame, everything the slave writes for it, and the master's read of that. */
  function OverTheWire(regs: seq<word>, tid: word, call: Call): (CallResult, seq<byte>) {
    var request := Frame(tid, call.unit, Encode(call.Request()));
    WordRead(READ_HOLDING_REGISTERS, call.size, tid, call.unit, Serve(regs, [], request).out)
  }

  lemma ServeOneCall(regs: seq<word>, tid: word, call: Call)
    ensures Serve(regs, [], Frame(tid, call.unit, Encode(call.Request()))).out == Frame(tid, call.unit, ReplyPdu(regs, call))
  {
    hide Frame, Encode, EncodeReply, Handle, NextRequest;
    var request := Frame(tid, call.unit, Encode(call.Request()));
    NextOfFrame(Sent(tid, call.unit, call.Request()), []);
    assert request + [] == request;
    assert Serve(regs, [], []).out == [] by { NoInput(); }
    assert Answer(regs, tid, call.unit, call.Request()) + [] == Answer(regs, tid, call.unit, call.Request());
  }

  lemma NoInput()
    ensures NextRequest([]) == Incomplete
  {}

  /** A remote read returns exactly what a local read of the registers would, and leaves nothing
      behind in the stream, if and only if the call is faithful. */
  lemma RemoteEqualsLocalIff(regs: seq<word>, tid: word, call: Call)
    requires |regs| == REGISTER_COUNT
    ensures OverTheWire(regs, tid, call) == (LocalRead(regs, call), []) <==> call.Faithful()
  {
    hide Frame, Encode, ReplyPdu, Conclude, AwaitReply, WordRead, Serve;
    var pdu := ReplyPdu(regs, call);
    var s := Frame(tid, call.unit, pdu);
    ServeOneCall(regs, tid, call);
    ReplyConcluded(regs, call);
    assert s + [] == s && pdu + [] == pdu;
    if call.unit == 0 {
      BroadcastLeavesReply(call, tid, s);
    } else if |pdu| <= 248 {
      AwaitFrameIff(tid, call.unit, pdu, []);
      ConcludeIsWordRead(call, tid, s, pdu, []);
    } else {
      LongFrameRefused(tid, call.unit, pdu, []);
      RefusedLeavesBody(call, tid, s, pdu);
    }
  }

  lemma BroadcastLeavesReply(call: Call, tid: word, s: seq<byte>)
    requires call.unit == 0
    ensures WordRead(READ_HOLDING_REGISTERS, call.size, tid, call.unit, s).1 == s
  {
    hide BytesWords;
  }

  lemma RefusedLeavesBody(call: Call, tid: word, s: seq<byte>, rest: seq<byte>)
    requires AwaitReply(tid, call.unit, s) == (Refused(INVALID_RESPONSE), rest)
    ensures WordRead(READ_HOLDING_REGISTERS, call.size, tid, call.unit, s).1 == rest
  {
    hide BytesWords, AwaitReply;
  }
}
