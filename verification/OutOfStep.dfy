/** What happens on a connection after a call that is not faithful: the reply, or the rest of it,
    stays in the stream, and the calls that follow read it as their header. */
module OutOfStep {
  import opened Wire
  import opened Requests
  import opened Responses
  import opened Frames
  import opened Masters
  import opened Servers
  import opened RemoteCall

  /** A connection between calls: the next transaction id, and the bytes the slave has sent that no
      call has read. */
  datatype Line = Line(tid: word, unread: seq<byte>)

  /** One call, answered by the slave, behind the bytes already unread. */
  function CallOn(regs: seq<word>, l: Line, call: Call): (CallResult, Line) {
    var request := Frame(l.tid, call.unit, Encode(call.Request()));
    var (result, rest) := WordRead(READ_HOLDING_REGISTERS, call.size, l.tid, call.unit,
                                   l.unread + Serve(regs, [], request).out);
    (result, Line((l.tid + 1) % 0x1_0000, rest))
  }

  /** The bytes that the call finds. */
  function Arriving(regs: seq<word>, l: Line, call: Call): seq<byte> {
    l.unread + Frame(l.tid, call.unit, ReplyPdu(regs, call))
  }

  lemma CallOnArriving(regs: seq<word>, l: Line, call: Call)
    ensures var (result, rest) := WordRead(READ_HOLDING_REGISTERS, call.size, l.tid, call.unit, Arriving(regs, l, call));
            CallOn(regs, l, call) == (result, Line((l.tid + 1) % 0x1_0000, rest))
  {
    hide WordRead, Serve, Frame, Encode, ReplyPdu;
    ServeOneCall(regs, l.tid, call);
  }

  lemma ReplySize(regs: seq<word>, call: Call)
    requires |regs| == REGISTER_COUNT
    ensures |ReplyPdu(regs, call)| >= 2
  {
    hide ReplyPdu, Conclude;
    ReplyConcluded(regs, call);
  }

  // ---------------------------------------------------------------- one call

  /** The errors of the header checks. */
  predicate HeaderError(r: CallResult) {
    r == Failed(TRANSACTION_ID_INVALID) || r == Failed(ILLEGAL_PROTOCOL) || r == Failed(SLAVE_ID_INVALID)
    || r == Failed(INVALID_RESPONSE)
  }

  /** A call that does not find its header at the front fails, takes seven bytes and leaves behind
      its own reply as well. */
  lemma RefusedCall(regs: seq<word>, l: Line, call: Call)
    requires |regs| == REGISTER_COUNT && call.unit != 0
    requires !MatchingHeader(l.tid, call.unit, Arriving(regs, l, call))
    ensures var (result, l') := CallOn(regs, l, call);
            && HeaderError(result) && l'.unread == Arriving(regs, l, call)[HEADER_SIZE..]
            && |l'.unread| == |l.unread| + |ReplyPdu(regs, call)| >= |l.unread| + 2
  {
    hide CallOn, ReplyPdu, Frame, ParseHeader, ReceivePayload, BytesWords, MatchingHeader;
    var s := Arriving(regs, l, call);
    CallOnArriving(regs, l, call);
    ReplySize(regs, call);
    HeaderAcceptedIff(l.tid, call.unit, s);
  }

  /** After a call to a nonzero unit, whatever was unread before, the connection is in step if and
      only if the bytes found start with a matching header whose length covers all of them. */
  lemma InStepIff(regs: seq<word>, l: Line, call: Call)
    requires |regs| == REGISTER_COUNT && call.unit != 0
    ensures var (result, l') := CallOn(regs, l, call);
            var s := Arriving(regs, l, call);
            result != Lost && l'.unread == [] <==> MatchingHeader(l.tid, call.unit, s) && |s| == 6 + s[5]
  {
    hide CallOn, ReplyPdu, Frame, ParseHeader, CheckHeader, ReceivePayload, BytesWords, MatchingHeader;
    var s := Arriving(regs, l, call);
    CallOnArriving(regs, l, call);
    ReplySize(regs, call);
    HeaderAcceptedIff(l.tid, call.unit, s);
  }

  // ---------------------------------------------------------------- the unfaithful calls

  /** A broadcast leaves its reply; the next call takes the header of that reply for its own and
      always fails on the transaction id, leaving the old body and its own reply. */
  lemma AfterBroadcast(regs: seq<word>, regs': seq<word>, tid: word, call: Call, next: Call)
    requires |regs| == |regs'| == REGISTER_COUNT && call.unit == 0 && next.unit != 0
    ensures var l := CallOn(regs, Line(tid, []), call).1;
            && l.unread == Frame(tid, 0, ReplyPdu(regs, call))
            && CallOn(regs', l, next)
               == (Failed(TRANSACTION_ID_INVALID),
                   Line((tid + 2) % 0x1_0000, ReplyPdu(regs, call) + Frame(l.tid, next.unit, ReplyPdu(regs', next))))
  {
    hide ReplyPdu, Frame, ParseHeader, ReceivePayload, BytesWords, Serve, Encode, CallOn;
    var pdu := ReplyPdu(regs, call);
    var l := CallOn(regs, Line(tid, []), call).1;
    CallOnArriving(regs, Line(tid, []), call);
    assert [] + Frame(tid, 0, pdu) == Frame(tid, 0, pdu);
    CallOnArriving(regs', l, next);
    FrameStart(tid, 0, pdu, Frame(l.tid, next.unit, ReplyPdu(regs', next)));
  }

  /** A read of 124 or 125 existing registers fails and leaves the body of its reply. */
  lemma AfterLongRead(regs: seq<word>, tid: word, call: Call)
    requires |regs| == REGISTER_COUNT && Long(call)
    ensures CallOn(regs, Line(tid, []), call)
            == (Failed(INVALID_RESPONSE), Line((tid + 1) % 0x1_0000, ReplyPdu(regs, call)))
  {
    hide ReplyPdu, Frame, AwaitReply, ReceivePayload, BytesWords, CallOn, Conclude;
    var pdu := ReplyPdu(regs, call);
    CallOnArriving(regs, Line(tid, []), call);
    ReplyConcluded(regs, call);
    assert [] + Frame(tid, call.unit, pdu) == Frame(tid, call.unit, pdu) + [];
    LongFrameRefused(tid, call.unit, pdu, []);
    assert pdu + [] == pdu;
  }

  predicate Long(call: Call) {
    call.unit != 0 && 124 <= call.size <= 125 && call.address + call.size <= REGISTER_COUNT
  }

  // ---------------------------------------------------------------- runs

  /** The calls `calls` in order; `regss` gives the registers as each one finds them. */
  function CallRun(regss: seq<seq<word>>, l: Line, calls: seq<Call>): (seq<CallResult>, Line)
    requires |regss| == |calls|
    decreases |calls|
  {
    if calls == [] then ([], l)
    else
      var (result, l') := CallOn(regss[0], l, calls[0]);
      var (results, end) := CallRun(regss[1..], l', calls[1..]);
      ([result] + results, end)
  }

  /** No call of the run finds its header at the front. */
  predicate NeverMatches(regss: seq<seq<word>>, l: Line, calls: seq<Call>)
    requires |regss| == |calls|
    decreases |calls|
  {
    calls == [] ||
    (&& !MatchingHeader(l.tid, calls[0].unit, Arriving(regss[0], l, calls[0]))
     && NeverMatches(regss[1..], CallOn(regss[0], l, calls[0]).1, calls[1..]))
  }

  function ReplyBytes(regss: seq<seq<word>>, calls: seq<Call>): nat
    requires |regss| == |calls|
  {
    if calls == [] then 0 else |ReplyPdu(regss[0], calls[0])| + ReplyBytes(regss[1..], calls[1..])
  }

  predicate Ordinary(regss: seq<seq<word>>, calls: seq<Call>) {
    && |regss| == |calls|
    && (forall i :: 0 <= i < |regss| ==> |regss[i]| == REGISTER_COUNT)
    && (forall i :: 0 <= i < |calls| ==> calls[i].unit != 0)
  }

  /** A connection out of step stays so until stale bytes happen to match: as long as no call finds
      its header, every call fails and exactly the bodies of all their replies are added to the
      unread bytes, so the stream never empties. */
  lemma {:induction false} StaysOutOfStep(regss: seq<seq<word>>, l: Line, calls: seq<Call>)
    requires Ordinary(regss, calls) && NeverMatches(regss, l, calls)
    ensures var (results, end) := CallRun(regss, l, calls);
            && |results| == |calls| && (forall i :: 0 <= i < |results| ==> HeaderError(results[i]))
            && |end.unread| == |l.unread| + ReplyBytes(regss, calls) >= |l.unread| + 2 * |calls|
    decreases |calls|
  {
    hide CallOn, MatchingHeader, Arriving, ReplyPdu, HeaderError;
    if calls != [] {
      RefusedCall(regss[0], l, calls[0]);
      StaysOutOfStep(regss[1..], CallOn(regss[0], l, calls[0]).1, calls[1..]);
    }
  }

  /** The body of a long reply from registers that all hold `v`. */
  predicate Uniform(pdu: seq<byte>, v: word) {
    forall j :: 2 <= j < |pdu| ==> pdu[j] == if j % 2 == 0 then High(v) else Low(v)
  }

  lemma LongReply(v: word, call: Call)
    requires Long(call)
    ensures var pdu := ReplyPdu(seq(REGISTER_COUNT, _ => v), call);
            |pdu| == 2 + 2 * call.size && Uniform(pdu, v)
  {
    hide High, Low, WordsBytes;
    var regs := seq(REGISTER_COUNT, _ => v);
    var ws := regs[call.address..call.address + call.size];
    assert ReplyPdu(regs, call) == [READ_HOLDING_REGISTERS, ToByte(2 * call.size)] + WordsBytes(ws);
    UniformWords(ws, v);
  }

  lemma UniformWords(ws: seq<word>, v: word)
    requires forall i :: 0 <= i < |ws| ==> ws[i] == v
    ensures forall j :: 0 <= j < 2 * |ws| ==> WordsBytes(ws)[j] == if j % 2 == 0 then High(v) else Low(v)
  {
    hide High, Low;
  }

  /** Seven bytes of such a body are never a matching header. */
  lemma UniformNeverMatches(pdu: seq<byte>, v: word, k: nat, t: seq<byte>, tid: word, unit: byte)
    requires Uniform(pdu, v) && k + HEADER_SIZE <= |pdu|
    ensures !MatchingHeader(tid, unit, pdu[k..] + t)
  {
    var s := pdu[k..] + t;
    assert s[2] == pdu[k + 2] && s[3] == pdu[k + 3] && s[4] == pdu[k + 4] && s[5] == pdu[k + 5];
    MakeWordIff(High(v), Low(v), v);
  }

  lemma {:induction false} PoisonedRun(pdu: seq<byte>, v: word, k: nat, t: seq<byte>, tid: word, regss: seq<seq<word>>, calls: seq<Call>)
    requires Ordinary(regss, calls) && Uniform(pdu, v) && k + HEADER_SIZE * |calls| <= |pdu|
    ensures NeverMatches(regss, Line(tid, pdu[k..] + t), calls)
    decreases |calls|
  {
    hide CallOn, MatchingHeader, ReplyPdu, Frame, Uniform;
    if calls != [] {
      var l := Line(tid, pdu[k..] + t);
      var f := Frame(tid, calls[0].unit, ReplyPdu(regss[0], calls[0]));
      Assoc(pdu[k..], t, f);
      UniformNeverMatches(pdu, v, k, t + f, tid, calls[0].unit);
      RefusedCall(regss[0], l, calls[0]);
      assert (pdu[k..] + (t + f))[HEADER_SIZE..] == pdu[k + HEADER_SIZE..] + (t + f);
      assert CallOn(regss[0], l, calls[0]).1.tid == (tid + 1) % 0x1_0000 by { CallOnArriving(regss[0], l, calls[0]); }
      PoisonedRun(pdu, v, k + HEADER_SIZE, t + f, (tid + 1) % 0x1_0000, regss[1..], calls[1..]);
    }
  }

  /** After one read of 124 registers of the example slave, which all hold the same value, at least
      the next 35 calls on that connection fail (36 after 125), whatever units, addresses and sizes
      they ask for, whatever the registers hold by then and whatever the transaction id is. */
  lemma LongReadPoisons(v: word, tid: word, call: Call, regss: seq<seq<word>>, calls: seq<Call>)
    requires Long(call) && Ordinary(regss, calls) && |calls| <= if call.size == 124 then 35 else 36
    ensures var l := CallOn(seq(REGISTER_COUNT, _ => v), Line(tid, []), call).1;
            var (results, end) := CallRun(regss, l, calls);
            && |results| == |calls| && (forall i :: 0 <= i < |results| ==> HeaderError(results[i]))
            && end.unread != []
  {
    hide CallOn, ReplyPdu, CallRun, NeverMatches, Uniform, HeaderError;
    var regs := seq(REGISTER_COUNT, _ => v);
    var pdu := ReplyPdu(regs, call);
    AfterLongRead(regs, tid, call);
    LongReply(v, call);
    var l := CallOn(regs, Line(tid, []), call).1;
    assert pdu[0..] + [] == pdu;
    PoisonedRun(pdu, v, 0, [], l.tid, regss, calls);
    StaysOutOfStep(regss, l, calls);
  }
}
