/** The example slave of examples/tcpserver_coroutine_with_data.cpp: 200 holding registers, the
    request handler, the per-connection message loop and the posted register update. */
module Servers {
  import opened Wire
  import opened Requests
  import opened Responses
  import opened Buffers
  import opened Codec
  import opened Frames
  import opened Layout
  import opened Packing
  import opened Transports
  import opened TcpStreams

  const REGISTER_COUNT: nat := 200

  // ---------------------------------------------------------------- the handler

  /** The reply that the handler writes for a request, given the registers. */
  function Handle(regs: seq<word>, r: Request): Reply {
    if r.Plain? && r.code == READ_HOLDING_REGISTERS then
      if !(1 <= r.operand <= 125) then Exception(r.code, ILLEGAL_DATA_VALUE)
      else if r.address + r.operand > |regs| then Exception(r.code, ILLEGAL_DATA_ADDRESS)
      else PayloadOf(r.code, WordsBytes(regs[r.address..r.address + r.operand]))
    else Exception(r.Code(), ILLEGAL_FUNCTION)
  }

  /** The answer to a register read, in bytes: an illegal value, an illegal address, or the
      registers, most significant byte first. */
  lemma ReadAnswered(regs: seq<word>, a: word, q: word)
    ensures var s := EncodeReply(Handle(regs, Plain(0x03, a, q)));
            if !(1 <= q <= 125) then s == [0x83, 0x03]
            else if a + q > |regs| then s == [0x83, 0x02]
            else |s| == 2 + 2 * q && s[0] == 0x03 && s[1] == 2 * q && WordsFrom(s, 2, regs[a..a + q])
  {
    hide WordsBytes, WordsFrom;
    if 1 <= q <= 125 && a + q <= |regs| {
      var ws := regs[a..a + q];
      EncodedPayload(0x03, WordsBytes(ws));
      WordsBytesFrom([0x03, 2 * q], ws, [0x03, 2 * q] + WordsBytes(ws));
    }
  }

  /** Every other request is answered with its function code and illegal function. */
  lemma OtherAnswered(regs: seq<word>, r: Request)
    requires r.Consistent() && r.Code() != 0x03
    ensures EncodeReply(Handle(regs, r)) == [r.Code() + 0x80, 0x01]
  {}

  // ---------------------------------------------------------------- one connection

  /** What the two reads of one pass of the loop obtain. */
  datatype Next =
    | Incomplete
    | Undersized(tid: word, unit: byte, rest: seq<byte>)
    | Oversized
    | Undecodable
    | Whole(tid: word, unit: byte, request: Request, rest: seq<byte>)

  /** One pass of the loop over the bytes `s` still to come. As parenthesised, the length test
      rejects only lengths below 2; `Oversized` marks a body that its buffer could not hold. */
  function NextRequest(s: seq<byte>): (n: Next)
    ensures n.Undersized? || n.Whole? ==> |n.rest| < |s|
  {
    if |s| < HEADER_SIZE then Incomplete
    else
      var h := ParseHeader(s[..HEADER_SIZE]);
      if h.length < 2 then Undersized(h.transactionId, h.unitId, s[HEADER_SIZE..])
      else if 6 + h.length > BUFFER_SIZE then Oversized
      else if |s| < 6 + h.length then Incomplete
      else
        match Decode(s[HEADER_SIZE..6 + h.length])
        case Fail(_, _) => Undecodable
        case Ok(r, _) => Whole(h.transactionId, h.unitId, r, s[6 + h.length..])
  }

  /** Why the loop stops: the input is used up, a request did not decode, or a body too large. */
  datatype ServeEnd = InputUsed | DecodeError | TooLarge

  function Answer(regs: seq<word>, tid: word, unit: byte, r: Request): seq<byte> {
    Frame(tid, unit, EncodeReply(Handle(regs, r)))
  }

  function Complaint(tid: word, unit: byte): seq<byte> {
    Frame(tid, unit, EncodeReply(Exception(0, REQUEST_TOO_BIG)))
  }

  /** The registers after the posted update number `i`. */
  function AllEqual(n: nat, i: nat): (regs: seq<word>)
    ensures |regs| == n
  {
    seq(n, _ => ToWord(i))
  }

  /** The registers after posted updates, in order. */
  function AfterUpdates(regs: seq<word>, updates: seq<nat>): (r: seq<word>)
    ensures |r| == |regs|
    decreases |updates|
  {
    if updates == [] then regs else AfterUpdates(AllEqual(|regs|, updates[0]), updates[1..])
  }

  /** The registers that a pass finds, given the updates that run while each pass is suspended in
      its reads, and the updates of the passes after it. */
  function Current(regs: seq<word>, posted: seq<seq<nat>>): (r: seq<word>)
    ensures |r| == |regs|
  {
    if posted == [] then regs else AfterUpdates(regs, posted[0])
  }

  function Later(posted: seq<seq<nat>>): seq<seq<nat>> { if posted == [] then [] else posted[1..] }

  /** What a connection has written when its loop stops, why it stopped, and the registers then. */
  datatype Served = Served(out: seq<byte>, end: ServeEnd, regs: seq<word>) {
    function After(d: seq<byte>): Served { this.(out := d + out) }
  }

  /** Everything a connection does for the input `s`, while updates are posted in between. */
  function Serve(regs: seq<word>, posted: seq<seq<nat>>, s: seq<byte>): Served
    decreases |s|
  {
    var regs, posted := Current(regs, posted), Later(posted);
    match NextRequest(s)
    case Incomplete => Served([], InputUsed, regs)
    case Oversized => Served([], TooLarge, regs)
    case Undecodable => Served([], DecodeError, regs)
    case Undersized(tid, unit, rest) => Serve(regs, posted, rest).After(Complaint(tid, unit))
    case Whole(tid, unit, request, rest) => Serve(regs, posted, rest).After(Answer(regs, tid, unit, request))
  }

  /** What is done for any bytes whatever: a short length gets a complaint under its ids and costs
      the seven header bytes; a body too large or one that does not decode ends the loop; a decoded
      request is answered under its ids and taken off the input. */
  lemma ServedBytes(regs: seq<word>, posted: seq<seq<nat>>, s: seq<byte>)
    ensures var now, later := Current(regs, posted), Later(posted);
            Serve(regs, posted, s) ==
            if |s| < 7 then Served([], InputUsed, now)
            else if WordAt(s, 4) < 2 then
              Serve(now, later, s[7..]).After([s[0], s[1], 0, 0, 0, 3, s[6], 0x80, 0x11])
            else if WordAt(s, 4) > 314 then Served([], TooLarge, now)
            else if |s| < 6 + WordAt(s, 4) then Served([], InputUsed, now)
            else match Decode(s[7..6 + WordAt(s, 4)])
                 case Fail(_, _) => Served([], DecodeError, now)
                 case Ok(r, _) =>
                   Serve(now, later, s[6 + WordAt(s, 4)..]).After(Frame(WordAt(s, 0), s[6], EncodeReply(Handle(now, r))))
  {
    hide Decode, Handle, EncodeReply, Frame, Current, Later, NextRequest, WordAt, Complaint;
    NextBytes(s);
    if |s| >= 7 && WordAt(s, 4) < 2 { ComplaintBytes(s, s[6]); }
  }

  lemma NextBytes(s: seq<byte>)
    ensures NextRequest(s) ==
            if |s| < 7 then Incomplete
            else if WordAt(s, 4) < 2 then Undersized(WordAt(s, 0), s[6], s[7..])
            else if WordAt(s, 4) > 314 then Oversized
            else if |s| < 6 + WordAt(s, 4) then Incomplete
            else match Decode(s[7..6 + WordAt(s, 4)])
                 case Fail(_, _) => Undecodable
                 case Ok(r, _) => Whole(WordAt(s, 0), s[6], r, s[6 + WordAt(s, 4)..])
  {
    hide Decode, ParseHeader;
    if |s| >= 7 { assert ParseHeader(s[..7]) == MbapHeader(WordAt(s, 0), WordAt(s, 2), WordAt(s, 4), s[6]) by { ParsedBytes(s); } }
  }

  lemma ParsedBytes(s: seq<byte>)
    requires |s| >= 7
    ensures ParseHeader(s[..7]) == MbapHeader(WordAt(s, 0), WordAt(s, 2), WordAt(s, 4), s[6])
  {}

  lemma ComplaintBytes(s: seq<byte>, unit: byte)
    requires |s| >= 2
    ensures Complaint(WordAt(s, 0), unit) == [s[0], s[1], 0, 0, 0, 3, unit, 0x80, 0x11]
  {
    hide Frame;
    FrameBytes(WordAt(s, 0), unit, [0x80, 0x11]);
    EncodedException(0, 0x11);
  }

  /** A request of any other kind than 0x03, whatever follows it, gets exactly nine bytes. */
  lemma OtherServed(regs: seq<word>, posted: seq<seq<nat>>, tid: word, unit: byte, r: Request, t: seq<byte>)
    requires r.Consistent() && r.Code() != 0x03
    ensures Serve(regs, posted, Frame(tid, unit, Encode(r)) + t)
            == Serve(Current(regs, posted), Later(posted), t)
               .After([tid / 0x100, tid % 0x100, 0, 0, 0, 3, unit, r.Code() + 0x80, 0x01])
  {
    hide Frame, Encode, EncodeReply, Handle, NextRequest, Current, Later;
    NextOfFrame(Sent(tid, unit, r), t);
    OtherAnswered(Current(regs, posted), r);
    FrameBytes(tid, unit, [r.Code() + 0x80, 0x01]);
  }

  /** Posted updates in bulk: the registers all hold the number of the last one. */
  lemma {:induction false} LastUpdateCounts(regs: seq<word>, updates: seq<nat>)
    requires updates != []
    ensures AfterUpdates(regs, updates) == seq(|regs|, _ => updates[|updates| - 1] % 0x1_0000)
    decreases |updates|
  {
    if |updates| == 1 {
      assert updates[1..] == [];
    } else {
      LastUpdateCounts(AllEqual(|regs|, updates[0]), updates[1..]);
    }
  }

  lemma {:induction false} UpdatesConcat(regs: seq<word>, a: seq<nat>, b: seq<nat>)
    ensures AfterUpdates(regs, a + b) == AfterUpdates(AfterUpdates(regs, a), b)
    decreases |a|
  {
    if a == [] {
      assert a + b == b;
    } else {
      assert (a + b)[1..] == a[1..] + b;
      UpdatesConcat(AllEqual(|regs|, a[0]), a[1..], b);
    }
  }

  /** The updates of the first `n` passes, in order. */
  function UpdatesOf(posted: seq<seq<nat>>, n: nat): seq<nat> {
    if n == 0 || posted == [] then [] else posted[0] + UpdatesOf(posted[1..], n - 1)
  }

  /** The registers that pass number `n` has found and left are those after all updates posted up to
      it, each exactly once and in order. */
  lemma {:induction false} RegistersFollowUpdates(regs: seq<word>, posted: seq<seq<nat>>, n: nat)
    ensures RegistersAfter(regs, posted, n) == AfterUpdates(regs, UpdatesOf(posted, n))
    ensures PostedAfter(posted, n) == if n <= |posted| then posted[n..] else []
    decreases n
  {
    hide AfterUpdates;
    assert AfterUpdates(regs, []) == regs by { NoUpdates(regs); }
    if n > 0 {
      RegistersFollowUpdates(Current(regs, posted), Later(posted), n - 1);
      if posted == [] {
        assert UpdatesOf([], n - 1) == [];
      } else {
        UpdatesConcat(regs, posted[0], UpdatesOf(posted[1..], n - 1));
      }
    }
  }

  lemma NoUpdates(regs: seq<word>)
    ensures AfterUpdates(regs, []) == regs
  {}

  /** A request together with the header ids it travels under. */
  datatype Sent = Sent(tid: word, unit: byte, request: Request)

  function RequestStream(qs: seq<Sent>): seq<byte> {
    if qs == [] then [] else Frame(qs[0].tid, qs[0].unit, Encode(qs[0].request)) + RequestStream(qs[1..])
  }

  /** One answer per request, each from the registers that its own pass found. */
  function AnswerStream(regs: seq<word>, posted: seq<seq<nat>>, qs: seq<Sent>): seq<byte>
    decreases |qs|
  {
    if qs == [] then []
    else
      var regs, q := Current(regs, posted), qs[0];
      Answer(regs, q.tid, q.unit, q.request) + AnswerStream(regs, Later(posted), qs[1..])
  }

  /** The registers after `n` passes, and the updates posted after them. */
  function RegistersAfter(regs: seq<word>, posted: seq<seq<nat>>, n: nat): seq<word>
    decreases n
  {
    if n == 0 then regs else RegistersAfter(Current(regs, posted), Later(posted), n - 1)
  }

  function PostedAfter(posted: seq<seq<nat>>, n: nat): seq<seq<nat>>
    decreases n
  {
    if n == 0 then posted else PostedAfter(Later(posted), n - 1)
  }

  /** The loop takes one request off the front of a stream of frames. */
  lemma NextOfFrame(q: Sent, t: seq<byte>)
    requires q.request.Consistent()
    ensures NextRequest(Frame(q.tid, q.unit, Encode(q.request)) + t) == Whole(q.tid, q.unit, q.request, t)
  {
    hide ParseHeader, Frame, Decode, Encode;
    var pdu := Encode(q.request);
    var s := Frame(q.tid, q.unit, pdu) + t;
    FrameStart(q.tid, q.unit, pdu, t);
    EncodedSize(q.request);
    var n := FrameHeader(q.tid, q.unit, pdu).length;
    assert s[HEADER_SIZE..6 + n] == s[HEADER_SIZE..][..|pdu|] == pdu;
    assert s[6 + n..] == s[HEADER_SIZE..][|pdu|..] == t;
    assert pdu + [] == pdu;
    DecodeIffEncode(pdu, q.request, []);
  }

  /** Pipelining: any number of consistent requests of any of the nine kinds, sent back to back,
      get exactly one answer each, in order, under their own ids and from the registers at their
      own turn, whatever updates are posted in between and whatever follows the requests. */
  lemma {:induction false} PipelinedRequestsAnswered(regs: seq<word>, posted: seq<seq<nat>>, qs: seq<Sent>, t: seq<byte>)
    requires forall i :: 0 <= i < |qs| ==> qs[i].request.Consistent()
    ensures Serve(regs, posted, RequestStream(qs) + t)
            == Serve(RegistersAfter(regs, posted, |qs|), PostedAfter(posted, |qs|), t).After(AnswerStream(regs, posted, qs))
    decreases |qs|
  {
    hide Answer, NextRequest, Frame, Encode, Current, Later;
    if qs == [] {
      assert RequestStream(qs) + t == t;
      assert AnswerStream(regs, posted, qs) + Serve(regs, posted, t).out == Serve(regs, posted, t).out;
    } else {
      var q, rest := qs[0], RequestStream(qs[1..]);
      var regs', posted' := Current(regs, posted), Later(posted);
      Assoc(Frame(q.tid, q.unit, Encode(q.request)), rest, t);
      NextOfFrame(q, rest + t);
      PipelinedRequestsAnswered(regs', posted', qs[1..], t);
      Assoc(Answer(regs', q.tid, q.unit, q.request), AnswerStream(regs', posted', qs[1..]),
            Serve(RegistersAfter(regs, posted, |qs|), PostedAfter(posted, |qs|), t).out);
    }
  }

  /** Answer number `k` comes from the registers after the updates of the first `k + 1` passes. */
  lemma {:induction false} AnswersInTurn(regs: seq<word>, posted: seq<seq<nat>>, qs: seq<Sent>, k: nat)
    requires k < |qs|
    ensures AnswerStream(regs, posted, qs[..k + 1])
            == AnswerStream(regs, posted, qs[..k])
               + Answer(RegistersAfter(regs, posted, k + 1), qs[k].tid, qs[k].unit, qs[k].request)
    decreases k
  {
    hide Answer, Current, Later;
    if k == 0 {
      assert qs[..1] == [qs[0]] && AnswerStream(regs, posted, qs[..0]) == [];
      assert RegistersAfter(regs, posted, 1) == RegistersAfter(Current(regs, posted), Later(posted), 0);
      OneAnswer(regs, posted, qs[0]);
    } else {
      var regs', posted', q := Current(regs, posted), Later(posted), qs[0];
      AnswersInTurn(regs', posted', qs[1..], k - 1);
      assert qs[1..][..k - 1] == qs[..k][1..] && qs[1..][..k] == qs[..k + 1][1..];
      Assoc(Answer(regs', q.tid, q.unit, q.request), AnswerStream(regs', posted', qs[1..][..k - 1]),
            Answer(RegistersAfter(regs, posted, k + 1), qs[k].tid, qs[k].unit, qs[k].request));
    }
  }

  lemma OneAnswer(regs: seq<word>, posted: seq<seq<nat>>, q: Sent)
    ensures AnswerStream(regs, posted, [q]) == Answer(Current(regs, posted), q.tid, q.unit, q.request)
  {
    hide Answer, Current, Later;
    var a := Answer(Current(regs, posted), q.tid, q.unit, q.request);
    assert [q][1..] == [] && a + [] == a;
  }

  // ---------------------------------------------------------------- the running server

  class Server {
    const holding: array<word>

    constructor ()
      ensures fresh(holding) && holding.Length == REGISTER_COUNT == 200 && holding[..] == seq(REGISTER_COUNT, _ => 0)
    {
      holding := new word[REGISTER_COUNT](_ => 0);
    }

    /** The posted update: every register takes the same value. */
    method Update(i: nat)
      modifies holding
      ensures holding[..] == AllEqual(holding.Length, i)
    {
      var k := 0;
      while k < holding.Length
        invariant 0 <= k <= holding.Length
        invariant forall j :: 0 <= j < k ==> holding[j] == ToWord(i)
      {
        holding[k] := ToWord(i);
        k := k + 1;
      }
    }

    /** The tasks that run while a connection is suspended. */
    method RunPosted(updates: seq<nat>)
      modifies holding
      ensures holding[..] == AfterUpdates(old(holding[..]), updates)
    {
      var n := 0;
      while n < |updates|
        invariant 0 <= n <= |updates|
        invariant AfterUpdates(holding[..], updates[n..]) == AfterUpdates(old(holding[..]), updates)
      {
        assert updates[n..][1..] == updates[n + 1..];
        Update(updates[n]);
        n := n + 1;
      }
    }

    /** The request handler. */
    method HandleRequest(stream: TcpStream, tid: word, unit: byte, r: Request, littleEndian: bool)
      requires stream.Valid()
      modifies stream.buffer, stream.nextLayer`outgoing
      ensures stream.nextLayer.outgoing == old(stream.nextLayer.outgoing) + Answer(holding[..], tid, unit, r)
    {
      hide Frame, WordsBytes, EncodeReply;
      EncodedException(r.Code(), ILLEGAL_FUNCTION);
      EncodedException(r.Code(), ILLEGAL_DATA_VALUE);
      EncodedException(r.Code(), ILLEGAL_DATA_ADDRESS);
      if !(r.Plain? && r.code == READ_HOLDING_REGISTERS) {
        stream.SendReply(tid, unit, Exception(r.Code(), ILLEGAL_FUNCTION));
        return;
      }
      if !(1 <= r.operand <= 125) {
        stream.SendReply(tid, unit, Exception(r.code, ILLEGAL_DATA_VALUE));
        return;
      }
      if r.address + r.operand > holding.Length {
        stream.SendReply(tid, unit, Exception(r.code, ILLEGAL_DATA_ADDRESS));
        return;
      }
      var regs := new byte[2 * r.operand](_ => 0);
      MemcpyMsb(regs, holding[r.address..r.address + r.operand], littleEndian);
      assert holding[r.address..r.address + r.operand] == holding[..][r.address..r.address + r.operand];
      EncodedPayload(r.code, regs[..]);
      stream.SendReply(tid, unit, PayloadOf(r.code, regs[..]));
    }

    /** `handle_message`: answer requests until the input is used up or a request is refused.
        `posted` lists the updates that run while each pass is suspended in its reads. */
    method HandleMessages(stream: TcpStream, messageBuffer: array<byte>, posted: seq<seq<nat>>, littleEndian: bool)
      returns (end: ServeEnd)
      requires stream.Valid() && messageBuffer.Length == BUFFER_SIZE && messageBuffer != stream.buffer
      modifies stream.buffer, stream.nextLayer, messageBuffer, holding
      ensures Served(stream.nextLayer.outgoing, end, holding[..])
              == Serve(old(holding[..]), posted, old(stream.nextLayer.incoming)).After(old(stream.nextLayer.outgoing))
    {
      hide Answer, Complaint, NextRequest, AfterUpdates;
      ghost var whole := Serve(holding[..], posted, stream.nextLayer.incoming).After(stream.nextLayer.outgoing);
      var later := posted;
      while true
        invariant Serve(holding[..], later, stream.nextLayer.incoming).After(stream.nextLayer.outgoing) == whole
        decreases |stream.nextLayer.incoming|
      {
        ghost var out := stream.nextLayer.outgoing;
        var next := Fetch(stream, messageBuffer);
        if later != [] {
          RunPosted(later[0]);
          later := later[1..];
        }
        assert out + [] == out;
        match next {
          case Incomplete => return InputUsed;
          case Oversized => return TooLarge;
          case Undecodable => return DecodeError;
          case Undersized(tid, unit, _) =>
            stream.SendReply(tid, unit, Exception(0, REQUEST_TOO_BIG));
            IsComplaint(tid, unit);
            Assoc(out, Complaint(tid, unit), Serve(holding[..], later, stream.nextLayer.incoming).out);
          case Whole(tid, unit, request, _) =>
            HandleRequest(stream, tid, unit, request, littleEndian);
            Assoc(out, Answer(holding[..], tid, unit, request), Serve(holding[..], later, stream.nextLayer.incoming).out);
        }
      }
    }

    /** The two reads and the two parses of one pass. */
    method Fetch(stream: TcpStream, messageBuffer: array<byte>) returns (next: Next)
      requires stream.Valid() && messageBuffer.Length == BUFFER_SIZE
      modifies messageBuffer, stream.nextLayer`incoming
      ensures next == NextRequest(old(stream.nextLayer.incoming))
      ensures next.Undersized? || next.Whole? ==> stream.nextLayer.incoming == next.rest
    {
      hide Decode, Splice, ParseHeader;
      ghost var s := stream.nextLayer.incoming;
      var source := new Buffer(messageBuffer);
      var ok, d := stream.nextLayer.Read(HEADER_SIZE);
      if !ok { return Incomplete; }
      source.Receive(d);
      assert source.Unread() == d;
      var h := stream.TakeHeader(source);
      if h.length < 2 {
        return Undersized(h.transactionId, h.unitId, stream.nextLayer.incoming);
      }
      if 6 + h.length > BUFFER_SIZE { return Oversized; }
      ok, d := stream.nextLayer.Read(h.length - 1);
      if !ok { return Incomplete; }
      source.Receive(d);
      assert source.Unread() == d == s[HEADER_SIZE..6 + h.length];
      assert stream.nextLayer.incoming == s[6 + h.length..];
      var ec, request := ReadRequest(source, Holds(Plain(READ_COILS, 0, 0)));
      DecodeErrorNonzero(d);
      if ec != SUCCESS { return Undecodable; }
      next := Whole(h.transactionId, h.unitId, request.request, stream.nextLayer.incoming);
    }
  }

  lemma DecodeErrorNonzero(s: seq<byte>)
    ensures Decode(s).Fail? ==> Decode(s).ec != SUCCESS
  {
    hide Decode;
    if Decode(s).Fail? { Rejections(s); }
  }

  lemma IsComplaint(tid: word, unit: byte)
    ensures Complaint(tid, unit) == Frame(tid, unit, EncodeReply(Exception(0, REQUEST_TOO_BIG)))
  {}
}
