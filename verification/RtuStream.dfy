/** `rtu::stream` of include/mothbus/adu/rtu.h: a frame is the slave address, the protocol data
    unit and the CRC, low byte first (section 2.5.1.2 of MODBUS over Serial Line V1.02). */
module RtuStreams {
  import opened Wire
  import opened Requests
  import opened Responses
  import opened Buffers
  import opened Codec
  import opened CrcBits
  import opened Crc16
  import opened CrcDetection
  import opened CrcOrder
  import opened Transports

  // ---------------------------------------------------------------- frames

  /** The check bytes of a message. */
  function CheckLow(m: seq<byte>): byte { FromOctet(LowByte(Crc(Octets(m)))) }

  function CheckHigh(m: seq<byte>): byte { FromOctet(HighByte(Crc(Octets(m)))) }

  function WithCheck(m: seq<byte>): seq<byte> { m + [CheckLow(m), CheckHigh(m)] }

  function RtuFrame(slave: byte, pdu: seq<byte>): seq<byte> { WithCheck([slave] + pdu) }

  /** The CRC register after the whole frame. */
  function Residue(f: seq<byte>): bv16 { Crc(Octets(f)) }

  lemma OctetsConcat(a: seq<byte>, b: seq<byte>)
    ensures Octets(a + b) == Octets(a) + Octets(b)
  {
    hide Octet;
  }

  /** The receiver's comparison of two bytes is exactly the residue test. */
  lemma CheckIffResidueZero(m: seq<byte>, lo: byte, hi: byte)
    ensures Residue(m + [lo, hi]) == 0 <==> lo == CheckLow(m) && hi == CheckHigh(m)
  {
    hide Crc, LowByte, HighByte, FromOctet, Octet;
    OctetsConcat(m, [lo, hi]);
    assert Octets([lo, hi]) == [Octet(lo), Octet(hi)];
    ResidueZeroIffCrcAppended(Octets(m), Octet(lo), Octet(hi));
    OctetInverse(LowByte(Crc(Octets(m))), lo);
    OctetInverse(HighByte(Crc(Octets(m))), hi);
  }

  /** Every frame that is sent is the address and the protocol data unit, followed by the two bytes
      that leave residue zero. */
  lemma SentFramesHaveResidueZero(slave: byte, pdu: seq<byte>)
    ensures |RtuFrame(slave, pdu)| == |pdu| + 3 && RtuFrame(slave, pdu)[..|pdu| + 1] == [slave] + pdu
    ensures Residue(RtuFrame(slave, pdu)) == 0
  {
    var m := [slave] + pdu;
    CheckIffResidueZero(m, CheckLow(m), CheckHigh(m));
  }

  // ---------------------------------------------------------------- receiving

  /** What `receive_response` reports; a timeout belongs to another error category. */
  datatype RtuOutcome = TimedOut | Reported(ec: ErrorCode)

  datatype RtuReceipt = RtuReceipt(outcome: RtuOutcome, byteCount: byte, filled: seq<byte>)

  datatype RtuEchoReceipt = RtuEchoReceipt(outcome: RtuOutcome, address: word, value: word)

  /** How far the decoder came in the burst `s` if it left `rest`. */
  function Passed(s: seq<byte>, rest: seq<byte>): (k: nat)
    ensures k <= |s|
  {
    if |rest| <= |s| then |s| - |rest| else 0
  }

  /** The two bytes compared with the check of `s[..k]`; `lo` and `hi` are what the uninitialised
      variables hold if the burst ends before them. */
  function CheckedLow(s: seq<byte>, k: nat, lo: byte): byte { if k < |s| then s[k] else lo }

  function CheckedHigh(s: seq<byte>, k: nat, hi: byte): byte { if k + 1 < |s| then s[k + 1] else hi }

  /** The end of `receive_response` once the decoder has passed `k` bytes of the burst. */
  function Verdict(s: seq<byte>, k: nat, lo: byte, hi: byte): ErrorCode
    requires k <= |s|
  {
    if CheckedLow(s, k, lo) == CheckLow(s[..k]) && CheckedHigh(s, k, hi) == CheckHigh(s[..k]) then SUCCESS
    else INVALID_RESPONSE
  }

  /** `receive_response` for a counted response, on the bytes `s` that arrive before the line falls
      silent. The decode result is not looked at. */
  function ReceiveBurst(code: byte, capacity: nat, prior: byte, slave: byte, s: seq<byte>, lo: byte, hi: byte): RtuReceipt {
    if slave == 0 then RtuReceipt(Reported(SUCCESS), prior, [])
    else if s == [] then RtuReceipt(TimedOut, prior, [])
    else if s[0] != slave then RtuReceipt(Reported(SLAVE_ID_INVALID), prior, [])
    else
      var r := ReceivePayload(code, capacity, prior, s[1..]);
      RtuReceipt(Reported(Verdict(s, Passed(s, r.rest), lo, hi)), r.byteCount, r.filled)
  }

  /** `receive_response` for an echo. */
  function ReceiveEchoBurst(code: byte, onOff: bool, address: word, value: word, slave: byte, s: seq<byte>, lo: byte, hi: byte): RtuEchoReceipt {
    if slave == 0 then RtuEchoReceipt(Reported(SUCCESS), address, value)
    else if s == [] then RtuEchoReceipt(TimedOut, address, value)
    else if s[0] != slave then RtuEchoReceipt(Reported(SLAVE_ID_INVALID), address, value)
    else
      var r := ReceiveEcho(code, onOff, address, value, s[1..]);
      RtuEchoReceipt(Reported(Verdict(s, Passed(s, r.rest), lo, hi)), r.address, r.value)
  }

  /** What stays on the line: a burst from another slave is abandoned after its first byte. */
  function LineAfter(slave: byte, s: seq<byte>): seq<byte> {
    if slave == 0 then s else if s == [] || s[0] == slave then [] else s[1..]
  }

  // ---------------------------------------------------------------- what a cleared error means

  function Min(a: nat, b: nat): nat { if a <= b then a else b }

  /** How much of the burst the check is computed over for a counted response, in wire bytes: three
      bytes of an exception reply or of a reply that is too long, two of a reply with another
      function code, otherwise the announced payload. */
  function CheckedLength(code: byte, capacity: nat, s: seq<byte>): (k: nat)
    ensures k <= |s|
  {
    if |s| < 2 then |s|
    else if s[1] >= 0x80 then Min(3, |s|)
    else if s[1] != code then 2
    else if |s| < 3 || s[2] > capacity then Min(3, |s|)
    else Min(s[2] as int + 3, |s|)
  }

  /** The same for an echo, which has six bytes with the slave address. */
  function CheckedEchoLength(code: byte, s: seq<byte>): (k: nat)
    ensures k <= |s|
  {
    if |s| < 2 then |s|
    else if s[1] >= 0x80 then Min(3, |s|)
    else if s[1] != code then 2
    else Min(6, |s|)
  }

  lemma PassedPayload(code: byte, capacity: nat, prior: byte, s: seq<byte>)
    requires s != []
    ensures var r := ReceivePayload(code, capacity, prior, s[1..]);
            && Passed(s, r.rest) == CheckedLength(code, capacity, s)
            && if |s| >= 3 && s[1] == code < 0x80 then
                 && r.byteCount == s[2]
                 && r.filled == if s[2] <= capacity then s[3..CheckedLength(code, capacity, s)] else []
               else r.byteCount == prior && r.filled == []
  {
    if |s| >= 3 && s[1] == code < 0x80 {
      var p := s[1..][1..];
      assert p == s[2..] && p[1..] == s[3..];
      if s[2] <= capacity && |s| >= s[2] as int + 3 {
        assert s[3..][..s[2]] == s[3..3 + s[2]];
      }
    }
  }

  lemma PassedEcho(code: byte, onOff: bool, address: word, value: word, s: seq<byte>)
    requires s != []
    ensures var r := ReceiveEcho(code, onOff, address, value, s[1..]);
            && Passed(s, r.rest) == CheckedEchoLength(code, s)
            && (|s| >= 6 && s[1] == code < 0x80 ==> r.address == MakeWord(s[2], s[3]) && r.value == MakeWord(s[4], s[5]))
            && (|s| >= 2 && (s[1] >= 0x80 || s[1] != code) ==> r.address == address && r.value == value)
  {
    hide MakeWord, OnOff;
    if |s| >= 2 && s[1] == code < 0x80 {
      assert s[1..][1..] == s[2..];
      if |s| >= 4 { assert s[2..][2..] == s[4..]; }
    }
  }

  lemma VerdictIff(s: seq<byte>, k: nat, lo: byte, hi: byte)
    requires k <= |s|
    ensures Verdict(s, k, lo, hi)
            == if Residue(s[..k] + [CheckedLow(s, k, lo), CheckedHigh(s, k, hi)]) == 0 then 0x00 else 0x0C
    ensures k + 2 <= |s| ==> s[..k] + [CheckedLow(s, k, lo), CheckedHigh(s, k, hi)] == s[..k + 2]
  {
    hide CheckLow, CheckHigh, Residue;
    CheckIffResidueZero(s[..k], CheckedLow(s, k, lo), CheckedHigh(s, k, hi));
  }

  /** For every burst `receive_response` clears the error if and only if the burst starts with the
      expected slave and its first `CheckedLength` bytes with the two after them leave residue zero;
      otherwise it reports an invalid slave or an invalid response. Whether the reply was the expected one plays no part. Payload bytes are stored exactly when
      the function code is the expected one and the announced size fits. */
  lemma ClearedIff(code: byte, capacity: nat, prior: byte, slave: byte, s: seq<byte>, lo: byte, hi: byte)
    requires slave != 0 && s != []
    ensures var r, k := ReceiveBurst(code, capacity, prior, slave, s, lo, hi), CheckedLength(code, capacity, s);
            && r.outcome == Reported(if s[0] != slave then 0x10
                                     else if Residue(s[..k] + [CheckedLow(s, k, lo), CheckedHigh(s, k, hi)]) == 0 then 0x00
                                     else 0x0C)
            && (k + 2 <= |s| ==> (r.outcome == Reported(SUCCESS) <==> s[0] == slave && Residue(s[..k + 2]) == 0))
            && r.filled == (if s[0] == slave && |s| >= 3 && s[1] == code < 0x80 && s[2] <= capacity then s[3..k] else [])
            && r.byteCount == if s[0] == slave && |s| >= 3 && s[1] == code < 0x80 then s[2] else prior
  {
    hide ReceivePayload, Verdict, Residue, CheckedLow, CheckedHigh;
    PassedPayload(code, capacity, prior, s);
    hide CheckedLength, Passed;
    VerdictIff(s, CheckedLength(code, capacity, s), lo, hi);
  }

  /** The same for echoes. The value is not looked at either; the fields are those of the decoder. */
  lemma EchoClearedIff(code: byte, onOff: bool, address: word, value: word, slave: byte, s: seq<byte>, lo: byte, hi: byte)
    requires slave != 0 && s != []
    ensures var r, k := ReceiveEchoBurst(code, onOff, address, value, slave, s, lo, hi), CheckedEchoLength(code, s);
            && r.outcome == Reported(if s[0] != slave then 0x10
                                     else if Residue(s[..k] + [CheckedLow(s, k, lo), CheckedHigh(s, k, hi)]) == 0 then 0x00
                                     else 0x0C)
            && (k + 2 <= |s| ==> (r.outcome == Reported(SUCCESS) <==> s[0] == slave && Residue(s[..k + 2]) == 0))
            && (r.address, r.value) ==
               if s[0] != slave then (address, value)
               else (ReceiveEcho(code, onOff, address, value, s[1..]).address,
                     ReceiveEcho(code, onOff, address, value, s[1..]).value)
  {
    hide ReceiveEcho, Verdict, Residue, CheckedLow, CheckedHigh;
    PassedEcho(code, onOff, address, value, s);
    hide CheckedEchoLength, Passed;
    VerdictIff(s, CheckedEchoLength(code, s), lo, hi);
  }

  /** A broadcast succeeds without listening, and silence is a timeout; nothing is stored. */
  lemma NothingReceived(code: byte, capacity: nat, prior: byte, onOff: bool, address: word, value: word, slave: byte, s: seq<byte>, lo: byte, hi: byte)
    requires slave == 0 || s == []
    ensures var outcome := if slave == 0 then Reported(0x00) else TimedOut;
            && ReceiveBurst(code, capacity, prior, slave, s, lo, hi) == RtuReceipt(outcome, prior, [])
            && ReceiveEchoBurst(code, onOff, address, value, slave, s, lo, hi) == RtuEchoReceipt(outcome, address, value)
  {}

  /** `n` receives in a row on a line that holds `s`: their receipts, and what stays on the line. */
  function ReceiveTimes(n: nat, code: byte, capacity: nat, prior: byte, slave: byte, s: seq<byte>, lo: byte, hi: byte): (seq<RtuReceipt>, seq<byte>)
    decreases n
  {
    if n == 0 then ([], s)
    else
      var (rs, rest) := ReceiveTimes(n - 1, code, capacity, prior, slave, LineAfter(slave, s), lo, hi);
      ([ReceiveBurst(code, capacity, prior, slave, s, lo, hi)] + rs, rest)
  }

  /** A foreign burst is taken apart byte by byte: each receive that finds another slave's byte
      reports an invalid slave and takes that byte alone, so after `k` of them the next receive
      reads the rest `s[k..]` as its burst. */
  lemma {:induction false} ForeignBytesSkipped(k: nat, code: byte, capacity: nat, prior: byte, slave: byte, s: seq<byte>, lo: byte, hi: byte)
    requires slave != 0 && k < |s| && forall i :: 0 <= i < k ==> s[i] != slave
    ensures var (rs, rest) := ReceiveTimes(k + 1, code, capacity, prior, slave, s, lo, hi);
            && |rs| == k + 1
            && (forall i :: 0 <= i < k ==> rs[i] == RtuReceipt(Reported(0x10), prior, []))
            && rs[k] == ReceiveBurst(code, capacity, prior, slave, s[k..], lo, hi)
            && rest == if s[k] == slave then [] else s[k + 1..]
    decreases k
  {
    hide ReceivePayload, Verdict;
    if k == 0 {
      assert s[0..] == s;
    } else {
      ForeignBytesSkipped(k - 1, code, capacity, prior, slave, s[1..], lo, hi);
      assert s[1..][k - 1..] == s[k..] && s[1..][k..] == s[k + 1..];
    }
    assert ReceiveTimes(0, code, capacity, prior, slave, LineAfter(slave, s), lo, hi) == ([], LineAfter(slave, s));
  }

  /** A frame with a correct check at the front of the burst. */
  lemma CheckedFrame(m: seq<byte>, t: seq<byte>)
    ensures var s := WithCheck(m) + t;
            && |m| + 2 <= |s| && Residue(s[..|m| + 2]) == 0
            && (forall i :: 0 <= i < |m| ==> s[i] == m[i])
            && (|m| >= 3 ==> s[3..|m|] == m[3..])
  {
    hide CheckLow, CheckHigh, Residue;
    CheckIffResidueZero(m, CheckLow(m), CheckHigh(m));
    assert (WithCheck(m) + t)[..|m| + 2] == WithCheck(m);
  }

  lemma CountedFrame(slave: byte, code: byte, values: seq<byte>, t: seq<byte>)
    requires |values| <= 255
    ensures var s := RtuFrame(slave, EncodeReply(PayloadOf(code, values))) + t;
            && |s| >= |values| + 5 && s[0] == slave && s[1] == code && s[2] == |values|
            && s[3..3 + |values|] == values && Residue(s[..|values| + 5]) == 0
  {
    hide WithCheck, Residue, EncodeReply;
    var m := [slave] + EncodeReply(PayloadOf(code, values));
    CheckedFrame(m, t);
    CountedEncoding(code, values);
    assert m[3..] == values;
  }

  /** A well-formed counted reply that fits is delivered with a cleared error. */
  lemma ReplyDelivered(code: byte, values: seq<byte>, capacity: nat, prior: byte, slave: byte, t: seq<byte>, lo: byte, hi: byte)
    requires slave != 0 && code < 0x80 && |values| <= 255 && |values| <= capacity
    ensures ReceiveBurst(code, capacity, prior, slave, RtuFrame(slave, EncodeReply(PayloadOf(code, values))) + t, lo, hi)
            == RtuReceipt(Reported(SUCCESS), |values|, values)
  {
    hide RtuFrame, Residue, ReceiveBurst, EncodeReply;
    CountedFrame(slave, code, values, t);
    ClearedIff(code, capacity, prior, slave, RtuFrame(slave, EncodeReply(PayloadOf(code, values))) + t, lo, hi);
  }

  /** Every echo is delivered with a cleared error, also one whose value the decoder refuses. */
  lemma EchoDelivered(code: byte, onOff: bool, address: word, value: word, a: word, v: word, slave: byte, t: seq<byte>, lo: byte, hi: byte)
    requires slave != 0 && code < 0x80
    ensures ReceiveEchoBurst(code, onOff, address, value, slave, RtuFrame(slave, EncodeReply(Pair(code, a, v))) + t, lo, hi)
            == RtuEchoReceipt(Reported(SUCCESS), a, v)
  {
    hide WithCheck, Residue, MakeWord, High, Low, ReceiveEcho, Verdict;
    var m := [slave] + EncodeReply(Pair(code, a, v));
    var s := WithCheck(m) + t;
    CheckedFrame(m, t);
    assert m == [slave, code, High(a), Low(a), High(v), Low(v)];
    MakeWordIff(High(a), Low(a), a);
    MakeWordIff(High(v), Low(v), v);
    PassedEcho(code, onOff, address, value, s);
    EchoClearedIff(code, onOff, address, value, slave, s, lo, hi);
  }

  /** Every exception reply is reported as success, whatever its code, with nothing stored: the
      caller is told that its request was performed although the slave refused it. */
  lemma ExceptionReportedAsSuccess(code: byte, capacity: nat, prior: byte, refused: byte, e: byte, slave: byte, t: seq<byte>, lo: byte, hi: byte)
    requires slave != 0
    ensures ReceiveBurst(code, capacity, prior, slave, RtuFrame(slave, EncodeReply(Exception(refused, e))) + t, lo, hi)
            == RtuReceipt(Reported(SUCCESS), prior, [])
  {
    hide WithCheck, Residue, ReceiveBurst;
    var m := [slave] + EncodeReply(Exception(refused, e));
    var s := WithCheck(m) + t;
    CheckedFrame(m, t);
    assert m == [slave, ExceptionBit(refused), e];
    ClearedIff(code, capacity, prior, slave, s, lo, hi);
  }

  /** The same for writes. */
  lemma ExceptionReportedAsWritten(code: byte, onOff: bool, address: word, value: word, refused: byte, e: byte, slave: byte, t: seq<byte>, lo: byte, hi: byte)
    requires slave != 0
    ensures ReceiveEchoBurst(code, onOff, address, value, slave, RtuFrame(slave, EncodeReply(Exception(refused, e))) + t, lo, hi)
            == RtuEchoReceipt(Reported(SUCCESS), address, value)
  {
    hide WithCheck, Residue, ReceiveEcho, Verdict, MakeWord;
    var m := [slave] + EncodeReply(Exception(refused, e));
    var s := WithCheck(m) + t;
    CheckedFrame(m, t);
    assert m == [slave, ExceptionBit(refused), e];
    PassedEcho(code, onOff, address, value, s);
    EchoClearedIff(code, onOff, address, value, slave, s, lo, hi);
  }

  // ---------------------------------------------------------------- corrupted replies

  /** A reply frame whose function code and count bytes arrive intact is accepted after corruption
      if and only if the slave byte is intact and the flipped bits have syndrome zero; so never
      after a burst of up to sixteen flipped bits, an odd number of flips, or one to three flips. */
  lemma CorruptedReplyAcceptedIff(code: byte, values: seq<byte>, capacity: nat, prior: byte, slave: byte, g: seq<byte>, lo: byte, hi: byte)
    requires slave != 0 && code < 0x80 && |values| <= 255 && |values| <= capacity
    requires |g| == |values| + 5 && g[1] == code && g[2] == |values|
    ensures var e := Flips(Octets(RtuFrame(slave, EncodeReply(PayloadOf(code, values)))), Octets(g));
            var accepted := ReceiveBurst(code, capacity, prior, slave, g, lo, hi).outcome == Reported(SUCCESS);
            && (accepted <==> g[0] == slave && Syndrome(e) == 0)
            && (Weight(e) % 2 == 1 || 1 <= Weight(e) <= 3 ==> !accepted)
            && (true in e ==> forall p: nat :: WithinSixteen(e, p) ==> !accepted)
  {
    hide CheckLow, CheckHigh, Weight, WithinSixteen, Flips, Crc, Syndrome, ReceiveBurst;
    var pdu := EncodeReply(PayloadOf(code, values));
    var f := RtuFrame(slave, pdu);
    assert |f| == |values| + 5;
    ClearedIff(code, capacity, prior, slave, g, lo, hi);
    assert g[..|g|] == g;
    SentFramesHaveResidueZero(slave, pdu);
    CorruptionDetected(Octets(f), Octets(g));
  }

  /** The count byte must arrive intact: for every slave and code there is a correct reply in which
      one flipped bit of the count makes the receiver check a shorter frame and accept it. */
  lemma CountFlipAccepted(code: byte, slave: byte, lo: byte, hi: byte)
    requires slave != 0 && code < 0x80
    ensures var values := [CheckLow([slave, code, 0]), CheckHigh([slave, code, 0])];
            var f := RtuFrame(slave, EncodeReply(PayloadOf(code, values)));
            && f[2] == 2
            && ReceiveBurst(code, 2, 2, slave, f[2 := 0], lo, hi) == RtuReceipt(Reported(SUCCESS), 0, [])
  {
    hide CheckLow, CheckHigh, Residue, ReceiveBurst;
    var m: seq<byte> := [slave, code, 0];
    var values := [CheckLow(m), CheckHigh(m)];
    var g := RtuFrame(slave, EncodeReply(PayloadOf(code, values)))[2 := 0];
    assert g == WithCheck(m) + g[5..];
    CheckedFrame(m, g[5..]);
    ClearedIff(code, 2, 2, slave, g, lo, hi);
  }

  /** So must the function code: for every slave and code there is a correct reply that, after its
      bit 0x80 flips, is checked and accepted as an exception reply. */
  lemma CodeFlipAccepted(code: byte, slave: byte, lo: byte, hi: byte)
    requires slave != 0 && code < 0x80
    ensures var m: seq<byte> := [slave, code + 0x80, 2];
            var f := RtuFrame(slave, EncodeReply(PayloadOf(code, [CheckLow(m), CheckHigh(m)])));
            && f[1] == code
            && ReceiveBurst(code, 2, 2, slave, f[1 := code + 0x80], lo, hi) == RtuReceipt(Reported(SUCCESS), 2, [])
  {
    hide CheckLow, CheckHigh, Residue, ReceiveBurst;
    var m: seq<byte> := [slave, code + 0x80, 2];
    var values := [CheckLow(m), CheckHigh(m)];
    var g := RtuFrame(slave, EncodeReply(PayloadOf(code, values)))[1 := code + 0x80];
    assert g == WithCheck(m) + g[5..];
    CheckedFrame(m, g[5..]);
    ClearedIff(code, 2, 2, slave, g, lo, hi);
  }

  // ---------------------------------------------------------------- the stream

  class RtuStream {
    const buffer: array<byte>
    const nextLayer: Transport
    var transactionId: word

    ghost predicate Valid() { buffer.Length == BUFFER_SIZE }

    constructor (nextLayer: Transport)
      ensures Valid() && fresh(buffer) && this.nextLayer == nextLayer && transactionId == 0
    {
      this.nextLayer := nextLayer;
      this.transactionId := 0;
      this.buffer := new byte[BUFFER_SIZE](_ => 0);
    }

    /** The address and the request, in the buffer. */
    method StartFrame(slave: byte, r: Request) returns (sink: Buffer)
      requires Valid() && r.Writable() && 3 + |Encode(r)| <= BUFFER_SIZE
      modifies buffer
      ensures fresh(sink) && sink.bytes == buffer && sink.Valid() && sink.inputStart == sink.inputEnd == 0
      ensures sink.outputStart == 1 + |Encode(r)|
      ensures buffer[..] == Splice(old(buffer[..]), 0, [slave] + Encode(r))
    {
      hide Splice, Encode;
      sink := new Buffer(buffer);
      sink.Put(slave);
      WriteRequest(sink, r);
      SpliceTwice(old(buffer[..]), 0, [slave], Encode(r));
    }

    /** The CRC of the bytes `m` already in the buffer, low byte first. */
    method PutCheck(sink: Buffer, ghost a: seq<byte>, ghost m: seq<byte>)
      requires Valid() && sink.bytes == buffer && sink.Valid() && sink.inputStart == sink.inputEnd == 0
      requires |a| == BUFFER_SIZE && |m| + 2 <= BUFFER_SIZE && sink.outputStart == |m|
      requires buffer[..] == Splice(a, 0, m)
      modifies sink`outputStart, buffer
      ensures sink.Valid() && sink.outputStart == |m| + 2 && buffer[..] == Splice(a, 0, WithCheck(m))
    {
      hide Splice, Crc, Octets, LowByte, HighByte, FromOctet;
      SpliceFront(a, m);
      assert buffer[..sink.outputStart] == buffer[..][..|m|];
      var crc := CRC16(buffer, sink.outputStart);
      var low := FromOctet(LowByte(crc));
      var high := FromOctet(HighByte(crc));
      assert low == CheckLow(m) && high == CheckHigh(m);
      hide CheckLow, CheckHigh;
      sink.Put(low);
      sink.Put(high);
      SpliceTwice(a, 0, m, [low]);
      SpliceTwice(a, 0, m + [low], [high]);
      assert m + [low] + [high] == WithCheck(m);
    }

    /** `write_request`. */
    method SendRequest(slave: byte, r: Request) returns (tid: word)
      requires Valid() && r.Writable() && 3 + |Encode(r)| <= BUFFER_SIZE
      modifies this`transactionId, buffer, nextLayer`outgoing
      ensures tid == old(transactionId) && transactionId == (tid + 1) % 0x1_0000
      ensures nextLayer.outgoing == old(nextLayer.outgoing) + RtuFrame(slave, Encode(r))
    {
      hide Splice, Encode, CheckLow, CheckHigh;
      ghost var a, m := buffer[..], [slave] + Encode(r);
      var sink := StartFrame(slave, r);
      PutCheck(sink, a, m);
      SpliceFront(a, WithCheck(m));
      var index := sink.outputStart;
      sink.Commit(index);
      assert buffer[sink.inputStart..sink.inputEnd] == buffer[..][..index];
      nextLayer.Write(buffer[sink.inputStart..sink.inputEnd]);
      tid := transactionId;
      transactionId := (transactionId + 1) % 0x1_0000;
    }

    /** `receive_response` for a counted response; `nextLayer.incoming` is the burst. */
    method ReceiveResponse(slave: byte, target: PayloadTarget, lo: byte, hi: byte) returns (outcome: RtuOutcome)
      requires Valid() && target.out != buffer && |nextLayer.incoming| <= BUFFER_SIZE
      modifies buffer, nextLayer`incoming, target, target.out
      ensures var r := ReceiveBurst(target.code, target.out.Length, old(target.byteCount), slave,
                                    old(nextLayer.incoming), lo, hi);
              && outcome == r.outcome && target.byteCount == r.byteCount
              && target.out[..] == r.filled + old(target.out[..])[|r.filled|..]
      ensures slave == 0 ==> nextLayer.incoming == old(nextLayer.incoming)
      ensures slave != 0 && old(nextLayer.incoming) != [] && old(nextLayer.incoming)[0] != slave ==>
                nextLayer.incoming == old(nextLayer.incoming)[1..]
      ensures slave != 0 && (old(nextLayer.incoming) == [] || old(nextLayer.incoming)[0] == slave) ==>
                nextLayer.incoming == []
      ensures nextLayer.incoming == LineAfter(slave, old(nextLayer.incoming))
    {
      hide Splice, ReceivePayload, Verdict;
      ghost var s := nextLayer.incoming;
      var go: bool, source: Buffer;
      go, outcome, source := AwaitBurst(slave);
      if !go {
        assert target.out[..] == [] + old(target.out[..])[0..];
        return;
      }
      PassedPayload(target.code, target.out.Length, target.byteCount, s);
      var ec := target.Read(source);
      ec := CompareCheck(source, s, lo, hi);
      return Reported(ec);
    }

    /** `receive_response` for an echo. */
    method ReceiveEchoResponse(slave: byte, target: EchoTarget, lo: byte, hi: byte) returns (outcome: RtuOutcome)
      requires Valid() && |nextLayer.incoming| <= BUFFER_SIZE
      modifies buffer, nextLayer`incoming, target
      ensures RtuEchoReceipt(outcome, target.address, target.value)
              == ReceiveEchoBurst(target.code, target.onOff, old(target.address), old(target.value), slave,
                                  old(nextLayer.incoming), lo, hi)
      ensures slave == 0 ==> nextLayer.incoming == old(nextLayer.incoming)
      ensures slave != 0 && old(nextLayer.incoming) != [] && old(nextLayer.incoming)[0] != slave ==>
                nextLayer.incoming == old(nextLayer.incoming)[1..]
      ensures slave != 0 && (old(nextLayer.incoming) == [] || old(nextLayer.incoming)[0] == slave) ==>
                nextLayer.incoming == []
      ensures nextLayer.incoming == LineAfter(slave, old(nextLayer.incoming))
    {
      hide Splice, ReceiveEcho, Verdict;
      ghost var s := nextLayer.incoming;
      var go: bool, source: Buffer;
      go, outcome, source := AwaitBurst(slave);
      if !go { return; }
      PassedEcho(target.code, target.onOff, target.address, target.value, s);
      var ec := target.Read(source);
      ec := CompareCheck(source, s, lo, hi);
      return Reported(ec);
    }

    /** The reads of `receive_response`. On `go` the source buffer holds the burst, with the cursor
        behind the slave byte. */
    method AwaitBurst(slave: byte) returns (go: bool, outcome: RtuOutcome, source: Buffer)
      requires Valid() && |nextLayer.incoming| <= BUFFER_SIZE
      modifies buffer, nextLayer`incoming
      ensures fresh(source) && source.bytes == buffer && source.Valid()
      ensures slave == 0 ==> nextLayer.incoming == old(nextLayer.incoming)
      ensures slave != 0 && old(nextLayer.incoming) != [] && old(nextLayer.incoming)[0] != slave ==>
                nextLayer.incoming == old(nextLayer.incoming)[1..]
      ensures slave != 0 && (old(nextLayer.incoming) == [] || old(nextLayer.incoming)[0] == slave) ==>
                nextLayer.incoming == []
      ensures nextLayer.incoming == LineAfter(slave, old(nextLayer.incoming))
      ensures var s := old(nextLayer.incoming);
              && go == (slave != 0 && s != [] && s[0] == slave)
              && (go ==> source.inputStart == 1 && source.inputEnd == |s| && buffer[..|s|] == s && source.Unread() == s[1..])
              && (!go ==> outcome == if slave == 0 then Reported(SUCCESS) else if s == [] then TimedOut
                                     else Reported(SLAVE_ID_INVALID))
    {
      hide Splice;
      go, outcome := false, Reported(SUCCESS);
      source := new Buffer(buffer);
      if slave == 0 { return; }
      ghost var s := nextLayer.incoming;
      var ok, d := nextLayer.Read(1);
      if !ok { return false, TimedOut, source; }
      source.Receive(d);
      assert source.Unread() == d == [s[0]];
      var received: byte, ec: ErrorCode;
      ec, received := source.Get(0);
      if received != slave { return false, Reported(SLAVE_ID_INVALID), source; }
      Collect(source, s);
      go := true;
    }

    /** The end of `receive_response`: compare the CRC of what was consumed of the burst `s` with
        the next two bytes. */
    method CompareCheck(source: Buffer, ghost s: seq<byte>, lo: byte, hi: byte) returns (ec: ErrorCode)
      requires source.bytes == buffer && source.Valid()
      requires source.inputEnd == |s| && buffer[..|s|] == s
      modifies source`inputStart
      ensures ec == Verdict(s, old(source.inputStart), lo, hi)
    {
      hide Crc, Octets, LowByte, HighByte, FromOctet;
      ghost var k := source.inputStart;
      assert buffer[..k] == s[..k];
      assert source.Unread() == s[k..];
      var crc := CRC16(buffer, source.inputStart);
      var rcvCrcL: byte, rcvCrcH: byte;
      ec, rcvCrcL := source.Get(lo);
      ec, rcvCrcH := source.Get(hi);
      if rcvCrcL != FromOctet(LowByte(crc)) || rcvCrcH != FromOctet(HighByte(crc)) {
        return INVALID_RESPONSE;
      }
      return SUCCESS;
    }

    /** The receive loop: one byte at a time until the line stays silent. */
    method Collect(source: Buffer, ghost s: seq<byte>)
      requires Valid() && source.bytes == buffer && source.Valid() && 1 <= |s| <= BUFFER_SIZE
      requires source.inputStart == source.inputEnd == source.outputStart == 1
      requires nextLayer.incoming == s[1..] && buffer[0] == s[0]
      modifies source, buffer, nextLayer`incoming
      ensures source.Valid() && source.inputStart == 1 && source.inputEnd == |s|
      ensures buffer[..|s|] == s && source.Unread() == s[1..] && nextLayer.incoming == []
    {
      while true
        invariant source.Valid() && source.inputStart == 1
        invariant 1 <= source.inputEnd == source.outputStart <= |s|
        invariant nextLayer.incoming == s[source.inputEnd..]
        invariant buffer[..source.inputEnd] == s[..source.inputEnd]
        decreases |s| - source.inputEnd
      {
        var ok, d := nextLayer.Read(1);
        if !ok { break; }
        ghost var n := source.inputEnd;
        ghost var before := buffer[..];
        source.Receive(d);
        SpliceKeeps(before, n, d);
        assert buffer[..n + 1] == s[..n + 1];
      }
      assert s[..|s|] == s;
    }
  }

  lemma SpliceFront(a: seq<byte>, d: seq<byte>)
    requires |d| <= |a|
    ensures Splice(a, 0, d)[..|d|] == d
  {}

  lemma SpliceKeeps(a: seq<byte>, p: nat, d: seq<byte>)
    requires p + |d| <= |a|
    ensures Splice(a, p, d)[..p + |d|] == a[..p] + d
  {}
}
