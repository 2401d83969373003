/** The wire formats spelled out byte by byte, and what each reader makes of any bytes whatever.
    The codec laws relate writers to readers; the laws here fix the bytes themselves, as the
    MODBUS Application Protocol Specification V1.1b3 and the MODBUS Messaging on TCP/IP
    Implementation Guide V1.0b lay them out, with numeric function and error codes. */
module Layout {
  import opened Wire
  import opened Requests
  import opened Responses
  import opened Frames

  // ---------------------------------------------------------------- requests

  /** 0x01 to 0x06: function code, address, then quantity or value. */
  lemma EncodedPlain(code: byte, a: word, v: word)
    ensures Encode(Plain(code, a, v)) == [code, a / 0x100, a % 0x100, v / 0x100, v % 0x100]
  {}

  /** 0x0F: address, quantity, byte count, packed coils. */
  lemma EncodedCoils(a: word, q: word, n: byte, coils: seq<byte>)
    ensures Encode(WriteCoils(a, q, n, coils))
            == [0x0F, a / 0x100, a % 0x100, q / 0x100, q % 0x100, n] + coils
  {}

  /** The bytes from `k` on are the words `ws`, most significant byte first. */
  predicate WordsFrom(s: seq<byte>, k: nat, ws: seq<word>) {
    |s| >= k + 2 * |ws| && forall i :: 0 <= i < |ws| ==> s[k + 2 * i] == ws[i] / 0x100 && s[k + 2 * i + 1] == ws[i] % 0x100
  }

  lemma WordsBytesFrom(head: seq<byte>, ws: seq<word>, s: seq<byte>)
    requires s == head + WordsBytes(ws)
    ensures WordsFrom(s, |head|, ws)
  {
    forall i | 0 <= i < |ws| ensures s[|head| + 2 * i] == ws[i] / 0x100 && s[|head| + 2 * i + 1] == ws[i] % 0x100 {
      assert (2 * i) / 2 == i && (2 * i + 1) / 2 == i;
      assert s[|head| + 2 * i] == WordsBytes(ws)[2 * i] && s[|head| + 2 * i + 1] == WordsBytes(ws)[2 * i + 1];
    }
  }

  /** 0x10: address, quantity, byte count, registers. */
  lemma EncodedRegisters(a: word, q: word, n: byte, registers: seq<word>)
    ensures var s := Encode(WriteRegisters(a, q, n, registers));
            && |s| == 6 + 2 * |registers|
            && s[..6] == [0x10, a / 0x100, a % 0x100, q / 0x100, q % 0x100, n]
            && WordsFrom(s, 6, registers)
  {
    hide WordsBytes, WordsFrom, WordBytes;
    var w, head := WordsBytes(registers), [0x10] + WordBytes(a) + WordBytes(q) + [n];
    Assoc([0x10], WordBytes(a), WordBytes(q) + ([n] + w));
    Assoc([0x10] + WordBytes(a), WordBytes(q), [n] + w);
    Assoc([0x10] + WordBytes(a) + WordBytes(q), [n], w);
    WordsBytesFrom(head, registers, head + w);
    TwoWords(0x10, a, q);
    assert (head + w)[..6] == head;
  }

  /** 0x17: read address and quantity, write address and quantity, byte count, registers. */
  lemma EncodedReadWrite(ra: word, rq: word, a: word, q: word, n: byte, registers: seq<word>)
    ensures var s := Encode(ReadWriteRegisters(ra, rq, a, q, n, registers));
            && |s| == 10 + 2 * |registers|
            && s[..10] == [0x17, ra / 0x100, ra % 0x100, rq / 0x100, rq % 0x100,
                           a / 0x100, a % 0x100, q / 0x100, q % 0x100, n]
            && WordsFrom(s, 10, registers)
  {
    hide WordsBytes, WordsFrom, WordBytes;
    var w, t := WordsBytes(registers), [0x17] + WordBytes(ra) + WordBytes(rq);
    var head := t + WordBytes(a) + WordBytes(q) + [n];
    Assoc([0x17], WordBytes(ra), WordBytes(rq) + (WordBytes(a) + (WordBytes(q) + ([n] + w))));
    Assoc([0x17] + WordBytes(ra), WordBytes(rq), WordBytes(a) + (WordBytes(q) + ([n] + w)));
    Assoc(t, WordBytes(a), WordBytes(q) + ([n] + w));
    Assoc(t + WordBytes(a), WordBytes(q), [n] + w);
    Assoc(t + WordBytes(a) + WordBytes(q), [n], w);
    WordsBytesFrom(head, registers, head + w);
    TwoWords(0x17, ra, rq);
    TwoWords(n, a, q);
    assert (head + w)[..10] == head;
  }

  lemma TwoWords(b: byte, a: word, q: word)
    ensures [b] + WordBytes(a) + WordBytes(q) == [b, a / 0x100, a % 0x100, q / 0x100, q % 0x100]
    ensures WordBytes(a) == [a / 0x100, a % 0x100] && WordBytes(q) == [q / 0x100, q % 0x100]
  {}

  // ---------------------------------------------------------------- any bytes as a request

  /** The big-endian word at `k`. */
  function WordAt(s: seq<byte>, k: nat): word
    requires k + 1 < |s|
  {
    s[k] as int * 0x100 + s[k + 1]
  }

  /** `n` big-endian words from `k` on. */
  function WordsAt(s: seq<byte>, k: nat, n: nat): (ws: seq<word>)
    requires k + 2 * n <= |s|
    ensures |ws| == n
  {
    seq(n, i requires 0 <= i < n => WordAt(s, k + 2 * i))
  }

  lemma WordsAtAre(s: seq<byte>, k: nat, n: nat)
    requires k + 2 * n <= |s|
    ensures TakeWords(s[k..], n) == Ok(WordsAt(s, k, n), s[k + 2 * n..])
  {
    assert s[k..][2 * n..] == s[k + 2 * n..];
    forall i | 0 <= i < n ensures BytesWords(s[k..][..2 * n])[i] == WordsAt(s, k, n)[i] {
      assert s[k..][..2 * n][2 * i] == s[k + 2 * i] && s[k..][..2 * n][2 * i + 1] == s[k + 2 * i + 1];
    }
    assert BytesWords(s[k..][..2 * n]) == WordsAt(s, k, n);
  }

  lemma DecodedPlain(s: seq<byte>)
    requires s != [] && 0x01 <= s[0] <= 0x06
    ensures Decode(s) == if |s| < 5 then Fail(0x0D, []) else Ok(Plain(s[0], WordAt(s, 1), WordAt(s, 3)), s[5..])
  {
    if |s| >= 5 { assert s[1..][2..] == s[3..] && s[3..][2..] == s[5..]; }
  }

  lemma DecodedCoils(s: seq<byte>)
    requires s != [] && s[0] == 0x0F
    ensures Decode(s) == if |s| < 6 || |s| < 6 + s[5] as int then Fail(0x0D, [])
                         else Ok(WriteCoils(WordAt(s, 1), WordAt(s, 3), s[5], s[6..6 + s[5] as int]), s[6 + s[5] as int..])
  {
    hide MakeWord;
    if |s| >= 3 { assert s[1..][2..] == s[3..] && MakeWord(s[1], s[2]) == WordAt(s, 1) by { WordAtIs(s, 1); } }
    if |s| >= 5 { assert s[3..][2..] == s[5..] && MakeWord(s[3], s[4]) == WordAt(s, 3) by { WordAtIs(s, 3); } }
    if |s| >= 6 { assert s[5..][1..] == s[6..]; }
    if |s| >= 6 && |s| >= 6 + s[5] as int {
      assert s[6..][..s[5]] == s[6..6 + s[5] as int] && s[6..][s[5]..] == s[6 + s[5] as int..];
    }
  }

  lemma WordAtIs(s: seq<byte>, k: nat)
    requires k + 1 < |s|
    ensures MakeWord(s[k], s[k + 1]) == WordAt(s, k)
  {}

  /** An odd byte count announces the registers that fit in it. */
  lemma DecodedRegisters(s: seq<byte>)
    requires s != [] && s[0] == 0x10
    ensures var n: nat := if |s| < 6 then 0 else s[5] / 2;
            Decode(s) == if |s| < 6 || |s| < 6 + 2 * n then Fail(0x0D, [])
                         else Ok(WriteRegisters(WordAt(s, 1), WordAt(s, 3), s[5], WordsAt(s, 6, n)), s[6 + 2 * n..])
  {
    hide MakeWord, WordsAt, BytesWords;
    if |s| >= 3 { assert s[1..][2..] == s[3..] && MakeWord(s[1], s[2]) == WordAt(s, 1) by { WordAtIs(s, 1); } }
    if |s| >= 5 { assert s[3..][2..] == s[5..] && MakeWord(s[3], s[4]) == WordAt(s, 3) by { WordAtIs(s, 3); } }
    if |s| >= 6 { assert s[5..][1..] == s[6..]; }
    var n: nat := if |s| < 6 then 0 else s[5] / 2;
    if |s| >= 6 + 2 * n { WordsAtAre(s, 6, n); }
  }

  lemma DecodedReadWrite(s: seq<byte>)
    requires s != [] && s[0] == 0x17
    ensures var n: nat := if |s| < 10 then 0 else s[9] / 2;
            Decode(s) == if |s| < 10 || |s| < 10 + 2 * n then Fail(0x0D, [])
                         else Ok(ReadWriteRegisters(WordAt(s, 1), WordAt(s, 3), WordAt(s, 5), WordAt(s, 7), s[9], WordsAt(s, 10, n)),
                                 s[10 + 2 * n..])
  {
    hide MakeWord, WordsAt, BytesWords;
    if |s| >= 3 { assert s[1..][2..] == s[3..] && MakeWord(s[1], s[2]) == WordAt(s, 1) by { WordAtIs(s, 1); } }
    if |s| >= 5 { assert s[3..][2..] == s[5..] && MakeWord(s[3], s[4]) == WordAt(s, 3) by { WordAtIs(s, 3); } }
    if |s| >= 7 { assert s[5..][2..] == s[7..] && MakeWord(s[5], s[6]) == WordAt(s, 5) by { WordAtIs(s, 5); } }
    if |s| >= 9 { assert s[7..][2..] == s[9..] && MakeWord(s[7], s[8]) == WordAt(s, 7) by { WordAtIs(s, 7); } }
    if |s| >= 10 { assert s[9..][1..] == s[10..]; }
    var n: nat := if |s| < 10 then 0 else s[9] / 2;
    if |s| >= 10 + 2 * n { WordsAtAre(s, 10, n); }
  }

  lemma DecodedUnknown(s: seq<byte>)
    requires s == [] || s[0] !in {0x01, 0x02, 0x03, 0x04, 0x05, 0x06, 0x0F, 0x10, 0x17}
    ensures Decode(s) == if s == [] then Fail(0x0D, []) else Fail(0x01, s[1..])
  {}

  // ---------------------------------------------------------------- replies

  /** A counted reply: function code, byte count modulo 256, payload. */
  lemma EncodedPayload(code: byte, values: seq<byte>)
    ensures EncodeReply(PayloadOf(code, values)) == [code, |values| % 0x100] + values
  {}

  /** An echo: function code, address, value or quantity. */
  lemma EncodedPair(code: byte, a: word, v: word)
    ensures EncodeReply(Pair(code, a, v)) == [code, a / 0x100, a % 0x100, v / 0x100, v % 0x100]
  {}

  /** An exception reply: the function code of the request with bit 0x80 set, and the code. */
  lemma EncodedException(code: byte, e: byte)
    ensures EncodeReply(Exception(code, e)) == [if code < 0x80 then code + 0x80 else code, e]
  {}

  /** Any bytes read as a counted response. */
  lemma ReceivedPayload(code: byte, capacity: nat, prior: byte, s: seq<byte>)
    ensures ReceivePayload(code, capacity, prior, s) ==
            if |s| == 0 then Received(0x0D, prior, [], [])
            else if s[0] >= 0x80 then (if |s| < 2 then Received(0x0D, prior, [], []) else Received(s[1], prior, [], s[2..]))
            else if s[0] != code then Received(0x0C, prior, [], s[1..])
            else if |s| < 2 then Received(0x0D, prior, [], [])
            else if s[1] > capacity then Received(0x0D, s[1], [], s[2..])
            else if |s| < 2 + s[1] as int then Received(0x0D, s[1], s[2..], [])
            else Received(0x00, s[1], s[2..2 + s[1] as int], s[2 + s[1] as int..])
  {
    if |s| >= 2 {
      assert s[1..][1..] == s[2..];
      if |s| >= 2 + s[1] as int {
        assert s[2..][..s[1]] == s[2..2 + s[1] as int] && s[2..][s[1]..] == s[2 + s[1] as int..];
      }
    }
  }

  /** Any bytes read as an echo into an object that holds `address` and `value`. */
  lemma ReceivedEcho(code: byte, onOff: bool, address: word, value: word, s: seq<byte>)
    ensures ReceiveEcho(code, onOff, address, value, s) ==
            if |s| == 0 then Echoed(0x0D, address, value, [])
            else if s[0] >= 0x80 then (if |s| < 2 then Echoed(0x0D, address, value, []) else Echoed(s[1], address, value, s[2..]))
            else if s[0] != code then Echoed(0x0C, address, value, s[1..])
            else if |s| == 1 then Echoed(0x0D, address, value, [])
            else if |s| == 2 then Echoed(0x0D, s[1] as int * 0x100, value, [])
            else if |s| == 3 then Echoed(0x0D, WordAt(s, 1), value, [])
            else if |s| == 4 then Echoed(0x0D, WordAt(s, 1), s[3] as int * 0x100, [])
            else Echoed(if onOff && WordAt(s, 3) != 0x0000 && WordAt(s, 3) != 0xFF00 then 0x03 else 0x00, WordAt(s, 1), WordAt(s, 3), s[5..])
  {
    if |s| >= 2 { assert s[1..][1..] == s[2..]; }
    if |s| >= 3 { assert s[1..][2..] == s[3..]; }
    if |s| >= 5 { assert s[3..][2..] == s[5..]; }
  }

  /** A span of words after a read from any bytes: whole words, one half word, then what was there. */
  lemma SpanAfter(prior: seq<word>, s: seq<byte>, i: nat)
    requires i < |prior|
    ensures WordsInto(prior, s)[i] ==
            if 2 * i + 1 < |s| then WordAt(s, 2 * i) else if 2 * i < |s| then s[2 * i] as int * 0x100 else prior[i]
  {}

  // ---------------------------------------------------------------- frames

  /** Transaction id, protocol 0, length of unit and body, unit, body. */
  lemma FrameBytes(tid: word, unit: byte, pdu: seq<byte>)
    ensures Frame(tid, unit, pdu)
            == [tid / 0x100, tid % 0x100, 0, 0, (1 + |pdu|) % 0x1_0000 / 0x100, (1 + |pdu|) % 0x100, unit] + pdu
  {
    ShortDivision(1 + |pdu|);
  }

  lemma ShortDivision(n: nat)
    ensures n % 0x1_0000 % 0x100 == n % 0x100
  {}

  /** The verdict of the client on the first seven bytes: wrong transaction, protocol, unit, length,
      in that order. */
  function HeaderCode(tid: word, unit: byte, s: seq<byte>): ErrorCode
    requires |s| >= 7
  {
    if WordAt(s, 0) != tid then 0x0E
    else if WordAt(s, 2) != 0 then 0x0F
    else if s[6] != unit then 0x10
    else if !(2 <= WordAt(s, 4) <= 249) then 0x0C
    else 0x00
  }

  /** Any stream as the client's two reads find it; a broadcast reads nothing. */
  lemma AwaitedBytes(tid: word, unit: byte, s: seq<byte>)
    ensures AwaitReply(tid, unit, s) ==
            if unit == 0 then (Broadcast, s)
            else if |s| < 7 then (Ended, [])
            else if HeaderCode(tid, unit, s) != 0 then (Refused(HeaderCode(tid, unit, s)), s[7..])
            else if |s| < 6 + WordAt(s, 4) then (Ended, [])
            else (Body(s[7..6 + WordAt(s, 4)]), s[6 + WordAt(s, 4)..])
  {}

  /** A broadcast succeeds at once: nothing is read, and neither object nor memory is touched. */
  lemma BroadcastReads(code: byte, capacity: nat, prior: byte, onOff: bool, address: word, value: word, tid: word, s: seq<byte>)
    ensures ReadPayloadResponse(code, capacity, prior, tid, 0, s) == Exchange(Returned(0x00), prior, [], s)
    ensures ReadEchoResponse(code, onOff, address, value, tid, 0, s) == EchoExchange(Returned(0x00), address, value, s)
  {}

  /** Any stream as `read_response` finds it when it does not get as far as a body. */
  lemma NoBody(code: byte, capacity: nat, prior: byte, onOff: bool, address: word, value: word, tid: word, unit: byte, s: seq<byte>)
    requires unit != 0 && (|s| < 7 || HeaderCode(tid, unit, s) != 0 || |s| < 6 + WordAt(s, 4))
    ensures var (outcome, rest) := if |s| < 7 || HeaderCode(tid, unit, s) == 0 then (Threw, [])
                                   else (Returned(HeaderCode(tid, unit, s)), s[7..]);
            && ReadPayloadResponse(code, capacity, prior, tid, unit, s) == Exchange(outcome, prior, [], rest)
            && ReadEchoResponse(code, onOff, address, value, tid, unit, s) == EchoExchange(outcome, address, value, rest)
  {
    hide AwaitReply, HeaderCode, ReceivePayload, ReceiveEcho;
    AwaitedBytes(tid, unit, s);
  }

  /** And when it does: the body decides, and exactly header and body are taken off the stream. */
  lemma WithBody(code: byte, capacity: nat, prior: byte, onOff: bool, address: word, value: word, tid: word, unit: byte, s: seq<byte>)
    requires unit != 0 && |s| >= 7 && HeaderCode(tid, unit, s) == 0 && |s| >= 6 + WordAt(s, 4)
    ensures var n := 6 + WordAt(s, 4);
            var r, e := ReceivePayload(code, capacity, prior, s[7..n]), ReceiveEcho(code, onOff, address, value, s[7..n]);
            && ReadPayloadResponse(code, capacity, prior, tid, unit, s)
               == Exchange(Returned(r.ec), r.byteCount, r.filled, s[n..])
            && ReadEchoResponse(code, onOff, address, value, tid, unit, s)
               == EchoExchange(Returned(e.ec), e.address, e.value, s[n..])
  {
    hide AwaitReply, HeaderCode, ReceivePayload, ReceiveEcho;
    AwaitedBytes(tid, unit, s);
  }

  /** Any stream as the slave's request read finds it. */
  lemma RequestBytes(s: seq<byte>)
    ensures ReadRequestFrame(s) ==
            if |s| < 7 then TransportError
            else if !(2 <= WordAt(s, 4) <= 254) then LengthRefused(s[7..])
            else if |s| < 6 + WordAt(s, 4) then TransportError
            else GotRequest(WordAt(s, 0), s[6], Decode(s[7..6 + WordAt(s, 4)]), s[6 + WordAt(s, 4)..])
  {
    hide Decode;
  }
}
