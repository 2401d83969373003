/** Request protocol data units: the nine request kinds of include/mothbus/pdu.h, their encoding
    and their decoding as functions on byte strings. */
module Requests {
  import opened Wire

  const READ_COILS: byte := 0x01
  const READ_HOLDING_REGISTERS: byte := 0x03
  const WRITE_SINGLE_COIL: byte := 0x05
  const WRITE_SINGLE_REGISTER: byte := 0x06
  const WRITE_MULTIPLE_COILS: byte := 0x0F
  const WRITE_MULTIPLE_REGISTERS: byte := 0x10
  const READ_WRITE_MULTIPLE_REGISTERS: byte := 0x17

  /** `Plain` covers the six kinds 0x01 to 0x06, which all carry two words: an address and a
      quantity or value. */
  datatype Request =
    | Plain(code: byte, address: word, operand: word)
    | WriteCoils(address: word, quantity: word, byteCount: byte, coils: seq<byte>)
    | WriteRegisters(address: word, quantity: word, byteCount: byte, registers: seq<word>)
    | ReadWriteRegisters(readAddress: word, readQuantity: word, address: word, quantity: word,
                         byteCount: byte, registers: seq<word>)
  {
    function Code(): byte {
      match this
      case Plain(code, _, _) => code
      case WriteCoils(_, _, _, _) => WRITE_MULTIPLE_COILS
      case WriteRegisters(_, _, _, _) => WRITE_MULTIPLE_REGISTERS
      case ReadWriteRegisters(_, _, _, _, _, _) => READ_WRITE_MULTIPLE_REGISTERS
    }

    /** The payload has the size its byte count announces; an odd register byte count announces
        the registers that fit in it. */
    predicate Consistent() {
      match this
      case Plain(code, _, _) => 0x01 <= code <= 0x06
      case WriteCoils(_, _, n, coils) => |coils| == n
      case WriteRegisters(_, _, n, registers) => |registers| == n / 2
      case ReadWriteRegisters(_, _, _, _, n, registers) => |registers| == n / 2
    }

    /** The assertion of the 0x05 writer. */
    predicate Writable() {
      this.Plain? && code == WRITE_SINGLE_COIL ==> operand == 0x0000 || operand == 0xFF00
    }
  }

  /** What `write(writer, req)` puts into the sink. */
  function Encode(r: Request): seq<byte> { [r.Code()] + EncodeBody(r) }

  function EncodeBody(r: Request): seq<byte> {
    match r
    case Plain(_, a, v) => WordBytes(a) + WordBytes(v)
    case WriteCoils(a, q, n, coils) => WordBytes(a) + (WordBytes(q) + ([n] + coils))
    case WriteRegisters(a, q, n, registers) =>
      WordBytes(a) + (WordBytes(q) + ([n] + WordsBytes(registers)))
    case ReadWriteRegisters(ra, rq, a, q, n, registers) =>
      WordBytes(ra) + (WordBytes(rq) + (WordBytes(a) + (WordBytes(q) + ([n] + WordsBytes(registers)))))
  }

  // ---------------------------------------------------------------- decoding

  function DecodePlain(code: byte, s: seq<byte>): Parse<Request> {
    var (a, s) :- TakeWord(s);
    var (v, s) :- TakeWord(s);
    Ok(Plain(code, a, v), s)
  }

  function DecodeWriteCoils(s: seq<byte>): Parse<Request> {
    var (a, s) :- TakeWord(s);
    var (q, s) :- TakeWord(s);
    var (n, s) :- TakeByte(s);
    var (coils, s) :- TakeBytes(s, n);
    Ok(WriteCoils(a, q, n, coils), s)
  }

  function DecodeWriteRegisters(s: seq<byte>): Parse<Request> {
    var (a, s) :- TakeWord(s);
    var (q, s) :- TakeWord(s);
    var (n, s) :- TakeByte(s);
    var (registers, s) :- TakeWords(s, n / 2);
    Ok(WriteRegisters(a, q, n, registers), s)
  }

  function DecodeReadWriteRegisters(s: seq<byte>): Parse<Request> {
    var (ra, s) :- TakeWord(s);
    var (rq, s) :- TakeWord(s);
    var (a, s) :- TakeWord(s);
    var (q, s) :- TakeWord(s);
    var (n, s) :- TakeByte(s);
    var (registers, s) :- TakeWords(s, n / 2);
    Ok(ReadWriteRegisters(ra, rq, a, q, n, registers), s)
  }

  /** The dispatch of `read_pdu_variant` on the function code. */
  function DecodeBody(code: byte, s: seq<byte>): Parse<Request> {
    if 0x01 <= code <= 0x06 then DecodePlain(code, s)
    else if code == WRITE_MULTIPLE_COILS then DecodeWriteCoils(s)
    else if code == WRITE_MULTIPLE_REGISTERS then DecodeWriteRegisters(s)
    else if code == READ_WRITE_MULTIPLE_REGISTERS then DecodeReadWriteRegisters(s)
    else Fail(ILLEGAL_FUNCTION, s)
  }

  /** `read(reader, pdu_req)`. */
  function Decode(s: seq<byte>): Parse<Request> {
    var (code, s) :- TakeByte(s);
    DecodeBody(code, s)
  }

  // ---------------------------------------------------------------- decoding inverts encoding

  lemma PlainIff(s: seq<byte>, r: Request, t: seq<byte>)
    requires r.Plain?
    ensures DecodePlain(r.code, s) == Ok(r, t) <==> s == EncodeBody(r) + t
  {
    hide TakeWord, WordBytes;
    var Plain(_, a, v) := r;
    var t1 := WordBytes(v) + t;
    Assoc(WordBytes(a), WordBytes(v), t);
    TakeWordIff(s, a, t1);
    TakeWordIff(t1, v, t);
    if DecodePlain(r.code, s) == Ok(r, t) {
      var s1 := TakeWord(s).rest;
      TakeWordIff(s1, v, t);
    }
  }

  lemma WriteCoilsIff(s: seq<byte>, r: Request, t: seq<byte>)
    requires r.WriteCoils?
    ensures DecodeWriteCoils(s) == Ok(r, t) <==> r.Consistent() && s == EncodeBody(r) + t
  {
    hide TakeWord, TakeByte, TakeBytes, WordBytes;
    var WriteCoils(a, q, n, coils) := r;
    var t3 := coils + t;
    var t2 := [n] + t3;
    var t1 := WordBytes(q) + t2;
    Assoc(WordBytes(a), WordBytes(q) + ([n] + coils), t);
    Assoc(WordBytes(q), [n] + coils, t);
    Assoc([n], coils, t);
    TakeWordIff(s, a, t1);
    TakeWordIff(t1, q, t2);
    TakeByteIff(t2, n, t3);
    TakeBytesIff(t3, n, coils, t);
    if DecodeWriteCoils(s) == Ok(r, t) {
      var s1 := TakeWord(s).rest;
      var s2 := TakeWord(s1).rest;
      var s3 := TakeByte(s2).rest;
      TakeWordIff(s, a, s1);
      TakeWordIff(s1, q, s2);
      TakeByteIff(s2, n, s3);
      TakeBytesIff(s3, n, coils, t);
    }
  }

  lemma WriteRegistersIff(s: seq<byte>, r: Request, t: seq<byte>)
    requires r.WriteRegisters?
    ensures DecodeWriteRegisters(s) == Ok(r, t) <==> r.Consistent() && s == EncodeBody(r) + t
  {
    hide TakeWord, TakeByte, TakeWords, WordBytes, WordsBytes;
    var WriteRegisters(a, q, n, ws) := r;
    var t3 := WordsBytes(ws) + t;
    var t2 := [n] + t3;
    var t1 := WordBytes(q) + t2;
    Assoc(WordBytes(a), WordBytes(q) + ([n] + WordsBytes(ws)), t);
    Assoc(WordBytes(q), [n] + WordsBytes(ws), t);
    Assoc([n], WordsBytes(ws), t);
    TakeWordIff(s, a, t1);
    TakeWordIff(t1, q, t2);
    TakeByteIff(t2, n, t3);
    TakeWordsIff(t3, n / 2, ws, t);
    if DecodeWriteRegisters(s) == Ok(r, t) {
      var s1 := TakeWord(s).rest;
      var s2 := TakeWord(s1).rest;
      var s3 := TakeByte(s2).rest;
      TakeWordIff(s, a, s1);
      TakeWordIff(s1, q, s2);
      TakeByteIff(s2, n, s3);
      TakeWordsIff(s3, n / 2, ws, t);
    }
  }

  lemma ReadWriteRegistersIff(s: seq<byte>, r: Request, t: seq<byte>)
    requires r.ReadWriteRegisters?
    ensures DecodeReadWriteRegisters(s) == Ok(r, t) <==> r.Consistent() && s == EncodeBody(r) + t
  {
    hide TakeWord, TakeByte, TakeWords, WordBytes, WordsBytes;
    var ReadWriteRegisters(ra, rq, a, q, n, ws) := r;
    // The last four fields are those of a plain register write.
    var w := WriteRegisters(a, q, n, ws);
    var t2 := EncodeBody(w) + t;
    var t1 := WordBytes(rq) + t2;
    Assoc(WordBytes(ra), WordBytes(rq) + EncodeBody(w), t);
    Assoc(WordBytes(rq), EncodeBody(w), t);
    TakeWordIff(s, ra, t1);
    TakeWordIff(t1, rq, t2);
    WriteRegistersIff(t2, w, t);
    if DecodeReadWriteRegisters(s) == Ok(r, t) {
      var s1 := TakeWord(s).rest;
      var s2 := TakeWord(s1).rest;
      TakeWordIff(s, ra, s1);
      TakeWordIff(s1, rq, s2);
      WriteRegistersIff(s2, w, t);
    }
  }

  /** Decoding and encoding are exact inverses: a byte string decodes to `r` with `t` left over
      if and only if `r` is consistent and the string is the encoding of `r` followed by `t`. */
  lemma DecodeIffEncode(s: seq<byte>, r: Request, t: seq<byte>)
    ensures Decode(s) == Ok(r, t) <==> r.Consistent() && s == Encode(r) + t
  {
    hide TakeByte, EncodeBody, DecodePlain, DecodeWriteCoils, DecodeWriteRegisters, DecodeReadWriteRegisters;
    var body := EncodeBody(r) + t;
    Assoc([r.Code()], EncodeBody(r), t);
    TakeByteIff(s, r.Code(), body);
    BodyIff(r.Code(), body, r, t);
    if Decode(s) == Ok(r, t) {
      var code, rest := TakeByte(s).value, TakeByte(s).rest;
      TakeByteIff(s, code, rest);
      BodyIff(code, rest, r, t);
    }
  }

  lemma BodyIff(code: byte, s: seq<byte>, r: Request, t: seq<byte>)
    ensures DecodeBody(code, s) == Ok(r, t) <==> code == r.Code() && r.Consistent() && s == EncodeBody(r) + t
  {
    hide EncodeBody, TakeWord, TakeByte, TakeBytes, TakeWords;
    match r {
      case Plain(_, _, _) => PlainIff(s, r, t);
      case WriteCoils(_, _, _, _) => WriteCoilsIff(s, r, t);
      case WriteRegisters(_, _, _, _) => WriteRegistersIff(s, r, t);
      case ReadWriteRegisters(_, _, _, _, _, _) => ReadWriteRegistersIff(s, r, t);
    }
  }

  /** No encoding is a prefix of another, within a kind or across kinds. */
  lemma PrefixFree(r: Request, t: seq<byte>, r': Request, t': seq<byte>)
    requires r.Consistent() && r'.Consistent()
    requires Encode(r) + t == Encode(r') + t'
    ensures r == r' && t == t'
  {
    hide Encode, Decode;
    DecodeIffEncode(Encode(r) + t, r, t);
    DecodeIffEncode(Encode(r) + t, r', t');
  }

  // ---------------------------------------------------------------- rejections

  predicate KnownCode(code: byte) {
    0x01 <= code <= 0x06 || code == WRITE_MULTIPLE_COILS || code == WRITE_MULTIPLE_REGISTERS
    || code == READ_WRITE_MULTIPLE_REGISTERS
  }

  /** Decoding fails only on an unknown function code, after that one byte, or by running out of
      input, after all of it. */
  lemma Rejections(s: seq<byte>)
    requires Decode(s).Fail?
    ensures if s != [] && !KnownCode(s[0]) then Decode(s) == Fail(ILLEGAL_FUNCTION, s[1..])
            else Decode(s) == EndOfInput()
  {
    hide TakeWord, TakeBytes, TakeWords;
    if s != [] {
      ShortPlain(s[0], s[1..]);
      ShortWriteCoils(s[1..]);
      ShortWriteRegisters(s[1..]);
      ShortReadWriteRegisters(s[1..]);
    }
  }

  lemma ShortPlain(code: byte, s: seq<byte>)
    ensures DecodePlain(code, s) == EndOfInput() <==> |s| < 4
    ensures |s| >= 4 ==> DecodePlain(code, s).Ok?
  {}

  lemma ShortWriteCoils(s: seq<byte>)
    ensures DecodeWriteCoils(s).Ok? || DecodeWriteCoils(s) == EndOfInput()
    ensures |s| >= 260 ==> DecodeWriteCoils(s).Ok?
  {}

  lemma ShortWriteRegisters(s: seq<byte>)
    ensures DecodeWriteRegisters(s).Ok? || DecodeWriteRegisters(s) == EndOfInput()
    ensures |s| >= 260 ==> DecodeWriteRegisters(s).Ok?
  {
    hide BytesWords;
  }

  lemma ShortReadWriteRegisters(s: seq<byte>)
    ensures DecodeReadWriteRegisters(s).Ok? || DecodeReadWriteRegisters(s) == EndOfInput()
    ensures |s| >= 264 ==> DecodeReadWriteRegisters(s).Ok?
  {
    hide BytesWords;
  }

  /** Every strict prefix of an encoded request is rejected with `too_many_bytes_received`. */
  lemma StrictPrefixRejected(r: Request, k: nat)
    requires r.Consistent() && k < |Encode(r)|
    ensures Decode(Encode(r)[..k]) == EndOfInput()
  {
    hide Encode, EncodeBody, Decode;
    var s, tail := Encode(r)[..k], Encode(r)[k..];
    assert Encode(r) == s + tail;
    match Decode(s) {
      case Ok(r', t') =>
        DecodeIffEncode(s, r', t');
        Assoc(Encode(r'), t', tail);
        assert Encode(r) + [] == Encode(r);
        PrefixFree(r, [], r', t' + tail);
        assert false;
      case Fail(_, _) =>
        Rejections(s);
        EncodeStart(r);
    }
  }

  lemma EncodeStart(r: Request)
    requires r.Consistent()
    ensures |Encode(r)| > 0 && Encode(r)[0] == r.Code() && KnownCode(r.Code())
  {}

  lemma LongEnough(s: seq<byte>)
    requires |s| >= 265 && KnownCode(s[0])
    ensures Decode(s).Ok?
  {
    hide TakeWord, TakeBytes, TakeWords;
    ShortPlain(s[0], s[1..]);
    ShortWriteCoils(s[1..]);
    ShortWriteRegisters(s[1..]);
    ShortReadWriteRegisters(s[1..]);
  }

  /** Running out of input means exactly that more input could still complete a request. */
  lemma IncompleteIffStrictPrefix(s: seq<byte>)
    ensures Decode(s) == EndOfInput() <==>
            exists r: Request :: r.Consistent() && s < Encode(r)
  {
    hide Encode, EncodeBody, Decode;
    if r: Request :| r.Consistent() && s < Encode(r) {
      StrictPrefixRejected(r, |s|);
      assert Encode(r)[..|s|] == s;
    }
    if Decode(s) == EndOfInput() {
      Rejections(s);
      var padded := (if s == [] then [READ_COILS] else s) + seq(265, _ => 0);
      LongEnough(padded);
      var r, t := Decode(padded).value, Decode(padded).rest;
      DecodeIffEncode(padded, r, t);
      assert s <= padded;
      if |Encode(r)| <= |s| {
        assert s == Encode(r) + s[|Encode(r)|..];
        DecodeIffEncode(s, r, s[|Encode(r)|..]);
        assert false;
      }
      assert s < Encode(r);
    }
  }
}
