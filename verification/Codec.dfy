/** The readers and writers of include/mothbus/pdu.h and include/mothbus/pdu/ as they run on a
    buffer, proved against the functions of `Requests` and `Responses`. */
module Codec {
  import opened Wire
  import opened Requests
  import opened Responses
  import opened Buffers

  /** A read agrees with its specification: same error or value, same bytes left. */
  ghost predicate Agrees<T>(p: Parse<T>, ec: ErrorCode, v: T, unread: seq<byte>) {
    unread == p.rest &&
    match p
    case Ok(w, _) => ec == SUCCESS && v == w
    case Fail(e, _) => ec == e != SUCCESS
  }

  // ---------------------------------------------------------------- pdu/reader.h

  /** Reads into a variable that held `prior`; if the input ends after one byte, the variable has
      already taken that byte. */
  method ReadWord(src: Buffer, prior: word) returns (ec: ErrorCode, v: word)
    requires src.Valid()
    modifies src`inputStart
    ensures src.Valid() && Agrees(TakeWord(old(src.Unread())), ec, v, src.Unread())
    ensures v == WordInto(prior, old(src.Unread()))
  {
    var b: byte := 0;
    v := prior;
    ec, b := src.Get(b);
    if ec != SUCCESS { return; }
    v := b * 0x100;
    ec, b := src.Get(b);
    if ec != SUCCESS { return; }
    v := v + b;
  }

  method ReadByte(src: Buffer) returns (ec: ErrorCode, v: byte)
    requires src.Valid()
    modifies src`inputStart
    ensures src.Valid() && Agrees(TakeByte(old(src.Unread())), ec, v, src.Unread())
  {
    ec, v := src.Get(0);
  }

  /** Fills the first `n` bytes of a span. If the input ends early the bytes that were there have
      been stored. */
  method ReadByteSpan(src: Buffer, out: array<byte>, n: nat) returns (ec: ErrorCode)
    requires src.Valid() && n <= out.Length && out != src.bytes
    modifies src`inputStart, out
    ensures src.Valid()
    ensures var s := old(src.Unread());
            if |s| < n then
              ec == TOO_MANY_BYTES_RECEIVED && src.Unread() == [] && out[..] == s + old(out[..])[|s|..]
            else
              ec == SUCCESS && src.Unread() == s[n..] && out[..] == s[..n] + old(out[..])[n..]
  {
    ghost var s := src.Unread();
    var i := 0;
    while i < n
      invariant 0 <= i <= n && i <= |s| && src.Valid()
      invariant src.Unread() == s[i..]
      invariant out[..i] == s[..i] && out[i..] == old(out[..])[i..]
    {
      var temp: byte;
      ec, temp := src.Get(0);
      if ec != SUCCESS {
        assert out[..] == out[..i] + out[i..];
        return;
      }
      ghost var before := out[..];
      out[i] := temp;
      assert temp == s[i] && src.Unread() == s[i + 1..];
      assert out[..i + 1] == before[..i] + [temp] == s[..i + 1];
      assert out[i + 1..] == before[i..][1..];
      i := i + 1;
    }
    assert out[..] == out[..n] + out[n..];
    ec := SUCCESS;
  }

  /** Fills a span of words. If the input ends early the words that were there have been stored,
      the last of them possibly in half. */
  method ReadWordSpan(src: Buffer, out: array<word>) returns (ec: ErrorCode)
    requires src.Valid()
    modifies src`inputStart, out
    ensures src.Valid() && Agrees(TakeWords(old(src.Unread()), out.Length), ec, out[..], src.Unread())
    ensures out[..] == WordsInto(old(out[..]), old(src.Unread()))
  {
    hide MakeWord;
    ghost var s, prior := src.Unread(), out[..];
    var i := 0;
    while i < out.Length
      invariant 0 <= i <= out.Length && 2 * i <= |s| && src.Valid()
      invariant src.Unread() == s[2 * i..]
      invariant forall k :: 0 <= k < i ==> out[k] == MakeWord(s[2 * k], s[2 * k + 1])
      invariant forall k :: i <= k < out.Length ==> out[k] == prior[k]
    {
      ec, out[i] := ReadWord(src, out[i]);
      if ec != SUCCESS {
        StoredWords(prior, s, i, out[..]);
        return;
      }
      i := i + 1;
    }
    assert out[..] == BytesWords(s[..2 * out.Length]);
    StoredWords(prior, s, i, out[..]);
    ec := SUCCESS;
  }

  /** `i` whole words of `s` stored, and the one after them as far as `s` goes. */
  lemma StoredWords(prior: seq<word>, s: seq<byte>, i: nat, ws: seq<word>)
    requires |ws| == |prior| && i <= |ws| && 2 * i <= |s|
    requires i < |ws| ==> |s| < 2 * i + 2 && ws[i] == WordInto(prior[i], s[2 * i..])
    requires forall k :: 0 <= k < i ==> ws[k] == MakeWord(s[2 * k], s[2 * k + 1])
    requires forall k :: i < k < |ws| ==> ws[k] == prior[k]
    ensures ws == WordsInto(prior, s)
  {
    forall k | 0 <= k < |ws| ensures ws[k] == WordsInto(prior, s)[k] {
      if k < i { assert s[2 * k..][0] == s[2 * k] && s[2 * k..][1] == s[2 * k + 1]; }
    }
  }

  // ---------------------------------------------------------------- request readers

  method ReadPlain(src: Buffer, code: byte) returns (ec: ErrorCode, r: Request)
    requires src.Valid()
    modifies src`inputStart
    ensures src.Valid() && Agrees(DecodePlain(code, old(src.Unread())), ec, r, src.Unread())
  {
    hide TakeWord;
    var a: word, v: word := 0, 0;
    r := Plain(code, 0, 0);
    ec, a := ReadWord(src, a);
    if ec != SUCCESS { return; }
    ec, v := ReadWord(src, v);
    r := Plain(code, a, v);
  }

  method ReadCoilWrite(src: Buffer) returns (ec: ErrorCode, r: Request)
    requires src.Valid()
    modifies src`inputStart
    ensures src.Valid() && Agrees(DecodeWriteCoils(old(src.Unread())), ec, r, src.Unread())
  {
    hide TakeWord, TakeByte;
    var a: word, q: word, n: byte := 0, 0, 0;
    r := WriteCoils(0, 0, 0, []);
    ec, a := ReadWord(src, a);
    if ec != SUCCESS { return; }
    ec, q := ReadWord(src, q);
    if ec != SUCCESS { return; }
    ec, n := ReadByte(src);
    if ec != SUCCESS { return; }
    var values := new byte[n](_ => 0);
    ghost var s := src.Unread();
    assert values[..][n..] == [];
    ec := ReadByteSpan(src, values, n);
    assert |s| >= n ==> values[..] == s[..n];
    r := WriteCoils(a, q, n, values[..]);
  }

  method ReadRegisterWrite(src: Buffer) returns (ec: ErrorCode, r: Request)
    requires src.Valid()
    modifies src`inputStart
    ensures src.Valid() && Agrees(DecodeWriteRegisters(old(src.Unread())), ec, r, src.Unread())
  {
    hide TakeWord, TakeByte, TakeWords;
    var a: word, q: word, n: byte := 0, 0, 0;
    r := WriteRegisters(0, 0, 0, []);
    ec, a := ReadWord(src, a);
    if ec != SUCCESS { return; }
    ec, q := ReadWord(src, q);
    if ec != SUCCESS { return; }
    ec, n := ReadByte(src);
    if ec != SUCCESS { return; }
    var values := new word[n / 2](_ => 0);
    ec := ReadWordSpan(src, values);
    r := WriteRegisters(a, q, n, values[..]);
  }

  method ReadRegisterReadWrite(src: Buffer) returns (ec: ErrorCode, r: Request)
    requires src.Valid()
    modifies src`inputStart
    ensures src.Valid() && Agrees(DecodeReadWriteRegisters(old(src.Unread())), ec, r, src.Unread())
  {
    hide TakeWord, TakeByte, TakeWords;
    var ra: word, rq: word, a: word, q: word, n: byte := 0, 0, 0, 0, 0;
    r := ReadWriteRegisters(0, 0, 0, 0, 0, []);
    ec, ra := ReadWord(src, ra);
    if ec != SUCCESS { return; }
    ec, rq := ReadWord(src, rq);
    if ec != SUCCESS { return; }
    ec, a := ReadWord(src, a);
    if ec != SUCCESS { return; }
    ec, q := ReadWord(src, q);
    if ec != SUCCESS { return; }
    ec, n := ReadByte(src);
    if ec != SUCCESS { return; }
    var values := new word[n / 2](_ => 0);
    ec := ReadWordSpan(src, values);
    r := ReadWriteRegisters(ra, rq, a, q, n, values[..]);
  }

  // ---------------------------------------------------------------- dispatch

  /** `pdu_req`: one of the nine requests, or `not_implemented`. */
  datatype Variant = Holds(request: Request) | NotImplemented

  /** The function codes of the alternatives of `pdu_req`, in their order. */
  const ALTERNATIVES: seq<byte> := [0x01, 0x02, 0x03, 0x04, 0x05, 0x06, 0x0F, 0x10, 0x17]

  function VariantAfter(p: Parse<Request>, prior: Variant): Variant {
    match p
    case Ok(r, _) => Holds(r)
    case Fail(ec, _) => if ec == ILLEGAL_FUNCTION then NotImplemented else prior
  }

  /** The reader of one alternative. */
  method ReadKnown(src: Buffer, code: byte) returns (ec: ErrorCode, r: Request)
    requires src.Valid() && KnownCode(code)
    modifies src`inputStart
    ensures src.Valid() && Agrees(DecodeBody(code, old(src.Unread())), ec, r, src.Unread())
  {
    hide DecodePlain, DecodeWriteCoils, DecodeWriteRegisters, DecodeReadWriteRegisters;
    if code <= 0x06 {
      ec, r := ReadPlain(src, code);
    } else if code == WRITE_MULTIPLE_COILS {
      ec, r := ReadCoilWrite(src);
    } else if code == WRITE_MULTIPLE_REGISTERS {
      ec, r := ReadRegisterWrite(src);
    } else {
      ec, r := ReadRegisterReadWrite(src);
    }
  }

  lemma OnlyEndOfInput(code: byte, s: seq<byte>)
    requires KnownCode(code) && DecodeBody(code, s).Fail?
    ensures DecodeBody(code, s).ec == TOO_MANY_BYTES_RECEIVED
  {
    hide DecodeBody, DecodePlain;
    var t := [code] + s;
    assert t[1..] == s;
    assert Decode(t) == DecodeBody(code, s);
    Rejections(t);
  }

  /** `read_pdu_variant`: try the alternatives from the front. */
  method ReadVariant(src: Buffer, alternatives: seq<byte>, code: byte, prior: Variant)
    returns (ec: ErrorCode, v: Variant)
    requires src.Valid() && forall a :: a in alternatives ==> KnownCode(a)
    modifies src`inputStart
    ensures src.Valid()
    ensures var p := if code in alternatives then DecodeBody(code, old(src.Unread()))
                     else Fail(ILLEGAL_FUNCTION, old(src.Unread()));
            ec == (if p.Ok? then SUCCESS else p.ec) && src.Unread() == p.rest && v == VariantAfter(p, prior)
    decreases |alternatives|
  {
    if alternatives == [] {
      return ILLEGAL_FUNCTION, NotImplemented;
    }
    if alternatives[0] == code {
      var decoded: Request;
      ghost var s := src.Unread();
      ec, decoded := ReadKnown(src, code);
      if DecodeBody(code, s).Fail? { OnlyEndOfInput(code, s); }
      hide DecodeBody;
      v := if ec == SUCCESS then Holds(decoded) else prior;
    } else {
      ec, v := ReadVariant(src, alternatives[1..], code, prior);
    }
  }

  /** `read(reader, pdu_req)`. */
  method ReadRequest(src: Buffer, prior: Variant) returns (ec: ErrorCode, v: Variant)
    requires src.Valid()
    modifies src`inputStart
    ensures src.Valid()
    ensures var p := Decode(old(src.Unread()));
            ec == (if p.Ok? then SUCCESS else p.ec) && src.Unread() == p.rest && v == VariantAfter(p, prior)
  {
    hide DecodeBody;
    var code: byte;
    v := prior;
    ec, code := ReadByte(src);
    if ec != SUCCESS { return; }
    ghost var s := src.Unread();
    ec, v := ReadVariant(src, ALTERNATIVES, code, prior);
    UnknownCode(code, s);
  }

  /** What the variant holds after a read from any bytes: the decoded request, `not_implemented`
      after an unknown function code, and what it held before if the input ended. */
  lemma VariantRead(s: seq<byte>, prior: Variant)
    ensures VariantAfter(Decode(s), prior) ==
            if Decode(s).Ok? then Holds(Decode(s).value)
            else if s != [] && s[0] !in {0x01, 0x02, 0x03, 0x04, 0x05, 0x06, 0x0F, 0x10, 0x17} then NotImplemented
            else prior
  {
    hide DecodeBody;
    if s != [] {
      UnknownCode(s[0], s[1..]);
      if KnownCode(s[0]) && DecodeBody(s[0], s[1..]).Fail? { OnlyEndOfInput(s[0], s[1..]); }
    }
  }

  lemma UnknownCode(code: byte, s: seq<byte>)
    ensures code !in ALTERNATIVES ==> DecodeBody(code, s) == Fail(ILLEGAL_FUNCTION, s)
  {}

  // ---------------------------------------------------------------- pdu/writer.h

  /** A writer has put `d` at the write cursor and touched nothing else. */
  twostate predicate Wrote(sink: Buffer, d: seq<byte>)
    reads sink, sink.bytes
  {
    && sink.Valid()
    && old(sink.outputStart) + |d| <= sink.bytes.Length
    && sink.outputStart == old(sink.outputStart) + |d|
    && sink.bytes[..] == Splice(old(sink.bytes[..]), old(sink.outputStart), d)
  }

  method WriteWord(sink: Buffer, v: word)
    requires sink.Valid() && sink.outputStart + 2 <= sink.bytes.Length
    modifies sink`outputStart, sink.bytes
    ensures Wrote(sink, WordBytes(v))
  {
    sink.Put(High(v));
    sink.Put(Low(v));
    SpliceTwice(old(sink.bytes[..]), old(sink.outputStart), [High(v)], [Low(v)]);
    assert [High(v)] + [Low(v)] == WordBytes(v);
  }

  method WriteBytes(sink: Buffer, v: seq<byte>)
    requires sink.Valid() && sink.outputStart + |v| <= sink.bytes.Length
    modifies sink`outputStart, sink.bytes
    ensures Wrote(sink, v)
  {
    hide Splice;
    SpliceNothing(sink.bytes[..], sink.outputStart);
    var i := 0;
    while i < |v|
      invariant 0 <= i <= |v| && Wrote(sink, v[..i])
    {
      sink.Put(v[i]);
      SpliceTwice(old(sink.bytes[..]), old(sink.outputStart), v[..i], [v[i]]);
      assert v[..i] + [v[i]] == v[..i + 1];
      i := i + 1;
    }
    assert v[..|v|] == v;
  }

  lemma WordsSnoc(ws: seq<word>, i: nat)
    requires i < |ws|
    ensures WordsBytes(ws[..i]) + WordBytes(ws[i]) == WordsBytes(ws[..i + 1])
  {}

  method WriteWords(sink: Buffer, v: seq<word>)
    requires sink.Valid() && sink.outputStart + 2 * |v| <= sink.bytes.Length
    modifies sink`outputStart, sink.bytes
    ensures Wrote(sink, WordsBytes(v))
  {
    hide Splice, WordsBytes;
    SpliceNothing(sink.bytes[..], sink.outputStart);
    var i := 0;
    while i < |v|
      invariant 0 <= i <= |v| && Wrote(sink, WordsBytes(v[..i]))
    {
      ghost var done := WordsBytes(v[..i]);
      WriteWord(sink, v[i]);
      SpliceTwice(old(sink.bytes[..]), old(sink.outputStart), done, WordBytes(v[i]));
      WordsSnoc(v, i);
      i := i + 1;
    }
    assert v[..|v|] == v;
  }

  // ---------------------------------------------------------------- request and response writers

  /** `write(writer, req)` for the two-word requests. */
  method WritePlain(sink: Buffer, r: Request)
    requires sink.Valid() && r.Plain? && r.Writable()
    requires sink.outputStart + |Encode(r)| <= sink.bytes.Length
    modifies sink`outputStart, sink.bytes
    ensures Wrote(sink, Encode(r))
  {
    hide Splice, WordsBytes, WordBytes;
    ghost var s0, p := sink.bytes[..], sink.outputStart;
    sink.Put(r.code);
    ghost var s1 := sink.bytes[..];
    WriteWord(sink, r.address);
    WriteWord(sink, r.operand);
    SpliceTwice(s1, p + 1, WordBytes(r.address), WordBytes(r.operand));
    SpliceTwice(s0, p, [r.Code()], EncodeBody(r));
  }

  /** `write(writer, req)` for 0x0F. */
  method WriteCoilWrite(sink: Buffer, r: Request)
    requires sink.Valid() && r.WriteCoils? && r.Writable()
    requires sink.outputStart + |Encode(r)| <= sink.bytes.Length
    modifies sink`outputStart, sink.bytes
    ensures Wrote(sink, Encode(r))
  {
    hide Splice, WordsBytes, WordBytes;
    ghost var s0, p, tail := sink.bytes[..], sink.outputStart, [r.byteCount] + r.coils;
    sink.Put(r.Code());
    ghost var s1 := sink.bytes[..];
    WriteWord(sink, r.address);
    ghost var s2 := sink.bytes[..];
    WriteWord(sink, r.quantity);
    ghost var s3 := sink.bytes[..];
    sink.Put(r.byteCount);
    WriteBytes(sink, r.coils);
    SpliceTwice(s3, p + 5, [r.byteCount], r.coils);
    SpliceTwice(s2, p + 3, WordBytes(r.quantity), tail);
    SpliceTwice(s1, p + 1, WordBytes(r.address), WordBytes(r.quantity) + tail);
    SpliceTwice(s0, p, [r.Code()], EncodeBody(r));
  }

  /** `write(writer, req)` for 0x10. */
  method WriteRegisterWrite(sink: Buffer, r: Request)
    requires sink.Valid() && r.WriteRegisters? && r.Writable()
    requires sink.outputStart + |Encode(r)| <= sink.bytes.Length
    modifies sink`outputStart, sink.bytes
    ensures Wrote(sink, Encode(r))
  {
    hide Splice, WordsBytes, WordBytes;
    ghost var s0, p, tail := sink.bytes[..], sink.outputStart, [r.byteCount] + WordsBytes(r.registers);
    sink.Put(r.Code());
    ghost var s1 := sink.bytes[..];
    WriteWord(sink, r.address);
    ghost var s2 := sink.bytes[..];
    WriteWord(sink, r.quantity);
    ghost var s3 := sink.bytes[..];
    sink.Put(r.byteCount);
    WriteWords(sink, r.registers);
    SpliceTwice(s3, p + 5, [r.byteCount], WordsBytes(r.registers));
    SpliceTwice(s2, p + 3, WordBytes(r.quantity), tail);
    SpliceTwice(s1, p + 1, WordBytes(r.address), WordBytes(r.quantity) + tail);
    SpliceTwice(s0, p, [r.Code()], EncodeBody(r));
  }

  /** `write(writer, req)` for 0x17. */
  method WriteRegisterReadWrite(sink: Buffer, r: Request)
    requires sink.Valid() && r.ReadWriteRegisters? && r.Writable()
    requires sink.outputStart + |Encode(r)| <= sink.bytes.Length
    modifies sink`outputStart, sink.bytes
    ensures Wrote(sink, Encode(r))
  {
    hide Splice, WordsBytes, WordBytes;
    ghost var s0, p, tail := sink.bytes[..], sink.outputStart, [r.byteCount] + WordsBytes(r.registers);
    ghost var tail2 := WordBytes(r.address) + (WordBytes(r.quantity) + tail);
    sink.Put(r.Code());
    ghost var s1 := sink.bytes[..];
    WriteWord(sink, r.readAddress);
    ghost var s2 := sink.bytes[..];
    WriteWord(sink, r.readQuantity);
    ghost var s3 := sink.bytes[..];
    WriteWord(sink, r.address);
    ghost var s4 := sink.bytes[..];
    WriteWord(sink, r.quantity);
    ghost var s5 := sink.bytes[..];
    sink.Put(r.byteCount);
    WriteWords(sink, r.registers);
    SpliceTwice(s5, p + 9, [r.byteCount], WordsBytes(r.registers));
    SpliceTwice(s4, p + 7, WordBytes(r.quantity), tail);
    SpliceTwice(s3, p + 5, WordBytes(r.address), WordBytes(r.quantity) + tail);
    SpliceTwice(s2, p + 3, WordBytes(r.readQuantity), tail2);
    SpliceTwice(s1, p + 1, WordBytes(r.readAddress), WordBytes(r.readQuantity) + tail2);
    SpliceTwice(s0, p, [r.Code()], EncodeBody(r));
  }

  /** `write(writer, req)`, selected by the static type of the request. */
  method WriteRequest(sink: Buffer, r: Request)
    requires sink.Valid() && r.Writable()
    requires sink.outputStart + |Encode(r)| <= sink.bytes.Length
    modifies sink`outputStart, sink.bytes
    ensures Wrote(sink, Encode(r))
  {
    hide Encode;
    match r {
      case Plain(_, _, _) => WritePlain(sink, r);
      case WriteCoils(_, _, _, _) => WriteCoilWrite(sink, r);
      case WriteRegisters(_, _, _, _) => WriteRegisterWrite(sink, r);
      case ReadWriteRegisters(_, _, _, _, _, _) => WriteRegisterReadWrite(sink, r);
    }
  }

  /** `write(writer, resp)` for the counted, the echo and the exception responses. */
  method WriteReply(sink: Buffer, r: Reply)
    requires sink.Valid() && sink.outputStart + |EncodeReply(r)| <= sink.bytes.Length
    modifies sink`outputStart, sink.bytes
    ensures Wrote(sink, EncodeReply(r))
  {
    hide Splice, WordBytes;
    ghost var s0, p := sink.bytes[..], sink.outputStart;
    match r {
      case Payload(code, n, values) =>
        sink.Put(code);
        sink.Put(n);
        WriteBytes(sink, values);
        SpliceTwice(s0, p, [code], [n]);
        assert [code] + [n] == [code, n];
        SpliceTwice(s0, p, [code, n], values);
      case Pair(code, a, v) =>
        sink.Put(code);
        ghost var s1 := sink.bytes[..];
        WriteWord(sink, a);
        WriteWord(sink, v);
        SpliceTwice(s1, p + 1, WordBytes(a), WordBytes(v));
        SpliceTwice(s0, p, [code], WordBytes(a) + WordBytes(v));
      case Exception(code, e) =>
        sink.Put(ExceptionBit(code));
        sink.Put(e % 0x100);
        SpliceTwice(s0, p, [ExceptionBit(code)], [e % 0x100]);
        assert [ExceptionBit(code)] + [e % 0x100] == EncodeReply(r);
    }
  }

  // ---------------------------------------------------------------- response readers

  /** The common start of `read(reader, pdu_resp)`: `go` says whether the body is to be read. */
  method ReadHead(src: Buffer, code: byte) returns (ec: ErrorCode, go: bool)
    requires src.Valid()
    modifies src`inputStart
    ensures src.Valid()
    ensures var h := TakeHead(code, old(src.Unread()));
            src.Unread() == h.rest && go == h.Ok? && ec == if h.Ok? then SUCCESS else h.ec
  {
    var c: byte, e: byte;
    ec, c := ReadByte(src);
    if ec != SUCCESS { return ec, false; }
    if c >= 0x80 {
      ec, e := ReadByte(src);
      if ec != SUCCESS { return ec, false; }
      return e, false;
    }
    if c != code { return INVALID_RESPONSE, false; }
    return SUCCESS, true;
  }

  /** A counted response object: its count field and the caller's memory it fills. */
  class PayloadTarget {
    const code: byte
    const out: array<byte>
    var byteCount: byte

    constructor (code: byte, out: array<byte>)
      ensures this.code == code && this.out == out && byteCount == ToByte(out.Length)
    {
      this.code, this.out, this.byteCount := code, out, ToByte(out.Length);
    }

    /** `read(reader, pdu_resp)` for a counted response. */
    method Read(src: Buffer) returns (ec: ErrorCode)
      requires src.Valid() && out != src.bytes
      modifies this, src`inputStart, out
      ensures src.Valid()
      ensures var r := ReceivePayload(code, out.Length, old(byteCount), old(src.Unread()));
              && ec == r.ec && byteCount == r.byteCount && src.Unread() == r.rest
              && out[..] == r.filled + old(out[..])[|r.filled|..]
    {
      hide TakeHead;
      var go: bool;
      ec, go := ReadHead(src, code);
      if !go { return; }
      var n: byte;
      ec, n := ReadByte(src);
      if ec != SUCCESS { return; }
      byteCount := n;
      if byteCount > out.Length {
        return TOO_MANY_BYTES_RECEIVED;
      }
      ec := ReadByteSpan(src, out, byteCount);
    }
  }

  /** An echo response object, as its constructor left it or as a reader overwrote it. */
  class EchoTarget {
    const code: byte
    const onOff: bool
    var address: word
    var value: word

    constructor (code: byte, onOff: bool, address: word, value: word)
      ensures this.code == code && this.onOff == onOff && this.address == address && this.value == value
    {
      this.code, this.onOff, this.address, this.value := code, onOff, address, value;
    }

    /** `read(reader, pdu_resp)` for an echo. */
    method Read(src: Buffer) returns (ec: ErrorCode)
      requires src.Valid()
      modifies this, src`inputStart
      ensures src.Valid()
      ensures Echoed(ec, address, value, src.Unread())
              == ReceiveEcho(code, onOff, old(address), old(value), old(src.Unread()))
    {
      hide TakeHead, TakeWord, WordInto;
      var go: bool;
      ec, go := ReadHead(src, code);
      if !go { return; }
      ec, address := ReadWord(src, address);
      if ec != SUCCESS { return; }
      ec, value := ReadWord(src, value);
      if ec != SUCCESS { return; }
      if onOff && !(value == 0x0000 || value == 0xFF00) {
        return ILLEGAL_DATA_VALUE;
      }
    }
  }
}
