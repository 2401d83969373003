/** Bytes, words and the numeric error codes shared by every layer. */
module Wire {

  /** `uint8_t` / `std::byte`. */
  type byte = x: int | 0 <= x < 0x100

  /** `uint16_t`. */
  type word = x: int | 0 <= x < 0x1_0000

  /** The integer held by an `error_code`; zero converts to "no error". */
  type ErrorCode = int

  const SUCCESS: ErrorCode := 0
  const ILLEGAL_FUNCTION: ErrorCode := 0x01
  const ILLEGAL_DATA_ADDRESS: ErrorCode := 0x02
  const ILLEGAL_DATA_VALUE: ErrorCode := 0x03
  const INVALID_RESPONSE: ErrorCode := 0x0C
  const TOO_MANY_BYTES_RECEIVED: ErrorCode := 0x0D
  const TRANSACTION_ID_INVALID: ErrorCode := 0x0E
  const ILLEGAL_PROTOCOL: ErrorCode := 0x0F
  const SLAVE_ID_INVALID: ErrorCode := 0x10
  const REQUEST_TOO_BIG: ErrorCode := 0x11

  function MakeWord(high: byte, low: byte): word { high * 0x100 + low }

  function High(w: word): byte { w / 0x100 }

  function Low(w: word): byte { w % 0x100 }

  lemma MakeWordIff(high: byte, low: byte, w: word)
    ensures MakeWord(high, low) == w <==> high == High(w) && low == Low(w)
  {}

  /** `static_cast<uint8_t>` of a size. */
  function ToByte(n: nat): byte { n % 0x100 }

  /** `static_cast<uint16_t>` of a size. */
  function ToWord(n: nat): word { n % 0x1_0000 }

  /** A word on the wire: most significant byte first. */
  function WordBytes(w: word): (bs: seq<byte>)
    ensures |bs| == 2
  {
    [High(w), Low(w)]
  }

  /** Words on the wire, in order. */
  function WordsBytes(ws: seq<word>): (bs: seq<byte>)
    ensures |bs| == 2 * |ws|
  {
    seq(2 * |ws|, i requires 0 <= i < 2 * |ws| => if i % 2 == 0 then High(ws[i / 2]) else Low(ws[i / 2]))
  }

  /** Bytes taken in pairs, most significant first; an odd last byte is ignored. */
  function BytesWords(bs: seq<byte>): (ws: seq<word>)
    ensures |ws| == |bs| / 2
  {
    seq(|bs| / 2, i requires 0 <= i < |bs| / 2 => MakeWord(bs[2 * i], bs[2 * i + 1]))
  }

  lemma WordsRoundTrip(ws: seq<word>)
    ensures BytesWords(WordsBytes(ws)) == ws
  {
    hide MakeWord, High, Low;
    var bs := WordsBytes(ws);
    forall i | 0 <= i < |ws| ensures BytesWords(bs)[i] == ws[i] {
      assert (2 * i) / 2 == i && (2 * i + 1) / 2 == i;
      MakeWordIff(bs[2 * i], bs[2 * i + 1], ws[i]);
    }
  }

  lemma BytesRoundTrip(bs: seq<byte>)
    requires |bs| % 2 == 0
    ensures WordsBytes(BytesWords(bs)) == bs
  {
    hide MakeWord, High, Low;
    var ws := BytesWords(bs);
    forall i | 0 <= i < |bs| ensures WordsBytes(ws)[i] == bs[i] {
      var k := i / 2;
      assert i == 2 * k + i % 2;
      MakeWordIff(bs[2 * k], bs[2 * k + 1], ws[k]);
    }
  }

  /** The outcome of reading from a byte string: a value or an error code, and in both cases the
      bytes that the cursor has not passed. */
  datatype Parse<+T> = Ok(value: T, rest: seq<byte>) | Fail(ec: ErrorCode, rest: seq<byte>) {
    predicate IsFailure() { Fail? }
    function PropagateFailure<U>(): Parse<U> requires Fail? { Fail(ec, rest) }
    function Extract(): (T, seq<byte>) requires Ok? { (value, rest) }
  }

  /** Any read that runs out of input has consumed all of it. */
  function EndOfInput<T>(): Parse<T> { Fail(TOO_MANY_BYTES_RECEIVED, []) }

  function TakeByte(s: seq<byte>): Parse<byte> {
    if s == [] then EndOfInput() else Ok(s[0], s[1..])
  }

  function TakeWord(s: seq<byte>): Parse<word> {
    if |s| < 2 then EndOfInput() else Ok(MakeWord(s[0], s[1]), s[2..])
  }

  function TakeBytes(s: seq<byte>, n: nat): Parse<seq<byte>> {
    if |s| < n then EndOfInput() else Ok(s[..n], s[n..])
  }

  function TakeWords(s: seq<byte>, n: nat): Parse<seq<word>> {
    if |s| < 2 * n then EndOfInput() else Ok(BytesWords(s[..2 * n]), s[2 * n..])
  }

  /** What a word variable that held `prior` holds after a read from `s`: a read that runs short
      leaves it half assigned. */
  function WordInto(prior: word, s: seq<byte>): word {
    if s == [] then prior else if |s| == 1 then s[0] * 0x100 else MakeWord(s[0], s[1])
  }

  /** The same for a span of words. */
  function WordsInto(prior: seq<word>, s: seq<byte>): (ws: seq<word>)
    ensures |ws| == |prior|
  {
    seq(|prior|, i requires 0 <= i < |prior| => WordInto(prior[i], if 2 * i <= |s| then s[2 * i..] else []))
  }

  // ---------------------------------------------------------------- reading what was written

  lemma Assoc(a: seq<byte>, b: seq<byte>, c: seq<byte>)
    ensures (a + b) + c == a + (b + c)
  {}

  lemma TakeByteIff(s: seq<byte>, b: byte, t: seq<byte>)
    ensures TakeByte(s) == Ok(b, t) <==> s == [b] + t
  {}

  lemma TakeWordIff(s: seq<byte>, w: word, t: seq<byte>)
    ensures TakeWord(s) == Ok(w, t) <==> s == WordBytes(w) + t
  {
    if s == WordBytes(w) + t {
      assert s[0] == High(w) && s[1] == Low(w) && s[2..] == t;
    }
    if TakeWord(s) == Ok(w, t) {
      assert s == [s[0], s[1]] + t;
    }
  }

  lemma TakeBytesIff(s: seq<byte>, n: nat, bs: seq<byte>, t: seq<byte>)
    ensures TakeBytes(s, n) == Ok(bs, t) <==> |bs| == n && s == bs + t
  {
    if |bs| == n && s == bs + t {
      assert s[..n] == bs && s[n..] == t;
    }
    if TakeBytes(s, n) == Ok(bs, t) {
      assert s == s[..n] + s[n..];
    }
  }

  lemma TakeWordsIff(s: seq<byte>, n: nat, ws: seq<word>, t: seq<byte>)
    ensures TakeWords(s, n) == Ok(ws, t) <==> |ws| == n && s == WordsBytes(ws) + t
  {
    hide BytesWords, WordsBytes;
    if |ws| == n && s == WordsBytes(ws) + t {
      assert s[..2 * n] == WordsBytes(ws) && s[2 * n..] == t;
      WordsRoundTrip(ws);
    }
    if TakeWords(s, n) == Ok(ws, t) {
      BytesRoundTrip(s[..2 * n]);
      assert s == s[..2 * n] + s[2 * n..];
    }
  }
}
