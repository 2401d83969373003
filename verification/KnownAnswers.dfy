/** Known answers: the vectors of test/crc.cpp, test/pdu.cpp and test/tcp.cpp, and the worked
    examples of the MODBUS Application Protocol Specification V1.1b3, which pin the byte layouts
    that the general theorems take as given. */
module KnownAnswers {
  import opened Wire
  import opened Requests
  import opened Responses
  import opened Frames
  import opened Packing
  import opened Masters
  import opened CrcBits
  import opened CrcTables
  import opened Crc16
  import opened CrcDetection

  lemma CrcVector()
    ensures Crc([0x00, 0x42, 0x21, 0x00]) == 0x60B8
  {
    hide CrcFrom, ByteStep;
    var m: seq<bv8>, a: seq<bv8>, b: seq<bv8> := [0x00, 0x42, 0x21, 0x00], [0x00, 0x42], [0x21, 0x00];
    assert m == a + b;
    CrcFromConcat(0xFFFF, a, b);
    CrcFromPair(0xFFFF, 0x00, 0x42);
    FirstBytes();
    CrcFromPair(CrcFrom(0xFFFF, a), 0x21, 0x00);
    LastBytes();
  }

  lemma FirstBytes()
    ensures ByteStep(ByteStep(0xFFFF, 0x00), 0x42) == 0x8181
  {
    hide ByteStep;
    TableStep(0xFF, 0xFF, 0x00);
    TableStep(0x40, 0xBF, 0x42);
  }

  lemma LastBytes()
    ensures ByteStep(ByteStep(0x8181, 0x21), 0x00) == 0x60B8
  {
    hide ByteStep;
    TableStep(0x81, 0x81, 0x21);
    TableStep(0x78, 0x81, 0x00);
  }

  /** The request of test/pdu.cpp, written and read. */
  lemma HoldingRequestVector()
    ensures Encode(Plain(0x03, 107, 3)) == [0x03, 0x00, 0x6B, 0x00, 0x03]
    ensures Decode([0x03, 0x00, 0x6B, 0x00, 0x03]) == Ok(Plain(0x03, 107, 3), [])
  {
    hide Decode;
    var s: seq<byte> := [0x03, 0x00, 0x6B, 0x00, 0x03];
    assert Encode(Plain(0x03, 107, 3)) + [] == s;
    DecodeIffEncode(s, Plain(0x03, 107, 3), []);
  }

  /** The response of test/pdu.cpp, written and read. */
  lemma HoldingResponseVector()
    ensures EncodeReply(PayloadOf(0x03, [0x02, 0x2B, 0x00, 0x00, 0x00, 0x04]))
            == [0x03, 0x06, 0x02, 0x2B, 0x00, 0x00, 0x00, 0x04]
    ensures ReceivePayload(0x03, 6, 6, [0x03, 0x06, 0x02, 0x2B, 0x00, 0x00, 0x00, 0x04])
            == Received(SUCCESS, 6, [0x02, 0x2B, 0x00, 0x00, 0x00, 0x04], [])
  {
    hide ReceivePayload;
    var v: seq<byte> := [0x02, 0x2B, 0x00, 0x00, 0x00, 0x04];
    PayloadAccepted(0x03, 6, 6, 6, v, []);
    assert [0x03, 0x06] + v + [] == [0x03, 0x06, 0x02, 0x2B, 0x00, 0x00, 0x00, 0x04];
  }

  /** The exchange of test/tcp.cpp: one register read from unit 255. */
  lemma TcpVector()
    ensures WordRead(0x03, 1, 0, 255, [0x00, 0x00, 0x00, 0x00, 0x00, 0x05, 0xFF, 0x03, 0x02, 0x02, 0x2B])
            == (Values([0x022B]), [])
  {
    hide ReadPayloadResponse, BytesWords, AcceptableStart;
    var s: seq<byte> := [0x00, 0x00, 0x00, 0x00, 0x00, 0x05, 0xFF, 0x03, 0x02, 0x02, 0x2B];
    TcpVectorStart();
    AcceptedPayload(0x03, 2, 2, 0, 255, s);
    assert s[9..11] == [0x02, 0x2B] && s[11..] == [];
    assert [0x02, 0x2B] + ZeroBytes(0) == [0x02, 0x2B];
    OneWord();
  }

  lemma TcpVectorStart()
    ensures AcceptableStart(0x03, 2, 0, 255, [0x00, 0x00, 0x00, 0x00, 0x00, 0x05, 0xFF, 0x03, 0x02, 0x02, 0x2B])
  {}

  lemma OneWord()
    ensures BytesWords([0x02, 0x2B]) == [0x022B]
  {}

  /** The example of section 6.11. */
  lemma WriteCoilsExample()
    ensures Encode(WriteCoils(0x0013, 0x000A, 2, [0xCD, 0x01])) == [0x0F, 0x00, 0x13, 0x00, 0x0A, 0x02, 0xCD, 0x01]
  {}

  /** The example of section 6.12. */
  lemma WriteRegistersExample()
    ensures Encode(WriteRegisters(0x0001, 0x0002, 4, [0x000A, 0x0102]))
            == [0x10, 0x00, 0x01, 0x00, 0x02, 0x04, 0x00, 0x0A, 0x01, 0x02]
  {
    assert WordsBytes([0x000A, 0x0102]) == [0x00, 0x0A, 0x01, 0x02];
  }

  /** The example of section 6.17. */
  lemma ReadWriteRegistersExample()
    ensures Encode(ReadWriteRegisters(0x0003, 0x0006, 0x000E, 0x0003, 6, [0x00FF, 0x00FF, 0x00FF]))
            == [0x17, 0x00, 0x03, 0x00, 0x06, 0x00, 0x0E, 0x00, 0x03, 0x06, 0x00, 0xFF, 0x00, 0xFF, 0x00, 0xFF]
  {
    assert WordsBytes([0x00FF, 0x00FF, 0x00FF]) == [0x00, 0xFF, 0x00, 0xFF, 0x00, 0xFF];
  }

  /** The ten coils of the example of section 6.11. */
  lemma CoilExample()
    ensures PackCoils([1, 0, 1, 1, 0, 0, 1, 1, 1, 0]) == [0xCD, 0x01]
  {
    hide CoilSum;
    var c: seq<byte> := [1, 0, 1, 1, 0, 0, 1, 1, 1, 0];
    assert CoilGroup(c, 0) == [1, 0, 1, 1, 0, 0, 1, 1];
    assert CoilGroup(c, 1) == [1, 0];
    FirstGroup();
    SecondGroup();
  }

  lemma SecondGroup()
    ensures CoilSum([1, 0]) == 1
  {
    assert [1, 0][1..] == [0] && [0][1..] == [];
  }

  lemma FirstGroup()
    ensures CoilSum([1, 0, 1, 1, 0, 0, 1, 1]) == 0xCD
  {
    var a: seq<byte> := [1, 0, 1, 1, 0, 0, 1, 1];
    assert a[1..] == [0, 1, 1, 0, 0, 1, 1] && a[2..] == [1, 1, 0, 0, 1, 1] && a[4..] == [0, 0, 1, 1];
    assert CoilSum([1, 1]) == 3 by { assert [1, 1][1..] == [1] && [1][1..] == []; }
    assert CoilSum([0, 0, 1, 1]) == 12 by { assert [0, 0, 1, 1][1..] == [0, 1, 1] && [0, 1, 1][1..] == [1, 1]; }
    assert CoilSum([1, 1, 0, 0, 1, 1]) == 51 by {
      assert [1, 1, 0, 0, 1, 1][1..] == [1, 0, 0, 1, 1] && [1, 0, 0, 1, 1][1..] == [0, 0, 1, 1];
    }
    assert [0, 1, 1, 0, 0, 1, 1][1..] == [1, 1, 0, 0, 1, 1];
  }

  /** The 0x06 echo of an ordinary register value is refused by its own reader. */
  lemma SingleRegisterEchoRefused()
    ensures ReceiveEcho(0x06, true, 0, 1, EncodeReply(Pair(0x06, 0, 1))) == Echoed(ILLEGAL_DATA_VALUE, 0, 1, [])
  {
    EchoRoundTripIff(0x06, true, 0, 1, 0, 1, []);
    assert EncodeReply(Pair(0x06, 0, 1)) + [] == EncodeReply(Pair(0x06, 0, 1));
  }
}
