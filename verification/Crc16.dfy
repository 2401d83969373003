/** The CRC-16 of the RTU transmission mode: the table loop of include/mothbus/adu/crc.h and the
    bit-at-a-time definition of section 6.2.2 of MODBUS over Serial Line V1.02 that it must
    compute. */
module Crc16 {
  import opened Wire
  import opened CrcBits
  import opened CrcTables

  // ---------------------------------------------------------------- bitwise definition

  /** The register after a message, started from `c`. */
  function CrcFrom(c: bv16, m: seq<bv8>): bv16 {
    if m == [] then c else ByteStep(CrcFrom(c, m[..|m| - 1]), m[|m| - 1])
  }

  function Crc(m: seq<bv8>): bv16 { CrcFrom(0xFFFF, m) }

  // ---------------------------------------------------------------- the loop

  function Octets(s: seq<byte>): (m: seq<bv8>)
    ensures |m| == |s|
  {
    seq(|s|, i requires 0 <= i < |s| => Octet(s[i]))
  }

  lemma OctetsSnoc(s: seq<byte>)
    requires s != []
    ensures Crc(Octets(s)) == ByteStep(Crc(Octets(s[..|s| - 1])), Octet(s[|s| - 1]))
  {
    hide ByteStep, Octet;
    assert Octets(s)[..|s| - 1] == Octets(s[..|s| - 1]);
  }

  lemma EmptyMessage()
    ensures Register(0xFF, 0xFF) == Crc(Octets([]))
  {
    RegisterStart();
  }

  /** `CRC16` over the first `n` bytes of a buffer: the table loop computes the bitwise CRC. */
  method CRC16(msg: array<byte>, n: nat) returns (crc: bv16)
    requires n <= msg.Length
    ensures crc == Crc(Octets(msg[..n]))
  {
    hide AuchCrcHi, AuchCrcLo, ByteStep, Octet, Octets, Crc, Register, Xor8;
    var uchCRCHi: bv8, uchCRCLo: bv8 := 0xFF, 0xFF;
    assert msg[..0] == [];
    EmptyMessage();
    var i := 0;
    while i < n
      invariant 0 <= i <= n
      invariant Register(uchCRCHi, uchCRCLo) == Crc(Octets(msg[..i]))
    {
      var uIndex := Xor8(uchCRCLo, Octet(msg[i]));
      assert msg[..i + 1][..i] == msg[..i];
      OctetsSnoc(msg[..i + 1]);
      TableStep(uchCRCHi, uchCRCLo, Octet(msg[i]));
      uchCRCLo := Xor8(uchCRCHi, AuchCrcHi(uIndex));
      uchCRCHi := AuchCrcLo(uIndex);
      i := i + 1;
    }
    crc := Register(uchCRCHi, uchCRCLo);
  }
}
