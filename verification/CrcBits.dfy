/** Bit-level facts about the 16-bit CRC register of section 6.2.2 of MODBUS over Serial Line
    V1.02: the step that shifts one bit out, its linearity over XOR, and the register's bytes. */
module CrcBits {

  function Xor(x: bv16, y: bv16): bv16 { x ^ y }

  function Xor8(x: bv8, y: bv8): bv8 { x ^ y }

  function Widen(b: bv8): bv16 { b as bv16 }

  /** Shift right once; if the bit shifted out was 1, XOR the generator in. */
  function BitStep(c: bv16): bv16 {
    if c & 1 == 1 then (c >> 1) ^ 0xA001 else c >> 1
  }

  /** `n` bit steps. */
  function Shift(n: nat, c: bv16): bv16 {
    if n == 0 then c else BitStep(Shift(n - 1, c))
  }

  /** XOR the byte into the low half of the register, then shift eight times. */
  function ByteStep(c: bv16, b: bv8): bv16 {
    Shift(8, Xor(c, Widen(b)))
  }

  /** The register `uchCRCHi:uchCRCLo` as one number. */
  function Register(hi: bv8, lo: bv8): bv16 { (hi as bv16 << 8) | lo as bv16 }

  function LowByte(c: bv16): bv8 { (c & 0xFF) as bv8 }

  function HighByte(c: bv16): bv8 { ((c >> 8) & 0xFF) as bv8 }

  function Bit(b: bool): bv16 { if b then 1 else 0 }

  /** Feed one bit at the low end of the register and shift once. */
  function FeedBit(c: bv16, b: bool): bv16 { BitStep(Xor(c, Bit(b))) }

  lemma XorAssoc(a: bv16, b: bv16, c: bv16)
    ensures Xor(Xor(a, b), c) == Xor(a, Xor(b, c))
  {}

  lemma XorComm(a: bv16, b: bv16)
    ensures Xor(a, b) == Xor(b, a)
  {}

  lemma XorFour(a: bv16, b: bv16, c: bv16, d: bv16)
    ensures Xor(Xor(a, b), Xor(c, d)) == Xor(Xor(a, c), Xor(b, d))
  {
    hide Xor;
    XorAssoc(a, b, Xor(c, d));
    XorAssoc(b, c, d);
    XorComm(b, c);
    XorAssoc(c, b, d);
    XorAssoc(a, c, Xor(b, d));
  }

  lemma XorZero(a: bv16)
    ensures Xor(a, 0) == a && Xor(0, a) == a && Xor(a, a) == 0
  {}

  lemma XorEqual(a: bv16, b: bv16)
    ensures Xor(a, b) == 0 <==> a == b
  {
    hide Xor;
    XorAssoc(a, b, b);
    XorZero(a);
    XorZero(b);
  }

  lemma XorCancel(c: bv16, a: bv16, b: bv16)
    ensures Xor(c, a) == Xor(c, b) <==> a == b
  {
    hide Xor;
    XorAssoc(c, c, a);
    XorAssoc(c, c, b);
    XorZero(a);
    XorZero(b);
    XorZero(c);
  }

  lemma BitStepXorOddOdd(x: bv16, y: bv16)
    requires x & 1 == 1 && y & 1 == 1
    ensures BitStep(Xor(x, y)) == Xor(BitStep(x), BitStep(y))
  {}

  lemma BitStepXorOddEven(x: bv16, y: bv16)
    requires x & 1 == 1 && y & 1 == 0
    ensures BitStep(Xor(x, y)) == Xor(BitStep(x), BitStep(y))
  {}

  lemma BitStepXorEvenEven(x: bv16, y: bv16)
    requires x & 1 == 0 && y & 1 == 0
    ensures BitStep(Xor(x, y)) == Xor(BitStep(x), BitStep(y))
  {}

  lemma LowBitCases(x: bv16)
    ensures x & 1 == 1 || x & 1 == 0
  {}

  lemma BitStepXor(x: bv16, y: bv16)
    ensures BitStep(Xor(x, y)) == Xor(BitStep(x), BitStep(y))
  {
    hide BitStep, Xor;
    LowBitCases(x);
    LowBitCases(y);
    if x & 1 == 1 {
      if y & 1 == 1 { BitStepXorOddOdd(x, y); } else { BitStepXorOddEven(x, y); }
    } else if y & 1 == 1 {
      BitStepXorOddEven(y, x);
      XorComm(x, y);
      XorComm(BitStep(x), BitStep(y));
    } else {
      BitStepXorEvenEven(x, y);
    }
  }

  /** Shifting is linear over XOR. */
  lemma {:induction false} ShiftXor(n: nat, x: bv16, y: bv16)
    ensures Shift(n, Xor(x, y)) == Xor(Shift(n, x), Shift(n, y))
  {
    hide BitStep, Xor;
    if n > 0 {
      ShiftXor(n - 1, x, y);
      BitStepXor(Shift(n - 1, x), Shift(n - 1, y));
    }
  }

  lemma Unroll8(c: bv16)
    ensures Shift(8, c) == BitStep(BitStep(BitStep(BitStep(BitStep(BitStep(BitStep(BitStep(c))))))))
  {
    hide BitStep;
    assert Shift(2, c) == BitStep(BitStep(c)) by { assert Shift(1, c) == BitStep(c); }
    assert Shift(4, c) == BitStep(BitStep(Shift(2, c))) by { assert Shift(3, c) == BitStep(Shift(2, c)); }
    assert Shift(6, c) == BitStep(BitStep(Shift(4, c))) by { assert Shift(5, c) == BitStep(Shift(4, c)); }
    assert Shift(8, c) == BitStep(BitStep(Shift(6, c))) by { assert Shift(7, c) == BitStep(Shift(6, c)); }
  }

  /** A register whose low byte is zero is only shifted down by eight bit steps. */
  lemma HighHalfShifts(hi: bv8)
    ensures Shift(8, Register(hi, 0)) == Widen(hi)
  {
    hide Shift;
    Unroll8(Register(hi, 0));
  }

  lemma SplitRegister(hi: bv8, lo: bv8, b: bv8)
    ensures Xor(Register(hi, lo), Widen(b)) == Xor(Register(hi, 0), Widen(Xor8(lo, b)))
  {}

  lemma Recombine(hi: bv8, t: bv16, tHi: bv8, tLo: bv8)
    requires Widen(tHi) == t >> 8 && Widen(tLo) == t & 0xFF
    ensures Register(tHi, Xor8(hi, tLo)) == Xor(Widen(hi), t)
  {}

  lemma RegisterStart()
    ensures Register(0xFF, 0xFF) == 0xFFFF
  {}

  lemma BitXor(s: bool, t: bool)
    ensures Bit(s != t) == Xor(Bit(s), Bit(t))
  {}

  lemma FeedBitXor(c: bv16, d: bv16, s: bool, t: bool)
    ensures FeedBit(Xor(c, d), s != t) == Xor(FeedBit(c, s), FeedBit(d, t))
  {
    hide BitStep, Xor, Bit;
    BitXor(s, t);
    XorFour(c, d, Bit(s), Bit(t));
    BitStepXor(Xor(c, Bit(s)), Xor(d, Bit(t)));
  }

  lemma BitStepZero(c: bv16)
    ensures BitStep(c) == 0 <==> c == 0
  {}

  lemma {:induction false} ShiftZero(n: nat, c: bv16)
    ensures Shift(n, c) == 0 <==> c == 0
  {
    hide BitStep;
    if n > 0 {
      ShiftZero(n - 1, c);
      BitStepZero(Shift(n - 1, c));
    }
  }

  /** Shifting is injective, hence a bijection on the 65536 register values. */
  lemma ShiftInjective(n: nat, c: bv16, d: bv16)
    ensures Shift(n, c) == Shift(n, d) <==> c == d
  {
    hide Shift, Xor;
    ShiftXor(n, c, d);
    ShiftZero(n, Xor(c, d));
    XorEqual(c, d);
    XorEqual(Shift(n, c), Shift(n, d));
  }

  lemma {:induction false} ShiftAdd(m: nat, n: nat, c: bv16)
    ensures Shift(m + n, c) == Shift(m, Shift(n, c))
  {
    hide BitStep;
    if m > 0 { ShiftAdd(m - 1, n, c); }
  }

  lemma PeelBit(c: bv16, x: bv16)
    ensures BitStep(Xor(c, x)) == Xor(FeedBit(c, x & 1 == 1), x >> 1)
  {
    hide Xor, BitStep, Bit;
    var low, rest := Bit(x & 1 == 1), x & 0xFFFE;
    SplitLowBit(x);
    XorAssoc(c, low, rest);
    BitStepXor(Xor(c, low), rest);
  }

  lemma SplitLowBit(x: bv16)
    ensures x == Xor(Bit(x & 1 == 1), x & 0xFFFE)
    ensures BitStep(x & 0xFFFE) == x >> 1
  {}

  lemma WidenXor(x: bv8, y: bv8)
    ensures Widen(x ^ y) == Xor(Widen(x), Widen(y))
  {}

  lemma SplitPair(c: bv16, x: bv8, y: bv8)
    ensures Xor(Xor(c, Widen(x)), Register(y, 0)) == Xor(c, Register(y, x))
  {}

  lemma RegisterInjective(hi: bv8, lo: bv8, hi': bv8, lo': bv8)
    ensures Register(hi, lo) == Register(hi', lo') <==> hi == hi' && lo == lo'
  {}

  lemma RegisterBytes(c: bv16, lo: bv8, hi: bv8)
    ensures c == Register(hi, lo) <==> lo == LowByte(c) && hi == HighByte(c)
  {
    assert c == Register(HighByte(c), LowByte(c));
    RegisterInjective(hi, lo, HighByte(c), LowByte(c));
  }

  lemma LowBitXor(x: bv16, y: bv16)
    ensures (Xor(x, y) & 1 == 1) == ((x & 1 == 1) != (y & 1 == 1))
  {}

  lemma HalfXor(x: bv16, y: bv16)
    ensures Xor(x, y) >> 1 == Xor(x >> 1, y >> 1)
  {
    hide Xor, BitStep;
    SplitLowBit(x);
    SplitLowBit(y);
    SplitLowBit(Xor(x, y));
    EvenPartXor(x, y);
    BitStepXor(x & 0xFFFE, y & 0xFFFE);
  }

  lemma EvenPartXor(x: bv16, y: bv16)
    ensures Xor(x, y) & 0xFFFE == Xor(x & 0xFFFE, y & 0xFFFE)
  {
    hide Xor, Bit;
    EvenPart(x);
    EvenPart(y);
    EvenPart(Xor(x, y));
    LowBitXor(x, y);
    BitXor(x & 1 == 1, y & 1 == 1);
    XorFour(x, y, Bit(x & 1 == 1), Bit(y & 1 == 1));
  }

  lemma EvenPart(x: bv16)
    ensures x & 0xFFFE == Xor(x, Bit(x & 1 == 1))
  {}

  lemma BitStepCases(c: bv16)
    ensures BitStep(c) == if c & 1 == 1 then Xor(c >> 1, 0xA001) else c >> 1
  {}

  /** A shift that leaves the top bit clear dropped a zero. */
  lemma BackOneBit(c: bv16, b: bool, k: bv16)
    requires k <= 14 && FeedBit(c, b) >> k == 0
    ensures c >> (k + 1) == 0
  {}

  lemma SmallHasNoTopBit(c: bv16, k: bv16)
    requires k <= 15 && c >> k == 0
    ensures c & 0x8000 == 0
  {}

  lemma OneBitFromZero()
    ensures FeedBit(0, true) == 0xA001
  {}

  // ---------------------------------------------------------------- bytes

  /** A byte as the eight bits that the register sees. */
  function Octet(b: int): bv8
    requires 0 <= b < 0x100
  {
    b as bv8
  }

  function FromOctet(b: bv8): (x: int)
    ensures 0 <= x < 0x100
  {
    b as int
  }

  lemma OctetOfByte(b: bv8)
    ensures Octet(FromOctet(b)) == b
  {}

  lemma NextOctet(b: bv8)
    requires FromOctet(b) < 0xFF
    ensures FromOctet(b + 1) == FromOctet(b) + 1
  {
    assert b < 0xFF;
  }

  /** Every byte value is the value of some eight bits. */
  lemma SomeOctet(x: int) returns (b: bv8)
    requires 0 <= x < 0x100
    ensures FromOctet(b) == x
  {
    if x == 0 {
      b := 0;
    } else {
      var c := SomeOctet(x - 1);
      NextOctet(c);
      b := c + 1;
    }
  }

  lemma OctetInverse(b: bv8, x: int)
    requires 0 <= x < 0x100
    ensures FromOctet(b) == x <==> b == Octet(x)
  {
    hide FromOctet, Octet;
    OctetOfByte(b);
    var c := SomeOctet(x);
    OctetOfByte(c);
  }
}
