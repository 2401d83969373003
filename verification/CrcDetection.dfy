/** What the CRC-16 detects. A frame is its bytes in transmission order, each byte sent least
    significant bit first, so an error is a pattern of flipped bits; by linearity the register
    difference it causes (its syndrome) does not depend on the frame. */
module CrcDetection {
  import opened Wire
  import opened CrcBits
  import opened Crc16

  // ---------------------------------------------------------------- messages as bits

  function Feed(c: bv16, bits: seq<bool>): bv16 {
    if bits == [] then c else FeedBit(Feed(c, bits[..|bits| - 1]), bits[|bits| - 1])
  }

  /** The register difference caused by flipping the bits of `e`. */
  function Syndrome(e: seq<bool>): bv16 { Feed(0, e) }

  /** The lowest `k` bits of a value, least significant first. */
  function LowBits(x: bv16, k: nat): (s: seq<bool>)
    ensures |s| == k
  {
    if k == 0 then [] else [x & 1 == 1] + LowBits(x >> 1, k - 1)
  }

  /** The bits of a byte in the order they are sent. */
  function ByteBits(b: bv8): (s: seq<bool>)
    ensures |s| == 8
  {
    LowBits(Widen(b), 8)
  }

  function Bits(m: seq<bv8>): seq<bool> {
    if m == [] then [] else Bits(m[..|m| - 1]) + ByteBits(m[|m| - 1])
  }

  function XorBits(s: seq<bool>, t: seq<bool>): (r: seq<bool>)
    requires |s| == |t|
    ensures |r| == |s|
  {
    seq(|s|, i requires 0 <= i < |s| => s[i] != t[i])
  }

  function Zeros(n: nat): (z: seq<bool>)
    ensures |z| == n
  {
    seq(n, _ => false)
  }

  lemma {:induction false} BitsLength(m: seq<bv8>)
    ensures |Bits(m)| == 8 * |m|
  {
    hide ByteBits;
    if m != [] {
      BitsLength(m[..|m| - 1]);
    }
  }

  lemma {:induction false} FeedConcat(c: bv16, s: seq<bool>, t: seq<bool>)
    ensures Feed(c, s + t) == Feed(Feed(c, s), t)
  {
    hide FeedBit;
    if t == [] {
      assert s + t == s;
    } else {
      var t' := t[..|t| - 1];
      assert (s + t)[..|s + t| - 1] == s + t';
      FeedConcat(c, s, t');
    }
  }

  // ---------------------------------------------------------------- linearity

  /** The register is jointly linear in its start and in the bits fed to it. */
  lemma {:induction false} FeedXor(c: bv16, d: bv16, s: seq<bool>, t: seq<bool>)
    requires |s| == |t|
    ensures Feed(Xor(c, d), XorBits(s, t)) == Xor(Feed(c, s), Feed(d, t))
  {
    hide FeedBit, Xor;
    if s != [] {
      var s', t' := s[..|s| - 1], t[..|t| - 1];
      assert XorBits(s, t)[..|s| - 1] == XorBits(s', t');
      FeedXor(c, d, s', t');
      FeedBitXor(Feed(c, s'), Feed(d, t'), s[|s| - 1], t[|t| - 1]);
    }
  }

  /** Two messages fed to the same register end in the same register exactly when the bits in
      which they differ have syndrome zero. */
  lemma SameRegisterIffZeroSyndrome(c: bv16, s: seq<bool>, t: seq<bool>)
    requires |s| == |t|
    ensures Feed(c, s) == Feed(c, t) <==> Syndrome(XorBits(s, t)) == 0
  {
    hide Feed, Xor;
    FeedXor(c, c, s, t);
    XorZero(c);
    XorEqual(Feed(c, s), Feed(c, t));
  }

  lemma {:induction false} FeedZeros(c: bv16, n: nat)
    ensures Feed(c, Zeros(n)) == Shift(n, c)
  {
    hide BitStep, Xor;
    if n > 0 {
      assert Zeros(n)[..n - 1] == Zeros(n - 1);
      FeedZeros(c, n - 1);
      XorZero(Shift(n - 1, c));
    }
  }

  // ---------------------------------------------------------------- bytes as eight bits

  /** Whether the value is below 2^k. */
  predicate Fits(x: bv16, k: nat) {
    if k == 0 then x == 0 else Fits(x >> 1, k - 1)
  }

  lemma FitsFour(x: bv16, k: nat)
    requires Fits(x >> 4, k)
    ensures Fits(x, k + 4)
  {
    var x1 := x >> 1;
    var x2 := x1 >> 1;
    var x3 := x2 >> 1;
    assert x3 >> 1 == x >> 4;
    assert Fits(x2, k + 2) by { assert Fits(x3, k + 1); }
    assert Fits(x1, k + 3);
  }

  lemma FitsEight(b: bv8)
    ensures Fits(Widen(b), 8)
  {
    FitsFour(Widen(b) >> 4, 0);
    FitsFour(Widen(b), 4);
  }

  /** XORing `k` bits in at once and shifting `k` times is feeding them one at a time. */
  lemma {:induction false} PeelBits(c: bv16, x: bv16, k: nat)
    requires Fits(x, k)
    ensures Shift(k, Xor(c, x)) == Feed(c, LowBits(x, k))
    decreases k
  {
    hide BitStep, FeedBit, Xor;
    if k == 0 {
      XorZero(c);
    } else {
      var first := x & 1 == 1;
      calc {
        Shift(k, Xor(c, x));
        { ShiftAdd(k - 1, 1, Xor(c, x)); assert Shift(1, Xor(c, x)) == BitStep(Xor(c, x)); }
        Shift(k - 1, BitStep(Xor(c, x)));
        { PeelBit(c, x); }
        Shift(k - 1, Xor(FeedBit(c, first), x >> 1));
        { PeelBits(FeedBit(c, first), x >> 1, k - 1); }
        Feed(FeedBit(c, first), LowBits(x >> 1, k - 1));
        { assert Feed(c, [first]) == FeedBit(c, first) by { assert [first][..0] == []; } }
        Feed(Feed(c, [first]), LowBits(x >> 1, k - 1));
        { FeedConcat(c, [first], LowBits(x >> 1, k - 1)); }
        Feed(c, LowBits(x, k));
      }
    }
  }

  /** The byte-wise register is the bit-wise one. */
  lemma {:induction false} CrcFromIsFeed(c: bv16, m: seq<bv8>)
    ensures CrcFrom(c, m) == Feed(c, Bits(m))
  {
    hide Shift, Feed, Xor, Widen, LowBits;
    if m == [] {
      FeedNone(c);
    } else {
      var c', b := CrcFrom(c, m[..|m| - 1]), m[|m| - 1];
      CrcFromIsFeed(c, m[..|m| - 1]);
      FitsEight(b);
      PeelBits(c', Widen(b), 8);
      FeedConcat(c, Bits(m[..|m| - 1]), ByteBits(b));
    }
  }

  lemma FeedNone(c: bv16)
    ensures Feed(c, []) == c
  {}

  // ---------------------------------------------------------------- XOR-affinity

  function XorBytes(a: seq<bv8>, b: seq<bv8>): (r: seq<bv8>)
    requires |a| == |b|
    ensures |r| == |a|
  {
    seq(|a|, i requires 0 <= i < |a| => a[i] ^ b[i])
  }

  lemma {:induction false} CrcFromXor(c: bv16, d: bv16, a: seq<bv8>, b: seq<bv8>)
    requires |a| == |b|
    ensures CrcFrom(Xor(c, d), XorBytes(a, b)) == Xor(CrcFrom(c, a), CrcFrom(d, b))
  {
    hide Shift, Xor, Widen;
    if a != [] {
      var n := |a| - 1;
      assert XorBytes(a, b)[..n] == XorBytes(a[..n], b[..n]);
      CrcFromXor(c, d, a[..n], b[..n]);
      var c', d' := CrcFrom(c, a[..n]), CrcFrom(d, b[..n]);
      WidenXor(a[n], b[n]);
      XorFour(c', d', Widen(a[n]), Widen(b[n]));
      ShiftXor(8, Xor(c', Widen(a[n])), Xor(d', Widen(b[n])));
    }
  }

  /** The CRC of the bytewise XOR of three equally long messages is the XOR of their CRCs. */
  lemma CrcAffine(a: seq<bv8>, b: seq<bv8>, c: seq<bv8>)
    requires |a| == |b| == |c|
    ensures Crc(XorBytes(XorBytes(a, b), c)) == Crc(a) ^ Crc(b) ^ Crc(c)
  {
    hide CrcFrom;
    CrcFromXor(0xFFFF, 0xFFFF, a, b);
    CrcFromXor(0, 0xFFFF, XorBytes(a, b), c);
  }

  // ---------------------------------------------------------------- two-byte steps and the residue

  /** Two message bytes act like one 16-bit word XORed into the register. */
  lemma TwoByteStep(c: bv16, x: bv8, y: bv8)
    ensures ByteStep(ByteStep(c, x), y) == Shift(16, Xor(c, Register(y, x)))
  {
    hide Shift, Xor, Widen, Register;
    HighHalfShifts(y);
    ShiftXor(8, Xor(c, Widen(x)), Register(y, 0));
    SplitPair(c, x, y);
    ShiftAdd(8, 8, Xor(c, Register(y, x)));
  }

  /** From any register, every register value is reached by exactly one pair of bytes. */
  lemma TwoBytesReachEveryRegisterOnce(c: bv16, x: bv8, y: bv8, x': bv8, y': bv8)
    ensures ByteStep(ByteStep(c, x), y) == ByteStep(ByteStep(c, x'), y') <==> x == x' && y == y'
  {
    hide Shift, Xor, ByteStep;
    TwoByteStep(c, x, y);
    TwoByteStep(c, x', y');
    ShiftInjective(16, Xor(c, Register(y, x)), Xor(c, Register(y', x')));
    XorCancel(c, Register(y, x), Register(y', x'));
    RegisterInjective(y, x, y', x');
  }

  /** A frame leaves residue zero exactly when its last two bytes are the low and then the high
      byte of the CRC of what precedes them. */
  lemma ResidueZeroIffCrcAppended(m: seq<bv8>, lo: bv8, hi: bv8)
    ensures Crc(m + [lo, hi]) == 0 <==> lo == LowByte(Crc(m)) && hi == HighByte(Crc(m))
  {
    hide ByteStep, Shift, Xor, Register, LowByte, HighByte;
    var f := m + [lo, hi];
    var f' := m + [lo];
    assert f[..|f| - 1] == f' && f'[..|f'| - 1] == m;
    assert Crc(f') == ByteStep(Crc(m), lo);
    assert Crc(f) == ByteStep(ByteStep(Crc(m), lo), hi);
    TwoByteStep(Crc(m), lo, hi);
    ShiftZero(16, Xor(Crc(m), Register(hi, lo)));
    XorEqual(Crc(m), Register(hi, lo));
    RegisterBytes(Crc(m), lo, hi);
  }

  // ---------------------------------------------------------------- parity

  /** The number of set bits. */
  function Weight(s: seq<bool>): nat {
    if s == [] then 0 else Weight(s[..|s| - 1]) + if s[|s| - 1] then 1 else 0
  }

  /** Whether the lowest `k` bits hold an odd number of ones. */
  predicate Odd(x: bv16, k: nat) {
    k > 0 && ((x & 1 == 1) != Odd(x >> 1, k - 1))
  }

  predicate OddRegister(c: bv16) { Odd(c, 16) }

  lemma {:induction false} OddXor(x: bv16, y: bv16, k: nat)
    ensures Odd(Xor(x, y), k) == (Odd(x, k) != Odd(y, k))
    decreases k
  {
    hide Xor;
    if k > 0 {
      LowBitXor(x, y);
      HalfXor(x, y);
      OddXor(x >> 1, y >> 1, k - 1);
    }
  }

  lemma {:induction false} OddExtra(x: bv16, k: nat)
    requires Fits(x, k)
    ensures Odd(x, k + 1) == Odd(x, k)
    decreases k
  {
    if k > 0 { OddExtra(x >> 1, k - 1); }
  }

  lemma HalfFits(x: bv16)
    ensures Fits(x >> 1, 15)
  {
    FitsFour(x >> 12, 0);
    FitsFour(x >> 8, 4);
    FitsFour(x >> 4, 8);
    FitsFour(x, 12);
  }

  lemma GeneratorIsOdd()
    ensures OddRegister(0xA001) && OddRegister(1) && !OddRegister(0) && !OddRegister(0xFFFF)
  {
    OddNone(15);
    OddNone(16);
    assert OddRegister(1) == !Odd(0, 15);
    assert Odd(0x0002, 2);
    assert !Odd(0x000A, 4);
    assert !Odd(0x0028, 6);
    assert !Odd(0x00A0, 8);
    assert !Odd(0x0280, 10);
    assert !Odd(0x0A00, 12);
    assert !Odd(0x2800, 14);
    assert !Odd(0x0003, 2);
    assert !Odd(0x000F, 4);
    assert !Odd(0x003F, 6);
    assert !Odd(0x00FF, 8);
    assert !Odd(0x03FF, 10);
    assert !Odd(0x0FFF, 12);
    assert !Odd(0x3FFF, 14);
  }

  lemma {:induction false} OddNone(k: nat)
    ensures !Odd(0, k)
  {
    if k > 0 { OddNone(k - 1); }
  }

  /** A bit step keeps the parity: it drops a one exactly when it adds three. */
  lemma BitStepParity(c: bv16)
    ensures OddRegister(BitStep(c)) == OddRegister(c)
  {
    hide Odd, BitStep, Fits, Xor;
    var half := c >> 1;
    OddUnfold(c);
    HalfFits(c);
    OddExtra(half, 15);
    BitStepCases(c);
    if c & 1 == 1 {
      OddXor(half, 0xA001, 16);
      GeneratorIsOdd();
    }
  }

  lemma OddUnfold(c: bv16)
    ensures Odd(c, 16) == ((c & 1 == 1) != Odd(c >> 1, 15))
  {}

  lemma FeedBitParity(c: bv16, b: bool)
    ensures OddRegister(FeedBit(c, b)) == (OddRegister(c) != b)
  {
    hide BitStep, Xor, Odd;
    BitStepParity(Xor(c, Bit(b)));
    OddXor(c, Bit(b), 16);
    GeneratorIsOdd();
  }

  /** Feeding bits adds their parity to that of the register. */
  lemma {:induction false} FeedParity(c: bv16, s: seq<bool>)
    ensures OddRegister(Feed(c, s)) == (OddRegister(c) != (Weight(s) % 2 == 1))
  {
    hide OddRegister, FeedBit;
    if s != [] {
      FeedParity(c, s[..|s| - 1]);
      FeedBitParity(Feed(c, s[..|s| - 1]), s[|s| - 1]);
    }
  }

  /** Every error that flips an odd number of bits changes the register. */
  lemma OddErrorsDetected(e: seq<bool>)
    requires Weight(e) % 2 == 1
    ensures Syndrome(e) != 0
  {
    hide OddRegister, Feed;
    FeedParity(0, e);
    GeneratorIsOdd();
  }

  /** The CRC of a message has the parity of the message. */
  lemma CrcParity(m: seq<bv8>)
    ensures OddRegister(Crc(m)) <==> Weight(Bits(m)) % 2 == 1
  {
    hide OddRegister, Feed, CrcFrom;
    CrcFromIsFeed(0xFFFF, m);
    FeedParity(0xFFFF, Bits(m));
    GeneratorIsOdd();
  }

  /** Every frame with residue zero has an even number of set bits. */
  lemma ValidFramesHaveEvenWeight(f: seq<bv8>)
    requires Crc(f) == 0
    ensures Weight(Bits(f)) % 2 == 0
  {
    hide OddRegister, Crc;
    CrcParity(f);
    GeneratorIsOdd();
  }

  // ---------------------------------------------------------------- bursts

  /** All flipped bits lie within sixteen consecutive ones, starting at `p`. */
  predicate WithinSixteen(e: seq<bool>, p: nat) {
    forall i :: 0 <= i < |e| && e[i] ==> p <= i < p + 16
  }

  /** If at most fifteen bits drive the register to a small value, it was small before. */
  lemma {:induction false} BackBits(c: bv16, w: seq<bool>, k: bv16)
    requires k as int + |w| <= 15
    requires Feed(c, w) >> k == 0
    ensures c & 0x8000 == 0
    decreases |w|
  {
    hide FeedBit;
    if w == [] {
      SmallHasNoTopBit(c, k);
    } else {
      var w' := w[..|w| - 1];
      BackOneBit(Feed(c, w'), w[|w| - 1], k);
      assert (k + 1) as int == k as int + 1;
      BackBits(c, w', k + 1);
    }
  }

  lemma {:induction false} NoFlips(e: seq<bool>)
    requires forall i :: 0 <= i < |e| ==> !e[i]
    ensures e == Zeros(|e|) && Syndrome(e) == 0
  {
    hide Feed;
    assert e == Zeros(|e|);
    FeedZeros(0, |e|);
    ShiftZero(|e|, 0);
  }

  lemma FirstFlip(e: seq<bool>) returns (p: nat)
    requires exists i :: 0 <= i < |e| && e[i]
    ensures p < |e| && e[p] && forall i :: 0 <= i < p ==> !e[i]
  {
    p := 0;
    while !e[p]
      invariant p < |e| && forall i :: 0 <= i < p ==> !e[i]
      decreases |e| - p
    {
      p := p + 1;
    }
  }

  /** Every burst error of up to sixteen bits, at any bit position, changes the register. */
  lemma BurstsDetected(e: seq<bool>, p: nat)
    requires exists i :: 0 <= i < |e| && e[i]
    requires WithinSixteen(e, p)
    ensures Syndrome(e) != 0
  {
    hide Feed, WithinSixteen;
    var f := FirstFlip(e);
    var n := if |e| <= f + 16 then |e| else f + 16;
    var head, body, tail := e[..f], e[f + 1..n], e[n..];
    assert e == head + ([true] + (body + tail));
    NoFlips(head);
    TailClear(e, p, f, n);
    NoFlips(tail);
    BurstSyndrome(head, body, tail);
  }

  lemma TailClear(e: seq<bool>, p: nat, f: nat, n: nat)
    requires f < |e| && e[f] && WithinSixteen(e, p) && n <= |e| && (n == |e| || n == f + 16)
    ensures forall i :: 0 <= i < |e[n..]| ==> !e[n..][i]
  {}

  lemma BurstSyndrome(head: seq<bool>, body: seq<bool>, tail: seq<bool>)
    requires Syndrome(head) == 0 && tail == Zeros(|tail|) && |body| <= 15
    ensures Syndrome(head + ([true] + (body + tail))) != 0
  {
    hide Feed, FeedBit, Shift;
    FeedConcat(0, head, [true] + (body + tail));
    FeedConcat(0, [true], body + tail);
    FeedOneBit(0, true);
    OneBitFromZero();
    FeedConcat(0xA001, body, tail);
    FeedZeros(Feed(0xA001, body), |tail|);
    ShiftZero(|tail|, Feed(0xA001, body));
    if Feed(0xA001, body) == 0 {
      NoShift();
      BackBits(0xA001, body, 0);
      TopBitSet();
    }
  }

  lemma NoShift()
    ensures (0 as bv16) >> (0 as bv16) == 0
  {}

  lemma TopBitSet()
    ensures (0xA001 as bv16) & 0x8000 != 0
  {}

  /** Sixteen is the best possible: the generator itself, as a burst of seventeen bits, goes
      unnoticed. */
  lemma SeventeenBitBurstUndetected()
    ensures Syndrome([true] + LowBits(0xA001, 16)) == 0
  {
    hide Feed, FeedBit, Shift, LowBits, Fits, Xor;
    var body := LowBits(0xA001, 16);
    FeedConcat(0, [true], body);
    FeedOneBit(0, true);
    OneBitFromZero();
    FitsFour(0xA, 0);
    FitsFour(0xA0, 4);
    FitsFour(0xA00, 8);
    FitsFour(0xA001, 12);
    PeelBits(0xA001, 0xA001, 16);
    XorZero(0xA001);
    ShiftZero(16, 0);
  }

  lemma FeedOneBit(c: bv16, b: bool)
    ensures Feed(c, [b]) == FeedBit(c, b)
  {
    hide FeedBit;
    assert [b][..0] == [];
  }

  // ---------------------------------------------------------------- adjacent bytes

  lemma {:induction false} CrcFromConcat(c: bv16, a: seq<bv8>, b: seq<bv8>)
    ensures CrcFrom(c, a + b) == CrcFrom(CrcFrom(c, a), b)
  {
    hide ByteStep;
    if b == [] {
      assert a + b == a;
    } else {
      assert (a + b)[..|a + b| - 1] == a + b[..|b| - 1];
      CrcFromConcat(c, a, b[..|b| - 1]);
    }
  }

  /** For a fixed message, the final register is a bijection of the initial one. */
  lemma {:induction false} CrcFromInjective(c: bv16, d: bv16, m: seq<bv8>)
    ensures CrcFrom(c, m) == CrcFrom(d, m) <==> c == d
  {
    hide Shift, Xor, Widen;
    if m != [] {
      var m', x := m[..|m| - 1], Widen(m[|m| - 1]);
      var c', d' := CrcFrom(c, m'), CrcFrom(d, m');
      CrcFromInjective(c, d, m');
      ShiftInjective(8, Xor(c', x), Xor(d', x));
      XorComm(c', x);
      XorComm(d', x);
      XorCancel(x, c', d');
    }
  }

  /** Messages that differ only within two adjacent bytes have different CRCs. */
  lemma AdjacentBytesDetected(a: seq<bv8>, x: bv8, y: bv8, x': bv8, y': bv8, b: seq<bv8>)
    ensures Crc(a + [x, y] + b) == Crc(a + [x', y'] + b) <==> x == x' && y == y'
  {
    hide CrcFrom, ByteStep;
    CrcFromConcat(0xFFFF, a + [x, y], b);
    CrcFromConcat(0xFFFF, a + [x', y'], b);
    CrcFromConcat(0xFFFF, a, [x, y]);
    CrcFromConcat(0xFFFF, a, [x', y']);
    CrcFromInjective(CrcFrom(0xFFFF, a + [x, y]), CrcFrom(0xFFFF, a + [x', y']), b);
    CrcFromPair(Crc(a), x, y);
    CrcFromPair(Crc(a), x', y');
    TwoBytesReachEveryRegisterOnce(Crc(a), x, y, x', y');
  }

  lemma CrcFromPair(c: bv16, x: bv8, y: bv8)
    ensures CrcFrom(c, [x, y]) == ByteStep(ByteStep(c, x), y)
  {
    hide ByteStep;
    assert [x, y][..1] == [x] && [x][..0] == [];
    assert CrcFrom(c, [x]) == ByteStep(c, x);
  }
}
