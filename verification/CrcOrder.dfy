/** The powers of x modulo the generator: x has order 32767, so every error of one, two or
    three flipped bits in a frame of at most 32767 bits is detected. */
module CrcOrder {
  import opened Wire
  import opened CrcBits
  import opened CrcSquares
  import opened Crc16
  import opened CrcDetection

  /** x^n modulo the generator, in the register's bit order (0x8000 is 1, 0x4000 is x). */
  function Power(n: nat): bv16 { Shift(n, 0x8000) }

  lemma {:induction false} PowerDouble(n: nat)
    ensures Power(2 * n) == Square(Power(n))
    ensures Power(2 * n + 1) == BitStep(Square(Power(n)))
  {
    hide BitStep, Square;
    if n == 0 {
      SquareOne();
    } else {
      PowerDouble(n - 1);
      SquareStep(Power(n - 1));
    }
  }

  lemma PowerOne()
    ensures Power(1) == 0x4000
  {}

  // ---------------------------------------------------------------- the order of x

  lemma Power27()
    ensures Power(27) == 0xC00D
  {
    hide Shift, Power;
    PowerOne();
    PowerDouble(1); assert Power(3) == 0x1000;
    PowerDouble(3); assert Power(6) == 0x0200;
    PowerDouble(6); assert Power(13) == 0x0004;
    PowerDouble(13); assert Power(27) == 0xC00D;
  }

  lemma Power217()
    ensures Power(217) == 0x3E55
  {
    hide Shift, Power;
    Power27();
    PowerDouble(27); assert Power(54) == 0xC079;
    PowerDouble(54); assert Power(108) == 0xDFE1;
    PowerDouble(108); assert Power(217) == 0x3E55;
  }

  lemma Power16()
    ensures Power(16) == 0xA001
  {
    hide Shift, Power;
    PowerOne();
    PowerDouble(1); assert Power(2) == 0x2000;
    PowerDouble(2); assert Power(4) == 0x0800;
    PowerDouble(4); assert Power(8) == 0x0080;
    PowerDouble(8); assert Power(16) == 0xA001;
  }

  lemma Power264()
    ensures Power(264) == 0xC049
  {
    hide Shift, Power;
    Power16();
    PowerDouble(16); assert Power(33) == 0xD401;
    PowerDouble(33); assert Power(66) == 0xC221;
    PowerDouble(66); assert Power(132) == 0x0608;
    PowerDouble(132); assert Power(264) == 0xC049;
  }

  lemma Power1057()
    ensures Power(1057) == 0xCE41
  {
    hide Shift, Power;
    Power264();
    PowerDouble(264); assert Power(528) == 0xD861;
    PowerDouble(528); assert Power(1057) == 0xCE41;
  }

  lemma Power18()
    ensures Power(18) == 0xD801
  {
    hide Shift, Power;
    PowerOne();
    PowerDouble(1); assert Power(2) == 0x2000;
    PowerDouble(2); assert Power(4) == 0x0800;
    PowerDouble(4); assert Power(9) == 0x0040;
    PowerDouble(9); assert Power(18) == 0xD801;
  }

  lemma Power292()
    ensures Power(292) == 0xC169
  {
    hide Shift, Power;
    Power18();
    PowerDouble(18); assert Power(36) == 0xC281;
    PowerDouble(36); assert Power(73) == 0x3004;
    PowerDouble(73); assert Power(146) == 0xCA19;
    PowerDouble(146); assert Power(292) == 0xC169;
  }

  lemma Power4681()
    ensures Power(4681) == 0x8C69
  {
    hide Shift, Power;
    Power292();
    PowerDouble(292); assert Power(585) == 0x0F31;
    PowerDouble(585); assert Power(1170) == 0x672B;
    PowerDouble(1170); assert Power(2340) == 0x8E4C;
    PowerDouble(2340); assert Power(4681) == 0x8C69;
  }

  lemma Power31()
    ensures Power(31) == 0x9001
  {
    hide Shift, Power;
    PowerOne();
    PowerDouble(1); assert Power(3) == 0x1000;
    PowerDouble(3); assert Power(7) == 0x0100;
    PowerDouble(7); assert Power(15) == 0x0001;
    PowerDouble(15); assert Power(31) == 0x9001;
  }

  lemma Power511()
    ensures Power(511) == 0x8101
  {
    hide Shift, Power;
    Power31();
    PowerDouble(31); assert Power(63) == 0xD101;
    PowerDouble(63); assert Power(127) == 0xC100;
    PowerDouble(127); assert Power(255) == 0x5001;
    PowerDouble(255); assert Power(511) == 0x8101;
  }

  lemma Power8191()
    ensures Power(8191) == 0x9100
  {
    hide Shift, Power;
    Power511();
    PowerDouble(511); assert Power(1023) == 0xD000;
    PowerDouble(1023); assert Power(2047) == 0x5100;
    PowerDouble(2047); assert Power(4095) == 0x1101;
    PowerDouble(4095); assert Power(8191) == 0x9100;
  }

  lemma Power32767()
    ensures Power(32767) == 0x8000
  {
    hide Shift, Power;
    Power8191();
    PowerDouble(8191); assert Power(16383) == 0x4101;
    PowerDouble(16383); assert Power(32767) == 0x8000;
  }

  /** x^n is 1. */
  ghost predicate Returns(n: nat) { Power(n) == 0x8000 }

  lemma ReturnsMinus(m: nat, n: nat)
    requires n <= m && Returns(m) && Returns(n)
    ensures Returns(m - n)
  {
    hide Shift;
    ShiftAdd(m - n, n, 0x8000);
  }

  lemma {:induction false} ReturnsMultiple(n: nat, k: nat)
    requires Returns(n)
    ensures Returns(k * n)
  {
    hide Shift;
    if k == 0 {
      assert k * n == 0;
      PowerZero();
    } else {
      ReturnsMultiple(n, k - 1);
      ShiftAdd((k - 1) * n, n, 0x8000);
      assert (k - 1) * n + n == k * n;
    }
  }

  lemma PowerZero()
    ensures Power(0) == 0x8000
  {}

  /** The least positive number of steps after which the powers repeat. */
  lemma LeastReturn(d: nat) returns (g: nat)
    requires d > 0 && Returns(d)
    ensures 0 < g <= d && Returns(g)
    ensures forall k: nat :: 0 < k < g ==> !Returns(k)
  {
    hide Power;
    g := 1;
    while !Returns(g)
      invariant 0 < g <= d
      invariant forall k: nat :: 0 < k < g ==> !Returns(k)
      decreases d - g
    {
      g := g + 1;
    }
  }

  /** The least return divides every return. */
  lemma LeastReturnDivides(g: nat, n: nat)
    requires 0 < g && Returns(g) && Returns(n)
    requires forall k: nat :: 0 < k < g ==> !Returns(k)
    ensures n % g == 0
  {
    hide Power;
    ReturnsMultiple(g, n / g);
    assert n == (n / g) * g + n % g;
    ReturnsMinus(n, (n / g) * g);
  }

  predicate Known(k: nat)
    requires k > 0
  {
    32767 % k != 0 || k == 7 || k == 31 || k == 151
  }

  /** No number from 2 to `k` divides 32767, except 7, 31 and 151. */
  predicate FewDivisors(k: nat) {
    k < 2 || (Known(k) && FewDivisors(k - 1))
  }

  lemma EightMore(k: nat)
    requires k >= 9 && FewDivisors(k - 8)
    requires Known(k) && Known(k - 1) && Known(k - 2) && Known(k - 3)
    requires Known(k - 4) && Known(k - 5) && Known(k - 6) && Known(k - 7)
    ensures FewDivisors(k)
  {
    hide Known;
    assert FewDivisors(k - 6) by { assert FewDivisors(k - 7); }
    assert FewDivisors(k - 4) by { assert FewDivisors(k - 5); }
    assert FewDivisors(k - 2) by { assert FewDivisors(k - 3); }
    assert FewDivisors(k - 1);
  }

  lemma FewDivisors33()
    ensures FewDivisors(33)
  {
    hide FewDivisors;
    FewDivisorsStart();
    EightMore(9); EightMore(17); EightMore(25); EightMore(33);
  }

  lemma FewDivisors65()
    ensures FewDivisors(65)
  {
    hide FewDivisors;
    FewDivisors33();
    EightMore(41); EightMore(49); EightMore(57); EightMore(65);
  }

  lemma FewDivisors97()
    ensures FewDivisors(97)
  {
    hide FewDivisors;
    FewDivisors65();
    EightMore(73); EightMore(81); EightMore(89); EightMore(97);
  }

  lemma FewDivisors129()
    ensures FewDivisors(129)
  {
    hide FewDivisors;
    FewDivisors97();
    EightMore(105); EightMore(113); EightMore(121); EightMore(129);
  }

  lemma FewDivisors161()
    ensures FewDivisors(161)
  {
    hide FewDivisors;
    FewDivisors129();
    EightMore(137); EightMore(145); EightMore(153); EightMore(161);
  }

  lemma FewDivisors185()
    ensures FewDivisors(185)
  {
    hide FewDivisors;
    FewDivisors161();
    EightMore(169); EightMore(177); EightMore(185);
  }

  lemma FewDivisorsStart()
    ensures FewDivisors(1)
  {}

  lemma {:induction false} FewDivisorsHolds(k: nat, j: nat)
    requires FewDivisors(k) && 2 <= j <= k && 32767 % j == 0
    ensures j == 7 || j == 31 || j == 151
  {
    if j < k { FewDivisorsHolds(k - 1, j); }
  }

  /** 32767 is 7 * 31 * 151. */
  lemma DivisorsOf32767(g: nat)
    requires 0 < g < 32767 && 32767 % g == 0
    ensures 217 % g == 0 || 1057 % g == 0 || 4681 % g == 0
  {
    hide FewDivisors;
    FewDivisors185();
    var h := 32767 / g;
    assert g * h == 32767;
    if g <= 181 {
      if g >= 2 { FewDivisorsHolds(185, g); }
    } else {
      assert h <= 181 by { Product(g, 182, h); }
      assert h >= 2;
      ExactDivision(32767, g, h);
      FewDivisorsHolds(185, h);
    }
  }

  lemma Product(g: nat, n: nat, h: nat)
    requires g >= n && g * h < n * n
    ensures h < n
  {
    if h >= n { ProductMonotone(n, n, g, h); }
  }

  lemma ProductMonotone(a: nat, b: nat, c: nat, d: nat)
    requires a <= c && b <= d
    ensures a * b <= c * d
  {
    assert c * d == a * b + a * (d - b) + (c - a) * d;
  }

  lemma ExactDivision(n: nat, g: nat, h: nat)
    requires n == g * h && h > 0
    ensures n % h == 0
  {
    var q := n / h;
    assert n == q * h + n % h;
    assert n % h == (g - q) * h;
    if g > q {
      ProductMonotone(1, h, g - q, h);
    } else {
      ProductMonotone(0, h, q - g, h);
    }
  }

  /** x has order exactly 32767: no smaller power of it is 1. */
  lemma OrderIs32767(d: nat)
    requires 0 < d < 32767
    ensures Power(32767) == 0x8000 && Power(d) != 0x8000
  {
    hide Power;
    Power32767();
    if Returns(d) {
      var g := LeastReturn(d);
      LeastReturnDivides(g, 32767);
      DivisorsOf32767(g);
      Power217();
      Power1057();
      Power4681();
      if 217 % g == 0 {
        assert 217 == 217 / g * g;
        ReturnsMultiple(g, 217 / g);
      } else if 1057 % g == 0 {
        assert 1057 == 1057 / g * g;
        ReturnsMultiple(g, 1057 / g);
      } else {
        assert 4681 == 4681 / g * g;
        ReturnsMultiple(g, 4681 / g);
      }
      assert false;
    }
  }

  // ---------------------------------------------------------------- two and three flipped bits

  /** The last flipped bit, with all but one of the flips before it. */
  lemma LastFlip(e: seq<bool>) returns (j: nat)
    requires Weight(e) > 0
    ensures j < |e| && e[j] && Weight(e[..j]) == Weight(e) - 1
    ensures forall i :: j < i < |e| ==> !e[i]
  {
    j := |e| - 1;
    assert e[..j + 1] == e;
    while !e[j]
      invariant j < |e| && Weight(e[..j + 1]) == Weight(e)
      invariant forall i :: j < i < |e| ==> !e[i]
      decreases j
    {
      assert e[..j + 1][..j] == e[..j];
      assert e[..j + 1] != [];
      j := j - 1;
    }
    assert e[..j + 1][..j] == e[..j];
  }

  lemma {:induction false} WeightZero(e: seq<bool>)
    requires Weight(e) == 0
    ensures forall i :: 0 <= i < |e| ==> !e[i]
  {
    if e != [] { WeightZero(e[..|e| - 1]); }
  }

  /** The shape of an error of two flipped bits, `d` positions apart. */
  function TwoFlips(before: nat, d: nat, after: nat): seq<bool>
    requires d > 0
  {
    Zeros(before) + [true] + Zeros(d - 1) + [true] + Zeros(after)
  }

  lemma TwoFlipsShape(e: seq<bool>) returns (before: nat, d: nat, after: nat)
    requires Weight(e) == 2
    ensures d > 0 && before + d + 1 + after == |e|
    ensures e == TwoFlips(before, d, after)
  {
    var j := LastFlip(e);
    var i := LastFlip(e[..j]);
    assert e[..j][..i] == e[..i];
    WeightZero(e[..i]);
    before, d, after := i, j - i, |e| - j - 1;
    assert forall k :: i < k < j ==> !e[k] by { assert forall k :: i < k < j ==> e[k] == e[..j][k]; }
    assert forall k :: 0 <= k < i ==> !e[k] by { assert forall k :: 0 <= k < i ==> e[k] == e[..i][k]; }
    assert e == TwoFlips(before, d, after);
  }

  lemma BasePowers()
    ensures Power(15) == 1 && FeedBit(0, true) == Power(16)
  {
    hide Shift;
    hide Power;
    PowerOne();
    PowerDouble(1); assert Power(3) == 0x1000;
    PowerDouble(3); assert Power(7) == 0x0100;
    PowerDouble(7); assert Power(15) == 1;
    PowerSixteen();
  }

  lemma PowerSixteen()
    ensures Power(16) == BitStep(Power(15))
  {
    hide BitStep;
  }

  /** Two flipped bits cancel exactly when x^d is 1 for their distance d. */
  lemma TwoFlipsSyndrome(before: nat, d: nat, after: nat)
    requires d > 0
    ensures Syndrome(TwoFlips(before, d, after)) == 0 <==> Power(d) == 0x8000
  {
    hide Feed, FeedBit, Shift, BitStep, Xor;
    var z, one, y, w := Zeros(before), [true], Zeros(d - 1), Zeros(after);
    FeedConcat(0, z + one + y + one, w);
    FeedConcat(0, z + one + y, one);
    FeedConcat(0, z + one, y);
    FeedConcat(0, z, one);
    FeedZeros(0, before);
    ShiftZero(before, 0);
    FeedOneBit(0, true);
    BasePowers();
    FeedZeros(Power(16), d - 1);
    var c := Shift(d - 1, Power(16));
    FeedOneBit(c, true);
    FeedZeros(FeedBit(c, true), after);
    ShiftZero(after, FeedBit(c, true));
    SecondFlipCancels(c);
    ShiftAdd(d - 1, 16, 0x8000);
    ShiftAdd(15, d, 0x8000);
    ShiftInjective(15, Power(d), 0x8000);
  }

  lemma SecondFlipCancels(c: bv16)
    ensures FeedBit(c, true) == 0 <==> c == 1
  {
    hide BitStep, Xor;
    BitStepZero(Xor(c, 1));
    XorEqual(c, 1);
  }

  /** Every error of one, two or three flipped bits in at most 32767 bits is detected. */
  lemma FewFlipsDetected(e: seq<bool>)
    requires 1 <= Weight(e) <= 3 && |e| <= 32767
    ensures Syndrome(e) != 0
  {
    hide Feed, Power;
    if Weight(e) == 2 {
      var before, d, after := TwoFlipsShape(e);
      TwoFlipsSyndrome(before, d, after);
      OrderIs32767(d);
    } else {
      OddErrorsDetected(e);
    }
  }

  /** The bound is exact: 32768 bits allow an unnoticed pair of flips. */
  lemma TwoFlipsAtTheOrderUndetected()
    ensures |TwoFlips(0, 32767, 0)| == 32768 && Syndrome(TwoFlips(0, 32767, 0)) == 0
  {
    hide Feed, Power;
    TwoFlipsSyndrome(0, 32767, 0);
    Power32767();
  }

  // ---------------------------------------------------------------- corrupted frames

  /** The bits in which two equally long frames differ. */
  function Flips(f: seq<bv8>, g: seq<bv8>): seq<bool>
    requires |f| == |g|
  {
    BitsLength(f);
    BitsLength(g);
    XorBits(Bits(f), Bits(g))
  }

  /** A corruption of a frame with a correct check keeps the check exactly when the flipped bits
      have syndrome zero; no burst of up to sixteen bits, no odd number of flips and, up to 4095
      bytes, no one to three flips do. */
  lemma CorruptionDetected(f: seq<bv8>, g: seq<bv8>)
    requires |f| == |g| && Crc(f) == 0
    ensures Crc(g) == 0 <==> Syndrome(Flips(f, g)) == 0
    ensures Weight(Flips(f, g)) % 2 == 1 ==> Crc(g) != 0
    ensures 1 <= Weight(Flips(f, g)) <= 3 && |f| <= 4095 ==> Crc(g) != 0
    ensures forall p: nat :: WithinSixteen(Flips(f, g), p) && true in Flips(f, g) ==> Crc(g) != 0
  {
    hide Feed, CrcFrom, Weight, ByteBits, WithinSixteen;
    var e := Flips(f, g);
    BitsLength(f);
    BitsLength(g);
    CrcFromIsFeed(0xFFFF, f);
    CrcFromIsFeed(0xFFFF, g);
    SameRegisterIffZeroSyndrome(0xFFFF, Bits(f), Bits(g));
    if Weight(e) % 2 == 1 { OddErrorsDetected(e); }
    if 1 <= Weight(e) <= 3 && |f| <= 4095 { FewFlipsDetected(e); }
    forall p: nat | WithinSixteen(e, p) && true in e ensures Syndrome(e) != 0 {
      BurstsDetected(e, p);
    }
  }
}
