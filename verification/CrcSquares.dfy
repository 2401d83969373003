/** Squaring modulo the CRC generator, in the register's bit order (0x8000 is 1, 0x4000 is x):
    the linear map that takes x^j to x^2j, computed four coefficients at a time. */
module CrcSquares {
  import opened CrcBits

  /** `value` if the coefficient selected by `mask` is set. */
  function Term(v: bv16, mask: bv16, value: bv16): bv16 { if v & mask != 0 then value else 0 }

  function Quad(v: bv16, m0: bv16, t0: bv16, m1: bv16, t1: bv16, m2: bv16, t2: bv16, m3: bv16, t3: bv16): bv16 {
    Xor(Xor(Term(v, m0, t0), Term(v, m1, t1)), Xor(Term(v, m2, t2), Term(v, m3, t3)))
  }

  function SquareA(v: bv16): bv16 { Quad(v, 0x8000, 0x8000, 0x4000, 0x2000, 0x2000, 0x0800, 0x1000, 0x0200) }

  function SquareB(v: bv16): bv16 { Quad(v, 0x0800, 0x0080, 0x0400, 0x0020, 0x0200, 0x0008, 0x0100, 0x0002) }

  function SquareC(v: bv16): bv16 { Quad(v, 0x0080, 0xA001, 0x0040, 0xD801, 0x0020, 0xC601, 0x0010, 0xC181) }

  function SquareD(v: bv16): bv16 { Quad(v, 0x0008, 0xC061, 0x0004, 0xC019, 0x0002, 0xC007, 0x0001, 0x6001) }

  function Square(v: bv16): bv16 {
    Xor(Xor(SquareA(v), SquareB(v)), Xor(SquareC(v), SquareD(v)))
  }

  /** One of the sixteen single-bit masks. */
  predicate Single(mask: bv16) {
    || mask == 0x8000 || mask == 0x4000 || mask == 0x2000 || mask == 0x1000 || mask == 0x0800 || mask == 0x0400
    || mask == 0x0200 || mask == 0x0100 || mask == 0x0080 || mask == 0x0040 || mask == 0x0020
    || mask == 0x0010 || mask == 0x0008 || mask == 0x0004 || mask == 0x0002 || mask == 0x0001
  }

  lemma FlagXor(a: bv16, b: bv16, mask: bv16)
    requires Single(mask)
    ensures (Xor(a, b) & mask != 0) == ((a & mask != 0) != (b & mask != 0))
  {
    if mask == 0x8000 {
    } else if mask == 0x4000 {
    } else if mask == 0x2000 {
    } else if mask == 0x1000 {
    } else if mask == 0x0800 {
    } else if mask == 0x0400 {
    } else if mask == 0x0200 {
    } else if mask == 0x0100 {
    } else if mask == 0x0080 {
    } else if mask == 0x0040 {
    } else if mask == 0x0020 {
    } else if mask == 0x0010 {
    } else if mask == 0x0008 {
    } else if mask == 0x0004 {
    } else if mask == 0x0002 {
    } else {
    }
  }

  lemma TermXor(a: bv16, b: bv16, mask: bv16, value: bv16)
    requires Single(mask)
    ensures Term(Xor(a, b), mask, value) == Xor(Term(a, mask, value), Term(b, mask, value))
  {
    hide Xor, Single;
    FlagXor(a, b, mask);
    XorZero(value);
    XorZero(0);
  }

  lemma QuadXor(a: bv16, b: bv16, m0: bv16, t0: bv16, m1: bv16, t1: bv16, m2: bv16, t2: bv16, m3: bv16, t3: bv16)
    requires Single(m0) && Single(m1) && Single(m2) && Single(m3)
    ensures Quad(Xor(a, b), m0, t0, m1, t1, m2, t2, m3, t3)
            == Xor(Quad(a, m0, t0, m1, t1, m2, t2, m3, t3), Quad(b, m0, t0, m1, t1, m2, t2, m3, t3))
  {
    hide Xor, Term, Single;
    TermXor(a, b, m0, t0);
    TermXor(a, b, m1, t1);
    TermXor(a, b, m2, t2);
    TermXor(a, b, m3, t3);
    XorFour(Term(a, m0, t0), Term(b, m0, t0), Term(a, m1, t1), Term(b, m1, t1));
    XorFour(Term(a, m2, t2), Term(b, m2, t2), Term(a, m3, t3), Term(b, m3, t3));
    XorFour(Xor(Term(a, m0, t0), Term(a, m1, t1)), Xor(Term(b, m0, t0), Term(b, m1, t1)),
            Xor(Term(a, m2, t2), Term(a, m3, t3)), Xor(Term(b, m2, t2), Term(b, m3, t3)));
  }

  lemma SquareXor(a: bv16, b: bv16)
    ensures Square(Xor(a, b)) == Xor(Square(a), Square(b))
  {
    hide Xor, Quad;
    QuadXor(a, b, 0x8000, 0x8000, 0x4000, 0x2000, 0x2000, 0x0800, 0x1000, 0x0200);
    QuadXor(a, b, 0x0800, 0x0080, 0x0400, 0x0020, 0x0200, 0x0008, 0x0100, 0x0002);
    QuadXor(a, b, 0x0080, 0xA001, 0x0040, 0xD801, 0x0020, 0xC601, 0x0010, 0xC181);
    QuadXor(a, b, 0x0008, 0xC061, 0x0004, 0xC019, 0x0002, 0xC007, 0x0001, 0x6001);
    XorFour(SquareA(a), SquareA(b), SquareB(a), SquareB(b));
    XorFour(SquareC(a), SquareC(b), SquareD(a), SquareD(b));
    XorFour(Xor(SquareA(a), SquareB(a)), Xor(SquareA(b), SquareB(b)),
            Xor(SquareC(a), SquareD(a)), Xor(SquareC(b), SquareD(b)));
  }

  /** Multiplying by x before squaring is multiplying by x twice afterwards. */
  ghost predicate Commutes(v: bv16) {
    Square(BitStep(v)) == BitStep(BitStep(Square(v)))
  }

  lemma CommutesXor(a: bv16, b: bv16)
    requires Commutes(a) && Commutes(b)
    ensures Commutes(Xor(a, b))
  {
    hide Xor, Square, BitStep;
    SquareXor(a, b);
    BitStepXor(a, b);
    SquareXor(BitStep(a), BitStep(b));
    BitStepXor(Square(a), Square(b));
    BitStepXor(BitStep(Square(a)), BitStep(Square(b)));
  }

  /** The squares of the sixteen powers of x that the register can hold. */
  lemma SquaresA()
    ensures Square(0x8000) == 0x8000 && Square(0x4000) == 0x2000
    ensures Square(0x2000) == 0x0800 && Square(0x1000) == 0x0200
  {}

  lemma SquaresB()
    ensures Square(0x0800) == 0x0080 && Square(0x0400) == 0x0020
    ensures Square(0x0200) == 0x0008 && Square(0x0100) == 0x0002
  {}

  lemma SquaresC()
    ensures Square(0x0080) == 0xA001 && Square(0x0040) == 0xD801
    ensures Square(0x0020) == 0xC601 && Square(0x0010) == 0xC181
  {}

  lemma SquaresD()
    ensures Square(0x0008) == 0xC061 && Square(0x0004) == 0xC019
    ensures Square(0x0002) == 0xC007 && Square(0x0001) == 0x6001
  {}

  lemma SquareZero()
    ensures Square(0) == 0 && BitStep(0) == 0
  {}

  /** 0xA001 is x^16 modulo the generator: 1 + x^2 + x^15. */
  lemma SquareGenerator()
    ensures Square(0xA001) == 0xE801
  {
    hide Square, Xor;
    SquaresA();
    SquaresD();
    Digits();
    SquareXor(0x8000, 0x2000);
    SquareXor(0xA000, 0x0001);
  }

  lemma Digits()
    ensures Xor(0x8000, 0x2000) == 0xA000 && Xor(0xA000, 0x0001) == 0xA001
    ensures Xor(0x8000, 0x0800) == 0x8800 && Xor(0x8800, 0x6001) == 0xE801
  {}

  lemma CommutesAt(v: bv16, w: bv16, a: bv16, b: bv16, c: bv16)
    requires BitStep(v) == w && Square(v) == a && BitStep(a) == b && BitStep(b) == c && Square(w) == c
    ensures Commutes(v)
  {
    hide Square, BitStep;
  }

  lemma CommutesZero()
    ensures Commutes(0)
  {
    hide Square, BitStep;
    SquareZero();
  }

  lemma CommutesA()
    ensures Commutes(0x8000) && Commutes(0x4000) && Commutes(0x2000) && Commutes(0x1000)
  {
    hide Square;
    SquaresA();
    SquaresB();
    CommutesAt(0x8000, 0x4000, 0x8000, 0x4000, 0x2000);
    CommutesAt(0x4000, 0x2000, 0x2000, 0x1000, 0x0800);
    CommutesAt(0x2000, 0x1000, 0x0800, 0x0400, 0x0200);
    CommutesAt(0x1000, 0x0800, 0x0200, 0x0100, 0x0080);
  }

  lemma CommutesB()
    ensures Commutes(0x0800) && Commutes(0x0400) && Commutes(0x0200) && Commutes(0x0100)
  {
    hide Square;
    SquaresB();
    SquaresC();
    CommutesAt(0x0800, 0x0400, 0x0080, 0x0040, 0x0020);
    CommutesAt(0x0400, 0x0200, 0x0020, 0x0010, 0x0008);
    CommutesAt(0x0200, 0x0100, 0x0008, 0x0004, 0x0002);
    CommutesAt(0x0100, 0x0080, 0x0002, 0x0001, 0xA001);
  }

  lemma CommutesC()
    ensures Commutes(0x0080) && Commutes(0x0040) && Commutes(0x0020) && Commutes(0x0010)
  {
    hide Square;
    SquaresC();
    SquaresD();
    CommutesAt(0x0080, 0x0040, 0xA001, 0xF001, 0xD801);
    CommutesAt(0x0040, 0x0020, 0xD801, 0xCC01, 0xC601);
    CommutesAt(0x0020, 0x0010, 0xC601, 0xC301, 0xC181);
    CommutesAt(0x0010, 0x0008, 0xC181, 0xC0C1, 0xC061);
  }

  lemma CommutesD()
    ensures Commutes(0x0008) && Commutes(0x0004) && Commutes(0x0002) && Commutes(0x0001)
  {
    hide Square;
    SquaresD();
    SquareGenerator();
    CommutesAt(0x0008, 0x0004, 0xC061, 0xC031, 0xC019);
    CommutesAt(0x0004, 0x0002, 0xC019, 0xC00D, 0xC007);
    CommutesAt(0x0002, 0x0001, 0xC007, 0xC002, 0x6001);
    CommutesAt(0x0001, 0xA001, 0x6001, 0x9001, 0xE801);
  }

  lemma CommutesMasked(v: bv16, mask: bv16)
    requires Single(mask)
    ensures Commutes(v & mask)
  {
    hide Commutes;
    CommutesZero();
    CommutesA();
    CommutesB();
    CommutesC();
    CommutesD();
    Masked(v, mask);
  }

  lemma Masked(v: bv16, mask: bv16)
    requires Single(mask)
    ensures v & mask == 0 || v & mask == mask
  {}

  /** The coefficients of `v` that four masks select. */
  function Part(v: bv16, m0: bv16, m1: bv16, m2: bv16, m3: bv16): bv16 {
    Xor(Xor(v & m0, v & m1), Xor(v & m2, v & m3))
  }

  lemma CommutesPart(v: bv16, m0: bv16, m1: bv16, m2: bv16, m3: bv16)
    requires Single(m0) && Single(m1) && Single(m2) && Single(m3)
    ensures Commutes(Part(v, m0, m1, m2, m3))
  {
    hide Xor, Commutes, Single;
    CommutesMasked(v, m0);
    CommutesMasked(v, m1);
    CommutesMasked(v, m2);
    CommutesMasked(v, m3);
    CommutesXor(v & m0, v & m1);
    CommutesXor(v & m2, v & m3);
    CommutesXor(Xor(v & m0, v & m1), Xor(v & m2, v & m3));
  }

  lemma Nibbles(v: bv16)
    ensures v == Xor(Xor(Part(v, 0x8000, 0x4000, 0x2000, 0x1000), Part(v, 0x0800, 0x0400, 0x0200, 0x0100)),
                     Xor(Part(v, 0x0080, 0x0040, 0x0020, 0x0010), Part(v, 0x0008, 0x0004, 0x0002, 0x0001)))
  {}

  lemma SquareStep(v: bv16)
    ensures Commutes(v)
  {
    hide Xor, Commutes, Part;
    CommutesPart(v, 0x8000, 0x4000, 0x2000, 0x1000);
    CommutesPart(v, 0x0800, 0x0400, 0x0200, 0x0100);
    CommutesPart(v, 0x0080, 0x0040, 0x0020, 0x0010);
    CommutesPart(v, 0x0008, 0x0004, 0x0002, 0x0001);
    var a, b := Part(v, 0x8000, 0x4000, 0x2000, 0x1000), Part(v, 0x0800, 0x0400, 0x0200, 0x0100);
    var c, d := Part(v, 0x0080, 0x0040, 0x0020, 0x0010), Part(v, 0x0008, 0x0004, 0x0002, 0x0001);
    CommutesXor(a, b);
    CommutesXor(c, d);
    CommutesXor(Xor(a, b), Xor(c, d));
    Nibbles(v);
  }

  lemma SquareOne()
    ensures Square(0x8000) == 0x8000
  {}
}
