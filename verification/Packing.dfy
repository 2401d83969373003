/** Conversions between host values and wire bytes: `memcpy_msb`, the master's word loop, and the
    coil packing of `write_multiple_coils`. */
module Packing {
  import opened Wire

  // ---------------------------------------------------------------- registers

  /** The bytes of words as they lie in memory. */
  function NativeBytes(ws: seq<word>, littleEndian: bool): (bs: seq<byte>)
    ensures |bs| == 2 * |ws|
  {
    seq(2 * |ws|, i requires 0 <= i < 2 * |ws| =>
      if (i % 2 == 0) == littleEndian then Low(ws[i / 2]) else High(ws[i / 2]))
  }

  /** `memcpy_msb`: a native copy, then on little-endian hosts a swap of every pair in place, is
      big-endian encoding on both kinds of host. */
  method MemcpyMsb(dst: array<byte>, src: seq<word>, littleEndian: bool)
    requires 2 * |src| == dst.Length
    modifies dst
    ensures dst[..] == WordsBytes(src)
  {
    var native := NativeBytes(src, littleEndian);
    forall k | 0 <= k < dst.Length { dst[k] := native[k]; }
    if littleEndian {
      var i := 0;
      while i < dst.Length
        invariant 0 <= i <= dst.Length && i % 2 == 0
        invariant forall k :: 0 <= k < i ==> dst[k] == WordsBytes(src)[k]
        invariant forall k :: i <= k < dst.Length ==> dst[k] == native[k]
      {
        assert i / 2 == (i + 1) / 2;
        dst[i], dst[i + 1] := dst[i + 1], dst[i];
        i := i + 2;
      }
    } else {
      assert native == WordsBytes(src);
    }
  }

  /** The master's loop over `make_uint16`. */
  method MakeWords(buffer: array<byte>, out: array<word>)
    requires buffer.Length == 2 * out.Length
    modifies out
    ensures out[..] == BytesWords(buffer[..])
  {
    var i := 0;
    while i < out.Length
      invariant 0 <= i <= out.Length
      invariant forall k :: 0 <= k < i ==> out[k] == MakeWord(buffer[2 * k], buffer[2 * k + 1])
    {
      out[i] := MakeWord(buffer[2 * i], buffer[2 * i + 1]);
      i := i + 1;
    }
  }

  // ---------------------------------------------------------------- coils

  function Pow2(k: nat): nat { if k == 0 then 1 else 2 * Pow2(k - 1) }

  /** Bit `k` of a byte, bit 0 the least significant. */
  function BitOf(b: nat, k: nat): byte { if k == 0 then b % 2 else BitOf(b / 2, k - 1) }

  /** The number that up to eight coils form, the first one least significant. */
  function CoilSum(cs: seq<byte>): nat { if cs == [] then 0 else cs[0] + 2 * CoilSum(cs[1..]) }

  /** The coils that go into byte `i`. */
  function CoilGroup(values: seq<byte>, i: nat): (cs: seq<byte>)
    requires 8 * i <= |values|
    ensures |cs| <= 8
  {
    values[8 * i..if 8 * i + 8 <= |values| then 8 * i + 8 else |values|]
  }

  function ByteCount(quantity: nat): nat
    requires quantity >= 1
  {
    (quantity - 1) / 8 + 1
  }

  /** The data bytes of a write-multiple-coils request. */
  function PackCoils(values: seq<byte>): (v: seq<byte>)
    requires |values| >= 1
    ensures |v| == ByteCount(|values|)
  {
    seq(ByteCount(|values|), i requires 0 <= i < ByteCount(|values|) => ToByte(CoilSum(CoilGroup(values, i))))
  }

  /** Reading coils back: coil k is bit k mod 8 of byte k / 8. */
  function UnpackCoils(v: seq<byte>, quantity: nat): (values: seq<byte>)
    requires quantity <= 8 * |v|
    ensures |values| == quantity
  {
    seq(quantity, k requires 0 <= k < quantity => BitOf(v[k / 8], k % 8))
  }

  predicate ZeroOne(cs: seq<byte>) { forall i :: 0 <= i < |cs| ==> cs[i] <= 1 }

  lemma {:induction false} CoilSumSnoc(cs: seq<byte>, c: byte)
    ensures CoilSum(cs + [c]) == CoilSum(cs) + Pow2(|cs|) * c
  {
    if cs == [] {
      assert (cs + [c])[1..] == [];
    } else {
      assert (cs + [c])[1..] == cs[1..] + [c];
      CoilSumSnoc(cs[1..], c);
      assert (2 * Pow2(|cs| - 1)) * c == 2 * (Pow2(|cs| - 1) * c);
    }
  }

  /** For zero/one coils the sum never reaches 2^n, so the additions never carry, and its bits are
      the coils followed by zeros. */
  lemma {:induction false} CoilSumBits(cs: seq<byte>, k: nat)
    requires ZeroOne(cs)
    ensures CoilSum(cs) < Pow2(|cs|)
    ensures BitOf(CoilSum(cs), k) == if k < |cs| then cs[k] else 0
  {
    if cs == [] {
      ZeroBits(k);
    } else {
      var rest := CoilSum(cs[1..]);
      CoilSumBits(cs[1..], if k == 0 then 0 else k - 1);
      assert CoilSum(cs) / 2 == rest && CoilSum(cs) % 2 == cs[0];
    }
  }

  lemma {:induction false} ZeroBits(k: nat)
    ensures BitOf(0, k) == 0
  {
    if k > 0 { ZeroBits(k - 1); }
  }

  lemma {:induction false} BitIsZeroOne(b: nat, k: nat)
    ensures BitOf(b, k) <= 1
    decreases k
  {
    if k > 0 { BitIsZeroOne(b / 2, k - 1); }
  }

  lemma Pow2Small(n: nat)
    requires n <= 8
    ensures Pow2(n) <= 256
  {
    assert Pow2(4) == 16;
    if n <= 4 {} else { assert Pow2(n) == 2 * Pow2(n - 1); }
  }

  /** Every bit of the packed bytes: the coils in order, then zero padding. */
  lemma PackedBits(values: seq<byte>, j: nat)
    requires |values| >= 1 && ZeroOne(values) && j < 8 * ByteCount(|values|)
    ensures BitOf(PackCoils(values)[j / 8], j % 8) == if j < |values| then values[j] else 0
  {
    hide BitOf, CoilSum, Pow2;
    var i, k := j / 8, j % 8;
    GroupOf(values, i, k);
    var cs := CoilGroup(values, i);
    CoilSumBits(cs, k);
    Pow2Monotone(|cs|);
    assert PackCoils(values)[i] == CoilSum(cs);
  }

  lemma GroupOf(values: seq<byte>, i: nat, k: nat)
    requires |values| >= 1 && i < ByteCount(|values|) && k < 8
    ensures 8 * i <= |values|
    ensures var cs := CoilGroup(values, i);
            && (k < |cs| <==> 8 * i + k < |values|)
            && (k < |cs| ==> cs[k] == values[8 * i + k])
            && (ZeroOne(values) ==> ZeroOne(cs))
  {}

  lemma {:induction false} Pow2Monotone(n: nat)
    requires n <= 8
    ensures Pow2(n) <= Pow2(8) == 256
  {
    Pow2Small(n);
    assert Pow2(8) == 2 * Pow2(7) == 4 * Pow2(6) == 8 * Pow2(5) == 16 * Pow2(4);
    assert Pow2(4) == 16;
  }

  /** Unpacking restores the list exactly when it consists of zeros and ones. */
  lemma UnpackRestoresIff(values: seq<byte>)
    requires |values| >= 1
    ensures UnpackCoils(PackCoils(values), |values|) == values <==> ZeroOne(values)
  {
    var v := PackCoils(values);
    var u := UnpackCoils(v, |values|);
    forall k | 0 <= k < |values| ensures u[k] <= 1 && (ZeroOne(values) ==> u[k] == values[k]) {
      BitIsZeroOne(v[k / 8], k % 8);
      if ZeroOne(values) { PackedBits(values, k); }
    }
  }

  /** Coil `k`, or 0 past the end. */
  function CoilAt(values: seq<byte>, k: nat): byte { if k < |values| then values[k] else 0 }

  /** Each packed byte, for coils of any value, is the sum of its eight coils weighted with 1 to 128,
      modulo 256; there are exactly as many bytes as the coils need. */
  lemma PackedByte(values: seq<byte>, i: nat)
    requires |values| >= 1
    ensures 8 * (|PackCoils(values)| - 1) < |values| <= 8 * |PackCoils(values)|
    ensures i < |PackCoils(values)| ==>
              PackCoils(values)[i] ==
              (CoilAt(values, 8 * i) as int + 2 * CoilAt(values, 8 * i + 1) as int + 4 * CoilAt(values, 8 * i + 2) as int
               + 8 * CoilAt(values, 8 * i + 3) as int + 16 * CoilAt(values, 8 * i + 4) as int
               + 32 * CoilAt(values, 8 * i + 5) as int + 64 * CoilAt(values, 8 * i + 6) as int
               + 128 * CoilAt(values, 8 * i + 7) as int) % 0x100
  {
    hide CoilSum;
    if i < ByteCount(|values|) {
      var cs := CoilGroup(values, i);
      assert forall k: nat :: k < 8 ==> CoilAt(cs, k) == CoilAt(values, 8 * i + k);
      CoilSumUnrolled(cs);
    }
  }

  lemma CoilSumUnrolled(cs: seq<byte>)
    requires |cs| <= 8
    ensures CoilSum(cs) ==
            CoilAt(cs, 0) as int + 2 * CoilAt(cs, 1) as int + 4 * CoilAt(cs, 2) as int + 8 * CoilAt(cs, 3) as int
            + 16 * CoilAt(cs, 4) as int + 32 * CoilAt(cs, 5) as int + 64 * CoilAt(cs, 6) as int + 128 * CoilAt(cs, 7) as int
  {
    hide CoilSum, CoilAt;
    CoilSumStep(cs, 0);
    CoilSumStep(cs, 1);
    CoilSumStep(cs, 2);
    CoilSumStep(cs, 3);
    CoilSumStep(cs, 4);
    CoilSumStep(cs, 5);
    CoilSumStep(cs, 6);
    CoilSumStep(cs, 7);
    assert cs[CoilEnd(cs, 0)..] == cs && cs[CoilEnd(cs, 8)..] == [];
    CoilSumNone();
  }

  function CoilEnd(cs: seq<byte>, k: nat): (n: nat)
    ensures n <= |cs|
  {
    if k <= |cs| then k else |cs|
  }

  lemma CoilSumStep(cs: seq<byte>, k: nat)
    ensures CoilSum(cs[CoilEnd(cs, k)..]) == CoilAt(cs, k) + 2 * CoilSum(cs[CoilEnd(cs, k + 1)..])
  {
    if k < |cs| { assert cs[k..][1..] == cs[k + 1..]; } else { assert cs[|cs|..] == []; }
  }

  lemma CoilSumNone()
    ensures CoilSum([]) == 0
  {}

  /** The documented quantities, 1 to 1968, need at most 246 bytes, so the count fits a byte. */
  lemma CoilCountFits(quantity: nat)
    requires 1 <= quantity <= 1968
    ensures ByteCount(quantity) <= 246 && ToByte(ByteCount(quantity)) == ByteCount(quantity)
    ensures 8 * (ByteCount(quantity) - 1) < quantity <= 8 * ByteCount(quantity)
  {}

  /** The nested loops of `write_multiple_coils`, with the 8-bit accumulator. */
  method Pack(values: seq<byte>) returns (v: array<byte>)
    requires 1 <= |values|
    ensures fresh(v) && v[..] == PackCoils(values)
  {
    v := new byte[ByteCount(|values|)](_ => 0);
    var i := 0;
    while i < v.Length
      invariant 0 <= i <= v.Length
      invariant forall k :: 0 <= k < i ==> v[k] == PackCoils(values)[k]
    {
      var start := i * 8;
      var sentinel := if (i + 1) * 8 <= |values| then (i + 1) * 8 else |values|;
      var coils := values[start..sentinel];
      assert coils == CoilGroup(values, i);
      var pack := PackByte(coils);
      v[i] := pack;
      i := i + 1;
    }
  }

  /** The inner loop: `pack += coil << c` in eight bits. */
  method PackByte(coils: seq<byte>) returns (pack: byte)
    ensures pack == ToByte(CoilSum(coils))
  {
    pack := 0;
    var c: nat, weight: nat := 0, 1;
    while c < |coils|
      invariant 0 <= c <= |coils| && weight == Pow2(c)
      invariant pack == ToByte(CoilSum(coils[..c]))
    {
      CoilSumSnoc(coils[..c], coils[c]);
      assert coils[..c] + [coils[c]] == coils[..c + 1];
      var addend: nat := weight * coils[c];
      AddInByte(CoilSum(coils[..c]), addend);
      pack := ToByte(pack as int + addend);
      c, weight := c + 1, 2 * weight;
    }
    assert coils[..|coils|] == coils;
  }

  lemma AddInByte(a: nat, b: nat)
    ensures ToByte(ToByte(a) + b) == ToByte(a + b)
  {}
}
