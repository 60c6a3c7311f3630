/** The CRC-24 of crc24.c: the table-driven form, bit-by-bit division, and why the two are
    the same. */
module Crc24 {
  import opened Bytes
  import opened Crc24Table

  const INIT_CRC24: bv32 := 0xffffff

  // ---- exclusive or ----

  /** Exclusive or, named so that proofs can use its laws without looking at bits. */
  function Xor(a: bv32, b: bv32): bv32
  {
    a ^ b
  }

  lemma XorComm(a: bv32, b: bv32)
    ensures Xor(a, b) == Xor(b, a)
  {
  }

  lemma XorAssoc(a: bv32, b: bv32, c: bv32)
    ensures Xor(Xor(a, b), c) == Xor(a, Xor(b, c))
  {
  }

  lemma XorSwap(a: bv32, b: bv32, c: bv32, d: bv32)
    ensures Xor(Xor(a, b), Xor(c, d)) == Xor(Xor(a, c), Xor(b, d))
  {
    hide Xor;
    XorAssoc(a, b, Xor(c, d));
    XorAssoc(b, c, d);
    XorComm(b, c);
    XorAssoc(c, b, d);
    XorAssoc(a, c, Xor(b, d));
  }

  lemma XorZero(a: bv32)
    ensures Xor(a, 0) == a && Xor(0, a) == a && Xor(a, a) == 0
  {
  }

  lemma XorEqual(a: bv32, b: bv32)
    ensures Xor(a, b) == 0 <==> a == b
  {
    hide Xor;
    XorAssoc(a, b, b);
    XorZero(a);
    XorZero(b);
  }

  // ---- the table-driven form ----

  function Index(fcs: bv32, b: byte): bv8
  {
    ((fcs ^ (b as bv32)) & 0xff) as bv8
  }

  function Upper(x: bv32): bv32
  {
    x >> 8
  }

  function Step(fcs: bv32, b: byte): bv32
  {
    Xor(Upper(fcs), TblCrc24(Index(fcs, b)))
  }

  function Crc(fcs: bv32, data: seq<byte>): bv32
    decreases data
  {
    if data == [] then fcs else Crc(Step(fcs, data[0]), data[1..])
  }

  /** crc24_calc */
  method Crc24Calc(fcs0: bv32, cp: seq<byte>, len0: nat) returns (fcs: bv32)
    requires len0 <= |cp|
    ensures fcs == Crc(fcs0, cp[..len0])
  {
    fcs := fcs0;
    var len, i := len0, 0;
    while len > 0
      invariant i + len == len0
      invariant Crc(fcs, cp[i..len0]) == Crc(fcs0, cp[..len0])
    {
      hide Index, TblCrc24, Xor, Upper;
      len := len - 1;
      assert cp[i..len0][1..] == cp[i + 1..len0];
      fcs := Xor(Upper(fcs), TblCrc24(Index(fcs, cp[i])));
      i := i + 1;
    }
  }

  /** Computing over a concatenation is computing over its parts one after the other. */
  lemma {:induction false} CrcConcat(fcs: bv32, a: seq<byte>, b: seq<byte>)
    ensures Crc(fcs, a + b) == Crc(Crc(fcs, a), b)
    decreases a
  {
    hide Step;
    if a == [] {
      assert a + b == b;
    } else {
      assert (a + b)[1..] == a[1..] + b;
      CrcConcat(Step(fcs, a[0]), a[1..], b);
    }
  }

  // ---- the bitwise form ----

  function BitIn(b: bool): bv32
  {
    if b then 1 else 0
  }

  /** Reflected division of a bit stream, one bit at a time. */
  function BitCrc(s: bv32, bits: seq<bool>): bv32
    decreases bits
  {
    if bits == [] then s else BitCrc(BitStep(Xor(s, BitIn(bits[0]))), bits[1..])
  }

  function Half(x: bv32): bv32
  {
    x >> 1
  }

  predicate LowBit(x: bv32)
  {
    x & 1 == 1
  }

  /** The n lowest bits of x, least significant one first. */
  function LowBits(x: bv32, n: nat): (r: seq<bool>)
    ensures |r| == n
  {
    if n == 0 then [] else [LowBit(x)] + LowBits(Half(x), n - 1)
  }

  function ByteBits(b: byte): (r: seq<bool>)
    ensures |r| == 8
  {
    LowBits(b as bv32, 8)
  }

  /** The bits of a buffer in transmission order. */
  function BitsOf(data: seq<byte>): (r: seq<bool>)
    ensures |r| == 8 * |data|
  {
    if data == [] then [] else ByteBits(data[0]) + BitsOf(data[1..])
  }

  lemma {:induction false} BitsOfAt(data: seq<byte>, p: nat, q: nat)
    requires p < |data| && q < 8
    ensures BitsOf(data)[8 * p + q] == ByteBits(data[p])[q]
  {
    hide ByteBits;
    if p > 0 {
      BitsOfAt(data[1..], p - 1, q);
    }
  }

  // ---- division is linear ----

  function Feedback(s: bv32): bv32
  {
    if s & 1 == 1 then POLY else 0
  }

  lemma BitStepParts(s: bv32)
    ensures BitStep(s) == Xor(Half(s), Feedback(s))
  {
  }

  lemma HalfXor(x: bv32, y: bv32)
    ensures Half(Xor(x, y)) == Xor(Half(x), Half(y))
  {
  }

  lemma FeedbackXor(x: bv32, y: bv32)
    ensures Feedback(Xor(x, y)) == Xor(Feedback(x), Feedback(y))
  {
    assert (x ^ y) & 1 == (x & 1) ^ (y & 1);
    assert x & 1 == 0 || x & 1 == 1;
    assert y & 1 == 0 || y & 1 == 1;
  }

  lemma BitStepXor(x: bv32, y: bv32)
    ensures BitStep(Xor(x, y)) == Xor(BitStep(x), BitStep(y))
  {
    hide *;
    BitStepParts(x);
    BitStepParts(y);
    BitStepParts(Xor(x, y));
    HalfXor(x, y);
    FeedbackXor(x, y);
    XorSwap(Half(x), Half(y), Feedback(x), Feedback(y));
  }

  lemma ByteStepXor(x: bv32, y: bv32)
    ensures ByteStep(Xor(x, y)) == Xor(ByteStep(x), ByteStep(y))
  {
    hide Xor, BitStep;
    BitStepXor(x, y);
    var x1, y1 := BitStep(x), BitStep(y);
    BitStepXor(x1, y1);
    var x2, y2 := BitStep(x1), BitStep(y1);
    BitStepXor(x2, y2);
    var x3, y3 := BitStep(x2), BitStep(y2);
    BitStepXor(x3, y3);
    var x4, y4 := BitStep(x3), BitStep(y3);
    BitStepXor(x4, y4);
    var x5, y5 := BitStep(x4), BitStep(y4);
    BitStepXor(x5, y5);
    var x6, y6 := BitStep(x5), BitStep(y5);
    BitStepXor(x6, y6);
    BitStepXor(BitStep(x6), BitStep(y6));
  }

  // ---- a table step is eight steps of division ----

  /** The table-driven step is eight bitwise steps. */
  lemma StepIsByteStep(s: bv32, b: byte)
    ensures Step(s, b) == ByteStep(Xor(s, b as bv32))
  {
    hide *;
    var x, i := Xor(s, b as bv32), Index(s, b);
    StepParts(s, b);
    TableIsDivision(i);
    IndexIsLow(s, b);
    LowAndHigh(x);
    UpperKept(s, b);
    HighBytes(x, HighPart(x));
    ByteStepXor(HighPart(x), i as bv32);
  }

  function HighPart(x: bv32): bv32
  {
    x & 0xffff_ff00
  }

  function LowPart(x: bv32): bv32
  {
    x & 0xff
  }

  lemma IndexIsLow(s: bv32, b: byte)
    ensures Index(s, b) as bv32 == LowPart(Xor(s, b as bv32))
  {
  }

  lemma LowAndHigh(x: bv32)
    ensures x == Xor(HighPart(x), LowPart(x))
  {
  }

  lemma UpperKept(s: bv32, b: byte)
    ensures Upper(Xor(s, b as bv32)) == Upper(s)
  {
  }

  lemma StepParts(s: bv32, b: byte)
    ensures Step(s, b) == Xor(Upper(s), TblCrc24(Index(s, b)))
  {
    hide Index, TblCrc24, Xor, Upper;
  }

  lemma HighBytes(x: bv32, high: bv32)
    requires high == HighPart(x)
    ensures ByteStep(high) == Upper(x)
  {
  }
}
