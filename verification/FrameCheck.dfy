/** The frame check sequence of gprs_llc.c and what it detects: every error confined to 24
    consecutive bits of a frame, at any alignment and whether it touches the sequence
    itself or not. */
module FrameCheck {
  import opened Bytes
  import opened Crc24Table
  import opened Crc24

  // ---- short bit strings as numbers ----

  function Iter(n: nat, x: bv32): bv32
  {
    if n == 0 then x else Iter(n - 1, BitStep(x))
  }

  function Double(x: bv32): bv32
  {
    x << 1
  }

  /** The number whose binary digits, lowest first, are the given bits. */
  function Word(bits: seq<bool>): bv32
    decreases bits
  {
    if bits == [] then 0 else Xor(BitIn(bits[0]), Double(Word(bits[1..])))
  }

  /** x has at most n binary digits. */
  predicate Below(x: bv32, n: nat)
    requires n <= 24
  {
    x < (1 as bv32) << n
  }

  lemma BelowStep(b: bool, y: bv32, n: nat)
    requires n < 24 && Below(y, n)
    ensures Below(Xor(BitIn(b), Double(y)), n + 1)
  {
  }

  lemma BelowWider(y: bv32, n: nat)
    requires n <= 24 && Below(y, n)
    ensures Below(y, 24)
  {
  }

  /** Feeding in a number shifted up by one is feeding it in one step later. */
  lemma BitStepDouble(x: bv32, y: bv32)
    requires Below(y, 24)
    ensures BitStep(Xor(x, Double(y))) == Xor(BitStep(x), y)
  {
    hide *;
    BitStepXor(x, Double(y));
    HalfDouble(y);
  }

  lemma HalfDouble(y: bv32)
    requires Below(y, 24)
    ensures BitStep(Double(y)) == y
  {
  }

  lemma DoubleZero(b: bool, y: bv32)
    requires Below(y, 24)
    ensures Xor(BitIn(b), Double(y)) == 0 ==> !b && y == 0
  {
  }

  lemma {:induction false} WordBelow(bits: seq<bool>)
    requires |bits| <= 24
    ensures Below(Word(bits), |bits|) && Below(Word(bits), 24)
    decreases bits
  {
    if bits == [] {
      BelowZero();
    } else {
      hide Xor, Double, Below;
      WordBelow(bits[1..]);
      BelowStep(bits[0], Word(bits[1..]), |bits| - 1);
      BelowWider(Word(bits), |bits|);
    }
  }

  lemma BelowZero()
    ensures Below(0, 0) && Below(0, 24)
  {
  }

  /** A string with a bit set is not the number zero. */
  lemma {:induction false} WordNonZero(bits: seq<bool>)
    requires |bits| <= 24 && true in bits
    ensures Word(bits) != 0
    decreases bits
  {
    hide Xor, Double, Below;
    WordBelow(bits[1..]);
    DoubleZero(bits[0], Word(bits[1..]));
    if !bits[0] {
      WordNonZero(bits[1..]);
    }
  }

  /** Feeding up to 24 bits one at a time is adding them all first. */
  lemma {:induction false} WordFirst(s: bv32, bits: seq<bool>)
    requires |bits| <= 24
    ensures BitCrc(s, bits) == Iter(|bits|, Xor(s, Word(bits)))
    decreases bits
  {
    hide BitStep, Xor, Double, Below, BitIn;
    if bits == [] {
      XorZero(s);
    } else {
      var b, y := BitIn(bits[0]), Word(bits[1..]);
      WordBelow(bits[1..]);
      WordFirst(BitStep(Xor(s, b)), bits[1..]);
      BitStepDouble(Xor(s, b), y);
      XorAssoc(s, b, Double(y));
    }
  }

  lemma IterByte(x: bv32)
    ensures Iter(8, x) == ByteStep(x)
  {
    hide BitStep;
    var x4 := BitStep(BitStep(BitStep(BitStep(x))));
    assert Iter(8, x) == Iter(7, BitStep(x)) == Iter(6, BitStep(BitStep(x)))
        == Iter(5, BitStep(BitStep(BitStep(x)))) == Iter(4, x4);
    assert Iter(4, x4) == Iter(3, BitStep(x4)) == Iter(2, BitStep(BitStep(x4)))
        == Iter(1, BitStep(BitStep(BitStep(x4)))) == Iter(0, BitStep(BitStep(BitStep(BitStep(x4)))));
  }

  lemma {:induction false} WordOfLowBits(x: bv32, n: nat)
    requires n <= 24 && Below(x, n)
    ensures Word(LowBits(x, n)) == x
  {
    if n == 0 {
      NothingBelow(x);
    } else {
      hide Xor, Double, BitIn, Below, Half;
      HalfBelow(x, n);
      WordOfLowBits(Half(x), n - 1);
      assert LowBits(x, n)[1..] == LowBits(Half(x), n - 1);
      LowestBit(x);
    }
  }

  lemma NothingBelow(x: bv32)
    requires Below(x, 0)
    ensures x == 0
  {
  }

  lemma HalfBelow(x: bv32, n: nat)
    requires 0 < n <= 24 && Below(x, n)
    ensures Below(Half(x), n - 1)
  {
  }

  lemma LowestBit(x: bv32)
    ensures Xor(BitIn(LowBit(x)), Double(Half(x))) == x
  {
  }

  lemma ByteBelow(b: byte)
    ensures Below(b as bv32, 8)
  {
  }

  lemma WordOfByte(b: byte)
    ensures Word(ByteBits(b)) == b as bv32
  {
    hide Word, LowBits, Below;
    ByteBelow(b);
    WordOfLowBits(b as bv32, 8);
  }

  // ---- bytes and bits ----

  lemma {:induction false} BitCrcConcat(s: bv32, a: seq<bool>, b: seq<bool>)
    ensures BitCrc(s, a + b) == BitCrc(BitCrc(s, a), b)
    decreases a
  {
    hide BitStep, Xor;
    if a == [] {
      assert a + b == b;
    } else {
      assert (a + b)[1..] == a[1..] + b;
      BitCrcConcat(BitStep(Xor(s, BitIn(a[0]))), a[1..], b);
    }
  }

  lemma StepIsBits(s: bv32, b: byte)
    ensures Step(s, b) == BitCrc(s, ByteBits(b))
  {
    hide *;
    StepIsByteStep(s, b);
    WordFirst(s, ByteBits(b));
    WordOfByte(b);
    IterByte(Xor(s, b as bv32));
  }

  /** The table-driven CRC is bit-by-bit division of the buffer, for every buffer and every
      starting value. */
  lemma {:induction false} CrcIsDivision(s: bv32, data: seq<byte>)
    ensures Crc(s, data) == BitCrc(s, BitsOf(data))
    decreases data
  {
    hide Step, BitStep, Xor, ByteBits;
    if data != [] {
      StepIsBits(s, data[0]);
      BitCrcConcat(s, ByteBits(data[0]), BitsOf(data[1..]));
      CrcIsDivision(Step(s, data[0]), data[1..]);
    }
  }

  // ---- linearity ----

  function XorBits(a: seq<bool>, b: seq<bool>): (r: seq<bool>)
    requires |a| == |b|
    ensures |r| == |a|
  {
    seq(|a|, i requires 0 <= i < |a| => a[i] != b[i])
  }

  lemma XorBit(a: bool, b: bool)
    ensures BitIn(a != b) == Xor(BitIn(a), BitIn(b))
  {
  }

  /** The remainder of a difference is the difference of the remainders. */
  lemma {:induction false} BitCrcLinear(s: bv32, t: bv32, a: seq<bool>, b: seq<bool>)
    requires |a| == |b|
    ensures BitCrc(Xor(s, t), XorBits(a, b)) == Xor(BitCrc(s, a), BitCrc(t, b))
    decreases a
  {
    hide BitStep, Xor, BitIn;
    if a != [] {
      var x, y := BitIn(a[0]), BitIn(b[0]);
      assert XorBits(a, b)[1..] == XorBits(a[1..], b[1..]);
      XorBit(a[0], b[0]);
      XorSwap(s, t, x, y);
      BitStepXor(Xor(s, x), Xor(t, y));
      BitCrcLinear(BitStep(Xor(s, x)), BitStep(Xor(t, y)), a[1..], b[1..]);
    }
  }

  // ---- no information is lost ----

  lemma BitStepKeeps(x: bv32)
    requires Below(x, 24)
    ensures Below(BitStep(x), 24)
    ensures x != 0 ==> BitStep(x) != 0
  {
  }

  lemma {:induction false} IterKeeps(n: nat, x: bv32)
    requires Below(x, 24)
    ensures Below(Iter(n, x), 24)
    ensures x != 0 ==> Iter(n, x) != 0
  {
    hide BitStep, Below;
    if n > 0 {
      BitStepKeeps(x);
      IterKeeps(n - 1, BitStep(x));
    }
  }

  lemma {:induction false} ZeroBits(s: bv32, bits: seq<bool>)
    requires true !in bits
    ensures BitCrc(s, bits) == Iter(|bits|, s)
    decreases bits
  {
    hide BitStep, Xor;
    if bits != [] {
      XorZero(s);
      ZeroBits(BitStep(s), bits[1..]);
    }
  }

  lemma {:induction false} IterZero(n: nat)
    ensures Iter(n, 0) == 0
  {
    if n > 0 {
      IterZero(n - 1);
    }
  }

  /** The bits are all clear outside positions k .. k+23. */
  predicate WithinWindow(d: seq<bool>, k: nat)
  {
    forall i :: 0 <= i < |d| && d[i] ==> k <= i < k + 24
  }

  /** A non-zero difference confined to 24 consecutive bits leaves a non-zero remainder. */
  lemma BurstRemainder(d: seq<bool>, k: nat)
    requires WithinWindow(d, k) && true in d
    ensures BitCrc(0, d) != 0
  {
    var before, window, after := CutWindow(d, k);
    hide *;
    BitCrcConcat(0, before, window + after);
    ZeroBits(0, before);
    IterZero(|before|);
    BitCrcConcat(0, window, after);
    WordFirst(0, window);
    WordNonZero(window);
    WordBelow(window);
    XorZero(Word(window));
    IterKeeps(|window|, Word(window));
    ZeroBits(Iter(|window|, Word(window)), after);
    IterKeeps(|after|, Iter(|window|, Word(window)));
  }

  lemma CutWindow(d: seq<bool>, k: nat) returns (before: seq<bool>, window: seq<bool>, after: seq<bool>)
    requires WithinWindow(d, k) && true in d
    ensures d == before + (window + after)
    ensures true !in before && true !in after && true in window && |window| <= 24
  {
    var i :| 0 <= i < |d| && d[i];
    var end := if k + 24 <= |d| then k + 24 else |d|;
    before, window, after := d[..k], d[k..end], d[end..];
    assert window[i - k];
  }

  // ---- buffers that differ in a burst ----

  /** The buffers differ, and only within 24 consecutive bits. */
  predicate Burst(a: seq<byte>, b: seq<byte>, k: nat)
  {
    && |a| == |b| && a != b
    && (forall i :: 0 <= i < 8 * |a| && BitsOf(a)[i] != BitsOf(b)[i] ==> k <= i < k + 24)
  }

  lemma ByteBitsInjective(x: byte, y: byte)
    requires ByteBits(x) == ByteBits(y)
    ensures x == y
  {
    hide ByteBits, Word;
    WordOfByte(x);
    WordOfByte(y);
  }

  /** Different buffers have a different bit somewhere. */
  lemma {:induction false} SomeBitDiffers(a: seq<byte>, b: seq<byte>) returns (i: nat)
    requires |a| == |b| && a != b
    ensures i < 8 * |a| && BitsOf(a)[i] != BitsOf(b)[i]
    decreases a
  {
    hide ByteBits;
    assert a == [a[0]] + a[1..] && b == [b[0]] + b[1..];
    if a[0] == b[0] {
      var j := SomeBitDiffers(a[1..], b[1..]);
      i := j + 8;
    } else {
      var x, y := ByteBits(a[0]), ByteBits(b[0]);
      if x == y {
        ByteBitsInjective(a[0], b[0]);
      }
      i :| i < 8 && x[i] != y[i];
    }
  }

  /** Computing over buffers that differ in a burst always ends in different registers. */
  lemma BurstChangesCrc(s: bv32, a: seq<byte>, b: seq<byte>, k: nat)
    requires Burst(a, b, k)
    ensures Crc(s, a) != Crc(s, b)
  {
    var p, q := BitsOf(a), BitsOf(b);
    var d := XorBits(p, q);
    var i := SomeBitDiffers(a, b);
    assert d[i];
    assert WithinWindow(d, k);
    hide *;
    BitCrcLinear(s, s, p, q);
    XorZero(s);
    BurstRemainder(d, k);
    CrcIsDivision(s, a);
    CrcIsDivision(s, b);
    XorEqual(Crc(s, a), Crc(s, b));
  }

  // ---- the frame check sequence ----

  /** gprs_llc_fcs */
  function Fcs(data: seq<byte>): bv32
  {
    Low24(Complement(Crc(INIT_CRC24, data)))
  }

  function Complement(x: bv32): bv32
  {
    x ^ 0xffff_ffff
  }

  function Low24(x: bv32): bv32
  {
    x & 0xff_ffff
  }

  /** The three bytes in which a frame carries its sequence, lowest first. */
  function FcsBytes(fcs: bv32): (r: seq<byte>)
    ensures |r| == 3
  {
    [(fcs & 0xff) as byte, ((fcs >> 8) & 0xff) as byte, ((fcs >> 16) & 0xff) as byte]
  }

  /** The sequence as the receiver reads it from the last three bytes of a frame. */
  function ReadFcs(f: seq<byte>): bv32
    requires |f| >= 3
  {
    (f[|f|-3] as bv32) | ((f[|f|-2] as bv32) << 8) | ((f[|f|-1] as bv32) << 16)
  }

  /** The check in gprs_llc_rcvmsg, for a sequence that covers the first n bytes. */
  predicate FcsCovers(f: seq<byte>, n: nat)
    requires 3 <= |f| && n <= |f|
  {
    ReadFcs(f) == Fcs(f[..n])
  }

  predicate FcsOk(f: seq<byte>)
  {
    |f| >= 3 && FcsCovers(f, |f| - 3)
  }

  lemma FcsBytesRead(fcs: bv32, f: seq<byte>)
    requires |f| >= 3 && f[|f|-3..] == FcsBytes(fcs) && Below(fcs, 24)
    ensures ReadFcs(f) == fcs
  {
    var t := f[|f|-3..];
    assert f[|f|-3] == t[0] && f[|f|-2] == t[1] && f[|f|-1] == t[2];
    hide Below;
    ThreeBytes(fcs);
  }

  lemma ThreeBytes(fcs: bv32)
    requires Below(fcs, 24)
    ensures ((fcs & 0xff) as byte as bv32) | (((fcs >> 8) & 0xff) as byte as bv32 << 8)
              | (((fcs >> 16) & 0xff) as byte as bv32 << 16) == fcs
  {
  }

  lemma Low24Below(x: bv32)
    ensures Below(Low24(x), 24)
  {
  }

  /** A frame that ends in its own sequence passes the check. */
  lemma AppendedFcsOk(data: seq<byte>)
    ensures FcsOk(data + FcsBytes(Fcs(data)))
  {
    var f := data + FcsBytes(Fcs(data));
    assert f[|f|-3..] == FcsBytes(Fcs(data));
    assert f[..|f|-3] == data;
    Low24Below(Complement(Crc(INIT_CRC24, data)));
    hide FcsBytes, Crc, Low24, Complement, ReadFcs, Below;
    FcsBytesRead(Fcs(data), f);
  }

  // ---- the register stays within 24 bits ----

  lemma XorBelow(x: bv32, y: bv32)
    requires Below(x, 24) && Below(y, 24)
    ensures Below(Xor(x, y), 24)
  {
  }

  lemma BitBelow(b: bool)
    ensures Below(BitIn(b), 24)
  {
  }

  lemma {:induction false} BitCrcBelow(s: bv32, bits: seq<bool>)
    requires Below(s, 24)
    ensures Below(BitCrc(s, bits), 24)
    decreases bits
  {
    hide BitStep, Xor, BitIn, Below;
    if bits != [] {
      BitBelow(bits[0]);
      XorBelow(s, BitIn(bits[0]));
      BitStepKeeps(Xor(s, BitIn(bits[0])));
      BitCrcBelow(BitStep(Xor(s, BitIn(bits[0]))), bits[1..]);
    }
  }

  lemma CrcBelow(data: seq<byte>)
    ensures Below(Crc(INIT_CRC24, data), 24)
  {
    InitBelow();
    hide *;
    CrcIsDivision(INIT_CRC24, data);
    BitCrcBelow(INIT_CRC24, BitsOf(data));
  }

  lemma InitBelow()
    ensures Below(INIT_CRC24, 24)
  {
  }

  lemma {:induction false} IterInjective(n: nat, x: bv32, y: bv32)
    requires Below(x, 24) && Below(y, 24) && Iter(n, x) == Iter(n, y)
    ensures x == y
  {
    hide BitStep, Xor, Below;
    if n > 0 {
      BitStepKeeps(x);
      BitStepKeeps(y);
      IterInjective(n - 1, BitStep(x), BitStep(y));
      BitStepXor(x, y);
      XorBelow(x, y);
      BitStepKeeps(Xor(x, y));
      XorEqual(BitStep(x), BitStep(y));
      XorEqual(x, y);
    }
  }

  // ---- the whole frame ----

  /** y with n zero digits put below it. */
  function Up(y: bv32, n: nat): bv32
  {
    if n == 0 then y else Double(Up(y, n - 1))
  }

  lemma DoubleXor(x: bv32, y: bv32)
    ensures Double(Xor(x, y)) == Xor(Double(x), Double(y))
  {
  }

  lemma {:induction false} WordAfter(x: bv32, n: nat, rest: seq<bool>)
    requires n <= 24 && Below(x, n)
    ensures Word(LowBits(x, n) + rest) == Xor(x, Up(Word(rest), n))
  {
    if n == 0 {
      NothingBelow(x);
      XorZero(Word(rest));
      assert LowBits(x, n) + rest == rest;
    } else {
      hide Xor, Double, BitIn, Below, Half, LowBit;
      HalfBelow(x, n);
      WordAfter(Half(x), n - 1, rest);
      LowBitsFirst(x, n, rest);
      hide *;
      var up := Up(Word(rest), n - 1);
      UpNext(Word(rest), n);
      DoubleXor(Half(x), up);
      XorAssoc(BitIn(LowBit(x)), Double(Half(x)), Double(up));
      LowestBit(x);
    }
  }

  lemma LowBitsFirst(x: bv32, n: nat, rest: seq<bool>)
    requires n > 0
    ensures Word(LowBits(x, n) + rest) == Xor(BitIn(LowBit(x)), Double(Word(LowBits(Half(x), n - 1) + rest)))
  {
    hide Xor, Double, BitIn, Half, LowBit;
    var all := LowBits(x, n) + rest;
    assert all[1..] == LowBits(Half(x), n - 1) + rest;
    assert all[0] == LowBit(x);
  }

  lemma UpNext(y: bv32, n: nat)
    requires n > 0
    ensures Up(y, n) == Double(Up(y, n - 1))
  {
  }

  lemma UpEight(y: bv32)
    ensures Up(y, 8) == y << 8
  {
    EightDoubles(y);
    hide Double;
    var y4 := Double(Double(Double(Double(y))));
    assert Up(y, 1) == Double(y);
    assert Up(y, 2) == Double(Double(y));
    assert Up(y, 3) == Double(Double(Double(y)));
    assert Up(y, 4) == y4;
    assert Up(y, 5) == Double(y4);
    assert Up(y, 6) == Double(Double(y4));
    assert Up(y, 7) == Double(Double(Double(y4)));
  }

  lemma EightDoubles(y: bv32)
    ensures Double(Double(Double(Double(Double(Double(Double(Double(y)))))))) == y << 8
  {
  }

  lemma WordOfThree(t: seq<byte>)
    requires |t| == 3
    ensures Word(BitsOf(t)) == ReadFcs(t)
  {
    var b0, b1, b2 := t[0], t[1], t[2];
    assert t[1..][1..] == [b2];
    assert BitsOf(t[1..][1..][1..]) == [];
    assert BitsOf([b2]) == ByteBits(b2);
    assert BitsOf(t[1..]) == ByteBits(b1) + ByteBits(b2);
    assert BitsOf(t) == ByteBits(b0) + (ByteBits(b1) + ByteBits(b2));
    hide Below, Word, LowBits, Up, BitsOf, ReadFcs, Xor;
    ByteBelow(b0);
    ByteBelow(b1);
    WordAfter(b0 as bv32, 8, ByteBits(b1) + ByteBits(b2));
    WordAfter(b1 as bv32, 8, ByteBits(b2));
    WordOfByte(b2);
    ReadAsWord(t, b0, b1, b2);
  }

  lemma ReadAsWord(t: seq<byte>, b0: byte, b1: byte, b2: byte)
    requires t == [b0, b1, b2]
    ensures ReadFcs(t) == Xor(b0 as bv32, Up(Xor(b1 as bv32, Up(b2 as bv32, 8)), 8))
  {
    UpEight(b2 as bv32);
    UpEight(Xor(b1 as bv32, Up(b2 as bv32, 8)));
    hide Up;
  }

  /** The register after a whole good frame, the same for every one. */
  function Residue(): bv32
  {
    Iter(24, INIT_CRC24)
  }

  /** A frame passes the check exactly if the CRC over all of it, sequence included, is the
      one fixed residue. */
  lemma FcsOkIsResidue(f: seq<byte>)
    requires |f| >= 3
    ensures FcsOk(f) <==> Crc(INIT_CRC24, f) == Residue()
  {
    var data := f[..|f|-3];
    FcsOkUnfold(f, data);
    hide *;
    var s, r := Crc(INIT_CRC24, data), ReadFcs(f);
    ResidueUnfold();
    WholeFrame(f, data, s, r);
    CrcBelow(data);
    InitBelow();
    ComplementIsXor(s);
    XorBelow(s, r);
    SequenceMatches(s, r);
    if Crc(INIT_CRC24, f) == Residue() {
      IterInjective(24, Xor(s, r), INIT_CRC24);
    }
  }

  lemma FcsOkUnfold(f: seq<byte>, data: seq<byte>)
    requires |f| >= 3 && data == f[..|f|-3]
    ensures FcsOk(f) <==> ReadFcs(f) == Low24(Complement(Crc(INIT_CRC24, data)))
  {
    hide ReadFcs, Crc, Low24, Complement;
  }

  lemma ResidueUnfold()
    ensures Residue() == Iter(24, INIT_CRC24)
  {
    hide Iter;
  }

  lemma WholeFrame(f: seq<byte>, data: seq<byte>, s: bv32, r: bv32)
    requires |f| >= 3 && data == f[..|f|-3] && s == Crc(INIT_CRC24, data) && r == ReadFcs(f)
    ensures Crc(INIT_CRC24, f) == Iter(24, Xor(s, r)) && Below(r, 24)
  {
    var t := f[|f|-3..];
    assert f == data + t;
    TailFcs(f, t);
    hide *;
    CrcConcat(INIT_CRC24, data, t);
    CrcIsDivision(s, t);
    WordFirst(s, BitsOf(t));
    WordOfThree(t);
    WordBelow(BitsOf(t));
  }

  lemma TailFcs(f: seq<byte>, t: seq<byte>)
    requires |f| >= 3 && t == f[|f|-3..]
    ensures ReadFcs(f) == ReadFcs(t)
  {
  }

  lemma ComplementIsXor(s: bv32)
    requires Below(s, 24)
    ensures Low24(Complement(s)) == Xor(s, INIT_CRC24)
  {
  }

  lemma SequenceMatches(s: bv32, r: bv32)
    ensures r == Xor(s, INIT_CRC24) <==> Xor(s, r) == INIT_CRC24
  {
    hide Xor;
    XorAssoc(s, s, INIT_CRC24);
    XorAssoc(s, s, r);
    XorZero(s);
    XorZero(r);
    XorZero(INIT_CRC24);
  }

  /** Any error confined to 24 consecutive bits of a good frame makes it a bad one. */
  lemma BurstDetected(f: seq<byte>, g: seq<byte>, k: nat)
    requires FcsOk(f) && Burst(f, g, k)
    ensures !FcsOk(g)
  {
    hide Crc, BitsOf, Residue, FcsCovers;
    FcsOkIsResidue(f);
    FcsOkIsResidue(g);
    BurstChangesCrc(INIT_CRC24, f, g, k);
  }

  /** Two payloads that differ in a burst have different sequences. */
  lemma BurstChangesFcs(a: seq<byte>, b: seq<byte>, k: nat)
    requires Burst(a, b, k)
    ensures Fcs(a) != Fcs(b)
  {
    BurstChangesCrc(INIT_CRC24, a, b, k);
    CrcBelow(a);
    CrcBelow(b);
    var x, y := Crc(INIT_CRC24, a), Crc(INIT_CRC24, b);
    hide Crc, Below, Low24, Complement, Burst, Xor;
    ComplementIsXor(x);
    ComplementIsXor(y);
    if Fcs(a) == Fcs(b) {
      XorAssoc(x, INIT_CRC24, INIT_CRC24);
      XorAssoc(y, INIT_CRC24, INIT_CRC24);
      XorZero(INIT_CRC24);
      XorZero(x);
      XorZero(y);
    }
  }

  /** Buffers that differ, and only within three consecutive bytes, differ in a burst. */
  lemma ThreeBytesAreBurst(a: seq<byte>, b: seq<byte>, p: nat)
    requires |a| == |b| && a != b
    requires forall i :: 0 <= i < |a| && a[i] != b[i] ==> p <= i < p + 3
    ensures Burst(a, b, 8 * p)
  {
    hide BitsOf;
    forall i | 0 <= i < 8 * |a| && BitsOf(a)[i] != BitsOf(b)[i] ensures 8 * p <= i < 8 * p + 24 {
      var m, q := i / 8, i % 8;
      BitsOfAt(a, m, q);
      BitsOfAt(b, m, q);
      assert i == 8 * m + q;
    }
  }

  /** 24 bits is as far as detection goes: this pattern, 25 bits long, is the generator
      itself, and adding it to a buffer changes nothing. */
  lemma LongerBurstMissed(s: bv32)
    ensures Crc(s, [0xbb, 0x0b, 0x5b, 0x01]) == Crc(s, [0, 0, 0, 0])
  {
    var a, z: seq<byte> := [0xbb, 0x0b, 0x5b, 0x01], [0, 0, 0, 0];
    PatternVanishes();
    var p, q := BitsOf(a), BitsOf(z);
    hide *;
    assert |a| == 4 && |z| == 4;
    BitCrcLinear(s, s, p, q);
    BitCrcLinear(0, 0, p, q);
    XorZero(s);
    XorZero(0);
    CrcIsDivision(s, a);
    CrcIsDivision(s, z);
    CrcIsDivision(0, a);
    CrcIsDivision(0, z);
    XorEqual(Crc(0, a), Crc(0, z));
    XorEqual(Crc(s, a), Crc(s, z));
  }

  lemma PatternVanishes()
    ensures Crc(0, [0xbb, 0x0b, 0x5b, 0x01]) == 0
    ensures Crc(0, [0, 0, 0, 0]) == 0
  {
    var a: seq<byte> := [0xbb, 0x0b, 0x5b, 0x01];
    assert a[1..] == [0x0b, 0x5b, 0x01] && a[2..] == [0x5b, 0x01] && a[3..] == [0x01];
    var z: seq<byte> := [0, 0, 0, 0];
    assert z[1..] == [0, 0, 0] && z[2..] == [0, 0] && z[3..] == [0];
    PatternSteps();
    hide Step;
    assert Crc(0, [0]) == 0 && Crc(0, [0, 0]) == 0;
  }

  lemma PatternSteps()
    ensures Step(0, 0xbb) == 0x1_5b0b && Step(0x1_5b0b, 0x0b) == 0x15b
    ensures Step(0x15b, 0x5b) == 1 && Step(1, 0x01) == 0 && Step(0, 0) == 0
  {
    StepFrom(0, 0xbb);
    StepFrom(0x1_5b0b, 0x0b);
    StepFrom(0x15b, 0x5b);
    StepFrom(0x1, 0x01);
    StepFrom(0, 0);
    hide Step;
  }

  lemma StepFrom(s: bv32, b: byte)
    ensures Step(s, b) == ByteStep(s ^ (b as bv32))
  {
    hide Step, ByteStep;
    StepIsByteStep(s, b);
  }
}
