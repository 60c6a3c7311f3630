/** The 32-bit masks in which gprs_sndcp.c keeps the set of segments it has and compares it
    with the set it needs. Segment numbers have four bits. */
module SegmentMask {

  function Bit(i: nat): bv32
    requires i < 16
  {
    (1 as bv32) << i
  }

  function Or(a: bv32, b: bv32): bv32
  {
    a | b
  }

  function And(a: bv32, b: bv32): bv32
  {
    a & b
  }

  predicate Has(m: bv32, i: nat)
    requires i < 16
  {
    And(m, Bit(i)) != 0
  }

  /** No bit above the sixteen segment numbers. */
  predicate Narrow(m: bv32)
  {
    m < 0x1_0000
  }

  /** seg_needed: the bits of segments 0 .. highest. */
  function Needed(highest: nat): bv32
    requires highest < 16
  {
    if highest == 0 then Bit(0) else Or(Needed(highest - 1), Bit(highest))
  }

  lemma EmptyHas(i: nat)
    requires i < 16
    ensures !Has(0, i) && Narrow(0)
  {
  }

  lemma AndOr(a: bv32, b: bv32, c: bv32)
    ensures And(Or(a, b), c) == Or(And(a, c), And(b, c))
  {
  }

  lemma OrZero(a: bv32, b: bv32)
    ensures Or(a, b) == 0 <==> a == 0 && b == 0
  {
  }

  lemma BitsApart(j: nat, i: nat)
    requires i < 16 && j < 16
    ensures And(Bit(j), Bit(i)) == 0 <==> i != j
  {
  }

  lemma OrHas(m: bv32, j: nat, i: nat)
    requires i < 16 && j < 16
    ensures Has(Or(m, Bit(j)), i) <==> Has(m, i) || i == j
  {
    hide And, Or, Bit;
    AndOr(m, Bit(j), Bit(i));
    BitsApart(j, i);
    OrZero(And(m, Bit(i)), And(Bit(j), Bit(i)));
  }

  lemma OrNarrow(m: bv32, j: nat)
    requires j < 16 && Narrow(m)
    ensures Narrow(Or(m, Bit(j)))
  {
  }

  lemma OneHas(j: nat, i: nat)
    requires i < 16 && j < 16
    ensures Has(Bit(j), i) <==> i == j
    ensures Narrow(Bit(j))
  {
    BitsApart(j, i);
  }

  lemma {:induction false} NeededHas(highest: nat, i: nat)
    requires highest < 16 && i < 16
    ensures Has(Needed(highest), i) <==> i <= highest
    ensures Narrow(Needed(highest))
  {
    hide Has, Or, Bit, Narrow;
    if highest == 0 {
      OneHas(0, i);
    } else {
      NeededHas(highest - 1, i);
      OrHas(Needed(highest - 1), highest, i);
      OrNarrow(Needed(highest - 1), highest);
    }
  }

  /** One bit of a mask is either clear or set. */
  lemma OneBit(m: bv32, i: nat)
    requires i < 16
    ensures And(m, Bit(i)) == 0 || And(m, Bit(i)) == Bit(i)
  {
    match i
    case 0 => assert Bit(0) == 1;
    case 1 => assert Bit(1) == 2;
    case 2 => assert Bit(2) == 4;
    case 3 => assert Bit(3) == 8;
    case 4 => assert Bit(4) == 0x10;
    case 5 => assert Bit(5) == 0x20;
    case 6 => assert Bit(6) == 0x40;
    case 7 => assert Bit(7) == 0x80;
    case 8 => assert Bit(8) == 0x100;
    case 9 => assert Bit(9) == 0x200;
    case 10 => assert Bit(10) == 0x400;
    case 11 => assert Bit(11) == 0x800;
    case 12 => assert Bit(12) == 0x1000;
    case 13 => assert Bit(13) == 0x2000;
    case 14 => assert Bit(14) == 0x4000;
    case _ => assert Bit(15) == 0x8000;
  }

  /** The part of a mask that concerns segments 0 .. n-1. */
  function Part(m: bv32, n: nat): bv32
    requires n <= 16
  {
    if n == 0 then 0 else Or(Part(m, n - 1), And(m, Bit(n - 1)))
  }

  lemma {:induction false} SamePart(x: bv32, y: bv32, n: nat)
    requires n <= 16 && forall i: nat :: i < n ==> (Has(x, i) <==> Has(y, i))
    ensures Part(x, n) == Part(y, n)
  {
    hide And, Or, Bit;
    if n > 0 {
      SamePart(x, y, n - 1);
      OneBit(x, n - 1);
      OneBit(y, n - 1);
      assert Has(x, n - 1) <==> Has(y, n - 1);
    }
  }

  /** The mask of segments 0 .. n-1. */
  function Lows(n: nat): bv32
    requires n <= 16
  {
    ((1 as bv32) << n) - 1
  }

  lemma LowsNext(n: nat)
    requires 0 < n <= 16
    ensures Lows(n) == Or(Lows(n - 1), Bit(n - 1))
  {
  }

  lemma AndComm(a: bv32, b: bv32)
    ensures And(a, b) == And(b, a)
  {
  }

  function Below(m: bv32, n: nat): bv32
    requires n <= 16
  {
    And(Lows(n), m)
  }

  lemma BelowNext(m: bv32, n: nat)
    requires 0 < n <= 16
    ensures Below(m, n) == Or(Below(m, n - 1), And(m, Bit(n - 1)))
  {
    hide And, Or, Lows, Bit;
    LowsNext(n);
    AndOr(Lows(n - 1), Bit(n - 1), m);
    AndComm(m, Bit(n - 1));
  }

  lemma BelowEnds(m: bv32)
    ensures Below(m, 0) == 0
    ensures Narrow(m) ==> Below(m, 16) == m
  {
  }

  lemma {:induction false} PartIsBelow(m: bv32, n: nat)
    requires n <= 16
    ensures Part(m, n) == Below(m, n)
  {
    hide And, Or, Bit, Below;
    if n == 0 {
      BelowEnds(m);
    } else {
      PartIsBelow(m, n - 1);
      BelowNext(m, n);
    }
  }

  /** Masks with the same segments are equal. */
  lemma SameMask(x: bv32, y: bv32)
    requires Narrow(x) && Narrow(y)
    requires forall i: nat :: i < 16 ==> (Has(x, i) <==> Has(y, i))
    ensures x == y
  {
    hide Part, Below, Has;
    SamePart(x, y, 16);
    PartIsBelow(x, 16);
    PartIsBelow(y, 16);
    BelowEnds(x);
    BelowEnds(y);
  }
}
