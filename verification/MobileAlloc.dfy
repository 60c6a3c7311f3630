/** The Mobile Allocation of bsc_init.c: a bit for each carrier of the cell that says whether
    a timeslot hops over it, written from the last bit backwards. */
module MobileAlloc {

  const ARFCNS := 1024

  /** The room of ma_data, in bits. */
  const MA_BITS := 64

  /** The carriers 1 .. i-1 that are set, in ascending order. */
  function Carriers(cell: seq<bool>, i: nat): (r: seq<nat>)
    requires i <= |cell|
    ensures |r| <= i && forall k :: 0 <= k < |r| ==> 0 < r[k] < i && cell[r[k]]
  {
    if i <= 1 then []
    else Carriers(cell, i - 1) + (if cell[i - 1] then [i - 1] else [])
  }

  /** The list is the set of carriers, each once and in ascending order. */
  lemma {:induction false} CarriersAre(cell: seq<bool>, i: nat)
    requires i <= |cell|
    ensures forall a: nat :: a in Carriers(cell, i) <==> 0 < a < i && cell[a]
    ensures forall j, k :: 0 <= j < k < |Carriers(cell, i)| ==> Carriers(cell, i)[j] < Carriers(cell, i)[k]
  {
    if i > 1 {
      CarriersAre(cell, i - 1);
    }
  }

  /** Octets needed for n bits. */
  function Octets(n: nat): (len: nat)
    ensures 8 * len - 7 <= n <= 8 * len || n == len == 0
  {
    n / 8 + if n % 8 != 0 then 1 else 0
  }

  /** A cell whose carriers above 0 all have a bit. */
  predicate IsCell(cell: seq<bool>)
  {
    |cell| == ARFCNS && |Carriers(cell, ARFCNS)| <= MA_BITS
  }

  /** The order of the bits: ascending, with carrier 0 last. */
  function BitOrder(cell: seq<bool>): seq<nat>
    requires |cell| == ARFCNS
  {
    Carriers(cell, ARFCNS) + (if cell[0] then [0] else [])
  }

  /** Bit n of a Mobile Allocation of len octets, counted from its last bit backwards; there is
      none beyond the first. */
  function BitAt(ma: seq<bool>, len: nat, n: nat): bool
    requires 8 * len <= |ma|
  {
    n < 8 * len && ma[8 * len - 1 - n]
  }

  /** What a mobile makes of it: the carriers whose bits are set. */
  predicate Hops(ma: seq<bool>, len: nat, cell: seq<bool>, a: nat)
    requires 8 * len <= |ma| && |cell| == ARFCNS
  {
    exists n :: 0 <= n < |BitOrder(cell)| && BitOrder(cell)[n] == a && BitAt(ma, len, n)
  }

  /** No bit beyond the carriers is set. */
  predicate PaddingClear(ma: seq<bool>, len: nat, cell: seq<bool>)
    requires 8 * len <= |ma| && |cell| == ARFCNS
  {
    forall n :: |BitOrder(cell)| <= n < 8 * len ==> !BitAt(ma, len, n)
  }

  /** The bits as the program leaves them: carrier number n of the list is written n places
      before the last bit, and carrier 0 one place further on than the next. */
  predicate Written(ma: seq<bool>, cell: seq<bool>, hop: seq<bool>)
    requires |ma| == MA_BITS && |cell| == |hop| == ARFCNS
  {
    var list := Carriers(cell, ARFCNS);
    var last := 8 * Octets(|list|) - 1;
    forall b :: 0 <= b < MA_BITS ==>
      (ma[b] <==>
        || (last - |list| < b <= last && hop[list[last - b]])
        || (b == last - |list| - 1 && cell[0] && hop[0]))
  }

  // ---- the program ----

  class Timeslot {
    var enabled: bool
    var arfcns: seq<bool>
    const ma: array<bool>
    var maLen: nat

    ghost predicate Valid()
      reads this
    {
      |arfcns| == ARFCNS && ma.Length == MA_BITS
    }

    constructor (enabled: bool, arfcns: seq<bool>)
      requires |arfcns| == ARFCNS
      ensures Valid() && fresh(ma) && this.enabled == enabled && this.arfcns == arfcns && maLen == 0
    {
      this.enabled, this.arfcns, maLen := enabled, arfcns, 0;
      ma := new bool[MA_BITS];
    }

    /** bitvec_set_bit_pos: a place outside the data is an error that nobody looks at. */
    method SetBit(bitnum: int, bit: bool)
      requires Valid()
      modifies ma
      ensures forall b :: 0 <= b < MA_BITS ==> ma[b] == if b == bitnum then bit else old(ma[b])
    {
      if 0 <= bitnum < ma.Length {
        ma[bitnum] := bit;
      }
    }

    /** generate_ma_for_ts */
    method GenerateMa(cell: seq<bool>)
      requires Valid() && |cell| == ARFCNS
      modifies this`maLen, ma
      ensures Valid()
      ensures !enabled ==> maLen == 0 && forall b :: 0 <= b < MA_BITS ==> !ma[b]
      ensures enabled ==> maLen == Octets(|Carriers(cell, ARFCNS)|) && Written(ma[..], cell, arfcns)
    {
      maLen := 0;
      var b := 0;
      while b < ma.Length
        invariant 0 <= b <= ma.Length && maLen == 0
        invariant forall k :: 0 <= k < b ==> !ma[k]
      {
        ma[b] := false;
        b := b + 1;
      }
      if !enabled {
        return;
      }

      var numCellArfcns := 0;
      var i := 1;
      while i < ARFCNS
        invariant 1 <= i <= ARFCNS && numCellArfcns == |Carriers(cell, i)|
      {
        if cell[i] {
          numCellArfcns := numCellArfcns + 1;
        }
        i := i + 1;
      }
      maLen := numCellArfcns / 8;
      if numCellArfcns % 8 != 0 {
        maLen := maLen + 1;
      }

      var nChan := WriteBits(cell);

      if cell[0] {
        nChan := nChan + 1;
        var bitnum := 8 * maLen - 1 - nChan;
        SetBit(bitnum, arfcns[0]);
      }
    }

    /** The loop of generate_ma_for_ts over the cell's carriers. */
    method WriteBits(cell: seq<bool>) returns (nChan: nat)
      requires Valid() && |cell| == ARFCNS && maLen == Octets(|Carriers(cell, ARFCNS)|)
      requires forall b :: 0 <= b < MA_BITS ==> !ma[b]
      modifies ma
      ensures nChan == |Carriers(cell, ARFCNS)|
      ensures var list := Carriers(cell, ARFCNS);
              var last := 8 * maLen - 1;
              forall b :: 0 <= b < MA_BITS ==> (ma[b] <==> last - |list| < b <= last && arfcns[list[last - b]])
    {
      nChan := 0;
      var i := 1;
      while i < ARFCNS
        invariant 1 <= i <= ARFCNS && nChan == |Carriers(cell, i)| <= |Carriers(cell, ARFCNS)|
        invariant var list := Carriers(cell, i);
                  var last := 8 * maLen - 1;
                  forall b :: 0 <= b < MA_BITS ==> (ma[b] <==> last - nChan < b <= last && arfcns[list[last - b]])
      {
        CarriersGrow(cell, i + 1);
        if cell[i] {
          var bitnum := 8 * maLen - 1 - nChan;
          SetBit(bitnum, arfcns[i]);
          nChan := nChan + 1;
        }
        i := i + 1;
      }
    }
  }

  lemma {:induction false} CarriersGrow(cell: seq<bool>, i: nat)
    requires i <= |cell|
    ensures |Carriers(cell, i)| <= |Carriers(cell, |cell|)|
    decreases |cell| - i
  {
    if i < |cell| {
      CarriersGrow(cell, i + 1);
    }
  }

  // ---- what a mobile reads ----

  /** Bit n of the result. */
  lemma WrittenBit(ma: seq<bool>, cell: seq<bool>, hop: seq<bool>, n: nat)
    requires |ma| == MA_BITS && IsCell(cell) && |hop| == ARFCNS && Written(ma, cell, hop)
    ensures var list := Carriers(cell, ARFCNS);
            var len := Octets(|list|);
            && 8 * len <= MA_BITS
            && (BitAt(ma, len, n) <==>
                  || (n < |list| && hop[list[n]])
                  || (n == |list| + 1 < 8 * len && cell[0] && hop[0]))
  {
    var list := Carriers(cell, ARFCNS);
    var len := Octets(|list|);
    hide Octets, Carriers;
    if n < 8 * len {
      var b := 8 * len - 1 - n;
      assert ma[b] <==> (8 * len - 1 - |list| < b <= 8 * len - 1 && hop[list[8 * len - 1 - b]])
                        || (b == 8 * len - 1 - |list| - 1 && cell[0] && hop[0]);
    }
  }

  /** The round trip: reading the Mobile Allocation along the cell allocation gives back
      exactly the carriers of the cell that the timeslot hops over, if and only if carrier 0
      is not one of them. */
  lemma ReadBackIff(ma: seq<bool>, cell: seq<bool>, hop: seq<bool>)
    requires |ma| == MA_BITS && IsCell(cell) && |hop| == ARFCNS && Written(ma, cell, hop)
    ensures var len := Octets(|Carriers(cell, ARFCNS)|);
            8 * len <= MA_BITS &&
            ((forall a: nat :: a < ARFCNS ==> (Hops(ma, len, cell, a) <==> cell[a] && hop[a])) <==> !(cell[0] && hop[0]))
  {
    WrittenBit(ma, cell, hop, 0);
    forall a: nat | a < ARFCNS
      ensures Hops(ma, Octets(|Carriers(cell, ARFCNS)|), cell, a) <==> a > 0 && cell[a] && hop[a]
    {
      ReadsCarrier(ma, cell, hop, a);
    }
  }

  /** Carriers above 0 are read as they should be, carrier 0 never. */
  lemma ReadsCarrier(ma: seq<bool>, cell: seq<bool>, hop: seq<bool>, a: nat)
    requires |ma| == MA_BITS && IsCell(cell) && |hop| == ARFCNS && Written(ma, cell, hop) && a < ARFCNS
    ensures var len := Octets(|Carriers(cell, ARFCNS)|);
            8 * len <= MA_BITS && (Hops(ma, len, cell, a) <==> a > 0 && cell[a] && hop[a])
  {
    WrittenBit(ma, cell, hop, 0);
    var len := Octets(|Carriers(cell, ARFCNS)|);
    hide Written, IsCell, Octets, BitAt, Carriers;
    if Hops(ma, len, cell, a) {
      var n :| 0 <= n < |BitOrder(cell)| && BitOrder(cell)[n] == a && BitAt(ma, len, n);
      WrittenBit(ma, cell, hop, n);
      InOrderIs(cell, n);
    }
    if a > 0 && cell[a] && hop[a] {
      var n := PlaceOf(cell, a);
      WrittenBit(ma, cell, hop, n);
    }
  }

  /** A place of the order before the last is one of the list's, and that holds a carrier. */
  lemma InOrderIs(cell: seq<bool>, n: nat)
    requires |cell| == ARFCNS && n < |BitOrder(cell)|
    ensures var list := Carriers(cell, ARFCNS);
            && n < |list| + 1
            && (n < |list| ==> BitOrder(cell)[n] == list[n] && list[n] > 0 && cell[list[n]])
  {
    hide Carriers;
  }

  lemma PlaceOf(cell: seq<bool>, a: nat) returns (n: nat)
    requires |cell| == ARFCNS && 0 < a < ARFCNS && cell[a]
    ensures n < |Carriers(cell, ARFCNS)| && Carriers(cell, ARFCNS)[n] == a
    ensures n < |BitOrder(cell)| && BitOrder(cell)[n] == a
  {
    CarriersAre(cell, ARFCNS);
    hide Carriers;
    var list := Carriers(cell, ARFCNS);
    assert a in list;
    n :| 0 <= n < |list| && list[n] == a;
  }

  /** A bit beyond the carriers is set exactly if carrier 0 is hopped over and two or more
      places are left in front of the others. */
  lemma PaddingIff(ma: seq<bool>, cell: seq<bool>, hop: seq<bool>)
    requires |ma| == MA_BITS && IsCell(cell) && |hop| == ARFCNS && Written(ma, cell, hop)
    ensures var count := |Carriers(cell, ARFCNS)|;
            8 * Octets(count) <= MA_BITS &&
            (PaddingClear(ma, Octets(count), cell) <==> !(cell[0] && hop[0] && 1 <= count % 8 <= 6))
  {
    var list := Carriers(cell, ARFCNS);
    var len := Octets(|list|);
    assert |list| + 1 < 8 * len <==> 1 <= |list| % 8 <= 6;
    hide Carriers, Octets, Written, BitAt, IsCell;
    WrittenBit(ma, cell, hop, |list| + 1);
    forall n: nat | n >= |BitOrder(cell)|
      ensures BitAt(ma, len, n) <==> n == |list| + 1 < 8 * len && cell[0] && hop[0]
    {
      WrittenBit(ma, cell, hop, n);
    }
  }
}
