/** How much of the W list the range encoder writes: where zero leaves lie, and how many entries
    a list for count ARFCNs needs. */
module RangeRoom {
  import opened Residues

  /** Whether a subtree for n elements writes a zero leaf at position j of its grid. */
  predicate ZeroLeaf(n: nat, j: nat)
    decreases n
  {
    if n == 0 then j == 0
    else if n == 1 || j == 0 then false
    else if j % 2 == 1 then ZeroLeaf(n - 1 - (n - 1) / 2, j / 2)
    else ZeroLeaf((n - 1) / 2, j / 2 - 1)
  }

  /** The entries that encoding count ARFCNs needs, in closed form. */
  function Room(count: nat): (r: nat)
    requires count >= 1
    ensures r >= count && r >= 2
  {
    var g := Gp2(count);
    if count == 1 then 2
    else if count == g then count
    else if 2 * (count - g) <= g then count + g / 2
    else 2 * g
  }

  lemma NextGp2(q: int)
    requires q >= 1
    ensures Gp2(2 * q) == 2 * Gp2(q) && Gp2(2 * q + 1) == 2 * Gp2(q)
    ensures Gp2(q + 1) == if q + 1 == 2 * Gp2(q) then q + 1 else Gp2(q)
  {
    var g := Gp2(q);
    if q + 1 == 2 * g {
      assert (2 * g) / 2 == g;
      Pow2Unique(Gp2(q + 1), 2 * g, q + 1);
    } else {
      Pow2Unique(Gp2(q + 1), g, q + 1);
    }
  }

  lemma Gp2Even(q: int)
    requires q >= 2
    ensures Gp2(q) % 2 == 0
  {
  }

  /** Which branch of the closed form a count takes follows from its half's. */
  lemma RoomEven(q: nat)
    requires q >= 2
    ensures Room(2 * q) == 2 * Room(q)
  {
    NextGp2(q);
    Gp2Even(q);
    hide Gp2;
  }

  lemma RoomOdd(q: nat)
    requires q >= 2
    ensures Room(2 * q + 1) == if 2 * Room(q + 1) - 1 > 2 * Room(q) then 2 * Room(q + 1) - 1 else 2 * Room(q)
  {
    NextGp2(q);
    Gp2Even(q);
    hide Gp2;
  }

  /** The sizes of the two subtrees below a set of n elements. */
  function LeftSize(n: nat): nat
    requires n >= 2
  {
    n - 1 - (n - 1) / 2
  }

  function RightSize(n: nat): nat
    requires n >= 2
  {
    (n - 1) / 2
  }

  /** The room of a tree comes from that of its subtrees, whose roots stand at the second and
      third entry. */
  lemma RoomSplit(n: nat)
    requires n >= 2
    ensures var l, r := 2 * Room(LeftSize(n) + 1) - 1, 2 * Room(RightSize(n) + 1);
            Room(n + 1) == if l > r then l else r
  {
    hide *;
    var q := (n + 1) / 2;
    Sizes(n, q);
    if n == 2 {
      SmallRooms();
    } else if n % 2 == 1 {
      RoomEven(q);
    } else {
      RoomOdd(q);
    }
  }

  lemma Sizes(n: nat, q: nat)
    requires n >= 2 && q == (n + 1) / 2
    ensures n % 2 == 1 ==> LeftSize(n) + 1 == q && RightSize(n) + 1 == q && n + 1 == 2 * q
    ensures n % 2 == 0 ==> LeftSize(n) + 1 == q + 1 && RightSize(n) + 1 == q && n + 1 == 2 * q + 1
  {
  }

  lemma SmallRooms()
    ensures Room(1) == 2 && Room(2) == 2 && Room(3) == 4
  {
    assert Gp2(1) == 1;
    assert Gp2(3) == 2 * Gp2(1);
    assert Gp2(2) == 2 * Gp2(1);
  }

  lemma ZeroLeafUnfold(n: nat, j: nat)
    ensures n == 0 ==> (ZeroLeaf(n, j) <==> j == 0)
    ensures n == 1 ==> !ZeroLeaf(n, j)
    ensures n >= 2 ==> (ZeroLeaf(n, j) <==> j > 0 && if j % 2 == 1 then ZeroLeaf(LeftSize(n), j / 2)
                                                     else ZeroLeaf(RightSize(n), j / 2 - 1))
  {
  }

  /** A zero leaf lies behind the n values of its subtree, and the list entry it falls on lies
      within the room. */
  lemma {:induction false} ZeroLeafRange(n: nat, j: nat)
    requires ZeroLeaf(n, j)
    ensures n <= j && j + 1 < Room(n + 1)
    decreases n
  {
    ZeroLeafUnfold(n, j);
    hide Room, ZeroLeaf;
    if n == 0 {
      SmallRooms();
    } else if n >= 2 {
      RoomSplit(n);
      if j % 2 == 1 {
        ZeroLeafRange(LeftSize(n), j / 2);
      } else {
        ZeroLeafRange(RightSize(n), j / 2 - 1);
      }
    }
  }

  /** The last entry of the room is written: it holds a value or a zero leaf. */
  lemma {:induction false} RoomReached(n: nat)
    ensures Room(n + 1) - 2 < n || ZeroLeaf(n, Room(n + 1) - 2)
    decreases n
  {
    hide Room, ZeroLeaf;
    if n <= 1 {
      SmallRooms();
      ZeroLeafUnfold(n, Room(n + 1) - 2);
    } else {
      RoomSplit(n);
      RoomReached(LeftSize(n));
      RoomReached(RightSize(n));
      var j := Room(n + 1) - 2;
      ZeroLeafUnfold(n, j);
      if 2 * Room(LeftSize(n) + 1) - 1 > 2 * Room(RightSize(n) + 1) {
        assert j % 2 == 1 && j / 2 == Room(LeftSize(n) + 1) - 2;
      } else {
        assert j % 2 == 0 && j > 0 && j / 2 - 1 == Room(RightSize(n) + 1) - 2;
      }
    }
  }

  ghost predicate HasZeroLeaf(n: nat)
  {
    exists j: nat :: ZeroLeaf(n, j)
  }

  /** A list has no zero leaf, and needs no entry beyond its count, exactly if its count is a
      power of two from 2 on. */
  lemma NoZeroLeafIff(count: nat)
    requires count >= 1
    ensures !HasZeroLeaf(count - 1) <==> Room(count) == count
    ensures Room(count) == count <==> count >= 2 && IsPow2(count)
  {
    hide *;
    RoomIsCount(count);
    ZeroLeafIff(count - 1);
  }

  lemma ZeroLeafIff(n: nat)
    ensures HasZeroLeaf(n) <==> Room(n + 1) > n + 1
  {
    hide Room, ZeroLeaf;
    RoomReached(n);
    if HasZeroLeaf(n) {
      var j: nat :| ZeroLeaf(n, j);
      ZeroLeafRange(n, j);
    }
  }

  lemma RoomIsCount(count: nat)
    requires count >= 1
    ensures Room(count) == count <==> count >= 2 && IsPow2(count)
  {
    if count >= 2 {
      Gp2Even(count);
      if IsPow2(count) {
        Pow2Unique(count, Gp2(count), count);
      }
    }
  }

  /** A list of thirty entries, the size the source gives it, has room exactly for up to 22
      ARFCNs. */
  lemma ThirtyEntriesIff(count: nat)
    requires count >= 1
    ensures Room(count) <= 30 <==> count <= 22
  {
    if 16 <= count < 32 {
      assert IsPow2(16) by { assert IsPow2(8) by { assert IsPow2(4); } }
      Pow2Unique(Gp2(count), 16, count);
    } else if count < 16 {
      SmallRoom(count);
    }
  }

  lemma SmallRoom(count: nat)
    requires 1 <= count < 16
    ensures Room(count) <= 16
  {
    if Gp2(count) > 8 {
      assert IsPow2(8) by { assert IsPow2(4); }
      Pow2Gap(8, Gp2(count));
    }
  }
}
