/** The encoding tree of Annex J of 3GPP TS 44.018, as a function of the residue set, and
    the decoding rule of section 10.5.2.13 that undoes it.

    A node of the tree works on residues modulo Ones(k) = 2^k - 1, so that each of its two
    half-circles has Ones(k-1) positions. */
module RangeTree {
  import opened Residues
  import opened HalfCircle

  /** 2^k - 1 */
  function Ones(k: nat): (r: nat)
    ensures k > 0 ==> r > 0
  {
    if k == 0 then 0 else 2 * Ones(k - 1) + 1
  }

  predicate IsNode(s: seq<int>, k: nat)
  {
    IsResidueSet(s, Ones(k))
  }

  lemma NodeFacts(s: seq<int>, k: nat)
    requires IsNode(s, k) && s != []
    ensures k > 0 && Ones(k) == 2 * Ones(k - 1) + 1
    ensures forall y :: y in s ==> 0 <= y < Ones(k)
  {
    assert 0 <= s[0] < Ones(k);
  }

  // ---- the pivot ----

  /** How many points, its own included, lie at most h steps clockwise from x. */
  function Near(s: seq<int>, x: int, h: nat): nat
  {
    if s == [] then 0
    else Near(s[..|s|-1], x, h) + (if Mod(s[|s|-1] - x, 2 * h + 1) <= h then 1 else 0)
  }

  lemma {:induction false} NearIsCount(s: seq<int>, x: int, h: nat)
    requires IsResidueSet(s, 2 * h + 1) && 0 <= x < 2 * h + 1
    ensures Near(s, x, h) == Count(s, x, h) + (if x in s then 1 else 0)
  {
    if s != [] {
      var y := s[|s|-1];
      PrefixIsResidueSet(s, 2 * h + 1);
      NearIsCount(s[..|s|-1], x, h);
      assert s == s[..|s|-1] + [y];
      SameResidue(y, x, 2 * h + 1);
    }
  }

  lemma SameResidue(y: int, x: int, range: int)
    requires range > 0 && 0 <= x < range && 0 <= y < range
    ensures Mod(y - x, range) == 0 <==> y == x
  {
    ModNear(y, -x, range);
  }

  predicate IsMedian(s: seq<int>, i: nat, h: nat)
    requires i < |s|
  {
    Near(s, s[i], h) - 1 == (|s| - 1) / 2
  }

  /** The first median at position i or later. */
  function FirstMedian(s: seq<int>, i: nat, h: nat): (m: nat)
    requires i <= |s|
    ensures i <= m <= |s|
    ensures m < |s| ==> IsMedian(s, m, h)
    ensures forall j :: i <= j < m ==> !IsMedian(s, j, h)
    decreases |s| - i
  {
    if i == |s| || IsMedian(s, i, h) then i else FirstMedian(s, i + 1, h)
  }

  /** The search for a median never comes back empty-handed. */
  lemma MedianFound(s: seq<int>, h: nat)
    requires IsResidueSet(s, 2 * h + 1) && s != []
    ensures FirstMedian(s, 0, h) < |s|
    ensures Count(s, s[FirstMedian(s, 0, h)], h) == (|s| - 1) / 2
  {
    var i := PivotExists(s, h);
    NearIsCount(s, s[i], h);
    assert IsMedian(s, i, h);
    NearIsCount(s, s[FirstMedian(s, 0, h)], h);
  }

  function Pivot(s: seq<int>, k: nat): (p: int)
    requires IsNode(s, k) && s != []
    ensures k > 0 && 0 <= p < Ones(k)
    ensures p in s && Count(s, p, Ones(k - 1)) == (|s| - 1) / 2
  {
    NodeFacts(s, k);
    MedianFound(s, Ones(k - 1));
    s[FirstMedian(s, 0, Ones(k - 1))]
  }

  // ---- the two half-circles ----

  /** The points less than h steps clockwise from origin, measured from origin. */
  function Half(s: seq<int>, origin: int, h: nat): (r: seq<int>)
    ensures forall i :: 0 <= i < |r| ==> 0 <= r[i] < h
  {
    if s == [] then []
    else
      var d := Mod(s[|s|-1] - origin, 2 * h + 1);
      Half(s[..|s|-1], origin, h) + (if d < h then [d] else [])
  }

  lemma {:induction false} HalfMembers(s: seq<int>, origin: int, h: nat, d: int)
    ensures d in Half(s, origin, h)
       <==> d < h && exists i :: 0 <= i < |s| && Mod(s[i] - origin, 2 * h + 1) == d
  {
    hide Mod;
    if s != [] {
      var t := s[..|s|-1];
      HalfMembers(t, origin, h, d);
      assert forall i :: 0 <= i < |t| ==> t[i] == s[i];
    }
  }

  lemma Taking(s: seq<int>, origin: int, h: nat, y: int)
    requires y in s && Mod(y - origin, 2 * h + 1) < h
    ensures Mod(y - origin, 2 * h + 1) in Half(s, origin, h)
  {
    HalfMembers(s, origin, h, Mod(y - origin, 2 * h + 1));
    var i :| 0 <= i < |s| && s[i] == y;
    assert Mod(s[i] - origin, 2 * h + 1) == Mod(y - origin, 2 * h + 1);
  }

  lemma Taken(s: seq<int>, origin: int, h: nat, d: int) returns (y: int)
    requires d in Half(s, origin, h)
    ensures y in s && Mod(y - origin, 2 * h + 1) == d
  {
    HalfMembers(s, origin, h, d);
    var i :| 0 <= i < |s| && Mod(s[i] - origin, 2 * h + 1) == d;
    y := s[i];
  }

  lemma SameDistance(a: int, b: int, origin: int, range: int)
    requires range > 0 && 0 <= a < range && 0 <= b < range
    requires Mod(a - origin, range) == Mod(b - origin, range)
    ensures a == b
  {
    ModCong(a - origin, b - origin, origin, range);
  }

  lemma NewDistance(s: seq<int>, origin: int, h: nat)
    requires IsResidueSet(s, 2 * h + 1) && s != []
    ensures Mod(s[|s|-1] - origin, 2 * h + 1) !in Half(s[..|s|-1], origin, h)
  {
    var t, y := s[..|s|-1], s[|s|-1];
    var d := Mod(y - origin, 2 * h + 1);
    if d in Half(t, origin, h) {
      var a := Taken(t, origin, h, d);
      SameDistance(a, y, origin, 2 * h + 1);
      PrefixIsResidueSet(s, 2 * h + 1);
    }
  }

  lemma {:induction false} HalfDistinct(s: seq<int>, origin: int, h: nat)
    requires IsResidueSet(s, 2 * h + 1)
    ensures IsResidueSet(Half(s, origin, h), h)
  {
    if s != [] {
      PrefixIsResidueSet(s, 2 * h + 1);
      HalfDistinct(s[..|s|-1], origin, h);
      NewDistance(s, origin, h);
    }
  }

  lemma HalfIsAhead(y: int, x: int, h: nat)
    ensures Mod(y - Mod(x + 1, 2 * h + 1), 2 * h + 1) < h <==> Ahead(y, x, h)
  {
    ModMinus(y, x + 1, 2 * h + 1);
    ModNear(y - x, -1, 2 * h + 1);
    assert y - (x + 1) == (y - x) + -1;
  }

  /** The half-circle taken from just after x holds as many points as are ahead of x. */
  lemma {:induction false} HalfSize(s: seq<int>, x: int, h: nat)
    ensures |Half(s, Mod(x + 1, 2 * h + 1), h)| == Count(s, x, h)
  {
    if s != [] {
      HalfSize(s[..|s|-1], x, h);
      HalfIsAhead(s[|s|-1], x, h);
    }
  }

  function RightOrigin(p: int, h: nat): int
  {
    Mod(p + 1, 2 * h + 1)
  }

  function LeftOrigin(p: int, h: nat): int
  {
    Mod(p + h + 1, 2 * h + 1)
  }

  /** Pivot, left and right subsets share the set out: floor((n-1)/2) points go right and
      the remaining ceil((n-1)/2) go left. */
  lemma SplitSizes(s: seq<int>, k: nat)
    requires IsNode(s, k) && s != []
    ensures k > 0
    ensures |Half(s, RightOrigin(Pivot(s, k), Ones(k - 1)), Ones(k - 1))| == (|s| - 1) / 2
    ensures |Half(s, LeftOrigin(Pivot(s, k), Ones(k - 1)), Ones(k - 1))| == |s| - 1 - (|s| - 1) / 2
  {
    hide IsResidueSet, Half, Near, FirstMedian, Count;
    NodeFacts(s, k);
    var p, h := Pivot(s, k), Ones(k - 1);
    HalfSize(s, p, h);
    HalfSize(s, p + h, h);
    CountOpposite(s, p, h);
  }

  function Left(s: seq<int>, k: nat): (r: seq<int>)
    requires IsNode(s, k) && s != []
    ensures k > 0 && IsNode(r, k - 1)
    ensures |r| == |s| - 1 - (|s| - 1) / 2
  {
    var h := (NodeFacts(s, k); Ones(k - 1));
    SplitSizes(s, k);
    HalfDistinct(s, LeftOrigin(Pivot(s, k), h), h);
    Half(s, LeftOrigin(Pivot(s, k), h), h)
  }

  function Right(s: seq<int>, k: nat): (r: seq<int>)
    requires IsNode(s, k) && s != []
    ensures k > 0 && IsNode(r, k - 1)
    ensures |r| == (|s| - 1) / 2
  {
    var h := (NodeFacts(s, k); Ones(k - 1));
    SplitSizes(s, k);
    HalfDistinct(s, RightOrigin(Pivot(s, k), h), h);
    Half(s, RightOrigin(Pivot(s, k), h), h)
  }

  // ---- the value in each slot ----

  /** The value a subtree for s puts into its j-th slot. Slot 0 is the root; odd slots are
      the left child's, even ones the right child's. */
  function Val(s: seq<int>, k: nat, j: nat): (v: int)
    requires IsNode(s, k) && j < |s|
    ensures 1 <= v <= Ones(k)
    decreases |s|
  {
    if j == 0 then 1 + Pivot(s, k)
    else if j % 2 == 1 then Val(Left(s, k), k - 1, j / 2)
    else Val(Right(s, k), k - 1, j / 2 - 1)
  }

  // ---- decoding ----

  /** One step of the decoding rule: from a value relative to a child to one relative to
      its parent, whose circle has 2*half - 1 positions. */
  function FromLeft(n: int, parent: int, half: int): int
    requires half > 0
  {
    Smod(n + parent - half, 2 * half - 1)
  }

  function FromRight(n: int, parent: int, half: int): int
    requires half > 0
  {
    Smod(n + parent, 2 * half - 1)
  }

  /** The decoding rule seen from the root of the subtree for s: what slot j stands for. */
  function Dec(s: seq<int>, k: nat, j: nat): (v: int)
    requires IsNode(s, k) && j < |s|
    decreases |s|
  {
    if j == 0 then 1 + Pivot(s, k)
    else if j % 2 == 1 then FromLeft(Dec(Left(s, k), k - 1, j / 2), 1 + Pivot(s, k), Ones(k - 1) + 1)
    else FromRight(Dec(Right(s, k), k - 1, j / 2 - 1), 1 + Pivot(s, k), Ones(k - 1) + 1)
  }

  lemma UndoRight(y: int, p: int, h: nat, d: int)
    requires 0 <= y < 2 * h + 1 && 0 <= p < 2 * h + 1
    requires d == Mod(y - RightOrigin(p, h), 2 * h + 1)
    ensures FromRight(d + 1, 1 + p, h + 1) == y + 1
  {
    ModMinus(y, p + 1, 2 * h + 1);
    ModCong(d, y - (p + 1), p + 2, 2 * h + 1);
  }

  lemma UndoLeft(y: int, p: int, h: nat, d: int)
    requires 0 <= y < 2 * h + 1 && 0 <= p < 2 * h + 1
    requires d == Mod(y - LeftOrigin(p, h), 2 * h + 1)
    ensures FromLeft(d + 1, 1 + p, h + 1) == y + 1
  {
    ModMinus(y, p + h + 1, 2 * h + 1);
    ModCong(d, y - (p + h + 1), p + 1 - h, 2 * h + 1);
    ModTurn(y - 2 * h, 2 * h + 1);
  }

  lemma Children(s: seq<int>, k: nat)
    requires IsNode(s, k) && s != []
    ensures k > 0
    ensures Left(s, k) == Half(s, LeftOrigin(Pivot(s, k), Ones(k - 1)), Ones(k - 1))
    ensures Right(s, k) == Half(s, RightOrigin(Pivot(s, k), Ones(k - 1)), Ones(k - 1))
  {
    NodeFacts(s, k);
  }

  /** A point other than the pivot went to the half-circle it lies in. */
  lemma Placed(s: seq<int>, k: nat, p: int, y: int)
    requires IsNode(s, k) && y in s && p == Pivot(s, k) && y != p
    ensures var h := Ones(k - 1);
            || Mod(y - RightOrigin(p, h), 2 * h + 1) in Right(s, k)
            || Mod(y - LeftOrigin(p, h), 2 * h + 1) in Left(s, k)
  {
    hide *;
    NodeFacts(s, k);
    Children(s, k);
    var h := Ones(k - 1);
    AheadOfPivot(y, p, h);
    if Mod(y - RightOrigin(p, h), 2 * h + 1) < h {
      Taking(s, RightOrigin(p, h), h, y);
    } else {
      Taking(s, LeftOrigin(p, h), h, y);
    }
  }

  lemma AheadOfPivot(y: int, p: int, h: nat)
    requires 0 <= y < 2 * h + 1 && 0 <= p < 2 * h + 1 && y != p
    ensures Mod(y - RightOrigin(p, h), 2 * h + 1) < h <==> !(Mod(y - LeftOrigin(p, h), 2 * h + 1) < h)
  {
    AheadOpposite(y, p, h);
    HalfIsAhead(y, p, h);
    HalfIsAhead(y, p + h, h);
  }

  lemma DecUnfold(s: seq<int>, k: nat, j: nat)
    requires IsNode(s, k) && j < |s|
    ensures j == 0 ==> Dec(s, k, j) == 1 + Pivot(s, k)
    ensures j % 2 == 1 ==>
              Dec(s, k, j) == FromLeft(Dec(Left(s, k), k - 1, j / 2), 1 + Pivot(s, k), Ones(k - 1) + 1)
    ensures j > 0 && j % 2 == 0 ==>
              Dec(s, k, j) == FromRight(Dec(Right(s, k), k - 1, j / 2 - 1), 1 + Pivot(s, k), Ones(k - 1) + 1)
  {
    hide IsResidueSet, Half, Near, FirstMedian, Mod, Smod, FromLeft, FromRight;
  }

  /** What slot j stands for follows from what its slot in the child stands for. */
  lemma DecOdd(s: seq<int>, k: nat, j: nat, y: int)
    requires IsNode(s, k) && y in s && j < |s| && j % 2 == 1
    requires Dec(Left(s, k), k - 1, j / 2) - 1 == Mod(y - LeftOrigin(Pivot(s, k), Ones(k - 1)), 2 * Ones(k - 1) + 1)
    ensures Dec(s, k, j) == y + 1
  {
    hide *;
    NodeFacts(s, k);
    DecUnfold(s, k, j);
    UndoLeft(y, Pivot(s, k), Ones(k - 1), Dec(Left(s, k), k - 1, j / 2) - 1);
  }

  lemma DecEven(s: seq<int>, k: nat, j: nat, y: int)
    requires IsNode(s, k) && y in s && 0 < j < |s| && j % 2 == 0
    requires Dec(Right(s, k), k - 1, j / 2 - 1) - 1 == Mod(y - RightOrigin(Pivot(s, k), Ones(k - 1)), 2 * Ones(k - 1) + 1)
    ensures Dec(s, k, j) == y + 1
  {
    hide *;
    NodeFacts(s, k);
    DecUnfold(s, k, j);
    UndoRight(y, Pivot(s, k), Ones(k - 1), Dec(Right(s, k), k - 1, j / 2 - 1) - 1);
  }

  /** Every element of the set is what some slot stands for. */
  lemma {:induction false} DecComplete(s: seq<int>, k: nat, y: int) returns (j: nat)
    requires IsNode(s, k) && y in s
    ensures j < |s| && Dec(s, k, j) == y + 1
    decreases |s|
  {
    hide *;
    DecUnfold(s, k, 0);
    var p := Pivot(s, k);
    if y == p {
      return 0;
    }
    Placed(s, k, p, y);
    var range := 2 * Ones(k - 1) + 1;
    var d := Mod(y - RightOrigin(p, Ones(k - 1)), range);
    if d in Right(s, k) {
      var i := DecComplete(Right(s, k), k - 1, d);
      j := 2 * i + 2;
      assert i == j / 2 - 1;
      DecEven(s, k, j, y);
    } else {
      d := Mod(y - LeftOrigin(p, Ones(k - 1)), range);
      var i := DecComplete(Left(s, k), k - 1, d);
      j := 2 * i + 1;
      assert i == j / 2;
      DecOdd(s, k, j, y);
    }
  }

  /** Every slot stands for an element of the set. */
  lemma {:induction false} DecSound(s: seq<int>, k: nat, j: nat)
    requires IsNode(s, k) && j < |s|
    ensures Dec(s, k, j) - 1 in s
    decreases |s|
  {
    hide *;
    DecUnfold(s, k, j);
    if j == 0 {
      return;
    }
    Children(s, k);
    var p := Pivot(s, k);
    if j % 2 == 1 {
      DecSound(Left(s, k), k - 1, j / 2);
      var y := Taken(s, LeftOrigin(p, Ones(k - 1)), Ones(k - 1), Dec(Left(s, k), k - 1, j / 2) - 1);
      DecOdd(s, k, j, y);
    } else {
      DecSound(Right(s, k), k - 1, j / 2 - 1);
      var y := Taken(s, RightOrigin(p, Ones(k - 1)), Ones(k - 1), Dec(Right(s, k), k - 1, j / 2 - 1) - 1);
      DecEven(s, k, j, y);
    }
  }
}
