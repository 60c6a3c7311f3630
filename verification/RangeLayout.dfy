/** Where in the W list a subtree's values go, and the decoding rule of section 10.5.2.13
    read along that layout from an entry up to the root. */
module RangeLayout {
  import opened Residues
  import opened HalfCircle
  import opened RangeTree
  import opened RangeRoom

  /** Position j on the grid that starts at i with step g: i + j*g. */
  function Slot(i: nat, g: nat, j: nat): (x: nat)
  {
    if j == 0 then i else Slot(i, g, j - 1) + g
  }

  lemma {:induction false} SlotIsProduct(i: nat, g: nat, j: nat)
    ensures Slot(i, g, j) == i + j * g
  {
    if j > 0 {
      SlotIsProduct(i, g, j - 1);
      assert j * g == (j - 1) * g + g;
    }
  }

  lemma {:induction false} SlotMono(i: nat, g: nat, a: nat, b: nat)
    requires a <= b
    ensures Slot(i, g, b) - Slot(i, g, a) >= (if g > 0 then b - a else 0)
  {
    if a < b {
      SlotMono(i, g, a, b - 1);
    }
  }

  /** Distinct positions of a grid are distinct places in the list. */
  lemma SlotInjective(i: nat, g: nat, a: nat, b: nat)
    requires g > 0 && Slot(i, g, a) == Slot(i, g, b)
    ensures a == b
  {
    if a < b { SlotMono(i, g, a, b); }
    if b < a { SlotMono(i, g, b, a); }
  }

  /** The left child takes the odd positions of its parent's grid, the right child the even
      ones. */
  lemma {:induction false} SlotChildren(i: nat, g: nat, j: nat)
    ensures Slot(i + g, 2 * g, j) == Slot(i, g, 2 * j + 1)
    ensures Slot(i + 2 * g, 2 * g, j) == Slot(i, g, 2 * j + 2)
  {
    if j > 0 {
      SlotChildren(i, g, j - 1);
    }
  }

  lemma {:induction false} SlotTop(j: nat)
    ensures Slot(1, 1, j) == 1 + j
  {
    if j > 0 {
      SlotTop(j - 1);
    }
  }

  ghost predicate OnGrid(x: int, i: nat, g: nat)
  {
    exists j: nat :: x == Slot(i, g, j)
  }

  /** What position j of the subtree's grid holds after encoding, given what it held. */
  function Cell(s: seq<int>, k: nat, j: nat, old_: int): int
    requires IsNode(s, k)
  {
    if j < |s| then Val(s, k, j) else if ZeroLeaf(|s|, j) then 0 else old_
  }

  /** w is w0 with the subtree for s encoded on the grid at i with step g, and nothing else
      changed. */
  ghost predicate Encoded(w0: seq<int>, w: seq<int>, i: nat, g: nat, s: seq<int>, k: nat)
    requires IsNode(s, k)
  {
    && |w| == |w0|
    && (forall j: nat :: Slot(i, g, j) < |w| ==> w[Slot(i, g, j)] == Cell(s, k, j, w0[Slot(i, g, j)]))
    && (forall x :: 0 <= x < |w| && !OnGrid(x, i, g) ==> w[x] == w0[x])
  }

  lemma EncodedLeaf(w0: seq<int>, i: nat, g: nat, s: seq<int>, k: nat)
    requires IsNode(s, k) && |s| <= 1 && g > 0 && i < |w0|
    ensures Encoded(w0, w0[i := if s == [] then 0 else 1 + s[0]], i, g, s, k)
  {
    var w := w0[i := if s == [] then 0 else 1 + s[0]];
    assert Slot(i, g, 0) == i;
    assert OnGrid(i, i, g);
    forall j: nat | Slot(i, g, j) < |w| ensures w[Slot(i, g, j)] == Cell(s, k, j, w0[Slot(i, g, j)]) {
      if Slot(i, g, j) == i {
        SlotInjective(i, g, 0, j);
      }
    }
  }

  lemma ChildGrid(x: int, i: nat, g: nat)
    ensures OnGrid(x, i + g, 2 * g) ==> OnGrid(x, i, g)
    ensures OnGrid(x, i + 2 * g, 2 * g) ==> OnGrid(x, i, g)
  {
    if OnGrid(x, i + g, 2 * g) {
      var j: nat :| x == Slot(i + g, 2 * g, j);
      SlotChildren(i, g, j);
    }
    if OnGrid(x, i + 2 * g, 2 * g) {
      var j: nat :| x == Slot(i + 2 * g, 2 * g, j);
      SlotChildren(i, g, j);
    }
  }

  /** The children's grids and the root do not meet. */
  lemma LeftGridIsOdd(i: nat, g: nat, j: nat)
    requires g > 0 && OnGrid(Slot(i, g, j), i + g, 2 * g)
    ensures j % 2 == 1
  {
    var m: nat :| Slot(i, g, j) == Slot(i + g, 2 * g, m);
    SlotChildren(i, g, m);
    SlotInjective(i, g, j, 2 * m + 1);
  }

  lemma RightGridIsEven(i: nat, g: nat, j: nat)
    requires g > 0 && OnGrid(Slot(i, g, j), i + 2 * g, 2 * g)
    ensures j > 0 && j % 2 == 0
  {
    var m: nat :| Slot(i, g, j) == Slot(i + 2 * g, 2 * g, m);
    SlotChildren(i, g, m);
    SlotInjective(i, g, j, 2 * m + 2);
  }

  lemma CellUnfold(s: seq<int>, k: nat, j: nat, old_: int)
    requires IsNode(s, k) && |s| >= 2
    ensures j == 0 ==> Cell(s, k, j, old_) == 1 + Pivot(s, k)
    ensures j % 2 == 1 ==> Cell(s, k, j, old_) == Cell(Left(s, k), k - 1, j / 2, old_)
    ensures j > 0 && j % 2 == 0 ==> Cell(s, k, j, old_) == Cell(Right(s, k), k - 1, j / 2 - 1, old_)
  {
    hide IsResidueSet, Half, Near, FirstMedian, Mod;
  }

  /** Writing the pivot, then the left subtree, then the right one encodes the whole set. */
  lemma EncodedNode(w0: seq<int>, w1: seq<int>, w2: seq<int>, w3: seq<int>, i: nat, g: nat, s: seq<int>, k: nat)
    requires IsNode(s, k) && |s| >= 2 && g > 0 && i < |w0|
    requires w1 == w0[i := 1 + Pivot(s, k)]
    requires Encoded(w1, w2, i + g, 2 * g, Left(s, k), k - 1)
    requires Encoded(w2, w3, i + 2 * g, 2 * g, Right(s, k), k - 1)
    ensures Encoded(w0, w3, i, g, s, k)
  {
    forall j: nat | Slot(i, g, j) < |w3| ensures w3[Slot(i, g, j)] == Cell(s, k, j, w0[Slot(i, g, j)]) {
      EncodedSlot(w0, w1, w2, w3, i, g, s, k, j);
    }
    forall x | 0 <= x < |w3| && !OnGrid(x, i, g) ensures w3[x] == w0[x] {
      assert Slot(i, g, 0) == i;
      ChildGrid(x, i, g);
    }
  }

  lemma EncodedSlot(w0: seq<int>, w1: seq<int>, w2: seq<int>, w3: seq<int>, i: nat, g: nat, s: seq<int>, k: nat, j: nat)
    requires IsNode(s, k) && |s| >= 2 && g > 0 && i < |w0|
    requires w1 == w0[i := 1 + Pivot(s, k)]
    requires Encoded(w1, w2, i + g, 2 * g, Left(s, k), k - 1)
    requires Encoded(w2, w3, i + 2 * g, 2 * g, Right(s, k), k - 1)
    requires Slot(i, g, j) < |w3|
    ensures w3[Slot(i, g, j)] == Cell(s, k, j, w0[Slot(i, g, j)])
  {
    hide IsNode, Cell, Left, Right, Pivot, OnGrid;
    CellUnfold(s, k, j, w0[Slot(i, g, j)]);
    ChildSlot(i, g, j);
  }

  /** Position j of a grid, seen from the two children's grids. */
  lemma ChildSlot(i: nat, g: nat, j: nat)
    requires g > 0
    ensures var x := Slot(i, g, j);
            && (j == 0 <==> x == i)
            && (j % 2 == 1 ==> x == Slot(i + g, 2 * g, j / 2))
            && (j > 0 && j % 2 == 0 ==> x == Slot(i + 2 * g, 2 * g, j / 2 - 1))
            && (j % 2 == 0 ==> !OnGrid(x, i + g, 2 * g))
            && (j == 0 || j % 2 == 1 ==> !OnGrid(x, i + 2 * g, 2 * g))
  {
    SlotMono(i, g, 0, j);
    if j % 2 == 1 {
      SlotChildren(i, g, j / 2);
    } else if j > 0 {
      SlotChildren(i, g, j / 2 - 1);
    }
    if OnGrid(Slot(i, g, j), i + g, 2 * g) {
      LeftGridIsOdd(i, g, j);
    }
    if OnGrid(Slot(i, g, j), i + 2 * g, 2 * g) {
      RightGridIsEven(i, g, j);
    }
  }

  // ---- decoding ----

  /** range / j, for powers of two. */
  function HalfRange(range: nat, j: nat): nat
  {
    if j <= 1 then range else HalfRange(range, j / 2) / 2
  }

  lemma {:induction false} HalfRangeIsQuotient(range: nat, j: nat)
    requires IsPow2(range) && IsPow2(j) && j <= range
    ensures HalfRange(range, j) * j == range && IsPow2(HalfRange(range, j))
  {
    if j > 1 {
      HalfRangeIsQuotient(range, j / 2);
      var h := HalfRange(range, j / 2);
      assert h != 1;
      assert (h / 2) * j == h * (j / 2);
    }
  }

  /** The decoding rule for one list entry, from the entry up to the root: n is its value
      relative to the subtree at index, j the greatest power of two that is at most index. */
  function DecodeUp(w: seq<int>, range: nat, index: nat, j: nat, n: int): int
    requires 1 <= j <= index < 2 * j && IsPow2(j) && index < |w| && HalfRange(range, j) > 0
    decreases index
  {
    if index == 1 then n
    else if 2 * index < 3 * j then
      var parent := index - j / 2;
      DecodeUp(w, range, parent, j / 2, FromLeft(n, w[parent], HalfRange(range, j)))
    else
      var parent := index - j;
      DecodeUp(w, range, parent, j / 2, FromRight(n, w[parent], HalfRange(range, j)))
  }

  /** The list holds the values of the subtree for s on the grid at i with step g. */
  ghost predicate Holds(w: seq<int>, i: nat, g: nat, s: seq<int>, k: nat)
    requires IsNode(s, k)
  {
    forall m: nat :: m < |s| ==> Slot(i, g, m) < |w| && w[Slot(i, g, m)] == Val(s, k, m)
  }

  lemma ValUnfold(s: seq<int>, k: nat, j: nat)
    requires IsNode(s, k) && j < |s|
    ensures j == 0 ==> Val(s, k, j) == 1 + Pivot(s, k)
    ensures j % 2 == 1 ==> Val(s, k, j) == Val(Left(s, k), k - 1, j / 2)
    ensures j > 0 && j % 2 == 0 ==> Val(s, k, j) == Val(Right(s, k), k - 1, j / 2 - 1)
  {
    hide IsResidueSet, Half, Near, FirstMedian, Mod;
  }

  lemma HoldsLeft(w: seq<int>, i: nat, g: nat, s: seq<int>, k: nat, c: nat, step: nat)
    requires IsNode(s, k) && s != [] && Holds(w, i, g, s, k)
    requires c == i + g && step == 2 * g
    ensures Holds(w, c, step, Left(s, k), k - 1)
  {
    hide IsNode, Val, Left, Right, Pivot;
    var t := Left(s, k);
    forall m: nat | m < |t| ensures Slot(c, step, m) < |w| && w[Slot(c, step, m)] == Val(t, k - 1, m) {
      SlotChildren(i, g, m);
      ValUnfold(s, k, 2 * m + 1);
      assert (2 * m + 1) / 2 == m;
    }
  }

  lemma HoldsRight(w: seq<int>, i: nat, g: nat, s: seq<int>, k: nat, c: nat, step: nat)
    requires IsNode(s, k) && s != [] && Holds(w, i, g, s, k)
    requires c == i + 2 * g && step == 2 * g
    ensures Holds(w, c, step, Right(s, k), k - 1)
  {
    hide IsNode, Val, Left, Right, Pivot;
    var t := Right(s, k);
    forall m: nat | m < |t| ensures Slot(c, step, m) < |w| && w[Slot(c, step, m)] == Val(t, k - 1, m) {
      SlotChildren(i, g, m);
      ValUnfold(s, k, 2 * m + 2);
      assert (2 * m + 2) / 2 - 1 == m;
    }
  }

  /** One step of the decoding rule, from a child in place c to its parent in place i. */
  lemma UpOne(w: seq<int>, range: nat, i: nat, g: nat, c: nat, n: int, half: nat)
    requires IsPow2(g) && g <= i < 2 * g && c < |w|
    requires c == i + g || c == i + 2 * g
    requires half > 0 && HalfRange(range, 2 * g) == half && HalfRange(range, g) > 0
    ensures IsPow2(2 * g) && 2 * g <= c < 4 * g
    ensures c == i + g ==>
              DecodeUp(w, range, c, 2 * g, n) == DecodeUp(w, range, i, g, FromLeft(n, w[i], half))
    ensures c == i + 2 * g ==>
              DecodeUp(w, range, c, 2 * g, n) == DecodeUp(w, range, i, g, FromRight(n, w[i], half))
  {
    hide FromLeft, FromRight;
    assert (2 * g) / 2 == g;
  }

  /** A place x of the list, with everything the walk from it up to the root needs. */
  ghost predicate InPlace(w: seq<int>, range: nat, i: nat, g: nat, s: seq<int>, k: nat, j: nat, x: nat)
    requires IsNode(s, k)
  {
    && j < |s| && Holds(w, i, g, s, k) && i < |w|
    && IsPow2(g) && g <= i < 2 * g && HalfRange(range, g) == Ones(k) + 1
    && x == Slot(i, g, j) && 1 <= x < |w| && HalfRange(range, Gp2(x)) > 0
  }

  lemma InPlaceLeft(w: seq<int>, range: nat, i: nat, g: nat, s: seq<int>, k: nat, j: nat, x: nat)
    requires IsNode(s, k) && InPlace(w, range, i, g, s, k, j, x) && j % 2 == 1
    ensures k > 0 && InPlace(w, range, i + g, 2 * g, Left(s, k), k - 1, j / 2, x)
  {
    hide IsNode, Val, Left, Right, Pivot;
    NodeFacts(s, k);
    assert (2 * g) / 2 == g;
    SlotChildren(i, g, j / 2);
    SlotMono(i + g, 2 * g, 0, j / 2);
    HoldsLeft(w, i, g, s, k, i + g, 2 * g);
    hide Holds;
  }

  lemma InPlaceRight(w: seq<int>, range: nat, i: nat, g: nat, s: seq<int>, k: nat, j: nat, x: nat)
    requires IsNode(s, k) && InPlace(w, range, i, g, s, k, j, x) && j > 0 && j % 2 == 0
    ensures k > 0 && InPlace(w, range, i + 2 * g, 2 * g, Right(s, k), k - 1, j / 2 - 1, x)
  {
    hide IsNode, Val, Left, Right, Pivot;
    NodeFacts(s, k);
    assert (2 * g) / 2 == g;
    SlotChildren(i, g, j / 2 - 1);
    SlotMono(i + 2 * g, 2 * g, 0, j / 2 - 1);
    HoldsRight(w, i, g, s, k, i + 2 * g, 2 * g);
    hide Holds;
  }

  lemma InPlaceRoot(w: seq<int>, range: nat, i: nat, g: nat, s: seq<int>, k: nat, j: nat, x: nat)
    requires IsNode(s, k) && InPlace(w, range, i, g, s, k, j, x)
    ensures k > 0 && w[i] == 1 + Pivot(s, k)
    ensures j == 0 ==> x == i && Gp2(x) == g
    ensures j > 0 ==> HalfRange(range, 2 * g) == Ones(k - 1) + 1
  {
    hide IsNode, Left, Right, Pivot;
    NodeFacts(s, k);
    ValUnfold(s, k, 0);
    hide Val;
    assert Slot(i, g, 0) == i;
    assert (2 * g) / 2 == g;
    Pow2Unique(Gp2(i), g, i);
  }

  /** Walking up from position j of a subtree's grid reaches the subtree's root with what
      that position stands for. */
  lemma {:induction false} WalkUp(w: seq<int>, range: nat, i: nat, g: nat, s: seq<int>, k: nat, j: nat, x: nat)
    requires IsNode(s, k) && InPlace(w, range, i, g, s, k, j, x)
    ensures DecodeUp(w, range, x, Gp2(x), w[x]) == DecodeUp(w, range, i, g, Dec(s, k, j))
    decreases |s|
  {
    hide IsNode, Left, Right, Pivot, Dec, DecodeUp, FromLeft, FromRight, Holds;
    InPlaceRoot(w, range, i, g, s, k, j, x);
    DecUnfold(s, k, j);
    if j == 0 {
    } else if j % 2 == 1 {
      InPlaceLeft(w, range, i, g, s, k, j, x);
      WalkUp(w, range, i + g, 2 * g, Left(s, k), k - 1, j / 2, x);
      UpOne(w, range, i, g, i + g, Dec(Left(s, k), k - 1, j / 2), Ones(k - 1) + 1);
    } else {
      InPlaceRight(w, range, i, g, s, k, j, x);
      WalkUp(w, range, i + 2 * g, 2 * g, Right(s, k), k - 1, j / 2 - 1, x);
      UpOne(w, range, i, g, i + 2 * g, Dec(Right(s, k), k - 1, j / 2 - 1), Ones(k - 1) + 1);
    }
  }
}
