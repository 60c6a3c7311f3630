/** The range encoder of arfcn_list_range.c, in the source's own form, and the round trip
    through the decoding rule of section 10.5.2.13 of 3GPP TS 44.018. */
module ArfcnRange {
  import opened Residues
  import opened HalfCircle
  import opened RangeTree
  import opened RangeLayout
  import opened RangeRoom

  /** MAX_ARRFCNS */
  const MAX_ARFCNS := 29

  /** The number of entries in encode_subtree's local subset buffer. */
  const SUBSET_SIZE := 18

  // ---- encode_subtree ----

  /** The number of points of set[1..] that lie at most (range-1)/2 steps clockwise from x. */
  method CountNear(set_: array<int>, setSize: nat, x: int, range: int, ghost h: nat) returns (n: int)
    requires setSize < set_.Length && range == 2 * h + 1
    ensures n == Near(set_[1..setSize + 1], x, h)
  {
    n := 0;
    var j := 1;
    while j <= setSize
      invariant 1 <= j <= setSize + 1
      invariant n == Near(set_[1..j], x, h)
    {
      var d := set_[j] - x;
      SourceModIsMod(d, range);
      assert set_[1..j + 1][..j - 1] == set_[1..j];
      d := SourceMod(d, range);
      if d <= (range - 1) / 2 {
        n := n + 1;
      }
      j := j + 1;
    }
  }

  /** The search for the element that splits the rest in two halves. It always succeeds. */
  method FindPivot(set_: array<int>, setSize: nat, range: int, ghost k: nat) returns (indexInSet: nat)
    requires 1 <= setSize < set_.Length && range == Ones(k) && IsNode(set_[1..setSize + 1], k)
    ensures 1 <= indexInSet <= setSize
    ensures set_[indexInSet] == Pivot(set_[1..setSize + 1], k)
  {
    ghost var s := set_[1..setSize + 1];
    NodeFacts(s, k);
    ghost var h := Ones(k - 1);
    MedianFound(s, h);
    ghost var m := FirstMedian(s, 0, h);
    indexInSet := 0;
    var i := 1;
    while i <= setSize
      invariant 1 <= i <= setSize + 1
      invariant indexInSet == 0
      invariant m == FirstMedian(s, i - 1, h)
    {
      assert set_[i] == s[i - 1];
      var n := CountNear(set_, setSize, set_[i], range, h);
      if n - 1 == (setSize - 1) / 2 {
        indexInSet := i;
        break;
      }
      i := i + 1;
    }
  }

  /** Collects the points less than range/2 steps clockwise from origin into subset[1..]. */
  method CollectHalf(set_: array<int>, setSize: nat, origin: int, range: int, subset_: array<int>, ghost h: nat)
    returns (subsetIndex: nat)
    requires setSize < set_.Length && set_ != subset_ && range == 2 * h + 1
    requires |Half(set_[1..setSize + 1], origin, h)| + 1 < subset_.Length
    modifies subset_
    ensures 1 <= subsetIndex == |Half(set_[1..setSize + 1], origin, h)| + 1
    ensures subset_[1..subsetIndex] == Half(set_[1..setSize + 1], origin, h)
  {
    ghost var s := set_[1..setSize + 1];
    subset_[0] := 0;
    subsetIndex := 1;
    var i := 1;
    while i <= setSize
      invariant 1 <= i <= setSize + 1
      invariant set_[1..setSize + 1] == s
      invariant 1 <= subsetIndex == |Half(s[..i - 1], origin, h)| + 1 < subset_.Length
      invariant subset_[1..subsetIndex] == Half(s[..i - 1], origin, h)
    {
      assert set_[i] == s[i - 1];
      assert s[..i][..i - 1] == s[..i - 1];
      HalfPrefix(s, i, origin, h);
      SourceModIsMod(set_[i] - origin, range);
      if SourceMod(set_[i] - origin, range) < range / 2 {
        subset_[subsetIndex] := SourceMod(set_[i] - origin, range);
        subsetIndex := subsetIndex + 1;
        subset_[subsetIndex] := 0;
      }
      i := i + 1;
    }
    assert s[..setSize] == s;
  }

  lemma {:induction false} HalfPrefix(s: seq<int>, i: nat, origin: int, h: nat)
    requires i <= |s|
    ensures |Half(s[..i], origin, h)| <= |Half(s, origin, h)|
    decreases |s|
  {
    if i < |s| {
      HalfPrefix(s[..|s|-1], i, origin, h);
      assert s[..|s|-1][..i] == s[..i];
    } else {
      assert s[..i] == s;
    }
  }

  /** ENCODE_SUBTREE: writes the subtree for set[1..setSize] at index and below. The subset
      buffer is large enough only because the pivot splits the set evenly. */
  method EncodeSubtree(index: nat, set_: array<int>, range: int, setSize: nat, W: array<int>, ghost k: nat)
    requires setSize < set_.Length && set_ != W
    requires range == Ones(k) && IsNode(set_[1..setSize + 1], k)
    requires setSize <= 2 * (SUBSET_SIZE - 2) + 1
    requires index >= 1 && Slot(index, Gp2(index), Room(setSize + 1) - 2) < W.Length
    modifies W
    ensures Encoded(old(W[..]), W[..], index, Gp2(index), old(set_[1..setSize + 1]), k)
    decreases setSize, 2
  {
    ghost var s, g, w0 := set_[1..setSize + 1], Gp2(index), W[..];
    assert Slot(index, g, 0) == index;
    SlotMono(index, g, 0, Room(setSize + 1) - 2);
    if setSize == 0 {
      EncodedLeaf(w0, index, g, s, k);
      W[index] := 0;
      return;
    } else if setSize == 1 {
      EncodedLeaf(w0, index, g, s, k);
      W[index] := 1 + set_[1];
      return;
    }
    EncodeInner(index, set_, range, setSize, W, k);
  }

  /** The part of ENCODE_SUBTREE behind the leaf cases. */
  method EncodeInner(index: nat, set_: array<int>, range: int, setSize: nat, W: array<int>, ghost k: nat)
    requires 2 <= setSize < set_.Length && set_ != W
    requires range == Ones(k) && IsNode(set_[1..setSize + 1], k)
    requires setSize <= 2 * (SUBSET_SIZE - 2) + 1
    requires 1 <= index < W.Length && Slot(index, Gp2(index), Room(setSize + 1) - 2) < W.Length
    modifies W
    ensures Encoded(old(W[..]), W[..], index, Gp2(index), old(set_[1..setSize + 1]), k)
    decreases setSize, 1
  {
    hide *;
    ghost var s, g, w0 := set_[1..setSize + 1], Gp2(index), W[..];
    NodeFacts(s, k);
    HalvesReady(index, g, s, k, W.Length);
    var indexInSet := FindPivot(set_, setSize, range, k);
    var pivot := set_[indexInSet];
    W[index] := pivot + 1;
    ghost var w1 := W[..];

    var subset_ := new int[SUBSET_SIZE];
    var g2 := GreatestPowerOf2LeTo(index);

    // left subset
    var originValue := SourceMod(pivot + (range - 1) / 2 + 1, range);
    EncodeHalf(index + g2, set_, range, setSize, originValue, subset_, W, s, k);
    ghost var w2 := W[..];

    // right subset
    originValue := SourceMod(pivot + 1, range);
    EncodeHalf(index + 2 * g2, set_, range, setSize, originValue, subset_, W, s, k);

    EncodedNode(w0, w1, w2, W[..], index, g, s, k);
  }

  /** The part of ENCODE_SUBTREE that it goes through once for each half: collect the
      half-circle that starts at origin, then encode it at index. */
  method EncodeHalf(index: nat, set_: array<int>, range: int, setSize: nat, origin: int,
                    subset_: array<int>, W: array<int>, ghost s: seq<int>, ghost k: nat)
    requires setSize < set_.Length && s == set_[1..setSize + 1]
    requires set_ != W && set_ != subset_ && subset_ != W && subset_.Length == SUBSET_SIZE
    requires k > 0 && range == Ones(k) && IsNode(Half(s, origin, Ones(k - 1)), k - 1)
    requires |Half(s, origin, Ones(k - 1))| < setSize
    requires |Half(s, origin, Ones(k - 1))| <= SUBSET_SIZE - 2
    requires index >= 1
    requires Slot(index, Gp2(index), Room(|Half(s, origin, Ones(k - 1))| + 1) - 2) < W.Length
    modifies subset_, W
    ensures Encoded(old(W[..]), W[..], index, Gp2(index), Half(s, origin, Ones(k - 1)), k - 1)
    decreases setSize, 0
  {
    hide IsNode, Half, Encoded;
    ghost var h := Ones(k - 1);
    assert range == 2 * h + 1;
    var subsetIndex := CollectHalf(set_, setSize, origin, range, subset_, h);
    EncodeSubtree(index, subset_, range / 2, subsetIndex - 1, W, k - 1);
  }

  /** What encoding the two halves relies on: their origins as the source computes them,
      the sizes of the subsets, and room in the list. */
  lemma HalvesReady(index: nat, g: nat, s: seq<int>, k: nat, room: nat)
    requires IsNode(s, k) && 2 <= |s| <= 2 * (SUBSET_SIZE - 2) + 1
    requires index >= 1 && g == Gp2(index) && Slot(index, g, Room(|s| + 1) - 2) < room
    ensures k > 0 && g > 0 && Ones(k) == 2 * Ones(k - 1) + 1
    ensures Gp2(index + g) == 2 * g && Gp2(index + 2 * g) == 2 * g
    ensures Left(s, k) == Half(s, SourceMod(Pivot(s, k) + (Ones(k) - 1) / 2 + 1, Ones(k)), Ones(k - 1))
    ensures Right(s, k) == Half(s, SourceMod(Pivot(s, k) + 1, Ones(k)), Ones(k - 1))
    ensures |Left(s, k)| < |s| && |Left(s, k)| <= SUBSET_SIZE - 2
    ensures |Right(s, k)| < |s| && |Right(s, k)| <= SUBSET_SIZE - 2
    ensures Slot(index + g, 2 * g, Room(|Left(s, k)| + 1) - 2) < room
    ensures Slot(index + 2 * g, 2 * g, Room(|Right(s, k)| + 1) - 2) < room
  {
    hide *;
    NodeFacts(s, k);
    ChildRoom(index, g, |s|);
    HalvesAre(s, k);
    HalvesSizes(|s|);
  }

  lemma HalvesAre(s: seq<int>, k: nat)
    requires IsNode(s, k) && s != [] && k > 0 && Ones(k) == 2 * Ones(k - 1) + 1
    ensures Left(s, k) == Half(s, SourceMod(Pivot(s, k) + (Ones(k) - 1) / 2 + 1, Ones(k)), Ones(k - 1))
    ensures Right(s, k) == Half(s, SourceMod(Pivot(s, k) + 1, Ones(k)), Ones(k - 1))
    ensures |s| >= 2 ==> |Left(s, k)| == LeftSize(|s|) && |Right(s, k)| == RightSize(|s|)
  {
    hide IsNode, Half, Pivot, Left, Right, Mod, Smod, SourceMod, Ones;
    Children(s, k);
    SourceModIsMod(Pivot(s, k) + (Ones(k) - 1) / 2 + 1, Ones(k));
    SourceModIsMod(Pivot(s, k) + 1, Ones(k));
  }

  lemma HalvesSizes(n: nat)
    requires 2 <= n <= 2 * (SUBSET_SIZE - 2) + 1
    ensures LeftSize(n) < n && LeftSize(n) <= SUBSET_SIZE - 2
    ensures RightSize(n) < n && RightSize(n) <= SUBSET_SIZE - 2
  {
  }

  /** Both children's subtrees stay within their parent's room. */
  lemma ChildRoom(index: nat, g: nat, n: nat)
    requires index >= 1 && g == Gp2(index) && n >= 2
    ensures Gp2(index + g) == 2 * g && Gp2(index + 2 * g) == 2 * g
    ensures Slot(index + g, 2 * g, Room(LeftSize(n) + 1) - 2) <= Slot(index, g, Room(n + 1) - 2)
    ensures Slot(index + 2 * g, 2 * g, Room(RightSize(n) + 1) - 2) <= Slot(index, g, Room(n + 1) - 2)
  {
    hide Slot, Room;
    assert IsPow2(2 * g) by { assert (2 * g) / 2 == g; }
    Pow2Unique(Gp2(index + g), 2 * g, index + g);
    Pow2Unique(Gp2(index + 2 * g), 2 * g, index + 2 * g);
    RoomSplit(n);
    var l, r := Room(LeftSize(n) + 1) - 2, Room(RightSize(n) + 1) - 2;
    SlotChildren(index, g, l);
    SlotChildren(index, g, r);
    SlotMono(index, g, 2 * l + 1, Room(n + 1) - 2);
    SlotMono(index, g, 2 * r + 2, Room(n + 1) - 2);
  }

  // ---- CalcARFCN ----

  predicate Increasing(f: seq<int>)
  {
    forall i, j :: 0 <= i < j < |f| ==> f[i] < f[j]
  }

  /** An ARFCN list that range 2^k can encode. */
  predicate Encodable(f: seq<int>, k: nat)
  {
    f != [] && Increasing(f) && f[|f|-1] - f[0] <= Ones(k)
  }

  /** The set the encoding tree is built for: the distances from the first ARFCN, less one. */
  function Offsets(f: seq<int>): (s: seq<int>)
    requires f != []
    ensures |s| == |f| - 1
  {
    seq(|f| - 1, i requires 0 <= i < |f| - 1 => f[i + 1] - f[0] - 1)
  }

  lemma OffsetsAreNode(f: seq<int>, k: nat)
    requires Encodable(f, k)
    ensures IsNode(Offsets(f), k)
  {
    var s := Offsets(f);
    forall i | 0 <= i < |s| ensures 0 <= s[i] < Ones(k) {
      assert f[0] < f[i + 1] <= f[|f|-1];
    }
  }

  /** What CalcARFCN leaves in W, entry by entry. */
  ghost predicate ListFor(f: seq<int>, k: nat, w: seq<int>)
  {
    && Encodable(f, k) && IsNode(Offsets(f), k) && |f| <= |w|
    && w[0] == f[0]
    && (forall x :: 1 <= x < |f| ==> w[x] == Val(Offsets(f), k, x - 1))
  }

  /** The loop of CalcARFCN. */
  method Distances(F: seq<int>, Fd: array<int>, count: nat)
    requires 1 <= count <= Fd.Length && count <= |F|
    modifies Fd
    ensures Fd[1..count] == Offsets(F[..count])
  {
    var i := 1;
    while i < count
      invariant 1 <= i <= count
      invariant forall j :: 1 <= j < i ==> Fd[j] == F[j] - F[0] - 1
    {
      Fd[i] := F[i] - F[0] - 1;
      i := i + 1;
    }
  }

  /** CalcARFCN. W[0..count-1] is written completely; beyond it only zero leaves are, all of
      them within the room for count ARFCNs, which is how long W has to be. */
  method CalcArfcn(F: seq<int>, W: array<int>, count: nat, range: int, ghost k: nat)
    requires 1 <= count <= MAX_ARFCNS + 1 && count <= |F|
    requires range == Ones(k) + 1 && Encodable(F[..count], k)
    requires W.Length >= Room(count)
    modifies W
    ensures ListFor(F[..count], k, W[..])
    ensures forall x :: count <= x < W.Length ==>
              W[x] == (if ZeroLeaf(count - 1, x - 1) then 0 else old(W[x]))
    ensures forall x :: Room(count) <= x < W.Length ==> W[x] == old(W[x])
  {
    ghost var f := F[..count];
    W[0] := F[0];
    var Fd := new int[MAX_ARFCNS + 1];
    Distances(F, Fd, count);
    hide Room, Gp2, IsNode, Encoded, ListFor, ZeroLeaf, Encodable;
    ghost var s, w0 := Offsets(f), W[..];
    OffsetsAreNode(f, k);
    GpOne();
    SlotTop(Room(count) - 2);
    EncodeSubtree(1, Fd, range - 1, count - 1, W, k);
    EncodedTop(w0, W[..], f, k);
  }

  lemma GpOne()
    ensures Gp2(1) == 1
  {
  }

  /** What encoding the whole set at index 1 means for each entry of the list. */
  lemma EncodedTop(w0: seq<int>, w: seq<int>, f: seq<int>, k: nat)
    requires Encodable(f, k) && IsNode(Offsets(f), k) && |f| <= |w0| && w0[0] == f[0]
    requires Encoded(w0, w, 1, 1, Offsets(f), k)
    ensures ListFor(f, k, w)
    ensures forall x :: |f| <= x < |w| ==> w[x] == (if ZeroLeaf(|f| - 1, x - 1) then 0 else w0[x])
    ensures forall x :: Room(|f|) <= x < |w| ==> w[x] == w0[x]
  {
    hide IsResidueSet, IsNode, Val, ZeroLeaf, Encoded, Encodable, Room, Slot;
    var t := Offsets(f);
    EncodedEntry(w0, w, t, k, 0);
    forall x | 1 <= x < |f| ensures w[x] == Val(t, k, x - 1) {
      EncodedEntry(w0, w, t, k, x);
    }
    forall x | |f| <= x < |w| ensures w[x] == (if ZeroLeaf(|f| - 1, x - 1) then 0 else w0[x]) {
      EncodedEntry(w0, w, t, k, x);
    }
    forall x | Room(|f|) <= x < |w| ensures w[x] == w0[x] {
      EncodedEntry(w0, w, t, k, x);
      NoZeroLeaf(|f| - 1, x - 1);
    }
  }

  lemma EncodedEntry(w0: seq<int>, w: seq<int>, s: seq<int>, k: nat, x: nat)
    requires IsNode(s, k) && x < |w0| && Encoded(w0, w, 1, 1, s, k)
    ensures |w| == |w0| && w[x] == (if x == 0 then w0[0] else Cell(s, k, x - 1, w0[x]))
  {
    hide IsNode, Cell, Slot;
    if x > 0 {
      SlotTop(x - 1);
    } else if OnGrid(0, 1, 1) {
      var j: nat :| 0 == Slot(1, 1, j);
      SlotTop(j);
    }
  }

  lemma NoZeroLeaf(n: nat, j: nat)
    requires j + 1 >= Room(n + 1)
    ensures !ZeroLeaf(n, j)
  {
    if ZeroLeaf(n, j) {
      ZeroLeafRange(n, j);
    }
  }

  // ---- decoding the list ----

  /** Adds x to an ascending list, once. */
  function Insert(x: int, f: seq<int>): (r: seq<int>)
    requires Increasing(f)
    ensures Increasing(r)
    ensures forall y :: y in r <==> y == x || y in f
  {
    if f == [] then [x]
    else if x < f[0] then [x] + f
    else if x == f[0] then f
    else
      InsertTail(x, f);
      ConsIncreasing(f[0], Insert(x, f[1..]));
      [f[0]] + Insert(x, f[1..])
  }

  lemma ConsIncreasing(x: int, f: seq<int>)
    requires Increasing(f) && forall y :: y in f ==> x < y
    ensures Increasing([x] + f)
  {
    var r := [x] + f;
    forall i, j | 0 <= i < j < |r| ensures r[i] < r[j] {
      assert r[j] == f[j - 1] && f[j - 1] in f;
    }
  }

  lemma InsertTail(x: int, f: seq<int>)
    requires f != [] && Increasing(f)
    ensures Increasing(f[1..]) && forall y :: y in f[1..] ==> f[0] < y
    ensures forall y :: y in f <==> y == f[0] || y in f[1..]
  {
    assert f == [f[0]] + f[1..];
  }

  predicate CanDecode(w: seq<int>, count: nat, range: nat)
  {
    1 <= count <= |w| && count <= range && IsPow2(range)
  }

  /** The ARFCN that entry x of the list stands for. */
  function DecodeEntry(w: seq<int>, count: nat, range: nat, x: nat): int
    requires CanDecode(w, count, range) && 1 <= x < count
  {
    HalfRangeIsQuotient(range, Gp2(x));
    w[0] + DecodeUp(w, range, x, Gp2(x), w[x])
  }

  /** The ascending list of ARFCNs that entries 0..n-1 stand for. */
  function Decode(w: seq<int>, count: nat, range: nat, n: nat): (f: seq<int>)
    requires CanDecode(w, count, range) && 1 <= n <= count
    ensures Increasing(f)
  {
    if n == 1 then [w[0]] else Insert(DecodeEntry(w, count, range, n - 1), Decode(w, count, range, n - 1))
  }

  lemma {:induction false} DecodeMembers(w: seq<int>, count: nat, range: nat, n: nat, y: int)
    requires CanDecode(w, count, range) && 1 <= n <= count
    ensures y in Decode(w, count, range, n)
       <==> y == w[0] || exists x :: 1 <= x < n && DecodeEntry(w, count, range, x) == y
  {
    if n > 1 {
      DecodeMembers(w, count, range, n - 1, y);
    }
  }

  lemma {:induction false} Spread(f: seq<int>)
    requires f != [] && Increasing(f)
    ensures f[|f|-1] - f[0] >= |f| - 1
  {
    if |f| > 1 {
      Spread(f[..|f|-1]);
    }
  }

  lemma {:induction false} OnesIsPow2(k: nat)
    ensures IsPow2(Ones(k) + 1)
  {
    if k > 0 {
      OnesIsPow2(k - 1);
      assert (Ones(k) + 1) / 2 == Ones(k - 1) + 1;
    }
  }

  lemma ListCanDecode(f: seq<int>, k: nat, w: seq<int>)
    requires ListFor(f, k, w)
    ensures CanDecode(w, |f|, Ones(k) + 1)
  {
    Spread(f);
    OnesIsPow2(k);
  }

  /** Entry x of the list decodes to what slot x - 1 of the tree stands for. */
  lemma EntryMeaning(f: seq<int>, k: nat, w: seq<int>, x: nat)
    requires ListFor(f, k, w) && 1 <= x < |f| && CanDecode(w, |f|, Ones(k) + 1)
    ensures DecodeEntry(w, |f|, Ones(k) + 1, x) == f[0] + Dec(Offsets(f), k, x - 1)
  {
    hide IsResidueSet, IsNode, Val, Dec, DecodeUp, FromLeft, FromRight;
    var s, range := Offsets(f), Ones(k) + 1;
    forall m: nat | m < |s| ensures Slot(1, 1, m) < |w| && w[Slot(1, 1, m)] == Val(s, k, m) {
      SlotTop(m);
    }
    SlotTop(x - 1);
    HalfRangeIsQuotient(range, Gp2(x));
    assert InPlace(w, range, 1, 1, s, k, x - 1, x);
    WalkUp(w, range, 1, 1, s, k, x - 1, x);
    AtRoot(w, range, Dec(s, k, x - 1));
  }

  lemma AtRoot(w: seq<int>, range: nat, n: int)
    requires |w| > 1 && range > 0
    ensures DecodeUp(w, range, 1, 1, n) == n
  {
  }

  /** Ascending lists with the same elements are the same list. */
  lemma {:induction false} IncreasingUnique(a: seq<int>, b: seq<int>)
    requires Increasing(a) && Increasing(b)
    requires forall y :: y in a <==> y in b
    ensures a == b
  {
    assert |b| > 0 ==> b[0] in b;
    if a != [] {
      assert a[0] in a;
      InsertTail(0, a);
      InsertTail(0, b);
      assert a[0] == b[0] by { assert b[0] in b; }
      IncreasingUnique(a[1..], b[1..]);
    }
  }

  lemma DecodedAreListed(f: seq<int>, k: nat, w: seq<int>, y: int)
    requires ListFor(f, k, w) && CanDecode(w, |f|, Ones(k) + 1)
    requires y in Decode(w, |f|, Ones(k) + 1, |f|)
    ensures y in f
  {
    hide IsResidueSet, IsNode, Val, Dec, DecodeEntry, Decode, CanDecode;
    DecodeMembers(w, |f|, Ones(k) + 1, |f|, y);
    if y != w[0] {
      var x :| 1 <= x < |f| && DecodeEntry(w, |f|, Ones(k) + 1, x) == y;
      EntryMeaning(f, k, w, x);
      DecSound(Offsets(f), k, x - 1);
      var i :| 0 <= i < |Offsets(f)| && Offsets(f)[i] == Dec(Offsets(f), k, x - 1) - 1;
      assert f[i + 1] == y;
    }
  }

  lemma ListedAreDecoded(f: seq<int>, k: nat, w: seq<int>, y: int)
    requires ListFor(f, k, w) && CanDecode(w, |f|, Ones(k) + 1)
    requires y in f
    ensures y in Decode(w, |f|, Ones(k) + 1, |f|)
  {
    hide IsResidueSet, IsNode, Val, Dec, DecodeEntry, Decode, CanDecode;
    DecodeMembers(w, |f|, Ones(k) + 1, |f|, y);
    if y != f[0] {
      var i :| 0 <= i < |f| && f[i] == y;
      assert Offsets(f)[i - 1] == y - f[0] - 1;
      var j := DecComplete(Offsets(f), k, y - f[0] - 1);
      EntryMeaning(f, k, w, j + 1);
      assert DecodeEntry(w, |f|, Ones(k) + 1, j + 1) == y;
    }
  }

  /** The round trip: decoding the list that CalcARFCN leaves in W gives back exactly the
      ARFCNs it was computed from. */
  lemma RoundTrip(f: seq<int>, k: nat, w: seq<int>)
    requires ListFor(f, k, w)
    ensures CanDecode(w, |f|, Ones(k) + 1)
    ensures Decode(w, |f|, Ones(k) + 1, |f|) == f
  {
    hide *;
    ListCanDecode(f, k, w);
    var d := Decode(w, |f|, Ones(k) + 1, |f|);
    forall y ensures y in d <==> y in f {
      if y in d { DecodedAreListed(f, k, w, y); }
      if y in f { ListedAreDecoded(f, k, w, y); }
    }
    ListForIncreasing(f, k, w);
    IncreasingUnique(d, f);
  }

  lemma ListForIncreasing(f: seq<int>, k: nat, w: seq<int>)
    requires ListFor(f, k, w)
    ensures Increasing(f)
  {
  }
}
