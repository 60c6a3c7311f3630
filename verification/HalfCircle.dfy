/** Counting points on half-circles.

    The circle has 2*h + 1 positions. `Count(s, x, h)` is the number of points of s that
    lie strictly after x and at most h steps clockwise from it. The main result is
    PivotExists: among n distinct points there is always one with exactly floor((n-1)/2)
    of the others in the half-circle after it. */
module HalfCircle {
  import opened Residues

  /** Distinct residues modulo range. */
  predicate IsResidueSet(s: seq<int>, range: int)
  {
    && (forall i :: 0 <= i < |s| ==> 0 <= s[i] < range)
    && (forall i, j :: 0 <= i < j < |s| ==> s[i] != s[j])
  }

  predicate Ahead(y: int, x: int, h: nat)
  {
    1 <= Mod(y - x, 2 * h + 1) <= h
  }

  function Count(s: seq<int>, x: int, h: nat): (c: nat)
  {
    if s == [] then 0
    else Count(s[..|s|-1], x, h) + (if Ahead(s[|s|-1], x, h) then 1 else 0)
  }

  lemma PrefixIsResidueSet(s: seq<int>, range: int)
    requires s != [] && IsResidueSet(s, range)
    ensures IsResidueSet(s[..|s|-1], range)
    ensures s[|s|-1] !in s[..|s|-1]
  {
    var t := s[..|s|-1];
    assert forall i :: 0 <= i < |t| ==> t[i] == s[i];
  }

  /** A point stops being ahead of x when x moves one step only if it is the next position. */
  lemma AheadStep(y: int, x: int, h: nat)
    requires 0 <= y < 2 * h + 1
    ensures Ahead(y, x, h) && !Ahead(y, x + 1, h) ==> y == Mod(x + 1, 2 * h + 1)
  {
    var range := 2 * h + 1;
    ModNear(y - x, -1, range);
    assert y - (x + 1) == (y - x) + -1;
    if Ahead(y, x, h) && !Ahead(y, x + 1, h) {
      assert Mod(y - (x + 1), range) == Mod(0, range);
      ModCong(y - (x + 1), 0, x + 1, range);
    }
  }

  /** Moving the origin one step clockwise loses at most one point, and loses one only by
      stepping onto it. */
  lemma {:induction false} CountStep(s: seq<int>, x: int, h: nat)
    requires IsResidueSet(s, 2 * h + 1)
    ensures Count(s, x + 1, h) >= Count(s, x, h) - 1
    ensures Count(s, x + 1, h) < Count(s, x, h) ==> Mod(x + 1, 2 * h + 1) in s
  {
    if s != [] {
      PrefixIsResidueSet(s, 2 * h + 1);
      CountStep(s[..|s|-1], x, h);
      AheadStep(s[|s|-1], x, h);
    }
  }

  /** Half a turn further on, exactly the other points are ahead. */
  lemma AheadOpposite(y: int, x: int, h: nat)
    requires 0 <= y < 2 * h + 1
    ensures y == Mod(x, 2 * h + 1) ==> !Ahead(y, x, h) && !Ahead(y, x + h, h)
    ensures y != Mod(x, 2 * h + 1) ==> (Ahead(y, x, h) <==> !Ahead(y, x + h, h))
  {
    var range := 2 * h + 1;
    ModNear(y - x, 0 - h, range);
    assert y - (x + h) == (y - x) + (0 - h);
    if y == Mod(x, range) {
      ModPlus(x, -x, range);
    } else if Mod(y - x, range) == 0 {
      ModCong(y - x, 0, x, range);
      assert false;
    }
  }

  lemma {:induction false} CountOpposite(s: seq<int>, x: int, h: nat)
    requires IsResidueSet(s, 2 * h + 1)
    ensures Count(s, x, h) + Count(s, x + h, h) == |s| - (if Mod(x, 2 * h + 1) in s then 1 else 0)
  {
    if s != [] {
      var y := s[|s|-1];
      PrefixIsResidueSet(s, 2 * h + 1);
      CountOpposite(s[..|s|-1], x, h);
      AheadOpposite(y, x, h);
      assert s == s[..|s|-1] + [y];
    }
  }

  /** Count depends on the origin only through its residue. */
  lemma {:induction false} CountPeriodic(s: seq<int>, x: int, h: nat)
    ensures Count(s, x, h) == Count(s, Mod(x, 2 * h + 1), h)
    ensures Count(s, x + (2 * h + 1), h) == Count(s, x, h)
  {
    if s != [] {
      var y := s[|s|-1];
      var range := 2 * h + 1;
      CountPeriodic(s[..|s|-1], x, h);
      ModMinus(y, x, range);
      ModTurn(y - (x + range), range);
      assert y - (x + range) + range == y - x;
    }
  }

  /** Walking clockwise from a position with more than m points ahead to one with at most
      m, some point met on the way has exactly m points ahead. */
  lemma {:induction false} Walk(s: seq<int>, first: int, last: int, m: nat, h: nat) returns (x: int)
    requires IsResidueSet(s, 2 * h + 1)
    requires first <= last
    requires Count(s, first, h) > m >= Count(s, last, h)
    ensures x in s && Count(s, x, h) == m
    decreases last - first
  {
    CountStep(s, first, h);
    if Count(s, first + 1, h) > m {
      x := Walk(s, first + 1, last, m, h);
    } else {
      x := Mod(first + 1, 2 * h + 1);
      CountPeriodic(s, first + 1, h);
    }
  }

  /** Some point of every non-empty set of residues splits the others into two
      half-circles of sizes floor((n-1)/2) and ceil((n-1)/2). */
  lemma PivotExists(s: seq<int>, h: nat) returns (i: nat)
    requires IsResidueSet(s, 2 * h + 1) && s != []
    ensures i < |s| && Count(s, s[i], h) == (|s| - 1) / 2
  {
    var m := (|s| - 1) / 2;
    var x0 := s[0];
    CountOpposite(s, x0, h);
    var x := x0;
    if Count(s, x0, h) > m {
      x := Walk(s, x0, x0 + h, m, h);
    } else if Count(s, x0, h) < m {
      CountPeriodic(s, x0, h);
      x := Walk(s, x0 + h, x0 + (2 * h + 1), m, h);
    }
    i :| 0 <= i < |s| && s[i] == x;
  }
}
