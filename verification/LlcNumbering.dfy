/** The numbering of UI frames: N(U) and the overflow counters of sender and receiver, over
    runs of any length and a channel that keeps the order but may lose frames. */
module LlcNumbering {
  import opened Wrappers

  /** The modulus of the 32-bit overflow counters. */
  const WRAP := 0x1_0000_0000

  datatype Counters = Counters(vu: nat, oc: nat)

  /** The sender after one more frame: the overflow counter is bumped when V(U) becomes 511. */
  function TxNext(c: Counters): Counters
  {
    var vu := (c.vu + 1) % 512;
    Counters(vu, if (vu + 1) / 512 != 0 then (c.oc + 512) % WRAP else c.oc)
  }

  /** The receiver's answer to a frame numbered nu: it drops the frame, or it takes it and
      bumps the overflow counter if nu is 511. */
  function RxNext(c: Counters, nu: nat): Option<Counters>
  {
    if nu < c.vu then None
    else Some(Counters((nu + 1) % 512, if (nu + 1) / 512 != 0 then (c.oc + 512) % WRAP else c.oc))
  }

  const INITIAL := Counters(0, 0)

  /** The sender before frame number k. */
  function Sender(k: nat): Counters
  {
    if k == 0 then INITIAL else TxNext(Sender(k - 1))
  }

  /** A receiver that has taken every frame of every block up to position p. */
  function InStep(p: nat): Counters
  {
    Counters(p % 512, 512 * (p / 512) % WRAP)
  }

  lemma WrapAdd(a: nat)
    ensures (a % WRAP + 512) % WRAP == (a + 512) % WRAP
  {
  }

  /** The sender's overflow counter runs one frame ahead of the true frame number. */
  lemma {:induction false} SenderCounters(k: nat)
    ensures Sender(k) == Counters(k % 512, 512 * ((k + 1) / 512) % WRAP)
  {
    if k > 0 {
      SenderCounters(k - 1);
      TxNextIs(k);
    }
  }

  lemma TxNextIs(k: nat)
    requires k > 0
    ensures TxNext(Counters((k - 1) % 512, 512 * (k / 512) % WRAP)) == Counters(k % 512, 512 * ((k + 1) / 512) % WRAP)
  {
    NextPosition(k - 1);
    NextPosition(k);
    WrapAdd(512 * (k / 512));
  }

  lemma NextPosition(k: nat)
    ensures k % 512 == 511 ==> (k + 1) / 512 == k / 512 + 1 && (k + 1) % 512 == 0
    ensures k % 512 != 511 ==> (k + 1) / 512 == k / 512 && (k + 1) % 512 == k % 512 + 1
  {
  }

  /** Frame number k carries N(U) = k mod 512. */
  function Nu(k: nat): nat
  {
    k % 512
  }

  /** The receiver after the frames with these numbers arrived, one after the other. */
  function Receiver(arrivals: seq<nat>): Counters
  {
    if arrivals == [] then INITIAL
    else
      var c := Receiver(arrivals[..|arrivals|-1]);
      match RxNext(c, Nu(arrivals[|arrivals|-1]))
      case None => c
      case Some(c') => c'
  }

  /** The i-th arrival is taken, and counted as the frame it really is. */
  predicate CountedRight(arrivals: seq<nat>, i: nat)
    requires i < |arrivals|
  {
    var c := Receiver(arrivals[..i]);
    && RxNext(c, Nu(arrivals[i])).Some?
    && c.oc + Nu(arrivals[i]) == arrivals[i] % WRAP
  }

  /** The channel keeps the order of frames. */
  predicate InOrder(arrivals: seq<nat>)
  {
    forall i, j :: 0 <= i < j < |arrivals| ==> arrivals[i] < arrivals[j]
  }

  /** No frame numbered 511 is lost that a later arrival could tell. */
  predicate LastOfBlockKept(arrivals: seq<nat>)
  {
    forall k, i :: 0 <= i < |arrivals| && 0 <= k < arrivals[i] && Nu(k) == 511 ==> k in arrivals
  }

  lemma InStepTrue(k: nat)
    ensures InStep(k).oc + Nu(k) == k % WRAP
  {
    var q, r := k / WRAP, k % WRAP;
    assert k == WRAP * q + r;
    assert k / 512 == 0x80_0000 * q + r / 512;
    assert 512 * (k / 512) == WRAP * q + 512 * (r / 512);
    assert 512 * (k / 512) % WRAP == 512 * (r / 512);
  }

  /** A receiver in step takes a frame of its own block that is not behind it. */
  lemma InStepTakes(p: nat, k: nat)
    requires p <= k && p / 512 == k / 512
    ensures RxNext(InStep(p), Nu(k)) == Some(InStep(k + 1))
    ensures InStep(p).oc + Nu(k) == k % WRAP
  {
    InStepTrue(k);
    NextPosition(k);
    WrapAdd(512 * (k / 512));
  }

  /** The position the receiver expects next when it has kept step so far. */
  function Expected(arrivals: seq<nat>): nat
  {
    if arrivals == [] then 0 else arrivals[|arrivals|-1] + 1
  }

  lemma PrefixOrder(arrivals: seq<nat>, i: nat)
    requires InOrder(arrivals) && i < |arrivals|
    ensures InOrder(arrivals[..i]) && Expected(arrivals[..i]) <= arrivals[i]
    ensures forall k :: Expected(arrivals[..i]) <= k < arrivals[i] ==> k !in arrivals
  {
    forall j | 0 <= j < |arrivals| ensures arrivals[j] < Expected(arrivals[..i]) || arrivals[j] >= arrivals[i] {
    }
  }

  /** The last position of the block that p lies in. */
  function EndOfBlock(p: nat): (e: nat)
    ensures p <= e && Nu(e) == 511 && e / 512 == p / 512
  {
    512 * (p / 512) + 511
  }

  /** The next arrival lies in the block of the position the receiver expects. */
  lemma NoBlockSkipped(arrivals: seq<nat>, i: nat)
    requires InOrder(arrivals) && LastOfBlockKept(arrivals) && i < |arrivals|
    ensures Expected(arrivals[..i]) / 512 == arrivals[i] / 512
  {
    PrefixOrder(arrivals, i);
    var e := EndOfBlock(Expected(arrivals[..i]));
    assert e < arrivals[i] ==> e in arrivals;
  }

  /** While no such frame is lost the receiver stays in step. */
  lemma {:induction false} KeepsStep(arrivals: seq<nat>, i: nat)
    requires InOrder(arrivals) && LastOfBlockKept(arrivals) && i <= |arrivals|
    ensures Receiver(arrivals[..i]) == InStep(Expected(arrivals[..i]))
    ensures forall j :: 0 <= j < i ==> CountedRight(arrivals, j)
  {
    if i > 0 {
      var k := arrivals[i - 1];
      var p := Expected(arrivals[..i - 1]);
      KeepsStep(arrivals, i - 1);
      PrefixOrder(arrivals, i - 1);
      NoBlockSkipped(arrivals, i - 1);
      InStepTakes(p, k);
      assert arrivals[..i][..i - 1] == arrivals[..i - 1];
    }
  }

  // ---- exactly which losses go wrong ----

  /** Frame k is at most the last of the block of position p, or that many turns of the 32-bit
      counter on. */
  predicate Follows(p: nat, k: nat)
  {
    p <= k && (k - p) % WRAP <= 511 - p % 512
  }

  lemma WholeTurns(p: nat, k: nat) returns (k0: nat)
    requires p <= k
    ensures p <= k0 < p + WRAP && k0 - p == (k - p) % WRAP
    ensures k0 % WRAP == k % WRAP && Nu(k0) == Nu(k) && InStep(k0) == InStep(k) && InStep(k0 + 1) == InStep(k + 1)
  {
    var t := (k - p) / WRAP;
    k0 := k - WRAP * t;
    SameTurn(k0, t);
    SameTurn(k0 + 1, t);
  }

  /** Adding whole turns changes no counter. */
  lemma SameTurn(k: nat, t: nat)
    ensures (k + WRAP * t) % WRAP == k % WRAP && Nu(k + WRAP * t) == Nu(k) && InStep(k + WRAP * t) == InStep(k)
  {
    var n := k + WRAP * t;
    assert n / 512 == k / 512 + 0x80_0000 * t && n % 512 == k % 512;
    assert 512 * (n / 512) == 512 * (k / 512) + WRAP * t;
    ModTurns(k, t);
    ModTurns(512 * (k / 512), t);
  }

  lemma ModTurns(a: nat, t: nat)
    ensures (a + WRAP * t) % WRAP == a % WRAP
  {
  }

  lemma NoTurn(a: nat, b: nat)
    requires a <= b < a + WRAP && a % WRAP == b % WRAP
    ensures a == b
  {
  }

  /** Within one turn: a frame follows exactly if it lies in the same block. */
  lemma FollowsInBlock(p: nat, k: nat)
    requires p <= k < p + WRAP
    ensures Follows(p, k) <==> p / 512 == k / 512
  {
  }

  /** A receiver in step takes a frame and counts it right exactly if the frame follows, and is
      in step again then. */
  lemma RightIffFollows(p: nat, k: nat)
    requires p <= k
    ensures RxNext(InStep(p), Nu(k)).Some? && InStep(p).oc + Nu(k) == k % WRAP <==> Follows(p, k)
    ensures Follows(p, k) ==> RxNext(InStep(p), Nu(k)) == Some(InStep(k + 1))
  {
    var k0 := WholeTurns(p, k);
    FollowsInBlock(p, k0);
    InStepTrue(k0);
    if p / 512 == k0 / 512 {
      InStepTakes(p, k0);
    } else {
      OtherBlock(p, k0);
    }
  }

  /** A frame of another block, less than a turn on, is dropped or counted wrong. */
  lemma OtherBlock(p: nat, k: nat)
    requires p <= k < p + WRAP && p / 512 != k / 512
    ensures Nu(k) < p % 512 || 512 * (p / 512) % WRAP != 512 * (k / 512) % WRAP
  {
    var a, b := 512 * (p / 512), 512 * (k / 512);
    if Nu(k) >= p % 512 && a % WRAP == b % WRAP {
      assert a < b < a + WRAP;
      NoTurn(a, b);
    }
  }

  predicate AllFollow(arrivals: seq<nat>, i: nat)
    requires i <= |arrivals|
  {
    forall j :: 0 <= j < i ==> Follows(Expected(arrivals[..j]), arrivals[j])
  }

  predicate AllRight(arrivals: seq<nat>, i: nat)
    requires i <= |arrivals|
  {
    forall j :: 0 <= j < i ==> CountedRight(arrivals, j)
  }

  lemma {:induction false} RightIff(arrivals: seq<nat>, i: nat)
    requires InOrder(arrivals) && i <= |arrivals|
    ensures AllRight(arrivals, i) <==> AllFollow(arrivals, i)
    ensures AllRight(arrivals, i) ==> Receiver(arrivals[..i]) == InStep(Expected(arrivals[..i]))
  {
    hide *;
    if i == 0 {
      NoArrival(arrivals);
    } else {
      RightIff(arrivals, i - 1);
      RightIffStep(arrivals, i - 1);
    }
  }

  lemma NoArrival(arrivals: seq<nat>)
    ensures AllRight(arrivals, 0) && AllFollow(arrivals, 0)
    ensures Receiver(arrivals[..0]) == InStep(Expected(arrivals[..0]))
  {
    assert arrivals[..0] == [];
  }

  lemma RightIffStep(arrivals: seq<nat>, i: nat)
    requires InOrder(arrivals) && i < |arrivals|
    requires AllRight(arrivals, i) <==> AllFollow(arrivals, i)
    requires AllRight(arrivals, i) ==> Receiver(arrivals[..i]) == InStep(Expected(arrivals[..i]))
    ensures AllRight(arrivals, i + 1) <==> AllFollow(arrivals, i + 1)
    ensures AllRight(arrivals, i + 1) ==> Receiver(arrivals[..i + 1]) == InStep(Expected(arrivals[..i + 1]))
  {
    hide *;
    var k, p := arrivals[i], Expected(arrivals[..i]);
    PrefixOrder(arrivals, i);
    OneMoreArrival(arrivals, i);
    ArrivalSteps(arrivals, i);
    RightIffFollows(p, k);
    if AllRight(arrivals, i) {
      CountedIs(arrivals, i, InStep(p));
    }
  }

  lemma OneMoreArrival(arrivals: seq<nat>, i: nat)
    requires i < |arrivals|
    ensures AllRight(arrivals, i + 1) <==> AllRight(arrivals, i) && CountedRight(arrivals, i)
    ensures AllFollow(arrivals, i + 1) <==> AllFollow(arrivals, i) && Follows(Expected(arrivals[..i]), arrivals[i])
  {
    hide CountedRight, Follows, Expected;
  }

  lemma ArrivalSteps(arrivals: seq<nat>, i: nat)
    requires i < |arrivals|
    ensures var c := RxNext(Receiver(arrivals[..i]), Nu(arrivals[i]));
            c.Some? ==> Receiver(arrivals[..i + 1]) == c.value
    ensures Expected(arrivals[..i + 1]) == arrivals[i] + 1
  {
    hide RxNext, Nu;
    assert arrivals[..i + 1][..i] == arrivals[..i];
  }

  lemma CountedIs(arrivals: seq<nat>, i: nat, c: Counters)
    requires i < |arrivals| && Receiver(arrivals[..i]) == c
    ensures CountedRight(arrivals, i)
       <==> RxNext(c, Nu(arrivals[i])).Some? && c.oc + Nu(arrivals[i]) == arrivals[i] % WRAP
  {
  }

  /** Over a channel that loses frames but keeps their order, every arriving frame is taken and
      counted as the frame it is, exactly if every one follows the one before it. */
  lemma CountedRightIff(arrivals: seq<nat>)
    requires InOrder(arrivals)
    ensures (forall j :: 0 <= j < |arrivals| ==> CountedRight(arrivals, j))
       <==> (forall j :: 0 <= j < |arrivals| ==> Follows(Expected(arrivals[..j]), arrivals[j]))
  {
    RightIff(arrivals, |arrivals|);
    hide CountedRight, Follows, Expected;
  }

  /** Fewer than 2^32 frames are lost in a row. */
  predicate ShortGaps(arrivals: seq<nat>)
  {
    forall i :: 0 <= i < |arrivals| ==> arrivals[i] - Expected(arrivals[..i]) < WRAP
  }

  /** With fewer lost in a row, that is so exactly if no frame with N(U) = 511 was lost ahead of
      an arrival. */
  lemma LossyChannel(arrivals: seq<nat>)
    requires InOrder(arrivals) && ShortGaps(arrivals)
    ensures (forall j :: 0 <= j < |arrivals| ==> CountedRight(arrivals, j)) <==> LastOfBlockKept(arrivals)
  {
    CountedRightIff(arrivals);
    forall j | 0 <= j < |arrivals|
      ensures Follows(Expected(arrivals[..j]), arrivals[j]) <==> Expected(arrivals[..j]) / 512 == arrivals[j] / 512
    {
      PrefixOrder(arrivals, j);
      FollowsInBlock(Expected(arrivals[..j]), arrivals[j]);
    }
    hide CountedRight, Follows;
    if LastOfBlockKept(arrivals) {
      forall j | 0 <= j < |arrivals| ensures Expected(arrivals[..j]) / 512 == arrivals[j] / 512 {
        NoBlockSkipped(arrivals, j);
      }
    }
    if BlockByBlock(arrivals) {
      forall k, i | 0 <= i < |arrivals| && 0 <= k < arrivals[i] && Nu(k) == 511 ensures k in arrivals {
        BlockEndArrived(arrivals, k, i);
      }
    }
  }

  /** No block is skipped. */
  predicate BlockByBlock(arrivals: seq<nat>)
  {
    forall j :: 0 <= j < |arrivals| ==> Expected(arrivals[..j]) / 512 == arrivals[j] / 512
  }

  lemma {:induction false} BlockEndArrived(arrivals: seq<nat>, k: nat, i: nat)
    requires InOrder(arrivals) && BlockByBlock(arrivals) && i < |arrivals| && k < arrivals[i] && Nu(k) == 511
    ensures k in arrivals
    decreases i
  {
    PrefixOrder(arrivals, i);
    EndOfBlockIs(k, arrivals[i], Expected(arrivals[..i]));
    if k != arrivals[i - 1] {
      BlockEndArrived(arrivals, k, i - 1);
    }
  }

  lemma EndOfBlockIs(k: nat, a: nat, p: nat)
    requires k < a && Nu(k) == 511 && p / 512 == a / 512
    ensures k < p
  {
  }

  /** Beyond that the counter cannot tell: after 2^32 frames lost in a row the next one is
      counted right. */
  lemma WholeTurnUnnoticed()
    ensures var arrivals := [0, WRAP + 1];
            InOrder(arrivals) && !LastOfBlockKept(arrivals)
            && !ShortGaps(arrivals) && forall j :: 0 <= j < |arrivals| ==> CountedRight(arrivals, j)
  {
    var arrivals := [0, WRAP + 1];
    assert arrivals[..0] == [] && arrivals[..1] == [0];
    assert [0][..0] == [];
    assert Receiver([0]) == Counters(1, 0);
    assert 511 < arrivals[1] && 511 !in arrivals;
    assert CountedRight(arrivals, 0) && CountedRight(arrivals, 1);
  }

  /** With nothing lost that matters, the overflow counter the sender uses for frame k and
      the one the receiver uses for it agree exactly if N(U) is not 511. */
  lemma OverflowCountersAgree(arrivals: seq<nat>, i: nat)
    requires InOrder(arrivals) && LastOfBlockKept(arrivals) && i < |arrivals|
    ensures Sender(arrivals[i]).oc == Receiver(arrivals[..i]).oc <==> Nu(arrivals[i]) != 511
  {
    var k := arrivals[i];
    hide *;
    KeepsStep(arrivals, i);
    NoBlockSkipped(arrivals, i);
    SenderCounters(k);
    SameOverflowIff(Expected(arrivals[..i]), k);
  }

  lemma SameOverflowIff(p: nat, k: nat)
    requires p / 512 == k / 512
    ensures 512 * ((k + 1) / 512) % WRAP == InStep(p).oc <==> Nu(k) != 511
  {
    NextPosition(k);
    OtherAfterNext(512 * (k / 512));
  }

  lemma OtherAfterNext(a: nat)
    ensures (a + 512) % WRAP != a % WRAP
  {
  }
}
