/** When a run of PDUs hands up an N-PDU, and what it hands up. */
module ReassemblyRuns {
  import opened Bytes
  import opened SndcpPdu
  import opened SegmentMask
  import opened Reassembly

  // ---- taking segments out of the queue ----

  function SumLen(frags: seq<Frag>): nat
    decreases frags
  {
    if frags == [] then 0 else |frags[0].data| + SumLen(frags[1..])
  }

  lemma {:induction false} SumLenWithout(frags: seq<Frag>, k: nat)
    requires k < |frags|
    ensures SumLen(frags) == |frags[k].data| + SumLen(Without(frags, k))
    decreases frags
  {
    if k == 0 {
      assert Without(frags, 0) == frags[1..];
    } else {
      SumLenWithout(frags[1..], k - 1);
      assert Without(frags, k)[1..] == Without(frags[1..], k - 1);
    }
  }

  /** No octet is lost or made up: what is taken out and what is left make up the queue, and
      at most one entry is taken per segment. */
  lemma {:induction false} CollectConserves(frags: seq<Frag>, seg: nat, highest: nat)
    requires seg <= highest + 1
    ensures var c := Collect(frags, seg, highest);
            && |c.npdu| + SumLen(c.rest) == SumLen(frags)
            && |frags| - (highest + 1 - seg) <= |c.rest| <= |frags|
            && (forall e :: e in c.rest ==> e in frags)
    decreases highest + 1 - seg
  {
    hide Find, SumLen;
    var k := Find(frags, seg);
    if seg <= highest && k < |frags| {
      SumLenWithout(frags, k);
      CollectConserves(Without(frags, k), seg + 1, highest);
    }
  }

  predicate UniqueSegs(frags: seq<Frag>)
  {
    forall i, j :: 0 <= i < j < |frags| ==> frags[i].seg != frags[j].seg
  }

  predicate InQueue(frags: seq<Frag>, i: nat)
  {
    exists k :: 0 <= k < |frags| && frags[k].seg == i
  }

  /** Entry j of the queue without entry k is an entry of the queue. */
  lemma WithoutAt(frags: seq<Frag>, k: nat, j: nat)
    requires k < |frags| && j < |frags| - 1
    ensures |Without(frags, k)| == |frags| - 1
    ensures Without(frags, k)[j] == frags[if j < k then j else j + 1]
  {
  }

  lemma WithoutUnique(frags: seq<Frag>, k: nat)
    requires UniqueSegs(frags) && k < |frags|
    ensures UniqueSegs(Without(frags, k))
  {
    var w := Without(frags, k);
    hide Without;
    WithoutSize(frags, k);
    forall i, j | 0 <= i < j < |w| ensures w[i].seg != w[j].seg {
      WithoutAt(frags, k, i);
      WithoutAt(frags, k, j);
    }
  }

  lemma WithoutSize(frags: seq<Frag>, k: nat)
    requires k < |frags|
    ensures |Without(frags, k)| == |frags| - 1
  {
  }

  lemma WithoutMember(frags: seq<Frag>, k: nat, e: Frag)
    requires UniqueSegs(frags) && k < |frags| && e in Without(frags, k)
    ensures e in frags && e.seg != frags[k].seg
  {
    var w := Without(frags, k);
    var j :| 0 <= j < |w| && w[j] == e;
    hide Without;
    WithoutSize(frags, k);
    WithoutAt(frags, k, j);
  }

  lemma WithoutKeeps(frags: seq<Frag>, k: nat, i: nat)
    requires k < |frags| && i != frags[k].seg && InQueue(frags, i)
    ensures InQueue(Without(frags, k), i)
  {
    var j :| 0 <= j < |frags| && frags[j].seg == i;
    WithoutAt(frags, k, if j < k then j else j - 1);
    assert Without(frags, k)[if j < k then j else j - 1].seg == i;
  }

  lemma FindFinds(frags: seq<Frag>, i: nat)
    ensures Find(frags, i) < |frags| <==> InQueue(frags, i)
  {
  }

  /** Taking out succeeds exactly if every segment is in the queue. */
  lemma {:induction false} CompleteIff(frags: seq<Frag>, seg: nat, highest: nat)
    ensures Collect(frags, seg, highest).complete <==> AllQueued(frags, seg, highest)
    decreases highest + 1 - seg
  {
    if seg <= highest {
      FindFinds(frags, seg);
      var k := Find(frags, seg);
      if k < |frags| {
        var w := Without(frags, k);
        CompleteIff(w, seg + 1, highest);
        hide InQueue, Find, Without;
        forall i: nat | seg < i <= highest ensures InQueue(w, i) <==> InQueue(frags, i) {
          WithoutOther(frags, k, i);
        }
      }
    }
  }

  predicate AllQueued(frags: seq<Frag>, seg: nat, highest: nat)
  {
    forall i: nat :: seg <= i <= highest ==> InQueue(frags, i)
  }

  lemma WithoutOther(frags: seq<Frag>, k: nat, i: nat)
    requires k < |frags| && i != frags[k].seg
    ensures InQueue(Without(frags, k), i) <==> InQueue(frags, i)
  {
    var w := Without(frags, k);
    if InQueue(frags, i) {
      WithoutKeeps(frags, k, i);
    }
    if InQueue(w, i) {
      var j :| 0 <= j < |w| && w[j].seg == i;
      WithoutSize(frags, k);
      WithoutAt(frags, k, j);
    }
  }

  /** The three outcomes of a step: once the end was seen and the mask has every segment up to the
      highest, the N-PDU is handed up if the queue holds them all, and the error is reported if it
      does not, as after a segment that comes again when the N-PDU is out already; before, there
      is none. */
  lemma OutputIff(st: Defrag, p: SnPdu)
    requires Valid(st) && p.seg < 16
    ensures var q := Enqueue(if p.first then Fresh(p.npdu) else st, p);
            var out := Input(st, p).1;
            && (out == Nothing <==> !(q.noMore && HaveAll(q)))
            && (out == Missing <==> q.noMore && HaveAll(q) && !AllQueued(q.frags, 0, q.highest))
            && (out.Delivered? <==> q.noMore && HaveAll(q) && AllQueued(q.frags, 0, q.highest))
            && (out.Delivered? ==> out.len == q.totLen)
  {
    var q := Enqueue(if p.first then Fresh(p.npdu) else st, p);
    CompleteIff(q.frags, 0, q.highest);
    hide Collect, HaveAll, AllQueued, Enqueue;
  }

  /** The pieces numbered i .. n-1 put together. */
  function Join(pieces: seq<seq<byte>>, i: nat, n: nat): seq<byte>
    requires n <= |pieces|
    decreases n - i
  {
    if i >= n then [] else pieces[i] + Join(pieces, i + 1, n)
  }

  /** Every entry of the queue holds the piece of its number. */
  predicate FromPieces(frags: seq<Frag>, pieces: seq<seq<byte>>)
  {
    forall e :: e in frags ==> e.seg < |pieces| && e.data == pieces[e.seg]
  }

  /** With every segment there once, the pieces come out in order and none of them stays. */
  lemma {:induction false} CollectInOrder(frags: seq<Frag>, pieces: seq<seq<byte>>, seg: nat, highest: nat)
    requires UniqueSegs(frags) && FromPieces(frags, pieces) && highest < |pieces| && seg <= highest + 1
    requires forall i: nat :: seg <= i <= highest ==> InQueue(frags, i)
    ensures var c := Collect(frags, seg, highest);
            && c.complete && c.npdu == Join(pieces, seg, highest + 1)
            && (forall e :: e in c.rest ==> e in frags && !(seg <= e.seg <= highest))
    decreases highest + 1 - seg
  {
    if seg <= highest {
      FindFinds(frags, seg);
      hide UniqueSegs, InQueue, Find, Without;
      var k := Find(frags, seg);
      var w := Without(frags, k);
      assert frags[k] in frags;
      WithoutUnique(frags, k);
      forall e | e in w ensures e in frags && e.seg != seg {
        WithoutMember(frags, k, e);
      }
      forall i: nat | seg + 1 <= i <= highest ensures InQueue(w, i) {
        WithoutKeeps(frags, k, i);
      }
      CollectInOrder(w, pieces, seg + 1, highest);
    }
  }

  // ---- runs without repeated segment numbers ----

  /** The end was seen and every segment up to the highest received. */
  predicate Complete(ps: seq<SnPdu>)
    requires Pdus(ps)
  {
    ps != [] && SeenLast(ps) && forall i: nat :: i <= MaxSeg(ps) ==> HasSeg(ps, i)
  }

  predicate NoRepeat(ps: seq<SnPdu>)
  {
    forall i, j :: 0 <= i < j < |ps| ==> ps[i].seg != ps[j].seg
  }

  /** The queue after nothing but enqueueing: latest first. */
  function ListOf(ps: seq<SnPdu>): (r: seq<Frag>)
    ensures |r| == |ps|
    ensures forall k :: 0 <= k < |ps| ==> r[k] == Frag(ps[|ps|-1-k].seg, ps[|ps|-1-k].data)
  {
    if ps == [] then [] else [Frag(ps[|ps|-1].seg, ps[|ps|-1].data)] + ListOf(ps[..|ps|-1])
  }

  lemma {:induction false} ListOfLen(ps: seq<SnPdu>)
    ensures SumLen(ListOf(ps)) == TotalLen(ps)
  {
    if ps != [] {
      ListOfLen(ps[..|ps|-1]);
      assert ListOf(ps)[1..] == ListOf(ps[..|ps|-1]);
    }
  }

  /** No prefix of ps, ps itself included or not, is complete. */
  predicate Waiting(ps: seq<SnPdu>, n: nat)
    requires Pdus(ps) && n <= |ps|
  {
    forall j :: 0 < j <= n ==> Pdus(ps[..j]) && !Complete(ps[..j])
  }

  /** The state that Finish sees for PDU i. */
  function Queued(st: Defrag, ps: seq<SnPdu>, i: nat): Defrag
    requires Valid(st) && Pdus(ps) && i < |ps|
  {
    Enqueue(if ps[i].first then Fresh(ps[i].npdu) else After(st, ps[..i]), ps[i])
  }

  /** Whether PDU i makes Finish collect is the completeness of what arrived. */
  lemma FinishCollects(st: Defrag, ps: seq<SnPdu>, i: nat)
    requires Valid(st) && OneNpdu(ps) && i < |ps|
    ensures Pdus(ps[..i + 1])
    ensures var q := Queued(st, ps, i);
            && q.highest == MaxSeg(ps[..i + 1]) && q.totLen == TotalLen(ps[..i + 1])
            && (q.noMore && HaveAll(q) <==> Complete(ps[..i + 1]))
            && Finish(q) == (After(st, ps[..i + 1]), OutputAt(st, ps, i))
  {
    hide Collect, Needed, MaskOf, Or, Bit;
    AfterStep(st, ps, i);
    Bookkeeping(st, ps[..i + 1]);
    NeededIsMask(ps[..i + 1]);
  }

  /** Until everything is there nothing comes out and everything is kept. */
  lemma {:induction false} KeepsWaiting(st: Defrag, ps: seq<SnPdu>, i: nat)
    requires Valid(st) && OneNpdu(ps) && i < |ps| && Waiting(ps, i)
    ensures Queued(st, ps, i).frags == ListOf(ps[..i + 1])
    ensures Waiting(ps, i + 1) ==> OutputAt(st, ps, i) == Nothing && After(st, ps[..i + 1]).frags == ListOf(ps[..i + 1])
    ensures forall j :: 0 <= j < i ==> OutputAt(st, ps, j) == Nothing
  {
    hide Collect, HaveAll, Complete;
    if i > 0 {
      KeepsWaiting(st, ps, i - 1);
      assert ps[..i + 1][..i] == ps[..i];
    } else {
      assert ps[..i + 1][..i] == [];
    }
    FinishCollects(st, ps, i);
  }

  predicate FirstComplete(ps: seq<SnPdu>, i: nat)
    requires Pdus(ps) && i < |ps|
  {
    Waiting(ps, i) && Complete(ps[..i + 1])
  }

  lemma NoRepeatUnique(ps: seq<SnPdu>)
    requires NoRepeat(ps)
    ensures UniqueSegs(ListOf(ps))
  {
    var r := ListOf(ps);
    forall i, j | 0 <= i < j < |r| ensures r[i].seg != r[j].seg {
      assert r[i].seg == ps[|ps|-1-i].seg && r[j].seg == ps[|ps|-1-j].seg;
    }
  }

  lemma ListHas(ps: seq<SnPdu>, i: nat)
    ensures InQueue(ListOf(ps), i) <==> HasSeg(ps, i)
  {
    var r := ListOf(ps);
    if InQueue(r, i) {
      var k :| 0 <= k < |r| && r[k].seg == i;
      assert ps[|ps|-1-k].seg == i;
    }
    if HasSeg(ps, i) {
      var k :| 0 <= k < |ps| && ps[k].seg == i;
      assert r[|ps|-1-k].seg == i;
    }
  }

  lemma ListMax(ps: seq<SnPdu>, e: Frag)
    requires Pdus(ps) && e in ListOf(ps)
    ensures e.seg <= MaxSeg(ps)
  {
    var r := ListOf(ps);
    var k :| 0 <= k < |r| && r[k] == e;
    assert ps[|ps|-1-k].seg == e.seg;
  }

  /** The PDU that completes a run without repeats hands up all the octets received. */
  lemma DeliversAll(st: Defrag, ps: seq<SnPdu>, i: nat, pieces: seq<seq<byte>>)
    requires Valid(st) && OneNpdu(ps) && i < |ps| && FirstComplete(ps, i) && NoRepeat(ps[..i + 1])
    requires MaxSeg(ps[..i + 1]) < |pieces| && FromPieces(ListOf(ps[..i + 1]), pieces)
    ensures var t := ps[..i + 1];
            && OutputAt(st, ps, i) == Delivered(Join(pieces, 0, MaxSeg(t) + 1), TotalLen(t))
            && |Join(pieces, 0, MaxSeg(t) + 1)| == TotalLen(t)
            && After(st, t).frags == []
  {
    hide *;
    var t := ps[..i + 1];
    CompletedRun(st, ps, i);
    NoRepeatUnique(t);
    forall j: nat | j <= MaxSeg(t) ensures InQueue(ListOf(t), j) {
      ListHas(t, j);
    }
    CollectInOrder(ListOf(t), pieces, 0, MaxSeg(t));
    CollectConserves(ListOf(t), 0, MaxSeg(t));
    ListOfLen(t);
    var rest := Collect(ListOf(t), 0, MaxSeg(t)).rest;
    assert rest == [] by {
      if rest != [] {
        ListMax(t, rest[0]);
      }
    }
    NothingSums();
  }

  lemma NothingSums()
    ensures SumLen([]) == 0
  {
  }

  /** The PDU that completes a run leads to the collection of all segments. */
  lemma CompletedRun(st: Defrag, ps: seq<SnPdu>, i: nat)
    requires Valid(st) && OneNpdu(ps) && i < |ps| && FirstComplete(ps, i)
    ensures Pdus(ps) && Pdus(ps[..i + 1])
    ensures var t := ps[..i + 1]; forall j: nat :: j <= MaxSeg(t) ==> HasSeg(t, j)
    ensures var t := ps[..i + 1];
            var c := Collect(ListOf(t), 0, MaxSeg(t));
            && OutputAt(st, ps, i) == (if c.complete then Delivered(c.npdu, TotalLen(t)) else Missing)
            && After(st, t).frags == c.rest
  {
    KeepsWaiting(st, ps, i);
    FinishCollects(st, ps, i);
    hide Collect, HaveAll, Waiting, Queued, After, OutputAt, HasSeg, ListOf, TotalLen, MaxSeg;
  }

  /** The pieces a run without repeats brought, by segment number. */
  function PieceTable(frags: seq<Frag>, n: nat): (r: seq<seq<byte>>)
    ensures |r| == n
    ensures UniqueSegs(frags) && (forall e :: e in frags ==> e.seg < n) ==> FromPieces(frags, r)
  {
    var r := seq(n, i requires 0 <= i < n => var k := Find(frags, i); if k < |frags| then frags[k].data else []);
    assert UniqueSegs(frags) && (forall e :: e in frags ==> e.seg < n) ==> FromPieces(frags, r) by {
      if UniqueSegs(frags) && (forall e :: e in frags ==> e.seg < n) {
        forall e | e in frags ensures e.data == r[e.seg] {
          var j :| 0 <= j < |frags| && frags[j] == e;
          FindFinds(frags, e.seg);
        }
      }
    }
    r
  }

  /** Once an N-PDU was handed up, segment 0 is gone from the queue for good. */
  lemma {:induction false} NothingAfter(st: Defrag, ps: seq<SnPdu>, i: nat, j: nat)
    requires Valid(st) && OneNpdu(ps) && NoRepeat(ps) && i < j < |ps|
    requires After(st, ps[..i + 1]).frags == [] && HasSeg(ps[..i + 1], 0)
    ensures !OutputAt(st, ps, j).Delivered?
    ensures !InQueue(After(st, ps[..j + 1]).frags, 0)
    decreases j
  {
    hide After, OutputAt, NoRepeat, InQueue, HasSeg;
    if j > i + 1 {
      NothingAfter(st, ps, i, j - 1);
      assert ps[..(j - 1) + 1] == ps[..j];
    } else {
      EmptyQueue(0);
    }
    NotFirstSegment(ps, i, j);
    StaysWithoutZero(st, ps, j);
  }

  lemma EmptyQueue(i: nat)
    ensures !InQueue([], i)
  {
  }

  lemma StaysWithoutZero(st: Defrag, ps: seq<SnPdu>, j: nat)
    requires Valid(st) && OneNpdu(ps) && 0 < j < |ps|
    requires !InQueue(After(st, ps[..j]).frags, 0) && ps[j].seg != 0
    ensures !OutputAt(st, ps, j).Delivered?
    ensures !InQueue(After(st, ps[..j + 1]).frags, 0)
  {
    hide *;
    LaterQueued(st, ps, j);
    QueueWithoutZero(After(st, ps[..j]).frags, Frag(ps[j].seg, ps[j].data));
    FinishWithoutZero(Queued(st, ps, j));
  }

  lemma LaterQueued(st: Defrag, ps: seq<SnPdu>, j: nat)
    requires Valid(st) && OneNpdu(ps) && 0 < j < |ps|
    ensures Pdus(ps) && Pdus(ps[..j]) && Pdus(ps[..j + 1]) && Queued(st, ps, j).highest < 16
    ensures Queued(st, ps, j).frags == [Frag(ps[j].seg, ps[j].data)] + After(st, ps[..j]).frags
    ensures Finish(Queued(st, ps, j)) == (After(st, ps[..j + 1]), OutputAt(st, ps, j))
  {
    FinishCollects(st, ps, j);
    hide After, OutputAt, Finish, HaveAll, Or, Bit, MaxSeg, TotalLen, Complete;
  }

  lemma QueueWithoutZero(frags: seq<Frag>, e: Frag)
    requires !InQueue(frags, 0) && e.seg != 0
    ensures !InQueue([e] + frags, 0)
  {
    forall k | 0 <= k < |frags| + 1 ensures ([e] + frags)[k].seg != 0 {
      assert k == 0 || ([e] + frags)[k] == frags[k - 1];
    }
  }

  lemma NotFirstSegment(ps: seq<SnPdu>, i: nat, j: nat)
    requires NoRepeat(ps) && i < j < |ps| && HasSeg(ps[..i + 1], 0)
    ensures ps[j].seg != 0
  {
    var k :| 0 <= k < |ps[..i + 1]| && ps[..i + 1][k].seg == 0;
    assert ps[k].seg == 0;
  }

  /** Without segment 0 in the queue nothing can be handed up. */
  lemma FinishWithoutZero(q: Defrag)
    requires q.highest < 16 && !InQueue(q.frags, 0)
    ensures !Finish(q).1.Delivered? && !InQueue(Finish(q).0.frags, 0)
  {
    hide HaveAll;
    FindFinds(q.frags, 0);
  }

  /** In a run without repeated segment numbers an N-PDU is handed up by exactly one PDU,
      the first that completes the run, and its length is the total length received. */
  lemma DeliveredOnce(st: Defrag, ps: seq<SnPdu>, i: nat)
    requires Valid(st) && OneNpdu(ps) && NoRepeat(ps) && i < |ps|
    ensures OutputAt(st, ps, i).Delivered? <==> FirstComplete(ps, i)
    ensures OutputAt(st, ps, i).Delivered? ==>
              OutputAt(st, ps, i).len == |OutputAt(st, ps, i).npdu| == TotalLen(ps[..i + 1])
  {
    hide Collect, HaveAll, Complete;
    if Waiting(ps, i) {
      KeepsWaiting(st, ps, i);
      if Complete(ps[..i + 1]) {
        DeliversHere(st, ps, i);
      } else {
        assert Waiting(ps, i + 1);
      }
    } else {
      var t := FirstCompletion(ps, i);
      DeliversHere(st, ps, t);
      NothingAfter(st, ps, t, i);
    }
  }

  lemma DeliversHere(st: Defrag, ps: seq<SnPdu>, i: nat)
    requires Valid(st) && OneNpdu(ps) && NoRepeat(ps) && i < |ps| && FirstComplete(ps, i)
    ensures OutputAt(st, ps, i).Delivered?
    ensures OutputAt(st, ps, i).len == |OutputAt(st, ps, i).npdu| == TotalLen(ps[..i + 1])
    ensures After(st, ps[..i + 1]).frags == [] && HasSeg(ps[..i + 1], 0)
  {
    var t := ps[..i + 1];
    NoRepeatUnique(t);
    forall e | e in ListOf(t) ensures e.seg < 16 {
      ListMax(t, e);
    }
    var pieces := PieceTable(ListOf(t), 16);
    DeliversAll(st, ps, i, pieces);
  }

  lemma {:induction false} FirstCompletion(ps: seq<SnPdu>, i: nat) returns (t: nat)
    requires Pdus(ps) && i <= |ps| && !Waiting(ps, i)
    ensures t < i && FirstComplete(ps, t)
  {
    hide Complete;
    assert i > 0;
    if Waiting(ps, i - 1) {
      t := i - 1;
    } else {
      t := FirstCompletion(ps, i - 1);
    }
  }
}
