/** From the fragmenter to the reassembler: an N-PDU cut into at most fifteen fragments is
    handed up whole whatever the order in which the later fragments arrive; one that needs
    more never is, because segment numbers are taken modulo fifteen. */
module SndcpRoundTrip {
  import opened Bytes
  import opened SndcpPdu
  import opened Reassembly
  import opened ReassemblyRuns

  /** Every number below n once, in some order that starts with 0. */
  predicate Order(order: seq<nat>, n: nat)
  {
    && |order| == n > 0 && order[0] == 0
    && Distinct(order, n)
    && (forall j: nat :: j < n ==> j in order)
  }

  predicate Distinct(o: seq<nat>, n: nat)
  {
    && (forall i :: 0 <= i < |o| ==> o[i] < n)
    && (forall i, j :: 0 <= i < j < |o| ==> o[i] != o[j])
  }

  /** The PDUs in the order in which they arrive. */
  function Arrive(ps: seq<SnPdu>, order: seq<nat>): (r: seq<SnPdu>)
    requires forall i :: 0 <= i < |order| ==> order[i] < |ps|
    ensures |r| == |order| && forall i :: 0 <= i < |r| ==> r[i] == ps[order[i]]
  {
    seq(|order|, i requires 0 <= i < |order| => ps[order[i]])
  }

  /** Fragments as the fragmenter makes them when no counter wraps. */
  predicate Numbered(ps: seq<SnPdu>)
  {
    && 0 < |ps| <= 15
    && forall i :: 0 <= i < |ps| ==>
         ps[i].seg == i && (ps[i].first <==> i == 0) && (ps[i].more <==> i < |ps| - 1)
  }

  lemma FragmentsNumbered(msg: seq<byte>, nsapi: nat, npdu: nat, n201u: nat)
    requires n201u > 4 && msg != [] && nsapi < 16 && npdu < 0x1000 && |msg| < 15 * (n201u - 3)
    ensures Numbered(Fragments(msg, nsapi, npdu, n201u, 0, 0))
  {
    hide *;
    var ps := Fragments(msg, nsapi, npdu, n201u, 0, 0);
    FifteenFragments(msg, nsapi, npdu, n201u);
    forall i | 0 <= i < |ps| ensures IsNumber(ps[i], i, |ps|) {
      FragmentFields(msg, nsapi, npdu, n201u, 0, 0, i);
      FragmentNumber(ps[i], nsapi, npdu, n201u, i, |ps|);
    }
    AllNumbered(ps);
  }

  predicate IsNumber(p: SnPdu, i: nat, n: nat)
  {
    p.seg == i && (p.first <==> i == 0) && (p.more <==> i < n - 1)
  }

  lemma FragmentNumber(p: SnPdu, nsapi: nat, npdu: nat, n201u: nat, i: nat, n: nat)
    requires i < n <= 15 && IsFragment(p, nsapi, npdu, n201u, 0 + i, i == n - 1)
    ensures IsNumber(p, i, n)
  {
  }

  lemma AllNumbered(ps: seq<SnPdu>)
    requires 0 < |ps| <= 15 && forall i :: 0 <= i < |ps| ==> IsNumber(ps[i], i, |ps|)
    ensures Numbered(ps)
  {
  }

  // ---- at most fifteen fragments ----

  lemma ArrivalIsOneNpdu(ps: seq<SnPdu>, order: seq<nat>)
    requires Numbered(ps) && Order(order, |ps|)
    ensures OneNpdu(Arrive(ps, order)) && NoRepeat(Arrive(ps, order))
  {
  }

  /** While a fragment is out, the run is not complete. */
  lemma NotYetComplete(ps: seq<SnPdu>, order: seq<nat>, i: nat)
    requires Numbered(ps) && Order(order, |ps|) && 0 < i < |ps|
    ensures Pdus(Arrive(ps, order)[..i]) && !Complete(Arrive(ps, order)[..i])
  {
    var t := Arrive(ps, order)[..i];
    var missing := order[|ps|-1];
    assert !HasSeg(t, missing);
    if SeenLast(t) {
      var k :| 0 <= k < |t| && !t[k].more;
      assert t[k].seg == |ps| - 1;
      assert missing <= MaxSeg(t);
    }
  }

  lemma CompleteAtLast(ps: seq<SnPdu>, order: seq<nat>)
    requires Numbered(ps) && Order(order, |ps|)
    ensures var r := Arrive(ps, order);
            Pdus(r) && Complete(r) && MaxSeg(r) == |ps| - 1
  {
    var r := Arrive(ps, order);
    forall j: nat | j < |ps| ensures HasSeg(r, j) {
      assert j in order;
      var k :| 0 <= k < |order| && order[k] == j;
      assert r[k].seg == j;
    }
    assert |ps| - 1 in order;
    var k :| 0 <= k < |order| && order[k] == |ps| - 1;
    assert !r[k].more && r[k].seg == |ps| - 1;
    var m :| 0 <= m < |r| && r[m].seg == MaxSeg(r);
  }

  /** The fragments' data, by number. */
  function Pieces(ps: seq<SnPdu>): (r: seq<seq<byte>>)
    ensures |r| == |ps| && forall i :: 0 <= i < |r| ==> r[i] == ps[i].data
  {
    seq(|ps|, i requires 0 <= i < |ps| => ps[i].data)
  }

  lemma {:induction false} JoinIsConcat(ps: seq<SnPdu>, i: nat)
    requires i <= |ps|
    ensures Join(Pieces(ps), i, |ps|) == Concat(ps[i..])
    decreases |ps| - i
  {
    if i < |ps| {
      JoinIsConcat(ps, i + 1);
      assert ps[i..][1..] == ps[i + 1..];
    }
  }

  lemma ListFromPieces(ps: seq<SnPdu>, order: seq<nat>)
    requires Numbered(ps) && Order(order, |ps|)
    ensures FromPieces(ListOf(Arrive(ps, order)), Pieces(ps))
  {
    var r := Arrive(ps, order);
    var l := ListOf(r);
    forall e | e in l ensures e.seg < |ps| && e.data == Pieces(ps)[e.seg] {
      var k :| 0 <= k < |l| && l[k] == e;
      ListEntry(ps, order, |r| - 1 - k);
      hide *;
    }
  }

  lemma ListEntry(ps: seq<SnPdu>, order: seq<nat>, k: nat)
    requires Numbered(ps) && Order(order, |ps|) && k < |order|
    ensures var p := Arrive(ps, order)[k]; p.seg < |ps| && p.data == Pieces(ps)[p.seg]
  {
  }

  /** Numbered fragments that arrive in any order, the first one first, lead to nothing until
      the last one arrives, and then to all their data in order. */
  lemma AnyOrder(st: Defrag, ps: seq<SnPdu>, order: seq<nat>, i: nat)
    requires Valid(st) && Numbered(ps) && Order(order, |ps|) && i < |ps|
    ensures Pdus(Arrive(ps, order))
    ensures OutputAt(st, Arrive(ps, order), i)
         == if i < |ps| - 1 then Nothing else Delivered(Concat(ps), |Concat(ps)|)
  {
    var r := Arrive(ps, order);
    ArrivalIsOneNpdu(ps, order);
    hide *;
    var n := |ps| - 1;
    ArriveLen(ps, order);
    WaitsForLast(ps, order, r);
    assert r[..n + 1] == r;
    KeepsWaiting(st, r, n);
    if i == n {
      CompleteAtLast(ps, order);
      ListFromPieces(ps, order);
      NoRepeatAll(r);
      DeliversAll(st, r, n, Pieces(ps));
      JoinIsConcat(ps, 0);
      assert ps[0..] == ps;
    }
  }

  lemma ArriveLen(ps: seq<SnPdu>, order: seq<nat>)
    requires Numbered(ps) && Order(order, |ps|)
    ensures |Arrive(ps, order)| == |ps| > 0 && Pdus(Arrive(ps, order))
    ensures |Pieces(ps)| == |ps|
  {
  }

  lemma NoRepeatAll(r: seq<SnPdu>)
    requires NoRepeat(r)
    ensures forall n :: 0 <= n <= |r| ==> NoRepeat(r[..n])
  {
  }

  /** Nothing but the whole run is complete. */
  lemma WaitsForLast(ps: seq<SnPdu>, order: seq<nat>, r: seq<SnPdu>)
    requires Numbered(ps) && Order(order, |ps|) && r == Arrive(ps, order)
    ensures |r| == |ps| > 0 && Pdus(r) && Waiting(r, |ps| - 1) && FirstComplete(r, |ps| - 1)
  {
    CompleteAtLast(ps, order);
    hide Numbered, Order, Distinct, Complete;
    forall j | 0 < j <= |r| - 1 ensures Pdus(r[..j]) && !Complete(r[..j]) {
      NotYetComplete(ps, order, j);
    }
    assert r[..|r| - 1 + 1] == r;
  }

  // ---- more than fifteen fragments ----

  function Skip<T>(s: seq<T>, k: nat): seq<T>
    requires k < |s|
  {
    s[..k] + s[k + 1..]
  }

  lemma {:induction false} TotalSkip(ps: seq<SnPdu>, k: nat)
    requires k < |ps|
    ensures TotalLen(ps) == TotalLen(Skip(ps, k)) + |ps[k].data|
  {
    var t := ps[..|ps|-1];
    if k == |ps| - 1 {
      assert Skip(ps, k) == t;
    } else {
      TotalSkip(t, k);
      assert Skip(ps, k)[..|ps|-2] == Skip(t, k);
      assert Skip(ps, k)[|ps|-2] == ps[|ps|-1];
    }
  }

  lemma {:induction false} TotalIsConcat(ps: seq<SnPdu>)
    ensures TotalLen(ps) == |Concat(ps)|
    decreases ps
  {
    if ps != [] {
      TotalIsConcat(ps[1..]);
      TotalSkip(ps, 0);
      assert Skip(ps, 0) == ps[1..];
    }
  }

  predicate NonEmpty(ps: seq<SnPdu>)
  {
    forall i :: 0 <= i < |ps| ==> |ps[i].data| >= 1
  }

  /** Some of the fragments hold fewer octets than all of them: at least one fewer for each
      fragment that is not among them. */
  lemma {:induction false} PartTotal(ps: seq<SnPdu>, o: seq<nat>)
    requires NonEmpty(ps) && Distinct(o, |ps|)
    ensures TotalLen(Arrive(ps, o)) + |ps| - |o| <= TotalLen(ps)
    decreases |ps|
  {
    assert |o| > 0 ==> o[0] < |ps|;
    if ps != [] {
      var n := |ps| - 1;
      var t := ps[..n];
      if n in o {
        var k := SkipLast(ps, t, o, n);
        PartTotal(t, Skip(o, k));
      } else {
        AllInFront(ps, t, o, n);
        PartTotal(t, o);
      }
    }
  }

  lemma SkipLast(ps: seq<SnPdu>, t: seq<SnPdu>, o: seq<nat>, n: nat) returns (k: nat)
    requires |ps| == n + 1 && t == ps[..n] && Distinct(o, n + 1) && n in o
    ensures k < |o| && Distinct(Skip(o, k), n) && |Skip(o, k)| == |o| - 1
    ensures TotalLen(Arrive(ps, o)) == TotalLen(Arrive(t, Skip(o, k))) + |ps[n].data|
  {
    k :| 0 <= k < |o| && o[k] == n;
    SkipDistinct(o, k, n);
    SkipArrive(ps, t, o, k, n);
    hide Skip, TotalLen, Distinct;
    TotalSkip(Arrive(ps, o), k);
  }

  lemma SkipArrive(ps: seq<SnPdu>, t: seq<SnPdu>, o: seq<nat>, k: nat, n: nat)
    requires |ps| == n + 1 && t == ps[..n] && k < |o| && Distinct(o, n + 1) && Distinct(Skip(o, k), n)
    ensures Skip(Arrive(ps, o), k) == Arrive(t, Skip(o, k)) && |Skip(o, k)| == |o| - 1
  {
    assert Skip(Arrive(ps, o), k) == Arrive(t, Skip(o, k));
  }

  lemma AllInFront(ps: seq<SnPdu>, t: seq<SnPdu>, o: seq<nat>, n: nat)
    requires |ps| == n + 1 && t == ps[..n] && Distinct(o, n + 1) && n !in o
    ensures Distinct(o, n) && Arrive(ps, o) == Arrive(t, o)
  {
    forall i | 0 <= i < |o| ensures o[i] < n {
      assert o[i] in o;
    }
  }

  lemma SkipDistinct(o: seq<nat>, k: nat, n: nat)
    requires k < |o| && Distinct(o, n + 1) && o[k] == n
    ensures Distinct(Skip(o, k), n)
  {
    var s := Skip(o, k);
    assert forall i :: 0 <= i < |s| ==> s[i] == o[if i < k then i else i + 1];
  }

  predicate NonEmptyFrags(frags: seq<Frag>)
  {
    forall k :: 0 <= k < |frags| ==> |frags[k].data| >= 1
  }

  lemma {:induction false} SumLenAtLeast(frags: seq<Frag>)
    requires NonEmptyFrags(frags)
    ensures SumLen(frags) >= |frags|
    decreases frags
  {
    if frags != [] {
      SumLenAtLeast(frags[1..]);
    }
  }

  /** What the queue holds after total octets arrived in count PDUs: at least one octet less
      than all for each PDU whose entry is gone. */
  predicate Holding(st: Defrag, total: nat, count: nat)
  {
    && Valid(st) && st.highest <= 14 && NonEmptyFrags(st.frags) && |st.frags| <= count
    && SumLen(st.frags) + count - |st.frags| <= total
  }

  /** One more PDU keeps that, and hands up too little if more than fifteen were sent. */
  lemma HoldingStep(st: Defrag, p: SnPdu, total: nat, count: nat)
    requires Valid(st) && p.seg <= 14 && |p.data| >= 1 && count <= total
    requires p.first || Holding(st, total, count)
    ensures Holding(Input(st, p).0, total + |p.data|, count + 1)
    ensures Input(st, p).1.Delivered? ==> |Input(st, p).1.npdu| + count + 1 <= total + |p.data| + 15
  {
    var q := Enqueue(if p.first then Fresh(p.npdu) else st, p);
    HoldingQueue(st, p, total, count, q);
    hide Enqueue;
    HoldingFinish(q, total + |p.data|, count + 1);
  }

  lemma HoldingQueue(st: Defrag, p: SnPdu, total: nat, count: nat, q: Defrag)
    requires Valid(st) && p.seg <= 14 && |p.data| >= 1 && count <= total
    requires p.first || Holding(st, total, count)
    requires q == Enqueue(if p.first then Fresh(p.npdu) else st, p)
    ensures Holding(q, total + |p.data|, count + 1)
  {
    assert q.frags[1..] == if p.first then [] else st.frags;
  }

  lemma HoldingFinish(q: Defrag, total: nat, count: nat)
    requires Holding(q, total, count)
    ensures Holding(Finish(q).0, total, count)
    ensures Finish(q).1.Delivered? ==> |Finish(q).1.npdu| + count <= total + 15
  {
    hide *;
    HoldingParts(q, total, count);
    var rest, npdu := FinishParts(q);
    if Finish(q) != (q, Nothing) {
      CollectConserves(q.frags, 0, q.highest);
      CollectSegs(q.frags, 0, q.highest);
      NonEmptyRest(q.frags, rest);
      TakenAtLeast(q.frags, 0, q.highest);
      SumLenAtLeast(rest);
      HoldingRest(q, rest, total, count);
    }
  }

  /** Every entry taken out brings at least one octet. */
  lemma {:induction false} TakenAtLeast(frags: seq<Frag>, seg: nat, highest: nat)
    requires NonEmptyFrags(frags)
    ensures var c := Collect(frags, seg, highest); |c.npdu| >= |frags| - |c.rest|
    decreases highest + 1 - seg
  {
    var k := Find(frags, seg);
    if seg <= highest && k < |frags| {
      forall e | e in Without(frags, k) ensures e in frags {
      }
      NonEmptyRest(frags, Without(frags, k));
      TakenAtLeast(Without(frags, k), seg + 1, highest);
    }
  }

  lemma HoldingParts(q: Defrag, total: nat, count: nat)
    requires Holding(q, total, count)
    ensures Valid(q) && q.highest <= 14 && Segs(q.frags) && NonEmptyFrags(q.frags) && |q.frags| <= count
    ensures SumLen(q.frags) + count - |q.frags| <= total
  {
  }

  lemma HoldingRest(q: Defrag, rest: seq<Frag>, total: nat, count: nat)
    requires Valid(q) && q.highest <= 14 && Segs(rest) && NonEmptyFrags(rest) && |rest| <= count
    requires SumLen(rest) + count - |rest| <= total
    ensures Holding(q.(frags := rest), total, count)
  {
  }

  /** Either nothing is taken out, or segments 0 .. highest are. */
  lemma FinishParts(q: Defrag) returns (rest: seq<Frag>, npdu: seq<byte>)
    requires Valid(q)
    ensures rest == Collect(q.frags, 0, q.highest).rest && npdu == Collect(q.frags, 0, q.highest).npdu
    ensures Finish(q) == (q, Nothing)
         || Finish(q) == (q.(frags := rest), Delivered(npdu, q.totLen))
         || Finish(q) == (q.(frags := rest), Missing)
  {
    hide Collect, HaveAll;
    var c := Collect(q.frags, 0, q.highest);
    rest, npdu := c.rest, c.npdu;
  }

  lemma NonEmptyRest(frags: seq<Frag>, rest: seq<Frag>)
    requires NonEmptyFrags(frags) && forall e :: e in rest ==> e in frags
    ensures NonEmptyFrags(rest)
  {
    forall k | 0 <= k < |rest| ensures |rest[k].data| >= 1 {
      assert rest[k] in frags;
    }
  }

  lemma {:induction false} HoldingRun(st: Defrag, r: seq<SnPdu>, i: nat)
    requires Valid(st) && Pdus(r) && 0 < i <= |r| && r[0].first && NonEmpty(r)
    requires forall k :: 0 <= k < |r| ==> r[k].seg <= 14
    ensures Pdus(r[..i]) && Holding(After(st, r[..i]), TotalLen(r[..i]), i) && i <= TotalLen(r[..i])
    ensures OutputAt(st, r, i - 1).Delivered? ==> |OutputAt(st, r, i - 1).npdu| + i <= TotalLen(r[..i]) + 15
  {
    hide Input, Holding;
    AfterStep(st, r, i - 1);
    assert r[..i][..i - 1] == r[..i - 1];
    if i > 1 {
      HoldingRun(st, r, i - 1);
    } else {
      assert r[..0] == [];
    }
    HoldingStep(After(st, r[..i - 1]), r[i - 1], TotalLen(r[..i - 1]), i - 1);
  }

  /** More than fifteen fragments, each arriving once in any order: whatever is handed up is
      shorter than the N-PDU. */
  lemma TooMany(st: Defrag, ps: seq<SnPdu>, order: seq<nat>, i: nat)
    requires Valid(st) && |ps| > 15 && Order(order, |ps|) && i < |ps| && NonEmpty(ps) && ps[0].first
    requires forall k :: 0 <= k < |ps| ==> ps[k].seg <= 14
    ensures Pdus(Arrive(ps, order))
    ensures OutputAt(st, Arrive(ps, order), i).Delivered? ==>
              |OutputAt(st, Arrive(ps, order), i).npdu| < |Concat(ps)|
  {
    var r, o := Arrive(ps, order), order[..i + 1];
    hide *;
    OrderPart(ps, order, i, r, o);
    HoldingRun(st, r, i + 1);
    PartTotal(ps, o);
    TotalIsConcat(ps);
  }

  /** The first i + 1 PDUs to arrive are PDUs in an order of their own. */
  lemma OrderPart(ps: seq<SnPdu>, order: seq<nat>, i: nat, r: seq<SnPdu>, o: seq<nat>)
    requires |ps| > 15 && Order(order, |ps|) && i < |ps| && NonEmpty(ps) && ps[0].first
    requires forall k :: 0 <= k < |ps| ==> ps[k].seg <= 14
    requires r == Arrive(ps, order) && o == order[..i + 1]
    ensures Pdus(r) && |r| == |ps| && r[0].first && NonEmpty(r) && forall k :: 0 <= k < |r| ==> r[k].seg <= 14
    ensures Distinct(o, |ps|) && Arrive(ps, o) == r[..i + 1]
  {
  }

  // ---- both together ----

  /** The PDUs a receiver reads when the frames of the fragments of msg arrive in an order. */
  function ReadInOrder(frames: seq<seq<byte>>, order: seq<nat>): (r: seq<SnPdu>)
    requires forall i :: 0 <= i < |order| ==> order[i] < |frames| && HasHeader(frames[order[i]])
    ensures |r| == |order| && Pdus(r)
  {
    seq(|order|, i requires 0 <= i < |order| => Read(frames[order[i]]))
  }

  /** The frames a fragmented message is sent in. */
  function Frames(msg: seq<byte>, nsapi: nat, npdu: nat, n201u: nat): (r: seq<seq<byte>>)
    requires n201u > 4 && msg != [] && nsapi < 16 && npdu < 0x1000
    ensures |r| == |Fragments(msg, nsapi, npdu, n201u, 0, 0)|
    ensures forall i :: 0 <= i < |r| ==> HasHeader(r[i])
  {
    var ps := Fragments(msg, nsapi, npdu, n201u, 0, 0);
    BuiltFragments(msg, nsapi, npdu, n201u, ps);
    BuildAll(ps)
  }

  predicate Buildable(ps: seq<SnPdu>)
  {
    forall i :: 0 <= i < |ps| ==> InFields(ps[i]) && HasHeader(Build(ps[i])) && Read(Build(ps[i])) == ps[i]
  }

  function BuildAll(ps: seq<SnPdu>): (r: seq<seq<byte>>)
    requires Buildable(ps)
    ensures |r| == |ps| && forall i :: 0 <= i < |r| ==> r[i] == Build(ps[i]) && HasHeader(r[i])
  {
    seq(|ps|, i requires 0 <= i < |ps| => Build(ps[i]))
  }

  lemma BuiltFragments(msg: seq<byte>, nsapi: nat, npdu: nat, n201u: nat, ps: seq<SnPdu>)
    requires n201u > 4 && msg != [] && nsapi < 16 && npdu < 0x1000
    requires ps == Fragments(msg, nsapi, npdu, n201u, 0, 0)
    ensures Buildable(ps) && NonEmpty(ps) && forall i :: 0 <= i < |ps| ==> ps[i].seg <= 14
  {
    hide Fragments;
    forall i | 0 <= i < |ps|
      ensures InFields(ps[i]) && HasHeader(Build(ps[i])) && Read(Build(ps[i])) == ps[i]
      ensures |ps[i].data| >= 1 && ps[i].seg <= 14
    {
      FragmentFields(msg, nsapi, npdu, n201u, 0, 0, i);
      ReadBuild(ps[i]);
      hide Build, Read, HasHeader;
    }
  }

  lemma ReadArrives(msg: seq<byte>, nsapi: nat, npdu: nat, n201u: nat, order: seq<nat>)
    requires n201u > 4 && msg != [] && nsapi < 16 && npdu < 0x1000
    requires Order(order, |Frames(msg, nsapi, npdu, n201u)|)
    ensures ReadInOrder(Frames(msg, nsapi, npdu, n201u), order)
         == Arrive(Fragments(msg, nsapi, npdu, n201u, 0, 0), order)
  {
    hide Fragments, Build, Read;
    BuiltFragments(msg, nsapi, npdu, n201u, Fragments(msg, nsapi, npdu, n201u, 0, 0));
  }

  /** The round trip. The frames of a message arrive once each, the first one first: if the
      message is shorter than 15*(N201-U - 3) octets, nothing comes out until the last frame
      arrives and then exactly the message does; otherwise the message never comes out. */
  lemma RoundTrip(st: Defrag, msg: seq<byte>, nsapi: nat, npdu: nat, n201u: nat, order: seq<nat>, i: nat)
    requires Valid(st) && n201u > 4 && msg != [] && nsapi < 16 && npdu < 0x1000
    requires Order(order, |Frames(msg, nsapi, npdu, n201u)|) && i < |order|
    ensures var out := OutputAt(st, ReadInOrder(Frames(msg, nsapi, npdu, n201u), order), i);
            if |msg| < 15 * (n201u - 3)
            then out == (if i == |order| - 1 then Delivered(msg, |msg|) else Nothing)
            else !(out.Delivered? && out.npdu == msg)
  {
    var ps := Fragments(msg, nsapi, npdu, n201u, 0, 0);
    hide Fragments, Frames, ReadInOrder, OutputAt, Concat;
    ReadArrives(msg, nsapi, npdu, n201u, order);
    FragmentsCover(msg, nsapi, npdu, n201u, 0, 0);
    assert msg[0..] == msg;
    if |msg| < 15 * (n201u - 3) {
      FragmentsNumbered(msg, nsapi, npdu, n201u);
      AnyOrder(st, ps, order, i);
    } else {
      FifteenFragments(msg, nsapi, npdu, n201u);
      BuiltFragments(msg, nsapi, npdu, n201u, ps);
      FragmentFields(msg, nsapi, npdu, n201u, 0, 0, 0);
      TooMany(st, ps, order, i);
    }
  }
}
