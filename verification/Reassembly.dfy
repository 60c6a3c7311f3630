/** The reassembly state of gprs_sndcp.c as a value, one step per PDU, and what holds after
    any run of PDUs. */
module Reassembly {
  import opened Bytes
  import opened SndcpPdu
  import opened SegmentMask

  /** defrag_queue_entry */
  datatype Frag = Frag(seg: nat, data: seq<byte>)

  /** defrag_state */
  datatype Defrag = Defrag(npdu: nat, highest: nat, have: bv32, noMore: bool, totLen: nat, frags: seq<Frag>)

  /** What one PDU leads to: nothing yet, an N-PDU with the length it is handed up with, or
      the -EIO for a missing segment. */
  datatype Output = Nothing | Delivered(npdu: seq<byte>, len: nat) | Missing

  predicate Segs(frags: seq<Frag>)
  {
    forall k :: 0 <= k < |frags| ==> frags[k].seg < 16
  }

  predicate Valid(st: Defrag)
  {
    st.highest < 16 && Segs(st.frags)
  }

  // ---- defrag_get_seg ----

  /** The position of the first queue entry for a segment. */
  function Find(frags: seq<Frag>, seg: nat): (k: nat)
    ensures k <= |frags|
    ensures k < |frags| ==> frags[k].seg == seg
    ensures forall j :: 0 <= j < k ==> frags[j].seg != seg
    decreases frags
  {
    if frags == [] || frags[0].seg == seg then 0 else 1 + Find(frags[1..], seg)
  }

  function Without(frags: seq<Frag>, k: nat): seq<Frag>
    requires k < |frags|
  {
    frags[..k] + frags[k + 1..]
  }

  // ---- defrag_segments ----

  datatype Collected = Collected(rest: seq<Frag>, npdu: seq<byte>, complete: bool)

  /** Takes segments seg .. highest out of the queue and puts their data together, up to the
      first one that is missing. */
  function Collect(frags: seq<Frag>, seg: nat, highest: nat): Collected
    decreases highest + 1 - seg
  {
    if seg > highest then Collected(frags, [], true)
    else
      var k := Find(frags, seg);
      if k == |frags| then Collected(frags, [], false)
      else
        var c := Collect(Without(frags, k), seg + 1, highest);
        Collected(c.rest, frags[k].data + c.npdu, c.complete)
  }

  // ---- defrag_input ----

  function Fresh(npdu: nat): Defrag
  {
    Defrag(npdu, 0, 0, false, 0, [])
  }

  function Enqueue(st: Defrag, p: SnPdu): Defrag
    requires p.seg < 16
  {
    st.(highest := if p.seg > st.highest then p.seg else st.highest,
        have := Or(st.have, Bit(p.seg)),
        noMore := st.noMore || !p.more,
        totLen := st.totLen + |p.data|,
        frags := [Frag(p.seg, p.data)] + st.frags)
  }

  predicate HaveAll(st: Defrag)
    requires st.highest < 16
  {
    Needed(st.highest) == st.have
  }

  /** Hands the N-PDU up if everything is there. */
  function Finish(st: Defrag): (Defrag, Output)
    requires st.highest < 16
  {
    if st.noMore && HaveAll(st) then
      var c := Collect(st.frags, 0, st.highest);
      (st.(frags := c.rest), if c.complete then Delivered(c.npdu, st.totLen) else Missing)
    else (st, Nothing)
  }

  function Input(st: Defrag, p: SnPdu): (Defrag, Output)
    requires Valid(st) && p.seg < 16
  {
    Finish(Enqueue(if p.first then Fresh(p.npdu) else st, p))
  }

  // ---- runs ----

  predicate Pdus(ps: seq<SnPdu>)
  {
    forall k :: 0 <= k < |ps| ==> ps[k].seg < 16
  }

  lemma {:induction false} CollectSegs(frags: seq<Frag>, seg: nat, highest: nat)
    requires Segs(frags)
    ensures Segs(Collect(frags, seg, highest).rest)
    decreases highest + 1 - seg
  {
    if seg <= highest && Find(frags, seg) < |frags| {
      CollectSegs(Without(frags, Find(frags, seg)), seg + 1, highest);
    }
  }

  lemma InputValid(st: Defrag, p: SnPdu)
    requires Valid(st) && p.seg < 16
    ensures Valid(Input(st, p).0)
  {
    var e := Enqueue(if p.first then Fresh(p.npdu) else st, p);
    CollectSegs(e.frags, 0, e.highest);
  }

  /** The state after a run of PDUs. */
  function After(st: Defrag, ps: seq<SnPdu>): (r: Defrag)
    requires Valid(st) && Pdus(ps)
    ensures Valid(r)
  {
    if ps == [] then st
    else
      var before := After(st, ps[..|ps|-1]);
      InputValid(before, ps[|ps|-1]);
      Input(before, ps[|ps|-1]).0
  }

  /** What PDU i of a run leads to. */
  function OutputAt(st: Defrag, ps: seq<SnPdu>, i: nat): Output
    requires Valid(st) && Pdus(ps) && i < |ps|
  {
    Input(After(st, ps[..i]), ps[i]).1
  }

  lemma AfterStep(st: Defrag, ps: seq<SnPdu>, i: nat)
    requires Valid(st) && Pdus(ps) && i < |ps|
    ensures Pdus(ps[..i]) && Pdus(ps[..i + 1])
    ensures After(st, ps[..i + 1]) == Input(After(st, ps[..i]), ps[i]).0
  {
    assert ps[..i + 1][..i] == ps[..i];
  }

  /** A run that starts with a first segment and has no other. */
  predicate OneNpdu(ps: seq<SnPdu>)
  {
    ps != [] && Pdus(ps) && ps[0].first && forall k :: 0 < k < |ps| ==> !ps[k].first
  }

  // ---- the bookkeeping of a run ----

  function MaskOf(ps: seq<SnPdu>): bv32
    requires Pdus(ps)
  {
    if ps == [] then 0 else Or(MaskOf(ps[..|ps|-1]), Bit(ps[|ps|-1].seg))
  }

  function MaxSeg(ps: seq<SnPdu>): (m: nat)
    requires Pdus(ps)
    ensures m < 16
    ensures forall k :: 0 <= k < |ps| ==> ps[k].seg <= m
    ensures ps != [] ==> exists k :: 0 <= k < |ps| && ps[k].seg == m
  {
    if ps == [] then 0
    else
      var m := MaxSeg(ps[..|ps|-1]);
      if ps[|ps|-1].seg > m || |ps| == 1 then
        assert ps[|ps|-1].seg >= m;
        ps[|ps|-1].seg
      else
        var t := ps[..|ps|-1];
        assert exists k :: 0 <= k < |t| && t[k].seg == m && ps[k] == t[k];
        m
  }

  function TotalLen(ps: seq<SnPdu>): nat
  {
    if ps == [] then 0 else TotalLen(ps[..|ps|-1]) + |ps[|ps|-1].data|
  }

  predicate SeenLast(ps: seq<SnPdu>)
  {
    exists k :: 0 <= k < |ps| && !ps[k].more
  }

  predicate HasSeg(ps: seq<SnPdu>, i: nat)
  {
    exists k :: 0 <= k < |ps| && ps[k].seg == i
  }

  /** At every step since the first segment, the mask, the maximum and the total length are
      those of the PDUs received, and the end flag says whether the last one was among them. */
  lemma {:induction false} Bookkeeping(st: Defrag, ps: seq<SnPdu>)
    requires Valid(st) && OneNpdu(ps)
    ensures var r := After(st, ps);
            && r.npdu == ps[0].npdu
            && r.have == MaskOf(ps) && r.highest == MaxSeg(ps) && r.totLen == TotalLen(ps)
            && (r.noMore <==> SeenLast(ps))
  {
    hide Collect, Needed, Or, Bit;
    var t := ps[..|ps|-1];
    var p := ps[|ps|-1];
    if |ps| == 1 {
      assert t == [];
    } else {
      Bookkeeping(st, t);
      assert SeenLast(ps) <==> SeenLast(t) || !p.more by {
        if SeenLast(t) {
          var k :| 0 <= k < |t| && !t[k].more;
          assert !ps[k].more;
        }
      }
    }
  }

  /** The mask is exactly the set of segment numbers received. */
  lemma {:induction false} MaskIsSet(ps: seq<SnPdu>, i: nat)
    requires Pdus(ps) && i < 16
    ensures Has(MaskOf(ps), i) <==> HasSeg(ps, i)
    ensures Narrow(MaskOf(ps))
  {
    hide Has, Or, Bit, Narrow;
    if ps == [] {
      EmptyHas(i);
    } else {
      var t := ps[..|ps|-1];
      MaskIsSet(t, i);
      OrHas(MaskOf(t), ps[|ps|-1].seg, i);
      OrNarrow(MaskOf(t), ps[|ps|-1].seg);
      if HasSeg(t, i) {
        var k :| 0 <= k < |t| && t[k].seg == i;
        assert ps[k].seg == i;
      }
      if HasSeg(ps, i) && ps[|ps|-1].seg != i {
        var k :| 0 <= k < |ps| && ps[k].seg == i;
        assert t[k].seg == i;
      }
    }
  }

  /** The comparison of masks asks whether every segment up to the highest was received. */
  lemma NeededIsMask(ps: seq<SnPdu>)
    requires Pdus(ps) && ps != []
    ensures Needed(MaxSeg(ps)) == MaskOf(ps) <==> forall i: nat :: i <= MaxSeg(ps) ==> HasSeg(ps, i)
  {
    hide Has, Needed, Narrow, MaskOf;
    var m := MaxSeg(ps);
    forall i: nat | i < 16 ensures (Has(Needed(m), i) <==> i <= m) && (Has(MaskOf(ps), i) <==> HasSeg(ps, i)) {
      NeededHas(m, i);
      MaskIsSet(ps, i);
    }
    NeededHas(m, 0);
    MaskIsSet(ps, 0);
    if forall i: nat :: i <= m ==> HasSeg(ps, i) {
      SameMask(Needed(m), MaskOf(ps));
    }
  }
}
