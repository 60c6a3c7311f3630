/** The SNDCP entity of gprs_sndcp.c: fragments out through its LLC entity, and the
    reassembly of what comes in. */
module SndcpEntity {
  import opened Bytes
  import opened Wrappers
  import opened Llc
  import opened LlcNumbering
  import opened LlcEntity
  import opened SndcpPdu
  import opened SegmentMask
  import opened Reassembly
  import opened Seqs

  // ---- what is sent ----

  /** The single PDU of a message that is not fragmented. */
  function Single(msg: seq<byte>, nsapi: nat, npdu: nat): SnPdu
  {
    SnPdu(nsapi, false, true, npdu, 0, msg)
  }

  /** The PDUs a message is sent in over a link that takes n201u octets. */
  function SentPdus(msg: seq<byte>, nsapi: nat, npdu: nat, n201u: nat): seq<SnPdu>
    requires n201u > 4
  {
    if |msg| > n201u - HeaderLen(true) then Fragments(msg, nsapi, npdu, n201u, 0, 0)
    else [Single(msg, nsapi, npdu)]
  }

  /** PDU i of the n that a message is sent in: the first flag and the segment number follow an
      eight-bit counter. */
  predicate AsSent(p: SnPdu, nsapi: nat, npdu: nat, n201u: nat, i: nat, n: nat)
  {
    && p.nsapi == nsapi && p.npdu == npdu && p.seg == i % 256 % 15
    && (p.first <==> i % 256 == 0) && (p.more <==> i < n - 1)
    && HeaderLen(p.first) + |p.data| <= n201u
  }

  /** Whatever a message is sent in, fragmented or not, carries all of it and no more, in order and
      with the right flags; it is a single PDU exactly up to N201-U - 4 octets, and below
      256*(N201-U - 3) only the first one is marked first. */
  lemma SentPdusCarry(msg: seq<byte>, nsapi: nat, npdu: nat, n201u: nat)
    requires n201u > 4 && nsapi < 16 && npdu < 0x1000
    ensures var ps := SentPdus(msg, nsapi, npdu, n201u);
            && Concat(ps) == msg
            && (forall i :: 0 <= i < |ps| ==> AsSent(ps[i], nsapi, npdu, n201u, i, |ps|))
            && (|ps| == 1 <==> |msg| <= n201u - 4)
            && (|ps| <= 256 <==> |msg| < 256 * (n201u - 3))
  {
    hide Fragments;
    if |msg| > n201u - HeaderLen(true) {
      var ps := Fragments(msg, nsapi, npdu, n201u, 0, 0);
      FragmentsCover(msg, nsapi, npdu, n201u, 0, 0);
      forall i | 0 <= i < |ps| ensures AsSent(ps[i], nsapi, npdu, n201u, i, |ps|) {
        FragmentFields(msg, nsapi, npdu, n201u, 0, 0, i);
      }
      FragmentCount(msg, nsapi, npdu, n201u, 1);
      FragmentCount(msg, nsapi, npdu, n201u, 256);
      CapacityIs(1, n201u - 3);
      CapacityIs(256, n201u - 3);
    } else {
      ConcatCons(Single(msg, nsapi, npdu), []);
      assert [Single(msg, nsapi, npdu)] + [] == [Single(msg, nsapi, npdu)];
    }
  }

  predicate AllInFields(ps: seq<SnPdu>)
  {
    forall i :: 0 <= i < |ps| ==> InFields(ps[i])
  }

  /** The LLC frames that carry PDUs, numbered from nu on. */
  function LlcFrames(sapi: nat, nu: nat, ps: seq<SnPdu>): (r: seq<seq<byte>>)
    requires sapi < 16 && AllInFields(ps)
    ensures |r| == |ps|
    ensures forall i :: 0 <= i < |r| ==> r[i] == UiFrame(sapi, false, (nu + i) % 512, Build(ps[i]))
  {
    seq(|ps|, i requires 0 <= i < |ps| => UiFrame(sapi, false, (nu + i) % 512, Build(ps[i])))
  }

  /** The sender's counters after n more frames. */
  function TxAfter(c: Counters, n: nat): Counters
  {
    if n == 0 then c else TxNext(TxAfter(c, n - 1))
  }

  lemma {:induction false} TxAfterVu(c: Counters, n: nat)
    requires c.vu < 512
    ensures TxAfter(c, n).vu == (c.vu + n) % 512
  {
    if n > 0 {
      TxAfterVu(c, n - 1);
      NextVu(TxAfter(c, n - 1));
      NextMod(c.vu + n - 1);
      hide TxNext;
    }
  }

  lemma NextVu(c: Counters)
    ensures TxNext(c).vu == (c.vu + 1) % 512
  {
  }

  lemma NextMod(x: nat)
    ensures (x % 512 + 1) % 512 == (x + 1) % 512
  {
  }

  lemma TxAfterNext(c: Counters, n: nat)
    ensures TxAfter(c, n + 1) == TxNext(TxAfter(c, n))
  {
  }

  lemma NothingSent(c: Counters, sapi: nat, nu: nat)
    requires sapi < 16
    ensures AllInFields([]) && LlcFrames(sapi, nu, []) == [] && TxAfter(c, 0) == c
  {
  }

  lemma OneMore(sapi: nat, nu: nat, ps: seq<SnPdu>, p: SnPdu)
    requires sapi < 16 && AllInFields(ps) && InFields(p)
    ensures AllInFields(ps + [p])
    ensures LlcFrames(sapi, nu, ps + [p])
         == LlcFrames(sapi, nu, ps) + [UiFrame(sapi, false, (nu + |ps|) % 512, Build(p))]
  {
    hide UiFrame, Build, InFields;
  }

  /** The fields of a fragment, as the source computes them. */
  lemma FragmentParts(msg: seq<byte>, nsapi: nat, npdu: nat, n201u: nat, fragNr: nat, off: nat)
    requires n201u > 4 && nsapi < 16 && npdu < 0x1000 && fragNr < 256 && off < |msg|
    ensures var len := FragmentLen(|msg| - off, n201u, fragNr);
            && var room := n201u - COMMON_HDR - UDATA_HDR - (if fragNr == 0 then COMP_HDR else 0);
            && len == (if |msg| - off > room then room else |msg| - off)
            && Fragment(msg, nsapi, npdu, n201u, fragNr, off)
               == SnPdu(nsapi, off + len < |msg|, fragNr == 0, npdu, fragNr % 15, msg[off..off + len])
            && InFields(Fragment(msg, nsapi, npdu, n201u, fragNr, off))
  {
  }

  /** sndcp_frag_state */
  class FragState {
    const msg: seq<byte>
    var fragNr: nat
    var nextByte: nat

    constructor (msg: seq<byte>)
      ensures this.msg == msg && fragNr == 0 && nextByte == 0
    {
      this.msg := msg;
      fragNr, nextByte := 0, 0;
    }
  }

  // ---- what is received ----

  /** What sndcp_llunitdata_ind makes of a PDU: an error, a fragment with what it led to, or
      an N-PDU in a single PDU, with what is handed up. */
  datatype Indication = Rejected(error: Error) | Fragmented(output: Output) | Unfragmented(npdu: seq<byte>)

  predicate GoesToReassembly(f: seq<byte>)
    requires f != []
  {
    IsUnitdata(f) && |f| >= 3 && (!IsFirst(f) || IsMore(f))
  }

  /** sndcp_llunitdata_ind on a PDU, with the octets that the message buffer holds behind it: an
      N-PDU in a single PDU is handed up to the end of the buffer. */
  function Indicate(st: Defrag, f: seq<byte>, behind: seq<byte>): (r: (Defrag, Indication))
    requires Reassembly.Valid(st) && f != [] && (GoesToReassembly(f) ==> HasHeader(f))
  {
    if !IsUnitdata(f) then (st, Rejected(EINVAL))
    else if |f| < COMMON_HDR + UDATA_HDR then (st, Rejected(EIO))
    else if GoesToReassembly(f) then
      var s := Input(st, Read(f));
      (s.0, Fragmented(s.1))
    else if f[1] != 0 || |f + behind| <= HeaderLen(true) then (st, Rejected(EIO))
    else (st, Unfragmented((f + behind)[HeaderLen(true)..]))
  }

  /** What becomes of a PDU by its fields: all but a first one that is the last one, too, go to
      reassembly, and that one is handed up with whatever the buffer holds behind it. */
  lemma IndicatesBuilt(st: Defrag, p: SnPdu, behind: seq<byte>)
    requires Reassembly.Valid(st) && InFields(p)
    ensures var f := Build(p);
            && f != [] && (GoesToReassembly(f) <==> !p.first || p.more) && HasHeader(f)
            && Indicate(st, f, behind)
               == if !p.first || p.more then (Input(st, p).0, Fragmented(Input(st, p).1))
                  else if p.data + behind == [] then (st, Rejected(EIO))
                  else (st, Unfragmented(p.data + behind))
  {
    var f := Build(p);
    ReadBuild(p);
    Places(p);
    hide Build, Input, CommonOctet, Octet, IsMore, IsFirst, IsUnitdata;
    assert IsFirst(f) == Read(f).first && IsMore(f) == Read(f).more;
    if p.first && !p.more {
      assert (f + behind)[HeaderLen(true)..] == f[HeaderLen(true)..] + behind;
    }
  }

  /** The same by the bits of the first octet, for whatever arrives. */
  lemma IndicatesByBits(st: Defrag, f: seq<byte>, behind: seq<byte>)
    requires Reassembly.Valid(st) && f != [] && (GoesToReassembly(f) ==> HasHeader(f))
    ensures var r := Indicate(st, f, behind).1;
            && (r == Rejected(EINVAL) <==> f[0] & 0x20 == 0)
            && (r.Fragmented? <==> f[0] & 0x20 != 0 && |f| >= 3 && (f[0] & 0x40 == 0 || f[0] & 0x10 != 0))
            && (r.Unfragmented? <==> f[0] & 0x70 == 0x60 && |f| >= 3 && f[1] == 0 && |f + behind| > 4)
  {
    HeaderBits(f[0]);
    hide Input, Read, Upper;
  }

  lemma HeaderBits(b: byte)
    ensures Upper(b) % 2 == 1 <==> b & 0x10 != 0
    ensures Upper(b) / 2 % 2 == 1 <==> b & 0x20 != 0
    ensures Upper(b) / 4 % 2 == 1 <==> b & 0x40 != 0
    ensures b & 0x70 == 0x60 <==> b & 0x10 == 0 && b & 0x20 != 0 && b & 0x40 != 0
  {
  }

  /** The length check of sndcp_llunitdata_ind suffices for a PDU that goes to reassembly exactly
      if that is not a first fragment of three octets: for such a one the source takes four
      octets of header off three. */
  lemma HeaderCheckIff(f: seq<byte>)
    requires f != [] && GoesToReassembly(f)
    ensures HasHeader(f) <==> !(|f| == 3 && IsFirst(f) && IsMore(f))
  {
    hide IsUnitdata;
  }

  /** There is such a PDU for every NSAPI. */
  lemma ShortFirstFragment(nsapi: nat)
    requires nsapi < 16
    ensures var f := [Octet(7, nsapi), 0, 0];
            GoesToReassembly(f) && !HasHeader(f) && Lower(f[0]) == nsapi
  {
    OctetParts(7, nsapi);
    hide Octet, Upper;
  }

  class Sndcp {
    const lle: Lle
    const nsapi: nat
    var txNpduNr: nat
    // defrag_state
    var npdu: nat
    var highestSeg: nat
    var segHave: bv32
    var noMore: bool
    var totLen: nat
    var fragList: seq<Frag>

    function State(): Defrag
      reads this
    {
      Defrag(npdu, highestSeg, segHave, noMore, totLen, fragList)
    }

    ghost predicate Valid()
      reads this, lle
    {
      && nsapi < 16 && txNpduNr < 0xfff && Reassembly.Valid(State())
      && lle.Valid() && N201U(lle.sapi) > 4
    }

    constructor (lle: Lle, nsapi: nat)
      requires nsapi < 16 && lle.Valid() && N201U(lle.sapi) > 4
      ensures Valid() && this.lle == lle && this.nsapi == nsapi && txNpduNr == 0
      ensures State() == Fresh(0)
    {
      this.lle, this.nsapi, txNpduNr := lle, nsapi, 0;
      npdu, highestSeg, segHave, noMore, totLen, fragList := 0, 0, 0, false, 0, [];
    }

    /** The parts of the invariant that sending relies on. */
    lemma Parts()
      requires Valid()
      ensures nsapi < 16 && txNpduNr < 0x1000 && N201U(lle.sapi) > 4 && lle.sapi < 16
      ensures lle.Tx().vu == lle.vuSend < 512
    {
    }

    // ---- sending ----

    /** sndcp_send_ud_frag: sends the next fragment; more says whether any is left. */
    method SendUdFrag(fs: FragState) returns (frame: seq<byte>, more: bool)
      requires Valid() && fs.fragNr < 256 && fs.nextByte < |fs.msg|
      modifies this`txNpduNr, lle, fs
      ensures Valid()
      ensures var p := Fragment(fs.msg, nsapi, old(txNpduNr), N201U(lle.sapi), old(fs.fragNr), old(fs.nextByte));
              && InFields(p)
              && frame == UiFrame(lle.sapi, false, old(lle.vuSend), Build(p))
              && more == p.more
      ensures more ==>
                && fs.nextByte == old(fs.nextByte)
                   + FragmentLen(|fs.msg| - old(fs.nextByte), N201U(lle.sapi), old(fs.fragNr))
                && old(fs.nextByte) < fs.nextByte < |fs.msg|
                && fs.fragNr == (old(fs.fragNr) + 1) % 256
      ensures lle.Tx() == TxNext(old(lle.Tx())) && lle.Rx() == old(lle.Rx())
      ensures txNpduNr == if more then old(txNpduNr) else (old(txNpduNr) + 1) % 0xfff
    {
      hide UiFrame, Build, TxNext, N201U, Reassembly.Valid, Fragment, FragmentLen;
      var n201u := N201U(lle.sapi);
      FragmentParts(fs.msg, nsapi, txNpduNr, n201u, fs.fragNr, fs.nextByte);
      var first := fs.fragNr == 0;
      var segNr := fs.fragNr % 15;
      var len := |fs.msg| - fs.nextByte;
      var maxPayloadLen := n201u - (COMMON_HDR + UDATA_HDR);
      if first {
        maxPayloadLen := maxPayloadLen - COMP_HDR;
      }
      if len > maxPayloadLen {
        len := maxPayloadLen;
      }
      var data := fs.msg[fs.nextByte..fs.nextByte + len];
      var nu := lle.vuSend;
      fs.fragNr := (fs.fragNr + 1) % 256;
      fs.nextByte := fs.nextByte + len;
      more := fs.nextByte < |fs.msg|;
      var p := SnPdu(nsapi, more, first, txNpduNr, segNr, data);
      var rc := lle.TxUi(Build(p), false);
      frame := rc.value;
      if !more {
        fs.fragNr, fs.nextByte := 0, 0;
        txNpduNr := (txNpduNr + 1) % 0xfff;
      }
    }

    /** sndcp_unitdata_req */
    method UnitdataReq(msg: seq<byte>) returns (frames: seq<seq<byte>>)
      requires Valid()
      modifies this`txNpduNr, lle
      ensures Valid()
      ensures var ps := SentPdus(msg, nsapi, old(txNpduNr), N201U(lle.sapi));
              && AllInFields(ps)
              && frames == LlcFrames(lle.sapi, old(lle.vuSend), ps)
              && lle.Tx() == TxAfter(old(lle.Tx()), |ps|)
      ensures txNpduNr == (old(txNpduNr) + 1) % 0xfff
    {
      hide UiFrame, Build, TxNext, N201U, Reassembly.Valid, Fragments;
      var n201u := N201U(lle.sapi);
      if |msg| > n201u - HeaderLen(true) {
        frames := SendFragments(msg);
      } else {
        var p := Single(msg, nsapi, txNpduNr);
        txNpduNr := (txNpduNr + 1) % 0xfff;
        var rc := lle.TxUi(Build(p), false);
        frames := [rc.value];
      }
    }

    /** The sending loop of sndcp_unitdata_req. */
    method SendFragments(msg: seq<byte>) returns (frames: seq<seq<byte>>)
      requires Valid() && msg != []
      modifies this`txNpduNr, lle
      ensures Valid()
      ensures var ps := Fragments(msg, nsapi, old(txNpduNr), N201U(lle.sapi), 0, 0);
              && AllInFields(ps)
              && frames == LlcFrames(lle.sapi, old(lle.vuSend), ps)
              && lle.Tx() == TxAfter(old(lle.Tx()), |ps|)
      ensures txNpduNr == (old(txNpduNr) + 1) % 0xfff
    {
      hide *;
      Parts();
      NothingSent(lle.Tx(), lle.sapi, lle.vuSend);
      var n201u := N201U(lle.sapi);
      var fs := new FragState(msg);
      var more := true;
      ghost var npduNr := txNpduNr;
      ghost var tx := lle.Tx();
      ghost var ps: seq<SnPdu> := [];
      ghost var left := Fragments(msg, nsapi, npduNr, n201u, 0, 0);
      ghost var all := left;
      assert all == ps + left;
      frames := [];
      while more
        invariant Valid() && nsapi < 16 && txNpduNr < 0x1000 && lle.sapi < 16 && n201u > 4
        invariant lle.Tx().vu == lle.vuSend && AllInFields(ps) && fs.msg == msg && n201u == N201U(lle.sapi)
        invariant more ==> fs.fragNr < 256 && fs.nextByte < |msg| && txNpduNr == npduNr
        invariant !more ==> txNpduNr == (npduNr + 1) % 0xfff
        invariant all == ps + left
        invariant left == if more then Fragments(msg, nsapi, npduNr, n201u, fs.fragNr, fs.nextByte) else []
        invariant frames == LlcFrames(lle.sapi, tx.vu, ps)
        invariant lle.Tx() == TxAfter(tx, |ps|)
        decreases more, |msg| - fs.nextByte
      {
        ghost var head, rest, next := Cut(msg, nsapi, npduNr, n201u, fs.fragNr, fs.nextByte);
        TxAfterVu(tx, |ps|);
        var frame;
        frame, more := SendUdFrag(fs);
        OneMore(lle.sapi, tx.vu, ps, head);
        TxAfterNext(tx, |ps|);
        Parts();
        frames := frames + [frame];
        MoveOne(ps, head, rest);
        ps, left := ps + [head], rest;
      }
      assert ps + left == ps;
    }

    // ---- reassembly ----

    /** defrag_enqueue */
    method DefragEnqueue(segNr: nat, data: seq<byte>)
      requires segNr < 16
      modifies this`highestSeg, this`segHave, this`totLen, this`fragList
      ensures State() == Enqueue(old(State()), SnPdu(nsapi, true, false, npdu, segNr, data))
    {
      fragList := [Frag(segNr, data)] + fragList;
      if segNr > highestSeg {
        highestSeg := segNr;
      }
      segHave := Or(segHave, Bit(segNr));
      totLen := totLen + |data|;
    }

    /** defrag_have_all_segments */
    method DefragHaveAllSegments() returns (all: bool)
      requires highestSeg < 16
      ensures all <==> HaveAll(State())
    {
      var segNeeded: bv32 := 0;
      var i := 0;
      hide Or, Bit;
      OrZeroLeft(Bit(0));
      while i <= highestSeg
        invariant i <= highestSeg + 1
        invariant segNeeded == if i == 0 then 0 else Needed(i - 1)
      {
        segNeeded := Or(segNeeded, Bit(i));
        i := i + 1;
      }
      all := segNeeded == segHave;
    }

    /** defrag_get_seg */
    method DefragGetSeg(segNr: nat) returns (dqe: Option<Frag>)
      modifies this`fragList
      ensures var k := Find(old(fragList), segNr);
              if k == |old(fragList)| then dqe == None && fragList == old(fragList)
              else dqe == Some(old(fragList)[k]) && fragList == Without(old(fragList), k)
    {
      var i := 0;
      while i < |fragList|
        invariant i <= |fragList| && fragList == old(fragList)
        invariant i <= Find(fragList, segNr)
      {
        if fragList[i].seg == segNr {
          dqe := Some(fragList[i]);
          fragList := Without(fragList, i);
          return;
        }
        i := i + 1;
      }
      dqe := None;
    }

    /** defrag_segments: the N-PDU, or the error for a missing segment. */
    method DefragSegments() returns (out: Output)
      modifies this`fragList
      ensures var c := Collect(old(fragList), 0, highestSeg);
              && fragList == c.rest
              && out == if c.complete then Delivered(c.npdu, totLen) else Missing
    {
      hide *;
      var msg := [];
      var segNr := 0;
      CollectStep(fragList, 0, highestSeg);
      while segNr <= highestSeg
        invariant segNr <= highestSeg + 1
        invariant var c := Collect(fragList, segNr, highestSeg);
                  Collect(old(fragList), 0, highestSeg) == Collected(c.rest, msg + c.npdu, c.complete)
      {
        CollectStep(fragList, segNr, highestSeg);
        var dqe := DefragGetSeg(segNr);
        if dqe == None {
          return Missing;
        }
        msg := msg + dqe.value.data;
        segNr := segNr + 1;
      }
      CollectStep(fragList, segNr, highestSeg);
      out := Delivered(msg, totLen);
    }

    /** defrag_input */
    method DefragInput(f: seq<byte>) returns (out: Output)
      requires Valid() && HasHeader(f)
      modifies this
      ensures Valid() && txNpduNr == old(txNpduNr)
      ensures (State(), out) == Input(old(State()), Read(f))
    {
      var p := Read(f);
      InputValid(State(), p);
      InputIs(State(), p, nsapi);
      hide Read, Collect, HaveAll, Reassembly.Valid, Enqueue, Finish, Input, N201U;
      if p.first {
        fragList := [];
        npdu := p.npdu;
        noMore, highestSeg, segHave := false, 0, 0;
        totLen := 0;
      }
      DefragEnqueue(p.seg, p.data);
      if !p.more {
        noMore := true;
      }
      if noMore {
        var all := DefragHaveAllSegments();
        if all {
          out := DefragSegments();
          return;
        }
      }
      out := Nothing;
    }

    /** sndcp_llunitdata_ind, for this entity. A header cut short is refused only if fewer
        than three octets are there. */
    method LlunitdataInd(f: seq<byte>, behind: seq<byte>) returns (r: Indication)
      requires Valid() && f != [] && (GoesToReassembly(f) ==> HasHeader(f))
      modifies this
      ensures Valid() && txNpduNr == old(txNpduNr)
      ensures (State(), r) == Indicate(old(State()), f, behind)
    {
      hide Input, Read, IsUnitdata, IsFirst, IsMore;
      if !IsUnitdata(f) {
        return Rejected(EINVAL);
      }
      if |f| < COMMON_HDR + UDATA_HDR {
        return Rejected(EIO);
      }
      if !IsFirst(f) || IsMore(f) {
        var out := DefragInput(f);
        return Fragmented(out);
      }
      if f[1] != 0 {
        return Rejected(EIO);
      }
      var npdu := COMMON_HDR + COMP_HDR + UDATA_HDR;
      var npduLen := |f + behind| - npdu;
      if npduLen <= 0 {
        return Rejected(EIO);
      }
      r := Unfragmented((f + behind)[npdu..]);
    }
  }

  /** The step for a PDU, taken apart: its data is queued, the end flag set, and the N-PDU put
      together if everything is there. */
  lemma InputIs(st: Defrag, p: SnPdu, nsapi: nat)
    requires Reassembly.Valid(st) && p.seg < 16
    ensures var from := if p.first then Fresh(p.npdu) else st;
            var e := Enqueue(from, SnPdu(nsapi, true, false, from.npdu, p.seg, p.data));
            var q := if p.more then e else e.(noMore := true);
            && q.highest < 16 && e.npdu == from.npdu
            && var c := Collect(q.frags, 0, q.highest);
            Input(st, p) == if q.noMore && HaveAll(q)
                            then (q.(frags := c.rest), if c.complete then Delivered(c.npdu, q.totLen) else Missing)
                            else (q, Nothing)
  {
    hide Collect, HaveAll, Or, Bit;
  }

  lemma CollectStep(frags: seq<Frag>, seg: nat, highest: nat)
    ensures seg > highest ==> Collect(frags, seg, highest) == Collected(frags, [], true)
    ensures seg <= highest ==>
              var k := Find(frags, seg);
              if k == |frags| then Collect(frags, seg, highest) == Collected(frags, [], false)
              else
                var c := Collect(Without(frags, k), seg + 1, highest);
                Collect(frags, seg, highest) == Collected(c.rest, frags[k].data + c.npdu, c.complete)
  {
  }

  lemma OrZeroLeft(a: bv32)
    ensures Or(0, a) == a
  {
  }
}
