/** SNDCP over LLC: a message sent by one entity in UI frames reaches the other entity whole. */
module SndcpOverLlc {
  import opened Bytes
  import opened Wrappers
  import opened FrameCheck
  import opened Llc
  import opened LlcNumbering
  import opened LlcEntity
  import opened SndcpPdu
  import opened Reassembly
  import opened SndcpEntity
  import opened SndcpRoundTrip
  import opened Seqs

  /** What the LLC entity hands to SNDCP of a frame, and its counters after that; the rest of the
      frame stays in the buffer behind it. */
  function Handed(c: Counters, f: seq<byte>): Option<(Counters, seq<byte>, seq<byte>)>
  {
    match Check(f)
    case Accepted(h) =>
      if h.cmd == UI && h.data.Some? && h.data.value + h.dataLen <= |f| then
        (match RxNext(c, h.seqTx)
         case None => None
         case Some(c') => Some((c', f[h.data.value..h.data.value + h.dataLen], f[h.data.value + h.dataLen..])))
      else None
    case _ => None
  }

  /** That is what receiving the frame does to the LLC entity and hands up. */
  lemma HandedIsReceived(v: LleVars, f: seq<byte>)
    ensures var h := Handed(v.rx, f);
            var (w, r) := Received(v, f);
            h.Some? ==> w == v.(rx := h.value.0)
                        && r.Ok? && r.value.Some? && HandsUp(r, r.value.value.sapi, f, h.value.1)
  {
    hide Check;
  }

  /** A frame the link can carry, numbered as the receiver expects or later in its block,
      hands over the information field it was built from. */
  lemma UiHanded(sapi: nat, c: Counters, nu: nat, info: seq<byte>)
    requires sapi < 16 && !ReservedSapi(sapi) && nu < 512 && |info| <= N201U(sapi)
    ensures var c' := RxNext(c, nu);
            var f := UiFrame(sapi, false, nu, info);
            && |f| >= CRC24_LENGTH
            && Handed(c, f) == if c'.Some? then Some((c'.value, info, f[|f| - CRC24_LENGTH..])) else None
  {
    UiRoundTrip(sapi, false, nu, info);
    hide UiFrame, ParseHdr, FcsCovers, ReadFcs, RxNext, N201U, ReservedSapi;
  }

  /** The single PDU and the fragments all fit the link and carry their place in the run. */
  lemma SentPdusFit(msg: seq<byte>, nsapi: nat, npdu: nat, n201u: nat)
    requires n201u > 4 && nsapi < 16 && npdu < 0x1000
    ensures var ps := SentPdus(msg, nsapi, npdu, n201u);
            forall i :: 0 <= i < |ps| ==> Fits(ps[i], n201u)
  {
    hide Fragments;
    if |msg| > n201u - HeaderLen(true) {
      var ps := Fragments(msg, nsapi, npdu, n201u, 0, 0);
      forall i | 0 <= i < |ps| ensures Fits(ps[i], n201u) {
        FragmentFields(msg, nsapi, npdu, n201u, 0, 0, i);
      }
    }
  }

  predicate Fits(p: SnPdu, n201u: nat)
  {
    InFields(p) && HeaderLen(p.first) + |p.data| <= n201u
  }

  /** When the receiver has kept step with k frames sent before, every frame of a message is
      taken, and SNDCP gets exactly the PDU it carries. */
  lemma FramesHanded(k: nat, sapi: nat, msg: seq<byte>, nsapi: nat, npdu: nat, i: nat)
    requires sapi < 16 && N201U(sapi) > 4 && nsapi < 16 && npdu < 0x1000
    requires i < |SentPdus(msg, nsapi, npdu, N201U(sapi))|
    ensures var ps := SentPdus(msg, nsapi, npdu, N201U(sapi));
            && AllInFields(ps)
            && var f := LlcFrames(sapi, k % 512, ps)[i];
            && |f| >= CRC24_LENGTH
            && Handed(InStep(k + i), f) == Some((InStep(k + i + 1), Build(ps[i]), f[|f| - CRC24_LENGTH..]))
  {
    hide *;
    LargeEnough(sapi);
    var ps := SentPdus(msg, nsapi, npdu, N201U(sapi));
    SentPdusFit(msg, nsapi, npdu, N201U(sapi));
    FitsAll(ps, N201U(sapi));
    InStepTakes(k + i, k + i);
    SumMod(k, i);
    UiHanded(sapi, InStep(k + i), (k + i) % 512, Build(ps[i]));
  }

  lemma LargeEnough(sapi: nat)
    requires N201U(sapi) > 4
    ensures !ReservedSapi(sapi)
  {
  }

  lemma FitsAll(ps: seq<SnPdu>, n201u: nat)
    requires forall i :: 0 <= i < |ps| ==> Fits(ps[i], n201u)
    ensures AllInFields(ps) && forall i :: 0 <= i < |ps| ==> InFields(ps[i]) && |Build(ps[i])| <= n201u
  {
    hide Build, InFields;
  }

  lemma SumMod(k: nat, i: nat)
    ensures (k % 512 + i) % 512 == (k + i) % 512 == Nu(k + i)
  {
  }

  function Identity(n: nat): (o: seq<nat>)
    ensures |o| == n && forall i :: 0 <= i < n ==> o[i] == i
  {
    seq(n, i requires 0 <= i < n => i)
  }

  /** From one SNDCP entity to the other. A message that is fragmented and shorter than
      15*(N201-U - 3) octets, sent after k frames that the receiver kept step with, is handed
      up when its last frame arrives and nothing is handed up before, whatever the buffers hold
      behind the frames. */
  lemma MessageArrives(k: nat, sapi: nat, msg: seq<byte>, nsapi: nat, npdu: nat, st: Defrag, i: nat, behind: seq<byte>)
    requires sapi < 16 && N201U(sapi) > 4 && nsapi < 16 && npdu < 0x1000 && Valid(st)
    requires N201U(sapi) - HeaderLen(true) < |msg| < 15 * (N201U(sapi) - 3)
    requires i < |SentPdus(msg, nsapi, npdu, N201U(sapi))|
    ensures var ps := SentPdus(msg, nsapi, npdu, N201U(sapi));
            && AllInFields(ps) && Pdus(ps)
            && var h := Handed(InStep(k + i), LlcFrames(sapi, k % 512, ps)[i]);
            && h.Some? && h.value.0 == InStep(k + i + 1)
            && h.value.1 != [] && HasHeader(h.value.1)
            && Indicate(After(st, ps[..i]), h.value.1, h.value.2 + behind)
               == (After(st, ps[..i + 1]), Fragmented(if i == |ps| - 1 then Delivered(msg, |msg|) else Nothing))
  {
    var n201u := N201U(sapi);
    var ps := Fragments(msg, nsapi, npdu, n201u, 0, 0);
    assert ps == SentPdus(msg, nsapi, npdu, n201u);
    hide *;
    FramesHanded(k, sapi, msg, nsapi, npdu, i);
    var f := LlcFrames(sapi, k % 512, ps)[i];
    BuiltFragments(msg, nsapi, npdu, n201u, ps);
    BuildableAt(ps, i);
    InTurn(|ps|);
    RoundTrip(st, msg, nsapi, npdu, n201u, Identity(|ps|), i);
    ReadArrives(msg, nsapi, npdu, n201u, Identity(|ps|));
    ArriveInTurn(ps);
    SentPdusCarry(msg, nsapi, npdu, n201u);
    FlagsAt(ps, nsapi, npdu, n201u, i);
    FragmentIndicated(st, ps, i, f[|f| - CRC24_LENGTH..] + behind);
  }

  /** A PDU of a run that goes to reassembly takes it one step on. */
  lemma FragmentIndicated(st: Defrag, ps: seq<SnPdu>, i: nat, behind: seq<byte>)
    requires Valid(st) && Pdus(ps) && i < |ps| && InFields(ps[i]) && (!ps[i].first || ps[i].more)
    ensures Pdus(ps[..i]) && Pdus(ps[..i + 1])
    ensures var f := Build(ps[i]);
            && f != [] && HasHeader(f)
            && Indicate(After(st, ps[..i]), f, behind) == (After(st, ps[..i + 1]), Fragmented(OutputAt(st, ps, i)))
  {
    hide *;
    AfterStep(st, ps, i);
    OutputIs(st, ps, i);
    IndicatesBuilt(After(st, ps[..i]), ps[i], behind);
  }

  /** On the four SAPIs of SNDCP, and on no other, a PDU holds 500 octets: messages of up to 496 octets
      are not fragmented, and those of up to 7454 octets arrive. */
  lemma SndcpBounds(sapi: nat)
    ensures N201U(sapi) == 500 <==> sapi in {3, 5, 9, 11}
    ensures sapi in {3, 5, 9, 11} ==>
              N201U(sapi) - HeaderLen(true) == 496 && 15 * (N201U(sapi) - 3) == 7455 && !ReservedSapi(sapi)
  {
  }

  lemma FlagsAt(ps: seq<SnPdu>, nsapi: nat, npdu: nat, n201u: nat, i: nat)
    requires i < |ps| && |ps| != 1 && forall j :: 0 <= j < |ps| ==> AsSent(ps[j], nsapi, npdu, n201u, j, |ps|)
    ensures !ps[i].first || ps[i].more || i >= 256
  {
  }

  /** A message of at most N201-U - 4 octets is handed up at once, in a single PDU; but to the end of
      the buffer, so the check sequence of its frame comes up behind it, and whatever else the
      buffer holds. What is handed up is never just the message. */
  lemma SingleArrives(k: nat, sapi: nat, msg: seq<byte>, nsapi: nat, npdu: nat, st: Defrag, behind: seq<byte>)
    requires sapi < 16 && N201U(sapi) > 4 && nsapi < 16 && npdu < 0x1000 && Valid(st)
    requires |msg| <= N201U(sapi) - HeaderLen(true)
    ensures var ps := SentPdus(msg, nsapi, npdu, N201U(sapi));
            && |ps| == 1 && AllInFields(ps)
            && var f := LlcFrames(sapi, k % 512, ps)[0];
            && var h := Handed(InStep(k), f);
            && h.Some? && h.value.0 == InStep(k + 1)
            && h.value.1 != [] && HasHeader(h.value.1)
            && Read(h.value.1) == SnPdu(nsapi, false, true, npdu, 0, msg)
            && Indicate(st, h.value.1, h.value.2 + behind)
               == (st, Unfragmented(msg + f[|f| - CRC24_LENGTH..] + behind))
  {
    var n201u := N201U(sapi);
    var ps := SentPdus(msg, nsapi, npdu, n201u);
    hide *;
    SingleHanded(k, sapi, msg, nsapi, npdu);
    var f := LlcFrames(sapi, k % 512, ps)[0];
    var fcs := f[|f| - CRC24_LENGTH..];
    ReadBuild(ps[0]);
    IndicatesBuilt(st, ps[0], fcs + behind);
    Assoc(msg, fcs, behind);
  }

  lemma SingleHanded(k: nat, sapi: nat, msg: seq<byte>, nsapi: nat, npdu: nat)
    requires sapi < 16 && N201U(sapi) > 4 && nsapi < 16 && npdu < 0x1000
    requires |msg| <= N201U(sapi) - HeaderLen(true)
    ensures var ps := SentPdus(msg, nsapi, npdu, N201U(sapi));
            && |ps| == 1 && AllInFields(ps) && InFields(ps[0]) && ps[0] == SnPdu(nsapi, false, true, npdu, 0, msg)
            && var f := LlcFrames(sapi, k % 512, ps)[0];
            && |f| >= CRC24_LENGTH
            && Handed(InStep(k), f) == Some((InStep(k + 1), Build(ps[0]), f[|f| - CRC24_LENGTH..]))
  {
    hide *;
    SingleIs(SentPdus(msg, nsapi, npdu, N201U(sapi)), msg, nsapi, npdu, N201U(sapi));
    FramesHanded(k, sapi, msg, nsapi, npdu, 0);
  }

  lemma SingleIs(ps: seq<SnPdu>, msg: seq<byte>, nsapi: nat, npdu: nat, n201u: nat)
    requires n201u > 4 && nsapi < 16 && npdu < 0x1000
    requires ps == SentPdus(msg, nsapi, npdu, n201u) && |msg| <= n201u - HeaderLen(true)
    ensures |ps| == 1 && InFields(ps[0]) && ps[0] == SnPdu(nsapi, false, true, npdu, 0, msg)
  {
    hide Fragments;
    SentPdusCarry(msg, nsapi, npdu, n201u);
    assert Concat(ps) == ps[0].data + Concat(ps[1..]);
  }

  lemma OutputIs(st: Defrag, ps: seq<SnPdu>, i: nat)
    requires Valid(st) && Pdus(ps) && i < |ps|
    ensures Pdus(ps[..i]) && OutputAt(st, ps, i) == Input(After(st, ps[..i]), ps[i]).1
  {
  }

  lemma BuildableAt(ps: seq<SnPdu>, i: nat)
    requires Buildable(ps) && i < |ps|
    ensures InFields(ps[i]) && HasHeader(Build(ps[i])) && Read(Build(ps[i])) == ps[i] && Pdus(ps)
  {
    hide Build, Read, HasHeader;
  }

  lemma ArriveInTurn(ps: seq<SnPdu>)
    ensures Arrive(ps, Identity(|ps|)) == ps
  {
  }

  lemma InTurn(n: nat)
    requires n > 0
    ensures Order(Identity(n), n)
  {
    var o := Identity(n);
    forall j: nat | j < n ensures j in o {
      assert o[j] == j;
    }
  }
}
