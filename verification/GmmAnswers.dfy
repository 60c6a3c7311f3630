/** What a mobile gets to hear: which identity it is asked for, what is repeated to it, and when it is
    refused, suspended or resumed. */
module GmmAnswers {
  import opened Wrappers
  import opened Gmm

  // ---- the conversation of an attach ----

  /** The context once the identity that was asked for has come. */
  function Learned(c: MmCtx, id: string): MmCtx
  {
    if c.idType == IdImei then c.(running := false, imei := id) else c.(running := false, imsi := id)
  }

  /** What is sent while the mobile answers one request after the other. */
  function Conversation(c: MmCtx, mode: Mode, ids: seq<string>): seq<Out>
    decreases ids
  {
    var (d, o) := Authorize(c, mode);
    [o] + if ids == [] then [] else Conversation(Learned(d, ids[0]), d.mode, ids[1..])
  }

  /** A mobile is asked for its IMEI if that is missing, then for its IMSI if that is, and is accepted
      then; it is asked for nothing else and nothing twice. */
  lemma {:induction false} ConversationIs(c: MmCtx, mode: Mode, ids: seq<string>)
    requires |ids| == Missing(c) && forall k :: 0 <= k < |ids| ==> ids[k] != ""
    ensures Conversation(c, mode, ids)
         == (if c.imei == "" then [IdReq(IdImei)] else []) + (if c.imsi == "" then [IdReq(IdImsi)] else []) + [AttAck]
    decreases ids
  {
    if ids != [] {
      var d := Authorize(c, mode).0;
      ConversationIs(Learned(d, ids[0]), d.mode, ids[1..]);
    }
  }

  /** The message that goes out is the one that its timer repeats, except exactly for an ATTACH ACCEPT
      to a mobile whose context is not in the mode of an attach. */
  lemma RepeatsIff(c: MmCtx, mode: Mode)
    ensures var (d, o) := Authorize(c, mode);
            && d.running && d.numExp == 0
            && (d.state == RegisteredNormal <==> o == AttAck)
            && (d.state == CommonProcInit <==> o != AttAck)
            && (Expire(d).1 == [o] <==> o != AttAck || mode == ModeAtt)
            && (Expire(d).1 != [o] ==> Expire(d).1 == if mode == ModeRau then [RauAck] else [])
  {
  }

  /** A mobile that was asked for its IMSI, updates its routing area and then tells its IMSI is sent
      an ATTACH ACCEPT, and a ROUTING AREA UPDATE ACCEPT when it does not answer that. */
  lemma RepeatsAnother(c: MmCtx, imsi: string, q: nat) returns (cs: seq<MmCtx>, ds: seq<MmCtx>)
    requires c.imsi == "" && c.imei != "" && c.idType == IdImsi && c.state == CommonProcInit
    requires imsi != "" && c.pTmsi != q
    ensures StepOf([c], RaUpdReq(Some(0), true, [q]), cs)
    ensures StepOf(cs, IdResp(0, Imsi(imsi)), ds) && Step(cs, IdResp(0, Imsi(imsi))).1 == [AttAck]
    ensures |ds| == 1 && ds[0].state == RegisteredNormal
    ensures Possible(ds, Timeout(0)) && Step(ds, Timeout(0)).1 == [RauAck]
  {
    assert !Taken([c], [q][0]);
    assert AllocPtmsi([c], [q]) == q;
    var u := TimerStart(Reallocate(c, q), 3350).(mode := ModeRau);
    assert Step([c], RaUpdReq(Some(0), true, [q])).0 == [u];
    Tells(u, imsi);
    cs, ds := [u], Step([u], IdResp(0, Imsi(imsi))).0;
  }

  lemma Tells(u: MmCtx, imsi: string)
    requires u.imsi == "" && u.imei != "" && imsi != "" && u.idType == IdImsi
    ensures Possible([u], IdResp(0, Imsi(imsi)))
    ensures var (ds, out) := Step([u], IdResp(0, Imsi(imsi)));
            out == [AttAck] && ds == [Authorize(u.(running := false, imsi := imsi), u.mode).0]
  {
    assert ByImsi([u][1..], imsi) == 0;
    assert ByImsi([u], imsi) == 1;
    var d := u.(running := false, imsi := imsi);
    assert [u][0 := d] == [d];
    assert [d][0 := Authorize(d, d.mode).0] == [Authorize(d, d.mode).0];
  }

  // ---- refusals ----

  /** An attach request that is refused: an identity other than an IMSI or a P-TMSI, or an IMSI that
      neither a TLLI nor the list knows and that is not of our network. */
  predicate AttachRefused(cs: seq<MmCtx>, e: Event)
  {
    e.AttachReq? && !e.mi.Tmsi?
    && (e.mi.Imsi? ==> e.who == None && !e.ours && forall i :: 0 <= i < |cs| ==> cs[i].imsi != e.mi.digits)
  }

  /** A routing area update that is refused: of a type that is not supported, or of a mobile that is
      unknown or deregistered. */
  predicate UpdateRefused(cs: seq<MmCtx>, e: Event)
    requires Possible(cs, e)
  {
    e.RaUpdReq? && (!e.supported || e.who == None || cs[e.who.value].state == Deregistered)
  }

  predicate GivesUp(cs: seq<MmCtx>, e: Event)
    requires Possible(cs, e)
  {
    e.Timeout? && cs[e.at].timer == 3370 && cs[e.at].numExp >= 4
  }

  /** Who is refused, and that a refused request changes nothing. */
  lemma RefusedIff(cs: seq<MmCtx>, e: Event)
    requires Possible(cs, e)
    ensures var (ds, out) := Step(cs, e);
            && (AttRej in out <==> AttachRefused(cs, e) || GivesUp(cs, e))
            && (RauRej in out <==> UpdateRefused(cs, e))
            && (AttachRefused(cs, e) || UpdateRefused(cs, e) ==> ds == cs && |out| == 1)
  {
    match e
    case AttachReq(who, mi, ours, draws) =>
      if mi.Imsi? && who == None {
        NotListed(cs, mi.digits);
      }
      hide ByImsi, ByPtmsi, AllocPtmsi, Enough;
      var r := AttachTo(cs, who, mi, ours);
      assert r == None <==> AttachRefused(cs, e);
    case RaUpdReq(who, supported, draws) =>
      hide AllocPtmsi, Enough;
    case IdResp(i, mi) =>
      hide Identify;
      var (ds, j) := Identify(cs, i, mi);
      assert Step(cs, e).1 == [Authorize(ds[j], ds[j].mode).1];
    case _ =>
  }

  lemma NotListed(cs: seq<MmCtx>, imsi: string)
    ensures ByImsi(cs, imsi) == |cs| <==> forall i :: 0 <= i < |cs| ==> cs[i].imsi != imsi
  {
  }

  // ---- which context an attach is about ----

  /** The context of the TLLI if there is one, whatever the identity says; else the first one with the
      IMSI, or the first one that answers to the P-TMSI; else a new one at the head of the list with
      that identity. It gets a P-TMSI that no other has and keeps the one it had as the old one. */
  lemma AttachIsFor(cs: seq<MmCtx>, e: Event)
    requires Possible(cs, e) && e.AttachReq? && (e.mi.Imsi? || e.mi.Tmsi?) && !AttachRefused(cs, e)
    ensures var ds := Step(cs, e).0;
            var i := if e.who.Some? then e.who.value
                     else if e.mi.Imsi? then ByImsi(cs, e.mi.digits) else ByPtmsi(cs, e.mi.tmsi);
            if i < |cs| then
              |ds| == |cs| && ds == cs[i := ds[i]] && Attached(cs, cs[i], ds[i])
            else
              |ds| == |cs| + 1 && ds == [ds[0]] + cs
              && Attached(cs, if e.mi.Imsi? then NEW_CTX.(imsi := e.mi.digits) else NEW_CTX.(pTmsi := e.mi.tmsi), ds[0])
  {
    var ds := Step(cs, e).0;
    var r := AttachTo(cs, e.who, e.mi, e.ours);
    if e.mi.Imsi? && e.who == None {
      NotListed(cs, e.mi.digits);
    }
    hide ByImsi, ByPtmsi, AllocPtmsi, Enough, Authorize;
    var (list, i) := r.value;
    var p := AllocPtmsi(list, e.draws);
    AuthorizeKeeps(Reallocate(list[i], p), ModeAtt);
    assert ds == list[i := ds[i]];
    if list != cs {
      assert list[1..] == cs;
      assert ds[1..] == cs;
      NotTakenInTail(list, p);
    }
  }

  predicate Attached(cs: seq<MmCtx>, c: MmCtx, d: MmCtx)
  {
    !Taken(cs, d.pTmsi) && d.pTmsiOld == c.pTmsi && d.imsi == c.imsi && d.imei == c.imei
  }

  lemma AuthorizeKeeps(c: MmCtx, mode: Mode)
    ensures var d := Authorize(c, mode).0;
            d.pTmsi == c.pTmsi && d.pTmsiOld == c.pTmsiOld && d.imsi == c.imsi && d.imei == c.imei
  {
  }

  // ---- the other events of one context ----

  /** An accepted update gives a new P-TMSI that no context has, keeps the one before as the old one
      until the mobile confirms, and sends ROUTING AREA UPDATE ACCEPT, up to five times in all;
      the state stays as it was. */
  lemma UpdateThenComplete(cs: seq<MmCtx>, i: nat, draws: seq<nat>)
    requires i < |cs| && Possible(cs, RaUpdReq(Some(i), true, draws)) && cs[i].state != Deregistered
    ensures var (ds, out) := Step(cs, RaUpdReq(Some(i), true, draws));
            && out == [RauAck] && |ds| == |cs| && ds == cs[i := ds[i]]
            && !Taken(cs, ds[i].pTmsi) && ds[i].pTmsi in draws && ds[i].pTmsiOld == cs[i].pTmsi
            && ds[i].state == cs[i].state && ds[i].imsi == cs[i].imsi && ds[i].imei == cs[i].imei
            && Expire(ds[i]).1 == [RauAck] && ds[i].numExp == 0
            && var es := Step(ds, Complete(i)).0;
            es == ds[i := ds[i].(pTmsiOld := 0, running := false)]
  {
    hide AllocPtmsi;
  }

  /** A registered mobile is suspended and resumed again, and is then as it was before; a suspended
      one stays so, and on all others neither has an effect. */
  lemma SuspendResume(cs: seq<MmCtx>, i: nat)
    requires i < |cs|
    ensures var ds := Step(cs, Suspend(Some(i))).0;
            && |ds| == |cs|
            && (ds[i].state == RegisteredSuspended <==> cs[i].state in {RegisteredNormal, RegisteredSuspended})
            && (Step(ds, Resume(Some(i))).0 == cs <==> cs[i].state != RegisteredSuspended)
            && Step(ds, Resume(Some(i))).0
               == if cs[i].state == RegisteredSuspended then cs[i := cs[i].(state := RegisteredNormal)] else cs
  {
    var ds := Step(cs, Suspend(Some(i))).0;
    assert cs[i].state == RegisteredNormal ==> ds[i := cs[i]] == cs;
    assert cs[i].state == RegisteredSuspended ==> cs[i := cs[i].(state := RegisteredNormal)][i] != cs[i];
  }

  /** A detach is acknowledged and deregisters the mobile and no other. */
  lemma DetachThenUpdate(cs: seq<MmCtx>, i: nat, supported: bool, draws: seq<nat>)
    requires i < |cs|
    ensures var (ds, out) := Step(cs, DetachReq(i));
            && out == [DetAck] && ds == cs[i := cs[i].(state := Deregistered)]
            && (Possible(ds, RaUpdReq(Some(i), supported, draws)) ==>
                  Step(ds, RaUpdReq(Some(i), supported, draws)) == (ds, [RauRej]))
  {
  }
}
