/** The mobility management contexts of the SGSN: gprs_gmm.c with the context list of
    gprs_sgsn.c. */
module Gmm {
  import opened Wrappers

  datatype MmState = Deregistered | CommonProcInit | RegisteredNormal | RegisteredSuspended

  datatype Mode = ModeAtt | ModeRau | ModeReall

  datatype IdType = NoId | IdImsi | IdImei

  /** sgsn_mm_ctx. An empty string is an identity that is not known yet. timer is the number of
      the timer started last. */
  datatype MmCtx = MmCtx(imsi: string, imei: string, state: MmState, pTmsi: nat, pTmsiOld: nat,
                         timer: nat, running: bool, numExp: nat, mode: Mode, idType: IdType)

  datatype Out = AttAck | AttRej | RauAck | RauRej | DetAck | IdReq(idType: IdType)

  const NEW_CTX := MmCtx("", "", Deregistered, 0, 0, 0, false, 0, ModeAtt, NoId)

  // ---- the list ----

  /** sgsn_mm_ctx_by_imsi */
  function ByImsi(cs: seq<MmCtx>, imsi: string): (i: nat)
    ensures i <= |cs| && (i < |cs| ==> cs[i].imsi == imsi)
    ensures forall j :: 0 <= j < i ==> cs[j].imsi != imsi
    decreases cs
  {
    if cs == [] || cs[0].imsi == imsi then 0 else 1 + ByImsi(cs[1..], imsi)
  }

  predicate Answers(c: MmCtx, p: nat)
  {
    p == c.pTmsi || (c.pTmsiOld != 0 && c.pTmsiOld == p)
  }

  /** sgsn_mm_ctx_by_ptmsi */
  function ByPtmsi(cs: seq<MmCtx>, p: nat): (i: nat)
    ensures i <= |cs| && (i < |cs| ==> Answers(cs[i], p))
    ensures forall j :: 0 <= j < i ==> !Answers(cs[j], p)
    decreases cs
  {
    if cs == [] || Answers(cs[0], p) then 0 else 1 + ByPtmsi(cs[1..], p)
  }

  predicate Taken(cs: seq<MmCtx>, p: nat)
  {
    exists i :: 0 <= i < |cs| && cs[i].pTmsi == p
  }

  /** sgsn_alloc_ptmsi: the first of the random numbers drawn that no context has. */
  function AllocPtmsi(cs: seq<MmCtx>, draws: seq<nat>): (p: nat)
    requires exists k :: 0 <= k < |draws| && !Taken(cs, draws[k])
    ensures !Taken(cs, p) && p in draws
    decreases draws
  {
    if !Taken(cs, draws[0]) then draws[0]
    else
      var k :| 0 <= k < |draws| && !Taken(cs, draws[k]);
      assert draws[1..][k - 1] == draws[k];
      AllocPtmsi(cs, draws[1..])
  }

  function Without(cs: seq<MmCtx>, k: nat): seq<MmCtx>
    requires k < |cs|
  {
    cs[..k] + cs[k + 1..]
  }

  // ---- the steps of one context ----

  function TimerStart(c: MmCtx, t: nat): MmCtx
  {
    c.(timer := t, running := true, numExp := 0)
  }

  /** gsm48_gmm_authorize */
  function Authorize(c: MmCtx, mode: Mode): (MmCtx, Out)
  {
    if c.imei != "" && c.imsi != "" then
      (TimerStart(c, 3350).(mode := mode, state := RegisteredNormal), AttAck)
    else if c.imei == "" then
      (TimerStart(c, 3370).(state := CommonProcInit, idType := IdImei), IdReq(IdImei))
    else
      (TimerStart(c, 3370).(state := CommonProcInit, idType := IdImsi), IdReq(IdImsi))
  }

  /** A new P-TMSI; the one before stays valid until the mobile confirms. */
  function Reallocate(c: MmCtx, p: nat): MmCtx
  {
    c.(pTmsiOld := c.pTmsi, pTmsi := p)
  }

  /** mmctx_timer_cb */
  function Expire(c: MmCtx): (MmCtx, seq<Out>)
  {
    var d := c.(numExp := c.numExp + 1, running := false);
    if c.timer == 3350 then
      if d.numExp >= 5 then (d.(state := Deregistered), [])
      else (d.(running := true), match c.mode case ModeAtt => [AttAck] case ModeRau => [RauAck] case ModeReall => [])
    else if c.timer == 3360 then
      if d.numExp >= 5 then (d.(state := Deregistered), []) else (d.(running := true), [])
    else if c.timer == 3370 then
      if d.numExp >= 5 then (d.(state := Deregistered), [AttRej]) else (d.(running := true), [IdReq(c.idType)])
    else (d, [])
  }

  // ---- events ----

  datatype Identity = Imsi(digits: string) | Imei(digits: string) | Tmsi(tmsi: nat) | OtherIdentity

  /** Messages and timers. who is the context that the TLLI leads to, if any; ours says whether
      an IMSI is of our network; draws are the random numbers that come up. */
  datatype Event =
    | AttachReq(who: Option<nat>, mi: Identity, ours: bool, draws: seq<nat>)
    | IdResp(at: nat, mi: Identity)
    | DetachReq(at: nat)
    | RaUpdReq(who: Option<nat>, supported: bool, draws: seq<nat>)
    | Complete(at: nat)
    | Timeout(at: nat)
    | Suspend(who: Option<nat>)
    | Resume(who: Option<nat>)

  predicate Enough(cs: seq<MmCtx>, draws: seq<nat>)
  {
    exists k :: 0 <= k < |draws| && !Taken(cs, draws[k])
  }

  /** The context an attach request is about: where it is in the list, which a new context
      heads; or None for a refusal. */
  function AttachTo(cs: seq<MmCtx>, who: Option<nat>, mi: Identity, ours: bool): (r: Option<(seq<MmCtx>, nat)>)
    requires who.Some? ==> who.value < |cs|
    ensures r.Some? ==> r.value.1 < |r.value.0|
  {
    match mi
    case Imsi(s) =>
      if who.Some? then Some((cs, who.value))
      else if ByImsi(cs, s) < |cs| then Some((cs, ByImsi(cs, s)))
      else if !ours then None
      else Some(([NEW_CTX.(imsi := s)] + cs, 0))
    case Tmsi(p) =>
      if who.Some? then Some((cs, who.value))
      else if ByPtmsi(cs, p) < |cs| then Some((cs, ByPtmsi(cs, p)))
      else Some(([NEW_CTX.(pTmsi := p)] + cs, 0))
    case _ => None
  }

  predicate InList(cs: seq<MmCtx>, who: Option<nat>)
  {
    who.Some? ==> who.value < |cs|
  }

  /** A context without an IMSI is not the one that is found by the IMSI it tells. Only an empty
      IMSI could lead there, and the source would then free the context it works on. */
  predicate NotItself(cs: seq<MmCtx>, i: nat, mi: Identity)
    requires i < |cs|
  {
    mi.Imsi? && cs[i].imsi == "" ==> ByImsi(cs, mi.digits) != i
  }

  /** What can happen: a context in the list, and a usable random number at some point. */
  predicate Possible(cs: seq<MmCtx>, e: Event)
  {
    match e
    case AttachReq(who, mi, ours, draws) =>
      && InList(cs, who)
      && (AttachTo(cs, who, mi, ours).Some? ==> Enough(AttachTo(cs, who, mi, ours).value.0, draws))
    case IdResp(i, mi) => i < |cs| && NotItself(cs, i, mi)
    case RaUpdReq(who, _, draws) => InList(cs, who) && Enough(cs, draws)
    case DetachReq(i) => i < |cs|
    case Complete(i) => i < |cs|
    case Timeout(i) => i < |cs|
    case Suspend(who) => InList(cs, who)
    case Resume(who) => InList(cs, who)
  }

  /** gsm48_rx_gmm_att_req */
  function Attach(cs: seq<MmCtx>, who: Option<nat>, mi: Identity, ours: bool, draws: seq<nat>): (seq<MmCtx>, seq<Out>)
    requires Possible(cs, AttachReq(who, mi, ours, draws))
  {
    match AttachTo(cs, who, mi, ours)
    case None => (cs, [AttRej])
    case Some((ds, i)) =>
      var (c, o) := Authorize(Reallocate(ds[i], AllocPtmsi(ds, draws)), ModeAtt);
      (ds[i := c], [o])
  }

  predicate AsAsked(c: MmCtx, mi: Identity)
  {
    (mi.Imsi? && c.idType == IdImsi) || (mi.Imei? && c.idType == IdImei)
  }

  /** The identity that was asked for stops the timer. */
  function Stopped(c: MmCtx, mi: Identity): MmCtx
  {
    if AsAsked(c, mi) then c.(running := false) else c
  }

  /** gsm48_rx_gmm_id_resp: an older context of the same IMSI goes when a context that had none
      learns it. The new place of the context, too. */
  function Identify(cs: seq<MmCtx>, i: nat, mi: Identity): (r: (seq<MmCtx>, nat))
    requires i < |cs| && NotItself(cs, i, mi)
    ensures r.1 < |r.0|
  {
    var c := Stopped(cs[i], mi);
    match mi
    case Imsi(s) =>
      var k := ByImsi(cs, s);
      var ds := cs[i := c.(imsi := s)];
      if c.imsi == "" && k < |cs| then (Without(ds, k), if k < i then i - 1 else i) else (ds, i)
    case Imei(s) => (cs[i := c.(imei := s)], i)
    case _ => (cs[i := c], i)
  }

  function Respond(cs: seq<MmCtx>, i: nat, mi: Identity): (seq<MmCtx>, seq<Out>)
    requires i < |cs| && NotItself(cs, i, mi)
  {
    var (ds, j) := Identify(cs, i, mi);
    var (c, o) := Authorize(ds[j], ds[j].mode);
    (ds[j := c], [o])
  }

  /** gsm48_rx_gmm_ra_upd_req */
  function RaUpdate(cs: seq<MmCtx>, who: Option<nat>, supported: bool, draws: seq<nat>): (seq<MmCtx>, seq<Out>)
    requires InList(cs, who) && Enough(cs, draws)
  {
    if !supported || who == None || cs[who.value].state == Deregistered then (cs, [RauRej])
    else
      var c := Reallocate(cs[who.value], AllocPtmsi(cs, draws));
      (cs[who.value := TimerStart(c, 3350).(mode := ModeRau)], [RauAck])
  }

  function Step(cs: seq<MmCtx>, e: Event): (seq<MmCtx>, seq<Out>)
    requires Possible(cs, e)
  {
    match e
    case AttachReq(who, mi, ours, draws) => Attach(cs, who, mi, ours, draws)
    case IdResp(i, mi) => Respond(cs, i, mi)
    case DetachReq(i) => (cs[i := cs[i].(state := Deregistered)], [DetAck])
    case RaUpdReq(who, supported, draws) => RaUpdate(cs, who, supported, draws)
    case Complete(i) => (cs[i := cs[i].(running := false, pTmsiOld := 0)], [])
    case Timeout(i) => (cs[i := Expire(cs[i]).0], Expire(cs[i]).1)
    case Suspend(who) =>
      if who.Some? && cs[who.value].state == RegisteredNormal
      then (cs[who.value := cs[who.value].(state := RegisteredSuspended)], [])
      else (cs, [])
    case Resume(who) =>
      if who.Some? && cs[who.value].state == RegisteredSuspended
      then (cs[who.value := cs[who.value].(state := RegisteredNormal)], [])
      else (cs, [])
  }

  // ---- the invariant ----

  predicate Distinct(cs: seq<MmCtx>)
  {
    forall i, j :: 0 <= i < j < |cs| ==> cs[i].pTmsi != cs[j].pTmsi
  }

  /** A registered context knows both identities. */
  predicate Known(c: MmCtx)
  {
    c.state in {RegisteredNormal, RegisteredSuspended} ==> c.imsi != "" && c.imei != ""
  }

  predicate AllKnown(cs: seq<MmCtx>)
  {
    forall i :: 0 <= i < |cs| ==> Known(cs[i])
  }

  predicate Inv(cs: seq<MmCtx>)
  {
    Distinct(cs) && AllKnown(cs)
  }

  lemma SetKeeps(cs: seq<MmCtx>, i: nat, c: MmCtx)
    requires Inv(cs) && i < |cs| && Known(c) && (c.pTmsi == cs[i].pTmsi || !Taken(cs, c.pTmsi))
    ensures Inv(cs[i := c])
  {
  }

  lemma NewKeeps(cs: seq<MmCtx>, c: MmCtx)
    requires Inv(cs) && Known(c) && !Taken(cs, c.pTmsi)
    ensures Inv([c] + cs)
  {
  }

  lemma WithoutKeeps(cs: seq<MmCtx>, k: nat)
    requires Inv(cs) && k < |cs|
    ensures Inv(Without(cs, k))
  {
    var w := Without(cs, k);
    assert forall i :: 0 <= i < |w| ==> w[i] == cs[if i < k then i else i + 1];
  }

  lemma AuthorizeKnown(c: MmCtx, mode: Mode)
    ensures var (d, o) := Authorize(c, mode);
            && Known(d) && d.pTmsi == c.pTmsi && d.imsi == c.imsi && d.imei == c.imei
            && (d.state == RegisteredNormal <==> c.imsi != "" && c.imei != "")
            && (o == AttAck <==> d.state == RegisteredNormal)
  {
  }

  lemma AttachKeepsInv(cs: seq<MmCtx>, who: Option<nat>, mi: Identity, ours: bool, draws: seq<nat>)
    requires Inv(cs) && Possible(cs, AttachReq(who, mi, ours, draws))
    ensures Inv(Attach(cs, who, mi, ours, draws).0)
  {
    var found := AttachTo(cs, who, mi, ours);
    if found.Some? {
      var (ds, i) := found.value;
      var p := AllocPtmsi(ds, draws);
      AuthorizeKnown(Reallocate(ds[i], p), ModeAtt);
      hide Inv, Authorize, AllocPtmsi, Enough;
      if ds == cs {
        SetKeeps(cs, i, Authorize(Reallocate(cs[i], p), ModeAtt).0);
      } else {
        var c := Authorize(Reallocate(ds[0], p), ModeAtt).0;
        NotTakenInTail(ds, p);
        assert ds[1..] == cs;
        NewKeeps(cs, c);
        assert ds[0 := c] == [c] + cs;
      }
    }
  }

  lemma NotTakenInTail(ds: seq<MmCtx>, p: nat)
    requires ds != [] && !Taken(ds, p)
    ensures !Taken(ds[1..], p)
  {
    forall i | 0 <= i < |ds[1..]| ensures ds[1..][i].pTmsi != p {
      assert ds[1..][i] == ds[i + 1];
    }
  }

  /** Taking in an identity, before anything is decided. The invariant may be off for the
      context that learned it, and for no other. */
  predicate AlmostInv(cs: seq<MmCtx>, i: nat)
  {
    Distinct(cs) && forall k :: 0 <= k < |cs| && k != i ==> Known(cs[k])
  }

  lemma WithoutAlmost(cs: seq<MmCtx>, i: nat, k: nat)
    requires AlmostInv(cs, i) && i < |cs| && k < |cs| && k != i
    ensures AlmostInv(Without(cs, k), if k < i then i - 1 else i)
    ensures |Without(cs, k)| == |cs| - 1 && Without(cs, k)[if k < i then i - 1 else i] == cs[i]
  {
    var w := Without(cs, k);
    assert forall j :: 0 <= j < |w| ==> w[j] == cs[if j < k then j else j + 1];
  }

  lemma IdentifyAlmost(cs: seq<MmCtx>, i: nat, mi: Identity)
    requires Inv(cs) && i < |cs| && NotItself(cs, i, mi)
    ensures AlmostInv(Identify(cs, i, mi).0, Identify(cs, i, mi).1)
  {
    if mi.Imsi? {
      var c := if AsAsked(cs[i], mi) then cs[i].(running := false) else cs[i];
      var ds := cs[i := c.(imsi := mi.digits)];
      var k := ByImsi(cs, mi.digits);
      hide Known, ByImsi;
      if c.imsi == "" && k < |cs| {
        WithoutAlmost(ds, i, k);
      }
    }
  }

  lemma SetAlmost(cs: seq<MmCtx>, i: nat, c: MmCtx)
    requires i < |cs| && AlmostInv(cs, i) && Known(c) && c.pTmsi == cs[i].pTmsi
    ensures Inv(cs[i := c])
  {
  }

  lemma RespondKeepsInv(cs: seq<MmCtx>, i: nat, mi: Identity)
    requires Inv(cs) && i < |cs| && NotItself(cs, i, mi)
    ensures Inv(Respond(cs, i, mi).0)
  {
    var (ds, j) := Identify(cs, i, mi);
    IdentifyAlmost(cs, i, mi);
    AuthorizeKnown(ds[j], ds[j].mode);
    hide Inv, AlmostInv, Identify, Authorize;
    SetAlmost(ds, j, Authorize(ds[j], ds[j].mode).0);
  }

  lemma ExpireKnown(c: MmCtx)
    requires Known(c)
    ensures Known(Expire(c).0) && Expire(c).0.pTmsi == c.pTmsi
  {
  }

  /** Every event keeps the P-TMSIs of all contexts distinct, and a context registered only
      while both its identities are known. */
  lemma StepKeepsInv(cs: seq<MmCtx>, e: Event)
    requires Inv(cs) && Possible(cs, e)
    ensures Inv(Step(cs, e).0)
  {
    match e
    case AttachReq(who, mi, ours, draws) => AttachKeepsInv(cs, who, mi, ours, draws);
    case IdResp(i, mi) => RespondKeepsInv(cs, i, mi);
    case DetachReq(i) => SetKeeps(cs, i, cs[i].(state := Deregistered));
    case RaUpdReq(who, supported, draws) =>
      if who.Some? {
        assert Known(cs[who.value]);
        hide Inv, AllocPtmsi;
        var c := Reallocate(cs[who.value], AllocPtmsi(cs, draws));
        SetKeeps(cs, who.value, TimerStart(c, 3350).(mode := ModeRau));
      }
    case Complete(i) =>
      assert Known(cs[i]);
      SetKeeps(cs, i, cs[i].(running := false, pTmsiOld := 0));
    case Timeout(i) =>
      ExpireKnown(cs[i]);
      hide Inv, Expire;
      SetKeeps(cs, i, Expire(cs[i]).0);
    case Suspend(who) =>
      if who.Some? {
        SetKeeps(cs, who.value, cs[who.value]);
        assert Known(cs[who.value]);
        hide Inv;
        if cs[who.value].state == RegisteredNormal {
          SetKeeps(cs, who.value, cs[who.value].(state := RegisteredSuspended));
        }
      }
    case Resume(who) =>
      if who.Some? {
        assert Known(cs[who.value]);
        hide Inv;
        if cs[who.value].state == RegisteredSuspended {
          SetKeeps(cs, who.value, cs[who.value].(state := RegisteredNormal));
        }
      }
  }

  predicate StepOf(cs: seq<MmCtx>, e: Event, ds: seq<MmCtx>)
  {
    Possible(cs, e) && ds == Step(cs, e).0
  }

  predicate History(lists: seq<seq<MmCtx>>, es: seq<Event>)
  {
    |lists| == |es| + 1 && lists[0] == [] && forall i :: 0 <= i < |es| ==> StepOf(lists[i], es[i], lists[i + 1])
  }

  /** The same over every run from an empty list. */
  lemma {:induction false} InvAlways(lists: seq<seq<MmCtx>>, es: seq<Event>, i: nat)
    requires History(lists, es) && i < |lists|
    ensures Inv(lists[i])
  {
    hide Inv, Step, Possible;
    if i > 0 {
      InvAlways(lists, es, i - 1);
      assert StepOf(lists[i - 1], es[i - 1], lists[i]);
      StepKeepsInv(lists[i - 1], es[i - 1]);
    } else {
      EmptyInv();
    }
  }

  lemma EmptyInv()
    ensures Inv([])
  {
  }

  // ---- one context per subscriber ----

  predicate ImsisDistinct(cs: seq<MmCtx>)
  {
    forall i, j :: 0 <= i < j < |cs| && cs[i].imsi != "" ==> cs[i].imsi != cs[j].imsi
  }

  predicate Other(cs: seq<MmCtx>, i: nat, imsi: string)
  {
    exists k :: 0 <= k < |cs| && k != i && cs[k].imsi == imsi
  }

  /** A context that has an IMSI tells one that another context has. */
  predicate Clashes(cs: seq<MmCtx>, e: Event)
  {
    && e.IdResp? && e.mi.Imsi? && e.mi.digits != ""
    && e.at < |cs| && cs[e.at].imsi != "" && Other(cs, e.at, e.mi.digits)
  }

  /** Every event leaves one context per IMSI, except exactly such a one: then there are two. */
  lemma StepImsisIff(cs: seq<MmCtx>, e: Event)
    requires ImsisDistinct(cs) && Possible(cs, e)
    ensures ImsisDistinct(Step(cs, e).0) <==> !Clashes(cs, e)
  {
    match e
    case AttachReq(who, mi, ours, draws) => AttachImsis(cs, who, mi, ours, draws);
    case IdResp(i, mi) => RespondImsis(cs, i, mi);
    case RaUpdReq(who, supported, draws) =>
      hide AllocPtmsi, Enough;
      if who.Some? {
        SameImsi(cs, who.value, TimerStart(Reallocate(cs[who.value], AllocPtmsi(cs, draws)), 3350).(mode := ModeRau));
      }
    case DetachReq(i) => SameImsi(cs, i, cs[i].(state := Deregistered));
    case Complete(i) => SameImsi(cs, i, cs[i].(running := false, pTmsiOld := 0));
    case Timeout(i) => SameImsi(cs, i, Expire(cs[i]).0);
    case Suspend(who) =>
      if who.Some? {
        SameImsi(cs, who.value, cs[who.value].(state := RegisteredSuspended));
      }
    case Resume(who) =>
      if who.Some? {
        SameImsi(cs, who.value, cs[who.value].(state := RegisteredNormal));
      }
  }

  /** Over every run from an empty list there is one context per IMSI all along exactly if no
      event is such a one. */
  lemma ImsisDistinctIff(lists: seq<seq<MmCtx>>, es: seq<Event>)
    requires |lists| == |es| + 1 && History(lists, es)
    ensures (forall i :: 0 <= i < |lists| ==> ImsisDistinct(lists[i]))
       <==> (forall i :: 0 <= i < |es| ==> !Clashes(lists[i], es[i]))
  {
    hide *;
    if forall i :: 0 <= i < |lists| ==> ImsisDistinct(lists[i]) {
      forall i | 0 <= i < |es| ensures !Clashes(lists[i], es[i]) {
        assert ImsisDistinct(lists[i]) && ImsisDistinct(lists[i + 1]);
        RunImsis(lists, es, i);
      }
    }
    if forall i :: 0 <= i < |es| ==> !Clashes(lists[i], es[i]) {
      forall i | 0 <= i < |lists| ensures ImsisDistinct(lists[i]) {
        StaysDistinct(lists, es, i);
      }
    }
  }

  lemma RunImsis(lists: seq<seq<MmCtx>>, es: seq<Event>, i: nat)
    requires |lists| == |es| + 1 && History(lists, es) && i < |es| && ImsisDistinct(lists[i])
    ensures ImsisDistinct(lists[i + 1]) <==> !Clashes(lists[i], es[i])
  {
    assert StepOf(lists[i], es[i], lists[i + 1]);
    StepImsisIff(lists[i], es[i]);
    hide ImsisDistinct, Step, Possible, Clashes;
  }

  lemma {:induction false} StaysDistinct(lists: seq<seq<MmCtx>>, es: seq<Event>, i: nat)
    requires |lists| == |es| + 1 && History(lists, es) && i < |lists|
    requires forall j :: 0 <= j < |es| ==> !Clashes(lists[j], es[j])
    ensures ImsisDistinct(lists[i])
  {
    hide StepOf, Clashes;
    if i > 0 {
      StaysDistinct(lists, es, i - 1);
      RunImsis(lists, es, i - 1);
    }
  }

  lemma SameImsi(cs: seq<MmCtx>, i: nat, c: MmCtx)
    requires i < |cs| && c.imsi == cs[i].imsi
    ensures ImsisDistinct(cs[i := c]) <==> ImsisDistinct(cs)
  {
    var ds := cs[i := c];
    assert forall j :: 0 <= j < |cs| ==> ds[j].imsi == cs[j].imsi;
  }

  lemma NewImsi(cs: seq<MmCtx>, c: MmCtx)
    requires ImsisDistinct(cs) && (c.imsi != "" ==> ByImsi(cs, c.imsi) == |cs|)
    ensures ImsisDistinct([c] + cs)
  {
  }

  lemma AttachImsis(cs: seq<MmCtx>, who: Option<nat>, mi: Identity, ours: bool, draws: seq<nat>)
    requires ImsisDistinct(cs) && Possible(cs, AttachReq(who, mi, ours, draws))
    ensures ImsisDistinct(Attach(cs, who, mi, ours, draws).0)
  {
    var found := AttachTo(cs, who, mi, ours);
    if found.Some? {
      var (ds, i) := found.value;
      var p := AllocPtmsi(ds, draws);
      AuthorizeKnown(Reallocate(ds[i], p), ModeAtt);
      hide ImsisDistinct, Authorize, AllocPtmsi, Enough;
      if ds != cs {
        assert ds[1..] == cs && ds == [ds[0]] + cs;
        NewImsi(cs, ds[0]);
      }
      SameImsi(ds, i, Authorize(Reallocate(ds[i], p), ModeAtt).0);
    }
  }

  lemma RespondImsis(cs: seq<MmCtx>, i: nat, mi: Identity)
    requires ImsisDistinct(cs) && Possible(cs, IdResp(i, mi))
    ensures ImsisDistinct(Respond(cs, i, mi).0) <==> !Clashes(cs, IdResp(i, mi))
  {
    var (ds, j) := Identify(cs, i, mi);
    var (c, o) := Authorize(ds[j], ds[j].mode);
    IdentifyImsis(cs, i, mi);
    AuthorizeKnown(ds[j], ds[j].mode);
    assert Respond(cs, i, mi).0 == ds[j := c];
    hide *;
    SameImsi(ds, j, c);
  }

  /** Telling an identity, before anything is decided. */
  lemma IdentifyImsis(cs: seq<MmCtx>, i: nat, mi: Identity)
    requires ImsisDistinct(cs) && Possible(cs, IdResp(i, mi))
    ensures ImsisDistinct(Identify(cs, i, mi).0) <==> !Clashes(cs, IdResp(i, mi))
  {
    var c := if AsAsked(cs[i], mi) then cs[i].(running := false) else cs[i];
    match mi
    case Imsi(s) =>
      var k := ByImsi(cs, s);
      var d := c.(imsi := s);
      if cs[i].imsi != "" && s != "" && Other(cs, i, s) {
        TwoAlike(cs, i, d);
      } else if cs[i].imsi == "" && k < |cs| {
        OldOneGone(cs, i, d, k);
      } else {
        NoneAlike(cs, i, d);
      }
      hide ByImsi, Other, ImsisDistinct, Without;
    case Imei(s) => SameImsi(cs, i, c.(imei := s));
    case _ => SameImsi(cs, i, c);
  }

  lemma TwoAlike(cs: seq<MmCtx>, i: nat, c: MmCtx)
    requires i < |cs| && c.imsi != "" && Other(cs, i, c.imsi)
    ensures !ImsisDistinct(cs[i := c])
  {
    var m :| 0 <= m < |cs| && m != i && cs[m].imsi == c.imsi;
    assert cs[i := c][m].imsi == cs[i := c][i].imsi;
  }

  lemma NoneAlike(cs: seq<MmCtx>, i: nat, c: MmCtx)
    requires ImsisDistinct(cs) && i < |cs| && (c.imsi != "" ==> !Other(cs, i, c.imsi))
    ensures ImsisDistinct(cs[i := c])
  {
    assert c.imsi != "" ==> forall j :: 0 <= j < |cs| && j != i ==> cs[j].imsi != c.imsi;
  }

  /** The context that had the IMSI goes; it was the only one. */
  lemma OldOneGone(cs: seq<MmCtx>, i: nat, c: MmCtx, k: nat)
    requires ImsisDistinct(cs) && i < |cs| && k < |cs| && k != i && cs[k].imsi == c.imsi
    ensures ImsisDistinct(Without(cs[i := c], k))
  {
    var ds := cs[i := c];
    var w := Without(ds, k);
    assert c.imsi != "" ==> forall j :: 0 <= j < |cs| && j != k ==> cs[j].imsi != c.imsi;
    forall m, n | 0 <= m < n < |w| && w[m].imsi != "" ensures w[m].imsi != w[n].imsi {
      assert w[m] == ds[if m < k then m else m + 1] && w[n] == ds[if n < k then n else n + 1];
    }
  }

  /** The look-up by the P-TMSI that a context holds leads to that context, unless one in front
      of it in the list still answers to it as its old one. */
  lemma FoundByPtmsiIff(cs: seq<MmCtx>, i: nat)
    requires Distinct(cs) && i < |cs|
    ensures ByPtmsi(cs, cs[i].pTmsi) == i
       <==> forall j :: 0 <= j < i ==> cs[j].pTmsiOld == 0 || cs[j].pTmsiOld != cs[i].pTmsi
  {
    var p := cs[i].pTmsi;
    var k := ByPtmsi(cs, p);
    hide ByPtmsi;
    assert Answers(cs[i], p);
    if k < i {
      assert Answers(cs[k], p);
    }
    if k == i {
      forall j | 0 <= j < i ensures cs[j].pTmsiOld == 0 || cs[j].pTmsiOld != p {
        assert !Answers(cs[j], p);
      }
    }
  }

  // ---- how an attach goes on ----

  function Missing(c: MmCtx): nat
  {
    (if c.imsi == "" then 1 else 0) + if c.imei == "" then 1 else 0
  }

  /** The context that answers the identity it was asked for. */
  function Answered(c: MmCtx, id: string): MmCtx
  {
    var d := c.(running := false);
    Authorize(if c.idType == IdImei then d.(imei := id) else d.(imsi := id), c.mode).0
  }

  /** That is what an identity response makes of the context it is about, wherever it then is in
      the list. */
  lemma RespondIsAnswered(cs: seq<MmCtx>, i: nat, mi: Identity)
    requires Possible(cs, IdResp(i, mi)) && AsAsked(cs[i], mi)
    ensures var j := Identify(cs, i, mi).1;
            var ds := Step(cs, IdResp(i, mi)).0;
            j < |ds| && ds[j] == Answered(cs[i], mi.digits)
  {
    hide Authorize, ByImsi;
    if mi.Imsi? {
      var k := ByImsi(cs, mi.digits);
      var ds := cs[i := cs[i].(running := false, imsi := mi.digits)];
      if cs[i].imsi == "" && k < |cs| {
        assert k != i;
        assert Without(ds, k)[if k < i then i - 1 else i] == ds[i];
      }
    }
  }

  /** As many answers to identity requests as identities are missing, and not fewer, register a
      mobile. */
  lemma {:induction false} RegisteredAfterAnswers(c: MmCtx, mode: Mode, ids: seq<string>)
    requires |ids| <= Missing(c) && forall k :: 0 <= k < |ids| ==> ids[k] != ""
    ensures Follow(Authorize(c, mode).0, ids).state == RegisteredNormal <==> |ids| == Missing(c)
    decreases ids
  {
    if ids != [] {
      var a := Authorize(c, mode).0;
      var d := if a.idType == IdImei then a.(running := false, imei := ids[0]) else a.(running := false, imsi := ids[0]);
      RegisteredAfterAnswers(d, a.mode, ids[1..]);
    }
  }

  function Follow(c: MmCtx, ids: seq<string>): MmCtx
    decreases ids
  {
    if ids == [] then c else Follow(Answered(c, ids[0]), ids[1..])
  }

  /** What n expiries in a row make of a context, with all that is sent. */
  function Expiries(c: MmCtx, n: nat): (MmCtx, seq<Out>)
  {
    if n == 0 then (c, [])
    else
      var r := Expiries(c, n - 1);
      var s := Expire(r.0);
      (s.0, r.1 + s.1)
  }

  /** A message is repeated four times; the fifth expiry gives the mobile up, and the timer is not
      started again. */
  lemma {:induction false} GivesUpAtFive(c: MmCtx, n: nat)
    requires c.numExp == 0 && c.running && n <= 5 && c.timer in {3350, 3360, 3370}
    ensures var r := Expiries(c, n);
            && r.0 == c.(numExp := n, running := n < 5, state := if n < 5 then c.state else Deregistered)
            && r.1 == Times(Repeated(c), if n < 5 then n else 4) + (if n == 5 && c.timer == 3370 then [AttRej] else [])
  {
    if n > 0 {
      GivesUpAtFive(c, n - 1);
      hide Repeated;
      RepeatedAt(Expiries(c, n - 1).0);
      SameRepeated(c, Expiries(c, n - 1).0);
    }
  }

  lemma RepeatedAt(c: MmCtx)
    requires c.timer in {3350, 3360, 3370}
    ensures Expire(c) == if c.numExp >= 4
                         then (c.(numExp := c.numExp + 1, running := false, state := Deregistered),
                               if c.timer == 3370 then [AttRej] else [])
                         else (c.(numExp := c.numExp + 1, running := true), Repeated(c))
  {
  }

  lemma SameRepeated(c: MmCtx, d: MmCtx)
    requires c.timer == d.timer && c.mode == d.mode && c.idType == d.idType
    ensures Repeated(c) == Repeated(d)
  {
  }

  function Times(out: seq<Out>, n: nat): seq<Out>
  {
    if n == 0 then [] else Times(out, n - 1) + out
  }

  /** The message, if any, that waits for an answer. */
  function Repeated(c: MmCtx): seq<Out>
  {
    if c.timer == 3370 then [IdReq(c.idType)]
    else if c.timer == 3360 || c.mode == ModeReall then []
    else if c.mode == ModeRau then [RauAck]
    else [AttAck]
  }

  // ---- the program's own form ----

  class Sgsn {
    var mmCtxts: seq<MmCtx>
    var sent: seq<Out>

    constructor ()
      ensures mmCtxts == [] && sent == []
    {
      mmCtxts, sent := [], [];
    }

    /** sgsn_mm_ctx_by_imsi */
    method CtxByImsi(imsi: string) returns (i: nat)
      ensures i == ByImsi(mmCtxts, imsi)
    {
      i := 0;
      while i < |mmCtxts|
        invariant i <= |mmCtxts|
        invariant ByImsi(mmCtxts, imsi) == i + ByImsi(mmCtxts[i..], imsi)
      {
        if mmCtxts[i].imsi == imsi {
          return;
        }
        assert mmCtxts[i..][1..] == mmCtxts[i + 1..];
        i := i + 1;
      }
    }

    /** sgsn_mm_ctx_by_ptmsi */
    method CtxByPtmsi(p: nat) returns (i: nat)
      ensures i == ByPtmsi(mmCtxts, p)
    {
      i := 0;
      while i < |mmCtxts|
        invariant i <= |mmCtxts|
        invariant ByPtmsi(mmCtxts, p) == i + ByPtmsi(mmCtxts[i..], p)
      {
        var c := mmCtxts[i];
        if p == c.pTmsi || (c.pTmsiOld != 0 && c.pTmsiOld == p) {
          return;
        }
        assert mmCtxts[i..][1..] == mmCtxts[i + 1..];
        i := i + 1;
      }
    }

    /** sgsn_alloc_ptmsi on the random numbers that come up. */
    method AllocPTmsi(draws: seq<nat>) returns (p: nat)
      requires Enough(mmCtxts, draws)
      ensures p == AllocPtmsi(mmCtxts, draws)
    {
      var k := 0;
      while true
        invariant 0 <= k < |draws| && Enough(mmCtxts, draws[k..])
        invariant AllocPtmsi(mmCtxts, draws) == AllocPtmsi(mmCtxts, draws[k..])
        decreases |draws| - k
      {
        p := draws[k];
        var i := 0;
        while i < |mmCtxts| && mmCtxts[i].pTmsi != p
          invariant 0 <= i <= |mmCtxts|
          invariant forall j :: 0 <= j < i ==> mmCtxts[j].pTmsi != p
        {
          i := i + 1;
        }
        if i == |mmCtxts| {
          return;
        }
        NextDraw(mmCtxts, draws, k);
        k := k + 1;
      }
    }

    /** gsm48_gmm_authorize */
    method GmmAuthorize(i: nat, mode: Mode)
      requires i < |mmCtxts|
      modifies this
      ensures mmCtxts == old(mmCtxts)[i := Authorize(old(mmCtxts)[i], mode).0]
      ensures sent == old(sent) + [Authorize(old(mmCtxts)[i], mode).1]
    {
      var c := mmCtxts[i];
      if c.imei != "" && c.imsi != "" {
        c := TimerStart(c.(mode := mode), 3350);
        c := c.(state := RegisteredNormal);
        sent := sent + [AttAck];
      } else if c.imei == "" {
        c := TimerStart(c.(state := CommonProcInit, idType := IdImei), 3370);
        sent := sent + [IdReq(IdImei)];
      } else {
        c := TimerStart(c.(state := CommonProcInit, idType := IdImsi), 3370);
        sent := sent + [IdReq(IdImsi)];
      }
      mmCtxts := mmCtxts[i := c];
    }

    /** gsm48_rx_gmm_att_req */
    method RxAttReq(who: Option<nat>, mi: Identity, ours: bool, draws: seq<nat>)
      requires Possible(mmCtxts, AttachReq(who, mi, ours, draws))
      modifies this
      ensures var r := Step(old(mmCtxts), AttachReq(who, mi, ours, draws));
              mmCtxts == r.0 && sent == old(sent) + r.1
    {
      hide Authorize, Enough, AllocPtmsi, ByImsi, ByPtmsi;
      var i: nat;
      match mi {
        case Imsi(s) =>
          if who.Some? {
            i := who.value;
          } else {
            i := CtxByImsi(s);
            if i == |mmCtxts| {
              if !ours {
                sent := sent + [AttRej];
                return;
              }
              mmCtxts := [NEW_CTX.(imsi := s)] + mmCtxts;
              i := 0;
            }
          }
        case Tmsi(p) =>
          if who.Some? {
            i := who.value;
          } else {
            i := CtxByPtmsi(p);
            if i == |mmCtxts| {
              mmCtxts := [NEW_CTX.(pTmsi := p)] + mmCtxts;
              i := 0;
            }
          }
        case _ =>
          sent := sent + [AttRej];
          return;
      }
      assert AttachTo(old(mmCtxts), who, mi, ours) == Some((mmCtxts, i));
      var p := AllocPTmsi(draws);
      mmCtxts := mmCtxts[i := mmCtxts[i].(pTmsiOld := mmCtxts[i].pTmsi, pTmsi := p)];
      GmmAuthorize(i, ModeAtt);
    }

    /** The case of an IMSI in gsm48_rx_gmm_id_resp. */
    method LearnImsi(at: nat, s: string) returns (i: nat)
      requires at < |mmCtxts| && (mmCtxts[at].imsi == "" ==> ByImsi(mmCtxts, s) != at)
      modifies this`mmCtxts
      ensures i < |mmCtxts|
      ensures var cs := old(mmCtxts);
              var k := if cs[at].imsi == "" then ByImsi(cs, s) else |cs|;
              var ds := cs[at := cs[at].(imsi := s)];
              (mmCtxts, i) == if k < |cs| then (Without(ds, k), if k < at then at - 1 else at) else (ds, at)
    {
      hide ByImsi, Without;
      var k := |mmCtxts|;
      if mmCtxts[at].imsi == "" {
        k := CtxByImsi(s);
      }
      mmCtxts := mmCtxts[at := mmCtxts[at].(imsi := s)];
      i := at;
      if k < |mmCtxts| {
        WithoutLen(mmCtxts, k);
        mmCtxts := Without(mmCtxts, k);
        if k < i {
          i := i - 1;
        }
      }
    }

    /** gsm48_rx_gmm_id_resp */
    method RxIdResp(at: nat, mi: Identity)
      requires Possible(mmCtxts, IdResp(at, mi))
      modifies this
      ensures var r := Step(old(mmCtxts), IdResp(at, mi)); mmCtxts == r.0 && sent == old(sent) + r.1
    {
      ghost var cs := mmCtxts;
      RespondIs(cs, at, mi);
      IdentifyIs(cs, at, mi);
      hide *;
      var i := at;
      if AsAsked(mmCtxts[i], mi) {
        mmCtxts := mmCtxts[i := mmCtxts[i].(running := false)];
      }
      ghost var c := mmCtxts[i];
      assert mmCtxts == cs[at := c] && c == Stopped(cs[at], mi);
      match mi {
        case Imsi(s) =>
          SameSearch(cs, at, c, s);
          PutTwice(cs, at, c, c.(imsi := s));
          i := LearnImsi(i, s);
        case Imei(s) =>
          PutTwice(cs, at, c, c.(imei := s));
          mmCtxts := mmCtxts[i := mmCtxts[i].(imei := s)];
        case _ =>
      }
      assert Identify(cs, at, mi) == (mmCtxts, i);
      GmmAuthorize(i, mmCtxts[i].mode);
    }

    /** gsm48_rx_gmm_ra_upd_req */
    method RxRaUpdReq(who: Option<nat>, supported: bool, draws: seq<nat>)
      requires Possible(mmCtxts, RaUpdReq(who, supported, draws))
      modifies this
      ensures var r := Step(old(mmCtxts), RaUpdReq(who, supported, draws));
              mmCtxts == r.0 && sent == old(sent) + r.1
    {
      hide AllocPtmsi, Enough;
      if !supported || who == None || mmCtxts[who.value].state == Deregistered {
        sent := sent + [RauRej];
        return;
      }
      var i := who.value;
      var p := AllocPTmsi(draws);
      var c := mmCtxts[i].(pTmsiOld := mmCtxts[i].pTmsi, pTmsi := p);
      c := TimerStart(c.(mode := ModeRau), 3350);
      mmCtxts := mmCtxts[i := c];
      sent := sent + [RauAck];
    }

    /** mmctx_timer_cb */
    method TimerCb(at: nat)
      requires at < |mmCtxts|
      modifies this
      ensures var r := Step(old(mmCtxts), Timeout(at)); mmCtxts == r.0 && sent == old(sent) + r.1
    {
      var c := mmCtxts[at].(numExp := mmCtxts[at].numExp + 1, running := false);
      var out := [];
      match c.timer {
        case 3350 =>
          if c.numExp >= 5 {
            c := c.(state := Deregistered);
          } else {
            match c.mode {
              case ModeAtt => out := [AttAck];
              case ModeRau => out := [RauAck];
              case ModeReall =>
            }
            c := c.(running := true);
          }
        case 3360 =>
          c := if c.numExp >= 5 then c.(state := Deregistered) else c.(running := true);
        case 3370 =>
          if c.numExp >= 5 {
            out := [AttRej];
            c := c.(state := Deregistered);
          } else {
            out := [IdReq(c.idType)];
            c := c.(running := true);
          }
        case _ =>
      }
      mmCtxts := mmCtxts[at := c];
      sent := sent + out;
    }

    /** gprs_gmm_rx_suspend */
    method RxSuspend(who: Option<nat>) returns (r: Result<()>)
      requires InList(mmCtxts, who)
      modifies this`mmCtxts
      ensures mmCtxts == Step(old(mmCtxts), Suspend(who)).0
      ensures r.Ok? <==> who.Some? && old(mmCtxts)[who.value].state == RegisteredNormal
    {
      if who == None || mmCtxts[who.value].state != RegisteredNormal {
        return Err(EINVAL);
      }
      mmCtxts := mmCtxts[who.value := mmCtxts[who.value].(state := RegisteredSuspended)];
      r := Ok(());
    }

    /** gprs_gmm_rx_resume */
    method RxResume(who: Option<nat>) returns (r: Result<()>)
      requires InList(mmCtxts, who)
      modifies this`mmCtxts
      ensures mmCtxts == Step(old(mmCtxts), Resume(who)).0
      ensures r.Ok? <==> who.Some? && old(mmCtxts)[who.value].state == RegisteredSuspended
    {
      if who == None || mmCtxts[who.value].state != RegisteredSuspended {
        return Err(EINVAL);
      }
      mmCtxts := mmCtxts[who.value := mmCtxts[who.value].(state := RegisteredNormal)];
      r := Ok(());
    }
  }

  lemma NextDraw(cs: seq<MmCtx>, draws: seq<nat>, k: nat)
    requires k < |draws| && Enough(cs, draws[k..]) && Taken(cs, draws[k])
    ensures k + 1 < |draws| && Enough(cs, draws[k + 1..])
    ensures AllocPtmsi(cs, draws[k..]) == AllocPtmsi(cs, draws[k + 1..])
  {
    var d := draws[k..];
    hide Taken;
    var j :| 0 <= j < |d| && !Taken(cs, d[j]);
    assert d[1..] == draws[k + 1..];
    assert draws[k + 1..][j - 1] == d[j];
  }

  lemma IdentifyIs(cs: seq<MmCtx>, i: nat, mi: Identity)
    requires Possible(cs, IdResp(i, mi))
    ensures i < |cs| && (mi.Imsi? && cs[i].imsi == "" ==> ByImsi(cs, mi.digits) != i)
    ensures Stopped(cs[i], mi) == if AsAsked(cs[i], mi) then cs[i].(running := false) else cs[i]
    ensures var c := Stopped(cs[i], mi);
            && c.imsi == cs[i].imsi
            && (mi.Imsi? ==>
                  var k := if c.imsi == "" then ByImsi(cs, mi.digits) else |cs|;
                  var ds := cs[i := c.(imsi := mi.digits)];
                  Identify(cs, i, mi) == if k < |cs| then (Without(ds, k), if k < i then i - 1 else i) else (ds, i))
            && (mi.Imei? ==> Identify(cs, i, mi) == (cs[i := c.(imei := mi.digits)], i))
            && (!mi.Imsi? && !mi.Imei? ==> Identify(cs, i, mi) == (cs[i := c], i))
  {
    hide ByImsi;
  }

  lemma PutTwice(cs: seq<MmCtx>, i: nat, c: MmCtx, d: MmCtx)
    requires i < |cs|
    ensures cs[i := c][i := d] == cs[i := d]
  {
  }

  lemma SameSearch(cs: seq<MmCtx>, i: nat, c: MmCtx, imsi: string)
    requires i < |cs| && c.imsi == cs[i].imsi
    ensures ByImsi(cs[i := c], imsi) == ByImsi(cs, imsi)
  {
    SameImsis(cs, cs[i := c], imsi);
  }

  lemma WithoutLen(cs: seq<MmCtx>, k: nat)
    requires k < |cs|
    ensures |Without(cs, k)| == |cs| - 1
  {
  }

  lemma RespondIs(cs: seq<MmCtx>, i: nat, mi: Identity)
    requires Possible(cs, IdResp(i, mi))
    ensures var (ds, j) := Identify(cs, i, mi);
            var (c, o) := Authorize(ds[j], ds[j].mode);
            Step(cs, IdResp(i, mi)) == (ds[j := c], [o])
  {
    hide Identify, Authorize;
  }

  /** Stopping a timer changes no IMSI. */
  lemma {:induction false} SameImsis(cs: seq<MmCtx>, ds: seq<MmCtx>, imsi: string)
    requires |cs| == |ds| && forall i :: 0 <= i < |cs| ==> cs[i].imsi == ds[i].imsi
    ensures ByImsi(cs, imsi) == ByImsi(ds, imsi)
    decreases cs
  {
    if cs != [] {
      SameImsis(cs[1..], ds[1..], imsi);
    }
  }
}
