/** Runs of the mobility management that lead to the two situations in which its look-ups go
    wrong. */
module GmmWitnesses {
  import opened Wrappers
  import opened Gmm
  import opened GmmAnswers

  function Ctx(imsi: string, p: nat, was: nat): MmCtx
  {
    MmCtx(imsi, "", CommonProcInit, p, was, 3370, true, 0, ModeAtt, IdImei)
  }

  /** A mobile that is not known attaches with an IMSI and gets its first P-TMSI. */
  lemma NewByImsi(cs: seq<MmCtx>, imsi: string, p: nat)
    requires imsi != "" && ByImsi(cs, imsi) == |cs| && p > 0 && !Taken(cs, p)
    ensures StepOf(cs, AttachReq(None, Imsi(imsi), true, [p]), [Ctx(imsi, p, 0)] + cs)
  {
    var ds := [NEW_CTX.(imsi := imsi)] + cs;
    FirstDraw(cs, NEW_CTX.(imsi := imsi), p);
    hide Taken, ByImsi, AllocPtmsi;
    assert AttachTo(cs, None, Imsi(imsi), true) == Some((ds, 0));
    assert ds[0 := Ctx(imsi, p, 0)] == [Ctx(imsi, p, 0)] + cs;
  }

  /** The same with a P-TMSI of which nothing is known. */
  lemma NewByTmsi(cs: seq<MmCtx>, tmsi: nat, p: nat)
    requires ByPtmsi(cs, tmsi) == |cs| && p != tmsi && !Taken(cs, p)
    ensures StepOf(cs, AttachReq(None, Tmsi(tmsi), true, [p]), [Ctx("", p, tmsi)] + cs)
  {
    var ds := [NEW_CTX.(pTmsi := tmsi)] + cs;
    FirstDraw(cs, NEW_CTX.(pTmsi := tmsi), p);
    hide Taken, ByPtmsi, AllocPtmsi;
    assert AttachTo(cs, None, Tmsi(tmsi), true) == Some((ds, 0));
    assert ds[0 := Ctx("", p, tmsi)] == [Ctx("", p, tmsi)] + cs;
  }

  /** A draw that neither the new context nor any other has is taken at once. */
  lemma FirstDraw(cs: seq<MmCtx>, c: MmCtx, p: nat)
    requires !Taken(cs, p) && c.pTmsi != p
    ensures Enough([c] + cs, [p]) && AllocPtmsi([c] + cs, [p]) == p
  {
    var ds := [c] + cs;
    forall i | 0 <= i < |ds| ensures ds[i].pTmsi != p {
      assert i > 0 ==> ds[i] == cs[i - 1];
    }
    assert !Taken(ds, [p][0]);
  }

  lemma ThreeSteps(l1: seq<MmCtx>, l2: seq<MmCtx>, l3: seq<MmCtx>, e0: Event, e1: Event, e2: Event)
    returns (lists: seq<seq<MmCtx>>, es: seq<Event>)
    requires StepOf([], e0, l1) && StepOf(l1, e1, l2) && StepOf(l2, e2, l3)
    ensures |es| == 3 && |lists| == 4 && History(lists, es) && lists[3] == l3
  {
    hide StepOf;
    lists, es := [[], l1, l2, l3], [e0, e1, e2];
    forall i | 0 <= i < |es| ensures StepOf(lists[i], es[i], lists[i + 1]) {
      assert i == 0 || i == 1 || i == 2;
    }
  }

  /** Two mobiles attach, and the second one then tells the IMSI of the first: two contexts have
      the same IMSI. */
  lemma SameImsiTwice(x: string, y: string) returns (lists: seq<seq<MmCtx>>, es: seq<Event>)
    requires x != "" && y != "" && x != y
    ensures |lists| == |es| + 1 && History(lists, es) && !ImsisDistinct(lists[|es|])
  {
    var a, b, c := Ctx(x, 1, 0), Ctx(y, 2, 0), Ctx(x, 2, 0);
    NewByImsi([], x, 1);
    NewByImsi([a], y, 2);
    assert [a] + [] == [a] && [b] + [a] == [b, a];
    TellsAgain(a, b, x);
    hide StepOf, History;
    lists, es := ThreeSteps([a], [b, a], [c, a], AttachReq(None, Imsi(x), true, [1]),
                            AttachReq(None, Imsi(y), true, [2]), IdResp(0, Imsi(x)));
    assert lists[3][0].imsi == lists[3][1].imsi;
  }

  lemma TellsAgain(a: MmCtx, b: MmCtx, x: string)
    requires x != "" && b.imsi != "" && b == Ctx(b.imsi, 2, 0)
    ensures StepOf([b, a], IdResp(0, Imsi(x)), [Ctx(x, 2, 0), a])
  {
    assert [b, a][0 := b.(imsi := x)] == [b.(imsi := x), a];
    assert Identify([b, a], 0, Imsi(x)) == ([b.(imsi := x), a], 0);
    assert [b.(imsi := x), a][0 := Ctx(x, 2, 0)] == [Ctx(x, 2, 0), a];
  }

  /** A mobile gets the P-TMSI that another one had until just now: the look-up finds the other
      one. */
  lemma ShadowedPtmsi(x: string) returns (lists: seq<seq<MmCtx>>, es: seq<Event>)
    requires x != ""
    ensures |lists| == |es| + 1 && History(lists, es)
    ensures |lists[|es|]| == 2 && ByPtmsi(lists[|es|], lists[|es|][1].pTmsi) == 0
  {
    var a, c := Ctx("", 1, 7), Ctx(x, 5, 0);
    var d := TimerStart(c.(pTmsiOld := 5, pTmsi := 7), 3350).(mode := ModeRau);
    NewByImsi([], x, 5);
    NobodyAnswers(c);
    assert [c] + [] == [c] && [a] + [c] == [a, c];
    GetsOldOne(a, c, d);
    assert Answers([a, d][0], 7);
    hide StepOf, History, Ctx, Answers, Taken;
    NewByTmsi([c], 7, 1);
    lists, es := ThreeSteps([c], [a, c], [a, d], AttachReq(None, Imsi(x), true, [5]),
                            AttachReq(None, Tmsi(7), true, [1]), RaUpdReq(Some(1), true, [7]));
  }

  lemma NobodyAnswers(c: MmCtx)
    requires c.pTmsi == 5 && c.pTmsiOld == 0
    ensures ByPtmsi([c], 7) == 1 && !Taken([c], 1)
  {
    assert !Answers([c][0], 7);
  }

  lemma GetsOldOne(a: MmCtx, c: MmCtx, d: MmCtx)
    requires a == Ctx("", 1, 7) && c == Ctx(c.imsi, 5, 0)
    requires d == TimerStart(c.(pTmsiOld := 5, pTmsi := 7), 3350).(mode := ModeRau)
    ensures StepOf([a, c], RaUpdReq(Some(1), true, [7]), [a, d])
  {
    assert !Taken([a, c], [7][0]);
    assert AllocPtmsi([a, c], [7]) == 7;
    assert [a, c][1 := d] == [a, d];
  }

  lemma OneMoreStep(lists: seq<seq<MmCtx>>, es: seq<Event>, e: Event, l: seq<MmCtx>)
    requires |lists| == |es| + 1 && History(lists, es) && StepOf(lists[|es|], e, l)
    ensures History(lists + [l], es + [e])
  {
    hide StepOf;
  }

  /** A mobile attaches with a P-TMSI that is not known, tells its IMEI, updates its routing area and
      tells its IMSI: it is sent an ATTACH ACCEPT, and a ROUTING AREA UPDATE ACCEPT when it does not
      answer. */
  lemma OtherMessageRepeated(imsi: string, imei: string) returns (lists: seq<seq<MmCtx>>, es: seq<Event>)
    requires imsi != "" && imei != ""
    ensures |es| == 4 && |lists| == 5 && History(lists, es)
    ensures StepOf(lists[3], es[3], lists[4]) && Step(lists[3], es[3]).1 == [AttAck]
    ensures Possible(lists[4], Timeout(0)) && Step(lists[4], Timeout(0)).1 == [RauAck]
  {
    var a := Ctx("", 1, 7);
    var b := MmCtx("", imei, CommonProcInit, 1, 7, 3370, true, 0, ModeAtt, IdImsi);
    NewByTmsi([], 7, 1);
    assert [a] + [] == [a];
    TellsImei(a, imei);
    hide *;
    var cs, ds := RepeatsAnother(b, imsi, 2);
    lists, es := ThreeSteps([a], [b], cs, AttachReq(None, Tmsi(7), true, [1]), IdResp(0, Imei(imei)),
                            RaUpdReq(Some(0), true, [2]));
    OneMoreStep(lists, es, IdResp(0, Imsi(imsi)), ds);
    assert (lists + [ds])[4] == ds && (es + [IdResp(0, Imsi(imsi))])[3] == IdResp(0, Imsi(imsi));
    lists, es := lists + [ds], es + [IdResp(0, Imsi(imsi))];
  }

  lemma TellsImei(a: MmCtx, imei: string)
    requires imei != "" && a == Ctx("", 1, 7)
    ensures StepOf([a], IdResp(0, Imei(imei)), [MmCtx("", imei, CommonProcInit, 1, 7, 3370, true, 0, ModeAtt, IdImsi)])
  {
    var d := a.(running := false, imei := imei);
    assert [a][0 := d] == [d];
    assert Identify([a], 0, Imei(imei)) == ([d], 0);
    assert [d][0 := Authorize(d, ModeAtt).0] == [Authorize(d, ModeAtt).0];
  }
}
