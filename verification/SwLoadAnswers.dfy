/** What each answer of the BTS does to the software download and to the queue, and which runs end
    in failure. */
module SwLoadAnswers {
  import opened Bytes
  import opened Wrappers
  import opened OmlQueue
  import opened Seqs
  import opened SwLoad
  import opened SwLoadRuns
  import opened SwLoadHistory

  /** The answers a state waits for. The case of WAIT_ENDACK runs on into that of WAIT_ACTACK. */
  predicate Awaits(state: SwState, e: SwLoad.Event)
  {
    || (e in {InitAck, InitNack} && state == WaitInitAck)
    || (e == SegAck && state == WaitSegAck)
    || (e in {EndAck, EndNack} && state == WaitEndAck)
    || (e in {ActAck, ActNack} && state in {WaitEndAck, WaitActAck})
  }

  predicate IsAnswer(e: SwLoad.Event)
  {
    !e.Load? && !e.Activate?
  }

  /** What an event submitted. */
  function Submitted(s: Sys, t: Sys): seq<Msg>
    requires s.log <= t.log
  {
    t.log[|s.log|..]
  }

  // ---- the queue ----

  /** An answer that is waited for sends out the first run of what waits then, its own messages
      included; any other changes nothing at all. */
  lemma AnswerLetsOn(s: Sys, e: SwLoad.Event)
    requires s.sw.Consistent() && Gated(s.q) && IsAnswer(e)
    ensures var t := SysStep(s, Ours(e));
            && s.log <= t.log
            && (!Awaits(s.sw.state, e) ==> t == s)
            && (Awaits(s.sw.state, e) ==>
                  var waiting := s.q.queue + Submitted(s, t);
                  var n := RunLen(waiting);
                  && t.q.sent == s.q.sent + waiting[..n] && t.q.queue == waiting[n..]
                  && (t.q.pend <==> s.q.pend && n > 0 && waiting[n - 1].wAck))
  {
    var a := React(s.sw, e);
    NextIff(s.sw, e);
    hide React, Gated, RunLen;
    assert Submitted(s, SysStep(s, Ours(e))) == a.msgs;
    if Awaits(s.sw.state, e) {
      OneRun(a.msgs);
      LetOn(s.q, a.msgs);
    } else {
      assert SubmitAll(s.q, []) == s.q;
      assert s.log + [] == s.log;
    }
  }

  /** Only the last message of an answer may need an acknowledgement. */
  predicate AtOnce(msgs: seq<Msg>)
  {
    forall k :: 0 <= k < |msgs| - 1 ==> !msgs[k].wAck
  }

  lemma OneRun(msgs: seq<Msg>)
    requires AtOnce(msgs)
    ensures RunLen(msgs) == |msgs|
  {
  }

  lemma NextIff(s: Sw, e: SwLoad.Event)
    requires s.Consistent() && IsAnswer(e)
    ensures var a := React(s, e);
            && (a.next <==> Awaits(s.state, e))
            && (!a.next ==> a.sw == s && a.msgs == [])
            && AtOnce(a.msgs)
  {
    SegmentsAtOnce(s);
    SegmentsAtOnce(s.(inWindow := 0));
    hide FillWindow;
  }

  lemma {:induction false} SegmentsAtOnce(s: Sw)
    requires s.Valid()
    ensures forall k :: 0 <= k < |FillWindow(s).1| ==> !FillWindow(s).1[k].wAck && IsSeg(FillWindow(s).1[k])
    decreases s.window - s.inWindow
  {
    if s.inWindow < s.window {
      FillStep(s);
      SegmentsAtOnce(AfterSegment(s));
      hide FillWindow;
    }
  }

  lemma LetOn(q: Oml, msgs: seq<Msg>)
    requires Gated(q) && RunLen(msgs) == |msgs| && AtOnce(msgs)
    ensures var r := SendNext(SubmitAll(q, msgs));
            var waiting := q.queue + msgs;
            var n := RunLen(waiting);
            && r.sent == q.sent + waiting[..n] && r.queue == waiting[n..]
            && (r.pend <==> q.pend && n > 0 && waiting[n - 1].wAck)
  {
    hide *;
    if q.pend {
      JoinAll(q, msgs);
      SendNextIs(q, q.queue + msgs);
    } else {
      OpenGate(q);
      DirectAll(q, msgs);
      WholeRun(q.sent, msgs);
    }
  }

  lemma SendNextIs(q: Oml, waiting: seq<Msg>)
    ensures var r := SendNext(q.(queue := waiting));
            var n := RunLen(waiting);
            && r.sent == q.sent + waiting[..n] && r.queue == waiting[n..]
            && (r.pend <==> n > 0 && waiting[n - 1].wAck)
  {
    hide RunLen;
  }

  lemma OpenGate(q: Oml)
    requires Gated(q) && !q.pend
    ensures q.queue == []
  {
  }

  lemma WholeRun(sent: seq<Msg>, msgs: seq<Msg>)
    ensures [] + msgs == msgs && sent + msgs[..|msgs|] == sent + msgs && msgs[|msgs|..] == []
  {
    assert msgs[..|msgs|] == msgs;
  }

  /** Behind the gate all messages join the queue. */
  lemma {:induction false} JoinAll(q: Oml, msgs: seq<Msg>)
    requires q.pend
    ensures SubmitAll(q, msgs) == q.(queue := q.queue + msgs)
  {
    if msgs == [] {
      assert q.queue + [] == q.queue;
    } else {
      JoinAll(q, msgs[..|msgs|-1]);
      Assoc(q.queue, msgs[..|msgs|-1], [msgs[|msgs|-1]]);
      Snoc(msgs, |msgs| - 1);
      assert msgs[..|msgs|] == msgs;
    }
  }

  /** With the gate open and nothing waiting all go out directly, and nothing is awaited after the
      answer. */
  lemma {:induction false} DirectAll(q: Oml, msgs: seq<Msg>)
    requires !q.pend && q.queue == [] && AtOnce(msgs)
    ensures var r := SubmitAll(q, msgs);
            && r.sent == q.sent + msgs && r.queue == []
            && (r.pend <==> msgs != [] && msgs[|msgs|-1].wAck)
    ensures SendNext(SubmitAll(q, msgs)) == Oml(q.sent + msgs, [], false)
  {
    if msgs == [] {
      assert q.sent + [] == q.sent;
    } else {
      DirectAll(q, msgs[..|msgs|-1]);
      Assoc(q.sent, msgs[..|msgs|-1], [msgs[|msgs|-1]]);
      Snoc(msgs, |msgs| - 1);
      assert msgs[..|msgs|] == msgs;
    }
    var r := SubmitAll(q, msgs);
    hide SubmitAll;
    assert RunLen(r.queue) == 0;
    assert r.sent + r.queue[..0] == r.sent;
  }

  // ---- the state ----

  /** An answer that refuses: a negative one, unless the download is forced. */
  predicate Refuses(s: Sw, e: SwLoad.Event)
  {
    Awaits(s.state, e) && (e == ActNack || (e in {InitNack, EndNack} && !s.forced))
  }

  /** Where an answer that is waited for leads: refusals to failure, the others on; the last
      acknowledgement of segments brings LOAD END, and what ends or activates makes room for the next
      command. */
  lemma AnswerLeads(s: Sys, e: SwLoad.Event)
    requires s.sw.Consistent() && IsAnswer(e) && Awaits(s.sw.state, e)
    ensures var t := SysStep(s, Ours(e));
            && s.log <= t.log
            && (t.sw.state == Failed <==> Refuses(s.sw, e))
            && (t.sw.state == Idle <==> e in {EndAck, EndNack, ActAck, ActNack} && !Refuses(s.sw, e))
            && (t.sw.state == WaitEndAck <==> e == SegAck && s.sw.lastSeg)
            && (t.sw.state == WaitSegAck <==> (e == SegAck && !s.sw.lastSeg) || (e in {InitAck, InitNack} && !Refuses(s.sw, e)))
            && (t.sw.state == WaitSegAck ==> AllSegs(Submitted(s, t)))
            && (t.sw.state == WaitEndAck ==> Submitted(s, t) == [Msg(LoadEnd, true)])
            && (t.sw.state in {Idle, Failed} ==> Submitted(s, t) == [])
            && t.sw.forced == s.sw.forced && t.sw.window == s.sw.window && t.sw.file == s.sw.file
  {
    SegmentsAtOnce(s.sw);
    SegmentsAtOnce(s.sw.(inWindow := 0));
    FillKeeps(s.sw);
    FillKeeps(s.sw.(inWindow := 0));
    hide FillWindow, QueueAfter;
    assert Submitted(s, SysStep(s, Ours(e))) == React(s.sw, e).msgs;
  }

  lemma {:induction false} FillKeeps(s: Sw)
    requires s.Valid()
    ensures var t := FillWindow(s).0; t.forced == s.forced && t.window == s.window && t.file == s.file && t.state == s.state
    decreases s.window - s.inWindow
  {
    if s.inWindow < s.window {
      FillStep(s);
      FillKeeps(AfterSegment(s));
      hide FillWindow;
    }
  }

  /** A command that comes while another one is under way, or after a failure, changes nothing. In the
      idle state a load takes its window and its forced mark over even if its file does not open, and
      otherwise starts with LOAD INIT; an activation does nothing but send ACTIVATE SW, and not even
      that if its file does not open. Both messages need an acknowledgement. */
  lemma Commands(s: Sys, file: Option<seq<byte>>, window: nat, forced: bool)
    requires s.sw.Consistent() && window < 256
    ensures var load := AnyStep(s, Ours(Load(file, window, forced)));
            var activate := AnyStep(s, Ours(Activate(file)));
            if s.sw.state != Idle then load == activate == s
            else if !Opens(file) then load == s.(sw := s.sw.(window := window, forced := forced)) && activate == s
            else
              && load.q == Submit(s.q, Msg(LoadInit, true)) && load.log == [Msg(LoadInit, true)]
              && load.sw.state == WaitInitAck && load.sw.file == file.value && load.sw.pos == 0
              && load.sw.window == window && load.sw.forced == forced
              && activate.q == Submit(s.q, Msg(ActivateSw, true)) && activate.log == s.log + [Msg(ActivateSw, true)]
              && activate.sw == s.sw.(state := WaitActAck)
  {
    SubmitOne(s.q, Msg(LoadInit, true));
    SubmitOne(s.q, Msg(ActivateSw, true));
    assert s.log + [] == s.log;
    hide HasSdpHeader, Submit;
  }

  /** A refusal is what a step into failure takes, and nothing leads out of it. */
  lemma FailedStep(s: Sys, e: SysEvent)
    requires s.sw.Consistent() && Anyway(e)
    ensures AnyStep(s, e).sw.state == Failed <==> s.sw.state == Failed || (e.Ours? && Refuses(s.sw, e.e))
  {
    FillKeeps(s.sw);
    FillKeeps(s.sw.(inWindow := 0));
    hide FillWindow, QueueAfter, Opens;
  }

  predicate RefusedAt(es: seq<SysEvent>, i: nat)
    requires Anything(es) && i < |es|
  {
    es[i].Ours? && Refuses(AnyRun(es[..i]).sw, es[i].e)
  }

  /** Over every run from the zeroed structure: the download is in the failed state exactly if some
      answer refused. As nothing is begun in that state, the first refusal is the end of all loads
      and activations. */
  lemma {:induction false} FailedIff(es: seq<SysEvent>)
    requires Anything(es)
    ensures AnyRun(es).sw.state == Failed <==> exists i :: 0 <= i < |es| && RefusedAt(es, i)
  {
    hide AnyStep, Refuses;
    if es != [] {
      var t, n := es[..|es|-1], |es| - 1;
      FailedIff(t);
      FailedStep(AnyRun(t), es[n]);
      forall i | 0 <= i < n ensures RefusedAt(t, i) <==> RefusedAt(es, i) {
        assert t[..i] == es[..i];
      }
      assert RefusedAt(es, n) <==> es[n].Ours? && Refuses(AnyRun(t).sw, es[n].e);
      hide RefusedAt;
      if exists i :: 0 <= i < |t| && RefusedAt(t, i) {
        var i :| 0 <= i < |t| && RefusedAt(t, i);
        assert RefusedAt(es, i);
      }
    }
  }
}
