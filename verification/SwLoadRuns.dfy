/** Whole runs of the software download over the OML queue, with other messages in between. */
module SwLoadRuns {
  import opened Bytes
  import opened OmlQueue
  import opened Seqs
  import opened SwLoad

  // ---- what a log of messages carries ----

  predicate IsSeg(m: Msg)
  {
    m.kind.LoadSeg?
  }

  predicate IsEnd(m: Msg)
  {
    m.kind.LoadEnd?
  }

  /** The file data a log carries, put together. */
  function Payload(ms: seq<Msg>): seq<byte>
  {
    if ms == [] then []
    else Payload(ms[..|ms|-1]) + (if IsSeg(ms[|ms|-1]) then ms[|ms|-1].kind.data else [])
  }

  function Segs(ms: seq<Msg>): nat
  {
    if ms == [] then 0 else Segs(ms[..|ms|-1]) + (if IsSeg(ms[|ms|-1]) then 1 else 0)
  }

  predicate HasEnd(ms: seq<Msg>)
  {
    exists k :: 0 <= k < |ms| && IsEnd(ms[k])
  }

  lemma {:induction false} LogConcat(a: seq<Msg>, b: seq<Msg>)
    ensures Payload(a + b) == Payload(a) + Payload(b)
    ensures Segs(a + b) == Segs(a) + Segs(b)
    decreases b
  {
    if b == [] {
      assert a + b == a;
    } else {
      var t, m := b[..|b|-1], b[|b|-1];
      LogConcat(a, t);
      assert (a + b)[..|a + b|-1] == a + t && (a + b)[|a + b|-1] == m;
      var data := if IsSeg(m) then m.kind.data else [];
      assert Payload(a + b) == Payload(a + t) + data && Payload(b) == Payload(t) + data;
      hide Payload, IsSeg;
      Assoc(Payload(a), Payload(t), data);
    }
  }

  lemma EndConcat(a: seq<Msg>, b: seq<Msg>)
    ensures HasEnd(a + b) <==> HasEnd(a) || HasEnd(b)
  {
    if HasEnd(a) {
      var k :| 0 <= k < |a| && IsEnd(a[k]);
      assert IsEnd((a + b)[k]);
    }
    if HasEnd(b) {
      var k :| 0 <= k < |b| && IsEnd(b[k]);
      assert IsEnd((a + b)[|a| + k]);
    }
  }

  /** No segment comes after a LOAD END. */
  predicate EndsLast(ms: seq<Msg>)
  {
    forall i, j :: 0 <= i < j < |ms| && IsEnd(ms[i]) ==> !IsSeg(ms[j])
  }

  lemma {:induction false} NothingAfterEnd(ms: seq<Msg>, n: nat)
    requires EndsLast(ms) && n <= |ms| && HasEnd(ms[..n])
    ensures Payload(ms[..n]) == Payload(ms) && Segs(ms[..n]) == Segs(ms)
    decreases |ms|
  {
    if n < |ms| {
      var t := ms[..|ms|-1];
      assert t[..n] == ms[..n];
      var k :| 0 <= k < n && IsEnd(ms[..n][k]);
      assert IsEnd(ms[k]);
      NothingAfterEnd(t, n);
    } else {
      assert ms[..n] == ms;
    }
  }

  /** A part of a log from its start carries a part of the data from its start. */
  lemma PartPayload(ms: seq<Msg>, n: nat)
    requires n <= |ms|
    ensures Payload(ms[..n]) <= Payload(ms)
  {
    hide *;
    LogConcat(ms[..n], ms[n..]);
    assert ms == ms[..n] + ms[n..];
  }

  predicate AllSegs(ms: seq<Msg>)
  {
    forall k :: 0 <= k < |ms| ==> IsSeg(ms[k])
  }

  // ---- filling the window ----

  /** How many segments it takes to send a file: an empty or short one ends it. */
  function Total(len: nat): nat
  {
    len / SEGMENT_SIZE + 1
  }

  /** One segment: sent out of order nothing, counted once, and the flag set exactly when the
      file does not fill it. */
  lemma FillOne(s: Sw)
    requires s.Valid() && s.inWindow < s.window
    ensures var t := AfterSegment(s);
            && Payload([Segment(s)]) == s.file[s.pos..t.pos] && Segs([Segment(s)]) == 1
            && s.pos <= t.pos <= |s.file| && t.inWindow == s.inWindow + 1 && t.window == s.window
            && t.file == s.file && t.state == s.state
            && (s.lastSeg ==> t.lastSeg)
            && (!s.lastSeg && t.lastSeg ==> t.pos == |s.file| && |s.file| < s.pos + SEGMENT_SIZE)
            && (!t.lastSeg ==> t.pos == s.pos + SEGMENT_SIZE)
  {
    assert [Segment(s)][..0] == [];
  }

  /** What filling the window does to the state and the log. */
  predicate Filled(s: Sw, t: Sw, msgs: seq<Msg>)
  {
    && t.Valid() && t.file == s.file && t.window == s.window && t.state == s.state
    && s.pos <= t.pos && Payload(msgs) == s.file[s.pos..t.pos]
    && AllSegs(msgs) && Segs(msgs) == |msgs| == t.inWindow - s.inWindow
    && (t.lastSeg <==> s.lastSeg || (t.pos == |s.file| < s.pos + SEGMENT_SIZE * |msgs|))
    && (!t.lastSeg ==> t.inWindow == t.window && t.pos == s.pos + SEGMENT_SIZE * |msgs|)
    && (!s.lastSeg && t.lastSeg ==> s.pos + SEGMENT_SIZE * (|msgs| - 1) <= |s.file|)
    && (s.lastSeg ==> |msgs| == if s.inWindow < s.window then 1 else 0)
    && (s.lastSeg ==> t.pos == if s.inWindow < s.window then SegEnd(s.file, s.pos) else s.pos)
  }

  lemma {:induction false} FillWindowFills(s: Sw)
    requires s.Valid()
    ensures Filled(s, FillWindow(s).0, FillWindow(s).1)
    decreases s.window - s.inWindow
  {
    if s.inWindow < s.window {
      FillStep(s);
      FillOne(s);
      var t := AfterSegment(s);
      var seg := Segment(s);
      assert IsSeg(seg);
      if t.lastSeg {
        assert s.lastSeg ==> t.pos == SegEnd(s.file, s.pos);
        hide *;
        FilledOne(s, t, seg);
      } else {
        FillWindowFills(t);
        var u := FillWindow(t);
        hide *;
        FilledMore(s, t, u.0, seg, u.1);
      }
    } else {
      assert s.file[s.pos..s.pos] == [];
    }
  }

  lemma FilledOne(s: Sw, t: Sw, seg: Msg)
    requires s.Valid() && s.inWindow < s.window && t.Valid() && IsSeg(seg) && t.lastSeg
    requires s.pos <= t.pos <= |s.file| && t.inWindow == s.inWindow + 1 && t.window == s.window
    requires Payload([seg]) == s.file[s.pos..t.pos] && Segs([seg]) == 1
    requires t.file == s.file && t.state == s.state
    requires !s.lastSeg ==> t.pos == |s.file| && |s.file| < s.pos + SEGMENT_SIZE
    requires s.lastSeg ==> t.pos == SegEnd(s.file, s.pos)
    ensures Filled(s, t, [seg])
  {
    hide Payload, Segs, SegEnd;
  }

  lemma FilledMore(s: Sw, t: Sw, u: Sw, seg: Msg, more: seq<Msg>)
    requires s.Valid() && s.inWindow < s.window && t.Valid() && IsSeg(seg) && !s.lastSeg && !t.lastSeg
    requires t.file == s.file && t.state == s.state
    requires t.pos == s.pos + SEGMENT_SIZE && t.inWindow == s.inWindow + 1 && t.window == s.window
    requires Payload([seg]) == s.file[s.pos..t.pos] && Segs([seg]) == 1 && Filled(t, u, more)
    ensures Filled(s, u, [seg] + more)
  {
    LogConcat([seg], more);
    hide Payload, Segs, SegEnd;
    assert s.file[s.pos..t.pos] + s.file[t.pos..u.pos] == s.file[s.pos..u.pos];
  }

  // ---- the whole system ----

  datatype SysEvent = Ours(e: SwLoad.Event) | Foreign(msg: Msg) | ForeignAnswer

  /** The download, the queue, and all messages submitted since the download began. */
  datatype Sys = Sys(sw: Sw, q: Oml, log: seq<Msg>)

  /** Events of one download: no further load is begun, and other parts of the program submit
      messages of their own. */
  predicate OneDownload(es: seq<SysEvent>)
  {
    forall k :: 0 <= k < |es| ==> OwnMessages(es[k])
  }

  predicate OwnMessages(e: SysEvent)
  {
    && (e.Ours? ==> !e.e.Load?)
    && (e.Foreign? ==> e.msg.kind.Other?)
  }

  function SysStep(s: Sys, e: SysEvent): (r: Sys)
    requires s.sw.Consistent() && OwnMessages(e)
    ensures r.sw.Consistent()
  {
    match e
    case Ours(f) =>
      var a := React(s.sw, f);
      Sys(a.sw, QueueAfter(s.q, a.msgs, a.next), s.log + a.msgs)
    case Foreign(m) => Sys(s.sw, Submit(s.q, m), s.log + [m])
    case ForeignAnswer => s.(q := SendNext(s.q))
  }

  function SysRun(s: Sys, es: seq<SysEvent>): (r: Sys)
    requires s.sw.Consistent() && OneDownload(es)
    ensures r.sw.Consistent()
  {
    if es == [] then s else SysStep(SysRun(s, es[..|es|-1]), es[|es|-1])
  }

  /** Just after a load began; stale is the last-segment flag that was left over. */
  predicate Begun(s: Sys, stale: bool)
  {
    && s.sw.Consistent() && s.sw.state == WaitInitAck && s.sw.pos == 0
    && s.sw.lastSeg == stale && s.log == [Msg(LoadInit, true)]
  }

  /** How much of a file a download sends before it ends it, and in how many segments. */
  function Goal(len: nat, window: nat, stale: bool): nat
  {
    if !stale then len
    else if window == 0 then 0
    else if len < SEGMENT_SIZE then len else SEGMENT_SIZE
  }

  function GoalSegs(len: nat, window: nat, stale: bool): nat
  {
    if !stale then Total(len) else if window == 0 then 0 else 1
  }

  predicate AtGoal(s: Sys, stale: bool)
  {
    && s.sw.pos == Goal(|s.sw.file|, s.sw.window, stale)
    && Segs(s.log) == GoalSegs(|s.sw.file|, s.sw.window, stale)
  }

  /** What every event keeps. */
  predicate Inv(s: Sys, file: seq<byte>, window: nat, stale: bool)
  {
    && s.sw.Consistent() && s.sw.file == file && s.sw.window == window
    && Payload(s.log) == file[..s.sw.pos]
    && EndsLast(s.log)
    && (s.sw.state == WaitInitAck ==> s.sw.pos == 0 && Segs(s.log) == 0 && s.sw.lastSeg == stale)
    && (!s.sw.lastSeg ==> !stale && s.sw.pos == SEGMENT_SIZE * Segs(s.log))
    && (s.sw.state == WaitSegAck && s.sw.lastSeg ==> AtGoal(s, stale))
    && (HasEnd(s.log) ==> s.sw.state != WaitInitAck && s.sw.state != WaitSegAck && AtGoal(s, stale))
  }

  lemma BegunInv(s: Sys, stale: bool)
    requires Begun(s, stale)
    ensures Inv(s, s.sw.file, s.sw.window, stale)
  {
    assert s.log[..0] == [];
    assert Payload(s.log) == [];
  }

  /** Messages that carry no file data and do not end it change nothing that matters. */
  lemma QuietConcat(log: seq<Msg>, msgs: seq<Msg>)
    requires |msgs| <= 1 && forall k :: 0 <= k < |msgs| ==> !IsSeg(msgs[k])
    ensures Payload(log + msgs) == Payload(log) && Segs(log + msgs) == Segs(log)
    ensures EndsLast(log) ==> EndsLast(log + msgs)
  {
    LogConcat(log, msgs);
    if |msgs| == 1 {
      assert msgs[..0] == [];
    }
  }

  lemma QuietStep(s: Sys, t: Sys, msgs: seq<Msg>, file: seq<byte>, window: nat, stale: bool)
    requires Inv(s, file, window, stale) && t.sw.Consistent() && t.log == s.log + msgs
    requires |msgs| <= 1 && forall k :: 0 <= k < |msgs| ==> !IsSeg(msgs[k])
    requires t.sw.file == s.sw.file && t.sw.window == s.sw.window && t.sw.pos == s.sw.pos && t.sw.lastSeg == s.sw.lastSeg
    requires t.sw.state == s.sw.state || t.sw.state in {Idle, WaitActAck, WaitEndAck, Failed}
    requires HasEnd(msgs) ==> s.sw.state == WaitSegAck && s.sw.lastSeg && t.sw.state == WaitEndAck
    ensures Inv(t, file, window, stale)
  {
    QuietConcat(s.log, msgs);
    EndConcat(s.log, msgs);
    hide Payload, Segs, HasEnd, EndsLast, Goal, GoalSegs;
  }

  lemma FillConcat(log: seq<Msg>, msgs: seq<Msg>)
    requires !HasEnd(log) && AllSegs(msgs)
    ensures !HasEnd(log + msgs) && EndsLast(log + msgs)
    ensures Payload(log + msgs) == Payload(log) + Payload(msgs) && Segs(log + msgs) == Segs(log) + Segs(msgs)
  {
    LogConcat(log, msgs);
    EndConcat(log, msgs);
    forall k | 0 <= k < |log + msgs| ensures !IsEnd((log + msgs)[k]) {
      assert k < |log| ==> !IsEnd(log[k]);
    }
  }

  /** Filling the window from the start or after an acknowledgement. */
  lemma FillStepKeeps(s: Sys, t: Sys, u: Sw, msgs: seq<Msg>, file: seq<byte>, window: nat, stale: bool)
    requires Inv(s, file, window, stale) && t.sw.Consistent() && t.log == s.log + msgs
    requires s.sw.state == WaitInitAck || (s.sw.state == WaitSegAck && !s.sw.lastSeg)
    requires Filled(s.sw.(inWindow := 0), u, msgs) && t.sw == u.(state := WaitSegAck)
    ensures Inv(t, file, window, stale)
  {
    hide Payload, Segs, HasEnd, EndsLast, AllSegs, Total;
    FillConcat(s.log, msgs);
    SliceJoin(file, s.sw.pos, t.sw.pos);
    if t.sw.lastSeg {
      if !stale {
        TotalIs(|file|, Segs(s.log), |msgs|);
      }
      assert AtGoal(t, stale);
    }
  }

  lemma TotalIs(len: nat, before: nat, more: nat)
    requires more > 0 && SEGMENT_SIZE * before + SEGMENT_SIZE * (more - 1) <= len < SEGMENT_SIZE * before + SEGMENT_SIZE * more
    ensures Total(len) == before + more
  {
  }

  lemma StepKeeps(s: Sys, e: SysEvent, file: seq<byte>, window: nat, stale: bool)
    requires Inv(s, file, window, stale) && OwnMessages(e)
    ensures Inv(SysStep(s, e), file, window, stale)
  {
    var t := SysStep(s, e);
    match e
    case Foreign(m) => QuietStep(s, t, [m], file, window, stale);
    case ForeignAnswer =>
      assert s.log + [] == s.log;
      QuietStep(s, t, [], file, window, stale);
    case Ours(f) =>
      OursKeeps(s, f, file, window, stale);
  }

  predicate Fills(s: Sw, e: SwLoad.Event)
  {
    || (s.state == WaitInitAck && (e == InitAck || (e == InitNack && s.forced)))
    || (s.state == WaitSegAck && e == SegAck && !s.lastSeg)
  }

  /** An event either fills the window or leaves the position alone. */
  lemma Reactions(s: Sw, e: SwLoad.Event)
    requires s.Consistent() && !e.Load?
    ensures var a := React(s, e);
            if Fills(s, e) then
              var r := FillWindow(s.(inWindow := 0));
              a == Reaction(r.0.(state := WaitSegAck), r.1, true)
            else
              && |a.msgs| <= 1 && (forall k :: 0 <= k < |a.msgs| ==> !IsSeg(a.msgs[k]))
              && a.sw.file == s.file && a.sw.window == s.window && a.sw.pos == s.pos && a.sw.lastSeg == s.lastSeg
              && (a.sw.state == s.state || a.sw.state in {Idle, WaitActAck, WaitEndAck, Failed})
              && (HasEnd(a.msgs) <==> s.state == WaitSegAck && e == SegAck)
              && (HasEnd(a.msgs) ==> s.lastSeg && a.sw.state == WaitEndAck)
              && a.sw.inWindow == if s.state == WaitSegAck && e == SegAck then 0 else s.inWindow
  {
    hide FillWindow;
    var a := React(s, e);
    if s.state == WaitSegAck && e == SegAck && s.lastSeg {
      assert IsEnd(a.msgs[0]);
    }
    assert s.state == WaitInitAck ==> s == s.(inWindow := 0);
  }

  lemma OursKeeps(s: Sys, e: SwLoad.Event, file: seq<byte>, window: nat, stale: bool)
    requires Inv(s, file, window, stale) && !e.Load?
    ensures Inv(SysStep(s, Ours(e)), file, window, stale)
  {
    Reactions(s.sw, e);
    var t := SysStep(s, Ours(e));
    var msgs := React(s.sw, e).msgs;
    if Fills(s.sw, e) {
      var from := s.sw.(inWindow := 0);
      assert from.Valid();
      FillWindowFills(from);
      var u := FillWindow(from).0;
      hide *;
      FillsWhen(s.sw, e);
      FillStepKeeps(s, t, u, msgs, file, window, stale);
    } else {
      hide React, Inv, QueueAfter, HasEnd;
      QuietStep(s, t, msgs, file, window, stale);
    }
  }

  lemma FillsWhen(s: Sw, e: SwLoad.Event)
    requires Fills(s, e)
    ensures s.state == WaitInitAck || (s.state == WaitSegAck && !s.lastSeg)
  {
  }

  lemma {:induction false} RunKeeps(s: Sys, es: seq<SysEvent>, stale: bool)
    requires Begun(s, stale) && OneDownload(es)
    ensures Inv(SysRun(s, es), s.sw.file, s.sw.window, stale)
  {
    assert s.sw.Consistent();
    hide Inv, SysStep, Begun;
    if es == [] {
      BegunInv(s, stale);
    } else {
      RunKeeps(s, es[..|es|-1], stale);
      StepKeeps(SysRun(s, es[..|es|-1]), es[|es|-1], s.sw.file, s.sw.window, stale);
    }
  }

  // ---- what goes out on the link ----

  lemma {:induction false} SubmitAllFifo(q: Oml, ms: seq<Msg>)
    requires Gated(q)
    ensures var r := SubmitAll(q, ms); r.sent + r.queue == q.sent + q.queue + ms && Gated(r)
  {
    hide Gated, Submit;
    if ms != [] {
      SubmitAllFifo(q, ms[..|ms|-1]);
      StepFifo(SubmitAll(q, ms[..|ms|-1]), Submitted(ms[|ms|-1]));
    }
  }

  lemma SysStepFifo(s: Sys, e: SysEvent, before: seq<Msg>)
    requires s.sw.Consistent() && OwnMessages(e) && Gated(s.q)
    requires s.q.sent + s.q.queue == before + s.log
    ensures var t := SysStep(s, e); t.q.sent + t.q.queue == before + t.log && Gated(t.q)
  {
    hide *;
    var msgs, next := StepQueues(s, e);
    QueueAfterFifo(s.q, msgs, next, before, s.log);
  }

  /** What an event of any kind does to the queue and the log. */
  lemma StepQueues(s: Sys, e: SysEvent) returns (msgs: seq<Msg>, next: bool)
    requires s.sw.Consistent() && OwnMessages(e)
    ensures SysStep(s, e).log == s.log + msgs && SysStep(s, e).q == QueueAfter(s.q, msgs, next)
  {
    hide React, Submit, SendNext;
    match e
    case Foreign(m) =>
      msgs, next := [m], false;
      SubmitOne(s.q, m);
    case ForeignAnswer =>
      msgs, next := [], true;
    case Ours(f) =>
      msgs, next := React(s.sw, f).msgs, React(s.sw, f).next;
  }

  lemma QueueAfterFifo(q: Oml, msgs: seq<Msg>, next: bool, before: seq<Msg>, log: seq<Msg>)
    requires Gated(q) && q.sent + q.queue == before + log
    ensures var r := QueueAfter(q, msgs, next); r.sent + r.queue == before + (log + msgs) && Gated(r)
  {
    hide Gated, Submit, SubmitAll, SendNext;
    SubmitAllFifo(q, msgs);
    StepFifo(SubmitAll(q, msgs), Next);
    assert before + log + msgs == before + (log + msgs);
  }

  lemma {:induction false} SysFifo(s: Sys, es: seq<SysEvent>, before: seq<Msg>)
    requires s.sw.Consistent() && OneDownload(es) && Gated(s.q)
    requires s.q.sent + s.q.queue == before + s.log
    ensures var t := SysRun(s, es); t.q.sent + t.q.queue == before + t.log && Gated(t.q)
  {
    hide SysStep, Gated;
    if es != [] {
      SysFifo(s, es[..|es|-1], before);
      SysStepFifo(SysRun(s, es[..|es|-1]), es[|es|-1], before);
    }
  }

  /** What went out after the messages that were there before. */
  function SentSince(sent: seq<Msg>, before: seq<Msg>): seq<Msg>
  {
    if |before| <= |sent| then sent[|before|..] else []
  }

  lemma SentIsPart(q: Oml, before: seq<Msg>, log: seq<Msg>)
    requires q.sent + q.queue == before + log
    ensures |SentSince(q.sent, before)| <= |log|
    ensures SentSince(q.sent, before) == log[..|SentSince(q.sent, before)|]
  {
    var t := SentSince(q.sent, before);
    assert |q.sent + q.queue| == |before + log|;
    forall k | 0 <= k < |t| ensures k < |log| && t[k] == log[k] {
      assert (q.sent + q.queue)[|before| + k] == (before + log)[|before| + k];
    }
  }

  /** In every run of one download, with whatever else goes through the queue: the segments
      sent carry the file from its start; LOAD END goes out only behind all that the download
      sends at all; and that is the whole file exactly if no flag was left over from an
      earlier download, or the file fits the one segment that then goes out. */
  lemma DownloadSends(s: Sys, es: seq<SysEvent>, before: seq<Msg>, stale: bool)
    requires Begun(s, stale) && OneDownload(es) && Gated(s.q)
    requires s.q.sent + s.q.queue == before + s.log
    ensures var out := SentSince(SysRun(s, es).q.sent, before);
            && Payload(out) <= s.sw.file
            && (HasEnd(out) ==>
                  && |Payload(out)| == Goal(|s.sw.file|, s.sw.window, stale)
                  && Segs(out) == GoalSegs(|s.sw.file|, s.sw.window, stale)
                  && (Payload(out) == s.sw.file <==>
                        !stale || |s.sw.file| <= if s.sw.window == 0 then 0 else SEGMENT_SIZE))
  {
    assert s.sw.Consistent();
    var t := SysRun(s, es);
    var out := SentSince(t.q.sent, before);
    RunKeeps(s, es, stale);
    SysFifo(s, es, before);
    SentIsPart(t.q, before, t.log);
    PartPayload(t.log, |out|);
    InvParts(t, s.sw.file, s.sw.window, stale);
    if HasEnd(out) {
      hide *;
      EndOfPart(t.log, |out|);
      NothingAfterEnd(t.log, |out|);
      GoalIsAll(s.sw.file, s.sw.window, stale, Payload(out));
    }
  }

  lemma InvParts(s: Sys, file: seq<byte>, window: nat, stale: bool)
    requires Inv(s, file, window, stale)
    ensures Payload(s.log) <= file && EndsLast(s.log)
    ensures HasEnd(s.log) ==> |Payload(s.log)| == Goal(|file|, window, stale) && Segs(s.log) == GoalSegs(|file|, window, stale)
  {
  }

  lemma EndOfPart(log: seq<Msg>, n: nat)
    requires n <= |log| && HasEnd(log[..n])
    ensures HasEnd(log)
  {
    var k :| 0 <= k < n && IsEnd(log[..n][k]);
    assert IsEnd(log[k]);
  }

  lemma GoalIsAll(file: seq<byte>, window: nat, stale: bool, sent: seq<byte>)
    requires sent <= file && |sent| == Goal(|file|, window, stale)
    ensures sent == file <==> !stale || |file| <= if window == 0 then 0 else SEGMENT_SIZE
  {
  }

  // ---- the window ----

  function SegAcks(es: seq<SysEvent>): nat
  {
    if es == [] then 0 else SegAcks(es[..|es|-1]) + (if es[|es|-1] == Ours(SegAck) then 1 else 0)
  }

  lemma StepWindow(s: Sys, e: SysEvent)
    requires s.sw.Consistent() && OwnMessages(e)
    ensures var t := SysStep(s, e);
            && t.sw.window == s.sw.window
            && Segs(t.log) + (if e == Ours(SegAck) && s.sw.state == WaitSegAck then 0 else s.sw.inWindow)
               == Segs(s.log) + t.sw.inWindow
  {
    var t := SysStep(s, e);
    match e
    case Foreign(m) => QuietConcat(s.log, [m]);
    case ForeignAnswer =>
    case Ours(f) =>
      Reactions(s.sw, f);
      if Fills(s.sw, f) {
        FillWindowFills(s.sw.(inWindow := 0));
        LogConcat(s.log, t.log[|s.log|..]);
      } else {
        QuietConcat(s.log, React(s.sw, f).msgs);
      }
  }

  /** Between two acknowledgements no more segments are submitted than the window allows. */
  lemma {:induction false} WindowKept(s: Sys, es: seq<SysEvent>)
    requires s.sw.Consistent() && OneDownload(es) && SegAcks(es) == 0
    ensures var t := SysRun(s, es);
            t.sw.window == s.sw.window && Segs(t.log) + s.sw.inWindow == Segs(s.log) + t.sw.inWindow
            && Segs(t.log) - Segs(s.log) <= s.sw.window
  {
    hide SysStep;
    if es != [] {
      WindowKept(s, es[..|es|-1]);
      StepWindow(SysRun(s, es[..|es|-1]), es[|es|-1]);
    }
  }

  /** What n windows of a size hold. */
  function Windows(n: nat, window: nat): nat
  {
    if n == 0 then 0 else Windows(n - 1, window) + window
  }

  lemma {:induction false} WindowsIs(n: nat, window: nat)
    ensures Windows(n, window) == window * n
  {
    if n > 0 {
      WindowsIs(n - 1, window);
      assert window * n == window * (n - 1) + window;
    }
  }

  /** From the start of a download: one window for the start and one per acknowledgement. */
  lemma {:induction false} WindowsSubmitted(s: Sys, es: seq<SysEvent>)
    requires s.sw.Consistent() && s.sw.state == WaitInitAck && Segs(s.log) == 0 && OneDownload(es)
    ensures var t := SysRun(s, es);
            t.sw.window == s.sw.window && Segs(t.log) <= Windows(SegAcks(es), s.sw.window) + t.sw.inWindow
  {
    hide SysStep, Segs;
    if es != [] {
      WindowsSubmitted(s, es[..|es|-1]);
      StepWindow(SysRun(s, es[..|es|-1]), es[|es|-1]);
    }
  }

  lemma PartSegs(ms: seq<Msg>, n: nat)
    requires n <= |ms|
    ensures Segs(ms[..n]) <= Segs(ms)
  {
    hide *;
    LogConcat(ms[..n], ms[n..]);
    Split(ms, n);
  }

  /** On the link, whatever else goes through the queue: never more segments than one window for
      the start of the download and one for each acknowledgement that came. */
  lemma WindowOnLink(s: Sys, es: seq<SysEvent>, before: seq<Msg>, stale: bool)
    requires Begun(s, stale) && OneDownload(es) && Gated(s.q)
    requires s.q.sent + s.q.queue == before + s.log
    ensures Segs(SentSince(SysRun(s, es).q.sent, before)) <= s.sw.window * (SegAcks(es) + 1)
  {
    hide *;
    BegunFacts(s, stale);
    var t := SysRun(s, es);
    var out := SentSince(t.q.sent, before);
    WindowsSubmitted(s, es);
    SysFifo(s, es, before);
    SentIsPart(t.q, before, t.log);
    PartSegs(t.log, |out|);
    WindowsIs(SegAcks(es) + 1, s.sw.window);
    OneWindowMore(SegAcks(es), s.sw.window);
    InWindow(t.sw);
  }

  lemma BegunFacts(s: Sys, stale: bool)
    requires Begun(s, stale)
    ensures s.sw.Consistent() && s.sw.state == WaitInitAck && Segs(s.log) == 0
  {
    assert s.log[..0] == [];
  }

  lemma InWindow(s: Sw)
    requires s.Consistent()
    ensures s.inWindow <= s.window
  {
  }

  lemma OneWindowMore(n: nat, window: nat)
    ensures Windows(n + 1, window) == Windows(n, window) + window
  {
  }

  // ---- progress ----

  /** The BTS acknowledges the start and then n windows. */
  function Acknowledged(n: nat): (es: seq<SysEvent>)
    ensures OneDownload(es) && |es| == n + 1
  {
    if n == 0 then [Ours(InitAck)] else Acknowledged(n - 1) + [Ours(SegAck)]
  }

  function Least(a: nat, b: nat): nat
  {
    if a <= b then a else b
  }

  /** Where a download without a left-over flag stands after n acknowledged windows. */
  predicate Through(s: Sys, n: nat)
  {
    var total, window := Total(|s.sw.file|), s.sw.window;
    && Segs(s.log) == Least(total, Windows(n + 1, window))
    && (s.sw.lastSeg <==> Windows(n + 1, window) >= total)
    && s.sw.state == (if Windows(n, window) >= total then WaitEndAck else WaitSegAck)
  }

  lemma ProgressFill(s: Sys, e: SwLoad.Event, n: nat)
    requires Inv(s, s.sw.file, s.sw.window, false) && Fills(s.sw, e) && !e.Load? && s.sw.window > 0
    requires !s.sw.lastSeg && Segs(s.log) == Windows(n, s.sw.window)
    ensures Through(SysStep(s, Ours(e)), n)
  {
    Reactions(s.sw, e);
    OursKeeps(s, e, s.sw.file, s.sw.window, false);
    var from := s.sw.(inWindow := 0);
    FillWindowFills(from);
    var r := FillWindow(from);
    var t := SysStep(s, Ours(e));
    hide React, FillWindow, QueueAfter, Fills;
    LogConcat(s.log, r.1);
    hide Payload, Segs, HasEnd, EndsLast, AllSegs;
    TotalAbove(|s.sw.file|, Segs(t.log));
  }

  lemma TotalAbove(len: nat, n: nat)
    ensures SEGMENT_SIZE * n <= len <==> n < Total(len)
  {
  }

  lemma ProgressEnd(s: Sys, n: nat)
    requires s.sw.Consistent() && n > 0 && s.sw.window > 0 && s.sw.lastSeg && Through(s, n - 1)
    ensures Through(SysStep(s, Ours(SegAck)), n)
  {
    Reactions(s.sw, SegAck);
    QuietConcat(s.log, React(s.sw, SegAck).msgs);
    hide Segs, FillWindow;
  }

  /** Without a left-over flag every acknowledgement brings a full window until the file is
      through, and the one after that ends the download. */
  lemma {:induction false} Progress(s: Sys, n: nat)
    requires Begun(s, false) && s.sw.window > 0
    ensures Through(SysRun(s, Acknowledged(n)), n)
    ensures SysRun(s, Acknowledged(n)).sw.file == s.sw.file && SysRun(s, Acknowledged(n)).sw.window == s.sw.window
  {
    assert s.sw.Consistent();
    var es := Acknowledged(n);
    var from := es[..n];
    RunKeeps(s, es, false);
    RunKeeps(s, from, false);
    if n == 0 {
      assert from == [];
      ProgressFill(s, InitAck, 0);
    } else {
      Progress(s, n - 1);
      assert from == Acknowledged(n - 1);
      var t := SysRun(s, from);
      hide SysStep, SysRun, Inv, Begun;
      if t.sw.lastSeg {
        ProgressEnd(t, n);
      } else {
        ProgressFill(t, SegAck, n);
      }
    }
  }
}
