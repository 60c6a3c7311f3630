/** Downloads one after the other: when the last-segment flag is left over, and what that means
    for the next download. */
module SwLoadHistory {
  import opened Bytes
  import opened Wrappers
  import opened OmlQueue
  import opened SwLoad
  import opened SwLoadRuns

  /** Before anything was loaded. */
  const ZEROED := Sys(Sw(Idle, 0, 0, false, false, [], 0), IDLE, [])

  /** Anything may happen: loads and activations, answers of the BTS, and messages and answers of
      other parts of the program. */
  predicate Anything(es: seq<SysEvent>)
  {
    forall i :: 0 <= i < |es| ==> Anyway(es[i])
  }

  predicate Anyway(e: SysEvent)
  {
    && (e.Ours? && e.e.Load? ==> e.e.window < 256)
    && (e.Foreign? ==> e.msg.kind.Other?)
  }

  /** The event begins a load. */
  predicate Begins(s: Sys, e: SysEvent)
  {
    e.Ours? && e.e.Load? && s.sw.state == Idle && Opens(e.e.file)
  }

  /** As before, but a load makes the log start over with its first message. */
  function AnyStep(s: Sys, e: SysEvent): (r: Sys)
    requires s.sw.Consistent() && Anyway(e)
    ensures r.sw.Consistent()
  {
    match e
    case Ours(f) =>
      var a := React(s.sw, f);
      Sys(a.sw, QueueAfter(s.q, a.msgs, a.next), if Begins(s, e) then a.msgs else s.log + a.msgs)
    case _ => SysStep(s, e)
  }

  function AnyRun(es: seq<SysEvent>): (r: Sys)
    requires Anything(es)
    ensures r.sw.Consistent()
  {
    if es == [] then ZEROED else AnyStep(AnyRun(es[..|es|-1]), es[|es|-1])
  }

  /** How many loads began. */
  function Loads(es: seq<SysEvent>): nat
    requires Anything(es)
  {
    if es == [] then 0
    else Loads(es[..|es|-1]) + if Begins(AnyRun(es[..|es|-1]), es[|es|-1]) then 1 else 0
  }

  // ---- the flag ----

  /** What is known of the flag: clear before the first load, and set from the end of a load on. */
  predicate FlagKnown(s: Sw, loads: nat)
  {
    && (loads == 0 ==> !s.lastSeg && s.state in {Idle, WaitActAck, Failed})
    && (loads > 0 && s.state in {Idle, WaitActAck, WaitEndAck} ==> s.lastSeg)
  }

  lemma FillKeepsState(s: Sw)
    requires s.Valid()
    ensures FillWindow(s).0.state == s.state
  {
    FillWindowFills(s);
    hide FillWindow;
  }

  lemma FlagStep(s: Sw, e: SwLoad.Event, loads: nat)
    requires s.Consistent() && (e.Load? ==> e.window < 256) && FlagKnown(s, loads)
    ensures var begins := e.Load? && s.state == Idle && Opens(e.file);
            FlagKnown(React(s, e).sw, if begins then loads + 1 else loads)
  {
    FillKeepsState(s);
    FillKeepsState(s.(inWindow := 0));
    hide FillWindow, Opens;
  }

  lemma {:induction false} FlagAlways(es: seq<SysEvent>)
    requires Anything(es)
    ensures FlagKnown(AnyRun(es).sw, Loads(es))
  {
    hide React, FlagKnown, QueueAfter;
    if es == [] {
      FlagAtStart();
    } else {
      var t, e := es[..|es|-1], es[|es|-1];
      FlagAlways(t);
      if e.Ours? {
        FlagStep(AnyRun(t).sw, e.e, Loads(t));
      }
    }
  }

  lemma FlagAtStart()
    ensures FlagKnown(ZEROED.sw, 0)
  {
  }

  /** The last-segment flag is left over, when a load can begin, exactly if one began before. */
  lemma FlagLeftOverIff(es: seq<SysEvent>)
    requires Anything(es) && AnyRun(es).sw.state == Idle
    ensures AnyRun(es).sw.lastSeg <==> Loads(es) > 0
  {
    FlagAlways(es);
  }

  lemma {:induction false} GatedAlways(es: seq<SysEvent>)
    requires Anything(es)
    ensures Gated(AnyRun(es).q)
  {
    if es == [] {
      return;
    }
    var t, e := es[..|es|-1], es[|es|-1];
    GatedAlways(t);
    hide Gated, AnyStep;
    AnyStepGated(AnyRun(t), e);
  }

  lemma AnyStepGated(s: Sys, e: SysEvent)
    requires s.sw.Consistent() && Anyway(e) && Gated(s.q)
    ensures Gated(AnyStep(s, e).q)
  {
    hide *;
    var msgs, next := AnyStepQueues(s, e);
    Concat(s.q.sent, s.q.queue);
    QueueAfterFifo(s.q, msgs, next, s.q.sent + s.q.queue, []);
  }

  lemma AnyStepQueues(s: Sys, e: SysEvent) returns (msgs: seq<Msg>, next: bool)
    requires s.sw.Consistent() && Anyway(e)
    ensures AnyStep(s, e).q == QueueAfter(s.q, msgs, next)
  {
    hide React, Submit, SendNext;
    match e
    case Ours(f) =>
      msgs, next := React(s.sw, f).msgs, React(s.sw, f).next;
    case Foreign(m) =>
      msgs, next := [m], false;
      SubmitOne(s.q, m);
    case ForeignAnswer =>
      msgs, next := [], true;
  }

  lemma Concat(a: seq<Msg>, b: seq<Msg>)
    ensures a + b == a + b + []
  {
  }

  // ---- a load after any run ----

  /** The load of a file that opens. */
  function LoadEvent(file: seq<byte>, window: nat, forced: bool): SysEvent
  {
    Ours(Load(Some(file), window, forced))
  }

  lemma LoadBegins(s: Sys, file: seq<byte>, window: nat, forced: bool)
    requires s.sw.Consistent() && s.sw.state == Idle && HasSdpHeader(file) && window < 256
    ensures var r := AnyStep(s, LoadEvent(file, window, forced));
            && Begun(r, s.sw.lastSeg) && r.sw.file == file && r.sw.window == window && r.sw.forced == forced
            && r.q == Submit(s.q, Msg(LoadInit, true))
  {
    hide HasSdpHeader, Submit;
    SubmitOne(s.q, Msg(LoadInit, true));
  }

  /** A download with a window of at least one, after any run from the zeroed structure: if its
      LOAD END goes out, the whole file went out before exactly if it is the first download or the
      file has at most 245 octets. Otherwise just one segment did. */
  lemma WholeFileIff(es: seq<SysEvent>, file: seq<byte>, window: nat, forced: bool, fs: seq<SysEvent>)
    requires Anything(es) && AnyRun(es).sw.state == Idle
    requires HasSdpHeader(file) && 1 <= window < 256 && OneDownload(fs)
    ensures var s := AnyRun(es);
            var begun := AnyStep(s, LoadEvent(file, window, forced));
            var out := SentSince(SysRun(begun, fs).q.sent, s.q.sent + s.q.queue);
            HasEnd(out) ==>
              && (Payload(out) == file <==> Loads(es) == 0 || |file| <= SEGMENT_SIZE)
              && Segs(out) == if Loads(es) == 0 then Total(|file|) else 1
  {
    var s := AnyRun(es);
    hide AnyRun, Loads, SysRun, SentSince, Payload, Segs, HasEnd, HasSdpHeader, AnyStep, Submit, Gated;
    FlagLeftOverIff(es);
    GatedAlways(es);
    LoadBegins(s, file, window, forced);
    var begun := AnyStep(s, LoadEvent(file, window, forced));
    StepFifo(s.q, Submitted(Msg(LoadInit, true)));
    DownloadSends(begun, fs, s.q.sent + s.q.queue, s.sw.lastSeg);
  }

  // ---- a second download that is cut short ----

  /** A file of n octets with a header for a nanoBTS: the two magic numbers, four octets that are not
      looked at, and the four of the length. */
  function SdpFile(n: nat, length: seq<byte>): (file: seq<byte>)
    requires n >= 16 && |length| == 4
    ensures |file| == n
  {
    [0x20, 0x53, 0x44, 0x50, 0x10, 0x02, 0x00, 0x00, 0, 0, 0, 0] + length + seq(n - 16, _ => 0)
  }

  /** It opens exactly if those are its length, the most significant octet first. */
  lemma SdpFileOpens(n: nat, length: seq<byte>)
    requires n >= 16 && |length| == 4
    ensures HasSdpHeader(SdpFile(n, length)) <==>
              n == 0x100_0000 * (length[0] as nat) + 0x1_0000 * (length[1] as nat) + 0x100 * (length[2] as nat)
                   + length[3] as nat
  {
    var file := SdpFile(n, length);
    assert file[..4] == SDP_MAGIC && file[4..8] == SDP_MORE_MAGIC;
    assert file[12] == length[0] && file[13] == length[1] && file[14] == length[2] && file[15] == length[3];
  }

  /** The only segment of a download with a window of one that ends after its first. */
  function OnlySegment(file: seq<byte>): Msg
  {
    SegMsg(file[..SegEnd(file, 0)])
  }

  const END := Msg(LoadEnd, true)

  /** The BTS acknowledges the start and then the first segment. */
  const TWO_ACKS: seq<SysEvent> := [Ours(InitAck), Ours(SegAck)]

  /** A load with a window of one, acknowledged to its end. */
  function OneSegmentLoad(file: seq<byte>): (es: seq<SysEvent>)
    ensures Anything(es)
  {
    [LoadEvent(file, 1, false), Ours(InitAck), Ours(SegAck), Ours(EndAck)]
  }

  lemma AfterInit(s: Sys)
    requires Begun(s, s.sw.lastSeg) && s.sw.window == 1 && (s.sw.lastSeg || |s.sw.file| < SEGMENT_SIZE)
    requires s.q.queue == [] && s.q.pend
    ensures var t := SysStep(s, Ours(InitAck));
            && t.sw == s.sw.(state := WaitSegAck, lastSeg := true, inWindow := 1, pos := SegEnd(s.sw.file, 0))
            && t.q == Oml(s.q.sent + [OnlySegment(s.sw.file)], [], false)
  {
    var m := OnlySegment(s.sw.file);
    FillStep(s.sw);
    SubmitOne(s.q, m);
    assert [] + [m] == [m];
    assert RunLen([m][1..]) == 0;
    assert RunLen([m]) == 1;
  }

  lemma AfterSegment1(s: Sys)
    requires s.sw.Consistent() && s.sw.state == WaitSegAck && s.sw.lastSeg && s.q.queue == [] && !s.q.pend
    ensures var t := SysStep(s, Ours(SegAck));
            t.sw == s.sw.(state := WaitEndAck, inWindow := 0) && t.q == Oml(s.q.sent + [END], [], false)
  {
    SubmitOne(s.q, END);
    assert RunLen([]) == 0;
  }

  lemma AfterEnd(s: Sys)
    requires s.sw.Consistent() && s.sw.state == WaitEndAck && s.q.queue == [] && !s.q.pend
    ensures var t := SysStep(s, Ours(EndAck));
            t.sw == s.sw.(state := Idle) && t.q == s.q
  {
    assert RunLen([]) == 0;
    assert SubmitAll(s.q, []) == s.q;
  }

  lemma TwoSteps(s: Sys)
    requires s.sw.Consistent()
    ensures OneDownload(TWO_ACKS)
    ensures SysRun(s, TWO_ACKS) == SysStep(SysStep(s, Ours(InitAck)), Ours(SegAck))
  {
    hide SysStep;
    assert TWO_ACKS[..1] == [Ours(InitAck)] && [Ours(InitAck)][..0] == [];
    assert SysRun(s, [Ours(InitAck)]) == SysStep(SysRun(s, []), Ours(InitAck));
  }

  /** A download that ends after one segment. */
  lemma OneSegmentRun(s: Sys)
    requires Begun(s, s.sw.lastSeg) && s.sw.window == 1 && (s.sw.lastSeg || |s.sw.file| < SEGMENT_SIZE)
    requires s.q.queue == [] && s.q.pend
    ensures OneDownload(TWO_ACKS) && s.sw.Consistent()
    ensures var r := SysRun(s, TWO_ACKS);
            && r.sw.state == WaitEndAck && r.sw.lastSeg
            && r.q == Oml(s.q.sent + [OnlySegment(s.sw.file)] + [END], [], false)
  {
    assert s.sw.Consistent();
    TwoSteps(s);
    hide SysRun, SysStep, OnlySegment;
    AfterInit(s);
    AfterSegment1(SysStep(s, Ours(InitAck)));
  }

  lemma FourSteps(file: seq<byte>)
    ensures var begun := AnyStep(ZEROED, LoadEvent(file, 1, false));
            && OneDownload(TWO_ACKS)
            && AnyRun(OneSegmentLoad(file)) == SysStep(SysRun(begun, TWO_ACKS), Ours(EndAck))
            && (HasSdpHeader(file) ==> Loads(OneSegmentLoad(file)) == 1)
  {
    hide *;
    var load := LoadEvent(file, 1, false);
    var e0, e1, e2, e3 := FourEvents(file);
    OneMore([], load);
    OneMore(e0, Ours(InitAck));
    OneMore(e1, Ours(SegAck));
    OneMore(e2, Ours(EndAck));
    NothingYet();
    OnlyLoadsBegin(AnyRun(e0), InitAck);
    OnlyLoadsBegin(AnyRun(e1), SegAck);
    OnlyLoadsBegin(AnyRun(e2), EndAck);
    LoadsBegin(file);
    TwoSteps(AnyStep(ZEROED, load));
  }

  lemma FourEvents(file: seq<byte>)
    returns (e0: seq<SysEvent>, e1: seq<SysEvent>, e2: seq<SysEvent>, e3: seq<SysEvent>)
    ensures e0 == [] + [LoadEvent(file, 1, false)] && e1 == e0 + [Ours(InitAck)]
    ensures e2 == e1 + [Ours(SegAck)] && e3 == e2 + [Ours(EndAck)] && e3 == OneSegmentLoad(file)
    ensures Anything([]) && Anything(e0) && Anything(e1) && Anything(e2)
    ensures Anyway(LoadEvent(file, 1, false)) && Anyway(Ours(InitAck)) && Anyway(Ours(SegAck)) && Anyway(Ours(EndAck))
  {
    e0 := [LoadEvent(file, 1, false)];
    e1 := e0 + [Ours(InitAck)];
    e2 := e1 + [Ours(SegAck)];
    e3 := e2 + [Ours(EndAck)];
  }

  lemma NothingYet()
    ensures Anything([]) && AnyRun([]) == ZEROED && Loads([]) == 0 && ZEROED.sw.Consistent()
  {
  }

  /** One more event of a run. */
  lemma OneMore(es: seq<SysEvent>, e: SysEvent)
    requires Anything(es) && Anyway(e)
    ensures Anything(es + [e]) && AnyRun(es + [e]) == AnyStep(AnyRun(es), e)
    ensures Loads(es + [e]) == Loads(es) + if Begins(AnyRun(es), e) then 1 else 0
  {
    hide AnyStep, Begins;
    assert (es + [e])[..|es + [e]|-1] == es;
  }

  lemma OnlyLoadsBegin(s: Sys, e: SwLoad.Event)
    requires s.sw.Consistent() && !e.Load?
    ensures !Begins(s, Ours(e)) && AnyStep(s, Ours(e)) == SysStep(s, Ours(e))
  {
    AnyIsSys(s, e);
  }

  lemma LoadsBegin(file: seq<byte>)
    ensures Begins(ZEROED, LoadEvent(file, 1, false)) <==> HasSdpHeader(file)
  {
    hide HasSdpHeader;
  }

  lemma AnyIsSys(s: Sys, e: SwLoad.Event)
    requires s.sw.Consistent() && !e.Load?
    ensures AnyStep(s, Ours(e)) == SysStep(s, Ours(e))
  {
    hide React, QueueAfter;
  }

  /** From the zeroed structure any file of fewer than 245 octets is downloaded to its end, and then
      any of more than 245 octets: after two acknowledgements the second LOAD END is on the link,
      behind the first 245 octets of the second file only. */
  lemma SecondDownloadCutShort(first: seq<byte>, file: seq<byte>)
    requires HasSdpHeader(first) && |first| < SEGMENT_SIZE
    requires HasSdpHeader(file) && |file| > SEGMENT_SIZE
    ensures OneDownload(TWO_ACKS)
    ensures var s := AnyRun(OneSegmentLoad(first));
            var out := SentSince(SysRun(AnyStep(s, LoadEvent(file, 1, false)), TWO_ACKS).q.sent, s.q.sent + s.q.queue);
            && s.sw.state == Idle && Loads(OneSegmentLoad(first)) == 1
            && HasEnd(out) && Payload(out) == file[..SEGMENT_SIZE] && Payload(out) != file
  {
    FourSteps(first);
    var s := AnyRun(OneSegmentLoad(first));
    hide SysRun, SysStep, AnyStep, AnyRun, Loads, HasSdpHeader, Begun, OnlySegment, Submit;
    LoadBegins(ZEROED, first, 1, false);
    SubmitIdle([]);
    OneSegmentRun(AnyStep(ZEROED, LoadEvent(first, 1, false)));
    AfterEnd(SysRun(AnyStep(ZEROED, LoadEvent(first, 1, false)), TWO_ACKS));
    LoadBegins(s, file, 1, false);
    SubmitIdle(s.q.sent);
    OneSegmentRun(AnyStep(s, LoadEvent(file, 1, false)));
    SegmentOf(file);
    OutIs(s.q.sent, OnlySegment(file));
    CarriesOne(Msg(LoadInit, true), OnlySegment(file), file[..SEGMENT_SIZE]);
  }

  lemma SubmitIdle(sent: seq<Msg>)
    ensures Submit(Oml(sent, [], false), Msg(LoadInit, true)) == Oml(sent + [Msg(LoadInit, true)], [], true)
  {
  }

  lemma SegmentOf(file: seq<byte>)
    requires |file| > SEGMENT_SIZE
    ensures OnlySegment(file) == SegMsg(file[..SEGMENT_SIZE])
  {
  }

  lemma OutIs(sent: seq<Msg>, seg: Msg)
    ensures SentSince(sent + [Msg(LoadInit, true)] + [seg] + [END], sent + []) == [Msg(LoadInit, true), seg, END]
  {
  }

  lemma CarriesOne(init: Msg, seg: Msg, data: seq<byte>)
    requires init.kind.LoadInit? && seg == SegMsg(data)
    ensures Payload([init, seg, END]) == data && HasEnd([init, seg, END])
  {
    var a, b, c := [init], [init, seg], [init, seg, END];
    assert c[..2] == b && b[..1] == a && a[..0] == [];
    assert Payload(a) == [];
    assert Payload(b) == Payload(a) + data;
    assert IsEnd(c[2]);
  }
}
