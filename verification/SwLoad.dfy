/** The windowed software download of abis_nm.c for a nanoBTS: a state machine that is driven
    by the answers of the BTS and sends the file in LOAD SEG messages through the OML queue. */
module SwLoad {
  import opened Bytes
  import opened Wrappers
  import opened OmlQueue
  import opened Seqs

  const SEGMENT_SIZE := 245

  datatype SwState = Idle | WaitInitAck | WaitSegAck | WaitEndAck | WaitActAck | Failed

  /** abis_nm_sw; the file and the position up to which it was read stand for the open file
      descriptor. */
  datatype Sw = Sw(state: SwState, window: nat, inWindow: nat, lastSeg: bool, forced: bool,
                   file: seq<byte>, pos: nat)
  {
    predicate Valid()
    {
      window < 256 && inWindow <= window && pos <= |file|
    }

    /** What holds between events: the window count is left over nowhere. */
    predicate Consistent()
    {
      Valid() && (state != WaitSegAck ==> inWindow == 0)
    }
  }

  // ---- sw_open_file ----

  /** The sizes of the SDP header and of its two magic numbers. */
  const SDP_HEADER := 16
  const SDP_MAGIC: seq<byte> := [0x20, 0x53, 0x44, 0x50]
  const SDP_MORE_MAGIC: seq<byte> := [0x10, 0x02, 0x00, 0x00]

  /** Four octets, the most significant one first. */
  function BigEndian(b0: byte, b1: byte, b2: byte, b3: byte): nat
  {
    0x100_0000 * (b0 as nat) + 0x1_0000 * (b1 as nat) + 0x100 * (b2 as nat) + (b3 as nat)
  }

  /** parse_sdp_header: the magic numbers are right, and the length field is the file's length. */
  predicate HasSdpHeader(file: seq<byte>)
  {
    && |file| >= SDP_HEADER
    && file[..4] == SDP_MAGIC && file[4..8] == SDP_MORE_MAGIC
    && BigEndian(file[12], file[13], file[14], file[15]) == |file|
  }

  /** The file is there and is taken for software. */
  predicate Opens(file: Option<seq<byte>>)
  {
    file.Some? && HasSdpHeader(file.value)
  }

  /** What the program is told to do, with the contents of the file if there is one, and what the
      BTS answers. */
  datatype Event =
    | Load(file: Option<seq<byte>>, window: nat, forced: bool)
    | Activate(file: Option<seq<byte>>)
    | InitAck | InitNack | SegAck | Abort | EndAck | EndNack | ActAck | ActNack

  /** What handling an event does: the new state, the messages submitted to the queue, and
      whether the next ones are let out. */
  datatype Reaction = Reaction(sw: Sw, msgs: seq<Msg>, next: bool)

  function SegMsg(data: seq<byte>): Msg
  {
    Msg(LoadSeg(data), false)
  }

  /** Where the segment that is read at pos ends. */
  function SegEnd(file: seq<byte>, pos: nat): (e: nat)
    requires pos <= |file|
    ensures pos <= e <= |file| && e <= pos + SEGMENT_SIZE
    ensures e < pos + SEGMENT_SIZE ==> e == |file|
  {
    if pos + SEGMENT_SIZE <= |file| then pos + SEGMENT_SIZE else |file|
  }

  /** sw_load_segment */
  function AfterSegment(s: Sw): (r: Sw)
    requires s.Valid() && s.inWindow < s.window
    ensures r.Valid()
  {
    var e := SegEnd(s.file, s.pos);
    s.(lastSeg := s.lastSeg || e - s.pos != SEGMENT_SIZE, inWindow := s.inWindow + 1, pos := e)
  }

  function Segment(s: Sw): Msg
    requires s.Valid()
  {
    SegMsg(s.file[s.pos..SegEnd(s.file, s.pos)])
  }

  /** sw_fill_window: at least one segment if there is room, and then until there is none or
      the last segment was read. */
  function FillWindow(s: Sw): (r: (Sw, seq<Msg>))
    requires s.Valid()
    ensures r.0.Valid()
    decreases s.window - s.inWindow
  {
    if s.inWindow >= s.window then (s, [])
    else
      var t := AfterSegment(s);
      if t.lastSeg then (t, [Segment(s)])
      else
        var r := FillWindow(t);
        (r.0, [Segment(s)] + r.1)
  }

  /** The last part of abis_nm_rcvmsg_sw's switch for a state: case WAIT_ENDACK runs on into
      WAIT_ACTACK, and that into NONE. */
  function ActAnswer(s: Sw, e: Event): Reaction
  {
    match e
    case ActAck => Reaction(s.(state := Idle), [], true)
    case ActNack => Reaction(s.(state := Failed), [], true)
    case _ => Reaction(s, [], false)
  }

  function Answer(s: Sw, e: Event): (r: Reaction)
    requires s.Consistent()
    ensures r.sw.Consistent()
  {
    match s.state
    case WaitInitAck =>
      if e == InitAck || (e == InitNack && s.forced) then
        var (t, msgs) := FillWindow(s);
        Reaction(t.(state := WaitSegAck), msgs, true)
      else if e == InitNack then Reaction(s.(state := Failed), [], true)
      else Reaction(s, [], false)
    case WaitSegAck =>
      if e == SegAck then
        var t := s.(inWindow := 0);
        if !s.lastSeg then
          var (u, msgs) := FillWindow(t);
          Reaction(u.(state := WaitSegAck), msgs, true)
        else Reaction(t.(state := WaitEndAck), [Msg(LoadEnd, true)], true)
      else Reaction(s, [], false)
    case WaitEndAck =>
      if e == EndAck then Reaction(s.(state := Idle), [], true)
      else if e == EndNack then Reaction(s.(state := if s.forced then Idle else Failed), [], true)
      else ActAnswer(s, e)
    case WaitActAck => ActAnswer(s, e)
    case _ => Reaction(s, [], false)
  }

  /** abis_nm_software_load, abis_nm_software_activate and abis_nm_rcvmsg_sw. A new load keeps the
      window count and the last-segment flag. */
  function React(s: Sw, e: Event): (r: Reaction)
    requires s.Consistent() && (e.Load? ==> e.window < 256)
    ensures r.sw.Consistent()
  {
    match e
    case Load(file, window, forced) =>
      if s.state != Idle then Reaction(s, [], false)
      else if !Opens(file) then Reaction(s.(window := window, forced := forced), [], false)
      else Reaction(Sw(WaitInitAck, window, s.inWindow, s.lastSeg, forced, file.value, 0), [Msg(LoadInit, true)], false)
    case Activate(file) =>
      if s.state != Idle || !Opens(file) then Reaction(s, [], false)
      else Reaction(s.(state := WaitActAck), [Msg(ActivateSw, true)], false)
    case _ => Answer(s, e)
  }

  // ---- the program's own form ----

  /** The effect of submitting messages and then perhaps letting the next ones out. */
  function QueueAfter(q: Oml, msgs: seq<Msg>, next: bool): Oml
  {
    if next then SendNext(SubmitAll(q, msgs)) else SubmitAll(q, msgs)
  }

  lemma {:induction false} SubmitAllConcat(q: Oml, a: seq<Msg>, b: seq<Msg>)
    ensures SubmitAll(SubmitAll(q, a), b) == SubmitAll(q, a + b)
    decreases b
  {
    if b == [] {
      assert a + b == a;
    } else {
      SubmitAllConcat(q, a, b[..|b|-1]);
      assert (a + b)[..|a + b|-1] == a + b[..|b|-1];
    }
  }

  lemma SubmitOne(q: Oml, m: Msg)
    ensures SubmitAll(q, [m]) == Submit(q, m)
    ensures SubmitAll(q, []) == q
  {
    assert [m][..0] == [];
    assert SubmitAll(q, []) == q;
  }

  class NmSw {
    const bts: Bts
    var state: SwState
    var windowSize: nat
    var segInWindow: nat
    var lastSeg: bool
    var forced: bool
    var file: seq<byte>
    var pos: nat

    function Value(): Sw
      reads this
    {
      Sw(state, windowSize, segInWindow, lastSeg, forced, file, pos)
    }

    constructor (bts: Bts)
      ensures this.bts == bts && Value() == Sw(Idle, 0, 0, false, false, [], 0)
    {
      this.bts := bts;
      state, windowSize, segInWindow, lastSeg, forced := Idle, 0, 0, false, false;
      file, pos := [], 0;
    }

    /** sw_load_segment */
    method LoadSegment()
      requires Value().Valid() && segInWindow < windowSize
      modifies this, bts
      ensures Value() == AfterSegment(old(Value()))
      ensures bts.State() == Submit(old(bts.State()), Segment(old(Value())))
    {
      var len := if |file| - pos < SEGMENT_SIZE then |file| - pos else SEGMENT_SIZE;
      var segBuf := file[pos..pos + len];
      pos := pos + len;
      if len != SEGMENT_SIZE {
        lastSeg := true;
      }
      segInWindow := segInWindow + 1;
      bts.QueueMsg(SegMsg(segBuf));
    }

    /** sw_fill_window */
    method DoFillWindow() returns (ghost msgs: seq<Msg>)
      requires Value().Valid()
      modifies this, bts
      ensures (Value(), msgs) == FillWindow(old(Value()))
      ensures bts.State() == SubmitAll(old(bts.State()), msgs)
    {
      msgs := [];
      hide Segment, Submit, SubmitAll;
      SubmitOne(bts.State(), SegMsg([]));
      ghost var left := FillWindow(Value()).1;
      assert left == msgs + left;
      while segInWindow < windowSize
        invariant Value().Valid()
        invariant msgs == [] ==> Value() == old(Value())
        invariant msgs != [] ==> !lastSeg
        invariant FillWindow(old(Value())) == (FillWindow(Value()).0, msgs + left)
        invariant left == FillWindow(Value()).1
        invariant bts.State() == SubmitAll(old(bts.State()), msgs)
        decreases windowSize - segInWindow
      {
        ghost var s := Value();
        FillStep(s);
        LoadSegment();
        SubmitOne(SubmitAll(old(bts.State()), msgs), Segment(s));
        SubmitAllConcat(old(bts.State()), msgs, [Segment(s)]);
        if lastSeg {
          msgs := msgs + [Segment(s)];
          return;
        }
        MoveOne(msgs, Segment(s), FillWindow(Value()).1);
        msgs, left := msgs + [Segment(s)], FillWindow(Value()).1;
      }
      assert msgs + left == msgs;
    }

    /** abis_nm_rcvmsg_sw */
    method RcvmsgSw(e: Event)
      requires Value().Consistent() && !e.Load? && !e.Activate?
      modifies this, bts
      ensures var r := Answer(old(Value()), e);
              Value() == r.sw && bts.State() == QueueAfter(old(bts.State()), r.msgs, r.next)
    {
      hide FillWindow, Submit, SubmitAll, SendNext;
      SubmitOne(bts.State(), Msg(LoadEnd, true));
      var oldState := state;
      if state == WaitInitAck {
        if e == InitAck || (e == InitNack && forced) {
          ghost var msgs := DoFillWindow();
          state := WaitSegAck;
          bts.QueueSendNext();
        } else if e == InitNack {
          state := Failed;
          bts.QueueSendNext();
        }
      } else if state == WaitSegAck {
        if e == SegAck {
          segInWindow := 0;
          if !lastSeg {
            ghost var msgs := DoFillWindow();
            state := WaitSegAck;
          } else {
            state := WaitEndAck;
            bts.QueueMsg(Msg(LoadEnd, true));
          }
          bts.QueueSendNext();
        }
      } else {
        if state == WaitEndAck {
          if e == EndAck {
            state := Idle;
            bts.QueueSendNext();
          } else if e == EndNack {
            state := if forced then Idle else Failed;
            bts.QueueSendNext();
          }
        }
        if oldState == WaitEndAck || oldState == WaitActAck {
          if e == ActAck {
            state := Idle;
            bts.QueueSendNext();
          } else if e == ActNack {
            state := Failed;
            bts.QueueSendNext();
          }
        }
      }
    }

    /** abis_nm_software_load */
    method SoftwareLoad(file: Option<seq<byte>>, window: nat, forced: bool) returns (r: Result<()>)
      requires Value().Consistent() && window < 256
      modifies this, bts
      ensures var a := React(old(Value()), Load(file, window, forced));
              Value() == a.sw && bts.State() == QueueAfter(old(bts.State()), a.msgs, a.next)
      ensures r == if old(state) != Idle then Err(EBUSY) else if !Opens(file) then Err(EINVAL) else Ok(())
    {
      hide HasSdpHeader, Submit;
      SubmitOne(bts.State(), Msg(LoadInit, true));
      if state != Idle {
        return Err(EBUSY);
      }
      windowSize := window;
      state := WaitInitAck;
      this.forced := forced;
      if !Opens(file) {
        state := Idle;
        return Err(EINVAL);
      }
      this.file, pos := file.value, 0;
      bts.QueueMsg(Msg(LoadInit, true));
      r := Ok(());
    }

    /** abis_nm_software_activate */
    method SoftwareActivate(file: Option<seq<byte>>) returns (r: Result<()>)
      requires Value().Consistent()
      modifies this, bts
      ensures var a := React(old(Value()), Activate(file));
              Value() == a.sw && bts.State() == QueueAfter(old(bts.State()), a.msgs, a.next)
      ensures r == if old(state) != Idle then Err(EBUSY) else if !Opens(file) then Err(EINVAL) else Ok(())
    {
      hide HasSdpHeader, Submit;
      SubmitOne(bts.State(), Msg(ActivateSw, true));
      if state != Idle {
        return Err(EBUSY);
      }
      state := WaitActAck;
      if !Opens(file) {
        state := Idle;
        return Err(EINVAL);
      }
      bts.QueueMsg(Msg(ActivateSw, true));
      r := Ok(());
    }
  }

  lemma FillStep(s: Sw)
    requires s.Valid() && s.inWindow < s.window
    ensures var t := AfterSegment(s);
            FillWindow(s) == if t.lastSeg then (t, [Segment(s)])
                             else (FillWindow(t).0, [Segment(s)] + FillWindow(t).1)
  {
  }
}
