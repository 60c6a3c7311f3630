/** The transceivers of a cell with their timeslots and logical channels, as chan_alloc.c sees
    them, and the order in which it looks for a free one. */
module Channels {
  import opened Wrappers

  /** gsm_phys_chan_config; the values that are never asked for are put together. */
  datatype Pchan = NoPchan | Ccch | CcchSdcch4 | TchF | TchH | Sdcch8 | TchFPdch | OtherPchan

  /** gsm_chan_t */
  datatype ChanType = NoType | SdcchChan | TchFChan | TchHChan | OtherChan

  /** gsm_lchan_state */
  datatype LchanState = Inert | ActReq | Active | RelReq | RelErr | Inactive

  datatype Lchan = Lchan(chanType: ChanType, state: LchanState)

  const TS_MAX_LCHAN := 8
  const TRX_NR_TS := 8

  datatype Ts = Ts(pchan: Pchan, running: bool, pdchMode: bool, lchans: seq<Lchan>)

  /** The two flags say whether the radio carrier and the baseband transceiver are running. */
  datatype Trx = Trx(running: bool, bbRunning: bool, ts: seq<Ts>)

  /** gsm_bts; c0 is the place in the list of the transceiver that carries the beacon. */
  datatype Cell = Cell(ipaccess: bool, reverse: bool, c0: nat, trxs: seq<Trx>)

  /** A logical channel by transceiver, timeslot and subslot. */
  datatype Ref = Ref(trx: nat, ts: nat, ss: nat)

  predicate TsFormed(t: Ts)
  {
    |t.lchans| == TS_MAX_LCHAN
  }

  predicate TrxFormed(x: Trx)
  {
    |x.ts| == TRX_NR_TS && forall j :: 0 <= j < |x.ts| ==> TsFormed(x.ts[j])
  }

  predicate Formed(c: Cell)
  {
    c.c0 < |c.trxs| && forall i :: 0 <= i < |c.trxs| ==> TrxFormed(c.trxs[i])
  }

  predicate HasTs(c: Cell, i: nat, j: nat)
  {
    i < |c.trxs| && j < TRX_NR_TS
  }

  function GetTs(c: Cell, i: nat, j: nat): (t: Ts)
    requires Formed(c) && HasTs(c, i, j)
    ensures TsFormed(t)
  {
    assert TrxFormed(c.trxs[i]);
    c.trxs[i].ts[j]
  }

  predicate HasRef(c: Cell, r: Ref)
  {
    HasTs(c, r.trx, r.ts) && r.ss < TS_MAX_LCHAN
  }

  function Get(c: Cell, r: Ref): Lchan
    requires Formed(c) && HasRef(c, r)
  {
    GetTs(c, r.trx, r.ts).lchans[r.ss]
  }

  function PutTs(c: Cell, i: nat, j: nat, t: Ts): (d: Cell)
    requires Formed(c) && HasTs(c, i, j) && TsFormed(t)
    ensures Formed(d) && d.c0 == c.c0 && |d.trxs| == |c.trxs|
    ensures d.ipaccess == c.ipaccess && d.reverse == c.reverse
  {
    assert TrxFormed(c.trxs[i]);
    var x := c.trxs[i].(ts := c.trxs[i].ts[j := t]);
    assert TrxFormed(x);
    c.(trxs := c.trxs[i := x])
  }

  lemma PutGetTs(c: Cell, i: nat, j: nat, t: Ts, k: nat, l: nat)
    requires Formed(c) && HasTs(c, i, j) && TsFormed(t) && HasTs(c, k, l)
    ensures GetTs(PutTs(c, i, j, t), k, l) == if k == i && l == j then t else GetTs(c, k, l)
  {
    assert TrxFormed(c.trxs[i]) && TrxFormed(c.trxs[k]);
  }

  /** Sets one logical channel. */
  function Put(c: Cell, r: Ref, l: Lchan): (d: Cell)
    requires Formed(c) && HasRef(c, r)
    ensures Formed(d) && d.c0 == c.c0 && |d.trxs| == |c.trxs|
    ensures d.ipaccess == c.ipaccess && d.reverse == c.reverse
  {
    var t := GetTs(c, r.trx, r.ts);
    PutTs(c, r.trx, r.ts, t.(lchans := t.lchans[r.ss := l]))
  }

  lemma PutGet(c: Cell, r: Ref, l: Lchan, q: Ref)
    requires Formed(c) && HasRef(c, r) && HasRef(c, q)
    ensures HasRef(Put(c, r, l), q) && Get(Put(c, r, l), q) == if q == r then l else Get(c, q)
    ensures GetTs(Put(c, r, l), q.trx, q.ts).pchan == GetTs(c, q.trx, q.ts).pchan
  {
    hide PutTs, GetTs;
    var t := GetTs(c, r.trx, r.ts);
    PutGetTs(c, r.trx, r.ts, t.(lchans := t.lchans[r.ss := l]), q.trx, q.ts);
  }

  /** Gives a timeslot a channel combination. */
  function Configure(c: Cell, i: nat, j: nat, pchan: Pchan): (d: Cell)
    requires Formed(c) && HasTs(c, i, j)
    ensures Formed(d) && d.c0 == c.c0 && |d.trxs| == |c.trxs|
    ensures d.ipaccess == c.ipaccess && d.reverse == c.reverse
  {
    PutTs(c, i, j, GetTs(c, i, j).(pchan := pchan))
  }

  lemma ConfigureGet(c: Cell, i: nat, j: nat, pchan: Pchan, q: Ref)
    requires Formed(c) && HasTs(c, i, j) && HasRef(c, q)
    ensures HasRef(Configure(c, i, j, pchan), q) && Get(Configure(c, i, j, pchan), q) == Get(c, q)
    ensures GetTs(Configure(c, i, j, pchan), q.trx, q.ts).pchan
         == if q.trx == i && q.ts == j then pchan else GetTs(c, q.trx, q.ts).pchan
  {
    hide PutTs, GetTs;
    PutGetTs(c, i, j, GetTs(c, i, j).(pchan := pchan), q.trx, q.ts);
  }

  // ---- what can be taken ----

  predicate TsUsable(c: Cell, t: Ts)
  {
    !c.ipaccess || t.running
  }

  predicate TrxUsable(c: Cell, x: Trx)
  {
    !c.ipaccess || (x.running && x.bbRunning)
  }

  function Subslots(pchan: Pchan): (n: nat)
    ensures n <= TS_MAX_LCHAN
  {
    match pchan
    case CcchSdcch4 => 4
    case TchF => 1
    case TchH => 2
    case Sdcch8 => 8
    case TchFPdch => 1
    case _ => 0
  }

  predicate Idle(l: Lchan)
  {
    l.chanType == NoType && l.state == Inert
  }

  /** A timeslot of the combination asked for; a dynamic one serves as TCH/F while its packet
      side is off. */
  predicate Serves(t: Ts, pchan: Pchan)
  {
    if t.pchan == TchFPdch && pchan == TchF then !t.pdchMode else t.pchan == pchan
  }

  /** A logical channel that a search for pchan may return. */
  predicate Candidate(c: Cell, pchan: Pchan, r: Ref): (b: bool)
    requires Formed(c)
    ensures b ==> HasRef(c, r)
  {
    && HasRef(c, r) && r.ss < Subslots(pchan)
    && TrxUsable(c, c.trxs[r.trx]) && TsUsable(c, GetTs(c, r.trx, r.ts))
    && Serves(GetTs(c, r.trx, r.ts), pchan) && Idle(Get(c, r))
  }

  // ---- the searches ----

  /** The first idle one of subslots ss .. n-1. */
  function FirstIdle(t: Ts, ss: nat, n: nat): (k: nat)
    requires ss <= n <= |t.lchans|
    ensures ss <= k <= n && (k < n ==> Idle(t.lchans[k]))
    ensures forall i :: ss <= i < k ==> !Idle(t.lchans[i])
    decreases n - ss
  {
    if ss == n || Idle(t.lchans[ss]) then ss else FirstIdle(t, ss + 1, n)
  }

  predicate CanServe(c: Cell, t: Ts, pchan: Pchan)
  {
    TsUsable(c, t) && Serves(t, pchan)
  }

  /** _lc_find_trx from timeslot j on, for a usable transceiver. */
  function FindFrom(c: Cell, i: nat, pchan: Pchan, j: nat): (r: Option<Ref>)
    requires Formed(c) && i < |c.trxs| && j <= TRX_NR_TS
    ensures r.Some? ==> HasRef(c, r.value)
    decreases TRX_NR_TS - j
  {
    if j == TRX_NR_TS then None
    else
      var t := GetTs(c, i, j);
      var ss := FirstIdle(t, 0, Subslots(pchan));
      if CanServe(c, t, pchan) && ss < Subslots(pchan) then Some(Ref(i, j, ss))
      else FindFrom(c, i, pchan, j + 1)
  }

  function FindTrx(c: Cell, i: nat, pchan: Pchan): (r: Option<Ref>)
    requires Formed(c) && i < |c.trxs|
    ensures r.Some? ==> HasRef(c, r.value)
  {
    if TrxUsable(c, c.trxs[i]) then FindFrom(c, i, pchan, 0) else None
  }

  /** The n-th transceiver that is looked at. */
  function InOrder(c: Cell, n: nat): (i: nat)
    requires n < |c.trxs|
    ensures i < |c.trxs|
  {
    if c.reverse then |c.trxs| - 1 - n else n
  }

  /** The first search of _lc_find_bts, from the n-th transceiver on. */
  function FindCell(c: Cell, pchan: Pchan, n: nat): (r: Option<Ref>)
    requires Formed(c) && n <= |c.trxs|
    ensures r.Some? ==> HasRef(c, r.value)
    decreases |c.trxs| - n
  {
    if n == |c.trxs| then None
    else
      var r := FindTrx(c, InOrder(c, n), pchan);
      if r.Some? then r else FindCell(c, pchan, n + 1)
  }

  // ---- what the searches find ----

  /** r comes before q in one transceiver. */
  predicate Before(r: Ref, q: Ref)
  {
    r.ts < q.ts || (r.ts == q.ts && r.ss < q.ss)
  }

  lemma {:induction false} FindFromFirst(c: Cell, i: nat, pchan: Pchan, j: nat, p: Ref)
    requires Formed(c) && i < |c.trxs| && j <= TRX_NR_TS && TrxUsable(c, c.trxs[i])
    ensures match FindFrom(c, i, pchan, j)
            case Some(q) => q.trx == i && q.ts >= j && Candidate(c, pchan, q)
            case None => true
    ensures p.trx == i && j <= p.ts && Candidate(c, pchan, p) ==>
              FindFrom(c, i, pchan, j).Some? && !Before(p, FindFrom(c, i, pchan, j).value)
    decreases TRX_NR_TS - j
  {
    hide GetTs, Formed, TsUsable, TrxUsable, Serves, Idle, Candidate, CanServe, FindFrom, FirstIdle, Subslots;
    FindFromStep(c, i, pchan, j);
    if j < TRX_NR_TS {
      FindFromFirst(c, i, pchan, j + 1, p);
      var t := GetTs(c, i, j);
      var ss := FirstIdle(t, 0, Subslots(pchan));
      if CanServe(c, t, pchan) && ss < Subslots(pchan) {
        CandidateIs(c, pchan, Ref(i, j, ss));
      }
    }
    if Candidate(c, pchan, p) {
      CandidateAt(c, pchan, p);
    }
  }

  lemma FindFromStep(c: Cell, i: nat, pchan: Pchan, j: nat)
    requires Formed(c) && i < |c.trxs| && j <= TRX_NR_TS
    ensures j == TRX_NR_TS ==> FindFrom(c, i, pchan, j) == None
    ensures j < TRX_NR_TS ==>
              var t := GetTs(c, i, j);
              var ss := FirstIdle(t, 0, Subslots(pchan));
              FindFrom(c, i, pchan, j) == if CanServe(c, t, pchan) && ss < Subslots(pchan) then Some(Ref(i, j, ss))
                                          else FindFrom(c, i, pchan, j + 1)
  {
    hide GetTs, Formed, CanServe, FirstIdle, Subslots;
  }

  lemma CandidateAt(c: Cell, pchan: Pchan, p: Ref)
    requires Formed(c) && Candidate(c, pchan, p)
    ensures HasRef(c, p) && p.ss < Subslots(pchan) && TrxUsable(c, c.trxs[p.trx])
    ensures CanServe(c, GetTs(c, p.trx, p.ts), pchan)
    ensures Idle(GetTs(c, p.trx, p.ts).lchans[p.ss])
  {
  }

  lemma CandidateIs(c: Cell, pchan: Pchan, p: Ref)
    requires Formed(c) && HasRef(c, p) && p.ss < Subslots(pchan) && TrxUsable(c, c.trxs[p.trx])
    requires CanServe(c, GetTs(c, p.trx, p.ts), pchan)
    requires Idle(GetTs(c, p.trx, p.ts).lchans[p.ss])
    ensures Candidate(c, pchan, p)
  {
  }

  /** The place of a transceiver in the order of the search. */
  function Place(c: Cell, i: nat): (n: nat)
    requires i < |c.trxs|
    ensures n < |c.trxs| && InOrder(c, n) == i
  {
    if c.reverse then |c.trxs| - 1 - i else i
  }

  /** r is looked at before q. */
  predicate Sooner(c: Cell, r: Ref, q: Ref)
    requires r.trx < |c.trxs| && q.trx < |c.trxs|
  {
    Place(c, r.trx) < Place(c, q.trx) || (r.trx == q.trx && Before(r, q))
  }

  /** The search returns a candidate if there is one, and of all candidates the first one in
      the order of transceivers (or the reverse), timeslots and subslots. */
  lemma {:induction false} FindCellFirst(c: Cell, pchan: Pchan, n: nat, p: Ref)
    requires Formed(c) && n <= |c.trxs|
    ensures match FindCell(c, pchan, n)
            case Some(q) => Candidate(c, pchan, q) && Place(c, q.trx) >= n
            case None => true
    ensures Candidate(c, pchan, p) && Place(c, p.trx) >= n ==>
              FindCell(c, pchan, n).Some? && !Sooner(c, p, FindCell(c, pchan, n).value)
    decreases |c.trxs| - n
  {
    hide Candidate, FindTrx, Formed, Before;
    if n < |c.trxs| {
      FindCellFirst(c, pchan, n + 1, p);
      FindTrxFirst(c, InOrder(c, n), pchan, p);
    }
  }

  lemma FindTrxFirst(c: Cell, i: nat, pchan: Pchan, p: Ref)
    requires Formed(c) && i < |c.trxs|
    ensures match FindTrx(c, i, pchan)
            case Some(q) => q.trx == i && Candidate(c, pchan, q)
            case None => true
    ensures p.trx == i && Candidate(c, pchan, p) ==>
              FindTrx(c, i, pchan).Some? && !Before(p, FindTrx(c, i, pchan).value)
  {
    hide FindFrom, Before, Formed, GetTs, TsUsable, Serves, Idle;
    if TrxUsable(c, c.trxs[i]) {
      FindFromFirst(c, i, pchan, 0, p);
    }
  }
}
