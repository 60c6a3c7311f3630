/** What a request gets and what a release gives back, in terms of the channels themselves. */
module ChanGrants {
  import opened Wrappers
  import opened Channels
  import opened ChanAlloc
  import opened ChanRuns

  // ---- releases ----

  /** A release makes its channel idle and changes nothing else of the cell. */
  lemma ReleaseFrees(c: Cell, r: Ref)
    requires Formed(c) && HasRef(c, r)
    ensures var d := Step(c, Release(r));
            && d == c.(trxs := d.trxs) && |d.trxs| == |c.trxs|
            && (forall q: Ref :: HasRef(c, q) ==> HasRef(d, q) && Get(d, q) == if q == r then Lchan(NoType, Inert) else Get(c, q))
            && (forall i: nat, j: nat :: HasTs(c, i, j) ==>
                  GetTs(d, i, j) == GetTs(c, i, j).(lchans := GetTs(d, i, j).lchans))
            && (forall i :: 0 <= i < |c.trxs| ==> d.trxs[i] == c.trxs[i].(ts := d.trxs[i].ts))
  {
    var d := Step(c, Release(r));
    forall q: Ref | HasRef(c, q)
      ensures HasRef(d, q) && Get(d, q) == if q == r then Lchan(NoType, Inert) else Get(c, q)
    {
      PutGet(c, r, Lchan(NoType, Inert), q);
      hide *;
    }
    var t := GetTs(c, r.trx, r.ts);
    forall i: nat, j: nat | HasTs(c, i, j)
      ensures GetTs(d, i, j) == GetTs(c, i, j).(lchans := GetTs(d, i, j).lchans)
    {
      PutGetTs(c, r.trx, r.ts, t.(lchans := t.lchans[r.ss := Lchan(NoType, Inert)]), i, j);
      hide GetTs, PutTs;
    }
    hide GetTs;
  }

  /** A freed channel on a usable timeslot, within its subslots, is one that a search may return. */
  lemma FreedIsCandidate(c: Cell, r: Ref, pchan: Pchan)
    requires Formed(c) && HasRef(c, r) && r.ss < Subslots(pchan)
    requires TrxUsable(c, c.trxs[r.trx]) && CanServe(c, GetTs(c, r.trx, r.ts), pchan)
    ensures Candidate(Step(c, Release(r)), pchan, r)
  {
    ReleaseFrees(c, r);
    var d := Step(c, Release(r));
    assert HasTs(c, r.trx, r.ts) && HasRef(d, r);
    hide Step, GetTs, Subslots, Formed;
  }

  /** So the next request that its combination serves does not fail. */
  lemma FreedCanBeHad(c: Cell, r: Ref, pchan: Pchan, chanType: ChanType, allowBigger: bool, k: nat)
    requires Formed(c) && HasRef(c, r) && r.ss < Subslots(pchan)
    requires TrxUsable(c, c.trxs[r.trx]) && CanServe(c, GetTs(c, r.trx, r.ts), pchan)
    requires k < |Wants(c, chanType, allowBigger)| && Wants(c, chanType, allowBigger)[k].0 == pchan
    ensures Alloc(Step(c, Release(r)), chanType, allowBigger).1.Some?
  {
    var d := Step(c, Release(r));
    FreedIsCandidate(c, r, pchan);
    ReleaseFrees(c, r);
    SameWants(c, d, chanType, allowBigger);
    AllocFailsIff(d, chanType, allowBigger);
    hide Step, GetTs, Subslots, Formed, Candidate, Wants, Alloc;
    assert Obtainable(d, pchan);
  }

  lemma SameWants(c: Cell, d: Cell, chanType: ChanType, allowBigger: bool)
    requires c.reverse == d.reverse
    ensures Wants(c, chanType, allowBigger) == Wants(d, chanType, allowBigger)
  {
  }

  predicate NotFreed(es: seq<Event>, r: Ref, i: nat, j: nat)
    requires j <= |es|
  {
    forall k :: i <= k < j ==> !Frees(es[k], r)
  }

  /** Over any run, a channel is in use exactly if it was granted, or in use at the start, and was not
      freed since. */
  lemma {:induction false} InUseIff(cs: seq<Cell>, es: seq<Event>, r: Ref, j: nat)
    requires History(cs, es) && Inv(cs[0]) && j < |cs|
    ensures InUse(cs[j], r) <==>
              || (InUse(cs[0], r) && NotFreed(es, r, 0, j))
              || (exists i :: 0 <= i < j && Grants(cs[i], es[i], r) && NotFreed(es, r, i + 1, j))
  {
    hide Inv, Step, Legal, Formed, HasRef, Get, Frees, Granted, FineAt;
    if j > 0 {
      var c, e := cs[j - 1], es[j - 1];
      InUseIff(cs, es, r, j - 1);
      InvAlways(cs, es, j - 1);
      assert StepOf(c, e, cs[j]);
      UseStep(c, e, r);
      hide StepOf, InUse, Grants;
      if Frees(e, r) {
        assert !NotFreed(es, r, 0, j);
        forall i | 0 <= i < j && Grants(cs[i], es[i], r) && NotFreed(es, r, i + 1, j) ensures i == j - 1 {
        }
      } else {
        forall i | 0 <= i <= j - 1 ensures NotFreed(es, r, i, j) <==> NotFreed(es, r, i, j - 1) {
        }
      }
    }
  }

  /** What one event means for a channel being in use. */
  lemma UseStep(c: Cell, e: Event, r: Ref)
    requires Inv(c) && Formed(c) && Legal(c, e)
    ensures InUse(Step(c, e), r) <==> Grants(c, e, r) || (InUse(c, r) && !Frees(e, r))
    ensures Grants(c, e, r) ==> !Frees(e, r)
  {
    hide Inv, Step, Legal, Formed, HasRef, Get, Frees, FineAt;
    StepSize(c, e, r);
    if Grants(c, e, r) {
      GrantsExisting(c, e, r);
    }
    if HasRef(c, r) {
      StepAt(c, e, r);
    }
    GrantOrFree(c, e, r);
  }

  lemma GrantOrFree(c: Cell, e: Event, r: Ref)
    requires Formed(c)
    ensures Grants(c, e, r) ==> !Frees(e, r)
  {
  }

  // ---- requests ----

  /** Which requests fail, and what type the others are granted: a half-rate request falls back on a
      full-rate channel, and one for signalling on traffic channels only if bigger ones are
      allowed. */
  lemma GrantedType(c: Cell, chanType: ChanType, allowBigger: bool)
    requires Formed(c)
    ensures var (d, r) := Alloc(c, chanType, allowBigger);
            var full, half := Obtainable(c, TchF), Obtainable(c, TchH);
            var signalling := Obtainable(c, CcchSdcch4) || Obtainable(c, Sdcch8);
            && Formed(d)
            && (chanType == TchFChan ==> (r.Some? <==> full))
            && (chanType == TchHChan ==> (r.Some? <==> half || full))
            && (chanType == SdcchChan ==> (r.Some? <==> signalling || (allowBigger && (half || full))))
            && (chanType in {NoType, OtherChan} ==> r == None)
            && (r.Some? ==> HasRef(d, r.value)
                            && Get(d, r.value).chanType == if chanType == SdcchChan && signalling then SdcchChan
                                                          else if chanType != TchFChan && half then TchHChan
                                                          else TchFChan)
  {
    var wants := Wants(c, chanType, allowBigger);
    WantsSearchable(c, chanType, allowBigger);
    AllocFailsIff(c, chanType, allowBigger);
    LcFindFirstIff(c, wants);
    AllocIs(c, chanType, allowBigger);
    WantsAre(c, chanType, allowBigger);
    hide Formed, Wants, LcFindFirst, Obtainable, LcFind, HasRef, Alloc, Get, Put;
    var (e, found) := LcFindFirst(c, wants);
    if found.Some? {
      GrantedTypeIs(e, found.value.0, found.value.1);
    }
  }

  lemma GrantedTypeIs(e: Cell, r: Ref, t: ChanType)
    requires Formed(e) && HasRef(e, r)
    ensures var d := Put(e, r, Get(e, r).(chanType := t)); HasRef(d, r) && Get(d, r).chanType == t
  {
    PutGet(e, r, Get(e, r).(chanType := t), r);
    hide *;
  }

  lemma WantsAre(c: Cell, chanType: ChanType, allowBigger: bool)
    ensures var w := Wants(c, chanType, allowBigger);
            match chanType
            case TchFChan => |w| == 1 && w[0] == (TchF, TchFChan)
            case TchHChan => |w| == 2 && w[0] == (TchH, TchHChan) && w[1] == (TchF, TchFChan)
            case SdcchChan =>
              && |w| == (if allowBigger then 4 else 2)
              && w[0] == (if c.reverse then Sdcch8 else CcchSdcch4, SdcchChan)
              && w[1] == (if c.reverse then CcchSdcch4 else Sdcch8, SdcchChan)
              && (allowBigger ==> w[2] == (TchH, TchHChan) && w[3] == (TchF, TchFChan))
            case _ => w == []
  {
  }

  /** For signalling the combined beacon comes first, and SDCCH/8 does if the order is reversed. */
  lemma SdcchFrom(c: Cell, allowBigger: bool)
    requires Inv(c) && Formed(c)
    ensures var (d, r) := Alloc(c, SdcchChan, allowBigger);
            var first := if c.reverse then Sdcch8 else CcchSdcch4;
            Obtainable(c, first) ==>
              r.Some? && Formed(d) && HasRef(d, r.value) && GetTs(d, r.value.trx, r.value.ts).pchan == first
  {
    var first := if c.reverse then Sdcch8 else CcchSdcch4;
    var wants := Wants(c, SdcchChan, allowBigger);
    WantsAre(c, SdcchChan, allowBigger);
    AllocIs(c, SdcchChan, allowBigger);
    hide Inv, Formed, Wants, Obtainable, LcFind, HasRef, Alloc, Get, GetTs, Put;
    if Obtainable(c, first) {
      LcFindIff(c, first);
      FoundOn(c, first, SdcchChan);
    }
  }

  /** A search that succeeds leads to a timeslot of the combination, or to a dynamic one out of packet
      mode, on a usable transceiver. */
  lemma FoundOn(c: Cell, pchan: Pchan, t: ChanType)
    requires Formed(c) && Searchable(pchan) && LcFind(c, pchan).1.Some?
    ensures var (e, r) := LcFind(c, pchan);
            && HasRef(e, r.value)
            && var d := Put(e, r.value, Get(e, r.value).(chanType := t));
            && HasRef(d, r.value) && Running(d, r.value)
            && (Formed(d) ==>
                  var p := GetTs(d, r.value.trx, r.value.ts).pchan;
                  p == pchan || (p == TchFPdch && pchan == TchF))
  {
    LcFindWhere(c, pchan);
    var (e, r) := LcFind(c, pchan);
    var q := r.value;
    PutGet(e, q, Get(e, q).(chanType := t), q);
    if e == c && Candidate(c, pchan, q) {
      CandidateRuns(c, pchan, q);
    } else {
      AvailableRuns(c, pchan, q.trx, q.ts);
      ConfigureGet(c, q.trx, q.ts, pchan, q);
    }
    hide LcFind, Formed, Candidate, Available, Configure, Put, Get, GetTs, HasRef, Running;
    PutRuns(e, q, Get(e, q).(chanType := t));
  }

  /** On an ip.access BTS the timeslot, its carrier and its transceiver are running; and a dynamic
      timeslot is not in packet mode. */
  predicate Running(c: Cell, r: Ref)
  {
    && Formed(c) && HasRef(c, r)
    && var t := GetTs(c, r.trx, r.ts);
    && (c.ipaccess ==> c.trxs[r.trx].running && c.trxs[r.trx].bbRunning && t.running)
    && (t.pchan == TchFPdch ==> !t.pdchMode)
  }

  lemma CandidateRuns(c: Cell, pchan: Pchan, r: Ref)
    requires Formed(c) && Candidate(c, pchan, r) && Searchable(pchan)
    ensures Running(c, r)
    ensures var p := GetTs(c, r.trx, r.ts).pchan; p == pchan || (p == TchFPdch && pchan == TchF)
  {
  }

  lemma AvailableRuns(c: Cell, pchan: Pchan, i: nat, j: nat)
    requires Formed(c) && Available(c, pchan, i, j) && Searchable(pchan)
    ensures HasTs(c, i, j) && Running(Configure(c, i, j, pchan), Ref(i, j, 0))
  {
    var t := GetTs(c, i, j);
    PutGetTs(c, i, j, t.(pchan := pchan), i, j);
  }

  lemma PutRuns(c: Cell, r: Ref, l: Lchan)
    requires Formed(c) && HasRef(c, r) && Running(c, r)
    ensures Running(Put(c, r, l), r)
  {
    var t := GetTs(c, r.trx, r.ts);
    PutGetTs(c, r.trx, r.ts, t.(lchans := t.lchans[r.ss := l]), r.trx, r.ts);
  }

  /** No grant lies on a stopped transceiver or timeslot, or on one in packet mode. */
  lemma GrantRuns(c: Cell, chanType: ChanType, allowBigger: bool)
    requires Formed(c)
    ensures var (d, r) := Alloc(c, chanType, allowBigger); r.Some? ==> Running(d, r.value)
  {
    var wants := Wants(c, chanType, allowBigger);
    WantsSearchable(c, chanType, allowBigger);
    LcFindFirstIff(c, wants);
    AllocIs(c, chanType, allowBigger);
    var (e, found) := LcFindFirst(c, wants);
    if found.Some? {
      var (r, t) := found.value;
      var k :| 0 <= k < |wants| && wants[k].1 == t && LcFind(c, wants[k].0) == (e, Some(r));
      hide *;
      Want(wants, k);
      FoundOn(c, wants[k].0, t);
    } else {
      AllocFails(c, chanType, allowBigger);
    }
  }

  lemma AllocFails(c: Cell, chanType: ChanType, allowBigger: bool)
    requires Formed(c) && LcFindFirst(c, Wants(c, chanType, allowBigger)).1 == None
    ensures Alloc(c, chanType, allowBigger).1 == None
  {
  }

  /** The channels that an unused timeslot yields: four for signalling beside the beacon, eight on a
      timeslot of their own, two half-rate ones, and one full-rate one, on a dynamic timeslot while
      it is out of packet mode. */
  lemma ChannelsOf(c: Cell, i: nat, j: nat, pchan: Pchan, ss: nat)
    requires Formed(c) && HasTs(c, i, j) && TrxUsable(c, c.trxs[i]) && TsUsable(c, GetTs(c, i, j))
    requires Searchable(pchan) && forall k: nat :: k < TS_MAX_LCHAN ==> Idle(GetTs(c, i, j).lchans[k])
    ensures Candidate(c, pchan, Ref(i, j, ss)) <==>
              match GetTs(c, i, j).pchan
              case CcchSdcch4 => pchan == CcchSdcch4 && ss < 4
              case Sdcch8 => pchan == Sdcch8 && ss < 8
              case TchH => pchan == TchH && ss < 2
              case TchF => pchan == TchF && ss == 0
              case TchFPdch => pchan == TchF && !GetTs(c, i, j).pdchMode && ss == 0
              case _ => false
  {
  }

  /** The order of the searches: transceivers ascending, or descending if that is configured, and in
      each of them timeslots and subslots ascending. */
  lemma SearchOrder(c: Cell, pchan: Pchan, p: Ref)
    requires Formed(c) && Candidate(c, pchan, p)
    ensures var r := FindCell(c, pchan, 0);
            && r.Some? && Candidate(c, pchan, r.value)
            && (if c.reverse then r.value.trx >= p.trx else r.value.trx <= p.trx)
            && (r.value.trx == p.trx ==> 8 * r.value.ts + r.value.ss <= 8 * p.ts + p.ss)
  {
    FindCellFirst(c, pchan, 0, p);
    hide FindCell, GetTs, Formed, TsUsable, TrxUsable, Serves, Idle, Subslots;
  }
}
