/** What holds over runs of allocations and releases: no channel is handed out twice, every
    channel in use lies on a timeslot that carries its type, and a request fails exactly when
    nothing that could serve it is left. */
module ChanRuns {
  import opened Wrappers
  import opened Channels
  import opened ChanAlloc

  // ---- one allocation ----

  /** A combination can be had: an idle channel of it, or, except for the combined beacon, a
      timeslot that could be given it. */
  ghost predicate Obtainable(c: Cell, pchan: Pchan)
    requires Formed(c)
  {
    || (exists r: Ref :: Candidate(c, pchan, r))
    || (pchan in {TchF, TchH, Sdcch8} && exists i: nat, j: nat :: Available(c, pchan, i, j))
  }

  predicate Searchable(pchan: Pchan)
  {
    pchan in {CcchSdcch4, TchF, TchH, Sdcch8}
  }

  /** The search for a combination fails exactly if it cannot be had. */
  lemma LcFindIff(c: Cell, pchan: Pchan)
    requires Formed(c) && Searchable(pchan)
    ensures LcFind(c, pchan).1.Some? <==> Obtainable(c, pchan)
  {
    hide Candidate, Available, Formed, FindCell, PickTs, Place, Sooner;
    forall p: Ref | Candidate(c, pchan, p) ensures FindCell(c, pchan, 0).Some? {
      FindCellFirst(c, pchan, 0, p);
    }
    FindCellFirst(c, pchan, 0, Ref(0, 0, 0));
    if pchan != CcchSdcch4 {
      forall i: nat, j: nat | Available(c, pchan, i, j) ensures PickTs(c, pchan, 0).Some? {
        PickTsFirst(c, pchan, 0, i, j);
      }
      PickTsFirst(c, pchan, 0, 0, 0);
    }
  }

  /** Where a found channel lies: on a candidate, or on subslot 0 of a timeslot that got its
      combination just now. */
  lemma LcFindWhere(c: Cell, pchan: Pchan)
    requires Formed(c) && Searchable(pchan)
    ensures match LcFind(c, pchan).1
            case None => LcFind(c, pchan).0 == c
            case Some(r) =>
              || (Candidate(c, pchan, r) && LcFind(c, pchan).0 == c)
              || (r.ss == 0 && Available(c, pchan, r.trx, r.ts) && HasTs(c, r.trx, r.ts)
                  && LcFind(c, pchan).0 == Configure(c, r.trx, r.ts, pchan))
  {
    hide Candidate, Available, Formed, FindCell, PickTs, Place, Sooner, Configure;
    FindCellFirst(c, pchan, 0, Ref(0, 0, 0));
    if pchan != CcchSdcch4 {
      PickTsFirst(c, pchan, 0, 0, 0);
    }
  }

  predicate AllSearchable(wants: seq<(Pchan, ChanType)>)
  {
    forall k :: 0 <= k < |wants| ==> Searchable(wants[k].0) && TypeFits(wants[k].0, wants[k].1)
  }

  /** A chain of searches stops at the first combination that can be had. */
  lemma {:induction false} LcFindFirstIff(c: Cell, wants: seq<(Pchan, ChanType)>)
    requires Formed(c) && AllSearchable(wants)
    ensures LcFindFirst(c, wants).1 == None ==>
              LcFindFirst(c, wants).0 == c && forall k :: 0 <= k < |wants| ==> !Obtainable(c, wants[k].0)
    ensures match LcFindFirst(c, wants).1
            case None => true
            case Some((r, t)) =>
              exists k :: 0 <= k < |wants| && Obtainable(c, wants[k].0) && wants[k].1 == t
                          && LcFind(c, wants[k].0) == (LcFindFirst(c, wants).0, Some(r))
                          && forall l :: 0 <= l < k ==> !Obtainable(c, wants[l].0)
    decreases wants
  {
    hide Formed, LcFind, Obtainable;
    if wants != [] {
      LcFindIff(c, wants[0].0);
      LcFindFails(c, wants[0].0);
      LcFindFirstIff(c, wants[1..]);
      var found := LcFind(c, wants[0].0).1;
      if found == None && LcFindFirst(c, wants[1..]).1.Some? {
        var (r, t) := LcFindFirst(c, wants[1..]).1.value;
        var w := wants[1..];
        var k :| 0 <= k < |w| && Obtainable(c, w[k].0) && w[k].1 == t
                 && LcFind(c, w[k].0) == (LcFindFirst(c, w).0, Some(r))
                 && forall l :: 0 <= l < k ==> !Obtainable(c, w[l].0);
        assert wants[k + 1] == w[k];
        forall l | 0 <= l < k + 1 ensures !Obtainable(c, wants[l].0) {
          assert l > 0 ==> wants[l] == w[l - 1];
        }
      } else if found == None {
        forall k | 0 <= k < |wants| ensures !Obtainable(c, wants[k].0) {
          assert k > 0 ==> wants[k] == wants[1..][k - 1];
        }
      }
    }
  }

  lemma WantsSearchable(c: Cell, chanType: ChanType, allowBigger: bool)
    ensures AllSearchable(Wants(c, chanType, allowBigger))
  {
  }

  /** A request fails exactly if none of the combinations that serve it can be had. */
  lemma AllocFailsIff(c: Cell, chanType: ChanType, allowBigger: bool)
    requires Formed(c)
    ensures var wants := Wants(c, chanType, allowBigger);
            Alloc(c, chanType, allowBigger).1 == None <==> forall k :: 0 <= k < |wants| ==> !Obtainable(c, wants[k].0)
    ensures Alloc(c, chanType, allowBigger).1 == None ==> Alloc(c, chanType, allowBigger).0 == c
  {
    WantsSearchable(c, chanType, allowBigger);
    LcFindFirstIff(c, Wants(c, chanType, allowBigger));
    hide Formed, Wants, LcFindFirst, Obtainable, LcFind, Put, Get, HasRef;
  }

  /** In particular for TCH/F: no usable transceiver has an idle channel on a TCH/F timeslot or
      on a dynamic one out of packet mode, and none has a usable unconfigured timeslot 1 .. 7. */
  lemma TchFFailsIff(c: Cell, allowBigger: bool)
    requires Formed(c)
    ensures Alloc(c, TchFChan, allowBigger).1 == None <==>
              && (forall r: Ref :: !Candidate(c, TchF, r))
              && (forall i: nat, j: nat :: 1 <= j && Unconfigured(c, i, j) ==> !TrxUsable(c, c.trxs[i]))
  {
    AllocFailsIff(c, TchFChan, allowBigger);
    var wants := Wants(c, TchFChan, allowBigger);
    assert wants == [(TchF, TchFChan)] && wants[0].0 == TchF;
    hide Formed, Candidate, Unconfigured, TrxUsable, Alloc;
    forall i: nat, j: nat | Unconfigured(c, i, j)
      ensures HasTs(c, i, j) && (Available(c, TchF, i, j) <==> 1 <= j && TrxUsable(c, c.trxs[i]))
    {
      UnconfiguredAt(c, i, j);
    }
  }

  // ---- the invariant ----

  /** The channel types a combination carries. */
  predicate TypeFits(pchan: Pchan, t: ChanType)
  {
    match t
    case SdcchChan => pchan in {CcchSdcch4, Sdcch8}
    case TchFChan => pchan in {TchF, TchFPdch}
    case TchHChan => pchan == TchH
    case _ => false
  }

  /** A channel of an unconfigured timeslot is idle, and one in use has a type and a subslot
      that its timeslot carries. */
  predicate Fine(pchan: Pchan, ss: nat, l: Lchan)
  {
    && (pchan == NoPchan ==> Idle(l))
    && (l.chanType != NoType ==> TypeFits(pchan, l.chanType) && ss < Subslots(pchan))
  }

  predicate FineAt(c: Cell, r: Ref)
    requires Formed(c) && HasRef(c, r)
  {
    Fine(GetTs(c, r.trx, r.ts).pchan, r.ss, Get(c, r))
  }

  ghost predicate Inv(c: Cell)
  {
    Formed(c) && forall r: Ref :: HasRef(c, r) ==> FineAt(c, r)
  }

  /** What a successful allocation does: it takes a channel that was idle, gives it a type that
      fits, and leaves every other channel alone. */
  predicate Takes(c: Cell, d: Cell, r: Ref)
    requires Formed(c) && Formed(d)
  {
    && HasRef(c, r) && HasRef(d, r)
    && Idle(Get(c, r))
    && Get(d, r).chanType != NoType && Get(d, r).state == Inert
    && TypeFits(GetTs(d, r.trx, r.ts).pchan, Get(d, r).chanType)
    && r.ss < Subslots(GetTs(d, r.trx, r.ts).pchan)
  }

  predicate Untouched(c: Cell, d: Cell, q: Ref)
    requires Formed(c) && Formed(d)
  {
    HasRef(c, q) ==>
      && HasRef(d, q) && Get(d, q) == Get(c, q)
      && (GetTs(d, q.trx, q.ts).pchan == GetTs(c, q.trx, q.ts).pchan
          || (GetTs(c, q.trx, q.ts).pchan == NoPchan && Idle(Get(c, q))))
  }

  lemma AllocTakes(c: Cell, chanType: ChanType, allowBigger: bool, q: Ref)
    requires Inv(c) && Alloc(c, chanType, allowBigger).1.Some?
    ensures var (d, r) := Alloc(c, chanType, allowBigger); Formed(d) && Takes(c, d, r.value)
    ensures var (d, r) := Alloc(c, chanType, allowBigger); q != r.value ==> Formed(d) && Untouched(c, d, q)
  {
    var wants := Wants(c, chanType, allowBigger);
    WantsSearchable(c, chanType, allowBigger);
    LcFindFirstIff(c, wants);
    var (e, found) := LcFindFirst(c, wants);
    var (r, t) := found.value;
    var k :| 0 <= k < |wants| && wants[k].1 == t && LcFind(c, wants[k].0) == (e, Some(r));
    hide *;
    AllocIs(c, chanType, allowBigger);
    Want(wants, k);
    FoundTakes(c, wants[k].0, t, q);
  }

  lemma AllocIs(c: Cell, chanType: ChanType, allowBigger: bool)
    requires Formed(c)
    ensures var (e, found) := LcFindFirst(c, Wants(c, chanType, allowBigger));
            found.Some? ==>
              Alloc(c, chanType, allowBigger)
              == (Put(e, found.value.0, Get(e, found.value.0).(chanType := found.value.1)), Some(found.value.0))
  {
  }

  lemma Want(wants: seq<(Pchan, ChanType)>, k: nat)
    requires AllSearchable(wants) && k < |wants|
    ensures Searchable(wants[k].0) && TypeFits(wants[k].0, wants[k].1)
  {
  }

  lemma FoundTakes(c: Cell, pchan: Pchan, t: ChanType, q: Ref)
    requires Inv(c) && Formed(c) && Searchable(pchan) && TypeFits(pchan, t) && LcFind(c, pchan).1.Some?
    ensures var (e, found) := LcFind(c, pchan);
            var d := Put(e, found.value, Get(e, found.value).(chanType := t));
            Formed(d) && Takes(c, d, found.value) && (q != found.value ==> Untouched(c, d, q))
  {
    LcFindWhere(c, pchan);
    var (e, found) := LcFind(c, pchan);
    var r := found.value;
    hide *;
    if Candidate(c, pchan, r) && e == c {
      CandidateFits(c, pchan, r, t);
      TakesHere(c, c, r, t);
      if q != r && HasRef(c, q) {
        UntouchedHere(c, c, r, t, q);
      }
    } else {
      AvailableIdle(c, pchan, r);
      ConfigureGet(c, r.trx, r.ts, pchan, r);
      FreshFits(pchan, t);
      TakesHere(c, e, r, t);
      if q != r && HasRef(c, q) {
        ConfigureGet(c, r.trx, r.ts, pchan, q);
        IdleIfSame(c, r, q);
        UntouchedHere(c, e, r, t, q);
      }
    }
    if !HasRef(c, q) {
      NotThere(c, Put(e, r, Get(e, r).(chanType := t)), q);
    }
  }

  lemma NotThere(c: Cell, d: Cell, q: Ref)
    requires Formed(c) && Formed(d) && !HasRef(c, q)
    ensures Untouched(c, d, q)
  {
  }

  /** A candidate is idle and carries what is asked for. */
  lemma CandidateFits(c: Cell, pchan: Pchan, r: Ref, t: ChanType)
    requires Formed(c) && Candidate(c, pchan, r) && TypeFits(pchan, t)
    ensures HasRef(c, r) && Idle(Get(c, r)) && t != NoType
    ensures TypeFits(GetTs(c, r.trx, r.ts).pchan, t) && r.ss < Subslots(GetTs(c, r.trx, r.ts).pchan)
  {
  }

  /** The invariant is what makes a timeslot that is configured anew safe to use. */
  lemma AvailableIdle(c: Cell, pchan: Pchan, r: Ref)
    requires Inv(c) && Available(c, pchan, r.trx, r.ts) && r.ss == 0
    ensures HasRef(c, r) && Idle(Get(c, r)) && GetTs(c, r.trx, r.ts).pchan == NoPchan
    ensures Searchable(pchan) && pchan != CcchSdcch4
  {
    assert HasRef(c, r) && FineAt(c, r);
  }

  lemma IdleIfSame(c: Cell, r: Ref, q: Ref)
    requires Inv(c) && HasRef(c, r) && HasRef(c, q) && GetTs(c, r.trx, r.ts).pchan == NoPchan
    ensures q.trx == r.trx && q.ts == r.ts ==> Idle(Get(c, q)) && GetTs(c, q.trx, q.ts).pchan == NoPchan
  {
    assert FineAt(c, q);
  }

  lemma FreshFits(pchan: Pchan, t: ChanType)
    requires Searchable(pchan) && TypeFits(pchan, t)
    ensures 0 < Subslots(pchan) && t != NoType
  {
  }

  lemma TakesHere(c: Cell, e: Cell, r: Ref, t: ChanType)
    requires Formed(c) && Formed(e) && HasRef(c, r) && HasRef(e, r)
    requires Idle(Get(c, r)) && Get(e, r) == Get(c, r) && t != NoType
    requires TypeFits(GetTs(e, r.trx, r.ts).pchan, t) && r.ss < Subslots(GetTs(e, r.trx, r.ts).pchan)
    ensures var d := Put(e, r, Get(e, r).(chanType := t)); Formed(d) && Takes(c, d, r)
  {
    PutGet(e, r, Get(e, r).(chanType := t), r);
    hide Put, Get, GetTs, HasRef, Formed, TypeFits, Subslots;
  }

  lemma UntouchedHere(c: Cell, e: Cell, r: Ref, t: ChanType, q: Ref)
    requires Formed(c) && Formed(e) && HasRef(c, q) && HasRef(e, q) && HasRef(e, r) && q != r
    requires Get(e, q) == Get(c, q)
    requires GetTs(e, q.trx, q.ts).pchan == GetTs(c, q.trx, q.ts).pchan
             || (GetTs(c, q.trx, q.ts).pchan == NoPchan && Idle(Get(c, q)))
    ensures var d := Put(e, r, Get(e, r).(chanType := t)); Formed(d) && Untouched(c, d, q)
  {
    PutGet(e, r, Get(e, r).(chanType := t), q);
    hide Put, Get, GetTs, HasRef, Formed, Idle;
  }

  // ---- runs ----

  /** The rest of the program: channels are freed or reset, their activation state changes once
      their timeslot has a combination, and transceivers, timeslots and packet modes come and
      go. */
  datatype Event =
    | Request(chanType: ChanType, allowBigger: bool)
    | Release(ref: Ref)
    | SetState(ref: Ref, state: LchanState)
    | Environment(cell: Cell)

  /** The same channels on the same combinations. */
  ghost predicate SameChannels(c: Cell, d: Cell)
    requires Formed(c) && Formed(d)
  {
    forall r: Ref :: HasRef(c, r) <==> HasRef(d, r)
  }

  ghost predicate SameUse(c: Cell, d: Cell)
    requires Formed(c) && Formed(d)
  {
    forall r: Ref :: HasRef(c, r) && HasRef(d, r) ==>
      Get(c, r) == Get(d, r) && GetTs(c, r.trx, r.ts).pchan == GetTs(d, r.trx, r.ts).pchan
  }

  ghost predicate Legal(c: Cell, e: Event)
    requires Formed(c)
  {
    match e
    case Request(_, _) => true
    case Release(r) => HasRef(c, r)
    case SetState(r, s) => HasRef(c, r) && GetTs(c, r.trx, r.ts).pchan != NoPchan
    case Environment(d) => Formed(d) && SameChannels(c, d) && SameUse(c, d)
  }

  ghost function Step(c: Cell, e: Event): (d: Cell)
    requires Formed(c) && Legal(c, e)
    ensures Formed(d)
  {
    match e
    case Request(t, b) => Alloc(c, t, b).0
    case Release(r) => Free(c, r)
    case SetState(r, s) => Put(c, r, Get(c, r).(state := s))
    case Environment(d) => d
  }

  /** The channel an event hands out. */
  function Granted(c: Cell, e: Event): Option<Ref>
    requires Formed(c)
  {
    match e
    case Request(t, b) => Alloc(c, t, b).1
    case _ => None
  }

  predicate Frees(e: Event, r: Ref)
  {
    e.Release? && e.ref == r
  }

  /** What one event means for one channel. */
  lemma StepAt(c: Cell, e: Event, q: Ref)
    requires Inv(c) && Formed(c) && Legal(c, e) && HasRef(c, q)
    ensures var d := Step(c, e);
            && HasRef(d, q) && FineAt(d, q)
            && (Granted(c, e) == Some(q) ==> Get(c, q).chanType == NoType && Get(d, q).chanType != NoType)
            && (Frees(e, q) ==> Idle(Get(d, q)))
            && (!Frees(e, q) && Granted(c, e) != Some(q) ==> Get(d, q).chanType == Get(c, q).chanType)
  {
    assert FineAt(c, q);
    match e
    case Request(t, b) =>
      if Alloc(c, t, b).1.Some? {
        AllocTakes(c, t, b, q);
        var d := Alloc(c, t, b).0;
        hide Alloc, Get, GetTs, HasRef, Formed, Subslots, TypeFits, Inv;
      } else {
        AllocFailsIff(c, t, b);
        hide Alloc, Get, GetTs, HasRef, Formed, Subslots, TypeFits, Inv, Fine;
      }
    case Release(r) =>
      PutGet(c, r, Lchan(NoType, Inert), q);
      hide Put, Get, GetTs, HasRef, Formed, Subslots, TypeFits, Inv;
    case SetState(r, s) =>
      PutGet(c, r, Get(c, r).(state := s), q);
      hide Put, Get, GetTs, HasRef, Formed, Subslots, TypeFits, Inv;
    case Environment(d) =>
      hide Get, GetTs, HasRef, Formed, Fine, Inv;
  }

  lemma StepSize(c: Cell, e: Event, q: Ref)
    requires Formed(c) && Legal(c, e)
    ensures HasRef(Step(c, e), q) ==> HasRef(c, q)
  {
    match e
    case Request(t, b) => AllocSize(c, t, b);
    case Release(r) =>
    case SetState(r, s) =>
    case Environment(d) =>
  }

  lemma AllocSize(c: Cell, t: ChanType, b: bool)
    requires Formed(c)
    ensures |Alloc(c, t, b).0.trxs| == |c.trxs|
  {
    WantsSearchable(c, t, b);
    ChainSize(c, Wants(c, t, b));
    hide LcFindFirst, Wants, Formed, Get;
  }

  lemma {:induction false} ChainSize(c: Cell, wants: seq<(Pchan, ChanType)>)
    requires Formed(c)
    ensures |LcFindFirst(c, wants).0.trxs| == |c.trxs|
    decreases wants
  {
    hide Formed, FindCell, PickTs, Configure;
    if wants != [] {
      ChainSize(LcFind(c, wants[0].0).0, wants[1..]);
    }
  }

  /** Every event keeps the invariant. */
  lemma StepKeepsInv(c: Cell, e: Event)
    requires Inv(c) && Formed(c) && Legal(c, e)
    ensures Inv(Step(c, e))
  {
    var d := Step(c, e);
    hide Step, Legal, FineAt, HasRef, Formed;
    forall q: Ref | HasRef(d, q) ensures FineAt(d, q) {
      StepSize(c, e, q);
      StepAt(c, e, q);
    }
  }

  /** A run: the states it goes through and the events between them. */
  ghost predicate History(cs: seq<Cell>, es: seq<Event>)
  {
    && |cs| == |es| + 1
    && forall i :: 0 <= i < |es| ==> StepOf(cs[i], es[i], cs[i + 1])
  }

  ghost predicate StepOf(c: Cell, e: Event, d: Cell)
  {
    Formed(c) && Legal(c, e) && d == Step(c, e)
  }

  lemma {:induction false} InvAlways(cs: seq<Cell>, es: seq<Event>, i: nat)
    requires History(cs, es) && Inv(cs[0]) && i < |cs|
    ensures Inv(cs[i])
  {
    hide Inv, Step, Legal, Formed;
    if i > 0 {
      InvAlways(cs, es, i - 1);
      assert StepOf(cs[i - 1], es[i - 1], cs[i]);
      StepKeepsInv(cs[i - 1], es[i - 1]);
    }
  }

  ghost predicate InUse(c: Cell, r: Ref)
  {
    Formed(c) && HasRef(c, r) && Get(c, r).chanType != NoType
  }

  /** A channel stays in use until it is freed. */
  lemma {:induction false} StaysInUse(cs: seq<Cell>, es: seq<Event>, r: Ref, i: nat, j: nat)
    requires History(cs, es) && Inv(cs[0]) && i <= j < |cs| && InUse(cs[i], r)
    requires forall k :: i <= k < j ==> !Frees(es[k], r)
    ensures InUse(cs[j], r)
    decreases j
  {
    hide Inv, Step, Legal, Formed, HasRef, Get, Frees, Granted, FineAt;
    if i < j {
      StaysInUse(cs, es, r, i, j - 1);
      InvAlways(cs, es, j - 1);
      assert StepOf(cs[j - 1], es[j - 1], cs[j]);
      StepAt(cs[j - 1], es[j - 1], r);
    }
  }

  ghost predicate Grants(c: Cell, e: Event, r: Ref)
  {
    Formed(c) && Granted(c, e) == Some(r)
  }

  lemma GrantsExisting(c: Cell, e: Event, r: Ref)
    requires Inv(c) && Grants(c, e, r)
    ensures HasRef(c, r)
  {
    match e
    case Request(t, b) =>
      AllocTakes(c, t, b, r);
      hide Inv, Alloc, Get, GetTs, Formed;
  }

  /** No channel is handed out twice: between two grants of the same channel it was freed or
      reset. */
  lemma NoDoubleAllocation(cs: seq<Cell>, es: seq<Event>, i: nat, j: nat, r: Ref)
    requires History(cs, es) && Inv(cs[0]) && i < j < |es|
    requires Grants(cs[i], es[i], r) && Grants(cs[j], es[j], r)
    ensures exists k :: i < k < j && Frees(es[k], r)
  {
    InvAlways(cs, es, i);
    InvAlways(cs, es, j);
    assert StepOf(cs[i], es[i], cs[i + 1]) && StepOf(cs[j], es[j], cs[j + 1]);
    GrantsExisting(cs[i], es[i], r);
    GrantsExisting(cs[j], es[j], r);
    hide Inv, Step, Legal, Formed, HasRef, Get, Frees, Granted, FineAt;
    StepAt(cs[i], es[i], r);
    StepAt(cs[j], es[j], r);
    if forall k :: i < k < j ==> !Frees(es[k], r) {
      StaysInUse(cs, es, r, i + 1, j);
    }
  }

  /** In particular in every run of a cell that starts with nothing in use, however it is
      configured. */
  lemma NoDoubleAllocationFromUnused(cs: seq<Cell>, es: seq<Event>, i: nat, j: nat, r: Ref)
    requires History(cs, es) && Unused(cs[0]) && i < j < |es|
    requires Grants(cs[i], es[i], r) && Grants(cs[j], es[j], r)
    ensures exists k :: i < k < j && Frees(es[k], r)
  {
    var c := cs[0];
    hide *;
    UnusedCell(c);
    NoDoubleAllocation(cs, es, i, j, r);
  }

  ghost predicate Unused(c: Cell)
  {
    Formed(c) && forall r: Ref :: HasRef(c, r) ==> Idle(Get(c, r))
  }

  /** A cell where nothing is in use meets the invariant. */
  lemma UnusedCell(c: Cell)
    requires Unused(c)
    ensures Inv(c)
  {
    hide Formed, HasRef, Get, GetTs;
  }
}
