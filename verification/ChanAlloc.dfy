/** Allocation of timeslots and logical channels in chan_alloc.c. */
module ChanAlloc {
  import opened Wrappers
  import opened Channels

  // ---- ts_alloc ----

  /** The timeslots of a transceiver that may be given a combination, or None where the search
      gives up. The case of SDCCH/8 runs on into that of the traffic channels. */
  function TsRange(c: Cell, i: nat, pchan: Pchan): (r: Option<(nat, nat)>)
    ensures r.Some? ==> r.value.0 <= r.value.1 < TRX_NR_TS
  {
    if i == c.c0 then
      match pchan
      case Ccch => Some((0, 0))
      case CcchSdcch4 => Some((0, 0))
      case TchF => Some((1, 7))
      case TchH => Some((1, 7))
      case _ => None
    else
      match pchan
      case Sdcch8 => Some((1, 7))
      case TchF => Some((1, 7))
      case TchH => Some((1, 7))
      case _ => None
  }

  predicate Unconfigured(c: Cell, i: nat, j: nat)
    requires Formed(c)
  {
    HasTs(c, i, j) && TsUsable(c, GetTs(c, i, j)) && GetTs(c, i, j).pchan == NoPchan
  }

  /** The first usable unconfigured one of timeslots j .. last. */
  function FreeTs(c: Cell, i: nat, j: nat, last: nat): (k: nat)
    requires Formed(c) && i < |c.trxs| && j <= last + 1 <= TRX_NR_TS
    ensures j <= k <= last + 1 && (k <= last ==> Unconfigured(c, i, k))
    ensures forall l :: j <= l < k ==> !Unconfigured(c, i, l)
    decreases last + 1 - j
  {
    if j == last + 1 || Unconfigured(c, i, j) then j else FreeTs(c, i, j + 1, last)
  }

  /** The timeslot that ts_alloc picks, looking from transceiver i on. */
  function PickTs(c: Cell, pchan: Pchan, i: nat): (r: Option<(nat, nat)>)
    requires Formed(c) && i <= |c.trxs|
    ensures r.Some? ==> Unconfigured(c, r.value.0, r.value.1)
    decreases |c.trxs| - i
  {
    if i == |c.trxs| then None
    else if !TrxUsable(c, c.trxs[i]) then PickTs(c, pchan, i + 1)
    else
      match TsRange(c, i, pchan)
      case None => None
      case Some((first, last)) =>
        var j := FreeTs(c, i, first, last);
        if j <= last then Some((i, j)) else PickTs(c, pchan, i + 1)
  }

  /** The transceivers on which ts_alloc can place a combination: for SDCCH/8 neither the
      beacon's, nor any behind it in the list unless the beacon's is unusable. */
  predicate MayHold(c: Cell, pchan: Pchan, i: nat)
    requires Formed(c)
  {
    match pchan
    case TchF => true
    case TchH => true
    case Sdcch8 => i != c.c0 && (i < c.c0 || !TrxUsable(c, c.trxs[c.c0]))
    case _ => false
  }

  /** A timeslot that ts_alloc could give the combination. */
  predicate Available(c: Cell, pchan: Pchan, i: nat, j: nat)
    requires Formed(c)
  {
    1 <= j && Unconfigured(c, i, j) && TrxUsable(c, c.trxs[i]) && MayHold(c, pchan, i)
  }

  /** For the combinations that _lc_find_bts asks for, ts_alloc picks the first available
      timeslot, and gives up only if there is none. */
  lemma {:induction false} PickTsFirst(c: Cell, pchan: Pchan, n: nat, i: nat, j: nat)
    requires Formed(c) && n <= |c.trxs| && pchan in {TchF, TchH, Sdcch8}
    requires pchan == Sdcch8 ==> n <= c.c0 || !TrxUsable(c, c.trxs[c.c0])
    ensures var r := PickTs(c, pchan, n);
            r.Some? ==> n <= r.value.0 && Available(c, pchan, r.value.0, r.value.1)
    ensures var r := PickTs(c, pchan, n);
            n <= i && Available(c, pchan, i, j) ==> r.Some? && !(i < r.value.0 || (i == r.value.0 && j < r.value.1))
    decreases |c.trxs| - n
  {
    hide Formed, Unconfigured, TrxUsable, FreeTs;
    if n < |c.trxs| && !(TrxUsable(c, c.trxs[n]) && pchan == Sdcch8 && n == c.c0) {
      PickTsFirst(c, pchan, n + 1, i, j);
    }
    UnconfiguredAt(c, i, j);
  }

  lemma UnconfiguredAt(c: Cell, i: nat, j: nat)
    requires Formed(c)
    ensures Unconfigured(c, i, j) ==> HasTs(c, i, j)
    ensures c.c0 < |c.trxs|
  {
  }

  // ---- lchan_alloc ----

  /** _lc_find_bts */
  function LcFind(c: Cell, pchan: Pchan): (r: (Cell, Option<Ref>))
    requires Formed(c)
    ensures Formed(r.0) && (r.1.Some? ==> HasRef(r.0, r.1.value))
  {
    var found := FindCell(c, pchan, 0);
    if found.Some? then (c, found)
    else if pchan == CcchSdcch4 then (c, None)
    else
      match PickTs(c, pchan, 0)
      case None => (c, None)
      case Some((i, j)) => (Configure(c, i, j, pchan), Some(Ref(i, j, 0)))
  }

  /** One combination after another until a channel is found; the type it then gets. */
  function LcFindFirst(c: Cell, wants: seq<(Pchan, ChanType)>): (r: (Cell, Option<(Ref, ChanType)>))
    requires Formed(c)
    ensures Formed(r.0) && (r.1.Some? ==> HasRef(r.0, r.1.value.0))
  {
    if wants == [] then (c, None)
    else
      var (d, found) := LcFind(c, wants[0].0);
      if found.Some? then (d, Some((found.value, wants[0].1))) else LcFindFirst(d, wants[1..])
  }

  /** The combinations that serve a type, in the order in which they are tried, with the type
      that the channel is then used as. */
  function Wants(c: Cell, chanType: ChanType, allowBigger: bool): seq<(Pchan, ChanType)>
  {
    match chanType
    case SdcchChan =>
      (if c.reverse then [(Sdcch8, SdcchChan), (CcchSdcch4, SdcchChan)]
       else [(CcchSdcch4, SdcchChan), (Sdcch8, SdcchChan)])
      + (if allowBigger then [(TchH, TchHChan), (TchF, TchFChan)] else [])
    case TchFChan => [(TchF, TchFChan)]
    case TchHChan => [(TchH, TchHChan), (TchF, TchFChan)]
    case _ => []
  }

  /** lchan_alloc */
  function Alloc(c: Cell, chanType: ChanType, allowBigger: bool): (r: (Cell, Option<Ref>))
    requires Formed(c)
    ensures Formed(r.0)
  {
    var (d, found) := LcFindFirst(c, Wants(c, chanType, allowBigger));
    match found
    case None => (d, None)
    case Some((q, t)) => (Put(d, q, Get(d, q).(chanType := t)), Some(q))
  }

  /** lchan_free and lchan_reset, as far as the allocator can tell. */
  function Free(c: Cell, r: Ref): Cell
    requires Formed(c) && HasRef(c, r)
  {
    Put(c, r, Lchan(NoType, Inert))
  }

  /** A search that fails changes nothing, so the next one starts from the same cell. */
  lemma LcFindFails(c: Cell, pchan: Pchan)
    requires Formed(c)
    ensures LcFind(c, pchan).1 == None ==> LcFind(c, pchan).0 == c
  {
  }

  lemma Tried(c: Cell, want: (Pchan, ChanType), more: seq<(Pchan, ChanType)>)
    requires Formed(c)
    ensures LcFindFirst(c, [want] + more)
         == var r := LcFind(c, want.0);
            if r.1.Some? then (r.0, Some((r.1.value, want.1))) else LcFindFirst(c, more)
    ensures LcFindFirst(c, []) == (c, None)
  {
    hide LcFind, Formed;
    LcFindFails(c, want.0);
    assert ([want] + more)[1..] == more;
  }

  /** The chains of searches behind the three types. */
  lemma Chains(c: Cell, chanType: ChanType, allowBigger: bool)
    requires Formed(c)
    ensures LcFindFirst(c, []) == (c, None)
    ensures
      var full := [(TchF, TchFChan)];
      var half := [(TchH, TchHChan)] + full;
      var bigger := if allowBigger then half else [];
      var first, second := (CcchSdcch4, SdcchChan), (Sdcch8, SdcchChan);
      Wants(c, chanType, allowBigger)
      == match chanType
         case SdcchChan => if c.reverse then [second] + ([first] + bigger) else [first] + ([second] + bigger)
         case TchFChan => full + []
         case TchHChan => half
         case _ => []
  {
  }

  // ---- the program's own form ----

  class Bts {
    const ipaccess: bool
    const chanAllocReverse: bool
    const c0: nat
    var trxs: seq<Trx>

    function Value(): Cell
      reads this
    {
      Cell(ipaccess, chanAllocReverse, c0, trxs)
    }

    constructor (ipaccess: bool, reverse: bool, c0: nat, trxs: seq<Trx>)
      ensures Value() == Cell(ipaccess, reverse, c0, trxs)
    {
      this.ipaccess, chanAllocReverse, this.c0, this.trxs := ipaccess, reverse, c0, trxs;
    }

    /** ts_alloc */
    method TsAlloc(pchan: Pchan) returns (r: Option<(nat, nat)>)
      requires Formed(Value())
      modifies this
      ensures r == PickTs(old(Value()), pchan, 0)
      ensures Value() == if r.Some? then Configure(old(Value()), r.value.0, r.value.1, pchan) else old(Value())
    {
      hide Formed, TsUsable, TrxUsable, GetTs, TsRange, Configure;
      var c := Value();
      var i := 0;
      while i < |trxs|
        invariant Value() == c && i <= |trxs|
        invariant PickTs(c, pchan, 0) == PickTs(c, pchan, i)
      {
        if TrxUsable(c, trxs[i]) {
          var range := TsRange(c, i, pchan);
          if range == None {
            return None;
          }
          var j := range.value.0;
          while j <= range.value.1
            invariant Value() == c && range.value.0 <= j <= range.value.1 + 1
            invariant FreeTs(c, i, range.value.0, range.value.1) == FreeTs(c, i, j, range.value.1)
          {
            if TsUsable(c, GetTs(c, i, j)) && GetTs(c, i, j).pchan == NoPchan {
              trxs := Configure(c, i, j, pchan).trxs;
              return Some((i, j));
            }
            j := j + 1;
          }
        }
        i := i + 1;
      }
      r := None;
    }

    /** _lc_find_trx */
    method LcFindTrx(i: nat, pchan: Pchan) returns (r: Option<Ref>)
      requires Formed(Value()) && i < |trxs|
      ensures r == FindTrx(Value(), i, pchan)
    {
      hide Formed, TsUsable, TrxUsable, GetTs, Serves, Idle;
      var c := Value();
      if !TrxUsable(c, trxs[i]) {
        return None;
      }
      var j := 0;
      while j < TRX_NR_TS
        invariant j <= TRX_NR_TS
        invariant FindFrom(c, i, pchan, 0) == FindFrom(c, i, pchan, j)
      {
        var t := GetTs(c, i, j);
        if TsUsable(c, t) && Serves(t, pchan) {
          var ss := 0;
          while ss < Subslots(pchan)
            invariant ss <= Subslots(pchan)
            invariant FirstIdle(t, 0, Subslots(pchan)) == FirstIdle(t, ss, Subslots(pchan))
          {
            if Idle(t.lchans[ss]) {
              return Some(Ref(i, j, ss));
            }
            ss := ss + 1;
          }
        }
        j := j + 1;
      }
      r := None;
    }

    /** _lc_find_bts */
    method LcFindBts(pchan: Pchan) returns (r: Option<Ref>)
      requires Formed(Value())
      modifies this
      ensures (Value(), r) == LcFind(old(Value()), pchan)
      ensures r == None ==> Value() == old(Value())
    {
      hide Formed, FindTrx, PickTs, Configure;
      var c := Value();
      if chanAllocReverse {
        var i := |trxs|;
        while i > 0
          invariant Value() == c && 0 <= i <= |c.trxs|
          invariant FindCell(c, pchan, 0) == FindCell(c, pchan, |c.trxs| - i)
        {
          i := i - 1;
          r := LcFindTrx(i, pchan);
          if r.Some? {
            return;
          }
        }
      } else {
        var i := 0;
        while i < |trxs|
          invariant Value() == c && i <= |trxs|
          invariant FindCell(c, pchan, 0) == FindCell(c, pchan, i)
        {
          r := LcFindTrx(i, pchan);
          if r.Some? {
            return;
          }
          i := i + 1;
        }
      }
      if pchan == CcchSdcch4 {
        return None;
      }
      var ts := TsAlloc(pchan);
      if ts == None {
        return None;
      }
      r := Some(Ref(ts.value.0, ts.value.1, 0));
    }

    /** lchan_alloc */
    method LchanAlloc(chanType: ChanType, allowBigger: bool) returns (r: Option<Ref>)
      requires Formed(Value())
      modifies this
      ensures (Value(), r) == Alloc(old(Value()), chanType, allowBigger)
    {
      hide Wants, LcFind, LcFindFirst, Formed, Put, Get, HasRef;
      ghost var c := Value();
      ghost var full := [(TchF, TchFChan)];
      ghost var half := [(TchH, TchHChan)] + full;
      ghost var bigger := if allowBigger then half else [];
      Chains(c, chanType, allowBigger);
      Tried(c, (TchF, TchFChan), []);
      Tried(c, (TchH, TchHChan), full);
      assert full + [] == full;
      var asType := chanType;
      r := None;
      match chanType {
        case SdcchChan =>
          var first, second := CcchSdcch4, Sdcch8;
          if chanAllocReverse {
            first, second := Sdcch8, CcchSdcch4;
          }
          Tried(c, (second, SdcchChan), bigger);
          Tried(c, (first, SdcchChan), [(second, SdcchChan)] + bigger);
          r := LcFindBts(first);
          if r == None {
            r := LcFindBts(second);
          }
          if allowBigger {
            if r == None {
              r := LcFindBts(TchH);
              asType := TchHChan;
            }
            if r == None {
              r := LcFindBts(TchF);
              asType := TchFChan;
            }
          }
        case TchFChan =>
          r := LcFindBts(TchF);
        case TchHChan =>
          r := LcFindBts(TchH);
          if r == None {
            r := LcFindBts(TchF);
            asType := TchFChan;
          }
        case _ =>
      }
      if r.Some? {
        trxs := Put(Value(), r.value, Get(Value(), r.value).(chanType := asType)).trxs;
      }
    }

    /** lchan_free */
    method LchanFree(r: Ref)
      requires Formed(Value()) && HasRef(Value(), r)
      modifies this
      ensures Value() == Free(old(Value()), r)
    {
      var l := Get(Value(), r);
      l := l.(chanType := NoType);
      if l.state != Inert {
        l := l.(state := Inert);
      }
      trxs := Put(Value(), r, l).trxs;
    }

    /** lchan_reset */
    method LchanReset(r: Ref)
      requires Formed(Value()) && HasRef(Value(), r)
      modifies this
      ensures Value() == Free(old(Value()), r)
    {
      trxs := Put(Value(), r, Lchan(NoType, Inert)).trxs;
    }
  }
}
