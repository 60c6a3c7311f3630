/** The LLC entity of gprs_llc.c: sending and receiving UI frames over its counters. */
module LlcEntity {
  import opened Bytes
  import opened Wrappers
  import opened FrameCheck
  import opened Llc
  import opened LlcNumbering

  datatype LleState = Unassigned | AssignedAdm | LocalEst | RemoteEst | Abm | LocalRel | TimerRec

  /** The state a command leads to. */
  function StateAfter(state: LleState, cmd: Cmd): LleState
  {
    match cmd
    case SABM => Abm
    case DISC => AssignedAdm
    case UA => if state == LocalEst then Abm else state
    case DM => if state == LocalEst then AssignedAdm else state
    case _ => state
  }

  /** What receiving changes in an entity: its state, V(S), V(A) and V(R) of the acknowledged mode,
      and V(UR) with the overflow counter. */
  datatype LleVars = LleVars(state: LleState, acked: (nat, nat, nat), rx: Counters)

  /** gprs_llc_rcvmsg for a frame of this entity's SAPI and no ciphering: what is handed up is the
      place of the information field in the frame. */
  function Received(v: LleVars, f: seq<byte>): (LleVars, Result<Option<Hdr>>)
  {
    match Check(f)
    case Refused(e) => (v, Err(e))
    case Dropped => (v, Ok(None))
    case Accepted(h) =>
      if h.cmd == UI then
        match RxNext(v.rx, h.seqTx)
        case None => (v, Err(EIO))
        case Some(c) => (v.(rx := c), Ok(Some(h)))
      else
        (v.(state := StateAfter(v.state, h.cmd), acked := if h.cmd == SABM then (0, 0, 0) else v.acked),
         Ok(if h.data.Some? then Some(h) else None))
  }

  /** What is handed up is this part of the frame. */
  predicate HandsUp(r: Result<Option<Hdr>>, sapi: nat, f: seq<byte>, info: seq<byte>)
  {
    && r.Ok? && r.value.Some? && r.value.value.sapi == sapi && r.value.value.data.Some?
    && var from := r.value.value.data.value;
    && from + r.value.value.dataLen <= |f| && f[from..from + r.value.value.dataLen] == info
  }

  /** Every U frame, by its code: SABM establishes the acknowledged mode from any state with all
      variables zero, DISC ends it, UA and DM answer a local establishment, and the others change
      nothing; only XID hands its information field up, and an unknown code is refused. */
  lemma UFrameReceived(v: LleVars, sapi: nat, command: bool, code: byte, pollFinal: bool, info: seq<byte>)
    requires sapi < 16 && !ReservedSapi(sapi) && code <= 0x0f && |info| < 0x1_0000 - 2
    ensures var f := UFrame(sapi, command, code, pollFinal, info);
            var (w, r) := Received(v, f);
            && (code == 0x07 ==> w == v.(state := Abm, acked := (0, 0, 0)))
            && (code == 0x04 ==> w == v.(state := AssignedAdm))
            && (code == 0x06 ==> w == if v.state == LocalEst then v.(state := Abm) else v)
            && (code == 0x01 ==> w == if v.state == LocalEst then v.(state := AssignedAdm) else v)
            && (code !in {0x01, 0x04, 0x06, 0x07} ==> w == v)
            && (code == 0x0b ==> HandsUp(r, sapi, f, info))
            && (code in {0x00, 0x01, 0x04, 0x06, 0x07, 0x08} ==> r == Ok(None))
            && (code !in {0x00, 0x01, 0x04, 0x06, 0x07, 0x08, 0x0b} ==> r == Err(EIO))
  {
    var f := UFrame(sapi, command, code, pollFinal, info);
    URoundTrip(sapi, command, code, pollFinal, info);
    assert |f| == 2 + |info| + CRC24_LENGTH;
    hide UFrame, ParseHdr, FcsCovers, ReadFcs, ReservedSapi, StateAfter;
    ByCode(v.state, code);
  }

  lemma ByCode(state: LleState, code: byte)
    ensures code as int in U_CODES <==> code in {0x00, 0x01, 0x04, 0x06, 0x07, 0x08, 0x0b}
    ensures code as int in U_CODES ==>
              var cmd := U_CODES[code as int];
              && cmd != UI && (cmd == SABM <==> code == 0x07)
              && StateAfter(state, cmd) == match code
                                           case 0x07 => Abm
                                           case 0x04 => AssignedAdm
                                           case 0x06 => if state == LocalEst then Abm else state
                                           case 0x01 => if state == LocalEst then AssignedAdm else state
                                           case _ => state
  {
  }

  /** A UI frame behind V(UR) is refused and changes nothing; any other moves the counters on and
      hands its information field up, whatever the state. */
  lemma UiFrameReceived(v: LleVars, sapi: nat, command: bool, nu: nat, info: seq<byte>)
    requires sapi < 16 && !ReservedSapi(sapi) && nu < 512 && |info| <= N201U(sapi)
    ensures var f := UiFrame(sapi, command, nu, info);
            var (w, r) := Received(v, f);
            if nu < v.rx.vu then w == v && r == Err(EIO)
            else
              && w == v.(rx := Counters((nu + 1) % 512, if nu == 511 then (v.rx.oc + 512) % WRAP else v.rx.oc))
              && HandsUp(r, sapi, f, info)
  {
    var f := UiFrame(sapi, command, nu, info);
    UiRoundTrip(sapi, command, nu, info);
    hide UiFrame, ParseHdr, FcsCovers, ReadFcs, ReservedSapi, N201U;
    assert |f| == UI_HDR_LEN + |info| + CRC24_LENGTH;
  }

  /** An I frame hands its information field up, in any state and whatever N(S); it changes
      nothing, V(R) included. A SACK is refused. */
  lemma IFrameReceived(v: LleVars, sapi: nat, command: bool, ackReq: bool, ns: nat, nr: nat, code: byte, info: seq<byte>)
    requires sapi < 16 && !ReservedSapi(sapi) && ns < 512 && nr < 512 && code <= 3 && |info| < 0x1_0000 - 4
    ensures var c := IControl(ackReq, ns, nr, code);
            var f := FrameOf(sapi, command, [c.0, c.1, c.2], info);
            var (w, r) := Received(v, f);
            w == v && if code == 3 then r == Err(EIO) else HandsUp(r, sapi, f, info)
  {
    var c := IControl(ackReq, ns, nr, code);
    var f := FrameOf(sapi, command, [c.0, c.1, c.2], info);
    IRoundTrip(sapi, command, ackReq, ns, nr, code, info);
    hide FrameOf, IControl, ParseHdr, FcsCovers, ReadFcs, ReservedSapi;
    assert |f| == 4 + |info| + CRC24_LENGTH;
  }

  /** S frames change nothing and hand nothing up. */
  lemma SFrameReceived(v: LleVars, sapi: nat, command: bool, ackReq: bool, nr: nat, code: byte)
    requires sapi < 16 && !ReservedSapi(sapi) && nr < 512 && code <= 3
    ensures var c := SControl(ackReq, nr, code);
            Received(v, FrameOf(sapi, command, [c.0, c.1], [])) == (v, if code == 3 then Err(EIO) else Ok(None))
  {
    var c := SControl(ackReq, nr, code);
    SRoundTrip(sapi, command, ackReq, nr, code);
    hide FrameOf, SControl, ParseHdr, FcsCovers, ReadFcs, ReservedSapi;
    assert |FrameOf(sapi, command, [c.0, c.1], [])| == 3 + CRC24_LENGTH;
  }

  class Lle {
    const sapi: nat
    var state: LleState
    var vSent: nat
    var vAck: nat
    var vRecv: nat
    var vuSend: nat
    var vuRecv: nat
    var ocUiSend: nat
    var ocUiRecv: nat

    function Tx(): Counters
      reads this
    {
      Counters(vuSend, ocUiSend)
    }

    function Rx(): Counters
      reads this
    {
      Counters(vuRecv, ocUiRecv)
    }

    /** V(S), V(A) and V(R) of the acknowledged mode. */
    function Acked(): (nat, nat, nat)
      reads this
    {
      (vSent, vAck, vRecv)
    }

    function Vars(): LleVars
      reads this
    {
      LleVars(state, Acked(), Rx())
    }

    ghost predicate Valid()
      reads this
    {
      sapi < 16 && vuSend < 512 && vuRecv < 512 && ocUiSend < WRAP && ocUiRecv < WRAP
    }

    constructor (sapi: nat)
      requires sapi < 16
      ensures Valid() && this.sapi == sapi && state == Unassigned
      ensures Tx() == INITIAL && Rx() == INITIAL && Acked() == (0, 0, 0)
    {
      this.sapi := sapi;
      state := Unassigned;
      vSent, vAck, vRecv := 0, 0, 0;
      vuSend, vuRecv := 0, 0;
      ocUiSend, ocUiRecv := 0, 0;
    }

    /** gprs_llc_tx_ui, up to the hand-over to BSSGP. */
    method TxUi(msg: seq<byte>, command: bool) returns (r: Result<seq<byte>>)
      requires Valid()
      modifies this`vuSend, this`ocUiSend
      ensures Valid()
      ensures |msg| > N201U(sapi) ==> r == Err(EFBIG) && Tx() == old(Tx())
      ensures |msg| <= N201U(sapi) ==>
                r == Ok(UiFrame(sapi, command, old(vuSend), msg)) && Tx() == TxNext(old(Tx()))
    {
      if |msg| > N201U(sapi) {
        return Err(EFBIG);
      }
      var nu := vuSend;
      vuSend := (vuSend + 1) % 512;
      if (vuSend + 1) / 512 != 0 {
        ocUiSend := (ocUiSend + 512) % WRAP;
      }
      r := Ok(UiFrame(sapi, command, nu, msg));
    }

    /** gprs_llc_hdr_rx, without the XID answer. */
    method HdrRx(gph: Hdr) returns (ok: bool)
      requires Valid() && gph.seqTx < 512
      modifies this
      ensures Valid() && Tx() == old(Tx())
      ensures ok <==> gph.cmd != UI || RxNext(old(Rx()), gph.seqTx).Some?
      ensures gph.cmd == UI && ok ==> Rx() == RxNext(old(Rx()), gph.seqTx).value
      ensures gph.cmd != UI || !ok ==> Rx() == old(Rx())
      ensures state == StateAfter(old(state), gph.cmd)
      ensures Acked() == if gph.cmd == SABM then (0, 0, 0) else old(Acked())
    {
      ok := true;
      match gph.cmd {
        case SABM =>
          vSent, vAck, vRecv := 0, 0, 0;
          state := RemoteEst;
          state := Abm;
        case DISC =>
          state := AssignedAdm;
        case UA =>
          if state == LocalEst { state := Abm; }
        case DM =>
          if state == LocalEst { state := AssignedAdm; }
        case UI =>
          if gph.seqTx < vuRecv {
            return false;
          }
          vuRecv := (gph.seqTx + 1) % 512;
          if (gph.seqTx + 1) / 512 != 0 {
            ocUiRecv := (ocUiRecv + 512) % WRAP;
          }
        case _ =>
      }
    }

    /** gprs_llc_rcvmsg for a frame of this entity's SAPI. */
    method RcvMsg(f: seq<byte>) returns (r: Result<Option<Hdr>>)
      requires Valid()
      requires Check(f).Accepted? ==> Check(f).hdr.sapi == sapi
      modifies this
      ensures Valid() && Tx() == old(Tx())
      ensures (Vars(), r) == Received(old(Vars()), f)
    {
      var v := Check(f);
      hide Check;
      AcceptedFacts(f);
      match v {
        case Refused(e) => r := Err(e);
        case Dropped => r := Ok(None);
        case Accepted(h) =>
          var ok := HdrRx(h);
          if !ok {
            return Err(EIO);
          }
          r := Ok(if h.data.Some? then Some(h) else None);
      }
    }
  }
}
