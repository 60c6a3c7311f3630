/** LLC frames of gprs_llc.c without ciphering: how UI and U frames are built, and how a
    received frame is taken apart and checked. */
module Llc {
  import opened Bytes
  import opened Wrappers
  import opened FrameCheck

  const CRC24_LENGTH := 3
  const UI_HDR_LEN := 3
  const N202 := 4

  /** N201-U of the default parameters of a SAPI. */
  function N201U(sapi: nat): nat
  {
    match sapi
    case 1 => 400
    case 2 => 270
    case 3 => 500
    case 5 => 500
    case 7 => 270
    case 8 => 270
    case 9 => 500
    case 11 => 500
    case _ => 0
  }

  predicate ReservedSapi(sapi: nat)
  {
    sapi in {0, 4, 6, 0xa, 0xc, 0xd, 0xf}
  }

  // ---- building frames ----

  function Address(sapi: nat, command: bool): byte
    requires sapi < 16
  {
    (sapi as byte) | (if command then 0x40 else 0)
  }

  /** The two control bytes of a UI frame in protected mode. */
  function UiControl(nu: nat): (byte, byte)
    requires nu < 512
  {
    (Control0((nu / 64) as byte), Control1((nu % 64) as byte))
  }

  function Control0(high: byte): byte
  {
    0xc0 | high
  }

  function Control1(low: byte): byte
  {
    ((low << 2) & 0xfc) | 0x01
  }

  function UiHeader(sapi: nat, command: bool, nu: nat): (h: seq<byte>)
    requires sapi < 16 && nu < 512
    ensures |h| == UI_HDR_LEN
  {
    [Address(sapi, command), UiControl(nu).0, UiControl(nu).1]
  }

  /** A complete UI frame: header, information field and check sequence. */
  function UiFrame(sapi: nat, command: bool, nu: nat, info: seq<byte>): (f: seq<byte>)
    requires sapi < 16 && nu < 512
    ensures |f| == UI_HDR_LEN + |info| + CRC24_LENGTH
  {
    var body := UiHeader(sapi, command, nu) + info;
    body + FcsBytes(Fcs(body))
  }

  /** The control byte of a U frame. */
  function UControl(code: byte, pollFinal: bool): byte
  {
    0xe0 | code | (if pollFinal then 0x10 else 0)
  }

  /** gprs_llc_tx_u: a complete U frame. */
  function UFrame(sapi: nat, command: bool, code: byte, pollFinal: bool, info: seq<byte>): (f: seq<byte>)
    requires sapi < 16 && code <= 0x0f
    ensures |f| == 2 + |info| + CRC24_LENGTH
  {
    var body := [Address(sapi, command), UControl(code, pollFinal)] + info;
    body + FcsBytes(Fcs(body))
  }

  // ---- taking frames apart ----

  datatype Cmd = Null | RR | ACK | RNR | SACK | DM | DISC | UA | SABM | FRMR | XID | UI

  /** gprs_llc_hdr_parsed; data is an offset into the frame. */
  datatype Hdr = Hdr(sapi: nat, isCmd: bool, ackReq: bool, isEncrypted: bool, seqRx: nat, seqTx: nat,
                     fcs: bv32, data: Option<nat>, dataLen: nat, crcLength: nat, cmd: Cmd)

  /** The length of the data field as the source stores it, in sixteen bits. */
  function DataLen(len: nat, offset: nat): nat
  {
    (len - CRC24_LENGTH - offset) % 0x1_0000
  }

  /** A nine-bit sequence number: three bits of one byte above six of the next. */
  function NuOf(c0: byte, c1: byte): (n: nat)
    ensures n < 512
  {
    Below8((c0 & 0x07), (c1 >> 2));
    64 * ((c0 & 0x07) as nat) + (c1 >> 2) as nat
  }

  lemma Below8(high: byte, low: byte)
    requires high <= 7 && low <= 63
    ensures high as nat <= 7 && low as nat <= 63
  {
  }

  /** N(S) of an I frame: five bits above four. */
  function NsOf(c0: byte, c1: byte): (n: nat)
    ensures n < 512
  {
    Below32((c0 & 0x1f), (c1 >> 4));
    16 * ((c0 & 0x1f) as nat) + (c1 >> 4) as nat
  }

  lemma Below32(high: byte, low: byte)
    requires high <= 31 && low <= 15
    ensures high as nat <= 31 && low as nat <= 15
  {
  }

  function SupervisoryCmd(b: byte): Cmd
  {
    match b & 0x03
    case 0 => RR
    case 1 => ACK
    case 2 => RNR
    case _ => SACK
  }

  function UnnumberedCmd(b: byte): Option<Cmd>
  {
    match b & 0x0f
    case 0x00 => Some(Null)
    case 0x01 => Some(DM)
    case 0x04 => Some(DISC)
    case 0x06 => Some(UA)
    case 0x07 => Some(SABM)
    case 0x08 => Some(FRMR)
    case 0x0b => Some(XID)
    case _ => None
  }

  /** gprs_llc_hdr_parse on a structure that was cleared before. */
  function ParseHdr(f: seq<byte>): (r: Result<Hdr>)
  {
    var len := |f|;
    if len <= CRC24_LENGTH then Err(EIO)
    else if f[0] & 0x80 != 0 then Err(EIO)
    else
      var sapi := (f[0] & 0x0f) as nat;
      if ReservedSapi(sapi) then Err(EINVAL)
      else
        var h := Hdr(sapi, f[0] & 0x40 == 0, false, false, 0, 0, ReadFcs(f), None, 0,
                     (len - CRC24_LENGTH) % 0x1_0000, Null);
        if f[1] & 0x80 == 0 then ParseI(h, f)
        else if f[1] & 0xc0 == 0x80 then ParseS(h, f)
        else if f[1] & 0xe0 == 0xc0 then Ok(ParseUi(h, f))
        else ParseU(h, f)
  }

  /** I format. A SACK is refused once the rest has been read. */
  function ParseI(h: Hdr, f: seq<byte>): Result<Hdr>
    requires |f| > CRC24_LENGTH
  {
    var cmd := SupervisoryCmd(f[3]);
    if cmd == SACK then Err(EIO)
    else Ok(h.(ackReq := f[1] & 0x40 != 0,
               seqTx := NsOf(f[1], f[2]),
               seqRx := NuOf(f[2], f[3]),
               data := Some(4), dataLen := DataLen(|f|, 4), cmd := cmd))
  }

  /** S format. */
  function ParseS(h: Hdr, f: seq<byte>): Result<Hdr>
    requires |f| > CRC24_LENGTH
  {
    var cmd := SupervisoryCmd(f[2]);
    if cmd == SACK then Err(EIO)
    else Ok(h.(ackReq := f[1] & 0x20 != 0,
               seqRx := NuOf(f[1], f[2]),
               cmd := cmd))
  }

  /** UI format. Without the protected mode bit the sequence covers the header and at most
      N202 bytes. */
  function ParseUi(h: Hdr, f: seq<byte>): Hdr
    requires |f| > CRC24_LENGTH
  {
    h.(cmd := UI, data := Some(UI_HDR_LEN), dataLen := DataLen(|f|, UI_HDR_LEN),
       seqTx := NuOf(f[1], f[2]),
       isEncrypted := f[2] & 0x02 != 0,
       crcLength := if f[2] & 0x01 == 0 && h.crcLength > UI_HDR_LEN + N202 then UI_HDR_LEN + N202 else h.crcLength)
  }

  /** U format. */
  function ParseU(h: Hdr, f: seq<byte>): Result<Hdr>
    requires |f| > CRC24_LENGTH
  {
    match UnnumberedCmd(f[1])
    case None => Err(EIO)
    case Some(cmd) =>
      Ok(if cmd == XID then h.(cmd := cmd, data := Some(2), dataLen := DataLen(|f|, 2)) else h.(cmd := cmd))
  }

  // ---- the octets as numbers ----

  /** The address and control octets in the places TS 04.64 gives the fields. */
  lemma UiHeaderIs(sapi: nat, command: bool, nu: nat)
    requires sapi < 16 && nu < 512
    ensures var h := UiHeader(sapi, command, nu);
            && h[0] as nat == sapi + (if command then 0x40 else 0)
            && h[1] as nat == 0xc0 + nu / 64 && h[2] as nat == 4 * (nu % 64) + 1
  {
    AddressIs(sapi, command);
    Small(nu / 64);
    Small(nu % 64);
    hide Address, Control0, Control1;
    Control0Is((nu / 64) as byte);
    Control1Is((nu % 64) as byte);
  }

  lemma AddressIs(sapi: nat, command: bool)
    requires sapi < 16
    ensures Address(sapi, command) as nat == sapi + (if command then 0x40 else 0)
  {
  }

  lemma Control0Is(high: byte)
    requires high & 0xf8 == 0
    ensures Control0(high) as nat == 0xc0 + high as nat
  {
  }

  lemma Control1Is(low: byte)
    requires low & 0xc0 == 0
    ensures Control1(low) as nat == 4 * (low as nat) + 1
  {
  }

  lemma UControlIs(code: byte, pollFinal: bool)
    requires code <= 0x0f
    ensures UControl(code, pollFinal) as nat == 0xe0 + (if pollFinal then 0x10 else 0) + code as nat
  {
  }

  // ---- round trip ----

  lemma AddressBits(sapi: nat, command: bool)
    requires sapi < 16
    ensures var a := Address(sapi, command);
            a & 0x80 == 0 && (a & 0x40 != 0 <==> command) && (a & 0x0f) as nat == sapi
  {
  }

  lemma UiControlBits(nu: nat)
    requires nu < 512
    ensures var c := UiControl(nu);
            && c.0 & 0xe0 == 0xc0
            && c.0 & 0x80 != 0 && c.0 & 0xc0 != 0x80
            && c.1 & 0x01 != 0 && c.1 & 0x02 == 0
            && NuOf(c.0, c.1) == nu
  {
    Small(nu / 64);
    Small(nu % 64);
    hide Control0, Control1;
    ControlBits((nu / 64) as byte, (nu % 64) as byte);
  }

  lemma Small(x: nat)
    requires x < 64
    ensures (x as byte) as nat == x
    ensures (x as byte) & 0xc0 == 0 && (x < 8 ==> (x as byte) & 0xf8 == 0)
  {
  }

  lemma ControlBits(high: byte, low: byte)
    requires high & 0xf8 == 0 && low & 0xc0 == 0
    ensures var c0, c1 := Control0(high), Control1(low);
            && c0 & 0xe0 == 0xc0
            && c0 & 0x80 != 0 && c0 & 0xc0 != 0x80
            && c1 & 0x01 != 0 && c1 & 0x02 == 0
            && c0 & 0x07 == high && c1 >> 2 == low
  {
  }

  /** What the receiver makes of a UI frame: the SAPI, N(U) and information field it was
      built from, unencrypted, with a check sequence that covers all of it and matches. The
      command bit comes out inverted, as the parser expects frames from a mobile. */
  lemma UiRoundTrip(sapi: nat, command: bool, nu: nat, info: seq<byte>)
    requires sapi < 16 && !ReservedSapi(sapi) && nu < 512 && |info| <= N201U(sapi)
    ensures var f := UiFrame(sapi, command, nu, info);
            && ParseHdr(f) == Ok(Hdr(sapi, !command, false, false, 0, nu, ReadFcs(f), Some(UI_HDR_LEN), |info|,
                                     UI_HDR_LEN + |info|, UI))
            && f[UI_HDR_LEN..UI_HDR_LEN + |info|] == info
            && FcsCovers(f, UI_HDR_LEN + |info|)
  {
    var head := UiHeader(sapi, command, nu);
    var body := head + info;
    var f := UiFrame(sapi, command, nu, info);
    AddressBits(sapi, command);
    UiControlBits(nu);
    hide Fcs, FcsBytes, Address, UiControl, NuOf, ReadFcs;
    AppendedFcsOk(body);
    assert f[0] == head[0] && f[1] == head[1] && f[2] == head[2];
    assert f[UI_HDR_LEN..UI_HDR_LEN + |info|] == info;
  }

  lemma UControlBits(code: byte, pollFinal: bool)
    requires code <= 0x0f
    ensures var c := UControl(code, pollFinal);
            && c & 0x80 != 0 && c & 0xc0 != 0x80 && c & 0xe0 != 0xc0
            && c & 0x0f == code
  {
  }

  /** The codes of the U commands that are known, as gprs_llc.h lists them. */
  const U_CODES: map<int, Cmd> :=
    map[0x01 := DM, 0x04 := DISC, 0x06 := UA, 0x07 := SABM, 0x08 := FRMR, 0x0b := XID, 0x00 := Null]

  /** What the receiver makes of a U frame: the command its code stands for, with an
      information field only for XID, and a sequence that covers all of it; an unknown code is
      refused. */
  lemma URoundTrip(sapi: nat, command: bool, code: byte, pollFinal: bool, info: seq<byte>)
    requires sapi < 16 && !ReservedSapi(sapi) && code <= 0x0f && |info| < 0x1_0000 - 2
    ensures var f := UFrame(sapi, command, code, pollFinal, info);
            && FcsCovers(f, 2 + |info|)
            && ParseHdr(f) == if code as int !in U_CODES then Err(EIO) else
                                var h := Hdr(sapi, !command, false, false, 0, 0, ReadFcs(f), None, 0, 2 + |info|,
                                             U_CODES[code as int]);
                                Ok(if code == 0x0b then h.(data := Some(2), dataLen := |info|) else h)
    ensures UFrame(sapi, command, code, pollFinal, info)[2..2 + |info|] == info
  {
    var head := [Address(sapi, command), UControl(code, pollFinal)];
    var body := head + info;
    var f := UFrame(sapi, command, code, pollFinal, info);
    AddressBits(sapi, command);
    UControlBits(code, pollFinal);
    hide Fcs, FcsBytes, Address, UControl, UnnumberedCmd, ReadFcs, ParseI, ParseS, ParseUi;
    AppendedFcsOk(body);
    assert f[0] == head[0] && f[1] == head[1];
    KnownCode(f[1], code);
    assert f[2..2 + |info|] == info;
  }

  /** Only the four lower bits name the command. */
  lemma KnownCode(b: byte, code: byte)
    requires code <= 0x0f && b & 0x0f == code
    ensures UnnumberedCmd(b) == if code as int in U_CODES then Some(U_CODES[code as int]) else None
    ensures code as int in U_CODES ==> (U_CODES[code as int] == XID <==> code == 0x0b)
  {
  }

  // ---- the formats of the acknowledged mode ----

  /** The control bytes of an I frame: the acknowledgement bit, N(S) in five and four bits, N(R) in
      three and six, and the supervisory code. */
  function IControl(ackReq: bool, ns: nat, nr: nat, code: byte): (byte, byte, byte)
    requires ns < 512 && nr < 512
  {
    (WithFlag(0x40, ackReq, (ns / 16) as byte), Upper4((ns % 16) as byte, (nr / 64) as byte),
     Upper6((nr % 64) as byte, code))
  }

  /** The control bytes of an S frame. */
  function SControl(ackReq: bool, nr: nat, code: byte): (byte, byte)
    requires nr < 512
  {
    (0x80 | WithFlag(0x20, ackReq, (nr / 64) as byte), Upper6((nr % 64) as byte, code))
  }

  function WithFlag(mask: byte, flag: bool, low: byte): byte
  {
    (if flag then mask else 0) | low
  }

  function Upper4(high: byte, low: byte): byte
  {
    (high << 4) | low
  }

  function Upper6(high: byte, low: byte): byte
  {
    (high << 2) | low
  }

  /** A complete frame with these control bytes. */
  function FrameOf(sapi: nat, command: bool, control: seq<byte>, info: seq<byte>): (f: seq<byte>)
    requires sapi < 16
    ensures |f| == 1 + |control| + |info| + CRC24_LENGTH
  {
    var body := [Address(sapi, command)] + control + info;
    body + FcsBytes(Fcs(body))
  }

  /** The supervisory codes; a SACK is not supported. */
  const S_CODES: map<int, Cmd> := map[0 := RR, 1 := ACK, 2 := RNR]

  lemma IControlBits(ackReq: bool, ns: nat, nr: nat, code: byte)
    requires ns < 512 && nr < 512 && code <= 3
    ensures var c := IControl(ackReq, ns, nr, code);
            && c.0 & 0x80 == 0 && (c.0 & 0x40 != 0 <==> ackReq)
            && NsOf(c.0, c.1) == ns && NuOf(c.1, c.2) == nr && c.2 & 0x03 == code
  {
    Small(ns / 16);
    Small(ns % 16);
    Small(nr / 64);
    Small(nr % 64);
    hide WithFlag, Upper4, Upper6;
    Below5((ns / 16) as byte, ns / 16);
    Below4((ns % 16) as byte, ns % 16);
    IBits(ackReq, (ns / 16) as byte, (ns % 16) as byte, (nr / 64) as byte, (nr % 64) as byte, code);
  }

  lemma Below5(b: byte, x: nat)
    requires b as nat == x < 32
    ensures b & 0xe0 == 0
  {
  }

  lemma Below4(b: byte, x: nat)
    requires b as nat == x < 16
    ensures b & 0xf0 == 0
  {
  }

  lemma IBits(ackReq: bool, nsHigh: byte, nsLow: byte, nrHigh: byte, nrLow: byte, code: byte)
    requires nsHigh & 0xe0 == 0 && nsLow & 0xf0 == 0 && nrHigh & 0xf8 == 0 && nrLow & 0xc0 == 0 && code <= 3
    ensures var c0, c1, c2 := WithFlag(0x40, ackReq, nsHigh), Upper4(nsLow, nrHigh), Upper6(nrLow, code);
            && c0 & 0x80 == 0 && (c0 & 0x40 != 0 <==> ackReq) && c0 & 0x1f == nsHigh
            && c1 >> 4 == nsLow && c1 & 0x07 == nrHigh && c2 >> 2 == nrLow && c2 & 0x03 == code
  {
  }

  lemma SControlBits(ackReq: bool, nr: nat, code: byte)
    requires nr < 512 && code <= 3
    ensures var c := SControl(ackReq, nr, code);
            && c.0 & 0x80 != 0 && c.0 & 0xc0 == 0x80 && (c.0 & 0x20 != 0 <==> ackReq)
            && NuOf(c.0, c.1) == nr && c.1 & 0x03 == code
  {
    Small(nr / 64);
    Small(nr % 64);
    hide WithFlag, Upper6;
    SBits(ackReq, (nr / 64) as byte, (nr % 64) as byte, code);
  }

  lemma SBits(ackReq: bool, nrHigh: byte, nrLow: byte, code: byte)
    requires nrHigh & 0xf8 == 0 && nrLow & 0xc0 == 0 && code <= 3
    ensures var c0, c1 := 0x80 | WithFlag(0x20, ackReq, nrHigh), Upper6(nrLow, code);
            && c0 & 0x80 != 0 && c0 & 0xc0 == 0x80 && (c0 & 0x20 != 0 <==> ackReq) && c0 & 0x07 == nrHigh
            && c1 >> 2 == nrLow && c1 & 0x03 == code
  {
  }

  lemma SupervisoryCode(b: byte, code: byte)
    requires code <= 3 && b & 0x03 == code
    ensures SupervisoryCmd(b) == if code as int in S_CODES then S_CODES[code as int] else SACK
  {
  }

  /** The octets of such a frame, and that its sequence covers all before it. */
  lemma FrameParts(sapi: nat, command: bool, control: seq<byte>, info: seq<byte>)
    requires sapi < 16
    ensures var f, n := FrameOf(sapi, command, control, info), 1 + |control|;
            && f[0] == Address(sapi, command)
            && (forall i :: 0 <= i < |control| ==> f[i + 1] == control[i])
            && f[n..n + |info|] == info && FcsCovers(f, n + |info|)
  {
    var head := [Address(sapi, command)] + control;
    var f, n := FrameOf(sapi, command, control, info), 1 + |control|;
    hide Fcs, FcsBytes, Address, ReadFcs;
    AppendedFcsOk(head + info);
    assert forall i :: 0 <= i < n ==> f[i] == head[i];
    assert f[n..n + |info|] == info;
  }

  /** What the receiver makes of an I frame: its numbers, acknowledgement bit, supervisory command
      and information field, and a sequence that covers all of it; a SACK is refused. */
  lemma IRoundTrip(sapi: nat, command: bool, ackReq: bool, ns: nat, nr: nat, code: byte, info: seq<byte>)
    requires sapi < 16 && !ReservedSapi(sapi) && ns < 512 && nr < 512 && code <= 3 && |info| < 0x1_0000 - 4
    ensures var c := IControl(ackReq, ns, nr, code);
            var f := FrameOf(sapi, command, [c.0, c.1, c.2], info);
            && FcsCovers(f, 4 + |info|) && f[4..4 + |info|] == info
            && ParseHdr(f) == if code as int !in S_CODES then Err(EIO) else
                                Ok(Hdr(sapi, !command, ackReq, false, nr, ns, ReadFcs(f), Some(4), |info|, 4 + |info|,
                                       S_CODES[code as int]))
  {
    var c := IControl(ackReq, ns, nr, code);
    var control := [c.0, c.1, c.2];
    var f := FrameOf(sapi, command, control, info);
    AddressBits(sapi, command);
    IControlBits(ackReq, ns, nr, code);
    SupervisoryCode(c.2, code);
    FrameParts(sapi, command, control, info);
    hide FrameOf, Fcs, FcsCovers, Address, IControl, NsOf, NuOf, SupervisoryCmd, ReadFcs, ParseS, ParseUi, ParseU;
    assert f[1] == control[0] && f[2] == control[1] && f[3] == control[2];
  }

  /** The same for an S frame, which has no information field. */
  lemma SRoundTrip(sapi: nat, command: bool, ackReq: bool, nr: nat, code: byte)
    requires sapi < 16 && !ReservedSapi(sapi) && nr < 512 && code <= 3
    ensures var c := SControl(ackReq, nr, code);
            var f := FrameOf(sapi, command, [c.0, c.1], []);
            && FcsCovers(f, 3)
            && ParseHdr(f) == if code as int !in S_CODES then Err(EIO) else
                                Ok(Hdr(sapi, !command, ackReq, false, nr, 0, ReadFcs(f), None, 0, 3, S_CODES[code as int]))
  {
    var c := SControl(ackReq, nr, code);
    var control := [c.0, c.1];
    var f := FrameOf(sapi, command, control, []);
    AddressBits(sapi, command);
    SControlBits(ackReq, nr, code);
    SupervisoryCode(c.1, code);
    FrameParts(sapi, command, control, []);
    hide FrameOf, Fcs, FcsCovers, Address, SControl, NuOf, SupervisoryCmd, ReadFcs, ParseI, ParseUi, ParseU;
    assert f[1] == control[0] && f[2] == control[1];
  }

  /** Which frames are refused for their SAPI: exactly those with one of the seven reserved ones, if
      they are longer than a check sequence and of this protocol. */
  lemma ReservedRefused(f: seq<byte>)
    ensures ParseHdr(f) == Err(EINVAL)
       <==> |f| > 3 && f[0] & 0x80 == 0 && f[0] & 0x0f in {0x00, 0x04, 0x06, 0x0a, 0x0c, 0x0d, 0x0f}
    ensures |f| <= 3 || f[0] & 0x80 != 0 ==> ParseHdr(f) == Err(EIO)
  {
    if |f| > 3 {
      ReservedIs(f[0]);
    }
    hide ReadFcs, SupervisoryCmd, UnnumberedCmd, NuOf, NsOf, ReservedSapi;
  }

  lemma ReservedIs(b: byte)
    ensures ReservedSapi((b & 0x0f) as nat) <==> b & 0x0f in {0x00, 0x04, 0x06, 0x0a, 0x0c, 0x0d, 0x0f}
  {
  }

  // ---- receiving ----

  /** What gprs_llc_rcvmsg decides about a frame before any state is touched: refuse it,
      drop it silently because it claims to be encrypted, or process it. */
  datatype Verdict = Refused(error: Error) | Dropped | Accepted(hdr: Hdr)

  function Check(f: seq<byte>): Verdict
  {
    match ParseHdr(f)
    case Err(e) => Refused(e)
    case Ok(h) =>
      if h.isEncrypted then Dropped
      else if h.crcLength <= |f| && 3 <= |f| && FcsCovers(f, h.crcLength) then Accepted(h)
      else Refused(EIO)
  }

  /** A UI frame sent without damage is processed. */
  lemma UiAccepted(sapi: nat, command: bool, nu: nat, info: seq<byte>)
    requires sapi < 16 && !ReservedSapi(sapi) && nu < 512 && |info| <= N201U(sapi)
    ensures var v := Check(UiFrame(sapi, command, nu, info));
            v.Accepted? && v.hdr.cmd == UI && v.hdr.sapi == sapi && v.hdr.seqTx == nu
  {
    UiRoundTrip(sapi, command, nu, info);
    hide UiFrame, ParseHdr, FcsCovers, ReadFcs;
  }

  lemma SentFcsOk(sapi: nat, command: bool, nu: nat, info: seq<byte>)
    requires sapi < 16 && nu < 512
    ensures FcsOk(UiFrame(sapi, command, nu, info))
  {
    AppendedFcsOk(UiHeader(sapi, command, nu) + info);
  }

  /** A frame is processed only if its sequence matches over the length that counts. */
  lemma AcceptedMatches(g: seq<byte>)
    ensures Check(g).Accepted? ==>
              var n := Check(g).hdr.crcLength;
              |g| > CRC24_LENGTH && n <= |g| - CRC24_LENGTH && (n == |g| - CRC24_LENGTH ==> FcsOk(g))
  {
    hide ParseHdr, ReadFcs, Fcs;
    if ParseHdr(g).Ok? {
      CrcLengthBound(g);
    }
  }

  /** What processing an accepted frame relies on. */
  lemma AcceptedFacts(f: seq<byte>)
    ensures Check(f).Accepted? ==> Check(f).hdr.seqTx < 512
    ensures Check(f).Accepted? && Check(f).hdr.cmd == UI ==> Check(f).hdr.data.Some?
  {
    if |f| > CRC24_LENGTH {
      FormatFacts(Hdr((f[0] & 0x0f) as nat, f[0] & 0x40 == 0, false, false, 0, 0, ReadFcs(f), None, 0,
                      (|f| - CRC24_LENGTH) % 0x1_0000, Null), f);
    }
    hide ReadFcs, Fcs, FcsCovers, ParseI, ParseS, ParseUi, ParseU, ReservedSapi;
  }

  lemma FormatFacts(h: Hdr, f: seq<byte>)
    requires |f| > CRC24_LENGTH && h.seqTx == 0
    ensures ParseI(h, f).Ok? ==> ParseI(h, f).value.seqTx < 512 && ParseI(h, f).value.cmd != UI
    ensures ParseS(h, f).Ok? ==> ParseS(h, f).value.seqTx < 512 && ParseS(h, f).value.cmd != UI
    ensures ParseU(h, f).Ok? ==> ParseU(h, f).value.seqTx < 512 && ParseU(h, f).value.cmd != UI
    ensures ParseUi(h, f).seqTx < 512 && ParseUi(h, f).data.Some?
  {
    hide NuOf, NsOf, ReadFcs;
  }

  lemma CrcLengthBound(f: seq<byte>)
    requires ParseHdr(f).Ok?
    ensures |f| > CRC24_LENGTH && ParseHdr(f).value.crcLength <= |f| - CRC24_LENGTH
  {
    hide ReadFcs, NuOf, SupervisoryCmd, UnnumberedCmd;
  }
}
