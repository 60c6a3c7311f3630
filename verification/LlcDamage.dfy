/** What becomes of a UI frame that is damaged on its way: when the receiver of gprs_llc.c still
    takes it. */
module LlcDamage {
  import opened Bytes
  import opened Wrappers
  import opened Crc24
  import opened FrameCheck
  import opened Llc

  /** How much of a frame without the protected mode bit its sequence covers. */
  const SHORT_LENGTH := UI_HDR_LEN + N202

  /** The first three octets are those of an unencrypted, unprotected UI frame of a usable SAPI,
      and there is more to it than the header and N202 octets. */
  predicate Unprotected(g: seq<byte>)
  {
    && |g| > SHORT_LENGTH + CRC24_LENGTH
    && g[0] & 0x80 == 0 && !ReservedSapi((g[0] & 0x0f) as nat)
    && g[1] & 0xe0 == 0xc0
    && g[2] & 0x02 == 0 && g[2] & 0x01 == 0
  }

  lemma ControlFormats(c: byte)
    requires c & 0xe0 == 0xc0
    ensures c & 0x80 != 0 && c & 0xc0 != 0x80
  {
  }

  /** The length that counts is all of the frame but for unprotected UI frames. */
  lemma CrcLengthIs(g: seq<byte>, h: Hdr)
    requires |g| < 0x1_0000 && ParseHdr(g) == Ok(h) && !h.isEncrypted
    ensures !Unprotected(g) ==> h.crcLength == |g| - CRC24_LENGTH
  {
    var sapi := (g[0] & 0x0f) as nat;
    var before := Hdr(sapi, g[0] & 0x40 == 0, false, false, 0, 0, ReadFcs(g), None, 0, |g| - CRC24_LENGTH, Null);
    FormatsKeep(before, g);
    UiLength(before, g);
    hide ReadFcs, ParseI, ParseS, ParseUi, ParseU, ReservedSapi;
  }

  /** Only the UI format changes the length that counts. */
  lemma FormatsKeep(h: Hdr, g: seq<byte>)
    requires |g| > CRC24_LENGTH
    ensures ParseI(h, g).Ok? ==> ParseI(h, g).value.crcLength == h.crcLength
    ensures ParseS(h, g).Ok? ==> ParseS(h, g).value.crcLength == h.crcLength
    ensures ParseU(h, g).Ok? ==> ParseU(h, g).value.crcLength == h.crcLength
  {
    hide NuOf, NsOf, SupervisoryCmd, UnnumberedCmd;
  }

  lemma UiLength(h: Hdr, g: seq<byte>)
    requires |g| > CRC24_LENGTH
    ensures ParseUi(h, g).isEncrypted <==> g[2] & 0x02 != 0
    ensures ParseUi(h, g).crcLength
         == if g[2] & 0x01 == 0 && h.crcLength > SHORT_LENGTH then SHORT_LENGTH else h.crcLength
  {
    hide NuOf;
  }

  lemma UnprotectedParses(g: seq<byte>)
    requires |g| < 0x1_0000 && Unprotected(g)
    ensures ParseHdr(g).Ok? && !ParseHdr(g).value.isEncrypted && ParseHdr(g).value.crcLength == SHORT_LENGTH
  {
    ControlFormats(g[1]);
    var sapi := (g[0] & 0x0f) as nat;
    UiLength(Hdr(sapi, g[0] & 0x40 == 0, false, false, 0, 0, ReadFcs(g), None, 0, |g| - CRC24_LENGTH, Null), g);
    hide ReadFcs, ReservedSapi, ParseI, ParseS, ParseUi, ParseU;
  }

  /** Which frames the receiver processes. */
  lemma AcceptedIf(g: seq<byte>)
    requires |g| < 0x1_0000
    ensures Unprotected(g) ==> (Check(g).Accepted? <==> FcsCovers(g, SHORT_LENGTH))
    ensures !Unprotected(g) && Check(g).Accepted? ==> FcsOk(g)
  {
    if Unprotected(g) {
      UnprotectedParses(g);
    } else if Check(g).Accepted? {
      CrcLengthIs(g, ParseHdr(g).value);
      CrcLengthBound(g);
    }
    hide ParseHdr, ReadFcs, Fcs, Unprotected;
  }

  lemma FrameSize(sapi: nat, command: bool, nu: nat, info: seq<byte>)
    requires sapi < 16 && nu < 512 && |info| <= N201U(sapi)
    ensures |UiFrame(sapi, command, nu, info)| == UI_HDR_LEN + |info| + CRC24_LENGTH < 0x1_0000
  {
    hide UiHeader, FcsBytes, Fcs;
  }

  /** A UI frame damaged within 24 consecutive bits is processed exactly if the damage makes it
      an unprotected one with more than N202 octets of information, and the sequence over header
      and N202 octets happens to match. */
  lemma DamagedUiIff(sapi: nat, command: bool, nu: nat, info: seq<byte>, g: seq<byte>, k: nat)
    requires sapi < 16 && !ReservedSapi(sapi) && nu < 512 && |info| <= N201U(sapi)
    requires Burst(UiFrame(sapi, command, nu, info), g, k)
    ensures |g| == UI_HDR_LEN + |info| + CRC24_LENGTH
    ensures Check(g).Accepted? <==> Unprotected(g) && ReadFcs(g) == Fcs(g[..SHORT_LENGTH])
  {
    SameLength(UiFrame(sapi, command, nu, info), g, k);
    hide *;
    FrameSize(sapi, command, nu, info);
    SentFcsOk(sapi, command, nu, info);
    BurstDetected(UiFrame(sapi, command, nu, info), g, k);
    AcceptedIf(g);
    CoversShort(g);
  }

  lemma SameLength(f: seq<byte>, g: seq<byte>, k: nat)
    requires Burst(f, g, k)
    ensures |f| == |g|
  {
  }

  lemma CoversShort(g: seq<byte>)
    ensures Unprotected(g) ==> |g| >= SHORT_LENGTH && (FcsCovers(g, SHORT_LENGTH) <==> ReadFcs(g) == Fcs(g[..SHORT_LENGTH]))
  {
  }

  /** So none is processed that has at most N202 octets of information, or whose protected mode
      bit survives. */
  lemma ProtectedDamageDetected(sapi: nat, command: bool, nu: nat, info: seq<byte>, g: seq<byte>, k: nat)
    requires sapi < 16 && !ReservedSapi(sapi) && nu < 512 && |info| <= N201U(sapi)
    requires Burst(UiFrame(sapi, command, nu, info), g, k)
    requires |info| <= N202 || g[2] & 0x01 != 0
    ensures !Check(g).Accepted?
  {
    DamagedUiIff(sapi, command, nu, info, g, k);
    hide Check, UiFrame, Burst, ReadFcs, Fcs;
  }

  // ---- one flipped bit that goes unnoticed ----

  const INFO: seq<byte> := [0, 0, 0, 0, 0xd2, 0x6d, 0x13]

  /** The header and information field of a frame of SAPI 1 with N(U) 0. */
  const BODY: seq<byte> := [0x01, 0xc0, 0x01, 0, 0, 0, 0, 0xd2, 0x6d, 0x13]

  /** The part of it that counts once the protected mode bit is lost. */
  const SHORT_BODY: seq<byte> := [0x01, 0xc0, 0x00, 0, 0, 0, 0]

  lemma BodySteps()
    ensures Step(0xffffff, 0x01) == 0x9bc5a4 && Step(0x9bc5a4, 0xc0) == 0x9c7ba7
    ensures Step(0x9c7ba7, 0x01) == 0x3cfba0 && Step(0x3cfba0, 0) == 0x7d9f62 && Step(0x7d9f62, 0) == 0xdd59bf
    ensures Step(0xdd59bf, 0) == 0xb60747 && Step(0xb60747, 0) == 0x6c9200 && Step(0x6c9200, 0xd2) == 0xc8f809
    ensures Step(0xc8f809, 0x6d) == 0x9c289a && Step(0x9c289a, 0x13) == 0x4fb712
  {
    StepFrom(0xffffff, 0x01);
    StepFrom(0x9bc5a4, 0xc0);
    StepFrom(0x9c7ba7, 0x01);
    StepFrom(0x3cfba0, 0);
    StepFrom(0x7d9f62, 0);
    StepFrom(0xdd59bf, 0);
    StepFrom(0xb60747, 0);
    StepFrom(0x6c9200, 0xd2);
    StepFrom(0xc8f809, 0x6d);
    StepFrom(0x9c289a, 0x13);
    hide Step;
  }

  lemma ShortSteps()
    ensures Step(0x9c7ba7, 0x00) == 0xea5cd6 && Step(0xea5cd6, 0) == 0x7fffd2 && Step(0x7fffd2, 0) == 0xc8eb64
    ensures Step(0xc8eb64, 0) == 0x9c2889 && Step(0x9c2889, 0) == 0x4fb712
  {
    StepFrom(0x9c7ba7, 0x00);
    StepFrom(0xea5cd6, 0);
    StepFrom(0x7fffd2, 0);
    StepFrom(0xc8eb64, 0);
    StepFrom(0x9c2889, 0);
    hide Step;
  }

  /** The CRC of a buffer whose registers on the way are known. */
  lemma {:induction false} CrcAlong(data: seq<byte>, registers: seq<bv32>)
    requires |registers| == |data| + 1
    requires forall i :: 0 <= i < |data| ==> registers[i + 1] == Step(registers[i], data[i])
    ensures Crc(registers[0], data) == registers[|data|]
    decreases data
  {
    hide Step;
    if data != [] {
      var d, r := data[1..], registers[1..];
      forall i | 0 <= i < |d| ensures r[i + 1] == Step(r[i], d[i]) {
        assert registers[i + 2] == Step(registers[i + 1], data[i + 1]);
      }
      CrcAlong(d, r);
      assert registers[0 + 1] == Step(registers[0], data[0]);
    }
  }

  /** Both bodies lead to the same register. */
  lemma SameRegister()
    ensures Crc(INIT_CRC24, BODY) == Crc(INIT_CRC24, SHORT_BODY)
  {
    hide Step, Crc;
    BodySteps();
    ShortSteps();
    CrcAlong(BODY, [0xffffff, 0x9bc5a4, 0x9c7ba7, 0x3cfba0, 0x7d9f62, 0xdd59bf, 0xb60747, 0x6c9200, 0xc8f809, 0x9c289a, 0x4fb712]);
    CrcAlong(SHORT_BODY, [0xffffff, 0x9bc5a4, 0x9c7ba7, 0xea5cd6, 0x7fffd2, 0xc8eb64, 0x9c2889, 0x4fb712]);
  }

  /** The frame on its way, and what is left of it once the lowest bit of its third octet is
      lost. */
  function Sent(): (f: seq<byte>)
    ensures |f| == 13
  {
    UiFrame(1, false, 0, INFO)
  }

  function Received(): (g: seq<byte>)
    ensures |g| == 13
  {
    Sent()[2 := 0x00]
  }

  lemma SentIs()
    ensures Sent() == BODY + FcsBytes(Fcs(BODY))
  {
    hide Fcs, FcsBytes;
    assert UiHeader(1, false, 0) + INFO == BODY;
  }

  /** One flipped bit makes the receiver check seven octets, and those match: it processes a
      frame that was not sent. */
  lemma OneBitUnnoticed()
    ensures Sent()[2] == 0x01 && Received() == Sent()[2 := 0x00]
    ensures Burst(Sent(), Received(), 16)
    ensures Check(Received()).Accepted? && Received() != Sent()
  {
    var f, g := Sent(), Received();
    OneBitLost(f, g);
    SentFcsOk(1, false, 0, INFO);
    hide *;
    SameRegister();
    ThreeBytesAreBurst(f, g, 2);
    MatchesShort(f, g);
    HeadUnprotected(g);
    AcceptedIf(g);
  }

  lemma OneBitLost(f: seq<byte>, g: seq<byte>)
    requires f == Sent() && g == Received()
    ensures |f| == |g| == 13 && f != g && f[10..] == g[10..] && f[..10] == BODY && g[..7] == SHORT_BODY
    ensures forall i :: 0 <= i < |f| && f[i] != g[i] ==> 2 <= i < 5
    ensures f[2] == 0x01 && g == f[2 := 0x00]
  {
    SentIs();
    hide UiFrame, FcsBytes, Fcs;
    assert f[..10] == BODY;
    assert f[2] == f[..10][2];
    assert g[..7] == f[..10][..7][2 := 0x00];
  }

  lemma MatchesShort(f: seq<byte>, g: seq<byte>)
    requires |f| == |g| == 13 && FcsOk(f) && f[10..] == g[10..]
    requires f[..10] == BODY && g[..7] == SHORT_BODY && Crc(INIT_CRC24, BODY) == Crc(INIT_CRC24, SHORT_BODY)
    ensures FcsCovers(g, SHORT_LENGTH)
  {
    TailFcs(f, f[10..]);
    TailFcs(g, g[10..]);
    SameFcs(BODY, SHORT_BODY);
    hide ReadFcs, Fcs;
  }

  lemma SameFcs(a: seq<byte>, b: seq<byte>)
    requires Crc(INIT_CRC24, a) == Crc(INIT_CRC24, b)
    ensures Fcs(a) == Fcs(b)
  {
    hide Crc, Low24, Complement;
  }

  lemma HeadUnprotected(g: seq<byte>)
    requires |g| == 13 && g[..7] == SHORT_BODY
    ensures Unprotected(g)
  {
    assert g[0] == g[..7][0] && g[1] == g[..7][1] && g[2] == g[..7][2];
  }
}
