/** SN-UNITDATA PDUs of gprs_sndcp.c: their octets, and how an N-PDU is cut into fragments. */
module SndcpPdu {
  import opened Bytes

  /** The sizes of the three header parts. */
  const COMMON_HDR := 1
  const COMP_HDR := 1
  const UDATA_HDR := 2

  datatype SnPdu = SnPdu(nsapi: nat, more: bool, first: bool, npdu: nat, seg: nat, data: seq<byte>)

  predicate InFields(p: SnPdu)
  {
    p.nsapi < 16 && p.npdu < 0x1000 && p.seg < 16
  }

  function HeaderLen(first: bool): nat
  {
    if first then COMMON_HDR + COMP_HDR + UDATA_HDR else COMMON_HDR + UDATA_HDR
  }

  /** An octet from its upper and lower four bits. */
  function Octet(upper: nat, lower: nat): byte
    requires upper < 16 && lower < 16
  {
    Joined(upper as byte, lower as byte)
  }

  function Joined(upper: byte, lower: byte): byte
  {
    (upper << 4) | lower
  }

  function Upper(b: byte): (n: nat)
    ensures n < 16
  {
    NibbleBound(b >> 4);
    (b >> 4) as nat
  }

  function Lower(b: byte): (n: nat)
    ensures n < 16
  {
    NibbleBound(b & 0x0f);
    (b & 0x0f) as nat
  }

  lemma NibbleBound(b: byte)
    requires b <= 0x0f
    ensures (b as nat) < 16
  {
  }

  lemma NibbleKeeps(x: nat)
    requires x < 16
    ensures (x as byte) as nat == x && (x as byte) <= 0x0f
  {
  }

  lemma JoinedParts(upper: byte, lower: byte)
    requires upper <= 0x0f && lower <= 0x0f
    ensures Joined(upper, lower) >> 4 == upper && Joined(upper, lower) & 0x0f == lower
  {
  }

  lemma OctetParts(upper: nat, lower: nat)
    requires upper < 16 && lower < 16
    ensures Upper(Octet(upper, lower)) == upper && Lower(Octet(upper, lower)) == lower
  {
    NibbleKeeps(upper);
    NibbleKeeps(lower);
    hide Joined;
    JoinedParts(upper as byte, lower as byte);
  }

  function Flag(b: bool): nat
  {
    if b then 1 else 0
  }

  /** Octet 1: NSAPI in the lower half; more, type, first and spare above it. The type bit
      says SN-UNITDATA. */
  function CommonOctet(p: SnPdu): byte
    requires InFields(p)
  {
    Octet(Flag(p.more) + 2 + 4 * Flag(p.first), p.nsapi)
  }

  /** The octets of a PDU. Only a first one carries the (zero) compression octet. */
  function Build(p: SnPdu): (f: seq<byte>)
    requires InFields(p)
    ensures |f| == HeaderLen(p.first) + |p.data|
  {
    [CommonOctet(p)] + (if p.first then [0] else [])
    + [Octet(p.seg, p.npdu / 256), Octet(p.npdu % 256 / 16, p.npdu % 16)] + p.data
  }

  predicate IsMore(f: seq<byte>)
    requires f != []
  {
    Upper(f[0]) % 2 == 1
  }

  predicate IsUnitdata(f: seq<byte>)
    requires f != []
  {
    Upper(f[0]) / 2 % 2 == 1
  }

  predicate IsFirst(f: seq<byte>)
    requires f != []
  {
    Upper(f[0]) / 4 % 2 == 1
  }

  /** The octets hold a complete header. */
  predicate HasHeader(f: seq<byte>)
  {
    f != [] && |f| >= HeaderLen(IsFirst(f))
  }

  /** How the receiver reads a PDU. */
  function Read(f: seq<byte>): (p: SnPdu)
    requires HasHeader(f)
    ensures InFields(p)
  {
    var h := HeaderLen(IsFirst(f));
    SnPdu(Lower(f[0]), IsMore(f), IsFirst(f),
          256 * Lower(f[h - 2]) + 16 * Upper(f[h - 1]) + Lower(f[h - 1]), Upper(f[h - 2]), f[h..])
  }

  /** Reading what was built gives back every field. */
  lemma ReadBuild(p: SnPdu)
    requires InFields(p)
    ensures HasHeader(Build(p)) && IsUnitdata(Build(p)) && Read(Build(p)) == p
  {
    Places(p);
    hide Octet, Upper, Lower, Build;
    OctetParts(Flag(p.more) + 2 + 4 * Flag(p.first), p.nsapi);
    OctetParts(p.seg, p.npdu / 256);
    OctetParts(p.npdu % 256 / 16, p.npdu % 16);
    NpduParts(p.npdu);
  }

  lemma NpduParts(npdu: nat)
    ensures 256 * (npdu / 256) + 16 * (npdu % 256 / 16) + npdu % 16 == npdu
  {
  }

  lemma Places(p: SnPdu)
    requires InFields(p)
    ensures var f, h := Build(p), HeaderLen(p.first);
            && |f| >= h && f[0] == CommonOctet(p) && (p.first ==> f[1] == 0)
            && f[h - 2] == Octet(p.seg, p.npdu / 256) && f[h - 1] == Octet(p.npdu % 256 / 16, p.npdu % 16)
            && f[h..] == p.data
  {
    hide Octet;
  }

  /** The octets of a PDU as numbers, in the places TS 04.65 gives the fields: the more, type and
      first bits above the NSAPI, and the segment number above the twelve bits of the N-PDU
      number. */
  lemma OctetsAre(p: SnPdu)
    requires InFields(p)
    ensures var f, h := Build(p), HeaderLen(p.first);
            && f[0] as nat == 0x10 * Flag(p.more) + 0x20 + 0x40 * Flag(p.first) + p.nsapi
            && (p.first ==> f[1] == 0)
            && 0x100 * (f[h - 2] as nat) + f[h - 1] as nat == 0x1000 * p.seg + p.npdu
            && f[h..] == p.data
  {
    hide Build, Octet, CommonOctet;
    Places(p);
    CommonOctetIs(p);
    NumberOctets(p.seg, p.npdu);
  }

  lemma CommonOctetIs(p: SnPdu)
    requires InFields(p)
    ensures CommonOctet(p) as nat == 0x10 * Flag(p.more) + 0x20 + 0x40 * Flag(p.first) + p.nsapi
  {
    OctetIs(Flag(p.more) + 2 + 4 * Flag(p.first), p.nsapi);
    hide Octet;
  }

  lemma NumberOctets(seg: nat, npdu: nat)
    requires seg < 16 && npdu < 0x1000
    ensures 0x100 * (Octet(seg, npdu / 256) as nat) + Octet(npdu % 256 / 16, npdu % 16) as nat == 0x1000 * seg + npdu
  {
    hide *;
    var high, middle, low := npdu / 256, npdu % 256 / 16, npdu % 16;
    assert npdu == 256 * high + 16 * middle + low;
    OctetIs(seg, high);
    OctetIs(middle, low);
  }

  lemma OctetIs(upper: nat, lower: nat)
    requires upper < 16 && lower < 16
    ensures Octet(upper, lower) as nat == 16 * upper + lower
  {
    NibbleKeeps(upper);
    NibbleKeeps(lower);
    hide Joined;
    JoinedIs(upper as byte, lower as byte);
  }

  lemma JoinedIs(upper: byte, lower: byte)
    requires upper <= 0x0f && lower <= 0x0f
    ensures Joined(upper, lower) as nat == 16 * (upper as nat) + lower as nat
  {
  }

  // ---- fragmentation ----

  /** What one fragment can carry. */
  function Room(n201u: nat, first: bool): (r: nat)
    requires n201u > 4
    ensures r >= 1 && r + HeaderLen(first) == n201u
  {
    n201u - HeaderLen(first)
  }

  /** The length of fragment number fragNr when left octets are left to send. */
  function FragmentLen(left: nat, n201u: nat, fragNr: nat): (len: nat)
    requires n201u > 4
    ensures len <= left && (left > 0 ==> len >= 1)
    ensures HeaderLen(fragNr == 0) + len <= n201u
    ensures len < left ==> HeaderLen(fragNr == 0) + len == n201u
  {
    if left > Room(n201u, fragNr == 0) then Room(n201u, fragNr == 0) else left
  }

  /** Fragment number fragNr, when the octets from off on are left to send. */
  function Fragment(msg: seq<byte>, nsapi: nat, npdu: nat, n201u: nat, fragNr: nat, off: nat): SnPdu
    requires n201u > 4 && off <= |msg|
  {
    var len := FragmentLen(|msg| - off, n201u, fragNr);
    SnPdu(nsapi, off + len < |msg|, fragNr == 0, npdu, fragNr % 15, msg[off..off + len])
  }

  /** The fragments of msg from offset off on, when the next one is number fragNr. The
      fragment number is an 8-bit counter. */
  function Fragments(msg: seq<byte>, nsapi: nat, npdu: nat, n201u: nat, fragNr: nat, off: nat): (r: seq<SnPdu>)
    requires n201u > 4 && off <= |msg|
    ensures r != []
    decreases |msg| - off
  {
    var len := FragmentLen(|msg| - off, n201u, fragNr);
    [Fragment(msg, nsapi, npdu, n201u, fragNr, off)]
    + (if off + len < |msg| then Fragments(msg, nsapi, npdu, n201u, (fragNr + 1) % 256, off + len) else [])
  }

  function Concat(ps: seq<SnPdu>): seq<byte>
    decreases ps
  {
    if ps == [] then [] else ps[0].data + Concat(ps[1..])
  }

  /** The first fragment and the ones after it. */
  lemma Cut(msg: seq<byte>, nsapi: nat, npdu: nat, n201u: nat, fragNr: nat, off: nat)
    returns (head: SnPdu, rest: seq<SnPdu>, next: nat)
    requires n201u > 4 && off <= |msg|
    ensures Fragments(msg, nsapi, npdu, n201u, fragNr, off) == [head] + rest
    ensures head == Fragment(msg, nsapi, npdu, n201u, fragNr, off)
    ensures off <= next <= |msg| && head.data == msg[off..next] && head.more == (next < |msg|)
    ensures next == off + FragmentLen(|msg| - off, n201u, fragNr)
    ensures off < |msg| ==> off < next
    ensures HeaderLen(fragNr == 0) + (next - off) <= n201u
    ensures next < |msg| ==> HeaderLen(fragNr == 0) + (next - off) == n201u
    ensures next < |msg| ==> rest == Fragments(msg, nsapi, npdu, n201u, (fragNr + 1) % 256, next)
    ensures next == |msg| ==> rest == []
  {
    hide FragmentLen;
    head := Fragment(msg, nsapi, npdu, n201u, fragNr, off);
    next := off + FragmentLen(|msg| - off, n201u, fragNr);
    rest := if next < |msg| then Fragments(msg, nsapi, npdu, n201u, (fragNr + 1) % 256, next) else [];
  }

  lemma ConcatCons(p: SnPdu, ps: seq<SnPdu>)
    ensures Concat([p] + ps) == p.data + Concat(ps)
    ensures Concat([]) == []
  {
    assert ([p] + ps)[1..] == ps;
  }

  /** Nothing is lost or reordered: the fragments' data put together is the message. */
  lemma {:induction false} FragmentsCover(msg: seq<byte>, nsapi: nat, npdu: nat, n201u: nat, fragNr: nat, off: nat)
    requires n201u > 4 && off <= |msg|
    ensures Concat(Fragments(msg, nsapi, npdu, n201u, fragNr, off)) == msg[off..]
    decreases |msg| - off
  {
    hide *;
    var head, rest, next := Cut(msg, nsapi, npdu, n201u, fragNr, off);
    ConcatCons(head, rest);
    assert msg[off..] == msg[off..next] + msg[next..];
    if next < |msg| && off < next {
      FragmentsCover(msg, nsapi, npdu, n201u, (fragNr + 1) % 256, next);
    }
  }

  /** Fragment i of a run that starts with number fragNr: it has something to carry, fits
      the link's limit, is numbered in turn, and has its more flag set unless it is the last
      of n. */
  predicate IsFragment(p: SnPdu, nsapi: nat, npdu: nat, n201u: nat, number: nat, last: bool)
  {
    && InFields(p) && |p.data| >= 1 && HeaderLen(p.first) + |p.data| <= n201u
    && p.nsapi == nsapi && p.npdu == npdu
    && p.seg == number % 256 % 15 && (p.first <==> number % 256 == 0) && (p.more <==> !last)
  }

  lemma {:induction false} FragmentFields(msg: seq<byte>, nsapi: nat, npdu: nat, n201u: nat, fragNr: nat, off: nat, i: nat)
    requires n201u > 4 && off < |msg| && nsapi < 16 && npdu < 0x1000 && fragNr < 256
    requires i < |Fragments(msg, nsapi, npdu, n201u, fragNr, off)|
    ensures var r := Fragments(msg, nsapi, npdu, n201u, fragNr, off);
            IsFragment(r[i], nsapi, npdu, n201u, fragNr + i, i == |r| - 1)
    decreases |msg| - off
  {
    hide *;
    var head, rest, next := Cut(msg, nsapi, npdu, n201u, fragNr, off);
    if i == 0 {
      HeadFields(msg, nsapi, npdu, n201u, fragNr, off, next);
    } else {
      FragmentFields(msg, nsapi, npdu, n201u, (fragNr + 1) % 256, next, i - 1);
      SameNumber(fragNr, i);
      SameFragment(rest[i - 1], nsapi, npdu, n201u, (fragNr + 1) % 256 + (i - 1), fragNr + i, i == |rest|);
    }
  }

  lemma HeadFields(msg: seq<byte>, nsapi: nat, npdu: nat, n201u: nat, fragNr: nat, off: nat, next: nat)
    requires n201u > 4 && off < next <= |msg| && nsapi < 16 && npdu < 0x1000 && fragNr < 256
    requires Fragment(msg, nsapi, npdu, n201u, fragNr, off).data == msg[off..next]
    ensures IsFragment(Fragment(msg, nsapi, npdu, n201u, fragNr, off), nsapi, npdu, n201u, fragNr, next == |msg|)
  {
    hide FragmentLen;
    assert |Fragment(msg, nsapi, npdu, n201u, fragNr, off).data| == next - off;
  }

  lemma SameFragment(p: SnPdu, nsapi: nat, npdu: nat, n201u: nat, a: nat, b: nat, last: bool)
    requires a % 256 == b % 256 && IsFragment(p, nsapi, npdu, n201u, a, last)
    ensures IsFragment(p, nsapi, npdu, n201u, b, last)
  {
  }

  lemma SameNumber(fragNr: nat, i: nat)
    requires fragNr < 256 && i > 0
    ensures ((fragNr + 1) % 256 + (i - 1)) % 256 == (fragNr + i) % 256
  {
  }

  /** What n fragments of room octets each hold together. */
  function Capacity(n: nat, room: nat): nat
  {
    if n == 0 then 0 else Capacity(n - 1, room) + room
  }

  lemma {:induction false} CapacityIs(n: nat, room: nat)
    ensures Capacity(n, room) == n * room
  {
    if n > 0 {
      CapacityIs(n - 1, room);
      assert n * room == (n - 1) * room + room;
    }
  }

  /** Fragments after the first are as many as it takes to hold the rest. */
  lemma {:induction false} LaterCount(msg: seq<byte>, nsapi: nat, npdu: nat, n201u: nat, fragNr: nat, off: nat, n: nat)
    requires n201u > 4 && off < |msg| && 0 < fragNr && fragNr + n <= 256
    ensures |Fragments(msg, nsapi, npdu, n201u, fragNr, off)| <= n <==> |msg| - off <= Capacity(n, n201u - 3)
    decreases n
  {
    hide Fragments, Fragment, FragmentLen;
    var head, rest, next := Cut(msg, nsapi, npdu, n201u, fragNr, off);
    if n > 1 && next < |msg| {
      LaterCount(msg, nsapi, npdu, n201u, fragNr + 1, next, n - 1);
    }
  }

  /** How long a message may be to need at most n fragments. */
  lemma FragmentCount(msg: seq<byte>, nsapi: nat, npdu: nat, n201u: nat, n: nat)
    requires n201u > 4 && msg != [] && 0 < n <= 256
    ensures |Fragments(msg, nsapi, npdu, n201u, 0, 0)| <= n <==> |msg| < Capacity(n, n201u - 3)
  {
    hide Fragments, Fragment, FragmentLen;
    var head, rest, next := Cut(msg, nsapi, npdu, n201u, 0, 0);
    if next < |msg| {
      if n > 1 {
        LaterCount(msg, nsapi, npdu, n201u, 1, next, n - 1);
      }
    }
  }

  lemma FifteenFragments(msg: seq<byte>, nsapi: nat, npdu: nat, n201u: nat)
    requires n201u > 4 && msg != []
    ensures |Fragments(msg, nsapi, npdu, n201u, 0, 0)| <= 15 <==> |msg| < 15 * (n201u - 3)
  {
    hide *;
    FragmentCount(msg, nsapi, npdu, n201u, 15);
    CapacityIs(15, n201u - 3);
  }
}
