# OpenBSC: verified models of eight components

This project models the parts of OpenBSC whose correctness is hardest to see from the code,
and proves what they are for. Everything that the source does by changing state is a class or
a method with loops here, proved against a function on values; the main results are lemmas
about those functions, over every input or over every run.

- **Range encoder** (`Residues`, `HalfCircle`, `RangeTree`, `RangeRoom`, `RangeLayout`,
  `ArfcnRange`). The
  recursive encoder of Annex J of 3GPP TS 44.018 and the decoding rule of section 10.5.2.13.
  Among any n points on a circle of odd length one has exactly floor((n-1)/2) of the others in
  the half-circle after it, so the search in `encode_subtree` always succeeds; every list
  decodes to exactly the ARFCNs it was made from.
- **SNDCP** (`SndcpPdu`, `SegmentMask`, `Reassembly`, `ReassemblyRuns`, `SndcpRoundTrip`,
  `SndcpEntity`, `SndcpOverLlc`). Segmentation and reassembly of TS 04.65. A message arrives
  whole, whatever the order of its later fragments, if and only if it is shorter than
  15*(N201-U - 3) octets: fragment numbers are taken modulo 15, so longer ones never come out.
- **LLC** (`Crc24Table`, `Crc24`, `FrameCheck`, `Llc`, `LlcDamage`, `LlcNumbering`, `LlcEntity`). The
  frames of TS 04.64, their CRC-24, the numbering of UI frames, and what each frame does to an entity. The table-driven CRC is bit-by-bit
  division and detects every error within 24 consecutive bits, and not every one within 25.
  Over a channel that loses fewer than 2^32 frames in a row, all arriving ones are counted right
  if and only if no frame with N(U) = 511 was lost ahead of one that arrives.
- **OML** (`OmlQueue`, `SwLoad`, `SwLoadRuns`, `SwLoadHistory`, `SwLoadAnswers`). The queue with its
  acknowledgement gate and the windowed software download of TS 12.21 through that queue.
- **Channel allocation** (`Channels`, `ChanAlloc`, `ChanRuns`, `ChanGrants`). Timeslots and logical channels
  of a cell. A channel is in use exactly from its grant to its release, so none is handed out
  twice, and a request fails exactly if nothing that could serve it is left.
- **Link release** (`RllRelease`). The order in which the data links of a channel are released.
- **Mobile Allocation** (`MobileAlloc`). The hopping bitmap of section 10.5.2.21 of TS 04.08.
- **GPRS mobility management** (`Gmm`, `GmmAnswers`, `GmmWitnesses`). The contexts of the SGSN.

`Wrappers` holds the result types, `Bytes` the byte type and `Seqs` facts about sequences.

## What the proofs found

Where code and comments disagree the model follows the code. These properties are false of the
code as one would expect them, and are proved with their exact condition:

- Of two downloads the second ends after its first segment, because nothing clears the
  last-segment flag: after any run from the zeroed structure that flag is set, when a download
  can begin, exactly if one began before (`SwLoadHistory.FlagLeftOverIff`). So a download with a
  window of at least one that reaches LOAD END sent its whole file exactly if it is the first one
  or the file has at most 245 octets (`SwLoadHistory.WholeFileIff`). Any two files with a header
  that is accepted, the first of fewer and the second of more than 245 octets, make such a run
  (`SwLoadHistory.SecondDownloadCutShort`).
- A first refusal by the BTS, unless the download is forced, is the end of all downloads and
  activations: the failed state is entered exactly by a refusing answer and never left
  (`SwLoadAnswers.FailedIff`), and in it every command is refused (`SwLoadAnswers.Commands`).
- A message that fits one SN-PDU does not come out as it went in: it is handed up to the end of the
  buffer, so the three octets of the check sequence of its frame follow it, and whatever else the
  buffer holds (`SndcpOverLlc.SingleArrives`). Just the message is handed up exactly if the buffer
  holds nothing behind the PDU (`SndcpEntity.IndicatesBuilt`), which is so for no LLC frame.
- An I frame hands its information field up in any state and whatever its N(S), and changes no
  variable (`LlcEntity.IFrameReceived`).
- A UI frame damaged within 24 consecutive bits is still processed exactly if the damage makes it
  an unprotected one with more than N202 octets of information and the sequence over its first
  seven octets matches; one flipped bit can do it. None is processed if the protected mode bit
  survives (`LlcDamage.DamagedUiIff`, `LlcDamage.OneBitUnnoticed`,
  `LlcDamage.ProtectedDamageDetected`).
- All frames that arrive, in order, are counted right exactly if each frame k lies, whole turns of
  the 32-bit counter aside, in the block of 512 of the position p after the arrival before it:
  (k - p) mod 2^32 <= 511 - p mod 512 (`LlcNumbering.CountedRightIff`). A loss of exactly 2^32
  frames goes unnoticed (`LlcNumbering.WholeTurnUnnoticed`); with fewer lost in a row the condition
  is that none with N(U) = 511 is (`LlcNumbering.LossyChannel`).
- The length check for an incoming SN-UNITDATA PDU suffices exactly if it is not a first fragment
  of three octets (`SndcpEntity.HeaderCheckIff`). There is such a PDU for every NSAPI: for NSAPI 5,
  the first that a PDP context can have, the octets 0x75, 0, 0 (`SndcpEntity.ShortFirstFragment`).
- The sender bumps its overflow counter when V(U) becomes 511, the receiver after taking 511:
  they use the same counter for a frame exactly if its N(U) is not 511
  (`LlcNumbering.OverflowCountersAgree`).
- A Mobile Allocation reads back right exactly if the timeslot does not hop over ARFCN 0, whose
  bit is written one place too far on (`MobileAlloc.ReadBackIff`, `MobileAlloc.PaddingIff`).
- While a release waits for the answer about one SAPI, an answer about another SAPI than that and
  than 0 sends the same message once more, and no other answer does (`RllRelease.AskedAgainIff`).
- No two contexts have the same IMSI, all along a run, exactly if no identity response tells a
  context that has an IMSI one that another context has (`Gmm.ImsisDistinctIff`); no other event
  makes two of them (`Gmm.StepImsisIff`). The look-up by P-TMSI misses a context exactly if one ahead of it in the list still answers to that P-TMSI
  as its old one (`Gmm.FoundByPtmsiIff`). Both arise in short runs (`GmmWitnesses`).
- What a timer repeats is what was sent, except exactly for an ATTACH ACCEPT to a mobile whose
  context is not in the mode of an attach (`GmmAnswers.RepeatsIff`): a mobile that updates its
  routing area before it has told its IMSI is sent ATTACH ACCEPT and then, on expiry, ROUTING AREA
  UPDATE ACCEPT (`GmmWitnesses.OtherMessageRepeated`).
- The comment in `gsm48_gmm_authorize` promises five repetitions; the code sends four
  (`Gmm.GivesUpAtFive`).
- In `ts_alloc` the comment wants one SDCCH/8 on the first transceiver, but the code gives up
  there; on the others the case of SDCCH/8 runs on into that of the traffic channels
  (`ChanAlloc.TsRange`, `ChanAlloc.MayHold`). In `abis_nm_rcvmsg_sw` the case of WAIT_ENDACK
  runs on into that of WAIT_ACTACK (`SwLoad.Answer`).
- Zero leaves are written past the last value unless the count is a power of two from 2 on. With
  g the greatest power of two that is at most count, the list needs count entries if that is g,
  count + g/2 up to count = g + g/2, and 2*g from there on (2 for a count of 1). The 30 entries
  that the source's caller offers suffice exactly for up to 22 ARFCNs
  (`RangeRoom.NoZeroLeafIff`, `RangeRoom.RoomReached`, `RangeRoom.ThirtyEntriesIff`).

## Model

| member | source | states |
|---|---|---|
| Residues.SourceModIsMod | openbsc/src/arfcn_list_range.c:33-61 | The remainders computed from C's truncating operator are the representatives in 0..m-1 and 1..m, for every sign of n. |
| Residues.GreatestPowerOf2LeTo | openbsc/src/arfcn_list_range.c:72-79 | The loop returns the one power of two g with g <= input < 2g, and 0 below 1. |
| HalfCircle.CountStep | openbsc/src/arfcn_list_range.c:110-124 | Moving one step clockwise loses at most one point of the half-circle ahead, and loses one only by stepping onto it. |
| HalfCircle.CountOpposite | openbsc/src/arfcn_list_range.c:110-124 | The points ahead of x and those ahead of the opposite position are all points but x. |
| HalfCircle.Walk | openbsc/src/arfcn_list_range.c:110-124 | On the way from a position with more than m points ahead to one with at most m lies a point of the set with exactly m ahead. |
| HalfCircle.PivotExists | openbsc/src/arfcn_list_range.c:110-124 | Every non-empty set of residues modulo an odd range has an element with exactly floor((n-1)/2) others in the half-circle after it. |
| RangeTree.MedianFound | openbsc/src/arfcn_list_range.c:110-124 | The search with the source's own test succeeds for every non-empty set, so `index_in_set` never stays 0. |
| RangeTree.SplitSizes | openbsc/src/arfcn_list_range.c:126-152 | The right subset has floor((n-1)/2) elements and the left one ceil((n-1)/2): with the pivot they share out the set. |
| RangeTree.HalfDistinct | openbsc/src/arfcn_list_range.c:126-152 | A re-based subset is a set of distinct residues of the halved range. |
| RangeTree.DecComplete | openbsc/src/arfcn_list_range.c:92-153 | Every element of a set is what some slot of its tree decodes to. |
| RangeTree.DecSound | openbsc/src/arfcn_list_range.c:92-153 | Every slot of a tree decodes to an element of its set. |
| RangeLayout.SlotChildren | openbsc/src/arfcn_list_range.c:137-152 | The left child's places are the odd ones of its parent's grid i, i+g, i+2g, .. and the right child's the even ones. |
| RangeLayout.SlotInjective | openbsc/src/arfcn_list_range.c:137-152 | No two positions of a subtree share a place of the list, so nothing is written twice. |
| RangeRoom.ZeroLeafRange | openbsc/src/arfcn_list_range.c:99-102 | A zero leaf lies behind the n values of its subtree and within the room. |
| RangeRoom.RoomSplit | openbsc/src/arfcn_list_range.c:137-152 | The closed form of the room obeys the recursion of the two subtrees with their places. |
| RangeRoom.RoomReached | openbsc/src/arfcn_list_range.c:99-152 | The last entry of the room is written, so no shorter list does. |
| RangeRoom.NoZeroLeafIff | openbsc/src/arfcn_list_range.c:99-102 | There is no zero leaf, and no entry beyond the count is needed, exactly if the count is a power of two from 2 on. |
| RangeRoom.ThirtyEntriesIff | openbsc/src/arfcn_list_range.c:180-189 | The 30 entries of the source's caller suffice exactly for up to 22 ARFCNs. |
| RangeLayout.EncodedNode | openbsc/src/arfcn_list_range.c:124-152 | Writing the pivot, then the left and the right subtree, leaves exactly the tree of the whole set on its grid and changes nothing else. |
| RangeLayout.HalfRangeIsQuotient | openbsc/src/arfcn_list_range.c:137-152 | Halving a power-of-two range down to a node's level is dividing it by the level's power of two. |
| RangeLayout.WalkUp | openbsc/src/arfcn_list_range.c:92-153 | The decoding rule of section 10.5.2.13 of TS 44.018, followed from any entry to the root, yields what the entry's slot stands for. |
| ArfcnRange.CountNear | openbsc/src/arfcn_list_range.c:111-117 | The inner loop counts the elements at most (range-1)/2 steps clockwise from one, itself included. |
| ArfcnRange.FindPivot | openbsc/src/arfcn_list_range.c:110-124 | The search returns the index of the first element that splits the others evenly; it exists for every set. |
| ArfcnRange.CollectHalf | openbsc/src/arfcn_list_range.c:127-136 | The loop leaves in subset[1..] the elements of a half-circle, re-based at its origin, in the order of the set. |
| ArfcnRange.EncodeSubtree | openbsc/src/arfcn_list_range.c:92-153 | Afterwards the list holds the tree of set[1..set_size] on the grid of index, with its zero leaves, and is unchanged elsewhere; the local buffer of 18 entries suffices. |
| ArfcnRange.EncodeInner | openbsc/src/arfcn_list_range.c:110-153 | The same for two or more elements. |
| ArfcnRange.EncodeHalf | openbsc/src/arfcn_list_range.c:126-138 | Collecting the half-circle at an origin and encoding it leaves the tree of that half-circle at the given index. |
| ArfcnRange.Distances | openbsc/src/arfcn_list_range.c:171-173 | The loop leaves the distances from the first ARFCN, less one. |
| ArfcnRange.CalcArfcn | openbsc/src/arfcn_list_range.c:165-175 | In any list with room for count ARFCNs, W[0] is the first ARFCN, W[1..count-1] hold the tree of the distances, zero leaves are all that is written behind, and nothing is written beyond the room. |
| ArfcnRange.DecodeMembers | openbsc/src/arfcn_list_range.c:165-175 | The decoded list is the first entry and what the other entries decode to. |
| ArfcnRange.RoundTrip | openbsc/src/arfcn_list_range.c:92-175 | Decoding the list that CalcARFCN leaves gives back exactly the ARFCNs, for every strictly increasing list within the range. |
| Crc24Table.TableIsDivision | openbsc/src/gprs/crc24.c:25-58 | Each of the 256 table entries is its index after eight steps of reflected division by 0xad85dd. |
| Crc24.Crc24Calc | openbsc/src/gprs/crc24.c:62-67 | The loop computes the CRC of the first len bytes. |
| Crc24.CrcConcat | openbsc/src/gprs/crc24.c:62-67 | The CRC of a concatenation is that of its parts one after the other. |
| Crc24.StepIsByteStep | openbsc/src/gprs/crc24.c:65 | One table-driven step is eight steps of division of the register with the byte added. |
| FrameCheck.CrcIsDivision | openbsc/src/gprs/crc24.c:62-67 | For every buffer and register the table-driven CRC is bit-by-bit division of the buffer's bits. |
| FrameCheck.BitCrcLinear | openbsc/src/gprs/crc24.c:62-67 | The CRC is linear over exclusive or of register and data. |
| FrameCheck.BurstRemainder | openbsc/src/gprs/crc24.c:62-67 | A non-zero difference confined to 24 consecutive bits leaves a non-zero remainder. |
| FrameCheck.BurstChangesCrc | openbsc/src/gprs/crc24.c:62-67 | Buffers that differ within 24 consecutive bits have different CRCs from any register. |
| FrameCheck.BurstChangesFcs | openbsc/src/gprs/gprs_llc.c:230-239 | Payloads that differ within 24 consecutive bits have different check sequences. |
| FrameCheck.ThreeBytesAreBurst | openbsc/src/gprs/gprs_llc.c:230-239 | A difference confined to three consecutive bytes is such a burst. |
| FrameCheck.AppendedFcsOk | openbsc/src/gprs/gprs_llc.c:386-390 | A frame that ends in its own check sequence passes the receiver's check. |
| FrameCheck.FcsOkIsResidue | openbsc/src/gprs/gprs_llc.c:747-752 | A frame passes the check exactly if the CRC over all of it, sequence included, is one fixed residue. |
| FrameCheck.BurstDetected | openbsc/src/gprs/gprs_llc.c:747-752 | A good frame damaged anywhere within 24 consecutive bits, check sequence included, fails the check. |
| FrameCheck.LongerBurstMissed | openbsc/src/gprs/crc24.c:62-67 | 24 bits is the limit: a pattern of 25 bits goes unnoticed from every register. |
| Llc.UiRoundTrip | openbsc/src/gprs/gprs_llc.c:368-390 | Parsing a UI frame that was built gives back SAPI, N(U) and payload, not encrypted, with a sequence that covers header and payload and matches. |
| Llc.UiHeaderIs | openbsc/src/gprs/gprs_llc.c:368-385 | The address and control octets of a UI frame by number, in the places TS 04.64 gives SAPI, command bit, N(U) and mode bit. |
| Llc.URoundTrip | openbsc/src/gprs/gprs_llc.c:278-314 | Parsing a U frame that was built gives the command that the header file lists for its code, with data for code 0x0b only; a code that is not listed is refused. |
| Llc.IRoundTrip | openbsc/src/gprs/gprs_llc.c:537-572 | Parsing an I frame gives back N(S), N(R), acknowledgement bit, supervisory command and information field; a SACK is refused. |
| Llc.SRoundTrip | openbsc/src/gprs/gprs_llc.c:573-596 | The same for an S frame, which has no information field. |
| Llc.UiAccepted | openbsc/src/gprs/gprs_llc.c:660-752 | An undamaged UI frame is processed as a UI frame of its SAPI and N(U). |
| Llc.ReservedRefused | openbsc/src/gprs/gprs_llc.c:521-546 | Exactly the frames of the seven reserved SAPIs are refused as such; too short ones and those of another protocol are refused before. |
| LlcDamage.AcceptedIf | openbsc/src/gprs/gprs_llc.c:660-752 | Which frames are processed: unprotected UI frames if the sequence over seven octets matches, and others only if it matches over all of the frame. |
| LlcDamage.DamagedUiIff | openbsc/src/gprs/gprs_llc.c:598-615 | A UI frame damaged within 24 consecutive bits is processed exactly if it now is an unprotected one with more than N202 octets of information and the sequence over its first seven octets matches. |
| LlcDamage.ProtectedDamageDetected | openbsc/src/gprs/gprs_llc.c:598-615 | None is processed if the protected mode bit survives or there are at most N202 octets of information. |
| LlcDamage.OneBitUnnoticed | openbsc/src/gprs/gprs_llc.c:598-615 | A frame whose third octet lost its lowest bit, and nothing else, that is processed all the same. |
| Llc.AcceptedMatches | openbsc/src/gprs/gprs_llc.c:747-752 | A frame is processed only if its sequence matches over the length that counts, which lies within the frame. |
| LlcNumbering.SenderCounters | openbsc/src/gprs/gprs_llc.c:359-366 | Before frame k the sender has V(U) = k mod 512 and the counter 512*((k+1)/512), modulo 2^32. |
| LlcNumbering.KeepsStep | openbsc/src/gprs/gprs_llc.c:480-492 | While no frame with N(U) = 511 is lost ahead of an arrival, the receiver is in step and counts every frame as the one it is. |
| LlcNumbering.CountedRightIff | openbsc/src/gprs/gprs_llc.c:480-492 | In runs of any length and with any losses, every arriving frame is taken and counted right if and only if each lies, whole turns of 2^32 aside, in the block of 512 of the position after the one before. |
| LlcNumbering.LossyChannel | openbsc/src/gprs/gprs_llc.c:480-492 | With fewer than 2^32 frames lost in a row, that is so if and only if no frame with N(U) = 511 was lost ahead of an arrival. |
| LlcNumbering.WholeTurnUnnoticed | openbsc/src/gprs/gprs_llc.c:480-492 | When 2^32 frames are lost at once, the next one is counted right although such frames were lost. |
| LlcNumbering.OverflowCountersAgree | openbsc/src/gprs/gprs_llc.c:359-366 | Sender and receiver use the same overflow counter for a frame exactly if its N(U) is not 511. |
| LlcEntity.Lle.TxUi | openbsc/src/gprs/gprs_llc.c:327-390 | Too long a message is refused and changes nothing; any other goes out as a UI frame with the old V(U), and the counters advance. |
| LlcEntity.Lle.HdrRx | openbsc/src/gprs/gprs_llc.c:440-496 | The state after each command, the reset of V(S), V(A) and V(R) by SABM, and for UI the refusal of numbers behind V(UR) or the advance of the counters. |
| LlcEntity.Lle.RcvMsg | openbsc/src/gprs/gprs_llc.c:660-791 | The entity's variables and what is handed up after a frame are those of the function that the next lemmas are about. |
| LlcEntity.UFrameReceived | openbsc/src/gprs/gprs_llc.c:440-496 | By the code of a U frame, from every state: 0x07 establishes with V(S), V(A) and V(R) zero, 0x04 ends, 0x06 and 0x01 answer a local establishment only, the others change nothing, only 0x0b hands its data up, and unknown codes are refused. |
| LlcEntity.UiFrameReceived | openbsc/src/gprs/gprs_llc.c:479-492 | A UI frame behind V(UR) is refused and changes nothing; any other hands its information field up and moves V(UR) and the overflow counter on, and nothing else. |
| LlcEntity.IFrameReceived | openbsc/src/gprs/gprs_llc.c:537-572 | An I frame hands its information field up in any state and changes nothing; a SACK is refused. |
| LlcEntity.SFrameReceived | openbsc/src/gprs/gprs_llc.c:573-596 | An S frame changes nothing and hands nothing up; a SACK is refused. |
| SndcpPdu.ReadBuild | openbsc/src/gprs/gprs_sndcp.c:39-62 | Reading a PDU that was built gives back NSAPI, flags, N-PDU number, segment number and data. |
| SndcpPdu.OctetsAre | openbsc/src/gprs/gprs_sndcp.c:39-62 | The octets of a PDU by number: more, type and first bits worth 0x10, 0x20 and 0x40 above the NSAPI, a zero compression octet in a first one, and the segment number above the twelve bits of the N-PDU number. |
| SndcpPdu.FragmentLen | openbsc/src/gprs/gprs_sndcp.c:393-402 | A fragment with its header fits N201-U, takes at least one octet while any is left, and is full unless it is the last. |
| SndcpPdu.FragmentsCover | openbsc/src/gprs/gprs_sndcp.c:393-411 | The fragments' data put together is the message. |
| SndcpPdu.FragmentFields | openbsc/src/gprs/gprs_sndcp.c:372-418 | Every fragment is non-empty, fits N201-U, is numbered in turn modulo 15, is marked first when the 8-bit counter is 0, and has its more flag set unless it is the last. |
| SndcpPdu.FragmentCount | openbsc/src/gprs/gprs_sndcp.c:391-402 | A message takes at most n fragments, for every n up to 256, exactly if it is shorter than n*(N201-U - 3) octets. |
| SegmentMask.SameMask | openbsc/src/gprs/gprs_sndcp.c:111-124 | Masks with the same segments are equal. |
| Reassembly.Bookkeeping | openbsc/src/gprs/gprs_sndcp.c:209-257 | At every step since the first segment the mask, the maximum, the total length and the end flag are those of the PDUs received. |
| Reassembly.MaskIsSet | openbsc/src/gprs/gprs_sndcp.c:102-103 | The mask is exactly the set of segment numbers received. |
| Reassembly.NeededIsMask | openbsc/src/gprs/gprs_sndcp.c:111-124 | The comparison of masks asks whether every segment up to the highest was received. |
| ReassemblyRuns.CollectConserves | openbsc/src/gprs/gprs_sndcp.c:159-174 | Taking segments out loses and makes up no octet, and takes at most one entry per segment. |
| ReassemblyRuns.CollectInOrder | openbsc/src/gprs/gprs_sndcp.c:159-174 | With every segment there once, the data comes out in the order of the numbers and nothing of it stays. |
| ReassemblyRuns.OutputIff | openbsc/src/gprs/gprs_sndcp.c:141-257 | A PDU leads to nothing until the end was seen and the mask is full, and then to the N-PDU exactly if every segment is in the queue, and to the error otherwise. |
| ReassemblyRuns.KeepsWaiting | openbsc/src/gprs/gprs_sndcp.c:248-255 | Until everything is there nothing comes out and everything is kept. |
| ReassemblyRuns.DeliversAll | openbsc/src/gprs/gprs_sndcp.c:141-182 | The PDU that completes a run without repeats hands up all data received in order, with the total length, and empties the queue. |
| ReassemblyRuns.NothingAfter | openbsc/src/gprs/gprs_sndcp.c:184-258 | After that no PDU of the same run hands anything up. |
| ReassemblyRuns.DeliveredOnce | openbsc/src/gprs/gprs_sndcp.c:184-258 | In a run without repeated segment numbers an N-PDU is handed up by exactly the first PDU that completes the run, with the total length received. |
| SndcpRoundTrip.AnyOrder | openbsc/src/gprs/gprs_sndcp.c:184-258 | Numbered fragments that arrive in any order, the first one first, lead to nothing until the last arrives and then to all their data in order. |
| SndcpRoundTrip.TooMany | openbsc/src/gprs/gprs_sndcp.c:391 | With more than fifteen fragments whatever is handed up is shorter than the message. |
| SndcpRoundTrip.RoundTrip | openbsc/src/gprs/gprs_sndcp.c:184-438 | The frames of a message, the first one first and the rest in any order, bring out exactly the message, with the last of them and not before, if it is shorter than 15*(N201-U - 3) octets, and never bring it out otherwise. |
| SndcpEntity.Sndcp.SendUdFrag | openbsc/src/gprs/gprs_sndcp.c:348-438 | Sends the next fragment in a UI frame that the link never refuses, advances the fragmenter, and the N-PDU number after the last. |
| SndcpEntity.SentPdusCarry | openbsc/src/gprs/gprs_sndcp.c:441-501 | Whatever a message is sent in, fragmented or not, carries all of it in order, with its NSAPI and N-PDU number and the right flags and segment numbers; it is one PDU exactly up to N201-U - 4 octets. |
| SndcpEntity.Sndcp.UnitdataReq | openbsc/src/gprs/gprs_sndcp.c:441-501 | A message goes out in those PDUs, in consecutive UI frames; the N-PDU number advances modulo 0xfff. |
| SndcpEntity.Sndcp.SendFragments | openbsc/src/gprs/gprs_sndcp.c:471-477 | The loop ends and sends exactly the fragments of the message in order. |
| SndcpEntity.Sndcp.DefragEnqueue | openbsc/src/gprs/gprs_sndcp.c:81-109 | The fragment heads the queue and the mask, the maximum and the total length take it in. |
| SndcpEntity.Sndcp.DefragHaveAllSegments | openbsc/src/gprs/gprs_sndcp.c:111-124 | The loop's answer is whether the mask is that of segments 0 to the highest. |
| SndcpEntity.Sndcp.DefragGetSeg | openbsc/src/gprs/gprs_sndcp.c:126-138 | Unlinks the first queue entry of a segment, or finds none and changes nothing. |
| SndcpEntity.Sndcp.DefragSegments | openbsc/src/gprs/gprs_sndcp.c:141-182 | Takes the segments out in order and hands their data up with the total length, or reports the first one missing. |
| SndcpEntity.Sndcp.DefragInput | openbsc/src/gprs/gprs_sndcp.c:184-258 | The state and the outcome after a PDU are those of the step that the run lemmas are about. |
| SndcpEntity.Sndcp.LlunitdataInd | openbsc/src/gprs/gprs_sndcp.c:504-563 | The state and the outcome after a PDU, with what the buffer holds behind it, are those of the function that the next two lemmas are about. |
| SndcpEntity.IndicatesBuilt | openbsc/src/gprs/gprs_sndcp.c:544-562 | By its fields: every PDU but a first one without more to come goes to reassembly and takes it one step on, and that one changes nothing and is handed up with all that follows it in the buffer, or refused if that is nothing. |
| SndcpEntity.IndicatesByBits | openbsc/src/gprs/gprs_sndcp.c:521-556 | By the bits of its octets, for whatever arrives: which PDUs are refused for their type, which go to reassembly and which are handed up. |
| SndcpEntity.HeaderCheckIff | openbsc/src/gprs/gprs_sndcp.c:526-546 | A PDU that passes the length check and goes to reassembly has its header complete exactly if it is not a first fragment of three octets. |
| SndcpEntity.ShortFirstFragment | openbsc/src/gprs/gprs_sndcp.c:526-546 | There is such a PDU for every NSAPI. |
| SndcpOverLlc.FramesHanded | openbsc/src/gprs/gprs_llc.c:660-791 | When the receiver kept step with k frames before, every frame of a message is taken and SNDCP gets exactly the PDU it carries. |
| SndcpOverLlc.HandedIsReceived | openbsc/src/gprs/gprs_llc.c:660-791 | What SNDCP is handed of a frame is what receiving it by the LLC entity does and hands up. |
| SndcpOverLlc.MessageArrives | openbsc/src/gprs/gprs_sndcp.c:441-563 | Each frame of a fragmented message below the bound is indicated as a fragment and takes the reassembly one step on; the message is handed up with the last frame and nothing before. |
| SndcpOverLlc.SingleArrives | openbsc/src/gprs/gprs_sndcp.c:481-562 | A message of at most N201-U - 4 octets arrives in one PDU that reads as the message, first and without more to come, and is handed up with the check sequence of its frame and the rest of the buffer behind it. |
| SndcpOverLlc.SndcpBounds | openbsc/src/gprs/gprs_llc.c:41-101 | Exactly the four SAPIs of SNDCP have an N201-U of 500: messages of up to 496 octets are not fragmented, and those of up to 7454 arrive. |
| OmlQueue.RunLen | openbsc/src/libbsc/abis_nm.c:500-507 | The longest run from the head of the queue in which only the last message may need an acknowledgement. |
| OmlQueue.Fifo | openbsc/src/libbsc/abis_nm.c:130-143 | Over any run, what went out and what waits is what there was and what was submitted, in that order, and nothing waits unless an answer is awaited. |
| OmlQueue.StepAcks | openbsc/src/libbsc/abis_nm.c:130-143 | At every step an answer is awaited exactly if a message that needs one went out for it. |
| OmlQueue.OneUnanswered | openbsc/src/libbsc/abis_nm.c:130-143 | Of the messages that need an acknowledgement at most one more went out than there were answers, over any run. |
| OmlQueue.Drains | openbsc/src/libbsc/abis_nm.c:495-510 | The queue is empty after as many answers as it has runs, and not before. |
| OmlQueue.RunsAreAcks | openbsc/src/libbsc/abis_nm.c:495-510 | It has one run per message that needs an acknowledgement and one for what follows the last of them. |
| OmlQueue.Bts.QueueMsg | openbsc/src/libbsc/abis_nm.c:130-143 | A message goes out at once if none waits and no answer is awaited, and joins the end of the queue otherwise. |
| OmlQueue.Bts.QueueSendNext | openbsc/src/libbsc/abis_nm.c:495-510 | The loop sends exactly the first run, in order, and awaits an answer exactly if its last message needs one. |
| OmlQueue.Bts.ClearQueue | openbsc/src/libbsc/abis_nm.c:2630-2640 | The queue is emptied, nothing is sent and no answer is awaited. |
| OmlQueue.ClearedSends | openbsc/src/libbsc/abis_nm.c:2630-2640 | After that the next message submitted goes out at once, and the one after it, too, unless the first needs an acknowledgement. |
| SwLoad.NmSw.LoadSegment | openbsc/src/libbsc/abis_nm.c:827-852 | The next 245 octets of the file, or what is left, are submitted; the flag is set exactly if they are fewer. |
| SwLoad.NmSw.DoFillWindow | openbsc/src/libbsc/abis_nm.c:1011-1023 | Segments are submitted until the window is full or the flag is set. |
| SwLoad.NmSw.RcvmsgSw | openbsc/src/libbsc/abis_nm.c:1026-1174 | The new state, the messages submitted and whether the queue is let on, for every state and answer, with the cases that run on into each other. |
| SwLoad.NmSw.SoftwareLoad | openbsc/src/libbsc/abis_nm.c:1177-1225 | A load begins only from the idle state and with a file whose header is accepted, and the result says which of the two failed; it keeps the window count and the last-segment flag. |
| SwLoad.NmSw.SoftwareActivate | openbsc/src/libbsc/abis_nm.c:1247-1276 | An activation begins only from the idle state and with such a file, and submits one message. |
| SwLoadRuns.FillWindowFills | openbsc/src/libbsc/abis_nm.c:1011-1023 | Filling the window submits consecutive parts of the file, each full but the last, up to the window or the end of the file. |
| SwLoadRuns.StepKeeps | openbsc/src/libbsc/abis_nm.c:1036-1168 | Every answer and every foreign message keeps: the segments submitted are the file up to the read position, none follows LOAD END, and LOAD END follows all of them. |
| SwLoadRuns.DownloadSends | openbsc/src/libbsc/abis_nm.c:1036-1168 | In every run of one download the segments on the link carry the file from its start; behind LOAD END they carry len/245+1 segments of it, all of the file exactly if no flag was left over or the file fits the one segment sent then. |
| SwLoadHistory.FlagLeftOverIff | openbsc/src/libbsc/abis_nm.c:1177-1225 | Over every run of loads, activations, answers and foreign messages from the zeroed structure, whenever the state is idle the last-segment flag is set exactly if a load began before. |
| SwLoadHistory.WholeFileIff | openbsc/src/libbsc/abis_nm.c:1036-1225 | After any such run, a download with a window of at least one whose LOAD END is on the link has sent its whole file exactly if it is the first one or the file has at most 245 octets; otherwise it has sent one segment. |
| SwLoadHistory.SdpFileOpens | openbsc/src/libbsc/abis_nm.c:899-943 | A file of any length that starts with the two magic numbers opens exactly if the four octets of its header give that length, the most significant first. |
| SwLoadHistory.SecondDownloadCutShort | openbsc/src/libbsc/abis_nm.c:1187-1225 | From the zeroed structure, after the download of any file of fewer than 245 octets, the download of any file of more puts LOAD END on the link behind its first 245 octets. |
| SwLoadRuns.WindowKept | openbsc/src/libbsc/abis_nm.c:1015 | Between two acknowledgements no more segments are submitted than the window allows. |
| SwLoadRuns.WindowOnLink | openbsc/src/libbsc/abis_nm.c:1011-1090 | Over a run from the start of a download, the segments on the link are at most one window for the start and one per acknowledgement. |
| SwLoadRuns.Progress | openbsc/src/libbsc/abis_nm.c:1072-1090 | Every acknowledgement brings a full window until the file is through, and the one after that ends the download. |
| SwLoadAnswers.AnswerLetsOn | openbsc/src/libbsc/abis_nm.c:1036-1168 | Every answer that the state waits for sends out the first run of what waits then, what it submits included; any other answer changes nothing. |
| SwLoadAnswers.AnswerLeads | openbsc/src/libbsc/abis_nm.c:1036-1168 | Which state each answer that is waited for leads to and what it submits, with the forced mark: refusals to failure, the last segments to LOAD END, what ends or activates to the idle state. |
| SwLoadAnswers.Commands | openbsc/src/libbsc/abis_nm.c:1177-1276 | A command outside the idle state changes nothing; in it a load takes over window, forced mark and file and submits LOAD INIT, and an activation submits ACTIVATE SW and changes nothing but the state. |
| SwLoadAnswers.FailedIff | openbsc/src/libbsc/abis_nm.c:1036-1276 | Over every run of commands, answers and foreign messages from the zeroed structure, the state is the failed one exactly if some answer refused: it is never left. |
| Channels.FindFromFirst | openbsc/src/libbsc/chan_alloc.c:158-188 | The search of a transceiver returns an idle channel that serves the request, if there is one, and the first of them. |
| Channels.FindCellFirst | openbsc/src/libbsc/chan_alloc.c:190-210 | The search of the cell does so over all transceivers in list order, or in reverse order if that is configured. |
| ChanAlloc.PickTsFirst | openbsc/src/libbsc/chan_alloc.c:79-138 | A timeslot is configured exactly if one can be, and it is the first; for SDCCH/8 the beacon's transceiver and those behind it are out while the beacon's is usable. |
| ChanAlloc.Bts.TsAlloc | openbsc/src/libbsc/chan_alloc.c:79-138 | The loops pick that timeslot and give it the combination, and change nothing if there is none. |
| ChanAlloc.Bts.LcFindTrx | openbsc/src/libbsc/chan_alloc.c:158-188 | The loops return the first idle channel of a transceiver. |
| ChanAlloc.Bts.LcFindBts | openbsc/src/libbsc/chan_alloc.c:190-224 | An existing channel is preferred to a new timeslot, and the combined beacon never gets one. |
| ChanAlloc.Bts.LchanAlloc | openbsc/src/libbsc/chan_alloc.c:227-290 | The combinations are tried in the order of type, direction and permission, and the channel gets the type of the one that served. |
| ChanAlloc.Bts.LchanFree | openbsc/src/libbsc/chan_alloc.c:294-306 | The channel is idle again, whatever state it was in, and no other is touched. |
| ChanAlloc.Bts.LchanReset | openbsc/src/libbsc/chan_alloc.c:361-369 | The same. |
| ChanRuns.LcFindIff | openbsc/src/libbsc/chan_alloc.c:190-224 | The search for a combination fails exactly if no idle channel of it and no timeslot for it is left. |
| ChanRuns.LcFindFirstIff | openbsc/src/libbsc/chan_alloc.c:233-271 | A chain of searches stops at the first combination that can be had. |
| ChanRuns.AllocFailsIff | openbsc/src/libbsc/chan_alloc.c:227-290 | A request fails exactly if none of the combinations that serve it can be had, and then changes nothing. |
| ChanRuns.TchFFailsIff | openbsc/src/libbsc/chan_alloc.c:260-262 | A TCH/F request fails exactly if no usable transceiver has an idle channel on a TCH/F or non-packet dynamic timeslot, nor a usable unconfigured timeslot 1..7. |
| ChanRuns.AllocTakes | openbsc/src/libbsc/chan_alloc.c:227-290 | A granted channel was idle, gets a type its timeslot carries, lies within its subslots, and no other channel in use is touched. |
| ChanRuns.StepKeepsInv | openbsc/src/libbsc/chan_alloc.c:131-137 | Every event keeps: unconfigured timeslots have only idle channels, and channels in use fit their timeslot. |
| ChanRuns.StaysInUse | openbsc/src/libbsc/chan_alloc.c:294-369 | A channel stays in use until it is freed or reset. |
| ChanRuns.NoDoubleAllocation | openbsc/src/libbsc/chan_alloc.c:227-369 | Over any run, between two grants of the same channel it was freed or reset. |
| ChanRuns.NoDoubleAllocationFromUnused | openbsc/src/libbsc/chan_alloc.c:227-369 | In particular in every run that starts with no channel in use, whatever the configuration. |
| ChanGrants.ReleaseFrees | openbsc/src/libbsc/chan_alloc.c:294-369 | A release makes its channel idle and changes no other channel, no combination and nothing else of the cell. |
| ChanGrants.FreedIsCandidate | openbsc/src/libbsc/chan_alloc.c:158-188 | A freed channel within the subslots of a usable timeslot is one that a search may return. |
| ChanGrants.FreedCanBeHad | openbsc/src/libbsc/chan_alloc.c:227-306 | After its release the next request that its combination serves does not fail. |
| ChanGrants.InUseIff | openbsc/src/libbsc/chan_alloc.c:227-369 | Over any run, a channel is in use exactly if it was granted, or in use at the start, and was not freed since. |
| ChanGrants.GrantedType | openbsc/src/libbsc/chan_alloc.c:227-277 | Which requests fail and what type the others are granted, by the combinations that can be had: half-rate requests fall back on full rate, signalling ones on traffic channels if bigger ones are allowed. |
| ChanGrants.SdcchFrom | openbsc/src/libbsc/chan_alloc.c:234-245 | A signalling channel comes from the combined beacon if that has one, and from SDCCH/8 first in reverse order. |
| ChanGrants.GrantRuns | openbsc/src/libbsc/chan_alloc.c:37-59 | On an ip.access BTS the transceiver, its carrier and the timeslot of a granted channel are running; and it is never on a dynamic timeslot in packet mode. |
| ChanGrants.ChannelsOf | openbsc/src/libbsc/chan_alloc.c:146-188 | An unused timeslot yields four signalling channels beside the beacon, eight on its own, two half-rate ones or one full-rate one. |
| ChanGrants.SearchOrder | openbsc/src/libbsc/chan_alloc.c:190-210 | Transceivers are searched in ascending order, or descending if so configured, timeslots and subslots in ascending order. |
| RllRelease.Lchan.ReleaseNextSapi | openbsc/src/libbsc/chan_alloc.c:372-389 | The loop asks for the lowest SAPI above 0 in use, on the slow channel of a traffic channel, or reports that there is none. |
| RllRelease.Lchan.DoHandleRelease | openbsc/src/libbsc/chan_alloc.c:392-405 | That request, or the RR release, or the request for SAPI 0 goes out. |
| RllRelease.Lchan.RllReleased | openbsc/src/libbsc/chan_alloc.c:408-416 | Only the release of a SAPI other than 0, while the channel is being released, drives the sequence on. |
| RllRelease.Lchan.LchanRelease | openbsc/src/libbsc/chan_alloc.c:419-429 | The release begins with the first message that is due. |
| RllRelease.Lchan.RslHandleRelease | openbsc/src/libbsc/abis_rsl.c:1439-1463 | T3111 is started exactly if the channel is being released and no SAPI is in use. |
| RllRelease.Lchan.RxRll | openbsc/src/libbsc/abis_rsl.c:1493-1527 | What each establish and release message does to the SAPIs, the messages and the timer. |
| RllRelease.AnswerStep | openbsc/src/libbsc/abis_rsl.c:1511-1527 | Whatever the BTS answers, at most the one message due goes out, T3111 is started exactly by answers that leave no SAPI in use, and the number of SAPIs in use never grows. |
| RllRelease.AskedAgainIff | openbsc/src/libbsc/abis_rsl.c:1511-1527 | While a release is under way, an answer sends out the last message once more exactly if it is about a SAPI other than 0 and other than the one that message was about. |
| RllRelease.RunSapis | openbsc/src/libbsc/abis_rsl.c:1511-1527 | Over any run of answers a SAPI is in use exactly if it was and no answer was about it, and the number of those in use never grows. |
| RllRelease.TimerStartsIff | openbsc/src/libbsc/abis_rsl.c:1439-1463 | Over any run of answers T3111 is started exactly by those after which every SAPI that was in use has been answered about. |
| RllRelease.RunUse | openbsc/src/libbsc/abis_rsl.c:1493-1527 | Over any run of answers and establishments a SAPI is as the last event about it leaves it: used by the mobile, used by the network or unused. |
| RllRelease.RunSends | openbsc/src/libbsc/abis_rsl.c:1439-1527 | In such a run a message goes out exactly for an answer about a SAPI above 0 and T3111 starts exactly with an answer that leaves none in use; with no release under way neither happens. |
| RllRelease.ExpectedAscends | openbsc/src/libbsc/chan_alloc.c:372-405 | The messages of a release are requests for SAPIs in use in ascending order and then the final one. |
| RllRelease.ExpectedHas | openbsc/src/libbsc/chan_alloc.c:372-405 | Every SAPI in use is among them. |
| RllRelease.ReleaseSequence | openbsc/src/libbsc/chan_alloc.c:372-429 | A release takes its mode and reason from the call and changes no SAPI. With a BTS that confirms each request, exactly the messages for the SAPIs in use and then the RR release or the request for SAPI 0 go out, one per confirmation; T3111 is not started while a SAPI is in use, and the answer about SAPI 0 starts it. |
| MobileAlloc.CarriersAre | openbsc/src/libbsc/bsc_init.c:206-211 | The list of carriers is the set of non-zero ARFCNs of the cell, each once and ascending. |
| MobileAlloc.Timeslot.GenerateMa | openbsc/src/libbsc/bsc_init.c:188-243 | Carrier n of the list gets the n-th bit from the last backwards, ARFCN 0 the one after next, and all other bits are clear; without hopping everything is. |
| MobileAlloc.Timeslot.WriteBits | openbsc/src/libbsc/bsc_init.c:218-229 | The loop writes one bit per carrier of the cell, from the last one backwards. |
| MobileAlloc.ReadBackIff | openbsc/src/libbsc/bsc_init.c:188-243 | Reading the bits along the cell allocation gives exactly the carriers of cell and timeslot if and only if ARFCN 0 is not one of them. |
| MobileAlloc.PaddingIff | openbsc/src/libbsc/bsc_init.c:213-240 | A padding bit is set exactly if ARFCN 0 is hopped over and at least two places are left. |
| Gmm.Sgsn.CtxByImsi | openbsc/src/gprs/gprs_sgsn.c:142-152 | The loop finds the first context with an IMSI. |
| Gmm.Sgsn.CtxByPtmsi | openbsc/src/gprs/gprs_sgsn.c:130-140 | The loop finds the first context that has a P-TMSI as its new or old one. |
| Gmm.Sgsn.AllocPTmsi | openbsc/src/gprs/gprs_sgsn.c:339-352 | The retry loop returns the first random number that no context has as its P-TMSI. |
| Gmm.Sgsn.GmmAuthorize | openbsc/src/gprs/gprs_gmm.c:545-572 | A context with both identities is registered and acknowledged; any other is asked for the IMEI first and then the IMSI. |
| Gmm.Sgsn.RxAttReq | openbsc/src/gprs/gprs_gmm.c:626-771 | Which context an attach request finds or makes, its new and old P-TMSI, and how it goes on. |
| Gmm.Sgsn.RxIdResp | openbsc/src/gprs/gprs_gmm.c:575-623 | The identity is taken in, an older context of the same IMSI goes if the context had none, and the attach goes on. |
| Gmm.Sgsn.RxRaUpdReq | openbsc/src/gprs/gprs_gmm.c:906-999 | An update is refused for unknown and deregistered mobiles; any other gets a new P-TMSI. |
| Gmm.Sgsn.TimerCb | openbsc/src/gprs/gprs_gmm.c:1084-1142 | What each timer repeats, and that the fifth expiry deregisters. |
| Gmm.Sgsn.RxSuspend | openbsc/src/gprs/gprs_gmm.c:1577-1597 | Exactly a registered mobile is suspended; any other request is an error. |
| Gmm.Sgsn.RxResume | openbsc/src/gprs/gprs_gmm.c:1599-1622 | Exactly a suspended mobile is resumed; any other request is an error. |
| Gmm.StepKeepsInv | openbsc/src/gprs/gprs_gmm.c:545-771 | Every event keeps all P-TMSIs distinct, and a context registered or suspended only while its IMSI and IMEI are known. |
| Gmm.InvAlways | openbsc/src/gprs/gprs_gmm.c:1012-1082 | The same over every run from an empty list. |
| Gmm.StepImsisIff | openbsc/src/gprs/gprs_gmm.c:545-771 | Every event leaves one context per IMSI, except exactly an identity response that tells a context with an IMSI one that another context has. |
| Gmm.ImsisDistinctIff | openbsc/src/gprs/gprs_gmm.c:594-613 | Over every run from an empty list, there is one context per IMSI all along exactly if no event is such a response. |
| Gmm.FoundByPtmsiIff | openbsc/src/gprs/gprs_sgsn.c:130-140 | The look-up by a context's P-TMSI finds it exactly if none ahead of it answers to that P-TMSI as its old one. |
| GmmWitnesses.SameImsiTwice | openbsc/src/gprs/gprs_gmm.c:594-613 | A run from the empty list after which two contexts have the same IMSI. |
| GmmWitnesses.ShadowedPtmsi | openbsc/src/gprs/gprs_sgsn.c:130-140 | A run from the empty list after which the look-up by a context's P-TMSI finds another one. |
| Gmm.RespondIsAnswered | openbsc/src/gprs/gprs_gmm.c:575-623 | The response to an identity request makes of its context what the next lemma follows, whatever happens to the list. |
| Gmm.RegisteredAfterAnswers | openbsc/src/gprs/gprs_gmm.c:545-572 | A mobile is registered exactly when it answered as many identity requests as identities were missing. |
| GmmAnswers.ConversationIs | openbsc/src/gprs/gprs_gmm.c:545-572 | A mobile that answers is asked for its IMEI if that is missing, then for its IMSI if that is, and then accepted; nothing else is sent. |
| GmmAnswers.RepeatsIff | openbsc/src/gprs/gprs_gmm.c:545-572 | The message that goes out is the one its timer repeats, except exactly for an ATTACH ACCEPT to a context that is not in the mode of an attach. |
| GmmWitnesses.OtherMessageRepeated | openbsc/src/gprs/gprs_gmm.c:906-999 | A run from the empty list in which an ATTACH ACCEPT is followed by a ROUTING AREA UPDATE ACCEPT on expiry. |
| GmmAnswers.RefusedIff | openbsc/src/gprs/gprs_gmm.c:626-999 | Which attach requests and routing area updates are refused, by the identity, the list and the state, and that a refused one changes nothing. |
| GmmAnswers.AttachIsFor | openbsc/src/gprs/gprs_gmm.c:676-756 | An attach is for the context of the TLLI, else for the first one with the IMSI or P-TMSI, else for a new one at the head of the list; it gets a P-TMSI that no other has, and no other context changes. |
| GmmAnswers.UpdateThenComplete | openbsc/src/gprs/gprs_gmm.c:906-999 | An accepted update gives a P-TMSI that nobody has, keeps the one before until the mobile confirms, and leaves the state and the identities. |
| GmmAnswers.SuspendResume | openbsc/src/gprs/gprs_gmm.c:1577-1622 | A resume undoes a suspend exactly if the mobile was not suspended before; on unregistered ones neither has an effect. |
| GmmAnswers.DetachThenUpdate | openbsc/src/gprs/gprs_gmm.c:906-999 | A detach is acknowledged and deregisters the one mobile; its next routing area update is refused. |
| Gmm.GivesUpAtFive | openbsc/src/gprs/gprs_gmm.c:1084-1136 | For every timer: the message that waits for an answer, if there is one, is repeated four times; the fifth expiry deregisters, with an ATTACH REJECT for T3370 only, and the timer is not started again. |

## Left out

- ArfcnRange.CalcArfcn: is for lists with the room that `RangeRoom.Room` gives; with less the source writes past the end of W.
- LlcNumbering.LossyChannel: is for fewer than 2^32 frames lost in a row; `LlcNumbering.CountedRightIff` has the condition for any loss.
- SndcpEntity.Sndcp.LlunitdataInd: is for a PDU whose header is complete if it goes to reassembly; for the others the source reads past its end.
- SndcpEntity.Sndcp.SendUdFrag: is for SAPIs whose N201-U exceeds the header; for the others the source computes a length below zero.
- SndcpEntity.Sndcp.UnitdataReq: the same.
- MobileAlloc.ReadBackIff: is for cells of at most 64 carriers above ARFCN 0; for more the length the source announces exceeds the bitmap.
- MobileAlloc.PaddingIff: the same.
- Gmm.StepKeepsInv: leaves out an empty IMSI that a context without one tells when no context ahead of it lacks one: it would be found as its own older context, and the source would free the context it works on.
- Gmm.InvAlways: the same.
- Gmm.Sgsn.RxIdResp: the same.
- `bitvec2arfcn_list_range`: an unfinished stub that does not compile.
- Ciphering of UI frames, and the XID answer in `gprs_llc_hdr_rx`.
- `gprs_llgmm_assign` and `gprs_llgmm_reset_state`, which reset the LLC entities of a mobile.
- Look-ups of LLC and SNDCP entities by TLLI, SAPI and NSAPI: a method is called on the entity that was found.
- Memory: every allocation succeeds; the 32-bit total length of a reassembly does not wrap.
- Repeated segment numbers and mixed N-PDU numbers in one reassembly, which the source leaves open: the run lemmas exclude the former, the step itself covers both.
- The download to a BS-11, which reads text lines; the progress display; the answer to reading errors.
- A BTS without OML link, to which messages are dropped.
- `ts_c0_alloc`, `ts_free` and the channel load counters: easy members.
- The quarantine of a channel after a link error: `lchan_free` overwrites that state.
- Signals, timers and measurement reports of a logical channel that the allocator does not look at.
- bitvec, TLV and mobile identity parsing: the library is not part of this model, and the methods take what it returns.
- The look-up of mobility contexts by TLLI, which gives the `who` of an event; the code does not keep TLLIs distinct.
- Packet data contexts and session management.
- Several objects of one class are values or separate objects here: aliasing of list entries, as in an `lchan` pointer kept elsewhere, is not captured.
