/** The release of a logical channel's data links: chan_alloc.c asks the BTS to release one
    SAPI after the other, and the answers handled in abis_rsl.c drive it on. */
module RllRelease {
  import opened Seqs

  datatype SapiUse = Unused | ByMs | ByNet

  /** What goes out: a request to release a link, or the RR channel release that also
      deactivates the SACCH. */
  datatype Out = RelReq(linkId: nat, mode: nat) | RrRelease

  const SAPIS := 8

  /** The part of gsm_lchan that matters here. releasing says that the state is
      LCHAN_S_REL_REQ; timer counts the starts of T3111. */
  datatype Rll = Rll(tch: bool, releasing: bool, sapis: seq<SapiUse>, sachDeact: bool, reason: nat,
                     out: seq<Out>, timer: nat)

  predicate Formed(s: Rll)
  {
    |s.sapis| == SAPIS
  }

  datatype Event =
    | Release(sachDeact: bool, reason: nat)
    | EstInd(linkId: nat)
    | EstConf(linkId: nat)
    | RelInd(linkId: nat)
    | RelConf(linkId: nat)

  function SapiOf(linkId: nat): (k: nat)
    ensures k < SAPIS
  {
    linkId % 8
  }

  /** Traffic channels carry the other SAPIs on their slow associated channel. */
  function LinkId(tch: bool, sapi: nat): (l: nat)
    requires sapi < SAPIS
    ensures SapiOf(l) == sapi
  {
    if tch then sapi + 0x40 else sapi
  }

  /** The first SAPI from k on that is in use. */
  function NextUsed(sapis: seq<SapiUse>, k: nat): (n: nat)
    requires k <= |sapis|
    ensures k <= n <= |sapis| && (n < |sapis| ==> sapis[n] != Unused)
    ensures forall i :: k <= i < n ==> sapis[i] == Unused
    decreases |sapis| - k
  {
    if k == |sapis| || sapis[k] != Unused then k else NextUsed(sapis, k + 1)
  }

  /** _lchan_handle_release with _lchan_release_next_sapi */
  function HandleRelease(s: Rll): (r: Rll)
    requires Formed(s)
    ensures Formed(r)
  {
    var k := NextUsed(s.sapis, 1);
    if k < SAPIS then s.(out := s.out + [RelReq(LinkId(s.tch, k), s.reason)])
    else if s.sachDeact then s.(out := s.out + [RrRelease])
    else s.(out := s.out + [RelReq(0, s.reason)], releasing := true)
  }

  predicate AllUnused(sapis: seq<SapiUse>)
  {
    forall k :: 0 <= k < |sapis| ==> sapis[k] == Unused
  }

  /** rsl_handle_release, then rsl_lchan_rll_release */
  function Released(s: Rll, linkId: nat): (r: Rll)
    requires Formed(s)
    ensures Formed(r)
  {
    var t := s.(sapis := s.sapis[SapiOf(linkId) := Unused]);
    var u := if t.releasing && AllUnused(t.sapis) then t.(timer := t.timer + 1) else t;
    if u.releasing && SapiOf(linkId) != 0 then HandleRelease(u) else u
  }

  function Step(s: Rll, e: Event): (r: Rll)
    requires Formed(s)
    ensures Formed(r)
  {
    match e
    case Release(sach, reason) => HandleRelease(s.(releasing := true, sachDeact := sach, reason := reason))
    case EstInd(l) => s.(sapis := s.sapis[SapiOf(l) := ByMs])
    case EstConf(l) => s.(sapis := s.sapis[SapiOf(l) := ByNet])
    case RelInd(l) => Released(s, l)
    case RelConf(l) => Released(s, l)
  }

  // ---- the program's own form ----

  class Lchan {
    var tch: bool
    var releasing: bool
    const sapis: array<SapiUse>
    var sachDeact: bool
    var releaseReason: nat
    var sent: seq<Out>
    var t3111Starts: nat

    ghost predicate Valid()
      reads this
    {
      sapis.Length == SAPIS
    }

    ghost function Value(): Rll
      reads this, sapis
    {
      Rll(tch, releasing, sapis[..], sachDeact, releaseReason, sent, t3111Starts)
    }

    constructor (tch: bool)
      ensures Valid() && fresh(sapis)
      ensures Value() == Rll(tch, false, seq(SAPIS, _ => Unused), false, 0, [], 0)
    {
      this.tch, releasing, sachDeact, releaseReason, sent, t3111Starts := tch, false, false, 0, [], 0;
      sapis := new SapiUse[SAPIS](_ => Unused);
      new;
      assert sapis[..] == seq(SAPIS, _ => Unused);
    }

    /** _lchan_release_next_sapi; done says that no SAPI but 0 is left. */
    method ReleaseNextSapi() returns (done: bool)
      requires Valid()
      modifies this`sent
      ensures done <==> NextUsed(sapis[..], 1) == SAPIS
      ensures !done ==> sent == old(sent) + [RelReq(LinkId(tch, NextUsed(sapis[..], 1)), releaseReason)]
      ensures done ==> sent == old(sent)
    {
      var sapi := 1;
      while sapi < sapis.Length
        invariant 1 <= sapi <= sapis.Length
        invariant NextUsed(sapis[..], 1) == NextUsed(sapis[..], sapi)
        invariant sent == old(sent)
      {
        if sapis[sapi] != Unused {
          var linkId := sapi;
          if tch {
            linkId := linkId + 0x40;
          }
          sent := sent + [RelReq(linkId, releaseReason)];
          return false;
        }
        sapi := sapi + 1;
      }
      done := true;
    }

    /** _lchan_handle_release */
    method DoHandleRelease()
      requires Valid()
      modifies this`sent, this`releasing
      ensures Value() == HandleRelease(old(Value()))
    {
      var done := ReleaseNextSapi();
      if !done {
        return;
      }
      if sachDeact {
        sent := sent + [RrRelease];
        return;
      }
      sent := sent + [RelReq(0, releaseReason)];
      releasing := true;
    }

    /** rsl_lchan_rll_release */
    method RllReleased(linkId: nat)
      requires Valid()
      modifies this`sent, this`releasing
      ensures Value() == if old(releasing) && SapiOf(linkId) != 0 then HandleRelease(old(Value())) else old(Value())
    {
      if !releasing {
        return;
      }
      if SapiOf(linkId) != 0 {
        DoHandleRelease();
      }
    }

    /** lchan_release */
    method LchanRelease(sach: bool, reason: nat)
      requires Valid()
      modifies this`sent, this`releasing, this`sachDeact, this`releaseReason
      ensures Value() == Step(old(Value()), Release(sach, reason))
    {
      releasing := true;
      releaseReason := reason;
      sachDeact := sach;
      DoHandleRelease();
    }

    /** rsl_handle_release */
    method RslHandleRelease()
      requires Valid()
      modifies this`t3111Starts
      ensures t3111Starts == old(t3111Starts) + if releasing && AllUnused(sapis[..]) then 1 else 0
    {
      if !releasing {
        return;
      }
      var sapi := 0;
      while sapi < sapis.Length
        invariant 0 <= sapi <= sapis.Length
        invariant forall k :: 0 <= k < sapi ==> sapis[k] == Unused
        invariant t3111Starts == old(t3111Starts)
      {
        if sapis[sapi] != Unused {
          assert sapis[..][sapi] != Unused;
          return;
        }
        sapi := sapi + 1;
      }
      t3111Starts := t3111Starts + 1;
    }

    /** The establish and release cases of abis_rsl_rx_rll. */
    method RxRll(e: Event)
      requires Valid() && !e.Release?
      modifies this, sapis
      ensures Value() == Step(old(Value()), e)
    {
      var k := SapiOf(e.linkId);
      if e.EstInd? {
        sapis[k] := ByMs;
      } else if e.EstConf? {
        sapis[k] := ByNet;
      } else {
        sapis[k] := Unused;
        assert sapis[..] == old(sapis[..])[k := Unused];
        RslHandleRelease();
        RllReleased(e.linkId);
      }
    }
  }

  // ---- any run ----

  function UsedCount(sapis: seq<SapiUse>): nat
  {
    if sapis == [] then 0
    else UsedCount(sapis[..|sapis|-1]) + if sapis[|sapis|-1] != Unused then 1 else 0
  }

  /** Clearing a SAPI takes it out of the count, and nothing else. */
  lemma {:induction false} UsedCleared(sapis: seq<SapiUse>, k: nat)
    requires k < |sapis|
    ensures UsedCount(sapis[k := Unused]) == UsedCount(sapis) - if sapis[k] != Unused then 1 else 0
  {
    var n := |sapis| - 1;
    if k < n {
      UsedCleared(sapis[..n], k);
      assert sapis[k := Unused][..n] == sapis[..n][k := Unused];
    } else {
      assert sapis[k := Unused][..n] == sapis[..n];
    }
  }

  /** The request, if any, that is legal in a state: the lowest SAPI in use above 0, and SAPI 0
      or the RR release when there is none. */
  function Due(s: Rll): Out
    requires Formed(s)
  {
    var k := NextUsed(s.sapis, 1);
    if k < SAPIS then RelReq(LinkId(s.tch, k), s.reason)
    else if s.sachDeact then RrRelease
    else RelReq(0, s.reason)
  }

  predicate Answer(e: Event)
  {
    e.RelInd? || e.RelConf?
  }

  /** Whatever the BTS answers: at most one message goes out per answer, and it is the one due
      then; T3111 is started exactly by an answer that leaves no SAPI in use; and the number
      of SAPIs in use falls with every answer about one that was in use and never grows. */
  lemma AnswerStep(s: Rll, e: Event)
    requires Formed(s) && s.releasing && Answer(e)
    ensures var t := Step(s, e);
            && t.releasing && t.sachDeact == s.sachDeact && t.reason == s.reason && t.tch == s.tch
            && t.out == s.out + (if SapiOf(e.linkId) != 0 then [Due(t)] else [])
            && (t.timer == s.timer + 1 <==> UsedCount(t.sapis) == 0)
            && (t.timer == s.timer <==> UsedCount(t.sapis) > 0)
            && UsedCount(t.sapis) == UsedCount(s.sapis) - if s.sapis[SapiOf(e.linkId)] != Unused then 1 else 0
  {
    UsedCleared(s.sapis, SapiOf(e.linkId));
    CountZero(s.sapis[SapiOf(e.linkId) := Unused]);
    hide UsedCount, NextUsed, SapiOf;
  }

  lemma {:induction false} CountZero(sapis: seq<SapiUse>)
    ensures UsedCount(sapis) == 0 <==> AllUnused(sapis)
  {
    if sapis != [] {
      CountZero(sapis[..|sapis|-1]);
      assert AllUnused(sapis) <==> AllUnused(sapis[..|sapis|-1]) && sapis[|sapis|-1] == Unused by {
        assert forall k :: 0 <= k < |sapis| - 1 ==> sapis[k] == sapis[..|sapis|-1][k];
      }
    }
  }

  /** The release is under way, and the last message is the due one. */
  predicate UnderWay(s: Rll)
  {
    Formed(s) && s.releasing && s.out != [] && s.out[|s.out|-1] == Due(s)
  }

  /** The SAPI that the last message is about. */
  function Asked(s: Rll): (k: nat)
    requires Formed(s)
    ensures k < SAPIS
  {
    if NextUsed(s.sapis, 1) < SAPIS then NextUsed(s.sapis, 1) else 0
  }

  /** An answer about a SAPI other than 0 sends out the last message once more exactly when that
      message was about another SAPI; an answer about SAPI 0 sends out nothing. */
  lemma AskedAgainIff(s: Rll, e: Event)
    requires UnderWay(s) && Answer(e)
    ensures UnderWay(Step(s, e))
    ensures Step(s, e).out == s.out + [s.out[|s.out|-1]] <==> SapiOf(e.linkId) != 0 && SapiOf(e.linkId) != Asked(s)
  {
    var t, j := Step(s, e), SapiOf(e.linkId);
    AnswerStep(s, e);
    NextAfterClear(s.sapis, j);
    LinkIdsDiffer(s.tch, NextUsed(s.sapis, 1), NextUsed(t.sapis, 1));
    ReleaseClears(s, e);
    hide NextUsed, UsedCount, SapiOf, Step, LinkId;
  }

  lemma NextAfterClear(sapis: seq<SapiUse>, j: nat)
    requires |sapis| == SAPIS && j < SAPIS
    ensures NextUsed(sapis[j := Unused], 1) == NextUsed(sapis, 1) <==> j == 0 || j != NextUsed(sapis, 1)
  {
    var t, k, n := sapis[j := Unused], NextUsed(sapis, 1), NextUsed(sapis[j := Unused], 1);
    assert forall i :: 1 <= i < k ==> t[i] == Unused;
    if k < SAPIS && j != k {
      assert t[k] != Unused;
    } else if k < SAPIS {
      assert t[k] == Unused;
    }
  }

  lemma LinkIdsDiffer(tch: bool, j: nat, k: nat)
    requires j <= SAPIS && k <= SAPIS
    ensures j < SAPIS && k < SAPIS && j != k ==> LinkId(tch, j) != LinkId(tch, k)
    ensures 0 < j < SAPIS ==> LinkId(tch, j) != 0
  {
  }

  // ---- any run of answers ----

  predicate Answers(es: seq<Event>)
  {
    forall i :: 0 <= i < |es| ==> Answer(es[i])
  }

  /** What is left of a channel after a run of answers, in whatever order and however often. */
  function Run(s: Rll, es: seq<Event>): (r: Rll)
    requires Formed(s)
    ensures Formed(r)
  {
    if es == [] then s else Step(Run(s, es[..|es|-1]), es[|es|-1])
  }

  predicate Answered(es: seq<Event>, k: nat)
    requires Answers(es)
  {
    exists i :: 0 <= i < |es| && SapiOf(es[i].linkId) == k
  }

  /** Every SAPI in use was answered about. */
  predicate AllAnswered(s: Rll, es: seq<Event>)
    requires Formed(s) && Answers(es)
  {
    forall k: nat :: k < SAPIS && s.sapis[k] != Unused ==> Answered(es, k)
  }

  /** Over any run of answers a SAPI is in use exactly if it was at the start and no answer was
      about it, and the number of those in use never grows. */
  lemma {:induction false} RunSapis(s: Rll, es: seq<Event>, k: nat)
    requires Formed(s) && s.releasing && Answers(es) && k < SAPIS
    ensures var r := Run(s, es);
            && r.releasing && UsedCount(r.sapis) <= UsedCount(s.sapis)
            && (r.sapis[k] != Unused <==> s.sapis[k] != Unused && !Answered(es, k))
  {
    hide Step, UsedCount, SapiOf;
    if es != [] {
      var n := |es| - 1;
      var t, e := es[..n], es[n];
      RunSapis(s, t, k);
      AnswerStep(Run(s, t), e);
      ReleaseClears(Run(s, t), e);
      assert Answered(es, k) <==> Answered(t, k) || SapiOf(e.linkId) == k by {
        if Answered(t, k) {
          var i :| 0 <= i < |t| && SapiOf(t[i].linkId) == k;
          assert SapiOf(es[i].linkId) == k;
        }
        if Answered(es, k) && SapiOf(e.linkId) != k {
          var i :| 0 <= i < |es| && SapiOf(es[i].linkId) == k;
          assert SapiOf(t[i].linkId) == k;
        }
      }
    }
  }

  /** Over any run of answers T3111 is started exactly by those after which every SAPI that was
      in use has been answered about. */
  lemma TimerStartsIff(s: Rll, es: seq<Event>)
    requires Formed(s) && s.releasing && Answers(es) && es != []
    ensures Run(s, es).timer == Run(s, es[..|es|-1]).timer + if AllAnswered(s, es) then 1 else 0
  {
    var t, e := es[..|es|-1], es[|es|-1];
    RunSapis(s, t, 0);
    AnswerStep(Run(s, t), e);
    forall k: nat | k < SAPIS
      ensures Run(s, es).sapis[k] != Unused <==> s.sapis[k] != Unused && !Answered(es, k)
    {
      RunSapis(s, es, k);
    }
    CountZero(Run(s, es).sapis);
    hide Step, UsedCount, Answered;
  }

  // ---- any run of answers and establishments ----

  predicate LinkEvents(es: seq<Event>)
  {
    forall i :: 0 <= i < |es| ==> !es[i].Release?
  }

  /** Event i of a run is the last one about SAPI k. */
  predicate LastAbout(es: seq<Event>, i: nat, k: nat)
    requires i < |es| && LinkEvents(es)
  {
    SapiOf(es[i].linkId) == k && forall j :: i < j < |es| ==> SapiOf(es[j].linkId) != k
  }

  predicate NoneAbout(es: seq<Event>, k: nat)
    requires LinkEvents(es)
  {
    forall j :: 0 <= j < |es| ==> SapiOf(es[j].linkId) != k
  }

  /** Over any run a SAPI is as the last event about it leaves it: in use by the mobile after an
      indication that it was established, by the network after a confirmation, and unused after a
      release; and without such an event it is as it was. */
  lemma {:induction false} RunUse(s: Rll, es: seq<Event>, k: nat, i: nat)
    requires Formed(s) && LinkEvents(es) && k < SAPIS
    ensures NoneAbout(es, k) ==> Run(s, es).sapis[k] == s.sapis[k]
    ensures i < |es| && LastAbout(es, i, k) ==>
              Run(s, es).sapis[k] == if es[i].EstInd? then ByMs else if es[i].EstConf? then ByNet else Unused
  {
    hide Step, SapiOf;
    if es != [] {
      var n := |es| - 1;
      var t, e := es[..n], es[n];
      assert LinkEvents(t);
      RunUse(s, t, k, i);
      UseStep(Run(s, t), e);
      assert NoneAbout(es, k) ==> NoneAbout(t, k) && SapiOf(e.linkId) != k;
      assert i < n && LastAbout(es, i, k) ==> LastAbout(t, i, k) && SapiOf(e.linkId) != k;
    }
  }

  /** What one event does to the SAPIs. */
  lemma UseStep(s: Rll, e: Event)
    requires Formed(s) && !e.Release?
    ensures Step(s, e).sapis
         == s.sapis[SapiOf(e.linkId) := if e.EstInd? then ByMs else if e.EstConf? then ByNet else Unused]
  {
    hide NextUsed, SapiOf;
  }

  /** Over any run of answers and establishments T3111 is started exactly by the answers that leave no
      SAPI in use while the channel is being released, and messages go out exactly for the answers
      about a SAPI above 0; with no release under way nothing goes out and no timer is started. */
  lemma {:induction false} RunSends(s: Rll, es: seq<Event>)
    requires Formed(s) && LinkEvents(es)
    ensures var r := Run(s, es);
            && r.releasing == s.releasing && r.sachDeact == s.sachDeact && r.reason == s.reason && r.tch == s.tch
            && (!s.releasing ==> r.out == s.out && r.timer == s.timer)
            && (s.releasing && es != [] ==>
                  var before, e := Run(s, es[..|es|-1]), es[|es|-1];
                  && r.timer == before.timer + (if Answer(e) && AllUnused(r.sapis) then 1 else 0)
                  && r.out == before.out + (if Answer(e) && SapiOf(e.linkId) != 0 then [Due(r)] else []))
  {
    hide Step, SapiOf;
    if es != [] {
      var t, e := es[..|es|-1], es[|es|-1];
      assert LinkEvents(t);
      RunSends(s, t);
      SendStep(Run(s, t), e);
    }
  }

  lemma SendStep(s: Rll, e: Event)
    requires Formed(s) && !e.Release?
    ensures var t := Step(s, e);
            && t.releasing == s.releasing && t.sachDeact == s.sachDeact && t.reason == s.reason && t.tch == s.tch
            && t.timer == s.timer + (if s.releasing && Answer(e) && AllUnused(t.sapis) then 1 else 0)
            && t.out == s.out + (if s.releasing && Answer(e) && SapiOf(e.linkId) != 0 then [Due(t)] else [])
  {
    if !Answer(e) {
      EstablishSends(s, e);
    } else if s.releasing {
      AnswerStep(s, e);
      CountZero(Step(s, e).sapis);
      hide Step, NextUsed, SapiOf, UsedCount, AllUnused, Due;
    } else {
      AnswerQuiet(s, e);
    }
  }

  lemma EstablishSends(s: Rll, e: Event)
    requires Formed(s) && (e.EstInd? || e.EstConf?)
    ensures Step(s, e) == s.(sapis := Step(s, e).sapis)
  {
    hide SapiOf;
  }

  lemma AnswerQuiet(s: Rll, e: Event)
    requires Formed(s) && !s.releasing && Answer(e)
    ensures Step(s, e) == s.(sapis := Step(s, e).sapis)
  {
    hide SapiOf, HandleRelease;
  }

  // ---- a BTS that confirms each request ----

  /** What ends the sequence. */
  function Final(s: Rll): Out
  {
    if s.sachDeact then RrRelease else RelReq(0, s.reason)
  }

  /** The messages due for SAPIs k .. 7 and then for SAPI 0. */
  function Expected(s: Rll, k: nat): (r: seq<Out>)
    requires Formed(s) && 1 <= k <= SAPIS
    ensures |r| >= 1
    decreases SAPIS - k
  {
    if k == SAPIS then [Final(s)]
    else if s.sapis[k] == Unused then Expected(s, k + 1)
    else [RelReq(LinkId(s.tch, k), s.reason)] + Expected(s, k + 1)
  }

  /** A request for a SAPI in use. */
  predicate ForUsed(s: Rll, o: Out, k: nat)
    requires Formed(s)
  {
    && o.RelReq? && k <= SapiOf(o.linkId) && s.sapis[SapiOf(o.linkId)] != Unused
    && o == RelReq(SapiOf(o.linkId) + (if s.tch then 0x40 else 0), s.reason)
  }

  /** They are requests for SAPIs in use, in ascending order, and the final message. */
  lemma {:induction false} ExpectedAscends(s: Rll, k: nat)
    requires Formed(s) && 1 <= k <= SAPIS
    ensures var r := Expected(s, k);
            && r[|r|-1] == Final(s)
            && (forall i :: 0 <= i < |r| - 1 ==> ForUsed(s, r[i], k))
            && (forall i, j :: 0 <= i < j < |r| - 1 ==> SapiOf(r[i].linkId) < SapiOf(r[j].linkId))
    decreases SAPIS - k
  {
    LinkIdIs(s.tch, k);
    hide SapiOf, LinkId;
    if k < SAPIS {
      ExpectedAscends(s, k + 1);
      var r, rest := Expected(s, k), Expected(s, k + 1);
      if s.sapis[k] != Unused {
        assert r[0] == RelReq(LinkId(s.tch, k), s.reason);
        assert forall i :: 0 < i < |r| ==> r[i] == rest[i - 1];
      }
    }
  }

  lemma LinkIdIs(tch: bool, sapi: nat)
    ensures sapi < SAPIS ==> LinkId(tch, sapi) == sapi + (if tch then 0x40 else 0)
  {
  }

  /** Every SAPI in use is among them. */
  lemma {:induction false} ExpectedHas(s: Rll, k: nat, j: nat)
    requires Formed(s) && 1 <= k <= j < SAPIS && s.sapis[j] != Unused
    ensures RelReq(j + (if s.tch then 0x40 else 0), s.reason) in Expected(s, k)
    decreases SAPIS - k
  {
    hide SapiOf;
    if k < j {
      ExpectedHas(s, k + 1, j);
    }
  }

  lemma {:induction false} ExpectedSkips(s: Rll, j: nat, k: nat)
    requires Formed(s) && 1 <= j <= k <= SAPIS
    requires forall i :: j <= i < k ==> s.sapis[i] == Unused
    ensures Expected(s, j) == Expected(s, k)
    decreases k - j
  {
    hide LinkId;
    if j < k {
      ExpectedSkips(s, j + 1, k);
    }
  }

  lemma {:induction false} ExpectedSame(s: Rll, t: Rll, k: nat)
    requires Formed(s) && Formed(t) && 1 <= k <= SAPIS
    requires s.tch == t.tch && s.reason == t.reason && s.sachDeact == t.sachDeact
    requires forall i :: k <= i < SAPIS ==> (s.sapis[i] == Unused <==> t.sapis[i] == Unused)
    ensures Expected(s, k) == Expected(t, k)
    decreases SAPIS - k
  {
    hide LinkId;
    if k < SAPIS {
      ExpectedSame(s, t, k + 1);
    }
  }

  /** The message due is the first of those expected; the others are those expected once its
      SAPI is released. */
  lemma ExpectedFirst(s: Rll)
    requires Formed(s)
    ensures Expected(s, 1)[0] == Due(s)
    ensures NextUsed(s.sapis, 1) == SAPIS <==> |Expected(s, 1)| == 1
  {
    ExpectedSkips(s, 1, NextUsed(s.sapis, 1));
  }

  lemma ExpectedAfter(s: Rll, t: Rll)
    requires Formed(s) && Formed(t) && NextUsed(s.sapis, 1) < SAPIS
    requires s.tch == t.tch && s.reason == t.reason && s.sachDeact == t.sachDeact
    requires t.sapis == s.sapis[NextUsed(s.sapis, 1) := Unused]
    ensures Expected(s, 1) == [Due(s)] + Expected(t, 1)
  {
    var k := NextUsed(s.sapis, 1);
    ExpectedSkips(s, 1, k);
    ExpectedSame(s, t, k + 1);
    ExpectedSkips(t, 1, k + 1);
  }

  /** The BTS confirms the last request n times in turn. */
  function Confirms(s: Rll, n: nat): (r: Rll)
    requires Formed(s)
    ensures Formed(r)
  {
    if n == 0 then s
    else
      var r := Confirms(s, n - 1);
      if r.out != [] && r.out[|r.out|-1].RelReq? then Step(r, RelConf(r.out[|r.out|-1].linkId)) else r
  }

  /** A confirmed request leads to the next message. */
  lemma ConfirmStep(s: Rll)
    requires UnderWay(s) && NextUsed(s.sapis, 1) < SAPIS
    ensures var t := Confirms(s, 1);
            && UnderWay(t) && t.out == s.out + [Due(t)]
            && t.sapis == s.sapis[NextUsed(s.sapis, 1) := Unused]
            && t.tch == s.tch && t.reason == s.reason && t.sachDeact == s.sachDeact
            && (t.timer != s.timer ==> AllUnused(t.sapis))
  {
    var k := NextUsed(s.sapis, 1);
    var e := RelConf(LinkId(s.tch, k));
    assert Confirms(s, 0) == s;
    assert Confirms(s, 1) == Step(s, e);
    hide UsedCount, NextUsed, SapiOf, LinkId, Confirms, Step;
    AnswerStep(s, e);
    CountZero(Step(s, e).sapis);
    ReleaseClears(s, e);
  }

  lemma ReleaseClears(s: Rll, e: Event)
    requires Formed(s) && Answer(e)
    ensures Step(s, e).sapis == s.sapis[SapiOf(e.linkId) := Unused]
  {
    hide NextUsed, SapiOf;
  }

  lemma ConfirmOne(s: Rll, n: nat)
    requires Formed(s) && n > 0
    ensures Confirms(s, n) == Confirms(Confirms(s, n - 1), 1)
  {
    assert Confirms(Confirms(s, n - 1), 0) == Confirms(s, n - 1);
  }

  lemma {:induction false} Follow(s: Rll, n: nat)
    requires UnderWay(s) && n < |Expected(s, 1)|
    ensures var r := Confirms(s, n);
            && UnderWay(r) && r.tch == s.tch && r.reason == s.reason && r.sachDeact == s.sachDeact
            && r.out == s.out + Expected(s, 1)[1..n + 1]
            && Expected(r, 1) == Expected(s, 1)[n..]
            && (r.timer != s.timer ==> AllUnused(r.sapis))
  {
    if n > 0 {
      Follow(s, n - 1);
      var r, t, all := Confirms(s, n - 1), Confirms(s, n), Expected(s, 1);
      ConfirmOne(s, n);
      ExpectedFirst(r);
      hide *;
      UsedBound(r.sapis);
      ConfirmStep(r);
      ExpectedAfter(r, t);
      ExpectedFirst(t);
      TimerOnce(s, r);
      Advance(s.out, all, n, Due(r), Expected(t, 1));
    }
  }

  lemma UsedBound(sapis: seq<SapiUse>)
    requires |sapis| >= 1
    ensures NextUsed(sapis, 1) <= |sapis|
  {
  }

  lemma Advance(out: seq<Out>, all: seq<Out>, n: nat, first: Out, rest: seq<Out>)
    requires 0 < n < |all| && all[n - 1..] == [first] + rest
    ensures rest == all[n..] && |rest| > 0 && rest[0] == all[n]
    ensures out + all[1..n] + [all[n]] == out + all[1..n + 1]
  {
    assert all[n - 1..][1..] == all[n..];
    assert all[1..n] + [all[n]] == all[1..n + 1];
    Assoc(out, all[1..n], [all[n]]);
  }

  lemma TimerOnce(s: Rll, r: Rll)
    requires Formed(r) && NextUsed(r.sapis, 1) < SAPIS
    requires r.timer != s.timer ==> AllUnused(r.sapis)
    ensures r.timer == s.timer
  {
  }

  /** The release sequence. Whatever SAPIs are in use, the requests go out one per
      confirmation, for the SAPIs in use above 0 in ascending order and then for SAPI 0 (or as
      the RR release). T3111 is not started before no SAPI is in use, and the answer about
      SAPI 0 starts it. */
  lemma ReleaseSequence(s: Rll, sach: bool, reason: nat, n: nat, last: Event)
    requires Formed(s) && n < |Expected(s.(sachDeact := sach, reason := reason), 1)|
    requires Answer(last) && SapiOf(last.linkId) == 0
    ensures var begun := Step(s, Release(sach, reason));
            var all := Expected(s.(sachDeact := sach, reason := reason), 1);
            var r := Confirms(begun, n);
            && r.out == s.out + all[..n + 1]
            && all[|all|-1] == (if sach then RrRelease else RelReq(0, reason))
            && begun == s.(sachDeact := sach, reason := reason, releasing := true, out := begun.out)
            && (r.timer != s.timer ==> AllUnused(r.sapis))
            && (n == |all| - 1 ==>
                  var t := Step(r, last); AllUnused(t.sapis) && t.timer == r.timer + 1 && t.out == r.out)
  {
    hide *;
    BegunExpects(s, sach, reason);
    var begun := Step(s, Release(sach, reason));
    FollowToEnd(begun, n, last);
    FirstAndMore(s.out, Expected(begun, 1), n);
  }

  lemma FirstAndMore(out: seq<Out>, all: seq<Out>, n: nat)
    requires n < |all|
    ensures out + [all[0]] + all[1..n + 1] == out + all[..n + 1]
  {
    assert all[..n + 1] == [all[0]] + all[1..n + 1];
    Assoc(out, [all[0]], all[1..n + 1]);
  }

  /** From a release under way to its end. */
  lemma FollowToEnd(begun: Rll, n: nat, last: Event)
    requires UnderWay(begun) && n < |Expected(begun, 1)|
    requires Answer(last) && SapiOf(last.linkId) == 0
    ensures var all := Expected(begun, 1);
            var r := Confirms(begun, n);
            && r.out == begun.out + all[1..n + 1]
            && (r.timer != begun.timer ==> AllUnused(r.sapis))
            && (n == |all| - 1 ==>
                  var t := Step(r, last); AllUnused(t.sapis) && t.timer == r.timer + 1 && t.out == r.out)
  {
    var r := Confirms(begun, n);
    hide *;
    Follow(begun, n);
    if n == |Expected(begun, 1)| - 1 {
      ExpectedFirst(r);
      LastAnswer(r, last);
    }
  }

  /** What is expected once a release has begun, by its arguments. */
  lemma BegunExpects(s: Rll, sach: bool, reason: nat)
    requires Formed(s)
    ensures var begun := Step(s, Release(sach, reason));
            var all := Expected(begun, 1);
            && UnderWay(begun) && begun.out == s.out + [all[0]]
            && begun == s.(sachDeact := sach, reason := reason, releasing := true, out := begun.out)
            && all == Expected(s.(sachDeact := sach, reason := reason), 1)
            && all[|all|-1] == if sach then RrRelease else RelReq(0, reason)
  {
    var begun := Step(s, Release(sach, reason));
    Begins(s, sach, reason);
    hide Step, NextUsed, LinkId, Expected, HandleRelease;
    ExpectedFirst(begun);
    ExpectedAscends(begun, 1);
    ExpectedSame(begun, s.(sachDeact := sach, reason := reason), 1);
  }

  lemma Begins(s: Rll, sach: bool, reason: nat)
    requires Formed(s)
    ensures var begun := Step(s, Release(sach, reason));
            && UnderWay(begun) && begun.out == s.out + [Due(begun)]
            && begun == s.(sachDeact := sach, reason := reason, releasing := true, out := begun.out)
  {
    hide NextUsed;
  }

  /** When only SAPI 0 may be left, the answer about it starts T3111. */
  lemma LastAnswer(r: Rll, last: Event)
    requires UnderWay(r) && NextUsed(r.sapis, 1) == SAPIS
    requires Answer(last) && SapiOf(last.linkId) == 0
    ensures var t := Step(r, last); AllUnused(t.sapis) && t.timer == r.timer + 1 && t.out == r.out
  {
    var t := Step(r, last);
    assert forall k :: 1 <= k < SAPIS ==> t.sapis[k] == Unused;
    hide NextUsed, SapiOf, HandleRelease;
  }
}
