/** The queue of OML messages of a BTS in abis_nm.c: at most one message that needs an
    acknowledgement is out at a time, and the rest wait their turn. */
module OmlQueue {
  import opened Bytes
  import opened Seqs

  datatype Kind = LoadInit | LoadSeg(data: seq<byte>) | LoadEnd | ActivateSw | Other(id: nat)

  /** A message with its needs-acknowledgement mark. */
  datatype Msg = Msg(kind: Kind, wAck: bool)

  /** The link as a log of what went out, abis_queue, and abis_nm_pend. */
  datatype Oml = Oml(sent: seq<Msg>, queue: seq<Msg>, pend: bool)

  const IDLE := Oml([], [], false)

  // ---- one step ----

  /** abis_nm_queue_msg */
  function Submit(q: Oml, m: Msg): Oml
  {
    if q.queue == [] && !q.pend then Oml(q.sent + [m], [], m.wAck)
    else q.(queue := q.queue + [m])
  }

  function SubmitAll(q: Oml, ms: seq<Msg>): Oml
  {
    if ms == [] then q else Submit(SubmitAll(q, ms[..|ms|-1]), ms[|ms|-1])
  }

  /** The length of the run that may go out at once: up to and with the first message that
      needs an acknowledgement. */
  function RunLen(queue: seq<Msg>): (n: nat)
    ensures n <= |queue|
    ensures queue != [] ==> n > 0
    ensures forall k :: 0 <= k < n - 1 ==> !queue[k].wAck
    ensures n < |queue| ==> queue[n - 1].wAck
    decreases queue
  {
    if queue == [] then 0
    else if queue[0].wAck then 1
    else 1 + RunLen(queue[1..])
  }

  /** abis_nm_queue_send_next */
  function SendNext(q: Oml): Oml
  {
    var n := RunLen(q.queue);
    Oml(q.sent + q.queue[..n], q.queue[n..], n > 0 && q.queue[n - 1].wAck)
  }

  /** abis_nm_clear_queue */
  function Clear(q: Oml): Oml
  {
    Oml(q.sent, [], false)
  }

  // ---- runs ----

  datatype Event = Submitted(msg: Msg) | Next

  function Step(q: Oml, e: Event): Oml
  {
    match e
    case Submitted(m) => Submit(q, m)
    case Next => SendNext(q)
  }

  function Run(q: Oml, es: seq<Event>): Oml
  {
    if es == [] then q else Step(Run(q, es[..|es|-1]), es[|es|-1])
  }

  function Messages(es: seq<Event>): seq<Msg>
  {
    if es == [] then []
    else Messages(es[..|es|-1]) + (match es[|es|-1] case Submitted(m) => [m] case Next => [])
  }

  function Nexts(es: seq<Event>): nat
  {
    if es == [] then 0 else Nexts(es[..|es|-1]) + (if es[|es|-1].Next? then 1 else 0)
  }

  /** How many messages need an acknowledgement. */
  function Acks(ms: seq<Msg>): nat
  {
    if ms == [] then 0 else Acks(ms[..|ms|-1]) + (if ms[|ms|-1].wAck then 1 else 0)
  }

  predicate Gated(q: Oml)
  {
    q.queue != [] ==> q.pend
  }

  /** Nothing is lost, made up or overtaken by a step. */
  lemma StepFifo(q: Oml, e: Event)
    requires Gated(q)
    ensures var r := Step(q, e);
            && r.sent + r.queue == q.sent + q.queue + (match e case Submitted(m) => [m] case Next => [])
            && q.sent <= r.sent
            && Gated(r)
  {
    if e.Next? {
      var n := RunLen(q.queue);
      assert q.queue == q.queue[..n] + q.queue[n..];
    }
  }

  /** First in, first out, over any run: what went out and what waits is what there was and
      what was submitted, in that order; and nothing waits unless an answer is awaited. */
  lemma {:induction false} Fifo(q: Oml, es: seq<Event>)
    requires Gated(q)
    ensures var r := Run(q, es);
            && r.sent + r.queue == q.sent + q.queue + Messages(es)
            && q.sent <= r.sent
            && Gated(r)
  {
    hide Step, Gated;
    if es != [] {
      Fifo(q, es[..|es|-1]);
      StepFifo(Run(q, es[..|es|-1]), es[|es|-1]);
    }
  }

  lemma {:induction false} AcksConcat(a: seq<Msg>, b: seq<Msg>)
    ensures Acks(a + b) == Acks(a) + Acks(b)
    decreases b
  {
    if b == [] {
      assert a + b == a;
    } else {
      AcksConcat(a, b[..|b|-1]);
      LastOfConcat(a, b);
    }
  }

  /** A run that may go out at once has at most one message that needs an acknowledgement,
      its last. */
  lemma {:induction false} RunAcks(queue: seq<Msg>, n: nat)
    requires n <= RunLen(queue)
    ensures Acks(queue[..n]) == if n > 0 && queue[n - 1].wAck then 1 else 0
  {
    if n > 0 {
      RunAcks(queue, n - 1);
      assert queue[..n][..n - 1] == queue[..n - 1];
    }
  }

  function AsOne(b: bool): nat
  {
    if b then 1 else 0
  }

  /** An answer is awaited exactly if the message that went out last for it needs one: the next
      messages after an answer, or one sent at once. */
  lemma StepAcks(q: Oml, e: Event)
    ensures e.Next? ==> Acks(Step(q, e).sent) == Acks(q.sent) + AsOne(Step(q, e).pend)
    ensures e.Submitted? ==> Acks(Step(q, e).sent) - AsOne(Step(q, e).pend) == Acks(q.sent) - AsOne(q.pend)
  {
    match e
    case Submitted(m) => AcksConcat(q.sent, [m]);
    case Next =>
      var n := RunLen(q.queue);
      AcksConcat(q.sent, q.queue[..n]);
      RunAcks(q.queue, n);
  }

  /** The gate, over any run: of the messages that need an acknowledgement at most one more
      went out than there were answers. */
  lemma {:induction false} OneUnanswered(es: seq<Event>)
    ensures Acks(Run(IDLE, es).sent) <= Nexts(es) + AsOne(Run(IDLE, es).pend)
  {
    hide Step;
    if es != [] {
      OneUnanswered(es[..|es|-1]);
      StepAcks(Run(IDLE, es[..|es|-1]), es[|es|-1]);
    }
  }

  /** After a clear the next message goes out at once, and the one after that, too, unless the
      first needs an acknowledgement. */
  lemma ClearedSends(q: Oml, m: Msg, n: Msg)
    ensures Submit(Clear(q), m).sent == q.sent + [m] && Submit(Clear(q), m).queue == []
    ensures Submit(Submit(Clear(q), m), n)
         == if m.wAck then Oml(q.sent + [m], [n], true) else Oml(q.sent + [m] + [n], [], n.wAck)
  {
    assert [] + [n] == [n];
  }

  // ---- draining ----

  /** How many runs the queue goes out in. */
  function Runs(queue: seq<Msg>): nat
  {
    if queue == [] then 0 else 1 + Runs(queue[RunLen(queue)..])
  }

  function Answers(n: nat): seq<Event>
  {
    seq(n, _ => Next)
  }

  /** The queue is empty after as many answers as it has runs, and not before. */
  lemma {:induction false} Drains(q: Oml, n: nat)
    ensures Run(q, Answers(n)).queue == [] <==> n >= Runs(q.queue)
    ensures n < Runs(q.queue) ==> Runs(Run(q, Answers(n)).queue) == Runs(q.queue) - n
  {
    if n > 0 {
      Drains(q, n - 1);
      assert Answers(n)[..n - 1] == Answers(n - 1);
      assert Run(q, Answers(n)) == SendNext(Run(q, Answers(n - 1)));
    }
  }

  /** The last message of a queue is the last of its first run or of what follows it. */
  lemma RunEnds(queue: seq<Msg>, n: nat)
    requires queue != [] && n == RunLen(queue)
    ensures 0 < n && Runs(queue) == 1 + Runs(queue[n..])
    ensures n == |queue| ==> queue[n..] == [] && queue[|queue|-1] == queue[n - 1]
    ensures n < |queue| ==> queue[n..] != [] && queue[n..][|queue[n..]|-1] == queue[|queue|-1]
    ensures n < |queue| ==> queue[n - 1].wAck
  {
    hide RunLen;
  }

  /** One run per message that needs an acknowledgement, and one for what comes after the
      last of them. */
  lemma {:induction false} RunsAreAcks(queue: seq<Msg>)
    ensures Runs(queue) == Acks(queue) + (if queue != [] && !queue[|queue|-1].wAck then 1 else 0)
    decreases queue
  {
    if queue != [] {
      var n := RunLen(queue);
      RunsAreAcks(queue[n..]);
      RunAcks(queue, n);
      AcksConcat(queue[..n], queue[n..]);
      Split(queue, n);
      RunEnds(queue, n);
      hide Acks, RunLen;
    }
  }

  // ---- the queue as the source keeps it ----

  /** Moving entry k of the queue to the link. */
  lemma OneOut(link: seq<Msg>, queue: seq<Msg>, k: nat)
    requires k < |queue| && k <= RunLen(queue) && (k > 0 ==> !queue[k - 1].wAck)
    ensures k < RunLen(queue) && queue[k..][0] == queue[k] && queue[k..][1..] == queue[k + 1..]
    ensures link + queue[..k] + [queue[k]] == link + queue[..k + 1]
  {
    hide RunLen;
    Rest(queue, k);
    Snoc(queue, k);
    Assoc(link, queue[..k], [queue[k]]);
  }

  class Bts {
    var link: seq<Msg>
    var abisQueue: seq<Msg>
    var abisNmPend: bool

    function State(): Oml
      reads this
    {
      Oml(link, abisQueue, abisNmPend)
    }

    constructor ()
      ensures State() == IDLE
    {
      link, abisQueue, abisNmPend := [], [], false;
    }

    /** abis_nm_queue_msg */
    method QueueMsg(m: Msg)
      modifies this
      ensures State() == Submit(old(State()), m)
    {
      if abisQueue == [] && !abisNmPend {
        abisNmPend := m.wAck;
        link := link + [m];
      } else {
        abisQueue := abisQueue + [m];
      }
    }

    /** abis_nm_queue_send_next */
    method QueueSendNext()
      modifies this
      ensures State() == SendNext(old(State()))
    {
      hide RunLen;
      var wait := false;
      ghost var link0, queue0, k := link, abisQueue, 0;
      while abisQueue != []
        invariant k <= RunLen(queue0) && abisQueue == queue0[k..] && link == link0 + queue0[..k]
        invariant !wait && (k > 0 ==> !queue0[k - 1].wAck)
        decreases |abisQueue|
      {
        OneOut(link0, queue0, k);
        var m := abisQueue[0];
        abisQueue := abisQueue[1..];
        wait := m.wAck;
        link := link + [m];
        k := k + 1;
        if wait {
          break;
        }
      }
      abisNmPend := wait;
    }

    /** abis_nm_clear_queue */
    method ClearQueue()
      modifies this
      ensures State() == Clear(old(State()))
    {
      while abisQueue != []
        invariant link == old(link)
        decreases |abisQueue|
      {
        abisQueue := abisQueue[1..];
      }
      abisNmPend := false;
    }
  }
}
