/** Sequence numbers over the life of a socket: why a reply that is left over from an earlier
    request is never taken for a reply to a later one. */
module Requests {
  import opened Bytes
  import opened Builder
  import opened Messages
  import opened Receive
  import opened Dumps

  const WRAP: nat := 0x1_0000_0000

  /** A reply and the number of the request it answers, counted from 1 in the process. */
  datatype Tagged = Tagged(ticket: nat, bytes: Message)

  /** A datagram of replies, and how much of the padding after the last one it keeps. */
  datatype Gram = Gram(replies: seq<Tagged>, kept: nat)

  /** `issued` counts the requests made in the process, on whatever socket, since the counter
      held `base`; `queue` holds the datagrams that wait on the socket in question. */
  datatype State = State(base: uint32, issued: nat, queue: seq<Gram>)

  /** The number that the `n`-th request gets from the wrapping counter. */
  function Number(base: uint32, n: nat): uint32 {
    (base + n) % WRAP
  }

  /** What the kernel is trusted with: a reply carries the number of a request that has been
      made. */
  predicate Honest(h: ByteOrder, base: uint32, issued: nat, t: Tagged) {
    && Finished(h, t.bytes) && 1 <= t.ticket <= issued
    && Seq(h, t.bytes) == Number(base, t.ticket)
  }

  predicate HonestDatagram(h: ByteOrder, base: uint32, issued: nat, d: Gram) {
    d.replies != [] && forall t :: t in d.replies ==> Honest(h, base, issued, t)
  }

  predicate Valid(h: ByteOrder, s: State) {
    forall d :: d in s.queue ==> HonestDatagram(h, s.base, s.issued, d)
  }

  datatype Step =
    // A request on another socket of the process.
    | Elsewhere
    // The kernel queues a datagram.
    | Arrive(d: Gram)
    // A dump: send, let `during` arrive, and receive, which takes `taken` datagrams.
    | Dump(during: seq<Gram>, fails: Consumer, taken: nat)
    // A single request, likewise.
    | Single(during: seq<Gram>, taken: nat)

  function Payloads(d: seq<Tagged>): (ms: seq<Message>)
    ensures |ms| == |d| && forall i :: 0 <= i < |d| ==> ms[i] == d[i].bytes
  {
    if d == [] then [] else [d[0].bytes] + Payloads(d[1..])
  }

  function Parts(queue: seq<Gram>): (parts: seq<Part>)
    ensures |parts| == |queue|
    ensures forall i :: 0 <= i < |queue| ==> parts[i] == Part(Payloads(queue[i].replies), queue[i].kept)
  {
    if queue == [] then [] else [Part(Payloads(queue[0].replies), queue[0].kept)] + Parts(queue[1..])
  }

  /** What is in the socket's queue when the step receives. */
  function Queued(s: State, step: Step): seq<Recv>
    requires step.Dump? || step.Single?
  {
    Datagrams(Parts(s.queue + step.during))
  }

  function DumpRun(h: ByteOrder, port: uint32, s: State, step: Step): Run<seq<Message>>
    requires step.Dump?
  {
    ReceiveAll(Stream(h, Queued(s, step)), [], DumpCallback(h, port, Number(s.base, s.issued + 1), step.fails))
  }

  function SingleRun(h: ByteOrder, port: uint32, s: State, step: Step): Run<Option<Message>>
    requires step.Single?
  {
    ReceiveAll(Stream(h, Queued(s, step)), None, RequestCallback(h, port, Number(s.base, s.issued + 1)))
  }

  ghost predicate Enabled(h: ByteOrder, s: State, step: Step) {
    match step
    case Elsewhere => true
    case Arrive(d) => HonestDatagram(h, s.base, s.issued, d)
    case Dump(during, _, taken) =>
      taken <= |s.queue + during| && forall d :: d in during ==> HonestDatagram(h, s.base, s.issued + 1, d)
    case Single(during, taken) =>
      taken <= |s.queue + during| && forall d :: d in during ==> HonestDatagram(h, s.base, s.issued + 1, d)
  }

  /** Datagrams that a dump does not get to stay queued; the rest of one that was taken is
      dropped with it. */
  function Next(s: State, step: Step): State
    requires step.Dump? || step.Single? ==> step.taken <= |s.queue + step.during|
  {
    match step
    case Elsewhere => s.(issued := s.issued + 1)
    case Arrive(d) => s.(queue := s.queue + [d])
    case Dump(during, _, taken) => s.(issued := s.issued + 1, queue := (s.queue + during)[taken..])
    case Single(during, taken) => s.(issued := s.issued + 1, queue := (s.queue + during)[taken..])
  }

  /** What the step hands to its caller: what a dump's consumer was called with, or the
      response of a request. */
  function Delivered(h: ByteOrder, port: uint32, s: State, step: Step): seq<Message>
    requires step.Dump? || step.Single?
  {
    if step.Dump? then DumpRun(h, port, s, step).state
    else
      var resp := SingleRun(h, port, s, step).state;
      if resp.Some? then [resp.value] else []
  }

  /** The step returns to its caller, having taken exactly the datagrams that it says. */
  ghost predicate Returns(h: ByteOrder, port: uint32, s: State, step: Step)
    requires step.Dump? || step.Single?
  {
    var sn := Number(s.base, s.issued + 1);
    if step.Dump? then
      && DumpRun(h, port, s, step).ending != Pending
      && Takes(h, Queued(s, step), [], DumpCallback(h, port, sn, step.fails), step.taken)
    else
      && SingleRun(h, port, s, step).ending != Pending
      && Takes(h, Queued(s, step), None, RequestCallback(h, port, sn), step.taken)
  }

  /** A run of the socket from an empty queue. */
  ghost predicate IsRun(h: ByteOrder, states: seq<State>, steps: seq<Step>) {
    && |states| == |steps| + 1 && states[0].queue == []
    && forall i :: 0 <= i < |steps| ==> Enabled(h, states[i], steps[i]) && states[i + 1] == Next(states[i], steps[i])
  }

  lemma {:induction false} HonestLater(h: ByteOrder, base: uint32, issued: nat, d: Gram)
    requires HonestDatagram(h, base, issued, d)
    ensures HonestDatagram(h, base, issued + 1, d)
  {
    hide Finished, Number;
    forall t | t in d.replies ensures Honest(h, base, issued + 1, t) {
      assert Honest(h, base, issued, t);
    }
  }

  lemma {:induction false} NextValid(h: ByteOrder, s: State, step: Step)
    requires Valid(h, s) && Enabled(h, s, step)
    ensures Valid(h, Next(s, step))
  {
    hide HonestDatagram;
    forall d | d in s.queue ensures HonestDatagram(h, s.base, s.issued + 1, d) {
      HonestLater(h, s.base, s.issued, d);
    }
    var s' := Next(s, step);
    forall d | d in s'.queue ensures HonestDatagram(h, s'.base, s'.issued, d) {
      if step.Dump? || step.Single? {
        assert d in s.queue + step.during;
      }
    }
  }

  lemma {:induction false} RunValid(h: ByteOrder, states: seq<State>, steps: seq<Step>, i: nat)
    requires IsRun(h, states, steps) && i < |states|
    ensures Valid(h, states[i])
    decreases i
  {
    hide Enabled, HonestDatagram;
    if i > 0 {
      RunValid(h, states, steps, i - 1);
      NextValid(h, states[i - 1], steps[i - 1]);
    }
  }

  /** Fewer than 2^32 apart, different requests have different numbers. */
  lemma {:induction false} NumbersDistinct(base: uint32, m: nat, n: nat)
    requires m <= n < m + WRAP && Number(base, m) == Number(base, n)
    ensures m == n
  {
    var x, y := base + m, base + n;
    assert x == x / WRAP * WRAP + x % WRAP && y == y / WRAP * WRAP + y % WRAP;
    assert y - x == (y / WRAP - x / WRAP) * WRAP;
  }

  lemma {:induction false} DeliveredMatches(h: ByteOrder, port: uint32, s: State, step: Step, m: Message)
    requires step.Dump? || step.Single?
    requires m in Delivered(h, port, s, step)
    ensures |m| >= NLMSG_HDRLEN && Seq(h, m) == Number(s.base, s.issued + 1)
  {
    hide ReceiveAll, Stream, Number, Type, U32At;
    var sn := Number(s.base, s.issued + 1);
    if step.Dump? {
      DeliveredMatch(h, port, sn, step.fails, Stream(h, Queued(s, step)), m);
    } else {
      RequestExact(h, port, sn, Stream(h, Queued(s, step)));
    }
  }

  /** In every run, as long as fewer than 2^32 requests were made before it, no dump and no
      single request is handed a reply that answers an earlier request, however many replies
      were left queued by dumps that were abandoned. */
  lemma {:induction false} StaleNeverDelivered(h: ByteOrder, port: uint32, states: seq<State>,
      steps: seq<Step>, i: nat, d: Gram, t: Tagged)
    requires IsRun(h, states, steps) && i < |steps| && (steps[i].Dump? || steps[i].Single?)
    requires states[i].issued < WRAP
    requires d in states[i].queue + steps[i].during && t in d.replies
    requires t.bytes in Delivered(h, port, states[i], steps[i])
    ensures t.ticket == states[i].issued + 1
  {
    hide Delivered, Number, Finished;
    RunValid(h, states, steps, i);
    var s := states[i];
    assert Enabled(h, s, steps[i]);
    if d in s.queue {
      HonestLater(h, s.base, s.issued, d);
    }
    assert Honest(h, s.base, s.issued + 1, t);
    DeliveredMatches(h, port, s, steps[i], t.bytes);
    NumbersDistinct(s.base, t.ticket, s.issued + 1);
  }

  // ------------------------------------------------------------- after 2^32 requests

  /** A reply to the first request with nothing special about it. */
  predicate PlainReply(h: ByteOrder, port: uint32, base: uint32, m: Message) {
    Finished(h, m) && Classify(h, port, Number(base, 1), m) == Reply
  }

  /** The first request is a dump that gives up at the first of two datagrams.  The second is
      still there after 2^32 - 1 requests elsewhere, when a single request is made. */
  function LateStep(t: Tagged, i: nat): Step {
    if i == 0 then Dump([Gram([t], 0), Gram([t], 0)], (_, _) => true, 1)
    else if i < WRAP then Elsewhere
    else Single([], 1)
  }

  function LateState(base: uint32, t: Tagged, i: nat): State {
    if i == 0 then State(base, 0, [])
    else if i <= WRAP then State(base, i, [Gram([t], 0)])
    else State(base, i, [])
  }

  lemma {:induction false} LateRun(h: ByteOrder, port: uint32, base: uint32, m: Message, i: nat)
    requires PlainReply(h, port, base, m) && i <= WRAP
    ensures var t := Tagged(1, m); var s, step := LateState(base, t, i), LateStep(t, i);
      Enabled(h, s, step) && Next(s, step) == LateState(base, t, i + 1)
  {
    hide Finished, Number, Seq, Pid, Type, U32At;
    var t := Tagged(1, m);
    assert Honest(h, base, 1, t);
    assert [] + [Gram([t], 0), Gram([t], 0)] == [Gram([t], 0), Gram([t], 0)];
    assert [Gram([t], 0)] + [] == [Gram([t], 0)];
  }

  /** `n` datagrams with the message `m` each. */
  lemma {:induction false} Copies(h: ByteOrder, m: Message, queue: seq<Gram>)
    requires Finished(h, m) && forall i :: 0 <= i < |queue| ==> queue[i] == Gram([Tagged(1, m)], 0)
    ensures Stream(h, Datagrams(Parts(queue))) == seq(|queue|, _ => Msg(m))
    decreases queue
  {
    hide Finished, Joined, Items;
    if queue != [] {
      assert Payloads(queue[0].replies) == [m];
      SplitJoined(h, [], [m], 0);
      assert [] + Joined([m], 0) == Joined([m], 0);
      assert AsItems([m]) == [Msg(m)];
      assert Datagrams(Parts(queue))[1..] == Datagrams(Parts(queue[1..])) by {
        assert Parts(queue)[1..] == Parts(queue[1..]);
      }
      Copies(h, m, queue[1..]);
    }
  }

  lemma {:induction false} PartsPrefix(queue: seq<Gram>, n: nat)
    requires n <= |queue|
    ensures |Datagrams(Parts(queue))| == |queue|
    ensures Datagrams(Parts(queue))[..n] == Datagrams(Parts(queue[..n]))
    decreases queue
  {
    if queue != [] {
      assert Parts(queue)[1..] == Parts(queue[1..]);
      if n > 0 {
        PartsPrefix(queue[1..], n - 1);
        assert queue[..n][1..] == queue[1..][..n - 1];
        assert Parts(queue[..n])[1..] == Parts(queue[..n][1..]);
      } else {
        PartsPrefix(queue[1..], 0);
      }
    }
  }

  /** The dump that gives up fails with the second datagram untouched. */
  lemma {:induction false} FirstDumpReturns(h: ByteOrder, port: uint32, base: uint32, m: Message)
    requires PlainReply(h, port, base, m)
    ensures var t := Tagged(1, m); Returns(h, port, LateState(base, t, 0), LateStep(t, 0))
  {
    hide Finished, Number, Classify, ReceiveAll, DumpTurn, Datagrams;
    var d := Gram([Tagged(1, m)], 0);
    var sn := Number(base, 1);
    var cb := DumpCallback(h, port, sn, (_, _) => true);
    assert [] + [d, d] == [d, d];
    QueuedCopies(h, m, [d, d], 1);
    ReceiveBroken([], cb);
    TurnByClass(h, port, sn, (_, _) => true, [], None, m);
    ReceiveTurn(m, [], [], cb);
    ReceiveTurn(m, [Msg(m)], [], cb);
    assert seq(2, _ => Msg(m)) == [Msg(m)] + [Msg(m)] && seq(1, _ => Msg(m)) == [Msg(m)] + [];
  }

  lemma {:induction false} QueuedCopies(h: ByteOrder, m: Message, queue: seq<Gram>, n: nat)
    requires Finished(h, m) && n <= |queue| && forall i :: 0 <= i < |queue| ==> queue[i] == Gram([Tagged(1, m)], 0)
    ensures |Datagrams(Parts(queue))| == |queue|
    ensures Stream(h, Datagrams(Parts(queue))) == seq(|queue|, _ => Msg(m))
    ensures Stream(h, Datagrams(Parts(queue))[..n]) == seq(n, _ => Msg(m))
    ensures Stream(h, Datagrams(Parts(queue))[..0]) == []
  {
    hide Finished, Datagrams, Parts;
    PartsPrefix(queue, n);
    Copies(h, m, queue);
    Copies(h, m, queue[..n]);
  }

  /** The late request returns with the leftover reply. */
  lemma {:induction false} LateRequestReturns(h: ByteOrder, port: uint32, base: uint32, m: Message)
    requires PlainReply(h, port, base, m)
    ensures var t := Tagged(1, m); var s, step := LateState(base, t, WRAP), LateStep(t, WRAP);
      Returns(h, port, s, step) && Delivered(h, port, s, step) == [m]
  {
    hide Finished, Classify, ReceiveAll, RequestTurn, Datagrams;
    var d := Gram([Tagged(1, m)], 0);
    var sn := Number(base, WRAP + 1);
    assert sn == Number(base, 1);
    var cb := RequestCallback(h, port, sn);
    assert [d] + [] == [d];
    QueuedCopies(h, m, [d], 1);
    ReceiveBroken(None, cb);
    TurnByClass(h, port, sn, (_, _) => false, [], None, m);
    ReceiveTurn(m, [], None, cb);
    assert seq(1, _ => Msg(m)) == [Msg(m)] + [];
  }

  /** The bound is sharp: there is a run in which the request after 2^32 others is handed the
      reply that an abandoned dump, the first of them, left queued. */
  lemma {:induction false} WrappedNumberCollides(h: ByteOrder, port: uint32, base: uint32, m: Message)
    requires PlainReply(h, port, base, m)
    ensures exists states: seq<State>, steps: seq<Step> ::
      && IsRun(h, states, steps)
      && (forall i :: 0 <= i < |steps| && (steps[i].Dump? || steps[i].Single?) ==>
            Returns(h, port, states[i], steps[i]))
      && WRAP < |steps| && steps[WRAP].Single? && states[WRAP].issued == WRAP
      && Gram([Tagged(1, m)], 0) in states[WRAP].queue
      && Delivered(h, port, states[WRAP], steps[WRAP]) == [m]
  {
    hide Finished, Classify, Delivered, Returns, Enabled, Next;
    var t := Tagged(1, m);
    var states := seq(WRAP + 2, i requires 0 <= i => LateState(base, t, i));
    var steps := seq(WRAP + 1, i requires 0 <= i => LateStep(t, i));
    forall i | 0 <= i < |steps| ensures Enabled(h, states[i], steps[i]) && states[i + 1] == Next(states[i], steps[i]) {
      LateRun(h, port, base, m, i);
    }
    FirstDumpReturns(h, port, base, m);
    LateRequestReturns(h, port, base, m);
    assert IsRun(h, states, steps);
  }

  /** The numbers are those that finishing one request after the other gives. */
  lemma {:induction false} NumberFollows(base: uint32, n: nat)
    ensures Number(base, 0) == base
    ensures Number(base, n + 1) == (Number(base, n) + 1) % 0x1_0000_0000
  {
    var x := base + n;
    assert x == x / WRAP * WRAP + x % WRAP;
    if x % WRAP == WRAP - 1 {
      assert x + 1 == (x / WRAP + 1) * WRAP;
    } else {
      assert x + 1 == x / WRAP * WRAP + (x % WRAP + 1);
    }
  }

  /** Every call that returns, whatever honest datagrams arrive meanwhile, is a step. */
  lemma {:induction false} ReturnsEnabled(h: ByteOrder, port: uint32, s: State, step: Step)
    requires step.Dump? || step.Single?
    requires forall d :: d in step.during ==> HonestDatagram(h, s.base, s.issued + 1, d)
    requires Returns(h, port, s, step)
    ensures Enabled(h, s, step)
  {
    hide ReceiveAll, Stream, HonestDatagram;
    PartsPrefix(s.queue + step.during, 0);
  }
}
