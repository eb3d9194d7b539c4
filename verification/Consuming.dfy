/** `consume`: the endless loop behind miss and vport event consumers. */
module Consuming {
  import opened Bytes
  import opened Builder
  import opened Messages
  import opened Receive
  import opened Dumps

  /** What the consumer's methods are called with: the handler for a message, `Error(_, false)`
      about a message, or `Error(_, true)`. */
  datatype Call = Handled(m: Message) | Reported(m: Message) | StoppedCall

  /** A consumer that keeps state: whether its handler fails on a message may depend on all the
      calls made to the consumer before. */
  type Handler = (seq<Call>, Message) -> bool

  /** The callback: the header check, then the handler, then `Error(_, false)` if either failed.
      It never asks to stop. */
  function ConsumeTurn(h: ByteOrder, fails: Handler, calls: seq<Call>, m: Message): (seq<Call>, Verdict) {
    match CheckHeader(h, m)
    case Unreadable => (calls, Overrun)
    case Erroneous => (calls + [Reported(m)], Continue)
    case Fine =>
      var handled := calls + [Handled(m)];
      (if fails(calls, m) then handled + [Reported(m)] else handled, Continue)
  }

  function ConsumeCallback(h: ByteOrder, fails: Handler): Callback<seq<Call>> {
    (calls, m) => ConsumeTurn(h, fails, calls, m)
  }

  // --------------------------------------------------------------- specification

  /** Call `k` reports the failure of the handler call right before it. */
  predicate FollowsUp(calls: seq<Call>, k: nat) {
    0 < k < |calls| && calls[k].Reported? && calls[k - 1] == Handled(calls[k].m)
  }

  /** The messages that the calls are about, each as often as it came up. */
  function Subjects(calls: seq<Call>): seq<Message> {
    if calls == [] then []
    else
      var n := |calls| - 1;
      Subjects(calls[..n]) + if calls[n] == StoppedCall || FollowsUp(calls, n) then [] else [calls[n].m]
  }

  /** Handler call `k` is about a message with a good header, and is followed directly by a
      report if and only if the handler fails. */
  predicate HandledWell(h: ByteOrder, fails: Handler, calls: seq<Call>, k: nat)
    requires k < |calls| && calls[k].Handled?
  {
    && CheckHeader(h, calls[k].m) == Fine
    && (FollowsUp(calls, k + 1) <==> fails(calls[..k], calls[k].m))
  }

  /** The calls deal with exactly the messages `ms`, in order: one with a good header is handled
      once and reported, directly after that, if and only if the handler fails; one with a bad
      header is only reported. */
  predicate WellLogged(h: ByteOrder, fails: Handler, ms: seq<Message>, calls: seq<Call>) {
    && Subjects(calls) == ms
    && (forall k :: 0 <= k < |calls| ==> calls[k] != StoppedCall)
    && (forall k :: 0 <= k < |calls| && calls[k].Handled? ==> HandledWell(h, fails, calls, k))
    && (forall k :: 0 <= k < |calls| && calls[k].Reported? ==>
          CheckHeader(h, calls[k].m) == Erroneous || FollowsUp(calls, k))
  }

  // ------------------------------------------------------------ what the log determines

  /** The calls before those about the last message. */
  function Earlier(calls: seq<Call>): (r: seq<Call>)
    requires calls != []
    ensures |r| < |calls| && r == calls[..|r|]
  {
    if FollowsUp(calls, |calls| - 1) then calls[..|calls| - 2] else calls[..|calls| - 1]
  }

  lemma {:induction false} SubjectsSnoc(calls: seq<Call>, c: Call)
    ensures Subjects(calls + [c])
         == Subjects(calls) + if c == StoppedCall || FollowsUp(calls + [c], |calls|) then [] else [c.m]
  {
    assert (calls + [c])[..|calls|] == calls;
  }

  /** Without the calls about the last message, a good log is a good log of the others, and
      what it says about the last message is determined by the header and the handler. */
  lemma {:induction false} Peel(h: ByteOrder, fails: Handler, ms: seq<Message>, calls: seq<Call>)
    requires WellLogged(h, fails, ms, calls) && calls != []
    ensures ms != [] && WellLogged(h, fails, ms[..|ms| - 1], Earlier(calls))
    ensures ConsumeTurn(h, fails, Earlier(calls), ms[|ms| - 1]) == (calls, Continue)
  {
    hide Subjects, CheckHeader;
    var n, r := |calls| - 1, Earlier(calls);
    assert calls == calls[..n] + [calls[n]];
    SubjectsSnoc(calls[..n], calls[n]);
    if FollowsUp(calls, n) {
      assert calls[..n] == r + [calls[n - 1]] && calls == r + [calls[n - 1]] + [calls[n]];
      SubjectsSnoc(r, calls[n - 1]);
      assert HandledWell(h, fails, calls, n - 1);
    } else if calls[n].Handled? {
      assert HandledWell(h, fails, calls, n);
    }
    LogCut(h, fails, ms, calls);
  }

  lemma {:induction false} LogCut(h: ByteOrder, fails: Handler, ms: seq<Message>, calls: seq<Call>)
    requires WellLogged(h, fails, ms, calls) && calls != []
    ensures WellLogged(h, fails, Subjects(Earlier(calls)), Earlier(calls))
  {
    hide Subjects, CheckHeader;
    var r := Earlier(calls);
    forall k | 0 <= k < |r| ensures FollowsUp(r, k) <==> FollowsUp(calls, k) {
    }
    assert !FollowsUp(calls, |r|);
    forall k | 0 <= k < |r| && r[k].Handled? ensures HandledWell(h, fails, r, k) {
      assert HandledWell(h, fails, calls, k) && r[..k] == calls[..k];
    }
  }

  /** There is only one good log: the messages and the handler determine every call. */
  lemma {:induction false} LogUnique(h: ByteOrder, fails: Handler, ms: seq<Message>, c: seq<Call>, d: seq<Call>)
    requires WellLogged(h, fails, ms, c) && WellLogged(h, fails, ms, d)
    ensures c == d
    decreases |c|
  {
    hide WellLogged, ConsumeTurn;
    if c == [] {
      EmptyLog(h, fails, ms, c);
      if d != [] {
        Peel(h, fails, ms, d);
      }
    } else {
      Peel(h, fails, ms, c);
      if d == [] {
        EmptyLog(h, fails, ms, d);
      } else {
        Peel(h, fails, ms, d);
        LogUnique(h, fails, ms[..|ms| - 1], Earlier(c), Earlier(d));
      }
    }
  }

  lemma {:induction false} EmptyLog(h: ByteOrder, fails: Handler, ms: seq<Message>, c: seq<Call>)
    requires WellLogged(h, fails, ms, c)
    ensures c == [] ==> ms == []
  {
  }

  // -------------------------------------------------------------------- the loop

  /** One turn of the callback keeps the log good. */
  lemma {:induction false} LogGrows(h: ByteOrder, fails: Handler, ms: seq<Message>, calls: seq<Call>, m: Message)
    requires WellLogged(h, fails, ms, calls) && CheckHeader(h, m) != Unreadable
    ensures var (calls', verdict) := ConsumeTurn(h, fails, calls, m);
      verdict == Continue && WellLogged(h, fails, ms + [m], calls')
  {
    hide Subjects, CheckHeader;
    var first := if CheckHeader(h, m) == Fine then Handled(m) else Reported(m);
    var once := calls + [first];
    SubjectsSnoc(calls, first);
    OneCallMore(h, fails, calls, first);
    if first.Handled? {
      assert once[..|calls|] == calls;
      if fails(calls, m) {
        var twice := once + [Reported(m)];
        SubjectsSnoc(once, Reported(m));
        assert FollowsUp(twice, |once|) && twice[..|calls|] == calls;
        assert Subjects(once) + [] == Subjects(once);
        forall k | 0 <= k < |once| ensures FollowsUp(twice, k) <==> FollowsUp(once, k) {
        }
        forall k | 0 <= k < |twice| && twice[k].Handled? ensures HandledWell(h, fails, twice, k) {
          if k < |calls| {
            assert HandledWell(h, fails, calls, k) && twice[..k] == calls[..k];
          }
        }
      } else {
        assert HandledWell(h, fails, once, |calls|);
      }
    }
  }

  /** The first call about a new message does not look like a report on the call before. */
  lemma {:induction false} OneCallMore(h: ByteOrder, fails: Handler, calls: seq<Call>, c: Call)
    requires WellLogged(h, fails, Subjects(calls), calls)
    requires c.Handled? || (c.Reported? && CheckHeader(h, c.m) == Erroneous)
    ensures var calls' := calls + [c];
      && !FollowsUp(calls', |calls|)
      && (forall k :: 0 <= k < |calls| ==> (FollowsUp(calls', k) <==> FollowsUp(calls, k)))
      && (forall k :: 0 <= k < |calls| && calls'[k].Handled? ==> HandledWell(h, fails, calls', k))
  {
    hide Subjects, CheckHeader;
    var calls' := calls + [c];
    if calls != [] && calls[|calls| - 1].Handled? {
      assert HandledWell(h, fails, calls, |calls| - 1);
    }
    assert !FollowsUp(calls', |calls|);
    forall k | 0 <= k < |calls| && calls'[k].Handled? ensures HandledWell(h, fails, calls', k) {
      assert HandledWell(h, fails, calls, k) && calls'[..k] == calls[..k];
    }
  }

  /** The first `n` items are messages whose headers can be checked, and the next one is not. */
  predicate ConsumeEndsAt(h: ByteOrder, items: seq<Item>, n: nat) {
    && n <= |items|
    && (forall i :: 0 <= i < n ==> Checkable(h, items[i]))
    && (n < |items| ==> !Checkable(h, items[n]))
  }

  predicate Checkable(h: ByteOrder, item: Item) {
    item.Msg? && CheckHeader(h, item.bytes) != Unreadable
  }

  lemma {:induction false} ConsumePrefix(h: ByteOrder, fails: Handler, items: seq<Item>, n: nat)
    requires n <= |items| && forall i :: 0 <= i < n ==> Checkable(h, items[i])
    ensures var run := ReceiveAll(items[..n], [], ConsumeCallback(h, fails));
      run.ending == Pending && WellLogged(h, fails, MessagesOf(items[..n]), run.state)
    decreases n
  {
    hide CheckHeader, ConsumeTurn, ReceiveAll;
    var cb := ConsumeCallback(h, fails);
    if n == 0 {
      ReceiveBroken([], cb);
    } else {
      ConsumePrefix(h, fails, items, n - 1);
      assert Checkable(h, items[n - 1]);
      MessagesSnoc(items, n - 1);
      OneMore(items, n - 1, [], cb);
      var before := ReceiveAll(items[..n - 1], [], cb).state;
      LogGrows(h, fails, MessagesOf(items[..n - 1]), before, items[n - 1].bytes);
    }
  }

  /** The loop passes over messages with headers that can be checked, whatever the handler
      makes of them, and ends at the first item that is none. */
  lemma {:induction false} ConsumeExact(h: ByteOrder, fails: Handler, items: seq<Item>, n: nat)
    requires ConsumeEndsAt(h, items, n)
    ensures var run := ReceiveAll(items, [], ConsumeCallback(h, fails));
      && WellLogged(h, fails, MessagesOf(items[..n]), run.state)
      && run.ending == if n == |items| then Pending else if items[n].BadFrame? then Failed else Overran
  {
    hide CheckHeader, ReceiveAll, WellLogged;
    ConsumePrefix(h, fails, items, n);
    if n == |items| {
      assert items[..n] == items;
    } else {
      OneMore(items, n, [], ConsumeCallback(h, fails));
    }
  }

  /** Where the loop ends. */
  ghost function ConsumeEnd(h: ByteOrder, items: seq<Item>, n: nat): (r: nat)
    requires n <= |items| && forall i :: 0 <= i < n ==> Checkable(h, items[i])
    ensures ConsumeEndsAt(h, items, r)
    decreases |items| - n
  {
    if n < |items| && Checkable(h, items[n]) then ConsumeEnd(h, items, n + 1) else n
  }

  /** The run ends with a receive or framing error, and then `Error(_, true)` is called once
      and last, after exactly the calls that the messages before the error lead to.  Since the
      callback never asks to stop, the loop around `Receive` goes round once. */
  method Consume(s: NetlinkSocket, fails: Handler) returns (calls: seq<Call>, ending: Ending, ghost n: nat)
    modifies s`queue
    ensures ConsumeEndsAt(s.host, Stream(s.host, old(s.queue)), n)
    ensures var items := Stream(s.host, old(s.queue)); var ms := MessagesOf(items[..n]);
      && (ending == Failed <==> n < |items| && items[n].BadFrame?)
      && (ending == Pending <==> n == |items|)
      && ending != Stopped
      && (ending != Failed ==> WellLogged(s.host, fails, ms, calls))
      && (ending == Failed ==>
            && calls != [] && calls[|calls| - 1] == StoppedCall
            && WellLogged(s.host, fails, ms, calls[..|calls| - 1]))
    ensures forall k :: 0 <= k < |calls| ==> (calls[k] == StoppedCall <==> ending == Failed && k == |calls| - 1)
  {
    hide Stream, ReceiveAll, CheckHeader, Subjects, HandledWell, FollowsUp;
    ghost var taken;
    var run;
    run, taken := s.Receive([], ConsumeCallback(s.host, fails));
    n := ConsumeEnd(s.host, Stream(s.host, old(s.queue)), 0);
    ConsumeExact(s.host, fails, Stream(s.host, old(s.queue)), n);
    calls, ending := run.state, run.ending;
    if ending == Failed {
      calls := calls + [StoppedCall];
      assert calls[..|calls| - 1] == run.state;
    }
  }
}
