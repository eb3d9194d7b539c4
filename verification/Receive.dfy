/** The receive loops of a netlink socket: `Receive`, and `Request`, `RequestMulti` and
    `consume` on top of it. */
module Receive {
  import opened Bytes
  import opened Builder
  import opened Messages
  import opened Parser

  type Message = seq<byte>

  /** What a call of `recv` gets: a datagram or an error. */
  datatype Recv = Datagram(bytes: seq<byte>) | RecvError

  /** What the callback of `Receive` decides: (false, nil), (true, nil), an error, or a read
      outside the message, beyond which the library's behaviour is not modelled. */
  datatype Verdict = Continue | Stop | Fail | Overrun

  /** How a run of `Receive` ends.  `Pending` is a run that waits for more datagrams. */
  datatype Ending = Pending | Stopped | Failed | Overran

  /** The variables that the callback closes over, as it leaves them, and the ending. */
  datatype Run<+S> = Run(state: S, ending: Ending)

  /** A callback that assigns variables of its surroundings, here the state `S`. */
  type Callback<!S> = (S, Message) -> (S, Verdict)

  // -------------------------------------------------------------- specification

  /** What one `recv` contributes to the stream of messages; an empty datagram is an error. */
  function RecvItems(h: ByteOrder, r: Recv): (items: seq<Item>)
    ensures items != []
  {
    match r
    case RecvError => [BadFrame]
    case Datagram(bytes) => if Items(h, bytes, 0) == [] then [BadFrame] else Items(h, bytes, 0)
  }

  function Stream(h: ByteOrder, queue: seq<Recv>): seq<Item> {
    if queue == [] then [] else RecvItems(h, queue[0]) + Stream(h, queue[1..])
  }

  /** How a verdict other than `Continue` ends the loop. */
  function EndingOf(v: Verdict): Ending {
    match v
    case Continue => Pending
    case Stop => Stopped
    case Fail => Failed
    case Overrun => Overran
  }

  /** `Receive` over a flat stream of messages. */
  function ReceiveAll<S>(items: seq<Item>, st: S, cb: Callback<S>): Run<S> {
    if items == [] then Run(st, Pending)
    else
      match items[0]
      case BadFrame => Run(st, Failed)
      case Undersized => Run(st, Overran)
      case Msg(m) =>
        var (st', verdict) := cb(st, m);
        if verdict == Continue then ReceiveAll(items[1..], st', cb) else Run(st', EndingOf(verdict))
  }

  /** `taken` of the queued datagrams are received: enough to end the loop and no more, or
      all of them. */
  ghost predicate Takes<S>(h: ByteOrder, queue: seq<Recv>, st: S, cb: Callback<S>, taken: nat) {
    && taken <= |queue|
    && ReceiveAll(Stream(h, queue[..taken]), st, cb) == ReceiveAll(Stream(h, queue), st, cb)
    && (taken > 0 ==> ReceiveAll(Stream(h, queue[..taken - 1]), st, cb).ending == Pending)
    && (taken < |queue| ==> ReceiveAll(Stream(h, queue), st, cb).ending != Pending)
  }

  // ------------------------------------------------------------------ the loop

  lemma {:induction false} ReceiveAppend<S>(x: seq<Item>, y: seq<Item>, st: S, cb: Callback<S>)
    ensures var r := ReceiveAll(x, st, cb);
      ReceiveAll(x + y, st, cb) == if r.ending == Pending then ReceiveAll(y, r.state, cb) else r
    decreases x
  {
    if x == [] {
      assert x + y == y;
    } else {
      assert (x + y)[1..] == x[1..] + y;
      match x[0]
      case Msg(m) =>
        if cb(st, m).1 == Continue {
          ReceiveAppend(x[1..], y, cb(st, m).0, cb);
        }
      case _ =>
    }
  }

  lemma {:induction false} ItemsTurn(h: ByteOrder, data: seq<byte>, pos: nat)
    ensures match NextMsg(h, data, pos)
      case NoMore => Items(h, data, pos) == []
      case Short => Items(h, data, pos) == [BadFrame]
      case Message(end, next) =>
        Items(h, data, pos) == if end - pos < NLMSG_HDRLEN then [Undersized]
          else [Msg(data[pos..end])] + Items(h, data, next)
  {
    hide NextMsg;
  }

  lemma {:induction false} ReceiveTurn<S>(m: Message, rest: seq<Item>, st: S, cb: Callback<S>)
    ensures var (st', verdict) := cb(st, m);
      ReceiveAll([Msg(m)] + rest, st, cb)
      == if verdict == Continue then ReceiveAll(rest, st', cb) else Run(st', EndingOf(verdict))
  {
    assert ([Msg(m)] + rest)[1..] == rest;
  }

  lemma {:induction false} ReceiveBroken<S>(st: S, cb: Callback<S>)
    ensures ReceiveAll([BadFrame], st, cb) == Run(st, Failed)
    ensures ReceiveAll([Undersized], st, cb) == Run(st, Overran)
    ensures ReceiveAll([], st, cb) == Run(st, Pending)
  {
  }

  /** The inner loop: the messages of one datagram. */
  method ReceiveDatagram<S>(h: ByteOrder, bytes: seq<byte>, st: S, cb: Callback<S>) returns (r: Run<S>)
    ensures r == ReceiveAll(RecvItems(h, Datagram(bytes)), st, cb)
  {
    hide Items, NextMsg, ReceiveAll;
    ReceiveBroken(st, cb);
    var resp := new NlMsgParser(h, bytes, 0);
    ItemsTurn(h, bytes, 0);
    ghost var items := Items(h, bytes, 0);
    var msg := resp.NextNlMsg();
    if !msg.Ok? || msg.value == null {
      return Run(st, Failed);
    }
    var now := st;
    while true
      invariant resp.host == h && resp.data == bytes
      invariant msg.Ok? && msg.value != null && fresh(msg.value) && fresh(resp) && msg.value != resp
      invariant var at := msg.value.pos;
        && NextMsg(h, bytes, at) == Message(|msg.value.data|, resp.pos)
        && msg.value.data == bytes[..|msg.value.data|]
        && ReceiveAll(items, st, cb) == ReceiveAll(Items(h, bytes, at), now, cb)
      decreases |bytes| - msg.value.pos
    {
      var at, end := msg.value.pos, |msg.value.data|;
      ItemsTurn(h, bytes, at);
      if end - at < NLMSG_HDRLEN {
        ReceiveBroken(now, cb);
        return Run(now, Overran);
      }
      var m := msg.value.data[at..];
      assert m == bytes[at..end];
      ReceiveTurn(m, Items(h, bytes, resp.pos), now, cb);
      var (next, verdict) := cb(now, m);
      now := next;
      if verdict != Continue {
        return Run(now, EndingOf(verdict));
      }
      ItemsTurn(h, bytes, resp.pos);
      ReceiveBroken(now, cb);
      msg := resp.NextNlMsg();
      if !msg.Ok? {
        return Run(now, Failed);
      }
      if msg.value == null {
        return Run(now, Pending);
      }
    }
  }

  class NetlinkSocket {
    const host: ByteOrder
    const portId: uint32
    /** Datagrams that the kernel has queued and errors that `recv` will report. */
    var queue: seq<Recv>

    constructor (host: ByteOrder, portId: uint32, queue: seq<Recv>)
      ensures this.host == host && this.portId == portId && this.queue == queue
    {
      this.host, this.portId, this.queue := host, portId, queue;
    }

    /** The outer loop.  The run depends on the datagrams only through the stream of
        messages in them, and takes no more of the queue than it needs to end. */
    method Receive<S>(st: S, cb: Callback<S>) returns (r: Run<S>, ghost taken: nat)
      modifies this`queue
      ensures r == ReceiveAll(Stream(host, old(queue)), st, cb)
      ensures Takes(host, old(queue), st, cb, taken) && queue == old(queue)[taken..]
    {
      hide ReceiveAll, Items;
      r, taken := Run(st, Pending), 0;
      ReceiveBroken(st, cb);
      assert old(queue)[0..] == old(queue) && Stream(host, old(queue)[..0]) == [];
      while queue != []
        invariant r.ending == Pending
        invariant taken <= |old(queue)| && queue == old(queue)[taken..]
        invariant r == ReceiveAll(Stream(host, old(queue)[..taken]), st, cb)
        invariant taken > 0 ==> ReceiveAll(Stream(host, old(queue)[..taken - 1]), st, cb).ending == Pending
        invariant ReceiveAll(Stream(host, old(queue)), st, cb) == ReceiveAll(Stream(host, queue), r.state, cb)
        decreases |queue|
      {
        var next := queue[0];
        StreamSnoc(host, old(queue), taken);
        ReceiveAppend(Stream(host, old(queue)[..taken]), RecvItems(host, next), st, cb);
        ReceiveAppend(RecvItems(host, next), Stream(host, queue[1..]), r.state, cb);
        queue, taken := queue[1..], taken + 1;
        match next {
          case RecvError =>
            ReceiveBroken(r.state, cb);
            return Run(r.state, Failed), taken;
          case Datagram(bytes) =>
            r := ReceiveDatagram(host, bytes, r.state, cb);
        }
        if r.ending != Pending {
          return r, taken;
        }
      }
      ReceiveBroken(r.state, cb);
      assert old(queue)[..taken] == old(queue);
    }
  }

  lemma {:induction false} StreamAppend(h: ByteOrder, x: seq<Recv>, y: seq<Recv>)
    ensures Stream(h, x + y) == Stream(h, x) + Stream(h, y)
    decreases x
  {
    hide RecvItems;
    if x == [] {
      assert x + y == y;
    } else {
      assert (x + y)[1..] == x[1..] + y;
      StreamAppend(h, x[1..], y);
      assert RecvItems(h, x[0]) + (Stream(h, x[1..]) + Stream(h, y))
          == (RecvItems(h, x[0]) + Stream(h, x[1..])) + Stream(h, y);
    }
  }

  lemma {:induction false} StreamSnoc(h: ByteOrder, queue: seq<Recv>, n: nat)
    requires n < |queue|
    ensures Stream(h, queue[..n + 1]) == Stream(h, queue[..n]) + RecvItems(h, queue[n])
    ensures Stream(h, queue[n..]) == RecvItems(h, queue[n]) + Stream(h, queue[n + 1..])
  {
    hide RecvItems;
    assert queue[..n + 1] == queue[..n] + [queue[n]];
    StreamAppend(h, queue[..n], [queue[n]]);
    assert [queue[n]][1..] == [];
    assert Stream(h, [queue[n]]) == RecvItems(h, queue[n]) + [];
    assert queue[n..][1..] == queue[n + 1..];
  }
}
