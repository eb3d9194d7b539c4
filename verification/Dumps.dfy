/** `RequestMulti` and `Request`: what the receive loop does with replies. */
module Dumps {
  import opened Bytes
  import Attributes
  import opened Builder
  import opened Messages
  import opened Receive

  const NLMSG_ERROR: uint16 := 2
  const NLMSG_DONE: uint16 := 3

  function Type(h: ByteOrder, m: Message): uint16
    requires |m| >= NLMSG_HDRLEN
  {
    U16At(h, m, 4)
  }

  function Seq(h: ByteOrder, m: Message): uint32
    requires |m| >= NLMSG_HDRLEN
  {
    U32At(h, m, 8)
  }

  function Pid(h: ByteOrder, m: Message): uint32
    requires |m| >= NLMSG_HDRLEN
  {
    U32At(h, m, 12)
  }

  // ------------------------------------------------------------------ the checks

  /** What a check comes to.  `Unreadable` is a read outside the message. */
  datatype Check = Fine | Erroneous | Unreadable

  /** `checkHeader`: an error message with code 0 is an acknowledgement.  The code is read
      without checking that it is there. */
  function CheckHeader(h: ByteOrder, m: Message): (c: Check)
    ensures c == Fine ==> |m| >= NLMSG_HDRLEN
  {
    if |m| < NLMSG_HDRLEN then Unreadable
    else if Type(h, m) != NLMSG_ERROR then Fine
    else if |m| < NLMSG_HDRLEN + 4 then Unreadable
    else if U32At(h, m, NLMSG_HDRLEN) != 0 then Erroneous
    else Fine
  }

  /** `checkResponseHeader`: whether the message is relevant, and what is wrong with it. */
  function CheckResponseHeader(h: ByteOrder, port: uint32, sn: uint32, m: Message): (bool, Check) {
    if |m| < NLMSG_HDRLEN then (true, Unreadable)
    else if Pid(h, m) != port then (true, Erroneous)
    else if Seq(h, m) != sn then (false, Fine)
    else (true, CheckHeader(h, m))
  }

  /** `processNlMsgDone`: here a missing code is an error. */
  function ProcessDone(h: ByteOrder, m: Message): Check {
    if |m| < NLMSG_HDRLEN + 4 || U32At(h, m, NLMSG_HDRLEN) != 0 then Erroneous else Fine
  }

  /** What a callback returns along with an error, or without one. */
  function VerdictOf(c: Check, otherwise: Verdict): Verdict {
    match c
    case Fine => otherwise
    case Erroneous => Fail
    case Unreadable => Overrun
  }

  // --------------------------------------------------------------- the callbacks

  /** A consumer that keeps state: whether it fails may depend on all it was given before. */
  type Consumer = (seq<Message>, Message) -> bool

  /** The callback of `RequestMulti`, where `delivered` are the calls made to the consumer. */
  function DumpTurn(h: ByteOrder, port: uint32, sn: uint32, fails: Consumer, delivered: seq<Message>,
                    m: Message): (seq<Message>, Verdict) {
    var (relevant, err) := CheckResponseHeader(h, port, sn, m);
    if !relevant || err != Fine then (delivered, VerdictOf(err, Continue))
    else if Type(h, m) == NLMSG_DONE then (delivered, VerdictOf(ProcessDone(h, m), Stop))
    else (delivered + [m], if fails(delivered, m) then Fail else Continue)
  }

  function DumpCallback(h: ByteOrder, port: uint32, sn: uint32, fails: Consumer): Callback<seq<Message>> {
    (delivered, m) => DumpTurn(h, port, sn, fails, delivered, m)
  }

  /** The callback of `Request` assigns `resp`, and always stops, even at a stale message. */
  function RequestTurn(h: ByteOrder, port: uint32, sn: uint32, resp: Option<Message>,
                       m: Message): (Option<Message>, Verdict) {
    var (relevant, err) := CheckResponseHeader(h, port, sn, m);
    (if relevant && err == Fine then Some(m) else resp, VerdictOf(err, Stop))
  }

  function RequestCallback(h: ByteOrder, port: uint32, sn: uint32): Callback<Option<Message>> {
    (resp, m) => RequestTurn(h, port, sn, resp, m)
  }

  // -------------------------------------------------------------- classification

  /** What a message is to the request with sequence number `sn` on port `port`. */
  datatype Class = Foreign | Stale | Refusal | Garbled | Done | DoneError | Reply

  function Classify(h: ByteOrder, port: uint32, sn: uint32, m: Message): Class {
    if |m| < NLMSG_HDRLEN then Garbled
    else if Pid(h, m) != port then Foreign
    else if Seq(h, m) != sn then Stale
    else if Type(h, m) == NLMSG_ERROR then
      if |m| < NLMSG_HDRLEN + 4 then Garbled
      else if U32At(h, m, NLMSG_HDRLEN) == 0 then Reply
      else Refusal
    else if Type(h, m) == NLMSG_DONE then
      if |m| >= NLMSG_HDRLEN + 4 && U32At(h, m, NLMSG_HDRLEN) == 0 then Done else DoneError
    else Reply
  }

  /** The replies to the request among the messages `ms`. */
  function Replies(h: ByteOrder, port: uint32, sn: uint32, ms: seq<Message>): seq<Message> {
    if ms == [] then []
    else
      var n := |ms| - 1;
      Replies(h, port, sn, ms[..n]) + if Classify(h, port, sn, ms[n]) == Reply then [ms[n]] else []
  }

  /** What the callbacks do with each class. */
  lemma {:induction false} TurnByClass(h: ByteOrder, port: uint32, sn: uint32, fails: Consumer,
                                       delivered: seq<Message>, resp: Option<Message>, m: Message)
    ensures DumpTurn(h, port, sn, fails, delivered, m) ==
      match Classify(h, port, sn, m)
      case Stale => (delivered, Continue)
      case Reply => (delivered + [m], if fails(delivered, m) then Fail else Continue)
      case Done => (delivered, Stop)
      case Garbled => (delivered, Overrun)
      case _ => (delivered, Fail)
    ensures RequestTurn(h, port, sn, resp, m) ==
      match Classify(h, port, sn, m)
      case Stale => (resp, Stop)
      case Garbled => (resp, Overrun)
      case Foreign => (resp, Fail)
      case Refusal => (resp, Fail)
      case _ => (Some(m), Stop)
  {
    hide Type, Seq, Pid, U32At;
  }

  // ----------------------------------------------------------------------- dumps

  /** The messages at the front of a stream. */
  function MessagesOf(items: seq<Item>): (ms: seq<Message>)
    ensures |ms| == |items| && forall i :: 0 <= i < |items| && items[i].Msg? ==> ms[i] == items[i].bytes
  {
    seq(|items|, i requires 0 <= i < |items| => if items[i].Msg? then items[i].bytes else [])
  }

  lemma {:induction false} MessagesSnoc(items: seq<Item>, n: nat)
    requires n < |items| && items[n].Msg?
    ensures items[..n + 1] == items[..n] + [items[n]]
    ensures MessagesOf(items[..n + 1]) == MessagesOf(items[..n]) + [items[n].bytes]
  {
  }

  /** Item `i` does not end a dump: it is left over from another request, or a reply that the
      consumer accepts after all replies before it. */
  predicate DumpPasses(h: ByteOrder, port: uint32, sn: uint32, fails: Consumer, items: seq<Item>, i: nat)
    requires i < |items|
  {
    items[i].Msg? &&
    match Classify(h, port, sn, items[i].bytes)
    case Stale => true
    case Reply => !fails(Replies(h, port, sn, MessagesOf(items[..i])), items[i].bytes)
    case _ => false
  }

  /** Item `n` is the first that ends a dump, or there is none and `n` is their number. */
  predicate DumpEndsAt(h: ByteOrder, port: uint32, sn: uint32, fails: Consumer, items: seq<Item>, n: nat) {
    && n <= |items|
    && (forall i :: 0 <= i < n ==> DumpPasses(h, port, sn, fails, items, i))
    && (n < |items| ==> !DumpPasses(h, port, sn, fails, items, n))
  }

  /** The consumer was called with exactly the replies among the items before the `n`-th, in
      order, and with that one if it is the reply that the consumer failed on; and the
      outcome is the one that the `n`-th item calls for. */
  predicate DumpOutcome(h: ByteOrder, port: uint32, sn: uint32, fails: Consumer, items: seq<Item>, n: nat,
                        delivered: seq<Message>, ending: Ending) {
    && DumpEndsAt(h, port, sn, fails, items, n)
    && var before := Replies(h, port, sn, MessagesOf(items[..n]));
    if n == |items| then delivered == before && ending == Pending
    else
      match items[n]
      case BadFrame => delivered == before && ending == Failed
      case Undersized => delivered == before && ending == Overran
      case Msg(m) =>
        match Classify(h, port, sn, m)
        case Done => delivered == before && ending == Stopped
        case Reply => delivered == before + [m] && ending == Failed
        case Garbled => delivered == before && ending == Overran
        case _ => delivered == before && ending == Failed
  }

  /** `RequestMulti` after its request with number `sn` has been sent. */
  method RequestMulti(s: NetlinkSocket, sn: uint32, fails: Consumer)
    returns (delivered: seq<Message>, ending: Ending, ghost n: nat, ghost taken: nat)
    modifies s`queue
    ensures DumpOutcome(s.host, s.portId, sn, fails, Stream(s.host, old(s.queue)), n, delivered, ending)
    ensures Takes(s.host, old(s.queue), [], DumpCallback(s.host, s.portId, sn, fails), taken)
    ensures s.queue == old(s.queue)[taken..]
  {
    hide Stream, DumpOutcome, Takes;
    var run;
    run, taken := s.Receive([], DumpCallback(s.host, s.portId, sn, fails));
    n := DumpEnd(s.host, s.portId, sn, fails, Stream(s.host, old(s.queue)), 0);
    DumpExact(s.host, s.portId, sn, fails, Stream(s.host, old(s.queue)), n);
    delivered, ending := run.state, run.ending;
  }

  /** Where a dump ends. */
  ghost function DumpEnd(h: ByteOrder, port: uint32, sn: uint32, fails: Consumer, items: seq<Item>, n: nat): (r: nat)
    requires n <= |items| && forall i :: 0 <= i < n ==> DumpPasses(h, port, sn, fails, items, i)
    ensures DumpEndsAt(h, port, sn, fails, items, r)
    decreases |items| - n
  {
    if n < |items| && DumpPasses(h, port, sn, fails, items, n) then DumpEnd(h, port, sn, fails, items, n + 1) else n
  }

  lemma {:induction false} RepliesSnoc(h: ByteOrder, port: uint32, sn: uint32, ms: seq<Message>, m: Message)
    ensures Replies(h, port, sn, ms + [m])
         == Replies(h, port, sn, ms) + if Classify(h, port, sn, m) == Reply then [m] else []
  {
    hide Classify;
    assert (ms + [m])[..|ms + [m]| - 1] == ms;
  }

  /** Passing over items leaves the consumer called with the replies among them. */
  lemma {:induction false} DumpPrefix(h: ByteOrder, port: uint32, sn: uint32, fails: Consumer, items: seq<Item>, n: nat)
    requires n <= |items| && forall i :: 0 <= i < n ==> DumpPasses(h, port, sn, fails, items, i)
    ensures ReceiveAll(items[..n], [], DumpCallback(h, port, sn, fails))
         == Run(Replies(h, port, sn, MessagesOf(items[..n])), Pending)
    decreases n
  {
    hide Classify, DumpTurn, ReceiveAll;
    var cb := DumpCallback(h, port, sn, fails);
    if n == 0 {
      ReceiveBroken([], cb);
    } else {
      assert DumpPasses(h, port, sn, fails, items, n - 1);
      var before := MessagesOf(items[..n - 1]);
      var m := items[n - 1].bytes;
      DumpPrefix(h, port, sn, fails, items, n - 1);
      MessagesSnoc(items, n - 1);
      RepliesSnoc(h, port, sn, before, m);
      TurnByClass(h, port, sn, fails, Replies(h, port, sn, before), None, m);
      OneMore(items, n - 1, [], cb);
      assert Replies(h, port, sn, before) + [] == Replies(h, port, sn, before);
    }
  }

  /** One more item after a prefix that the loop passes over. */
  lemma {:induction false} OneMore<S>(items: seq<Item>, n: nat, st: S, cb: Callback<S>)
    requires n < |items| && ReceiveAll(items[..n], st, cb).ending == Pending
    ensures var now := ReceiveAll(items[..n], st, cb).state;
      match items[n]
      case BadFrame => ReceiveAll(items, st, cb) == Run(now, Failed)
      case Undersized => ReceiveAll(items, st, cb) == Run(now, Overran)
      case Msg(m) =>
        var (st', verdict) := cb(now, m);
        && ReceiveAll(items[..n + 1], st, cb) == Run(st', EndingOf(verdict))
        && (verdict != Continue ==> ReceiveAll(items, st, cb) == Run(st', EndingOf(verdict)))
  {
    hide ReceiveAll;
    var now := ReceiveAll(items[..n], st, cb).state;
    assert items == items[..n] + ([items[n]] + items[n + 1..]);
    assert items[..n + 1] == items[..n] + [items[n]];
    ReceiveAppend(items[..n], [items[n]] + items[n + 1..], st, cb);
    ReceiveAppend(items[..n], [items[n]], st, cb);
    ReceiveAppend([items[n]], items[n + 1..], now, cb);
    ReceiveBroken(now, cb);
    if items[n].Msg? {
      var m := items[n].bytes;
      ReceiveTurn(m, [], now, cb);
      assert [Msg(m)] + [] == [Msg(m)];
      ReceiveBroken(cb(now, m).0, cb);
    }
  }

  /** A dump delivers exactly the replies with its own number and port, in order, up to the
      first item that ends it: a framing error, a message for another port, an error reply,
      a completion, or a reply that the consumer fails on, which is still delivered. */
  lemma {:induction false} DumpExact(h: ByteOrder, port: uint32, sn: uint32, fails: Consumer, items: seq<Item>, n: nat)
    requires DumpEndsAt(h, port, sn, fails, items, n)
    ensures var run := ReceiveAll(items, [], DumpCallback(h, port, sn, fails));
      DumpOutcome(h, port, sn, fails, items, n, run.state, run.ending)
  {
    hide Classify, DumpTurn, ReceiveAll, Replies;
    DumpPrefix(h, port, sn, fails, items, n);
    if n == |items| {
      assert items[..n] == items;
    } else {
      OneMore(items, n, [], DumpCallback(h, port, sn, fails));
      if items[n].Msg? {
        TurnByClass(h, port, sn, fails, Replies(h, port, sn, MessagesOf(items[..n])), None, items[n].bytes);
      }
    }
  }

  lemma {:induction false} RepliesMatch(h: ByteOrder, port: uint32, sn: uint32, ms: seq<Message>, m: Message)
    requires m in Replies(h, port, sn, ms)
    ensures m in ms && |m| >= NLMSG_HDRLEN && Seq(h, m) == sn && Pid(h, m) == port
    decreases ms
  {
    var n := |ms| - 1;
    if m in Replies(h, port, sn, ms[..n]) {
      RepliesMatch(h, port, sn, ms[..n], m);
    }
  }

  /** Whatever else happens, all that is delivered has the number and port of the request. */
  lemma {:induction false} DeliveredMatch(h: ByteOrder, port: uint32, sn: uint32, fails: Consumer, items: seq<Item>,
                                          m: Message)
    requires m in ReceiveAll(items, [], DumpCallback(h, port, sn, fails)).state
    ensures |m| >= NLMSG_HDRLEN && Seq(h, m) == sn && Pid(h, m) == port
  {
    hide ReceiveAll, Seq, Pid, Type, U32At;
    var n := DumpEnd(h, port, sn, fails, items, 0);
    DumpExact(h, port, sn, fails, items, n);
    if m in Replies(h, port, sn, MessagesOf(items[..n])) {
      RepliesMatch(h, port, sn, MessagesOf(items[..n]), m);
    }
  }

  // -------------------------------------------------------------------- splits

  /** A datagram's worth of messages, and how much of the padding after the last is kept. */
  datatype Part = Part(messages: seq<Message>, kept: nat)

  function Datagrams(parts: seq<Part>): seq<Recv> {
    if parts == [] then [] else [Datagram(Joined(parts[0].messages, parts[0].kept))] + Datagrams(parts[1..])
  }

  function Flatten(parts: seq<Part>): seq<Message> {
    if parts == [] then [] else parts[0].messages + Flatten(parts[1..])
  }

  lemma {:induction false} AsItemsAppend(x: seq<Message>, y: seq<Message>)
    ensures AsItems(x + y) == AsItems(x) + AsItems(y)
  {
  }

  /** A datagram has messages in it, and they are finished. */
  predicate Sendable(h: ByteOrder, p: Part) {
    p.messages != [] && forall m :: m in p.messages ==> Finished(h, m)
  }

  /** However a reply stream is split into non-empty datagrams, and whether or not the last
      message of each is padded, the loops see the same messages. */
  lemma {:induction false} AnySplit(h: ByteOrder, parts: seq<Part>)
    requires forall p :: p in parts ==> Sendable(h, p)
    ensures Stream(h, Datagrams(parts)) == AsItems(Flatten(parts))
    decreases parts
  {
    hide Finished, Joined, Items;
    if parts != [] {
      var p := parts[0];
      assert Sendable(h, p);
      SplitJoined(h, [], p.messages, p.kept);
      assert [] + Joined(p.messages, p.kept) == Joined(p.messages, p.kept);
      AnySplit(h, parts[1..]);
      AsItemsAppend(p.messages, Flatten(parts[1..]));
      assert Datagrams(parts)[1..] == Datagrams(parts[1..]);
    }
  }

  /** Two splits of one reply stream are indistinguishable to every loop. */
  lemma {:induction false} SplitIndependent<S>(h: ByteOrder, parts: seq<Part>, parts': seq<Part>, st: S,
                                               cb: Callback<S>)
    requires forall p :: p in parts ==> Sendable(h, p)
    requires forall p :: p in parts' ==> Sendable(h, p)
    requires Flatten(parts) == Flatten(parts')
    ensures ReceiveAll(Stream(h, Datagrams(parts)), st, cb) == ReceiveAll(Stream(h, Datagrams(parts')), st, cb)
  {
    hide Sendable, ReceiveAll;
    AnySplit(h, parts);
    AnySplit(h, parts');
  }

  // ------------------------------------------------------------ single requests

  /** A class of message that `Request` takes for a response; a completion is one of them. */
  predicate Responds(c: Class) {
    c in {Reply, Done, DoneError}
  }

  /** The first item alone decides about the response and the ending. */
  predicate RequestOutcome(h: ByteOrder, port: uint32, sn: uint32, items: seq<Item>, resp: Option<Message>,
                           ending: Ending) {
    if items == [] then resp == None && ending == Pending
    else
      match items[0]
      case BadFrame => resp == None && ending == Failed
      case Undersized => resp == None && ending == Overran
      case Msg(m) =>
        var c := Classify(h, port, sn, m);
        && resp == (if Responds(c) then Some(m) else None)
        && ending == if c == Garbled then Overran else if c in {Foreign, Refusal} then Failed else Stopped
  }

  /** `Request` never looks past the first message: it has a response exactly when that one
      is relevant and no error, and in particular none, and no error, when it is stale. */
  lemma {:induction false} RequestExact(h: ByteOrder, port: uint32, sn: uint32, items: seq<Item>)
    ensures var run := ReceiveAll(items, None, RequestCallback(h, port, sn));
      RequestOutcome(h, port, sn, items, run.state, run.ending)
  {
    hide Classify, RequestTurn, ReceiveAll;
    var cb := RequestCallback(h, port, sn);
    ReceiveBroken(None, cb);
    if items != [] {
      assert items[..0] == [];
      OneMore(items, 0, None, cb);
      if items[0].Msg? {
        TurnByClass(h, port, sn, (_, _) => false, [], None, items[0].bytes);
      }
    }
  }

  /** `Request` after sending. */
  method Request(s: NetlinkSocket, sn: uint32) returns (resp: Option<Message>, ending: Ending, ghost taken: nat)
    modifies s`queue
    ensures var items := Stream(s.host, old(s.queue));
      && RequestOutcome(s.host, s.portId, sn, items, resp, ending)
      && (resp.Some? <==>
            items != [] && items[0].Msg? && Responds(Classify(s.host, s.portId, sn, items[0].bytes)))
    ensures resp.Some? ==>
      |resp.value| >= NLMSG_HDRLEN && Seq(s.host, resp.value) == sn && Pid(s.host, resp.value) == s.portId
    ensures Takes(s.host, old(s.queue), None, RequestCallback(s.host, s.portId, sn), taken)
    ensures s.queue == old(s.queue)[taken..]
  {
    hide Stream, Takes, Seq, Pid, Type, U32At, ReceiveAll;
    var run;
    run, taken := s.Receive(None, RequestCallback(s.host, s.portId, sn));
    RequestExact(s.host, s.portId, sn, Stream(s.host, old(s.queue)));
    resp, ending := run.state, run.ending;
  }

  // ----------------------------------------------------------------- header fields

  /** The fields that the loops read are those of the netlink header, section 2.3.2 of
      RFC 3549: length, type, flags, sequence number, port. */
  lemma {:induction false} HeaderFields(h: ByteOrder, len: uint32, typ: uint16, flags: uint16, sn: uint32, pid: uint32,
                                        rest: seq<byte>)
    ensures var m := MsgHeader(h, len, typ, flags, sn, pid) + rest;
      && |m| == NLMSG_HDRLEN + |rest|
      && Type(h, m) == typ && Seq(h, m) == sn && Pid(h, m) == pid
      && (|rest| >= 4 ==> U32At(h, m, NLMSG_HDRLEN) == U32At(h, rest, 0))
  {
    hide U16At, U32At;
    var m := MsgHeader(h, len, typ, flags, sn, pid) + rest;
    assert m[4..4 + 2] == U16(h, typ);
    U16RoundTrip(h, typ, m, 4);
    assert m[8..8 + 4] == U32(h, sn);
    U32RoundTrip(h, sn, m, 8);
    assert m[12..12 + 4] == U32(h, pid);
    U32RoundTrip(h, pid, m, 12);
    if |rest| >= 4 {
      U32Worth(h, m, NLMSG_HDRLEN);
      U32Worth(h, rest, 0);
    }
  }

  /** What a message is, by its header fields: type 2 is an error or, with code 0, an
      acknowledgement, which counts as a reply; type 3 is a completion. */
  lemma {:induction false} ClassifyByHeader(h: ByteOrder, port: uint32, number: uint32, len: uint32, typ: uint16,
                                            flags: uint16, sn: uint32, pid: uint32, rest: seq<byte>)
    ensures Classify(h, port, number, MsgHeader(h, len, typ, flags, sn, pid) + rest) ==
      if pid != port then Foreign
      else if sn != number then Stale
      else if typ == 2 then
        if |rest| < 4 then Garbled else if rest[..4] == [0, 0, 0, 0] then Reply else Refusal
      else if typ == 3 then
        if |rest| >= 4 && rest[..4] == [0, 0, 0, 0] then Done else DoneError
      else Reply
  {
    hide U32At, Type, Seq, Pid, MsgHeader;
    HeaderFields(h, len, typ, flags, sn, pid, rest);
    if |rest| >= 4 {
      U32Worth(h, rest, 0);
    }
  }

  /** `checkHeader` by header fields, as `consume` uses it. */
  lemma {:induction false} CheckByHeader(h: ByteOrder, len: uint32, typ: uint16, flags: uint16, sn: uint32, pid: uint32,
                                         rest: seq<byte>)
    ensures CheckHeader(h, MsgHeader(h, len, typ, flags, sn, pid) + rest) ==
      if typ != 2 then Fine
      else if |rest| < 4 then Unreadable
      else if rest[..4] == [0, 0, 0, 0] then Fine
      else Erroneous
  {
    hide U32At, Type, Seq, Pid, MsgHeader;
    HeaderFields(h, len, typ, flags, sn, pid, rest);
    if |rest| >= 4 {
      U32Worth(h, rest, 0);
    }
  }

  /** A built request carries the number that finishing it returned, so a reply that copies the
      number and comes to our port is a reply to it. */
  lemma {:induction false} RequestNumber(h: ByteOrder, typ: uint16, flags: uint16, sn: uint32,
                                         cmd: byte, version: byte, ifindex: uint32, f: seq<Attributes.Attr>)
    ensures var r := Builder.Request(h, typ, flags, sn, cmd, version, ifindex, f);
      |r| >= NLMSG_HDRLEN && Seq(h, r) == sn && Type(h, r) == typ && Pid(h, r) == 0
  {
    hide Type, Seq, Pid, MsgHeader, U32, GenlHeader, Attributes.EncodeForest;
    var body := Attributes.EncodeForest(h, 24, f);
    var rest := GenlHeader(cmd, version) + U32(h, ifindex) + body;
    var len := (24 + |body|) % 0x1_0000_0000;
    Assoc(MsgHeader(h, len, typ, flags, sn, 0), GenlHeader(cmd, version), U32(h, ifindex), body);
    HeaderFields(h, len, typ, flags, sn, 0, rest);
  }

  /** `checkResponseHeader` by header fields: a message for another port is an error although it
      counts as relevant, and one with another number is neither. */
  lemma {:induction false} ResponseByHeader(h: ByteOrder, port: uint32, number: uint32, len: uint32, typ: uint16,
                                            flags: uint16, sn: uint32, pid: uint32, rest: seq<byte>)
    ensures var m := MsgHeader(h, len, typ, flags, sn, pid) + rest;
      CheckResponseHeader(h, port, number, m) ==
        if pid != port then (true, Erroneous) else if sn != number then (false, Fine) else (true, CheckHeader(h, m))
  {
    hide U32At, Type, Seq, Pid, MsgHeader, CheckHeader;
    HeaderFields(h, len, typ, flags, sn, pid, rest);
  }
}
