/** A flow's way through a whole message: built as `CreateFlow` builds it, framed, checked
    and parsed as `parseFlowMsg` and `parseFlowSpec` do. */
module FlowMessages {
  import opened Bytes
  import opened Attributes
  import opened Builder
  import opened Messages
  import opened Parser
  import opened Tunnels
  import opened FlowKeys
  import opened FlowSpecs
  import opened FlowSpecCodec
  import opened FlowSpecBuilder
  import opened FlowParsing

  /** Old kernels reply with this command whatever was asked, so it is always accepted. */
  const OVS_FLOW_CMD_NEW := 1

  lemma {:induction false} ThreeAttrsSize(h: ByteOrder, f: seq<Attr>)
    requires |f| == 3 && Fits(h, f)
    ensures 24 + |EncodeForest(h, 24, f)| < 0x1_0000_0000
  {
    hide EncodeForest, EncodeAttr, FitsOne;
    var a, b, c := f[0], f[1], f[2];
    assert f == [a] + [b] + [c];
    EncodeAppend(h, 24, [a] + [b], [c]);
    EncodeAppend(h, 24, [a], [b]);
    OneAttrSize(h, 24, a);
    OneAttrSize(h, 24 + |EncodeForest(h, 24, [a])|, b);
    OneAttrSize(h, 24 + |EncodeForest(h, 24, [a] + [b])|, c);
  }

  lemma {:induction false} OneAttrSize(h: ByteOrder, base: nat, a: Attr)
    requires FitsOne(h, a)
    ensures |EncodeForest(h, base, [a])| < 0x1_0004
  {
    hide EncodeForest, Value;
    EncodeSingle(h, base, a);
    EncodeAttrEnd(h, base, a);
  }

  /** `CreateFlow` up to sending: the message, or an error that leaves nothing to send. */
  method BuildFlow(h: ByteOrder, last: uint32, family: uint16, flags: uint16, cmd: byte, version: byte,
                   ifindex: uint32, f: FlowSpec)
    returns (msg: Outcome<seq<byte>>, ghost sn: uint32, ghost o: seq<uint16>, ghost o': seq<uint16>)
    ensures Order(f.keys, o) && Order(f.keys, o')
    ensures msg == if Serialisable(f.keys)
      then Ok(Request(h, family, flags, sn, cmd, version, ifindex, SpecForest(h, f, o, o'))) else Error
    ensures sn == (last + 1) % 0x1_0000_0000
  {
    hide Request, RequestStart, EncodeForest, SpecForest, Patched, U32, Serialisable;
    sn := (last + 1) % 0x1_0000_0000;
    var b := StartRequest(h, family, flags, cmd, version, ifindex);
    var ok;
    ok, o, o' := PutFlowSpec(b, f);
    if !ok {
      return Error, sn, o, o';
    }
    var bytes, number := b.Finish(last);
    FinishedRequest(h, family, flags, sn, cmd, version, ifindex, SpecForest(h, f, o, o'));
    msg := Ok(bytes);
  }

  /** Reading a flow out of a received datagram, the buffer of which is `buf`: framing, the
      header checks with the datapath's index, and `parseFlowSpec`. */
  method ReadFlow(h: ByteOrder, table: Table, buf: array<byte>, family: uint16, cmd: byte, ifindex: uint32)
    returns (r: Outcome<FlowSpec>)
    requires Valid(table) && buf !in Arrays(table)
    modifies buf, Arrays(table)
    ensures Valid(table)
    ensures r.Ok? ==> Carries(h, old(buf[..]), family, cmd, ifindex, r.value)
    ensures (exists f :: Carries(h, old(buf[..]), family, cmd, ifindex, f)) ==> r.Ok?
    ensures r.Panic? ==> Disrupts(h, old(buf[..]), family, cmd, ifindex)
  {
    hide ParseAttrs, SpecParses, SpecFailsAs, CheckHeaders, NextMsg, ToMap, Valid, Values, AllApart, Located;
    ghost var was := buf[..];
    assert was[..|was|] == was;
    var datagram := new NlMsgParser(h, buf[..], 0);
    var next := datagram.NextNlMsg();
    if !next.Ok? || next.value == null {
      return Error;
    }
    var msg := next.value;
    var headers := msg.CheckNlMsgHeaders(family, cmd as int, OVS_FLOW_CMD_NEW);
    if !headers.Ok? {
      return Failed(headers);
    }
    if headers.value.ifindex != ifindex {
      return Error;
    }
    var spans, status, which := TakeSpans(h, buf, 0, |msg.data|, msg.pos);
    assert buf[0..|msg.data|] == was[..|msg.data|];
    if status != Complete {
      return StatusOutcome(status);
    }
    r := ParseFlowSpec(h, table, buf, spans);
  }

  /** The datagram begins with a message of the right family, command and datapath, the
      attributes of which parse to the flow. */
  ghost predicate Carries(h: ByteOrder, data: seq<byte>, family: uint16, cmd: byte, ifindex: uint32, f: FlowSpec) {
    && NextMsg(h, data, 0).Message?
    && var msg := data[..NextMsg(h, data, 0).end];
       var headers := CheckHeaders(h, msg, 0, family, cmd as int, OVS_FLOW_CMD_NEW);
       && headers.Ok? && headers.value.ifindex == ifindex
       && var p := ParseAttrs(h, msg, headers.value.attrs);
          p.status == Complete && SpecParses(h, ToMap(p.attrs), f)
  }

  /** The datagram makes the library panic: its first message is empty, or the attributes in it,
      or those of the flow, are malformed. */
  ghost predicate Disrupts(h: ByteOrder, data: seq<byte>, family: uint16, cmd: byte, ifindex: uint32) {
    && NextMsg(h, data, 0).Message?
    && var msg := data[..NextMsg(h, data, 0).end];
       var headers := CheckHeaders(h, msg, 0, family, cmd as int, OVS_FLOW_CMD_NEW);
       || headers.Panic?
       || (headers.Ok? && headers.value.ifindex == ifindex
           && var p := ParseAttrs(h, msg, headers.value.attrs);
              p.status == OutOfRange || (p.status == Complete && SpecFailsAs(h, ToMap(p.attrs), true)))
  }

  lemma {:induction false} ArrivedCarries(h: ByteOrder, msg: seq<byte>, family: uint16, cmd: byte, ifindex: uint32,
                                          f: FlowSpec)
    requires Arrived(h, msg, family, cmd, ifindex)
    ensures Carries(h, msg, family, cmd, ifindex, f) <==> SpecParses(h, ToMap(ParseAttrs(h, msg, 24).attrs), f)
  {
    hide ParseAttrs, SpecParses, CheckHeaders, NextMsg, ToMap;
    assert msg[..|msg|] == msg;
  }

  /** The bytes are one message, whose headers are those of a reply about our flow. */
  ghost predicate Arrived(h: ByteOrder, msg: seq<byte>, family: uint16, cmd: byte, ifindex: uint32) {
    && NextMsg(h, msg, 0) == Message(|msg|, Align(|msg|))
    && CheckHeaders(h, msg, 0, family, cmd as int, OVS_FLOW_CMD_NEW) == Ok(Headers(cmd, ifindex, 24))
    && ParseAttrs(h, msg, 24).status == Complete
  }

  /** The flow that comes out of the message equals the one that went in, in both
      directions, if and only if that one is faithful.  A flow with an exact unknown key is
      refused, and no message is sent. */
  method ThroughMessage(h: ByteOrder, table: Table, last: uint32, family: uint16, flags: uint16, cmd: byte,
                        version: byte, ifindex: uint32, f: FlowSpec)
    returns (r: Outcome<FlowSpec>, ghost o: seq<uint16>, ghost o': seq<uint16>)
    requires Valid(table)
    modifies Arrays(table)
    ensures Valid(table)
    ensures Order(f.keys, o) && Order(f.keys, o')
    ensures !Serialisable(f.keys) ==> r == Error
    ensures Puttable(h, f, o, o') ==> ((r.Ok? && SpecEquals(f, r.value) && SpecEquals(r.value, f)) <==> Faithful(f))
  {
    hide Request, ParseAttrs, SpecParses, SpecForest, SpecEquals, Faithful, Arrived, Carries, ToMap, WellFormed, Fits,
      Valid, Serialisable, Order;
    ghost var sn;
    var msg;
    msg, sn, o, o' := BuildFlow(h, last, family, flags, cmd, version, ifindex, f);
    if !msg.Ok? {
      return Error, o, o';
    }
    var bytes := msg.value;
    var buf := new byte[|bytes|](i requires 0 <= i < |bytes| => bytes[i]);
    assert buf[..] == bytes;
    r := ReadFlow(h, table, buf, family, cmd, ifindex);
    if Puttable(h, f, o, o') {
      MessageArrives(h, bytes, family, flags, sn, cmd, version, ifindex, f, o, o');
      forall g
        ensures Carries(h, bytes, family, cmd, ifindex, g) <==>
          SpecParses(h, ToMap(ParseAttrs(h, bytes, 24).attrs), g)
      {
        ArrivedCarries(h, bytes, family, cmd, ifindex, g);
      }
    }
  }

  /** What the parser meets at each stage of a message that holds a flow. */
  lemma {:induction false} MessageArrives(h: ByteOrder, msg: seq<byte>, family: uint16, flags: uint16, sn: uint32,
                                          cmd: byte, version: byte, ifindex: uint32, f: FlowSpec,
                                          o: seq<uint16>, o': seq<uint16>)
    requires Puttable(h, f, o, o')
    requires msg == Request(h, family, flags, sn, cmd, version, ifindex, SpecForest(h, f, o, o'))
    ensures Arrived(h, msg, family, cmd, ifindex)
    ensures var attrs := ToMap(ParseAttrs(h, msg, 24).attrs);
      && (forall g :: SpecParses(h, attrs, g) ==>
            (SpecEquals(f, g) <==> Faithful(f)) && (SpecEquals(g, f) <==> Faithful(f)))
      && (Faithful(f) ==> exists g :: SpecParses(h, attrs, g))
  {
    hide EncodeForest, ParseAttrs, SpecParses, SpecForest, SpecEquals, CheckHeaders, NextMsg, ToMap,
      WellFormed, Fits, Request, Faithful;
    var s := SpecForest(h, f, o, o');
    SpecForestShape(h, f, o, o');
    ThreeAttrsSize(h, s);
    RequestArrives(h, msg, family, flags, sn, cmd, version, ifindex, s);
    assert ToMap(ParseAttrs(h, msg, 24).attrs) == MapOf(h, s);
    SpecOutcome(h, f, o, o');
  }

  lemma {:induction false} RequestArrives(h: ByteOrder, msg: seq<byte>, family: uint16, flags: uint16, sn: uint32,
                                          cmd: byte, version: byte, ifindex: uint32, s: seq<Attr>)
    requires Fits(h, s) && 24 + |EncodeForest(h, 24, s)| < 0x1_0000_0000
    requires msg == Request(h, family, flags, sn, cmd, version, ifindex, s)
    ensures NextMsg(h, msg, 0) == Message(|msg|, Align(|msg|))
    ensures CheckHeaders(h, msg, 0, family, cmd as int, OVS_FLOW_CMD_NEW) == Ok(Headers(cmd, ifindex, 24))
    ensures ParseAttrs(h, msg, 24).status == Complete && ParseAttrs(h, msg, 24).attrs == RawForest(h, s)
  {
    hide EncodeForest, ParseAttrs, CheckHeaders, NextMsg, Request, Fits, Align;
    assert msg[..|msg|] == msg && msg[0..0 + |msg|] == msg;
    RequestParts(h, msg, 0, family, flags, sn, cmd, version, ifindex, s);
    RequestHeaders(h, msg, 0, family, flags, sn, cmd, version, ifindex, s, cmd as int, OVS_FLOW_CMD_NEW);
    RequestAttrs(h, msg, 0, family, flags, sn, cmd, version, ifindex, s);
  }

  lemma {:induction false} SpecOutcome(h: ByteOrder, f: FlowSpec, o: seq<uint16>, o': seq<uint16>)
    requires Puttable(h, f, o, o')
    ensures var attrs := MapOf(h, SpecForest(h, f, o, o'));
      && (forall g :: SpecParses(h, attrs, g) ==>
            (SpecEquals(f, g) <==> Faithful(f)) && (SpecEquals(g, f) <==> Faithful(f)))
      && (Faithful(f) ==> exists g :: SpecParses(h, attrs, g))
  {
    hide SpecParses, SpecForest, SpecEquals, WellFormed, Fits, MapOf;
    forall g | SpecParses(h, MapOf(h, SpecForest(h, f, o, o')), g)
      ensures (SpecEquals(f, g) <==> Faithful(f)) && (SpecEquals(g, f) <==> Faithful(f))
    {
      SpecRoundTripEquals(h, f, o, o', g);
    }
    if Faithful(f) {
      SpecRoundTripParses(h, f, o, o');
    }
  }

  lemma {:induction false} SpecForestShape(h: ByteOrder, f: FlowSpec, o: seq<uint16>, o': seq<uint16>)
    requires Puttable(h, f, o, o')
    ensures |SpecForest(h, f, o, o')| == 3 && Fits(h, SpecForest(h, f, o, o'))
  {
  }

  /** Which commands pass for a reply to command `cmd` about flows: `cmd` itself and NEW, which
      is number 1, since old kernels reply with that whatever was asked. */
  lemma {:induction false} RepliesAccepted(h: ByteOrder, msg: seq<byte>, family: uint16, flags: uint16, sn: uint32,
                                           c: byte, version: byte, ifindex: uint32, s: seq<Attr>, cmd: byte)
    requires Fits(h, s) && 24 + |EncodeForest(h, 24, s)| < 0x1_0000_0000
    requires msg == Request(h, family, flags, sn, c, version, ifindex, s)
    ensures CheckHeaders(h, msg, 0, family, cmd as int, OVS_FLOW_CMD_NEW)
         == if c == cmd || c == 1 then Ok(Headers(c, ifindex, 24)) else Error
  {
    hide EncodeForest, CheckHeaders, NextMsg, Request, Fits, Align;
    assert msg[..|msg|] == msg && msg[0..0 + |msg|] == msg;
    RequestParts(h, msg, 0, family, flags, sn, c, version, ifindex, s);
    RequestHeaders(h, msg, 0, family, flags, sn, c, version, ifindex, s, cmd as int, OVS_FLOW_CMD_NEW);
  }
}
