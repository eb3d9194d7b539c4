/** Actions on the wire, with the numbers of the attributes, and what `Equals` on actions and
    flows has to do with it. */
module ActionWire {
  import opened Bytes
  import opened Attributes
  import opened Tunnels
  import opened FlowKeys
  import opened FlowKeyCodec
  import opened FlowSpecs
  import opened FlowSpecCodec
  import opened ParserTable

  // --------------------------------------------------------------- what is written

  /** An output action is attribute 1 with the port in host order. */
  lemma {:induction false} OutputSent(h: ByteOrder, v: uint32)
    ensures ActionAttr(h, Output(v)) == Leaf(1, Digits(h, v))
  {
    hide U32, Digits;
    U32Layout(h, v);
  }

  /** A tunnel action is attribute 3 around attribute 16 around the tunnel's attributes: each
      that is present, but the flags exactly if they are set, present or not. */
  lemma {:induction false} SetTunnelSent(h: ByteOrder, ta: TunnelAttrs, p: Presence)
    ensures var a := ActionAttr(h, SetTunnel(ta, p));
      && a.Nested? && a.typ == 3 && |a.kids| == 1 && a.kids[0].Nested? && a.kids[0].typ == 16
      && OnWire(MapOf(h, a.kids[0].kids), ta, p.(df := ta.df, csum := ta.csum))
  {
    hide MapOf, ToForest, OnWire;
    ForestOnWire(h, ta, p.(df := ta.df, csum := ta.csum));
  }

  /** The attributes of a flow are number 1 for the keys, 7 for the masks and 2 for the actions,
      in which each action is one attribute, in order. */
  lemma {:induction false} FlowSent(h: ByteOrder, f: FlowSpec, o: seq<uint16>, o': seq<uint16>)
    requires Order(f.keys, o) && Order(f.keys, o')
    ensures MapOf(h, SpecForest(h, f, o, o')) == map[
      1 := Value(h, Nested(1, KeyAttrs(h, f.keys, o))),
      7 := Value(h, Nested(7, MaskAttrs(h, f.keys, o'))),
      2 := Value(h, Nested(2, seq(|f.actions|, i requires 0 <= i < |f.actions| => ActionAttr(h, f.actions[i]))))]
  {
    hide MapOf, Value, KeyAttrs, MaskAttrs, ActionAttr;
    var s := SpecForest(h, f, o, o');
    assert ActionForest(h, f.actions)
        == seq(|f.actions|, i requires 0 <= i < |f.actions| => ActionAttr(h, f.actions[i]));
    SpecAttrs(h, s[0], s[1], s[2]);
    assert s == [s[0], s[1], s[2]];
  }

  // ------------------------------------------------------------------ what is read

  /** How a SET of one attribute is read: attribute 2 of 4 bytes and attribute 13 of 16 bytes
      betray the flattened encoding, attribute 16 is a tunnel, and any other attribute of any
      size is that attribute. */
  lemma {:induction false} SetOfOne(h: ByteOrder, t: uint16, d: seq<byte>, r: Outcome<Action>)
    requires FitsOne(h, Nested(3, [Leaf(t, d)]))
    ensures SetResult(h, Value(h, Nested(3, [Leaf(t, d)])), r) <==>
      if (t == 2 && |d| == 4) || (t == 13 && |d| == 16) then r == MakeSetTunnel(ParseTunnelAttrs(h, map[t := d]))
      else if t == 16 then r == MakeSetTunnel(ParseTunnelData(h, d))
      else r == Ok(SetUnknown(t, d))
  {
    hide ParseNested, ParseTunnelAttrs, ParseTunnelData, MapOf, FitsOne;
    ParseNestedMap(h, 3, [Leaf(t, d)]);
    MapSingle(h, Leaf(t, d));
    var attrs := map[t := d];
    assert t in attrs && ParseNested(h, Value(h, Nested(3, [Leaf(t, d)]))) == Ok(attrs);
  }

  /** The one attribute that is misread: a SET of the priority, which is also of type 2 and has
      4 bytes, is taken for a tunnel to that address. */
  lemma {:induction false} PrioritySetMisread(h: ByteOrder, d: seq<byte>, r: Outcome<Action>)
    requires |d| == 4 && SetResult(h, Value(h, Nested(3, [Leaf(2, d)])), r)
    ensures r.Ok? && r.value.SetTunnel? && r.value.attrs == NO_TUNNEL.attrs.(ipv4Dst := d)
  {
    hide ParseNested, Value, MakeSetTunnel, ParseTunnelAttrs, SetResult;
    SmallFits(h, d);
    SetOfOne(h, 2, d, r);
    OneAddress(h, d);
    MakeTunnel(ParseTunnelAttrs(h, map[2 := d]));
  }

  lemma {:induction false} MakeTunnel(t: Outcome<Tunnel>)
    requires t.Ok?
    ensures MakeSetTunnel(t) == Ok(SetTunnel(t.value.attrs, t.value.present))
  {
  }

  lemma {:induction false} OneAddress(h: ByteOrder, d: seq<byte>)
    requires |d| == 4
    ensures var r := ParseTunnelAttrs(h, map[2 := d]); r.Ok? && r.value.attrs == NO_TUNNEL.attrs.(ipv4Dst := d)
  {
    PortRead(h, 0);
  }

  lemma {:induction false} SmallFits(h: ByteOrder, d: seq<byte>)
    requires |d| == 4
    ensures FitsOne(h, Nested(3, [Leaf(2, d)]))
  {
    EncodeSingle(h, 0, Leaf(2, d));
    EncodeAttrEnd(h, 0, Leaf(2, d));
  }

  // ------------------------------------------------------------------- what is equal

  const ALL_PRESENT := Presence(true, true, true, true, true, true, true, true, true)

  /** The action with all tunnel fields written out, as presence does not count. */
  function InFull(a: Action): Action {
    if a.SetTunnel? then SetTunnel(a.attrs, ALL_PRESENT) else a
  }

  lemma {:induction false} SameTunnels(h: ByteOrder, ta: TunnelAttrs, tb: TunnelAttrs)
    requires ActionAttr(h, SetTunnel(ta, ALL_PRESENT)) == ActionAttr(h, SetTunnel(tb, ALL_PRESENT))
    ensures ta == tb
  {
    hide ActionAttr, MapOf, Lookup, PortOnWire;
    SetTunnelSent(h, ta, ALL_PRESENT);
    SetTunnelSent(h, tb, ALL_PRESENT);
    SamePort(ta.tpSrc, tb.tpSrc);
    SamePort(ta.tpDst, tb.tpDst);
    assert [ta.tos][0] == [tb.tos][0] && [ta.ttl][0] == [tb.ttl][0];
  }

  lemma {:induction false} SamePort(p: uint16, q: uint16)
    ensures PortOnWire(p) == PortOnWire(q) ==> p == q
  {
    assert p == p / 256 * 256 + p % 256 && q == q / 256 * 256 + q % 256;
    if PortOnWire(p) == PortOnWire(q) {
      assert PortOnWire(p)[0] == PortOnWire(q)[0] && PortOnWire(p)[1] == PortOnWire(q)[1];
    }
  }

  lemma {:induction false} SameOutputs(h: ByteOrder, v: uint32, w: uint32)
    requires ActionAttr(h, Output(v)) == ActionAttr(h, Output(w))
    ensures v == w
  {
    hide U32, U32At;
    OutputReadBack(h, v, Ok(Output(v)));
    OutputReadBack(h, w, Ok(Output(v)));
  }

  /** `Equals` on actions, exactly: they are both of unknown type or both not, and with all
      tunnel fields written out they are the same on the wire. */
  lemma {:induction false} ActionEqualsOnWire(h: ByteOrder, a: Action, b: Action)
    ensures ActionEquals(a, b) <==>
      (a.SetUnknown? <==> b.SetUnknown?) && ActionAttr(h, InFull(a)) == ActionAttr(h, InFull(b))
  {
    hide ToForest, U32;
    if ActionAttr(h, InFull(a)) == ActionAttr(h, InFull(b)) {
      if a.SetTunnel? && b.SetTunnel? {
        SameTunnels(h, a.attrs, b.attrs);
      } else if a.Output? && b.Output? {
        SameOutputs(h, a.vport, b.vport);
      }
    }
  }

  /** `Equals` on flows, exactly: equal keys, and one by one, in order, actions that are of
      unknown type alike and the same on the wire. */
  lemma {:induction false} SpecEqualsOnWire(h: ByteOrder, f: FlowSpec, g: FlowSpec)
    ensures SpecEquals(f, g) <==>
      && Equals(f.keys, g.keys) && |f.actions| == |g.actions|
      && (forall i :: 0 <= i < |f.actions| ==> (f.actions[i].SetUnknown? <==> g.actions[i].SetUnknown?))
      && ActionForest(h, Full(f.actions)) == ActionForest(h, Full(g.actions))
  {
    hide Equals, ActionEquals, ActionAttr, InFull;
    var x, y := ActionForest(h, Full(f.actions)), ActionForest(h, Full(g.actions));
    if |f.actions| == |g.actions| {
      forall i | 0 <= i < |f.actions|
        ensures ActionEquals(f.actions[i], g.actions[i]) <==>
          (f.actions[i].SetUnknown? <==> g.actions[i].SetUnknown?) && x[i] == y[i]
      {
        ActionEqualsOnWire(h, f.actions[i], g.actions[i]);
      }
      assert x == y <==> forall i :: 0 <= i < |x| ==> x[i] == y[i];
    }
  }

  function Full(actions: seq<Action>): (r: seq<Action>)
    ensures |r| == |actions| && forall i :: 0 <= i < |r| ==> r[i] == InFull(actions[i])
  {
    seq(|actions|, i requires 0 <= i < |actions| => InFull(actions[i]))
  }

  /** Flows that output to the same ports in the same order: exactly those are equal among
      flows of outputs with equal keys. */
  lemma {:induction false} OutputsEqual(f: FlowSpec, g: FlowSpec)
    requires forall i :: 0 <= i < |f.actions| ==> f.actions[i].Output?
    requires Equals(f.keys, g.keys)
    ensures SpecEquals(f, g) <==>
      && |f.actions| == |g.actions|
      && forall i :: 0 <= i < |f.actions| ==> g.actions[i].Output? && f.actions[i].vport == g.actions[i].vport
  {
  }

  /** So `Equals` on actions is an equivalence relation. */
  lemma {:induction false} ActionEqualsLaws(a: Action, b: Action, c: Action)
    ensures ActionEquals(a, a)
    ensures ActionEquals(a, b) ==> ActionEquals(b, a)
    ensures ActionEquals(a, b) && ActionEquals(b, c) ==> ActionEquals(a, c)
  {
    hide ActionEquals, ActionAttr, InFull;
    ActionEqualsOnWire(Little, a, a);
    ActionEqualsOnWire(Little, a, b);
    ActionEqualsOnWire(Little, b, a);
    ActionEqualsOnWire(Little, b, c);
    ActionEqualsOnWire(Little, a, c);
  }

  // ------------------------------------------------------------------ when it panics

  /** Reading an action panics exactly if it is a SET that is malformed or, not betraying the
      flattened encoding, has a malformed tunnel attribute in it; every other failure is an
      error. */
  lemma {:induction false} WhenActionPanics(h: ByteOrder, raw: RawAttr, r: Outcome<Action>)
    requires ActionResult(h, raw, r)
    ensures r.Panic? <==>
      && raw.typ == 3
      && (Malformed(h, raw.val)
          || (ParseNested(h, raw.val).Ok?
              && var attrs := ParseNested(h, raw.val).value;
              !(2 in attrs && |attrs[2]| == 4) && !(13 in attrs && |attrs[13]| == 16)
              && 16 in attrs && Malformed(h, attrs[16])))
  {
    hide ParseAttrs, ParseTunnelAttrs, ParseTunnelData, ToMap, U32At;
    if raw.typ == 3 && ParseNested(h, raw.val).Ok? {
      var attrs := ParseNested(h, raw.val).value;
      WrongSizes(h, attrs);
      if 16 in attrs {
        TunnelDataOutcome(h, attrs[16]);
      }
    }
  }
}
