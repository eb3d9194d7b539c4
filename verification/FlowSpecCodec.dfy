/** The round trip of complete flows. */
module FlowSpecCodec {
  import opened Bytes
  import opened Attributes
  import opened Tunnels
  import opened FlowKeys
  import opened FlowKeyCodec
  import opened FlowSpecs

  // ------------------------------------------------------------------- actions

  /** What keeps an action from changing on the way. */
  predicate CanonicalAction(a: Action) {
    match a
    case Output(_) => true
    case SetTunnel(ta, p) => CanonicalTunnel(ta, ActionPresence(ta, p))
    case SetUnknown(_, _) => false
  }

  function NormalTunnel(ta: TunnelAttrs, p: Presence): Action {
    SetTunnel(Shown(ta, p), ShownPresence(ta, p))
  }

  lemma {:induction false} OutputReadBack(h: ByteOrder, v: uint32, r: Outcome<Action>)
    ensures ActionResult(h, Raw(h, ActionAttr(h, Output(v))), r) <==> r == Ok(Output(v))
  {
    hide U32, U32At;
    var s := U32(h, v);
    assert s[0..0 + 4] == s;
    U32RoundTrip(h, v, s, 0);
  }

  /** The nested encoding of a tunnel action is read as that tunnel. */
  lemma {:induction false} NestedSet(h: ByteOrder, ta: TunnelAttrs, p: Presence, r: Outcome<Action>)
    requires FitsOne(h, ActionAttr(h, SetTunnel(ta, p)))
    ensures SetResult(h, Value(h, ActionAttr(h, SetTunnel(ta, p))), r)
       <==> r == Ok(NormalTunnel(ta, ActionPresence(ta, p)))
  {
    hide ParseNested, ParseTunnelAttrs, ParseTunnelData, ToForest, Value, MapOf, Shown, ActionPresence;
    var p' := ActionPresence(ta, p);
    var inner := Nested(TUNNEL, ToForest(h, ta, p'));
    ParseNestedMap(h, ACTION_SET, [inner]);
    MapSingle(h, inner);
    FitsInside(h, ACTION_SET, [inner]);
    assert inner in [inner];
    TunnelRoundTrip(h, TUNNEL, ta, p');
  }

  /** The flattened encoding of kernel 4.3, in which the tunnel's attributes are directly in
      the SET attribute, is read as the same tunnel if the destination address is among
      them; without it the action is not recognised as a tunnel at all. */
  lemma {:induction false} FlattenedSet(h: ByteOrder, ta: TunnelAttrs, p: Presence, r: Outcome<Action>)
    requires FitsOne(h, Nested(ACTION_SET, ToForest(h, ta, p)))
    requires SetResult(h, Value(h, Nested(ACTION_SET, ToForest(h, ta, p))), r)
    ensures p.ipv4Dst ==> r == Ok(NormalTunnel(ta, p))
    ensures !p.ipv4Dst ==> r.Ok? && r.value.SetUnknown?
  {
    hide ParseNested, ParseTunnelAttrs, ParseTunnelData, ToForest, Value, MapOf, Shown;
    ParseNestedMap(h, ACTION_SET, ToForest(h, ta, p));
    var m := MapOf(h, ToForest(h, ta, p));
    ForestHolds(h, ta, p);
    TunnelReadBack(h, m, ta, p);
    assert Lookup(m, IPV4_DST) == Written(h, ta, p, IPV4_DST);
    assert Lookup(m, IPV6_DST) == Written(h, ta, p, IPV6_DST);
    assert Lookup(m, TUNNEL) == Written(h, ta, p, TUNNEL);
  }

  /** Both encodings of a tunnel action with a destination address equal the original, in
      either direction, exactly when the action is canonical. */
  lemma {:induction false} SetTunnelEquals(h: ByteOrder, ta: TunnelAttrs, p: Presence, nested: Outcome<Action>,
      flat: Outcome<Action>)
    requires p.ipv4Dst
    requires FitsOne(h, ActionAttr(h, SetTunnel(ta, p)))
      && FitsOne(h, Nested(ACTION_SET, ToForest(h, ta, ActionPresence(ta, p))))
    requires SetResult(h, Value(h, ActionAttr(h, SetTunnel(ta, p))), nested)
    requires SetResult(h, Value(h, Nested(ACTION_SET, ToForest(h, ta, ActionPresence(ta, p)))), flat)
    ensures nested == flat && nested.Ok?
    ensures ActionEquals(SetTunnel(ta, p), nested.value) <==> CanonicalAction(SetTunnel(ta, p))
    ensures ActionEquals(nested.value, SetTunnel(ta, p)) <==> CanonicalAction(SetTunnel(ta, p))
  {
    hide FitsOne, SetResult, Value, ToForest, Shown, CanonicalTunnel, ActionAttr;
    NestedSet(h, ta, p, nested);
    FlattenedSet(h, ta, ActionPresence(ta, p), flat);
    ShownIffCanonical(ta, ActionPresence(ta, p));
  }

  lemma {:induction false} ValuesShorter(h: ByteOrder, data: seq<byte>, pos: nat)
    ensures forall a :: a in ParseAttrs(h, data, pos).attrs ==> |a.val| < |data|
    decreases |data| - pos
  {
    hide U16At;
    if ParseAttrs(h, data, pos).attrs != [] {
      ParseFirst(h, data, pos);
      var p := ParseAttrs(h, data, pos);
      var next := Align(pos) + ATTR_HDRLEN + |p.attrs[0].val|;
      ValuesShorter(h, data, next);
      assert p.attrs == [p.attrs[0]] + ParseAttrs(h, data, next).attrs;
    }
  }

  lemma {:induction false} MapValues(raws: seq<RawAttr>, t: uint16)
    requires t in ToMap(raws)
    ensures RawAttr(t, ToMap(raws)[t]) in raws
    decreases raws
  {
    var n := |raws| - 1;
    if raws[n].typ != t {
      MapValues(raws[..n], t);
    } else {
      assert raws[n] == RawAttr(t, ToMap(raws)[t]);
    }
  }

  /** An action of an unknown type never comes back as itself. */
  lemma {:induction false} UnknownActionLost(h: ByteOrder, t: uint16, d: seq<byte>, b: Action)
    requires ActionResult(h, RawAttr(t, d), Ok(b))
    ensures !ActionEquals(SetUnknown(t, d), b) && !ActionEquals(b, SetUnknown(t, d))
  {
    hide ParseAttrs, ToMap, ParseTunnelAttrs, ParseTunnelData, U32At;
    if t == ACTION_SET && b.SetUnknown? {
      var attrs := ParseNested(h, d).value;
      if attrs != map[] {
        MapValues(ParseAttrs(h, d, 0).attrs, b.atyp);
        ValuesShorter(h, d, 0);
        assert |b.data| < |d|;
      }
    }
  }

  /** An action equals what it is read back as exactly when it is canonical. */
  lemma {:induction false} ActionReadBack(h: ByteOrder, a: Action, b: Action)
    requires FitsOne(h, ActionAttr(h, a))
    requires ActionResult(h, Raw(h, ActionAttr(h, a)), Ok(b))
    ensures ActionEquals(a, b) <==> CanonicalAction(a)
    ensures ActionEquals(b, a) <==> CanonicalAction(a)
  {
    hide FitsOne, SetResult, ToForest, Shown, CanonicalTunnel, U32, U32At, EncodeForest;
    match a
    case Output(v) => OutputReadBack(h, v, Ok(b));
    case SetTunnel(ta, p) =>
      NestedSet(h, ta, p, Ok(b));
      ShownIffCanonical(ta, ActionPresence(ta, p));
    case SetUnknown(t, d) => UnknownActionLost(h, t, d, b);
  }

  /** Output and tunnel actions always parse. */
  lemma {:induction false} ActionParses(h: ByteOrder, a: Action)
    requires FitsOne(h, ActionAttr(h, a)) && !a.SetUnknown?
    ensures exists b :: ActionResult(h, Raw(h, ActionAttr(h, a)), Ok(b))
  {
    hide FitsOne, SetResult, ToForest, Shown, U32, U32At, EncodeForest;
    match a
    case Output(v) =>
      OutputReadBack(h, v, Ok(Output(v)));
    case SetTunnel(ta, p) =>
      NestedSet(h, ta, p, Ok(NormalTunnel(ta, ActionPresence(ta, p))));
      assert ActionResult(h, Raw(h, ActionAttr(h, a)), Ok(NormalTunnel(ta, ActionPresence(ta, p))));
  }

  // --------------------------------------------------------------- whole flows

  /** The three attributes of a flow, by type. */
  lemma {:induction false} SpecAttrs(h: ByteOrder, k: Attr, m: Attr, a: Attr)
    requires k.typ == FLOW_KEY && m.typ == FLOW_MASK && a.typ == FLOW_ACTIONS
    ensures MapOf(h, [k, m, a]) == map[FLOW_KEY := Value(h, k), FLOW_MASK := Value(h, m), FLOW_ACTIONS := Value(h, a)]
  {
    hide MapOf, Value;
    assert [k, m, a] == [k] + [m] + [a];
    MapAppend(h, [k] + [m], [a]);
    MapAppend(h, [k], [m]);
    MapSingle(h, k);
    MapSingle(h, m);
    MapSingle(h, a);
  }

  /** The attributes that arrive, wherever in the message the flow was put. */
  lemma {:induction false} SpecArrives(h: ByteOrder, before: seq<byte>, f: seq<Attr>)
    requires Fits(h, f)
    ensures var p := ParseAttrs(h, before + EncodeForest(h, |before|, f), |before|);
      p.status == Complete && ToMap(p.attrs) == MapOf(h, f)
  {
    hide EncodeForest, ToMap, Fits;
    var e := EncodeForest(h, |before|, f);
    assert At(before + e, |before|, e);
    ParseEncoded(h, before + e, |before|, f);
    assert ParseAttrs(h, before + e, |before| + |e|) == Parsed([], Complete, |before| + |e|);
    assert RawForest(h, f) + [] == RawForest(h, f);
  }

  lemma {:induction false} KeyAttrSent(h: ByteOrder, fks: FlowKeys, order: seq<uint16>, t: uint16)
    requires WellFormed(fks) && Order(fks, order) && t in fks && !Ignored(fks[t])
    ensures KeyAttr(h, fks[t]) in KeyForest(h, fks, order)
    ensures MaskAttr(h, fks[t]).Some? ==> MaskAttr(h, fks[t]).value in MaskForest(h, fks, order)
  {
    hide Ignored, KeyAttr, MaskAttr, WellFormed;
    InForest(h, fks, order, t);
  }

  lemma {:induction false} InForest(h: ByteOrder, fks: FlowKeys, order: seq<uint16>, t: uint16)
    requires (forall u :: u in order ==> u in fks) && t in order && !Ignored(fks[t])
    ensures KeyAttr(h, fks[t]) in KeyForest(h, fks, order)
    ensures MaskAttr(h, fks[t]).Some? ==> MaskAttr(h, fks[t]).value in MaskForest(h, fks, order)
    decreases order
  {
    hide Ignored, KeyAttr, MaskAttr;
    if order[0] != t {
      InForest(h, fks, order[1..], t);
    }
  }

  /** If the key and mask attributes as wholes fit then so does every key in them. */
  lemma {:induction false} SentFits(h: ByteOrder, fks: FlowKeys, o: seq<uint16>, o': seq<uint16>)
    requires WellFormed(fks) && Order(fks, o) && Order(fks, o')
    requires FitsOne(h, Nested(FLOW_KEY, KeyAttrs(h, fks, o)))
    requires FitsOne(h, Nested(FLOW_MASK, MaskAttrs(h, fks, o')))
    ensures forall t :: t in Sent(fks) ==> KeyFits(h, Sent(fks)[t])
  {
    hide Ignored, KeyAttr, MaskAttr, WellFormed, FitsOne, KeyForest, MaskForest, NewEthernet;
    FitsInside(h, FLOW_KEY, KeyAttrs(h, fks, o));
    FitsInside(h, FLOW_MASK, MaskAttrs(h, fks, o'));
    forall t | t in Sent(fks) ensures KeyFits(h, Sent(fks)[t]) {
      NewEthernetShape(h);
      if t in fks {
        KeyAttrSent(h, fks, o, t);
        KeyAttrSent(h, fks, o', t);
      }
    }
  }

  /** The one key set that a flow's keys parse to. */
  lemma {:induction false} SpecKeysBack(h: ByteOrder, attrs: AttrMap, fks: FlowKeys, o: seq<uint16>,
                                        o': seq<uint16>, keys: FlowKeys)
    requires WellFormed(fks) && Serialisable(fks) && Order(fks, o) && Order(fks, o')
    requires FitsOne(h, Nested(FLOW_KEY, KeyAttrs(h, fks, o))) && FitsOne(h, Nested(FLOW_MASK, MaskAttrs(h, fks, o')))
    requires FLOW_KEY in attrs && attrs[FLOW_KEY] == Value(h, Nested(FLOW_KEY, KeyAttrs(h, fks, o)))
    requires FLOW_MASK in attrs && attrs[FLOW_MASK] == Value(h, Nested(FLOW_MASK, MaskAttrs(h, fks, o')))
    ensures KeysParse(h, attrs, keys) <==> keys == NormalKeys(Sent(fks))
  {
    hide ParseNested, ParseOne, WellFormed, Serialisable, FitsOne, Value, KeyAttrs, MaskAttrs, KeyMap, MaskMap,
      Domain, Sent, KeyFits, MapOf;
    ParseNestedMap(h, FLOW_KEY, KeyAttrs(h, fks, o));
    ParseNestedMap(h, FLOW_MASK, MaskAttrs(h, fks, o'));
    SentKeys(h, fks, o);
    SentMasks(h, fks, o');
    SentFits(h, fks, o, o');
    KeysReadBack(h, fks);
    if KeysParse(h, attrs, keys) {
      assert keys.Keys == NormalKeys(Sent(fks)).Keys;
    }
  }

  lemma {:induction false} SpecActionsBack(h: ByteOrder, attrs: AttrMap, actions: seq<Action>, back: seq<Action>)
    requires FitsOne(h, Nested(FLOW_ACTIONS, ActionForest(h, actions)))
    requires FLOW_ACTIONS in attrs && attrs[FLOW_ACTIONS] == Value(h, Nested(FLOW_ACTIONS, ActionForest(h, actions)))
    ensures ActionsParse(h, attrs, back) <==>
      && |back| == |actions|
      && forall i :: 0 <= i < |actions| ==> ActionResult(h, Raw(h, ActionAttr(h, actions[i])), Ok(back[i]))
  {
    hide ParseAttrs, FitsOne, Value, ActionResult, ActionAttr, Raw;
    ParseNestedValue(h, FLOW_ACTIONS, ActionForest(h, actions));
  }

  lemma {:induction false} ActionFits(h: ByteOrder, actions: seq<Action>, i: nat)
    requires FitsOne(h, Nested(FLOW_ACTIONS, ActionForest(h, actions))) && i < |actions|
    ensures FitsOne(h, ActionAttr(h, actions[i]))
  {
    hide FitsOne, ActionAttr;
    FitsInside(h, FLOW_ACTIONS, ActionForest(h, actions));
    assert ActionForest(h, actions)[i] == ActionAttr(h, actions[i]);
  }

  /** What a caller can check beforehand: there is an ethernet key, the keys that will be
      sent are canonical, and so are the actions. */
  predicate Faithful(f: FlowSpec) {
    && ETHERNET in f.keys && AllCanonical(f.keys)
    && forall i :: 0 <= i < |f.actions| ==> CanonicalAction(f.actions[i])
  }

  /** A flow that can be put into a message: its keys are well formed, none is an exact
      unknown key, and the three attributes fit their lengths. */
  ghost predicate Puttable(h: ByteOrder, f: FlowSpec, o: seq<uint16>, o': seq<uint16>) {
    && WellFormed(f.keys) && Serialisable(f.keys) && Order(f.keys, o) && Order(f.keys, o')
    && Fits(h, SpecForest(h, f, o, o'))
  }

  lemma {:induction false} PuttableFits(h: ByteOrder, f: FlowSpec, o: seq<uint16>, o': seq<uint16>)
    requires Puttable(h, f, o, o')
    ensures FitsOne(h, Nested(FLOW_KEY, KeyAttrs(h, f.keys, o)))
      && FitsOne(h, Nested(FLOW_MASK, MaskAttrs(h, f.keys, o')))
    ensures FitsOne(h, Nested(FLOW_ACTIONS, ActionForest(h, f.actions)))
  {
    hide FitsOne, KeyAttrs, MaskAttrs, ActionForest, WellFormed, Serialisable;
    var s := SpecForest(h, f, o, o');
    assert s[0] in s && s[1] in s && s[2] in s;
  }

  /** Which flows the built attributes can parse to: exactly one key set, namely the normal
      form of what was sent, and for every action what that action alone is read as. */
  lemma {:induction false} SpecReadBack(h: ByteOrder, f: FlowSpec, o: seq<uint16>, o': seq<uint16>, g: FlowSpec)
    requires Puttable(h, f, o, o')
    ensures SpecParses(h, MapOf(h, SpecForest(h, f, o, o')), g) <==>
      && g.keys == NormalKeys(Sent(f.keys))
      && |g.actions| == |f.actions|
      && forall i :: 0 <= i < |f.actions| ==> ActionResult(h, Raw(h, ActionAttr(h, f.actions[i])), Ok(g.actions[i]))
  {
    hide WellFormed, Serialisable, FitsOne, Value, KeyAttrs, MaskAttrs, ActionForest, KeysParse, ActionsParse,
      MapOf, ActionResult, ActionAttr, Raw, Sent, NormalKeys;
    var k, m := Nested(FLOW_KEY, KeyAttrs(h, f.keys, o)), Nested(FLOW_MASK, MaskAttrs(h, f.keys, o'));
    var a := Nested(FLOW_ACTIONS, ActionForest(h, f.actions));
    PuttableFits(h, f, o, o');
    SpecAttrs(h, k, m, a);
    SpecKeysBack(h, MapOf(h, [k, m, a]), f.keys, o, o', g.keys);
    SpecActionsBack(h, MapOf(h, [k, m, a]), f.actions, g.actions);
  }

  /** Every flow that the built attributes can parse to equals the original, in either
      direction, if and only if the original is faithful. */
  lemma {:induction false} SpecRoundTripEquals(h: ByteOrder, f: FlowSpec, o: seq<uint16>, o': seq<uint16>, g: FlowSpec)
    requires Puttable(h, f, o, o') && SpecParses(h, MapOf(h, SpecForest(h, f, o, o')), g)
    ensures SpecEquals(f, g) <==> Faithful(f)
    ensures SpecEquals(g, f) <==> Faithful(f)
  {
    hide WellFormed, Serialisable, Order, FitsOne, SpecParses, MapOf, SpecForest, ActionResult, ActionAttr,
      Raw, Sent, NormalKeys,
      Equals, AllCanonical, ActionEquals, CanonicalAction;
    SpecReadBack(h, f, o, o', g);
    KeysEqual(f.keys);
    PuttableFits(h, f, o, o');
    forall i | 0 <= i < |f.actions|
      ensures ActionEquals(f.actions[i], g.actions[i]) <==> CanonicalAction(f.actions[i])
      ensures ActionEquals(g.actions[i], f.actions[i]) <==> CanonicalAction(f.actions[i])
    {
      ActionFits(h, f.actions, i);
      ActionReadBack(h, f.actions[i], g.actions[i]);
    }
  }

  /** Flows of output and tunnel actions always parse. */
  lemma {:induction false} SpecRoundTripParses(h: ByteOrder, f: FlowSpec, o: seq<uint16>, o': seq<uint16>)
    requires Puttable(h, f, o, o')
    requires forall i :: 0 <= i < |f.actions| ==> !f.actions[i].SetUnknown?
    ensures exists g :: SpecParses(h, MapOf(h, SpecForest(h, f, o, o')), g)
  {
    hide WellFormed, Serialisable, Order, FitsOne, SpecParses, MapOf, SpecForest, ActionResult, ActionAttr,
      Raw, Sent, NormalKeys;
    PuttableFits(h, f, o, o');
    forall i | 0 <= i < |f.actions|
      ensures exists b :: ActionResult(h, Raw(h, ActionAttr(h, f.actions[i])), Ok(b))
    {
      ActionFits(h, f.actions, i);
      ActionParses(h, f.actions[i]);
    }
    var back := ChooseActions(h, f.actions);
    SpecReadBack(h, f, o, o', FlowSpec(NormalKeys(Sent(f.keys)), back));
  }

  ghost function ChooseActions(h: ByteOrder, actions: seq<Action>): (back: seq<Action>)
    requires forall i :: 0 <= i < |actions| ==> exists b :: ActionResult(h, Raw(h, ActionAttr(h, actions[i])), Ok(b))
    ensures |back| == |actions|
    ensures forall i :: 0 <= i < |actions| ==> ActionResult(h, Raw(h, ActionAttr(h, actions[i])), Ok(back[i]))
  {
    seq(|actions|, i requires 0 <= i < |actions| =>
      var b :| ActionResult(h, Raw(h, ActionAttr(h, actions[i])), Ok(b)); b)
  }

  /** The whole round trip, from the message's bytes: a flow that is put anywhere into a
      message is read back as an equal flow if and only if it is faithful, whatever orders
      the keys are visited in and whatever the reading picks. */
  lemma {:induction false} FlowRoundTrip(h: ByteOrder, before: seq<byte>, f: FlowSpec, o: seq<uint16>, o': seq<uint16>)
    requires Puttable(h, f, o, o')
    ensures var p := ParseAttrs(h, before + EncodeForest(h, |before|, SpecForest(h, f, o, o')), |before|);
      && p.status == Complete
      && (Faithful(f) <==> exists g :: SpecParses(h, ToMap(p.attrs), g) && SpecEquals(f, g) && SpecEquals(g, f))
      && (Faithful(f) <== exists g :: SpecParses(h, ToMap(p.attrs), g) && (SpecEquals(f, g) || SpecEquals(g, f)))
  {
    hide WellFormed, Serialisable, Fits, SpecParses, MapOf, SpecForest, EncodeForest, ParseAttrs, SpecEquals,
      AllCanonical;
    var s := SpecForest(h, f, o, o');
    SpecArrives(h, before, s);
    forall g | SpecParses(h, MapOf(h, s), g)
      ensures SpecEquals(f, g) <==> Faithful(f)
      ensures SpecEquals(g, f) <==> Faithful(f)
    {
      SpecRoundTripEquals(h, f, o, o', g);
    }
    if Faithful(f) {
      SpecRoundTripParses(h, f, o, o');
    }
  }

  /** Without an ethernet key the flow comes back with exactly the default one added. */
  lemma {:induction false} DefaultEthernetAdded(h: ByteOrder, f: FlowSpec, o: seq<uint16>, o': seq<uint16>, g: FlowSpec)
    requires Puttable(h, f, o, o') && SpecParses(h, MapOf(h, SpecForest(h, f, o, o')), g)
    requires ETHERNET !in f.keys && AllCanonical(f.keys)
    ensures ETHERNET in g.keys && g.keys[ETHERNET] == NewEthernet()
    ensures forall t :: t in g.keys && t != ETHERNET ==> t in f.keys
    ensures Equals(f.keys[ETHERNET := NewEthernet()], g.keys) && Equals(g.keys, f.keys[ETHERNET := NewEthernet()])
    ensures !Equals(f.keys, g.keys) && !Equals(g.keys, f.keys)
  {
    hide Order, FitsOne, SpecParses, MapOf, SpecForest, ActionResult, ActionAttr, Raw, Equals, Ignored,
      Canonical, NewEthernet,
      WellFormedKey, Normal;
    SpecReadBack(h, f, o, o', g);
    var more := f.keys[ETHERNET := NewEthernet()];
    NewEthernetShape(h);
    NormalEthernet();
    CanonicalEthernet();
    assert Sent(more) == Sent(f.keys);
    KeysEqual(more);
    KeysEqual(f.keys);
  }

  lemma {:induction false} CanonicalEthernet()
    ensures Canonical(NewEthernet()) && !NewEthernet().Unknown?
  {
  }

  // ------------------------------------------------------------- the second time

  lemma {:induction false} NormalWellFormed(h: ByteOrder, fks: FlowKeys)
    requires WellFormed(fks) && Serialisable(fks)
    ensures WellFormed(NormalKeys(Sent(fks))) && Serialisable(NormalKeys(Sent(fks)))
  {
    hide Ignored, Sent, Shown, Present, InPortMask;
    forall t | t in Sent(fks)
      ensures WellFormedKey(t, Normal(Sent(fks)[t]))
      ensures !(Normal(Sent(fks)[t]).Unknown? && Normal(Sent(fks)[t]).exact)
    {
      SentShape(h, fks, t);
    }
  }

  /** A flow that was put into a message and parsed, when it is put into a message again, has
      the same key and mask attributes there as the first time, whatever the orders, if and
      only if the in-port mask was all ones or all zero to begin with. */
  lemma {:induction false} SecondSerialisation(h: ByteOrder, f: FlowSpec, o: seq<uint16>, o': seq<uint16>,
                                               g: FlowSpec, p: seq<uint16>, p': seq<uint16>)
    requires Puttable(h, f, o, o') && SpecParses(h, MapOf(h, SpecForest(h, f, o, o')), g)
    requires Order(g.keys, p) && Order(g.keys, p')
    ensures WellFormed(g.keys) && Serialisable(g.keys)
    ensures InPortExact(f.keys) <==>
      && MapOf(h, KeyAttrs(h, g.keys, p)) == MapOf(h, KeyAttrs(h, f.keys, o))
      && MapOf(h, MaskAttrs(h, g.keys, p')) == MapOf(h, MaskAttrs(h, f.keys, o'))
  {
    hide WellFormed, Serialisable, Order, Fits, SpecParses, MapOf, SpecForest, ActionResult, ActionAttr, Raw, Sent,
      NormalKeys, KeyMap, MaskMap, KeyAttrs, MaskAttrs, InPortExact;
    SpecReadBack(h, f, o, o', g);
    NormalWellFormed(h, f.keys);
    SentKeys(h, f.keys, o);
    SentMasks(h, f.keys, o');
    SentKeys(h, g.keys, p);
    SentMasks(h, g.keys, p');
    if InPortExact(f.keys) {
      NormalisationStable(h, f.keys);
    } else {
      InPortLost(h, f.keys);
    }
  }
}
