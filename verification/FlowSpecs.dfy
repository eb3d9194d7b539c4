/** Flow actions and complete flows: serialising, parsing and comparing. */
module FlowSpecs {
  import opened Bytes
  import opened Attributes
  import opened Tunnels
  import opened FlowKeys
  import opened FlowKeyCodec

  datatype Action =
    | Output(vport: uint32)
    | SetTunnel(attrs: TunnelAttrs, present: Presence)
    | SetUnknown(atyp: uint16, data: seq<byte>)

  datatype FlowSpec = FlowSpec(keys: FlowKeys, actions: seq<Action>)

  const FLOW_KEY: uint16 := 1
  const FLOW_ACTIONS: uint16 := 2
  const FLOW_MASK: uint16 := 7
  const ACTION_OUTPUT: uint16 := 1
  const ACTION_SET: uint16 := 3

  /** Only the attributes of a tunnel action are compared, not their presence. */
  predicate ActionEquals(a: Action, b: Action) {
    match a
    case Output(v) => b.Output? && v == b.vport
    case SetTunnel(ta, _) => b.SetTunnel? && ta == b.attrs
    case SetUnknown(t, d) => b.SetUnknown? && t == b.atyp && d == b.data
  }

  predicate SpecEquals(a: FlowSpec, b: FlowSpec) {
    && Equals(a.keys, b.keys)
    && |a.actions| == |b.actions|
    && forall i :: 0 <= i < |a.actions| ==> ActionEquals(a.actions[i], b.actions[i])
  }

  // --------------------------------------------------------------- serialising

  /** The flags of a tunnel action count as present exactly when they are set. */
  function ActionPresence(ta: TunnelAttrs, p: Presence): Presence {
    p.(df := ta.df, csum := ta.csum)
  }

  /** An action of an unknown type is written without the SET around it. */
  function ActionAttr(h: ByteOrder, a: Action): Attr {
    match a
    case Output(v) => Leaf(ACTION_OUTPUT, U32(h, v))
    case SetTunnel(ta, p) => Nested(ACTION_SET, [Nested(TUNNEL, ToForest(h, ta, ActionPresence(ta, p)))])
    case SetUnknown(t, d) => Leaf(t, d)
  }

  function ActionForest(h: ByteOrder, actions: seq<Action>): (f: seq<Attr>)
    ensures |f| == |actions| && forall i :: 0 <= i < |f| ==> f[i] == ActionAttr(h, actions[i])
  {
    if actions == [] then [] else [ActionAttr(h, actions[0])] + ActionForest(h, actions[1..])
  }

  /** What `FlowSpec.toNlAttrs` puts when the two ranges over the keys visit them in the
      orders `o` and `o'`. */
  function SpecForest(h: ByteOrder, f: FlowSpec, o: seq<uint16>, o': seq<uint16>): seq<Attr>
    requires forall t :: t in o ==> t in f.keys
    requires forall t :: t in o' ==> t in f.keys
  {
    [Nested(FLOW_KEY, KeyAttrs(h, f.keys, o)),
     Nested(FLOW_MASK, MaskAttrs(h, f.keys, o')),
     Nested(FLOW_ACTIONS, ActionForest(h, f.actions))]
  }

  // ------------------------------------------------------------------- parsing

  function MakeSetTunnel(t: Outcome<Tunnel>): Outcome<Action> {
    match t
    case Ok(t) => Ok(SetTunnel(t.attrs, t.present))
    case Error => Error
    case Panic => Panic
  }

  /** The kernel 4.3 bug is recognised by a tunnel address of the right size. */
  predicate Flattened(attrs: AttrMap) {
    || (IPV4_DST in attrs && |attrs[IPV4_DST]| == 4)
    || (IPV6_DST in attrs && |attrs[IPV6_DST]| == 16)
  }

  /** `r` is a possible result of `parseSetAction`, which picks an arbitrary attribute when
      there is no tunnel among them. */
  predicate SetResult(h: ByteOrder, data: seq<byte>, r: Outcome<Action>) {
    match ParseNested(h, data)
    case Error => r == Error
    case Panic => r == Panic
    case Ok(attrs) =>
      if Flattened(attrs) then r == MakeSetTunnel(ParseTunnelAttrs(h, attrs))
      else if TUNNEL in attrs then r == MakeSetTunnel(ParseTunnelData(h, attrs[TUNNEL]))
      else
        && r.Ok? && r.value.SetUnknown?
        && if attrs == map[] then r.value == SetUnknown(0, [])
           else r.value.atyp in attrs && r.value.data == attrs[r.value.atyp]
  }

  predicate ActionResult(h: ByteOrder, raw: RawAttr, r: Outcome<Action>) {
    if raw.typ == ACTION_OUTPUT then
      r == if |raw.val| < 4 then Error else Ok(Output(U32At(h, raw.val, 0)))
    else if raw.typ == ACTION_SET then SetResult(h, raw.val, r)
    else r == Error
  }

  method ParseSetAction(h: ByteOrder, data: seq<byte>) returns (r: Outcome<Action>)
    ensures SetResult(h, data, r)
  {
    hide ParseTunnelAttrs, ParseTunnelData, ParseNested;
    match ParseNested(h, data) {
      case Error => r := Error;
      case Panic => r := Panic;
      case Ok(attrs) =>
        if Flattened(attrs) {
          r := MakeSetTunnel(ParseTunnelAttrs(h, attrs));
        } else if TUNNEL in attrs {
          r := MakeSetTunnel(ParseTunnelData(h, attrs[TUNNEL]));
        } else if attrs == map[] {
          r := Ok(SetUnknown(0, []));
        } else {
          assert attrs.Keys != {};
          var t :| t in attrs.Keys;
          r := Ok(SetUnknown(t, attrs[t]));
        }
    }
  }

  method ParseAction(h: ByteOrder, raw: RawAttr) returns (r: Outcome<Action>)
    ensures ActionResult(h, raw, r)
  {
    if raw.typ == ACTION_OUTPUT {
      r := if |raw.val| < 4 then Error else Ok(Output(U32At(h, raw.val, 0)));
    } else if raw.typ == ACTION_SET {
      r := ParseSetAction(h, raw.val);
    } else {
      r := Error;
    }
  }

  ghost predicate KeysParse(h: ByteOrder, attrs: AttrMap, keys: FlowKeys) {
    && FLOW_KEY in attrs
    && ParseNested(h, attrs[FLOW_KEY]).Ok?
    && (FLOW_MASK in attrs ==> ParseNested(h, attrs[FLOW_MASK]).Ok?)
    && var k := ParseNested(h, attrs[FLOW_KEY]).value;
       var m := if FLOW_MASK in attrs then Some(ParseNested(h, attrs[FLOW_MASK]).value) else None;
       && keys.Keys == Domain(k, m)
       && forall t :: t in keys ==> ParseOne(h, k, m, t) == Ok(keys[t])
  }

  ghost predicate ActionsParse(h: ByteOrder, attrs: AttrMap, actions: seq<Action>) {
    && FLOW_ACTIONS in attrs
    && var p := ParseAttrs(h, attrs[FLOW_ACTIONS], 0);
       && p.status == Complete && |actions| == |p.attrs|
       && forall i :: 0 <= i < |actions| ==> ActionResult(h, p.attrs[i], Ok(actions[i]))
  }

  /** `f` is a possible result of `parseFlowSpec`. */
  ghost predicate SpecParses(h: ByteOrder, attrs: AttrMap, f: FlowSpec) {
    KeysParse(h, attrs, f.keys) && ActionsParse(h, attrs, f.actions)
  }

  ghost predicate Unparsable(h: ByteOrder, raw: RawAttr) {
    forall a :: !ActionResult(h, raw, Ok(a))
  }

  /** Whether an action parses does not depend on which attribute is picked. */
  lemma {:induction false} RefusedForGood(h: ByteOrder, raw: RawAttr, r: Outcome<Action>)
    requires ActionResult(h, raw, r) && !r.Ok?
    ensures Unparsable(h, raw)
  {
    hide ParseNested, ParseTunnelAttrs, ParseTunnelData, U32At;
  }

  function Refusal<T>(panic: bool): Outcome<T> {
    if panic then Panic else Error
  }

  method ParseActions(h: ByteOrder, raws: seq<RawAttr>) returns (r: Outcome<seq<Action>>)
    ensures r.Ok? ==> |r.value| == |raws| && forall i :: 0 <= i < |raws| ==> ActionResult(h, raws[i], Ok(r.value[i]))
    ensures !r.Ok? ==>
      exists i :: 0 <= i < |raws| && Unparsable(h, raws[i]) && ActionResult(h, raws[i], Refusal(r.Panic?))
  {
    hide ActionResult;
    var actions := [];
    for i := 0 to |raws|
      invariant |actions| == i && forall j :: 0 <= j < i ==> ActionResult(h, raws[j], Ok(actions[j]))
    {
      var one := ParseAction(h, raws[i]);
      if !one.Ok? {
        RefusedForGood(h, raws[i], one);
        assert one == Refusal(one.Panic?);
        return if one.Panic? then Panic else Error;
      }
      actions := actions + [one.value];
    }
    r := Ok(actions);
  }

  /** If there is a result at all then every single action parses. */
  lemma {:induction false} EachActionParses(h: ByteOrder, attrs: AttrMap, f: FlowSpec, i: nat)
    requires SpecParses(h, attrs, f) && i < |ParseAttrs(h, attrs[FLOW_ACTIONS], 0).attrs|
    ensures !Unparsable(h, ParseAttrs(h, attrs[FLOW_ACTIONS], 0).attrs[i])
  {
    hide KeysParse, ActionResult, ParseAttrs;
    assert ActionResult(h, ParseAttrs(h, attrs[FLOW_ACTIONS], 0).attrs[i], Ok(f.actions[i]));
  }
}
