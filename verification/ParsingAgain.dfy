/** Parsing the same message again, after the first time zeroed an in-port mask in it. */
module ParsingAgain {
  import opened Bytes
  import opened Attributes
  import opened Builder
  import opened Tunnels
  import opened FlowKeys
  import opened FlowKeyCodec
  import opened FlowSpecs
  import opened InPortMasks

  /** The attribute that the map keeps: no later one has its type. */
  predicate LastOfType(raws: seq<RawAttr>, i: nat) {
    i < |raws| && forall j :: i < j < |raws| ==> raws[j].typ != raws[i].typ
  }

  lemma {:induction false} ToMapLast(raws: seq<RawAttr>, i: nat)
    requires LastOfType(raws, i)
    ensures Lookup(ToMap(raws), raws[i].typ) == Some(raws[i].val)
    decreases raws
  {
    var n := |raws| - 1;
    if i < n {
      ToMapLast(raws[..n], i);
    }
  }

  lemma {:induction false} ToMapUpdate(raws: seq<RawAttr>, i: nat, e: seq<byte>)
    requires LastOfType(raws, i)
    ensures ToMap(raws[i := RawAttr(raws[i].typ, e)]) == ToMap(raws)[raws[i].typ := e]
  {
    hide ToMap;
    var typ := raws[i].typ;
    var raws' := raws[i := RawAttr(typ, e)];
    ToMapLast(raws', i);
    forall t: uint16 ensures Lookup(ToMap(raws'), t) == Lookup(ToMap(raws)[typ := e], t) {
      if t != typ {
        ToMapReplace(raws, i, e, t);
      }
    }
    SameMap(ToMap(raws'), ToMap(raws)[typ := e]);
  }

  /** The mask attributes by type, after the in-port mask among them was zeroed in place. */
  function Zeroed(masks: AttrMap): AttrMap {
    if IN_PORT in masks then masks[IN_PORT := InPortMask(masks[IN_PORT])] else masks
  }

  lemma {:induction false} MasksAgain(h: ByteOrder, data: seq<byte>, j: nat)
    requires ParseNested(h, data).Ok?
    requires LastOfType(ParseAttrs(h, data, 0).attrs, j) && ParseAttrs(h, data, 0).attrs[j].typ == IN_PORT
    ensures var a := ParseAttrs(h, data, 0).attrs; var off := ValueStart(a, 0, j);
      && off + |a[j].val| <= |data|
      && ParseNested(h, Patched(data, off, InPortMask(a[j].val))) == Ok(Zeroed(ParseNested(h, data).value))
  {
    hide ParseAttrs, ToMap, ValueStart, Patched, InPortMask;
    var a := ParseAttrs(h, data, 0).attrs;
    OverwriteValue(h, data, 0, j, InPortMask(a[j].val));
    ToMapUpdate(a, j, InPortMask(a[j].val));
    ToMapLast(a, j);
  }

  /** Zeroed or not, the masks lead to the same key of every type. */
  lemma {:induction false} KeyAgain(h: ByteOrder, keys: AttrMap, masks: AttrMap, t: uint16)
    ensures ParseOne(h, keys, Some(Zeroed(masks)), t) == ParseOne(h, keys, Some(masks), t)
    ensures Domain(keys, Some(Zeroed(masks))) == Domain(keys, Some(masks))
  {
    hide ParseKey, InPortMask;
    if t == IN_PORT && t in masks {
      InPortAgain(h, Lookup(keys, t), masks[t]);
    }
  }

  lemma {:induction false} KeysAgain(h: ByteOrder, attrs: AttrMap, mask': seq<byte>, keys: FlowKeys)
    requires FLOW_MASK in attrs && ParseNested(h, attrs[FLOW_MASK]).Ok?
    requires ParseNested(h, mask') == Ok(Zeroed(ParseNested(h, attrs[FLOW_MASK]).value))
    ensures KeysParse(h, attrs[FLOW_MASK := mask'], keys) <==> KeysParse(h, attrs, keys)
  {
    hide ParseNested, ParseOne, Domain, Zeroed;
    var m := ParseNested(h, attrs[FLOW_MASK]).value;
    if FLOW_KEY in attrs && ParseNested(h, attrs[FLOW_KEY]).Ok? {
      var k := ParseNested(h, attrs[FLOW_KEY]).value;
      forall t: uint16 ensures ParseOne(h, k, Some(Zeroed(m)), t) == ParseOne(h, k, Some(m), t) {
        KeyAgain(h, k, m, t);
      }
      KeyAgain(h, k, m, IN_PORT);
      assert KeysParse(h, attrs, keys) <==>
        keys.Keys == Domain(k, Some(m)) && forall t :: t in keys ==> ParseOne(h, k, Some(m), t) == Ok(keys[t]);
    }
  }

  lemma {:induction false} SpecAgain(h: ByteOrder, attrs: AttrMap, mask': seq<byte>, g: FlowSpec)
    requires FLOW_MASK in attrs && ParseNested(h, attrs[FLOW_MASK]).Ok?
    requires ParseNested(h, mask') == Ok(Zeroed(ParseNested(h, attrs[FLOW_MASK]).value))
    ensures SpecParses(h, attrs[FLOW_MASK := mask'], g) <==> SpecParses(h, attrs, g)
  {
    hide ParseNested, KeysParse, Zeroed, ActionResult, ParseAttrs;
    KeysAgain(h, attrs, mask', g.keys);
    assert ActionsParse(h, attrs[FLOW_MASK := mask'], g.actions) <==> ActionsParse(h, attrs, g.actions);
  }

  lemma {:induction false} PatchedInside(s: seq<byte>, off: nat, val: seq<byte>, off': nat, e: seq<byte>)
    requires At(s, off, val) && off' + |e| <= |val|
    ensures Patched(s, off, Patched(val, off', e)) == Patched(s, off + off', e)
  {
    hide Patched;
    var inner := Patched(val, off', e);
    PatchedAt(val, off', e);
    PatchedAt(s, off, inner);
    PatchedAt(s, off + off', e);
    var x, y := Patched(s, off, inner), Patched(s, off + off', e);
    forall k | 0 <= k < |s| ensures x[k] == y[k] {
      if off <= k < off + |val| {
        assert s[k] == s[off..off + |val|][k - off];
      }
    }
  }

  /** The zeroing happens in the middle of the message that everything was parsed from, and
      yet the message, taken apart once more from the top, parses to the same flows. */
  lemma {:induction false} MessageAgain(h: ByteOrder, msg: seq<byte>, pos: nat, i: nat, j: nat)
    requires var a := ParseAttrs(h, msg, pos).attrs;
      LastOfType(a, i) && a[i].typ == FLOW_MASK && ParseNested(h, a[i].val).Ok?
    requires var m := ParseAttrs(h, ParseAttrs(h, msg, pos).attrs[i].val, 0).attrs;
      LastOfType(m, j) && m[j].typ == IN_PORT
    ensures var p := ParseAttrs(h, msg, pos);
      var m := ParseAttrs(h, p.attrs[i].val, 0).attrs;
      var off := ValueStart(p.attrs, pos, i) + ValueStart(m, 0, j);
      && off + |m[j].val| <= |msg|
      && var p' := ParseAttrs(h, Patched(msg, off, InPortMask(m[j].val)), pos);
      && p'.status == p.status
      && forall g :: SpecParses(h, ToMap(p'.attrs), g) <==> SpecParses(h, ToMap(p.attrs), g)
  {
    hide ParseAttrs, ToMap, ValueStart, Patched, InPortMask, SpecParses, ParseNested, Zeroed;
    var a := ParseAttrs(h, msg, pos).attrs;
    var val := a[i].val;
    var m := ParseAttrs(h, val, 0).attrs;
    var at, off, e := ValueStart(a, pos, i), ValueStart(m, 0, j), InPortMask(m[j].val);
    ValueAt(h, msg, pos, i);
    MasksAgain(h, val, j);
    var val' := Patched(val, off, e);
    PatchedInside(msg, at, val, off, e);
    OverwriteValue(h, msg, pos, i, val');
    ToMapUpdate(a, i, val');
    ToMapLast(a, i);
    forall g ensures SpecParses(h, ToMap(a)[FLOW_MASK := val'], g) <==> SpecParses(h, ToMap(a), g) {
      SpecAgain(h, ToMap(a), val', g);
    }
  }
}
