/** Putting a flow into a message under construction. */
module FlowSpecBuilder {
  import opened Bytes
  import opened Attributes
  import opened Builder
  import opened FlowKeys
  import opened FlowSpecs

  /** The order in which one range over the map happens to visit it. */
  method Visit(fks: FlowKeys) returns (order: seq<uint16>)
    ensures Order(fks, order)
  {
    order := [];
    var rest := fks.Keys;
    while rest != {}
      invariant rest <= fks.Keys
      invariant forall t :: t in order <==> t in fks && t !in rest
      invariant forall i, j :: 0 <= i < j < |order| ==> order[i] != order[j]
      decreases rest
    {
      var t :| t in rest;
      order, rest := order + [t], rest - {t};
    }
  }

  /** `FlowKeys.toNlAttrs`: writes the keys and then the masks, in two visits that need not
      agree, and fails, having written, when there is an exact unknown key. */
  method PutFlowKeys(b: NlMsgBuilder, fks: FlowKeys) returns (ok: bool, ghost o: seq<uint16>, ghost o': seq<uint16>)
    requires b.Valid()
    modifies b`mem, b`off, b`len, b`copied, b.mem
    ensures b.Valid() && (b.mem == old(b.mem) || fresh(b.mem))
    ensures ok <==> Serialisable(fks)
    ensures Order(fks, o) && Order(fks, o')
    ensures b.Contents() == old(b.Contents()) + EncodeForest(b.host, old(b.len),
      [Nested(FLOW_KEY, KeyAttrs(b.host, fks, o)), Nested(FLOW_MASK, MaskAttrs(b.host, fks, o'))])
  {
    hide EncodeForest, EncodeAttr, KeyAttrs, MaskAttrs;
    var keyOrder := Visit(fks);
    var maskOrder := Visit(fks);
    o, o' := keyOrder, maskOrder;
    var k, m := Nested(FLOW_KEY, KeyAttrs(b.host, fks, keyOrder)), Nested(FLOW_MASK, MaskAttrs(b.host, fks, maskOrder));
    b.PutForest([k, m]);
    ok := forall t :: t in fks.Keys ==> !(fks[t].Unknown? && fks[t].exact);
  }

  /** `FlowSpec.toNlAttrs`: the actions are left out when the keys cannot be serialised. */
  method PutFlowSpec(b: NlMsgBuilder, f: FlowSpec) returns (ok: bool, ghost o: seq<uint16>, ghost o': seq<uint16>)
    requires b.Valid()
    modifies b`mem, b`off, b`len, b`copied, b.mem
    ensures b.Valid() && (b.mem == old(b.mem) || fresh(b.mem))
    ensures ok <==> Serialisable(f.keys)
    ensures Order(f.keys, o) && Order(f.keys, o')
    ensures b.Contents() == old(b.Contents()) + EncodeForest(b.host, old(b.len),
      if ok then SpecForest(b.host, f, o, o') else SpecForest(b.host, f, o, o')[..2])
  {
    hide EncodeForest, EncodeAttr, KeyAttrs, MaskAttrs, ActionForest;
    ok, o, o' := PutFlowKeys(b, f.keys);
    ghost var s := SpecForest(b.host, f, o, o');
    assert s[..2] == [s[0], s[1]];
    if ok {
      b.PutAttr(Nested(FLOW_ACTIONS, ActionForest(b.host, f.actions)));
      EncodeSingle(b.host, old(b.len) + |EncodeForest(b.host, old(b.len), s[..2])|, s[2]);
      EncodeAppend(b.host, old(b.len), s[..2], [s[2]]);
      assert s == s[..2] + [s[2]];
    }
  }
}
