/** Serialising flow keys and parsing them again. */
module FlowKeyCodec {
  import opened Bytes
  import opened Attributes
  import opened Tunnels
  import opened FlowKeys

  // ---------------------------------------------------- what arrives, by type

  lemma {:induction false} LookupOne(h: ByteOrder, a: Attr, t: uint16)
    ensures Lookup(MapOf(h, [a]), t) == if t == a.typ then Some(Value(h, a)) else None
    ensures Lookup(MapOf(h, []), t) == None
  {
    hide MapOf, Value;
    MapSingle(h, a);
  }

  lemma {:induction false} AttrTypes(h: ByteOrder, k: FlowKey)
    ensures KeyAttr(h, k).typ == TypeId(k)
    ensures MaskAttr(h, k).Some? ==> MaskAttr(h, k).value.typ == TypeId(k)
  {
    hide ToForest, Present;
  }

  /** Whatever order the keys are visited in, the attribute of type `t` is the key of type
      `t`, unless that key is ignored. */
  lemma {:induction false} KeyForestLookup(h: ByteOrder, fks: FlowKeys, order: seq<uint16>, t: uint16)
    requires WellFormed(fks) && forall u :: u in order ==> u in fks
    ensures Lookup(MapOf(h, KeyForest(h, fks, order)), t)
         == if t in order && !Ignored(fks[t]) then Some(Value(h, KeyAttr(h, fks[t]))) else None
    decreases order
  {
    hide MapOf, Lookup, Ignored, KeyAttr, Value, WellFormedKey;
    if order == [] {
      LookupOne(h, Leaf(0, []), t);
    } else {
      var u := order[0];
      var first := if Ignored(fks[u]) then [] else [KeyAttr(h, fks[u])];
      TypeOf(u, fks[u]);
      AttrTypes(h, fks[u]);
      LookupOne(h, KeyAttr(h, fks[u]), t);
      LookupAppend(h, first, KeyForest(h, fks, order[1..]), t);
      KeyForestLookup(h, fks, order[1..], t);
    }
  }

  lemma {:induction false} TypeOf(id: uint16, k: FlowKey)
    requires WellFormedKey(id, k)
    ensures TypeId(k) == id
  {
  }

  lemma {:induction false} MaskForestLookup(h: ByteOrder, fks: FlowKeys, order: seq<uint16>, t: uint16)
    requires WellFormed(fks) && forall u :: u in order ==> u in fks
    ensures Lookup(MapOf(h, MaskForest(h, fks, order)), t)
         == if t in order && !Ignored(fks[t]) && MaskAttr(h, fks[t]).Some?
            then Some(Value(h, MaskAttr(h, fks[t]).value)) else None
    decreases order
  {
    hide MapOf, Lookup, Ignored, MaskAttr, Value, WellFormedKey;
    if order == [] {
      LookupOne(h, Leaf(0, []), t);
    } else {
      var u := order[0];
      var a := MaskAttr(h, fks[u]);
      var first := if Ignored(fks[u]) || a.None? then [] else [a.value];
      TypeOf(u, fks[u]);
      AttrTypes(h, fks[u]);
      LookupOne(h, if a.Some? then a.value else Leaf(0, []), t);
      LookupAppend(h, first, MaskForest(h, fks, order[1..]), t);
      MaskForestLookup(h, fks, order[1..], t);
    }
  }

  /** The key attributes by type that a set of keys amounts to on the wire. */
  function KeyMap(h: ByteOrder, sent: FlowKeys): AttrMap {
    map t | t in sent :: Value(h, KeyAttr(h, sent[t]))
  }

  function MaskMap(h: ByteOrder, sent: FlowKeys): AttrMap {
    map t | t in sent && MaskAttr(h, sent[t]).Some? :: Value(h, MaskAttr(h, sent[t]).value)
  }

  lemma {:induction false} SameMap(m: AttrMap, m': AttrMap)
    requires forall t: uint16 :: Lookup(m, t) == Lookup(m', t)
    ensures m == m'
  {
    forall t: uint16 ensures t in m <==> t in m' {
      assert Lookup(m, t) == Lookup(m', t);
    }
    forall t: uint16 | t in m ensures m[t] == m'[t] {
      assert Lookup(m, t) == Lookup(m', t);
    }
  }

  lemma {:induction false} NewEthernetShape(h: ByteOrder)
    ensures !Ignored(NewEthernet()) && WellFormedKey(ETHERNET, NewEthernet())
    ensures KeyAttr(h, NewEthernet()).typ == ETHERNET
    ensures MaskAttr(h, NewEthernet()).Some? && MaskAttr(h, NewEthernet()).value.typ == ETHERNET
  {
  }

  lemma {:induction false} SentKeys(h: ByteOrder, fks: FlowKeys, order: seq<uint16>)
    requires WellFormed(fks) && Order(fks, order)
    ensures MapOf(h, KeyAttrs(h, fks, order)) == KeyMap(h, Sent(fks))
  {
    hide MapOf, KeyForest, Ignored, KeyAttr, Value, NewEthernet, WellFormed;
    NewEthernetShape(h);
    var tail := if ETHERNET in fks then [] else [KeyAttr(h, NewEthernet())];
    var m, m' := MapOf(h, KeyAttrs(h, fks, order)), KeyMap(h, Sent(fks));
    forall t: uint16 ensures Lookup(m, t) == Lookup(m', t) {
      LookupAppend(h, KeyForest(h, fks, order), tail, t);
      KeyForestLookup(h, fks, order, t);
      LookupOne(h, KeyAttr(h, NewEthernet()), t);
    }
    SameMap(m, m');
  }

  lemma {:induction false} SentMasks(h: ByteOrder, fks: FlowKeys, order: seq<uint16>)
    requires WellFormed(fks) && Order(fks, order)
    ensures MapOf(h, MaskAttrs(h, fks, order)) == MaskMap(h, Sent(fks))
  {
    hide MapOf, MaskForest, Ignored, MaskAttr, Value, NewEthernet, WellFormed;
    NewEthernetShape(h);
    var tail := if ETHERNET in fks then [] else [MaskAttr(h, NewEthernet()).value];
    var m, m' := MapOf(h, MaskAttrs(h, fks, order)), MaskMap(h, Sent(fks));
    forall t: uint16 ensures Lookup(m, t) == Lookup(m', t) {
      LookupAppend(h, MaskForest(h, fks, order), tail, t);
      MaskForestLookup(h, fks, order, t);
      LookupOne(h, MaskAttr(h, NewEthernet()).value, t);
    }
    SameMap(m, m');
  }

  // ----------------------------------------------------- what is read back

  /** What a key that goes on the wire is read back as. */
  function Normal(k: FlowKey): FlowKey {
    match k
    case Blob(wrap, typ, km) =>
      if wrap == InPort then Blob(wrap, typ, KeyPart(km) + InPortMask(MaskPart(km))) else k
    case TunnelKey(key, mask) => TunnelKey(Shown(key, Present(mask)), mask)
    case Unknown(_, _, _, _) => k
  }

  function NormalKeys(fks: FlowKeys): FlowKeys {
    map t | t in fks :: Normal(fks[t])
  }

  /** The attributes of a sent key are within the 16-bit lengths. */
  predicate KeyFits(h: ByteOrder, k: FlowKey) {
    FitsOne(h, KeyAttr(h, k)) && (MaskAttr(h, k).Some? ==> FitsOne(h, MaskAttr(h, k).value))
  }

  lemma {:induction false} BlobReadBack(id: uint16, k: FlowKey)
    requires WellFormedKey(id, k) && k.Blob?
    ensures var n := KindOf(id).size; var m := MaskPart(k.keyMask);
      ParseBlob(k.wrap, id, Some(KeyPart(k.keyMask)), if k.wrap == InPort then InPortMask(m) else m, n)
      == Ok(Normal(k))
  {
    assert KeyPart(k.keyMask) + MaskPart(k.keyMask) == k.keyMask;
  }

  /** Reading back the attributes of one sent key. */
  lemma {:induction false} KeyReadBack(h: ByteOrder, id: uint16, k: FlowKey)
    requires WellFormedKey(id, k) && KeyFits(h, k)
    requires MaskAttr(h, k).Some?
    ensures ParseKey(h, id, Some(Value(h, KeyAttr(h, k))), Some(Value(h, MaskAttr(h, k).value)), false) == Ok(Normal(k))
  {
    hide ParseBlob, ToForest, ParseTunnelData, Shown, Present, KeyPart, MaskPart, FitsOne, AllBytes;
    match k
    case Blob(_, _, _) =>
      BlobReadBack(id, k);
    case TunnelKey(key, mask) =>
      TunnelRoundTrip(h, TUNNEL, key, Present(mask));
      TunnelRoundTrip(h, TUNNEL, mask, Present(mask));
      MaskShown(mask);
    case Unknown(_, _, _, _) =>
  }

  /** A key that is sent and can be serialised has a mask attribute. */
  lemma {:induction false} SentShape(h: ByteOrder, fks: FlowKeys, t: uint16)
    requires WellFormed(fks) && Serialisable(fks) && t in Sent(fks)
    ensures WellFormedKey(t, Sent(fks)[t]) && MaskAttr(h, Sent(fks)[t]).Some? && !Ignored(Sent(fks)[t])
  {
    NewEthernetShape(h);
  }

  /** Parsing the key and mask attributes of a set of keys succeeds on every type and gives
      the normal form of the keys that were sent: the keys that are not ignored and, if
      there was no ethernet key, the default one. */
  lemma {:induction false} KeysReadBack(h: ByteOrder, fks: FlowKeys)
    requires WellFormed(fks) && Serialisable(fks)
    requires forall t :: t in Sent(fks) ==> KeyFits(h, Sent(fks)[t])
    ensures Domain(KeyMap(h, Sent(fks)), Some(MaskMap(h, Sent(fks)))) == Sent(fks).Keys
    ensures forall t :: t in Sent(fks) ==>
      ParseOne(h, KeyMap(h, Sent(fks)), Some(MaskMap(h, Sent(fks))), t) == Ok(NormalKeys(Sent(fks))[t])
  {
    hide Sent, WellFormed, WellFormedKey, Serialisable, KeyFits, MaskAttr, KeyAttr, Value, Normal, ParseKey, Ignored;
    var sent := Sent(fks);
    forall t | t in sent
      ensures ParseOne(h, KeyMap(h, sent), Some(MaskMap(h, sent)), t) == Ok(NormalKeys(sent)[t])
    {
      SentShape(h, fks, t);
      KeyReadBack(h, t, sent[t]);
    }
  }

  // ------------------------------------------------------ is it equal, though

  /** What keeps a key from changing on the way: a tunnel key has no bits in fields that its
      mask leaves out, and an in-port key is matched exactly. */
  predicate Canonical(k: FlowKey) {
    match k
    case Blob(wrap, _, km) => wrap == InPort ==> AllBytes(MaskPart(km), 0xff)
    case TunnelKey(key, mask) => CanonicalTunnel(key, Present(mask))
    case Unknown(_, _, _, _) => true
  }

  /** Fields that are not present are zero. */
  predicate CanonicalTunnel(ta: TunnelAttrs, p: Presence) {
    && (!p.tunnelId ==> AllBytes(ta.tunnelId, 0)) && (!p.ipv4Src ==> AllBytes(ta.ipv4Src, 0))
    && (!p.ipv4Dst ==> AllBytes(ta.ipv4Dst, 0)) && (!p.tos ==> ta.tos == 0) && (!p.ttl ==> ta.ttl == 0)
    && (!p.df ==> !ta.df) && (!p.csum ==> !ta.csum)
    && (!p.tpSrc ==> ta.tpSrc == 0) && (!p.tpDst ==> ta.tpDst == 0)
  }

  lemma {:induction false} ShownIffCanonical(ta: TunnelAttrs, p: Presence)
    ensures Shown(ta, p) == ta <==> CanonicalTunnel(ta, p)
  {
    assert AllBytes(ta.tunnelId, 0) <==> ta.tunnelId == Zeros(8);
    assert AllBytes(ta.ipv4Src, 0) <==> ta.ipv4Src == Zeros(4);
    assert AllBytes(ta.ipv4Dst, 0) <==> ta.ipv4Dst == Zeros(4);
  }

  lemma {:induction false} AgreeSelf(b: byte, m: byte)
    ensures Agree(b, b, m)
  {
    hide Bits;
    var x, y := Bits(b), Bits(m);
    assert (x ^ x) & y == 0;
  }

  lemma {:induction false} EqualsSelf(k: FlowKey)
    requires k.Unknown? ==> !k.exact
    ensures KeyEquals(k, k)
  {
    hide Agree;
    forall b: byte, m: byte ensures Agree(b, b, m) {
      AgreeSelf(b, m);
    }
  }

  /** A sent key equals what it is read back as exactly when it is canonical. */
  lemma {:induction false} NormalEquals(id: uint16, k: FlowKey)
    requires WellFormedKey(id, k) && !Ignored(k)
    requires k.Unknown? ==> !k.exact
    ensures KeyEquals(k, Normal(k)) <==> Canonical(k)
    ensures KeyEquals(Normal(k), k) <==> Canonical(k)
  {
    EqualsSelf(k);
    match k
    case Blob(wrap, typ, km) =>
      if wrap == InPort {
        InPortNormal(id, k);
      }
    case TunnelKey(key, mask) =>
      ShownIffCanonical(key, Present(mask));
    case Unknown(_, _, _, _) =>
  }

  lemma {:induction false} InPortNormal(id: uint16, k: FlowKey)
    requires WellFormedKey(id, k) && !Ignored(k) && k.Blob? && k.wrap == InPort
    ensures Canonical(k) ==> Normal(k) == k
    ensures !Canonical(k) ==> !KeyEquals(k, Normal(k)) && !KeyEquals(Normal(k), k)
  {
    hide Agree;
    var km := k.keyMask;
    assert KeyPart(km) + MaskPart(km) == km;
    if !Canonical(k) {
      var km' := Normal(k).keyMask;
      assert MaskPart(km') == Zeros(4);
      var i :| 0 <= i < |MaskPart(km)| && MaskPart(km)[i] != 0;
      assert MaskPart(km')[i] == 0;
    }
  }

  /** The set read back equals the original, in either direction, if and only if there was
      an ethernet key and every key that was sent is canonical. */
  lemma {:induction false} KeysEqual(fks: FlowKeys)
    requires WellFormed(fks) && Serialisable(fks)
    ensures Equals(fks, NormalKeys(Sent(fks))) <==> ETHERNET in fks && AllCanonical(fks)
    ensures Equals(NormalKeys(Sent(fks)), fks) <==> ETHERNET in fks && AllCanonical(fks)
  {
    hide KeyEquals, Ignored, WellFormedKey, Normal, Canonical, NewEthernet;
    var back := NormalKeys(Sent(fks));
    if ETHERNET !in fks {
      NormalEthernet();
      assert ETHERNET in back && back[ETHERNET] == NewEthernet();
    } else {
      forall t | t in fks && !Ignored(fks[t])
        ensures KeyEquals(fks[t], back[t]) <==> Canonical(fks[t])
        ensures KeyEquals(back[t], fks[t]) <==> Canonical(fks[t])
      {
        NormalEquals(t, fks[t]);
      }
      assert forall t :: t in back <==> t in fks && !Ignored(fks[t]);
    }
  }

  lemma {:induction false} NormalEthernet()
    ensures Normal(NewEthernet()) == NewEthernet() && !Ignored(NewEthernet())
  {
  }

  predicate AllCanonical(fks: FlowKeys) {
    forall t :: t in fks && !Ignored(fks[t]) ==> Canonical(fks[t])
  }

  // -------------------------------------------------------------- normalisation

  /** The masks of in-port keys are all ones or all zero. */
  predicate InPortExact(fks: FlowKeys) {
    IN_PORT in fks && fks[IN_PORT].Blob? ==>
      AllBytes(MaskPart(fks[IN_PORT].keyMask), 0xff) || AllBytes(MaskPart(fks[IN_PORT].keyMask), 0)
  }

  lemma {:induction false} ShownForest(h: ByteOrder, ta: TunnelAttrs, p: Presence)
    ensures ToForest(h, Shown(ta, p), p) == ToForest(h, ta, p)
  {
    hide U16, Uint16FromBE, Zeros;
  }

  lemma {:induction false} NormalAttrs(h: ByteOrder, id: uint16, k: FlowKey)
    requires WellFormedKey(id, k) && !Ignored(k)
    requires k.Blob? && k.wrap == InPort ==> AllBytes(MaskPart(k.keyMask), 0xff)
    ensures WellFormedKey(id, Normal(k)) && !Ignored(Normal(k))
    ensures KeyAttr(h, Normal(k)) == KeyAttr(h, k) && MaskAttr(h, Normal(k)) == MaskAttr(h, k)
  {
    hide ToForest, Present, Shown;
    match k
    case Blob(_, _, km) =>
      assert KeyPart(km) + MaskPart(km) == km;
      assert Normal(k) == k;
    case TunnelKey(key, mask) =>
      ShownForest(h, key, Present(mask));
    case Unknown(_, _, _, _) =>
  }

  lemma {:induction false} EthernetSent(fks: FlowKeys)
    requires WellFormed(fks)
    ensures ETHERNET in Sent(fks)
  {
    if ETHERNET in fks {
      assert WellFormedKey(ETHERNET, fks[ETHERNET]);
    }
  }

  /** Serialising what was read back puts the same attributes on the wire again, even for
      keys that are not canonical. */
  lemma {:induction false} NormalisationStable(h: ByteOrder, fks: FlowKeys)
    requires WellFormed(fks) && Serialisable(fks) && InPortExact(fks)
    ensures var back := NormalKeys(Sent(fks));
      && WellFormed(back) && Sent(back) == back
      && KeyMap(h, Sent(back)) == KeyMap(h, Sent(fks))
      && MaskMap(h, Sent(back)) == MaskMap(h, Sent(fks))
  {
    hide Ignored, WellFormedKey, Normal, NewEthernet, KeyAttr, MaskAttr, Value, Serialisable, InPortExact;
    var sent := Sent(fks);
    var back := NormalKeys(sent);
    forall t | t in sent
      ensures WellFormedKey(t, back[t]) && !Ignored(back[t])
      ensures KeyAttr(h, back[t]) == KeyAttr(h, sent[t]) && MaskAttr(h, back[t]) == MaskAttr(h, sent[t])
    {
      SentShape(h, fks, t);
      SentInPort(fks, t);
      NormalAttrs(h, t, sent[t]);
    }
    EthernetSent(fks);
    assert Sent(back) == back;
  }

  lemma {:induction false} SentInPort(fks: FlowKeys, t: uint16)
    requires WellFormed(fks) && InPortExact(fks) && t in Sent(fks)
    ensures Sent(fks)[t].Blob? && Sent(fks)[t].wrap == InPort ==> AllBytes(MaskPart(Sent(fks)[t].keyMask), 0xff)
  {
    if t in fks {
      assert WellFormedKey(t, fks[t]);
    }
  }

  /** An in-port key with any other mask is dropped the second time round. */
  lemma {:induction false} InPortLost(h: ByteOrder, fks: FlowKeys)
    requires WellFormed(fks) && Serialisable(fks) && !InPortExact(fks)
    ensures IN_PORT in KeyMap(h, Sent(fks))
    ensures IN_PORT !in KeyMap(h, Sent(NormalKeys(Sent(fks))))
  {
    var k := fks[IN_PORT];
    assert WellFormedKey(IN_PORT, k);
    var km := Normal(k).keyMask;
    assert MaskPart(km) == Zeros(4);
    assert Ignored(Normal(k));
  }

  // --------------------------------------------- where the code is not what it seems

  /** A tunnel key is ignored exactly when its mask has no bit apart from the DF flag: a key
      that matches on DF alone is silently left out. */
  lemma {:induction false} TunnelIgnoredIff(key: TunnelAttrs, m: TunnelAttrs)
    ensures Ignored(TunnelKey(key, m)) <==> m.(df := false) == NO_TUNNEL.attrs
  {
    assert AllBytes(m.tunnelId, 0) <==> m.tunnelId == Zeros(8);
    assert AllBytes(m.ipv4Src, 0) <==> m.ipv4Src == Zeros(4);
    assert AllBytes(m.ipv4Dst, 0) <==> m.ipv4Dst == Zeros(4);
  }

  /** Unknown keys as the parser makes them: exact, ignored, or with a mask. */
  predicate ParsedUnknown(k: FlowKey) {
    k.Unknown? && (k.exact ==> k.umask.None?)
  }

  predicate NonEmptyMask(k: FlowKey)
    requires k.Unknown?
  {
    k.umask.Some? && k.umask.value != []
  }

  /** `Equals` on unknown keys of one type and value is symmetric exactly when the two are of
      the same kind or one of them has a non-empty mask; an ignored key equals an exact one
      but not the other way round. */
  lemma {:induction false} UnknownEqualsSymmetry(a: FlowKey, b: FlowKey)
    requires ParsedUnknown(a) && ParsedUnknown(b) && a.utyp == b.utyp && a.ukey == b.ukey
    ensures (KeyEquals(a, b) <==> KeyEquals(b, a)) <==>
      || (a.exact == b.exact && a.umask.None? == b.umask.None?)
      || NonEmptyMask(a) || NonEmptyMask(b)
    ensures Ignored(a) && b.exact ==> KeyEquals(a, b) && !KeyEquals(b, a)
  {
    assert a.umask.Some? && b.umask.Some? ==> (KeyEquals(a, b) <==> a.umask.value == b.umask.value);
  }

  // ------------------------------------------------------------ tunnels on the wire

  /** Which tunnel attributes a key with mask `m` has: the destination address and the TTL always,
      because the kernel insists on them, and any other if its mask is not zero. */
  function Needed(m: TunnelAttrs): Presence {
    Presence(m.tunnelId != [0, 0, 0, 0, 0, 0, 0, 0], m.ipv4Src != [0, 0, 0, 0], true, m.tos != 0, true,
             m.df, m.csum, m.tpSrc != 0, m.tpDst != 0)
  }

  lemma {:induction false} PresentIsNeeded(m: TunnelAttrs)
    ensures Present(m) == Needed(m)
  {
    assert AllBytes(m.tunnelId, 0) <==> m.tunnelId == [0, 0, 0, 0, 0, 0, 0, 0];
    assert AllBytes(m.ipv4Src, 0) <==> m.ipv4Src == [0, 0, 0, 0];
  }

  /** What a tunnel key puts, by the numbers of the attributes: the same attributes for key and
      mask, with the values of each.  Both always have the destination address (2) and the
      TTL (4). */
  lemma {:induction false} TunnelSent(h: ByteOrder, key: TunnelAttrs, mask: TunnelAttrs)
    ensures var k, m := KeyAttr(h, TunnelKey(key, mask)), MaskAttr(h, TunnelKey(key, mask));
      && k.Nested? && k.typ == 16 && OnWire(MapOf(h, k.kids), key, Needed(mask))
      && Lookup(MapOf(h, k.kids), 2) == Some(key.ipv4Dst) && Lookup(MapOf(h, k.kids), 4) == Some([key.ttl])
      && m.Some? && m.value.Nested? && m.value.typ == 16 && OnWire(MapOf(h, m.value.kids), mask, Needed(mask))
      && Lookup(MapOf(h, m.value.kids), 2) == Some(mask.ipv4Dst)
      && Lookup(MapOf(h, m.value.kids), 4) == Some([mask.ttl])
  {
    hide MapOf, ToForest, Lookup, Present;
    PresentIsNeeded(mask);
    ForestOnWire(h, key, Needed(mask));
    ForestOnWire(h, mask, Needed(mask));
  }

  /** A flow without an ethernet key is sent with one of twelve zero bytes and a mask of twelve
      bytes 0xff. */
  lemma {:induction false} DefaultEthernetSent(h: ByteOrder, fks: FlowKeys, order: seq<uint16>)
    requires WellFormed(fks) && Order(fks, order) && 4 !in fks
    ensures Lookup(MapOf(h, KeyAttrs(h, fks, order)), 4) == Some([0, 0, 0, 0, 0, 0, 0, 0, 0, 0, 0, 0])
    ensures Lookup(MapOf(h, MaskAttrs(h, fks, order)), 4)
         == Some([0xff, 0xff, 0xff, 0xff, 0xff, 0xff, 0xff, 0xff, 0xff, 0xff, 0xff, 0xff])
  {
    hide MapOf, KeyAttrs, MaskAttrs, WellFormed, NewEthernet, KeyAttr, MaskAttr, Value, Ignored;
    SentKeys(h, fks, order);
    SentMasks(h, fks, order);
    EthernetValues(h);
    assert 4 in Sent(fks) && Sent(fks)[4] == NewEthernet();
  }

  lemma {:induction false} EthernetValues(h: ByteOrder)
    ensures Value(h, KeyAttr(h, NewEthernet())) == [0, 0, 0, 0, 0, 0, 0, 0, 0, 0, 0, 0]
    ensures MaskAttr(h, NewEthernet()).Some?
    ensures Value(h, MaskAttr(h, NewEthernet()).value)
         == [0xff, 0xff, 0xff, 0xff, 0xff, 0xff, 0xff, 0xff, 0xff, 0xff, 0xff, 0xff]
  {
    var km := NewEthernet().keyMask;
    assert KeyPart(km) == km[..12] && MaskPart(km) == km[12..];
  }
}
