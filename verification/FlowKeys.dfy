/** Flow keys: the fields of a packet that a flow matches on, each with a mask. */
module FlowKeys {
  import opened Bytes
  import opened Attributes
  import opened Tunnels

  /** Which Go type wraps a blob key. */
  datatype Wrap = Plain | InPort | Ethernet

  datatype FlowKey =
    // Key and mask concatenated, so twice their length.
    | Blob(wrap: Wrap, typ: uint16, keyMask: seq<byte>)
    | TunnelKey(tkey: TunnelAttrs, tmask: TunnelAttrs)
    // No mask means ignored, unless the key is exact.
    | Unknown(utyp: uint16, ukey: seq<byte>, umask: Option<seq<byte>>, exact: bool)

  type FlowKeys = map<uint16, FlowKey>

  const IN_PORT: uint16 := 3
  const ETHERNET: uint16 := 4
  const TUNNEL: uint16 := 16
  const SIZEOF_ETHERNET := 12

  // -------------------------------------------------------------- parser table

  datatype Kind = BlobKind(wrap: Wrap, size: nat) | TunnelKind | UnknownKind

  /** `flowKeyParsers`. */
  function KindOf(typ: uint16): (k: Kind)
    ensures k.BlobKind? ==> k.size > 0
    ensures k == TunnelKind <==> typ == TUNNEL
    ensures k.BlobKind? && k.wrap == Ethernet <==> typ == ETHERNET
    ensures k.BlobKind? && k.wrap == InPort <==> typ == IN_PORT
  {
    if typ in {2, 9, 10, 15, 19, 20} then BlobKind(Plain, 4)
    else if typ == IN_PORT then BlobKind(InPort, 4)
    else if typ == ETHERNET then BlobKind(Ethernet, SIZEOF_ETHERNET)
    else if typ in {6, 11, 12, 18} then BlobKind(Plain, 2)
    else if typ == 7 then BlobKind(Plain, 12)
    else if typ == 8 then BlobKind(Plain, 40)
    else if typ == 13 then BlobKind(Plain, 24)
    else if typ == 14 then BlobKind(Plain, 28)
    else if typ == TUNNEL then TunnelKind
    else UnknownKind
  }

  /** The table's mask for an exact match; none where the mask is implicit in the key. */
  function ExactMask(typ: uint16): Option<seq<byte>> {
    match KindOf(typ)
    case BlobKind(_, n) => Some(Ones(n))
    case _ => None
  }

  /** The table's mask for a key whose mask attribute is left out. */
  function IgnoreMask(typ: uint16): Option<seq<byte>> {
    match KindOf(typ)
    case BlobKind(_, n) => Some(Zeros(n))
    case TunnelKind => Some([])
    case UnknownKind => None
  }

  // ----------------------------------------------------------------- key basics

  function TypeId(k: FlowKey): uint16 {
    match k
    case Blob(_, typ, _) => typ
    case TunnelKey(_, _) => TUNNEL
    case Unknown(typ, _, _, _) => typ
  }

  function KeyPart(keyMask: seq<byte>): seq<byte> {
    keyMask[..|keyMask| / 2]
  }

  function MaskPart(keyMask: seq<byte>): seq<byte> {
    keyMask[|keyMask| / 2..]
  }

  function NewEthernet(): FlowKey {
    Blob(Ethernet, ETHERNET, Zeros(SIZEOF_ETHERNET) + Ones(SIZEOF_ETHERNET))
  }

  /** An ethernet key is mandatory, so it is never ignored.  The tunnel case overlooks the
      DF flag. */
  predicate Ignored(k: FlowKey) {
    match k
    case Blob(wrap, _, keyMask) => wrap != Ethernet && AllBytes(MaskPart(keyMask), 0)
    case TunnelKey(_, m) =>
      && AllBytes(m.tunnelId, 0) && AllBytes(m.ipv4Src, 0) && AllBytes(m.ipv4Dst, 0)
      && m.tos == 0 && m.ttl == 0 && !m.csum && m.tpSrc == 0 && m.tpDst == 0
    case Unknown(_, _, mask, exact) => mask.None? && !exact
  }

  function Bits(b: byte): bv8 {
    b as bv8
  }

  predicate BitsAgree(p: bv8, k: bv8, m: bv8) {
    (p ^ k) & m == 0
  }

  /** The bits of `p` that `m` selects are those of `k`. */
  predicate Agree(p: byte, k: byte, m: byte) {
    BitsAgree(Bits(p), Bits(k), Bits(m))
  }

  predicate KeyEquals(a: FlowKey, b: FlowKey) {
    match a
    case Blob(_, typ, km) =>
      && b.Blob? && typ == b.typ && |km| == |b.keyMask|
      && (forall i :: 0 <= i < |MaskPart(km)| ==>
            MaskPart(km)[i] == MaskPart(b.keyMask)[i] && Agree(km[i], b.keyMask[i], MaskPart(km)[i]))
    case TunnelKey(k, m) => b.TunnelKey? && k == b.tkey && m == b.tmask
    case Unknown(typ, k, m, exact) =>
      && b.Unknown? && typ == b.utyp && k == b.ukey
      && (if exact then b.exact
          else if m.None? then b.umask.None?
          else m.value == if b.umask.Some? then b.umask.value else [])
  }

  /** `FlowKeys.Equals`. */
  predicate Equals(a: FlowKeys, b: FlowKeys) {
    && (forall id :: id in a ==> if id in b then KeyEquals(a[id], b[id]) else Ignored(a[id]))
    && (forall id :: id in b && id !in a ==> Ignored(b[id]))
  }

  /** The key has the Go type and the size that the parser table yields for its type. */
  predicate WellFormedKey(id: uint16, k: FlowKey) {
    && TypeId(k) == id
    && match KindOf(id)
       case BlobKind(wrap, n) => k.Blob? && k.wrap == wrap && |k.keyMask| == 2 * n
       case TunnelKind => k.TunnelKey?
       case UnknownKind => k.Unknown?
  }

  predicate WellFormed(fks: FlowKeys) {
    forall id :: id in fks ==> WellFormedKey(id, fks[id])
  }

  // --------------------------------------------------------------- serialising

  function KeyAttr(h: ByteOrder, k: FlowKey): Attr {
    match k
    case Blob(_, typ, keyMask) => Leaf(typ, KeyPart(keyMask))
    case TunnelKey(key, mask) => Nested(TUNNEL, ToForest(h, key, Present(mask)))
    case Unknown(typ, key, _, _) => Leaf(typ, key)
  }

  /** No attribute for an unknown key without a mask.  For an exact one serialising fails. */
  function MaskAttr(h: ByteOrder, k: FlowKey): Option<Attr> {
    match k
    case Blob(_, typ, keyMask) => Some(Leaf(typ, MaskPart(keyMask)))
    case TunnelKey(_, mask) => Some(Nested(TUNNEL, ToForest(h, mask, Present(mask))))
    case Unknown(typ, _, mask, exact) => if exact || mask.None? then None else Some(Leaf(typ, mask.value))
  }

  predicate Serialisable(fks: FlowKeys) {
    forall id :: id in fks ==> !(fks[id].Unknown? && fks[id].exact)
  }

  /** An order in which a range over the map may visit its keys. */
  ghost predicate Order(fks: FlowKeys, order: seq<uint16>) {
    && (forall t :: t in order <==> t in fks)
    && (forall i, j :: 0 <= i < j < |order| ==> order[i] != order[j])
  }

  function KeyForest(h: ByteOrder, fks: FlowKeys, order: seq<uint16>): seq<Attr>
    requires forall t :: t in order ==> t in fks
  {
    if order == [] then []
    else
      (if Ignored(fks[order[0]]) then [] else [KeyAttr(h, fks[order[0]])])
      + KeyForest(h, fks, order[1..])
  }

  function MaskForest(h: ByteOrder, fks: FlowKeys, order: seq<uint16>): seq<Attr>
    requires forall t :: t in order ==> t in fks
  {
    if order == [] then []
    else
      var a := MaskAttr(h, fks[order[0]]);
      (if Ignored(fks[order[0]]) || a.None? then [] else [a.value])
      + MaskForest(h, fks, order[1..])
  }

  /** The children of OVS_FLOW_ATTR_KEY, with the default ethernet key last. */
  function KeyAttrs(h: ByteOrder, fks: FlowKeys, order: seq<uint16>): seq<Attr>
    requires forall t :: t in order ==> t in fks
  {
    KeyForest(h, fks, order) + if ETHERNET in fks then [] else [KeyAttr(h, NewEthernet())]
  }

  /** The children of OVS_FLOW_ATTR_MASK. */
  function MaskAttrs(h: ByteOrder, fks: FlowKeys, order: seq<uint16>): seq<Attr>
    requires forall t :: t in order ==> t in fks
  {
    MaskForest(h, fks, order) + if ETHERNET in fks then [] else [MaskAttr(h, NewEthernet()).value]
  }

  /** The keys that go on the wire. */
  function Sent(fks: FlowKeys): FlowKeys {
    (map t | t in fks && !Ignored(fks[t]) :: fks[t])
    + if ETHERNET in fks then map[] else map[ETHERNET := NewEthernet()]
  }

  // ------------------------------------------------------------------- parsing

  /** `parseBlobFlowKey`, with no mask at all read as an empty one. */
  function ParseBlob(wrap: Wrap, typ: uint16, key: Option<seq<byte>>, mask: seq<byte>, size: nat): Outcome<FlowKey> {
    if |mask| != size then Error
    else if key.Some? then
      if |key.value| != size then Error else Ok(Blob(wrap, typ, key.value + mask))
    else if !AllBytes(mask, 0) then Error
    else Ok(Blob(wrap, typ, Zeros(size) + mask))
  }

  /** Any in-port mask other than all ones means ignored. */
  function InPortMask(mask: seq<byte>): (r: seq<byte>)
    ensures |r| == |mask|
  {
    if AllBytes(mask, 0xff) then mask else Zeros(|mask|)
  }

  function ParseKey(h: ByteOrder, typ: uint16, key: Option<seq<byte>>, mask: Option<seq<byte>>,
                    exact: bool): Outcome<FlowKey> {
    match KindOf(typ)
    case BlobKind(wrap, n) =>
      var m := if mask.Some? then mask.value else [];
      ParseBlob(wrap, typ, key, if wrap == InPort then InPortMask(m) else m, n)
    case TunnelKind => ParseTunnelKey(h, key, mask)
    case UnknownKind => Ok(Unknown(typ, if key.Some? then key.value else [], mask, exact))
  }

  /** Without mask attributes the mask is implicit in the key attributes provided. */
  function ParseTunnelKey(h: ByteOrder, key: Option<seq<byte>>, mask: Option<seq<byte>>): Outcome<FlowKey> {
    match (if key.Some? then ParseTunnelData(h, key.value) else Ok(NO_TUNNEL))
    case Error => Error
    case Panic => Panic
    case Ok(k) =>
      match (if mask.Some? then ParseTunnelData(h, mask.value) else Ok(Tunnel(MaskOf(k.present), k.present)))
      case Error => Error
      case Panic => Panic
      case Ok(m) => Ok(TunnelKey(k.attrs, m.attrs))
  }

  /** What `ParseFlowKeys` makes of type `t`, which occurs among the keys or the masks. */
  function ParseOne(h: ByteOrder, keys: AttrMap, masks: Option<AttrMap>, t: uint16): Outcome<FlowKey> {
    if t in keys then
      if masks.None? then ParseKey(h, t, Some(keys[t]), ExactMask(t), true)
      else ParseKey(h, t, Some(keys[t]), if t in masks.value then Some(masks.value[t]) else IgnoreMask(t), false)
    else ParseKey(h, t, None, if masks.Some? then Lookup(masks.value, t) else None, false)
  }

  function Domain(keys: AttrMap, masks: Option<AttrMap>): set<uint16> {
    keys.Keys + if masks.Some? then masks.value.Keys else {}
  }

  function Fail(r: Outcome<FlowKeys>): Outcome<FlowKey>
    requires !r.Ok?
  {
    if r.Panic? then Panic else Error
  }
}
