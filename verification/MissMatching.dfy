/** What the keys of a missed packet match.  The kernel sends them without masks, which means
    an exact match. */
module MissMatching {
  import opened Bytes
  import opened Attributes
  import opened Tunnels
  import opened FlowKeys
  import opened FlowMatching

  /** A packet as all keys see it: a value for every type, and the tunnel it came through. */
  datatype Seen = Seen(fields: Packet, tunnel: TunnelAttrs)

  predicate AgreeAll(v: seq<byte>, k: seq<byte>, m: seq<byte>) {
    |v| == |k| == |m| && forall i :: 0 <= i < |v| ==> Agree(v[i], k[i], m[i])
  }

  function PortBytes(n: uint16): seq<byte> {
    [(n / 256) as byte, (n % 256) as byte]
  }

  predicate TunnelAgrees(v: TunnelAttrs, k: TunnelAttrs, m: TunnelAttrs) {
    && AgreeAll(v.tunnelId, k.tunnelId, m.tunnelId)
    && AgreeAll(v.ipv4Src, k.ipv4Src, m.ipv4Src) && AgreeAll(v.ipv4Dst, k.ipv4Dst, m.ipv4Dst)
    && AgreeAll([v.tos], [k.tos], [m.tos]) && AgreeAll([v.ttl], [k.ttl], [m.ttl])
    && (m.df ==> v.df == k.df) && (m.csum ==> v.csum == k.csum)
    && AgreeAll(PortBytes(v.tpSrc), PortBytes(k.tpSrc), PortBytes(m.tpSrc))
    && AgreeAll(PortBytes(v.tpDst), PortBytes(k.tpDst), PortBytes(m.tpDst))
  }

  predicate KeyMatches(k: FlowKey, p: Seen) {
    match k
    case Blob(_, typ, _) => typ in p.fields && BlobMatches(k, p.fields[typ])
    case TunnelKey(key, mask) => TunnelAgrees(p.tunnel, key, mask)
    case Unknown(typ, key, mask, exact) =>
      if exact then typ in p.fields && p.fields[typ] == key
      else mask.Some? ==> typ in p.fields && AgreeAll(p.fields[typ], key, mask.value)
  }

  lemma {:induction false} AgreeOnes(v: seq<byte>, k: seq<byte>, n: nat)
    requires |v| == |k| == n
    ensures AgreeAll(v, k, Ones(n)) <==> v == k
    ensures AgreeAll(v, k, Zeros(n))
  {
    hide Agree;
    forall x: byte, y: byte ensures (Agree(x, y, 0xff) <==> x == y) && Agree(x, y, 0) {
      OnesMask(x, y);
      ZeroMask(x, y);
    }
  }

  /** A field is masked as a whole: it counts if it is present and not if it is absent. */
  lemma {:induction false} AgreeWhole(b: bool, v: seq<byte>, k: seq<byte>, n: nat)
    requires |v| == |k| == n
    ensures AgreeAll(v, k, if b then Ones(n) else Zeros(n)) <==> (b ==> v == k)
  {
    hide AgreeAll;
    AgreeOnes(v, k, n);
  }

  lemma {:induction false} PortWhole(b: bool, v: uint16, k: uint16)
    ensures AgreeAll(PortBytes(v), PortBytes(k), PortBytes(if b then 0xffff else 0)) <==> (b ==> v == k)
  {
    hide AgreeAll;
    AgreeWhole(b, PortBytes(v), PortBytes(k), 2);
    assert PortBytes(0xffff) == Ones(2) && PortBytes(0) == Zeros(2);
    assert v == v / 256 * 256 + v % 256 && k == k / 256 * 256 + k % 256;
    if PortBytes(v) == PortBytes(k) {
      assert PortBytes(v)[0] == PortBytes(k)[0] && PortBytes(v)[1] == PortBytes(k)[1];
    }
  }

  lemma {:induction false} ByteWhole(b: bool, v: byte, k: byte)
    ensures AgreeAll([v], [k], [if b then 0xff else 0]) <==> (b ==> v == k)
  {
    hide AgreeAll;
    AgreeWhole(b, [v], [k], 1);
    assert [0xff] == Ones(1) && [0] == Zeros(1);
  }

  /** The mask of a presence makes exactly the present fields count. */
  lemma {:induction false} PresenceMask(v: TunnelAttrs, k: TunnelAttrs, p: Presence)
    ensures TunnelAgrees(v, k, MaskOf(p)) <==>
      && (p.tunnelId ==> v.tunnelId == k.tunnelId) && (p.ipv4Src ==> v.ipv4Src == k.ipv4Src)
      && (p.ipv4Dst ==> v.ipv4Dst == k.ipv4Dst) && (p.tos ==> v.tos == k.tos) && (p.ttl ==> v.ttl == k.ttl)
      && (p.df ==> v.df == k.df) && (p.csum ==> v.csum == k.csum)
      && (p.tpSrc ==> v.tpSrc == k.tpSrc) && (p.tpDst ==> v.tpDst == k.tpDst)
  {
    hide AgreeAll, PortBytes, Ones, Zeros;
    AgreeWhole(p.tunnelId, v.tunnelId, k.tunnelId, 8);
    AgreeWhole(p.ipv4Src, v.ipv4Src, k.ipv4Src, 4);
    AgreeWhole(p.ipv4Dst, v.ipv4Dst, k.ipv4Dst, 4);
    ByteWhole(p.tos, v.tos, k.tos);
    ByteWhole(p.ttl, v.ttl, k.ttl);
    PortWhole(p.tpSrc, v.tpSrc, k.tpSrc);
    PortWhole(p.tpDst, v.tpDst, k.tpDst);
  }

  /** The packet has what attribute `t` of a miss says: for a tunnel, the value of every field
      that is present in it, and otherwise that very value. */
  predicate Exhibits(h: ByteOrder, attrs: AttrMap, p: Seen, t: uint16)
    requires t in attrs
  {
    if t == TUNNEL then
      var r := ParseTunnelData(h, attrs[t]);
      r.Ok? && Shown(p.tunnel, r.value.present) == Shown(r.value.attrs, r.value.present)
    else t in p.fields && p.fields[t] == attrs[t]
  }

  lemma {:induction false} MissKey(h: ByteOrder, attrs: AttrMap, t: uint16, k: FlowKey, p: Seen)
    requires t in attrs && ParseOne(h, attrs, None, t) == Ok(k) && IsPacket(p.fields)
    ensures KeyMatches(k, p) <==> Exhibits(h, attrs, p, t)
  {
    hide BlobMatches, TunnelAgrees, ParseTunnelData, MaskOf, Agree;
    match KindOf(t)
    case BlobKind(_, n) =>
      ParsedMeaning(h, attrs, None, t);
      assert t in p.fields && |p.fields[t]| == n;
      forall x: byte, y: byte ensures Agree(x, y, 0xff) <==> x == y {
        OnesMask(x, y);
      }
      assert BlobMatches(k, p.fields[t]) <==> p.fields[t] == attrs[t];
    case TunnelKind =>
      var r := ParseTunnelData(h, attrs[t]).value;
      PresenceMask(p.tunnel, r.attrs, r.present);
    case UnknownKind =>
  }

  /** The keys of a missed packet select a packet if and only if it has those very fields. */
  lemma {:induction false} MissMatchesItself(h: ByteOrder, attrs: AttrMap, fks: FlowKeys, p: Seen)
    requires fks.Keys == attrs.Keys && forall t :: t in attrs ==> ParseOne(h, attrs, None, t) == Ok(fks[t])
    requires IsPacket(p.fields)
    ensures (forall t :: t in fks ==> KeyMatches(fks[t], p)) <==> (forall t :: t in attrs ==> Exhibits(h, attrs, p, t))
  {
    hide KeyMatches, Exhibits, ParseOne, IsPacket;
    forall t | t in attrs ensures KeyMatches(fks[t], p) <==> Exhibits(h, attrs, p, t) {
      MissKey(h, attrs, t, fks[t], p);
    }
  }

  /** An unknown key under a mask of all ones matches as an exact one does. */
  lemma {:induction false} AllOnesIsExact(t: uint16, k: seq<byte>, p: Seen)
    ensures KeyMatches(Unknown(t, k, Some(Ones(|k|)), false), p) <==> KeyMatches(Unknown(t, k, None, true), p)
  {
    hide Agree;
    if t in p.fields && |p.fields[t]| == |k| {
      AgreeOnes(p.fields[t], k, |k|);
    }
  }
}
