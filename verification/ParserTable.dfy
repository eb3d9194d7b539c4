/** The parser table, with the numbers of the kernel's header files: how many bytes each type of
    key has, and what becomes of each type. */
module ParserTable {
  import opened Bytes
  import opened Attributes
  import opened Tunnels
  import opened FlowKeys

  /** The size of the structure that the kernel's openvswitch.h gives for a blob-shaped type, as
      the sum of its fields; none for the types that are no blobs. */
  function StructSize(t: uint16): Option<nat> {
    match t
    case 2 => Some(4)                          // packet priority
    case 3 => Some(4)                          // ingress port
    case 4 => Some(6 + 6)                      // ethernet: source, destination
    case 6 => Some(2)                          // ethertype
    case 7 => Some(4 + 4 + 1 + 1 + 1 + 1)      // IPv4: source, destination, protocol, TOS, TTL, fragment
    case 8 => Some(16 + 16 + 4 + 1 + 1 + 1 + 1)  // IPv6: the same with a flow label
    case 9 => Some(2 + 2)                      // TCP ports
    case 10 => Some(2 + 2)                     // UDP ports
    case 11 => Some(1 + 1)                     // ICMP type and code
    case 12 => Some(1 + 1)                     // ICMPv6 type and code
    case 13 => Some(4 + 4 + 2 + 6 + 6 + 2)     // ARP: IP addresses, operation, MAC addresses, padding
    case 14 => Some(16 + 6 + 6)                // neighbour discovery: target, link-layer addresses
    case 15 => Some(4)                         // packet mark
    case 18 => Some(2)                         // TCP flags
    case 19 => Some(4)                         // datapath hash
    case 20 => Some(4)                         // recirculation id
    case _ => None
  }

  /** The key of a missed packet, which comes without masks: a blob if it has the size of its
      structure and an error if it has not; a tunnel for type 16; and for every type outside
      the table an exact unknown key with its bytes. */
  lemma {:induction false} MissByType(h: ByteOrder, t: uint16, k: seq<byte>)
    ensures var r := ParseOne(h, map[t := k], None, t);
      if StructSize(t).Some? then
        if |k| != StructSize(t).value then r == Error
        else r == Ok(Blob(if t == 3 then InPort else if t == 4 then Ethernet else Plain, t, k + Ones(|k|)))
      else if t == 16 then r.Ok? ==> r.value.TunnelKey?
      else r == Ok(Unknown(t, k, None, true))
  {
    hide ParseTunnelKey;
    TunnelKeyShape(h, k);
  }

  lemma {:induction false} TunnelKeyShape(h: ByteOrder, k: seq<byte>)
    ensures var r := ParseTunnelKey(h, Some(k), None); r.Ok? ==> r.value.TunnelKey?
  {
    hide ParseTunnelData, MaskOf;
  }

  /** With masks, for a blob-shaped type: key and mask must both have the size. */
  lemma {:induction false} MaskedByType(h: ByteOrder, t: uint16, k: seq<byte>, m: seq<byte>)
    requires StructSize(t).Some?
    ensures ParseOne(h, map[t := k], Some(map[t := m]), t).Ok? <==> |k| == |m| == StructSize(t).value
    ensures ParseOne(h, map[t := k], Some(map[]), t).Ok? <==> |k| == StructSize(t).value
    ensures ParseOne(h, map[], Some(map[t := m]), t).Ok? <==>
      |m| == StructSize(t).value && if t == 3 then exists i :: 0 <= i < |m| && m[i] != 0xff else AllBytes(m, 0)
  {
    if t == 3 && |m| == 4 {
      assert InPortMask(m) == (if AllBytes(m, 0xff) then m else Zeros(4));
      assert AllBytes(m, 0xff) ==> m[0] == 0xff;
    }
  }

  /** What becomes of tunnel keys.  Without any masks the fields present are matched exactly; a
      mask that is left out means that the key is ignored; and a mask without a key goes with
      an empty key. */
  lemma {:induction false} TunnelByMasks(h: ByteOrder, k: seq<byte>, m: seq<byte>)
    ensures var pk, pm := ParseTunnelData(h, k), ParseTunnelData(h, m);
      && (ParseOne(h, map[16 := k], None, 16).Ok? <==> pk.Ok?)
      && (pk.Ok? ==> ParseOne(h, map[16 := k], None, 16) == Ok(TunnelKey(pk.value.attrs, MaskOf(pk.value.present))))
      && (ParseOne(h, map[16 := k], Some(map[]), 16).Ok? <==> pk.Ok?)
      && (pk.Ok? ==> ParseOne(h, map[16 := k], Some(map[]), 16) == Ok(TunnelKey(pk.value.attrs, NO_TUNNEL.attrs)))
      && (ParseOne(h, map[16 := k], Some(map[16 := m]), 16).Ok? <==> pk.Ok? && pm.Ok?)
      && (pk.Ok? && pm.Ok? ==>
            ParseOne(h, map[16 := k], Some(map[16 := m]), 16) == Ok(TunnelKey(pk.value.attrs, pm.value.attrs)))
      && (ParseOne(h, map[], Some(map[16 := m]), 16).Ok? <==> pm.Ok?)
      && (pm.Ok? ==> ParseOne(h, map[], Some(map[16 := m]), 16) == Ok(TunnelKey(NO_TUNNEL.attrs, pm.value.attrs)))
    ensures ParseTunnelData(h, []) == Ok(NO_TUNNEL)
  {
    hide ParseTunnelAttrs, MaskOf, ParseAttrs;
    NoTunnelData(h);
  }

  lemma {:induction false} NoTunnelData(h: ByteOrder)
    ensures ParseTunnelData(h, []) == Ok(NO_TUNNEL)
  {
    assert ParseAttrs(h, [], 0) == Parsed([], Complete, 0);
    PortRead(h, 0);
  }

  /** What becomes of a type outside the table: its bytes are kept, and it is exact without any
      masks and ignored if its mask is left out. */
  lemma {:induction false} UnknownByMasks(h: ByteOrder, t: uint16, k: seq<byte>, m: seq<byte>)
    requires StructSize(t).None? && t != 16
    ensures ParseOne(h, map[t := k], None, t) == Ok(Unknown(t, k, None, true))
    ensures ParseOne(h, map[t := k], Some(map[]), t) == Ok(Unknown(t, k, None, false))
    ensures ParseOne(h, map[t := k], Some(map[t := m]), t) == Ok(Unknown(t, k, Some(m), false))
    ensures ParseOne(h, map[], Some(map[t := m]), t) == Ok(Unknown(t, [], Some(m), false))
    ensures Ignored(Unknown(t, k, None, false)) && !Ignored(Unknown(t, k, None, true))
    ensures !Ignored(Unknown(t, k, Some(m), false))
  {
  }

  // ---------------------------------------------------------------- when it panics

  /** The attribute loop meets a header with a length below 4 before it meets a truncation. */
  predicate Malformed(h: ByteOrder, data: seq<byte>) {
    ParseAttrs(h, data, 0).status == OutOfRange
  }

  /** Tunnel attributes are refused with an error when they are truncated or one of them has the
      wrong size, and make the library panic exactly when they are malformed. */
  lemma {:induction false} TunnelDataOutcome(h: ByteOrder, data: seq<byte>)
    ensures ParseTunnelData(h, data).Panic? <==> Malformed(h, data)
    ensures ParseTunnelData(h, data).Ok? <==>
      ParseAttrs(h, data, 0).status == Complete && OthersSized(ToMap(ParseAttrs(h, data, 0).attrs))
  {
    hide ParseAttrs, ParseTunnelAttrs, ToMap, OthersSized;
    WrongSizes(h, ToMap(ParseAttrs(h, data, 0).attrs));
  }

  /** Parsing one type panics exactly if it is a tunnel key with malformed attributes, or with
      attributes that parse and a malformed mask; every other failure is an error. */
  lemma {:induction false} WhenKeyPanics(h: ByteOrder, keys: AttrMap, masks: Option<AttrMap>, t: uint16)
    requires t in Domain(keys, masks)
    ensures ParseOne(h, keys, masks, t).Panic? <==>
      && t == 16
      && ((16 in keys && Malformed(h, keys[16]))
          || ((16 in keys ==> ParseTunnelData(h, keys[16]).Ok?)
              && masks.Some? && 16 in masks.value && Malformed(h, masks.value[16])))
  {
    hide ParseTunnelData, Malformed, MaskOf;
    if 16 in keys {
      TunnelDataOutcome(h, keys[16]);
    }
    if masks.Some? && 16 in masks.value {
      TunnelDataOutcome(h, masks.value[16]);
    }
    TunnelDataOutcome(h, []);
    NoTunnelData(h);
  }
}
