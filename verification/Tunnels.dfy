/** Tunnel attributes: the fields of an encapsulation header, which are optional
    sub-attributes on the wire. */
module Tunnels {
  import opened Bytes
  import opened Attributes

  type Bytes4 = s: seq<byte> | |s| == 4 witness [0, 0, 0, 0]
  type Bytes8 = s: seq<byte> | |s| == 8 witness [0, 0, 0, 0, 0, 0, 0, 0]

  datatype TunnelAttrs = TunnelAttrs(
    tunnelId: Bytes8, ipv4Src: Bytes4, ipv4Dst: Bytes4, tos: byte, ttl: byte,
    df: bool, csum: bool, tpSrc: uint16, tpDst: uint16)

  datatype Presence = Presence(
    tunnelId: bool, ipv4Src: bool, ipv4Dst: bool, tos: bool, ttl: bool,
    df: bool, csum: bool, tpSrc: bool, tpDst: bool)

  datatype Tunnel = Tunnel(attrs: TunnelAttrs, present: Presence)

  const ID: uint16 := 0
  const IPV4_SRC: uint16 := 1
  const IPV4_DST: uint16 := 2
  const TOS: uint16 := 3
  const TTL: uint16 := 4
  const DONT_FRAGMENT: uint16 := 5
  const CSUM: uint16 := 6
  const TP_SRC: uint16 := 9
  const TP_DST: uint16 := 10
  const IPV6_DST: uint16 := 13

  // -------------------------------------------------------- masks and presence

  /** Which attributes a mask calls for.  The kernel insists on the destination address and
      the TTL, so these are present even when they are wildcarded. */
  function Present(m: TunnelAttrs): Presence {
    Presence(!AllBytes(m.tunnelId, 0), !AllBytes(m.ipv4Src, 0), true, m.tos != 0, true,
             m.df, m.csum, m.tpSrc != 0, m.tpDst != 0)
  }

  /** The exact mask of the fields that are present. */
  function MaskOf(p: Presence): TunnelAttrs {
    TunnelAttrs(
      if p.tunnelId then Ones(8) else Zeros(8),
      if p.ipv4Src then Ones(4) else Zeros(4),
      if p.ipv4Dst then Ones(4) else Zeros(4),
      if p.tos then 0xff else 0,
      if p.ttl then 0xff else 0,
      p.df, p.csum,
      if p.tpSrc then 0xffff else 0,
      if p.tpDst then 0xffff else 0)
  }

  // ------------------------------------------------------------------ encoding

  function When(b: bool, typ: uint16, val: seq<byte>): seq<Attr> {
    if b then [Leaf(typ, val)] else []
  }

  /** The address-like half of the attributes, in the order they are put. */
  function FirstForest(ta: TunnelAttrs, p: Presence): seq<Attr> {
    When(p.tunnelId, ID, ta.tunnelId) + When(p.ipv4Src, IPV4_SRC, ta.ipv4Src)
    + When(p.ipv4Dst, IPV4_DST, ta.ipv4Dst) + When(p.tos, TOS, [ta.tos])
  }

  function SecondForest(h: ByteOrder, ta: TunnelAttrs, p: Presence): seq<Attr> {
    When(p.ttl, TTL, [ta.ttl]) + When(p.df && ta.df, DONT_FRAGMENT, [])
    + When(p.csum && ta.csum, CSUM, [])
    + When(p.tpSrc, TP_SRC, U16(h, Uint16FromBE(h, ta.tpSrc)))
    + When(p.tpDst, TP_DST, U16(h, Uint16FromBE(h, ta.tpDst)))
  }

  /** `TunnelAttrs.toNlAttrs`: the flags are written only when they are set. */
  function ToForest(h: ByteOrder, ta: TunnelAttrs, p: Presence): seq<Attr> {
    FirstForest(ta, p) + SecondForest(h, ta, p)
  }

  // ------------------------------------------------------------------- parsing

  predicate Sized(v: Option<seq<byte>>, n: nat) {
    v.Some? ==> |v.value| == n
  }

  /** `GetOptionalBytes` and the fixed-size getters: absent, of the right size, or wrong. */
  function GetFixed(attrs: AttrMap, typ: uint16, n: nat): (r: Outcome<Option<seq<byte>>>)
    ensures !r.Panic? && (r.Ok? ==> Sized(r.value, n))
  {
    if typ !in attrs then Ok(None)
    else if |attrs[typ]| != n then Error
    else Ok(Some(attrs[typ]))
  }

  function ByteOf(v: Option<seq<byte>>): byte
    requires Sized(v, 1)
  {
    if v.Some? then v.value[0] else 0
  }

  function PortOf(h: ByteOrder, v: Option<seq<byte>>): uint16
    requires Sized(v, 2)
  {
    Uint16FromBE(h, if v.Some? then U16At(h, v.value, 0) else 0)
  }

  function BytesOr(v: Option<seq<byte>>, n: nat): (s: seq<byte>)
    requires Sized(v, n)
    ensures |s| == n
  {
    if v.Some? then v.value else Zeros(n)
  }

  /** `parseTunnelAttrs`.  A destination address of the wrong length counts as absent: the
      error is overwritten by the next getter. */
  function ParseTunnelAttrs(h: ByteOrder, attrs: AttrMap): Outcome<Tunnel> {
    var id, src := GetFixed(attrs, ID, 8), GetFixed(attrs, IPV4_SRC, 4);
    var dst := GetFixed(attrs, IPV4_DST, 4);
    var tos, ttl := GetFixed(attrs, TOS, 1), GetFixed(attrs, TTL, 1);
    var df, csum := GetFixed(attrs, DONT_FRAGMENT, 0), GetFixed(attrs, CSUM, 0);
    var sport, dport := GetFixed(attrs, TP_SRC, 2), GetFixed(attrs, TP_DST, 2);
    if id.Error? || src.Error? || tos.Error? || ttl.Error? || df.Error? || csum.Error?
       || sport.Error? || dport.Error? then Error
    else
      Ok(Assemble(h, id.value, src.value, if dst.Ok? then dst.value else None, tos.value, ttl.value,
                  df.value, csum.value, sport.value, dport.value))
  }

  function Assemble(h: ByteOrder, id: Option<seq<byte>>, src: Option<seq<byte>>, dst: Option<seq<byte>>,
                    tos: Option<seq<byte>>, ttl: Option<seq<byte>>, df: Option<seq<byte>>, csum: Option<seq<byte>>,
                    sport: Option<seq<byte>>, dport: Option<seq<byte>>): Tunnel
    requires Sized(id, 8) && Sized(src, 4) && Sized(dst, 4) && Sized(tos, 1) && Sized(ttl, 1)
    requires Sized(sport, 2) && Sized(dport, 2)
  {
    Tunnel(
      TunnelAttrs(BytesOr(id, 8), BytesOr(src, 4), BytesOr(dst, 4), ByteOf(tos), ByteOf(ttl),
                  df.Some?, csum.Some?, PortOf(h, sport), PortOf(h, dport)),
      Presence(id.Some?, src.Some?, dst.Some?, tos.Some?, ttl.Some?,
               df.Some?, csum.Some?, sport.Some?, dport.Some?))
  }

  /** `parseTunnelAttrsData`. */
  function ParseTunnelData(h: ByteOrder, data: seq<byte>): Outcome<Tunnel> {
    match ParseNested(h, data)
    case Ok(attrs) => ParseTunnelAttrs(h, attrs)
    case Error => Error
    case Panic => Panic
  }

  // ---------------------------------------------------------------- round trip

  /** The part of `ta` that survives being written with presence `p`. */
  function Shown(ta: TunnelAttrs, p: Presence): TunnelAttrs {
    TunnelAttrs(
      if p.tunnelId then ta.tunnelId else Zeros(8),
      if p.ipv4Src then ta.ipv4Src else Zeros(4),
      if p.ipv4Dst then ta.ipv4Dst else Zeros(4),
      if p.tos then ta.tos else 0,
      if p.ttl then ta.ttl else 0,
      p.df && ta.df, p.csum && ta.csum,
      if p.tpSrc then ta.tpSrc else 0,
      if p.tpDst then ta.tpDst else 0)
  }

  /** The presence that reading it back reports: a clear flag looks like an absent one. */
  function ShownPresence(ta: TunnelAttrs, p: Presence): Presence {
    p.(df := p.df && ta.df, csum := p.csum && ta.csum)
  }

  /** The value of attribute `t`, if it is written. */
  function Written(h: ByteOrder, ta: TunnelAttrs, p: Presence, t: uint16): Option<seq<byte>> {
    if t == ID && p.tunnelId then Some(ta.tunnelId)
    else if t == IPV4_SRC && p.ipv4Src then Some(ta.ipv4Src)
    else if t == IPV4_DST && p.ipv4Dst then Some(ta.ipv4Dst)
    else if t == TOS && p.tos then Some([ta.tos])
    else if t == TTL && p.ttl then Some([ta.ttl])
    else if t == DONT_FRAGMENT && p.df && ta.df then Some([])
    else if t == CSUM && p.csum && ta.csum then Some([])
    else if t == TP_SRC && p.tpSrc then Some(U16(h, Uint16FromBE(h, ta.tpSrc)))
    else if t == TP_DST && p.tpDst then Some(U16(h, Uint16FromBE(h, ta.tpDst)))
    else None
  }

  /** `attrs` holds exactly the attributes that are written. */
  ghost predicate Holds(h: ByteOrder, attrs: AttrMap, ta: TunnelAttrs, p: Presence) {
    forall t: uint16 :: Lookup(attrs, t) == Written(h, ta, p, t)
  }

  function Lookup(attrs: AttrMap, t: uint16): Option<seq<byte>> {
    if t in attrs then Some(attrs[t]) else None
  }

  function Or(a: Option<seq<byte>>, b: Option<seq<byte>>): Option<seq<byte>> {
    if b.Some? then b else a
  }

  lemma {:induction false} LookupAppend(h: ByteOrder, f: seq<Attr>, g: seq<Attr>, t: uint16)
    ensures Lookup(MapOf(h, f + g), t) == Or(Lookup(MapOf(h, f), t), Lookup(MapOf(h, g), t))
  {
    hide MapOf;
    MapAppend(h, f, g);
  }

  lemma {:induction false} LookupWhen(h: ByteOrder, b: bool, typ: uint16, val: seq<byte>, t: uint16)
    ensures Lookup(MapOf(h, When(b, typ, val)), t) == if b && t == typ then Some(val) else None
  {
    hide MapOf;
    MapSingle(h, Leaf(typ, val));
  }

  lemma {:induction false} FirstWritten(h: ByteOrder, ta: TunnelAttrs, p: Presence, t: uint16)
    ensures Lookup(MapOf(h, FirstForest(ta, p)), t) == if t <= TOS then Written(h, ta, p, t) else None
  {
    hide MapOf, When, Lookup;
    var a, b := When(p.tunnelId, ID, ta.tunnelId), When(p.ipv4Src, IPV4_SRC, ta.ipv4Src);
    var c, d := When(p.ipv4Dst, IPV4_DST, ta.ipv4Dst), When(p.tos, TOS, [ta.tos]);
    LookupAppend(h, a + b + c, d, t);
    LookupAppend(h, a + b, c, t);
    LookupAppend(h, a, b, t);
    LookupWhen(h, p.tunnelId, ID, ta.tunnelId, t);
    LookupWhen(h, p.ipv4Src, IPV4_SRC, ta.ipv4Src, t);
    LookupWhen(h, p.ipv4Dst, IPV4_DST, ta.ipv4Dst, t);
    LookupWhen(h, p.tos, TOS, [ta.tos], t);
  }

  lemma {:induction false} SecondWritten(h: ByteOrder, ta: TunnelAttrs, p: Presence, t: uint16)
    ensures Lookup(MapOf(h, SecondForest(h, ta, p)), t) == if t > TOS then Written(h, ta, p, t) else None
  {
    hide MapOf, When, Lookup, U16, Uint16FromBE;
    var sport, dport := U16(h, Uint16FromBE(h, ta.tpSrc)), U16(h, Uint16FromBE(h, ta.tpDst));
    var a, b := When(p.ttl, TTL, [ta.ttl]), When(p.df && ta.df, DONT_FRAGMENT, []);
    var c, d := When(p.csum && ta.csum, CSUM, []), When(p.tpSrc, TP_SRC, sport);
    var e := When(p.tpDst, TP_DST, dport);
    LookupAppend(h, a + b + c + d, e, t);
    LookupAppend(h, a + b + c, d, t);
    LookupAppend(h, a + b, c, t);
    LookupAppend(h, a, b, t);
    LookupWhen(h, p.ttl, TTL, [ta.ttl], t);
    LookupWhen(h, p.df && ta.df, DONT_FRAGMENT, [], t);
    LookupWhen(h, p.csum && ta.csum, CSUM, [], t);
    LookupWhen(h, p.tpSrc, TP_SRC, sport, t);
    LookupWhen(h, p.tpDst, TP_DST, dport, t);
  }

  /** The attributes that arrive are exactly the ones the presence calls for. */
  lemma {:induction false} ForestHolds(h: ByteOrder, ta: TunnelAttrs, p: Presence)
    ensures Holds(h, MapOf(h, ToForest(h, ta, p)), ta, p)
  {
    hide MapOf, FirstForest, SecondForest, Written, Lookup;
    forall t: uint16 ensures Lookup(MapOf(h, ToForest(h, ta, p)), t) == Written(h, ta, p, t) {
      LookupAppend(h, FirstForest(ta, p), SecondForest(h, ta, p), t);
      FirstWritten(h, ta, p, t);
      SecondWritten(h, ta, p, t);
    }
  }

  lemma {:induction false} PortRead(h: ByteOrder, port: uint16)
    ensures PortOf(h, Some(U16(h, Uint16FromBE(h, port)))) == port
    ensures PortOf(h, None) == 0
  {
    hide U16At;
    PortRoundTrip(h, port);
    PortRoundTrip(h, 0);
    var s := U16(h, Uint16FromBE(h, port));
    assert s[0..0 + 2] == s;
    U16RoundTrip(h, Uint16FromBE(h, port), s, 0);
    assert Uint16FromBE(h, 0) == 0;
  }

  lemma {:induction false} FixedRead(attrs: AttrMap, t: uint16, v: Option<seq<byte>>, n: nat)
    requires Lookup(attrs, t) == v && Sized(v, n)
    ensures GetFixed(attrs, t, n) == Ok(v)
  {
  }

  ghost predicate WrittenAreSized(h: ByteOrder, ta: TunnelAttrs, p: Presence) {
    && Sized(Written(h, ta, p, ID), 8) && Sized(Written(h, ta, p, IPV4_SRC), 4)
    && Sized(Written(h, ta, p, IPV4_DST), 4) && Sized(Written(h, ta, p, TOS), 1)
    && Sized(Written(h, ta, p, TTL), 1) && Sized(Written(h, ta, p, DONT_FRAGMENT), 0)
    && Sized(Written(h, ta, p, CSUM), 0) && Sized(Written(h, ta, p, TP_SRC), 2)
    && Sized(Written(h, ta, p, TP_DST), 2)
  }

  lemma {:induction false} WrittenSizes(h: ByteOrder, ta: TunnelAttrs, p: Presence)
    ensures WrittenAreSized(h, ta, p)
  {
    hide U16, Uint16FromBE;
  }

  lemma {:induction false} AssembleShown(h: ByteOrder, ta: TunnelAttrs, p: Presence)
    requires WrittenAreSized(h, ta, p)
    ensures Assemble(h, Written(h, ta, p, ID), Written(h, ta, p, IPV4_SRC), Written(h, ta, p, IPV4_DST),
                     Written(h, ta, p, TOS), Written(h, ta, p, TTL), Written(h, ta, p, DONT_FRAGMENT),
                     Written(h, ta, p, CSUM), Written(h, ta, p, TP_SRC), Written(h, ta, p, TP_DST))
         == Tunnel(Shown(ta, p), ShownPresence(ta, p))
  {
    hide U16, Uint16FromBE, PortOf;
    PortRead(h, ta.tpSrc);
    PortRead(h, ta.tpDst);
  }

  /** Reading attributes that were written with presence `p` yields the fields that `p`
      shows, zeros elsewhere, and the presence itself; ports survive the byte swap on
      either host. */
  lemma {:induction false} TunnelReadBack(h: ByteOrder, attrs: AttrMap, ta: TunnelAttrs, p: Presence)
    requires Holds(h, attrs, ta, p)
    ensures ParseTunnelAttrs(h, attrs) == Ok(Tunnel(Shown(ta, p), ShownPresence(ta, p)))
  {
    hide GetFixed, U16, Uint16FromBE, Lookup, Written, Assemble, Shown;
    WrittenSizes(h, ta, p);
    FixedRead(attrs, ID, Written(h, ta, p, ID), 8);
    FixedRead(attrs, IPV4_SRC, Written(h, ta, p, IPV4_SRC), 4);
    FixedRead(attrs, IPV4_DST, Written(h, ta, p, IPV4_DST), 4);
    FixedRead(attrs, TOS, Written(h, ta, p, TOS), 1);
    FixedRead(attrs, TTL, Written(h, ta, p, TTL), 1);
    FixedRead(attrs, DONT_FRAGMENT, Written(h, ta, p, DONT_FRAGMENT), 0);
    FixedRead(attrs, CSUM, Written(h, ta, p, CSUM), 0);
    FixedRead(attrs, TP_SRC, Written(h, ta, p, TP_SRC), 2);
    FixedRead(attrs, TP_DST, Written(h, ta, p, TP_DST), 2);
    AssembleShown(h, ta, p);
  }

  /** The same for the value of a nested attribute made of them. */
  lemma {:induction false} TunnelRoundTrip(h: ByteOrder, typ: uint16, ta: TunnelAttrs, p: Presence)
    requires FitsOne(h, Nested(typ, ToForest(h, ta, p)))
    ensures ParseTunnelData(h, Value(h, Nested(typ, ToForest(h, ta, p))))
         == Ok(Tunnel(Shown(ta, p), ShownPresence(ta, p)))
  {
    hide ParseNested, ParseTunnelAttrs, MapOf, Value, ToForest, Holds;
    ParseNestedMap(h, typ, ToForest(h, ta, p));
    ForestHolds(h, ta, p);
    TunnelReadBack(h, MapOf(h, ToForest(h, ta, p)), ta, p);
  }

  /** A mask written with its own presence is read back unchanged. */
  lemma {:induction false} MaskShown(m: TunnelAttrs)
    ensures Shown(m, Present(m)) == m
  {
    assert AllBytes(m.tunnelId, 0) ==> m.tunnelId == Zeros(8);
    assert AllBytes(m.ipv4Src, 0) ==> m.ipv4Src == Zeros(4);
  }

  // ------------------------------------------------------- attributes of the wrong size

  /** Attribute `t` is absent or has `n` bytes. */
  predicate AbsentOrSized(attrs: AttrMap, t: uint16, n: nat) {
    t in attrs ==> |attrs[t]| == n
  }

  /** Every attribute but the destination address has the size it should have. */
  predicate OthersSized(attrs: AttrMap) {
    && AbsentOrSized(attrs, ID, 8) && AbsentOrSized(attrs, IPV4_SRC, 4)
    && AbsentOrSized(attrs, TOS, 1) && AbsentOrSized(attrs, TTL, 1)
    && AbsentOrSized(attrs, DONT_FRAGMENT, 0) && AbsentOrSized(attrs, CSUM, 0)
    && AbsentOrSized(attrs, TP_SRC, 2) && AbsentOrSized(attrs, TP_DST, 2)
  }

  /** Parsing fails exactly when one of the other eight attributes has the wrong size; the
      size of the destination address decides only whether it counts as present.  So the
      error that a wrong size ought to be is reported if and only if the destination
      address is not the only attribute of a wrong size. */
  lemma {:induction false} WrongSizes(h: ByteOrder, attrs: AttrMap)
    ensures var r := ParseTunnelAttrs(h, attrs);
      && !r.Panic?
      && (r.Ok? <==> OthersSized(attrs))
      && (r.Ok? ==> (r.value.present.ipv4Dst <==> IPV4_DST in attrs && |attrs[IPV4_DST]| == 4))
      && (r.Ok? && !r.value.present.ipv4Dst ==> r.value.attrs.ipv4Dst == Zeros(4))
    ensures (ParseTunnelAttrs(h, attrs).Error? <==> !OthersSized(attrs) || !AbsentOrSized(attrs, IPV4_DST, 4))
       <==> !OthersSized(attrs) || AbsentOrSized(attrs, IPV4_DST, 4)
  {
    hide PortOf;
  }

  const NO_TUNNEL := Tunnel(
    TunnelAttrs(Zeros(8), Zeros(4), Zeros(4), 0, 0, false, false, 0, 0),
    Presence(false, false, false, false, false, false, false, false, false))

  /** A destination address of three bytes passes for none at all. */
  lemma {:induction false} ShortDestination(h: ByteOrder)
    ensures ParseTunnelAttrs(h, map[IPV4_DST := [10, 0, 0]]) == Ok(NO_TUNNEL)
  {
    PortRead(h, 0);
  }

  // ------------------------------------------------------------------- on the wire

  /** A port as it is sent: most significant byte first. */
  function PortOnWire(port: uint16): seq<byte> {
    [(port / 256) as byte, (port % 256) as byte]
  }

  function Given(b: bool, v: seq<byte>): Option<seq<byte>> {
    if b then Some(v) else None
  }

  /** The tunnel attributes by their numbers: an attribute is there if `p` says so, and a flag
      only if it is set as well. */
  ghost predicate OnWire(kids: AttrMap, ta: TunnelAttrs, p: Presence) {
    && Lookup(kids, 0) == Given(p.tunnelId, ta.tunnelId)
    && Lookup(kids, 1) == Given(p.ipv4Src, ta.ipv4Src)
    && Lookup(kids, 2) == Given(p.ipv4Dst, ta.ipv4Dst)
    && Lookup(kids, 3) == Given(p.tos, [ta.tos])
    && Lookup(kids, 4) == Given(p.ttl, [ta.ttl])
    && Lookup(kids, 5) == Given(p.df && ta.df, [])
    && Lookup(kids, 6) == Given(p.csum && ta.csum, [])
    && Lookup(kids, 9) == Given(p.tpSrc, PortOnWire(ta.tpSrc))
    && Lookup(kids, 10) == Given(p.tpDst, PortOnWire(ta.tpDst))
    && forall t: uint16 :: t == 7 || t == 8 || t > 10 ==> Lookup(kids, t) == None
  }

  lemma {:induction false} WrittenByNumber(h: ByteOrder, ta: TunnelAttrs, p: Presence, t: uint16)
    ensures Written(h, ta, p, 0) == Given(p.tunnelId, ta.tunnelId)
    ensures Written(h, ta, p, 1) == Given(p.ipv4Src, ta.ipv4Src)
    ensures Written(h, ta, p, 2) == Given(p.ipv4Dst, ta.ipv4Dst)
    ensures Written(h, ta, p, 3) == Given(p.tos, [ta.tos])
    ensures Written(h, ta, p, 4) == Given(p.ttl, [ta.ttl])
    ensures Written(h, ta, p, 5) == Given(p.df && ta.df, [])
    ensures Written(h, ta, p, 6) == Given(p.csum && ta.csum, [])
    ensures Written(h, ta, p, 9) == Given(p.tpSrc, PortOnWire(ta.tpSrc))
    ensures Written(h, ta, p, 10) == Given(p.tpDst, PortOnWire(ta.tpDst))
    ensures t == 7 || t == 8 || t > 10 ==> Written(h, ta, p, t) == None
  {
    hide U16, Uint16FromBE;
    PortRoundTrip(h, ta.tpSrc);
    PortRoundTrip(h, ta.tpDst);
  }

  lemma {:induction false} ForestOnWire(h: ByteOrder, ta: TunnelAttrs, p: Presence)
    ensures OnWire(MapOf(h, ToForest(h, ta, p)), ta, p)
  {
    hide MapOf, ToForest, Lookup, Written, Given, PortOnWire;
    var kids := MapOf(h, ToForest(h, ta, p));
    ForestHolds(h, ta, p);
    forall t: uint16 ensures t == 7 || t == 8 || t > 10 ==> Lookup(kids, t) == None {
      WrittenByNumber(h, ta, p, t);
      assert Lookup(kids, t) == Written(h, ta, p, t);
    }
    WrittenByNumber(h, ta, p, 7);
    assert forall t: uint16 :: Lookup(kids, t) == Written(h, ta, p, t);
  }
}
