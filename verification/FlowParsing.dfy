/** `ParseFlowKeys` and `parseFlowSpec` as they run: on slices of the message's buffer, part of
    which they overwrite, with masks from a table that all calls share. */
module FlowParsing {
  import opened Bytes
  import opened Attributes
  import opened Builder
  import opened Parser
  import opened Tunnels
  import opened FlowKeys
  import opened FlowKeyCodec
  import opened FlowSpecs
  import opened InPortMasks
  import opened ParsingAgain

  // ------------------------------------------------------------------------ slices

  /** A slice of the buffer. */
  datatype Span = Span(off: nat, len: nat)

  type Spans = map<uint16, Span>

  predicate Apart(a: Span, b: Span) {
    a.off + a.len <= b.off || b.off + b.len <= a.off
  }

  predicate Inside(spans: Spans, lo: nat, hi: nat) {
    forall t :: t in spans ==> lo <= spans[t].off && spans[t].off + spans[t].len <= hi
  }

  predicate AllApart(spans: Spans) {
    forall t, u :: t in spans && u in spans && t != u ==> Apart(spans[t], spans[u])
  }

  function Read(data: seq<byte>, s: Span): (r: seq<byte>)
    requires s.off + s.len <= |data|
    ensures |r| == s.len
  {
    data[s.off..s.off + s.len]
  }

  function Values(data: seq<byte>, spans: Spans): AttrMap
    requires Inside(spans, 0, |data|)
  {
    map t | t in spans :: Read(data, spans[t])
  }

  /** Where the cursor is after the attributes, when it started at `pos`. */
  function CursorAfter(attrs: seq<RawAttr>, pos: nat): nat {
    if attrs == [] then pos else CursorAfter(attrs[1..], Align(pos) + ATTR_HDRLEN + |attrs[0].val|)
  }

  lemma {:induction false} ValueStartSnoc(attrs: seq<RawAttr>, a: RawAttr, pos: nat, i: nat)
    requires i <= |attrs|
    ensures CursorAfter(attrs + [a], pos) == Align(CursorAfter(attrs, pos)) + ATTR_HDRLEN + |a.val|
    ensures ValueStart(attrs + [a], pos, i)
         == if i < |attrs| then ValueStart(attrs, pos, i) else Align(CursorAfter(attrs, pos)) + ATTR_HDRLEN
    decreases attrs
  {
    hide Align;
    if attrs != [] {
      assert (attrs + [a])[1..] == attrs[1..] + [a];
      ValueStartSnoc(attrs[1..], a, Align(pos) + ATTR_HDRLEN + |attrs[0].val|, if i == 0 then 0 else i - 1);
    } else {
      assert [a][1..] == [];
    }
  }

  /** Each span is that of the attribute that counts for its type, the one with the index that
      `which` gives. */
  predicate Located(res: Spans, which: map<uint16, nat>, attrs: seq<RawAttr>, lo: nat, pos: nat) {
    res.Keys == which.Keys
    && forall t :: t in res ==>
         && LastOfType(attrs, which[t]) && attrs[which[t]].typ == t
         && res[t] == Span(lo + ValueStart(attrs, pos, which[t]), |attrs[which[t]].val|)
  }

  /** The spans hold the attributes `attrs` by type, up to position `end`. */
  predicate Taken(all: seq<byte>, res: Spans, attrs: seq<RawAttr>, lo: nat, hi: nat, end: nat) {
    && hi <= |all| && Inside(res, lo, hi) && AllApart(res) && Values(all, res) == ToMap(attrs)
    && forall t :: t in res ==> res[t].off + res[t].len <= end
  }

  lemma {:induction false} TakenNone(all: seq<byte>, lo: nat, hi: nat, pos: nat)
    requires hi <= |all|
    ensures Taken(all, map[], [], lo, hi, lo + pos) && Located(map[], map[], [], lo, pos) && CursorAfter([], pos) == pos
  {
  }

  lemma {:induction false} TakenMore(all: seq<byte>, res: Spans, attrs: seq<RawAttr>, lo: nat, hi: nat, end: nat,
                                     a: RawAttr, span: Span)
    requires Taken(all, res, attrs, lo, hi, end)
    requires lo <= span.off && end <= span.off && span.off + span.len <= hi && Read(all, span) == a.val
    ensures Taken(all, res[a.typ := span], attrs + [a], lo, hi, span.off + span.len)
  {
    hide ToMap, Read;
    MapSnoc(attrs, a);
  }

  lemma {:induction false} LocatedMore(res: Spans, which: map<uint16, nat>, attrs: seq<RawAttr>, lo: nat, pos: nat,
                                       a: RawAttr)
    requires Located(res, which, attrs, lo, pos)
    ensures var span := Span(lo + Align(CursorAfter(attrs, pos)) + ATTR_HDRLEN, |a.val|);
      Located(res[a.typ := span], which[a.typ := |attrs|], attrs + [a], lo, pos)
  {
    hide Align, ValueStart, CursorAfter;
    ValueStartSnoc(attrs, a, pos, |attrs|);
    forall t | t in res && t != a.typ ensures LastOfType(attrs + [a], which[t]) {
      ValueStartSnoc(attrs, a, pos, which[t]);
    }
    forall t | t in res && t != a.typ
      ensures ValueStart(attrs + [a], pos, which[t]) == ValueStart(attrs, pos, which[t])
    {
      ValueStartSnoc(attrs, a, pos, which[t]);
    }
  }

  /** `TakeAttrs` from `pos` on in the slice from `lo` to `hi`: the values are slices of the
      buffer, and no two of them overlap. */
  method TakeSpans(h: ByteOrder, buf: array<byte>, lo: nat, hi: nat, pos: nat)
    returns (res: Spans, status: Status, ghost which: map<uint16, nat>)
    requires lo <= hi <= buf.Length
    ensures Inside(res, lo, hi) && AllApart(res)
    ensures var p := ParseAttrs(h, buf[lo..hi], pos);
      status == p.status && Values(buf[..], res) == ToMap(p.attrs) && Located(res, which, p.attrs, lo, pos)
  {
    hide ParseAttrs, U16At, Align, ToMap, Taken, Located, CursorAfter;
    var data := buf[lo..hi];
    ghost var attrs := [];
    var cur := pos;
    res, status, which := map[], Complete, map[];
    AfterNone(ParseAttrs(h, data, pos));
    TakenNone(buf[..], lo, hi, cur);
    while true
      invariant ParseAttrs(h, data, pos) == After(attrs, ParseAttrs(h, data, cur))
      invariant Taken(buf[..], res, attrs, lo, hi, lo + cur)
      invariant Located(res, which, attrs, lo, pos) && CursorAfter(attrs, pos) == cur
      decreases |data| - cur
    {
      var apos := Align(cur);
      ParseTurn(h, data, cur);
      assert attrs + [] == attrs;
      TakenIs(buf[..], res, attrs, lo, hi, lo + cur);
      if |data| <= apos {
        return res, Complete, which;
      }
      if apos + ATTR_HDRLEN > |data| {
        return res, Truncated, which;
      }
      var len, typ := U16At(h, data, apos), U16At(h, data, apos + 2);
      if apos + len > |data| {
        return res, Truncated, which;
      }
      if len < ATTR_HDRLEN {
        return res, OutOfRange, which;
      }
      var span := Span(lo + apos + ATTR_HDRLEN, len - ATTR_HDRLEN);
      ghost var a := RawAttr(typ, data[apos + ATTR_HDRLEN..apos + len]);
      AfterAfter(attrs, [a], ParseAttrs(h, data, apos + len));
      TakenMore(buf[..], res, attrs, lo, hi, lo + cur, a, span);
      LocatedMore(res, which, attrs, lo, pos, a);
      ValueStartSnoc(attrs, a, pos, |attrs|);
      res, which := res[typ := span], which[typ := |attrs|];
      attrs := attrs + [a];
      cur := apos + len;
    }
  }

  lemma {:induction false} TakenIs(all: seq<byte>, res: Spans, attrs: seq<RawAttr>, lo: nat, hi: nat, end: nat)
    requires Taken(all, res, attrs, lo, hi, end)
    ensures hi <= |all| && Inside(res, lo, hi) && AllApart(res) && Values(all, res) == ToMap(attrs)
  {
  }

  lemma {:induction false} MapSnoc(raws: seq<RawAttr>, a: RawAttr)
    ensures ToMap(raws + [a]) == ToMap(raws)[a.typ := a.val]
  {
    assert (raws + [a])[..|raws|] == raws;
  }

  /** Where the keys and the masks are: no mask overlaps a key or another mask. */
  predicate Layout(n: nat, keys: Spans, masks: Option<Spans>) {
    && Inside(keys, 0, n)
    && (masks.Some? ==>
          && Inside(masks.value, 0, n) && AllApart(masks.value)
          && forall t, u :: t in keys && u in masks.value ==> Apart(keys[t], masks.value[u]))
  }

  function MaskValues(data: seq<byte>, masks: Option<Spans>): Option<AttrMap>
    requires masks.Some? ==> Inside(masks.value, 0, |data|)
  {
    if masks.Some? then Some(Values(data, masks.value)) else None
  }

  /** The buffer with the in-port mask, if there is one, zeroed unless it is all ones. */
  function ZeroedData(data: seq<byte>, masks: Option<Spans>): (r: seq<byte>)
    requires masks.Some? ==> Inside(masks.value, 0, |data|)
    ensures |r| == |data|
  {
    if masks.Some? && IN_PORT in masks.value then
      var s := masks.value[IN_PORT];
      Patched(data, s.off, InPortMask(Read(data, s)))
    else data
  }

  lemma {:induction false} ReadPatched(data: seq<byte>, off: nat, e: seq<byte>, s: Span)
    requires off + |e| <= |data| && s.off + s.len <= |data|
    ensures Apart(Span(off, |e|), s) ==> Read(Patched(data, off, e), s) == Read(data, s)
    ensures Read(Patched(data, off, e), Span(off, |e|)) == e
  {
    hide Patched;
    PatchedAt(data, off, e);
  }

  /** Zeroing the in-port mask leaves every key and every other mask alone. */
  lemma {:induction false} ZeroedValues(data: seq<byte>, keys: Spans, masks: Option<Spans>)
    requires Layout(|data|, keys, masks)
    ensures Values(ZeroedData(data, masks), keys) == Values(data, keys)
    ensures masks.Some? ==> MaskValues(ZeroedData(data, masks), masks) == Some(Zeroed(Values(data, masks.value)))
  {
    hide At, Patched, InPortMask;
    if masks.Some? && IN_PORT in masks.value {
      var s := masks.value[IN_PORT];
      var e := InPortMask(Read(data, s));
      forall t | t in keys ensures Read(Patched(data, s.off, e), keys[t]) == Read(data, keys[t]) {
        assert Apart(keys[t], s);
        ReadPatched(data, s.off, e, keys[t]);
      }
      forall t | t in masks.value
        ensures Read(Patched(data, s.off, e), masks.value[t]) == if t == IN_PORT then e else Read(data, masks.value[t])
      {
        ReadPatched(data, s.off, e, masks.value[t]);
      }
      assert Values(ZeroedData(data, masks), masks.value) == Values(data, masks.value)[IN_PORT := e];
    }
  }

  lemma {:induction false} ZeroedTwice(data: seq<byte>, masks: Option<Spans>)
    requires masks.Some? ==> Inside(masks.value, 0, |data|)
    ensures ZeroedData(ZeroedData(data, masks), masks) == ZeroedData(data, masks)
  {
    hide Patched;
    if masks.Some? && IN_PORT in masks.value {
      var s := masks.value[IN_PORT];
      var e := InPortMask(Read(data, s));
      ReadPatched(data, s.off, e, s);
      InPortAgain(Little, None, Read(data, s));
      PatchedAt(data, s.off, e);
      PatchedAt(Patched(data, s.off, e), s.off, e);
    }
  }

  /** Before or after the zeroing, each type parses to the same key. */
  lemma {:induction false} ParsesAnyTime(h: ByteOrder, data: seq<byte>, keys: Spans, masks: Option<Spans>, t: uint16)
    requires Layout(|data|, keys, masks)
    ensures var z := ZeroedData(data, masks);
      ParseOne(h, Values(z, keys), MaskValues(z, masks), t)
      == ParseOne(h, Values(data, keys), MaskValues(data, masks), t)
  {
    hide ParseOne, Values, ZeroedData, Zeroed;
    ZeroedValues(data, keys, masks);
    if masks.Some? {
      KeyAgain(h, Values(data, keys), Values(data, masks.value), t);
    }
  }

  // --------------------------------------------------------------------- the table

  /** The masks of `flowKeyParsers`, which every call of the parser may be given. */
  datatype Table = Table(exact: map<uint16, array<byte>>, ignore: map<uint16, array<byte>>)

  ghost function Arrays(table: Table): set<array<byte>> {
    table.exact.Values + table.ignore.Values
  }

  ghost predicate Valid(table: Table)
    reads Arrays(table)
  {
    forall t: uint16 ::
      && (t in table.exact <==> ExactMask(t).Some?) && (t in table.ignore <==> IgnoreMask(t).Some?)
      && (t in table.exact ==> table.exact[t][..] == ExactMask(t).value)
      && (t in table.ignore ==> table.ignore[t][..] == IgnoreMask(t).value)
  }

  // ----------------------------------------------------------------------- one key

  /** `mask` as a slice of some array, which may be the message's or one of the table's. */
  datatype Slice = Slice(mem: array<byte>, span: Span)

  ghost predicate InBounds(s: Slice) {
    s.span.off + s.span.len <= s.mem.Length
  }

  /** The parsers of the table: only the in-port one writes, and only to its mask. */
  method ParseSlice(h: ByteOrder, typ: uint16, key: Option<Slice>, mask: Option<Slice>, exact: bool)
    returns (r: Outcome<FlowKey>)
    requires (key.Some? ==> InBounds(key.value)) && (mask.Some? ==> InBounds(mask.value))
    requires key.Some? && mask.Some? && key.value.mem == mask.value.mem ==> Apart(key.value.span, mask.value.span)
    modifies if mask.Some? then {mask.value.mem} else {}
    ensures r == ParseKey(h, typ,
                          if key.Some? then Some(old(Read(key.value.mem[..], key.value.span))) else None,
                          if mask.Some? then Some(old(Read(mask.value.mem[..], mask.value.span))) else None, exact)
    ensures mask.Some? && typ == IN_PORT ==>
      mask.value.mem[..] == Patched(old(mask.value.mem[..]), mask.value.span.off,
                                    InPortMask(Read(old(mask.value.mem[..]), mask.value.span)))
    ensures mask.Some? && typ != IN_PORT ==> mask.value.mem[..] == old(mask.value.mem[..])
  {
    hide Patched, InPortMask, ParseTunnelKey;
    if typ == IN_PORT && mask.Some? {
      var m := mask.value;
      ghost var e := InPortMask(m.mem[m.span.off..m.span.off + m.span.len]);
      ReadPatched(m.mem[..], m.span.off, e, if key.Some? && key.value.mem == m.mem then key.value.span else m.span);
      NormaliseMask(m.mem, m.span.off, m.span.len);
    }
    var k, m := None, None;
    if key.Some? {
      k := Some(Read(key.value.mem[..], key.value.span));
    }
    if mask.Some? {
      m := Some(Read(mask.value.mem[..], mask.value.span));
    }
    match KindOf(typ) {
      case BlobKind(wrap, n) => NoMask(); r := ParseBlob(wrap, typ, k, if m.Some? then m.value else [], n);
      case TunnelKind => r := ParseTunnelKey(h, k, m);
      case UnknownKind => r := Ok(Unknown(typ, if k.Some? then k.value else [], m, exact));
    }
  }

  lemma {:induction false} NoMask()
    ensures InPortMask([]) == []
  {
  }

  /** The part of `ParseFlowKeys` that chooses the mask for one type: from the message, or
      from the table. */
  method ChooseMask(table: Table, buf: array<byte>, keys: Spans, masks: Option<Spans>, t: uint16)
    returns (mask: Option<Slice>, exact: bool)
    requires Valid(table) && buf !in Arrays(table) && Layout(buf.Length, keys, masks)
    requires t in keys || (masks.Some? && t in masks.value)
    ensures mask.Some? ==> InBounds(mask.value)
    ensures mask.Some? && mask.value.mem == buf ==> masks.Some? && t in masks.value && mask.value.span == masks.value[t]
    ensures masks.Some? && t in masks.value ==> mask.Some? && mask.value.mem == buf
    ensures mask.Some? && mask.value.mem != buf ==>
      && mask.value.mem in Arrays(table) && mask.value.span == Span(0, mask.value.mem.Length)
      && Some(mask.value.mem[..]) in {ExactMask(t), IgnoreMask(t)}
    ensures forall h: ByteOrder ::
      ParseOne(h, Values(buf[..], keys), MaskValues(buf[..], masks), t)
      == ParseKey(h, t, if t in keys then Some(Read(buf[..], keys[t])) else None,
                  if mask.Some? then Some(Read(mask.value.mem[..], mask.value.span)) else None, exact)
  {
    hide ParseKey, ExactMask, IgnoreMask;
    mask, exact := None, false;
    if t in keys && masks.None? {
      exact := true;
      if t in table.exact {
        var e := table.exact[t];
        assert e in Arrays(table) && e[..][0..e.Length] == e[..];
        mask := Some(Slice(e, Span(0, e.Length)));
      }
    } else if t in masks.value {
      mask := Some(Slice(buf, masks.value[t]));
    } else if t in table.ignore {
      var e := table.ignore[t];
      assert e in Arrays(table) && e[..][0..e.Length] == e[..];
      mask := Some(Slice(e, Span(0, e.Length)));
    }
  }

  /** What `ParseFlowKeys` does about one type.  The table's masks stay as they are. */
  method ParseType(h: ByteOrder, table: Table, buf: array<byte>, keys: Spans, masks: Option<Spans>, t: uint16)
    returns (r: Outcome<FlowKey>)
    requires Valid(table) && buf !in Arrays(table) && Layout(buf.Length, keys, masks)
    requires t in keys || (masks.Some? && t in masks.value)
    modifies buf, Arrays(table)
    ensures Valid(table)
    ensures r == ParseOne(h, Values(old(buf[..]), keys), MaskValues(old(buf[..]), masks), t)
    ensures buf[..] == if t == IN_PORT then ZeroedData(old(buf[..]), masks) else old(buf[..])
  {
    hide Patched, InPortMask, ParseKey, ParseOne, ExactMask, IgnoreMask, Values;
    var key := if t in keys then Some(Slice(buf, keys[t])) else None;
    var mask, exact := ChooseMask(table, buf, keys, masks, t);
    if mask.Some? && mask.value.mem != buf && t == IN_PORT {
      SharedMaskKept(mask.value.mem[..]);
    }
    r := ParseSlice(h, t, key, mask, exact);
    assert forall a :: a in Arrays(table) ==> a[..] == old(a[..]);
  }

  /** Writing to one of the table's in-port masks writes what is there. */
  lemma {:induction false} SharedMaskKept(mask: seq<byte>)
    requires Some(mask) == ExactMask(IN_PORT) || Some(mask) == IgnoreMask(IN_PORT)
    ensures Patched(mask, 0, InPortMask(mask[0..|mask|])) == mask
  {
    SharedMasksKept();
    assert mask[0..|mask|] == mask;
    PatchedAt(mask, 0, mask);
  }

  // ------------------------------------------------------------------------ all keys

  /** The keys and masks of a message that may or may not have been zeroed by now. */
  predicate Along(data: seq<byte>, was: seq<byte>, masks: Option<Spans>)
    requires masks.Some? ==> Inside(masks.value, 0, |was|)
  {
    data == was || data == ZeroedData(was, masks)
  }

  /** The result is the map of the keys that the types in `todo` parse to, with `before` already
      in it, or one of their failures. */
  ghost predicate Outcomes(h: ByteOrder, k: AttrMap, m: Option<AttrMap>, todo: set<uint16>, before: set<uint16>,
                           r: Outcome<FlowKeys>) {
    && (r.Ok? <==> forall t :: t in todo ==> ParseOne(h, k, m, t).Ok?)
    && (r.Ok? ==> r.value.Keys == before + todo && forall t :: t in r.value ==> ParseOne(h, k, m, t) == Ok(r.value[t]))
    && (!r.Ok? ==> exists t :: t in todo && ParseOne(h, k, m, t) == Fail(r))
  }

  lemma {:induction false} OutcomesJoin(h: ByteOrder, k: AttrMap, m: Option<AttrMap>, x: set<uint16>, y: set<uint16>,
                                        r: Outcome<FlowKeys>, r': Outcome<FlowKeys>)
    requires Outcomes(h, k, m, x, {}, r)
    ensures !r.Ok? ==> Outcomes(h, k, m, x + y, {}, r)
    ensures r.Ok? && Outcomes(h, k, m, y, r.value.Keys, r') ==> Outcomes(h, k, m, x + y, {}, r')
  {
    hide ParseOne;
  }

  lemma {:induction false} OutcomesSoFar(h: ByteOrder, k: AttrMap, m: Option<AttrMap>, x: set<uint16>,
                                         r: Outcome<FlowKeys>)
    requires Outcomes(h, k, m, x, {}, r) && r.Ok?
    ensures forall t :: t in r.value ==> ParseOne(h, k, m, t) == Ok(r.value[t])
  {
    hide ParseOne;
  }

  /** One of the two loops: parses the types in `todo`, in whatever order the map is visited.
      `was` is the buffer before any of it was overwritten. */
  method ParseTypes(h: ByteOrder, table: Table, buf: array<byte>, keys: Spans, masks: Option<Spans>,
                    todo: set<uint16>, done: FlowKeys, ghost was: seq<byte>)
    returns (r: Outcome<FlowKeys>)
    requires Valid(table) && buf !in Arrays(table) && |was| == buf.Length && Layout(buf.Length, keys, masks)
    requires Along(buf[..], was, masks)
    requires forall t :: t in todo ==> t in keys || (masks.Some? && t in masks.value)
    requires forall t :: t in done ==> ParseOne(h, Values(was, keys), MaskValues(was, masks), t) == Ok(done[t])
    modifies buf, Arrays(table)
    ensures Valid(table) && Along(buf[..], was, masks)
    ensures r.Ok? && (IN_PORT in todo || old(buf[..]) == ZeroedData(was, masks)) ==> buf[..] == ZeroedData(was, masks)
    ensures Outcomes(h, Values(was, keys), MaskValues(was, masks), todo, done.Keys, r)
  {
    hide ParseOne, Values, MaskValues, ZeroedData, Valid;
    var rest, res := todo, done;
    ZeroedTwice(was, masks);
    ghost var k, m, z := Values(was, keys), MaskValues(was, masks), ZeroedData(was, masks);
    while rest != {}
      invariant rest <= todo && res.Keys == done.Keys + (todo - rest)
      invariant Valid(table) && Along(buf[..], was, masks)
      invariant (IN_PORT in todo - rest || old(buf[..]) == z) ==> buf[..] == z
      invariant forall t :: t in res ==> ParseOne(h, k, m, t) == Ok(res[t])
      decreases rest
    {
      var t :| t in rest;
      ParsesAnyTime(h, was, keys, masks, t);
      var one := ParseType(h, table, buf, keys, masks, t);
      assert one == ParseOne(h, k, m, t);
      if !one.Ok? {
        r := if one.Panic? then Panic else Error;
        assert t in todo && ParseOne(h, k, m, t) == Fail(r);
        return;
      }
      res := res[t := one.value];
      rest := rest - {t};
      assert res.Keys == done.Keys + (todo - rest);
    }
    r := Ok(res);
    assert forall t :: t in todo ==> t in res;
  }

  /** The loop over the keys and then the one over the masks without a key.  The result is the
      map of the parsed keys if all of them parse, and otherwise one of the failures.  All that
      is ever written are the bytes of the in-port mask, and on success they are zero unless
      they were all ones; the table's masks stay as they are. */
  method ParseFlowKeys(h: ByteOrder, table: Table, buf: array<byte>, keys: Spans, masks: Option<Spans>)
    returns (r: Outcome<FlowKeys>)
    requires Valid(table) && buf !in Arrays(table) && Layout(buf.Length, keys, masks)
    modifies buf, Arrays(table)
    ensures Valid(table) && Along(buf[..], old(buf[..]), masks)
    ensures r.Ok? ==> buf[..] == ZeroedData(old(buf[..]), masks)
    ensures var k, m := Values(old(buf[..]), keys), MaskValues(old(buf[..]), masks);
      Outcomes(h, k, m, Domain(k, m), {}, r)
  {
    hide ParseOne, Valid, Patched, Read, Outcomes;
    ghost var was := buf[..];
    ghost var k, m := Values(was, keys), MaskValues(was, masks);
    ghost var more := if masks.Some? then masks.value.Keys - keys.Keys else {};
    assert Domain(k, m) == keys.Keys + more;
    var none: FlowKeys := map[];
    assert none.Keys == {};
    r := ParseTypes(h, table, buf, keys, masks, keys.Keys, none, was);
    ghost var first := r;
    if r.Ok? && masks.Some? {
      OutcomesSoFar(h, k, m, keys.Keys, r);
      r := ParseTypes(h, table, buf, keys, masks, masks.value.Keys - keys.Keys, r.value, was);
    }
    if masks.Some? {
      OutcomesJoin(h, k, m, keys.Keys, more, first, r);
    } else {
      assert keys.Keys + more == keys.Keys;
    }
  }

  /** Parsing the same attributes again gives the same keys, or fails again. */
  method ParseTwice(h: ByteOrder, table: Table, buf: array<byte>, keys: Spans, masks: Option<Spans>)
    returns (r: Outcome<FlowKeys>, r': Outcome<FlowKeys>)
    requires Valid(table) && buf !in Arrays(table) && Layout(buf.Length, keys, masks)
    modifies buf, Arrays(table)
    ensures Valid(table) && Along(buf[..], old(buf[..]), masks)
    ensures r.Ok? <==> r'.Ok?
    ensures r.Ok? ==> r == r' && buf[..] == ZeroedData(old(buf[..]), masks)
  {
    hide ParseOne, Valid, ZeroedData, Values;
    ghost var was := buf[..];
    r := ParseFlowKeys(h, table, buf, keys, masks);
    ghost var mid := buf[..];
    r' := ParseFlowKeys(h, table, buf, keys, masks);
    ZeroedTwice(was, masks);
    SameDomain(was, keys, masks);
    forall t: uint16
      ensures ParseOne(h, Values(mid, keys), MaskValues(mid, masks), t)
           == ParseOne(h, Values(was, keys), MaskValues(was, masks), t)
    {
      ParsesAnyTime(h, was, keys, masks, t);
    }
    if r.Ok? {
      assert r.value.Keys == r'.value.Keys;
      assert forall t :: t in r.value ==> Ok(r.value[t]) == Ok(r'.value[t]);
      assert r.value == r'.value;
    }
  }

  lemma {:induction false} SameDomain(data: seq<byte>, keys: Spans, masks: Option<Spans>)
    requires Layout(|data|, keys, masks)
    ensures var z := ZeroedData(data, masks);
      Domain(Values(z, keys), MaskValues(z, masks)) == Domain(Values(data, keys), MaskValues(data, masks))
  {
    hide Patched, InPortMask, Read;
  }

  // --------------------------------------------------------------------- whole flows

  lemma {:induction false} PatchedWithin(all: seq<byte>, m: Span, off: nat, e: seq<byte>)
    requires m.off + m.len <= |all| && off + |e| <= m.len
    ensures Read(Patched(all, m.off + off, e), m) == Patched(Read(all, m), off, e)
  {
    hide Patched;
    PatchedAt(all, m.off + off, e);
    PatchedAt(Read(all, m), off, e);
  }

  /** The mask attribute of a flow, after the in-port mask in it was zeroed, parses to the same
      masks but for that one, and the other attributes are as before. */
  lemma {:induction false} ZeroedNested(h: ByteOrder, was: seq<byte>, attrs: Spans, ms: Spans, which: map<uint16, nat>)
    requires Inside(attrs, 0, |was|) && AllApart(attrs) && FLOW_MASK in attrs
    requires var m := attrs[FLOW_MASK];
      Inside(ms, m.off, m.off + m.len) && Located(ms, which, ParseAttrs(h, Read(was, m), 0).attrs, m.off, 0)
    requires ParseNested(h, Read(was, attrs[FLOW_MASK])) == Ok(Values(was, ms))
    ensures var z := ZeroedData(was, Some(ms)); var mask' := Read(z, attrs[FLOW_MASK]);
      && Values(z, attrs) == Values(was, attrs)[FLOW_MASK := mask']
      && ParseNested(h, mask') == Ok(Zeroed(Values(was, ms)))
  {
    hide Patched, Read, InPortMask, ParseAttrs, ToMap, ValueStart;
    var m, z := attrs[FLOW_MASK], ZeroedData(was, Some(ms));
    if IN_PORT in ms {
      var a := ParseAttrs(h, Read(was, m), 0).attrs;
      var j, s := which[IN_PORT], ms[IN_PORT];
      ToMapLast(a, j);
      assert Lookup(Values(was, ms), IN_PORT) == Some(Read(was, s));
      var e := InPortMask(Read(was, s));
      MasksAgain(h, Read(was, m), j);
      PatchedWithin(was, m, ValueStart(a, 0, j), e);
      forall t | t in attrs && t != FLOW_MASK ensures Read(z, attrs[t]) == Read(was, attrs[t]) {
        assert Apart(attrs[t], m);
        ReadPatched(was, s.off, e, attrs[t]);
      }
    }
    assert Values(z, attrs) == Values(was, attrs)[FLOW_MASK := Read(z, m)];
  }

  /** What the overwritten buffer parses to. */
  ghost predicate SameKeys(h: ByteOrder, attrs: AttrMap, attrs': AttrMap) {
    && attrs.Keys == attrs'.Keys && (forall t :: t in attrs && t != FLOW_MASK ==> attrs[t] == attrs'[t])
    && forall keys :: KeysParse(h, attrs', keys) <==> KeysParse(h, attrs, keys)
  }

  lemma {:induction false} ZeroedSame(h: ByteOrder, was: seq<byte>, attrs: Spans, ms: Spans, which: map<uint16, nat>)
    requires Inside(attrs, 0, |was|) && AllApart(attrs) && FLOW_MASK in attrs
    requires var m := attrs[FLOW_MASK];
      Inside(ms, m.off, m.off + m.len) && Located(ms, which, ParseAttrs(h, Read(was, m), 0).attrs, m.off, 0)
    requires ParseNested(h, Read(was, attrs[FLOW_MASK])) == Ok(Values(was, ms))
    ensures SameKeys(h, Values(was, attrs), Values(ZeroedData(was, Some(ms)), attrs))
  {
    hide ParseNested, ParseAttrs, KeysParse, Located, Zeroed, ZeroedData, Read;
    var z := ZeroedData(was, Some(ms));
    var mask' := Read(z, attrs[FLOW_MASK]);
    ZeroedNested(h, was, attrs, ms, which);
    forall keys ensures KeysParse(h, Values(z, attrs), keys) <==> KeysParse(h, Values(was, attrs), keys) {
      KeysAgain(h, Values(was, attrs), mask', keys);
    }
  }

  lemma {:induction false} LayoutInside(n: nat, attrs: Spans, ks: Spans, ms: Spans)
    requires Inside(attrs, 0, n) && AllApart(attrs) && FLOW_KEY in attrs && FLOW_MASK in attrs
    requires Inside(ks, attrs[FLOW_KEY].off, attrs[FLOW_KEY].off + attrs[FLOW_KEY].len)
    requires Inside(ms, attrs[FLOW_MASK].off, attrs[FLOW_MASK].off + attrs[FLOW_MASK].len) && AllApart(ms)
    ensures Layout(n, ks, Some(ms))
  {
    assert Apart(attrs[FLOW_KEY], attrs[FLOW_MASK]);
  }

  function Failed<T, U>(r: Outcome<T>): Outcome<U>
    requires !r.Ok?
  {
    if r.Panic? then Panic else Error
  }

  function StatusOutcome<T>(status: Status): Outcome<T>
    requires status != Complete
  {
    if status == OutOfRange then Panic else Error
  }

  /** `ParseNestedAttrs` of a slice. */
  method TakeNested(h: ByteOrder, buf: array<byte>, s: Span) returns (r: Outcome<Spans>, ghost which: map<uint16, nat>)
    requires s.off + s.len <= buf.Length
    ensures r.Ok? ==> Inside(r.value, s.off, s.off + s.len) && AllApart(r.value)
    ensures r.Ok? ==> ParseNested(h, Read(buf[..], s)) == Ok(Values(buf[..], r.value))
    ensures r.Ok? ==> Located(r.value, which, ParseAttrs(h, Read(buf[..], s), 0).attrs, s.off, 0)
    ensures !r.Ok? ==> ParseNested(h, Read(buf[..], s)) == Failed(r)
  {
    hide ParseAttrs, ToMap, Located, AllApart, Values;
    var res, status;
    res, status, which := TakeSpans(h, buf, s.off, s.off + s.len, 0);
    assert Read(buf[..], s) == buf[s.off..s.off + s.len];
    r := match status case Complete => Ok(res) case Truncated => Error case OutOfRange => Panic;
  }

  /** There is a reason to fail with a panic, or with an error, in the key or mask attributes or
      in one of the keys in them. */
  ghost predicate KeysFailAs(h: ByteOrder, attrs: AttrMap, panic: bool) {
    if FLOW_KEY !in attrs then !panic
    else if !ParseNested(h, attrs[FLOW_KEY]).Ok? then ParseNested(h, attrs[FLOW_KEY]) == Refusal(panic)
    else if FLOW_MASK in attrs && !ParseNested(h, attrs[FLOW_MASK]).Ok? then
      ParseNested(h, attrs[FLOW_MASK]) == Refusal(panic)
    else
      var k := ParseNested(h, attrs[FLOW_KEY]).value;
      var m := if FLOW_MASK in attrs then Some(ParseNested(h, attrs[FLOW_MASK]).value) else None;
      exists t :: t in Domain(k, m) && ParseOne(h, k, m, t) == Refusal(panic)
  }

  /** Parsing yields keys that it may yield, yields some if it may, and fails for a reason. */
  ghost predicate Gives(h: ByteOrder, attrs: AttrMap, r: Outcome<FlowKeys>) {
    && (r.Ok? ==> KeysParse(h, attrs, r.value))
    && ((exists keys :: KeysParse(h, attrs, keys)) ==> r.Ok?)
    && (!r.Ok? ==> KeysFailAs(h, attrs, r.Panic?))
  }

  /** The keys of a flow, whose attributes are at the spans `attrs`.  They parse whenever they
      can, to what they can; and what is left in the buffer parses to the same keys again. */
  method ParseSpecKeys(h: ByteOrder, table: Table, buf: array<byte>, attrs: Spans) returns (r: Outcome<FlowKeys>)
    requires Valid(table) && buf !in Arrays(table) && Inside(attrs, 0, buf.Length) && AllApart(attrs)
    modifies buf, Arrays(table)
    ensures Valid(table)
    ensures SameKeys(h, Values(old(buf[..]), attrs), Values(buf[..], attrs))
    ensures Gives(h, Values(old(buf[..]), attrs), r)
  {
    hide ParseNested, Located, Valid, ZeroedData, Outcomes, SameKeys, Layout, AllApart, Gives, Read, Domain;
    ghost var was := buf[..];
    ghost var a := Values(was, attrs);
    SameKeysSelf(h, a);
    if FLOW_KEY !in attrs {
      NoKeys(h, a);
      return Error;
    }
    var ks, at := TakeNested(h, buf, attrs[FLOW_KEY]);
    if !ks.Ok? {
      NoKeys(h, a);
      return Failed(ks);
    }
    if FLOW_MASK !in attrs {
      LayoutKeys(buf.Length, ks.value);
      r := ParseFlowKeys(h, table, buf, ks.value, None);
      NothingZeroed(was);
      OutcomeParses(h, a, Values(was, ks.value), None, r);
      return;
    }
    var ms, which := TakeNested(h, buf, attrs[FLOW_MASK]);
    if !ms.Ok? {
      NoKeys(h, a);
      return Failed(ms);
    }
    LayoutInside(buf.Length, attrs, ks.value, ms.value);
    ZeroedSame(h, was, attrs, ms.value, which);
    r := ParseFlowKeys(h, table, buf, ks.value, Some(ms.value));
    OutcomeParses(h, a, Values(was, ks.value), Some(Values(was, ms.value)), r);
  }

  lemma {:induction false} SameKeysSelf(h: ByteOrder, attrs: AttrMap)
    ensures SameKeys(h, attrs, attrs)
  {
  }

  lemma {:induction false} LayoutKeys(n: nat, ks: Spans)
    requires Inside(ks, 0, n)
    ensures Layout(n, ks, None)
  {
  }

  lemma {:induction false} NoKeys(h: ByteOrder, attrs: AttrMap)
    ensures FLOW_KEY !in attrs ==> Gives(h, attrs, Error)
    ensures FLOW_KEY in attrs && !ParseNested(h, attrs[FLOW_KEY]).Ok? ==>
      Gives(h, attrs, Failed(ParseNested(h, attrs[FLOW_KEY])))
    ensures (FLOW_KEY in attrs && ParseNested(h, attrs[FLOW_KEY]).Ok?
             && FLOW_MASK in attrs && !ParseNested(h, attrs[FLOW_MASK]).Ok?) ==>
      Gives(h, attrs, Failed(ParseNested(h, attrs[FLOW_MASK])))
  {
    hide ParseNested;
  }

  /** The outcome is that of a flow whose key and mask attributes parse to `k` and `m`. */
  lemma {:induction false} OutcomeParses(h: ByteOrder, attrs: AttrMap, k: AttrMap, m: Option<AttrMap>,
                                         r: Outcome<FlowKeys>)
    requires FLOW_KEY in attrs && ParseNested(h, attrs[FLOW_KEY]) == Ok(k)
    requires m.Some? <==> FLOW_MASK in attrs
    requires m.Some? ==> ParseNested(h, attrs[FLOW_MASK]) == Ok(m.value)
    requires Outcomes(h, k, m, Domain(k, m), {}, r)
    ensures Gives(h, attrs, r)
  {
    hide KeysParse, ParseNested, ParseOne, Domain;
    KeysParseIs(h, attrs, k, m);
  }

  lemma {:induction false} NothingZeroed(data: seq<byte>)
    ensures ZeroedData(data, None) == data
  {
  }

  /** `KeysParse` when it is known what the key and mask attributes parse to. */
  lemma {:induction false} KeysParseIs(h: ByteOrder, attrs: AttrMap, k: AttrMap, m: Option<AttrMap>)
    requires FLOW_KEY in attrs && ParseNested(h, attrs[FLOW_KEY]) == Ok(k)
    requires m.Some? <==> FLOW_MASK in attrs
    requires m.Some? ==> ParseNested(h, attrs[FLOW_MASK]) == Ok(m.value)
    ensures forall keys :: KeysParse(h, attrs, keys) <==>
      keys.Keys == Domain(k, m) && forall t :: t in keys ==> ParseOne(h, k, m, t) == Ok(keys[t])
  {
    hide ParseNested, ParseOne, Domain;
  }

  /** The same for a whole flow, where the actions are looked at only if the keys parse. */
  ghost predicate SpecFailsAs(h: ByteOrder, attrs: AttrMap, panic: bool) {
    || KeysFailAs(h, attrs, panic)
    || (FLOW_ACTIONS !in attrs && !panic)
    || (FLOW_ACTIONS in attrs
        && var p := ParseAttrs(h, attrs[FLOW_ACTIONS], 0);
           || p.status == (if panic then OutOfRange else Truncated)
           || exists i :: 0 <= i < |p.attrs| && ActionResult(h, p.attrs[i], Refusal(panic)))
  }

  /** `parseFlowSpec` succeeds whenever that is possible, with a possible result, and leaves a
      buffer that parses to the same flows again. */
  method ParseFlowSpec(h: ByteOrder, table: Table, buf: array<byte>, attrs: Spans) returns (r: Outcome<FlowSpec>)
    requires Valid(table) && buf !in Arrays(table) && Inside(attrs, 0, buf.Length) && AllApart(attrs)
    modifies buf, Arrays(table)
    ensures Valid(table)
    ensures r.Ok? ==> SpecParses(h, Values(old(buf[..]), attrs), r.value)
    ensures (exists f :: SpecParses(h, Values(old(buf[..]), attrs), f)) ==> r.Ok?
    ensures !r.Ok? ==> SpecFailsAs(h, Values(old(buf[..]), attrs), r.Panic?)
    ensures forall f :: SpecParses(h, Values(buf[..], attrs), f) <==> SpecParses(h, Values(old(buf[..]), attrs), f)
  {
    hide KeysParse, KeysFailAs, ActionResult, ParseAttrs, Unparsable, Valid, Read, SameKeys;
    ghost var was := Values(buf[..], attrs);
    var keys := ParseSpecKeys(h, table, buf, attrs);
    ghost var now := Values(buf[..], attrs);
    SameFlows(h, was, now);
    if !keys.Ok? {
      return Failed(keys);
    }
    if FLOW_ACTIONS !in attrs {
      return Error;
    }
    assert now[FLOW_ACTIONS] == was[FLOW_ACTIONS];
    var p := ParseAttrs(h, Read(buf[..], attrs[FLOW_ACTIONS]), 0);
    if p.status != Complete {
      return StatusOutcome(p.status);
    }
    forall f, i | SpecParses(h, was, f) && 0 <= i < |p.attrs| ensures !Unparsable(h, p.attrs[i]) {
      EachActionParses(h, was, f, i);
    }
    var actions := ParseActions(h, p.attrs);
    if !actions.Ok? {
      return Failed(actions);
    }
    r := Ok(FlowSpec(keys.value, actions.value));
  }

  lemma {:induction false} SameFlows(h: ByteOrder, attrs: AttrMap, attrs': AttrMap)
    requires SameKeys(h, attrs, attrs')
    ensures forall f :: SpecParses(h, attrs', f) <==> SpecParses(h, attrs, f)
    ensures FLOW_ACTIONS in attrs <==> FLOW_ACTIONS in attrs'
    ensures FLOW_ACTIONS in attrs ==> attrs[FLOW_ACTIONS] == attrs'[FLOW_ACTIONS]
  {
    hide KeysParse, ActionResult, ParseAttrs;
    forall f ensures SpecParses(h, attrs', f) <==> SpecParses(h, attrs, f) {
      assert KeysParse(h, attrs', f.keys) <==> KeysParse(h, attrs, f.keys);
      assert ActionsParse(h, attrs', f.actions) <==> ActionsParse(h, attrs, f.actions);
    }
  }
}
