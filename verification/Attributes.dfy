/** Netlink attributes: what the builder writes, what the parser reads, and why the
    second undoes the first.

    An attribute is described by the tree of calls that produces it: a leaf is
    `PutSliceAttr` or one of its fixed-size relatives, a nested attribute is
    `PutNestedAttrs` around the calls its generator makes. */
module Attributes {
  import opened Bytes

  datatype Attr =
    | Leaf(typ: uint16, val: seq<byte>)
    | Nested(typ: uint16, kids: seq<Attr>)

  /** An attribute as the parser hands it out: a type and a slice of the message. */
  datatype RawAttr = RawAttr(typ: uint16, val: seq<byte>)

  const ATTR_HDRLEN := 4

  // ---------------------------------------------------------------- encoding

  /** The attribute header; the length is narrowed to 16 bits. */
  function Header(h: ByteOrder, typ: uint16, len: nat): (s: seq<byte>)
    ensures |s| == ATTR_HDRLEN
  {
    U16(h, len % 0x1_0000) + U16(h, typ)
  }

  /** The bytes between an attribute's header and its end.  Trailing padding belongs to
      the value of a nested attribute but not to that of a leaf. */
  function Value(h: ByteOrder, a: Attr): seq<byte>
    decreases a, 0
  {
    match a
    case Leaf(_, val) => val
    case Nested(_, kids) =>
      var e := EncodeForest(h, 0, kids);
      e + Pad(|e|)
  }

  function EncodeAttr(h: ByteOrder, base: nat, a: Attr): seq<byte>
    decreases a, 1
  {
    var v := Value(h, a);
    Pad(base) + Header(h, a.typ, ATTR_HDRLEN + |v|) + v
  }

  /** What putting the attributes `f` appends to a buffer of length `base`. */
  function EncodeForest(h: ByteOrder, base: nat, f: seq<Attr>): seq<byte>
    decreases f, 2
  {
    if f == [] then []
    else
      var e := EncodeAttr(h, base, f[0]);
      e + EncodeForest(h, base + |e|, f[1..])
  }

  /** Every length written into a header fits the 16 bits it is given. */
  predicate Fits(h: ByteOrder, f: seq<Attr>) {
    forall a :: a in f ==> FitsOne(h, a)
  }

  predicate FitsOne(h: ByteOrder, a: Attr) {
    ATTR_HDRLEN + |Value(h, a)| < 0x1_0000
  }

  function Raw(h: ByteOrder, a: Attr): RawAttr {
    RawAttr(a.typ, Value(h, a))
  }

  function RawForest(h: ByteOrder, f: seq<Attr>): (r: seq<RawAttr>)
    ensures |r| == |f| && forall i :: 0 <= i < |f| ==> r[i] == Raw(h, f[i])
  {
    seq(|f|, i requires 0 <= i < |f| => Raw(h, f[i]))
  }

  // ----------------------------------------------------------------- parsing

  /** How the attribute loop ended.  `OutOfRange` is the slice-bounds panic that a
      header length below 4 provokes. */
  datatype Status = Complete | Truncated | OutOfRange

  /** The attributes handed to the consumer before the loop ended, how it ended, and
      where it left the cursor. */
  datatype Parsed = Parsed(attrs: seq<RawAttr>, status: Status, stop: nat)

  function ParseAttrs(h: ByteOrder, data: seq<byte>, pos: nat): Parsed
    decreases |data| - pos
  {
    var apos := Align(pos);
    if |data| <= apos then Parsed([], Complete, pos)
    else if apos + ATTR_HDRLEN > |data| then Parsed([], Truncated, apos)
    else
      var len, typ := U16At(h, data, apos), U16At(h, data, apos + 2);
      if apos + len > |data| then Parsed([], Truncated, apos)
      else if len < ATTR_HDRLEN then Parsed([], OutOfRange, apos)
      else
        var rest := ParseAttrs(h, data, apos + len);
        After([RawAttr(typ, data[apos + ATTR_HDRLEN..apos + len])], rest)
  }

  function After(attrs: seq<RawAttr>, p: Parsed): Parsed {
    p.(attrs := attrs + p.attrs)
  }

  /** `TakeAttrs`: attributes by type, where a later one displaces an earlier one. */
  function ToMap(raws: seq<RawAttr>): map<uint16, seq<byte>> {
    if raws == [] then map[]
    else
      var last := raws[|raws| - 1];
      ToMap(raws[..|raws| - 1])[last.typ := last.val]
  }

  // ------------------------------------------------------ shape of encodings

  lemma {:induction false} EncodeNone(h: ByteOrder, base: nat)
    ensures EncodeForest(h, base, []) == []
  {
  }

  lemma {:induction false} EncodeCons(h: ByteOrder, base: nat, f: seq<Attr>)
    requires f != []
    ensures EncodeForest(h, base, f)
         == EncodeAttr(h, base, f[0]) + EncodeForest(h, base + |EncodeAttr(h, base, f[0])|, f[1..])
  {
  }

  lemma {:induction false} EncodeAppend(h: ByteOrder, base: nat, f: seq<Attr>, g: seq<Attr>)
    ensures EncodeForest(h, base, f + g)
         == EncodeForest(h, base, f) + EncodeForest(h, base + |EncodeForest(h, base, f)|, g)
    decreases f
  {
    hide EncodeForest, EncodeAttr;
    if f == [] {
      assert f + g == g;
      EncodeNone(h, base);
    } else {
      var e := EncodeAttr(h, base, f[0]);
      var ef := EncodeForest(h, base + |e|, f[1..]);
      var eg := EncodeForest(h, base + |e| + |ef|, g);
      assert (f + g)[0] == f[0] && (f + g)[1..] == f[1..] + g;
      EncodeCons(h, base, f + g);
      EncodeCons(h, base, f);
      EncodeAppend(h, base + |e|, f[1..], g);
      assert e + (ef + eg) == (e + ef) + eg;
    }
  }

  lemma {:induction false} EncodeSingle(h: ByteOrder, base: nat, a: Attr)
    ensures EncodeForest(h, base, [a]) == EncodeAttr(h, base, a)
  {
    assert [a][1..] == [];
  }

  lemma {:induction false} PadShift(base: nat, base': nat)
    requires base % 4 == base' % 4
    ensures Pad(base) == Pad(base')
  {
  }

  /** Only the alignment of the buffer position matters.  This is why padding computed
      relative to the whole message, as the builder does, is the padding that a parser
      of a nested value computes relative to the start of that value. */
  lemma {:induction false} EncodeShift(h: ByteOrder, base: nat, base': nat, f: seq<Attr>)
    requires base % 4 == base' % 4
    ensures EncodeForest(h, base, f) == EncodeForest(h, base', f)
    decreases f
  {
    hide Header, Pad;
    if f != [] {
      PadShift(base, base');
      EncodeShift(h, base + |EncodeAttr(h, base, f[0])|, base' + |EncodeAttr(h, base', f[0])|, f[1..]);
    }
  }

  /** An attribute's encoding is no longer than that of the list it is in. */
  lemma {:induction false} EncodeContains(h: ByteOrder, base: nat, f: seq<Attr>, a: Attr)
    requires a in f
    ensures |EncodeForest(h, base, f)| >= ATTR_HDRLEN + |Value(h, a)|
    decreases f
  {
    if a != f[0] {
      EncodeContains(h, base + |EncodeAttr(h, base, f[0])|, f[1..], a);
    }
  }

  /** If a nested attribute's length fits then so do the lengths of its children. */
  lemma {:induction false} FitsInside(h: ByteOrder, typ: uint16, kids: seq<Attr>)
    requires FitsOne(h, Nested(typ, kids))
    ensures Fits(h, kids)
  {
    forall a | a in kids ensures FitsOne(h, a) {
      EncodeContains(h, 0, kids, a);
    }
  }

  // -------------------------------------------------------------- round trip

  /** The bytes of an attribute that sits at `pos` of `data`. */
  lemma {:induction false} HeaderAt(h: ByteOrder, data: seq<byte>, pos: nat, a: Attr)
    requires At(data, pos, EncodeAttr(h, pos, a))
    ensures var apos := Align(pos); var len := ATTR_HDRLEN + |Value(h, a)|;
      && pos + |EncodeAttr(h, pos, a)| == apos + len <= |data|
      && U16At(h, data, apos) == len % 0x1_0000
      && U16At(h, data, apos + 2) == a.typ
      && data[apos + ATTR_HDRLEN..apos + len] == Value(h, a)
  {
    hide U16, U16At;
    var v := Value(h, a);
    var apos, len := Align(pos), ATTR_HDRLEN + |v|;
    var hd := Header(h, a.typ, len);
    AtSplit(data, pos, Pad(pos) + hd, v);
    AtSplit(data, pos, Pad(pos), hd);
    AtSplit(data, apos, U16(h, len % 0x1_0000), U16(h, a.typ));
    U16RoundTrip(h, len % 0x1_0000, data, apos);
    U16RoundTrip(h, a.typ, data, apos + 2);
  }

  /** One turn of the parsing loop over an encoded attribute that fits. */
  lemma {:induction false} ParseStep(h: ByteOrder, data: seq<byte>, pos: nat, a: Attr)
    requires FitsOne(h, a) && At(data, pos, EncodeAttr(h, pos, a))
    ensures ParseAttrs(h, data, pos)
         == After([Raw(h, a)], ParseAttrs(h, data, pos + |EncodeAttr(h, pos, a)|))
  {
    hide U16At, EncodeAttr, Value, Align;
    HeaderAt(h, data, pos, a);
  }

  lemma {:induction false} AfterAfter(x: seq<RawAttr>, y: seq<RawAttr>, p: Parsed)
    ensures After(x, After(y, p)) == After(x + y, p)
  {
    assert x + (y + p.attrs) == (x + y) + p.attrs;
  }

  lemma {:induction false} AfterNone(p: Parsed)
    ensures After([], p) == p
  {
    assert [] + p.attrs == p.attrs;
  }

  lemma {:induction false} RawCons(h: ByteOrder, f: seq<Attr>)
    requires f != []
    ensures RawForest(h, f) == [Raw(h, f[0])] + RawForest(h, f[1..])
  {
  }

  lemma {:induction false} FitsCons(h: ByteOrder, f: seq<Attr>)
    requires f != []
    ensures Fits(h, f) <==> FitsOne(h, f[0]) && Fits(h, f[1..])
  {
    assert f == [f[0]] + f[1..];
  }

  /** Parsing reads a stretch of encoded attributes back one for one and then carries on
      after it, whatever the buffer holds before and behind. */
  lemma {:induction false} ParseEncoded(h: ByteOrder, data: seq<byte>, pos: nat, f: seq<Attr>)
    requires Fits(h, f) && At(data, pos, EncodeForest(h, pos, f))
    ensures ParseAttrs(h, data, pos)
         == After(RawForest(h, f), ParseAttrs(h, data, pos + |EncodeForest(h, pos, f)|))
    decreases f
  {
    hide ParseAttrs, Header, U16, Pad, Raw;
    if f == [] {
      AfterNone(ParseAttrs(h, data, pos));
    } else {
      var e := EncodeAttr(h, pos, f[0]);
      var rest := EncodeForest(h, pos + |e|, f[1..]);
      AtSplit(data, pos, e, rest);
      FitsCons(h, f);
      ParseStep(h, data, pos, f[0]);
      ParseEncoded(h, data, pos + |e|, f[1..]);
      RawCons(h, f);
      AfterAfter([Raw(h, f[0])], RawForest(h, f[1..]), ParseAttrs(h, data, pos + |e| + |rest|));
    }
  }

  /** The value of a nested attribute parses to exactly its children. */
  lemma {:induction false} ParseNestedValue(h: ByteOrder, typ: uint16, kids: seq<Attr>)
    requires FitsOne(h, Nested(typ, kids))
    ensures ParseAttrs(h, Value(h, Nested(typ, kids)), 0).status == Complete
    ensures ParseAttrs(h, Value(h, Nested(typ, kids)), 0).attrs == RawForest(h, kids)
  {
    var data := Value(h, Nested(typ, kids));
    var e := EncodeForest(h, 0, kids);
    AtSplit(data, 0, e, Pad(|e|));
    FitsInside(h, typ, kids);
    ParseEncoded(h, data, 0, kids);
  }

  /** `raw` is the forest `f` again, where the values of nested attributes are parsed
      once more, and so on at every level. */
  predicate Recovers(h: ByteOrder, f: seq<Attr>, raw: seq<RawAttr>)
    decreases f, 1
  {
    |raw| == |f| && forall i :: 0 <= i < |f| ==> RecoversOne(h, f[i], raw[i])
  }

  predicate RecoversOne(h: ByteOrder, a: Attr, raw: RawAttr)
    decreases a, 0
  {
    && raw.typ == a.typ
    && match a
       case Leaf(_, val) => raw.val == val
       case Nested(_, kids) =>
         var p := ParseAttrs(h, raw.val, 0);
         p.status == Complete && Recovers(h, kids, p.attrs)
  }

  lemma {:induction false} FittingRecovers(h: ByteOrder, f: seq<Attr>)
    requires Fits(h, f)
    ensures Recovers(h, f, RawForest(h, f))
    decreases f
  {
    forall i | 0 <= i < |f| ensures RecoversOne(h, f[i], Raw(h, f[i])) {
      match f[i]
      case Leaf(_, _) =>
      case Nested(typ, kids) =>
        assert FitsOne(h, f[i]);
        ParseNestedValue(h, typ, kids);
        FitsInside(h, typ, kids);
        FittingRecovers(h, kids);
    }
  }

  /** The end of the encoding grows with the position it starts from. */
  lemma {:induction false} EndMonotone(h: ByteOrder, p: nat, p': nat, f: seq<Attr>)
    requires Align(p) <= Align(p')
    ensures Align(p + |EncodeForest(h, p, f)|) <= Align(p' + |EncodeForest(h, p', f)|)
    decreases f
  {
    hide Header, Pad;
    if f != [] {
      var e, e' := EncodeAttr(h, p, f[0]), EncodeAttr(h, p', f[0]);
      EndMonotone(h, p + |e|, p' + |e'|, f[1..]);
    }
  }

  lemma {:induction false} AlignMonotone(x: nat, y: nat)
    requires x <= y
    ensures Align(x) <= Align(y)
  {
  }

  lemma {:induction false} AlignSum(a: nat, x: nat, y: nat)
    requires a % 4 == 0 && x <= Align(y)
    ensures Align(a + x) <= Align(a + y)
  {
  }

  lemma {:induction false} EncodeAttrEnd(h: ByteOrder, pos: nat, a: Attr)
    ensures pos + |EncodeAttr(h, pos, a)| == Align(pos) + ATTR_HDRLEN + |Value(h, a)|
  {
  }

  lemma {:induction false} RecoversCons(h: ByteOrder, f: seq<Attr>, raw: seq<RawAttr>)
    requires f != [] && Recovers(h, f, raw)
    ensures raw != [] && RecoversOne(h, f[0], raw[0]) && Recovers(h, f[1..], raw[1..])
  {
    forall i | 0 <= i < |f[1..]| ensures RecoversOne(h, f[1..][i], raw[1..][i]) {
      assert RecoversOne(h, f[i + 1], raw[i + 1]);
    }
  }

  /** The first attribute that parsing hands out, and what is parsed after it. */
  lemma {:induction false} ParseFirst(h: ByteOrder, data: seq<byte>, pos: nat)
    requires ParseAttrs(h, data, pos).attrs != []
    ensures var p := ParseAttrs(h, data, pos); var apos := Align(pos);
      var next := apos + ATTR_HDRLEN + |p.attrs[0].val|;
      && next <= |data|
      && next == apos + U16At(h, data, apos)
      && p == After([p.attrs[0]], ParseAttrs(h, data, next))
      && p.attrs[1..] == ParseAttrs(h, data, next).attrs
  {
  }

  /** Data from which a forest can be recovered is at least as long as its encoding. */
  lemma {:induction false} RecoveredSpan(h: ByteOrder, data: seq<byte>, pos: nat, f: seq<Attr>)
    requires ParseAttrs(h, data, pos).status == Complete
    requires Recovers(h, f, ParseAttrs(h, data, pos).attrs)
    requires pos <= |data|
    ensures Align(|data|) >= Align(pos + |EncodeForest(h, pos, f)|)
    decreases f, 1
  {
    hide ParseAttrs, EncodeForest, EncodeAttr, Recovers, RecoversOne, Align, U16At;
    if f == [] {
      EncodeNone(h, pos);
      AlignMonotone(pos, |data|);
    } else {
      var raw := ParseAttrs(h, data, pos).attrs;
      RecoversCons(h, f, raw);
      var next := Align(pos) + ATTR_HDRLEN + |raw[0].val|;
      ParseFirst(h, data, pos);
      RecoveredValueSpan(h, f[0], raw[0]);
      RecoveredSpan(h, data, next, f[1..]);
      EncodeCons(h, pos, f);
      EncodeAttrEnd(h, pos, f[0]);
      AlignSum(Align(pos) + ATTR_HDRLEN, |Value(h, f[0])|, |raw[0].val|);
      EndMonotone(h, pos + |EncodeAttr(h, pos, f[0])|, next, f[1..]);
    }
  }

  lemma {:induction false} RecoveredValueSpan(h: ByteOrder, a: Attr, raw: RawAttr)
    requires RecoversOne(h, a, raw)
    ensures Align(|raw.val|) >= |Value(h, a)|
    decreases a, 0
  {
    match a
    case Leaf(_, _) =>
    case Nested(_, kids) => RecoveredSpan(h, raw.val, 0, kids);
  }

  /** An attribute whose length does not fit is never read back. */
  lemma {:induction false} OverlongLost(h: ByteOrder, data: seq<byte>, pos: nat, f: seq<Attr>)
    requires At(data, pos, EncodeForest(h, pos, f))
    requires ParseAttrs(h, data, pos).status == Complete
    requires Recovers(h, f, ParseAttrs(h, data, pos).attrs)
    ensures Fits(h, f)
    decreases f
  {
    hide ParseAttrs, EncodeForest, EncodeAttr, Recovers, RecoversOne, Align, U16At;
    if f != [] {
      var e := EncodeAttr(h, pos, f[0]);
      var raw := ParseAttrs(h, data, pos).attrs;
      EncodeCons(h, pos, f);
      AtSplit(data, pos, e, EncodeForest(h, pos + |e|, f[1..]));
      HeaderAt(h, data, pos, f[0]);
      RecoversCons(h, f, raw);
      ParseFirst(h, data, pos);
      RecoveredValueSpan(h, f[0], raw[0]);
      assert FitsOne(h, f[0]);
      OverlongLost(h, data, pos + |e|, f[1..]);
      FitsCons(h, f);
    }
  }

  /** The round trip, exactly: whatever precedes the attributes in the buffer, parsing
      them succeeds and recovers every level of the forest if and only if every length
      the builder narrowed to 16 bits fitted. */
  lemma {:induction false} RoundTrip(h: ByteOrder, before: seq<byte>, f: seq<Attr>)
    ensures var p := ParseAttrs(h, before + EncodeForest(h, |before|, f), |before|);
      (p.status == Complete && Recovers(h, f, p.attrs)) <==> Fits(h, f)
  {
    hide EncodeForest, Recovers, Fits;
    var e := EncodeForest(h, |before|, f);
    var data := before + e;
    assert At(data, |before|, e);
    if Fits(h, f) {
      ParseEncoded(h, data, |before|, f);
      assert ParseAttrs(h, data, |data|) == Parsed([], Complete, |data|);
      FittingRecovers(h, f);
      assert RawForest(h, f) + [] == RawForest(h, f);
    }
    var p := ParseAttrs(h, data, |before|);
    if p.status == Complete && Recovers(h, f, p.attrs) {
      OverlongLost(h, data, |before|, f);
    }
  }

  // ---------------------------------------------------------------- prefixes

  /** Where the first `j` attributes of `f` end. */
  function EndOf(h: ByteOrder, f: seq<Attr>, j: nat): nat
    requires j <= |f|
  {
    |EncodeForest(h, 0, f[..j])|
  }

  /** `k` is the end of the first `j` attributes or in the padding after it. */
  predicate CutAfter(h: ByteOrder, f: seq<Attr>, k: nat, j: nat) {
    j <= |f| && EndOf(h, f, j) <= k <= Align(EndOf(h, f, j))
  }

  lemma {:induction false} EndOfStep(h: ByteOrder, f: seq<Attr>, j: nat)
    requires j < |f|
    ensures EncodeForest(h, 0, f[..j + 1])
         == EncodeForest(h, 0, f[..j]) + EncodeAttr(h, EndOf(h, f, j), f[j])
    ensures EndOf(h, f, j + 1) == Align(EndOf(h, f, j)) + ATTR_HDRLEN + |Value(h, f[j])|
  {
    assert f[..j + 1] == f[..j] + [f[j]];
    EncodeAppend(h, 0, f[..j], [f[j]]);
    EncodeSingle(h, EndOf(h, f, j), f[j]);
  }

  lemma {:induction false} EndOfIncreases(h: ByteOrder, f: seq<Attr>, i: nat, j: nat)
    requires i < j <= |f|
    ensures Align(EndOf(h, f, i)) + ATTR_HDRLEN <= EndOf(h, f, j)
    decreases j
  {
    EndOfStep(h, f, j - 1);
    if i < j - 1 {
      EndOfIncreases(h, f, i, j - 1);
    }
  }

  lemma {:induction false} EncodePrefix(h: ByteOrder, f: seq<Attr>, j: nat)
    requires j <= |f|
    ensures EndOf(h, f, j) <= |EncodeForest(h, 0, f)|
    ensures EncodeForest(h, 0, f)[..EndOf(h, f, j)] == EncodeForest(h, 0, f[..j])
  {
    assert f == f[..j] + f[j..];
    EncodeAppend(h, 0, f[..j], f[j..]);
  }

  /** How many attributes lie wholly in the first `k` bytes. */
  function WholeBefore(h: ByteOrder, f: seq<Attr>, k: nat, j: nat): (r: nat)
    requires j <= |f| && EndOf(h, f, j) <= k
    ensures j <= r <= |f| && EndOf(h, f, r) <= k
    ensures r < |f| ==> EndOf(h, f, r + 1) > k
    decreases |f| - j
  {
    if j < |f| && EndOf(h, f, j + 1) <= k then WholeBefore(h, f, k, j + 1) else j
  }

  /** Parsing a built list cut at any byte `k` never panics and hands out exactly the
      attributes that lie wholly before the cut; it succeeds if and only if the cut is at
      the end of an attribute or in the padding after one. */
  lemma {:induction false} CutList(h: ByteOrder, f: seq<Attr>, k: nat)
    requires Fits(h, f) && k <= |EncodeForest(h, 0, f)|
    ensures var p := ParseAttrs(h, EncodeForest(h, 0, f)[..k], 0);
      && p.attrs == RawForest(h, f[..WholeBefore(h, f, k, 0)])
      && (p.status == Complete <==> exists j :: CutAfter(h, f, k, j))
      && p.status != OutOfRange
  {
    var data := EncodeForest(h, 0, f)[..k];
    var j := WholeBefore(h, f, k, 0);
    CutParse(h, f, k, j);
    if k <= Align(EndOf(h, f, j)) {
      assert CutAfter(h, f, k, j);
    } else {
      CutInside(h, f, k, j);
      forall i: nat ensures !CutAfter(h, f, k, i) {
        NotACut(h, f, k, j, i);
      }
    }
  }

  lemma {:induction false} CutParse(h: ByteOrder, f: seq<Attr>, k: nat, j: nat)
    requires Fits(h, f) && k <= |EncodeForest(h, 0, f)|
    requires j <= |f| && EndOf(h, f, j) <= k
    ensures ParseAttrs(h, EncodeForest(h, 0, f)[..k], 0)
         == After(RawForest(h, f[..j]), ParseAttrs(h, EncodeForest(h, 0, f)[..k], EndOf(h, f, j)))
  {
    hide ParseAttrs, EncodeForest;
    EncodePrefix(h, f, j);
    var all, end := EncodeForest(h, 0, f), EndOf(h, f, j);
    assert all[..k][0..0 + end] == all[..end];
    assert Fits(h, f[..j]);
    ParseEncoded(h, all[..k], 0, f[..j]);
  }

  lemma {:induction false} NotACut(h: ByteOrder, f: seq<Attr>, k: nat, j: nat, i: nat)
    requires j <= |f| && Align(EndOf(h, f, j)) < k
    requires j < |f| ==> k < EndOf(h, f, j + 1)
    ensures !CutAfter(h, f, k, i)
  {
    if i < j {
      EndOfIncreases(h, f, i, j);
    } else if j + 1 < i <= |f| {
      EndOfIncreases(h, f, j + 1, i);
    }
  }

  lemma {:induction false} CutInside(h: ByteOrder, f: seq<Attr>, k: nat, j: nat)
    requires Fits(h, f) && k <= |EncodeForest(h, 0, f)|
    requires j <= |f| && Align(EndOf(h, f, j)) < k
    requires j < |f| ==> k < EndOf(h, f, j + 1)
    ensures var p := ParseAttrs(h, EncodeForest(h, 0, f)[..k], EndOf(h, f, j));
      p.attrs == [] && p.status == Truncated
  {
    hide ParseAttrs, EncodeForest, EncodeAttr;
    assert f[..|f|] == f;
    var all, end := EncodeForest(h, 0, f), EndOf(h, f, j);
    var e := EncodeAttr(h, end, f[j]);
    EndOfStep(h, f, j);
    EncodePrefix(h, f, j + 1);
    assert all == EncodeForest(h, 0, f[..j + 1]) + all[EndOf(h, f, j + 1)..];
    AtSplit(all, 0, EncodeForest(h, 0, f[..j]), e);
    HeaderAt(h, all, end, f[j]);
    assert FitsOne(h, f[j]);
    TruncatedAt(h, all, k, end);
  }

  /** Data that ends before the attribute at `pos` does is reported as truncated. */
  lemma {:induction false} TruncatedAt(h: ByteOrder, all: seq<byte>, k: nat, pos: nat)
    requires Align(pos) < k <= |all| && Align(pos) + ATTR_HDRLEN <= |all|
    requires k < Align(pos) + U16At(h, all, Align(pos))
    ensures ParseAttrs(h, all[..k], pos) == Parsed([], Truncated, Align(pos))
  {
    var apos := Align(pos);
    if apos + ATTR_HDRLEN <= k {
      assert all[..k][apos] == all[apos] && all[..k][apos + 1] == all[apos + 1];
    }
  }

  // ------------------------------------------------------- attributes by type

  type AttrMap = map<uint16, seq<byte>>

  /** `ParseNestedAttrs`. */
  function ParseNested(h: ByteOrder, data: seq<byte>): Outcome<AttrMap> {
    var p := ParseAttrs(h, data, 0);
    match p.status
    case Complete => Ok(ToMap(p.attrs))
    case Truncated => Error
    case OutOfRange => Panic
  }

  /** The map that parsing an encoding of `f` gives. */
  function MapOf(h: ByteOrder, f: seq<Attr>): AttrMap {
    ToMap(RawForest(h, f))
  }

  lemma {:induction false} ParseNestedMap(h: ByteOrder, typ: uint16, kids: seq<Attr>)
    requires FitsOne(h, Nested(typ, kids))
    ensures ParseNested(h, Value(h, Nested(typ, kids))) == Ok(MapOf(h, kids))
  {
    hide ParseAttrs, Value, ToMap;
    ParseNestedValue(h, typ, kids);
  }

  lemma {:induction false} ToMapAppend(x: seq<RawAttr>, y: seq<RawAttr>)
    ensures ToMap(x + y) == ToMap(x) + ToMap(y)
    decreases y
  {
    if y == [] {
      assert x + y == x;
      assert ToMap(x) + map[] == ToMap(x);
    } else {
      var n := |y| - 1;
      assert (x + y)[..|x + y| - 1] == x + y[..n];
      ToMapAppend(x, y[..n]);
    }
  }

  lemma {:induction false} MapAppend(h: ByteOrder, f: seq<Attr>, g: seq<Attr>)
    ensures MapOf(h, f + g) == MapOf(h, f) + MapOf(h, g)
  {
    assert RawForest(h, f + g) == RawForest(h, f) + RawForest(h, g);
    ToMapAppend(RawForest(h, f), RawForest(h, g));
  }

  lemma {:induction false} MapSingle(h: ByteOrder, a: Attr)
    ensures MapOf(h, [a]) == map[a.typ := Value(h, a)]
    ensures MapOf(h, []) == map[]
  {
    var r := RawForest(h, [a]);
    assert r == [Raw(h, a)] && r[..|r| - 1] == [];
    assert ToMap([]) == map[];
    assert RawForest(h, []) == [];
  }
}
