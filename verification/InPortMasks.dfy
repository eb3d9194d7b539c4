/** The one place where parsing writes: an in-port mask other than all ones is zeroed in
    place, in the buffer that all attribute values of the message are slices of. */
module InPortMasks {
  import opened Bytes
  import opened Attributes
  import opened Builder
  import opened Tunnels
  import opened FlowKeys
  import opened Parser

  /** The beginning of `parseInPortFlowKey`, on the mask at `off` in the message buffer. */
  method NormaliseMask(buf: array<byte>, off: nat, n: nat)
    requires off + n <= buf.Length
    modifies buf
    ensures buf[..] == Patched(old(buf[..]), off, InPortMask(old(buf[off..off + n])))
  {
    hide Patched;
    ghost var mask := buf[off..off + n];
    var exact := true;
    for i := 0 to n
      invariant buf[..] == old(buf[..])
      invariant exact <==> forall j :: 0 <= j < i ==> mask[j] == 0xff
    {
      assert buf[off + i] == mask[i];
      if buf[off + i] != 0xff {
        exact := false;
      }
    }
    assert exact <==> AllBytes(mask, 0xff);
    if !exact {
      for i := 0 to n
        invariant forall j :: off <= j < off + i ==> buf[j] == 0
        invariant forall j :: 0 <= j < buf.Length && !(off <= j < off + i) ==> buf[j] == old(buf[j])
      {
        buf[off + i] := 0;
      }
    }
    PatchedIs(old(buf[..]), off, InPortMask(mask), buf[..]);
  }

  lemma {:induction false} PatchedIs(s: seq<byte>, off: nat, e: seq<byte>, r: seq<byte>)
    requires off + |e| <= |s| == |r|
    requires forall j :: 0 <= j < |s| ==> r[j] == if off <= j < off + |e| then e[j - off] else s[j]
    ensures r == Patched(s, off, e)
  {
  }

  /** Where the value of the `i`-th of the attributes parsed from `pos` on starts. */
  function ValueStart(attrs: seq<RawAttr>, pos: nat, i: nat): nat
    requires i < |attrs|
  {
    var start := Align(pos) + ATTR_HDRLEN;
    if i == 0 then start else ValueStart(attrs[1..], start + |attrs[0].val|, i - 1)
  }

  lemma {:induction false} ValueAt(h: ByteOrder, data: seq<byte>, pos: nat, i: nat)
    requires i < |ParseAttrs(h, data, pos).attrs|
    ensures var a := ParseAttrs(h, data, pos).attrs; var r := ValueStart(a, pos, i);
      && Align(pos) + ATTR_HDRLEN <= r && r + |a[i].val| <= |data|
      && (i > 0 ==> Align(pos) + ATTR_HDRLEN + |a[0].val| <= r)
      && data[r..r + |a[i].val|] == a[i].val
    decreases i
  {
    hide ParseAttrs, Align, U16At;
    var a := ParseAttrs(h, data, pos).attrs;
    ParseFirst(h, data, pos);
    ParseTurn(h, data, pos);
    if i > 0 {
      ValueAt(h, data, Align(pos) + ATTR_HDRLEN + |a[0].val|, i - 1);
      assert a[1..][i - 1] == a[i];
    }
  }

  /** Only the bytes from the cursor on matter. */
  lemma {:induction false} SuffixParse(h: ByteOrder, d: seq<byte>, d': seq<byte>, pos: nat)
    requires |d| == |d'| && forall j :: pos <= j < |d| ==> d[j] == d'[j]
    ensures ParseAttrs(h, d, pos) == ParseAttrs(h, d', pos)
    decreases |d| - pos
  {
    hide ParseAttrs, Align;
    ParseTurn(h, d, pos);
    ParseTurn(h, d', pos);
    var apos := Align(pos);
    if apos + ATTR_HDRLEN <= |d| {
      var len := U16At(h, d, apos);
      if ATTR_HDRLEN <= len && apos + len <= |d| {
        SuffixParse(h, d, d', apos + len);
        assert d[apos + ATTR_HDRLEN..apos + len] == d'[apos + ATTR_HDRLEN..apos + len];
      }
    }
  }

  lemma {:induction false} PatchedAt(s: seq<byte>, off: nat, e: seq<byte>)
    requires off + |e| <= |s|
    ensures forall j :: 0 <= j < |s| ==> Patched(s, off, e)[j] == if off <= j < off + |e| then e[j - off] else s[j]
  {
  }

  lemma {:induction false} SliceKept(s: seq<byte>, off: nat, e: seq<byte>, lo: nat, hi: nat)
    requires off + |e| <= |s| && lo <= hi <= off
    ensures Patched(s, off, e)[lo..hi] == s[lo..hi]
  {
    PatchedAt(s, off, e);
  }

  lemma {:induction false} OverwriteFirst(h: ByteOrder, data: seq<byte>, pos: nat, e: seq<byte>)
    requires ParseAttrs(h, data, pos).attrs != [] && |e| == |ParseAttrs(h, data, pos).attrs[0].val|
    ensures var p := ParseAttrs(h, data, pos); var off := Align(pos) + ATTR_HDRLEN;
      && off + |e| <= |data|
      && ParseAttrs(h, Patched(data, off, e), pos) == p.(attrs := p.attrs[0 := RawAttr(p.attrs[0].typ, e)])
  {
    hide ParseAttrs, Align, Patched, U16At;
    ParseFirst(h, data, pos);
    var apos := Align(pos);
    var off := apos + ATTR_HDRLEN;
    var data' := Patched(data, off, e);
    PatchedAt(data, off, e);
    ParseTurn(h, data, pos);
    ParseTurn(h, data', pos);
    SameU16(h, data, data', apos);
    SameU16(h, data, data', apos + 2);
    SuffixParse(h, data, data', off + |e|);
    forall j | 0 <= j < |e| ensures data'[off..off + |e|][j] == e[j] {
      assert data'[off + j] == e[off + j - off];
    }
    assert data'[off..off + |e|] == e;
  }

  /** Overwriting the value of one attribute changes that value and nothing else of what
      parsing yields: values are disjoint from each other and from all headers. */
  lemma {:induction false} OverwriteValue(h: ByteOrder, data: seq<byte>, pos: nat, i: nat, e: seq<byte>)
    requires i < |ParseAttrs(h, data, pos).attrs| && |e| == |ParseAttrs(h, data, pos).attrs[i].val|
    ensures var p := ParseAttrs(h, data, pos); var off := ValueStart(p.attrs, pos, i);
      && off + |e| <= |data|
      && ParseAttrs(h, Patched(data, off, e), pos) == p.(attrs := p.attrs[i := RawAttr(p.attrs[i].typ, e)])
    decreases i
  {
    hide ParseAttrs, Align, Patched, U16At;
    var p := ParseAttrs(h, data, pos);
    var off := ValueStart(p.attrs, pos, i);
    ValueAt(h, data, pos, i);
    if i == 0 {
      OverwriteFirst(h, data, pos, e);
    } else {
      var data' := Patched(data, off, e);
      var apos := Align(pos);
      PatchedAt(data, off, e);
      ParseFirst(h, data, pos);
      ParseTurn(h, data, pos);
      ParseTurn(h, data', pos);
      SameU16(h, data, data', apos);
      SameU16(h, data, data', apos + 2);
      var next := apos + ATTR_HDRLEN + |p.attrs[0].val|;
      OverwriteValue(h, data, next, i - 1, e);
      SliceKept(data, off, e, apos + ATTR_HDRLEN, next);
      assert p.attrs == [p.attrs[0]] + p.attrs[1..];
    }
  }

  lemma {:induction false} SameU16(h: ByteOrder, d: seq<byte>, d': seq<byte>, pos: nat)
    requires pos + 2 <= |d| == |d'| && d[pos] == d'[pos] && d[pos + 1] == d'[pos + 1]
    ensures U16At(h, d, pos) == U16At(h, d', pos)
  {
  }

  /** Zeroing an in-port mask twice is zeroing it once, so parsing the same message again
      gives the same in-port key. */
  lemma {:induction false} InPortAgain(h: ByteOrder, key: Option<seq<byte>>, mask: seq<byte>)
    ensures InPortMask(InPortMask(mask)) == InPortMask(mask)
    ensures ParseKey(h, IN_PORT, key, Some(InPortMask(mask)), false) == ParseKey(h, IN_PORT, key, Some(mask), false)
  {
    if !AllBytes(mask, 0xff) && mask != [] {
      assert Zeros(|mask|)[0] == 0;
    }
  }

  /** The masks in the parser table are shared by all calls; zeroing leaves both as they are. */
  lemma {:induction false} SharedMasksKept()
    ensures InPortMask(ExactMask(IN_PORT).value) == ExactMask(IN_PORT).value
    ensures InPortMask(IgnoreMask(IN_PORT).value) == IgnoreMask(IN_PORT).value
  {
    assert KindOf(IN_PORT) == BlobKind(InPort, 4);
  }

  lemma {:induction false} ToMapReplace(raws: seq<RawAttr>, i: nat, e: seq<byte>, t: uint16)
    requires i < |raws| && t != raws[i].typ
    ensures Lookup(ToMap(raws[i := RawAttr(raws[i].typ, e)]), t) == Lookup(ToMap(raws), t)
    decreases raws
  {
    var n := |raws| - 1;
    var raws' := raws[i := RawAttr(raws[i].typ, e)];
    if i == n {
      assert raws'[..n] == raws[..n];
    } else {
      assert raws'[..n] == raws[..n][i := RawAttr(raws[i].typ, e)];
      ToMapReplace(raws[..n], i, e, t);
    }
  }
}
