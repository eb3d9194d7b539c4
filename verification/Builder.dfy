/** The message builder: an append-only buffer that grows by reallocation and whose
    attribute headers are written after the attributes' values. */
module Builder {
  import opened Bytes
  import opened Attributes

  const NLMSG_HDRLEN := 16
  const ALIGN_BUFFERS := 8

  /** The netlink message header, section 2.3.2 of RFC 3549. */
  function MsgHeader(h: ByteOrder, len: uint32, typ: uint16, flags: uint16, sn: uint32, pid: uint32): (s: seq<byte>)
    ensures |s| == NLMSG_HDRLEN
  {
    U32(h, len) + U16(h, typ) + U16(h, flags) + U32(h, sn) + U32(h, pid)
  }

  /** The generic netlink header: command, version and two reserved bytes. */
  function GenlHeader(cmd: byte, version: byte): (s: seq<byte>)
    ensures |s| == 4
  {
    [cmd, version, 0, 0]
  }

  /** A finished request: the three headers followed by attributes. */
  function Request(h: ByteOrder, typ: uint16, flags: uint16, sn: uint32,
                   cmd: byte, version: byte, ifindex: uint32, f: seq<Attr>): (s: seq<byte>)
  {
    var body := EncodeForest(h, 24, f);
    MsgHeader(h, (24 + |body|) % 0x1_0000_0000, typ, flags, sn, 0)
      + GenlHeader(cmd, version) + U32(h, ifindex) + body
  }

  /** `s` with the bytes from `pos` on overwritten by `e`. */
  function Patched(s: seq<byte>, pos: nat, e: seq<byte>): (r: seq<byte>)
    requires pos + |e| <= |s|
    ensures |r| == |s|
  {
    s[..pos] + e + s[pos + |e|..]
  }

  lemma {:induction false} PatchHeader(before: seq<byte>, hole: seq<byte>, e: seq<byte>, after: seq<byte>)
    requires |hole| == |e|
    ensures Patched(before + hole + after, |before|, e) == before + e + after
  {
    var s := before + hole + after;
    assert s[..|before|] == before;
    assert s[|before| + |e|..] == after;
  }

  lemma {:induction false} PatchEnd(s: seq<byte>, e: seq<byte>)
    ensures Patched(s + Zeros(|e|), |s|, e) == s + e
  {
    PatchHeader(s, Zeros(|e|), e, []);
    assert s + Zeros(|e|) + [] == s + Zeros(|e|);
  }

  lemma {:induction false} Assoc(a: seq<byte>, b: seq<byte>, c: seq<byte>, d: seq<byte>)
    ensures a + (b + c + d) == a + b + c + d
  {
  }

  /** `MakeAlignedByteSliceCap`: a zeroed allocation at address `addr` and the offset in it
      of an aligned slice that can hold `cap` bytes. */
  method MakeAlignedByteSliceCap(len: nat, cap: nat, addr: nat) returns (mem: array<byte>, off: nat)
    requires len <= cap
    ensures fresh(mem) && forall i :: 0 <= i < mem.Length ==> mem[i] == 0
    ensures (addr + off) % ALIGN_BUFFERS == 0
    ensures off + len <= mem.Length && cap <= mem.Length - off < cap + ALIGN_BUFFERS
  {
    mem := new byte[cap + ALIGN_BUFFERS - 1](_ => 0);
    off := addr % ALIGN_BUFFERS;
    if off != 0 {
      off := ALIGN_BUFFERS - off;
    }
  }

  /** The capacity that `expand` asks for: enough, but at most half as much again. */
  method ExpandedCap(cap: nat, l: nat) returns (c: nat)
    requires cap < l
    ensures l <= c && 2 * c <= 3 * l
    ensures 2 * c >= 3 * cap + 2
    ensures exists k :: k > 0 && c == Grown(cap, k) && forall j :: 0 < j < k ==> Grown(cap, j) < l
  {
    c := (cap + 1) * 3 / 2;
    ghost var k := 1;
    assert Grown(cap, 0) == cap;
    while l > c
      invariant 2 * c <= 3 * l && 2 * c >= 3 * cap + 2
      invariant k > 0 && c == Grown(cap, k) && forall j :: 0 < j < k ==> Grown(cap, j) < l
      decreases l - c
    {
      c := (c + 1) * 3 / 2;
      k := k + 1;
    }
  }

  /** A capacity that has grown `k` times: each time by half, and one more and a half of that. */
  function Grown(cap: nat, k: nat): nat {
    if k == 0 then cap else var c := Grown(cap, k - 1); c + 1 + (c + 1) / 2
  }

  class NlMsgBuilder {
    const host: ByteOrder
    // The slice `buf` is mem[off..off + len]; its capacity reaches to the end of mem.
    var mem: array<byte>
    var off: nat
    var len: nat
    /** Bytes moved by reallocations so far. */
    ghost var copied: nat

    /** The slice is well formed, and the bytes beyond its length are still zero, so that
        extending it exposes zeros. */
    ghost predicate Slice()
      reads this, mem
    {
      off + len <= mem.Length && forall i :: off + len <= i < mem.Length ==> mem[i] == 0
    }

    /** Slack and copying are bounded by what has been written. */
    ghost predicate Valid()
      reads this, mem
    {
      && Slice()
      && 2 * (mem.Length - off) <= 3 * len + 14
      && copied <= 2 * (mem.Length - off)
    }

    ghost function Contents(): (s: seq<byte>)
      requires Slice()
      reads this, mem
      ensures |s| == len
    {
      mem[off..off + len]
    }

    constructor (host: ByteOrder, flags: uint16, typ: uint16)
      ensures Valid() && fresh(mem) && this.host == host
      ensures Contents() == MsgHeader(host, 0, typ, flags, 0, 0)
    {
      var addr: nat := *;
      var m, o := MakeAlignedByteSliceCap(NLMSG_HDRLEN, NLMSG_HDRLEN, addr);
      this.host := host;
      mem, off, len, copied := m, o, NLMSG_HDRLEN, 0;
      new;
      assert Contents() == Zeros(4) + Zeros(4) + Zeros(8);
      var e := U16(host, typ) + U16(host, flags);
      Patch(4, e);
      PatchHeader(Zeros(4), Zeros(4), e, Zeros(8));
      HeaderTemplate(host, typ, flags);
    }

    /** `expand`: moves the contents to an allocation that can hold `l` bytes. */
    method Expand(l: nat)
      requires Slice() && mem.Length - off < l
      modifies this`mem, this`off, this`copied
      ensures Slice() && fresh(mem) && Contents() == old(Contents())
      ensures l <= mem.Length - off && 2 * (mem.Length - off) <= 3 * l + 14
      ensures 2 * (mem.Length - off) >= 3 * old(mem.Length - off) + 2
      ensures copied == old(copied) + len
    {
      var c := ExpandedCap(mem.Length - off, l);
      var addr: nat := *;
      var m, o := MakeAlignedByteSliceCap(len, c, addr);
      forall i | 0 <= i < len {
        m[o + i] := mem[off + i];
      }
      copied := copied + len;
      mem, off := m, o;
    }

    /** The tail shared by Align, Grow and AlignGrow: reslice to length `l`, reallocating
        when the capacity does not suffice. */
    method Extend(l: nat)
      requires Valid() && len <= l
      modifies this`mem, this`off, this`len, this`copied
      ensures Valid() && (mem == old(mem) || fresh(mem))
      ensures len == l && Contents() == old(Contents()) + Zeros(l - old(len))
    {
      if l > mem.Length - off {
        Expand(l);
      }
      len := l;
      assert mem[off..off + l] == mem[off..off + old(len)] + mem[off + old(len)..off + l];
    }

    method Align()
      requires Valid()
      modifies this`mem, this`off, this`len, this`copied
      ensures Valid() && (mem == old(mem) || fresh(mem))
      ensures Contents() == old(Contents()) + Pad(old(len))
    {
      Extend(Bytes.Align(len));
    }

    method Grow(size: nat) returns (pos: nat)
      requires Valid()
      modifies this`mem, this`off, this`len, this`copied
      ensures Valid() && (mem == old(mem) || fresh(mem))
      ensures pos == old(len) && Contents() == old(Contents()) + Zeros(size)
    {
      pos := len;
      Extend(pos + size);
    }

    method AlignGrow(size: nat) returns (pos: nat)
      requires Valid()
      modifies this`mem, this`off, this`len, this`copied
      ensures Valid() && (mem == old(mem) || fresh(mem))
      ensures pos == Bytes.Align(old(len))
      ensures Contents() == old(Contents()) + Pad(old(len)) + Zeros(size)
    {
      pos := Bytes.Align(len);
      Extend(pos + size);
      assert Pad(old(len)) + Zeros(size) == Zeros(pos + size - old(len));
    }

    /** A store through a pointer into the buffer. */
    method Patch(pos: nat, e: seq<byte>)
      requires Valid() && pos + |e| <= len
      modifies mem
      ensures Valid()
      ensures Contents() == Patched(old(Contents()), pos, e)
    {
      forall i | 0 <= i < |e| {
        mem[off + pos + i] := e[i];
      }
    }

    method PutBytes(e: seq<byte>)
      requires Valid()
      modifies this`mem, this`off, this`len, this`copied, mem
      ensures Valid() && (mem == old(mem) || fresh(mem))
      ensures Contents() == old(Contents()) + e
    {
      var pos := Grow(|e|);
      Patch(pos, e);
      PatchEnd(old(Contents()), e);
    }

    /** PutAttr and PutNestedAttrs, with the generator given by the tree `a`: reserve the
        header, let the generator append, and only then write the header, at the same
        position of what may by now be another allocation. */
    method PutAttr(a: Attr)
      requires Valid()
      modifies this`mem, this`off, this`len, this`copied, mem
      ensures Valid() && (mem == old(mem) || fresh(mem))
      ensures Contents() == old(Contents()) + EncodeAttr(host, old(len), a)
      decreases a, 1
    {
      hide EncodeAttr, Value, Header, Zeros, Pad, Bytes.Align, Patched, Slice, Contents;
      ghost var start := Contents() + Pad(len);
      var pos := AlignGrow(ATTR_HDRLEN);
      PutValue(a);
      var header := Header(host, a.typ, len - pos);
      Patch(pos, header);
      PatchHeader(start, Zeros(ATTR_HDRLEN), header, Value(host, a));
      AppendAttr(host, old(Contents()), a);
    }

    /** What the generator of `a` appends, after the header. */
    method PutValue(a: Attr)
      requires Valid() && len % 4 == 0
      modifies this`mem, this`off, this`len, this`copied, mem
      ensures Valid() && (mem == old(mem) || fresh(mem))
      ensures Contents() == old(Contents()) + Value(host, a)
      decreases a, 0
    {
      hide EncodeForest, Zeros, Bytes.Align, Pad, Slice, Contents;
      match a {
        case Leaf(_, val) =>
          PutBytes(val);
        case Nested(_, kids) =>
          PutForest(kids);
          Align();
          NestedValue(host, a, old(len));
      }
    }

    method PutForest(f: seq<Attr>)
      requires Valid()
      modifies this`mem, this`off, this`len, this`copied, mem
      ensures Valid() && (mem == old(mem) || fresh(mem))
      ensures Contents() == old(Contents()) + EncodeForest(host, old(len), f)
      decreases f, 2
    {
      hide EncodeForest, EncodeAttr, Slice, Contents;
      EncodeNone(host, len);
      for i := 0 to |f|
        invariant Valid() && (mem == old(mem) || fresh(mem))
        invariant Contents() == old(Contents()) + EncodeForest(host, old(len), f[..i])
      {
        PutAttr(f[i]);
        EncodeAppend(host, old(len), f[..i], [f[i]]);
        EncodeSingle(host, old(len) + |EncodeForest(host, old(len), f[..i])|, f[i]);
        assert f[..i + 1] == f[..i] + [f[i]];
      }
      assert f[..|f|] == f;
    }

    method PutGenlMsghdr(cmd: byte, version: byte)
      requires Valid()
      modifies this`mem, this`off, this`len, this`copied, mem
      ensures Valid() && (mem == old(mem) || fresh(mem))
      ensures Contents() == old(Contents()) + Pad(old(len)) + GenlHeader(cmd, version)
    {
      var pos := AlignGrow(4);
      Patch(pos, GenlHeader(cmd, version));
      PatchEnd(old(Contents()) + Pad(old(len)), GenlHeader(cmd, version));
    }

    method PutOvsHeader(ifindex: uint32)
      requires Valid()
      modifies this`mem, this`off, this`len, this`copied, mem
      ensures Valid() && (mem == old(mem) || fresh(mem))
      ensures Contents() == old(Contents()) + Pad(old(len)) + U32(host, ifindex)
    {
      var pos := AlignGrow(4);
      Patch(pos, U32(host, ifindex));
      PatchEnd(old(Contents()) + Pad(old(len)), U32(host, ifindex));
    }

    /** Fills in the total length and the next sequence number and gives the buffer away.
        `last` is the process-wide counter before the atomic increment. */
    method Finish(last: uint32) returns (res: seq<byte>, sn: uint32)
      requires Valid() && NLMSG_HDRLEN <= len
      modifies this`mem, this`off, this`len, this`copied, mem
      ensures Valid() && fresh(mem) && Contents() == []
      ensures sn == (last + 1) % 0x1_0000_0000
      ensures res == Patched(Patched(old(Contents()), 0, U32(host, old(len) % 0x1_0000_0000)), 8, U32(host, sn))
      ensures |res| == old(len) && res[..4] == Digits(host, old(len) % 0x1_0000_0000) && res[8..12] == Digits(host, sn)
    {
      hide U32, Digits;
      U32Layout(host, len % 0x1_0000_0000);
      U32Layout(host, (last + 1) % 0x1_0000_0000);
      Patch(0, U32(host, len % 0x1_0000_0000));
      sn := (last + 1) % 0x1_0000_0000;
      Patch(8, U32(host, sn));
      res := mem[off..off + len];
      mem := new byte[0];
      off, len, copied := 0, 0, 0;
    }
  }

  /** What the builder calls that every OVS request begins with put. */
  function RequestStart(h: ByteOrder, typ: uint16, flags: uint16, cmd: byte, version: byte,
                        ifindex: uint32): (s: seq<byte>)
    ensures |s| == 24
  {
    MsgHeader(h, 0, typ, flags, 0, 0) + GenlHeader(cmd, version) + U32(h, ifindex)
  }

  method StartRequest(h: ByteOrder, typ: uint16, flags: uint16, cmd: byte, version: byte, ifindex: uint32)
    returns (b: NlMsgBuilder)
    ensures fresh(b) && fresh(b.mem) && b.Valid() && b.host == h
    ensures b.Contents() == RequestStart(h, typ, flags, cmd, version, ifindex)
  {
    hide MsgHeader, U32, GenlHeader, Pad;
    NoPad();
    b := new NlMsgBuilder(h, flags, typ);
    ghost var hdr := MsgHeader(h, 0, typ, flags, 0, 0);
    b.PutGenlMsghdr(cmd, version);
    assert hdr + [] + GenlHeader(cmd, version) == hdr + GenlHeader(cmd, version);
    b.PutOvsHeader(ifindex);
    assert hdr + GenlHeader(cmd, version) + [] == hdr + GenlHeader(cmd, version);
  }

  /** Filling in the length and the number makes a request of it. */
  lemma {:induction false} FinishedRequest(h: ByteOrder, typ: uint16, flags: uint16, sn: uint32,
                                           cmd: byte, version: byte, ifindex: uint32, f: seq<Attr>)
    ensures var all := RequestStart(h, typ, flags, cmd, version, ifindex) + EncodeForest(h, 24, f);
      Patched(Patched(all, 0, U32(h, |all| % 0x1_0000_0000)), 8, U32(h, sn))
      == Request(h, typ, flags, sn, cmd, version, ifindex, f)
  {
    hide EncodeForest, MsgHeader, Patched, U32, GenlHeader;
    var body := EncodeForest(h, 24, f);
    var len := (24 + |body|) % 0x1_0000_0000;
    Assoc(MsgHeader(h, 0, typ, flags, 0, 0), GenlHeader(cmd, version), U32(h, ifindex), body);
    Assoc(MsgHeader(h, len, typ, flags, sn, 0), GenlHeader(cmd, version), U32(h, ifindex), body);
    FinishedHeader(h, len, typ, flags, sn, GenlHeader(cmd, version) + U32(h, ifindex) + body);
  }

  /** The sequence of builder calls that every OVS request makes. */
  method BuildRequest(h: ByteOrder, last: uint32, typ: uint16, flags: uint16,
                      cmd: byte, version: byte, ifindex: uint32, f: seq<Attr>)
    returns (res: seq<byte>, sn: uint32)
    ensures sn == (last + 1) % 0x1_0000_0000
    ensures res == Request(h, typ, flags, sn, cmd, version, ifindex, f)
  {
    hide EncodeForest, RequestStart, Request, Patched, U32;
    var b := StartRequest(h, typ, flags, cmd, version, ifindex);
    b.PutForest(f);
    res, sn := b.Finish(last);
    FinishedRequest(h, typ, flags, sn, cmd, version, ifindex, f);
  }

  lemma {:induction false} NoPad()
    ensures Pad(16) == [] && Pad(20) == []
  {
  }

  lemma {:induction false} FinishedHeader(h: ByteOrder, len: uint32, typ: uint16, flags: uint16, sn: uint32,
                                          rest: seq<byte>)
    ensures Patched(Patched(MsgHeader(h, 0, typ, flags, 0, 0) + rest, 0, U32(h, len)), 8, U32(h, sn))
         == MsgHeader(h, len, typ, flags, sn, 0) + rest
  {
    hide U32, U16, Patched;
    var mid := U16(h, typ) + U16(h, flags);
    var z := U32(h, 0);
    var tail := z + rest;
    assert MsgHeader(h, 0, typ, flags, 0, 0) + rest == [] + z + (mid + z + tail);
    PatchHeader([], z, U32(h, len), mid + z + tail);
    assert [] + U32(h, len) + (mid + z + tail) == (U32(h, len) + mid) + z + tail;
    PatchHeader(U32(h, len) + mid, z, U32(h, sn), tail);
    assert (U32(h, len) + mid) + U32(h, sn) + tail == MsgHeader(h, len, typ, flags, sn, 0) + rest;
  }

  lemma {:induction false} HeaderTemplate(h: ByteOrder, typ: uint16, flags: uint16)
    ensures Zeros(4) + (U16(h, typ) + U16(h, flags)) + Zeros(8) == MsgHeader(h, 0, typ, flags, 0, 0)
  {
    assert U16(h, 0) == Zeros(2);
    assert U32(h, 0) == Zeros(4);
  }

  lemma {:induction false} AppendAttr(h: ByteOrder, before: seq<byte>, a: Attr)
    ensures before + EncodeAttr(h, |before|, a)
         == before + Pad(|before|) + Header(h, a.typ, ATTR_HDRLEN + |Value(h, a)|) + Value(h, a)
  {
    hide Value, Header, Pad;
    Assoc(before, Pad(|before|), Header(h, a.typ, ATTR_HDRLEN + |Value(h, a)|), Value(h, a));
  }

  /** Padding counted from the start of the message is the padding counted from the start
      of the value, because the value starts at an aligned position. */
  lemma {:induction false} NestedValue(h: ByteOrder, a: Attr, base: nat)
    requires a.Nested? && base % 4 == 0
    ensures Value(h, a) == EncodeForest(h, base, a.kids) + Pad(base + |EncodeForest(h, base, a.kids)|)
  {
    hide EncodeForest, Pad;
    EncodeShift(h, 0, base, a.kids);
    PadShift(|EncodeForest(h, 0, a.kids)|, base + |EncodeForest(h, 0, a.kids)|);
  }

  /** Where everything is in a request, byte by byte. */
  lemma {:induction false} RequestLayout(h: ByteOrder, typ: uint16, flags: uint16, sn: uint32,
                                         cmd: byte, version: byte, ifindex: uint32, f: seq<Attr>)
    ensures var r := Request(h, typ, flags, sn, cmd, version, ifindex, f);
      && |r| >= 24
      && r[0..4] == Digits(h, |r| % 0x1_0000_0000)
      && r[4..6] == U16(h, typ) && r[6..8] == U16(h, flags)
      && r[8..12] == Digits(h, sn) && r[12..16] == [0, 0, 0, 0]
      && r[16..20] == [cmd, version, 0, 0]
      && r[20..24] == Digits(h, ifindex)
      && r[24..] == EncodeForest(h, 24, f)
  {
    hide U32, U16, Digits, EncodeForest;
    var body := EncodeForest(h, 24, f);
    var len := (24 + |body|) % 0x1_0000_0000;
    var a, b, c, d, e := U32(h, len), U16(h, typ), U16(h, flags), U32(h, sn), U32(h, 0);
    assert Request(h, typ, flags, sn, cmd, version, ifindex, f)
        == a + b + c + d + e + GenlHeader(cmd, version) + U32(h, ifindex) + body;
    U32Layout(h, len);
    U32Layout(h, sn);
    U32Layout(h, 0);
    U32Layout(h, ifindex);
    ZeroDigits(h);
  }

  lemma {:induction false} ZeroDigits(h: ByteOrder)
    ensures Digits(h, 0) == [0, 0, 0, 0]
  {
  }
}
