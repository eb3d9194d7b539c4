/** The parser: a cursor over the bytes of a datagram or of one message in it. */
module Parser {
  import opened Bytes
  import opened Attributes
  import opened Builder
  import opened Messages

  /** One turn of the attribute loop at `pos`. */
  lemma {:induction false} ParseTurn(h: ByteOrder, data: seq<byte>, pos: nat)
    ensures var apos := Align(pos); var p := Attributes.ParseAttrs(h, data, pos);
      if |data| <= apos then p == Parsed([], Complete, pos)
      else if apos + ATTR_HDRLEN > |data| || apos + U16At(h, data, apos) > |data| then p == Parsed([], Truncated, apos)
      else
        var len, typ := U16At(h, data, apos), U16At(h, data, apos + 2);
        if len < ATTR_HDRLEN then p == Parsed([], OutOfRange, apos)
        else p == After([RawAttr(typ, data[apos + ATTR_HDRLEN..apos + len])],
          Attributes.ParseAttrs(h, data, apos + len))
  {
    hide U16At, Align;
  }

  class NlMsgParser {
    const host: ByteOrder
    const data: seq<byte>
    var pos: nat

    constructor (host: ByteOrder, data: seq<byte>, pos: nat)
      ensures this.host == host && this.data == data && this.pos == pos
    {
      this.host, this.data, this.pos := host, data, pos;
    }

    method Advance(size: nat) returns (ok: bool)
      modifies this`pos
      ensures ok <==> old(pos) + size <= |data|
      ensures pos == if ok then old(pos) + size else old(pos)
    {
      ok := pos + size <= |data|;
      if ok {
        pos := pos + size;
      }
    }

    /** The cursor stays aligned even when too little data follows. */
    method AlignAdvance(size: nat) returns (at: Option<nat>)
      modifies this`pos
      ensures at == if Align(old(pos)) + size <= |data| then Some(Align(old(pos))) else None
      ensures pos == Align(old(pos)) + if at.Some? then size else 0
    {
      var apos := Align(pos);
      pos := apos;
      var ok := Advance(size);
      at := if ok then Some(apos) else None;
    }

    /** The next message of the datagram, as a parser of its own that starts at the
        message's header and ends with the message. */
    method NextNlMsg() returns (r: Outcome<NlMsgParser?>)
      modifies this`pos
      ensures match NextMsg(host, data, old(pos))
        case NoMore => r == Ok(null) && pos == old(pos)
        case Short => r == Error && pos == old(pos)
        case Message(end, next) =>
          && r.Ok? && r.value != null && fresh(r.value) && pos == next
          && r.value.host == host && r.value.data == data[..end] && r.value.pos == old(pos)
    {
      if |data| <= pos {
        return Ok(null);
      }
      var avail := |data| - pos;
      if avail < NLMSG_HDRLEN {
        return Error;
      }
      var len := U32At(host, data, pos);
      if avail < len {
        return Error;
      }
      var msg := new NlMsgParser(host, data[..pos + len], pos);
      pos := Align(pos + len);
      r := Ok(msg);
    }

    method ExpectNlMsghdr(typ: uint16) returns (r: Outcome<()>)
      modifies this`pos
      ensures r == if |data| <= old(pos) then Panic
                   else if old(pos) + NLMSG_HDRLEN > |data| || U16At(host, data, old(pos) + 4) != typ then Error
                   else Ok(())
      ensures r.Ok? ==> pos == old(pos) + NLMSG_HDRLEN
    {
      if |data| <= pos {
        return Panic;
      }
      var start := pos;
      var ok := Advance(NLMSG_HDRLEN);
      if !ok || U16At(host, data, start + 4) != typ {
        return Error;
      }
      r := Ok(());
    }

    method CheckGenlMsghdr(cmd: int, fallback: int) returns (r: Outcome<byte>)
      modifies this`pos
      ensures var g := Align(old(pos));
        r == if g + 4 > |data| || !Accepts(cmd, fallback, data[g]) then Error else Ok(data[g])
      ensures r.Ok? ==> pos == Align(old(pos)) + 4
    {
      var at := AlignAdvance(4);
      if at.None? {
        return Error;
      }
      var c := data[at.value];
      if cmd >= 0 && c as int != cmd % 256 && (fallback < 0 || c as int != fallback % 256) {
        return Error;
      }
      r := Ok(c);
    }

    method TakeOvsHeader() returns (r: Outcome<uint32>)
      modifies this`pos
      ensures var o := Align(old(pos));
        r == if o + 4 > |data| then Error else Ok(U32At(host, data, o))
      ensures r.Ok? ==> pos == Align(old(pos)) + 4
    {
      var at := AlignAdvance(4);
      if at.None? {
        return Error;
      }
      r := Ok(U32At(host, data, at.value));
    }

    method CheckNlMsgHeaders(family: uint16, cmd: int, fallback: int) returns (r: Outcome<Headers>)
      modifies this`pos
      ensures r == CheckHeaders(host, data, old(pos), family, cmd, fallback)
      ensures r.Ok? ==> pos == r.value.attrs
    {
      var hdr := ExpectNlMsghdr(family);
      if !hdr.Ok? {
        return if hdr.Panic? then Panic else Error;
      }
      var genl := CheckGenlMsghdr(cmd, fallback);
      if !genl.Ok? {
        return Error;
      }
      var ovs := TakeOvsHeader();
      if !ovs.Ok? {
        return Error;
      }
      r := Ok(Headers(genl.value, ovs.value, pos));
    }

    /** The attribute loop.  `attrs` are the calls made to the consumer. */
    method ParseAttrs() returns (attrs: seq<RawAttr>, status: Status)
      modifies this`pos
      ensures Parsed(attrs, status, pos) == Attributes.ParseAttrs(host, data, old(pos))
    {
      hide Attributes.ParseAttrs, U16At, Bytes.Align;
      attrs, status := [], Complete;
      AfterNone(Attributes.ParseAttrs(host, data, pos));
      while true
        invariant Attributes.ParseAttrs(host, data, old(pos)) == After(attrs, Attributes.ParseAttrs(host, data, pos))
        decreases |data| - pos
      {
        var apos := Align(pos);
        ParseTurn(host, data, pos);
        if |data| <= apos {
          return attrs, Complete;
        }
        pos := apos;
        if pos + ATTR_HDRLEN > |data| {
          return attrs, Truncated;
        }
        var len, typ := U16At(host, data, pos), U16At(host, data, pos + 2);
        if pos + len > |data| {
          return attrs, Truncated;
        }
        var valpos := Align(pos + ATTR_HDRLEN);
        if pos + len < valpos {
          return attrs, OutOfRange;
        }
        assert valpos == pos + ATTR_HDRLEN;
        var a := RawAttr(typ, data[valpos..pos + len]);
        pos := pos + len;
        AfterAfter(attrs, [a], Attributes.ParseAttrs(host, data, pos));
        attrs := attrs + [a];
      }
    }

    method TakeAttrs() returns (res: map<uint16, seq<byte>>, status: Status)
      modifies this`pos
      ensures var p := Attributes.ParseAttrs(host, data, old(pos));
        res == ToMap(p.attrs) && status == p.status && pos == p.stop
    {
      var attrs;
      attrs, status := ParseAttrs();
      res := map[];
      for i := 0 to |attrs|
        invariant res == ToMap(attrs[..i])
      {
        res := res[attrs[i].typ := attrs[i].val];
        assert attrs[..i + 1][..i] == attrs[..i];
      }
      assert attrs[..|attrs|] == attrs;
    }
  }
}
