/** Framing of messages in a datagram, and the headers in front of a message's attributes. */
module Messages {
  import opened Bytes
  import opened Attributes
  import opened Builder

  // ----------------------------------------------------------------- framing

  /** What `nextNlMsg` finds at a position: nothing left, a truncated message, or a message
      that ends at `end` and after which the cursor moves to `next`. */
  datatype Next = NoMore | Short | Message(end: nat, next: nat)

  function NextMsg(h: ByteOrder, data: seq<byte>, pos: nat): (r: Next)
    ensures r.Message? ==> pos <= r.end <= |data| && r.next == Align(r.end)
  {
    if |data| <= pos then NoMore
    else if |data| - pos < NLMSG_HDRLEN then Short
    else
      var len := U32At(h, data, pos);
      if |data| - pos < len then Short else Message(pos + len, Align(pos + len))
  }

  /** What a receive loop gets out of a datagram: messages, possibly followed by a framing
      error or by a message whose own length does not cover its header, which the header
      checks would read past. */
  datatype Item = Msg(bytes: seq<byte>) | BadFrame | Undersized

  function Items(h: ByteOrder, data: seq<byte>, pos: nat): seq<Item>
    decreases |data| - pos
  {
    match NextMsg(h, data, pos)
    case NoMore => []
    case Short => [BadFrame]
    case Message(end, next) =>
      if end - pos < NLMSG_HDRLEN then [Undersized]
      else [Msg(data[pos..end])] + Items(h, data, next)
  }

  /** A message as a sender finishes it: its header holds its length. */
  predicate Finished(h: ByteOrder, m: seq<byte>) {
    NLMSG_HDRLEN <= |m| < 0x1_0000_0000 && At(m, 0, U32(h, |m|))
  }

  /** Messages one behind the other, each padded to the alignment, except that of the padding
      after the last one no more than `kept` bytes need be there. */
  function Joined(ms: seq<seq<byte>>, kept: nat): seq<byte> {
    if ms == [] then []
    else if |ms| == 1 then ms[0] + KeptPad(|ms[0]|, kept)
    else ms[0] + Pad(|ms[0]|) + Joined(ms[1..], kept)
  }

  function KeptPad(n: nat, kept: nat): (s: seq<byte>)
    ensures |s| <= |Pad(n)|
  {
    if kept < |Pad(n)| then Zeros(kept) else Pad(n)
  }

  function AsItems(ms: seq<seq<byte>>): (r: seq<Item>)
    ensures |r| == |ms| && forall i :: 0 <= i < |ms| ==> r[i] == Msg(ms[i])
  {
    if ms == [] then [] else [Msg(ms[0])] + AsItems(ms[1..])
  }

  lemma {:induction false} AtInner(data: seq<byte>, pos: nat, e: seq<byte>, i: nat, e': seq<byte>)
    requires At(data, pos, e) && At(e, i, e')
    ensures At(data, pos + i, e')
  {
    forall k | 0 <= k < |e'| ensures data[pos + i + k] == e'[k] {
      assert e'[k] == e[i..i + |e'|][k] == e[i + k] == data[pos..pos + |e|][i + k];
    }
  }

  lemma {:induction false} NextFinished(h: ByteOrder, data: seq<byte>, pos: nat, m: seq<byte>)
    requires Finished(h, m) && At(data, pos, m)
    ensures NextMsg(h, data, pos) == Message(pos + |m|, Align(pos + |m|))
    ensures data[pos..pos + |m|] == m
  {
    hide U32, U32At, Align;
    AtInner(data, pos, m, 0, U32(h, |m|));
    U32RoundTrip(h, |m|, data, pos);
  }

  lemma {:induction false} ItemsStep(h: ByteOrder, data: seq<byte>, pos: nat, m: seq<byte>)
    requires Finished(h, m) && At(data, pos, m)
    ensures Items(h, data, pos) == [Msg(m)] + Items(h, data, Align(pos + |m|))
  {
    hide NextMsg, Align, U32;
    NextFinished(h, data, pos, m);
  }

  lemma {:induction false} ItemsAtEnd(h: ByteOrder, data: seq<byte>, pos: nat)
    requires |data| <= pos
    ensures Items(h, data, pos) == []
  {
  }

  /** Finished messages, each padded to the alignment and put one behind the other, come
      out of the framing loop one by one, unchanged and in order, and then nothing,
      whether or not the last one is padded. */
  lemma {:induction false} SplitJoined(h: ByteOrder, before: seq<byte>, ms: seq<seq<byte>>, kept: nat)
    requires |before| % 4 == 0
    requires forall m :: m in ms ==> Finished(h, m)
    ensures Items(h, before + Joined(ms, kept), |before|) == AsItems(ms)
    decreases ms
  {
    hide Items, Pad, KeptPad, Finished, Align;
    var data := before + Joined(ms, kept);
    if ms == [] {
      ItemsAtEnd(h, data, |before|);
    } else {
      var m := ms[0];
      AlignAfter(|before|, |m|);
      var tail := if |ms| == 1 then KeptPad(|m|, kept) else Pad(|m|) + Joined(ms[1..], kept);
      assert data == before + (m + tail);
      assert At(data, |before|, m);
      ItemsStep(h, data, |before|, m);
      if |ms| == 1 {
        ItemsAtEnd(h, data, Align(|before| + |m|));
        assert ms[1..] == [];
      } else {
        var before' := before + (m + Pad(|m|));
        assert data == before' + Joined(ms[1..], kept);
        SplitJoined(h, before', ms[1..], kept);
      }
    }
  }

  lemma {:induction false} AlignAfter(base: nat, n: nat)
    requires base % 4 == 0
    ensures Align(base + n) == base + Align(n) == base + n + |Pad(n)|
    ensures (base + Align(n)) % 4 == 0
  {
  }

  // ----------------------------------------------------------------- headers

  /** What the header checks of an OVS message yield: the command, the datapath index and
      the position of the attributes. */
  datatype Headers = Headers(cmd: byte, ifindex: uint32, attrs: nat)

  /** `checkNlMsgHeaders` at position `pos`.  A negative `cmd` accepts every command and a
      negative `fallback` is no fallback. */
  function CheckHeaders(h: ByteOrder, data: seq<byte>, pos: nat, family: uint16, cmd: int,
                        fallback: int): Outcome<Headers>
  {
    if |data| <= pos then Panic
    else if pos + NLMSG_HDRLEN > |data| then Error
    else if U16At(h, data, pos + 4) != family then Error
    else
      var g := Align(pos + NLMSG_HDRLEN);
      if g + 4 > |data| then Error
      else
        var c := data[g];
        if cmd >= 0 && c as int != cmd % 256 && (fallback < 0 || c as int != fallback % 256) then Error
        else
          var o := Align(g + 4);
          if o + 4 > |data| then Error
          else Ok(Headers(c, U32At(h, data, o), o + 4))
  }

  predicate Accepts(cmd: int, fallback: int, c: byte) {
    cmd < 0 || c as int == cmd % 256 || (fallback >= 0 && c as int == fallback % 256)
  }

  lemma {:induction false} RequestParts(h: ByteOrder, data: seq<byte>, pos: nat, typ: uint16, flags: uint16, sn: uint32,
                     cmd: byte, version: byte, ifindex: uint32, f: seq<Attr>)
    requires At(data, pos, Request(h, typ, flags, sn, cmd, version, ifindex, f))
    ensures var body := EncodeForest(h, 24, f);
      && At(data, pos, U32(h, (24 + |body|) % 0x1_0000_0000))
      && At(data, pos + 4, U16(h, typ))
      && At(data, pos + 16, GenlHeader(cmd, version))
      && At(data, pos + 20, U32(h, ifindex))
      && At(data, pos + 24, body)
      && |Request(h, typ, flags, sn, cmd, version, ifindex, f)| == 24 + |body|
  {
    hide U32, U16, GenlHeader, EncodeForest, At;
    var body := EncodeForest(h, 24, f);
    var len := (24 + |body|) % 0x1_0000_0000;
    var a, b := U32(h, len), U16(h, typ);
    var c, d, e := U16(h, flags), U32(h, sn), U32(h, 0);
    var hd := a + b + c + d + e;
    AtSplit(data, pos, hd + GenlHeader(cmd, version) + U32(h, ifindex), body);
    AtSplit(data, pos, hd + GenlHeader(cmd, version), U32(h, ifindex));
    AtSplit(data, pos, hd, GenlHeader(cmd, version));
    AtSplit(data, pos, a + b + c + d, e);
    AtSplit(data, pos, a + b + c, d);
    AtSplit(data, pos, a + b, c);
    AtSplit(data, pos, a, b);
  }

  /** A built request, wherever in a datagram it lies, is framed as one message; the header
      checks for its family accept it exactly when they accept its command and then yield
      the command, the datapath and the position of its attributes. */
  lemma {:induction false} RequestHeaders(h: ByteOrder, data: seq<byte>, pos: nat, typ: uint16, flags: uint16,
                                          sn: uint32,
                       cmd: byte, version: byte, ifindex: uint32, f: seq<Attr>, want: int, fallback: int)
    requires At(data, pos, Request(h, typ, flags, sn, cmd, version, ifindex, f)) && pos % 4 == 0
    requires 24 + |EncodeForest(h, 24, f)| < 0x1_0000_0000
    ensures var end := pos + 24 + |EncodeForest(h, 24, f)|;
      && NextMsg(h, data, pos) == Message(end, Align(end))
      && CheckHeaders(h, data[..end], pos, typ, want, fallback)
         == if Accepts(want, fallback, cmd) then Ok(Headers(cmd, ifindex, pos + 24)) else Error
  {
    hide U32, U16, U32At, U16At, EncodeForest, Request, Align;
    RequestParts(h, data, pos, typ, flags, sn, cmd, version, ifindex, f);
    var body := EncodeForest(h, 24, f);
    var end := pos + 24 + |body|;
    var msg := data[..end];
    U32RoundTrip(h, 24 + |body|, data, pos);
    AtCut(data, end, pos + 4, U16(h, typ));
    AtCut(data, end, pos + 16, GenlHeader(cmd, version));
    AtCut(data, end, pos + 20, U32(h, ifindex));
    U16RoundTrip(h, typ, msg, pos + 4);
    U32RoundTrip(h, ifindex, msg, pos + 20);
    assert msg[pos + 16] == msg[pos + 16..pos + 20][0] == cmd;
  }

  lemma {:induction false} AtCut(data: seq<byte>, end: nat, pos: nat, e: seq<byte>)
    requires At(data, pos, e) && pos + |e| <= end <= |data|
    ensures At(data[..end], pos, e)
  {
    assert data[..end][pos..pos + |e|] == data[pos..pos + |e|];
  }

  /** Taking the attributes of a built request recovers what was put into it. */
  lemma {:induction false} RequestAttrs(h: ByteOrder, data: seq<byte>, pos: nat, typ: uint16, flags: uint16, sn: uint32,
                     cmd: byte, version: byte, ifindex: uint32, f: seq<Attr>)
    requires At(data, pos, Request(h, typ, flags, sn, cmd, version, ifindex, f)) && pos % 4 == 0
    requires Fits(h, f)
    ensures var end := pos + 24 + |EncodeForest(h, 24, f)|;
      && end <= |data|
      && ParseAttrs(h, data[..end], pos + 24).status == Complete
      && ParseAttrs(h, data[..end], pos + 24).attrs == RawForest(h, f)
      && Recovers(h, f, RawForest(h, f))
  {
    hide EncodeForest, Request, Recovers, Fits, ParseAttrs, U32, U16, GenlHeader;
    RequestParts(h, data, pos, typ, flags, sn, cmd, version, ifindex, f);
    var body := EncodeForest(h, 24, f);
    var end := pos + 24 + |body|;
    EncodeShift(h, 24, pos + 24, f);
    AtCut(data, end, pos + 24, body);
    ParseEncoded(h, data[..end], pos + 24, f);
    ParseAtEnd(h, data[..end]);
    FittingRecovers(h, f);
    assert RawForest(h, f) + [] == RawForest(h, f);
  }

  lemma {:induction false} ParseAtEnd(h: ByteOrder, data: seq<byte>)
    ensures ParseAttrs(h, data, |data|) == Parsed([], Complete, |data|)
  {
  }
}
