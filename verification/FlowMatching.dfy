/** Which packets a set of flow keys selects, and what that has to do with `Equals`. */
module FlowMatching {
  import opened Bytes
  import opened FlowKeys
  import Attributes
  import FlowKeyCodec

  /** A packet, as far as blob-shaped keys can see it: a value for every type of the table. */
  type Packet = map<uint16, seq<byte>>

  ghost predicate IsPacket(p: Packet) {
    forall t: uint16 :: KindOf(t).BlobKind? ==> t in p && |p[t]| == KindOf(t).size
  }

  /** Every bit that the mask selects agrees with the key. */
  predicate BlobMatches(k: FlowKey, v: seq<byte>)
    requires k.Blob?
  {
    && |v| == |KeyPart(k.keyMask)| == |MaskPart(k.keyMask)|
    && forall i :: 0 <= i < |v| ==> Agree(v[i], KeyPart(k.keyMask)[i], MaskPart(k.keyMask)[i])
  }

  /** Well-formed keys, all of them blob-shaped. */
  predicate BlobKeys(fks: FlowKeys) {
    forall t :: t in fks ==> KindOf(t).BlobKind? && WellFormedKey(t, fks[t])
  }

  predicate Matches(fks: FlowKeys, p: Packet) {
    forall t :: t in fks ==> fks[t].Blob? && t in p && BlobMatches(fks[t], p[t])
  }

  ghost predicate SamePackets(a: FlowKeys, b: FlowKeys) {
    forall p: Packet :: IsPacket(p) ==> (Matches(a, p) <==> Matches(b, p))
  }

  // ---------------------------------------------------------------- single bytes

  lemma {:induction false} AgreeTransfer(p: byte, k: byte, k': byte, m: byte)
    requires Agree(k, k', m)
    ensures Agree(p, k, m) <==> Agree(p, k', m)
  {
    hide Bits, BitsAgree;
    BitsTransfer(Bits(p), Bits(k), Bits(k'), Bits(m));
  }

  lemma {:induction false} BitsTransfer(p: bv8, k: bv8, k': bv8, m: bv8)
    requires BitsAgree(k, k', m)
    ensures BitsAgree(p, k, m) <==> BitsAgree(p, k', m)
  {
    WordTransfer(p, k, k', m);
  }

  lemma {:induction false} WordTransfer(p: bv8, k: bv8, k': bv8, m: bv8)
    requires (k ^ k') & m == 0
    ensures (p ^ k) & m == 0 <==> (p ^ k') & m == 0
  {
  }

  function ByteOf(x: bv8): byte {
    x as byte
  }

  lemma {:induction false} BitsOfByte(x: bv8)
    ensures Bits(ByteOf(x)) == x
  {
  }

  /** A byte that `(k, m)` accepts although it differs from `k` in every unmasked bit. */
  function Probe(k: byte, m: byte): byte {
    ByteOf(Bits(k) ^ !Bits(m))
  }

  lemma {:induction false} BitsProbe(k: bv8, m: bv8, k': bv8, m': bv8)
    requires ((k ^ !m) ^ k') & m' == 0 && (k ^ k') & m' == 0
    requires ((k' ^ !m') ^ k) & m == 0 && (k' ^ k) & m == 0
    ensures m == m'
  {
  }

  lemma {:induction false} BitsProbeSelf(k: bv8, m: bv8)
    ensures ((k ^ !m) ^ k) & m == 0
  {
  }

  lemma {:induction false} ProbeBits(k: byte, m: byte)
    ensures Bits(Probe(k, m)) == Bits(k) ^ !Bits(m)
    ensures Agree(Probe(k, m), k, m)
  {
    hide Bits, ByteOf;
    BitsOfByte(Bits(k) ^ !Bits(m));
    BitsProbeSelf(Bits(k), Bits(m));
  }

  lemma {:induction false} BitsRoundTrip(b: byte)
    ensures (b as bv8) as byte == b
  {
  }

  lemma {:induction false} BitsInjective(a: byte, b: byte)
    requires a as bv8 == b as bv8
    ensures a == b
  {
    BitsRoundTrip(a);
    BitsRoundTrip(b);
  }

  lemma {:induction false} MaskInjective(m: byte, m': byte)
    requires Bits(m) == Bits(m')
    ensures m == m'
  {
    BitsInjective(m, m');
  }

  /** Two masked bytes that accept the same values have the same mask and agree under it. */
  lemma {:induction false} SameBytes(k: byte, m: byte, k': byte, m': byte)
    requires forall v: byte :: Agree(v, k, m) <==> Agree(v, k', m')
    ensures m == m' && Agree(k, k', m)
  {
    hide Bits, Probe;
    FlowKeyCodec.AgreeSelf(k, m);
    FlowKeyCodec.AgreeSelf(k', m');
    assert Agree(k, k', m') && Agree(k', k, m);
    ProbeBits(k, m);
    ProbeBits(k', m');
    assert Agree(Probe(k, m), k', m') && Agree(Probe(k', m'), k, m);
    BitsProbe(Bits(k), Bits(m), Bits(k'), Bits(m'));
    MaskInjective(m, m');
  }

  /** A masked byte that accepts every value has an empty mask. */
  lemma {:induction false} AcceptsAll(k: byte, m: byte)
    requires forall v: byte :: Agree(v, k, m)
    ensures m == 0
  {
    forall v: byte ensures Agree(v, k, m) <==> Agree(v, k, 0) {
      ZeroMask(v, k);
    }
    SameBytes(k, m, k, 0);
  }

  lemma {:induction false} ZeroMask(v: byte, k: byte)
    ensures Agree(v, k, 0)
  {
    assert Bits(0) == 0;
  }

  // ---------------------------------------------------------------- single keys

  predicate SizedBlob(k: FlowKey, n: nat) {
    k.Blob? && |k.keyMask| == 2 * n
  }

  ghost predicate SameValues(a: FlowKey, b: FlowKey, n: nat)
    requires SizedBlob(a, n) && SizedBlob(b, n)
  {
    forall v: seq<byte> :: |v| == n ==> (BlobMatches(a, v) <==> BlobMatches(b, v))
  }

  lemma {:induction false} MatchesSelf(k: FlowKey, n: nat)
    requires SizedBlob(k, n)
    ensures BlobMatches(k, KeyPart(k.keyMask))
  {
    hide Agree;
    forall i | 0 <= i < n ensures Agree(KeyPart(k.keyMask)[i], KeyPart(k.keyMask)[i], MaskPart(k.keyMask)[i]) {
      FlowKeyCodec.AgreeSelf(KeyPart(k.keyMask)[i], MaskPart(k.keyMask)[i]);
    }
  }

  /** Changing one byte of an accepted value decides by that byte alone. */
  lemma {:induction false} MatchesAt(k: FlowKey, n: nat, v: seq<byte>, i: nat, x: byte)
    requires SizedBlob(k, n) && BlobMatches(k, v) && i < n
    ensures BlobMatches(k, v[i := x]) <==> Agree(x, KeyPart(k.keyMask)[i], MaskPart(k.keyMask)[i])
  {
    hide Agree;
    var w := v[i := x];
    assert w[i] == x;
    forall j | 0 <= j < n && j != i ensures Agree(w[j], KeyPart(k.keyMask)[j], MaskPart(k.keyMask)[j]) {
      assert w[j] == v[j];
    }
  }

  /** `Equals` on two blob keys of one type says that they accept the same values. */
  lemma {:induction false} KeyEqualsIffSame(a: FlowKey, b: FlowKey, n: nat)
    requires SizedBlob(a, n) && SizedBlob(b, n) && a.typ == b.typ
    ensures KeyEquals(a, b) <==> SameValues(a, b, n)
  {
    hide KeyEquals, SameValues;
    if KeyEquals(a, b) {
      EqualKeysMatch(a, b, n);
    }
    if SameValues(a, b, n) {
      SameValuesEqual(a, b, n);
    }
  }

  lemma {:induction false} EqualKeysMatch(a: FlowKey, b: FlowKey, n: nat)
    requires SizedBlob(a, n) && SizedBlob(b, n) && KeyEquals(a, b)
    ensures SameValues(a, b, n)
  {
    hide Agree;
    forall v: seq<byte> | |v| == n ensures BlobMatches(a, v) <==> BlobMatches(b, v) {
      forall i | 0 <= i < n
        ensures Agree(v[i], KeyPart(a.keyMask)[i], MaskPart(a.keyMask)[i])
           <==> Agree(v[i], KeyPart(b.keyMask)[i], MaskPart(b.keyMask)[i])
      {
        AgreeTransfer(v[i], a.keyMask[i], b.keyMask[i], MaskPart(a.keyMask)[i]);
      }
    }
  }

  lemma {:induction false} SameValuesEqual(a: FlowKey, b: FlowKey, n: nat)
    requires SizedBlob(a, n) && SizedBlob(b, n) && SameValues(a, b, n) && a.typ == b.typ
    ensures KeyEquals(a, b)
  {
    hide Agree, BlobMatches;
    var v := KeyPart(a.keyMask);
    MatchesSelf(a, n);
    assert BlobMatches(b, v);
    forall i | 0 <= i < n
      ensures MaskPart(a.keyMask)[i] == MaskPart(b.keyMask)[i]
      ensures Agree(KeyPart(a.keyMask)[i], KeyPart(b.keyMask)[i], MaskPart(a.keyMask)[i])
    {
      var k, m := KeyPart(a.keyMask)[i], MaskPart(a.keyMask)[i];
      var k', m' := KeyPart(b.keyMask)[i], MaskPart(b.keyMask)[i];
      forall x: byte ensures Agree(x, k, m) <==> Agree(x, k', m') {
        MatchesAt(a, n, v, i, x);
        MatchesAt(b, n, v, i, x);
        assert |v[i := x]| == n;
      }
      SameBytes(k, m, k', m');
    }
  }

  /** A blob key accepts every value exactly when its mask is empty. */
  lemma {:induction false} AcceptsAllIffZero(k: FlowKey, n: nat)
    requires SizedBlob(k, n)
    ensures (forall v: seq<byte> :: |v| == n ==> BlobMatches(k, v)) <==> AllBytes(MaskPart(k.keyMask), 0)
  {
    hide Agree;
    if AllBytes(MaskPart(k.keyMask), 0) {
      forall v: seq<byte> | |v| == n ensures BlobMatches(k, v) {
        forall i | 0 <= i < n ensures Agree(v[i], KeyPart(k.keyMask)[i], 0) {
          ZeroMask(v[i], KeyPart(k.keyMask)[i]);
        }
      }
    }
    if forall v: seq<byte> :: |v| == n ==> BlobMatches(k, v) {
      AcceptingMaskZero(k, n);
    }
  }

  lemma {:induction false} AcceptingMaskZero(k: FlowKey, n: nat)
    requires SizedBlob(k, n) && forall v: seq<byte> :: |v| == n ==> BlobMatches(k, v)
    ensures AllBytes(MaskPart(k.keyMask), 0)
  {
    hide Agree, BlobMatches;
    var v := KeyPart(k.keyMask);
    forall i | 0 <= i < n ensures MaskPart(k.keyMask)[i] == 0 {
      forall x: byte ensures Agree(x, KeyPart(k.keyMask)[i], MaskPart(k.keyMask)[i]) {
        assert |v[i := x]| == n;
        MatchesAt(k, n, v, i, x);
      }
      AcceptsAll(KeyPart(k.keyMask)[i], MaskPart(k.keyMask)[i]);
    }
  }

  // ------------------------------------------------------------------------ sets

  /** A packet that `fks` selects: it carries the keys themselves. */
  function Exemplar(fks: FlowKeys): Packet {
    map t: uint16 | t in TableTypes() ::
      if t in fks && fks[t].Blob? then KeyPart(fks[t].keyMask)
      else if KindOf(t).BlobKind? then Zeros(KindOf(t).size) else []
  }

  function TableTypes(): (s: set<uint16>)
    ensures forall t: uint16 :: KindOf(t).BlobKind? ==> t in s
  {
    {2, 3, 4, 6, 7, 8, 9, 10, 11, 12, 13, 14, 15, 18, 19, 20}
  }

  lemma {:induction false} ExemplarMatches(fks: FlowKeys)
    requires BlobKeys(fks)
    ensures IsPacket(Exemplar(fks)) && Matches(fks, Exemplar(fks))
  {
    hide BlobMatches, KindOf;
    forall t: uint16 | KindOf(t).BlobKind?
      ensures t in Exemplar(fks) && |Exemplar(fks)[t]| == KindOf(t).size
    {
    }
    forall t | t in fks ensures BlobMatches(fks[t], KeyPart(fks[t].keyMask)) {
      MatchesSelf(fks[t], KindOf(t).size);
    }
  }

  /** Replacing one field of a selected packet decides by the key for that field alone. */
  lemma {:induction false} MatchesField(fks: FlowKeys, p: Packet, t: uint16, v: seq<byte>)
    requires BlobKeys(fks) && Matches(fks, p)
    ensures Matches(fks, p[t := v]) <==> t !in fks || BlobMatches(fks[t], v)
  {
    hide BlobMatches, KindOf, WellFormedKey;
    var q := p[t := v];
    forall u | u in fks && u != t ensures q[u] == p[u] {
    }
    if t in fks {
      assert q[t] == v;
    }
  }

  lemma {:induction false} PacketField(p: Packet, t: uint16, v: seq<byte>)
    requires IsPacket(p) && KindOf(t).BlobKind? && |v| == KindOf(t).size
    ensures IsPacket(p[t := v])
  {
    hide KindOf;
  }

  /** `FlowKeys.Equals` on sets of blob-shaped keys, exactly: the two sets agree on whether
      there is an ethernet key, and they select the same packets.  Keys that are absent and
      keys with an empty mask may be mixed. */
  lemma {:induction false} EqualsIffSamePackets(a: FlowKeys, b: FlowKeys)
    requires BlobKeys(a) && BlobKeys(b)
    ensures Equals(a, b) <==> (ETHERNET in a <==> ETHERNET in b) && SamePackets(a, b)
  {
    hide Equals, SamePackets;
    if Equals(a, b) {
      EqualsAgree(a, b);
      EqualsSelect(a, b);
    }
    if (ETHERNET in a <==> ETHERNET in b) && SamePackets(a, b) {
      SelectEquals(a, b);
    }
  }

  lemma {:induction false} EqualsAgree(a: FlowKeys, b: FlowKeys)
    requires BlobKeys(a) && BlobKeys(b) && Equals(a, b)
    ensures ETHERNET in a <==> ETHERNET in b
  {
    if ETHERNET in a {
      assert WellFormedKey(ETHERNET, a[ETHERNET]);
    }
    if ETHERNET in b {
      assert WellFormedKey(ETHERNET, b[ETHERNET]);
    }
  }

  lemma {:induction false} EqualsSelect(a: FlowKeys, b: FlowKeys)
    requires BlobKeys(a) && BlobKeys(b) && Equals(a, b)
    ensures SamePackets(a, b)
  {
    hide BlobMatches, KeyEquals, Ignored, Matches, KindOf;
    forall p: Packet | IsPacket(p) ensures Matches(a, p) <==> Matches(b, p) {
      FieldsDecide(a, p);
      FieldsDecide(b, p);
      forall t | t in a || t in b ensures FieldOk(a, p, t) <==> FieldOk(b, p, t) {
        FieldEquals(a, b, p, t);
      }
    }
  }

  predicate FieldOk(fks: FlowKeys, p: Packet, t: uint16) {
    t in fks ==> fks[t].Blob? && t in p && BlobMatches(fks[t], p[t])
  }

  lemma {:induction false} FieldsDecide(fks: FlowKeys, p: Packet)
    ensures Matches(fks, p) <==> forall t :: t in fks ==> FieldOk(fks, p, t)
  {
    hide BlobMatches;
  }

  lemma {:induction false} FieldEquals(a: FlowKeys, b: FlowKeys, p: Packet, t: uint16)
    requires BlobKeys(a) && BlobKeys(b) && Equals(a, b) && IsPacket(p)
    requires t in a || t in b
    ensures FieldOk(a, p, t) <==> FieldOk(b, p, t)
  {
    hide BlobMatches, KeyEquals;
    var n := KindOf(t).size;
    assert t in p && |p[t]| == n;
    if t in a && t in b {
      KeyEqualsIffSame(a[t], b[t], n);
    } else if t in a {
      AcceptsAllIffZero(a[t], n);
    } else {
      AcceptsAllIffZero(b[t], n);
    }
  }

  lemma {:induction false} SelectEquals(a: FlowKeys, b: FlowKeys)
    requires BlobKeys(a) && BlobKeys(b) && SamePackets(a, b)
    requires ETHERNET in a <==> ETHERNET in b
    ensures Equals(a, b)
  {
    hide KeyEquals, Ignored, SamePackets, BlobKeys;
    SamePacketsSymmetric(a, b);
    forall t | t in a
      ensures t in b ==> KeyEquals(a[t], b[t])
      ensures t !in b ==> Ignored(a[t])
    {
      SelectField(a, b, t);
    }
    forall t | t in b && t !in a ensures Ignored(b[t]) {
      SelectField(b, a, t);
    }
  }

  lemma {:induction false} SamePacketsSymmetric(a: FlowKeys, b: FlowKeys)
    requires SamePackets(a, b)
    ensures SamePackets(b, a)
  {
    hide Matches, IsPacket;
  }

  lemma {:induction false} SelectField(a: FlowKeys, b: FlowKeys, t: uint16)
    requires BlobKeys(a) && BlobKeys(b) && SamePackets(a, b) && t in a
    requires ETHERNET in a <==> ETHERNET in b
    ensures t in b ==> KeyEquals(a[t], b[t])
    ensures t !in b ==> Ignored(a[t])
  {
    hide BlobMatches, Matches, KeyEquals, KindOf, IsPacket;
    var n := KindOf(t).size;
    var p := Exemplar(a);
    ExemplarMatches(a);
    assert Matches(b, p);
    forall v: seq<byte> | |v| == n
      ensures BlobMatches(a[t], v) <==> t !in b || BlobMatches(b[t], v)
    {
      PacketField(p, t, v);
      MatchesField(a, p, t, v);
      MatchesField(b, p, t, v);
    }
    if t in b {
      KeyEqualsIffSame(a[t], b[t], n);
    } else {
      AcceptsAllIffZero(a[t], n);
    }
  }

  /** So on these sets `Equals` is an equivalence relation. */
  lemma {:induction false} EqualsEquivalence(a: FlowKeys, b: FlowKeys, c: FlowKeys)
    requires BlobKeys(a) && BlobKeys(b) && BlobKeys(c)
    ensures Equals(a, a)
    ensures Equals(a, b) ==> Equals(b, a)
    ensures Equals(a, b) && Equals(b, c) ==> Equals(a, c)
  {
    hide Equals, BlobKeys, Matches, IsPacket;
    EqualsIffSamePackets(a, a);
    EqualsIffSamePackets(a, b);
    EqualsIffSamePackets(b, a);
    EqualsIffSamePackets(b, c);
    EqualsIffSamePackets(a, c);
  }

  // ------------------------------------------------------------ what is parsed

  lemma {:induction false} WordOnes(p: bv8, k: bv8)
    ensures (p ^ k) & 0xff == 0 <==> p == k
  {
  }

  lemma {:induction false} OnesMask(v: byte, k: byte)
    ensures Agree(v, k, 0xff) <==> v == k
  {
    assert Bits(0xff) == 0xff;
    WordOnes(Bits(v), Bits(k));
    if Bits(v) == Bits(k) {
      MaskInjective(v, k);
    }
  }

  /** The mask that the attributes call for: exact without any masks, nothing where this one
      is left out or is an in-port mask other than all ones. */
  function WantedMask(masks: Option<Attributes.AttrMap>, t: uint16, n: nat): (m: seq<byte>) {
    if masks.None? then Ones(n)
    else if t !in masks.value then Zeros(n)
    else if t == IN_PORT then InPortMask(masks.value[t])
    else masks.value[t]
  }

  /** Parsing a blob-shaped type succeeds exactly when the key and the mask have the table's
      size, where a key may be missing if nothing of it is wanted.  The key it yields
      accepts exactly the values that agree with the key attribute wherever the mask wants
      it: only that very value without masks, every value without this mask. */
  lemma {:induction false} ParsedMeaning(h: ByteOrder, keys: Attributes.AttrMap, masks: Option<Attributes.AttrMap>,
                                         t: uint16)
    requires KindOf(t).BlobKind? && t in Domain(keys, masks)
    ensures var n := KindOf(t).size; var m := WantedMask(masks, t, n); var r := ParseOne(h, keys, masks, t);
      && (r.Ok? <==> |m| == n && if t in keys then |keys[t]| == n else AllBytes(m, 0))
      && (r.Ok? ==> WellFormedKey(t, r.value))
      && (r.Ok? ==> forall v: seq<byte> :: |v| == n ==>
            (BlobMatches(r.value, v) <==>
               (t in keys ==> forall i :: 0 <= i < n ==> Agree(v[i], keys[t][i], m[i]))))
  {
    hide Agree, BlobMatches;
    var n := KindOf(t).size;
    var m := WantedMask(masks, t, n);
    var r := ParseOne(h, keys, masks, t);
    assert t !in keys ==> masks.Some? && t in masks.value;
    InPortOnes(n);
    if r.Ok? {
      var k := if t in keys then keys[t] else Zeros(n);
      assert r == Ok(Blob(KindOf(t).wrap, t, k + m));
      MatchesParts(r.value, k, m);
      if t !in keys {
        AcceptsAllIffZero(r.value, n);
      }
    }
  }

  lemma {:induction false} InPortOnes(n: nat)
    ensures InPortMask(Ones(n)) == Ones(n) && InPortMask(Zeros(n)) == Zeros(n)
  {
  }

  lemma {:induction false} MatchesParts(b: FlowKey, k: seq<byte>, m: seq<byte>)
    requires b.Blob? && b.keyMask == k + m && |k| == |m|
    ensures KeyPart(b.keyMask) == k && MaskPart(b.keyMask) == m
    ensures forall v: seq<byte> :: |v| == |k| ==>
      (BlobMatches(b, v) <==> forall i :: 0 <= i < |k| ==> Agree(v[i], k[i], m[i]))
  {
    hide Agree;
  }
}
