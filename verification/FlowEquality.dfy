/** When `FlowKeys.Equals` is an equivalence relation, with keys of all kinds. */
module FlowEquality {
  import opened Bytes
  import opened Tunnels
  import opened FlowKeys
  import opened FlowKeyCodec
  import opened FlowMatching

  function Slot(fks: FlowKeys, t: uint16): Option<FlowKey> {
    if t in fks then Some(fks[t]) else None
  }

  /** How `Equals` compares what two sets have for one type. */
  predicate SlotEquals(x: Option<FlowKey>, y: Option<FlowKey>) {
    if x.Some? && y.Some? then KeyEquals(x.value, y.value)
    else (x.Some? ==> Ignored(x.value)) && (y.Some? ==> Ignored(y.value))
  }

  lemma {:induction false} EqualsBySlots(a: FlowKeys, b: FlowKeys)
    ensures Equals(a, b) <==> forall t: uint16 :: SlotEquals(Slot(a, t), Slot(b, t))
  {
    hide KeyEquals, Ignored;
    if Equals(a, b) {
      forall t: uint16 ensures SlotEquals(Slot(a, t), Slot(b, t)) {
      }
    }
    if forall t: uint16 :: SlotEquals(Slot(a, t), Slot(b, t)) {
      forall t | t in a ensures if t in b then KeyEquals(a[t], b[t]) else Ignored(a[t]) {
        assert SlotEquals(Slot(a, t), Slot(b, t));
      }
      forall t | t in b && t !in a ensures Ignored(b[t]) {
        assert SlotEquals(Slot(a, t), Slot(b, t));
      }
    }
  }

  /** Well-formed, with unknown keys as the parser makes them. */
  predicate ProperKey(t: uint16, k: FlowKey) {
    WellFormedKey(t, k) && (k.Unknown? ==> ParsedUnknown(k))
  }

  predicate Proper(fks: FlowKeys) {
    forall t :: t in fks ==> ProperKey(t, fks[t])
  }

  /** A tunnel key is ignored only if there is nothing at all in it, and an unknown key is
      exact or has a non-empty mask. */
  predicate RegularKey(k: FlowKey) {
    match k
    case Blob(_, _, _) => true
    case TunnelKey(key, mask) => Ignored(k) ==> key == NO_TUNNEL.attrs && mask == NO_TUNNEL.attrs
    case Unknown(_, _, _, exact) => exact || NonEmptyMask(k)
  }

  predicate Regular(fks: FlowKeys) {
    Proper(fks) && forall t :: t in fks ==> RegularKey(fks[t])
  }

  predicate RegularSlot(t: uint16, x: Option<FlowKey>) {
    x.Some? ==> ProperKey(t, x.value) && RegularKey(x.value)
  }

  // ------------------------------------------------------------------- one type

  /** What a blob-shaped type accepts, where no key accepts everything. */
  predicate Accepts(x: Option<FlowKey>, v: seq<byte>)
    requires x.Some? ==> x.value.Blob?
  {
    x.Some? ==> BlobMatches(x.value, v)
  }

  ghost predicate SameAccepted(t: uint16, x: Option<FlowKey>, y: Option<FlowKey>)
    requires (x.Some? ==> x.value.Blob?) && (y.Some? ==> y.value.Blob?) && KindOf(t).BlobKind?
  {
    && (t == ETHERNET ==> (x.Some? <==> y.Some?))
    && forall v: seq<byte> :: |v| == KindOf(t).size ==> (Accepts(x, v) <==> Accepts(y, v))
  }

  lemma {:induction false} BlobSlots(t: uint16, x: Option<FlowKey>, y: Option<FlowKey>)
    requires KindOf(t).BlobKind? && RegularSlot(t, x) && RegularSlot(t, y)
    ensures SlotEquals(x, y) <==> SameAccepted(t, x, y)
  {
    hide KeyEquals, BlobMatches;
    var n := KindOf(t).size;
    if x.Some? && y.Some? {
      KeyEqualsIffSame(x.value, y.value, n);
    } else if x.Some? {
      AcceptsAllIffZero(x.value, n);
    } else if y.Some? {
      AcceptsAllIffZero(y.value, n);
    }
  }

  /** What is left of a tunnel or unknown key for `Equals`. */
  function Essence(x: Option<FlowKey>): Option<FlowKey> {
    if x.Some? && Ignored(x.value) then None else x
  }

  lemma {:induction false} OtherSlots(t: uint16, x: Option<FlowKey>, y: Option<FlowKey>)
    requires !KindOf(t).BlobKind? && RegularSlot(t, x) && RegularSlot(t, y)
    ensures SlotEquals(x, y) <==> Essence(x) == Essence(y)
  {
  }

  lemma {:induction false} SlotLaws(t: uint16, x: Option<FlowKey>, y: Option<FlowKey>, z: Option<FlowKey>)
    requires RegularSlot(t, x) && RegularSlot(t, y) && RegularSlot(t, z)
    ensures SlotEquals(x, x)
    ensures SlotEquals(x, y) ==> SlotEquals(y, x)
    ensures SlotEquals(x, y) && SlotEquals(y, z) ==> SlotEquals(x, z)
  {
    hide SlotEquals, RegularKey, Accepts, Essence;
    if KindOf(t).BlobKind? {
      BlobSlots(t, x, x);
      BlobSlots(t, x, y);
      BlobSlots(t, y, x);
      BlobSlots(t, y, z);
      BlobSlots(t, x, z);
    } else {
      OtherSlots(t, x, x);
      OtherSlots(t, x, y);
      OtherSlots(t, y, x);
      OtherSlots(t, y, z);
      OtherSlots(t, x, z);
    }
  }

  // ----------------------------------------------------------------------- sets

  /** The laws of an equivalence relation, as far as they concern these three sets. */
  predicate Lawful(a: FlowKeys, b: FlowKeys, c: FlowKeys) {
    && Equals(a, a)
    && (Equals(a, b) <==> Equals(b, a))
    && (Equals(a, b) && Equals(b, c) ==> Equals(a, c))
    && (Equals(b, a) && Equals(a, c) ==> Equals(b, c))
  }

  lemma {:induction false} RegularLawful(a: FlowKeys, b: FlowKeys, c: FlowKeys)
    requires Regular(a) && Regular(b) && Regular(c)
    ensures Lawful(a, b, c)
  {
    hide Equals, SlotEquals, ProperKey, RegularKey;
    EqualsBySlots(a, a);
    EqualsBySlots(a, b);
    EqualsBySlots(b, a);
    EqualsBySlots(b, c);
    EqualsBySlots(a, c);
    forall t: uint16
      ensures SlotEquals(Slot(a, t), Slot(a, t))
      ensures SlotEquals(Slot(a, t), Slot(b, t)) <==> SlotEquals(Slot(b, t), Slot(a, t))
      ensures SlotEquals(Slot(a, t), Slot(b, t)) && SlotEquals(Slot(b, t), Slot(c, t)) ==>
        SlotEquals(Slot(a, t), Slot(c, t))
      ensures SlotEquals(Slot(b, t), Slot(a, t)) && SlotEquals(Slot(a, t), Slot(c, t)) ==>
        SlotEquals(Slot(b, t), Slot(c, t))
    {
      var x, y, z := Slot(a, t), Slot(b, t), Slot(c, t);
      SlotLaws(t, x, y, z);
      SlotLaws(t, y, x, z);
    }
  }

  /** A regular set close to `fks`: irregular tunnel keys are dropped, irregular unknown keys
      are made exact. */
  function Regularised(fks: FlowKeys): FlowKeys {
    map t | t in fks && (fks[t].TunnelKey? ==> RegularKey(fks[t])) ::
      if RegularKey(fks[t]) then fks[t] else MadeExact(fks[t])
  }

  function MadeExact(k: FlowKey): FlowKey {
    if k.Unknown? then Unknown(k.utyp, k.ukey, None, true) else k
  }

  const ZERO_TUNNEL := TunnelKey(NO_TUNNEL.attrs, NO_TUNNEL.attrs)

  lemma {:induction false} KeyEqualsSelf(k: FlowKey)
    ensures KeyEquals(k, k)
  {
    if k.Blob? {
      EqualsSelf(k);
    }
  }

  lemma {:induction false} RegularisedIs(fks: FlowKeys)
    requires Proper(fks)
    ensures Regular(Regularised(fks)) && Equals(fks, Regularised(fks))
  {
    hide KeyEquals, Ignored;
    var r := Regularised(fks);
    forall t | t in fks
      ensures if t in r then KeyEquals(fks[t], r[t]) && ProperKey(t, r[t]) && RegularKey(r[t]) else Ignored(fks[t])
    {
      KeyEqualsSelf(fks[t]);
      if fks[t].Unknown? && !RegularKey(fks[t]) {
        MadeExactEquals(t, fks[t]);
      }
    }
  }

  lemma {:induction false} MadeExactEquals(t: uint16, k: FlowKey)
    requires ProperKey(t, k) && k.Unknown? && !RegularKey(k)
    ensures var e := MadeExact(k); KeyEquals(k, e) && !KeyEquals(e, k) && ProperKey(t, e) && RegularKey(e)
  {
  }

  /** A set that is not regular breaks symmetry or transitivity with regular ones. */
  lemma {:induction false} IrregularBreaks(a: FlowKeys)
    requires Proper(a) && !Regular(a)
    ensures var b := Regularised(a); var c := b[TUNNEL := ZERO_TUNNEL];
      Regular(b) && Regular(c) && !Lawful(a, b, c)
  {
    hide KeyEquals, Ignored, ProperKey;
    var b := Regularised(a);
    var c := b[TUNNEL := ZERO_TUNNEL];
    RegularisedIs(a);
    ZeroTunnel();
    var t :| t in a && !RegularKey(a[t]);
    assert ProperKey(t, a[t]);
    if a[t].Unknown? {
      MadeExactEquals(t, a[t]);
      assert !Equals(b, a);
    } else {
      TunnelType(t, a[t]);
      TunnelDiffers(a[t]);
      forall u | u in b && u != TUNNEL ensures KeyEquals(b[u], c[u]) {
        KeyEqualsSelf(b[u]);
      }
      assert TUNNEL !in b;
      assert Equals(b, c);
      assert !Equals(a, c);
    }
  }

  lemma {:induction false} ZeroTunnel()
    ensures ProperKey(TUNNEL, ZERO_TUNNEL) && RegularKey(ZERO_TUNNEL) && Ignored(ZERO_TUNNEL)
  {
  }

  lemma {:induction false} TunnelType(t: uint16, k: FlowKey)
    requires ProperKey(t, k) && !RegularKey(k) && !k.Unknown?
    ensures t == TUNNEL && k.TunnelKey?
  {
  }

  lemma {:induction false} TunnelDiffers(k: FlowKey)
    requires k.TunnelKey? && !RegularKey(k)
    ensures !KeyEquals(k, ZERO_TUNNEL)
  {
  }

  /** `Equals` is an equivalence relation on the regular sets, and they are as many as
      possible: any other set breaks a law together with some of them. */
  lemma {:induction false} EqualsLawfulIff(a: FlowKeys)
    requires Proper(a)
    ensures Regular(a) <==> forall b, c :: Regular(b) && Regular(c) ==> Lawful(a, b, c)
  {
    hide Regular, Lawful;
    if Regular(a) {
      forall b, c | Regular(b) && Regular(c) ensures Lawful(a, b, c) {
        RegularLawful(a, b, c);
      }
    } else {
      IrregularBreaks(a);
    }
  }

  /** Keys of different types, or of different kinds or sizes, are never equal. */
  lemma {:induction false} EqualKeysAlike(a: FlowKey, b: FlowKey)
    requires KeyEquals(a, b)
    ensures TypeId(a) == TypeId(b)
    ensures (a.Blob? <==> b.Blob?) && (a.TunnelKey? <==> b.TunnelKey?) && (a.Unknown? <==> b.Unknown?)
    ensures a.Blob? ==> |a.keyMask| == |b.keyMask|
    ensures a.Unknown? ==> a.ukey == b.ukey && (a.exact ==> b.exact)
  {
    hide Agree;
  }
}
