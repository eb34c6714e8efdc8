/** The gossip frame codec: variant byte, canonical payload, public key, signature. */
module GossipCodec {
  import opened Machine
  import opened Wire
  import opened Records

  const GOSSIP_VARIANT_NODE_CAPABILITY: u8 := 1
  const GOSSIP_VARIANT_TELEMETRY: u8 := 2
  const CAPABILITY_RECORD_MAX_BODY_LEN: nat := 740
  const GOSSIP_FRAME_MAX_LEN: nat :=
    1 + CAPABILITY_RECORD_MAX_BODY_LEN + ML_DSA_65_PUBLIC_KEY_LEN + ML_DSA_65_SIGNATURE_LEN

  datatype SignedRecord<T> = SignedRecord(payload: T, publicKey: PublicKey, signature: Signature)

  datatype GossipMessage =
    | NodeCapability(capability: SignedRecord<CapabilityRecord>)
    | TelemetryFrame(frame: SignedRecord<NetworkDensityFrame>)

  const SEAL_SHAPE: seq<Kind> := [Fixed(ML_DSA_65_PUBLIC_KEY_LEN), Fixed(ML_DSA_65_SIGNATURE_LEN)]

  function SealValues(pk: PublicKey, sig: Signature): (vs: seq<Value>)
    ensures |vs| == 2 && AllFit(SEAL_SHAPE, vs)
  {
    var vs := [Raw(pk), Raw(sig)];
    FitPointwise(SEAL_SHAPE, vs);
    vs
  }

  function Variant(m: GossipMessage): u8 {
    if m.NodeCapability? then GOSSIP_VARIANT_NODE_CAPABILITY else GOSSIP_VARIANT_TELEMETRY
  }

  function PayloadShape(m: GossipMessage): seq<Kind> {
    if m.NodeCapability? then CAPABILITY_SHAPE else NDF_SHAPE
  }

  function PayloadValues(m: GossipMessage): (vs: seq<Value>)
    ensures AllFit(PayloadShape(m), vs)
  {
    match m
    case NodeCapability(r) => CapabilityValues(r.payload)
    case TelemetryFrame(r) => NdfValues(r.payload)
  }

  function Seal(m: GossipMessage): (vs: seq<Value>)
    ensures |vs| == 2 && AllFit(SEAL_SHAPE, vs)
  {
    match m
    case NodeCapability(r) => SealValues(r.publicKey, r.signature)
    case TelemetryFrame(r) => SealValues(r.publicKey, r.signature)
  }

  lemma MessageFits(m: GossipMessage)
    ensures AllFit(PayloadShape(m) + SEAL_SHAPE, PayloadValues(m) + Seal(m))
  {
    hide PayloadValues, Seal, Fits, AllFit;
    FitPointwise(PayloadShape(m), PayloadValues(m));
    FitConcat(PayloadShape(m), SEAL_SHAPE, PayloadValues(m), Seal(m));
  }

  /** The wire frame of a message. */
  function Encode(m: GossipMessage): (b: Bytes) {
    MessageFits(m);
    [Variant(m)] + Write(PayloadShape(m) + SEAL_SHAPE, PayloadValues(m) + Seal(m), [])
  }

  /** Read a whole sealed payload; trailing bytes are refused. */
  function ReadSealed(ks: seq<Kind>, b: Bytes): Option<(seq<Value>, PublicKey, Signature)>
  {
    var (vs, rest) :- ReadAll(ks + SEAL_SHAPE, b);
    if rest != [] then None
    else
      SealedParts(ks, b);
      Some((vs[..|ks|], vs[|ks|].b, vs[|ks| + 1].b))
  }

  lemma SealedParts(ks: seq<Kind>, b: Bytes)
    requires ReadAll(ks + SEAL_SHAPE, b).Some?
    ensures var vs := ReadAll(ks + SEAL_SHAPE, b).value.0;
            && |vs| == |ks| + 2
            && AllFit(ks + SEAL_SHAPE, vs)
            && AllFit(ks, vs[..|ks|])
            && Fits(SEAL_SHAPE[0], vs[|ks|]) && Fits(SEAL_SHAPE[1], vs[|ks| + 1])
            && vs == vs[..|ks|] + [vs[|ks|], vs[|ks| + 1]]
  {
    hide Fits, AllFit, ReadAll;
    WriteRead(ks + SEAL_SHAPE, b);
    var vs := ReadAll(ks + SEAL_SHAPE, b).value.0;
    FitSplit(ks, SEAL_SHAPE, vs);
    FitPointwise(SEAL_SHAPE, vs[|ks|..]);
    assert vs[|ks|..][0] == vs[|ks|] && vs[|ks|..][1] == vs[|ks| + 1];
    assert Fits(SEAL_SHAPE[0], vs[|ks|..][0]) && Fits(SEAL_SHAPE[1], vs[|ks|..][1]);
  }

  /** The canonical decoder: any malformed input, or one with bytes to spare, is refused. */
  function Decode(b: Bytes): Option<GossipMessage> {
    if b == [] then None
    else if b[0] == GOSSIP_VARIANT_NODE_CAPABILITY then
      var (vs, pk, sig) :- ReadSealed(CAPABILITY_SHAPE, b[1..]);
      SealedFit(CAPABILITY_SHAPE, b[1..]);
      Some(NodeCapability(SignedRecord(CapabilityOf(vs), pk, sig)))
    else if b[0] == GOSSIP_VARIANT_TELEMETRY then
      var (vs, pk, sig) :- ReadSealed(NDF_SHAPE, b[1..]);
      SealedFit(NDF_SHAPE, b[1..]);
      Some(TelemetryFrame(SignedRecord(NdfOf(vs), pk, sig)))
    else None
  }

  lemma SealedFit(ks: seq<Kind>, b: Bytes)
    requires ReadSealed(ks, b).Some?
    ensures AllFit(ks, ReadSealed(ks, b).value.0)
  {
    hide Fits, AllFit, ReadAll;
    SealedParts(ks, b);
  }

  lemma ReadSealedWritten(ks: seq<Kind>, vs: seq<Value>, pk: PublicKey, sig: Signature)
    requires AllFit(ks, vs) && AllFit(ks + SEAL_SHAPE, vs + SealValues(pk, sig))
    ensures ReadSealed(ks, Write(ks + SEAL_SHAPE, vs + SealValues(pk, sig), [])) == Some((vs, pk, sig))
  {
    hide Fits, AllFit, ReadAll, Write;
    FitPointwise(ks, vs);
    ReadWritten(ks + SEAL_SHAPE, vs + SealValues(pk, sig), []);
    assert (vs + SealValues(pk, sig))[..|ks|] == vs;
  }

  /** Decoding an encoded message gives it back. */
  lemma DecodeEncode(m: GossipMessage)
    ensures Decode(Encode(m)) == Some(m)
  {
    hide Fits, AllFit, ReadSealed, Write, CapabilityValues, CapabilityOf, NdfValues, NdfOf, SealValues;
    MessageFits(m);
    assert Encode(m)[1..] == Write(PayloadShape(m) + SEAL_SHAPE, PayloadValues(m) + Seal(m), []);
    match m
    case NodeCapability(r) =>
      ReadSealedWritten(CAPABILITY_SHAPE, CapabilityValues(r.payload), r.publicKey, r.signature);
      CapabilityOfValues(r.payload);
    case TelemetryFrame(r) =>
      ReadSealedWritten(NDF_SHAPE, NdfValues(r.payload), r.publicKey, r.signature);
      NdfOfValues(r.payload);
  }

  lemma WriteSealedRead(ks: seq<Kind>, b: Bytes)
    requires ReadSealed(ks, b).Some?
    ensures var (vs, pk, sig) := ReadSealed(ks, b).value;
            && AllFit(ks + SEAL_SHAPE, vs + SealValues(pk, sig))
            && b == Write(ks + SEAL_SHAPE, vs + SealValues(pk, sig), [])
  {
    hide Fits, AllFit, ReadAll, Write;
    WriteRead(ks + SEAL_SHAPE, b);
    SealedParts(ks, b);
    var all := ReadAll(ks + SEAL_SHAPE, b).value.0;
    var (vs, pk, sig) := ReadSealed(ks, b).value;
    RawIs(ML_DSA_65_PUBLIC_KEY_LEN, all[|ks|]);
    RawIs(ML_DSA_65_SIGNATURE_LEN, all[|ks| + 1]);
    assert all == vs + SealValues(pk, sig);
  }

  lemma RawIs(n: nat, v: Value)
    requires Fits(Fixed(n), v)
    ensures v == Raw(v.b)
  {
  }

  /** Every byte string that decodes is the encoding of what it decodes to: with DecodeEncode,
      valid frames and messages are in bijection. */
  lemma EncodeDecode(b: Bytes)
    requires Decode(b).Some?
    ensures Encode(Decode(b).value) == b
  {
    hide Fits, AllFit, ReadSealed, Write, CapabilityValues, CapabilityOf, NdfValues, NdfOf, SealValues;
    assert b == [b[0]] + b[1..];
    if b[0] == GOSSIP_VARIANT_NODE_CAPABILITY {
      WriteSealedRead(CAPABILITY_SHAPE, b[1..]);
      SealedFit(CAPABILITY_SHAPE, b[1..]);
    } else {
      WriteSealedRead(NDF_SHAPE, b[1..]);
      SealedFit(NDF_SHAPE, b[1..]);
    }
  }

  // ---- lengths -------------------------------------------------------------------------------------

  lemma CapabilityMaxLen()
    ensures MaxLen(CAPABILITY_SHAPE) == CAPABILITY_RECORD_MAX_BODY_LEN
  {
    hide MaxLen;
    MaxLenSplits(DEVICE_SHAPE, 3);
    MaxLenSplits(CAPABILITY_SHAPE, 9);
    assert MaxLenTo(DEVICE_SHAPE, 3) == 76;
    MaxLenEmpty(DEVICE_SHAPE[3..]);
    MaxLenEmpty(CAPABILITY_SHAPE[9..]);
    assert MaxLenTo(CAPABILITY_SHAPE, 9) == 740;
  }

  lemma MaxLenEmpty(ks: seq<Kind>)
    requires ks == []
    ensures MaxLen(ks) == 0
  {
  }

  lemma NdfMaxLen()
    ensures MaxLen(NDF_SHAPE) == 117
  {
    hide MaxLen;
    MaxLenSplits(HEADER_SHAPE, 7);
    MaxLenSplits(BINS_SHAPE, 6);
    MaxLenSplits(RTTS_SHAPE, 8);
    MaxLenSplits(ORIGIN_SHAPE, 6);
    MaxLenSplits(THROTTLE_SHAPE, 4);
    MaxLenEmpty(HEADER_SHAPE[7..]);
    MaxLenEmpty(BINS_SHAPE[6..]);
    MaxLenEmpty(RTTS_SHAPE[8..]);
    MaxLenEmpty(ORIGIN_SHAPE[6..]);
    MaxLenEmpty(THROTTLE_SHAPE[4..]);
    var back := ORIGIN_SHAPE + THROTTLE_SHAPE;
    MaxLenConcat(ORIGIN_SHAPE, THROTTLE_SHAPE);
    MaxLenConcat(RTTS_SHAPE, back);
    MaxLenConcat(BINS_SHAPE, RTTS_SHAPE + back);
    MaxLenConcat(HEADER_SHAPE, BINS_SHAPE + (RTTS_SHAPE + back));
  }

  lemma PayloadMaxLen(m: GossipMessage)
    ensures MaxLen(PayloadShape(m)) <= CAPABILITY_RECORD_MAX_BODY_LEN
  {
    hide MaxLen;
    CapabilityMaxLen();
    NdfMaxLen();
  }

  /** No message is longer than the buffer it is encoded into. */
  lemma EncodeFits(m: GossipMessage)
    ensures |Encode(m)| <= GOSSIP_FRAME_MAX_LEN
  {
    hide MaxLen, Fits, AllFit, Write, PayloadValues, Seal, PayloadShape;
    MessageFits(m);
    PayloadMaxLen(m);
    MaxLenSplits(SEAL_SHAPE, 2);
    MaxLenEmpty(SEAL_SHAPE[2..]);
    assert MaxLenTo(SEAL_SHAPE, 2) == ML_DSA_65_PUBLIC_KEY_LEN + ML_DSA_65_SIGNATURE_LEN;
    MaxLenConcat(PayloadShape(m), SEAL_SHAPE);
    WriteFits(PayloadShape(m) + SEAL_SHAPE, PayloadValues(m) + Seal(m), []);
  }
}
