/** The canonical bytes written out field by field, in the order the encoders emit them. */
module Layouts {
  import opened Machine
  import opened Endian
  import opened Wire
  import opened Records
  import opened GossipCodec
  import opened Preimages

  // ---- a record is its fields one after the other ---------------------------------------------------------

  function Join(fields: seq<Bytes>): Bytes {
    if fields == [] then [] else fields[0] + Join(fields[1..])
  }

  function TagBytes(t: OpaqueTag): Bytes {
    LE(|t|, 4) + t
  }

  /** `b` is the value's bytes. */
  predicate Spells(k: Kind, v: Value, b: Bytes)
    requires Fits(k, v)
  {
    match k
    case Int(w) => b == LE(v.v, w)
    case Fixed(_) => b == v.b
    case Tag => b == TagBytes(v.b)
    case Lit(_) => b == v.b
    case List(_, elem) => b == LE(|v.items|, 4) + WriteMany(elem, v.items, [])
  }

  lemma SpelledField(k: Kind, v: Value, b: Bytes)
    requires Fits(k, v) && Spells(k, v, b)
    ensures WriteField(k, v, []) == b
  {
    hide LE, WriteMany;
  }

  lemma {:induction false} JoinedFields(ks: seq<Kind>, vs: seq<Value>, fields: seq<Bytes>)
    requires AllFit(ks, vs) && |ks| == |vs| == |fields|
    requires forall j :: 0 <= j < |ks| ==> Fits(ks[j], vs[j]) && Spells(ks[j], vs[j], fields[j])
    ensures Write(ks, vs, []) == Join(fields)
  {
    hide Fits, Spells, WriteField;
    if ks != [] {
      JoinedFields(ks[1..], vs[1..], fields[1..]);
      SpelledField(ks[0], vs[0], fields[0]);
      WriteFieldTail(ks[0], vs[0], Write(ks[1..], vs[1..], []));
    }
  }

  lemma GroupsConcat(ks: seq<Kind>, ls: seq<Kind>, vs: seq<Value>, ws: seq<Value>)
    requires AllFit(ks, vs) && AllFit(ls, ws)
    ensures AllFit(ks + ls, vs + ws)
    ensures Write(ks + ls, vs + ws, []) == Write(ks, vs, []) + Write(ls, ws, [])
  {
    hide Write, AllFit, Fits;
    FitPointwise(ks, vs);
    FitConcat(ks, ls, vs, ws);
    WriteConcat(ks, ls, vs, ws, []);
    WriteTail(ks, vs, Write(ls, ws, []));
  }

  // ---- capability records ------------------------------------------------------------------------------------

  function DeviceFields(d: DeviceCapability): seq<Bytes> {
    [TagBytes(d.taskClassId), LE(d.measuredGcuPerHour, 8), d.determinismProfileRef]
  }

  function DevicesBytes(caps: seq<DeviceCapability>): Bytes {
    if caps == [] then [] else Join(DeviceFields(caps[0])) + DevicesBytes(caps[1..])
  }

  function CapabilityFields(r: CapabilityRecord): seq<Bytes> {
    [r.nodeId, LE(r.epoch, 8), r.beaconNonce, r.prevRecord, LE(|r.capabilities|, 4) + DevicesBytes(r.capabilities),
     LE(r.availabilityPpm, 8), LE(r.powerMw, 4), LE(r.thermalDk, 4), LE(r.densityWitnessPpm, 8)]
  }

  lemma DeviceLayout(d: DeviceCapability)
    ensures Write(DEVICE_SHAPE, DeviceValues(d), []) == Join(DeviceFields(d))
  {
    hide LE, Write, AllFit, Join;
    FitPointwise(DEVICE_SHAPE, DeviceValues(d));
    JoinedFields(DEVICE_SHAPE, DeviceValues(d), DeviceFields(d));
  }

  lemma {:induction false} DevicesLayout(caps: seq<DeviceCapability>)
    ensures WriteMany(DEVICE_SHAPE, DeviceItems(caps), []) == DevicesBytes(caps)
  {
    hide LE, Write, AllFit, Join, DeviceFields, DeviceValues;
    if caps != [] {
      var rest := DeviceItems(caps[1..]);
      DevicesLayout(caps[1..]);
      DeviceLayout(caps[0]);
      assert DeviceItems(caps)[1..] == rest;
      WriteTail(DEVICE_SHAPE, DeviceValues(caps[0]), WriteMany(DEVICE_SHAPE, rest, []));
    }
  }

  lemma CapabilityLayout(r: CapabilityRecord)
    ensures Write(CAPABILITY_SHAPE, CapabilityValues(r), []) == Join(CapabilityFields(r))
  {
    hide LE, Write, AllFit, Join, DevicesBytes, DeviceItems, WriteMany;
    FitPointwise(CAPABILITY_SHAPE, CapabilityValues(r));
    DevicesLayout(r.capabilities);
    JoinedFields(CAPABILITY_SHAPE, CapabilityValues(r), CapabilityFields(r));
  }

  // ---- attestations, authorisations, handshakes --------------------------------------------------------------

  function AttestationFields(a: ExecutionAttestation): seq<Bytes> {
    [a.nodeId, TagBytes(a.classId), TagBytes(a.taskClassId), LE(a.window, 8), LE(a.subWindow, 4), a.clusterId,
     LE(a.asn, 4), a.resultCommit]
  }

  lemma AttestationLayout(a: ExecutionAttestation)
    ensures Write(EXEC_SHAPE, ExecValues(a), []) == Join(AttestationFields(a))
  {
    hide LE, Write, AllFit, Join;
    FitPointwise(EXEC_SHAPE, ExecValues(a));
    JoinedFields(EXEC_SHAPE, ExecValues(a), AttestationFields(a));
  }

  function AuthorizationFields(a: AuthorizationSet): seq<Bytes> {
    [LE(a.window, 8), TagBytes(a.taskClassId), LE(|a.executors|, 4) + Join(a.executors)]
  }

  lemma {:induction false} ExecutorsLayout(es: seq<Bytes32>)
    ensures WriteMany([Fixed(32)], ExecutorItems(es), []) == Join(es)
  {
    hide AllFit;
    if es != [] {
      ExecutorsLayout(es[1..]);
      assert ExecutorItems(es)[1..] == ExecutorItems(es[1..]);
      OneField(Fixed(32), Raw(es[0]), es[0]);
      WriteTail([Fixed(32)], [Raw(es[0])], WriteMany([Fixed(32)], ExecutorItems(es[1..]), []));
    }
  }

  lemma OneField(k: Kind, v: Value, b: Bytes)
    requires Fits(k, v) && Spells(k, v, b)
    ensures AllFit([k], [v]) && Write([k], [v], []) == b
  {
    hide Write, Spells, Fits, AllFit;
    FitPointwise([k], [v]);
    JoinedFields([k], [v], [b]);
    assert Join([b]) == b + [] == b;
  }

  lemma AuthorizationLayout(a: AuthorizationSet)
    ensures Write(AUTHORIZATION_SHAPE, AuthorizationValues(a), []) == Join(AuthorizationFields(a))
  {
    hide LE, Write, AllFit, Join, ExecutorItems, WriteMany;
    FitPointwise(AUTHORIZATION_SHAPE, AuthorizationValues(a));
    ExecutorsLayout(a.executors);
    JoinedFields(AUTHORIZATION_SHAPE, AuthorizationValues(a), AuthorizationFields(a));
  }

  function InitiationFields(i: HandshakeInitiation): seq<Bytes> {
    [i.initiatorIdentity, i.ephemeralKemPk, LE(i.epoch, 8), LE(i.localTime, 8), i.nonce]
  }

  lemma InitiationLayout(i: HandshakeInitiation)
    ensures Write(INITIATION_SHAPE, InitiationValues(i), []) == Join(InitiationFields(i))
  {
    hide LE, Write, AllFit, Join;
    FitPointwise(INITIATION_SHAPE, InitiationValues(i));
    JoinedFields(INITIATION_SHAPE, InitiationValues(i), InitiationFields(i));
  }

  function ResponseFields(r: HandshakeResponse): seq<Bytes> {
    [r.responderIdentity, r.kemCiphertext, LE(r.epoch, 8), LE(r.localTime, 8), r.nonce]
  }

  lemma ResponseLayout(r: HandshakeResponse)
    ensures Write(RESPONSE_SHAPE, ResponseValues(r), []) == Join(ResponseFields(r))
  {
    hide LE, Write, AllFit, Join;
    FitPointwise(RESPONSE_SHAPE, ResponseValues(r));
    JoinedFields(RESPONSE_SHAPE, ResponseValues(r), ResponseFields(r));
  }

  // ---- density frames -----------------------------------------------------------------------------------------

  function HeaderFields(h: FrameHeader): seq<Bytes> {
    [LE(h.schemaVersion, 2), LE(h.frameType, 1), h.endpointPseudonym, LE(h.identityIndex, 2), LE(h.epoch, 8),
     h.runNonce, LE(h.chainId, 4)]
  }

  lemma HeaderLayout(h: FrameHeader)
    ensures Write(HEADER_SHAPE, HeaderValues(h), []) == Join(HeaderFields(h))
  {
    hide LE, Write, AllFit, Join;
    FitPointwise(HEADER_SHAPE, HeaderValues(h));
    JoinedFields(HEADER_SHAPE, HeaderValues(h), HeaderFields(h));
  }

  function BinsFields(b: RateBins): seq<Bytes> {
    [LE(b.tickIndex, 2), LE(b.dlBin, 1), LE(b.ulBin, 1), LE(b.concurrentFlag, 1), LE(b.aggDlBin, 1),
     LE(b.aggUlBin, 1)]
  }

  lemma BinsLayout(b: RateBins)
    ensures Write(BINS_SHAPE, BinValues(b), []) == Join(BinsFields(b))
  {
    hide LE, Write, AllFit, Join;
    FitPointwise(BINS_SHAPE, BinValues(b));
    JoinedFields(BINS_SHAPE, BinValues(b), BinsFields(b));
  }

  function RttsFields(r: Rtts): seq<Bytes> {
    [LE(r.r0, 2), LE(r.r1, 2), LE(r.r2, 2), LE(r.r3, 2), LE(r.r4, 2), LE(r.r5, 2), LE(r.r6, 2), LE(r.r7, 2)]
  }

  lemma RttsLayout(r: Rtts)
    ensures Write(RTTS_SHAPE, RttValues(r), []) == Join(RttsFields(r))
  {
    hide LE, Write, AllFit, Join;
    FitPointwise(RTTS_SHAPE, RttValues(r));
    JoinedFields(RTTS_SHAPE, RttValues(r), RttsFields(r));
  }

  function OriginFields(o: Origin): seq<Bytes> {
    [LE(o.originChangeCount, 1), LE(o.sharedOriginDegreeBin, 1), LE(o.xferBytesBin, 1), LE(o.morphologyId, 1),
     LE(o.peakMicroBin, 1), LE(o.crestEighthOct, 1)]
  }

  lemma OriginLayout(o: Origin)
    ensures Write(ORIGIN_SHAPE, OriginValues(o), []) == Join(OriginFields(o))
  {
    hide LE, Write, AllFit, Join;
    FitPointwise(ORIGIN_SHAPE, OriginValues(o));
    JoinedFields(ORIGIN_SHAPE, OriginValues(o), OriginFields(o));
  }

  function ThrottleFields(t: Throttle): seq<Bytes> {
    [LE(t.dutyPpm, 4), LE(t.throttleOnsetS, 1), LE(t.preBin, 1), LE(t.postBin, 1)]
  }

  lemma ThrottleLayout(t: Throttle)
    ensures Write(THROTTLE_SHAPE, ThrottleValues(t), []) == Join(ThrottleFields(t))
  {
    hide LE, Write, AllFit, Join;
    FitPointwise(THROTTLE_SHAPE, ThrottleValues(t));
    JoinedFields(THROTTLE_SHAPE, ThrottleValues(t), ThrottleFields(t));
  }

  function FrameBytes(f: NetworkDensityFrame): Bytes {
    Join(HeaderFields(f.header)) + (Join(BinsFields(f.bins)) + (Join(RttsFields(f.rttQ))
    + (Join(OriginFields(f.origin)) + Join(ThrottleFields(f.throttle)))))
  }

  lemma FrameLayout(f: NetworkDensityFrame)
    ensures Write(NDF_SHAPE, NdfValues(f), []) == FrameBytes(f)
  {
    hide Fits, AllFit, Write, HeaderValues, BinValues, RttValues, OriginValues, ThrottleValues;
    hide Join, HeaderFields, BinsFields, RttsFields, OriginFields, ThrottleFields;
    var h, b, r, o, t :=
      HeaderValues(f.header), BinValues(f.bins), RttValues(f.rttQ), OriginValues(f.origin), ThrottleValues(f.throttle);
    GroupsConcat(ORIGIN_SHAPE, THROTTLE_SHAPE, o, t);
    GroupsConcat(RTTS_SHAPE, ORIGIN_SHAPE + THROTTLE_SHAPE, r, o + t);
    GroupsConcat(BINS_SHAPE, RTTS_SHAPE + (ORIGIN_SHAPE + THROTTLE_SHAPE), b, r + (o + t));
    GroupsConcat(HEADER_SHAPE, BINS_SHAPE + (RTTS_SHAPE + (ORIGIN_SHAPE + THROTTLE_SHAPE)), h, b + (r + (o + t)));
    HeaderLayout(f.header);
    BinsLayout(f.bins);
    RttsLayout(f.rttQ);
    OriginLayout(f.origin);
    ThrottleLayout(f.throttle);
  }

  // ---- escalations ----------------------------------------------------------------------------------------------

  function TailFields(r: EscalatedResult): seq<Bytes> {
    [r.receipt.publicKey, r.receipt.signature, r.rawTraceCommit]
  }

  function ResultBytes(r: EscalatedResult): Bytes {
    ([17] + ContextBytes(SignedReceiptCtx)) + (Join(AttestationFields(r.receipt.attestation)) + Join(TailFields(r)))
  }

  function EscalationBytes(e: EscalationRecord): Bytes {
    TagBytes(e.classId) + (ResultBytes(e.first) + (ResultBytes(e.second) + ResultBytes(e.third)))
  }

  lemma TailLayout(r: EscalatedResult)
    ensures Write(ResultTail(), TailValues(r), []) == Join(TailFields(r))
  {
    hide LE, Write, AllFit, Join;
    FitPointwise(ResultTail(), TailValues(r));
    JoinedFields(ResultTail(), TailValues(r), TailFields(r));
  }

  lemma ResultLayout(r: EscalatedResult)
    ensures Write(ResultShape(), ResultValues(r), []) == ResultBytes(r)
  {
    hide Write, AllFit, ExecValues, TailValues, ContextBytes, Join, AttestationFields, TailFields;
    var e, t, w := ExecValues(r.receipt.attestation), TailValues(r), WrapperPrefix();
    OneField(Lit(w), Raw(w), w);
    GroupsConcat(EXEC_SHAPE, ResultTail(), e, t);
    GroupsConcat([Lit(w)], EXEC_SHAPE + ResultTail(), [Raw(w)], e + t);
    AttestationLayout(r.receipt.attestation);
    TailLayout(r);
  }

  lemma EscalationLayout(e: EscalationRecord)
    ensures Write(EscalationShape(), EscalationValues(e), []) == EscalationBytes(e)
  {
    hide LE, Write, AllFit, ResultValues, ResultShape, ResultBytes;
    var a, b, c := ResultValues(e.first), ResultValues(e.second), ResultValues(e.third);
    var s := ResultShape();
    OneField(Tag, Raw(e.classId), TagBytes(e.classId));
    GroupsConcat(s, s, b, c);
    GroupsConcat(s, s + s, a, b + c);
    GroupsConcat([Tag], s + (s + s), [Raw(e.classId)], a + (b + c));
    ResultLayout(e.first);
    ResultLayout(e.second);
    ResultLayout(e.third);
  }

  // ---- what is signed, and what is sent ------------------------------------------------------------------------

  function BodyBytes(s: Signable): Bytes {
    match s
    case Capability(r) => Join(CapabilityFields(r))
    case Execution(a) => Join(AttestationFields(a))
    case Authorization(a) => Join(AuthorizationFields(a))
    case Escalation(e) => EscalationBytes(e)
    case Telemetry(f) => FrameBytes(f)
    case Initiation(i) => Join(InitiationFields(i))
    case Response(r) => Join(ResponseFields(r))
  }

  /** A signing preimage is the context's length and name, the chain id, and the canonical body. */
  lemma PreimageLayout(chainId: u32, s: Signable)
    ensures var ctx := ContextBytes(ContextOf(s));
            Preimage(chainId, s) == [|ctx|] + (ctx + (LE(chainId, 4) + BodyBytes(s)))
  {
    hide LE, Write, AllFit, Join, CapabilityFields, AttestationFields, AuthorizationFields, EscalationBytes, FrameBytes;
    hide InitiationFields, ResponseFields, EscalationShape, ContextBytes;
    hide CapabilityValues, ExecValues, AuthorizationValues, EscalationValues, NdfValues;
    hide InitiationValues, ResponseValues;
    match s
    case Capability(r) => CapabilityLayout(r);
    case Execution(a) => AttestationLayout(a);
    case Authorization(a) => AuthorizationLayout(a);
    case Escalation(e) => EscalationLayout(e);
    case Telemetry(f) => FrameLayout(f);
    case Initiation(i) => InitiationLayout(i);
    case Response(r) => ResponseLayout(r);
  }

  /** A gossip frame is its variant byte, the canonical payload, the public key and the signature. */
  lemma GossipLayout(m: GossipMessage)
    ensures Encode(m) ==
            match m
            case NodeCapability(r) => [1] + (Join(CapabilityFields(r.payload)) + (r.publicKey + r.signature))
            case TelemetryFrame(r) => [2] + (FrameBytes(r.payload) + (r.publicKey + r.signature))
  {
    hide LE, Write, AllFit, Join, CapabilityFields, FrameBytes, CapabilityValues, NdfValues, SealValues;
    MessageFits(m);
    GroupsConcat(PayloadShape(m), SEAL_SHAPE, PayloadValues(m), Seal(m));
    match m
    case NodeCapability(r) =>
      CapabilityLayout(r.payload);
      SealLayout(r.publicKey, r.signature);
    case TelemetryFrame(r) =>
      FrameLayout(r.payload);
      SealLayout(r.publicKey, r.signature);
  }

  lemma SealLayout(pk: PublicKey, sig: Signature)
    ensures Write(SEAL_SHAPE, SealValues(pk, sig), []) == pk + sig
  {
    hide Write, AllFit;
    FitPointwise(SEAL_SHAPE, SealValues(pk, sig));
    JoinedFields(SEAL_SHAPE, SealValues(pk, sig), [pk, sig]);
    var fields: seq<Bytes> := [pk, sig];
    assert fields[1..] == [sig] && Join(fields[1..]) == sig + [] == sig;
  }
}
