/** Context-bound signing preimages: `len_u8 ‖ context ‖ chain_id ‖ canonical body`. */
module Preimages {
  import opened Machine
  import opened Endian
  import opened Wire
  import opened Records
  import opened GossipCodec

  const ML_KEM_768_ENCAPS_KEY_LEN: nat := 1184
  const ML_KEM_768_CIPHERTEXT_LEN: nat := 1088
  const CHAIN_ID_LEN: nat := 4

  type KemKey = b: Bytes | |b| == ML_KEM_768_ENCAPS_KEY_LEN witness seq(ML_KEM_768_ENCAPS_KEY_LEN, _ => 0)
  type KemCiphertext = b: Bytes | |b| == ML_KEM_768_CIPHERTEXT_LEN witness seq(ML_KEM_768_CIPHERTEXT_LEN, _ => 0)

  // ---- the context registry -------------------------------------------------------------------

  datatype Context =
    | CapabilityCtx | AttestationChainCtx | ExecAttestationCtx | AssignmentLogCtx | EscalationCtx
    | BeaconCommitCtx | TransportHsCtx | HwExceptionCtx | DaAttestationCtx | OraclePostingCtx
    | EntropyProbeCtx | WatchdogCtx | F5TelemetryCtx | SignedRecordCtx | SignedReceiptCtx

  function Name(c: Context): string {
    match c
    case CapabilityCtx => "cap"
    case AttestationChainCtx => "attchain"
    case ExecAttestationCtx => "exec"
    case AssignmentLogCtx => "assign"
    case EscalationCtx => "escal"
    case BeaconCommitCtx => "beacon"
    case TransportHsCtx => "tls-hs"
    case HwExceptionCtx => "hwexc"
    case DaAttestationCtx => "gda"
    case OraclePostingCtx => "oracle"
    case EntropyProbeCtx => "probe"
    case WatchdogCtx => "wdog"
    case F5TelemetryCtx => "f5tel"
    case SignedRecordCtx => "recwrap"
    case SignedReceiptCtx => "rcptwrap"
  }

  function Ascii(s: string): (b: Bytes)
    ensures |b| == |s|
    ensures forall i :: 0 <= i < |s| ==> b[i] == (s[i] as int) % 0x100
  {
    seq(|s|, i requires 0 <= i < |s| => (s[i] as int) % 0x100)
  }

  /** The registered byte string, `GOAT/v1/<name>` and a version byte. */
  function ContextBytes(c: Context): (b: Bytes)
    ensures |b| == 9 + |Name(c)| <= 17
  {
    Ascii("GOAT/v1/") + (Ascii(Name(c)) + [1])
  }

  /** No two of the fifteen registered contexts are the same bytes. */
  lemma ContextsDiffer(c: Context, d: Context)
    requires ContextBytes(c) == ContextBytes(d)
    ensures c == d
  {
    assert |Name(c)| == |Name(d)|;
    assert ContextBytes(c)[8] == (Name(c)[0] as int) % 0x100;
    assert ContextBytes(d)[8] == (Name(d)[0] as int) % 0x100;
  }

  // ---- signable bodies ---------------------------------------------------------------------------

  datatype ExecutionAttestation = ExecutionAttestation(
    nodeId: Bytes32, classId: OpaqueTag, taskClassId: OpaqueTag, window: u64, subWindow: u32,
    clusterId: Bytes32, asn: u32, resultCommit: Bytes32)

  type Executors = e: seq<Bytes32> | |e| <= MAX_AUTHORIZED_EXECUTORS

  datatype AuthorizationSet = AuthorizationSet(window: u64, taskClassId: OpaqueTag, executors: Executors)

  datatype SignedReceipt = SignedReceipt(attestation: ExecutionAttestation, publicKey: PublicKey, signature: Signature)

  datatype EscalatedResult = EscalatedResult(receipt: SignedReceipt, rawTraceCommit: Bytes32)

  datatype EscalationRecord = EscalationRecord(
    classId: OpaqueTag, first: EscalatedResult, second: EscalatedResult, third: EscalatedResult)

  datatype HandshakeInitiation = HandshakeInitiation(
    initiatorIdentity: PublicKey, ephemeralKemPk: KemKey, epoch: u64, localTime: u64, nonce: Bytes32)

  datatype HandshakeResponse = HandshakeResponse(
    responderIdentity: PublicKey, kemCiphertext: KemCiphertext, epoch: u64, localTime: u64, nonce: Bytes32)

  /** Everything the node signs or verifies. */
  datatype Signable =
    | Capability(record: CapabilityRecord)
    | Execution(attestation: ExecutionAttestation)
    | Authorization(authorization: AuthorizationSet)
    | Escalation(escalation: EscalationRecord)
    | Telemetry(frame: NetworkDensityFrame)
    | Initiation(initiation: HandshakeInitiation)
    | Response(response: HandshakeResponse)

  function ContextOf(s: Signable): Context {
    match s
    case Capability(_) => CapabilityCtx
    case Execution(_) => ExecAttestationCtx
    case Authorization(_) => AssignmentLogCtx
    case Escalation(_) => EscalationCtx
    case Telemetry(_) => F5TelemetryCtx
    case Initiation(_) => TransportHsCtx
    case Response(_) => TransportHsCtx
  }

  const EXEC_SHAPE: seq<Kind> := [Fixed(32), Tag, Tag, Int(8), Int(4), Fixed(32), Int(4), Fixed(32)]
  const AUTHORIZATION_SHAPE: seq<Kind> := [Int(8), Tag, List(MAX_AUTHORIZED_EXECUTORS, [Fixed(32)])]
  const INITIATION_SHAPE: seq<Kind> :=
    [Fixed(ML_DSA_65_PUBLIC_KEY_LEN), Fixed(ML_KEM_768_ENCAPS_KEY_LEN), Int(8), Int(8), Fixed(32)]
  const RESPONSE_SHAPE: seq<Kind> :=
    [Fixed(ML_DSA_65_PUBLIC_KEY_LEN), Fixed(ML_KEM_768_CIPHERTEXT_LEN), Int(8), Int(8), Fixed(32)]

  function WrapperPrefix(): (b: Bytes)
    ensures |b| == 18
  {
    [17] + ContextBytes(SignedReceiptCtx)
  }

  function ResultTail(): seq<Kind> {
    [Fixed(ML_DSA_65_PUBLIC_KEY_LEN), Fixed(ML_DSA_65_SIGNATURE_LEN), Fixed(32)]
  }

  function ResultShape(): seq<Kind> {
    [Lit(WrapperPrefix())] + (EXEC_SHAPE + ResultTail())
  }

  function EscalationShape(): seq<Kind> {
    [Tag] + (ResultShape() + (ResultShape() + ResultShape()))
  }

  function ExecValues(a: ExecutionAttestation): (vs: seq<Value>)
    ensures |vs| == 8 && AllFit(EXEC_SHAPE, vs)
  {
    hide AllFit;
    Widths();
    var vs := [Raw(a.nodeId), Raw(a.classId), Raw(a.taskClassId), Num(a.window), Num(a.subWindow),
               Raw(a.clusterId), Num(a.asn), Raw(a.resultCommit)];
    FitPointwise(EXEC_SHAPE, vs);
    vs
  }

  function ExecutorItems(es: seq<Bytes32>): (items: seq<seq<Value>>)
    ensures |items| == |es| && ManyFit([Fixed(32)], items)
    ensures forall i :: 0 <= i < |es| ==> items[i] == [Raw(es[i])]
  {
    var items := seq(|es|, i requires 0 <= i < |es| => [Raw(es[i])]);
    forall i | 0 <= i < |items| ensures AllFit([Fixed(32)], items[i]) {
      FitPointwise([Fixed(32)], items[i]);
    }
    ManyFitPointwise([Fixed(32)], items);
    items
  }

  function AuthorizationValues(a: AuthorizationSet): (vs: seq<Value>)
    ensures |vs| == 3 && AllFit(AUTHORIZATION_SHAPE, vs)
  {
    hide ExecutorItems;
    hide AllFit;
    Widths();
    var vs := [Num(a.window), Raw(a.taskClassId), Many(ExecutorItems(a.executors))];
    FitPointwise(AUTHORIZATION_SHAPE, vs);
    vs
  }

  function InitiationValues(i: HandshakeInitiation): (vs: seq<Value>)
    ensures |vs| == 5 && AllFit(INITIATION_SHAPE, vs)
  {
    hide AllFit;
    Widths();
    var vs := [Raw(i.initiatorIdentity), Raw(i.ephemeralKemPk), Num(i.epoch), Num(i.localTime), Raw(i.nonce)];
    FitPointwise(INITIATION_SHAPE, vs);
    vs
  }

  function ResponseValues(r: HandshakeResponse): (vs: seq<Value>)
    ensures |vs| == 5 && AllFit(RESPONSE_SHAPE, vs)
  {
    hide AllFit;
    Widths();
    var vs := [Raw(r.responderIdentity), Raw(r.kemCiphertext), Num(r.epoch), Num(r.localTime), Raw(r.nonce)];
    FitPointwise(RESPONSE_SHAPE, vs);
    vs
  }

  function TailValues(r: EscalatedResult): (vs: seq<Value>)
    ensures |vs| == 3 && AllFit(ResultTail(), vs)
  {
    var vs := [Raw(r.receipt.publicKey), Raw(r.receipt.signature), Raw(r.rawTraceCommit)];
    FitPointwise(ResultTail(), vs);
    vs
  }

  function ResultValues(r: EscalatedResult): (vs: seq<Value>)
    ensures |vs| == 12 && AllFit(ResultShape(), vs)
  {
    hide Fits, AllFit, ExecValues, TailValues, WrapperPrefix;
    var e, t := ExecValues(r.receipt.attestation), TailValues(r);
    LitFits(WrapperPrefix());
    FitConcat(EXEC_SHAPE, ResultTail(), e, t);
    FitConcat([Lit(WrapperPrefix())], EXEC_SHAPE + ResultTail(), [Raw(WrapperPrefix())], e + t);
    [Raw(WrapperPrefix())] + (e + t)
  }

  lemma LitFits(b: Bytes)
    ensures AllFit([Lit(b)], [Raw(b)])
  {
    FitPointwise([Lit(b)], [Raw(b)]);
  }

  lemma TagFits(t: OpaqueTag)
    ensures AllFit([Tag], [Raw(t)])
  {
    FitPointwise([Tag], [Raw(t)]);
  }

  function EscalationValues(e: EscalationRecord): (vs: seq<Value>)
    ensures AllFit(EscalationShape(), vs)
  {
    hide Fits, AllFit, ResultValues;
    var a, b, c := ResultValues(e.first), ResultValues(e.second), ResultValues(e.third);
    TagFits(e.classId);
    FitConcat(ResultShape(), ResultShape(), b, c);
    FitConcat(ResultShape(), ResultShape() + ResultShape(), a, b + c);
    FitConcat([Tag], ResultShape() + (ResultShape() + ResultShape()), [Raw(e.classId)], a + (b + c));
    [Raw(e.classId)] + (a + (b + c))
  }

  function BodyShape(s: Signable): seq<Kind> {
    match s
    case Capability(_) => CAPABILITY_SHAPE
    case Execution(_) => EXEC_SHAPE
    case Authorization(_) => AUTHORIZATION_SHAPE
    case Escalation(_) => EscalationShape()
    case Telemetry(_) => NDF_SHAPE
    case Initiation(_) => INITIATION_SHAPE
    case Response(_) => RESPONSE_SHAPE
  }

  function BodyValues(s: Signable): (vs: seq<Value>)
    ensures AllFit(BodyShape(s), vs)
  {
    hide CapabilityValues, ExecValues, AuthorizationValues, EscalationValues, NdfValues;
    hide InitiationValues, ResponseValues, EscalationShape, AllFit, Fits;
    match s
    case Capability(r) => CapabilityValues(r)
    case Execution(a) => ExecValues(a)
    case Authorization(a) => AuthorizationValues(a)
    case Escalation(e) => EscalationValues(e)
    case Telemetry(f) => NdfValues(f)
    case Initiation(i) => InitiationValues(i)
    case Response(r) => ResponseValues(r)
  }

  function Body(s: Signable): Bytes {
    Write(BodyShape(s), BodyValues(s), [])
  }

  /** What is signed. */
  function Preimage(chainId: u32, s: Signable): Bytes {
    hide Body, ContextBytes;
    var ctx := ContextBytes(ContextOf(s));
    [|ctx|] + (ctx + (LE(chainId, 4) + Body(s)))
  }

  // ---- injectivity ---------------------------------------------------------------------------------

  lemma SplitTwo<T>(a: seq<T>, b: seq<T>, c: seq<T>, d: seq<T>)
    requires |a| == |c| && a + b == c + d
    ensures a == c && b == d
  {
    assert a == (a + b)[..|a|] == (c + d)[..|c|] == c;
    assert b == (a + b)[|a|..] == (c + d)[|c|..] == d;
  }

  lemma ExecInjective(a: ExecutionAttestation, b: ExecutionAttestation)
    requires ExecValues(a) == ExecValues(b)
    ensures a == b
  {
    assert forall i :: 0 <= i < 8 ==> ExecValues(a)[i] == ExecValues(b)[i];
  }

  lemma AuthorizationInjective(a: AuthorizationSet, b: AuthorizationSet)
    requires AuthorizationValues(a) == AuthorizationValues(b)
    ensures a == b
  {
    hide ExecutorItems;
    var va, vb := AuthorizationValues(a), AuthorizationValues(b);
    assert va[0] == vb[0] && va[1] == vb[1] && va[2] == vb[2];
    var x, y := ExecutorItems(a.executors), ExecutorItems(b.executors);
    assert x == y;
    forall i | 0 <= i < |a.executors| ensures a.executors[i] == b.executors[i] {
      assert x[i][0] == y[i][0];
    }
  }

  lemma InitiationInjective(a: HandshakeInitiation, b: HandshakeInitiation)
    requires InitiationValues(a) == InitiationValues(b)
    ensures a == b
  {
    assert forall i :: 0 <= i < 5 ==> InitiationValues(a)[i] == InitiationValues(b)[i];
  }

  lemma ResponseInjective(a: HandshakeResponse, b: HandshakeResponse)
    requires ResponseValues(a) == ResponseValues(b)
    ensures a == b
  {
    assert forall i :: 0 <= i < 5 ==> ResponseValues(a)[i] == ResponseValues(b)[i];
  }

  lemma ResultInjective(a: EscalatedResult, b: EscalatedResult)
    requires ResultValues(a) == ResultValues(b)
    ensures a == b
  {
    hide ExecValues, WrapperPrefix;
    var x, y := ExecValues(a.receipt.attestation), ExecValues(b.receipt.attestation);
    SplitTwo([Raw(WrapperPrefix())], x + TailValues(a), [Raw(WrapperPrefix())], y + TailValues(b));
    SplitTwo(x, TailValues(a), y, TailValues(b));
    ExecInjective(a.receipt.attestation, b.receipt.attestation);
    assert forall i :: 0 <= i < 3 ==> TailValues(a)[i] == TailValues(b)[i];
  }

  lemma EscalationInjective(a: EscalationRecord, b: EscalationRecord)
    requires EscalationValues(a) == EscalationValues(b)
    ensures a == b
  {
    hide ResultValues;
    var a1, a2, a3 := ResultValues(a.first), ResultValues(a.second), ResultValues(a.third);
    var b1, b2, b3 := ResultValues(b.first), ResultValues(b.second), ResultValues(b.third);
    SplitTwo([Raw(a.classId)], a1 + (a2 + a3), [Raw(b.classId)], b1 + (b2 + b3));
    SplitTwo(a1, a2 + a3, b1, b2 + b3);
    SplitTwo(a2, a3, b2, b3);
    assert [Raw(a.classId)][0] == [Raw(b.classId)][0];
    ResultInjective(a.first, b.first);
    ResultInjective(a.second, b.second);
    ResultInjective(a.third, b.third);
  }

  lemma ValuesInjective(s: Signable, t: Signable)
    requires ContextOf(s) == ContextOf(t) && s.Response? == t.Response? && BodyValues(s) == BodyValues(t)
    ensures s == t
  {
    hide CapabilityValues, CapabilityOf, ExecValues, AuthorizationValues, EscalationValues, NdfValues, NdfOf;
    hide InitiationValues, ResponseValues, EscalationShape, AllFit, Fits;
    match s
    case Capability(r) =>
      CapabilityOfValues(r);
      CapabilityOfValues(t.record);
    case Execution(a) => ExecInjective(a, t.attestation);
    case Authorization(a) => AuthorizationInjective(a, t.authorization);
    case Escalation(e) => EscalationInjective(e, t.escalation);
    case Telemetry(f) =>
      NdfOfValues(f);
      NdfOfValues(t.frame);
    case Initiation(i) => InitiationInjective(i, t.initiation);
    case Response(r) => ResponseInjective(r, t.response);
  }

  /** Equal encodings of one shape are encodings of equal values. */
  lemma WriteInjective(ks: seq<Kind>, vs: seq<Value>, ws: seq<Value>)
    requires AllFit(ks, vs) && AllFit(ks, ws) && Write(ks, vs, []) == Write(ks, ws, [])
    ensures vs == ws
  {
    ReadWritten(ks, vs, []);
    ReadWritten(ks, ws, []);
  }

  /** The two handshake bodies share a context and differ by their fixed lengths. */
  lemma HandshakeLengths(i: HandshakeInitiation, r: HandshakeResponse)
    ensures |Body(Initiation(i))| == 3184
    ensures |Body(Response(r))| == 3088
  {
    hide Fits, AllFit, InitiationValues, ResponseValues, MaxLen;
    FixedWidth(INITIATION_SHAPE, InitiationValues(i), []);
    FixedWidth(RESPONSE_SHAPE, ResponseValues(r), []);
    MaxLenSplits(INITIATION_SHAPE, 5);
    MaxLenSplits(RESPONSE_SHAPE, 5);
    MaxLenEmpty(INITIATION_SHAPE[5..]);
    MaxLenEmpty(RESPONSE_SHAPE[5..]);
    assert MaxLenTo(INITIATION_SHAPE, 5) == 3184;
    assert MaxLenTo(RESPONSE_SHAPE, 5) == 3088;
  }

  /** Preimages are injective across all signable types and networks: equal bytes mean the same
      chain, the same context and the same value. */
  lemma PreimageInjective(c: u32, s: Signable, d: u32, t: Signable)
    requires Preimage(c, s) == Preimage(d, t)
    ensures c == d && s == t
  {
    hide Body, BodyValues, BodyShape, ContextBytes, Write, Fits, AllFit;
    var x, y := ContextBytes(ContextOf(s)), ContextBytes(ContextOf(t));
    SplitTwo([|x|], x + (LE(c, 4) + Body(s)), [|y|], y + (LE(d, 4) + Body(t)));
    assert [|x|][0] == [|y|][0];
    SplitTwo(x, LE(c, 4) + Body(s), y, LE(d, 4) + Body(t));
    SplitTwo(LE(c, 4), Body(s), LE(d, 4), Body(t));
    ContextsDiffer(ContextOf(s), ContextOf(t));
    Widths();
    LERoundTrip(c, 4);
    LERoundTrip(d, 4);
    BodyInjective(s, t);
  }

  lemma BodyInjective(s: Signable, t: Signable)
    requires ContextOf(s) == ContextOf(t) && Body(s) == Body(t)
    ensures s == t
  {
    hide BodyValues, Write, Fits, AllFit, EscalationShape;
    if s.Initiation? && t.Response? {
      HandshakeLengths(s.initiation, t.response);
    } else if s.Response? && t.Initiation? {
      HandshakeLengths(t.initiation, s.response);
    } else {
      WriteInjective(BodyShape(s), BodyValues(s), BodyValues(t));
      ValuesInjective(s, t);
    }
  }

  // ---- buffer bounds ------------------------------------------------------------------------------------

  const EXEC_ATTESTATION_MAX_BODY_LEN: nat := 184
  const SIGNED_RECEIPT_MAX_LEN: nat :=
    1 + 17 + EXEC_ATTESTATION_MAX_BODY_LEN + ML_DSA_65_PUBLIC_KEY_LEN + ML_DSA_65_SIGNATURE_LEN
  const AUTHORIZATION_SET_MAX_BODY_LEN: nat := 8 + (4 + OPAQUE_TAG_CAP) + (4 + MAX_AUTHORIZED_EXECUTORS * 32)
  const ESCALATED_RESULT_MAX_LEN: nat := SIGNED_RECEIPT_MAX_LEN + 32
  const ESCALATION_RECORD_MAX_BODY_LEN: nat := (4 + OPAQUE_TAG_CAP) + 3 * ESCALATED_RESULT_MAX_LEN
  const HANDSHAKE_INITIATION_BODY_LEN: nat := ML_DSA_65_PUBLIC_KEY_LEN + ML_KEM_768_ENCAPS_KEY_LEN + 8 + 8 + 32
  const HANDSHAKE_RESPONSE_BODY_LEN: nat := ML_DSA_65_PUBLIC_KEY_LEN + ML_KEM_768_CIPHERTEXT_LEN + 8 + 8 + 32
  const CAPABILITY_RECORD_MAX_PREIMAGE_LEN: nat := CAPABILITY_RECORD_MAX_BODY_LEN + 1 + 12 + CHAIN_ID_LEN

  /** The stack buffer each signer and verifier sets aside; gossip uses the capability bound for
      both of its payloads. */
  function BufferFor(s: Signable): nat {
    match s
    case Capability(_) => CAPABILITY_RECORD_MAX_PREIMAGE_LEN
    case Execution(_) => EXEC_ATTESTATION_MAX_BODY_LEN + 1 + 13 + CHAIN_ID_LEN
    case Authorization(_) => AUTHORIZATION_SET_MAX_BODY_LEN + 1 + 15 + CHAIN_ID_LEN
    case Escalation(_) => ESCALATION_RECORD_MAX_BODY_LEN + 1 + 14 + CHAIN_ID_LEN
    case Telemetry(_) => CAPABILITY_RECORD_MAX_PREIMAGE_LEN
    case Initiation(_) => HANDSHAKE_INITIATION_BODY_LEN + 1 + 15 + CHAIN_ID_LEN
    case Response(_) => HANDSHAKE_RESPONSE_BODY_LEN + 1 + 15 + CHAIN_ID_LEN
  }

  lemma ExecMaxLen()
    ensures MaxLen(EXEC_SHAPE) == EXEC_ATTESTATION_MAX_BODY_LEN
  {
    hide MaxLen;
    MaxLenSplits(EXEC_SHAPE, 8);
    MaxLenEmpty(EXEC_SHAPE[8..]);
    assert MaxLenTo(EXEC_SHAPE, 8) == 184;
  }

  lemma AuthorizationMaxLen()
    ensures MaxLen(AUTHORIZATION_SHAPE) == AUTHORIZATION_SET_MAX_BODY_LEN
  {
    hide MaxLen;
    MaxLenSplits([Fixed(32)], 1);
    MaxLenEmpty([Fixed(32)][1..]);
    assert MaxLenTo([Fixed(32)], 1) == 32;
    MaxLenSplits(AUTHORIZATION_SHAPE, 3);
    MaxLenEmpty(AUTHORIZATION_SHAPE[3..]);
    assert MaxLenTo(AUTHORIZATION_SHAPE, 3) == 560;
  }

  lemma EscalationMaxLen()
    ensures MaxLen(EscalationShape()) == ESCALATION_RECORD_MAX_BODY_LEN
  {
    hide MaxLen;
    var r := ResultShape();
    ResultMaxLen();
    hide ResultShape;
    MaxLenSplits([Tag], 1);
    MaxLenEmpty([Tag][1..]);
    assert MaxLenTo([Tag], 1) == 36;
    MaxLenConcat(r, r);
    MaxLenConcat(r, r + r);
    MaxLenConcat([Tag], r + (r + r));
  }

  lemma ResultMaxLen()
    ensures MaxLen(ResultShape()) == ESCALATED_RESULT_MAX_LEN
  {
    hide MaxLen, WrapperPrefix;
    var lit := [Lit(WrapperPrefix())];
    ExecMaxLen();
    MaxLenSplits(lit, 1);
    MaxLenEmpty(lit[1..]);
    assert MaxLenTo(lit, 1) == 18;
    MaxLenSplits(ResultTail(), 3);
    MaxLenEmpty(ResultTail()[3..]);
    assert MaxLenTo(ResultTail(), 3) == 1952 + 3309 + 32;
    MaxLenConcat(EXEC_SHAPE, ResultTail());
    MaxLenConcat(lit, EXEC_SHAPE + ResultTail());
  }

  lemma BodyMaxLen(s: Signable)
    ensures 1 + |ContextBytes(ContextOf(s))| + CHAIN_ID_LEN + MaxLen(BodyShape(s)) <= BufferFor(s)
  {
    hide MaxLen, EscalationShape, ContextBytes;
    match s
    case Capability(_) => CapabilityMaxLen();
    case Execution(_) => ExecMaxLen();
    case Authorization(_) => AuthorizationMaxLen();
    case Escalation(_) => EscalationMaxLen();
    case Telemetry(_) => NdfMaxLen();
    case Initiation(_) =>
      MaxLenSplits(INITIATION_SHAPE, 5);
      MaxLenEmpty(INITIATION_SHAPE[5..]);
      assert MaxLenTo(INITIATION_SHAPE, 5) == 3184;
    case Response(_) =>
      MaxLenSplits(RESPONSE_SHAPE, 5);
      MaxLenEmpty(RESPONSE_SHAPE[5..]);
      assert MaxLenTo(RESPONSE_SHAPE, 5) == 3088;
  }

  /** Every stack buffer holds its preimage, so rebuilding one never overflows. */
  lemma PreimageFits(chainId: u32, s: Signable)
    ensures |Preimage(chainId, s)| <= BufferFor(s)
  {
    hide MaxLen, BodyShape, BodyValues, ContextBytes, Write, AllFit, Fits, BufferFor;
    BodyMaxLen(s);
    WriteFits(BodyShape(s), BodyValues(s), []);
  }

  // ---- gossip fingerprints ---------------------------------------------------------------------------

  const MAX_GOSSIP_MESSAGE_LEN: nat :=
    CAPABILITY_RECORD_MAX_PREIMAGE_LEN + ML_DSA_65_PUBLIC_KEY_LEN + ML_DSA_65_SIGNATURE_LEN

  function PayloadOf(m: GossipMessage): Signable {
    match m
    case NodeCapability(r) => Capability(r.payload)
    case TelemetryFrame(r) => Telemetry(r.payload)
  }

  function KeyOf(m: GossipMessage): PublicKey {
    match m
    case NodeCapability(r) => r.publicKey
    case TelemetryFrame(r) => r.publicKey
  }

  function SignatureOf(m: GossipMessage): Signature {
    match m
    case NodeCapability(r) => r.signature
    case TelemetryFrame(r) => r.signature
  }

  /** What is hashed to recognise a message: preimage, public key, signature. */
  function FingerprintInput(chainId: u32, m: GossipMessage): Bytes {
    Preimage(chainId, PayloadOf(m)) + (KeyOf(m) + SignatureOf(m))
  }

  /** Two messages with the same fingerprint input are the same message, and the input always
      fits its buffer: only a hash collision can mistake one message for another. */
  lemma FingerprintInjective(chainId: u32, m: GossipMessage, n: GossipMessage)
    ensures |FingerprintInput(chainId, m)| <= MAX_GOSSIP_MESSAGE_LEN
    ensures FingerprintInput(chainId, m) == FingerprintInput(chainId, n) ==> m == n
  {
    hide Preimage;
    PreimageFits(chainId, PayloadOf(m));
    if FingerprintInput(chainId, m) == FingerprintInput(chainId, n) {
      SplitTwo(Preimage(chainId, PayloadOf(m)), KeyOf(m) + SignatureOf(m),
               Preimage(chainId, PayloadOf(n)), KeyOf(n) + SignatureOf(n));
      SplitTwo(KeyOf(m), SignatureOf(m), KeyOf(n), SignatureOf(n));
      PreimageInjective(chainId, PayloadOf(m), chainId, PayloadOf(n));
    }
  }
}
