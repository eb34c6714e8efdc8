/** The signed records of the protocol and their canonical shapes. */
module Records {
  import opened Machine
  import opened Endian
  import opened Wire

  const MAX_CAPABILITIES: nat := 8
  const MAX_AUTHORIZED_EXECUTORS: nat := 16
  const ML_DSA_65_PUBLIC_KEY_LEN: nat := 1952
  const ML_DSA_65_SIGNATURE_LEN: nat := 3309

  type Bytes32 = b: Bytes | |b| == 32 witness seq(32, _ => 0)
  type PublicKey = b: Bytes | |b| == ML_DSA_65_PUBLIC_KEY_LEN witness seq(ML_DSA_65_PUBLIC_KEY_LEN, _ => 0)
  type Signature = b: Bytes | |b| == ML_DSA_65_SIGNATURE_LEN witness seq(ML_DSA_65_SIGNATURE_LEN, _ => 0)
  type OpaqueTag = b: Bytes | |b| <= OPAQUE_TAG_CAP

  // ---- capability records ----------------------------------------------------------------------

  datatype DeviceCapability = DeviceCapability(
    taskClassId: OpaqueTag,
    measuredGcuPerHour: u64,
    determinismProfileRef: Bytes32)

  type Capabilities = c: seq<DeviceCapability> | |c| <= MAX_CAPABILITIES

  datatype CapabilityRecord = CapabilityRecord(
    nodeId: Bytes32,
    epoch: u64,
    beaconNonce: Bytes32,
    prevRecord: Bytes32,
    capabilities: Capabilities,
    availabilityPpm: u64,
    powerMw: u32,
    thermalDk: u32,
    densityWitnessPpm: u64)

  const DEVICE_SHAPE: seq<Kind> := [Tag, Int(8), Fixed(32)]

  const CAPABILITY_SHAPE: seq<Kind> :=
    [Fixed(32), Int(8), Fixed(32), Fixed(32), List(MAX_CAPABILITIES, DEVICE_SHAPE), Int(8), Int(4), Int(4), Int(8)]

  function DeviceValues(d: DeviceCapability): (vs: seq<Value>)
    ensures AllFit(DEVICE_SHAPE, vs)
  {
    hide AllFit;
    Widths();
    var vs := [Raw(d.taskClassId), Num(d.measuredGcuPerHour), Raw(d.determinismProfileRef)];
    FitPointwise(DEVICE_SHAPE, vs);
    vs
  }

  function DeviceOf(vs: seq<Value>): (d: DeviceCapability)
    requires AllFit(DEVICE_SHAPE, vs)
    ensures DeviceValues(d) == vs
  {
    hide AllFit;
    Widths();
    FitPointwise(DEVICE_SHAPE, vs);
    assert Fits(DEVICE_SHAPE[0], vs[0]) && Fits(DEVICE_SHAPE[1], vs[1]) && Fits(DEVICE_SHAPE[2], vs[2]);
    DeviceCapability(vs[0].b, vs[1].v, vs[2].b)
  }

  lemma DeviceOfValues(d: DeviceCapability)
    ensures DeviceOf(DeviceValues(d)) == d
  {
  }

  function DeviceItems(caps: seq<DeviceCapability>): (items: seq<seq<Value>>)
    ensures |items| == |caps| && ManyFit(DEVICE_SHAPE, items)
    ensures forall i :: 0 <= i < |caps| ==> items[i] == DeviceValues(caps[i])
  {
    hide DeviceValues;
    var items := seq(|caps|, i requires 0 <= i < |caps| => DeviceValues(caps[i]));
    ManyFitPointwise(DEVICE_SHAPE, items);
    items
  }

  function DevicesOf(items: seq<seq<Value>>): (caps: seq<DeviceCapability>)
    requires ManyFit(DEVICE_SHAPE, items)
    ensures |caps| == |items|
    ensures DeviceItems(caps) == items
  {
    hide DeviceValues, DeviceOf;
    ManyFitPointwise(DEVICE_SHAPE, items);
    seq(|items|, i requires 0 <= i < |items| => DeviceOf(items[i]))
  }

  lemma DevicesOfItems(caps: seq<DeviceCapability>)
    ensures DevicesOf(DeviceItems(caps)) == caps
  {
    hide DeviceValues, DeviceOf;
    ManyFitPointwise(DEVICE_SHAPE, DeviceItems(caps));
    forall i | 0 <= i < |caps| ensures DevicesOf(DeviceItems(caps))[i] == caps[i] {
      DeviceOfValues(caps[i]);
    }
  }

  function CapabilityValues(r: CapabilityRecord): (vs: seq<Value>)
    ensures AllFit(CAPABILITY_SHAPE, vs)
  {
    hide DeviceItems;
    hide AllFit;
    Widths();
    var vs := [Raw(r.nodeId), Num(r.epoch), Raw(r.beaconNonce), Raw(r.prevRecord), Many(DeviceItems(r.capabilities)),
               Num(r.availabilityPpm), Num(r.powerMw), Num(r.thermalDk), Num(r.densityWitnessPpm)];
    FitPointwise(CAPABILITY_SHAPE, vs);
    vs
  }

  function CapabilityOf(vs: seq<Value>): (r: CapabilityRecord)
    requires AllFit(CAPABILITY_SHAPE, vs)
    ensures CapabilityValues(r) == vs
  {
    hide DeviceItems, DevicesOf;
    hide AllFit;
    Widths();
    FitPointwise(CAPABILITY_SHAPE, vs);
    assert
      && Fits(CAPABILITY_SHAPE[0], vs[0]) && Fits(CAPABILITY_SHAPE[1], vs[1])
      && Fits(CAPABILITY_SHAPE[2], vs[2]) && Fits(CAPABILITY_SHAPE[3], vs[3])
      && Fits(CAPABILITY_SHAPE[4], vs[4]) && Fits(CAPABILITY_SHAPE[5], vs[5])
      && Fits(CAPABILITY_SHAPE[6], vs[6]) && Fits(CAPABILITY_SHAPE[7], vs[7])
      && Fits(CAPABILITY_SHAPE[8], vs[8]);
    CapabilityRecord(vs[0].b, vs[1].v, vs[2].b, vs[3].b, DevicesOf(vs[4].items), vs[5].v, vs[6].v, vs[7].v, vs[8].v)
  }

  lemma CapabilityOfValues(r: CapabilityRecord)
    ensures CapabilityOf(CapabilityValues(r)) == r
  {
    hide DeviceItems, DevicesOf;
    DevicesOfItems(r.capabilities);
  }

  // ---- telemetry frames ----------------------------------------------------------------------------

  datatype FrameHeader = FrameHeader(
    schemaVersion: u16,
    frameType: u8,
    endpointPseudonym: Bytes32,
    identityIndex: u16,
    epoch: u64,
    runNonce: Bytes32,
    chainId: u32)

  // The frame is one flat run of fields; the groups below only give its stretches names.

  datatype RateBins = RateBins(tickIndex: u16, dlBin: u8, ulBin: u8, concurrentFlag: u8, aggDlBin: u8, aggUlBin: u8)

  /** Round-trip times to the eight anchors. */
  datatype Rtts = Rtts(r0: u16, r1: u16, r2: u16, r3: u16, r4: u16, r5: u16, r6: u16, r7: u16)

  datatype Origin = Origin(
    originChangeCount: u8, sharedOriginDegreeBin: u8, xferBytesBin: u8, morphologyId: u8, peakMicroBin: u8,
    crestEighthOct: u8)

  datatype Throttle = Throttle(dutyPpm: u32, throttleOnsetS: u8, preBin: u8, postBin: u8)

  datatype NetworkDensityFrame = NetworkDensityFrame(
    header: FrameHeader, bins: RateBins, rttQ: Rtts, origin: Origin, throttle: Throttle)

  const HEADER_SHAPE: seq<Kind> := [Int(2), Int(1), Fixed(32), Int(2), Int(8), Fixed(32), Int(4)]
  const BINS_SHAPE: seq<Kind> := [Int(2), Int(1), Int(1), Int(1), Int(1), Int(1)]
  const RTTS_SHAPE: seq<Kind> := [Int(2), Int(2), Int(2), Int(2), Int(2), Int(2), Int(2), Int(2)]
  const ORIGIN_SHAPE: seq<Kind> := [Int(1), Int(1), Int(1), Int(1), Int(1), Int(1)]
  const THROTTLE_SHAPE: seq<Kind> := [Int(4), Int(1), Int(1), Int(1)]
  const NDF_SHAPE: seq<Kind> := HEADER_SHAPE + (BINS_SHAPE + (RTTS_SHAPE + (ORIGIN_SHAPE + THROTTLE_SHAPE)))

  function HeaderValues(f: FrameHeader): (vs: seq<Value>)
    ensures |vs| == 7 && AllFit(HEADER_SHAPE, vs)
  {
    hide AllFit;
    Widths();
    var vs := [Num(f.schemaVersion), Num(f.frameType), Raw(f.endpointPseudonym), Num(f.identityIndex),
               Num(f.epoch), Raw(f.runNonce), Num(f.chainId)];
    FitPointwise(HEADER_SHAPE, vs);
    vs
  }

  function HeaderOf(vs: seq<Value>): (f: FrameHeader)
    requires AllFit(HEADER_SHAPE, vs)
    ensures HeaderValues(f) == vs
  {
    hide AllFit;
    Widths();
    FitPointwise(HEADER_SHAPE, vs);
    assert
      && Fits(HEADER_SHAPE[0], vs[0]) && Fits(HEADER_SHAPE[1], vs[1]) && Fits(HEADER_SHAPE[2], vs[2])
      && Fits(HEADER_SHAPE[3], vs[3]) && Fits(HEADER_SHAPE[4], vs[4]) && Fits(HEADER_SHAPE[5], vs[5])
      && Fits(HEADER_SHAPE[6], vs[6]);
    FrameHeader(vs[0].v, vs[1].v, vs[2].b, vs[3].v, vs[4].v, vs[5].b, vs[6].v)
  }

  lemma HeaderOfValues(f: FrameHeader)
    ensures HeaderOf(HeaderValues(f)) == f
  {
  }

  function BinValues(r: RateBins): (vs: seq<Value>)
    ensures |vs| == 6 && AllFit(BINS_SHAPE, vs)
  {
    hide AllFit;
    Widths();
    var vs := [Num(r.tickIndex), Num(r.dlBin), Num(r.ulBin), Num(r.concurrentFlag), Num(r.aggDlBin), Num(r.aggUlBin)];
    FitPointwise(BINS_SHAPE, vs);
    vs
  }

  function BinsOf(vs: seq<Value>): (r: RateBins)
    requires AllFit(BINS_SHAPE, vs)
    ensures BinValues(r) == vs
  {
    hide AllFit;
    Widths();
    FitPointwise(BINS_SHAPE, vs);
    assert
      && Fits(BINS_SHAPE[0], vs[0]) && Fits(BINS_SHAPE[1], vs[1]) && Fits(BINS_SHAPE[2], vs[2])
      && Fits(BINS_SHAPE[3], vs[3]) && Fits(BINS_SHAPE[4], vs[4]) && Fits(BINS_SHAPE[5], vs[5]);
    RateBins(vs[0].v, vs[1].v, vs[2].v, vs[3].v, vs[4].v, vs[5].v)
  }

  lemma BinsOfValues(r: RateBins)
    ensures BinsOf(BinValues(r)) == r
  {
  }

  function RttValues(r: Rtts): (vs: seq<Value>)
    ensures |vs| == 8 && AllFit(RTTS_SHAPE, vs)
  {
    hide AllFit;
    Widths();
    var vs := [Num(r.r0), Num(r.r1), Num(r.r2), Num(r.r3), Num(r.r4), Num(r.r5), Num(r.r6), Num(r.r7)];
    FitPointwise(RTTS_SHAPE, vs);
    vs
  }

  function RttsOf(vs: seq<Value>): (r: Rtts)
    requires AllFit(RTTS_SHAPE, vs)
    ensures RttValues(r) == vs
  {
    hide AllFit;
    Widths();
    FitPointwise(RTTS_SHAPE, vs);
    assert
      && Fits(RTTS_SHAPE[0], vs[0]) && Fits(RTTS_SHAPE[1], vs[1]) && Fits(RTTS_SHAPE[2], vs[2])
      && Fits(RTTS_SHAPE[3], vs[3]) && Fits(RTTS_SHAPE[4], vs[4]) && Fits(RTTS_SHAPE[5], vs[5])
      && Fits(RTTS_SHAPE[6], vs[6]) && Fits(RTTS_SHAPE[7], vs[7]);
    Rtts(vs[0].v, vs[1].v, vs[2].v, vs[3].v, vs[4].v, vs[5].v, vs[6].v, vs[7].v)
  }

  lemma RttsOfValues(r: Rtts)
    ensures RttsOf(RttValues(r)) == r
  {
  }

  function OriginValues(o: Origin): (vs: seq<Value>)
    ensures |vs| == 6 && AllFit(ORIGIN_SHAPE, vs)
  {
    hide AllFit;
    Widths();
    var vs := [Num(o.originChangeCount), Num(o.sharedOriginDegreeBin), Num(o.xferBytesBin), Num(o.morphologyId),
               Num(o.peakMicroBin), Num(o.crestEighthOct)];
    FitPointwise(ORIGIN_SHAPE, vs);
    vs
  }

  function OriginOf(vs: seq<Value>): (o: Origin)
    requires AllFit(ORIGIN_SHAPE, vs)
    ensures OriginValues(o) == vs
  {
    hide AllFit;
    Widths();
    FitPointwise(ORIGIN_SHAPE, vs);
    assert
      && Fits(ORIGIN_SHAPE[0], vs[0]) && Fits(ORIGIN_SHAPE[1], vs[1]) && Fits(ORIGIN_SHAPE[2], vs[2])
      && Fits(ORIGIN_SHAPE[3], vs[3]) && Fits(ORIGIN_SHAPE[4], vs[4]) && Fits(ORIGIN_SHAPE[5], vs[5]);
    Origin(vs[0].v, vs[1].v, vs[2].v, vs[3].v, vs[4].v, vs[5].v)
  }

  lemma OriginOfValues(o: Origin)
    ensures OriginOf(OriginValues(o)) == o
  {
  }

  function ThrottleValues(t: Throttle): (vs: seq<Value>)
    ensures |vs| == 4 && AllFit(THROTTLE_SHAPE, vs)
  {
    hide AllFit;
    Widths();
    var vs := [Num(t.dutyPpm), Num(t.throttleOnsetS), Num(t.preBin), Num(t.postBin)];
    FitPointwise(THROTTLE_SHAPE, vs);
    vs
  }

  function ThrottleOf(vs: seq<Value>): (t: Throttle)
    requires AllFit(THROTTLE_SHAPE, vs)
    ensures ThrottleValues(t) == vs
  {
    hide AllFit;
    Widths();
    FitPointwise(THROTTLE_SHAPE, vs);
    assert
      && Fits(THROTTLE_SHAPE[0], vs[0]) && Fits(THROTTLE_SHAPE[1], vs[1]) && Fits(THROTTLE_SHAPE[2], vs[2])
      && Fits(THROTTLE_SHAPE[3], vs[3]);
    Throttle(vs[0].v, vs[1].v, vs[2].v, vs[3].v)
  }

  lemma ThrottleOfValues(t: Throttle)
    ensures ThrottleOf(ThrottleValues(t)) == t
  {
  }

  function NdfValues(f: NetworkDensityFrame): (vs: seq<Value>)
    ensures AllFit(NDF_SHAPE, vs)
  {
    hide Fits, AllFit, HeaderValues, BinValues, RttValues, OriginValues, ThrottleValues;
    var h, b, r, o, t :=
      HeaderValues(f.header), BinValues(f.bins), RttValues(f.rttQ), OriginValues(f.origin), ThrottleValues(f.throttle);
    FitConcat(ORIGIN_SHAPE, THROTTLE_SHAPE, o, t);
    FitConcat(RTTS_SHAPE, ORIGIN_SHAPE + THROTTLE_SHAPE, r, o + t);
    FitConcat(BINS_SHAPE, RTTS_SHAPE + (ORIGIN_SHAPE + THROTTLE_SHAPE), b, r + (o + t));
    FitConcat(HEADER_SHAPE, BINS_SHAPE + (RTTS_SHAPE + (ORIGIN_SHAPE + THROTTLE_SHAPE)), h, b + (r + (o + t)));
    h + (b + (r + (o + t)))
  }

  lemma NdfParts(vs: seq<Value>)
    requires AllFit(NDF_SHAPE, vs)
    ensures |vs| == 31
    ensures AllFit(HEADER_SHAPE, vs[..7]) && AllFit(BINS_SHAPE, vs[7..13]) && AllFit(RTTS_SHAPE, vs[13..21])
    ensures AllFit(ORIGIN_SHAPE, vs[21..27]) && AllFit(THROTTLE_SHAPE, vs[27..])
    ensures vs == vs[..7] + (vs[7..13] + (vs[13..21] + (vs[21..27] + vs[27..])))
  {
    hide Fits, AllFit;
    var back := ORIGIN_SHAPE + THROTTLE_SHAPE;
    FitSplit(HEADER_SHAPE, BINS_SHAPE + (RTTS_SHAPE + back), vs);
    FitSplit(BINS_SHAPE, RTTS_SHAPE + back, vs[7..]);
    FitSplit(RTTS_SHAPE, back, vs[13..]) by { assert vs[7..][6..] == vs[13..]; }
    FitSplit(ORIGIN_SHAPE, THROTTLE_SHAPE, vs[21..]) by { assert vs[13..][8..] == vs[21..]; }
    assert vs[7..][..6] == vs[7..13];
    assert vs[13..][..8] == vs[13..21];
    assert vs[21..][..6] == vs[21..27];
    assert vs[21..][6..] == vs[27..];
  }

  function NdfOf(vs: seq<Value>): (f: NetworkDensityFrame)
    requires AllFit(NDF_SHAPE, vs)
    ensures NdfValues(f) == vs
  {
    hide AllFit, HeaderOf, BinsOf, RttsOf, OriginOf, ThrottleOf;
    hide HeaderValues, BinValues, RttValues, OriginValues, ThrottleValues;
    NdfParts(vs);
    NetworkDensityFrame(HeaderOf(vs[..7]), BinsOf(vs[7..13]), RttsOf(vs[13..21]), OriginOf(vs[21..27]),
                        ThrottleOf(vs[27..]))
  }

  lemma NdfOfValues(f: NetworkDensityFrame)
    ensures NdfOf(NdfValues(f)) == f
  {
    hide AllFit, HeaderOf, BinsOf, RttsOf, OriginOf, ThrottleOf;
    hide HeaderValues, BinValues, RttValues, OriginValues, ThrottleValues;
    var vs := NdfValues(f);
    assert vs[..7] == HeaderValues(f.header) && vs[7..13] == BinValues(f.bins) && vs[13..21] == RttValues(f.rttQ);
    assert vs[21..27] == OriginValues(f.origin) && vs[27..] == ThrottleValues(f.throttle);
    HeaderOfValues(f.header);
    BinsOfValues(f.bins);
    RttsOfValues(f.rttQ);
    OriginOfValues(f.origin);
    ThrottleOfValues(f.throttle);
  }
}
