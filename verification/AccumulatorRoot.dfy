/** The canonical bytes of an accumulator, whose hash is its window root. */
module AccumulatorRoot {
  import opened Machine
  import opened Endian
  import opened Coverage

  /** "GACC" and a version byte. */
  const MAGIC: Bytes := [0x47, 0x41, 0x43, 0x43, 0x01]

  /** Every number fits its field; the code raises OverflowError otherwise. */
  predicate Encodable(acc: Accumulator) {
    && |acc.key.classId| < 0x1_0000_0000
    && 0 <= acc.key.window <= U64_MAX
    && acc.volume <= U64_MAX && acc.divergences <= U64_MAX && acc.faults <= U64_MAX
    && acc.clusters <= U64_MAX && acc.asns <= U64_MAX
  }

  function Numbers(acc: Accumulator): (b: Bytes)
    requires Encodable(acc)
    ensures |b| == 48
  {
    BE(acc.key.window, 8) + BE(acc.volume, 8) + BE(acc.divergences, 8) + BE(acc.faults, 8) + BE(acc.clusters, 8)
    + BE(acc.asns, 8)
  }

  function Serialize(acc: Accumulator): Option<Bytes> {
    if Encodable(acc) then Some(MAGIC + BE(|acc.key.classId|, 4) + acc.key.classId + Numbers(acc)) else None
  }

  /** Six numbers of eight bytes each, most significant byte first. */
  lemma NumberSlices(acc: Accumulator)
    requires Encodable(acc)
    ensures var b := Numbers(acc);
            && b[0..8] == BE(acc.key.window, 8) && b[8..16] == BE(acc.volume, 8)
            && b[16..24] == BE(acc.divergences, 8) && b[24..32] == BE(acc.faults, 8)
            && b[32..40] == BE(acc.clusters, 8) && b[40..48] == BE(acc.asns, 8)
  {
    hide BE;
  }

  lemma NumbersInjective(a: Accumulator, b: Accumulator)
    requires Encodable(a) && Encodable(b) && Numbers(a) == Numbers(b) && a.key.classId == b.key.classId
    ensures a == b
  {
    hide BE, Numbers, Pow256;
    NumberSlices(a);
    NumberSlices(b);
    Widths();
    BEInjective(a.key.window, b.key.window, 8);
    BEInjective(a.volume, b.volume, 8);
    BEInjective(a.divergences, b.divergences, 8);
    BEInjective(a.faults, b.faults, 8);
    BEInjective(a.clusters, b.clusters, 8);
    BEInjective(a.asns, b.asns, 8);
  }

  /** Where each part of the encoding lies. */
  lemma SerialSlices(acc: Accumulator)
    requires Encodable(acc)
    ensures var s, n := Serialize(acc).value, |acc.key.classId|;
            && |s| == 57 + n && s[..5] == MAGIC && s[5..9] == BE(n, 4)
            && s[9..9 + n] == acc.key.classId && s[9 + n..] == Numbers(acc)
  {
    hide BE, Numbers;
  }

  /** The encoding exists exactly when every number fits, and no two accumulators share one. */
  lemma SerializeInjective(a: Accumulator, b: Accumulator)
    requires Serialize(a).Some? && Serialize(a) == Serialize(b)
    ensures a == b
  {
    hide BE, Numbers, Pow256;
    SerialSlices(a);
    SerialSlices(b);
    Widths();
    BEInjective(|a.key.classId|, |b.key.classId|, 4);
    hide Serialize;
    NumbersInjective(a, b);
  }
}
