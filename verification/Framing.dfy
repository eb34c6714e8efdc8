/** Chunks of a logical datagram: their slots, their frames and the checks a frame must pass. */
module Framing {
  import opened Machine
  import opened Endian

  const CHUNK_TAG: u8 := 0xF1
  const MAX_UDP_DATAGRAM: nat := 1200
  const CHUNK_HEADER_LEN: nat := 4 + 2 + 2 + 4
  const MAX_CHUNK_PAYLOAD: nat := MAX_UDP_DATAGRAM - 1 - CHUNK_HEADER_LEN
  const MAX_LOGICAL_LEN: nat := 16384
  const MAX_FRAGS: nat := 32
  const MAX_PARTIALS_PER_PEER: nat := 2
  const MAX_PEERS_WITH_PARTIALS: nat := 64

  /** Nanoseconds. */
  const PARTIAL_TTL: nat := 5_000_000_000

  type Addr = nat
  type Instant = nat

  datatype ReassemblyError = Malformed | TooLarge | TooManyFrags | PeerQuota | GlobalPeerQuota | Inconsistent

  /** A chunk frame taken apart. */
  datatype Chunk = Chunk(msgId: u32, idx: u16, count: u16, total: u32, payload: Bytes)

  // ---- slots of a message -------------------------------------------------------------

  /** How many chunks a message of `total` bytes needs. */
  function FragCount(total: nat): nat {
    (total + MAX_CHUNK_PAYLOAD - 1) / MAX_CHUNK_PAYLOAD
  }

  function SlotStart(i: nat): nat {
    i * MAX_CHUNK_PAYLOAD
  }

  function SlotEnd(total: nat, i: nat): nat {
    Min(total, SlotStart(i) + MAX_CHUNK_PAYLOAD)
  }

  /** The bytes of `buf` that chunk `i` carries. */
  function Slot(buf: Bytes, i: nat): (s: Bytes)
    requires i < FragCount(|buf|)
    ensures |s| == SlotEnd(|buf|, i) - SlotStart(i)
  {
    buf[SlotStart(i)..SlotEnd(|buf|, i)]
  }

  function Store(buf: Bytes, i: nat, payload: Bytes): (r: Bytes)
    requires i < FragCount(|buf|) && |payload| == |Slot(buf, i)|
    ensures |r| == |buf|
  {
    buf[..SlotStart(i)] + payload + buf[SlotEnd(|buf|, i)..]
  }

  lemma SpliceSlices(a: Bytes, p: Bytes, c: Bytes, lo: nat, hi: nat)
    requires lo <= hi <= |a| + |p| + |c|
    ensures hi <= |a| ==> (a + p + c)[lo..hi] == a[lo..hi]
    ensures lo >= |a| + |p| ==> (a + p + c)[lo..hi] == c[lo - |a| - |p|..hi - |a| - |p|]
    ensures lo == |a| && hi == |a| + |p| ==> (a + p + c)[lo..hi] == p
  {
  }

  lemma StoreSlot(buf: Bytes, i: nat, payload: Bytes, k: nat)
    requires i < FragCount(|buf|) && k < FragCount(|buf|) && |payload| == |Slot(buf, i)|
    ensures Slot(Store(buf, i, payload), k) == if k == i then payload else Slot(buf, k)
  {
    SlotsApart(|buf|, i, k);
    SpliceSlot(buf, SlotStart(i), SlotEnd(|buf|, i), payload, SlotStart(k), SlotEnd(|buf|, k));
  }

  lemma SlotsApart(total: nat, i: nat, k: nat)
    requires i < FragCount(total) && k < FragCount(total)
    ensures k < i ==> SlotEnd(total, k) <= SlotStart(i)
    ensures k > i ==> SlotStart(k) >= SlotEnd(total, i)
  {
  }

  lemma SpliceSlot(buf: Bytes, from: nat, to: nat, payload: Bytes, lo: nat, hi: nat)
    requires from <= to <= |buf| && |payload| == to - from && lo <= hi <= |buf|
    ensures hi <= from || lo >= to ==> (buf[..from] + payload + buf[to..])[lo..hi] == buf[lo..hi]
    ensures lo == from && hi == to ==> (buf[..from] + payload + buf[to..])[lo..hi] == payload
  {
    assert buf == buf[..from] + buf[from..to] + buf[to..];
    SpliceSlices(buf[..from], payload, buf[to..], lo, hi);
    SpliceSlices(buf[..from], buf[from..to], buf[to..], lo, hi);
  }

  /** A message is determined by its slots. */
  lemma SlotsDetermine(a: Bytes, b: Bytes)
    requires |a| == |b| && forall i: nat :: i < FragCount(|a|) ==> Slot(a, i) == Slot(b, i)
    ensures a == b
  {
    forall j | 0 <= j < |a| ensures a[j] == b[j] {
      var i := j / MAX_CHUNK_PAYLOAD;
      assert Slot(a, i)[j - SlotStart(i)] == a[j];
      assert Slot(b, i)[j - SlotStart(i)] == b[j];
    }
  }

  // ---- chunk frames ---------------------------------------------------------------------

  function ChunkFrame(c: Chunk): (f: Bytes)
    ensures |f| == 1 + CHUNK_HEADER_LEN + |c.payload|
  {
    [CHUNK_TAG] + LE(c.msgId, 4) + LE(c.idx, 2) + LE(c.count, 2) + LE(c.total, 4) + c.payload
  }

  /** Header fields by position, as the reader takes them. */
  function ReadHeader(raw: Bytes): (c: Chunk)
    requires |raw| >= 1 + CHUNK_HEADER_LEN
  {
    FieldBounds(raw);
    Chunk(FromLE(raw[1..5]), FromLE(raw[5..7]), FromLE(raw[7..9]), FromLE(raw[9..13]), raw[13..])
  }

  lemma FieldBounds(raw: Bytes)
    requires |raw| >= 1 + CHUNK_HEADER_LEN
    ensures FromLE(raw[1..5]) < 0x1_0000_0000 && FromLE(raw[9..13]) < 0x1_0000_0000
    ensures FromLE(raw[5..7]) < 0x1_0000 && FromLE(raw[7..9]) < 0x1_0000
  {
    Widths();
    FromLEBound(raw[1..5]);
    FromLEBound(raw[5..7]);
    FromLEBound(raw[7..9]);
    FromLEBound(raw[9..13]);
  }

  lemma FrameSlices(c: Chunk)
    ensures var f := ChunkFrame(c);
            && f[0] == CHUNK_TAG && f[1..5] == LE(c.msgId, 4) && f[5..7] == LE(c.idx, 2)
            && f[7..9] == LE(c.count, 2) && f[9..13] == LE(c.total, 4) && f[13..] == c.payload
  {
  }

  /** Reading a frame gives back the chunk it was made from. */
  lemma ReadFrame(c: Chunk)
    ensures ReadHeader(ChunkFrame(c)) == c
  {
    FrameSlices(c);
    Widths();
    LERoundTrip(c.msgId, 4);
    LERoundTrip(c.idx, 2);
    LERoundTrip(c.count, 2);
    LERoundTrip(c.total, 4);
  }

  /** Every tagged datagram with a whole header is the frame of what is read from it. */
  lemma FrameRead(raw: Bytes)
    requires |raw| >= 1 + CHUNK_HEADER_LEN && raw[0] == CHUNK_TAG
    ensures ChunkFrame(ReadHeader(raw)) == raw
  {
    LEReadBack(raw[1..5]);
    LEReadBack(raw[5..7]);
    LEReadBack(raw[7..9]);
    LEReadBack(raw[9..13]);
    assert raw == [raw[0]] + raw[1..5] + raw[5..7] + raw[7..9] + raw[9..13] + raw[13..];
  }

  datatype Parsed = Accepted(chunk: Chunk) | Rejected(error: ReassemblyError)

  /** The header checks, in the order the code makes them. */
  function Parse(raw: Bytes): Parsed {
    if |raw| < 1 + CHUNK_HEADER_LEN then Rejected(Malformed)
    else
      var c := ReadHeader(raw);
      if c.total > MAX_LOGICAL_LEN || c.total == 0 then Rejected(TooLarge)
      else
        var expected := FragCount(c.total);
        if expected == 0 || expected > MAX_FRAGS then Rejected(TooManyFrags)
        else if c.count != expected then Rejected(Inconsistent)
        else if c.count == 0 || c.idx >= c.count then Rejected(TooManyFrags)
        else if |c.payload| > MAX_CHUNK_PAYLOAD then Rejected(Malformed)
        else if SlotStart(c.idx) >= c.total then Rejected(Inconsistent)
        else if |c.payload| != Min(c.total - SlotStart(c.idx), MAX_CHUNK_PAYLOAD) then Rejected(Inconsistent)
        else Accepted(c)
  }

  /** Chunk `i` of message `m`. */
  function ChunkOf(m: Bytes, msgId: u32, i: nat): (c: Chunk)
    requires |m| <= MAX_LOGICAL_LEN && i < FragCount(|m|)
  {
    Chunk(msgId, i, FragCount(|m|), |m|, Slot(m, i))
  }

  /** Frame `i` of message `m`. */
  function FrameOf(m: Bytes, msgId: u32, i: nat): (f: Bytes)
    requires |m| <= MAX_LOGICAL_LEN && i < FragCount(|m|)
  {
    ChunkFrame(ChunkOf(m, msgId, i))
  }

  /** A well-formed chunk: it could be a chunk of some message. */
  predicate WellFormed(c: Chunk) {
    && 0 < c.total <= MAX_LOGICAL_LEN
    && c.count == FragCount(c.total)
    && c.idx < c.count
    && |c.payload| == SlotEnd(c.total, c.idx) - SlotStart(c.idx)
  }

  lemma ParseFrame(m: Bytes, msgId: u32, i: nat)
    requires 0 < |m| <= MAX_LOGICAL_LEN && i < FragCount(|m|)
    ensures Parse(FrameOf(m, msgId, i)) == Accepted(ChunkOf(m, msgId, i))
  {
    ReadFrame(ChunkOf(m, msgId, i));
  }

  ghost predicate IsFrameOfSomeMessage(raw: Bytes) {
    exists m: Bytes, msgId: u32, i: nat ::
      0 < |m| <= MAX_LOGICAL_LEN && i < FragCount(|m|) && raw == FrameOf(m, msgId, i)
  }

  function Zeros(n: nat): (z: Bytes)
    ensures |z| == n
  {
    seq(n, _ => 0)
  }

  /** The header checks accept exactly the frames of messages: the parser's domain is the
      printer's image. */
  lemma AcceptsExactlyFrames(raw: Bytes)
    requires raw != [] && raw[0] == CHUNK_TAG
    ensures Parse(raw).Accepted? <==> IsFrameOfSomeMessage(raw)
    ensures Parse(raw).Accepted? ==> WellFormed(Parse(raw).chunk) && raw == ChunkFrame(Parse(raw).chunk)
  {
    if Parse(raw).Accepted? {
      var c := Parse(raw).chunk;
      FrameRead(raw);
      var m := Store(Zeros(c.total), c.idx, c.payload);
      StoreSlot(Zeros(c.total), c.idx, c.payload, c.idx);
      assert raw == FrameOf(m, c.msgId, c.idx);
    }
    if IsFrameOfSomeMessage(raw) {
      var m: Bytes, msgId: u32, i: nat :|
        0 < |m| <= MAX_LOGICAL_LEN && i < FragCount(|m|) && raw == FrameOf(m, msgId, i);
      ParseFrame(m, msgId, i);
    }
  }

  /** Why a tagged datagram with a whole header is refused: one reason for each field. */
  lemma RejectionReasons(raw: Bytes)
    requires |raw| >= 1 + CHUNK_HEADER_LEN
    ensures var c, r := ReadHeader(raw), Parse(raw);
            var inRange := 0 < c.total <= MAX_LOGICAL_LEN;
            var counted := inRange && c.count == FragCount(c.total);
            var indexed := counted && c.idx < c.count;
            var short := |c.payload| <= MAX_CHUNK_PAYLOAD;
            && (r == Rejected(TooLarge) <==> !inRange)
            && (r == Rejected(TooManyFrags) <==> counted && !indexed)
            && (r == Rejected(Malformed) <==> indexed && !short)
            && (r == Rejected(Inconsistent) <==>
                  || (inRange && !counted)
                  || (indexed && short && |c.payload| != SlotEnd(c.total, c.idx) - SlotStart(c.idx)))
  {
  }

  /** Three of the code's guards never fire: no fragments, more than 32 of them, and a chunk that
      would start beyond the end. */
  lemma DeadGuards(total: nat, idx: nat)
    requires 0 < total <= MAX_LOGICAL_LEN
    ensures 0 < FragCount(total) <= MAX_FRAGS
    ensures idx < FragCount(total) ==> SlotStart(idx) < total
  {
  }
}
