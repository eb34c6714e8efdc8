/** The fragmenter and the reassembly table as the code runs them. */
module FramingMethods {
  import opened Machine
  import opened Bitset
  import opened Framing
  import R = Reassembly

  /** The UDP payloads a logical datagram is sent as. */
  function Fragments(logical: Bytes, msgId: u32): (frames: seq<Bytes>)
    ensures |logical| <= MAX_UDP_DATAGRAM ==> frames == [logical]
    ensures |logical| > MAX_LOGICAL_LEN ==> frames == []
    ensures MAX_UDP_DATAGRAM < |logical| <= MAX_LOGICAL_LEN ==>
              && |frames| == FragCount(|logical|)
              && forall i :: 0 <= i < |frames| ==> frames[i] == FrameOf(logical, msgId, i)
    ensures forall f :: f in frames ==> |f| <= MAX_UDP_DATAGRAM
  {
    if |logical| <= MAX_UDP_DATAGRAM then [logical]
    else if |logical| > MAX_LOGICAL_LEN then []
    else seq(FragCount(|logical|), i requires 0 <= i < FragCount(|logical|) => FrameOf(logical, msgId, i))
  }

  method FragmentDatagram(logical: Bytes, msgId: u32) returns (frames: seq<Bytes>)
    ensures frames == Fragments(logical, msgId)
  {
    if |logical| <= MAX_UDP_DATAGRAM {
      return [logical];
    }
    frames := [];
    if |logical| > MAX_LOGICAL_LEN {
      return;
    }
    var n := FragCount(|logical|);
    if n <= MAX_FRAGS {
      for i := 0 to n
        invariant |frames| == i
        invariant forall k :: 0 <= k < i ==> frames[k] == FrameOf(logical, msgId, k)
      {
        var chunk := logical[SlotStart(i)..SlotEnd(|logical|, i)];
        frames := frames + [ChunkFrame(Chunk(msgId, i, n, |logical|, chunk))];
      }
    }
  }

  datatype Packet = Packet(addr: Addr, bytes: Bytes)

  function To(addr: Addr, frames: seq<Bytes>): (out: seq<Packet>)
    ensures |out| == |frames|
    ensures forall i :: 0 <= i < |out| ==> out[i] == Packet(addr, frames[i])
  {
    seq(|frames|, i requires 0 <= i < |frames| => Packet(addr, frames[i]))
  }

  function MsgId(start: u32, i: nat): u32 {
    (start + i) % 0x1_0000_0000
  }

  /** The first `n` packets of a batch, each fragmented under its own message id. */
  function Expanded(batch: seq<Packet>, start: u32, n: nat): seq<Packet>
    requires n <= |batch|
  {
    if n == 0 then []
    else
      var pkt := batch[n - 1];
      Expanded(batch, start, n - 1) + To(pkt.addr, Fragments(pkt.bytes, MsgId(start, n - 1)))
  }

  /** Nothing that leaves exceeds the datagram limit. */
  lemma {:induction false} ExpandedFits(batch: seq<Packet>, start: u32, n: nat, p: Packet)
    requires n <= |batch| && p in Expanded(batch, start, n)
    ensures |p.bytes| <= MAX_UDP_DATAGRAM
  {
    hide Fragments, To, MsgId;
    var rest := Expanded(batch, start, n - 1);
    var frames := Fragments(batch[n - 1].bytes, MsgId(start, n - 1));
    var last := To(batch[n - 1].addr, frames);
    assert p in rest || p in last;
    if p in rest {
      ExpandedFits(batch, start, n - 1, p);
    } else {
      var i :| 0 <= i < |last| && last[i] == p;
      assert frames[i] in frames;
    }
  }

  /** Within a batch of at most 2^32 packets no two share a message id. */
  lemma MessageIdsDiffer(start: u32, i: nat, j: nat)
    requires i < j <= 0xFFFF_FFFF
    ensures MsgId(start, i) != MsgId(start, j)
  {
  }

  lemma NextId(start: u32, i: nat)
    ensures (MsgId(start, i) + 1) % 0x1_0000_0000 == MsgId(start, i + 1)
    ensures MsgId(start, 0) == start
  {
  }

  method Address(addr: Addr, frames: seq<Bytes>) returns (sent: seq<Packet>)
    ensures sent == To(addr, frames)
  {
    sent := [];
    for k := 0 to |frames|
      invariant |sent| == k
      invariant forall q :: 0 <= q < k ==> sent[q] == Packet(addr, frames[q])
    {
      sent := sent + [Packet(addr, frames[k])];
    }
  }

  method ExpandEgressBatch(batch: seq<Packet>, nextMsgId: u32) returns (out: seq<Packet>, next: u32)
    ensures out == Expanded(batch, nextMsgId, |batch|)
    ensures next == MsgId(nextMsgId, |batch|)
  {
    hide Fragments, To, MsgId;
    NextId(nextMsgId, 0);
    out, next := [], nextMsgId;
    for i := 0 to |batch|
      invariant out == Expanded(batch, nextMsgId, i)
      invariant next == MsgId(nextMsgId, i)
    {
      var id := next;
      NextId(nextMsgId, i);
      next := (next + 1) % 0x1_0000_0000;
      var frames := FragmentDatagram(batch[i].bytes, id);
      var sent := Address(batch[i].addr, frames);
      out := out + sent;
    }
  }

  class ReassemblyTable {
    var peers: R.Table

    constructor ()
      ensures peers == map[]
    {
      peers := map[];
    }

    /** Afterwards every partial younger than the time to live is still there, no other is, and no
        peer is left without one. */
    method Gc(now: Instant)
      modifies this
      ensures forall peer, id ::
                R.Lookup(peers, peer, id)
                == var was := old(R.Lookup(peers, peer, id));
                   if was.Some? && now < was.value.firstSeen + PARTIAL_TTL then was else None
      ensures forall peer :: peer in peers ==> peers[peer] != map[]
      ensures peers == R.Gc(old(peers), now)
    {
      hide R.Age;
      var kept: R.Table := map[];
      var left := peers.Keys;
      while left != {}
        invariant peers == old(peers) && left <= peers.Keys
        invariant kept == map peer | peer in R.Gc(peers, now) && peer !in left :: R.Gc(peers, now)[peer]
      {
        var peer :| peer in left;
        var live := Retain(peers[peer], now);
        if live != map[] {
          kept := kept[peer := live];
        }
        left := left - {peer};
      }
      assert kept == R.Gc(peers, now);
      forall peer, id { R.GcLookup(peers, now, peer, id); }
      peers := kept;
    }

    /** The partials of one peer that have not expired. */
    static method Retain(msgs: map<u32, R.Partial>, now: Instant) returns (live: map<u32, R.Partial>)
      ensures live == R.Live(msgs, now)
      ensures live == map id | id in msgs && now < msgs[id].firstSeen + PARTIAL_TTL :: msgs[id]
    {
      live := map[];
      var left := msgs.Keys;
      while left != {}
        invariant left <= msgs.Keys
        invariant live == map id | id in R.Live(msgs, now) && id !in left :: R.Live(msgs, now)[id]
      {
        var id :| id in left;
        if R.Age(msgs[id], now) < PARTIAL_TTL {
          live := live[id := msgs[id]];
        }
        left := left - {id};
      }
    }

    /** Any datagram at all may be given; a valid table stays valid. */
    method IngestChunk(peer: Addr, raw: Bytes, now: Instant) returns (r: R.Result)
      modifies this
      ensures R.Ingested(peers, r) == R.Ingest(old(peers), R.Arrival(peer, raw, now))
      ensures old(R.Valid(peers)) ==> R.Valid(peers)
    {
      ghost var before, a := peers, R.Arrival(peer, raw, now);
      if R.Valid(before) { R.IngestKeepsValid(before, a); }
      Gc(now);
      if !R.IsChunk(raw) {
        return R.Ok(None);
      }
      var parsed := Parse(raw);
      if parsed.Rejected? {
        return R.Err(parsed.error);
      }
      var c := parsed.chunk;
      R.AcceptedIsWellFormed(raw);
      r := Admit(peer, c, now);
    }

    method Admit(peer: Addr, c: Chunk, now: Instant) returns (r: R.Result)
      requires WellFormed(c)
      modifies this
      ensures R.Ingested(peers, r) == R.IngestChunk(old(peers), peer, c, now)
    {
      hide Store, SetBit, HasBit;
      if peer !in peers && |peers| >= MAX_PEERS_WITH_PARTIALS {
        return R.Err(GlobalPeerQuota);
      }
      var msgs: map<u32, R.Partial> := R.Messages(peers, peer);
      if c.msgId !in msgs && |msgs| >= MAX_PARTIALS_PER_PEER {
        peers := peers[peer := msgs];
        return R.Err(PeerQuota);
      }
      var partial := if c.msgId in msgs then msgs[c.msgId] else R.Fresh(c, now);
      if partial.total != c.total || partial.count != c.count || |partial.buf| != c.total {
        peers := peers[peer := msgs - {c.msgId}];
        return R.Err(Inconsistent);
      }
      if !HasBit(partial.received, c.idx) {
        partial := partial.(buf := Store(partial.buf, c.idx, c.payload),
                            received := SetBit(partial.received, c.idx));
      }
      if partial.received != Pow2(partial.count) - 1 {
        peers := peers[peer := msgs[c.msgId := partial]];
        return R.Ok(None);
      }
      msgs := msgs - {c.msgId};
      peers := if msgs == map[] then peers - {peer} else peers[peer := msgs];
      r := R.Ok(Some(partial.buf));
    }
  }
}
