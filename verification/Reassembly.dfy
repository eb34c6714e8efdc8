/** The bounded reassembly table: what every datagram keeps, and what a message in it holds. */
module Reassembly {
  import opened Machine
  import opened Bitset
  import opened Framing

  /** A message under reassembly: a received-bitset over a buffer that fills in place. */
  datatype Partial = Partial(total: nat, count: nat, received: nat, buf: Bytes, firstSeen: Instant)

  type Table = map<Addr, map<u32, Partial>>

  datatype Result = Ok(message: Option<Bytes>) | Err(error: ReassemblyError)

  datatype Ingested = Ingested(table: Table, result: Result)

  /** One datagram as it arrives. */
  datatype Arrival = Arrival(peer: Addr, raw: Bytes, now: Instant)

  // ---- one partial message ----------------------------------------------------------------

  ghost predicate Sound(p: Partial) {
    && 0 < p.total <= MAX_LOGICAL_LEN
    && p.count == FragCount(p.total)
    && |p.buf| == p.total
    && p.received < Pow2(p.count)
  }

  /** The chunks received so far, by index: the meaning of the bitset and the buffer. */
  ghost function Chunks(p: Partial): (m: map<nat, Bytes>)
    requires Sound(p)
  {
    map i: nat | i < p.count && HasBit(p.received, i) :: Slot(p.buf, i)
  }

  function Fresh(c: Chunk, now: Instant): Partial {
    Partial(c.total, c.count, 0, Zeros(c.total), now)
  }

  lemma FreshIsEmpty(c: Chunk, now: Instant)
    requires WellFormed(c)
    ensures Sound(Fresh(c, now)) && Chunks(Fresh(c, now)) == map[]
    ensures Fresh(c, now).firstSeen == now && Fresh(c, now).total == c.total
  {
    forall i: nat ensures !HasBit(0, i) { NoBitsInZero(i); }
  }

  /** Copy the payload and set the bit, unless the bit is already set. */
  function Receive(p: Partial, c: Chunk): Partial
    requires WellFormed(c) && |p.buf| == c.total
  {
    if HasBit(p.received, c.idx) then p
    else p.(buf := Store(p.buf, c.idx, c.payload), received := SetBit(p.received, c.idx))
  }

  /** A repeated index changes nothing; a new one adds its payload. */
  lemma ReceiveAddsChunk(p: Partial, c: Chunk)
    requires Sound(p) && WellFormed(c) && p.total == c.total
    ensures Sound(Receive(p, c))
    ensures Chunks(Receive(p, c)) == if c.idx in Chunks(p) then Chunks(p) else Chunks(p)[c.idx := c.payload]
    ensures Receive(p, c).received != 0
    ensures Receive(p, c).firstSeen == p.firstSeen && Receive(p, c).total == p.total
  {
    var q := Receive(p, c);
    SetBitBound(p.received, c.idx, p.count);
    forall i: nat | i < p.count
      ensures HasBit(q.received, i) <==> (HasBit(p.received, i) || i == c.idx)
      ensures !HasBit(p.received, c.idx) ==> Slot(q.buf, i) == if i == c.idx then c.payload else Slot(p.buf, i)
    {
      HasSetBit(p.received, c.idx, i);
      if !HasBit(p.received, c.idx) { StoreSlot(p.buf, c.idx, c.payload, i); }
    }
    NoBitsInZero(c.idx);
  }

  predicate Full(p: Partial) {
    p.received == Pow2(p.count) - 1
  }

  lemma FullMeansAll(p: Partial)
    requires Sound(p)
    ensures Full(p) <==> forall i: nat :: i < p.count ==> i in Chunks(p)
  {
    FullMask(p.received, p.count);
    if forall i: nat :: i < p.count ==> i in Chunks(p) {
      assert AllBits(p.received, p.count) by {
        forall i | 0 <= i < p.count ensures HasBit(p.received, i) { assert (i as nat) in Chunks(p); }
      }
    }
  }

  // ---- the table ----------------------------------------------------------------------------

  function Age(p: Partial, now: Instant): nat {
    if now >= p.firstSeen then now - p.firstSeen else 0
  }

  function Live(msgs: map<u32, Partial>, now: Instant): map<u32, Partial> {
    map id | id in msgs && Age(msgs[id], now) < PARTIAL_TTL :: msgs[id]
  }

  /** Drop expired partials, then peers left with none. */
  function Gc(t: Table, now: Instant): Table {
    map peer | peer in t && Live(t[peer], now) != map[] :: Live(t[peer], now)
  }

  function Messages(t: Table, peer: Addr): map<u32, Partial> {
    if peer in t then t[peer] else map[]
  }

  /** There is room for a message of `peer` named `id`, or it is already there. */
  predicate Admits(t: Table, peer: Addr, id: u32) {
    && (peer in t || |t| < MAX_PEERS_WITH_PARTIALS)
    && (id in Messages(t, peer) || |Messages(t, peer)| < MAX_PARTIALS_PER_PEER)
  }

  function IngestChunk(g: Table, peer: Addr, c: Chunk, now: Instant): Ingested
    requires WellFormed(c)
  {
    if peer !in g && |g| >= MAX_PEERS_WITH_PARTIALS then Ingested(g, Err(GlobalPeerQuota))
    else
      var msgs := Messages(g, peer);
      if c.msgId !in msgs && |msgs| >= MAX_PARTIALS_PER_PEER then Ingested(g[peer := msgs], Err(PeerQuota))
      else
        var p := if c.msgId in msgs then msgs[c.msgId] else Fresh(c, now);
        if p.total != c.total || p.count != c.count || |p.buf| != c.total then
          Ingested(g[peer := msgs - {c.msgId}], Err(Inconsistent))
        else
          var q := Receive(p, c);
          if !Full(q) then Ingested(g[peer := msgs[c.msgId := q]], Ok(None))
          else
            var rest := msgs - {c.msgId};
            Ingested(if rest == map[] then g - {peer} else g[peer := rest], Ok(Some(q.buf)))
  }

  predicate IsChunk(raw: Bytes) {
    raw != [] && raw[0] == CHUNK_TAG
  }

  lemma AcceptedIsWellFormed(raw: Bytes)
    requires IsChunk(raw)
    ensures Parse(raw).Accepted? ==> WellFormed(Parse(raw).chunk)
  {
    AcceptsExactlyFrames(raw);
  }

  function Ingest(t: Table, a: Arrival): Ingested {
    var g := Gc(t, a.now);
    if !IsChunk(a.raw) then Ingested(g, Ok(None))
    else
      match Parse(a.raw)
      case Rejected(e) => Ingested(g, Err(e))
      case Accepted(c) =>
        AcceptedIsWellFormed(a.raw);
        IngestChunk(g, a.peer, c, a.now)
  }

  // ---- what every table keeps ----------------------------------------------------------------

  ghost predicate Valid(t: Table) {
    && |t| <= MAX_PEERS_WITH_PARTIALS
    && forall peer :: peer in t ==> ValidMessages(t[peer])
  }

  ghost predicate ValidMessages(msgs: map<u32, Partial>) {
    && |msgs| <= MAX_PARTIALS_PER_PEER
    && forall id :: id in msgs ==> Sound(msgs[id]) && msgs[id].received != 0 && !Full(msgs[id])
  }

  lemma EmptyTable(peer: Addr, id: u32)
    ensures Valid(map[]) && Lookup(map[], peer, id) == None
  {
  }

  lemma SubmapIsSmaller<K, V>(a: map<K, V>, b: map<K, V>)
    requires a.Keys <= b.Keys
    ensures |a| <= |b|
  {
    SubsetSize(a.Keys, b.Keys);
  }

  lemma GcKeepsValid(t: Table, now: Instant)
    requires Valid(t)
    ensures Valid(Gc(t, now))
  {
    SubmapIsSmaller(Gc(t, now), t);
    forall peer | peer in Gc(t, now) ensures ValidMessages(Gc(t, now)[peer]) {
      SubmapIsSmaller(Live(t[peer], now), t[peer]);
    }
  }

  lemma PutPeer(g: Table, peer: Addr, msgs: map<u32, Partial>)
    requires Valid(g) && ValidMessages(msgs) && (peer in g || |g| < MAX_PEERS_WITH_PARTIALS)
    ensures Valid(g[peer := msgs])
  {
    if peer in g { assert g[peer := msgs].Keys == g.Keys; }
  }

  lemma DropPeer(g: Table, peer: Addr)
    requires Valid(g)
    ensures Valid(g - {peer})
  {
    SubmapIsSmaller(g - {peer}, g);
  }

  lemma PutMessage(msgs: map<u32, Partial>, id: u32, q: Partial)
    requires ValidMessages(msgs) && (id in msgs || |msgs| < MAX_PARTIALS_PER_PEER)
    requires Sound(q) && q.received != 0 && !Full(q)
    ensures ValidMessages(msgs[id := q])
  {
    if id in msgs { assert msgs[id := q].Keys == msgs.Keys; }
  }

  lemma DropMessage(msgs: map<u32, Partial>, id: u32)
    requires ValidMessages(msgs)
    ensures ValidMessages(msgs - {id})
  {
    SubmapIsSmaller(msgs - {id}, msgs);
  }

  /** The five tables a chunk can lead to. */
  lemma TableCases(g: Table, peer: Addr, c: Chunk, now: Instant)
    requires WellFormed(c)
    ensures var t, msgs := IngestChunk(g, peer, c, now).table, Messages(g, peer);
            var p := if c.msgId in msgs then msgs[c.msgId] else Fresh(c, now);
            if !Admits(g, peer, c.msgId) then t == g
            else
              || t == g[peer := msgs - {c.msgId}]
              || t == g - {peer}
              || (&& p.total == c.total == |p.buf| && !Full(Receive(p, c))
                  && t == g[peer := msgs[c.msgId := Receive(p, c)]])
  {
    hide Receive, Full, Fresh;
    if peer in g { assert g[peer := g[peer]] == g; }
  }

  lemma HeldOrFresh(g: Table, peer: Addr, c: Chunk, now: Instant)
    requires Valid(g) && WellFormed(c)
    ensures var msgs := Messages(g, peer);
            && ValidMessages(msgs)
            && Sound(if c.msgId in msgs then msgs[c.msgId] else Fresh(c, now))
  {
    FreshIsEmpty(c, now);
  }

  lemma AdmitsMeans(g: Table, peer: Addr, id: u32)
    requires Admits(g, peer, id)
    ensures peer in g || |g| < MAX_PEERS_WITH_PARTIALS
    ensures id in Messages(g, peer) || |Messages(g, peer)| < MAX_PARTIALS_PER_PEER
  {
  }

  lemma IngestChunkKeepsValid(g: Table, peer: Addr, c: Chunk, now: Instant)
    requires Valid(g) && WellFormed(c)
    ensures Valid(IngestChunk(g, peer, c, now).table)
  {
    hide *;
    var msgs := Messages(g, peer);
    var p := if c.msgId in msgs then msgs[c.msgId] else Fresh(c, now);
    HeldOrFresh(g, peer, c, now);
    TableCases(g, peer, c, now);
    if Admits(g, peer, c.msgId) {
      AdmitsMeans(g, peer, c.msgId);
      DropMessage(msgs, c.msgId);
      PutPeer(g, peer, msgs - {c.msgId});
      DropPeer(g, peer);
      if p.total == c.total == |p.buf| && !Full(Receive(p, c)) {
        ReceiveAddsChunk(p, c);
        PutMessage(msgs, c.msgId, Receive(p, c));
        PutPeer(g, peer, msgs[c.msgId := Receive(p, c)]);
      }
    }
  }

  /** Every datagram, whatever it holds, leaves a valid table: at most 64 peers, at most 2
      partials each, every buffer exactly as long as its message and at most 16384 bytes, every
      fragment count right, every bitset non-empty, in range and incomplete. */
  lemma IngestKeepsValid(t: Table, a: Arrival)
    requires Valid(t)
    ensures Valid(Ingest(t, a).table)
  {
    GcKeepsValid(t, a.now);
    if IsChunk(a.raw) && Parse(a.raw).Accepted? {
      AcceptedIsWellFormed(a.raw);
      IngestChunkKeepsValid(Gc(t, a.now), a.peer, Parse(a.raw).chunk, a.now);
    }
  }

  // ---- one key at a time ------------------------------------------------------------------------

  function Lookup(t: Table, peer: Addr, id: u32): Option<Partial> {
    if peer in t && id in t[peer] then Some(t[peer][id]) else None
  }

  lemma ValidLookup(t: Table, peer: Addr, id: u32)
    requires Valid(t) && Lookup(t, peer, id).Some?
    ensures var p := Lookup(t, peer, id).value;
            Sound(p) && p.received != 0 && !Full(p)
  {
    assert ValidMessages(t[peer]);
  }

  /** Collection forgets exactly the partials opened five seconds ago or more. */
  lemma GcLookup(t: Table, now: Instant, peer: Addr, id: u32)
    ensures var was := Lookup(t, peer, id);
            Lookup(Gc(t, now), peer, id)
            == if was.Some? && now < was.value.firstSeen + PARTIAL_TTL then was else None
  {
    if peer in t {
      var live := Live(t[peer], now);
      if id in live { assert live != map[]; }
    }
  }

  /** The messages of `peer` that were opened less than five seconds ago. */
  ghost function LiveIds(t: Table, peer: Addr, now: Instant): set<u32> {
    set id | id in Messages(t, peer) && now < Messages(t, peer)[id].firstSeen + PARTIAL_TTL
  }

  /** The peers that have one. */
  ghost function LivePeers(t: Table, now: Instant): set<Addr> {
    set peer | peer in t && LiveIds(t, peer, now) != {}
  }

  lemma GcKeys(t: Table, peer: Addr, now: Instant)
    ensures Messages(Gc(t, now), peer).Keys == LiveIds(t, peer, now)
    ensures peer in Gc(t, now) <==> peer in LivePeers(t, now)
    ensures Gc(t, now).Keys == LivePeers(t, now)
  {
    forall p ensures p in Gc(t, now) <==> p in LivePeers(t, now) {
      if p in t {
        assert Live(t[p], now).Keys == LiveIds(t, p, now);
        assert Live(t[p], now) == map[] <==> Live(t[p], now).Keys == {};
      }
    }
    if peer in t {
      assert Live(t[peer], now).Keys == LiveIds(t, peer, now);
    }
  }

  /** When a chunk is refused for lack of room: its message is not live, and either two others of its
      peer are, or the peer has none and 64 other peers do. */
  lemma RefusedForRoomIff(t: Table, a: Arrival, id: u32)
    requires Valid(t) && Own(a, a.peer, id)
    ensures var ids := LiveIds(t, a.peer, a.now);
            && (Ingest(t, a).result == Err(PeerQuota) <==> id !in ids && |ids| >= 2)
            && (Ingest(t, a).result == Err(GlobalPeerQuota) <==> ids == {} && |LivePeers(t, a.now)| >= 64)
  {
    hide Gc, Parse, Receive, Full, Fresh, Sound, WellFormed;
    GcKeepsValid(t, a.now);
    GcKeys(t, a.peer, a.now);
    AcceptedIsWellFormed(a.raw);
    var g := Gc(t, a.now);
    assert |g| == |g.Keys| && |Messages(g, a.peer)| == |Messages(g, a.peer).Keys|;
    assert a.peer in g <==> LiveIds(t, a.peer, a.now) != {};
  }

  /** The datagram is an accepted chunk of message `id` from `peer`. */
  predicate Own(a: Arrival, peer: Addr, id: u32) {
    && a.peer == peer
    && IsChunk(a.raw)
    && Parse(a.raw).Accepted?
    && Parse(a.raw).chunk.msgId == id
  }

  lemma ChunkLeavesOtherKeys(g: Table, from: Addr, c: Chunk, now: Instant, peer: Addr, id: u32)
    requires WellFormed(c) && (from != peer || c.msgId != id)
    ensures Lookup(IngestChunk(g, from, c, now).table, peer, id) == Lookup(g, peer, id)
  {
    hide Receive, Full, Fresh;
    var msgs := Messages(g, from);
    if from == peer && id in msgs {
      assert id in msgs - {c.msgId};
    }
  }

  /** A datagram that is not a chunk of the message, from whatever peer and however malformed,
      leaves the message as collection found it. */
  lemma OthersDoNotInterfere(t: Table, a: Arrival, peer: Addr, id: u32)
    requires !Own(a, peer, id)
    ensures Lookup(Ingest(t, a).table, peer, id) == Lookup(Gc(t, a.now), peer, id)
  {
    if IsChunk(a.raw) && Parse(a.raw).Accepted? {
      AcceptedIsWellFormed(a.raw);
      ChunkLeavesOtherKeys(Gc(t, a.now), a.peer, Parse(a.raw).chunk, a.now, peer, id);
    }
  }

  /** What a chunk of the message does to it, and what it answers. */
  ghost predicate StepsTo(was: Option<Partial>, admitted: bool, c: Chunk, now: Instant, after: Option<Partial>,
                          r: Result)
    requires WellFormed(c) && (was.Some? ==> Sound(was.value))
  {
    var p := if was.Some? then was.value else Fresh(c, now);
    if !admitted then
      after == was == None && (r == Err(PeerQuota) || r == Err(GlobalPeerQuota))
    else if p.total != c.total then
      after == None && r == Err(Inconsistent)
    else if Full(Receive(p, c)) then
      after == None && r == Ok(Some(Receive(p, c).buf))
    else
      after == Some(Receive(p, c)) && r == Ok(None)
  }

  lemma OwnChunk(g: Table, peer: Addr, c: Chunk, now: Instant)
    requires Valid(g) && WellFormed(c)
    ensures var was := Lookup(g, peer, c.msgId);
            var r := IngestChunk(g, peer, c, now);
            && (was.Some? ==> Sound(was.value))
            && StepsTo(was, Admits(g, peer, c.msgId), c, now, Lookup(r.table, peer, c.msgId), r.result)
  {
    hide Receive, Full;
    if Lookup(g, peer, c.msgId).Some? {
      ValidLookup(g, peer, c.msgId);
    }
  }

  lemma OwnArrival(t: Table, a: Arrival, peer: Addr, id: u32)
    requires Valid(t) && Own(a, peer, id)
    ensures var c := Parse(a.raw).chunk;
            var g := Gc(t, a.now);
            var was := Lookup(g, peer, id);
            && WellFormed(c)
            && Valid(g)
            && (was.Some? ==> Sound(was.value))
            && StepsTo(was, Admits(g, peer, id), c, a.now, Lookup(Ingest(t, a).table, peer, id), Ingest(t, a).result)
  {
    hide Gc, StepsTo, IngestChunk, Parse, Lookup;
    GcKeepsValid(t, a.now);
    AcceptedIsWellFormed(a.raw);
    OwnChunk(Gc(t, a.now), peer, Parse(a.raw).chunk, a.now);
  }

  // ---- runs ---------------------------------------------------------------------------------------

  /** The table after the first `n` arrivals. */
  function Run(t: Table, es: seq<Arrival>, n: nat): Table
    requires n <= |es|
  {
    if n == 0 then t else Ingest(Run(t, es, n - 1), es[n - 1]).table
  }

  /** What arrival number `i` is answered. */
  function ResultAt(t: Table, es: seq<Arrival>, i: nat): Result
    requires i < |es|
  {
    Ingest(Run(t, es, i), es[i]).result
  }

  /** Every table of every run is valid. */
  lemma {:induction false} RunKeepsValid(t: Table, es: seq<Arrival>, n: nat)
    requires Valid(t) && n <= |es|
    ensures Valid(Run(t, es, n))
  {
    hide Ingest, Valid;
    if n > 0 {
      RunKeepsValid(t, es, n - 1);
      IngestKeepsValid(Run(t, es, n - 1), es[n - 1]);
    }
  }

  /** The payload that arrived first at each index of a message, among arrivals `b` to `n`. */
  function FirstArrivals(es: seq<Arrival>, b: nat, n: nat, peer: Addr, id: u32): map<nat, Bytes>
    requires b <= n <= |es|
    decreases n
  {
    if n == b then map[]
    else
      var m := FirstArrivals(es, b, n - 1, peer, id);
      var a := es[n - 1];
      if Own(a, peer, id) && Parse(a.raw).chunk.idx !in m then
        m[Parse(a.raw).chunk.idx := Parse(a.raw).chunk.payload]
      else m
  }

  /** In every run, a partial message holds exactly the first-arrived payloads since the arrival
      that opened it. */
  lemma {:induction false} PartialHoldsFirstArrivals(es: seq<Arrival>, n: nat, peer: Addr, id: u32) returns (b: nat)
    requires n <= |es| && Lookup(Run(map[], es, n), peer, id).Some?
    ensures b < n && Own(es[b], peer, id)
    ensures var p := Lookup(Run(map[], es, n), peer, id).value;
            && Sound(p) && p.firstSeen == es[b].now
            && Chunks(p) == FirstArrivals(es, b, n, peer, id)
    decreases n
  {
    hide Ingest, Valid, Gc, Receive, Sound, Chunks, Fresh, Full, Lookup, Parse;
    EmptyTable(peer, id);
    RunKeepsValid(map[], es, n - 1);
    var t, a := Run(map[], es, n - 1), es[n - 1];
    GcLookup(t, a.now, peer, id);
    if Own(a, peer, id) {
      var c := Parse(a.raw).chunk;
      OwnArrival(t, a, peer, id);
      if Lookup(Gc(t, a.now), peer, id).Some? {
        b := PartialHoldsFirstArrivals(es, n - 1, peer, id);
        ReceiveAddsChunk(Lookup(t, peer, id).value, c);
      } else {
        b := n - 1;
        FreshIsEmpty(c, a.now);
        ReceiveAddsChunk(Fresh(c, a.now), c);
      }
    } else {
      OthersDoNotInterfere(t, a, peer, id);
      b := PartialHoldsFirstArrivals(es, n - 1, peer, id);
    }
  }

  /** An arrival never finds a partial that was opened five seconds before it or more, in whatever run;
      so a peer all of whose partials are that old is never refused for lack of room. */
  lemma AbandonedMakeRoom(es: seq<Arrival>, n: nat, peer: Addr, id: u32)
    requires n < |es| && Own(es[n], peer, id)
    ensures var was := Lookup(Run(map[], es, n), peer, id);
            was.Some? && was.value.firstSeen + PARTIAL_TTL <= es[n].now ==>
              Lookup(Gc(Run(map[], es, n), es[n].now), peer, id) == None
    ensures var msgs := Messages(Run(map[], es, n), peer);
            msgs != map[] && (forall k :: k in msgs ==> msgs[k].firstSeen + PARTIAL_TTL <= es[n].now) ==>
              ResultAt(map[], es, n) != Err(PeerQuota) && ResultAt(map[], es, n) != Err(GlobalPeerQuota)
  {
    hide Gc, Valid, Ingest, Parse, Own;
    var t := Run(map[], es, n);
    EmptyTable(peer, id);
    RunKeepsValid(map[], es, n);
    GcLookup(t, es[n].now, peer, id);
    SamePeer(es[n], peer, id);
    RefusedForRoomIff(t, es[n], id);
    if Messages(t, peer) != map[] && LiveIds(t, peer, es[n].now) == {} {
      FewerLivePeers(t, peer, es[n].now);
    }
  }

  lemma SamePeer(a: Arrival, peer: Addr, id: u32)
    requires Own(a, peer, id)
    ensures a.peer == peer
  {
  }

  lemma FewerLivePeers(t: Table, peer: Addr, now: Instant)
    requires Valid(t) && peer in t && LiveIds(t, peer, now) == {}
    ensures |LivePeers(t, now)| < MAX_PEERS_WITH_PARTIALS
  {
    SubsetSize(LivePeers(t, now), t.Keys - {peer});
    assert |t.Keys - {peer}| == |t.Keys| - 1 && |t.Keys| == |t|;
  }

  /** `m` carries the payload `chunks[i]` in each of its slots. */
  ghost predicate IsMadeOf(m: Bytes, chunks: map<nat, Bytes>) {
    forall i: nat :: i < FragCount(|m|) ==> i in chunks && Slot(m, i) == chunks[i]
  }

  /** A message that is handed up is, at every index, the payload that arrived first there. */
  lemma CompletedIsFirstArrivals(es: seq<Arrival>, n: nat) returns (b: nat, peer: Addr, id: u32)
    requires n < |es| && ResultAt(map[], es, n).Ok? && ResultAt(map[], es, n).message.Some?
    ensures b <= n && Own(es[n], peer, id) && Own(es[b], peer, id)
    ensures IsMadeOf(ResultAt(map[], es, n).message.value, FirstArrivals(es, b, n + 1, peer, id))
  {
    hide Valid, Gc, Receive, Sound, Chunks, Fresh, Full, Lookup, Parse, IsMadeOf;
    var t, a := Run(map[], es, n), es[n];
    peer, id := a.peer, Parse(a.raw).chunk.msgId;
    EmptyTable(peer, id);
    RunKeepsValid(map[], es, n);
    OwnArrival(t, a, peer, id);
    GcLookup(t, a.now, peer, id);
    var c, was := Parse(a.raw).chunk, Lookup(Gc(t, a.now), peer, id);
    if was.Some? {
      b := PartialHoldsFirstArrivals(es, n, peer, id);
      CompleteSlots(was.value, c, FirstArrivals(es, b, n, peer, id));
    } else {
      b := n;
      FreshIsEmpty(c, a.now);
      CompleteSlots(Fresh(c, a.now), c, map[]);
    }
  }

  lemma CompleteSlots(p: Partial, c: Chunk, m: map<nat, Bytes>)
    requires Sound(p) && WellFormed(c) && p.total == c.total && Chunks(p) == m && Full(Receive(p, c))
    ensures IsMadeOf(Receive(p, c).buf, if c.idx in m then m else m[c.idx := c.payload])
  {
    hide Receive, Slot, Full;
    ReceiveAddsChunk(p, c);
    FullMeansAll(Receive(p, c));
  }
}
