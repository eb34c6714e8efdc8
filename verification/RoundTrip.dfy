/** Fragmentation and reassembly are inverse under any schedule of arrivals. */
module RoundTrip {
  import opened Machine
  import opened Endian
  import opened Framing
  import opened Reassembly
  import opened FramingMethods

  /** The chunks of `m` at the indices `got`. */
  ghost function SlotsAt(m: Bytes, got: set<nat>): map<nat, Bytes>
    requires forall i :: i in got ==> i < FragCount(|m|)
  {
    map i | i in got :: Slot(m, i)
  }

  /** Arrival `a` is frame `i` of message `m`. */
  ghost predicate IsFrame(a: Arrival, peer: Addr, m: Bytes, id: u32, i: nat)
    requires |m| <= MAX_LOGICAL_LEN
  {
    a.peer == peer && i < FragCount(|m|) && a.raw == FrameOf(m, id, i)
  }

  /** A schedule for message `m`: each arrival is a frame of it or is no chunk of that message
      at all, whoever sent it; the first is a frame; all come within the time to live. */
  ghost predicate Schedule(es: seq<Arrival>, peer: Addr, m: Bytes, id: u32)
    requires |m| <= MAX_LOGICAL_LEN
  {
    && es != []
    && Own(es[0], peer, id)
    && (forall k: nat :: k < |es| && Own(es[k], peer, id) ==> exists i: nat :: IsFrame(es[k], peer, m, id, i))
    && (forall k: nat :: k < |es| ==> es[k].now < es[0].now + PARTIAL_TTL)
  }

  /** The key is new to the table and there is room for it. */
  ghost predicate Admissible(t: Table, a: Arrival, id: u32) {
    Lookup(Gc(t, a.now), a.peer, id) == None && Admits(Gc(t, a.now), a.peer, id)
  }

  /** The indices of `m` that have arrived among the first `n` arrivals. */
  ghost function Got(es: seq<Arrival>, peer: Addr, id: u32, n: nat): set<nat>
    requires n <= |es|
  {
    if n == 0 then {}
    else if Own(es[n - 1], peer, id) then Got(es, peer, id, n - 1) + {Parse(es[n - 1].raw).chunk.idx as nat}
    else Got(es, peer, id, n - 1)
  }

  ghost predicate Complete(m: Bytes, got: set<nat>) {
    forall i: nat :: i < FragCount(|m|) ==> i in got
  }

  lemma FrameIsOwn(a: Arrival, peer: Addr, m: Bytes, id: u32, i: nat)
    requires 0 < |m| <= MAX_LOGICAL_LEN && IsFrame(a, peer, m, id, i)
    ensures Own(a, peer, id) && Parse(a.raw).chunk == ChunkOf(m, id, i)
  {
    ParseFrame(m, id, i);
  }

  /** The message is in the table with exactly the chunks that have arrived. */
  ghost predicate Holding(t: Table, peer: Addr, m: Bytes, id: u32, got: set<nat>, since: Instant) {
    && (forall i :: i in got ==> i < FragCount(|m|))
    && var p := Lookup(t, peer, id);
       && p.Some? && Sound(p.value)
       && p.value.total == |m|
       && p.value.firstSeen == since
       && Chunks(p.value) == SlotsAt(m, got)
  }

  /** One more frame of `m`: the message completes exactly when the last index is in. */
  lemma FrameStep(p: Partial, m: Bytes, id: u32, i: nat, got: set<nat>)
    requires Sound(p) && p.total == |m| && i < FragCount(|m|)
    requires (forall k :: k in got ==> k < FragCount(|m|)) && Chunks(p) == SlotsAt(m, got)
    ensures WellFormed(ChunkOf(m, id, i))
    ensures var q := Receive(p, ChunkOf(m, id, i));
            && Sound(q) && q.total == |m| && q.firstSeen == p.firstSeen
            && Chunks(q) == SlotsAt(m, got + {i})
            && (Full(q) <==> Complete(m, got + {i}))
            && (Full(q) ==> q.buf == m)
  {
    var c := ChunkOf(m, id, i);
    var q := Receive(p, c);
    ReceiveAddsChunk(p, c);
    FullMeansAll(q);
    hide Receive, Full, Slot;
    assert Chunks(q) == SlotsAt(m, got + {i});
    assert forall k: nat :: k in Chunks(q) <==> k in got + {i};
    if Full(q) {
      forall k: nat | k < FragCount(|m|) ensures Slot(q.buf, k) == Slot(m, k) {
        assert k in Chunks(q);
      }
      SlotsDetermine(q.buf, m);
    }
  }

  /** One arrival of the schedule, when the message is held or can be admitted. */
  lemma ArrivalStep(t: Table, a: Arrival, peer: Addr, m: Bytes, id: u32, i: nat, got: set<nat>, since: Instant)
    requires Valid(t) && 0 < |m| <= MAX_LOGICAL_LEN
    requires Own(a, peer, id) ==> IsFrame(a, peer, m, id, i)
    requires a.now < since + PARTIAL_TTL
    requires || Holding(t, peer, m, id, got, since)
             || (Own(a, peer, id) && got == {} && since == a.now && Admissible(t, a, id))
    ensures var r := Ingest(t, a);
            var now' := got + if Own(a, peer, id) then {i} else {};
            && (!Complete(m, now') || !Own(a, peer, id) ==> Holding(r.table, peer, m, id, now', since))
            && (Own(a, peer, id) ==> r.result == Ok(if Complete(m, now') then Some(m) else None))
            && (Own(a, peer, id) && Complete(m, now') ==> Lookup(r.table, peer, id) == None)
  {
    hide Ingest, Gc, Receive, Full, Parse, Admits, Slot, Complete, Sound, Valid;
    GcLookup(t, a.now, peer, id);
    if Own(a, peer, id) {
      OwnArrival(t, a, peer, id);
      FrameIsOwn(a, peer, m, id, i);
      var was := Lookup(Gc(t, a.now), peer, id);
      if was.Some? {
        AdmitsHeld(Gc(t, a.now), peer, id);
        FrameStep(was.value, m, id, i, got);
      } else {
        FreshIsEmpty(ChunkOf(m, id, i), a.now);
        FrameStep(Fresh(ChunkOf(m, id, i), a.now), m, id, i, {});
      }
    } else {
      OthersDoNotInterfere(t, a, peer, id);
      assert got + {} == got;
    }
  }

  lemma AdmitsHeld(t: Table, peer: Addr, id: u32)
    requires Lookup(t, peer, id).Some?
    ensures Admits(t, peer, id)
  {
  }

  /** Until the last index arrives, the table holds exactly what has arrived. */
  lemma {:induction false} HoldsUntilComplete(t: Table, es: seq<Arrival>, peer: Addr, m: Bytes, id: u32, n: nat)
    requires Valid(t) && 0 < |m| <= MAX_LOGICAL_LEN && Schedule(es, peer, m, id) && Admissible(t, es[0], id)
    requires 0 < n <= |es| && !Complete(m, Got(es, peer, id, n))
    ensures Holding(Run(t, es, n), peer, m, id, Got(es, peer, id, n), es[0].now)
    decreases n
  {
    hide Ingest, Holding, Valid, Own, Admissible, Parse, FrameOf;
    var a := es[n - 1];
    var i: nat := if Own(a, peer, id) then IndexOf(a, peer, m, id) else 0;
    RunKeepsValid(t, es, n - 1);
    if n > 1 {
      assert !Complete(m, Got(es, peer, id, n - 1));
      HoldsUntilComplete(t, es, peer, m, id, n - 1);
    }
    ArrivalStep(Run(t, es, n - 1), a, peer, m, id, i, Got(es, peer, id, n - 1), es[0].now);
    if !Own(a, peer, id) { assert Got(es, peer, id, n - 1) + {} == Got(es, peer, id, n); }
  }

  /** Which frame of `m` an arrival is. */
  ghost function IndexOf(a: Arrival, peer: Addr, m: Bytes, id: u32): (i: nat)
    requires 0 < |m| <= MAX_LOGICAL_LEN && exists i: nat :: IsFrame(a, peer, m, id, i)
    ensures IsFrame(a, peer, m, id, i)
    ensures Own(a, peer, id) && Parse(a.raw).chunk.idx == i
  {
    var i: nat :| IsFrame(a, peer, m, id, i);
    FrameIsOwn(a, peer, m, id, i);
    i
  }

  /** For every schedule of arrivals of the frames of `m`, reordered, duplicated and interleaved
      with any other traffic, once the message is admitted under a fresh key: each frame is
      answered with nothing until the last missing index arrives, and that one with exactly
      the original bytes. */
  lemma ReassemblyInvertsFragmentation(t: Table, es: seq<Arrival>, peer: Addr, m: Bytes, id: u32, k: nat)
    requires Valid(t) && 0 < |m| <= MAX_LOGICAL_LEN && Schedule(es, peer, m, id) && Admissible(t, es[0], id)
    requires k < |es| && Own(es[k], peer, id) && !Complete(m, Got(es, peer, id, k))
    ensures ResultAt(t, es, k) == Ok(if Complete(m, Got(es, peer, id, k + 1)) then Some(m) else None)
  {
    hide Ingest, Holding, Valid, Own, Admissible, Parse, FrameOf;
    RunKeepsValid(t, es, k);
    if k > 0 {
      HoldsUntilComplete(t, es, peer, m, id, k);
    }
    ArrivalStep(Run(t, es, k), es[k], peer, m, id, IndexOf(es[k], peer, m, id), Got(es, peer, id, k), es[0].now);
  }

  // ---- again and again ---------------------------------------------------------------------------

  /** The indices of `m` that have arrived since it was last delivered, among the first `n` arrivals. */
  ghost function Pending(es: seq<Arrival>, peer: Addr, m: Bytes, id: u32, n: nat): set<nat>
    requires n <= |es|
  {
    if n == 0 then {}
    else
      var before := Pending(es, peer, m, id, n - 1);
      if !Own(es[n - 1], peer, id) then before
      else
        var now' := before + {Parse(es[n - 1].raw).chunk.idx as nat};
        if Complete(m, now') then {} else now'
  }

  /** The arrival since which indices are pending. */
  ghost function Opening(es: seq<Arrival>, peer: Addr, m: Bytes, id: u32, n: nat): (b: nat)
    requires n <= |es|
    ensures n > 0 ==> b < n
  {
    if n == 0 then 0
    else if Pending(es, peer, m, id, n - 1) == {} then n - 1
    else Opening(es, peer, m, id, n - 1)
  }

  /** What is asked of a run: every chunk of the message is a frame of `m`; while indices are pending,
      every arrival comes within the time to live of the one that opened them; and whenever none are
      pending, a frame finds room. */
  ghost predicate Recurring(t: Table, es: seq<Arrival>, peer: Addr, m: Bytes, id: u32)
    requires |m| <= MAX_LOGICAL_LEN
  {
    && (forall k: nat :: k < |es| && Own(es[k], peer, id) ==> exists i: nat :: IsFrame(es[k], peer, m, id, i))
    && (forall k: nat :: k < |es| && Pending(es, peer, m, id, k) != {} ==>
          es[k].now < es[Opening(es, peer, m, id, k)].now + PARTIAL_TTL)
    && (forall k: nat :: k < |es| && Own(es[k], peer, id) && Pending(es, peer, m, id, k) == {} ==>
          Admits(Gc(Run(t, es, k), es[k].now), peer, id))
    && (es != [] ==> Lookup(Gc(t, es[0].now), peer, id) == None)
  }

  /** The table holds exactly what is pending, or nothing of the message. */
  ghost predicate HoldsPending(t: Table, es: seq<Arrival>, peer: Addr, m: Bytes, id: u32, n: nat)
    requires n <= |es|
  {
    var pending := Pending(es, peer, m, id, n);
    if pending == {} then n < |es| ==> Lookup(Gc(Run(t, es, n), es[n].now), peer, id) == None
    else Holding(Run(t, es, n), peer, m, id, pending, es[Opening(es, peer, m, id, n)].now)
  }

  lemma NothingIsIncomplete(m: Bytes)
    requires 0 < |m|
    ensures !Complete(m, {})
  {
    var none: set<nat> := {};
    assert 0 < FragCount(|m|) && (0 as nat) !in none;
  }

  /** One arrival of such a run: what it leaves pending, and what it answers. */
  lemma RecurringStep(t: Table, es: seq<Arrival>, peer: Addr, m: Bytes, id: u32, n: nat)
    requires Valid(t) && 0 < |m| <= MAX_LOGICAL_LEN && Recurring(t, es, peer, m, id)
    requires n < |es| && HoldsPending(t, es, peer, m, id, n)
    ensures HoldsPending(t, es, peer, m, id, n + 1)
    ensures Own(es[n], peer, id) ==>
              var now' := Pending(es, peer, m, id, n) + {Parse(es[n].raw).chunk.idx as nat};
              ResultAt(t, es, n) == Ok(if Complete(m, now') then Some(m) else None)
  {
    hide Ingest, Holding, Valid, Own, Parse, FrameOf, Complete, Gc, Lookup, Admits;
    var a, w, pending := es[n], Run(t, es, n), Pending(es, peer, m, id, n);
    RunKeepsValid(t, es, n);
    NothingIsIncomplete(m);
    var i: nat := if Own(a, peer, id) then IndexOf(a, peer, m, id) else 0;
    if Own(a, peer, id) || pending != {} {
      var since := if pending == {} then a.now else es[Opening(es, peer, m, id, n)].now;
      ArrivalStep(w, a, peer, m, id, i, pending, since);
      assert pending + {} == pending;
    } else {
      OthersDoNotInterfere(w, a, peer, id);
    }
    if n + 1 < |es| {
      GcLookup(Run(t, es, n + 1), es[n + 1].now, peer, id);
    }
  }

  lemma NothingPendingAtFirst(t: Table, es: seq<Arrival>, peer: Addr, m: Bytes, id: u32)
    requires |m| <= MAX_LOGICAL_LEN && Recurring(t, es, peer, m, id)
    ensures HoldsPending(t, es, peer, m, id, 0)
  {
  }

  lemma {:induction false} RunHoldsPending(t: Table, es: seq<Arrival>, peer: Addr, m: Bytes, id: u32, n: nat)
    requires Valid(t) && 0 < |m| <= MAX_LOGICAL_LEN && Recurring(t, es, peer, m, id) && n <= |es|
    ensures HoldsPending(t, es, peer, m, id, n)
  {
    hide *;
    if n == 0 {
      NothingPendingAtFirst(t, es, peer, m, id);
    } else {
      RunHoldsPending(t, es, peer, m, id, n - 1);
      RecurringStep(t, es, peer, m, id, n - 1);
    }
  }

  /** Over the whole of such a run the message is delivered, with its original bytes, exactly each time
      all of its indices have arrived since it was last delivered, and at no other arrival. */
  lemma DeliveriesAreExact(t: Table, es: seq<Arrival>, peer: Addr, m: Bytes, id: u32, k: nat)
    requires Valid(t) && 0 < |m| <= MAX_LOGICAL_LEN && Recurring(t, es, peer, m, id)
    requires k < |es| && Own(es[k], peer, id)
    ensures var now' := Pending(es, peer, m, id, k) + {Parse(es[k].raw).chunk.idx as nat};
            && ResultAt(t, es, k) == Ok(if Complete(m, now') then Some(m) else None)
            && Pending(es, peer, m, id, k + 1) == if Complete(m, now') then {} else now'
  {
    hide HoldsPending, Valid, Recurring, Complete, Parse, Own;
    RunHoldsPending(t, es, peer, m, id, k);
    RecurringStep(t, es, peer, m, id, k);
  }

  // ---- whole deliveries ------------------------------------------------------------------------

  /** What the receiving daemon treats as a logical datagram: a non-chunk as it is, and a chunk
      only when it completes a message. */
  function Deliver(t: Table, a: Arrival): Option<Bytes> {
    if !IsChunk(a.raw) then Some(a.raw)
    else
      match Ingest(t, a).result
      case Ok(message) => message
      case Err(_) => None
  }

  /** The frames of a message, arriving in order at one instant. */
  function InOrder(peer: Addr, frames: seq<Bytes>, now: Instant): (es: seq<Arrival>)
    ensures |es| == |frames|
    ensures forall k :: 0 <= k < |es| ==> es[k] == Arrival(peer, frames[k], now)
  {
    seq(|frames|, k requires 0 <= k < |frames| => Arrival(peer, frames[k], now))
  }

  lemma {:induction false} GotInOrder(es: seq<Arrival>, peer: Addr, m: Bytes, id: u32, n: nat)
    requires 0 < |m| <= MAX_LOGICAL_LEN && n <= |es|
    requires forall k: nat :: k < |es| ==> IsFrame(es[k], peer, m, id, k)
    ensures forall i: nat :: i in Got(es, peer, id, n) <==> i < n
  {
    hide IsFrame, Own, Parse;
    if n > 0 {
      GotInOrder(es, peer, m, id, n - 1);
      FrameIsOwn(es[n - 1], peer, m, id, n - 1);
    }
  }

  lemma CompleteInOrder(es: seq<Arrival>, peer: Addr, m: Bytes, id: u32, n: nat)
    requires 0 < |m| <= MAX_LOGICAL_LEN && n <= |es| == FragCount(|m|)
    requires forall k: nat :: k < |es| ==> IsFrame(es[k], peer, m, id, k)
    ensures Complete(m, Got(es, peer, id, n)) <==> n == |es|
  {
    hide IsFrame, Got;
    GotInOrder(es, peer, m, id, n);
    if n < |es| { assert n !in Got(es, peer, id, n); }
  }

  lemma InOrderIsSchedule(peer: Addr, m: Bytes, id: u32, now: Instant)
    requires MAX_UDP_DATAGRAM < |m| <= MAX_LOGICAL_LEN
    ensures var es := InOrder(peer, Fragments(m, id), now);
            && |es| == FragCount(|m|)
            && (forall k: nat :: k < |es| ==> IsFrame(es[k], peer, m, id, k))
            && Schedule(es, peer, m, id)
            && Admissible(map[], es[0], id)
  {
    hide Own, Parse, FrameOf;
    var es := InOrder(peer, Fragments(m, id), now);
    FrameIsOwn(es[0], peer, m, id, 0);
    assert Gc(map[], now) == map[];
  }

  /** A datagram of 1201 to 16384 bytes that is fragmented, sent and received in order by an
      empty table comes out whole at its last frame and not before. */
  lemma LargeDatagramsArrive(peer: Addr, m: Bytes, id: u32, now: Instant, k: nat)
    requires MAX_UDP_DATAGRAM < |m| <= MAX_LOGICAL_LEN && k < |Fragments(m, id)|
    ensures var es := InOrder(peer, Fragments(m, id), now);
            Deliver(Run(map[], es, k), es[k]) == if k == |es| - 1 then Some(m) else None
  {
    hide Schedule, Admissible, IsFrame, Fragments, InOrder, Parse, Ingest, Got, Complete, Valid;
    var es := InOrder(peer, Fragments(m, id), now);
    InOrderIsSchedule(peer, m, id, now);
    FrameIsOwn(es[k], peer, m, id, k);
    CompleteInOrder(es, peer, m, id, k);
    CompleteInOrder(es, peer, m, id, k + 1);
    EmptyTable(peer, id);
    ReassemblyInvertsFragmentation(map[], es, peer, m, id, k);
  }

  // ---- small datagrams -------------------------------------------------------------------------

  /** Only a chunk of exactly 1200 bytes with index 0 can belong to a message of its own length. */
  lemma SameLengthChunk(m: Bytes)
    requires |m| <= MAX_UDP_DATAGRAM && IsChunk(m) && Parse(m).Accepted? && Parse(m).chunk.total == |m|
    ensures |m| == MAX_UDP_DATAGRAM && Parse(m).chunk.idx == 0
    ensures m == ChunkFrame(Parse(m).chunk) && WellFormed(Parse(m).chunk)
  {
    AcceptsExactlyFrames(m);
  }

  /** The datagram is chunk 0 of itself, read as a message named `id`. */
  ghost predicate FramesItself(m: Bytes, id: u32) {
    |m| == MAX_UDP_DATAGRAM && m == FrameOf(m, id, 0)
  }

  /** The table, once collected, waits only for chunk 0 of the message `m` of `peer` named `id`. */
  ghost predicate AwaitsFirst(t: Table, peer: Addr, m: Bytes, id: u32, now: Instant) {
    var p := Lookup(Gc(t, now), peer, id);
    && |m| == MAX_UDP_DATAGRAM
    && p.Some? && Sound(p.value) && p.value.total == |m|
    && Chunks(p.value) == map[1 := Slot(m, 1)]
  }

  ghost predicate CompletesItself(t: Table, peer: Addr, m: Bytes, now: Instant) {
    exists id: u32 :: FramesItself(m, id) && AwaitsFirst(t, peer, m, id, now)
  }

  /** Receiving chunk 0 of a two-chunk message yields `m` exactly when the other chunk is already
      there and the two are those of `m`. */
  lemma LastOfTwo(p: Partial, c: Chunk, m: Bytes)
    requires Sound(p) && !Full(p) && WellFormed(c) && p.total == c.total == |m| == MAX_UDP_DATAGRAM && c.idx == 0
    ensures Full(Receive(p, c)) && Receive(p, c).buf == m
       <==> Chunks(p) == map[1 := Slot(m, 1)] && c.payload == Slot(m, 0)
  {
    var q := Receive(p, c);
    ReceiveAddsChunk(p, c);
    FullMeansAll(p);
    FullMeansAll(q);
    hide Receive, Full, Slot, Sound, WellFormed;
    assert FragCount(|m|) == 2;
    if Full(q) && q.buf == m {
      assert 0 in Chunks(q) && 1 in Chunks(q);
      assert 0 !in Chunks(p);
      assert Chunks(p) == map[1 := Slot(m, 1)];
    }
    if Chunks(p) == map[1 := Slot(m, 1)] && c.payload == Slot(m, 0) {
      assert Full(q);
      forall k: nat | k < FragCount(|m|) ensures Slot(q.buf, k) == Slot(m, k) {
        assert k in Chunks(q);
      }
      SlotsDetermine(q.buf, m);
    }
  }

  lemma OnlyItselfArrives(t: Table, peer: Addr, m: Bytes, now: Instant)
    requires Valid(t) && |m| <= MAX_UDP_DATAGRAM && IsChunk(m) && Deliver(t, Arrival(peer, m, now)) == Some(m)
    ensures CompletesItself(t, peer, m, now)
  {
    hide Gc, Receive, Full, Parse, Admits, Slot, Sound, Valid, WellFormed, Chunks, IngestChunk, FrameOf, Fresh;
    var c, g := Parse(m).chunk, Gc(t, now);
    var was := Lookup(g, peer, c.msgId);
    OwnArrival(t, Arrival(peer, m, now), peer, c.msgId);
    FreshIsEmpty(c, now);
    var p := if was.Some? then was.value else Fresh(c, now);
    hide Ingest, Lookup;
    ReceivedLength(p, c);
    SameLengthChunk(m);
    if was.Some? { ValidLookup(g, peer, c.msgId); } else { NothingIsNotFull(p); }
    LastOfTwo(p, c, m);
    assert 1 in Chunks(p);
    FirstChunkOfItself(m, c);
    assert FramesItself(m, c.msgId) && AwaitsFirst(t, peer, m, c.msgId, now);
  }

  lemma ReceivedLength(p: Partial, c: Chunk)
    requires Sound(p) && WellFormed(c) && p.total == c.total
    ensures |Receive(p, c).buf| == c.total
  {
  }

  lemma NothingIsNotFull(p: Partial)
    requires Sound(p) && Chunks(p) == map[]
    ensures !Full(p)
  {
    FullMeansAll(p);
    assert 0 !in Chunks(p);
  }

  lemma FirstChunkOfItself(m: Bytes, c: Chunk)
    requires |m| == MAX_UDP_DATAGRAM && WellFormed(c) && c.total == |m| && c.idx == 0
    requires c.payload == Slot(m, 0) && m == ChunkFrame(c)
    ensures FramesItself(m, c.msgId)
  {
    assert c == ChunkOf(m, c.msgId, 0);
  }

  lemma ItselfArrives(t: Table, peer: Addr, m: Bytes, id: u32, now: Instant)
    requires Valid(t) && FramesItself(m, id) && AwaitsFirst(t, peer, m, id, now)
    ensures IsChunk(m) && Deliver(t, Arrival(peer, m, now)) == Some(m)
  {
    hide Gc, Receive, Full, Parse, Admits, Slot, Sound, Valid, WellFormed, Chunks, IngestChunk, Fresh;
    var c, g := ChunkOf(m, id, 0), Gc(t, now);
    ParseFrame(m, id, 0);
    FrameSlices(c);
    OwnArrival(t, Arrival(peer, m, now), peer, id);
    hide Ingest;
    ValidLookup(g, peer, id);
    AdmitsHeld(g, peer, id);
    LastOfTwo(Lookup(g, peer, id).value, c, m);
  }

  /** A datagram of at most 1200 bytes is sent as it is. From every valid table it is delivered
      unchanged if and only if its first byte is not the chunk tag, or it happens to be the missing
      chunk 0 of itself. */
  lemma SmallDatagramsArriveIff(t: Table, peer: Addr, m: Bytes, id: u32, now: Instant)
    requires Valid(t) && |m| <= MAX_UDP_DATAGRAM
    ensures Fragments(m, id) == [m]
    ensures Deliver(t, Arrival(peer, m, now)) == Some(m) <==> !IsChunk(m) || CompletesItself(t, peer, m, now)
  {
    hide FramesItself, AwaitsFirst, Ingest;
    if IsChunk(m) && Deliver(t, Arrival(peer, m, now)) == Some(m) {
      OnlyItselfArrives(t, peer, m, now);
    }
    if CompletesItself(t, peer, m, now) {
      var own: u32 :| FramesItself(m, own) && AwaitsFirst(t, peer, m, own, now);
      ItselfArrives(t, peer, m, own, now);
    }
  }

  /** In particular a tagged datagram is lost unless a partial of its key is already waiting. */
  lemma NothingHeldLosesTagged(t: Table, peer: Addr, m: Bytes, now: Instant)
    requires Valid(t) && |m| <= MAX_UDP_DATAGRAM && (forall id: u32 :: Lookup(t, peer, id) == None)
    ensures Deliver(t, Arrival(peer, m, now)) == Some(m) <==> !IsChunk(m)
  {
    hide FramesItself, Ingest, Gc, Lookup, Valid;
    SmallDatagramsArriveIff(t, peer, m, 0, now);
    forall id: u32 { GcLookup(t, now, peer, id); }
  }

  // ---- a datagram that completes itself ---------------------------------------------------------

  /** The chunk header of index 0 of 2, total 1200, under message id 7. */
  const HEADER: Bytes := [CHUNK_TAG, 7, 0, 0, 0, 0, 0, 2, 0, 0xB0, 0x04, 0, 0]

  /** 1200 bytes that repeat that header. */
  function Periodic(): (m: Bytes)
    ensures |m| == MAX_UDP_DATAGRAM
    ensures forall i :: 0 <= i < |m| ==> m[i] == HEADER[i % 13]
  {
    seq(MAX_UDP_DATAGRAM, i requires 0 <= i => HEADER[i % 13])
  }

  lemma TwoBytes(v: nat)
    ensures LE(v, 2) == [v % 256, v / 256 % 256]
  {
    assert LE(v / 256, 1) == [v / 256 % 256] + LE(v / 256 / 256, 0);
  }

  lemma FourBytes(v: nat)
    ensures LE(v, 4) == [v % 256, v / 256 % 256] + LE(v / 256 / 256, 2)
  {
    assert LE(v, 4) == [v % 256] + LE(v / 256, 3);
    assert LE(v / 256, 3) == [v / 256 % 256] + LE(v / 256 / 256, 2);
  }

  lemma HeaderBytes()
    ensures [CHUNK_TAG] + LE(7, 4) + LE(0, 2) + LE(2, 2) + LE(1200, 4) == HEADER
  {
    hide LE;
    FourBytes(7);
    FourBytes(1200);
    TwoBytes(0);
    TwoBytes(2);
  }

  lemma PeriodicFrame()
    ensures FrameOf(Periodic(), 7, 0) == HEADER + Periodic()[..1187]
  {
    hide LE, Periodic;
    HeaderBytes();
  }

  lemma PeriodicFramesItself()
    ensures FramesItself(Periodic(), 7)
  {
    hide FrameOf;
    var m := Periodic();
    PeriodicFrame();
    assert |HEADER + m[..1187]| == |m|;
    forall i | 0 <= i < |m| ensures (HEADER + m[..1187])[i] == m[i] {
      if i >= 13 { assert (i - 13) % 13 == i % 13; }
    }
  }

  /** It is tagged, yet the table its own chunk 1 leaves delivers it whole. */
  lemma PeriodicExample(peer: Addr, now: Instant)
    ensures var m := Periodic();
            var t := Ingest(map[], Arrival(peer, FrameOf(m, 7, 1), now)).table;
            IsChunk(m) && Valid(t) && Deliver(t, Arrival(peer, m, now)) == Some(m)
  {
    hide Periodic, Ingest, Gc, Valid, FrameOf, Parse, Sound, Chunks, Slot, Lookup, FramesItself, Admits;
    var m := Periodic();
    var a := Arrival(peer, FrameOf(m, 7, 1), now);
    var t := Ingest(map[], a).table;
    EmptyTable(peer, 7);
    IngestKeepsValid(map[], a);
    FrameIsOwn(a, peer, m, 7, 1);
    NoneAdmitted(peer, 7, now);
    ArrivalStep(map[], a, peer, m, 7, 1, {}, now);
    var got: set<nat> := {1};
    assert {} + got == got && (0 as nat) !in got && !Complete(m, got);
    assert Holding(t, peer, m, 7, got, now);
    GcLookup(t, now, peer, 7);
    assert SlotsAt(m, {1}) == map[1 := Slot(m, 1)];
    PeriodicFramesItself();
    ItselfArrives(t, peer, m, 7, now);
  }

  lemma NoneAdmitted(peer: Addr, id: u32, now: Instant)
    ensures forall raw :: Admissible(map[], Arrival(peer, raw, now), id)
  {
    assert Gc(map[], now) == map[];
  }
}
