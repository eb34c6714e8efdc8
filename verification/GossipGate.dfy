/** Verify before forward: the gate every gossip message passes. */
module GossipGate {
  import opened Machine
  import opened Sorting
  import opened GossipCodec
  import opened Preimages
  import W = MessageWindow
  import MessageRing

  /** What the gate cannot see inside of: the hash, the key registry and the signature check. */
  datatype Oracles = Oracles(
    chainId: u32,
    hash: Bytes -> W.Digest,
    authorized: (Bytes, Bytes) -> bool,
    verified: (Bytes, Bytes, Bytes) -> bool)

  datatype Outcome = Forward | DuplicateMessage | UnauthorizedOrigin | SignatureSpam

  function OriginOf(m: GossipMessage): W.Identity {
    match m
    case NodeCapability(r) => r.payload.nodeId
    case TelemetryFrame(r) => r.payload.header.endpointPseudonym
  }

  function DigestOf(o: Oracles, m: GossipMessage): W.Digest {
    o.hash(FingerprintInput(o.chainId, m))
  }

  function EntryOf(o: Oracles, m: GossipMessage): W.Entry {
    W.Entry(DigestOf(o, m), OriginOf(m))
  }

  function Judge(o: Oracles, m: GossipMessage, w: seq<W.Entry>): Outcome {
    if W.Holds(w, DigestOf(o, m)) then DuplicateMessage
    else if !o.authorized(KeyOf(m), OriginOf(m)) then UnauthorizedOrigin
    else if !o.verified(KeyOf(m), Preimage(o.chainId, PayloadOf(m)), SignatureOf(m)) then SignatureSpam
    else Forward
  }

  method ValidateGossipMessage(o: Oracles, m: GossipMessage, cache: MessageRing.MessageCache) returns (outcome: Outcome)
    requires cache.Valid()
    modifies cache, cache.hashes, cache.origins
    ensures cache.Valid()
    ensures outcome == Judge(o, m, old(cache.Contents()))
    ensures cache.Contents() == if outcome == Forward
                                then W.Insert(old(cache.Contents()), EntryOf(o, m), cache.hashes.Length)
                                else old(cache.Contents())
  {
    hide FingerprintInput, Preimage, W.Insert;
    var digest := DigestOf(o, m);
    var seen := cache.Contains(digest);
    if seen {
      return DuplicateMessage;
    }
    if !o.authorized(KeyOf(m), OriginOf(m)) {
      return UnauthorizedOrigin;
    }
    if !o.verified(KeyOf(m), Preimage(o.chainId, PayloadOf(m)), SignatureOf(m)) {
      return SignatureSpam;
    }
    cache.Insert(digest, OriginOf(m));
    return Forward;
  }

  // ---- runs ----------------------------------------------------------------------------------------

  /** The window after the first `n` messages. */
  function After(o: Oracles, capacity: nat, ms: seq<GossipMessage>, n: nat): seq<W.Entry>
    requires n <= |ms|
  {
    if n == 0 then []
    else
      var w := After(o, capacity, ms, n - 1);
      if Judge(o, ms[n - 1], w) == Forward then W.Insert(w, EntryOf(o, ms[n - 1]), capacity) else w
  }

  predicate Forwarded(o: Oracles, capacity: nat, ms: seq<GossipMessage>, i: nat)
    requires i < |ms|
  {
    Judge(o, ms[i], After(o, capacity, ms, i)) == Forward
  }

  /** `e` is the entry of a message forwarded among the first `n`. */
  ghost predicate Recorded(o: Oracles, capacity: nat, ms: seq<GossipMessage>, n: nat, e: W.Entry)
    requires n <= |ms|
  {
    exists i :: 0 <= i < n && Forwarded(o, capacity, ms, i) && EntryOf(o, ms[i]) == e
  }

  ghost predicate AllRecorded(o: Oracles, capacity: nat, ms: seq<GossipMessage>, n: nat)
    requires n <= |ms|
  {
    var w := After(o, capacity, ms, n);
    forall k :: 0 <= k < |w| ==> Recorded(o, capacity, ms, n, w[k])
  }

  /** Which outcome each condition gives: already in the window, then a key that is not registered for the
      origin, then a signature that does not verify over the payload's preimage; and forwarded exactly
      when none holds. */
  lemma OutcomeMeans(o: Oracles, m: GossipMessage, w: seq<W.Entry>)
    ensures var known := exists i :: 0 <= i < |w| && w[i].hash == o.hash(FingerprintInput(o.chainId, m));
            var foreign := !o.authorized(KeyOf(m), OriginOf(m));
            var forged := !o.verified(KeyOf(m), Preimage(o.chainId, PayloadOf(m)), SignatureOf(m));
            && (Judge(o, m, w) == DuplicateMessage <==> known)
            && (Judge(o, m, w) == UnauthorizedOrigin <==> !known && foreign)
            && (Judge(o, m, w) == SignatureSpam <==> !known && !foreign && forged)
            && (Judge(o, m, w) == Forward <==> !known && !foreign && !forged)
  {
    hide FingerprintInput, Preimage;
  }

  /** Over every run, what is forwarded comes from a registered key of its origin and is signed by it, and
      what is remembered was forwarded. */
  lemma RememberedIsVerified(o: Oracles, capacity: nat, ms: seq<GossipMessage>, n: nat, k: nat)
    returns (i: nat)
    requires n <= |ms| && k < |After(o, capacity, ms, n)|
    ensures i < n
    ensures After(o, capacity, ms, n)[k] == W.Entry(o.hash(FingerprintInput(o.chainId, ms[i])), OriginOf(ms[i]))
    ensures o.authorized(KeyOf(ms[i]), OriginOf(ms[i]))
    ensures o.verified(KeyOf(ms[i]), Preimage(o.chainId, PayloadOf(ms[i])), SignatureOf(ms[i]))
  {
    hide FingerprintInput, Preimage, After, Judge;
    var e := After(o, capacity, ms, n)[k];
    GateInvariant(o, capacity, ms, n, e.origin);
    assert Recorded(o, capacity, ms, n, e);
    i :| 0 <= i < n && Forwarded(o, capacity, ms, i) && EntryOf(o, ms[i]) == e;
    OutcomeMeans(o, ms[i], After(o, capacity, ms, i));
  }

  /** In every reachable window the digests are pairwise distinct, each belongs to a message that
      was forwarded, and no identity is over its quota. */
  lemma {:induction false} GateInvariant(o: Oracles, capacity: nat, ms: seq<GossipMessage>, n: nat, q: W.Identity)
    requires n <= |ms|
    ensures var w := After(o, capacity, ms, n);
            && |w| <= capacity
            && W.DistinctHashes(w)
            && Count(w, W.By(q)) <= W.Quota(capacity)
    ensures AllRecorded(o, capacity, ms, n)
  {
    hide *;
    if n == 0 {
      EmptyWindow(o, capacity, ms, q);
    } else {
      GateInvariant(o, capacity, ms, n - 1, q);
      AfterStep(o, capacity, ms, n);
      StillRecorded(o, capacity, ms, n);
      if Judge(o, ms[n - 1], After(o, capacity, ms, n - 1)) == Forward {
        ForwardKeepsWindow(o, ms[n - 1], After(o, capacity, ms, n - 1), capacity, q);
      }
    }
  }

  lemma EmptyWindow(o: Oracles, capacity: nat, ms: seq<GossipMessage>, q: W.Identity)
    ensures var w := After(o, capacity, ms, 0);
            && |w| <= capacity && W.DistinctHashes(w) && Count(w, W.By(q)) <= W.Quota(capacity)
            && AllRecorded(o, capacity, ms, 0)
  {
  }

  lemma AfterStep(o: Oracles, capacity: nat, ms: seq<GossipMessage>, n: nat)
    requires 0 < n <= |ms|
    ensures var w := After(o, capacity, ms, n - 1);
            After(o, capacity, ms, n)
            == if Judge(o, ms[n - 1], w) == Forward then W.Insert(w, EntryOf(o, ms[n - 1]), capacity) else w
  {
  }

  lemma ForwardKeepsWindow(o: Oracles, m: GossipMessage, w: seq<W.Entry>, capacity: nat, q: W.Identity)
    requires Judge(o, m, w) == Forward
    requires |w| <= capacity && W.DistinctHashes(w) && Count(w, W.By(q)) <= W.Quota(capacity)
    ensures var after := W.Insert(w, EntryOf(o, m), capacity);
            |after| <= capacity && W.DistinctHashes(after) && Count(after, W.By(q)) <= W.Quota(capacity)
  {
    hide W.Insert, W.Quota, Count, W.DistinctHashes, DigestOf, Preimage;
    W.InsertTakesFromOldest(w, EntryOf(o, m), capacity);
    W.InsertKeepsQuota(w, EntryOf(o, m), capacity, q);
    W.InsertKeepsDistinct(w, EntryOf(o, m), capacity);
  }

  lemma StillRecorded(o: Oracles, capacity: nat, ms: seq<GossipMessage>, n: nat)
    requires 0 < n <= |ms| && AllRecorded(o, capacity, ms, n - 1)
    requires var w := After(o, capacity, ms, n - 1); |w| <= capacity && W.DistinctHashes(w)
    ensures AllRecorded(o, capacity, ms, n)
  {
    hide W.Insert, FingerprintInput, Preimage, W.DistinctHashes, DigestOf;
    var before, after, e := After(o, capacity, ms, n - 1), After(o, capacity, ms, n), EntryOf(o, ms[n - 1]);
    if Forwarded(o, capacity, ms, n - 1) {
      assert !W.Holds(before, e.hash);
      W.InsertKeepsDistinct(before, e, capacity);
    }
    forall k | 0 <= k < |after| ensures Recorded(o, capacity, ms, n, after[k]) {
      if after[k] in before {
        assert Recorded(o, capacity, ms, n - 1, after[k]);
      } else {
        assert Forwarded(o, capacity, ms, n - 1) && after[k] == e;
      }
    }
  }

  /** The hash tells message `n` of the run apart from every earlier one with another fingerprint. */
  ghost predicate NoCollision(o: Oracles, ms: seq<GossipMessage>, n: nat)
    requires n < |ms|
  {
    forall i :: 0 <= i < n && DigestOf(o, ms[i]) == DigestOf(o, ms[n]) ==>
      FingerprintInput(o.chainId, ms[i]) == FingerprintInput(o.chainId, ms[n])
  }

  /** Unless it collides with an earlier message of the run, only a message that was itself forwarded
      before is called a duplicate. */
  lemma DuplicatesWereForwarded(o: Oracles, capacity: nat, ms: seq<GossipMessage>, n: nat)
    requires n < |ms| && NoCollision(o, ms, n)
    ensures Judge(o, ms[n], After(o, capacity, ms, n)) == DuplicateMessage ==>
              exists i :: 0 <= i < n && Forwarded(o, capacity, ms, i) && ms[i] == ms[n]
  {
    hide FingerprintInput, Preimage, DigestOf, After;
    var w, m := After(o, capacity, ms, n), ms[n];
    if W.Holds(w, DigestOf(o, m)) {
      GateInvariant(o, capacity, ms, n, OriginOf(m));
      var k :| 0 <= k < |w| && w[k].hash == DigestOf(o, m);
      assert Recorded(o, capacity, ms, n, w[k]);
      var i :| 0 <= i < n && Forwarded(o, capacity, ms, i) && EntryOf(o, ms[i]) == w[k];
      FingerprintInjective(o.chainId, ms[i], m);
    }
  }
}
