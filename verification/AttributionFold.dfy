/** Folding signed receipts into per-cluster attributions. */
module AttributionFold {
  import opened Machine
  import opened Sorting
  import opened Records
  import opened Preimages
  import opened Apportionment

  /** The signature check, the staked-key registry and the network this build signs for. */
  datatype Verification = Verification(
    verify: (PublicKey, Bytes, Signature) -> bool,
    registered: (PublicKey, Bytes32) -> bool,
    chainId: u32)

  /** A receipt counts only if its window, its key, its assignment and its signature check out. */
  predicate Accepts(v: Verification, auth: AuthorizationSet, window: u64, r: SignedReceipt) {
    var a := r.attestation;
    && a.window == window
    && v.registered(r.publicKey, a.nodeId)
    && auth.window == window && a.taskClassId == auth.taskClassId && a.nodeId in auth.executors
    && v.verify(r.publicKey, Preimage(v.chainId, Execution(a)), r.signature)
  }

  /** The clusters that the receipts name, as a filter sees them. */
  datatype Filter = Filter(v: Verification, auth: AuthorizationSet, window: u64) {
    predicate Accepted(r: SignedReceipt) {
      Accepts(v, auth, window, r)
    }

    /** Accepted and attributed to cluster `c`. */
    predicate Attributed(c: Bytes, r: SignedReceipt) {
      Accepted(r) && r.attestation.clusterId == c
    }

    function For(c: Bytes): SignedReceipt -> bool {
      r => Attributed(c, r)
    }

    function Any(): SignedReceipt -> bool {
      r => Accepted(r)
    }

    ghost function Clusters(rs: seq<SignedReceipt>): set<Bytes> {
      set r | r in rs && Accepted(r) :: r.attestation.clusterId
    }
  }

  function IndexOf(acc: seq<Attribution>, c: Bytes): (k: nat)
    ensures k <= |acc|
    ensures k < |acc| ==> acc[k].clusterId == c
    ensures forall i :: 0 <= i < k ==> acc[i].clusterId != c
  {
    if acc == [] then 0
    else if acc[0].clusterId == c then 0
    else 1 + IndexOf(acc[1..], c)
  }

  /** Credit one receipt to its cluster; None when a 33rd cluster would be needed. */
  function Credit(acc: seq<Attribution>, c: Bytes): Option<seq<Attribution>> {
    var k := IndexOf(acc, c);
    if k < |acc| then Some(acc[k := acc[k].(count := Min(acc[k].count + 1, U64_MAX))])
    else if |acc| < MAX_ATTRIBUTIONS_PER_FOLD then Some(acc + [Attribution(c, 1, 0)])
    else None
  }

  function Accumulate(f: Filter, rs: seq<SignedReceipt>): Option<seq<Attribution>> {
    if rs == [] then Some([])
    else
      var r := rs[|rs| - 1];
      var acc :- Accumulate(f, rs[..|rs| - 1]);
      if f.Accepted(r) then Credit(acc, r.attestation.clusterId) else Some(acc)
  }

  /** One entry per named cluster, holding exactly the number of receipts accepted for it. */
  ghost predicate Tallies(f: Filter, rs: seq<SignedReceipt>, acc: seq<Attribution>) {
    && (forall i, j :: 0 <= i < j < |acc| ==> acc[i].clusterId != acc[j].clusterId)
    && (forall i :: 0 <= i < |acc| ==> acc[i].clusterId in f.Clusters(rs))
    && (forall c :: c in f.Clusters(rs) ==> exists i :: 0 <= i < |acc| && acc[i].clusterId == c)
    && (forall i :: 0 <= i < |acc| ==> acc[i].count == Count(rs, f.For(acc[i].clusterId)))
    && |acc| == |f.Clusters(rs)|
  }

  lemma ClustersStep(f: Filter, rs: seq<SignedReceipt>)
    requires rs != []
    ensures var r := rs[|rs| - 1];
            f.Clusters(rs) == f.Clusters(rs[..|rs| - 1]) + if f.Accepted(r) then {r.attestation.clusterId} else {}
  {
    hide Accepts;
    var g, r := rs[..|rs| - 1], rs[|rs| - 1];
    assert forall x :: x in rs <==> x in g || x == r;
    assert r in rs;
  }

  /** A cluster is credited exactly when some receipt of it has the window, a key registered for its node,
      an assignment of that node to this window and task, and a signature of that key over it. */
  lemma CreditedIff(f: Filter, rs: seq<SignedReceipt>, c: Bytes)
    ensures c in f.Clusters(rs) <==>
              exists r :: && r in rs && r.attestation.clusterId == c
                          && r.attestation.window == f.window
                          && f.v.registered(r.publicKey, r.attestation.nodeId)
                          && f.auth.window == f.window
                          && r.attestation.taskClassId == f.auth.taskClassId
                          && r.attestation.nodeId in f.auth.executors
                          && f.v.verify(r.publicKey, Preimage(f.v.chainId, Execution(r.attestation)), r.signature)
  {
    hide Preimage;
  }

  lemma {:induction false} UnnamedCountsZero(f: Filter, rs: seq<SignedReceipt>, c: Bytes)
    requires c !in f.Clusters(rs)
    ensures Count(rs, f.For(c)) == 0
  {
    hide Accepts;
    if rs != [] {
      ClustersStep(f, rs);
      UnnamedCountsZero(f, rs[..|rs| - 1], c);
    }
  }

  lemma CountStep(f: Filter, rs: seq<SignedReceipt>, c: Bytes)
    requires rs != []
    ensures Count(rs, f.For(c)) == Count(rs[..|rs| - 1], f.For(c)) + if f.Attributed(c, rs[|rs| - 1]) then 1 else 0
  {
    hide Accepts;
  }

  lemma KnownTallies(f: Filter, rs: seq<SignedReceipt>, acc: seq<Attribution>, k: nat)
    requires rs != [] && |rs| <= U64_MAX && f.Accepted(rs[|rs| - 1]) && Tallies(f, rs[..|rs| - 1], acc)
    requires k < |acc| && acc[k].clusterId == rs[|rs| - 1].attestation.clusterId
    ensures f.Clusters(rs) == f.Clusters(rs[..|rs| - 1])
    ensures Tallies(f, rs, acc[k := acc[k].(count := Min(acc[k].count + 1, U64_MAX))])
  {
    hide Count, f.Clusters, f.For, Accepts;
    ClustersStep(f, rs);
    assert f.Clusters(rs) == f.Clusters(rs[..|rs| - 1]);
    var next := acc[k := acc[k].(count := Min(acc[k].count + 1, U64_MAX))];
    forall i | 0 <= i < |acc|
      ensures next[i].clusterId == acc[i].clusterId && next[i].count == Count(rs, f.For(next[i].clusterId))
    {
      CountStep(f, rs, acc[i].clusterId);
    }
  }

  lemma NewTallies(f: Filter, rs: seq<SignedReceipt>, acc: seq<Attribution>)
    requires rs != [] && f.Accepted(rs[|rs| - 1]) && Tallies(f, rs[..|rs| - 1], acc)
    requires forall i :: 0 <= i < |acc| ==> acc[i].clusterId != rs[|rs| - 1].attestation.clusterId
    ensures |f.Clusters(rs)| == |acc| + 1
    ensures Tallies(f, rs, acc + [Attribution(rs[|rs| - 1].attestation.clusterId, 1, 0)])
  {
    hide Count, f.Clusters, f.For, Accepts;
    var g, c := rs[..|rs| - 1], rs[|rs| - 1].attestation.clusterId;
    var next := acc + [Attribution(c, 1, 0)];
    ClustersStep(f, rs);
    assert c !in f.Clusters(g);
    UnnamedCountsZero(f, g, c);
    CountStep(f, rs, c);
    forall i | 0 <= i < |acc| ensures next[i] == acc[i] && acc[i].count == Count(rs, f.For(acc[i].clusterId)) {
      CountStep(f, rs, acc[i].clusterId);
    }
    assert next[|acc|].clusterId == c;
  }

  lemma CreditTallies(f: Filter, rs: seq<SignedReceipt>, acc: seq<Attribution>)
    requires rs != [] && |rs| <= U64_MAX && f.Accepted(rs[|rs| - 1]) && Tallies(f, rs[..|rs| - 1], acc)
    requires |acc| <= MAX_ATTRIBUTIONS_PER_FOLD
    ensures var next := Credit(acc, rs[|rs| - 1].attestation.clusterId);
            && (next.None? <==> |f.Clusters(rs)| > MAX_ATTRIBUTIONS_PER_FOLD)
            && (next.Some? ==> Tallies(f, rs, next.value))
  {
    hide Count, f.Clusters, f.For, Accepts, IndexOf, Tallies;
    var k := IndexOf(acc, rs[|rs| - 1].attestation.clusterId);
    TalliesSize(f, rs[..|rs| - 1], acc);
    if k < |acc| {
      KnownTallies(f, rs, acc, k);
    } else {
      NewTallies(f, rs, acc);
    }
  }

  /** The fold fails exactly when the accepted receipts name more than 32 clusters; otherwise
      each named cluster has one entry with its exact count. */
  lemma {:induction false} AccumulateTallies(f: Filter, rs: seq<SignedReceipt>)
    requires |rs| <= U64_MAX
    ensures Accumulate(f, rs).None? <==> |f.Clusters(rs)| > MAX_ATTRIBUTIONS_PER_FOLD
    ensures Accumulate(f, rs).Some? ==> Tallies(f, rs, Accumulate(f, rs).value)
  {
    hide Count, f.Clusters, f.For, Accepts, Credit, Tallies;
    if rs == [] {
      NothingTallied(f);
    } else {
      var g, r := rs[..|rs| - 1], rs[|rs| - 1];
      AccumulateTallies(f, g);
      ClustersStep(f, rs);
      if Accumulate(f, g).Some? {
        var acc := Accumulate(f, g).value;
        TalliesSize(f, g, acc);
        if f.Accepted(r) {
          CreditTallies(f, rs, acc);
        } else {
          SkipTallies(f, rs, acc);
        }
      } else {
        SubsetSize(f.Clusters(g), f.Clusters(rs));
      }
    }
  }

  lemma NothingTallied(f: Filter)
    ensures f.Clusters([]) == {} && Tallies(f, [], [])
  {
  }

  lemma TalliesSize(f: Filter, rs: seq<SignedReceipt>, acc: seq<Attribution>)
    requires Tallies(f, rs, acc)
    ensures |acc| == |f.Clusters(rs)|
  {
  }

  lemma SkipTallies(f: Filter, rs: seq<SignedReceipt>, acc: seq<Attribution>)
    requires rs != [] && !f.Accepted(rs[|rs| - 1]) && Tallies(f, rs[..|rs| - 1], acc)
    ensures Tallies(f, rs, acc) && f.Clusters(rs) == f.Clusters(rs[..|rs| - 1])
  {
    hide Count, f.Clusters, f.For, Accepts;
    ClustersStep(f, rs);
    assert f.Clusters(rs) == f.Clusters(rs[..|rs| - 1]);
    forall i | 0 <= i < |acc| ensures Count(rs, f.For(acc[i].clusterId)) == acc[i].count {
      CountStep(f, rs, acc[i].clusterId);
    }
  }

  // ---- conservation and order -------------------------------------------------------------------

  /** The counts add up to the number of accepted receipts: nothing is lost or counted twice. */
  lemma {:induction false} CountsSumToAccepted(f: Filter, rs: seq<SignedReceipt>)
    requires |rs| <= U64_MAX && Accumulate(f, rs).Some?
    ensures var acc := Accumulate(f, rs).value;
            Sum(Counts(acc), |acc|) == Count(rs, f.Any())
  {
    hide Count, f.Clusters, f.For, Accepts, Credit, Tallies;
    if rs == [] {
      NothingAccepted(f);
    } else {
      var g, r := rs[..|rs| - 1], rs[|rs| - 1];
      CountsSumToAccepted(f, g);
      AnyStep(f, rs);
      var acc := Accumulate(f, g).value;
      if f.Accepted(r) {
        AccumulateTallies(f, g);
        CountsBelow(f, g, acc);
        CreditAddsOne(acc, r.attestation.clusterId);
      }
    }
  }

  lemma NothingAccepted(f: Filter)
    ensures Count([], f.Any()) == 0
  {
  }

  lemma AnyStep(f: Filter, rs: seq<SignedReceipt>)
    requires rs != []
    ensures Count(rs, f.Any()) == Count(rs[..|rs| - 1], f.Any()) + if f.Accepted(rs[|rs| - 1]) then 1 else 0
  {
    hide Accepts;
  }

  lemma CountsBelow(f: Filter, rs: seq<SignedReceipt>, acc: seq<Attribution>)
    requires Tallies(f, rs, acc) && |rs| < U64_MAX
    ensures forall i :: 0 <= i < |acc| ==> acc[i].count < U64_MAX
  {
  }

  lemma CreditAddsOne(acc: seq<Attribution>, c: Bytes)
    requires (forall i :: 0 <= i < |acc| ==> acc[i].count < U64_MAX) && Credit(acc, c).Some?
    ensures var next := Credit(acc, c).value;
            Sum(Counts(next), |next|) == Sum(Counts(acc), |acc|) + 1
  {
    var k := IndexOf(acc, c);
    var next := Credit(acc, c).value;
    if k < |acc| {
      assert Counts(next) == Counts(acc)[k := Counts(acc)[k] + 1];
      SumUpdate(Counts(acc), k, |acc|);
    } else {
      assert Counts(next) == Counts(acc) + [1];
      SumPrefix(Counts(acc), [1], |acc|);
    }
  }

  lemma {:induction false} SumPrefix(a: seq<int>, b: seq<int>, n: nat)
    requires n <= |a|
    ensures Sum(a + b, n) == Sum(a, n)
  {
    if n > 0 { SumPrefix(a, b, n - 1); }
  }

  /** Reordering the receipts changes neither whether the fold succeeds nor any cluster's count. */
  lemma OrderDoesNotMatter(f: Filter, rs: seq<SignedReceipt>, ss: seq<SignedReceipt>, c: Bytes)
    requires |rs| <= U64_MAX && multiset(rs) == multiset(ss)
    ensures Accumulate(f, rs).None? <==> Accumulate(f, ss).None?
    ensures Count(rs, f.For(c)) == Count(ss, f.For(c))
    ensures f.Clusters(rs) == f.Clusters(ss)
  {
    hide Count, f.For, Accepts, Tallies, Accumulate;
    SameElements(rs, ss);
    assert f.Clusters(rs) == f.Clusters(ss);
    AccumulateTallies(f, rs);
    AccumulateTallies(f, ss);
    CountPermutes(rs, ss, f.For(c));
  }

  // ---- the fold as it runs -----------------------------------------------------------------------

  datatype FoldResult = Folded(attributions: seq<Attribution>) | CapacityExceeded

  method FoldVerifiedAttributed(f: Filter, receipts: seq<SignedReceipt>) returns (r: FoldResult)
    requires |receipts| <= U64_MAX
    ensures r.CapacityExceeded? <==> |f.Clusters(receipts)| > MAX_ATTRIBUTIONS_PER_FOLD
    ensures r.Folded? ==>
              && Tallies(f, receipts, r.attributions)
              && (forall i :: 0 <= i < |r.attributions| ==>
                    r.attributions[i].weight == Weights(Counts(r.attributions))[i])
              && Sum(Counts(r.attributions), |r.attributions|) == Count(receipts, f.Any())
              && (Count(receipts, f.Any()) > 0 ==>
                    Sum(Weights(Counts(r.attributions)), |r.attributions|) == BP_FULL)
  {
    hide Count, f.Clusters, f.For, f.Any, Accepts, Credit, Tallies, Weights;
    var acc := [];
    for i := 0 to |receipts|
      invariant Accumulate(f, receipts[..i]) == Some(acc)
    {
      assert receipts[..i + 1][..i] == receipts[..i];
      if f.Accepted(receipts[i]) {
        var next := Credit(acc, receipts[i].attestation.clusterId);
        if next.None? {
          StaysFull(f, receipts, i + 1);
          AccumulateTallies(f, receipts);
          return CapacityExceeded;
        }
        acc := next.value;
      }
    }
    assert receipts[..|receipts|] == receipts;
    AccumulateTallies(f, receipts);
    CountsSumToAccepted(f, receipts);
    TalliesSize(f, receipts, acc);
    var attrs := new Attribution[|acc|](k requires 0 <= k < |acc| => acc[k]);
    assert attrs[..] == acc;
    NormalizeWeights(attrs);
    SameTallies(f, receipts, acc, attrs[..], Weights(Counts(acc)));
    r := Folded(attrs[..]);
    if Count(receipts, f.Any()) > 0 { WeightsSumIff(Counts(acc)); }
  }

  lemma {:induction false} StaysFull(f: Filter, rs: seq<SignedReceipt>, n: nat)
    requires n <= |rs| && Accumulate(f, rs[..n]).None?
    ensures Accumulate(f, rs).None?
    decreases |rs|
  {
    if n == |rs| {
      assert rs[..n] == rs;
    } else {
      assert rs[..|rs| - 1][..n] == rs[..n];
      StaysFull(f, rs[..|rs| - 1], n);
    }
  }

  lemma SameTallies(f: Filter, rs: seq<SignedReceipt>, acc: seq<Attribution>, s: seq<Attribution>, w: seq<int>)
    requires Tallies(f, rs, acc) && Reweighted(s, acc, w)
    ensures Tallies(f, rs, s) && Counts(s) == Counts(acc)
    ensures forall i :: 0 <= i < |s| ==> s[i].weight == w[i]
  {
    hide f.Clusters, f.For;
    assert forall i :: 0 <= i < |s| ==> s[i].clusterId == acc[i].clusterId && s[i].count == acc[i].count;
    forall c | c in f.Clusters(rs) ensures exists i :: 0 <= i < |s| && s[i].clusterId == c {
      var i :| 0 <= i < |acc| && acc[i].clusterId == c;
      assert s[i].clusterId == c;
    }
  }
}
