/** Receipts folded into accumulators, cohort merges, and the maturity gate. */
module Coverage {
  import opened Machine
  import opened Sorting

  /** Opaque identifiers; only their order matters, for the representative of a merge group. */
  type Cluster = nat
  type Asn = nat

  /** A class id as its UTF-8 bytes. */
  type ClassId = Bytes

  type Group = g: set<Cluster> | g != {} witness {0}

  datatype Key = Key(classId: ClassId, window: int)

  datatype Receipt = Receipt(key: Key, cluster: Cluster, asn: Asn, diverged: bool, fault: bool)

  datatype Accumulator = Accumulator(key: Key, volume: nat, divergences: nat, faults: nat, clusters: nat, asns: nat)

  // ---- merge groups ---------------------------------------------------------------------------------

  predicate IsLeast(m: Cluster, g: set<Cluster>) {
    m in g && forall c :: c in g ==> m <= c
  }

  function Least(g: Group): (m: Cluster)
    ensures IsLeast(m, g)
  {
    LeastExists(g);
    var m :| IsLeast(m, g);
    m
  }

  lemma {:induction false} LeastExists(g: set<Cluster>)
    requires g != {}
    ensures exists m :: IsLeast(m, g)
  {
    var x :| x in g;
    var rest := g - {x};
    if rest == {} {
      assert g == {x};
      assert IsLeast(x, g);
    } else {
      LeastExists(rest);
      var m :| IsLeast(m, rest);
      LeastOfMore(m, x, g);
    }
  }

  lemma LeastOfMore(m: Cluster, x: Cluster, g: set<Cluster>)
    requires x in g && IsLeast(m, g - {x})
    ensures IsLeast(if m <= x then m else x, g)
  {
    forall c | c in g ensures (if m <= x then m else x) <= c {
      assert c == x || c in g - {x};
    }
  }

  /** The last group that names a cluster decides its representative. */
  function Representative(groups: seq<Group>, c: Cluster): Cluster {
    if groups == [] then c
    else if c in groups[|groups| - 1] then Least(groups[|groups| - 1])
    else Representative(groups[..|groups| - 1], c)
  }

  function Represented(groups: seq<Group>, clusters: set<Cluster>): set<Cluster> {
    set c | c in clusters :: Representative(groups, c)
  }

  /** A further group only merges: no cluster it takes shared its representative with one it leaves,
      unless it keeps that very representative. */
  ghost predicate OnlyMerges(groups: seq<Group>, g: Group) {
    forall x, y :: x in g && y !in g && Representative(groups, x) == Representative(groups, y) ==>
      Representative(groups, y) == Least(g)
  }

  lemma RepresentativeAfter(groups: seq<Group>, g: Group, c: Cluster)
    ensures Representative(groups + [g], c) == if c in g then Least(g) else Representative(groups, c)
  {
    assert (groups + [g])[..|groups|] == groups;
  }

  lemma StillTogether(groups: seq<Group>, g: Group, x: Cluster, y: Cluster)
    requires OnlyMerges(groups, g) && Representative(groups, x) == Representative(groups, y)
    ensures Representative(groups + [g], x) == Representative(groups + [g], y)
  {
    hide Representative;
    RepresentativeAfter(groups, g, x);
    RepresentativeAfter(groups, g, y);
  }

  /** Under that condition the number of represented clusters cannot grow. */
  lemma {:induction false} MergingShrinks(groups: seq<Group>, g: Group, clusters: set<Cluster>)
    requires OnlyMerges(groups, g)
    ensures |Represented(groups + [g], clusters)| <= |Represented(groups, clusters)|
  {
    if clusters != {} {
      var x :| x in clusters;
      var rest := clusters - {x};
      assert clusters == rest + {x};
      MergingShrinks(groups, g, rest);
      hide Representative, OnlyMerges;
      ImageGrows(groups, rest, x);
      ImageGrows(groups + [g], rest, x);
      if Representative(groups, x) in Represented(groups, rest) {
        var y :| y in rest && Representative(groups, y) == Representative(groups, x);
        StillTogether(groups, g, x, y);
        assert Representative(groups + [g], x) in Represented(groups + [g], rest);
      }
    }
  }

  lemma ImageGrows(groups: seq<Group>, rest: set<Cluster>, x: Cluster)
    ensures Represented(groups, rest + {x}) == Represented(groups, rest) + {Representative(groups, x)}
    ensures |Represented(groups, rest + {x})|
            == |Represented(groups, rest)| + if Representative(groups, x) in Represented(groups, rest) then 0 else 1
  {
    hide Representative;
    var a, r := Represented(groups, rest), Representative(groups, x);
    assert Represented(groups, rest + {x}) == a + {r};
    if r in a {
      assert a + {r} == a;
    }
  }

  // ---- the fold ------------------------------------------------------------------------------------------

  function For(key: Key): Receipt -> bool {
    (r: Receipt) => r.key == key
  }

  function DivergedFor(key: Key): Receipt -> bool {
    (r: Receipt) => r.key == key && r.diverged
  }

  function FaultFor(key: Key): Receipt -> bool {
    (r: Receipt) => r.key == key && r.fault
  }

  function ClustersOf(receipts: seq<Receipt>, key: Key): set<Cluster> {
    set r | r in receipts && r.key == key :: r.cluster
  }

  function AsnsOf(receipts: seq<Receipt>, key: Key): set<Asn> {
    set r | r in receipts && r.key == key :: r.asn
  }

  /** What the receipts say about one class in one window. */
  function AccumulatorOf(receipts: seq<Receipt>, groups: seq<Group>, key: Key): Accumulator {
    Accumulator(key, Count(receipts, For(key)), Count(receipts, DivergedFor(key)), Count(receipts, FaultFor(key)),
                |Represented(groups, ClustersOf(receipts, key))|, |AsnsOf(receipts, key)|)
  }

  lemma ClustersNext(rs: seq<Receipt>, r: Receipt, key: Key)
    ensures ClustersOf(rs + [r], key) == ClustersOf(rs, key) + (if r.key == key then {r.cluster} else {})
  {
    assert forall q :: q in rs + [r] <==> q in rs || q == r;
  }

  lemma AsnsNext(rs: seq<Receipt>, r: Receipt, key: Key)
    ensures AsnsOf(rs + [r], key) == AsnsOf(rs, key) + (if r.key == key then {r.asn} else {})
    ensures r.asn in AsnsOf(rs, key) <==> exists q :: q in rs && q.key == key && q.asn == r.asn
  {
    assert forall q :: q in rs + [r] <==> q in rs || q == r;
  }

  lemma RepresentedAmong(rs: seq<Receipt>, groups: seq<Group>, key: Key, c: Cluster)
    ensures c in Represented(groups, ClustersOf(rs, key))
            <==> exists q :: q in rs && q.key == key && Representative(groups, q.cluster) == c
  {
    hide Representative;
    if q :| q in rs && q.key == key && Representative(groups, q.cluster) == c {
      assert q.cluster in ClustersOf(rs, key);
    }
  }

  /** What one more receipt adds: to its own class and window one receipt, its divergence and its fault,
      and its cluster's representative and its network if they are new; to any other nothing. */
  lemma OneMoreReceipt(rs: seq<Receipt>, r: Receipt, groups: seq<Group>, key: Key)
    ensures var was, now := AccumulatorOf(rs, groups, key), AccumulatorOf(rs + [r], groups, key);
            if r.key != key then now == was
            else
              && now.key == key
              && now.volume == was.volume + 1
              && now.divergences == was.divergences + (if r.diverged then 1 else 0)
              && now.faults == was.faults + (if r.fault then 1 else 0)
              && now.clusters == was.clusters
                 + (if exists q :: && q in rs && q.key == key
                                   && Representative(groups, q.cluster) == Representative(groups, r.cluster)
                    then 0 else 1)
              && now.asns == was.asns + (if exists q :: q in rs && q.key == key && q.asn == r.asn then 0 else 1)
  {
    hide Count, Representative, Represented, ClustersOf, AsnsOf;
    CountNext(rs, r, For(key));
    CountNext(rs, r, DivergedFor(key));
    CountNext(rs, r, FaultFor(key));
    ClustersNext(rs, r, key);
    AsnsNext(rs, r, key);
    if r.key == key {
      ImageGrows(groups, ClustersOf(rs, key), r.cluster);
      RepresentedAmong(rs, groups, key, Representative(groups, r.cluster));
      if r.asn in AsnsOf(rs, key) {
        assert AsnsOf(rs, key) + {r.asn} == AsnsOf(rs, key);
      }
    } else {
      assert ClustersOf(rs, key) + {} == ClustersOf(rs, key);
      assert AsnsOf(rs, key) + {} == AsnsOf(rs, key);
    }
  }

  lemma NoReceipts(groups: seq<Group>, key: Key)
    ensures AccumulatorOf([], groups, key) == Accumulator(key, 0, 0, 0, 0, 0)
  {
  }

  /** The order in which receipts were published does not matter. */
  lemma OrderDoesNotMatter(a: seq<Receipt>, b: seq<Receipt>, groups: seq<Group>, key: Key)
    requires multiset(a) == multiset(b)
    ensures AccumulatorOf(a, groups, key) == AccumulatorOf(b, groups, key)
  {
    hide Count, Represented;
    CountPermutes(a, b, For(key));
    CountPermutes(a, b, DivergedFor(key));
    CountPermutes(a, b, FaultFor(key));
    assert forall r :: r in a <==> r in multiset(a);
    assert forall r :: r in b <==> r in multiset(b);
    assert ClustersOf(a, key) == ClustersOf(b, key);
    assert AsnsOf(a, key) == AsnsOf(b, key);
  }

  // ---- the gate --------------------------------------------------------------------------------------------

  datatype Thresholds = Thresholds(vMin: int, epsilon: real, phi: real, xClusters: int, xAsns: int)

  function DivergenceRate(acc: Accumulator): real {
    if acc.volume == 0 then 0.0 else acc.divergences as real / acc.volume as real
  }

  function FaultRate10k(acc: Accumulator): real {
    if acc.volume == 0 then 0.0 else acc.faults as real / acc.volume as real * 10000.0
  }

  predicate Gate(acc: Accumulator, th: Thresholds) {
    && acc.volume >= th.vMin
    && DivergenceRate(acc) < th.epsilon
    && FaultRate10k(acc) < th.phi
    && acc.clusters >= th.xClusters
    && acc.asns >= th.xAsns
  }

  /** What the gate asks, without a division: enough receipts, clusters and networks; fewer divergences
      than epsilon per receipt, and fewer faults than phi in ten thousand. */
  lemma GateMeans(acc: Accumulator, th: Thresholds)
    ensures Gate(acc, th) <==>
              && acc.volume >= th.vMin && acc.clusters >= th.xClusters && acc.asns >= th.xAsns
              && (if acc.volume == 0 then 0.0 < th.epsilon && 0.0 < th.phi
                  else && acc.divergences as real < th.epsilon * acc.volume as real
                       && acc.faults as real * 10000.0 < th.phi * acc.volume as real)
  {
    if acc.volume > 0 {
      RateBelow(acc.divergences as real, acc.volume as real, th.epsilon);
      RateBelow(acc.faults as real, acc.volume as real, th.phi / 10000.0);
    }
  }

  lemma RateBelow(x: real, d: real, bound: real)
    requires d > 0.0
    ensures x / d < bound <==> x < bound * d
  {
    assert x / d * d == x;
    if x / d < bound { Scale(x / d, bound, d); }
    if x / d >= bound { Scale(bound, x / d, d); }
  }

  lemma Scale(a: real, b: real, d: real)
    requires d > 0.0
    ensures a < b ==> a * d < b * d
    ensures a <= b ==> a * d <= b * d
  {
    if a <= b { assert (b - a) * d >= 0.0; }
    if a < b { assert (b - a) * d > 0.0; }
  }

  /** No receipts and thresholds exist for which adding the group turns a failing gate into a
      passing one. */
  ghost predicate NeverLoosens(groups: seq<Group>, g: Group) {
    forall receipts, key, th ::
      Gate(AccumulatorOf(receipts, groups + [g], key), th) ==> Gate(AccumulatorOf(receipts, groups, key), th)
  }

  lemma MergingTightensGate(groups: seq<Group>, g: Group, receipts: seq<Receipt>, key: Key, th: Thresholds)
    requires OnlyMerges(groups, g) && Gate(AccumulatorOf(receipts, groups + [g], key), th)
    ensures Gate(AccumulatorOf(receipts, groups, key), th)
  {
    hide Count, Represented, OnlyMerges;
    MergingShrinks(groups, g, ClustersOf(receipts, key));
  }

  const ANY_KEY: Key := Key([], 0)

  function TwoReceipts(x: Cluster, y: Cluster): seq<Receipt> {
    [Receipt(ANY_KEY, x, 0, false, false), Receipt(ANY_KEY, y, 0, false, false)]
  }

  lemma CountTwo(r: Receipt, q: Receipt, p: Receipt -> bool)
    ensures Count([r, q], p) == (if p(r) then 1 else 0) + (if p(q) then 1 else 0)
  {
    hide Count;
    assert [r, q] == [r] + [q];
    CountConcat([r], [q], p);
    CountOne(r, p);
    CountOne(q, p);
  }

  lemma TwoReceiptsFold(x: Cluster, y: Cluster, groups: seq<Group>)
    ensures var acc := AccumulatorOf(TwoReceipts(x, y), groups, ANY_KEY);
            && acc.volume == 2 && acc.divergences == 0 && acc.faults == 0 && acc.asns == 1
            && acc.clusters == if Representative(groups, x) == Representative(groups, y) then 1 else 2
  {
    hide Representative, Count;
    var rs := TwoReceipts(x, y);
    CountTwo(rs[0], rs[1], For(ANY_KEY));
    CountTwo(rs[0], rs[1], DivergedFor(ANY_KEY));
    CountTwo(rs[0], rs[1], FaultFor(ANY_KEY));
    assert ClustersOf(rs, ANY_KEY) == {x, y} by {
      assert rs[0] in rs && rs[1] in rs;
    }
    assert AsnsOf(rs, ANY_KEY) == {0} by {
      assert rs[0] in rs;
    }
    assert Represented(groups, {x, y}) == {Representative(groups, x), Representative(groups, y)};
  }

  /** Where the condition fails, two receipts and a demand for two clusters show it. */
  lemma SplittingLoosensGate(groups: seq<Group>, g: Group, x: Cluster, y: Cluster)
    requires x in g && y !in g && Representative(groups, x) == Representative(groups, y) != Least(g)
    ensures var th := Thresholds(0, 1.0, 1.0, 2, 0);
            && Gate(AccumulatorOf(TwoReceipts(x, y), groups + [g], ANY_KEY), th)
            && !Gate(AccumulatorOf(TwoReceipts(x, y), groups, ANY_KEY), th)
  {
    hide Representative, AccumulatorOf;
    RepresentativeAfter(groups, g, x);
    RepresentativeAfter(groups, g, y);
    TwoReceiptsFold(x, y, groups);
    TwoReceiptsFold(x, y, groups + [g]);
  }

  /** Adding a merge group can never turn a failing gate into a passing one exactly when the group
      only merges. */
  lemma NeverLoosensIff(groups: seq<Group>, g: Group)
    ensures NeverLoosens(groups, g) <==> OnlyMerges(groups, g)
  {
    hide Representative, AccumulatorOf, Gate;
    if OnlyMerges(groups, g) {
      forall receipts, key, th | Gate(AccumulatorOf(receipts, groups + [g], key), th)
        ensures Gate(AccumulatorOf(receipts, groups, key), th)
      {
        MergingTightensGate(groups, g, receipts, key, th);
      }
    } else {
      var x, y :| x in g && y !in g && Representative(groups, x) == Representative(groups, y) != Least(g);
      SplittingLoosensGate(groups, g, x, y);
    }
  }

  /** An overlapping group that splits an earlier one: 0 and 2 were merged, then 2 is taken away, and
      a gate that asks for two clusters passes. */
  lemma OverlapExample()
    ensures !OnlyMerges([{0, 1, 2}], {2, 3})
    ensures var th := Thresholds(0, 1.0, 1.0, 2, 0);
            && !Gate(AccumulatorOf(TwoReceipts(2, 0), [{0, 1, 2}], ANY_KEY), th)
            && Gate(AccumulatorOf(TwoReceipts(2, 0), [{0, 1, 2}] + [{2, 3}], ANY_KEY), th)
  {
    hide AccumulatorOf, Gate;
    var groups: seq<Group> := [{0, 1, 2}];
    assert Least({0, 1, 2}) == 0 && Least({2, 3}) == 2;
    assert Representative(groups, 2) == 0 && Representative(groups, 0) == 0;
    SplittingLoosensGate(groups, {2, 3}, 2, 0);
  }

  // ---- groups that do not overlap ------------------------------------------------------------------------

  lemma {:induction false} RepresentativeIsSelfOrGrouped(groups: seq<Group>, c: Cluster)
    ensures (forall i :: 0 <= i < |groups| ==> c !in groups[i]) ==> Representative(groups, c) == c
    ensures Representative(groups, c) == c || exists i :: 0 <= i < |groups| && Representative(groups, c) in groups[i]
  {
    if groups != [] {
      var before := groups[..|groups| - 1];
      RepresentativeIsSelfOrGrouped(before, c);
      if c in groups[|groups| - 1] {
        assert Representative(groups, c) in groups[|groups| - 1];
      } else if Representative(before, c) != c {
        var i :| 0 <= i < |before| && Representative(before, c) in before[i];
        assert Representative(groups, c) in groups[i];
      }
    }
  }

  ghost predicate Disjoint(groups: seq<Group>) {
    forall i, j :: 0 <= i < j < |groups| ==> groups[i] !! groups[j]
  }

  lemma DisjointOnlyMerges(groups: seq<Group>, g: Group)
    requires forall i :: 0 <= i < |groups| ==> groups[i] !! g
    ensures OnlyMerges(groups, g)
  {
    hide Representative;
    forall x, y | x in g && y !in g ensures Representative(groups, x) != Representative(groups, y) {
      RepresentativeIsSelfOrGrouped(groups, x);
      RepresentativeIsSelfOrGrouped(groups, y);
    }
  }

  /** Any list of pairwise disjoint groups only ever makes the gate stricter. */
  lemma {:induction false} DisjointGroupsTightenGate(groups: seq<Group>, receipts: seq<Receipt>, key: Key,
                                                     th: Thresholds)
    requires Disjoint(groups) && Gate(AccumulatorOf(receipts, groups, key), th)
    ensures Gate(AccumulatorOf(receipts, [], key), th)
  {
    hide AccumulatorOf, Gate, OnlyMerges;
    if groups != [] {
      var before, g := groups[..|groups| - 1], groups[|groups| - 1];
      assert groups == before + [g];
      DisjointOnlyMerges(before, g);
      MergingTightensGate(before, g, receipts, key, th);
      DisjointGroupsTightenGate(before, receipts, key, th);
    }
  }
}
