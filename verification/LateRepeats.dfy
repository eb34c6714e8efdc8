/** A node named again after the market overflowed is favoured: when exactly the reservoir is fair. */
module LateRepeats {
  import opened Machine
  import opened Sorting
  import opened FaultMarket
  import opened ReservoirFairness

  /** Naming `x` once more, under the draw `k`. */
  lemma RepeatStep(f: seq<NodeId>, x: NodeId, stake: StakeOracle, v: Vector, k: nat)
    requires Distinct(f) && x in f && MAX_FAULT_MARKET + |v| == |f| < U64_MAX && k <= |f|
    ensures var mid := Collect(f, stake, DrawsOf(v)).entries;
            && |mid| == MAX_FAULT_MARKET
            && Collect(f + [x], stake, DrawsOf(v + [k])).entries
               == if Holds(mid, x) || k >= |mid| then mid else mid[k := FaultEntry(x, stake.of(x))]
  {
    SameBeforeLast(f, stake, v, k);
    DistinctAreAllSeen(f, stake, DrawsOf(v));
    ReservoirRetains(f, stake, DrawsOf(v));
    assert DrawsOf(v + [k]).draw(|f|) == k;
    hide Collect, DrawsOf, Named, Distinct, DistinctIds;
    CollectSnoc(f, x, stake, DrawsOf(v + [k]));
  }

  // ---- counting extensions ------------------------------------------------------------------------------

  lemma {:induction false} ExtendCountsBoth(vs: seq<Vector>, m: nat, p: Vector -> bool, q: Vector -> bool,
                                            a: nat, b: nat)
    requires forall v :: v in vs ==> Count(Row(v, m), p) == if q(v) then a else b
    ensures Count(Extend(vs, m), p) == a * Count(vs, q) + b * (|vs| - Count(vs, q))
  {
    hide Row;
    if vs != [] {
      var rest, v := vs[..|vs| - 1], vs[|vs| - 1];
      ExtendCountsBoth(rest, m, p, q, a, b);
      CountConcat(Extend(rest, m), Row(v, m), p);
      TimesNext(a, Count(rest, q));
      TimesNext(b, |rest| - Count(rest, q));
      assert v in vs;
    }
  }

  lemma {:induction false} ExtendCountsAtMost(vs: seq<Vector>, m: nat, p: Vector -> bool, q: Vector -> bool, a: nat)
    requires forall v :: v in vs ==> Count(Row(v, m), p) <= if q(v) then a else 0
    ensures Count(Extend(vs, m), p) <= a * Count(vs, q)
  {
    hide Row;
    if vs != [] {
      var rest, v := vs[..|vs| - 1], vs[|vs| - 1];
      ExtendCountsAtMost(rest, m, p, q, a);
      CountConcat(Extend(rest, m), Row(v, m), p);
      TimesNext(a, Count(rest, q));
      assert v in vs;
    }
  }

  // ---- one late repeat ------------------------------------------------------------------------------------

  /** All draws keep the repeated node if it was kept, and as many as there are slots if it was not. */
  lemma RowOfRepeated(f: seq<NodeId>, x: NodeId, stake: StakeOracle, v: Vector)
    requires Distinct(f) && x in f && MAX_FAULT_MARKET + |v| == |f| < U64_MAX
    ensures Count(Row(v, |f| + 1), Keeps(f + [x], stake, x))
            == if Keeps(f, stake, x)(v) then |f| + 1 else MAX_FAULT_MARKET
  {
    hide Row, Count, Collect, DrawsOf, Distinct;
    var mid := Collect(f, stake, DrawsOf(v)).entries;
    forall k: nat | k < |f| + 1
      ensures Keeps(f + [x], stake, x)(v + [k]) <==> Holds(mid, x) || k < MAX_FAULT_MARKET
    {
      RepeatStep(f, x, stake, v, k);
      var after := Collect(f + [x], stake, DrawsOf(v + [k])).entries;
      if !Holds(mid, x) && k < |mid| { assert after[k].nodeId == x; }
    }
    RowBelow(v, |f| + 1, Keeps(f + [x], stake, x), if Holds(mid, x) then |f| + 1 else MAX_FAULT_MARKET);
  }

  /** No draw brings back another node that was shed. */
  lemma RowOfOther(f: seq<NodeId>, x: NodeId, z: NodeId, stake: StakeOracle, v: Vector)
    requires Distinct(f) && x in f && x != z && MAX_FAULT_MARKET + |v| == |f| < U64_MAX
    ensures Count(Row(v, |f| + 1), Keeps(f + [x], stake, z)) <= if Keeps(f, stake, z)(v) then |f| + 1 else 0
  {
    hide Row, Count, Collect, DrawsOf, Distinct;
    var mid := Collect(f, stake, DrawsOf(v)).entries;
    if !Holds(mid, z) {
      forall k: nat | k < |f| + 1 ensures !Keeps(f + [x], stake, z)(v + [k]) {
        RepeatStep(f, x, stake, v, k);
        var after := Collect(f + [x], stake, DrawsOf(v + [k])).entries;
        forall i | 0 <= i < |after| ensures after[i].nodeId != z {
          assert after[i] == mid[i] || after[i].nodeId == x;
        }
      }
      RowBelow(v, |f| + 1, Keeps(f + [x], stake, z), 0);
    }
  }

  lemma NotAll(kept: nat, total: nat, d: nat, c: nat)
    requires kept * d == c * total && c < d && total > 0 && kept <= total
    ensures kept < total
  {
    Less(c, d, total);
    assert c * total < d * total;
  }

  lemma {:induction false} SomeVector(n: nat)
    ensures |Vectors(n)| > 0
  {
    if n > 0 {
      SomeVector(n - 1);
      hide Vectors, Extend;
      VectorsStep(n);
      ExtendLength(Vectors(n - 1), MAX_FAULT_MARKET + n);
      Less(0, |Vectors(n - 1)|, MAX_FAULT_MARKET + n);
    }
  }

  /** Before the repeat both nodes are kept equally often, and not always. */
  lemma EqualBefore(f: seq<NodeId>, x: NodeId, z: NodeId, stake: StakeOracle)
    requires Distinct(f) && x in f && z in f && MAX_FAULT_MARKET < |f| <= U64_MAX
    ensures var vs := Vectors(|f| - MAX_FAULT_MARKET);
            && Count(vs, Keeps(f, stake, x)) == Count(vs, Keeps(f, stake, z)) < |vs|
            && (forall v :: v in vs ==> MAX_FAULT_MARKET + |v| == |f|)
  {
    hide Keeps, Vectors, Count, Distinct;
    var n := |f| - MAX_FAULT_MARKET;
    var vs := Vectors(n);
    var i :| 0 <= i < |f| && f[i] == x;
    var k :| 0 <= k < |f| && f[k] == z;
    DistinctAreFair(f, stake, i);
    DistinctAreFair(f, stake, k);
    SameShare(Count(vs, Keeps(f, stake, x)), Count(vs, Keeps(f, stake, z)), |f|);
    SomeVector(n);
    NotAll(Count(vs, Keeps(f, stake, x)), |vs|, |f|, MAX_FAULT_MARKET);
    forall v | v in vs ensures MAX_FAULT_MARKET + |v| == |f| { ListedIsVector(n, v); }
  }

  lemma MoreForRepeated(a: nat, b: nat, kept: nat, total: nat)
    requires kept < total && b > 0
    ensures a * kept + b * (total - kept) > a * kept
  {
    Less(0, b, total - kept);
  }

  lemma RepeatedCount(f: seq<NodeId>, x: NodeId, stake: StakeOracle, vs: seq<Vector>)
    requires Distinct(f) && x in f && |f| < U64_MAX && forall v :: v in vs ==> MAX_FAULT_MARKET + |v| == |f|
    ensures var kept := Count(vs, Keeps(f, stake, x));
            Count(Extend(vs, |f| + 1), Keeps(f + [x], stake, x)) == (|f| + 1) * kept + MAX_FAULT_MARKET * (|vs| - kept)
  {
    hide Keeps, Count, Distinct, Row, Extend;
    forall v | v in vs
      ensures Count(Row(v, |f| + 1), Keeps(f + [x], stake, x))
              == if Keeps(f, stake, x)(v) then |f| + 1 else MAX_FAULT_MARKET
    {
      RowOfRepeated(f, x, stake, v);
    }
    ExtendCountsBoth(vs, |f| + 1, Keeps(f + [x], stake, x), Keeps(f, stake, x), |f| + 1, MAX_FAULT_MARKET);
  }

  lemma OtherCount(f: seq<NodeId>, x: NodeId, z: NodeId, stake: StakeOracle, vs: seq<Vector>)
    requires Distinct(f) && x in f && x != z && |f| < U64_MAX
    requires forall v :: v in vs ==> MAX_FAULT_MARKET + |v| == |f|
    ensures Count(Extend(vs, |f| + 1), Keeps(f + [x], stake, z)) <= (|f| + 1) * Count(vs, Keeps(f, stake, z))
  {
    hide Keeps, Count, Distinct, Row, Extend;
    forall v | v in vs
      ensures Count(Row(v, |f| + 1), Keeps(f + [x], stake, z)) <= if Keeps(f, stake, z)(v) then |f| + 1 else 0
    {
      RowOfOther(f, x, z, stake, v);
    }
    ExtendCountsAtMost(vs, |f| + 1, Keeps(f + [x], stake, z), Keeps(f, stake, z), |f| + 1);
  }

  lemma FavouredAmong(f: seq<NodeId>, x: NodeId, z: NodeId, stake: StakeOracle, vs: seq<Vector>)
    requires Distinct(f) && x in f && x != z && |f| < U64_MAX
    requires forall v :: v in vs ==> MAX_FAULT_MARKET + |v| == |f|
    requires Count(vs, Keeps(f, stake, x)) == Count(vs, Keeps(f, stake, z)) < |vs|
    ensures Count(Extend(vs, |f| + 1), Keeps(f + [x], stake, x)) > Count(Extend(vs, |f| + 1), Keeps(f + [x], stake, z))
  {
    hide Keeps, Count, Distinct, Extend;
    RepeatedCount(f, x, stake, vs);
    OtherCount(f, x, z, stake, vs);
    MoreForRepeated(|f| + 1, MAX_FAULT_MARKET, Count(vs, Keeps(f, stake, x)), |vs|);
  }

  /** Naming any node again, after any number of distinct nodes beyond the capacity, makes more of the
      vectors keep it than keep any other node. */
  lemma LateRepeatIsFavoured(f: seq<NodeId>, x: NodeId, z: NodeId, stake: StakeOracle)
    requires Distinct(f) && x in f && z in f && x != z && MAX_FAULT_MARKET < |f| < U64_MAX
    ensures var vs := Vectors(|f| - MAX_FAULT_MARKET + 1);
            Count(vs, Keeps(f + [x], stake, x)) > Count(vs, Keeps(f + [x], stake, z))
  {
    hide Keeps, Vectors, Count, Distinct, Extend;
    EqualBefore(f, x, z, stake);
    VectorsStep(|f| - MAX_FAULT_MARKET + 1);
    FavouredAmong(f, x, z, stake, Vectors(|f| - MAX_FAULT_MARKET));
  }

  // ---- exactly when the reservoir is fair -------------------------------------------------------------------

  /** Once more than 2048 distinct nodes were named, all of them are kept by equally many vectors. The
      vectors have one draw more than there are nodes beyond the capacity, so that a repeat can use it. */
  ghost predicate Fair(faults: seq<NodeId>, stake: StakeOracle) {
    |Named(faults)| > MAX_FAULT_MARKET ==>
      var vs := Vectors(|Named(faults)| - MAX_FAULT_MARKET + 1);
      forall x, z :: x in faults && z in faults ==>
        Count(vs, Keeps(faults, stake, x)) == Count(vs, Keeps(faults, stake, z))
  }

  lemma RowOfUnused(f: seq<NodeId>, x: NodeId, stake: StakeOracle, v: Vector)
    requires Distinct(f) && MAX_FAULT_MARKET + |v| == |f|
    ensures Count(Row(v, |f| + 1), Keeps(f, stake, x)) == if Keeps(f, stake, x)(v) then |f| + 1 else 0
  {
    hide Row, Count, Collect, DrawsOf, Distinct, Holds;
    forall k: nat | k < |f| + 1 ensures Keeps(f, stake, x)(v + [k]) <==> Keeps(f, stake, x)(v) {
      SameBeforeLast(f, stake, v, k);
    }
    RowBelow(v, |f| + 1, Keeps(f, stake, x), if Keeps(f, stake, x)(v) then |f| + 1 else 0);
  }

  lemma UnusedDrawCounts(f: seq<NodeId>, x: NodeId, stake: StakeOracle, vs: seq<Vector>)
    requires Distinct(f) && forall v :: v in vs ==> MAX_FAULT_MARKET + |v| == |f|
    ensures Count(Extend(vs, |f| + 1), Keeps(f, stake, x)) == (|f| + 1) * Count(vs, Keeps(f, stake, x))
  {
    hide Keeps, Count, Distinct, Row, Extend;
    forall v | v in vs
      ensures Count(Row(v, |f| + 1), Keeps(f, stake, x)) == if Keeps(f, stake, x)(v) then |f| + 1 else 0
    {
      RowOfUnused(f, x, stake, v);
    }
    ExtendCounts(vs, |f| + 1, Keeps(f, stake, x), Keeps(f, stake, x), |f| + 1);
  }

  lemma DistinctFair(f: seq<NodeId>, x: NodeId, z: NodeId, stake: StakeOracle)
    requires Distinct(f) && x in f && z in f && MAX_FAULT_MARKET < |f| <= U64_MAX
    ensures var vs := Vectors(|f| - MAX_FAULT_MARKET + 1);
            Count(vs, Keeps(f, stake, x)) == Count(vs, Keeps(f, stake, z))
  {
    hide Keeps, Vectors, Count, Distinct, Extend;
    var n := |f| - MAX_FAULT_MARKET;
    EqualBefore(f, x, z, stake);
    VectorsStep(n + 1);
    UnusedDrawCounts(f, x, stake, Vectors(n));
    UnusedDrawCounts(f, z, stake, Vectors(n));
  }

  lemma FirstsFacts(faults: seq<NodeId>, stake: StakeOracle)
    ensures var f := Firsts(faults);
            Distinct(f) && |f| == |Named(faults)| && forall x :: x in f <==> x in faults
  {
    hide Firsts, Distinct;
    var f := Firsts(faults);
    FirstsAreDistinct(faults);
    DistinctAreAllSeen(f, stake, DrawsOf([]));
    forall x ensures x in f <==> x in faults { assert x in Named(f) <==> x in Named(faults); }
  }

  lemma FairWithoutLateRepeat(faults: seq<NodeId>, stake: StakeOracle)
    requires !RepeatsAfterOverflow(faults) && |Named(faults)| <= U64_MAX
    ensures Fair(faults, stake)
  {
    hide Keeps, Vectors, Count, Distinct, RepeatsAfterOverflow, Firsts, Named;
    FirstsFacts(faults, stake);
    var f := Firsts(faults);
    if |f| > MAX_FAULT_MARKET {
      var vs := Vectors(|f| - MAX_FAULT_MARKET + 1);
      forall x, z | x in faults && z in faults
        ensures Count(vs, Keeps(faults, stake, x)) == Count(vs, Keeps(faults, stake, z))
      {
        DistinctFair(f, x, z, stake);
        SameNodesKept(faults, stake, x, vs);
        SameNodesKept(faults, stake, z, vs);
      }
    }
  }

  /** Up to the first late repeat the list behaves like its distinct nodes. */
  lemma SameWithRepeat(p: seq<NodeId>, x: NodeId, w: NodeId, stake: StakeOracle, vs: seq<Vector>)
    requires !RepeatsAfterOverflow(p)
    ensures Count(vs, Keeps(p + [x], stake, w)) == Count(vs, Keeps(Firsts(p) + [x], stake, w))
  {
    hide Collect, Count, RepeatsAfterOverflow, Firsts, DrawsOf, Holds, Inserted;
    forall i | 0 <= i < |vs|
      ensures Keeps(p + [x], stake, w)(vs[i]) <==> Keeps(Firsts(p) + [x], stake, w)(vs[i])
    {
      RepeatsAreIgnored(p, stake, DrawsOf(vs[i]));
      CollectSnoc(p, x, stake, DrawsOf(vs[i]));
      CollectSnoc(Firsts(p), x, stake, DrawsOf(vs[i]));
    }
    CountImplies(vs, Keeps(p + [x], stake, w), Keeps(Firsts(p) + [x], stake, w));
    CountImplies(vs, Keeps(Firsts(p) + [x], stake, w), Keeps(p + [x], stake, w));
  }

  lemma Another(f: seq<NodeId>, x: NodeId) returns (z: NodeId)
    requires Distinct(f) && |f| >= 2
    ensures z in f && z != x
  {
    z := if f[0] != x then f[0] else f[1];
  }

  lemma RepeatNamesNobodyNew(p: seq<NodeId>, x: NodeId)
    requires x in p
    ensures Named(p + [x]) == Named(p)
  {
  }

  lemma UnequalIsUnfair(faults: seq<NodeId>, stake: StakeOracle, x: NodeId, z: NodeId)
    requires |Named(faults)| > MAX_FAULT_MARKET && x in faults && z in faults
    requires var vs := Vectors(|Named(faults)| - MAX_FAULT_MARKET + 1);
             Count(vs, Keeps(faults, stake, x)) != Count(vs, Keeps(faults, stake, z))
    ensures !Fair(faults, stake)
  {
    hide Keeps, Vectors, Count, Named;
  }

  lemma FirstLateRepeatIsUnfair(p: seq<NodeId>, x: NodeId, stake: StakeOracle)
    requires !RepeatsAfterOverflow(p) && x in p && MAX_FAULT_MARKET < |Named(p)| < U64_MAX
    ensures !Fair(p + [x], stake)
  {
    hide Keeps, Vectors, Count, Distinct, RepeatsAfterOverflow, Firsts, Named, Fair;
    RepeatNamesNobodyNew(p, x);
    FirstsFacts(p, stake);
    var f := Firsts(p);
    var z := Another(f, x);
    var vs := Vectors(|f| - MAX_FAULT_MARKET + 1);
    LateRepeatIsFavoured(f, x, z, stake);
    SameWithRepeat(p, x, x, stake, vs);
    SameWithRepeat(p, x, z, stake, vs);
    UnequalIsUnfair(p + [x], stake, x, z);
  }

  lemma {:induction false} FirstLateRepeat(faults: seq<NodeId>) returns (r: nat)
    requires RepeatsAfterOverflow(faults)
    ensures r < |faults| && faults[r] in faults[..r] && |Named(faults[..r])| > MAX_FAULT_MARKET
    ensures !RepeatsAfterOverflow(faults[..r])
    decreases |faults|
  {
    hide Named;
    r :| 0 <= r < |faults| && faults[r] in faults[..r] && |Named(faults[..r])| > MAX_FAULT_MARKET;
    if RepeatsAfterOverflow(faults[..r]) {
      var g := faults[..r];
      var q := FirstLateRepeat(g);
      assert g[..q] == faults[..q];
      r := q;
    }
  }

  lemma PrefixHasNoLateRepeat(faults: seq<NodeId>, r: nat)
    requires r <= |faults| && !RepeatsAfterOverflow(faults)
    ensures !RepeatsAfterOverflow(faults[..r])
  {
    hide Named;
    assert forall q :: 0 <= q < r ==> faults[..r][q] == faults[q] && faults[..r][..q] == faults[..q];
  }

  lemma PrefixNamesFewer(faults: seq<NodeId>, r: nat)
    requires r <= |faults|
    ensures |Named(faults[..r])| <= |Named(faults)|
  {
    SubsetSize(Named(faults[..r]), Named(faults));
  }

  /** The reservoir is fair after every fault of the epoch if and only if no node is named again after
      more than 2048 distinct ones were. */
  lemma FairThroughoutIff(faults: seq<NodeId>, stake: StakeOracle)
    requires |Named(faults)| < U64_MAX
    ensures (forall r :: 0 <= r <= |faults| ==> Fair(faults[..r], stake)) <==> !RepeatsAfterOverflow(faults)
  {
    hide Fair, Named;
    if RepeatsAfterOverflow(faults) {
      var r := FirstLateRepeat(faults);
      PrefixNamesFewer(faults, r);
      FirstLateRepeatIsUnfair(faults[..r], faults[r], stake);
      assert faults[..r + 1] == faults[..r] + [faults[r]];
    } else {
      hide RepeatsAfterOverflow;
      forall r | 0 <= r <= |faults| ensures Fair(faults[..r], stake) {
        PrefixHasNoLateRepeat(faults, r);
        PrefixNamesFewer(faults, r);
        FairWithoutLateRepeat(faults[..r], stake);
      }
    }
  }

  // ---- the smallest case -------------------------------------------------------------------------------------

  lemma ExtendLast(before: seq<Vector>, last: Vector, m: nat)
    ensures Extend(before + [last], m) == Extend(before, m) + Row(last, m)
  {
    assert (before + [last])[..|before|] == before;
  }

  lemma SinglesGrow(n: nat)
    requires n > 0
    ensures Row([], n) == Row([], n - 1) + [[n - 1]]
  {
    assert [] + [n - 1] == [n - 1];
  }

  function Product(a: nat, b: nat): nat {
    a * b
  }

  lemma ProductNext(a: nat, b: nat)
    ensures Product(a, 0) == 0 && Product(a, b + 1) == Product(a, b) + a
  {
  }

  lemma NoRows(m: nat, p: Vector -> bool)
    ensures Count(Extend(Row([], 0), m), p) == 0
  {
  }

  lemma {:induction false} SumOfRows(n: nat, m: nat, p: Vector -> bool, s: nat, b: nat, t: nat, c: nat)
    requires s != t
    requires forall j: nat :: j < n ==>
               Count(Row([j], m), p) == m - (if j == s then b else 0) - (if j == t then c else 0)
    ensures Count(Extend(Row([], n), m), p) == Product(m, n) - (if s < n then b else 0) - (if t < n then c else 0)
  {
    hide Row, Count, Extend, Product;
    if n == 0 {
      NoRows(m, p);
      ProductNext(m, 0);
    } else {
      SumOfRows(n - 1, m, p, s, b, t, c);
      var last: nat := n - 1;
      SinglesGrow(n);
      ExtendLast(Row([], last), [last], m);
      CountConcat(Extend(Row([], last), m), Row([last], m), p);
      ProductNext(m, last);
    }
  }

  lemma AllHeld(g: seq<NodeId>, y: NodeId, stake: StakeOracle)
    requires Distinct(g + [y]) && |g| == MAX_FAULT_MARKET
    ensures |Collect(g, stake, DrawsOf([])).entries| == MAX_FAULT_MARKET
    ensures forall id :: id in g ==> Holds(Collect(g, stake, DrawsOf([])).entries, id)
  {
    LastIsNew(g, y);
    DistinctAreAllSeen(g, stake, DrawsOf([]));
    ReservoirRetains(g, stake, DrawsOf([]));
    hide Collect, DrawsOf;
    forall id | id in g ensures id in Named(g) { }
  }

  /** The market of 2048 nodes, with `y` written over slot `j` if there is one. */
  function Overwritten(entries: seq<FaultEntry>, j: nat, e: FaultEntry): (r: seq<FaultEntry>)
    ensures |r| == |entries|
  {
    if j < |entries| then entries[j := e] else entries
  }

  lemma TwoSteps(g: seq<NodeId>, y: NodeId, x: NodeId, stake: StakeOracle, j: nat, k: nat)
    requires Distinct(g + [y]) && |g| == MAX_FAULT_MARKET && x in g
    requires j <= MAX_FAULT_MARKET && k <= MAX_FAULT_MARKET + 1
    ensures var entries := Collect(g, stake, DrawsOf([])).entries;
            var mid := Overwritten(entries, j, FaultEntry(y, stake.of(y)));
            && DistinctIds(entries) && |entries| == MAX_FAULT_MARKET && !Holds(entries, y)
            && Collect(g + [y] + [x], stake, DrawsOf([j] + [k])).entries
               == if Holds(mid, x) then mid else Overwritten(mid, k, FaultEntry(x, stake.of(x)))
  {
    hide Collect, DrawsOf, Holds, Named, Distinct, DistinctIds;
    assert [] + [j] == [j];
    LastIsNew(g, y);
    LastStep(g, y, stake, [], j);
    HeldIsNamed(Collect(g, stake, DrawsOf([])), Named(g), stake, y);
    RepeatStep(g + [y], x, stake, [j], k);
  }

  /** Which draws keep `x`, which is named again, and which keep another node `z`. */
  lemma KeptAfterRepeat(g: seq<NodeId>, y: NodeId, x: NodeId, z: NodeId, stake: StakeOracle,
                        s: nat, t: nat, j: nat, k: nat)
    requires Distinct(g + [y]) && |g| == MAX_FAULT_MARKET && x in g && z in g && x != z
    requires j <= MAX_FAULT_MARKET && k <= MAX_FAULT_MARKET + 1
    requires var entries := Collect(g, stake, DrawsOf([])).entries;
             s < |entries| && entries[s].nodeId == x && t < |entries| && entries[t].nodeId == z
    ensures var faults := g + [y] + [x];
            && (Keeps(faults, stake, x)([j] + [k]) <==> j != s || k < MAX_FAULT_MARKET)
            && (Keeps(faults, stake, z)([j] + [k]) <==> j != t && !(j == s && k == t))
  {
    LastIsNew(g, y);
    TwoSteps(g, y, x, stake, j, k);
    hide Collect, DrawsOf, Named, Distinct;
    var entries := Collect(g, stake, DrawsOf([])).entries;
    AfterRepeat(entries, FaultEntry(y, stake.of(y)), FaultEntry(x, stake.of(x)), z, s, t, j, k);
  }

  lemma AfterRepeat(entries: seq<FaultEntry>, d: FaultEntry, e: FaultEntry, z: NodeId, s: nat, t: nat, j: nat, k: nat)
    requires DistinctIds(entries) && !Holds(entries, d.nodeId) && e.nodeId != z
    requires s < |entries| && entries[s].nodeId == e.nodeId && t < |entries| && entries[t].nodeId == z
    ensures var mid := Overwritten(entries, j, d);
            var after := if Holds(mid, e.nodeId) then mid else Overwritten(mid, k, e);
            && (Holds(after, e.nodeId) <==> j != s || k < |entries|)
            && (Holds(after, z) <==> j != t && !(j == s && k == t))
  {
    HeldUnlessReplaced(entries, j, d, e.nodeId, s);
    HeldUnlessReplaced(entries, j, d, z, t);
    var mid := Overwritten(entries, j, d);
    if j == s {
      if k < |mid| { assert Overwritten(mid, k, e)[k].nodeId == e.nodeId; }
      assert mid[t].nodeId == z && DistinctIds(mid);
      HeldUnlessReplaced(mid, k, e, z, t);
    }
  }

  /** The smallest case, counted out: 2048 nodes, one newcomer, and the repeat at once. Then `x` is kept
      by exactly 2049 more of the vectors than `z`. */
  lemma LateRepeatExample(g: seq<NodeId>, y: NodeId, x: NodeId, z: NodeId, stake: StakeOracle)
    requires Distinct(g + [y]) && |g| == MAX_FAULT_MARKET && x in g && z in g && x != z
    ensures var faults := g + [y] + [x];
            Count(Vectors(2), Keeps(faults, stake, x)) == Count(Vectors(2), Keeps(faults, stake, z)) + 2049
  {
    hide Collect, DrawsOf, Count, Extend, Row, Keeps, Holds, Named, Distinct, DistinctIds;
    var faults, entries := g + [y] + [x], Collect(g, stake, DrawsOf([])).entries;
    AllHeld(g, y, stake);
    var s, t := SlotOf(entries, x), SlotOf(entries, z);
    var n, m := MAX_FAULT_MARKET + 1, MAX_FAULT_MARKET + 2;
    forall j: nat | j < n
      ensures Count(Row([j], m), Keeps(faults, stake, x)) == m - (if j == s then 2 else 0)
      ensures Count(Row([j], m), Keeps(faults, stake, z)) == m - (if j == s then 1 else 0) - (if j == t then m else 0)
    {
      forall k: nat | k < m
        ensures Keeps(faults, stake, x)([j] + [k]) <==> j != s || k < MAX_FAULT_MARKET
        ensures Keeps(faults, stake, z)([j] + [k]) <==> j != t && !(j == s && k == t)
      {
        KeptAfterRepeat(g, y, x, z, stake, s, t, j, k);
      }
      RowBelow([j], m, Keeps(faults, stake, x), if j == s then MAX_FAULT_MARKET else m);
      if j == t {
        RowBelow([j], m, Keeps(faults, stake, z), 0);
      } else {
        RowAllBut([j], m, Keeps(faults, stake, z), if j == s then t else m);
      }
    }
    SumOfRows(n, m, Keeps(faults, stake, x), s, 2, t, 0);
    SumOfRows(n, m, Keeps(faults, stake, z), s, 1, t, m);
    TwoDraws();
  }

  lemma TwoDraws()
    ensures Vectors(2) == Extend(Row([], MAX_FAULT_MARKET + 1), MAX_FAULT_MARKET + 2)
  {
    hide Extend, Row;
    VectorsStep(2);
    VectorsStep(1);
    var none: seq<Vector>, empty: Vector := [], [];
    assert Vectors(0) == none + [empty];
    ExtendLast(none, empty, MAX_FAULT_MARKET + 1);
    ExtendNothing(MAX_FAULT_MARKET + 1);
    assert none + Row(empty, MAX_FAULT_MARKET + 1) == Row(empty, MAX_FAULT_MARKET + 1);
  }

  lemma ExtendNothing(m: nat)
    ensures Extend([], m) == []
  {
  }
}
