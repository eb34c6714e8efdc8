/** The reservoir is stake-blind and fair: counted over all draws, every fault is kept equally often. */
module ReservoirFairness {
  import opened Machine
  import opened Sorting
  import opened FisherYates
  import opened FaultMarket

  /** One draw for every fault beyond the market's capacity: fault number `i` draws from 0 to `i`. */
  type Vector = seq<nat>

  predicate IsVector(v: Vector, n: nat) {
    |v| == n && forall i :: 0 <= i < |v| ==> v[i] <= MAX_FAULT_MARKET + i
  }

  /** `v` with each of `m` draws appended. */
  function Row(v: Vector, m: nat): (r: seq<Vector>)
    ensures |r| == m
    ensures forall j :: 0 <= j < m ==> r[j] == v + [j]
  {
    seq(m, j requires 0 <= j => v + [j])
  }

  function Extend(vs: seq<Vector>, m: nat): seq<Vector> {
    if vs == [] then [] else Extend(vs[..|vs| - 1], m) + Row(vs[|vs| - 1], m)
  }

  /** All vectors of `n` draws. */
  function Vectors(n: nat): seq<Vector> {
    if n == 0 then [[]] else Extend(Vectors(n - 1), MAX_FAULT_MARKET + n)
  }

  // ---- counting rows ----------------------------------------------------------------------------------

  lemma RowStep(v: Vector, m: nat, p: Vector -> bool)
    requires m > 0
    ensures Count(Row(v, m), p) == Count(Row(v, m - 1), p) + if p(v + [m - 1]) then 1 else 0
  {
    hide Count;
    var last: Vector := v + [m - 1];
    assert Row(v, m) == Row(v, m - 1) + [last];
    CountNext(Row(v, m - 1), last, p);
  }

  lemma {:induction false} RowAllBut(v: Vector, m: nat, p: Vector -> bool, s: nat)
    requires forall j: nat :: j < m ==> (p(v + [j]) <==> j != s)
    ensures Count(Row(v, m), p) == m - if s < m then 1 else 0
  {
    hide Row;
    if m > 0 {
      RowAllBut(v, m - 1, p, s);
      RowStep(v, m, p);
    }
  }

  lemma {:induction false} RowBelow(v: Vector, m: nat, p: Vector -> bool, c: nat)
    requires forall j: nat :: j < m ==> (p(v + [j]) <==> j < c)
    ensures Count(Row(v, m), p) == Min(m, c)
  {
    hide Row;
    if m > 0 {
      RowBelow(v, m - 1, p, c);
      RowStep(v, m, p);
    }
  }

  lemma {:induction false} RowOnly(v: Vector, m: nat, w: Vector)
    requires w != []
    ensures Count(Row(v, m), Is(w)) == if v == w[..|w| - 1] && w[|w| - 1] < m then 1 else 0
  {
    hide Row;
    if m > 0 {
      RowOnly(v, m - 1, w);
      RowStep(v, m, Is(w));
      assert v + [m - 1] == w <==> v == w[..|w| - 1] && w[|w| - 1] == m - 1;
    }
  }

  lemma TimesNext(a: nat, b: nat)
    ensures a * (b + 1) == a * b + a
  {
  }

  /** If a row has `a` good vectors when its head is good and none otherwise, the whole list has `a`
      times as many as there are good heads. */
  lemma {:induction false} ExtendCounts(vs: seq<Vector>, m: nat, p: Vector -> bool, q: Vector -> bool, a: nat)
    requires forall v :: v in vs ==> Count(Row(v, m), p) == if q(v) then a else 0
    ensures Count(Extend(vs, m), p) == a * Count(vs, q)
  {
    hide Row;
    if vs != [] {
      var rest, v := vs[..|vs| - 1], vs[|vs| - 1];
      ExtendCounts(rest, m, p, q, a);
      CountConcat(Extend(rest, m), Row(v, m), p);
      TimesNext(a, Count(rest, q));
      assert v in vs;
    }
  }

  lemma {:induction false} ExtendLength(vs: seq<Vector>, m: nat)
    ensures |Extend(vs, m)| == m * |vs|
  {
    if vs != [] {
      ExtendLength(vs[..|vs| - 1], m);
      TimesNext(m, |vs| - 1);
    }
  }

  // ---- the list is complete and without repetition ----------------------------------------------------

  function Is(w: Vector): Vector -> bool {
    (v: Vector) => v == w
  }

  lemma {:induction false} ExtendLists(vs: seq<Vector>, m: nat, w: Vector)
    requires w != []
    ensures Count(Extend(vs, m), Is(w)) == if w[|w| - 1] < m then Count(vs, Is(w[..|w| - 1])) else 0
  {
    hide Row;
    if vs != [] {
      var rest, v := vs[..|vs| - 1], vs[|vs| - 1];
      ExtendLists(rest, m, w);
      CountConcat(Extend(rest, m), Row(v, m), Is(w));
      RowOnly(v, m, w);
    }
  }

  lemma {:induction false} ExtendNonEmpty(vs: seq<Vector>, m: nat)
    ensures forall v :: v in Extend(vs, m) ==> v != []
  {
    if vs != [] { ExtendNonEmpty(vs[..|vs| - 1], m); }
  }

  lemma NoDraws(w: Vector)
    ensures IsVector(w, 0) <==> w == []
  {
  }

  lemma NotEmpty(n: nat)
    requires n > 0
    ensures !IsVector([], n)
  {
  }

  lemma VectorStep(w: Vector, n: nat)
    requires w != [] && n > 0
    ensures IsVector(w, n) <==> IsVector(w[..|w| - 1], n - 1) && w[|w| - 1] < MAX_FAULT_MARKET + n
  {
  }

  /** Every vector of draws is listed exactly once, and nothing else is. */
  lemma {:induction false} VectorsListEachOnce(n: nat, w: Vector)
    ensures Count(Vectors(n), Is(w)) == if IsVector(w, n) then 1 else 0
    decreases n
  {
    hide Count, Extend, IsVector;
    if n == 0 {
      CountOne([], Is(w));
      NoDraws(w);
    } else if w == [] {
      ExtendNonEmpty(Vectors(n - 1), MAX_FAULT_MARKET + n);
      CountNone(Vectors(n), Is(w));
      NotEmpty(n);
    } else {
      VectorStep(w, n);
      VectorsListEachOnce(n - 1, w[..|w| - 1]);
      ExtendLists(Vectors(n - 1), MAX_FAULT_MARKET + n, w);
    }
  }

  lemma {:induction false} ListedCounts(vs: seq<Vector>, v: Vector)
    requires v in vs
    ensures Count(vs, Is(v)) > 0
  {
    if v in vs[..|vs| - 1] { ListedCounts(vs[..|vs| - 1], v); }
  }

  lemma ListedIsVector(n: nat, v: Vector)
    requires v in Vectors(n)
    ensures IsVector(v, n)
  {
    hide Vectors, Count;
    VectorsListEachOnce(n, v);
    ListedCounts(Vectors(n), v);
  }

  // ---- what a vector keeps ------------------------------------------------------------------------------

  /** The stream whose draws beyond the capacity are those of `v`. */
  function DrawsOf(v: Vector): Draws {
    Draws((i: nat) => if MAX_FAULT_MARKET <= i < MAX_FAULT_MARKET + |v|
                      then v[i - MAX_FAULT_MARKET] % 0x1_0000_0000_0000_0000 else 0)
  }

  /** Whether the draws `v` leave node `x` in the market. */
  function Keeps(faults: seq<NodeId>, stake: StakeOracle, x: NodeId): Vector -> bool {
    (v: Vector) => Holds(Collect(faults, stake, DrawsOf(v)).entries, x)
  }

  lemma {:induction false} DistinctAreAllSeen(faults: seq<NodeId>, stake: StakeOracle, draws: Draws)
    requires Distinct(faults)
    ensures |Named(faults)| == |faults|
    ensures Collect(faults, stake, draws).seen == |faults|
    decreases |faults|
  {
    if faults != [] {
      var g := faults[..|faults| - 1];
      DistinctAreAllSeen(g, stake, draws);
      NamedStep(faults);
      ReservoirRetains(g, stake, draws);
      HeldIsNamed(Collect(g, stake, draws), Named(g), stake, faults[|faults| - 1]);
    }
  }

  lemma LastIsNew(g: seq<NodeId>, y: NodeId)
    requires Distinct(g + [y])
    ensures Distinct(g) && y !in g && y !in Named(g)
  {
    var f := g + [y];
    assert forall i :: 0 <= i < |g| ==> f[i] == g[i] && f[i] != f[|g|];
  }

  /** The market before the last fault, under a vector with one more draw. */
  lemma SameBeforeLast(g: seq<NodeId>, stake: StakeOracle, v: Vector, j: nat)
    requires Distinct(g) && |g| == MAX_FAULT_MARKET + |v|
    ensures Collect(g, stake, DrawsOf(v + [j])) == Collect(g, stake, DrawsOf(v))
  {
    DistinctAreAllSeen(g, stake, DrawsOf(v));
    hide Collect;
    DrawsBeyondSeenAreUnused(g, stake, DrawsOf(v), DrawsOf(v + [j]));
  }

  /** The last fault goes to the slot it draws, if there is one. */
  lemma LastStep(g: seq<NodeId>, y: NodeId, stake: StakeOracle, v: Vector, j: nat)
    requires Distinct(g + [y]) && MAX_FAULT_MARKET + |v| == |g| < U64_MAX && j <= |g|
    ensures var m := Collect(g, stake, DrawsOf(v));
            var after := Collect(g + [y], stake, DrawsOf(v + [j])).entries;
            && Retains(m, Named(g), stake) && |m.entries| == MAX_FAULT_MARKET
            && after == if j < MAX_FAULT_MARKET then m.entries[j := FaultEntry(y, stake.of(y))] else m.entries
  {
    assert (g + [y])[..|g|] == g;
    LastIsNew(g, y);
    SameBeforeLast(g, stake, v, j);
    DistinctAreAllSeen(g, stake, DrawsOf(v));
    ReservoirRetains(g, stake, DrawsOf(v));
    HeldIsNamed(Collect(g, stake, DrawsOf(v)), Named(g), stake, y);
    assert DrawsOf(v + [j]).draw(|g|) == j;
  }

  /** Of the draws for the last fault, all but one leave an earlier fault that is kept. */
  lemma RowOfEarlier(g: seq<NodeId>, y: NodeId, stake: StakeOracle, v: Vector, x: NodeId)
    requires Distinct(g + [y]) && MAX_FAULT_MARKET + |v| == |g| < U64_MAX && x != y
    ensures Count(Row(v, |g| + 1), Keeps(g + [y], stake, x)) == if Keeps(g, stake, x)(v) then |g| else 0
  {
    hide Row, Count, Collect, DrawsOf, Named, Distinct;
    var entries := Collect(g, stake, DrawsOf(v)).entries;
    LastStep(g, y, stake, v, 0);
    var s: nat := if Holds(entries, x) then SlotOf(entries, x) else |g| + 1;
    forall j: nat | j < |g| + 1
      ensures Keeps(g + [y], stake, x)(v + [j]) <==> Holds(entries, x) && j != s
    {
      LastStep(g, y, stake, v, j);
      HeldUnlessReplaced(entries, j, FaultEntry(y, stake.of(y)), x, s);
    }
    if Holds(entries, x) {
      RowAllBut(v, |g| + 1, Keeps(g + [y], stake, x), s);
    } else {
      RowBelow(v, |g| + 1, Keeps(g + [y], stake, x), 0);
    }
  }

  lemma HeldUnlessReplaced(entries: seq<FaultEntry>, j: nat, e: FaultEntry, x: NodeId, s: nat)
    requires DistinctIds(entries) && e.nodeId != x
    requires Holds(entries, x) ==> s < |entries| && entries[s].nodeId == x
    ensures Holds(if j < |entries| then entries[j := e] else entries, x) <==> Holds(entries, x) && j != s
  {
    var after := if j < |entries| then entries[j := e] else entries;
    if Holds(entries, x) && j != s { assert after[s].nodeId == x; }
    if Holds(after, x) {
      var i :| 0 <= i < |after| && after[i].nodeId == x;
      assert entries[i].nodeId == x;
    }
  }

  /** As many draws admit the last fault as the market has slots. */
  lemma RowOfLast(g: seq<NodeId>, y: NodeId, stake: StakeOracle, v: Vector)
    requires Distinct(g + [y]) && MAX_FAULT_MARKET + |v| == |g| < U64_MAX
    ensures Count(Row(v, |g| + 1), Keeps(g + [y], stake, y)) == MAX_FAULT_MARKET
  {
    hide Row, Count, Collect, DrawsOf;
    var m := Collect(g, stake, DrawsOf(v));
    forall j: nat | j < |g| + 1
      ensures Keeps(g + [y], stake, y)(v + [j]) <==> j < MAX_FAULT_MARKET
    {
      LastStep(g, y, stake, v, j);
      var after := Collect(g + [y], stake, DrawsOf(v + [j])).entries;
      if j < MAX_FAULT_MARKET { assert after[j].nodeId == y; }
      LastIsNew(g, y);
      HeldIsNamed(m, Named(g), stake, y);
    }
    RowBelow(v, |g| + 1, Keeps(g + [y], stake, y), MAX_FAULT_MARKET);
  }

  // ---- fairness -----------------------------------------------------------------------------------------

  lemma FairArithmetic(kept: nat, total: nat, d: nat, c: nat)
    requires kept * d == c * total
    ensures (d * kept) * (d + 1) == c * ((d + 1) * total)
  {
    calc {
      (d * kept) * (d + 1);
      (kept * d) * (d + 1);
      (c * total) * (d + 1);
      c * ((d + 1) * total);
    }
  }

  lemma LastArithmetic(total: nat, d: nat, c: nat)
    ensures (c * total) * (d + 1) == c * ((d + 1) * total)
  {
  }

  function Any(): Vector -> bool {
    (v: Vector) => true
  }

  lemma {:induction false} AnyCountsAll(vs: seq<Vector>)
    ensures Count(vs, Any()) == |vs|
  {
    if vs != [] { AnyCountsAll(vs[..|vs| - 1]); }
  }

  lemma VectorsStep(n: nat)
    requires n > 0
    ensures Vectors(n) == Extend(Vectors(n - 1), MAX_FAULT_MARKET + n)
  {
  }

  lemma AllKept(faults: seq<NodeId>, stake: StakeOracle, k: nat)
    requires Distinct(faults) && k < |faults| == MAX_FAULT_MARKET
    ensures Vectors(0) == [[]] && Count([[]], Keeps(faults, stake, faults[k])) == 1
  {
    var draws := DrawsOf([]);
    DistinctAreAllSeen(faults, stake, draws);
    ReservoirRetains(faults, stake, draws);
    hide Collect, DrawsOf;
    assert faults[k] in Named(faults);
    CountOne([], Keeps(faults, stake, faults[k]));
  }

  lemma EarlierIsFair(g: seq<NodeId>, y: NodeId, stake: StakeOracle, k: nat, vs: seq<Vector>)
    requires Distinct(g + [y]) && k < |g| < U64_MAX
    requires forall v :: v in vs ==> MAX_FAULT_MARKET + |v| == |g|
    ensures Count(Extend(vs, |g| + 1), Keeps(g + [y], stake, g[k])) == |g| * Count(vs, Keeps(g, stake, g[k]))
  {
    hide Count, Keeps, Row, Extend;
    assert (g + [y])[k] != (g + [y])[|g|];
    forall v | v in vs
      ensures Count(Row(v, |g| + 1), Keeps(g + [y], stake, g[k])) == if Keeps(g, stake, g[k])(v) then |g| else 0
    {
      RowOfEarlier(g, y, stake, v, g[k]);
    }
    ExtendCounts(vs, |g| + 1, Keeps(g + [y], stake, g[k]), Keeps(g, stake, g[k]), |g|);
  }

  lemma LastIsFair(g: seq<NodeId>, y: NodeId, stake: StakeOracle, vs: seq<Vector>)
    requires Distinct(g + [y]) && |g| < U64_MAX
    requires forall v :: v in vs ==> MAX_FAULT_MARKET + |v| == |g|
    ensures Count(Extend(vs, |g| + 1), Keeps(g + [y], stake, y)) == MAX_FAULT_MARKET * |vs|
  {
    hide Count, Keeps, Row, Extend;
    forall v | v in vs ensures Count(Row(v, |g| + 1), Keeps(g + [y], stake, y)) == MAX_FAULT_MARKET {
      RowOfLast(g, y, stake, v);
    }
    ExtendCounts(vs, |g| + 1, Keeps(g + [y], stake, y), Any(), MAX_FAULT_MARKET);
    AnyCountsAll(vs);
  }

  lemma {:induction false} DistinctAreFair(faults: seq<NodeId>, stake: StakeOracle, k: nat)
    requires Distinct(faults) && k < |faults| && MAX_FAULT_MARKET <= |faults| <= U64_MAX
    ensures var vs := Vectors(|faults| - MAX_FAULT_MARKET);
            Count(vs, Keeps(faults, stake, faults[k])) * |faults| == MAX_FAULT_MARKET * |vs|
    decreases |faults|
  {
    hide Count, Keeps, Collect, Distinct, Extend, Vectors;
    var n := |faults| - MAX_FAULT_MARKET;
    if n == 0 {
      AllKept(faults, stake, k);
    } else {
      var g, y := faults[..|faults| - 1], faults[|faults| - 1];
      assert faults == g + [y];
      LastIsNew(g, y);
      var vs := Vectors(n - 1);
      VectorsStep(n);
      ExtendLength(vs, |g| + 1);
      forall v | v in vs ensures |v| == n - 1 { ListedIsVector(n - 1, v); }
      if k < |g| {
        DistinctAreFair(g, stake, k);
        EarlierIsFair(g, y, stake, k, vs);
        FairArithmetic(Count(vs, Keeps(g, stake, g[k])), |vs|, |g|, MAX_FAULT_MARKET);
      } else {
        LastIsFair(g, y, stake, vs);
        LastArithmetic(|vs|, |g|, MAX_FAULT_MARKET);
      }
    }
  }

  // ---- repeated faults ------------------------------------------------------------------------------------

  /** The faults without repetition, in the order they were first named. */
  function Firsts(faults: seq<NodeId>): seq<NodeId> {
    if faults == [] then []
    else
      var g, y := faults[..|faults| - 1], faults[|faults| - 1];
      if y in g then Firsts(g) else Firsts(g) + [y]
  }

  lemma {:induction false} FirstsAreDistinct(faults: seq<NodeId>)
    ensures Distinct(Firsts(faults)) && Named(Firsts(faults)) == Named(faults)
  {
    if faults != [] {
      FirstsAreDistinct(faults[..|faults| - 1]);
      NamedStep(faults);
      var y := faults[|faults| - 1];
      assert y in Named(faults[..|faults| - 1]) <==> y in faults[..|faults| - 1];
    }
  }

  lemma NoLateRepeatBefore(faults: seq<NodeId>)
    requires faults != [] && !RepeatsAfterOverflow(faults)
    ensures var g, y := faults[..|faults| - 1], faults[|faults| - 1];
            !RepeatsAfterOverflow(g) && (y in g ==> |Named(g)| <= MAX_FAULT_MARKET)
  {
    hide Named;
    var n := |faults| - 1;
    assert forall r :: 0 <= r < n ==> faults[..n][r] == faults[r] && faults[..n][..r] == faults[..r];
  }

  lemma {:induction false} RepeatsAreIgnored(faults: seq<NodeId>, stake: StakeOracle, draws: Draws)
    requires !RepeatsAfterOverflow(faults)
    ensures Collect(faults, stake, draws) == Collect(Firsts(faults), stake, draws)
    decreases |faults|
  {
    if faults != [] {
      hide RepeatsAfterOverflow;
      var g, y := faults[..|faults| - 1], faults[|faults| - 1];
      NoLateRepeatBefore(faults);
      RepeatsAreIgnored(g, stake, draws);
      ReservoirRetains(g, stake, draws);
      if y in g {
        assert y in Named(g);
      } else {
        assert (Firsts(g) + [y])[..|Firsts(g)|] == Firsts(g);
      }
    }
  }

  /** Repeating a fault changes nothing, whatever the draws, if and only if no node is named again after
      more than 2048 distinct ones were. */
  lemma DeduplicatesIff(faults: seq<NodeId>, stake: StakeOracle)
    ensures (forall draws: Draws :: Collect(faults, stake, draws) == Collect(Firsts(faults), stake, draws))
       <==> !RepeatsAfterOverflow(faults)
  {
    hide Collect, Named, RepeatsAfterOverflow, Firsts, Distinct;
    CountIsExactIff(faults, stake);
    FirstsAreDistinct(faults);
    if RepeatsAfterOverflow(faults) {
      var draws: Draws :| Collect(faults, stake, draws).seen != |Named(faults)|;
      DistinctAreAllSeen(Firsts(faults), stake, draws);
      assert Collect(faults, stake, draws) != Collect(Firsts(faults), stake, draws);
    } else {
      forall draws: Draws ensures Collect(faults, stake, draws) == Collect(Firsts(faults), stake, draws) {
        RepeatsAreIgnored(faults, stake, draws);
      }
    }
  }

  lemma SameNodesKept(faults: seq<NodeId>, stake: StakeOracle, x: NodeId, vs: seq<Vector>)
    requires !RepeatsAfterOverflow(faults)
    ensures Count(vs, Keeps(faults, stake, x)) == Count(vs, Keeps(Firsts(faults), stake, x))
  {
    hide Collect, Count, RepeatsAfterOverflow, Firsts, DrawsOf, Holds;
    forall i | 0 <= i < |vs|
      ensures Keeps(faults, stake, x)(vs[i]) <==> Keeps(Firsts(faults), stake, x)(vs[i])
    {
      RepeatsAreIgnored(faults, stake, DrawsOf(vs[i]));
    }
    CountImplies(vs, Keeps(faults, stake, x), Keeps(Firsts(faults), stake, x));
    CountImplies(vs, Keeps(Firsts(faults), stake, x), Keeps(faults, stake, x));
  }

  /** With d >= 2048 distinct faulted nodes, and none named again after the market overflowed: over all
      vectors of draws each of them is kept by the same share, 2048 out of d, whatever it stakes and
      whenever it was named. */
  lemma ReservoirIsFair(faults: seq<NodeId>, stake: StakeOracle, x: NodeId)
    requires x in faults && !RepeatsAfterOverflow(faults)
    requires MAX_FAULT_MARKET <= |Named(faults)| <= U64_MAX
    ensures var d := |Named(faults)|;
            var vs := Vectors(d - MAX_FAULT_MARKET);
            Count(vs, Keeps(faults, stake, x)) * d == MAX_FAULT_MARKET * |vs|
  {
    hide Collect, Count, RepeatsAfterOverflow, Firsts, Keeps, Distinct, Vectors;
    var f := Firsts(faults);
    FirstsAreDistinct(faults);
    DistinctAreAllSeen(f, stake, DrawsOf([]));
    assert x in Named(f);
    var k :| 0 <= k < |f| && f[k] == x;
    DistinctAreFair(f, stake, k);
    SameNodesKept(faults, stake, x, Vectors(|f| - MAX_FAULT_MARKET));
  }
}
