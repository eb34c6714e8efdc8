/** The end-of-epoch ratchet over the fault market: rank, stake lane, fair lane, report. */
module EpochPenalties {
  import opened Machine
  import opened Sorting
  import opened Isqrt
  import opened FisherYates
  import opened FaultMarket

  const LANE_STAKE_SLOTS: nat := MAX_FAULTS_PER_EPOCH / 2
  const LANE_FAIR_SLOTS: nat := MAX_FAULTS_PER_EPOCH - LANE_STAKE_SLOTS

  type Commit = Bytes

  /** The outcome of one dispute. */
  datatype DisputeOutcome =
    | Unanimous(commit: Commit)
    | Majority(winner: Commit, slashed: NodeId)
    | TotalDivergence(first: NodeId, second: NodeId, third: NodeId)

  datatype PenaltyEvent = PenaltyEvent(nodeId: NodeId, pClassDowngrade: nat, slashUnits: nat)

  datatype Report = Report(
    penalties: seq<PenaltyEvent>,
    stakeLane: nat,
    fairLane: nat,
    droppedFaults: nat,
    adaptiveMinStake: u64)

  function FaultsOf(o: DisputeOutcome): seq<NodeId> {
    match o
    case Unanimous(_) => []
    case Majority(_, id) => [id]
    case TotalDivergence(a, b, c) => [a, b, c]
  }

  /** The nodes the first `n` outcomes fault, in order. */
  function Faults(outcomes: seq<DisputeOutcome>, n: nat): seq<NodeId>
    requires n <= |outcomes|
  {
    if n == 0 then [] else Faults(outcomes, n - 1) + FaultsOf(outcomes[n - 1])
  }

  /** Rank by weight descending, then node id ascending. */
  predicate Before(a: FaultEntry, b: FaultEntry) {
    || IntSqrt(a.priority) > IntSqrt(b.priority)
    || (IntSqrt(a.priority) == IntSqrt(b.priority) && a.nodeId <= b.nodeId)
  }

  function StakeLane(n: nat): nat {
    Min(n, LANE_STAKE_SLOTS)
  }

  function FairLane(n: nat): nat {
    Min(n - StakeLane(n), LANE_FAIR_SLOTS)
  }

  /** The candidate buffer once it is ranked and the fair lane is drawn from the remainder. */
  function Drawn(m: Market, fair: Draws): (r: seq<FaultEntry>)
    ensures |r| == |m.entries|
  {
    var n := |m.entries|;
    Sample(Sort(m.entries, Before), StakeLane(n), fair, 0, FairLane(n))
  }

  /** The entries that are slashed, stake lane first. */
  function Slashed(m: Market, fair: Draws): (r: seq<FaultEntry>)
    ensures |r| == StakeLane(|m.entries|) + FairLane(|m.entries|)
  {
    Drawn(m, fair)[..StakeLane(|m.entries|) + FairLane(|m.entries|)]
  }

  lemma BeforeIsTotal()
    ensures TotalPreorder(Before)
  {
  }

  lemma BeforeSeparates(entries: seq<FaultEntry>)
    requires DistinctIds(entries)
    ensures Separates(entries, Before)
    ensures Distinct(entries)
  {
  }

  lemma DrawnFacts(m: Market, fair: Draws)
    requires DistinctIds(m.entries)
    ensures multiset(Drawn(m, fair)) == multiset(m.entries)
    ensures Distinct(Drawn(m, fair))
    ensures Slashed(m, fair)[..StakeLane(|m.entries|)] == Sort(m.entries, Before)[..StakeLane(|m.entries|)]
  {
    hide Sort, Before, Shuffle, Sample, IsChoice, DistinctIds, Separates, Distinct;
    var n, ranked := |m.entries|, Sort(m.entries, Before);
    var js := DrawsAreChoice(ranked, StakeLane(n), fair, 0, FairLane(n));
    ShufflePermutes(ranked, StakeLane(n), js);
    BeforeSeparates(m.entries);
    PermutationKeepsDistinct(m.entries, Drawn(m, fair));
    forall q | 0 <= q < StakeLane(n) ensures Drawn(m, fair)[q] == ranked[q] {
      ShuffleKeepsPrefix(ranked, StakeLane(n), js, q);
    }
  }

  function Ids(entries: seq<FaultEntry>): (ids: seq<NodeId>)
    ensures |ids| == |entries|
    ensures forall i :: 0 <= i < |ids| ==> ids[i] == entries[i].nodeId
  {
    seq(|entries|, i requires 0 <= i < |entries| => entries[i].nodeId)
  }

  lemma IdsDistinct(m: Market, part: seq<FaultEntry>)
    requires DistinctIds(m.entries) && Distinct(part) && forall e :: e in part ==> e in m.entries
    ensures Distinct(Ids(part))
  {
    forall i, j | 0 <= i < j < |part| ensures part[i].nodeId != part[j].nodeId {
      assert part[i] in m.entries && part[j] in m.entries;
    }
  }

  /** The nodes penalised for a list of faults. */
  function Penalised(faults: seq<NodeId>, stake: StakeOracle, reservoir: Draws, fair: Draws): seq<NodeId> {
    Ids(Slashed(Collect(faults, stake, reservoir), fair))
  }

  /** The faults reported as dropped. */
  function Dropped(faults: seq<NodeId>, stake: StakeOracle, reservoir: Draws, fair: Draws): int {
    var m := Collect(faults, stake, reservoir);
    |m.entries| - |Slashed(m, fair)| + m.overflowDropped
  }

  lemma SlashedMembers(faults: seq<NodeId>, stake: StakeOracle, reservoir: Draws, fair: Draws)
    ensures var m := Collect(faults, stake, reservoir);
            && Distinct(Slashed(m, fair))
            && (forall e :: e in Slashed(m, fair) ==> e in m.entries)
            && (|m.entries| <= MAX_FAULTS_PER_EPOCH ==> forall e :: e in m.entries ==> e in Slashed(m, fair))
  {
    hide Collect, Drawn, DistinctIds, Holds, Named;
    var m := Collect(faults, stake, reservoir);
    ReservoirRetains(faults, stake, reservoir);
    DrawnFacts(m, fair);
    SameElements(Drawn(m, fair), m.entries);
  }

  /** With d distinct faulted nodes, for every stake assignment and all draws: exactly
      min(d, 1024) penalties, to distinct faulted nodes, all of them when they fit; and
      nobody goes unaccounted for, exactly so up to 2048. */
  lemma PenaltiesAccountForFaults(faults: seq<NodeId>, stake: StakeOracle, reservoir: Draws, fair: Draws)
    ensures var d, ids := |Named(faults)|, Penalised(faults, stake, reservoir, fair);
            && |ids| == Min(d, MAX_FAULTS_PER_EPOCH)
            && Distinct(ids)
            && (forall id :: id in ids ==> id in faults)
            && (d <= MAX_FAULTS_PER_EPOCH ==> forall id :: id in faults ==> id in ids)
    ensures var total := |Penalised(faults, stake, reservoir, fair)| + Dropped(faults, stake, reservoir, fair);
            && total >= |Named(faults)|
            && (|Named(faults)| <= MAX_FAULT_MARKET ==> total == |Named(faults)|)
  {
    var m := Collect(faults, stake, reservoir);
    var part := Slashed(m, fair);
    var ids := Penalised(faults, stake, reservoir, fair);
    ReservoirRetains(faults, stake, reservoir);
    SlashedMembers(faults, stake, reservoir, fair);
    IdsDistinct(m, part);
    forall id | id in ids ensures id in faults {
      var i :| 0 <= i < |ids| && ids[i] == id;
      assert part[i] in m.entries;
    }
    if |Named(faults)| <= MAX_FAULTS_PER_EPOCH {
      forall id | id in faults ensures id in ids {
        assert id in Named(faults);
        var i :| 0 <= i < |m.entries| && m.entries[i].nodeId == id;
        assert m.entries[i] in part;
        var k :| 0 <= k < |part| && part[k] == m.entries[i];
        assert ids[k] == id;
      }
    }
  }

  /** Whatever is retained outside the stake lane has a smaller weight than everything in it,
      or the same weight and a larger node id. */
  lemma StakeLaneIsTop(m: Market, fair: Draws, e: FaultEntry, f: FaultEntry)
    requires DistinctIds(m.entries)
    requires e in Slashed(m, fair)[..StakeLane(|m.entries|)]
    requires f in m.entries && f !in Slashed(m, fair)[..StakeLane(|m.entries|)]
    ensures || IntSqrt(f.priority) < IntSqrt(e.priority)
            || (IntSqrt(f.priority) == IntSqrt(e.priority) && e.nodeId < f.nodeId)
  {
    var ranked := Sort(m.entries, Before);
    DrawnFacts(m, fair);
    BeforeIsTotal();
    SortSorts(m.entries, Before);
    SameElements(ranked, m.entries);
    BeforeSeparates(m.entries);
    assert f in ranked;
    var i :| 0 <= i < StakeLane(|m.entries|) && ranked[i] == e;
    var k :| 0 <= k < |ranked| && ranked[k] == f;
    assert k >= StakeLane(|m.entries|);
    assert Before(ranked[i], ranked[k]);
    assert e in m.entries;
  }

  /** Node `a` comes before `b` in the stake lane. */
  predicate Outranks(stake: StakeOracle, a: NodeId, b: NodeId) {
    || IntSqrt(stake.of(a)) > IntSqrt(stake.of(b))
    || (IntSqrt(stake.of(a)) == IntSqrt(stake.of(b)) && a < b)
  }

  /** The first `n` of `ids` outrank every other one of `names`. */
  ghost predicate AreTop(ids: seq<NodeId>, n: nat, names: set<NodeId>, stake: StakeOracle) {
    && n <= |ids|
    && forall i, other :: 0 <= i < n && other in names && other !in ids[..n] ==> Outranks(stake, ids[i], other)
  }

  /** While every faulted node fits, the first min(d, 512) penalised are exactly the top of all faulted
      nodes. */
  lemma StakeLaneIsTopOfFaults(faults: seq<NodeId>, stake: StakeOracle, reservoir: Draws, fair: Draws)
    requires |Named(faults)| <= MAX_FAULT_MARKET
    ensures AreTop(Penalised(faults, stake, reservoir, fair), StakeLane(|Named(faults)|), Named(faults), stake)
  {
    hide Collect, Drawn, DistinctIds, Holds, Named, Slashed;
    var m, ids := Collect(faults, stake, reservoir), Penalised(faults, stake, reservoir, fair);
    ReservoirRetains(faults, stake, reservoir);
    EntriesAreNames(m, Named(faults), stake);
    SlashedMembers(faults, stake, reservoir, fair);
    var part, n := Slashed(m, fair), StakeLane(|Named(faults)|);
    forall i, other | 0 <= i < n && other in Named(faults) && other !in ids[..n]
      ensures Outranks(stake, ids[i], other)
    {
      var e, f := part[i], FaultEntry(other, stake.of(other));
      assert e in part && e in part[..n] && f in m.entries;
      forall k | 0 <= k < n ensures part[..n][k] != f { assert ids[..n][k] == part[k].nodeId; }
      StakeLaneIsTop(m, fair, e, f);
    }
  }

  /** While every faulted node fits, the stake lane depends only on which nodes are faulted
      and what they stake: not on the draws, nor on the order or repetition of the faults. */
  lemma StakeLaneIgnoresOrderAndDraws(
      f: seq<NodeId>, g: seq<NodeId>, stake: StakeOracle,
      reservoir: Draws, reservoir': Draws, fair: Draws, fair': Draws)
    requires Named(f) == Named(g) && |Named(f)| <= MAX_FAULT_MARKET
    ensures var n := StakeLane(|Named(f)|);
            && |Penalised(f, stake, reservoir, fair)| >= n
            && |Penalised(g, stake, reservoir', fair')| >= n
            && Penalised(f, stake, reservoir, fair)[..n] == Penalised(g, stake, reservoir', fair')[..n]
  {
    var m, m' := Collect(f, stake, reservoir), Collect(g, stake, reservoir');
    ReservoirRetains(f, stake, reservoir);
    ReservoirRetains(g, stake, reservoir');
    SameRanking(m, m', Named(f), stake);
    DrawnFacts(m, fair);
    DrawnFacts(m', fair');
    var n := StakeLane(|Named(f)|);
    SamePrefixIds(Slashed(m, fair), Slashed(m', fair'), n);
  }

  lemma SamePrefixIds(a: seq<FaultEntry>, b: seq<FaultEntry>, n: nat)
    requires n <= |a| && n <= |b| && a[..n] == b[..n]
    ensures Ids(a)[..n] == Ids(b)[..n]
  {
    assert forall i :: 0 <= i < n ==> a[i] == a[..n][i] && b[i] == b[..n][i];
  }

  lemma SameRanking(m: Market, m': Market, names: set<NodeId>, stake: StakeOracle)
    requires Retains(m, names, stake) && Retains(m', names, stake) && |names| <= MAX_FAULT_MARKET
    ensures Sort(m.entries, Before) == Sort(m'.entries, Before)
  {
    EntriesAreNames(m, names, stake);
    EntriesAreNames(m', names, stake);
    BeforeIsTotal();
    BeforeSeparates(m.entries);
    BeforeSeparates(m'.entries);
    DistinctSameElements(m.entries, m'.entries);
    SortSorts(m.entries, Before);
    SortSorts(m'.entries, Before);
    SameElements(m.entries, Sort(m.entries, Before));
    SortedUnique(Sort(m.entries, Before), Sort(m'.entries, Before), Before);
  }

  lemma EntriesAreNames(m: Market, names: set<NodeId>, stake: StakeOracle)
    requires Retains(m, names, stake) && |names| <= MAX_FAULT_MARKET
    ensures forall e :: e in m.entries <==> (e.nodeId in names && e.priority == stake.of(e.nodeId))
  {
    forall e: FaultEntry | e.nodeId in names && e.priority == stake.of(e.nodeId) ensures e in m.entries {
      var i :| 0 <= i < |m.entries| && m.entries[i].nodeId == e.nodeId;
      assert m.entries[i] in m.entries;
    }
  }

  /** A candidate outside the stake lane can be drawn first in the fair lane. */
  lemma FirstInFairLane(m: Market, q: nat)
    requires StakeLane(|m.entries|) <= q < |m.entries| <= MAX_FAULT_MARKET
    ensures Drawn(m, Replay([q - StakeLane(|m.entries|)]))[StakeLane(|m.entries|)] == Sort(m.entries, Before)[q]
  {
    var n, lane := |m.entries|, StakeLane(|m.entries|);
    ReplayFirst(q - lane, n - lane);
    SampleFirst(Sort(m.entries, Before), lane, Replay([q - lane]), 0, FairLane(n));
  }

  /** Any ranked candidate is in the stake lane or can be drawn first in the fair lane. */
  lemma CanBeDrawn(m: Market, q: nat) returns (fair: Draws, at: nat)
    requires q < |m.entries| <= MAX_FAULT_MARKET
    ensures at < StakeLane(|m.entries|) + FairLane(|m.entries|)
    ensures Drawn(m, fair)[at] == Sort(m.entries, Before)[q]
  {
    var n, lane := |m.entries|, StakeLane(|m.entries|);
    if q < lane {
      fair, at := Replay([]), q;
      SampleKeepsPrefix(Sort(m.entries, Before), lane, fair, 0, FairLane(n), q);
    } else {
      fair, at := Replay([q - lane]), lane;
      FirstInFairLane(m, q);
    }
  }

  /** No capital level can censor a fault: whatever is staked and however many faults flood
      the epoch, some draws penalise any given faulted node. */
  lemma EveryFaultCanBePenalised(faults: seq<NodeId>, stake: StakeOracle, x: NodeId)
    returns (reservoir: Draws, fair: Draws)
    requires x in faults
    ensures x in Penalised(faults, stake, reservoir, fair)
  {
    reservoir := CanBeRetained(faults, x, stake);
    var m := Collect(faults, stake, reservoir);
    ReservoirRetains(faults, stake, reservoir);
    var i :| 0 <= i < |m.entries| && m.entries[i].nodeId == x;
    var q := RankOf(m, i);
    var at;
    fair, at := CanBeDrawn(m, q);
    assert Slashed(m, fair)[at] == Drawn(m, fair)[at];
    assert Penalised(faults, stake, reservoir, fair)[at] == x;
  }

  lemma RankOf(m: Market, i: nat) returns (q: nat)
    requires i < |m.entries|
    ensures q < |m.entries| && Sort(m.entries, Before)[q] == m.entries[i]
  {
    SameElements(m.entries, Sort(m.entries, Before));
    assert m.entries[i] in Sort(m.entries, Before);
    q :| 0 <= q < |m.entries| && Sort(m.entries, Before)[q] == m.entries[i];
  }

  // ---- the ratchet -------------------------------------------------------------------

  /** Insert the nodes one outcome faults. */
  method InsertAll(market: FaultMarketState, ids: seq<NodeId>, stake: StakeOracle, draws: Draws,
                   ghost done: seq<NodeId>)
    requires market.Value() == Collect(done, stake, draws)
    modifies market
    ensures market.Value() == Collect(done + ids, stake, draws)
  {
    assert done + ids[..0] == done;
    for k := 0 to |ids|
      invariant market.Value() == Collect(done + ids[..k], stake, draws)
    {
      assert done + ids[..k + 1] == (done + ids[..k]) + [ids[k]];
      CollectSnoc(done + ids[..k], ids[k], stake, draws);
      market.Insert(ids[k], stake.of(ids[k]), draws);
    }
    assert ids[..|ids|] == ids;
  }

  method CollectFaults(outcomes: seq<DisputeOutcome>, stake: StakeOracle, draws: Draws)
    returns (market: FaultMarketState)
    ensures fresh(market)
    ensures market.Value() == Collect(Faults(outcomes, |outcomes|), stake, draws)
  {
    market := new FaultMarketState();
    for i := 0 to |outcomes|
      invariant fresh(market)
      invariant market.Value() == Collect(Faults(outcomes, i), stake, draws)
    {
      InsertAll(market, FaultsOf(outcomes[i]), stake, draws, Faults(outcomes, i));
    }
  }

  /** The least raw stake in the stake lane. */
  method LaneFloor(entries: seq<FaultEntry>) returns (floor: u64)
    requires entries != []
    ensures exists e :: e in entries && e.priority == floor
    ensures forall e :: e in entries ==> floor <= e.priority
  {
    floor := entries[0].priority;
    ghost var least := entries[0];
    for i := 1 to |entries|
      invariant least in entries && least.priority == floor
      invariant forall k :: 0 <= k < i ==> floor <= entries[k].priority
    {
      if entries[i].priority < floor {
        floor, least := entries[i].priority, entries[i];
      }
    }
  }

  /** Shuffle the remainder after the stake lane in the ranked buffer. */
  method DrawFairLane(ranked: seq<FaultEntry>, laneA: nat, laneB: nat, fair: Draws) returns (drawn: seq<FaultEntry>)
    requires laneA <= |ranked|
    ensures drawn == Sample(ranked, laneA, fair, 0, laneB)
  {
    var entries := new FaultEntry[|ranked|](i requires 0 <= i < |ranked| => ranked[i]);
    assert entries[..] == ranked;
    ShuffleFront(entries, laneA, laneB, fair);
    drawn := entries[..];
  }

  /** One downgrade and one slash unit for each entry. */
  method Penalties(entries: seq<FaultEntry>) returns (penalties: seq<PenaltyEvent>)
    ensures |penalties| == |entries|
    ensures forall i :: 0 <= i < |entries| ==> penalties[i] == PenaltyEvent(entries[i].nodeId, 1, 1)
  {
    penalties := [];
    for i := 0 to |entries|
      invariant |penalties| == i
      invariant forall k :: 0 <= k < i ==> penalties[k] == PenaltyEvent(entries[k].nodeId, 1, 1)
    {
      penalties := penalties + [PenaltyEvent(entries[i].nodeId, 1, 1)];
    }
  }

  /** The epoch ratchet. With d the number of distinct faulted nodes, it emits one penalty
      for each of min(d, 1024) of them and reports every other one dropped; the advisory floor
      is raised, to the least stake in the stake lane, exactly when d exceeds 1024. */
  method ApplyEpochPenalties(outcomes: seq<DisputeOutcome>, stake: StakeOracle, reservoir: Draws, fair: Draws)
    returns (report: Report)
    ensures var faults := Faults(outcomes, |outcomes|);
            var ids := Penalised(faults, stake, reservoir, fair);
            && |report.penalties| == |ids| == report.stakeLane + report.fairLane
            && (forall i :: 0 <= i < |ids| ==> report.penalties[i] == PenaltyEvent(ids[i], 1, 1))
            && report.droppedFaults == Dropped(faults, stake, reservoir, fair)
    ensures var d := |Named(Faults(outcomes, |outcomes|))|;
            && report.stakeLane == Min(d, LANE_STAKE_SLOTS)
            && |report.penalties| == Min(d, MAX_FAULTS_PER_EPOCH)
            && |report.penalties| + report.droppedFaults >= d
            && (d <= MAX_FAULT_MARKET ==> |report.penalties| + report.droppedFaults == d)
            && (d <= MAX_FAULTS_PER_EPOCH ==> report.adaptiveMinStake == 0)
            && (d > MAX_FAULTS_PER_EPOCH ==> IsLeastStake(report, stake))
            && (d <= MAX_FAULT_MARKET ==>
                  AreTop(Punished(report), report.stakeLane, Named(Faults(outcomes, |outcomes|)), stake))
  {
    hide AreTop, Punished, Sort, Sample, Collect, Faults, Before, DistinctIds, Holds, Named, Distinct, IsLeastStake;
    var market := CollectFaults(outcomes, stake, reservoir);
    ghost var faults := Faults(outcomes, |outcomes|);
    ghost var m := market.Value();
    ReservoirRetains(faults, stake, reservoir);
    PenaltiesAccountForFaults(faults, stake, reservoir, fair);

    var overflowDropped := market.overflowDropped;
    var n := |market.entries|;
    var ranked := Sort(market.entries, Before);
    var laneA := StakeLane(n);
    var saturated := overflowDropped > 0 || n > MAX_FAULTS_PER_EPOCH;
    var floor: u64 := 0;
    if saturated && laneA > 0 {
      floor := LaneFloor(ranked[..laneA]);
    }
    var laneB := FairLane(n);
    var drawn := DrawFairLane(ranked, laneA, laneB, fair);
    var processed := laneA + laneB;
    var penalties := Penalties(drawn[..processed]);
    report := Report(penalties, laneA, laneB, n - processed + overflowDropped, floor);
    if saturated {
      LaneFloorIsStake(m, Named(faults), stake, fair, report);
    }
    PunishedAre(report, Penalised(faults, stake, reservoir, fair));
    if |Named(faults)| <= MAX_FAULT_MARKET {
      StakeLaneIsTopOfFaults(faults, stake, reservoir, fair);
    }
  }

  /** The nodes a report penalises, in order. */
  function Punished(report: Report): (ids: seq<NodeId>) {
    seq(|report.penalties|, i requires 0 <= i < |report.penalties| => report.penalties[i].nodeId)
  }

  lemma PunishedAre(report: Report, ids: seq<NodeId>)
    requires |report.penalties| == |ids|
    requires forall i :: 0 <= i < |ids| ==> report.penalties[i] == PenaltyEvent(ids[i], 1, 1)
    ensures Punished(report) == ids
  {
  }

  /** The advisory floor is the least stake among the stake lane's penalised nodes. */
  ghost predicate IsLeastStake(report: Report, stake: StakeOracle) {
    && report.stakeLane <= |report.penalties|
    && (exists i :: 0 <= i < report.stakeLane && stake.of(report.penalties[i].nodeId) == report.adaptiveMinStake)
    && forall i :: 0 <= i < report.stakeLane ==> report.adaptiveMinStake <= stake.of(report.penalties[i].nodeId)
  }

  lemma LaneFloorIsStake(m: Market, names: set<NodeId>, stake: StakeOracle, fair: Draws, report: Report)
    requires Retains(m, names, stake) && |m.entries| > 0
    requires report.stakeLane == StakeLane(|m.entries|) <= |report.penalties| <= |m.entries|
    requires forall i :: 0 <= i < |report.penalties| ==> report.penalties[i].nodeId == Drawn(m, fair)[i].nodeId
    requires exists e :: e in Sort(m.entries, Before)[..report.stakeLane] && e.priority == report.adaptiveMinStake
    requires forall e :: e in Sort(m.entries, Before)[..report.stakeLane] ==> report.adaptiveMinStake <= e.priority
    ensures IsLeastStake(report, stake)
  {
    var lane := Sort(m.entries, Before)[..report.stakeLane];
    DrawnFacts(m, fair);
    SameElements(Drawn(m, fair), m.entries);
    forall i | 0 <= i < report.stakeLane
      ensures report.penalties[i].nodeId == lane[i].nodeId && lane[i].priority == stake.of(lane[i].nodeId)
    {
      assert lane[i] == Slashed(m, fair)[..report.stakeLane][i] == Drawn(m, fair)[i];
    }
    var e :| e in lane && e.priority == report.adaptiveMinStake;
    var i :| 0 <= i < |lane| && lane[i] == e;
    assert stake.of(report.penalties[i].nodeId) == report.adaptiveMinStake;
  }
}
