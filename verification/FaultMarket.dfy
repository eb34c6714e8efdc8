/** The epoch fault market: faults deduplicated into a bounded, stake-blind reservoir. */
module FaultMarket {
  import opened Machine
  import opened FisherYates

  const MAX_FAULTS_PER_EPOCH: nat := 1024
  const MAX_FAULT_MARKET: nat := 2 * MAX_FAULTS_PER_EPOCH

  /** A 32-byte node id, read as a big-endian number so that `<` is the byte order. */
  type NodeId = nat

  /** The staked weight of every node; an unknown node has weight 0. */
  datatype StakeOracle = StakeOracle(of: NodeId -> u64)

  datatype FaultEntry = FaultEntry(nodeId: NodeId, priority: u64)

  datatype Market = Market(entries: seq<FaultEntry>, seen: nat, overflowDropped: nat)

  const EMPTY_MARKET := Market([], 0, 0)

  predicate Holds(entries: seq<FaultEntry>, id: NodeId) {
    exists i :: 0 <= i < |entries| && entries[i].nodeId == id
  }

  /** Deduplicate against what is retained, append while there is room, then fold the
      newcomer in by a reservoir draw. */
  function Inserted(m: Market, id: NodeId, priority: u64, draws: Draws): Market {
    var e := FaultEntry(id, priority);
    if Holds(m.entries, id) then m
    else if |m.entries| < MAX_FAULT_MARKET then Market(m.entries + [e], m.seen + 1, m.overflowDropped)
    else
      var j := Offset(draws, m.seen, m.seen + 1);
      var kept := if j < MAX_FAULT_MARKET then m.entries[j := e] else m.entries;
      Market(kept, m.seen + 1, m.overflowDropped + 1)
  }

  function Collect(faults: seq<NodeId>, stake: StakeOracle, draws: Draws): Market {
    if faults == [] then EMPTY_MARKET
    else
      var last := faults[|faults| - 1];
      Inserted(Collect(faults[..|faults| - 1], stake, draws), last, stake.of(last), draws)
  }

  lemma CollectSnoc(faults: seq<NodeId>, id: NodeId, stake: StakeOracle, draws: Draws)
    ensures Collect(faults + [id], stake, draws)
         == Inserted(Collect(faults, stake, draws), id, stake.of(id), draws)
  {
    assert (faults + [id])[..|faults|] == faults;
  }

  /** The distinct nodes a list of faults names. */
  function Named(faults: seq<NodeId>): set<NodeId> {
    set id | id in faults
  }

  lemma NamedStep(faults: seq<NodeId>)
    requires faults != []
    ensures Named(faults) == Named(faults[..|faults| - 1]) + {faults[|faults| - 1]}
  {
    assert faults == faults[..|faults| - 1] + [faults[|faults| - 1]];
  }

  ghost predicate DistinctIds(entries: seq<FaultEntry>) {
    forall i, j :: 0 <= i < j < |entries| ==> entries[i].nodeId != entries[j].nodeId
  }

  /** What every prefix of the insertions keeps. */
  ghost predicate Retains(m: Market, names: set<NodeId>, stake: StakeOracle) {
    && DistinctIds(m.entries)
    && (forall e :: e in m.entries ==> e.nodeId in names && e.priority == stake.of(e.nodeId))
    && |m.entries| == Min(|names|, MAX_FAULT_MARKET)
    && m.seen == |m.entries| + m.overflowDropped
    && m.seen >= |names|
    && (|names| <= MAX_FAULT_MARKET ==>
          m.overflowDropped == 0 && forall id :: id in names ==> Holds(m.entries, id))
  }

  lemma InsertRetains(m: Market, names: set<NodeId>, stake: StakeOracle, id: NodeId, draws: Draws)
    requires Retains(m, names, stake)
    ensures Retains(Inserted(m, id, stake.of(id), draws), names + {id}, stake)
  {
    var m' := Inserted(m, id, stake.of(id), draws);
    var e := FaultEntry(id, stake.of(id));
    if Holds(m.entries, id) {
      HeldIsNamed(m, names, stake, id);
      assert names + {id} == names;
    } else if |m.entries| < MAX_FAULT_MARKET {
      assert id !in names;
      assert m'.entries[|m.entries|] == e;
      forall x | x in names + {id} ensures Holds(m'.entries, x) {
        if x != id {
          var i :| 0 <= i < |m.entries| && m.entries[i].nodeId == x;
          assert m'.entries[i].nodeId == x;
        }
      }
    } else {
      assert id in names ==> |names| > MAX_FAULT_MARKET;
      assert id in names ==> names + {id} == names;
    }
  }

  /** For every list of faults, every stake assignment and every stream of draws: the market
      keeps min(d, 2048) distinct named nodes at their stakes, counts at least d of them, and
      keeps all d and counts exactly d while they fit. */
  lemma {:induction false} ReservoirRetains(faults: seq<NodeId>, stake: StakeOracle, draws: Draws)
    ensures Retains(Collect(faults, stake, draws), Named(faults), stake)
    decreases |faults|
  {
    if faults != [] {
      var prefix := faults[..|faults| - 1];
      ReservoirRetains(prefix, stake, draws);
      NamedStep(faults);
      InsertRetains(Collect(prefix, stake, draws), Named(prefix), stake, faults[|faults| - 1], draws);
    }
  }

  // ---- the count of dropped faults --------------------------------------------------

  lemma HeldIsNamed(m: Market, names: set<NodeId>, stake: StakeOracle, id: NodeId)
    requires Retains(m, names, stake)
    ensures Holds(m.entries, id) ==> id in names
  {
    if Holds(m.entries, id) {
      var i :| 0 <= i < |m.entries| && m.entries[i].nodeId == id;
      assert m.entries[i] in m.entries;
    }
  }

  /** Some fault repeats an earlier one after more than 2048 distinct nodes were named. */
  ghost predicate RepeatsAfterOverflow(faults: seq<NodeId>) {
    exists r :: 0 <= r < |faults| && faults[r] in faults[..r] && |Named(faults[..r])| > MAX_FAULT_MARKET
  }

  /** How far `seen` runs ahead of the number of distinct nodes named. */
  ghost function Excess(faults: seq<NodeId>, stake: StakeOracle, draws: Draws): (x: nat) {
    ReservoirRetains(faults, stake, draws);
    Collect(faults, stake, draws).seen - |Named(faults)|
  }

  lemma ExcessStep(faults: seq<NodeId>, stake: StakeOracle, draws: Draws)
    requires faults != []
    ensures var g, y := faults[..|faults| - 1], faults[|faults| - 1];
            Excess(faults, stake, draws) == Excess(g, stake, draws) +
            if y in g && !Holds(Collect(g, stake, draws).entries, y) then 1 else 0
  {
    var g, y := faults[..|faults| - 1], faults[|faults| - 1];
    NamedStep(faults);
    ReservoirRetains(g, stake, draws);
    HeldIsNamed(Collect(g, stake, draws), Named(g), stake, y);
    assert y in g ==> Named(faults) == Named(g);
  }

  lemma {:induction false} ExcessGrows(faults: seq<NodeId>, n: nat, stake: StakeOracle, draws: Draws)
    requires n <= |faults|
    ensures Excess(faults[..n], stake, draws) <= Excess(faults, stake, draws)
    decreases |faults|
  {
    if n == |faults| {
      assert faults[..n] == faults;
    } else {
      var g := faults[..|faults| - 1];
      ExcessGrows(g, n, stake, draws);
      assert g[..n] == faults[..n];
      ExcessStep(faults, stake, draws);
    }
  }

  /** A market depends only on the draws numbered below its own count. */
  lemma {:induction false} DrawsBeyondSeenAreUnused(faults: seq<NodeId>, stake: StakeOracle, d: Draws, e: Draws)
    requires forall i: nat :: i < Collect(faults, stake, d).seen ==> d.draw(i) == e.draw(i)
    ensures Collect(faults, stake, d) == Collect(faults, stake, e)
    decreases |faults|
  {
    if faults != [] {
      DrawsBeyondSeenAreUnused(faults[..|faults| - 1], stake, d, e);
    }
  }

  function Redraw(draws: Draws, at: nat, v: u64): Draws {
    var draw := draws.draw;
    Draws((i: nat) => if i == at then v else draw(i))
  }

  /** The slot that holds `x`, or 0. */
  ghost function SlotOf(entries: seq<FaultEntry>, x: NodeId): (i: nat)
    requires |entries| == MAX_FAULT_MARKET
    ensures i < |entries|
    ensures Holds(entries, x) ==> entries[i].nodeId == x
  {
    if Holds(entries, x) then
      var i: nat :| i < |entries| && entries[i].nodeId == x; i
    else 0
  }

  /** A full market draws `v` for a newcomer, which evicts or refuses `x` as `v` says. */
  lemma DrawToShed(m: Market, y: NodeId, x: NodeId, p: u64, draws: Draws) returns (v: u64)
    requires DistinctIds(m.entries) && !Holds(m.entries, y)
    requires |m.entries| == MAX_FAULT_MARKET <= m.seen
    ensures !Holds(Inserted(m, y, p, Redraw(draws, m.seen, v)).entries, x)
  {
    v := if y == x then MAX_FAULT_MARKET else SlotOf(m.entries, x);
    assert Offset(Redraw(draws, m.seen, v), m.seen, m.seen + 1) == v;
  }

  /** A reservoir that has overflowed can have shed any given node. */
  lemma {:induction false} CanBeShed(faults: seq<NodeId>, x: NodeId, stake: StakeOracle) returns (draws: Draws)
    requires |Named(faults)| > MAX_FAULT_MARKET
    ensures Excess(faults, stake, draws) > 0 || !Holds(Collect(faults, stake, draws).entries, x)
    decreases |faults|
  {
    var g, y := faults[..|faults| - 1], faults[|faults| - 1];
    NamedStep(faults);
    if y in g {
      assert Named(g) == Named(faults);
      draws := CanBeShed(g, x, stake);
      ExcessStep(faults, stake, draws);
    } else {
      var base := Draws((i: nat) => 0);
      var m := Collect(g, stake, base);
      ReservoirRetains(g, stake, base);
      HeldIsNamed(m, Named(g), stake, y);
      var v := DrawToShed(m, y, x, stake.of(y), base);
      draws := Redraw(base, m.seen, v);
      DrawsBeyondSeenAreUnused(g, stake, base, draws);
    }
  }

  lemma {:induction false} NoRepeatNoExcess(faults: seq<NodeId>, stake: StakeOracle, draws: Draws)
    requires !RepeatsAfterOverflow(faults)
    ensures Excess(faults, stake, draws) == 0
    decreases |faults|
  {
    if faults != [] {
      var n := |faults| - 1;
      var g := faults[..n];
      assert !RepeatsAfterOverflow(g) by {
        assert forall r :: 0 <= r < n ==> g[r] == faults[r] && g[..r] == faults[..r];
      }
      NoRepeatNoExcess(g, stake, draws);
      ExcessStep(faults, stake, draws);
      ReservoirRetains(g, stake, draws);
      assert faults[n] in faults[..n] ==> |Named(g)| <= MAX_FAULT_MARKET;
    }
  }

  /** A node named again after the overflow can be counted twice. */
  lemma RepeatCanBeRecounted(faults: seq<NodeId>, r: nat, stake: StakeOracle) returns (draws: Draws)
    requires r < |faults| && faults[r] in faults[..r] && |Named(faults[..r])| > MAX_FAULT_MARKET
    ensures Excess(faults, stake, draws) > 0
  {
    draws := CanBeShed(faults[..r], faults[r], stake);
    hide Collect, Named, Holds;
    assert faults[..r + 1][..r] == faults[..r];
    ExcessStep(faults[..r + 1], stake, draws);
    ExcessGrows(faults, r + 1, stake, draws);
  }

  /** The market's count is the number of distinct faulted nodes, whatever the draws, if and
      only if no node is named again after more than 2048 distinct ones were. */
  lemma CountIsExactIff(faults: seq<NodeId>, stake: StakeOracle)
    ensures (forall draws: Draws :: Collect(faults, stake, draws).seen == |Named(faults)|)
       <==> !RepeatsAfterOverflow(faults)
  {
    hide Collect, Named;
    if RepeatsAfterOverflow(faults) {
      var r :| 0 <= r < |faults| && faults[r] in faults[..r] && |Named(faults[..r])| > MAX_FAULT_MARKET;
      var draws := RepeatCanBeRecounted(faults, r, stake);
      assert Collect(faults, stake, draws).seen != |Named(faults)|;
    } else {
      hide RepeatsAfterOverflow;
      forall draws: Draws ensures Collect(faults, stake, draws).seen == |Named(faults)| {
        NoRepeatNoExcess(faults, stake, draws);
      }
    }
  }

  lemma {:induction false} CountUpTo(n: nat)
    ensures |Named(seq(n, i => i))| == n
  {
    var s := seq(n, i => i);
    if n > 0 {
      CountUpTo(n - 1);
      assert s[..n - 1] == seq(n - 1, i => i);
      NamedStep(s);
    }
  }

  /** Name the nodes 0..2048 and then node 0 again: some draws count node 0 twice. */
  lemma RecountExample(stake: StakeOracle) returns (faults: seq<NodeId>, draws: Draws)
    ensures faults == seq(MAX_FAULT_MARKET + 1, i => i) + [0]
    ensures Collect(faults, stake, draws).seen != |Named(faults)|
  {
    var first := seq(MAX_FAULT_MARKET + 1, i => i);
    faults := first + [0];
    CountUpTo(MAX_FAULT_MARKET + 1);
    assert faults[..|first|] == first && first[0] == 0;
    assert RepeatsAfterOverflow(faults) by { assert faults[|first|] in faults[..|first|]; }
    CountIsExactIff(faults, stake);
    draws :| Collect(faults, stake, draws).seen != |Named(faults)|;
  }

  // ---- every fault can be retained --------------------------------------------------

  /** Whatever the flood, some draws leave a given named node in the market. */
  lemma {:induction false} CanBeRetained(faults: seq<NodeId>, x: NodeId, stake: StakeOracle) returns (draws: Draws)
    requires x in faults
    ensures Holds(Collect(faults, stake, draws).entries, x)
    decreases |faults|
  {
    var g, y := faults[..|faults| - 1], faults[|faults| - 1];
    assert faults == g + [y];
    var base := Draws((i: nat) => 0);
    if x in g {
      base := CanBeRetained(g, x, stake);
    }
    var m := Collect(g, stake, base);
    ReservoirRetains(g, stake, base);
    HeldIsNamed(m, Named(g), stake, x);
    var v: u64 := if x in g then MAX_FAULT_MARKET else 0;
    draws := Redraw(base, m.seen, v);
    DrawsBeyondSeenAreUnused(g, stake, base, draws);
    RetainStep(m, y, stake.of(y), draws, x);
  }

  lemma RetainStep(m: Market, y: NodeId, p: u64, draws: Draws, x: NodeId)
    requires |m.entries| <= MAX_FAULT_MARKET && |m.entries| <= m.seen
    requires if Holds(m.entries, x) then draws.draw(m.seen) == MAX_FAULT_MARKET
             else y == x && draws.draw(m.seen) == 0
    ensures Holds(Inserted(m, y, p, draws).entries, x)
  {
    var m' := Inserted(m, y, p, draws);
    var e := FaultEntry(y, p);
    if Holds(m.entries, x) {
      var i :| 0 <= i < |m.entries| && m.entries[i].nodeId == x;
      assert m'.entries[i].nodeId == x;
    } else if |m.entries| < MAX_FAULT_MARKET {
      assert m'.entries[|m.entries|] == e;
    } else {
      assert m'.entries[0] == e;
    }
  }

  /** The market as the code keeps it: fields updated in place. */
  class FaultMarketState {
    var entries: seq<FaultEntry>
    var seen: nat
    var overflowDropped: nat

    function Value(): Market
      reads this
    {
      Market(entries, seen, overflowDropped)
    }

    constructor ()
      ensures Value() == EMPTY_MARKET
    {
      entries, seen, overflowDropped := [], 0, 0;
    }

    method Insert(id: NodeId, priority: u64, draws: Draws)
      modifies this
      ensures Value() == Inserted(old(Value()), id, priority, draws)
    {
      if Holds(entries, id) {
        return;
      }
      var entry := FaultEntry(id, priority);
      if |entries| < MAX_FAULT_MARKET {
        entries := entries + [entry];
        seen := seen + 1;
        return;
      }
      var j := Offset(draws, seen, seen + 1);
      if j < MAX_FAULT_MARKET {
        entries := entries[j := entry];
      }
      seen := seen + 1;
      overflowDropped := overflowDropped + 1;
    }
  }
}
