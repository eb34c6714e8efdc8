/** The drift-resilient clock: a clamped median of authenticated peers' offsets. */
module NetworkClock {
  import opened Machine
  import opened Sorting

  const NETWORK_TIME_WINDOW: nat := 16
  const MAX_CLOCK_SKEW_SECS: int := 300

  type PeerAddr = nat

  const I64_MAX: int := 0x7FFF_FFFF_FFFF_FFFF
  const I64_MIN: int := -0x8000_0000_0000_0000

  /** `x as i64`: the upper half wraps to the negatives. */
  function AsI64(x: u64): int {
    if x <= I64_MAX then x else x - 0x1_0000_0000_0000_0000
  }

  function SaturatingSub(a: int, b: int): int {
    Max(I64_MIN, Min(I64_MAX, a - b))
  }

  function Clamp(x: int): int {
    Max(-MAX_CLOCK_SKEW_SECS, Min(MAX_CLOCK_SKEW_SECS, x))
  }

  /** The window of samples: a ring of addresses and offsets, the first `filled` in use. */
  datatype Clock = Clock(addrs: seq<PeerAddr>, offsets: seq<int>, next: nat, filled: nat, genesisFloor: u64) {

    ghost predicate Valid() {
      && |addrs| == |offsets| == NETWORK_TIME_WINDOW
      && next < NETWORK_TIME_WINDOW
      && filled <= NETWORK_TIME_WINDOW
      && (filled < NETWORK_TIME_WINDOW ==> next == filled)
      && Distinct(addrs[..filled])
    }

    /** The slot that holds `addr`, or `filled`. */
    function SlotOf(addr: PeerAddr, from: nat): (k: nat)
      requires from <= filled <= |addrs|
      ensures from <= k <= filled
      ensures k < filled ==> addrs[k] == addr
      ensures forall i :: from <= i < k ==> addrs[i] != addr
      decreases filled - from
    {
      if from == filled then filled
      else if addrs[from] == addr then from
      else SlotOf(addr, from + 1)
    }

    function Record(addr: PeerAddr, peerTime: u64, localTime: u64): Clock
      requires |addrs| == |offsets| == NETWORK_TIME_WINDOW
      requires filled <= NETWORK_TIME_WINDOW && next < NETWORK_TIME_WINDOW
    {
      var offset := SaturatingSub(AsI64(peerTime), AsI64(localTime));
      var k := SlotOf(addr, 0);
      if k < filled then this.(offsets := offsets[k := offset])
      else Clock(addrs[next := addr], offsets[next := offset], (next + 1) % NETWORK_TIME_WINDOW,
                 Min(filled + 1, NETWORK_TIME_WINDOW), genesisFloor)
    }

    function Offset(): (o: int)
      requires filled <= |offsets|
    {
      if filled == 0 then 0 else Clamp(Sort(offsets[..filled], Leq)[filled / 2])
    }

    function LogicalNow(localTime: u64): u64
      requires filled <= |offsets|
    {
      var off := Offset();
      var corrected := if off >= 0 then Min(localTime + off, U64_MAX) else Max(0, localTime + off);
      Max(corrected, genesisFloor)
    }
  }

  predicate Leq(a: int, b: int) {
    a <= b
  }

  const NO_OFFSETS: seq<int> := [0, 0, 0, 0, 0, 0, 0, 0, 0, 0, 0, 0, 0, 0, 0, 0]

  function Genesis(floor: u64): (c: Clock)
    ensures c.Valid()
  {
    Clock(seq(NETWORK_TIME_WINDOW, _ => 0), NO_OFFSETS, 0, 0, floor)
  }

  /** Recording a peer keeps the addresses distinct and files the peer's latest reading; every
      other sample survives, but for the one a new address evicts from a full window. */
  lemma RecordKeepsValid(c: Clock, addr: PeerAddr, peerTime: u64, localTime: u64)
    requires c.Valid()
    ensures c.Record(addr, peerTime, localTime).Valid()
    ensures var d := c.Record(addr, peerTime, localTime);
            exists k :: 0 <= k < d.filled && d.addrs[k] == addr
                        && d.offsets[k] == SaturatingSub(AsI64(peerTime), AsI64(localTime))
    ensures var d := c.Record(addr, peerTime, localTime);
            forall i :: 0 <= i < c.filled && c.addrs[i] != addr && (i != c.next || addr in c.addrs[..c.filled]) ==>
              i < d.filled && d.addrs[i] == c.addrs[i] && d.offsets[i] == c.offsets[i]
  {
    var d := c.Record(addr, peerTime, localTime);
    var k := c.SlotOf(addr, 0);
    var at := if k < c.filled then k else c.next;
    assert d.addrs[at] == addr;
    assert k == c.filled ==> addr !in c.addrs[..c.filled];
    forall i, j | 0 <= i < j < d.filled ensures d.addrs[i] != d.addrs[j] {
      assert i < c.filled ==> c.addrs[..c.filled][i] == c.addrs[i];
      assert j < c.filled ==> c.addrs[..c.filled][j] == c.addrs[j];
    }
  }

  /** One signed clock reading from an authenticated peer. */
  datatype Reading = Reading(addr: PeerAddr, peerTime: u64, localTime: u64)

  function Observe(c: Clock, rs: seq<Reading>, n: nat): (d: Clock)
    requires c.Valid() && n <= |rs|
    ensures d.Valid() && d.genesisFloor == c.genesisFloor
  {
    if n == 0 then c
    else
      var b := Observe(c, rs, n - 1);
      RecordKeepsValid(b, rs[n - 1].addr, rs[n - 1].peerTime, rs[n - 1].localTime);
      b.Record(rs[n - 1].addr, rs[n - 1].peerTime, rs[n - 1].localTime)
  }

  // ---- the median -------------------------------------------------------------------------------

  function Within(lo: int, hi: int): int -> bool {
    x => lo <= x <= hi
  }

  function AtMost(hi: int): int -> bool {
    x => x <= hi
  }

  function AtLeast(lo: int): int -> bool {
    x => lo <= x
  }

  lemma {:induction false} CountWhere<T>(s: seq<T>, a: nat, b: nat, p: T -> bool)
    requires a <= b <= |s|
    ensures (forall i :: a <= i < b ==> p(s[i])) ==> Count(s, p) >= b - a
    ensures (forall i :: a <= i < b ==> !p(s[i])) ==> Count(s, p) <= |s| - (b - a)
  {
    if s != [] {
      var c := Min(b, |s| - 1);
      CountWhere(s[..|s| - 1], Min(a, c), c, p);
    }
  }

  /** The element taken is at most `hi` exactly when strictly more than half of the offsets are. */
  lemma MedianAtMostIff(s: seq<int>, hi: int)
    requires s != []
    ensures Sort(s, Leq)[|s| / 2] <= hi <==> 2 * Count(s, AtMost(hi)) > |s|
  {
    hide Sort, Count;
    var t, m := Sort(s, Leq), |s| / 2;
    assert SortedBy(t, Leq) by { SortSorts(s, Leq) by { assert TotalPreorder(Leq); } }
    CountPermutes(s, t, AtMost(hi));
    if t[m] <= hi {
      CountWhere(t, 0, m + 1, AtMost(hi));
    } else {
      CountWhere(t, m, |t|, AtMost(hi));
    }
  }

  /** It is at least `lo` exactly when at least half of them are: for an even count the upper of the
      two middle elements is the one taken. */
  lemma MedianAtLeastIff(s: seq<int>, lo: int)
    requires s != []
    ensures lo <= Sort(s, Leq)[|s| / 2] <==> 2 * Count(s, AtLeast(lo)) >= |s|
  {
    hide Sort, Count;
    var t, m := Sort(s, Leq), |s| / 2;
    assert SortedBy(t, Leq) by { SortSorts(s, Leq) by { assert TotalPreorder(Leq); } }
    CountPermutes(s, t, AtLeast(lo));
    if lo <= t[m] {
      CountWhere(t, m, |t|, AtLeast(lo));
    } else {
      CountWhere(t, 0, m + 1, AtLeast(lo));
    }
  }

  /** A hostile minority cannot move the clock: if strictly more than half of the stored offsets
      lie in [lo, hi], the offset lies in that interval clamped to 300 seconds. */
  lemma MajorityBoundsOffset(c: Clock, lo: int, hi: int)
    requires c.Valid() && 2 * Count(c.offsets[..c.filled], Within(lo, hi)) > c.filled
    ensures Clamp(lo) <= c.Offset() <= Clamp(hi)
  {
    hide Sort, Count;
    var s := c.offsets[..c.filled];
    MedianAtMostIff(s, hi);
    MedianAtLeastIff(s, lo);
    CountImplies(s, Within(lo, hi), AtMost(hi));
    CountImplies(s, Within(lo, hi), AtLeast(lo));
  }

  /** Nobody can move it further than the clamp. */
  lemma OffsetIsClamped(c: Clock)
    requires c.Valid()
    ensures -MAX_CLOCK_SKEW_SECS <= c.Offset() <= MAX_CLOCK_SKEW_SECS
  {
  }

  /** For an even count the element taken is the upper of the two in the middle, so half of the
      samples are enough to push the clock up: two peers at 0 and 100 give 100. */
  lemma UpperMedianExample()
    ensures var s := [0, 100];
            Sort(s, Leq)[|s| / 2] == 100
  {
    assert [0, 100][1..] == [100] && [100][1..] == [];
  }

  // ---- logical time ------------------------------------------------------------------------------

  /** Logical time is monotone in local time and never stretches an interval. */
  lemma LogicalTimeIsSteady(c: Clock, s: u64, t: u64)
    requires c.Valid() && s <= t
    ensures c.LogicalNow(s) <= c.LogicalNow(t)
    ensures c.LogicalNow(t) - c.LogicalNow(s) <= t - s
    ensures c.LogicalNow(s) >= c.genesisFloor
  {
  }

  /** Where a majority of the peers put the network's time in [t + lo, t + hi], no more than 300
      seconds away, so does the clock. */
  lemma LogicalTimeFollowsMajority(c: Clock, lo: int, hi: int, t: u64)
    requires c.Valid() && 2 * Count(c.offsets[..c.filled], Within(lo, hi)) > c.filled
    requires -MAX_CLOCK_SKEW_SECS <= lo <= hi <= MAX_CLOCK_SKEW_SECS
    requires c.genesisFloor <= t + lo && t + hi <= U64_MAX
    ensures t + lo <= c.LogicalNow(t) <= t + hi
  {
    hide Count, Clock.Valid, Clock.Offset;
    MajorityBoundsOffset(c, lo, hi);
  }

  /** A single peer within the skew limit sets the clock to its own time. */
  lemma OnePeerSetsTheClock(floor: u64, addr: PeerAddr, peerTime: u64, localTime: u64)
    requires peerTime <= I64_MAX && localTime <= I64_MAX && floor <= peerTime
    requires -MAX_CLOCK_SKEW_SECS <= peerTime - localTime <= MAX_CLOCK_SKEW_SECS
    ensures Genesis(floor).Record(addr, peerTime, localTime).LogicalNow(localTime) == peerTime
  {
    var c := Genesis(floor).Record(addr, peerTime, localTime);
    assert c.offsets[..1] == [peerTime - localTime];
    assert Sort([peerTime - localTime], Leq) == [peerTime - localTime];
  }

  // ---- the clock as it runs -------------------------------------------------------------------------

  class NetworkClockState {
    var addrs: seq<PeerAddr>
    var offsets: seq<int>
    var next: nat
    var filled: nat
    var genesisFloor: u64

    function Value(): Clock
      reads this
    {
      Clock(addrs, offsets, next, filled, genesisFloor)
    }

    constructor (floor: u64)
      ensures Value() == Genesis(floor)
    {
      addrs, offsets := seq(NETWORK_TIME_WINDOW, _ => 0), NO_OFFSETS;
      next, filled, genesisFloor := 0, 0, floor;
    }

    method RecordPeerTime(addr: PeerAddr, peerTime: u64, localTime: u64)
      requires Value().Valid()
      modifies this
      ensures Value() == old(Value()).Record(addr, peerTime, localTime)
      ensures Value().Valid()
    {
      RecordKeepsValid(Value(), addr, peerTime, localTime);
      ghost var c := Value();
      var offset := SaturatingSub(AsI64(peerTime), AsI64(localTime));
      for i := 0 to filled
        invariant Value() == c
        invariant forall k :: 0 <= k < i ==> addrs[k] != addr
      {
        if addrs[i] == addr {
          offsets := offsets[i := offset];
          return;
        }
      }
      addrs := addrs[next := addr];
      offsets := offsets[next := offset];
      next := (next + 1) % NETWORK_TIME_WINDOW;
      if filled < NETWORK_TIME_WINDOW {
        filled := filled + 1;
      }
    }
  }
}
