/** Largest-remainder apportionment of 10 000 basis points over cluster counts. */
module Apportionment {
  import opened Machine
  import opened Sorting

  const BP_FULL: nat := 10_000
  const MAX_ATTRIBUTIONS_PER_FOLD: nat := 32

  // ---- sums -------------------------------------------------------------------------------

  function Sum(s: seq<int>, n: nat): int
    requires n <= |s|
  {
    if n == 0 then 0 else Sum(s, n - 1) + s[n - 1]
  }

  /** `saturating_add` over the whole slice. */
  function SaturatingTotal(counts: seq<u64>, n: nat): u64
    requires n <= |counts|
  {
    if n == 0 then 0 else Min(SaturatingTotal(counts, n - 1) + counts[n - 1], U64_MAX)
  }

  lemma {:induction false} SaturatesAtMax(counts: seq<u64>, n: nat)
    requires n <= |counts|
    ensures SaturatingTotal(counts, n) == Min(Sum(counts, n), U64_MAX)
    ensures Sum(counts, n) >= 0
    ensures forall i :: 0 <= i < n ==> counts[i] <= SaturatingTotal(counts, n)
  {
    if n > 0 { SaturatesAtMax(counts, n - 1); }
  }

  // ---- quotas -------------------------------------------------------------------------------

  function Quota(count: nat, total: nat): nat
    requires total > 0
  {
    count * BP_FULL / total
  }

  function Remainder(count: nat, total: nat): nat
    requires total > 0
  {
    count * BP_FULL % total
  }

  lemma Division(count: nat, total: nat)
    requires total > 0
    ensures count * BP_FULL == total * Quota(count, total) + Remainder(count, total)
    ensures 0 <= Remainder(count, total) < total
  {
  }

  lemma MulOrder(x: int, y: int, z: nat)
    ensures x < y ==> z * x + z <= z * y
    ensures x <= y ==> z * x <= z * y
  {
    var d := y - x;
    assert z * y == z * x + z * d;
    if d >= 1 {
      MulNonNegative(z, d - 1);
      assert z * d == z * (d - 1) + z;
    }
  }

  lemma MulNonNegative(a: nat, b: nat)
    ensures a * b >= 0
  {
  }

  /** A count that is larger has the larger quota, or the same quota and the larger remainder. */
  lemma LargerCount(a: nat, b: nat, total: nat)
    requires total > 0 && a > b
    ensures || Quota(a, total) > Quota(b, total)
            || (Quota(a, total) == Quota(b, total) && Remainder(a, total) > Remainder(b, total))
  {
    Division(a, total);
    Division(b, total);
    MulOrder(Quota(a, total), Quota(b, total), total);
  }

  /** A quota reaches 10 000 only exactly. */
  lemma QuotaBound(count: nat, total: nat)
    requires total > 0 && count <= total
    ensures Quota(count, total) <= BP_FULL
    ensures Quota(count, total) == BP_FULL ==> Remainder(count, total) == 0
  {
    Division(count, total);
    MulOrder(BP_FULL, Quota(count, total), total);
    MulOrder(count, total, BP_FULL);
  }

  function Quotas(counts: seq<u64>, total: nat): (q: seq<int>)
    requires total > 0
    ensures |q| == |counts|
    ensures forall i :: 0 <= i < |q| ==> q[i] == Quota(counts[i], total)
  {
    seq(|counts|, i requires 0 <= i < |counts| => Quota(counts[i], total))
  }

  function Remainders(counts: seq<u64>, total: nat): (r: seq<int>)
    requires total > 0
    ensures |r| == |counts|
    ensures forall i :: 0 <= i < |r| ==> r[i] == Remainder(counts[i], total)
    ensures forall i :: 0 <= i < |r| ==> 0 <= r[i] < total
  {
    seq(|counts|, i requires 0 <= i < |counts| => Remainder(counts[i], total))
  }

  lemma {:induction false} QuotasAndRemainders(counts: seq<u64>, total: nat, n: nat)
    requires total > 0 && n <= |counts|
    ensures Sum(counts, n) * BP_FULL == total * Sum(Quotas(counts, total), n) + Sum(Remainders(counts, total), n)
    ensures Sum(Quotas(counts, total), n) >= 0
  {
    hide Quota, Remainder;
    if n > 0 {
      QuotasAndRemainders(counts, total, n - 1);
      Division(counts[n - 1], total);
      Distribute(total, Sum(Quotas(counts, total), n - 1), Quota(counts[n - 1], total));
    }
  }

  lemma Distribute(a: int, b: int, c: int)
    ensures a * (b + c) == a * b + a * c
  {
  }

  /** How many of the first `n` remainders are non-zero. */
  function NonZero(r: seq<int>, n: nat): (z: nat)
    requires n <= |r|
    ensures z <= n
  {
    if n == 0 then 0 else NonZero(r, n - 1) + if r[n - 1] != 0 then 1 else 0
  }

  lemma OneMore(z: nat, bound: nat, x: int)
    requires 0 <= x <= bound
    ensures z * bound + x <= (z + if x != 0 then 1 else 0) * bound
  {
    Distribute(bound, z, 1);
  }

  lemma {:induction false} RemaindersAreSmall(r: seq<int>, total: nat, n: nat)
    requires n <= |r| && total > 0 && forall i :: 0 <= i < |r| ==> 0 <= r[i] < total
    ensures 0 <= Sum(r, n) <= NonZero(r, n) * (total - 1)
  {
    if n > 0 {
      RemaindersAreSmall(r, total, n - 1);
      OneMore(NonZero(r, n - 1), total - 1, r[n - 1]);
    }
  }

  // ---- who is bumped ------------------------------------------------------------------------

  /** Positions by remainder descending, then index ascending. */
  datatype Item = Item(rem: int, idx: nat)

  predicate Precedes(a: Item, b: Item) {
    a.rem > b.rem || (a.rem == b.rem && a.idx <= b.idx)
  }

  function Items(r: seq<int>): (items: seq<Item>)
    ensures |items| == |r|
    ensures forall i :: 0 <= i < |r| ==> items[i] == Item(r[i], i)
  {
    seq(|r|, i requires 0 <= i < |r| => Item(r[i], i))
  }

  function Order(r: seq<int>): (o: seq<Item>)
    ensures |o| == |r|
  {
    Sort(Items(r), Precedes)
  }

  lemma OrderFacts(r: seq<int>)
    ensures SortedBy(Order(r), Precedes)
    ensures Distinct(Order(r))
    ensures forall k :: 0 <= k < |r| ==> Order(r)[k].idx < |r| && Order(r)[k].rem == r[Order(r)[k].idx]
    ensures forall i :: 0 <= i < |r| ==> Item(r[i], i) in Order(r)
  {
    var items := Items(r);
    SortSorts(items, Precedes) by { assert TotalPreorder(Precedes); }
    SameElements(items, Order(r));
    PermutationKeepsDistinct(items, Order(r));
    forall k | 0 <= k < |r| ensures Order(r)[k].idx < |r| && Order(r)[k].rem == r[Order(r)[k].idx] {
      assert Order(r)[k] in items;
    }
    forall i | 0 <= i < |r| ensures Item(r[i], i) in Order(r) {
      assert items[i] in items;
    }
  }

  // ---- the deficit is smaller than the number of non-zero remainders -------------------------

  function FlooredSum(counts: seq<u64>): int
    requires SaturatingTotal(counts, |counts|) > 0
  {
    Sum(Quotas(counts, SaturatingTotal(counts, |counts|)), |counts|)
  }

  function Deficit(counts: seq<u64>): nat
    requires SaturatingTotal(counts, |counts|) > 0
  {
    Max(0, BP_FULL - FlooredSum(counts))
  }

  /** With `g * full <= g * floored + rest` and `rest <= z * (g - 1)`, what is left of `full`
      is nothing or less than `z`. */
  lemma DeficitArithmetic(g: nat, full: int, floored: int, rest: int, z: nat)
    requires g > 0 && g * full <= g * floored + rest && 0 <= rest <= z * (g - 1)
    ensures full - floored <= 0 || full - floored < z
  {
    var d := full - floored;
    assert g * full == g * floored + g * d by { Distribute(g, floored, d); }
    assert z * (g - 1) == g * z - z;
    MulOrder(z, d, g);
    MulOrder(0, d, g);
    if d >= z {
      assert g * z <= g * d;
      assert z == 0;
    }
  }

  lemma DeficitIsCovered(counts: seq<u64>)
    requires SaturatingTotal(counts, |counts|) > 0
    ensures var g := SaturatingTotal(counts, |counts|);
            Deficit(counts) == 0 || Deficit(counts) < NonZero(Remainders(counts, g), |counts|)
  {
    hide Quotas, Remainders;
    var n, g := |counts|, SaturatingTotal(counts, |counts|);
    SaturatesAtMax(counts, n);
    QuotasAndRemainders(counts, g, n);
    RemaindersAreSmall(Remainders(counts, g), g, n);
    DeficitArithmetic(g, BP_FULL, FlooredSum(counts), Sum(Remainders(counts, g), n), NonZero(Remainders(counts, g), n));
  }

  /** While the total fits in 64 bits the floors never exceed 10 000. */
  lemma FloorsFit(counts: seq<u64>)
    requires 0 < Sum(counts, |counts|) <= U64_MAX
    ensures SaturatingTotal(counts, |counts|) == Sum(counts, |counts|)
    ensures FlooredSum(counts) <= BP_FULL
  {
    hide Quotas, Remainders;
    var n, g := |counts|, SaturatingTotal(counts, |counts|);
    SaturatesAtMax(counts, n);
    QuotasAndRemainders(counts, g, n);
    RemaindersAreSmall(Remainders(counts, g), g, n);
    MulOrder(BP_FULL, FlooredSum(counts), g);
  }

  // ---- weights ------------------------------------------------------------------------------

  /** The weights after the first `k` bumps. */
  function Bump(w: seq<int>, o: seq<Item>, k: nat): (r: seq<int>)
    requires k <= |o| && forall j :: 0 <= j < |o| ==> o[j].idx < |w|
    ensures |r| == |w|
  {
    if k == 0 then w
    else
      var s := Bump(w, o, k - 1);
      s[o[k - 1].idx := s[o[k - 1].idx] + 1]
  }

  lemma {:induction false} SumUpdate(s: seq<int>, j: nat, n: nat)
    requires j < |s| && n <= |s|
    ensures Sum(s[j := s[j] + 1], n) == Sum(s, n) + if j < n then 1 else 0
  {
    if n > 0 { SumUpdate(s, j, n - 1); }
  }

  lemma {:induction false} SumBump(w: seq<int>, o: seq<Item>, k: nat)
    requires k <= |o| && forall j :: 0 <= j < |o| ==> o[j].idx < |w|
    ensures Sum(Bump(w, o, k), |w|) == Sum(w, |w|) + k
  {
    if k > 0 {
      SumBump(w, o, k - 1);
      SumUpdate(Bump(w, o, k - 1), o[k - 1].idx, |w|);
    }
  }

  ghost predicate Among(o: seq<Item>, k: nat, i: nat)
    requires k <= |o|
  {
    exists j :: 0 <= j < k && o[j].idx == i
  }

  /** Each of the first `k` is raised by one, and nobody twice. */
  lemma {:induction false} BumpRaisesOnce(w: seq<int>, o: seq<Item>, k: nat, i: nat)
    requires k <= |o| && i < |w| && forall j :: 0 <= j < |o| ==> o[j].idx < |w|
    requires forall a, b :: 0 <= a < b < |o| ==> o[a].idx != o[b].idx
    ensures Bump(w, o, k)[i] == w[i] + if Among(o, k, i) then 1 else 0
  {
    if k > 0 {
      BumpRaisesOnce(w, o, k - 1, i);
      assert Among(o, k, i) <==> (Among(o, k - 1, i) || o[k - 1].idx == i);
    }
  }

  lemma OrderIdxDistinct(r: seq<int>)
    ensures forall a, b :: 0 <= a < b < |r| ==> Order(r)[a].idx != Order(r)[b].idx
  {
    hide Order;
    OrderFacts(r);
    var o := Order(r);
    forall a, b | 0 <= a < b < |r| ensures o[a].idx != o[b].idx {
      assert o[a] != o[b];
    }
  }

  /** The basis-point weights. */
  function Weights(counts: seq<u64>): (w: seq<int>)
    ensures |w| == |counts|
  {
    var n, g := |counts|, SaturatingTotal(counts, |counts|);
    if g == 0 then seq(n, _ => 0)
    else
      var r := Remainders(counts, g);
      OrderFacts(r);
      Bump(Quotas(counts, g), Order(r), Min(Deficit(counts), n))
  }

  /** The weights sum to exactly 10 000 if and only if the floored quotas do not already exceed
      it, which is the case whenever the counts sum to something that fits in 64 bits. */
  lemma WeightsSumIff(counts: seq<u64>)
    requires Sum(counts, |counts|) > 0
    ensures SaturatingTotal(counts, |counts|) > 0
    ensures Sum(Weights(counts), |counts|) == BP_FULL <==> FlooredSum(counts) <= BP_FULL
    ensures Sum(counts, |counts|) <= U64_MAX ==> Sum(Weights(counts), |counts|) == BP_FULL
  {
    hide Quotas, Remainders, Order, Sum;
    var n, g := |counts|, SaturatingTotal(counts, |counts|);
    SaturatesAtMax(counts, n);
    var r := Remainders(counts, g);
    OrderFacts(r);
    DeficitIsCovered(counts);
    SumBump(Quotas(counts, g), Order(r), Min(Deficit(counts), n));
    if Sum(counts, n) <= U64_MAX { FloorsFit(counts); }
  }

  /** Two counts of 2^64 - 1 saturate the total, and each gets the full 10 000. */
  lemma SaturationExample()
    ensures Sum(Weights([U64_MAX, U64_MAX]), 2) == 20_000
  {
    var counts: seq<u64> := [U64_MAX, U64_MAX];
    SaturatesAtMax(counts, 2);
    assert Sum(counts, 2) == 2 * U64_MAX by { assert Sum(counts, 1) == U64_MAX; }
    var q := Quotas(counts, U64_MAX);
    assert q[0] == BP_FULL && q[1] == BP_FULL;
    assert Sum(q, 2) == 20_000 by { assert Sum(q, 1) == BP_FULL; }
  }

  lemma {:induction false} NonZeroIsCardinality(r: seq<int>, n: nat)
    requires n <= |r|
    ensures NonZero(r, n) == |set i | 0 <= i < n && r[i] != 0|
  {
    if n > 0 {
      NonZeroIsCardinality(r, n - 1);
      var before, now := (set i | 0 <= i < n - 1 && r[i] != 0), (set i | 0 <= i < n && r[i] != 0);
      assert now == if r[n - 1] != 0 then before + {n - 1} else before;
    }
  }

  ghost function FirstIdx(o: seq<Item>, k: nat): (s: set<int>)
    requires k <= |o|
    ensures |s| <= k
    ensures forall j :: 0 <= j < k ==> o[j].idx in s
  {
    if k == 0 then {} else FirstIdx(o, k - 1) + {o[k - 1].idx}
  }

  lemma InOrder(o: seq<Item>, k: nat, j: nat)
    requires SortedBy(o, Precedes) && k < |o| && j < |o|
    ensures k < j ==> Precedes(o[k], o[j])
  {
  }

  /** A position whose remainder is zero comes after every non-zero one. */
  lemma ZeroComesLast(r: seq<int>, k: nat)
    requires k < |r| && (forall i :: 0 <= i < |r| ==> r[i] >= 0) && Order(r)[k].rem == 0
    ensures NonZero(r, |r|) <= k
  {
    hide Order, NonZero, FirstIdx;
    OrderFacts(r);
    NonZeroIsCardinality(r, |r|);
    var o := Order(r);
    var nz := set i | 0 <= i < |r| && r[i] != 0;
    forall i | i in nz ensures i in FirstIdx(o, k) {
      assert Item(r[i], i) in o;
      var j :| 0 <= j < |o| && o[j] == Item(r[i], i);
      InOrder(o, k, j);
    }
    SubsetSize(nz, FirstIdx(o, k));
  }

  /** Each weight is its floored quota or one more, and an exact quota is never raised. */
  lemma WeightIsFloorOrOneMore(counts: seq<u64>, i: nat)
    requires i < |counts| && SaturatingTotal(counts, |counts|) > 0
    ensures var g := SaturatingTotal(counts, |counts|);
            var w := Weights(counts)[i];
            && (w == Quota(counts[i], g) || w == Quota(counts[i], g) + 1)
            && (Remainder(counts[i], g) == 0 ==> w == Quota(counts[i], g))
  {
    hide Quota, Remainder, Order;
    var n, g := |counts|, SaturatingTotal(counts, |counts|);
    var r := Remainders(counts, g);
    var d := Min(Deficit(counts), n);
    OrderFacts(r);
    OrderIdxDistinct(r);
    BumpRaisesOnce(Quotas(counts, g), Order(r), d, i);
    DeficitIsCovered(counts);
    if Among(Order(r), d, i) {
      var k :| 0 <= k < d && Order(r)[k].idx == i;
      if r[i] == 0 { ZeroComesLast(r, k); }
    }
  }

  /** Entry `i` has more than its floored quota. */
  predicate IsRaised(counts: seq<u64>, w: seq<int>, i: nat)
    requires i < |counts| == |w| && SaturatingTotal(counts, |counts|) > 0
  {
    w[i] > Quota(counts[i], SaturatingTotal(counts, |counts|))
  }

  /** Every raised entry has a larger remainder than every entry that is not, or the same remainder and
      an earlier place. */
  ghost predicate RaisesLargestRemainders(counts: seq<u64>, w: seq<int>)
    requires |counts| == |w| && SaturatingTotal(counts, |counts|) > 0
  {
    var g := SaturatingTotal(counts, |counts|);
    forall a: nat, b: nat :: a < |counts| && b < |counts| && IsRaised(counts, w, b) && !IsRaised(counts, w, a) ==>
      || Remainder(counts[b], g) > Remainder(counts[a], g)
      || (Remainder(counts[b], g) == Remainder(counts[a], g) && b < a)
  }

  ghost function RaisedSet(counts: seq<u64>, w: seq<int>): set<nat>
    requires |counts| == |w| && SaturatingTotal(counts, |counts|) > 0
  {
    set i: nat | i < |counts| && IsRaised(counts, w, i)
  }

  /** What the method of largest remainders gives: floors, and one point more for exactly as many entries
      as are missing to 10 000, those with the largest remainders. */
  ghost predicate IsLargestRemainder(counts: seq<u64>, w: seq<int>)
    requires |counts| == |w| && SaturatingTotal(counts, |counts|) > 0
  {
    var g := SaturatingTotal(counts, |counts|);
    && (forall i :: 0 <= i < |w| ==> w[i] == Quota(counts[i], g) || w[i] == Quota(counts[i], g) + 1)
    && RaisesLargestRemainders(counts, w)
    && |RaisedSet(counts, w)| == Max(0, BP_FULL - Sum(Quotas(counts, g), |counts|))
  }

  lemma RaisedMeansAmong(counts: seq<u64>, i: nat)
    requires i < |counts| && SaturatingTotal(counts, |counts|) > 0
    ensures var g := SaturatingTotal(counts, |counts|);
            var d := Min(Deficit(counts), |counts|);
            IsRaised(counts, Weights(counts), i) <==> Among(Order(Remainders(counts, g)), d, i)
  {
    hide Quota, Remainder, Order;
    var g := SaturatingTotal(counts, |counts|);
    var r := Remainders(counts, g);
    OrderFacts(r);
    OrderIdxDistinct(r);
    BumpRaisesOnce(Quotas(counts, g), Order(r), Min(Deficit(counts), |counts|), i);
  }

  lemma AmongComesFirst(r: seq<int>, d: nat, a: nat, b: nat)
    requires d <= |r| && a < |r| && b < |r| && Among(Order(r), d, b) && !Among(Order(r), d, a)
    ensures r[b] > r[a] || (r[b] == r[a] && b < a)
  {
    hide Order;
    OrderFacts(r);
    var o := Order(r);
    var k :| 0 <= k < d && o[k].idx == b;
    assert Item(r[a], a) in o;
    var j :| 0 <= j < |o| && o[j] == Item(r[a], a);
    assert j >= d && Precedes(o[k], o[j]);
  }

  ghost function AmongSet(o: seq<Item>, d: nat, n: nat): set<nat>
    requires d <= |o|
  {
    set i: nat | i < n && Among(o, d, i)
  }

  lemma {:induction false} AmongCardinality(o: seq<Item>, d: nat, n: nat)
    requires d <= |o| && (forall j :: 0 <= j < |o| ==> o[j].idx < n)
    requires forall a, b :: 0 <= a < b < |o| ==> o[a].idx != o[b].idx
    ensures |AmongSet(o, d, n)| == d
  {
    if d == 0 {
      assert AmongSet(o, d, n) == {};
    } else {
      AmongCardinality(o, d - 1, n);
      var last := o[d - 1].idx;
      forall i: nat ensures Among(o, d, i) <==> Among(o, d - 1, i) || i == last {
        if i == last { assert o[d - 1].idx == i; }
      }
      assert !Among(o, d - 1, last);
      assert AmongSet(o, d, n) == AmongSet(o, d - 1, n) + {last};
    }
  }

  lemma RaisedInOrder(counts: seq<u64>)
    requires SaturatingTotal(counts, |counts|) > 0
    ensures RaisesLargestRemainders(counts, Weights(counts))
  {
    hide Quota, Remainder, Order, Weights, Among, IsRaised, Deficit;
    var r, d := Remainders(counts, SaturatingTotal(counts, |counts|)), Min(Deficit(counts), |counts|);
    var w := Weights(counts);
    forall a: nat, b: nat | a < |counts| && b < |counts| && IsRaised(counts, w, b) && !IsRaised(counts, w, a)
      ensures r[b] > r[a] || (r[b] == r[a] && b < a)
    {
      RaisedMeansAmong(counts, a);
      RaisedMeansAmong(counts, b);
      AmongComesFirst(r, d, a, b);
    }
  }

  lemma RaisedAreDeficit(counts: seq<u64>)
    requires SaturatingTotal(counts, |counts|) > 0
    ensures |RaisedSet(counts, Weights(counts))| == Deficit(counts)
  {
    hide Quotas, Remainders, Order, Weights, Among, IsRaised, Deficit, NonZero;
    var r, d := Remainders(counts, SaturatingTotal(counts, |counts|)), Min(Deficit(counts), |counts|);
    DeficitIsCovered(counts);
    OrderFacts(r);
    OrderIdxDistinct(r);
    AmongCardinality(Order(r), d, |counts|);
    forall i: nat | i < |counts| ensures IsRaised(counts, Weights(counts), i) <==> Among(Order(r), d, i) {
      RaisedMeansAmong(counts, i);
    }
    assert RaisedSet(counts, Weights(counts)) == AmongSet(Order(r), d, |counts|);
  }

  /** The weights are those of the method of largest remainders; all are zero when all counts are. */
  lemma WeightsAreLargestRemainder(counts: seq<u64>)
    ensures SaturatingTotal(counts, |counts|) > 0 ==> IsLargestRemainder(counts, Weights(counts))
    ensures SaturatingTotal(counts, |counts|) == 0 ==> forall i :: 0 <= i < |counts| ==> Weights(counts)[i] == 0
  {
    if SaturatingTotal(counts, |counts|) > 0 {
      hide Quota, Weights, RaisesLargestRemainders, RaisedSet, Quotas, SaturatingTotal;
      forall i | 0 <= i < |counts|
        ensures var q := Quota(counts[i], SaturatingTotal(counts, |counts|));
                Weights(counts)[i] == q || Weights(counts)[i] == q + 1
      {
        WeightIsFloorOrOneMore(counts, i);
      }
      RaisedInOrder(counts);
      RaisedAreDeficit(counts);
    }
  }

  /** No weight exceeds 10 000, so none is cut short by its 32-bit field, whatever the counts. */
  lemma WeightAtMostFull(counts: seq<u64>, i: nat)
    requires i < |counts|
    ensures 0 <= Weights(counts)[i] <= BP_FULL
  {
    var g := SaturatingTotal(counts, |counts|);
    if g > 0 {
      hide Weights, Quota, Remainder;
      SaturatesAtMax(counts, |counts|);
      QuotaBound(counts[i], g);
      WeightIsFloorOrOneMore(counts, i);
    }
  }

  /** A larger count never gets a smaller weight, nor does an equal count listed earlier. */
  lemma WeightsFollowCounts(counts: seq<u64>, a: nat, b: nat)
    requires a < |counts| && b < |counts|
    requires counts[a] > counts[b] || (counts[a] == counts[b] && a < b)
    ensures Weights(counts)[a] >= Weights(counts)[b]
  {
    var n, g := |counts|, SaturatingTotal(counts, |counts|);
    if g > 0 {
      hide Quota, Remainder, Order;
      var r := Remainders(counts, g);
      var d := Min(Deficit(counts), n);
      OrderFacts(r);
      OrderIdxDistinct(r);
      BumpRaisesOnce(Quotas(counts, g), Order(r), d, a);
      BumpRaisesOnce(Quotas(counts, g), Order(r), d, b);
      if counts[a] > counts[b] { LargerCount(counts[a], counts[b], g); }
      if Among(Order(r), d, b) && Quota(counts[a], g) == Quota(counts[b], g) {
        BumpedBefore(r, d, a, b);
      }
    }
  }

  lemma BumpedBefore(r: seq<int>, d: nat, a: nat, b: nat)
    requires d <= |r| && a < |r| && b < |r| && Among(Order(r), d, b)
    requires r[a] > r[b] || (r[a] == r[b] && a < b)
    ensures Among(Order(r), d, a)
  {
    hide Order;
    OrderFacts(r);
    var o := Order(r);
    var k :| 0 <= k < d && o[k].idx == b;
    assert Item(r[a], a) in o;
    var j :| 0 <= j < |o| && o[j] == Item(r[a], a);
    InOrder(o, k, j);
  }

  // ---- in place --------------------------------------------------------------------------------

  /** A per-cluster attribution; `weight` is in basis points. */
  datatype Attribution = Attribution(clusterId: Bytes, count: u64, weight: u32)

  function Counts(attrs: seq<Attribution>): (c: seq<u64>)
    ensures |c| == |attrs|
    ensures forall i :: 0 <= i < |c| ==> c[i] == attrs[i].count
  {
    seq(|attrs|, i requires 0 <= i < |attrs| => attrs[i].count)
  }

  function WeightsOf(attrs: seq<Attribution>): (w: seq<int>)
    ensures |w| == |attrs|
    ensures forall i :: 0 <= i < |w| ==> w[i] == attrs[i].weight
  {
    seq(|attrs|, i requires 0 <= i < |attrs| => attrs[i].weight)
  }

  /** Only the weights of `s` change, to `w`. */
  ghost predicate Reweighted(s: seq<Attribution>, was: seq<Attribution>, w: seq<int>) {
    && |s| == |was| == |w|
    && forall i :: 0 <= i < |s| ==> 0 <= w[i] <= U32_MAX && s[i] == was[i].(weight := w[i])
  }

  method TotalCount(attrs: array<Attribution>) returns (total: u64)
    ensures total == SaturatingTotal(Counts(attrs[..]), attrs.Length)
  {
    total := 0;
    for i := 0 to attrs.Length
      invariant total == SaturatingTotal(Counts(attrs[..]), i)
    {
      total := Min(total + attrs[i].count, U64_MAX);
    }
  }

  /** Set every weight to its floored quota, which fits its 32 bits; return the remainders and the
      sum of the floors. */
  method FloorQuotas(attrs: array<Attribution>, total: nat, ghost counts: seq<u64>)
    returns (rem: seq<int>, floored: int)
    requires total > 0 && counts == Counts(attrs[..]) && forall i :: 0 <= i < |counts| ==> counts[i] <= total
    modifies attrs
    ensures rem == Remainders(counts, total)
    ensures floored == Sum(Quotas(counts, total), |counts|) && 0 <= floored <= BP_FULL * |counts|
    ensures Reweighted(attrs[..], old(attrs[..]), Quotas(counts, total))
  {
    hide Quota, Remainder;
    rem, floored := [], 0;
    for i := 0 to attrs.Length
      invariant |rem| == i && forall k :: 0 <= k < i ==> rem[k] == Remainder(counts[k], total)
      invariant floored == Sum(Quotas(counts, total), i) && 0 <= floored <= BP_FULL * i
      invariant forall k :: 0 <= k < i ==>
                  Quota(counts[k], total) <= U32_MAX && attrs[k] == old(attrs[k]).(weight := Quota(counts[k], total))
      invariant forall k :: i <= k < attrs.Length ==> attrs[k] == old(attrs[k])
    {
      assert attrs[i].count == counts[i];
      QuotaBound(counts[i], total);
      rem := rem + [Remainder(attrs[i].count, total)];
      floored := floored + Quota(attrs[i].count, total);
      attrs[i] := attrs[i].(weight := Quota(attrs[i].count, total));
    }
  }

  /** Hand the deficit out, one point each, in the order of the remainders; no addition saturates. */
  method BumpFirst(attrs: array<Attribution>, o: seq<Item>, k: nat, ghost w: seq<int>, ghost was: seq<Attribution>)
    requires k <= |o| && (forall j :: 0 <= j < |o| ==> o[j].idx < attrs.Length)
    requires forall a, b :: 0 <= a < b < |o| ==> o[a].idx != o[b].idx
    requires Reweighted(attrs[..], was, w) && forall i :: 0 <= i < |w| ==> w[i] <= BP_FULL
    modifies attrs
    ensures |w| == attrs.Length && Reweighted(attrs[..], was, Bump(w, o, k))
  {
    for j := 0 to k
      invariant Reweighted(attrs[..], was, Bump(w, o, j))
    {
      var i := o[j].idx;
      ghost var s := attrs[..];
      assert attrs[i] == s[i];
      BumpRaisesOnce(w, o, j, i);
      attrs[i] := attrs[i].(weight := Min(attrs[i].weight + 1, U32_MAX));
      assert attrs[..] == s[i := s[i].(weight := s[i].weight + 1)];
    }
  }

  method ClearWeights(attrs: array<Attribution>)
    modifies attrs
    ensures forall k :: 0 <= k < attrs.Length ==> attrs[k] == old(attrs[k]).(weight := 0)
  {
    for i := 0 to attrs.Length
      invariant forall k :: 0 <= k < i ==> attrs[k] == old(attrs[k]).(weight := 0)
      invariant forall k :: i <= k < attrs.Length ==> attrs[k] == old(attrs[k])
    {
      attrs[i] := attrs[i].(weight := 0);
    }
  }

  /** The weights an attribution list holds are the largest-remainder ones for its counts. */
  ghost predicate Apportioned(counts: seq<u64>, w: seq<int>)
    requires |counts| == |w|
  {
    if SaturatingTotal(counts, |counts|) > 0 then IsLargestRemainder(counts, w)
    else forall i :: 0 <= i < |w| ==> w[i] == 0
  }

  lemma ReweightedIsApportioned(s: seq<Attribution>, was: seq<Attribution>)
    requires Reweighted(s, was, Weights(Counts(was)))
    ensures Apportioned(Counts(was), WeightsOf(s))
  {
    hide Weights, IsLargestRemainder, SaturatingTotal;
    WeightsAreLargestRemainder(Counts(was));
    assert WeightsOf(s) == Weights(Counts(was));
  }

  /** Normalise the weights of at most 32 attributions, leaving ids and counts alone. */
  method NormalizeWeights(attrs: array<Attribution>)
    requires attrs.Length <= MAX_ATTRIBUTIONS_PER_FOLD
    modifies attrs
    ensures Reweighted(attrs[..], old(attrs[..]), Weights(Counts(old(attrs[..]))))
    ensures Apportioned(Counts(old(attrs[..])), WeightsOf(attrs[..]))
  {
    hide IsLargestRemainder, Apportioned;
    ghost var was := attrs[..];
    ghost var counts := Counts(was);
    var total := TotalCount(attrs);
    if total == 0 {
      ClearWeights(attrs);
      ReweightedIsApportioned(attrs[..], was);
      return;
    }
    SaturatesAtMax(counts, |counts|);
    forall i | 0 <= i < |counts| ensures Quota(counts[i], total) <= BP_FULL { QuotaBound(counts[i], total); }
    hide Quota, Remainder, Order, Sum, Bump, SaturatingTotal;
    var rem, floored := FloorQuotas(attrs, total, counts);
    var deficit := Max(0, BP_FULL - floored);
    OrderFacts(rem);
    OrderIdxDistinct(rem);
    BumpFirst(attrs, Order(rem), Min(deficit, attrs.Length), Quotas(counts, total), was);
    ReweightedIsApportioned(attrs[..], was);
  }
}
