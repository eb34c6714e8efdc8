/** The fair lane is stake-blind: which lanes the draws can give, and how often each candidate is in one. */
module FairLaneDraw {
  import opened Machine
  import opened Sorting
  import opened FisherYates
  import opened FaultMarket
  import opened EpochPenalties

  /** The candidates in rank order. */
  function Ranked(m: Market): seq<FaultEntry> {
    Sort(m.entries, Before)
  }

  /** The candidates outside the stake lane. */
  function Remainder(m: Market): seq<FaultEntry> {
    SortIsAsLong(m);
    Ranked(m)[StakeLane(|m.entries|)..]
  }

  lemma SortIsAsLong(m: Market)
    ensures |Ranked(m)| == |m.entries|
  {
  }

  lemma RankedDistinct(m: Market)
    requires DistinctIds(m.entries)
    ensures Distinct(Ranked(m))
  {
    hide Sort, Before, DistinctIds, Separates, Distinct;
    BeforeSeparates(m.entries);
    PermutationKeepsDistinct(m.entries, Ranked(m));
  }

  /** Whatever the draws, the fair lane is what one choice of its full length picks from the remainder,
      and only that choice. */
  lemma FairLaneIsChoice(m: Market, fair: Draws) returns (js: seq<nat>)
    requires DistinctIds(m.entries)
    ensures |js| == FairLane(|m.entries|)
    ensures IsFrontOf(Ranked(m), StakeLane(|m.entries|), js, Slashed(m, fair)[StakeLane(|m.entries|)..])
    ensures forall ks: seq<nat> ::
              IsFrontOf(Ranked(m), StakeLane(|m.entries|), ks, Slashed(m, fair)[StakeLane(|m.entries|)..]) ==> ks == js
  {
    hide Sort, Before, DistinctIds, Distinct, Shuffle, Sample, IsChoice;
    var lane, ranked := StakeLane(|m.entries|), Ranked(m);
    SortIsAsLong(m);
    js := DrawsAreChoice(ranked, lane, fair, 0, FairLane(|m.entries|));
    RankedDistinct(m);
    var front := Slashed(m, fair)[lane..];
    forall ks: seq<nat> | IsFrontOf(ranked, lane, ks, front) ensures ks == js {
      FrontDeterminesChoice(ranked, lane, js, ks, front);
    }
  }

  /** Every ordered list of as many different candidates from the remainder is the fair lane of some
      stream of draws. */
  lemma EveryFairLaneArises(m: Market, front: seq<FaultEntry>) returns (fair: Draws)
    requires |m.entries| <= MAX_FAULT_MARKET && Distinct(front) && |front| == FairLane(|m.entries|)
    requires forall e :: e in front ==> e in Remainder(m)
    ensures Slashed(m, fair)[StakeLane(|m.entries|)..] == front
  {
    hide Sort, Before, Distinct, Shuffle, Sample, IsChoice, Replay;
    var lane, ranked := StakeLane(|m.entries|), Ranked(m);
    SortIsAsLong(m);
    var js := EveryFrontArises(ranked, lane, front);
    fair := Replay(js);
    assert js[0..] == js;
    ChoiceIsDrawn(ranked, lane, js, 0);
  }

  // ---- listing the choices ------------------------------------------------------------------------------

  type Choice = seq<nat>

  /** `j` in front of each of `cs`. */
  function Block(j: nat, cs: seq<Choice>): (r: seq<Choice>)
    ensures |r| == |cs|
    ensures forall i :: 0 <= i < |r| ==> r[i] == [j] + cs[i]
  {
    seq(|cs|, i requires 0 <= i < |cs| => [j] + cs[i])
  }

  function Blocks(n: nat, cs: seq<Choice>): seq<Choice> {
    if n == 0 then [] else Blocks(n - 1, cs) + Block(n - 1, cs)
  }

  /** All choices of `k` out of `n`. */
  function Choices(n: nat, k: nat): seq<Choice>
    requires k <= n
  {
    if k == 0 then [[]] else Blocks(n, Choices(n - 1, k - 1))
  }

  function Is(js: Choice): Choice -> bool {
    (c: Choice) => c == js
  }

  lemma BlockGrows(j: nat, cs: seq<Choice>)
    requires cs != []
    ensures Block(j, cs) == Block(j, cs[..|cs| - 1]) + [[j] + cs[|cs| - 1]]
  {
  }

  /** Counting a block is counting what stands behind its first draw. */
  lemma {:induction false} BlockCount(j: nat, cs: seq<Choice>, p: Choice -> bool, q: Choice -> bool)
    requires forall c :: c in cs ==> (p([j] + c) <==> q(c))
    ensures Count(Block(j, cs), p) == Count(cs, q)
  {
    if cs == [] {
      assert Block(j, cs) == [];
    } else {
      var rest, c := cs[..|cs| - 1], cs[|cs| - 1];
      BlockCount(j, rest, p, q);
      BlockGrows(j, cs);
      CountNext(Block(j, rest), [j] + c, p);
      assert c in cs;
    }
  }

  lemma BlocksStep(n: nat, cs: seq<Choice>, p: Choice -> bool)
    requires n > 0
    ensures Count(Blocks(n, cs), p) == Count(Blocks(n - 1, cs), p) + Count(Block(n - 1, cs), p)
  {
    hide Count;
    CountConcat(Blocks(n - 1, cs), Block(n - 1, cs), p);
  }

  lemma TimesNext(a: nat, b: nat)
    ensures (a + 1) * b == a * b + b
  {
  }

  lemma {:induction false} BlocksLength(n: nat, cs: seq<Choice>)
    ensures |Blocks(n, cs)| == n * |cs|
  {
    if n > 0 {
      BlocksLength(n - 1, cs);
      TimesNext(n - 1, |cs|);
    }
  }

  lemma {:induction false} BlocksOnly(n: nat, cs: seq<Choice>, js: Choice)
    requires js != []
    ensures Count(Blocks(n, cs), Is(js)) == if js[0] < n then Count(cs, Is(js[1..])) else 0
  {
    hide Block;
    if n > 0 {
      BlocksOnly(n - 1, cs, js);
      BlocksStep(n, cs, Is(js));
      BlockOnly(n - 1, cs, js);
    }
  }

  lemma BlockOnly(j: nat, cs: seq<Choice>, js: Choice)
    requires js != []
    ensures Count(Block(j, cs), Is(js)) == if js[0] == j then Count(cs, Is(js[1..])) else 0
  {
    hide Count, Block;
    if js[0] == j {
      forall c | c in cs ensures Is(js)([j] + c) <==> Is(js[1..])(c) {
        if [j] + c == js { assert c == js[1..]; }
        if c == js[1..] { assert [j] + c == js; }
      }
      BlockCount(j, cs, Is(js), Is(js[1..]));
    } else {
      BlockCount(j, cs, Is(js), Never());
      CountNone(cs, Never());
    }
  }

  function Never(): Choice -> bool {
    (c: Choice) => false
  }

  lemma {:induction false} BlocksNonEmpty(n: nat, cs: seq<Choice>)
    ensures forall c :: c in Blocks(n, cs) ==> c != []
  {
    if n > 0 { BlocksNonEmpty(n - 1, cs); }
  }

  /** Every choice is listed exactly once, and nothing else is. */
  lemma {:induction false} ChoicesListEachOnce(n: nat, k: nat, js: Choice)
    requires k <= n
    ensures Count(Choices(n, k), Is(js)) == if |js| == k && IsChoice(js, n) then 1 else 0
    decreases k
  {
    hide Count, Blocks;
    if k == 0 {
      CountOne([], Is(js));
    } else if js == [] {
      BlocksNonEmpty(n, Choices(n - 1, k - 1));
      CountNone(Choices(n, k), Is(js));
    } else {
      ChoicesListEachOnce(n - 1, k - 1, js[1..]);
      BlocksOnly(n, Choices(n - 1, k - 1), js);
      if js[0] < n && IsChoice(js[1..], n - 1) {
        assert js == [js[0]] + js[1..];
        ConsIsChoice(js[0], js[1..], n);
      }
    }
  }

  // ---- how often a candidate is chosen ------------------------------------------------------------------

  /** The choice puts `x` at one of the `k` places from `p` on. */
  predicate Puts(s: seq<FaultEntry>, p: nat, k: nat, x: FaultEntry, js: Choice) {
    exists i :: p <= i < p + k && i < |s| && Shuffle(s, p, js)[i] == x
  }

  function InFront(s: seq<FaultEntry>, p: nat, k: nat, x: FaultEntry): Choice -> bool {
    (js: Choice) => Puts(s, p, k, x, js)
  }

  lemma ShuffleCons(s: seq<FaultEntry>, p: nat, j: nat, c: Choice)
    requires p + j < |s|
    ensures Shuffle(s, p, [j] + c) == Shuffle(Swap(s, p, p + j), p + 1, c)
    ensures Shuffle(s, p, [j] + c)[p] == s[p + j]
  {
    assert ([j] + c)[1..] == c;
    hide Shuffle;
    ShuffleKeepsPrefix(Swap(s, p, p + j), p + 1, c, p);
    ShuffleOnce(s, p, [j] + c);
  }

  lemma ShuffleOnce(s: seq<FaultEntry>, p: nat, js: Choice)
    requires js != [] && p + js[0] < |s|
    ensures Shuffle(s, p, js) == Shuffle(Swap(s, p, p + js[0]), p + 1, js[1..])
  {
  }

  /** The first draw takes `x`, or leaves it to the others. */
  lemma PutsCons(s: seq<FaultEntry>, p: nat, k: nat, x: FaultEntry, j: nat, c: Choice)
    requires k > 0 && p + j < |s|
    ensures Puts(s, p, k, x, [j] + c) <==> s[p + j] == x || Puts(Swap(s, p, p + j), p + 1, k - 1, x, c)
  {
    hide Shuffle, Swap;
    ShuffleCons(s, p, j, c);
    var r := Shuffle(s, p, [j] + c);
    if Puts(s, p, k, x, [j] + c) {
      var i :| p <= i < p + k && i < |s| && r[i] == x;
      assert i == p || p + 1 <= i < p + 1 + (k - 1);
    }
    if s[p + j] == x { assert r[p] == x; }
    if Puts(Swap(s, p, p + j), p + 1, k - 1, x, c) {
      var i :| p + 1 <= i < p + 1 + (k - 1) && i < |s| && r[i] == x;
      assert p <= i < p + k;
    }
  }

  function Always(): Choice -> bool {
    (c: Choice) => true
  }

  lemma {:induction false} AlwaysCountsAll(cs: seq<Choice>)
    ensures Count(cs, Always()) == |cs|
  {
    if cs != [] { AlwaysCountsAll(cs[..|cs| - 1]); }
  }

  lemma BlockOfFront(s: seq<FaultEntry>, p: nat, k: nat, x: FaultEntry, j: nat, cs: seq<Choice>)
    requires k > 0 && p + j < |s|
    ensures Count(Block(j, cs), InFront(s, p, k, x))
            == if s[p + j] == x then |cs| else Count(cs, InFront(Swap(s, p, p + j), p + 1, k - 1, x))
  {
    hide Count, Block, Puts, Swap;
    forall c | c in cs
      ensures InFront(s, p, k, x)([j] + c) <==> s[p + j] == x || InFront(Swap(s, p, p + j), p + 1, k - 1, x)(c)
    {
      PutsCons(s, p, k, x, j, c);
    }
    if s[p + j] == x {
      BlockCount(j, cs, InFront(s, p, k, x), Always());
      AlwaysCountsAll(cs);
    } else {
      BlockCount(j, cs, InFront(s, p, k, x), InFront(Swap(s, p, p + j), p + 1, k - 1, x));
    }
  }

  function Product(a: nat, b: nat): nat {
    a * b
  }

  lemma ProductNext(a: nat, b: nat)
    ensures Product(0, b) == 0 && Product(a + 1, b) == Product(a, b) + b
  {
  }

  lemma NoBlocks(cs: seq<Choice>, p: Choice -> bool)
    ensures Count(Blocks(0, cs), p) == 0
  {
  }

  /** One block in full, and the same number in every other. */
  lemma {:induction false} BlocksCount(n: nat, cs: seq<Choice>, p: Choice -> bool, hit: nat, each: nat)
    requires forall j: nat :: j < n ==> Count(Block(j, cs), p) == if j == hit then |cs| else each
    ensures Count(Blocks(n, cs), p) + (if hit < n then each else 0)
            == Product(n, each) + if hit < n then |cs| else 0
  {
    hide Block, Product, Count, Blocks;
    if n == 0 {
      NoBlocks(cs, p);
      ProductNext(0, each);
    } else {
      BlocksCount(n - 1, cs, p, hit, each);
      BlocksStep(n, cs, p);
      ProductNext(n - 1, each);
    }
  }

  lemma OneInFull(n: nat, each: nat, total: nat, count: int)
    requires n > 0 && count + each == Product(n, each) + total
    ensures count == total + (n - 1) * each
  {
    TimesNext(n - 1, each);
  }

  lemma ShareArithmetic(n: nat, k: nat, total: nat, each: nat)
    requires n > 0 && k > 0 && each * (n - 1) == (k - 1) * total
    ensures (total + (n - 1) * each) * n == k * (n * total)
  {
    calc {
      (total + (n - 1) * each) * n;
      (total + (k - 1) * total) * n;
      { TimesNext(k - 1, total); }
      (k * total) * n;
      k * (n * total);
    }
  }

  lemma PlaceAfterSwap(s: seq<FaultEntry>, p: nat, j: nat, q: nat) returns (r: nat)
    requires p <= q < |s| && p + j < |s| && p + j != q
    ensures p + 1 <= r < |s| && Swap(s, p, p + j)[r] == s[q]
  {
    r := if q == p then p + j else q;
  }

  lemma OnlyPlace(s: seq<FaultEntry>, q: nat, i: nat)
    requires Distinct(s) && q < |s| && i < |s|
    ensures s[i] == s[q] <==> i == q
  {
  }

  /** Over all choices of `k` out of the elements from `p` on, each of them is put in front by the same
      share: `k` out of their number. */
  lemma {:induction false} ChosenEquallyOften(s: seq<FaultEntry>, p: nat, k: nat, q: nat)
    requires Distinct(s) && p <= q < |s| && k <= |s| - p
    ensures var n := |s| - p;
            Count(Choices(n, k), InFront(s, p, k, s[q])) * n == k * |Choices(n, k)|
    decreases k, 2
  {
    hide Count, Swap, Distinct, InFront, Block, Blocks, Choices;
    if k == 0 {
      NoneInFront(s, p, s[q]);
    } else {
      var n, cs := |s| - p, Choices(|s| - p - 1, k - 1);
      var each := EachOther(s, p, k, q);
      forall j: nat | j < n
        ensures Count(Block(j, cs), InFront(s, p, k, s[q])) == if j == q - p then |cs| else each
      {
        BlockShare(s, p, k, q, j, each);
      }
      ChoicesStep(n, k);
      BlocksShare(n, k, cs, InFront(s, p, k, s[q]), q - p, each);
    }
  }

  lemma ChoicesStep(n: nat, k: nat)
    requires 0 < k <= n
    ensures Choices(n, k) == Blocks(n, Choices(n - 1, k - 1))
  {
  }

  lemma BlocksShare(n: nat, k: nat, cs: seq<Choice>, p: Choice -> bool, hit: nat, each: nat)
    requires hit < n && k > 0 && each * (n - 1) == (k - 1) * |cs|
    requires forall j: nat :: j < n ==> Count(Block(j, cs), p) == if j == hit then |cs| else each
    ensures Count(Blocks(n, cs), p) * n == k * |Blocks(n, cs)|
  {
    hide Count, Block, Blocks, Product;
    BlocksCount(n, cs, p, hit, each);
    OneInFull(n, each, |cs|, Count(Blocks(n, cs), p));
    BlocksLength(n, cs);
    ShareArithmetic(n, k, |cs|, each);
  }

  lemma {:induction false} BlockShare(s: seq<FaultEntry>, p: nat, k: nat, q: nat, j: nat, each: nat)
    requires Distinct(s) && p <= q < |s| && 0 < k <= |s| - p && p + j < |s|
    requires each * (|s| - p - 1) == (k - 1) * |Choices(|s| - p - 1, k - 1)|
    ensures var cs := Choices(|s| - p - 1, k - 1);
            Count(Block(j, cs), InFront(s, p, k, s[q])) == if j == q - p then |cs| else each
    decreases k, 1
  {
    hide Count, Swap, Distinct, InFront, Block, Choices;
    var cs := Choices(|s| - p - 1, k - 1);
    BlockOfFront(s, p, k, s[q], j, cs);
    OnlyPlace(s, q, p + j);
    if j != q - p {
      OtherBlock(s, p, k, q, j);
      SameShare(Count(cs, InFront(Swap(s, p, p + j), p + 1, k - 1, s[q])), each, |s| - p - 1);
    }
  }

  lemma NoneInFront(s: seq<FaultEntry>, p: nat, x: FaultEntry)
    ensures forall n: nat :: Choices(n, 0) == [[]]
    ensures Count([[]], InFront(s, p, 0, x)) == 0
  {
    CountOne([], InFront(s, p, 0, x));
  }

  lemma {:induction false} OtherBlock(s: seq<FaultEntry>, p: nat, k: nat, q: nat, j: nat)
    requires Distinct(s) && p <= q < |s| && 0 < k <= |s| - p && p + j < |s| && p + j != q
    ensures var n, cs := |s| - p, Choices(|s| - p - 1, k - 1);
            Count(cs, InFront(Swap(s, p, p + j), p + 1, k - 1, s[q])) * (n - 1) == (k - 1) * |cs|
    decreases k, 0
  {
    hide Count, Swap, Distinct, InFront, Choices;
    SwapKeepsDistinct(s, p, p + j);
    var r := PlaceAfterSwap(s, p, j, q);
    ChosenEquallyOften(Swap(s, p, p + j), p + 1, k - 1, r);
  }

  /** The number of choices behind a first draw that misses the element. */
  lemma {:induction false} EachOther(s: seq<FaultEntry>, p: nat, k: nat, q: nat) returns (each: nat)
    requires Distinct(s) && p <= q < |s| && 0 < k <= |s| - p
    ensures var n, cs := |s| - p, Choices(|s| - p - 1, k - 1);
            each * (n - 1) == (k - 1) * |cs|
    decreases k, 1
  {
    hide Count, Swap, Distinct, InFront, Choices;
    if |s| - p == 1 {
      each := 0;
    } else {
      var j: nat := if q == p then 1 else 0;
      OtherBlock(s, p, k, q, j);
      each := Count(Choices(|s| - p - 1, k - 1), InFront(Swap(s, p, p + j), p + 1, k - 1, s[q]));
    }
  }

  /** The fair lane is fair: over all its choices every candidate outside the stake lane is penalised by
      the same share, however much it stakes. */
  lemma FairLaneIsFair(m: Market, e: FaultEntry)
    requires DistinctIds(m.entries) && e in Remainder(m)
    ensures var n, k := |Remainder(m)|, FairLane(|m.entries|);
            && k <= n
            && Count(Choices(n, k), InFront(Ranked(m), StakeLane(|m.entries|), k, e)) * n == k * |Choices(n, k)|
  {
    hide Sort, Before, DistinctIds, Distinct, Count, InFront, Choices;
    SortIsAsLong(m);
    RankedDistinct(m);
    var lane, rest := StakeLane(|m.entries|), Remainder(m);
    var i :| 0 <= i < |rest| && rest[i] == e;
    ChosenEquallyOften(Ranked(m), lane, FairLane(|m.entries|), lane + i);
  }
}
