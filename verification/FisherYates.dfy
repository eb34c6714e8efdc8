/** Partial Fisher-Yates: the stake-blind sample of the fault market's fair lane.
    The slice being shuffled is the part of a buffer `s` from position `p` on. */
module FisherYates {
  import opened Machine
  import opened Sorting

  /** A stream of 64-bit draws, indexed by counter. */
  datatype Draws = Draws(draw: nat -> u64)

  /** `js` chooses, at step i, one of the `n - i` elements that are still unplaced. */
  predicate IsChoice(js: seq<nat>, n: nat) {
    |js| <= n && forall i :: 0 <= i < |js| ==> js[i] < n - i
  }

  lemma TailIsChoice(js: seq<nat>, n: nat)
    requires js != [] && IsChoice(js, n)
    ensures js[0] < n && IsChoice(js[1..], n - 1)
  {
  }

  lemma ConsIsChoice(j: nat, js: seq<nat>, n: nat)
    requires j < n && IsChoice(js, n - 1)
    ensures IsChoice([j] + js, n)
    ensures ([j] + js)[1..] == js
  {
  }

  function Swap<T>(s: seq<T>, i: nat, j: nat): (r: seq<T>)
    requires i < |s| && j < |s|
    ensures |r| == |s|
  {
    s[i := s[j]][j := s[i]]
  }

  lemma SwapPermutes<T>(s: seq<T>, i: nat, j: nat)
    requires i < |s| && j < |s|
    ensures multiset(Swap(s, i, j)) == multiset(s)
  {
  }

  /** The buffer after the steps `js`, the first of which fills position `p`. */
  function Shuffle<T>(s: seq<T>, p: nat, js: seq<nat>): (r: seq<T>)
    ensures |r| == |s|
    decreases |js|
  {
    if js == [] || p + js[0] >= |s| then s
    else Shuffle(Swap(s, p, p + js[0]), p + 1, js[1..])
  }

  /** Nothing is lost or invented. */
  lemma {:induction false} ShufflePermutes<T>(s: seq<T>, p: nat, js: seq<nat>)
    ensures multiset(Shuffle(s, p, js)) == multiset(s)
    decreases |js|
  {
    if js != [] && p + js[0] < |s| {
      var t := Swap(s, p, p + js[0]);
      SwapPermutes(s, p, p + js[0]);
      ShufflePermutes(t, p + 1, js[1..]);
    }
  }

  /** What lies before `p` stays where it was. */
  lemma {:induction false} ShuffleKeepsPrefix<T>(s: seq<T>, p: nat, js: seq<nat>, q: nat)
    requires q < p && q < |s|
    ensures Shuffle(s, p, js)[q] == s[q]
    decreases |js|
  {
    if js != [] && p + js[0] < |s| {
      ShuffleKeepsPrefix(Swap(s, p, p + js[0]), p + 1, js[1..], q);
    }
  }

  /** `front` is what the steps `js` put at positions `p`, `p + 1`, ... */
  ghost predicate IsFrontOf<T>(s: seq<T>, p: nat, js: seq<nat>, front: seq<T>) {
    && p <= |s|
    && IsChoice(js, |s| - p)
    && |js| == |front|
    && forall i :: 0 <= i < |front| ==> Shuffle(s, p, js)[p + i] == front[i]
  }

  /** A front of the steps `js` is the first element chosen, then a front of the other steps. */
  lemma FrontStep<T>(s: seq<T>, p: nat, js: seq<nat>, front: seq<T>)
    requires js != [] && front != [] && p < |s| && IsChoice(js, |s| - p)
    ensures IsFrontOf(s, p, js, front) <==>
            && s[p + js[0]] == front[0]
            && IsFrontOf(Swap(s, p, p + js[0]), p + 1, js[1..], front[1..])
  {
    TailIsChoice(js, |s| - p);
    var t := Swap(s, p, p + js[0]);
    var r := Shuffle(s, p, js);
    ShuffleKeepsPrefix(t, p + 1, js[1..], p);
    assert r[p] == t[p] == s[p + js[0]];
    if |js| == |front| {
      assert (forall i :: 0 <= i < |front| ==> r[p + i] == front[i]) <==>
             (r[p] == front[0] && forall i :: 0 <= i < |front[1..]| ==> r[p + 1 + i] == front[1..][i]) by
      {
        if r[p] == front[0] && forall i :: 0 <= i < |front[1..]| ==> r[p + 1 + i] == front[1..][i] {
          forall i | 0 < i < |front| ensures r[p + i] == front[i] {
            assert r[p + 1 + (i - 1)] == front[1..][i - 1];
          }
        }
      }
    }
  }

  lemma SwapKeepsDistinct<T>(s: seq<T>, i: nat, j: nat)
    requires Distinct(s) && i < |s| && j < |s|
    ensures Distinct(Swap(s, i, j))
  {
  }

  /** Different choices give different ordered fronts. */
  lemma {:induction false} FrontDeterminesChoice<T>(s: seq<T>, p: nat, js: seq<nat>, ks: seq<nat>, front: seq<T>)
    requires Distinct(s) && IsFrontOf(s, p, js, front) && IsFrontOf(s, p, ks, front)
    ensures js == ks
    decreases |js|
  {
    if js != [] {
      FrontStep(s, p, js, front);
      FrontStep(s, p, ks, front);
      SwapKeepsDistinct(s, p, p + js[0]);
      FrontDeterminesChoice(Swap(s, p, p + js[0]), p + 1, js[1..], ks[1..], front[1..]);
      assert js == [js[0]] + js[1..] && ks == [ks[0]] + ks[1..];
    }
  }

  /** Every ordered selection of distinct elements of the slice is the front of some choice. */
  lemma {:induction false} EveryFrontArises<T>(s: seq<T>, p: nat, front: seq<T>) returns (js: seq<nat>)
    requires p <= |s| && Distinct(front)
    requires forall x :: x in front ==> x in s[p..]
    ensures IsFrontOf(s, p, js, front)
    decreases |front|
  {
    if front == [] {
      js := [];
    } else {
      assert front[0] in s[p..];
      var j: nat :| j < |s[p..]| && s[p..][j] == front[0];
      var t := Swap(s, p, p + j);
      forall x | x in front[1..] ensures x in t[p + 1..] {
        assert x != front[0] && x in s[p..];
        var q: nat :| p <= q < |s| && s[q] == x;
        assert t[if q == p then p + j else q] == x;
      }
      var ks := EveryFrontArises(t, p + 1, front[1..]);
      ConsIsChoice(j, ks, |s| - p);
      js := [j] + ks;
      FrontStep(s, p, js, front);
    }
  }

  /** Partial Fisher-Yates is a bijection: each ordered selection of distinct elements of the
      slice is the front of exactly one choice. */
  lemma FrontsAndChoicesCorrespond<T>(s: seq<T>, p: nat, front: seq<T>)
    requires p <= |s| && Distinct(s) && Distinct(front)
    requires forall x :: x in front ==> x in s[p..]
    ensures exists js: seq<nat> :: IsFrontOf(s, p, js, front)
    ensures forall js: seq<nat>, ks: seq<nat> ::
              IsFrontOf(s, p, js, front) && IsFrontOf(s, p, ks, front) ==> js == ks
  {
    var js := EveryFrontArises(s, p, front);
    forall js: seq<nat>, ks: seq<nat> | IsFrontOf(s, p, js, front) && IsFrontOf(s, p, ks, front)
      ensures js == ks
    {
      FrontDeterminesChoice(s, p, js, ks, front);
    }
  }

  /** Draw number `at`, reduced to one of `span` places. */
  function Offset(draws: Draws, at: nat, span: nat): (o: nat)
    requires span > 0
    ensures o < span
    ensures draws.draw(at) < span ==> o == draws.draw(at)
  {
    draws.draw(at) % span
  }

  /** The buffer after at most `k` steps from position `p`, drawing from number `at` on. */
  function Sample<T>(s: seq<T>, p: nat, draws: Draws, at: nat, k: nat): (r: seq<T>)
    ensures |r| == |s|
    decreases k
  {
    if k == 0 || p >= |s| then s
    else Sample(Swap(s, p, p + Offset(draws, at, |s| - p)), p + 1, draws, at + 1, k - 1)
  }

  /** Every stream of draws makes some choice of `min(k, |s| - p)` elements. */
  lemma {:induction false} DrawsAreChoice<T>(s: seq<T>, p: nat, draws: Draws, at: nat, k: nat)
    returns (js: seq<nat>)
    requires p <= |s|
    ensures IsChoice(js, |s| - p) && |js| == Min(k, |s| - p)
    ensures Sample(s, p, draws, at, k) == Shuffle(s, p, js)
    decreases k
  {
    if k == 0 || p >= |s| {
      js := [];
    } else {
      var j := Offset(draws, at, |s| - p);
      var t := Swap(s, p, p + j);
      var ks := DrawsAreChoice(t, p + 1, draws, at + 1, k - 1);
      hide Swap, IsChoice, Offset;
      ConsIsChoice(j, ks, |s| - p);
      js := [j] + ks;
    }
  }

  lemma SampleKeepsPrefix<T>(s: seq<T>, p: nat, draws: Draws, at: nat, k: nat, q: nat)
    requires q < p <= |s|
    ensures Sample(s, p, draws, at, k)[q] == s[q]
  {
    var js := DrawsAreChoice(s, p, draws, at, k);
    ShuffleKeepsPrefix(s, p, js, q);
  }

  /** The first place goes to the element drawn first. */
  lemma SampleFirst<T>(s: seq<T>, p: nat, draws: Draws, at: nat, k: nat)
    requires p < |s| && k > 0
    ensures Sample(s, p, draws, at, k)[p] == s[p + Offset(draws, at, |s| - p)]
  {
    SampleKeepsPrefix(Swap(s, p, p + Offset(draws, at, |s| - p)), p + 1, draws, at + 1, k - 1, p);
  }

  /** A stream that draws `js` in order. */
  function Replay(js: seq<nat>): Draws {
    Draws((i: nat) => if i < |js| && js[i] <= U64_MAX then js[i] else 0)
  }

  lemma ReplayFirst(j: u64, span: nat)
    requires j < span
    ensures Offset(Replay([j]), 0, span) == j
  {
    assert Replay([j]).draw(0) == j;
  }

  /** Every choice is made by some stream of 64-bit draws. */
  lemma {:induction false} ChoiceIsDrawn<T>(s: seq<T>, p: nat, js: seq<nat>, at: nat)
    requires p <= |s| <= U64_MAX && at <= |js| && IsChoice(js[at..], |s| - p)
    ensures Sample(s, p, Replay(js), at, |js| - at) == Shuffle(s, p, js[at..])
    decreases |js| - at
  {
    if at < |js| {
      TailIsChoice(js[at..], |s| - p);
      assert js[at..][1..] == js[at + 1..];
      ChoiceIsDrawn(Swap(s, p, p + js[at]), p + 1, js, at + 1);
    }
  }

  /** Move `min(k, len)` drawn elements of `a[lo..]` to its front, in place. */
  method ShuffleFront<T>(a: array<T>, lo: nat, k: nat, draws: Draws)
    requires lo <= a.Length
    modifies a
    ensures a[..] == Sample(old(a[..]), lo, draws, 0, k)
  {
    var steps := Min(k, a.Length - lo);
    for i := 0 to steps
      invariant Sample(a[..], lo + i, draws, i, k - i) == Sample(old(a[..]), lo, draws, 0, k)
    {
      var p := lo + i;
      var j := p + Offset(draws, i, a.Length - p);
      ghost var s := a[..];
      a[p], a[j] := a[j], a[p];
      assert a[..] == Swap(s, p, j);
    }
  }
}
