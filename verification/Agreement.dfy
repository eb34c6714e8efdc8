/** Token agreement: a longest-common-subsequence dynamic program and the score built on it. */
module Agreement {
  import opened Machine

  type Token = int

  // ---- common subsequences -------------------------------------------------------------------------

  /** `at` lists strictly increasing positions below `n` where `a` reads `s`. */
  ghost predicate Embeds(s: seq<Token>, a: seq<Token>, n: nat, at: seq<nat>) {
    && n <= |a| && |at| == |s|
    && (forall k :: 0 <= k < |s| ==> at[k] < n && a[at[k]] == s[k])
    && (forall j, k :: 0 <= j < k < |s| ==> at[j] < at[k])
  }

  ghost predicate IsSubsequence(s: seq<Token>, a: seq<Token>) {
    exists at :: Embeds(s, a, |a|, at)
  }

  /** `r` is the length of a longest sequence that is a subsequence of both. */
  ghost predicate IsLcsLength(r: nat, a: seq<Token>, b: seq<Token>) {
    && (exists s :: |s| == r && IsSubsequence(s, a) && IsSubsequence(s, b))
    && (forall s :: IsSubsequence(s, a) && IsSubsequence(s, b) ==> |s| <= r)
  }

  // ---- the recurrence ------------------------------------------------------------------------------

  /** The table entry for the first `i` tokens of `a` and the first `j` of `b`. */
  function Lcs(a: seq<Token>, b: seq<Token>, i: nat, j: nat): (r: nat)
    requires i <= |a| && j <= |b|
    decreases i + j
  {
    if i == 0 || j == 0 then 0
    else if a[i - 1] == b[j - 1] then Lcs(a, b, i - 1, j - 1) + 1
    else Max(Lcs(a, b, i - 1, j), Lcs(a, b, i, j - 1))
  }

  lemma EmbedsWider(s: seq<Token>, a: seq<Token>, n: nat, at: seq<nat>)
    requires 0 < n <= |a| && Embeds(s, a, n - 1, at)
    ensures Embeds(s, a, n, at)
  {
  }

  lemma EmbedsOneMore(s: seq<Token>, a: seq<Token>, n: nat, at: seq<nat>)
    requires 0 < n <= |a| && Embeds(s, a, n - 1, at)
    ensures Embeds(s + [a[n - 1]], a, n, at + [n - 1])
  {
  }

  lemma EmbedsOneLess(s: seq<Token>, a: seq<Token>, n: nat, at: seq<nat>)
    requires s != [] && Embeds(s, a, n, at)
    ensures n > 0 && Embeds(s[..|s| - 1], a, n - 1, at[..|s| - 1])
  {
    assert at[|s| - 1] < n;
  }

  lemma EmbedsNarrower(s: seq<Token>, a: seq<Token>, n: nat, at: seq<nat>)
    requires s != [] && Embeds(s, a, n, at) && at[|s| - 1] < n - 1
    ensures Embeds(s, a, n - 1, at)
  {
  }

  /** The table is attained by some common subsequence … */
  lemma {:induction false} LcsAttained(a: seq<Token>, b: seq<Token>, i: nat, j: nat)
    returns (s: seq<Token>, ia: seq<nat>, ib: seq<nat>)
    requires i <= |a| && j <= |b|
    ensures |s| == Lcs(a, b, i, j) && Embeds(s, a, i, ia) && Embeds(s, b, j, ib)
    decreases i + j
  {
    hide Embeds;
    if i == 0 || j == 0 {
      s, ia, ib := [], [], [];
      EmbedsNothing(a, i);
      EmbedsNothing(b, j);
    } else if a[i - 1] == b[j - 1] {
      s, ia, ib := LcsAttained(a, b, i - 1, j - 1);
      EmbedsOneMore(s, a, i, ia);
      EmbedsOneMore(s, b, j, ib);
      s, ia, ib := s + [a[i - 1]], ia + [i - 1], ib + [j - 1];
    } else if Lcs(a, b, i - 1, j) >= Lcs(a, b, i, j - 1) {
      s, ia, ib := LcsAttained(a, b, i - 1, j);
      EmbedsWider(s, a, i, ia);
    } else {
      s, ia, ib := LcsAttained(a, b, i, j - 1);
      EmbedsWider(s, b, j, ib);
    }
  }

  lemma EmbedsNothing(a: seq<Token>, n: nat)
    requires n <= |a|
    ensures Embeds([], a, n, [])
  {
  }

  /** … and exceeded by none. */
  lemma {:induction false} LcsMaximal(a: seq<Token>, b: seq<Token>, i: nat, j: nat, s: seq<Token>,
                                      ia: seq<nat>, ib: seq<nat>)
    requires Embeds(s, a, i, ia) && Embeds(s, b, j, ib)
    ensures i <= |a| && j <= |b| && |s| <= Lcs(a, b, i, j)
    decreases i + j
  {
    if s != [] {
      var last := |s| - 1;
      assert ia[last] < i && ib[last] < j && a[ia[last]] == s[last] == b[ib[last]];
      hide Embeds;
      if a[i - 1] == b[j - 1] {
        EmbedsOneLess(s, a, i, ia);
        EmbedsOneLess(s, b, j, ib);
        LcsMaximal(a, b, i - 1, j - 1, s[..last], ia[..last], ib[..last]);
      } else if ia[last] < i - 1 {
        EmbedsNarrower(s, a, i, ia);
        LcsMaximal(a, b, i - 1, j, s, ia, ib);
      } else {
        EmbedsNarrower(s, b, j, ib);
        LcsMaximal(a, b, i, j - 1, s, ia, ib);
      }
    }
  }

  /** The recurrence computes the length of a longest common subsequence. */
  lemma LcsIsLongest(a: seq<Token>, b: seq<Token>)
    ensures IsLcsLength(Lcs(a, b, |a|, |b|), a, b)
  {
    hide Embeds, Lcs;
    var s, ia, ib := LcsAttained(a, b, |a|, |b|);
    assert IsSubsequence(s, a) && IsSubsequence(s, b);
    forall t | IsSubsequence(t, a) && IsSubsequence(t, b) ensures |t| <= Lcs(a, b, |a|, |b|) {
      var ja :| Embeds(t, a, |a|, ja);
      var jb :| Embeds(t, b, |b|, jb);
      LcsMaximal(a, b, |a|, |b|, t, ja, jb);
    }
  }

  /** There is only one such length, and it does not depend on the order of the two sequences. */
  lemma LcsLengthUnique(p: nat, q: nat, a: seq<Token>, b: seq<Token>)
    requires IsLcsLength(p, a, b) && IsLcsLength(q, b, a)
    ensures p == q
  {
    hide IsSubsequence;
  }

  lemma {:induction false} PositionsGrow(s: seq<Token>, a: seq<Token>, n: nat, at: seq<nat>, k: nat)
    requires Embeds(s, a, n, at) && k < |s|
    ensures at[k] >= k
  {
    if k > 0 { PositionsGrow(s, a, n, at, k - 1); }
  }

  lemma {:induction false} PositionsAreBelow(s: seq<Token>, a: seq<Token>, n: nat, at: seq<nat>)
    requires Embeds(s, a, n, at)
    ensures |s| <= n
    ensures |s| == n ==> s == a[..n]
  {
    if s != [] {
      EmbedsOneLess(s, a, n, at);
      PositionsAreBelow(s[..|s| - 1], a, n - 1, at[..|s| - 1]);
      if |s| == n {
        PositionsGrow(s, a, n, at, n - 1);
        assert s == s[..n - 1] + [s[n - 1]] && a[..n] == a[..n - 1] + [a[n - 1]];
      }
    }
  }

  lemma WholeEmbeds(a: seq<Token>)
    ensures Embeds(a, a, |a|, seq(|a|, i requires 0 <= i => i))
  {
  }

  /** The longest common subsequence is no longer than either sequence, and as long as both exactly
      when they are equal. */
  lemma LcsBounds(a: seq<Token>, b: seq<Token>)
    ensures Lcs(a, b, |a|, |b|) <= |a| && Lcs(a, b, |a|, |b|) <= |b|
    ensures Lcs(a, b, |a|, |b|) == |a| == |b| <==> a == b
  {
    hide Embeds, Lcs;
    var s, ia, ib := LcsAttained(a, b, |a|, |b|);
    PositionsAreBelow(s, a, |a|, ia);
    PositionsAreBelow(s, b, |b|, ib);
    assert a[..|a|] == a && b[..|b|] == b;
    if a == b {
      WholeEmbeds(a);
      var id := seq(|a|, i requires 0 <= i => i);
      LcsMaximal(a, b, |a|, |b|, a, id, id);
    }
  }

  // ---- the score -----------------------------------------------------------------------------------------

  function Score(lcs: nat, n: nat, m: nat): real {
    if n == 0 && m == 0 then 1.0
    else if n == 0 || m == 0 then 0.0
    else 2.0 * lcs as real / (n + m) as real
  }

  lemma Ratio(x: real, d: real)
    requires 0.0 <= x <= d && 0.0 < d
    ensures 0.0 <= x / d <= 1.0 && (x / d == 1.0 <==> x == d)
  {
  }

  lemma ScoreArithmetic(l: nat, n: nat, m: nat)
    requires l <= n && l <= m
    ensures 0.0 <= Score(l, n, m) <= 1.0
    ensures Score(l, n, m) == 1.0 <==> l == n == m
    ensures Score(l, n, m) == Score(l, m, n)
  {
    if n > 0 && m > 0 {
      Ratio(2.0 * l as real, (n + m) as real);
    }
  }

  function TokenAgreementScore(a: seq<Token>, b: seq<Token>): real {
    Score(Lcs(a, b, |a|, |b|), |a|, |b|)
  }

  /** The score lies in [0, 1], is symmetric, and is 1 exactly for equal sequences. */
  lemma ScoreIsAgreement(a: seq<Token>, b: seq<Token>)
    ensures 0.0 <= TokenAgreementScore(a, b) <= 1.0
    ensures TokenAgreementScore(a, b) == 1.0 <==> a == b
    ensures TokenAgreementScore(a, b) == TokenAgreementScore(b, a)
  {
    hide Lcs, Score, IsLcsLength;
    LcsBounds(a, b);
    ScoreArithmetic(Lcs(a, b, |a|, |b|), |a|, |b|);
    LcsIsLongest(a, b);
    LcsIsLongest(b, a);
    LcsLengthUnique(Lcs(a, b, |a|, |b|), Lcs(b, a, |b|, |a|), a, b);
  }

  // ---- the table as it is filled -----------------------------------------------------------------------------

  ghost predicate HoldsRow(dp: array2<nat>, a: seq<Token>, b: seq<Token>, i: nat, upTo: nat)
    reads dp
  {
    && dp.Length0 == |a| + 1 && dp.Length1 == |b| + 1 && i <= |a| && upTo <= |b| + 1
    && forall y: nat :: y < upTo ==> dp[i, y] == Lcs(a, b, i, y)
  }

  lemma LcsStep(a: seq<Token>, b: seq<Token>, i: nat, j: nat)
    requires i <= |a| && j <= |b|
    ensures i == 0 || j == 0 ==> Lcs(a, b, i, j) == 0
    ensures 0 < i && 0 < j ==>
              Lcs(a, b, i, j) == if a[i - 1] == b[j - 1] then Lcs(a, b, i - 1, j - 1) + 1
                                 else Max(Lcs(a, b, i - 1, j), Lcs(a, b, i, j - 1))
  {
  }

  method FillRow(a: seq<Token>, b: seq<Token>, dp: array2<nat>, i: nat)
    requires 0 < i && HoldsRow(dp, a, b, i - 1, |b| + 1)
    requires i <= |a| && dp[i, 0] == 0
    modifies dp
    ensures HoldsRow(dp, a, b, i, |b| + 1)
    ensures forall x, y :: 0 <= x <= |a| && x != i && 0 <= y <= |b| ==> dp[x, y] == old(dp[x, y])
  {
    hide Lcs;
    LcsStep(a, b, i, 0);
    for j := 1 to |b| + 1
      invariant HoldsRow(dp, a, b, i - 1, |b| + 1)
      invariant HoldsRow(dp, a, b, i, j)
      invariant forall x, y :: 0 <= x <= |a| && x != i && 0 <= y <= |b| ==> dp[x, y] == old(dp[x, y])
    {
      LcsStep(a, b, i, j);
      dp[i, j] := if a[i - 1] == b[j - 1] then dp[i - 1, j - 1] + 1 else Max(dp[i - 1, j], dp[i, j - 1]);
    }
  }

  method FillTable(a: seq<Token>, b: seq<Token>) returns (r: nat)
    ensures r == Lcs(a, b, |a|, |b|)
  {
    hide Lcs;
    var dp := new nat[|a| + 1, |b| + 1]((i, j) => 0);
    forall j: nat | j <= |b| ensures Lcs(a, b, 0, j) == 0 { LcsStep(a, b, 0, j); }
    for i := 1 to |a| + 1
      invariant HoldsRow(dp, a, b, i - 1, |b| + 1)
      invariant forall x :: i <= x <= |a| ==> dp[x, 0] == 0
    {
      FillRow(a, b, dp, i);
    }
    return dp[|a|, |b|];
  }

  method TokenAgreement(a: seq<Token>, b: seq<Token>) returns (score: real)
    ensures exists r: nat :: IsLcsLength(r, a, b) && score == Score(r, |a|, |b|)
    ensures score == TokenAgreementScore(a, b)
  {
    hide IsLcsLength, Lcs;
    LcsIsLongest(a, b);
    if a == [] && b == [] {
      return 1.0;
    }
    if a == [] || b == [] {
      return 0.0;
    }
    var lcs := FillTable(a, b);
    return 2.0 * lcs as real / (|a| + |b|) as real;
  }
}
