/** The beacon lottery: a bounded rejection sampler over a registry snapshot. */
module Lottery {
  import opened Machine
  import opened Sorting
  import opened FisherYates
  import opened FaultMarket
  import Records

  const MAX_DRAW_ATTEMPTS: nat := Records.MAX_AUTHORIZED_EXECUTORS * 64

  /** The node that draw number `at` names. */
  function Candidate(registry: seq<NodeId>, draws: Draws, at: nat): NodeId
    requires registry != []
  {
    registry[Offset(draws, at, |registry|)]
  }

  /** `x` is named by one of the first `n` draws. */
  ghost predicate NamedWithin(registry: seq<NodeId>, draws: Draws, n: nat, x: NodeId)
    requires registry != []
  {
    exists i: nat :: i < n && Candidate(registry, draws, i) == x
  }

  /** `x` is named no later than `y` is. */
  ghost predicate NoLater(registry: seq<NodeId>, draws: Draws, x: NodeId, y: NodeId)
    requires registry != []
  {
    forall n: nat :: NamedWithin(registry, draws, n, y) ==> NamedWithin(registry, draws, n, x)
  }

  /** `s` lists the distinct nodes of the first `n` draws in the order they are first named. */
  ghost predicate ListsFirstDraws(s: seq<NodeId>, registry: seq<NodeId>, draws: Draws, n: nat)
    requires registry != []
  {
    && Distinct(s)
    && (forall x :: x in s <==> NamedWithin(registry, draws, n, x))
    && (forall i, j :: 0 <= i < j < |s| ==> NoLater(registry, draws, s[i], s[j]))
  }

  lemma DrawOne(s: seq<NodeId>, registry: seq<NodeId>, draws: Draws, n: nat)
    requires registry != [] && ListsFirstDraws(s, registry, draws, n)
    ensures var c := Candidate(registry, draws, n);
            ListsFirstDraws(if c in s then s else s + [c], registry, draws, n + 1)
  {
    var c := Candidate(registry, draws, n);
    var t := if c in s then s else s + [c];
    forall x ensures x in t <==> NamedWithin(registry, draws, n + 1, x) {
      if NamedWithin(registry, draws, n + 1, x) {
        var i: nat :| i < n + 1 && Candidate(registry, draws, i) == x;
        assert i < n ==> NamedWithin(registry, draws, n, x);
      }
    }
    if c !in s {
      forall x | x in s ensures NoLater(registry, draws, x, c) {
        NamedBefore(registry, draws, n, x, c);
      }
    }
  }

  lemma NamedBefore(registry: seq<NodeId>, draws: Draws, n: nat, x: NodeId, y: NodeId)
    requires registry != []
    requires NamedWithin(registry, draws, n, x) && !NamedWithin(registry, draws, n, y)
    ensures NoLater(registry, draws, x, y)
  {
    var k: nat :| k < n && Candidate(registry, draws, k) == x;
    forall m: nat | NamedWithin(registry, draws, m, y) ensures NamedWithin(registry, draws, m, x) {
      var i: nat :| i < m && Candidate(registry, draws, i) == y;
      assert i >= n;
      assert k < m;
    }
  }

  /** The authorised executors are the first min(16, n) distinct nodes of the draw stream, in
      the order they are drawn, or all the distinct nodes of the 1024 draws allowed. */
  method DeriveAuthorizationSet(registry: seq<NodeId>, draws: Draws) returns (executors: seq<NodeId>, ghost used: nat)
    ensures registry == [] ==> executors == []
    ensures registry != [] ==> ListsFirstDraws(executors, registry, draws, used)
    ensures |executors| <= Min(Records.MAX_AUTHORIZED_EXECUTORS, |registry|)
    ensures |executors| < Min(Records.MAX_AUTHORIZED_EXECUTORS, |registry|) ==> used == MAX_DRAW_ATTEMPTS
    ensures used <= MAX_DRAW_ATTEMPTS
  {
    executors, used := [], 0;
    if |registry| > 0 {
      var want := Min(Records.MAX_AUTHORIZED_EXECUTORS, |registry|);
      var counter := 0;
      while |executors| < want && counter < MAX_DRAW_ATTEMPTS
        invariant ListsFirstDraws(executors, registry, draws, counter)
        invariant |executors| <= want && 0 <= counter <= MAX_DRAW_ATTEMPTS
        decreases MAX_DRAW_ATTEMPTS - counter
      {
        DrawOne(executors, registry, draws, counter);
        var candidate := Candidate(registry, draws, counter);
        counter := counter + 1;
        if candidate in executors {
          continue;
        }
        executors := executors + [candidate];
      }
      used := counter;
    }
  }

  /** Two such lists are equal: the lottery is a function of the registry and the beacon. */
  lemma {:induction false} FirstDrawsUnique(s: seq<NodeId>, t: seq<NodeId>, registry: seq<NodeId>, draws: Draws, n: nat)
    requires registry != [] && ListsFirstDraws(s, registry, draws, n) && ListsFirstDraws(t, registry, draws, n)
    ensures s == t
  {
    DistinctSameElements(s, t);
    SameElements(s, t);
    var i := 0;
    while i < |s|
      invariant 0 <= i <= |s| && s[..i] == t[..i]
    {
      SameNext(s, t, i, registry, draws, n);
      i := i + 1;
    }
    assert s == s[..i] && t == t[..i];
  }

  lemma SameNext(s: seq<NodeId>, t: seq<NodeId>, i: nat, registry: seq<NodeId>, draws: Draws, n: nat)
    requires registry != [] && ListsFirstDraws(s, registry, draws, n) && ListsFirstDraws(t, registry, draws, n)
    requires i < |s| == |t| && s[..i] == t[..i]
    ensures s[i] == t[i]
  {
    var x, y := s[i], t[i];
    assert x in t && y in s;
    assert NoLater(registry, draws, x, y) by { LaterOrSame(s, t, i, y); }
    assert NoLater(registry, draws, y, x) by { LaterOrSame(t, s, i, x); }
    SameFirstDraw(registry, draws, n, x, y);
  }

  /** An element of `s` that `t` has at position `i` is at position `i` or later in `s`. */
  lemma LaterOrSame(s: seq<NodeId>, t: seq<NodeId>, i: nat, y: NodeId)
    requires Distinct(t) && i < |s| == |t| && s[..i] == t[..i] && y == t[i] && y in s
    ensures exists k :: i <= k < |s| && s[k] == y
  {
    forall q | 0 <= q < i ensures s[q] == t[q] {
      assert s[..i][q] == t[..i][q];
    }
    var k :| 0 <= k < |s| && s[k] == y;
  }

  lemma SameFirstDraw(registry: seq<NodeId>, draws: Draws, n: nat, x: NodeId, y: NodeId)
    requires registry != [] && NamedWithin(registry, draws, n, x)
    requires NoLater(registry, draws, x, y) && NoLater(registry, draws, y, x)
    ensures x == y
    decreases n
  {
    if n > 0 && NamedWithin(registry, draws, n - 1, x) {
      SameFirstDraw(registry, draws, n - 1, x, y);
    } else {
      assert !NamedWithin(registry, draws, n - 1, y) && NamedWithin(registry, draws, n, y);
      var i: nat :| i < n && Candidate(registry, draws, i) == x;
      var j: nat :| j < n && Candidate(registry, draws, j) == y;
      assert i == n - 1 && j == n - 1;
    }
  }
}
