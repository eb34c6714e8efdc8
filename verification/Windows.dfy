/** Sliding windows over a run, and the ring buffers that hold them. */
module Windows {
  import opened Machine

  /** The last `n` elements of `s`. */
  function Last<T>(s: seq<T>, n: nat): seq<T> {
    if |s| <= n then s else s[|s| - n..]
  }

  lemma LastOfLast<T>(s: seq<T>, x: T, n: nat)
    ensures Last(Last(s, n) + [x], n) == Last(s + [x], n)
  {
    if |s| > n {
      assert (Last(s, n) + [x])[1..] == (s + [x])[|s| + 1 - n..];
    }
  }

  /** Equal elements have at least `n` others between them. */
  ghost predicate FarApart<T>(s: seq<T>, n: nat) {
    forall i, j :: 0 <= i < j < |s| && s[i] == s[j] ==> j - i - 1 >= n
  }

  lemma FarApartExtends<T>(s: seq<T>, x: T, n: nat)
    requires FarApart(s, n) && x !in Last(s, n)
    ensures FarApart(s + [x], n)
  {
    var w := Last(s, n);
    forall i | |s| - |w| <= i < |s| ensures s[i] != x {
      assert w[i - (|s| - |w|)] == s[i];
    }
  }

  // ---- rings ----------------------------------------------------------------------------------

  /** A ring of `n` slots: the next one to write, and how many are in use. */
  predicate IsRing(n: nat, next: nat, filled: nat) {
    && filled <= n
    && (if n == 0 then next == 0 else next < n)
    && (filled < n ==> next == filled)
  }

  /** An index reduced modulo the ring's length. */
  function Wrap(i: nat, n: nat): (r: nat)
    requires i < 2 * n
    ensures r == if i < n then i else i - n
  {
    i % n
  }

  function Successor(next: nat, n: nat): (r: nat)
    requires next < n
    ensures r == if next + 1 == n then 0 else next + 1
  {
    Wrap(next + 1, n)
  }

  /** The entries, oldest first. */
  function Unrolled<T>(slots: seq<T>, next: nat, filled: nat): (u: seq<T>)
    requires IsRing(|slots|, next, filled)
    ensures |u| == filled
  {
    if filled < |slots| then slots[..filled] else slots[next..] + slots[..next]
  }

  lemma PushUnrolls<T>(slots: seq<T>, next: nat, filled: nat, x: T)
    requires slots != [] && IsRing(|slots|, next, filled)
    ensures IsRing(|slots|, Successor(next, |slots|), Min(filled + 1, |slots|))
    ensures Unrolled(slots[next := x], Successor(next, |slots|), Min(filled + 1, |slots|))
            == Last(Unrolled(slots, next, filled) + [x], |slots|)
  {
    var n, after := |slots|, slots[next := x];
    if filled == n {
      assert Last(Unrolled(slots, next, filled) + [x], n) == slots[next + 1..] + slots[..next] + [x];
      if next + 1 == n {
        assert after == slots[..next] + [x];
      } else {
        assert after[..next + 1] == slots[..next] + [x];
      }
    } else if filled + 1 == n {
      assert after == slots[..filled] + [x];
    }
  }

  /** The slot of the `k`-th oldest entry. */
  function SlotAt(n: nat, next: nat, filled: nat, k: nat): (slot: nat)
    requires IsRing(n, next, filled) && k < filled
    ensures slot < n
    ensures slot == if filled < n then k else if next + k < n then next + k else next + k - n
  {
    Wrap((if filled < n then 0 else next) + k, n)
  }

  lemma UnrolledAt<T>(slots: seq<T>, next: nat, filled: nat, k: nat)
    requires IsRing(|slots|, next, filled) && k < filled
    ensures Unrolled(slots, next, filled)[k] == slots[SlotAt(|slots|, next, filled, k)]
  {
  }

  lemma ReplaceUnrolls<T>(slots: seq<T>, next: nat, filled: nat, k: nat, x: T)
    requires IsRing(|slots|, next, filled) && k < filled
    ensures Unrolled(slots[SlotAt(|slots|, next, filled, k) := x], next, filled)
            == Unrolled(slots, next, filled)[k := x]
  {
    hide SlotAt;
  }
}
