/** The gossip duplicate window with its per-identity quota, entries oldest first. */
module MessageWindow {
  import opened Machine
  import opened Sorting
  import opened Windows

  type Digest = Bytes
  type Identity = Bytes

  const CACHE_IDENTITY_DIVISOR: nat := 8

  datatype Entry = Entry(hash: Digest, origin: Identity)

  /** How many of `capacity` slots one identity may hold. */
  function Quota(capacity: nat): (q: nat)
    ensures q >= 1 && (q > 1 ==> 8 * q <= capacity) && capacity < 8 * (q + 1)
  {
    Max(capacity / CACHE_IDENTITY_DIVISOR, 1)
  }

  function By(origin: Identity): Entry -> bool {
    (e: Entry) => e.origin == origin
  }

  /** The position of the oldest entry of `origin`, or the length. */
  function OldestOf(w: seq<Entry>, origin: Identity, from: nat): (k: nat)
    requires from <= |w|
    ensures from <= k <= |w|
    ensures k < |w| ==> w[k].origin == origin
    ensures forall i :: from <= i < k ==> w[i].origin != origin
    decreases |w| - from
  {
    if from == |w| || w[from].origin == origin then from else OldestOf(w, origin, from + 1)
  }

  /** An identity at its quota overwrites its own oldest entry in place; any other enters the
      window, out of which the oldest entry falls when it is full. */
  function Insert(w: seq<Entry>, e: Entry, capacity: nat): seq<Entry> {
    if capacity == 0 then w
    else if Count(w, By(e.origin)) >= Quota(capacity) then
      var k := OldestOf(w, e.origin, 0);
      if k < |w| then w[k := e] else w
    else Last(w + [e], capacity)
  }

  function InsertAll(w: seq<Entry>, es: seq<Entry>, capacity: nat, n: nat): seq<Entry>
    requires n <= |es|
  {
    if n == 0 then w else Insert(InsertAll(w, es, capacity, n - 1), es[n - 1], capacity)
  }

  // ---- counting an identity's entries, and everybody else's ------------------------------------------

  /** An identity at its quota has an entry to recycle. */
  lemma CountedHasOldest(w: seq<Entry>, origin: Identity)
    ensures Count(w, By(origin)) > 0 ==> OldestOf(w, origin, 0) < |w|
  {
    hide OldestOf, Count;
    if OldestOf(w, origin, 0) == |w| {
      CountNone(w, By(origin));
    }
  }

  /** The entries of everybody but `origin`, in order. */
  function Others(w: seq<Entry>, origin: Identity): seq<Entry> {
    if w == [] then []
    else Others(w[..|w| - 1], origin) + if w[|w| - 1].origin == origin then [] else [w[|w| - 1]]
  }

  lemma {:induction false} OthersConcat(a: seq<Entry>, b: seq<Entry>, origin: Identity)
    ensures Others(a + b, origin) == Others(a, origin) + Others(b, origin)
    decreases |b|
  {
    if b == [] {
      assert a + b == a;
    } else {
      assert (a + b)[..|a + b| - 1] == a + b[..|b| - 1];
      OthersConcat(a, b[..|b| - 1], origin);
    }
  }

  lemma OthersOne(x: Entry, origin: Identity)
    ensures Others([x], origin) == if x.origin == origin then [] else [x]
  {
    assert [x][..0] == [];
  }

  lemma {:induction false} OthersCount(w: seq<Entry>, origin: Identity)
    ensures |Others(w, origin)| == |w| - Count(w, By(origin))
  {
    if w != [] { OthersCount(w[..|w| - 1], origin); }
  }

  // ---- the three shapes of an insertion ---------------------------------------------------------------

  lemma Recycling(a: seq<Entry>, x: Entry, y: Entry, b: seq<Entry>, q: Identity)
    requires x.origin == y.origin
    ensures Count(a + ([y] + b), By(q)) == Count(a + ([x] + b), By(q))
    ensures Others(a + ([y] + b), x.origin) == Others(a + ([x] + b), x.origin)
  {
    hide Count, Others;
    CountAround(a, x, b, By(q));
    CountAround(a, y, b, By(q));
    OthersConcat(a, [x] + b, x.origin);
    OthersConcat([x], b, x.origin);
    OthersConcat(a, [y] + b, x.origin);
    OthersConcat([y], b, x.origin);
    OthersOne(x, x.origin);
    OthersOne(y, x.origin);
  }

  lemma Replacing(w: seq<Entry>, k: nat, e: Entry, q: Identity)
    requires k < |w| && w[k].origin == e.origin
    ensures Count(w[k := e], By(q)) == Count(w, By(q))
    ensures Others(w[k := e], e.origin) == Others(w, e.origin)
  {
    hide Count, Others;
    assert w == w[..k] + ([w[k]] + w[k + 1..]);
    assert w[k := e] == w[..k] + ([e] + w[k + 1..]);
    Recycling(w[..k], w[k], e, w[k + 1..], q);
  }

  lemma Appending(w: seq<Entry>, e: Entry, q: Identity)
    ensures Count(w + [e], By(q)) == Count(w, By(q)) + if q == e.origin then 1 else 0
    ensures Others(w + [e], e.origin) == Others(w, e.origin)
  {
    hide Count, Others;
    CountNext(w, e, By(q));
    OthersConcat(w, [e], e.origin);
    OthersOne(e, e.origin);
  }

  lemma Dropping(w: seq<Entry>, q: Identity)
    requires w != []
    ensures Count(w[1..], By(q)) == Count(w, By(q)) - if q == w[0].origin then 1 else 0
    ensures Others(w, q) == (if w[0].origin == q then [] else [w[0]]) + Others(w[1..], q)
  {
    hide Count, Others;
    assert w == [w[0]] + w[1..];
    CountConcat([w[0]], w[1..], By(q));
    CountOne(w[0], By(q));
    OthersConcat([w[0]], w[1..], q);
    OthersOne(w[0], q);
  }

  /** What an insertion does. An identity at its quota has its own first entry overwritten in place; any
      other one's entry goes to the end, and the first entry of a full window falls out. */
  lemma InsertMeans(w: seq<Entry>, e: Entry, capacity: nat)
    requires |w| <= capacity
    ensures capacity > 0 && Count(w, By(e.origin)) >= Quota(capacity) ==>
              exists k :: && 0 <= k < |w| && w[k].origin == e.origin
                          && (forall i :: 0 <= i < k ==> w[i].origin != e.origin)
                          && Insert(w, e, capacity) == w[k := e]
    ensures capacity > 0 && Count(w, By(e.origin)) < Quota(capacity) ==>
              Insert(w, e, capacity) == (if |w| < capacity then w else w[1..]) + [e]
    ensures capacity == 0 ==> Insert(w, e, capacity) == []
  {
    hide Count, OldestOf, Quota;
    CountedHasOldest(w, e.origin);
    var k := OldestOf(w, e.origin, 0);
    if capacity > 0 && Count(w, By(e.origin)) >= Quota(capacity) {
      assert Insert(w, e, capacity) == w[k := e];
    }
  }

  /** `s` with some of its oldest elements gone. */
  predicate IsSuffix<T(==)>(t: seq<T>, s: seq<T>) {
    |t| <= |s| && t == s[|s| - |t|..]
  }

  lemma LastSlides(w: seq<Entry>, e: Entry)
    requires w != []
    ensures Last(w + [e], |w|) == w[1..] + [e]
  {
  }

  lemma Sliding(w: seq<Entry>, e: Entry, q: Identity)
    requires w != []
    ensures Count(Last(w + [e], |w|), By(q))
            == Count(w, By(q)) - (if q == w[0].origin then 1 else 0) + (if q == e.origin then 1 else 0)
    ensures IsSuffix(Others(Last(w + [e], |w|), e.origin), Others(w, e.origin))
  {
    hide Count, Others, By, Last;
    LastSlides(w, e);
    Dropping(w, q);
    Appending(w[1..], e, q);
    assert IsSuffix(Others(w[1..], e.origin), Others(w, e.origin)) by { Dropping(w, e.origin); }
  }

  /** One insertion costs the others only their oldest entries, and no more of them than the
      inserting identity gains. */
  lemma InsertTakesFromOldest(w: seq<Entry>, e: Entry, capacity: nat)
    requires |w| <= capacity
    ensures |w| <= |Insert(w, e, capacity)| <= capacity
    ensures Count(w, By(e.origin)) <= Count(Insert(w, e, capacity), By(e.origin))
    ensures IsSuffix(Others(Insert(w, e, capacity), e.origin), Others(w, e.origin))
  {
    hide Count, Others, OldestOf, Quota;
    if capacity > 0 {
      if Count(w, By(e.origin)) >= Quota(capacity) {
        CountedHasOldest(w, e.origin);
        Replacing(w, OldestOf(w, e.origin, 0), e, e.origin);
      } else if |w| < capacity {
        Appending(w, e, e.origin);
      } else {
        Sliding(w, e, e.origin);
      }
    }
  }

  /** No insertion takes an identity over its quota. */
  lemma InsertKeepsQuota(w: seq<Entry>, e: Entry, capacity: nat, q: Identity)
    requires |w| <= capacity && Count(w, By(q)) <= Quota(capacity)
    ensures Count(Insert(w, e, capacity), By(q)) <= Quota(capacity)
  {
    hide Count, Others, OldestOf, Quota;
    if capacity > 0 {
      if Count(w, By(e.origin)) >= Quota(capacity) {
        CountedHasOldest(w, e.origin);
        Replacing(w, OldestOf(w, e.origin, 0), e, q);
      } else if |w| < capacity {
        Appending(w, e, q);
      } else {
        Sliding(w, e, q);
      }
    }
  }

  // ---- runs ------------------------------------------------------------------------------------------

  /** After any sequence of insertions into an empty window, no identity holds more than its quota. */
  lemma {:induction false} QuotaHolds(es: seq<Entry>, capacity: nat, n: nat, q: Identity)
    requires n <= |es|
    ensures |InsertAll([], es, capacity, n)| <= capacity
    ensures Count(InsertAll([], es, capacity, n), By(q)) <= Quota(capacity)
  {
    if n > 0 {
      hide Insert, Quota;
      QuotaHolds(es, capacity, n - 1, q);
      InsertTakesFromOldest(InsertAll([], es, capacity, n - 1), es[n - 1], capacity);
      InsertKeepsQuota(InsertAll([], es, capacity, n - 1), es[n - 1], capacity, q);
    }
  }

  /** The quota is there to be used: an identity's first entries, up to its quota, are all kept. */
  lemma {:induction false} QuotaCanBeFilled(es: seq<Entry>, capacity: nat, n: nat, q: Identity)
    requires n <= |es| && n <= Quota(capacity) && n <= capacity && forall i :: 0 <= i < n ==> es[i].origin == q
    ensures InsertAll([], es, capacity, n) == es[..n] && Count(es[..n], By(q)) == n
  {
    if n > 0 {
      hide Count, Insert, Quota;
      QuotaCanBeFilled(es, capacity, n - 1, q);
      InsertMeans(es[..n - 1], es[n - 1], capacity);
      assert es[..n] == es[..n - 1] + [es[n - 1]];
      CountNext(es[..n - 1], es[n - 1], By(q));
    }
  }

  /** A run of insertions by one identity, from any window, removes at most quota minus its starting
      count of the entries of the others, oldest first: none once the identity is at its quota. */
  lemma {:induction false} FloodIsBudgeted(w: seq<Entry>, es: seq<Entry>, capacity: nat, n: nat, flooder: Identity)
    requires n <= |es| && (forall i :: 0 <= i < n ==> es[i].origin == flooder)
    requires |w| <= capacity && Count(w, By(flooder)) <= Quota(capacity)
    ensures var after := InsertAll(w, es, capacity, n);
            && |w| <= |after| <= capacity
            && IsSuffix(Others(after, flooder), Others(w, flooder))
            && |Others(w, flooder)| - |Others(after, flooder)| <= Quota(capacity) - Count(w, By(flooder))
            && Count(w, By(flooder)) <= Count(after, By(flooder)) <= Quota(capacity)
  {
    hide Insert, Quota, Count, Others;
    if n > 0 {
      var before := InsertAll(w, es, capacity, n - 1);
      FloodIsBudgeted(w, es, capacity, n - 1, flooder);
      InsertTakesFromOldest(before, es[n - 1], capacity);
      InsertKeepsQuota(before, es[n - 1], capacity, flooder);
    }
    OthersCount(w, flooder);
    OthersCount(InsertAll(w, es, capacity, n), flooder);
  }

  /** At its quota, an identity leaves every entry of the others alone. */
  lemma FloodAtQuotaTakesNothing(w: seq<Entry>, es: seq<Entry>, capacity: nat, n: nat, flooder: Identity)
    requires n <= |es| && (forall i :: 0 <= i < n ==> es[i].origin == flooder)
    requires |w| <= capacity && Count(w, By(flooder)) == Quota(capacity)
    ensures Others(InsertAll(w, es, capacity, n), flooder) == Others(w, flooder)
  {
    hide InsertAll, Quota, Count, Others;
    FloodIsBudgeted(w, es, capacity, n, flooder);
  }

  // ---- distinct digests --------------------------------------------------------------------------------

  ghost predicate DistinctHashes(w: seq<Entry>) {
    forall i, j :: 0 <= i < j < |w| ==> w[i].hash != w[j].hash
  }

  predicate Holds(w: seq<Entry>, hash: Digest) {
    exists i :: 0 <= i < |w| && w[i].hash == hash
  }

  /** Inserting a digest the window does not hold keeps its digests distinct, and every entry
      afterwards is the new one or one that was there. */
  lemma InsertKeepsDistinct(w: seq<Entry>, e: Entry, capacity: nat)
    requires |w| <= capacity && DistinctHashes(w) && !Holds(w, e.hash)
    ensures DistinctHashes(Insert(w, e, capacity))
    ensures forall i :: 0 <= i < |Insert(w, e, capacity)| ==>
              Insert(w, e, capacity)[i] == e || Insert(w, e, capacity)[i] in w
    ensures capacity > 0 ==> e in Insert(w, e, capacity)
  {
    hide Count, OldestOf, Quota;
    CountedHasOldest(w, e.origin);
    if capacity > 0 {
      if Count(w, By(e.origin)) >= Quota(capacity) {
        assert Insert(w, e, capacity)[OldestOf(w, e.origin, 0)] == e;
      } else {
        var after := Last(w + [e], capacity);
        assert after[|after| - 1] == e;
      }
    }
  }
}
