/** The maturity controller, its window postings, and the verifier that recomputes them. */
module Maturity {
  import opened Machine
  import opened Sorting
  import opened Coverage
  import opened AccumulatorRoot
  import opened Ratchet

  datatype ClassState = ClassState(stage: Stage, p: real, lastWindow: int, slashMult: real, pioneerArmed: bool)

  datatype RegistrationSet = RegistrationSet(nodes: int, clusters: int, asns: int, regions: int) {
    predicate MeetsDiversity() {
      nodes >= 50 && clusters >= 25 && asns >= 10 && regions >= 5
    }
  }

  datatype Transition = Transition(key: Key, from: Class, to: Class, kind: Kind, gateOk: bool)

  // ---- postings ---------------------------------------------------------------------------------------

  /** The hash, from bytes to a 32-byte digest. */
  datatype RootHash = RootHash(of: Bytes -> Bytes)

  datatype Posting = Posting(key: Key, root: Bytes, from: Class, to: Class)

  datatype Fraud = RootMismatch | BadPrior | Undersampling | OverAdvanced

  /** What checking a posting comes to; `Unencodable` where the code raises OverflowError. */
  datatype Verdict = Clean | Flagged(fraud: Fraud) | Unencodable

  function MakePosting(h: RootHash, tr: Transition, acc: Accumulator): Option<Posting> {
    var bytes :- Serialize(acc);
    Some(Posting(tr.key, h.of(bytes), tr.from, tr.to))
  }

  predicate Near(a: real, b: real) {
    -EPS < a - b < EPS
  }

  function VerifyPosting(h: RootHash, posting: Posting, receipts: seq<Receipt>, prior: Class, th: Thresholds,
                         groups: seq<Group>): Verdict
  {
    var acc := AccumulatorOf(receipts, groups, posting.key);
    var bytes := Serialize(acc);
    if bytes.None? then Unencodable
    else if h.of(bytes.value) != posting.root then Flagged(RootMismatch)
    else if posting.from.stage != prior.stage || !Near(posting.from.p, prior.p) then Flagged(BadPrior)
    else
      var legal := Evaluate(prior.stage, prior.p, Gate(acc, th), false);
      if posting.to.p < legal.p - EPS then Flagged(Undersampling)
      else if posting.to.stage.Rank() > legal.stage.Rank() then Flagged(OverAdvanced)
      else Clean
  }

  /** Which verdict each condition gives: a root that is not the accumulator's, a claimed prior state other
      than the known one, a rate below the legal one, a stage beyond it; and clean exactly when none holds. */
  lemma VerdictMeans(h: RootHash, posting: Posting, receipts: seq<Receipt>, prior: Class, th: Thresholds,
                     groups: seq<Group>)
    requires Serialize(AccumulatorOf(receipts, groups, posting.key)).Some?
    ensures var acc := AccumulatorOf(receipts, groups, posting.key);
            var verdict := VerifyPosting(h, posting, receipts, prior, th, groups);
            var legal := Evaluate(prior.stage, prior.p, Gate(acc, th), false);
            var mismatch := posting.root != h.of(Serialize(acc).value);
            var otherPrior := || posting.from.stage != prior.stage
                              || posting.from.p <= prior.p - EPS || posting.from.p >= prior.p + EPS;
            var under := posting.to.p < legal.p - EPS;
            var over := posting.to.stage.Rank() > legal.stage.Rank();
            && (verdict == Flagged(RootMismatch) <==> mismatch)
            && (verdict == Flagged(BadPrior) <==> !mismatch && otherPrior)
            && (verdict == Flagged(Undersampling) <==> !mismatch && !otherPrior && under)
            && (verdict == Flagged(OverAdvanced) <==> !mismatch && !otherPrior && !under && over)
            && (verdict == Clean <==> !mismatch && !otherPrior && !under && !over)
  {
    hide AccumulatorOf, Gate, Evaluate, Serialize;
  }

  /** What the controller does with one window of a class. */
  function Process(c: Class, key: Key, receipts: seq<Receipt>, groups: seq<Group>, burst: bool, th: Thresholds)
    : Transition
  {
    var ok := Gate(AccumulatorOf(receipts, groups, key), th);
    var m := Evaluate(c.stage, c.p, ok, burst);
    Transition(key, c, Class(m.stage, m.p), m.kind, ok)
  }

  /** A forced snap never leaves a class less sampled or further advanced than the gate would have. */
  lemma ForcedSnapIsConservative(c: Class, gateOk: bool)
    requires IsReachable(c.stage, c.p)
    ensures var forced, legal := Evaluate(c.stage, c.p, gateOk, true), Evaluate(c.stage, c.p, gateOk, false);
            forced.p >= legal.p && forced.stage.Rank() <= legal.stage.Rank()
  {
  }

  /** An honest posting from a reachable state is never flagged, whether or not an anomaly forced a
      snap, and however the verifier's copy of the receipts is ordered; it can be made exactly when
      the accumulator can be encoded. */
  lemma HonestPostingIsNeverFlagged(h: RootHash, c: Class, key: Key, receipts: seq<Receipt>, published: seq<Receipt>,
                                    groups: seq<Group>, burst: bool, th: Thresholds)
    requires IsReachable(c.stage, c.p) && multiset(receipts) == multiset(published)
    ensures var tr, acc := Process(c, key, receipts, groups, burst, th), AccumulatorOf(receipts, groups, key);
            match MakePosting(h, tr, acc)
            case Some(posting) => VerifyPosting(h, posting, published, c, th, groups) == Clean
            case None => !Encodable(acc)
  {
    hide AccumulatorOf, Gate, Evaluate, IsReachable, Encodable;
    OrderDoesNotMatter(receipts, published, groups, key);
    ForcedSnapIsConservative(c, Gate(AccumulatorOf(receipts, groups, key), th));
  }

  // ---- what an undetected orchestrator can do ------------------------------------------------------------

  /** One posted window, as published. */
  datatype Published = Published(posting: Posting, receipts: seq<Receipt>, groups: seq<Group>)

  /** The state the verifier holds before window `n`: what was claimed last. */
  function Known(c: Class, ps: seq<Published>, n: nat): Class
    requires n <= |ps|
  {
    if n == 0 then c else ps[n - 1].posting.to
  }

  ghost predicate Undetected(h: RootHash, th: Thresholds, c: Class, ps: seq<Published>, n: nat)
    requires n <= |ps|
  {
    forall i :: 0 <= i < n ==>
      VerifyPosting(h, ps[i].posting, ps[i].receipts, Known(c, ps, i), th, ps[i].groups) == Clean
  }

  lemma LegalRateKeepsFloor(c: Class, gateOk: bool, x: real)
    requires 0.0 <= x <= P_FLOOR && x <= c.p
    ensures Evaluate(c.stage, c.p, gateOk, false).p >= x
  {
  }

  /** Whatever it claims, an orchestrator that is never flagged cannot bring the sampling rate below
      the floor by more than one epsilon per window. */
  lemma {:induction false} UndetectedKeepsFloor(h: RootHash, th: Thresholds, c: Class, ps: seq<Published>, n: nat)
    requires n <= |ps| && c.p >= P_FLOOR && Undetected(h, th, c, ps, n) && n as real * EPS <= P_FLOOR
    ensures Known(c, ps, n).p >= P_FLOOR - n as real * EPS
  {
    if n > 0 {
      hide AccumulatorOf, Gate, Evaluate;
      UndetectedKeepsFloor(h, th, c, ps, n - 1);
      var e := ps[n - 1];
      assert VerifyPosting(h, e.posting, e.receipts, Known(c, ps, n - 1), th, e.groups) == Clean;
      LegalRateKeepsFloor(Known(c, ps, n - 1), Gate(AccumulatorOf(e.receipts, e.groups, e.posting.key), th),
                          P_FLOOR - (n - 1) as real * EPS);
    }
  }

  /** A clean posting may claim one epsilon less than a mature class's rate, when its gate passes. */
  function Shaved(h: RootHash, c: Class, key: Key, bytes: Bytes): Posting {
    Posting(key, h.of(bytes), c, Class(Mature, c.p - EPS))
  }

  lemma ShavedIsClean(h: RootHash, th: Thresholds, c: Class, key: Key, receipts: seq<Receipt>, groups: seq<Group>)
    requires var acc := AccumulatorOf(receipts, groups, key);
             c.stage.Mature? && Gate(acc, th) && Serialize(acc).Some?
    ensures var bytes := Serialize(AccumulatorOf(receipts, groups, key)).value;
            VerifyPosting(h, Shaved(h, c, key, bytes), receipts, c, th, groups) == Clean
  {
    hide AccumulatorOf, Gate, Serialize;
  }

  /** The bound is tight: through any windows whose gates pass, some unflagged claims take a mature class
      from the floor to exactly one epsilon per window below it. */
  lemma {:induction false} DriftIsReached(h: RootHash, th: Thresholds, keys: seq<Key>, receipts: seq<seq<Receipt>>,
                                          groups: seq<Group>, n: nat)
    returns (ps: seq<Published>)
    requires |keys| == |receipts| == n
    requires forall i :: 0 <= i < n ==>
               var acc := AccumulatorOf(receipts[i], groups, keys[i]);
               Gate(acc, th) && Serialize(acc).Some?
    ensures |ps| == n && Undetected(h, th, Class(Mature, P_FLOOR), ps, n)
    ensures Known(Class(Mature, P_FLOOR), ps, n) == Class(Mature, P_FLOOR - n as real * EPS)
    decreases n
  {
    hide AccumulatorOf, Gate, Serialize, VerifyPosting;
    ps := [];
    if n > 0 {
      var before := DriftIsReached(h, th, keys[..n - 1], receipts[..n - 1], groups, n - 1);
      var start := Class(Mature, P_FLOOR);
      var c := Known(start, before, n - 1);
      var bytes := Serialize(AccumulatorOf(receipts[n - 1], groups, keys[n - 1])).value;
      ShavedIsClean(h, th, c, keys[n - 1], receipts[n - 1], groups);
      ps := before + [Published(Shaved(h, c, keys[n - 1], bytes), receipts[n - 1], groups)];
      forall i | 0 <= i < n
        ensures VerifyPosting(h, ps[i].posting, ps[i].receipts, Known(start, ps, i), th, ps[i].groups) == Clean
      {
        if i < n - 1 { assert ps[i] == before[i] && Known(start, ps, i) == Known(start, before, i); }
      }
    }
  }

  /** Held windows a claimed state still owes before maturity, with room for claims that are off by
      the tolerance. */
  function Owed(c: Class): (d: nat) {
    match c.stage
    case Candidate => 4
    case Probation => 4
    case Relax => if c.p <= 0.2 then 1 else if c.p <= 0.45 then 2 else 3
    case Mature => 0
  }

  predicate GatePassed(th: Thresholds, e: Published) {
    Gate(AccumulatorOf(e.receipts, e.groups, e.posting.key), th)
  }

  /** A claim that is not flagged pays off at most one window, and only when the gate passed. */
  lemma UnflaggedPaysOne(h: RootHash, th: Thresholds, c: Class, e: Published)
    requires VerifyPosting(h, e.posting, e.receipts, c, th, e.groups) == Clean
    ensures Owed(e.posting.to) >= Owed(c) - if GatePassed(th, e) then 1 else 0
  {
    hide AccumulatorOf, Gate;
  }

  function GatesPassed(th: Thresholds, ps: seq<Published>, n: nat): nat
    requires n <= |ps|
  {
    if n == 0 then 0 else GatesPassed(th, ps, n - 1) + if GatePassed(th, ps[n - 1]) then 1 else 0
  }

  lemma {:induction false} UndetectedPaysForProgress(h: RootHash, th: Thresholds, c: Class, ps: seq<Published>, n: nat)
    requires n <= |ps| && Undetected(h, th, c, ps, n)
    ensures GatesPassed(th, ps, n) >= Owed(c) - Owed(Known(c, ps, n))
  {
    hide VerifyPosting, Owed, GatePassed, Gate, AccumulatorOf, Evaluate;
    if n > 0 {
      UndetectedPaysForProgress(h, th, c, ps, n - 1);
      UnflaggedPaysOne(h, th, Known(c, ps, n - 1), ps[n - 1]);
    }
  }

  /** Whatever it claims along the way, an orchestrator that is never flagged cannot take a class from
      probation to maturity without four windows whose published receipts pass the gate. */
  lemma UndetectedMaturityNeedsFourGates(h: RootHash, th: Thresholds, c: Class, ps: seq<Published>, n: nat)
    requires n <= |ps| && Undetected(h, th, c, ps, n)
    requires c.stage.Probation? && Known(c, ps, n).stage.Mature?
    ensures GatesPassed(th, ps, n) >= 4
  {
    hide Undetected, GatesPassed, Known;
    UndetectedPaysForProgress(h, th, c, ps, n);
  }

  /** The posted root fixes the accumulator: unless the hash collides on the two encodings, one posting
      cannot be clean against two sets of receipts that fold differently. */
  lemma RootFixesAccumulator(h: RootHash, th: Thresholds, c: Class, posting: Posting, a: seq<Receipt>, b: seq<Receipt>,
                             groups: seq<Group>)
    requires VerifyPosting(h, posting, a, c, th, groups) == Clean == VerifyPosting(h, posting, b, c, th, groups)
    requires var x := Serialize(AccumulatorOf(a, groups, posting.key)).value;
             var y := Serialize(AccumulatorOf(b, groups, posting.key)).value;
             h.of(x) == h.of(y) ==> x == y
    ensures AccumulatorOf(a, groups, posting.key) == AccumulatorOf(b, groups, posting.key)
  {
    hide AccumulatorOf, Gate, Evaluate, Serialize;
    SerializeInjective(AccumulatorOf(a, groups, posting.key), AccumulatorOf(b, groups, posting.key));
  }

  // ---- the fold as it runs ----------------------------------------------------------------------------------

  method ClusterRepresentatives(groups: seq<Group>) returns (rep: map<Cluster, Cluster>)
    ensures forall c :: (if c in rep then rep[c] else c) == Representative(groups, c)
  {
    rep := map[];
    for i := 0 to |groups|
      invariant forall c :: (if c in rep then rep[c] else c) == Representative(groups[..i], c)
    {
      var r := Least(groups[i]);
      rep := rep + map c | c in groups[i] :: r;
      assert groups[..i + 1] == groups[..i] + [groups[i]];
      forall c { RepresentativeAfter(groups[..i], groups[i], c); }
    }
    assert groups[..|groups|] == groups;
  }

  /** The running totals of one class and window. */
  datatype Tally = Tally(volume: nat, divergences: nat, faults: nat, clusters: set<Cluster>, asns: set<Asn>)

  function TallyOf(receipts: seq<Receipt>, groups: seq<Group>, key: Key): Tally {
    Tally(Count(receipts, For(key)), Count(receipts, DivergedFor(key)), Count(receipts, FaultFor(key)),
          Represented(groups, ClustersOf(receipts, key)), AsnsOf(receipts, key))
  }

  function Bump(t: Tally, r: Receipt, cluster: Cluster): Tally {
    Tally(t.volume + 1, t.divergences + (if r.diverged then 1 else 0), t.faults + (if r.fault then 1 else 0),
          t.clusters + {cluster}, t.asns + {r.asn})
  }

  lemma TallyNext(receipts: seq<Receipt>, r: Receipt, groups: seq<Group>, key: Key)
    ensures TallyOf(receipts + [r], groups, key)
            == if r.key == key then Bump(TallyOf(receipts, groups, key), r, Representative(groups, r.cluster))
               else TallyOf(receipts, groups, key)
  {
    hide Count, Representative;
    CountNext(receipts, r, For(key));
    CountNext(receipts, r, DivergedFor(key));
    CountNext(receipts, r, FaultFor(key));
    SetsNext(receipts, r, groups, key);
  }

  lemma NoTally(groups: seq<Group>, key: Key)
    ensures TallyOf([], groups, key) == Tally(0, 0, 0, {}, {})
  {
  }

  function Finish(key: Key, t: Tally): Accumulator {
    Accumulator(key, t.volume, t.divergences, t.faults, |t.clusters|, |t.asns|)
  }

  lemma FinishedTally(receipts: seq<Receipt>, groups: seq<Group>, key: Key)
    ensures Finish(key, TallyOf(receipts, groups, key)) == AccumulatorOf(receipts, groups, key)
  {
  }

  lemma SetsNext(receipts: seq<Receipt>, r: Receipt, groups: seq<Group>, key: Key)
    ensures var all := receipts + [r];
            && AsnsOf(all, key) == AsnsOf(receipts, key) + (if r.key == key then {r.asn} else {})
            && Represented(groups, ClustersOf(all, key))
               == Represented(groups, ClustersOf(receipts, key))
                  + (if r.key == key then {Representative(groups, r.cluster)} else {})
  {
    hide Representative;
    var all := receipts + [r];
    assert forall q :: q in all <==> q in receipts || q == r;
    assert ClustersOf(all, key) == ClustersOf(receipts, key) + (if r.key == key then {r.cluster} else {});
    assert AsnsOf(all, key) == AsnsOf(receipts, key) + (if r.key == key then {r.asn} else {});
  }

  function KeysOf(receipts: seq<Receipt>): set<Key> {
    set r | r in receipts :: r.key
  }

  method FoldReceipts(receipts: seq<Receipt>, groups: seq<Group>) returns (accs: map<Key, Accumulator>)
    ensures accs.Keys == KeysOf(receipts)
    ensures forall k :: k in accs ==> accs[k] == AccumulatorOf(receipts, groups, k)
  {
    hide TallyOf, Representative, AccumulatorOf;
    var rep := ClusterRepresentatives(groups);
    var tmp: map<Key, Tally> := map[];
    forall k { NoTally(groups, k); }
    assert receipts[..0] == [];
    for i := 0 to |receipts|
      invariant tmp.Keys == KeysOf(receipts[..i])
      invariant forall k :: TallyOf(receipts[..i], groups, k) == if k in tmp then tmp[k] else Tally(0, 0, 0, {}, {})
    {
      var r := receipts[i];
      var t := if r.key in tmp then tmp[r.key] else Tally(0, 0, 0, {}, {});
      assert receipts[..i + 1] == receipts[..i] + [r];
      forall k { TallyNext(receipts[..i], r, groups, k); }
      tmp := tmp[r.key := Bump(t, r, if r.cluster in rep then rep[r.cluster] else r.cluster)];
    }
    assert receipts[..|receipts|] == receipts;
    forall k { FinishedTally(receipts, groups, k); }
    accs := map k | k in tmp :: Finish(k, tmp[k]);
  }

  // ---- the controller -------------------------------------------------------------------------------------------

  /** What every state the controller ever holds satisfies. */
  ghost predicate Sound(s: ClassState) {
    IsReachable(s.stage, s.p) && BASE_SLASH <= s.slashMult <= SLASH_CAP
  }

  lemma SoundMeansSafe(s: ClassState)
    requires Sound(s)
    ensures P_FLOOR <= s.p <= 1.0 && s.slashMult * s.p >= 2.25
    ensures !s.stage.Candidate? ==> (s.stage.Probation? <==> s.p == 1.0)
    ensures s.stage.Mature? ==> s.p == P_FLOOR
  {
    ProductAtLeast(s.slashMult, s.p);
  }

  class MaturityController {
    const th: Thresholds
    const tolRef: real
    var states: map<ClassId, ClassState>

    ghost predicate Valid()
      reads this
    {
      forall id :: id in states ==> Sound(states[id])
    }

    constructor (th: Thresholds, tolRef: real)
      ensures Valid() && states == map[] && this.th == th && this.tolRef == tolRef
    {
      this.th, this.tolRef, states := th, tolRef, map[];
    }

    method RegisterClass(id: ClassId, reg: RegistrationSet, tolWidth: real, window: int) returns (ok: bool)
      requires Valid()
      modifies this
      ensures Valid()
      ensures ok <==> reg.nodes >= 50 && reg.clusters >= 25 && reg.asns >= 10 && reg.regions >= 5
      ensures states.Keys == old(states.Keys) + {id}
      ensures forall k :: k in old(states) && k != id ==> states[k] == old(states[k])
      ensures states[id].p == 1.0 && states[id].lastWindow == window
      ensures states[id].stage == (if ok then Probation else Candidate) && states[id].pioneerArmed == ok
      ensures states[id].slashMult == if ok then SlashMultiple(tolWidth, tolRef) else BASE_SLASH
    {
      SlashInRange(tolWidth, tolRef);
      if !reg.MeetsDiversity() {
        states := states[id := ClassState(Candidate, 1.0, window, BASE_SLASH, false)];
        return false;
      }
      states := states[id := ClassState(Probation, 1.0, window, SlashMultiple(tolWidth, tolRef), true)];
      return true;
    }

    /** One window of a class; nothing for a class that was never registered. */
    method ProcessWindow(id: ClassId, receipts: seq<Receipt>, groups: seq<Group>, burst: bool, window: int)
      returns (done: Option<(Transition, Accumulator)>)
      requires Valid()
      modifies this
      ensures Valid()
      ensures done.None? <==> id !in old(states)
      ensures done.None? ==> states == old(states)
      ensures done.Some? ==>
                var s, key := old(states[id]), Key(id, window);
                && done.value.0 == Process(Class(s.stage, s.p), key, receipts, groups, burst, th)
                && done.value.1 == AccumulatorOf(receipts, groups, key)
                && var to := done.value.0.to;
                   states == old(states)[id := s.(stage := to.stage, p := to.p, lastWindow := window)]
    {
      if id !in states {
        return None;
      }
      hide AccumulatorOf, Gate, Evaluate, IsReachable, KeysOf;
      var s, key := states[id], Key(id, window);
      var accs := FoldReceipts(receipts, groups);
      EmptyAccumulator(receipts, groups, key);
      var acc := if key in accs then accs[key] else Accumulator(key, 0, 0, 0, 0, 0);
      var gateOk := Gate(acc, th);
      var m := Evaluate(s.stage, s.p, gateOk, burst);
      EvaluateKeepsReachable(s.stage, s.p, gateOk, burst);
      var tr := Transition(key, Class(s.stage, s.p), Class(m.stage, m.p), m.kind, gateOk);
      states := states[id := ClassState(m.stage, m.p, window, s.slashMult, s.pioneerArmed)];
      return Some((tr, acc));
    }
  }

  lemma EmptyAccumulator(receipts: seq<Receipt>, groups: seq<Group>, key: Key)
    ensures key !in KeysOf(receipts) ==> AccumulatorOf(receipts, groups, key) == Accumulator(key, 0, 0, 0, 0, 0)
  {
    hide Count;
    if key !in KeysOf(receipts) {
      forall r | r in receipts ensures r.key != key { }
      CountNone(receipts, For(key));
      CountNone(receipts, DivergedFor(key));
      CountNone(receipts, FaultFor(key));
      assert ClustersOf(receipts, key) == {} && AsnsOf(receipts, key) == {};
    }
  }
}
