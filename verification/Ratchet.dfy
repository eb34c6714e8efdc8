/** The maturity ratchet: one step down per held window, a snap up on any breach. */
module Ratchet {
  const P_FLOOR: real := 0.15
  const BASE_SLASH: real := 15.0
  const SLASH_CAP: real := 20.0
  const EPS: real := 0.000000001

  function MinReal(a: real, b: real): real {
    if a <= b then a else b
  }

  function MaxReal(a: real, b: real): real {
    if a <= b then b else a
  }

  datatype Stage = Candidate | Probation | Relax | Mature {
    function Rank(): nat {
      match this
      case Candidate => 0
      case Probation => 1
      case Relax => 2
      case Mature => 3
    }
  }

  datatype Kind = Promote | RelaxStep | Matured | Snap | Hold

  datatype Move = Move(stage: Stage, p: real, kind: Kind)

  function SnapUp(p: real): Move {
    var q := MinReal(1.0, p * 2.0);
    Move(if q >= 1.0 - EPS then Probation else Relax, q, Snap)
  }

  function Evaluate(stage: Stage, p: real, gateOk: bool, forceSnap: bool): Move {
    if forceSnap && (stage.Relax? || stage.Mature?) && p < 1.0 - EPS then SnapUp(p)
    else match stage
      case Candidate => Move(Candidate, p, Hold)
      case Probation => if gateOk then Move(Relax, 0.5, Promote) else Move(Probation, 1.0, Hold)
      case Relax =>
        if !gateOk then SnapUp(p)
        else if p > P_FLOOR + EPS then Move(Relax, MaxReal(P_FLOOR, p / 2.0), RelaxStep)
        else Move(Mature, P_FLOOR, Matured)
      case Mature => if gateOk then Move(Mature, p, Hold) else SnapUp(p)
  }

  // ---- the states a registered class can be in -------------------------------------------------------

  predicate IsReachable(stage: Stage, p: real) {
    match stage
    case Candidate => p == 1.0
    case Probation => p == 1.0
    case Relax => p == 0.6 || p == 0.5 || p == 0.3 || p == 0.25 || p == P_FLOOR
    case Mature => p == P_FLOOR
  }

  lemma EvaluateKeepsReachable(stage: Stage, p: real, gateOk: bool, forceSnap: bool)
    requires IsReachable(stage, p)
    ensures var m := Evaluate(stage, p, gateOk, forceSnap);
            IsReachable(m.stage, m.p) && (m.stage.Candidate? <==> stage.Candidate?)
  {
  }

  /** Held windows left until the class is mature. */
  function Distance(stage: Stage, p: real): (d: nat) {
    match stage
    case Candidate => 4
    case Probation => 4
    case Relax => if p <= P_FLOOR then 1 else if p <= 0.3 then 2 else 3
    case Mature => 0
  }

  /** A window in which the gate held and nothing forced a snap. */
  predicate Held(gateOk: bool, forceSnap: bool) {
    gateOk && !forceSnap
  }

  /** A held window brings a registered class exactly one step closer; a snap costs at least one
      step; nothing else moves it. */
  lemma DistanceSteps(stage: Stage, p: real, gateOk: bool, forceSnap: bool)
    requires IsReachable(stage, p) && !stage.Candidate?
    ensures var m := Evaluate(stage, p, gateOk, forceSnap);
            var d, e := Distance(stage, p), Distance(m.stage, m.p);
            && (Held(gateOk, forceSnap) ==> e == (if d == 0 then 0 else d - 1) && !m.kind.Snap?)
            && (m.kind.Snap? ==> e >= d + 1)
            && (m.kind.Hold? ==> e == d)
            && (m.kind.Promote? || m.kind.RelaxStep? || m.kind.Matured? ==> gateOk && e == d - 1)
  {
  }

  // ---- runs of windows ---------------------------------------------------------------------------------

  /** What a window brings: its gate, and whether an anomaly forced a snap. */
  datatype Window = Window(gateOk: bool, forceSnap: bool)

  datatype Class = Class(stage: Stage, p: real)

  function Next(c: Class, w: Window): Class {
    var m := Evaluate(c.stage, c.p, w.gateOk, w.forceSnap);
    Class(m.stage, m.p)
  }

  function KindOf(c: Class, w: Window): Kind {
    Evaluate(c.stage, c.p, w.gateOk, w.forceSnap).kind
  }

  function After(c: Class, ws: seq<Window>, n: nat): Class
    requires n <= |ws|
  {
    if n == 0 then c else Next(After(c, ws, n - 1), ws[n - 1])
  }

  /** How many of the first `n` windows moved the class by the given kind of step. */
  function Steps(c: Class, ws: seq<Window>, n: nat, counts: Kind -> bool): nat
    requires n <= |ws|
  {
    if n == 0 then 0
    else Steps(c, ws, n - 1, counts) + if counts(KindOf(After(c, ws, n - 1), ws[n - 1])) then 1 else 0
  }

  function Advances(): Kind -> bool {
    (k: Kind) => k.Promote? || k.RelaxStep? || k.Matured?
  }

  function Snaps(): Kind -> bool {
    (k: Kind) => k.Snap?
  }

  ghost predicate Registered(c: Class) {
    IsReachable(c.stage, c.p) && !c.stage.Candidate?
  }

  lemma {:induction false} RunStaysRegistered(c: Class, ws: seq<Window>, n: nat)
    requires n <= |ws| && Registered(c)
    ensures Registered(After(c, ws, n))
  {
    if n > 0 {
      hide Evaluate, IsReachable;
      RunStaysRegistered(c, ws, n - 1);
      var b := After(c, ws, n - 1);
      EvaluateKeepsReachable(b.stage, b.p, ws[n - 1].gateOk, ws[n - 1].forceSnap);
    }
  }

  /** Over every run the sampling rate stays between the floor and 1; a class is in probation exactly
      at rate 1, and mature only at the floor. */
  lemma RateStaysInRange(c: Class, ws: seq<Window>, n: nat)
    requires n <= |ws| && Registered(c)
    ensures var d := After(c, ws, n);
            && P_FLOOR <= d.p <= 1.0
            && (d.stage.Probation? <==> d.p == 1.0)
            && (d.stage.Mature? ==> d.p == P_FLOOR)
  {
    hide After;
    RunStaysRegistered(c, ws, n);
  }

  /** Every run pays for progress one advance at a time, and for each snap with one more. */
  lemma {:induction false} ProgressIsPaidFor(c: Class, ws: seq<Window>, n: nat)
    requires n <= |ws| && Registered(c)
    ensures var d := After(c, ws, n);
            Steps(c, ws, n, Advances())
            >= Distance(c.stage, c.p) - Distance(d.stage, d.p) + Steps(c, ws, n, Snaps())
  {
    if n > 0 {
      hide Evaluate, IsReachable, Distance;
      ProgressIsPaidFor(c, ws, n - 1);
      RunStaysRegistered(c, ws, n - 1);
      var b := After(c, ws, n - 1);
      DistanceSteps(b.stage, b.p, ws[n - 1].gateOk, ws[n - 1].forceSnap);
    }
  }

  /** From probation to maturity takes at least four advances, each past a gate that held, and one
      more for every snap on the way. */
  lemma MaturityTakesFourAdvances(c: Class, ws: seq<Window>, n: nat)
    requires n <= |ws| && Registered(c) && c.stage.Probation? && After(c, ws, n).stage.Mature?
    ensures Steps(c, ws, n, Advances()) >= 4 + Steps(c, ws, n, Snaps())
  {
    hide After, Steps;
    ProgressIsPaidFor(c, ws, n);
  }

  // ---- held windows, and promotions during a burst -----------------------------------------------------

  /** An anomaly does not stop a promotion, and it stops every other advance: an advancing window is
      not held exactly when a burst came during probation. */
  lemma AdvanceIsHeldIff(c: Class, w: Window)
    requires Registered(c) && Advances()(KindOf(c, w))
    ensures !Held(w.gateOk, w.forceSnap) <==> c.stage.Probation? && w.forceSnap
    ensures c.stage.Probation? <==> KindOf(c, w).Promote?
  {
  }

  predicate PromotedInBurst(c: Class, w: Window) {
    KindOf(c, w).Promote? && w.forceSnap
  }

  function HeldWindows(ws: seq<Window>, n: nat): nat
    requires n <= |ws|
  {
    if n == 0 then 0 else HeldWindows(ws, n - 1) + if Held(ws[n - 1].gateOk, ws[n - 1].forceSnap) then 1 else 0
  }

  function BurstPromotions(c: Class, ws: seq<Window>, n: nat): nat
    requires n <= |ws|
  {
    if n == 0 then 0
    else BurstPromotions(c, ws, n - 1) + if PromotedInBurst(After(c, ws, n - 1), ws[n - 1]) then 1 else 0
  }

  /** Every advance is a held window or a promotion during a burst. */
  lemma {:induction false} HeldCoversAdvances(c: Class, ws: seq<Window>, n: nat)
    requires n <= |ws| && Registered(c)
    ensures HeldWindows(ws, n) >= Steps(c, ws, n, Advances()) - BurstPromotions(c, ws, n)
  {
    if n > 0 {
      hide Evaluate, IsReachable;
      HeldCoversAdvances(c, ws, n - 1);
      RunStaysRegistered(c, ws, n - 1);
      if Advances()(KindOf(After(c, ws, n - 1), ws[n - 1])) {
        AdvanceIsHeldIff(After(c, ws, n - 1), ws[n - 1]);
      }
    }
  }

  /** Probation is left once, and once more for every snap that led back to it. */
  lemma {:induction false} PromotionsFollowSnaps(c: Class, ws: seq<Window>, n: nat)
    requires n <= |ws|
    ensures BurstPromotions(c, ws, n) + (if After(c, ws, n).stage.Probation? then 1 else 0)
            <= Steps(c, ws, n, Snaps()) + (if c.stage.Probation? then 1 else 0)
  {
    if n > 0 {
      PromotionsFollowSnaps(c, ws, n - 1);
    }
  }

  /** So maturity takes at least three held windows in every run, and at least four, and one more for
      every snap, in every run without a promotion during a burst. */
  lemma MaturityTakesHeldWindows(c: Class, ws: seq<Window>, n: nat)
    requires n <= |ws| && Registered(c) && c.stage.Probation? && After(c, ws, n).stage.Mature?
    ensures HeldWindows(ws, n) >= 4 + Steps(c, ws, n, Snaps()) - BurstPromotions(c, ws, n)
    ensures HeldWindows(ws, n) >= 3
    ensures BurstPromotions(c, ws, n) == 0 ==> HeldWindows(ws, n) >= 4 + Steps(c, ws, n, Snaps())
  {
    hide After, Steps, HeldWindows, BurstPromotions;
    MaturityTakesFourAdvances(c, ws, n);
    HeldCoversAdvances(c, ws, n);
    PromotionsFollowSnaps(c, ws, n);
  }

  const BURST_RUN: seq<Window> :=
    [Window(true, true), Window(true, false), Window(true, false), Window(true, false)]

  /** Three are enough: a promotion during a burst, then three held windows. */
  lemma BurstExample()
    ensures var c := Class(Probation, 1.0);
            && Registered(c) && After(c, BURST_RUN, 4).stage.Mature?
            && HeldWindows(BURST_RUN, 4) == 3 && BurstPromotions(c, BURST_RUN, 4) == 1
  {
    var c := Class(Probation, 1.0);
    assert After(c, BURST_RUN, 1) == Class(Relax, 0.5) && BurstPromotions(c, BURST_RUN, 1) == 1;
    assert After(c, BURST_RUN, 2) == Class(Relax, 0.25) && BurstPromotions(c, BURST_RUN, 2) == 1;
    assert After(c, BURST_RUN, 3) == Class(Relax, P_FLOOR) && BurstPromotions(c, BURST_RUN, 3) == 1;
  }

  /** Four held windows in a row are enough, from any registered state. */
  lemma {:induction false} HeldWindowsMature(c: Class, ws: seq<Window>, n: nat)
    requires n <= |ws| && Registered(c)
    requires forall i :: 0 <= i < n ==> Held(ws[i].gateOk, ws[i].forceSnap)
    ensures var d := After(c, ws, n);
            Distance(d.stage, d.p) == if n <= Distance(c.stage, c.p) then Distance(c.stage, c.p) - n else 0
    ensures n >= 4 ==> After(c, ws, n).stage.Mature?
  {
    if n > 0 {
      HeldWindowsMature(c, ws, n - 1);
      RunStaysRegistered(c, ws, n - 1);
      RunStaysRegistered(c, ws, n);
      var b := After(c, ws, n - 1);
      hide Evaluate, After;
      DistanceSteps(b.stage, b.p, ws[n - 1].gateOk, ws[n - 1].forceSnap);
    }
  }

  // ---- where a breach leads, and the way back -----------------------------------------------------------

  predicate Breached(w: Window) {
    !w.gateOk || w.forceSnap
  }

  /** From every registered state a snap doubles the rate, but not beyond 1, and leads to probation
      exactly when it reaches 1. */
  lemma SnapDoubles(c: Class, w: Window)
    requires Registered(c) && KindOf(c, w).Snap?
    ensures var d := Next(c, w);
            && (d.p == 2.0 * c.p || (d.p == 1.0 && 2.0 * c.p > 1.0))
            && (if d.p == 1.0 then d.stage.Probation? else d.stage.Relax?)
  {
  }

  /** A breach snaps every class that is past probation, and no other; a burst counts as one even if the
      gate holds. */
  lemma BreachSnapsIff(c: Class, w: Window)
    requires Registered(c)
    ensures KindOf(c, w).Snap? <==> !c.stage.Probation? && Breached(w)
  {
  }

  /** Breaches in a row take a mature class to rates 0.30, 0.60 and 1.0: probation comes with the third
      and not before. */
  lemma BreachesFromMature(ws: seq<Window>)
    requires |ws| == 3 && forall i :: 0 <= i < 3 ==> Breached(ws[i])
    ensures var c := Class(Mature, P_FLOOR);
            && After(c, ws, 1) == Class(Relax, 0.3)
            && After(c, ws, 2) == Class(Relax, 0.6)
            && After(c, ws, 3) == Class(Probation, 1.0)
  {
    var c := Class(Mature, P_FLOOR);
    assert After(c, ws, 1) == Next(c, ws[0]);
    assert After(c, ws, 2) == Next(After(c, ws, 1), ws[1]);
  }

  /** After one breach exactly two held windows make a mature class mature again. */
  lemma OneBreachTakesTwoHeld(ws: seq<Window>)
    requires |ws| == 3 && Breached(ws[0])
    requires forall i :: 1 <= i < 3 ==> Held(ws[i].gateOk, ws[i].forceSnap)
    ensures var c := Class(Mature, P_FLOOR);
            && After(c, ws, 1) == Class(Relax, 0.3)
            && After(c, ws, 2) == Class(Relax, P_FLOOR)
            && After(c, ws, 3) == Class(Mature, P_FLOOR)
  {
    var c := Class(Mature, P_FLOOR);
    assert After(c, ws, 1) == Next(c, ws[0]);
    assert After(c, ws, 2) == Next(After(c, ws, 1), ws[1]);
  }

  /** Held windows relax a class from probation through 0.50, 0.25 and 0.15, and then it is mature and
      stays so. */
  lemma {:induction false} HeldWindowsRelax(ws: seq<Window>, n: nat)
    requires n <= |ws| && forall i :: 0 <= i < n ==> Held(ws[i].gateOk, ws[i].forceSnap)
    ensures After(Class(Probation, 1.0), ws, n)
            == if n == 0 then Class(Probation, 1.0)
               else if n == 1 then Class(Relax, 0.5)
               else if n == 2 then Class(Relax, 0.25)
               else if n == 3 then Class(Relax, P_FLOOR)
               else Class(Mature, P_FLOOR)
  {
    if n > 0 { HeldWindowsRelax(ws, n - 1); }
  }

  /** A gate that fails keeps a class in probation at rate 1, however often. */
  lemma ProbationNeedsTheGate(c: Class, w: Window)
    requires Registered(c) && c.stage.Probation?
    ensures Next(c, w) == if w.gateOk then Class(Relax, 0.5) else Class(Probation, 1.0)
  {
  }

  // ---- slashing -----------------------------------------------------------------------------------------

  function SlashMultiple(tolWidth: real, tolRef: real): real {
    if tolRef <= 0.0 then BASE_SLASH
    else MaxReal(BASE_SLASH, MinReal(SLASH_CAP, BASE_SLASH * (1.0 + (1.0 / 3.0) * (tolWidth / tolRef))))
  }

  /** Cheating never pays: at every reachable rate the slash times the rate is at least 2.25. */
  lemma {:induction false} CheatingNeverPays(tolWidth: real, tolRef: real, c: Class, ws: seq<Window>, n: nat)
    requires n <= |ws| && Registered(c)
    ensures BASE_SLASH <= SlashMultiple(tolWidth, tolRef) <= SLASH_CAP
    ensures SlashMultiple(tolWidth, tolRef) * After(c, ws, n).p >= 2.25
  {
    RateStaysInRange(c, ws, n);
    hide After, SlashMultiple;
    SlashInRange(tolWidth, tolRef);
    ProductAtLeast(SlashMultiple(tolWidth, tolRef), After(c, ws, n).p);
  }

  /** The multiple grows in proportion from 15 at width 0 to 20 at the reference width, and no further. */
  lemma SlashIsProportional(tolWidth: real, tolRef: real)
    ensures tolRef > 0.0 && 0.0 <= tolWidth <= tolRef ==>
              (SlashMultiple(tolWidth, tolRef) - BASE_SLASH) * tolRef == (SLASH_CAP - BASE_SLASH) * tolWidth
    ensures tolRef > 0.0 && tolWidth > tolRef ==> SlashMultiple(tolWidth, tolRef) == SLASH_CAP
    ensures tolRef <= 0.0 || tolWidth <= 0.0 ==> SlashMultiple(tolWidth, tolRef) == BASE_SLASH
  {
    if tolRef > 0.0 {
      Ratio(tolWidth, tolRef);
    }
  }

  lemma Ratio(x: real, d: real)
    requires d > 0.0
    ensures x / d * d == x
    ensures x <= d ==> x / d <= 1.0
    ensures x > d ==> x / d > 1.0
    ensures x <= 0.0 ==> x / d <= 0.0
    ensures x >= 0.0 ==> x / d >= 0.0
  {
  }

  lemma SlashInRange(tolWidth: real, tolRef: real)
    ensures BASE_SLASH <= SlashMultiple(tolWidth, tolRef) <= SLASH_CAP
  {
  }

  lemma ProductAtLeast(s: real, p: real)
    requires s >= BASE_SLASH && p >= P_FLOOR
    ensures s * p >= 2.25
  {
    assert s * p >= BASE_SLASH * p;
  }
}
