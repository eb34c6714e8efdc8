/** Adjudicating three-receipt disputes, and who ends up paying for them. */
module Disputes {
  import opened Machine
  import opened Endian
  import opened Records
  import opened Preimages
  import opened FisherYates
  import opened FaultMarket
  import opened EpochPenalties

  /** The three results of a record, by number. */
  function Nth(e: EscalationRecord, i: nat): EscalatedResult
    requires i < 3
  {
    if i == 0 then e.first else if i == 1 then e.second else e.third
  }

  /** The executor of a result. */
  function NodeOf(r: EscalatedResult): NodeId {
    FromBE(r.receipt.attestation.nodeId)
  }

  /** The signature check, on the chain this node is built for. */
  datatype Verifier = Verifier(chainId: u32, accepts: (PublicKey, Bytes, Signature) -> bool)

  datatype Adjudication = Decided(outcome: DisputeOutcome) | IncoherentEscalation | BadSignature

  predicate SameItem(a: ExecutionAttestation, b: ExecutionAttestation) {
    a.window == b.window && a.subWindow == b.subWindow && a.taskClassId == b.taskClassId && a.classId == b.classId
  }

  predicate Coherent(e: EscalationRecord) {
    var a0, a1, a2 := e.first.receipt.attestation, e.second.receipt.attestation, e.third.receipt.attestation;
    && e.classId == a0.classId
    && SameItem(a1, a0) && SameItem(a2, a0)
    && a0.nodeId != a1.nodeId && a0.nodeId != a2.nodeId && a1.nodeId != a2.nodeId
  }

  /** The receipt's signature verifies over the signing preimage of its attestation. */
  predicate Authentic(r: EscalatedResult, v: Verifier) {
    v.accepts(r.receipt.publicKey, Preimage(v.chainId, Execution(r.receipt.attestation)), r.receipt.signature)
  }

  function Agree(e: EscalationRecord, v: Verifier): Adjudication {
    if !Coherent(e) then IncoherentEscalation
    else if !Authentic(e.first, v) || !Authentic(e.second, v) || !Authentic(e.third, v) then BadSignature
    else
      var c0, c1, c2 := e.first.rawTraceCommit, e.second.rawTraceCommit, e.third.rawTraceCommit;
      Decided(
        if c0 == c1 && c1 == c2 then Unanimous(c0)
        else if c0 == c1 then Majority(c0, NodeOf(e.third))
        else if c0 == c2 then Majority(c0, NodeOf(e.second))
        else if c1 == c2 then Majority(c1, NodeOf(e.first))
        else TotalDivergence(NodeOf(e.first), NodeOf(e.second), NodeOf(e.third)))
  }

  /** `id` took part and no other executor had its result. */
  ghost predicate StoodAlone(e: EscalationRecord, id: NodeId) {
    exists i: nat :: i < 3 && NodeOf(Nth(e, i)) == id
                     && forall j: nat :: j < 3 && j != i ==> Nth(e, j).rawTraceCommit != Nth(e, i).rawTraceCommit
  }

  /** A record is decided exactly when its three receipts are about one work item of the record's class,
      come from three nodes, and are each signed by their own key; the first failing condition is named. */
  lemma DecidedIff(e: EscalationRecord, v: Verifier)
    ensures var coherent :=
              && (forall i: nat :: i < 3 ==>
                    && Nth(e, i).receipt.attestation.classId == e.classId
                    && Nth(e, i).receipt.attestation.window == Nth(e, 0).receipt.attestation.window
                    && Nth(e, i).receipt.attestation.subWindow == Nth(e, 0).receipt.attestation.subWindow
                    && Nth(e, i).receipt.attestation.taskClassId == Nth(e, 0).receipt.attestation.taskClassId)
              && (forall i: nat, j: nat :: i < j < 3 ==>
                    Nth(e, i).receipt.attestation.nodeId != Nth(e, j).receipt.attestation.nodeId);
            var signed := forall i: nat :: i < 3 ==>
              v.accepts(Nth(e, i).receipt.publicKey, Preimage(v.chainId, Execution(Nth(e, i).receipt.attestation)),
                        Nth(e, i).receipt.signature);
            && (Agree(e, v) == IncoherentEscalation <==> !coherent)
            && (Agree(e, v) == BadSignature <==> coherent && !signed)
            && (Agree(e, v).Decided? <==> coherent && signed)
  {
    hide FromBE, Preimage;
    assert Nth(e, 0) == e.first && Nth(e, 1) == e.second && Nth(e, 2) == e.third;
  }

  /** The three executors of a decided dispute are three nodes, whose receipts were all signed for the
      same work. */
  lemma ThreeExecutors(e: EscalationRecord, v: Verifier, i: nat, j: nat)
    requires Agree(e, v).Decided? && i < j < 3
    ensures NodeOf(Nth(e, i)) != NodeOf(Nth(e, j))
    ensures SameItem(Nth(e, i).receipt.attestation, Nth(e, j).receipt.attestation)
    ensures Authentic(Nth(e, i), v) && Authentic(Nth(e, j), v)
  {
    hide FromBE, Preimage;
    var a, b := Nth(e, i).receipt.attestation.nodeId, Nth(e, j).receipt.attestation.nodeId;
    if FromBE(a) == FromBE(b) { FromBEInjective(a, b); }
  }

  /** A decided dispute faults exactly the executors that stood alone, and its winner, if any, is a
      commitment two of them share. */
  lemma FaultedIffAlone(e: EscalationRecord, v: Verifier, id: NodeId)
    requires Agree(e, v).Decided?
    ensures id in FaultsOf(Agree(e, v).outcome) <==> StoodAlone(e, id)
    ensures Agree(e, v).outcome.Unanimous? <==>
              forall i: nat :: i < 3 ==> Nth(e, i).rawTraceCommit == Nth(e, 0).rawTraceCommit
    ensures Agree(e, v).outcome.Majority? <==>
              && !Agree(e, v).outcome.Unanimous?
              && exists i: nat, j: nat :: i < j < 3 && Nth(e, i).rawTraceCommit == Nth(e, j).rawTraceCommit
    ensures Agree(e, v).outcome.Unanimous? ==>
              forall i: nat :: i < 3 ==> Nth(e, i).rawTraceCommit == Agree(e, v).outcome.commit
    ensures Agree(e, v).outcome.Majority? ==>
              exists i: nat, j: nat :: i < j < 3 && Agree(e, v).outcome.winner
                                                    == Nth(e, i).rawTraceCommit == Nth(e, j).rawTraceCommit
  {
    hide FromBE, Preimage;
    assert Nth(e, 0) == e.first && Nth(e, 1) == e.second && Nth(e, 2) == e.third;
  }

  // ---- an epoch of disputes --------------------------------------------------------------------------

  /** The outcomes of the disputes that could be decided, in order. */
  function Outcomes(es: seq<EscalationRecord>, v: Verifier, n: nat): seq<DisputeOutcome>
    requires n <= |es|
  {
    if n == 0 then []
    else Outcomes(es, v, n - 1) + match Agree(es[n - 1], v) case Decided(o) => [o] case _ => []
  }

  ghost predicate AloneInSome(es: seq<EscalationRecord>, v: Verifier, n: nat, id: NodeId)
    requires n <= |es|
  {
    exists k :: 0 <= k < n && Agree(es[k], v).Decided? && StoodAlone(es[k], id)
  }

  lemma FaultsExtend(os: seq<DisputeOutcome>, o: DisputeOutcome)
    ensures Faults(os + [o], |os| + 1) == Faults(os, |os|) + FaultsOf(o)
  {
    FaultsOfPrefix(os + [o], os, |os|);
  }

  lemma {:induction false} FaultsOfPrefix(a: seq<DisputeOutcome>, b: seq<DisputeOutcome>, n: nat)
    requires n <= |b| <= |a| && a[..|b|] == b
    ensures Faults(a, n) == Faults(b, n)
  {
    if n > 0 {
      FaultsOfPrefix(a, b, n - 1);
      assert a[n - 1] == a[..|b|][n - 1];
    }
  }

  lemma OutcomesStep(es: seq<EscalationRecord>, v: Verifier, n: nat)
    requires 0 < n <= |es|
    ensures Outcomes(es, v, n)
            == match Agree(es[n - 1], v)
               case Decided(o) => Outcomes(es, v, n - 1) + [o]
               case _ => Outcomes(es, v, n - 1)
  {
    hide Agree;
  }

  lemma AloneStep(es: seq<EscalationRecord>, v: Verifier, n: nat, id: NodeId)
    requires n <= |es|
    ensures AloneInSome(es, v, n, id)
       <==> n > 0 && (|| AloneInSome(es, v, n - 1, id)
                      || (Agree(es[n - 1], v).Decided? && StoodAlone(es[n - 1], id)))
  {
    hide Agree, StoodAlone;
  }

  lemma NoOutcomes(es: seq<EscalationRecord>, v: Verifier)
    ensures Outcomes(es, v, 0) == [] && Faults([], 0) == []
  {
  }

  lemma {:induction false} FaultedInEpochIff(es: seq<EscalationRecord>, v: Verifier, n: nat, id: NodeId)
    requires n <= |es|
    ensures var os := Outcomes(es, v, n);
            id in Faults(os, |os|) <==> AloneInSome(es, v, n, id)
  {
    hide *;
    AloneStep(es, v, n, id);
    if n == 0 {
      NoOutcomes(es, v);
    } else {
      FaultedInEpochIff(es, v, n - 1, id);
      OutcomesStep(es, v, n);
      var e := es[n - 1];
      if Agree(e, v).Decided? {
        FaultsExtend(Outcomes(es, v, n - 1), Agree(e, v).outcome);
        FaultedIffAlone(e, v, id);
      }
    }
  }

  /** End to end: an executor whose result was shared in every decided dispute is never penalised,
      whatever the stakes and the draws; and as long as no more than 1024 nodes are at fault, every
      executor that stood alone is. */
  lemma OnlyTheLonelyPay(es: seq<EscalationRecord>, v: Verifier, stake: StakeOracle, reservoir: Draws, fair: Draws,
                         id: NodeId)
    ensures var os := Outcomes(es, v, |es|);
            var faults := Faults(os, |os|);
            var ids := Penalised(faults, stake, reservoir, fair);
            && (id in ids ==> AloneInSome(es, v, |es|, id))
            && (|Named(faults)| <= MAX_FAULTS_PER_EPOCH ==> (id in ids <==> AloneInSome(es, v, |es|, id)))
  {
    hide Outcomes, AloneInSome, Faults, Penalised, Named;
    var os := Outcomes(es, v, |es|);
    FaultedInEpochIff(es, v, |es|, id);
    PenaltiesAccountForFaults(Faults(os, |os|), stake, reservoir, fair);
  }
}
