/**
 * Which histories keep every lot from being accepted twice, and what a restart from an older save breaks:
 * the issuer can certify a lot again under another nullifier key, and both leaves are accepted along one
 * root chain.
 */
module StaleRestart {
  import opened Primitives
  import opened Digests
  import opened PolicyTypes
  import opened Policy
  import opened Registry
  import opened NoLotTwice
  import opened RepeatedLots
  import Geofence
  import SampleWorld

  /**
   * The exact condition on a history: whatever the hashes and signatures are, no chained run repeats a lot
   * if and only if no lot was certified under two key commitments.
   */
  lemma {:induction false} OneKeyExactly(steps: seq<IssuerStep>)
    ensures (forall env :: ValidEnv(env) ==> NeverRepeats(env, steps)) <==> OneKeyPerLot(steps)
  {
    if OneKeyPerLot(steps) {
      forall env | ValidEnv(env)
        ensures NeverRepeats(env, steps)
      {
        OneKeyNeverRepeats(env, steps);
      }
    } else {
      var c, d :| OfOneLot(steps, c, d) && c.keyCommitment != d.keyCommitment;
      var env := TwoCommitmentsRepeat(steps, c, d);
    }
  }

  lemma {:induction false} OneKeyNeverRepeats(env: Env, steps: seq<IssuerStep>)
    requires ValidEnv(env) && OneKeyPerLot(steps)
    ensures NeverRepeats(env, steps)
  {
    forall run | ChainedRun(env, run) && AllIssued(env, steps, run)
      ensures LotsDiffer(run)
    {
      DistinctLots(env, steps, run);
    }
  }

  lemma {:induction false} TwoCommitmentsRepeat(steps: seq<IssuerStep>, c: Credential, d: Credential) returns (env: Env)
    requires OfOneLot(steps, c, d) && c.keyCommitment != d.keyCommitment
    ensures ValidEnv(env) && !NeverRepeats(env, steps)
  {
    var world, forC, forD := SampleWorld.TwoCanDeliver(c, d);
    var run := TwoKeysRepeat(world, steps, c, SampleWorld.FIRST_KEY, forC, d, SampleWorld.SECOND_KEY, forD);
    RunRepeats(world, steps, run);
    env := world;
  }

  // ----- restoring an older save

  /** Certify one credential, restore the save taken before that, certify another. */
  ghost function Reissue(c: Credential, d: Credential, polygon: seq<PointE6>): seq<IssuerStep>
  {
    var empty: Catalog := map[];
    [Snapshot([c], polygon), Restart(Save(empty)), Snapshot([d], polygon)]
  }

  ghost predicate CanIssue(c: Credential, polygon: seq<PointE6>)
  {
    && Geofence.PolygonVerdict(polygon) == Ok(()) && Geofence.ValidPoint(c.event.point)
    && c.event.role == REQUIRED_ROLE
  }

  lemma {:induction false} SoleAdmission(c: Credential)
    requires Geofence.ValidPoint(c.event.point)
    ensures Admit(map[], map[], [c]) == Ok((map[c.event.lotId := OwnershipOf(c)], map[c.index as nat := c]))
  {
    var owners: Catalog := map[c.event.lotId := OwnershipOf(c)];
    var slots: Slots := map[c.index as nat := c];
    assert [c][1..] == [];
    assert Admit(owners, slots, []) == Ok((owners, slots));
  }

  lemma {:induction false} SoleIssue(c: Credential, polygon: seq<PointE6>)
    requires CanIssue(c, polygon)
    ensures Issue(map[], [c], polygon) == Ok((map[c.event.lotId := OwnershipOf(c)], map[c.index as nat := c]))
  {
    SoleAdmission(c);
    var owners: Catalog := map[c.event.lotId := OwnershipOf(c)];
    assert owners.Keys == {c.event.lotId};
    assert |owners| == |owners.Keys| == 1;
  }

  lemma {:induction false} CatalogStep(steps: seq<IssuerStep>, n: nat)
    requires n < |steps|
    ensures CatalogAt(steps, n + 1) == StepCatalog(CatalogAt(steps, n), steps[n])
  {
  }

  lemma {:induction false} ReissueSteps(c: Credential, d: Credential, polygon: seq<PointE6>)
    requires CanIssue(c, polygon) && CanIssue(d, polygon)
    ensures var steps := Reissue(c, d, polygon);
      && CatalogAt(steps, 0) == CatalogAt(steps, 2) == map[]
      && CatalogAt(steps, 1) == map[c.event.lotId := OwnershipOf(c)]
      && Restores(steps, 1, 0) && CertifiedAt(steps, 0, c) && CertifiedAt(steps, 2, d)
  {
    var steps := Reissue(c, d, polygon);
    SoleIssue(c, polygon);
    SoleIssue(d, polygon);
    CatalogStep(steps, 0);
    RestoredCatalog(steps, 1, 0);
  }

  /** The only restart restores the issuer's own earlier save, and forgets the lot. */
  lemma {:induction false} ReissueForgets(c: Credential, d: Credential, polygon: seq<PointE6>)
    requires CanIssue(c, polygon) && CanIssue(d, polygon)
    ensures var steps := Reissue(c, d, polygon);
      && (forall k: nat :: k < |steps| ==> RestoresEarlier(steps, k)) && !OwnershipPersists(steps)
      && Certified(steps, c) && Certified(steps, d)
  {
    var steps := Reissue(c, d, polygon);
    ReissueSteps(c, d, polygon);
    assert c.event.lotId in CatalogAt(steps, 1) && c.event.lotId !in CatalogAt(steps, 2);
    assert !Extends(CatalogAt(steps, 1), CatalogAt(steps, 2));
    forall k: nat | k < |steps|
      ensures RestoresEarlier(steps, k)
    {
      assert k != 1 ==> steps[k].Snapshot?;
    }
  }

  /**
   * Wherever the actors of two credentials of one lot have signed its events and the keys have different
   * nullifiers, the lot is accepted twice along one root chain.
   */
  lemma {:induction false} LotAcceptedTwice(env: Env, c: Credential, keyC: Digest, forC: Delivery,
                                            d: Credential, keyD: Digest, forD: Delivery, polygon: seq<PointE6>)
      returns (run: seq<PolicyInput>)
    requires ValidEnv(env) && CanIssue(c, polygon) && CanIssue(d, polygon) && c.event.lotId == d.event.lotId
    requires Opens(env, c, keyC) && Opens(env, d, keyD) && Delivers(env, c, forC) && Delivers(env, d, forD)
    requires NullifierIndex(env, c.event.lotId, keyC) != NullifierIndex(env, c.event.lotId, keyD)
    ensures var steps := Reissue(c, d, polygon);
      && (forall k: nat :: k < |steps| ==> RestoresEarlier(steps, k))
      && ChainedRun(env, run) && AllIssued(env, steps, run)
    ensures |run| == 2 && run[0].lotId == run[1].lotId == c.event.lotId
  {
    ReissueForgets(c, d, polygon);
    run := TwoKeysRepeat(env, Reissue(c, d, polygon), c, keyC, forC, d, keyD, forD);
  }

  lemma {:induction false} CertifiedByReissue(c: Credential, d: Credential, polygon: seq<PointE6>, x: Credential)
    requires CanIssue(c, polygon) && CanIssue(d, polygon) && Certified(Reissue(c, d, polygon), x)
    ensures x == c || x == d
  {
    var steps := Reissue(c, d, polygon);
    var n: nat :| n < |steps| && CertifiedAt(steps, n, x);
    ReissueSteps(c, d, polygon);
    SoleIssue(c, polygon);
    SoleIssue(d, polygon);
  }

  lemma {:induction false} ReissueHasOneKeyExactly(c: Credential, d: Credential, polygon: seq<PointE6>)
    requires CanIssue(c, polygon) && CanIssue(d, polygon)
    ensures OneKeyPerLot(Reissue(c, d, polygon))
       <==> (c.event.lotId == d.event.lotId ==> c.keyCommitment == d.keyCommitment)
  {
    hide Reissue;
    hide Certified;
    hide CanIssue;
    var steps := Reissue(c, d, polygon);
    ReissueForgets(c, d, polygon);
    assert c.event.lotId == d.event.lotId ==> OfOneLot(steps, c, d);
    forall x, y | OfOneLot(steps, x, y)
      ensures (x == c || x == d) && (y == c || y == d)
    {
      CertifiedByReissue(c, d, polygon, x);
      CertifiedByReissue(c, d, polygon, y);
    }
  }

  /** The same history is safe in every environment exactly when both credentials of a lot store one commitment. */
  lemma {:induction false} ReissueIsSafeExactly(c: Credential, d: Credential, polygon: seq<PointE6>)
    requires CanIssue(c, polygon) && CanIssue(d, polygon)
    ensures (forall env :: ValidEnv(env) ==> NeverRepeats(env, Reissue(c, d, polygon)))
       <==> (c.event.lotId == d.event.lotId ==> c.keyCommitment == d.keyCommitment)
  {
    OneKeyExactly(Reissue(c, d, polygon));
    ReissueHasOneKeyExactly(c, d, polygon);
  }
}
