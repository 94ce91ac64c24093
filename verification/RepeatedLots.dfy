/**
 * Exactly when a lot can be accepted twice.  For every environment: when two published snapshots attest a
 * lot under two nullifiers.  In terms of the issuer's history alone: when some lot was certified under two
 * key commitments.
 */
module RepeatedLots {
  import opened Primitives
  import opened Digests
  import opened PolicyTypes
  import opened Merkle
  import opened Policy
  import opened Registry
  import opened SparseNullifiers
  import opened NoLotTwice
  import Geofence

  /** No chained run of accepted leaves under this issuer's certificates repeats a lot. */
  ghost predicate NeverRepeats(env: Env, steps: seq<IssuerStep>)
  {
    forall run :: ChainedRun(env, run) && AllIssued(env, steps, run) ==> LotsDiffer(run)
  }

  lemma {:induction false} RunRepeats(env: Env, steps: seq<IssuerStep>, run: seq<PolicyInput>)
    requires ChainedRun(env, run) && AllIssued(env, steps, run) && |run| == 2 && run[0].lotId == run[1].lotId
    ensures !NeverRepeats(env, steps)
  {
    assert !LotsDiffer(run);
  }

  // ----- attested inputs

  /** Signed and certified events under a root of this issuer; nothing is said of nullifier roots or paths. */
  ghost predicate AttestedUnder(env: Env, steps: seq<IssuerStep>, input: PolicyInput)
  {
    WellFormed(env, input) && Attested(env, input) && Issued(env, steps, input.certificateRoot)
  }

  function IndexOf(env: Env, input: PolicyInput): nat
  {
    NullifierIndex(env, input.lotId, input.nullifierKey)
  }

  ghost predicate OneNullifierPerLot(env: Env, steps: seq<IssuerStep>)
  {
    forall a, b :: AttestedUnder(env, steps, a) && AttestedUnder(env, steps, b) && a.lotId == b.lotId ==>
      IndexOf(env, a) == IndexOf(env, b)
  }

  /** The input with the nullifier path of a set of used indices. */
  ghost function Against(env: Env, input: PolicyInput, used: set<nat>): PolicyInput
  {
    input.(oldNullifierRoot := SetRoot(env.depth, used),
           nullifierPath := SiblingPath(NullifierTree, LeafOf(used), 0, IndexOf(env, input), env.depth))
  }

  lemma {:induction false} AgainstIsAttested(env: Env, input: PolicyInput, used: set<nat>)
    requires WellFormed(env, input) && Attested(env, input)
    ensures WellFormed(env, Against(env, input, used)) && Attested(env, Against(env, input, used))
  {
    var moved := Against(env, input, used);
    assert forall i: nat :: i < |input.events| ==> EventAccepted(env, moved, i) == EventAccepted(env, input, i);
    assert forall i: nat :: i < |input.events| ==> Timestamp(env, moved, i) == Timestamp(env, input, i);
  }

  /** Attested inputs are accepted against every set that lacks their index, and add it. */
  lemma {:induction false} AcceptedAgainst(env: Env, input: PolicyInput, used: set<nat>)
    requires ValidEnv(env) && WellFormed(env, input) && Attested(env, input) && IndexOf(env, input) !in used
    ensures var moved := Against(env, input, used);
      && WellFormed(env, moved) && Evaluate(env, moved).Ok?
      && StepOf(env, moved) == RootStep(IndexOf(env, input), SetRoot(env.depth, used),
                                        SetRoot(env.depth, used + {IndexOf(env, input)}))
  {
    var index, moved := IndexOf(env, input), Against(env, input, used);
    AgainstIsAttested(env, input, used);
    var digest := Nullifier(input.lotId, input.nullifierKey);
    assert 8 * |env.bytesOf(digest)| == env.depth;
    BigEndianBound(env.bytesOf(digest));
    UnusedOpens(env.depth, used, index);
    EmptyPathAdvancesRoot(env.depth, used, index, moved.nullifierPath);
    EvaluateAcceptsExactly(env, moved);
  }

  lemma {:induction false} TwoSteps(env: Env, first: PolicyInput, second: PolicyInput)
    requires WellFormed(env, first) && Evaluate(env, first).Ok? && WellFormed(env, second) && Evaluate(env, second).Ok?
    requires StepOf(env, first).oldRoot == SetRoot(env.depth, {})
    requires StepOf(env, second).oldRoot == StepOf(env, first).newRoot
    ensures ChainedRun(env, [first, second])
  {
    var run := [first, second];
    assert AllAccepted(env, run);
    var chain := ChainOf(env, run);
    assert chain[0] == StepOf(env, first) && chain[1] == StepOf(env, second);
  }

  /** Two attested inputs of one lot with different nullifiers make a chained run that repeats the lot. */
  lemma {:induction false} TwoNullifiersRepeat(env: Env, steps: seq<IssuerStep>, a: PolicyInput, b: PolicyInput)
      returns (run: seq<PolicyInput>)
    requires ValidEnv(env) && AttestedUnder(env, steps, a) && AttestedUnder(env, steps, b)
    requires a.lotId == b.lotId && IndexOf(env, a) != IndexOf(env, b)
    ensures ChainedRun(env, run) && AllIssued(env, steps, run)
    ensures |run| == 2 && run[0].lotId == run[1].lotId == a.lotId
  {
    hide Evaluate;
    hide Attested;
    hide ChainedRun;
    hide Issued;
    hide SetRoot;
    var none: set<nat> := {};
    var one := {IndexOf(env, a)};
    assert none + one == one;
    AcceptedAgainst(env, a, none);
    AcceptedAgainst(env, b, one);
    TwoSteps(env, Against(env, a, none), Against(env, b, one));
    run := [Against(env, a, none), Against(env, b, one)];
  }

  /** Repetition is excluded exactly when the snapshots attest each lot under one nullifier. */
  lemma {:induction false} NeverRepeatsExactly(env: Env, steps: seq<IssuerStep>)
    requires ValidEnv(env)
    ensures NeverRepeats(env, steps) <==> OneNullifierPerLot(env, steps)
  {
    if NeverRepeats(env, steps) {
      forall a, b | AttestedUnder(env, steps, a) && AttestedUnder(env, steps, b) && a.lotId == b.lotId
        ensures IndexOf(env, a) == IndexOf(env, b)
      {
        if IndexOf(env, a) != IndexOf(env, b) {
          var run := TwoNullifiersRepeat(env, steps, a, b);
          RunRepeats(env, steps, run);
        }
      }
    }
    if OneNullifierPerLot(env, steps) {
      forall run | ChainedRun(env, run) && AllIssued(env, steps, run)
        ensures LotsDiffer(run)
      {
        OneNullifierIsEnough(env, steps, run);
      }
    }
  }

  lemma {:induction false} RunIsAttested(env: Env, steps: seq<IssuerStep>, run: seq<PolicyInput>, i: nat)
    requires ChainedRun(env, run) && AllIssued(env, steps, run) && i < |run|
    ensures AttestedUnder(env, steps, run[i])
  {
    EvaluateAcceptsExactly(env, run[i]);
  }

  lemma {:induction false} OneNullifierIsEnough(env: Env, steps: seq<IssuerStep>, run: seq<PolicyInput>)
    requires ValidEnv(env) && OneNullifierPerLot(env, steps) && ChainedRun(env, run) && AllIssued(env, steps, run)
    ensures LotsDiffer(run)
  {
    hide ChainedRun;
    hide AttestedUnder;
    forall i: nat, j: nat | i < j < |run|
      ensures run[i].lotId != run[j].lotId
    {
      if run[i].lotId == run[j].lotId {
        LotAndKeyDiffer(env, run, i, j);
        RunIsAttested(env, steps, run, i);
        RunIsAttested(env, steps, run, j);
      }
    }
  }

  // ----- certified credentials

  /** Signed events that a leaf for one credential can be built from. */
  datatype Delivery = Delivery(epochId: U64, polygon: seq<PointE6>, messages: seq<(Bytes, Bytes)>)

  /** The message is an event of the credential's lot, signed by its actor, that the policy lets pass. */
  ghost predicate MessagePasses(env: Env, c: Credential, d: Delivery, i: nat)
    requires i < |d.messages|
  {
    && |d.messages[i].0| == EVENT_BYTES
    && var decoded := DecodeEvent(env, d.messages[i].0);
    && decoded.Ok?
    && var event := decoded.value;
    && event.lotId == c.event.lotId && event.certificateId == c.event.certificateId && event.role == c.event.role
    && event.actorPublicKey == c.event.actorPublicKey
    && event.epochId == d.epochId && event.readings <= MAX_ALLOWED_READING
    && Geofence.StrictlyOutside(d.polygon, event.point)
    && env.signatureOk(event.actorPublicKey, d.messages[i].0, d.messages[i].1)
  }

  function MessageTime(env: Env, message: (Bytes, Bytes)): U64
  {
    if |message.0| == EVENT_BYTES && DecodeEvent(env, message.0).Ok?
    then DecodeEvent(env, message.0).value.timestampMs else 0
  }

  /** The certified actor has signed 8 to 64 passing events of the lot, at increasing times. */
  ghost predicate Delivers(env: Env, c: Credential, d: Delivery)
  {
    && Geofence.PolygonVerdict(d.polygon).Ok? && MIN_EVENTS <= |d.messages| <= MAX_EVENTS
    && (forall i: nat :: i < |d.messages| ==> MessagePasses(env, c, d, i))
    && forall i: nat, j: nat :: i < j < |d.messages| ==>
        MessageTime(env, d.messages[i]) < MessageTime(env, d.messages[j])
  }

  /** The nullifier key whose commitment the credential stores. */
  predicate Opens(env: Env, c: Credential, key: Digest)
  {
    env.wordOf(c.keyCommitment) == KeyCommitment(key)
  }

  function Witnesses(c: Credential, d: Delivery, path: seq<Digest>): seq<EventWitness>
  {
    seq(|d.messages|, i requires 0 <= i < |d.messages| =>
      EventWitness(d.messages[i].0, d.messages[i].1, c.index, path))
  }

  ghost function LeafFor(env: Env, slots: Slots, c: Credential, key: Digest, d: Delivery): PolicyInput
  {
    var path := SiblingPath(CertificateTree, SlotLeaves(env, slots), 0, c.index, env.certificateDepth);
    PolicyInput(d.epochId, c.event.lotId, d.polygon, SnapshotRoot(env, slots), Raw(0), key, env.wordOf(c.ownerIdentity),
                Raw(0), Raw(0), seq(env.depth, _ => Raw(0)), Witnesses(c, d, path))
  }

  lemma {:induction false} DeliveredEventIsAccepted(env: Env, slots: Slots, c: Credential, key: Digest, d: Delivery,
                                                    i: nat)
    requires ValidEnv(env) && c.index in slots && slots[c.index] == c && c.event.role == REQUIRED_ROLE
    requires Opens(env, c, key) && i < |d.messages| && MessagePasses(env, c, d, i)
    requires WellFormed(env, LeafFor(env, slots, c, key, d))
    ensures EventAccepted(env, LeafFor(env, slots, c, key, d), i)
    ensures Timestamp(env, LeafFor(env, slots, c, key, d), i) == MessageTime(env, d.messages[i])
  {
    var event := DecodeEvent(env, d.messages[i].0).value;
    SlotOpens(env, slots, c.index, event, env.wordOf(c.ownerIdentity), KeyCommitment(key));
  }

  lemma {:induction false} LeafIsAttested(env: Env, slots: Slots, c: Credential, key: Digest, d: Delivery)
    requires ValidEnv(env) && c.index in slots && slots[c.index] == c && c.event.role == REQUIRED_ROLE
    requires Opens(env, c, key) && Delivers(env, c, d)
    ensures WellFormed(env, LeafFor(env, slots, c, key, d)) && Attested(env, LeafFor(env, slots, c, key, d))
  {
    hide EventAccepted;
    hide MessagePasses;
    hide MessageTime;
    var input := LeafFor(env, slots, c, key, d);
    LeafIsWellFormed(env, slots, c, key, d);
    forall i: nat | i < |input.events|
      ensures EventAccepted(env, input, i) && Timestamp(env, input, i) == MessageTime(env, d.messages[i])
    {
      DeliveredEventIsAccepted(env, slots, c, key, d, i);
    }
  }

  lemma {:induction false} LeafIsWellFormed(env: Env, slots: Slots, c: Credential, key: Digest, d: Delivery)
    requires Delivers(env, c, d)
    ensures WellFormed(env, LeafFor(env, slots, c, key, d))
  {
    hide MessagePasses;
    forall i: nat | i < |d.messages|
      ensures |d.messages[i].0| == EVENT_BYTES
    {
      MessageLength(env, c, d, i);
    }
  }

  lemma {:induction false} MessageLength(env: Env, c: Credential, d: Delivery, i: nat)
    requires i < |d.messages| && MessagePasses(env, c, d, i)
    ensures |d.messages[i].0| == EVENT_BYTES
  {
    hide DecodeEvent;
  }

  /** A certified credential, its key and the delivered events make an attested input. */
  lemma {:induction false} DeliveryAttests(env: Env, steps: seq<IssuerStep>, c: Credential, key: Digest, d: Delivery)
      returns (input: PolicyInput)
    requires ValidEnv(env) && Certified(steps, c) && Opens(env, c, key) && Delivers(env, c, d)
    ensures AttestedUnder(env, steps, input) && input.lotId == c.event.lotId && input.nullifierKey == key
  {
    hide Attested;
    var n: nat :| n < |steps| && CertifiedAt(steps, n, c);
    var slots := Issue(CatalogAt(steps, n), steps[n].credentials, steps[n].polygon).value.1;
    input := LeafFor(env, slots, c, key, d);
    assert IssuedAt(env, steps, n, input.certificateRoot);
    LeafIsAttested(env, slots, c, key, d);
  }

  /** Two certificates of one lot under different keys, with events for each, let the lot be accepted twice. */
  lemma {:induction false} TwoKeysRepeat(env: Env, steps: seq<IssuerStep>, c: Credential, keyC: Digest, forC: Delivery,
                                         d: Credential, keyD: Digest, forD: Delivery) returns (run: seq<PolicyInput>)
    requires ValidEnv(env) && OfOneLot(steps, c, d)
    requires Opens(env, c, keyC) && Opens(env, d, keyD) && Delivers(env, c, forC) && Delivers(env, d, forD)
    requires NullifierIndex(env, c.event.lotId, keyC) != NullifierIndex(env, c.event.lotId, keyD)
    ensures ChainedRun(env, run) && AllIssued(env, steps, run)
    ensures |run| == 2 && run[0].lotId == run[1].lotId == c.event.lotId
  {
    var a := DeliveryAttests(env, steps, c, keyC, forC);
    var b := DeliveryAttests(env, steps, d, keyD, forD);
    run := TwoNullifiersRepeat(env, steps, a, b);
  }

  /** Any two keys that open certificates of one lot are the same key. */
  ghost predicate KeysAgree(env: Env, steps: seq<IssuerStep>)
  {
    forall c, d, keyC, keyD :: OfOneLot(steps, c, d) && Opens(env, c, keyC) && Opens(env, d, keyD) ==> keyC == keyD
  }

  /** Different keys that open certificates of one lot have different nullifiers for it. */
  ghost predicate NullifiersTellKeysApart(env: Env, steps: seq<IssuerStep>)
  {
    forall c, d, keyC, keyD ::
      OfOneLot(steps, c, d) && Opens(env, c, keyC) && Opens(env, d, keyD) && keyC != keyD ==>
        NullifierIndex(env, c.event.lotId, keyC) != NullifierIndex(env, c.event.lotId, keyD)
  }

  ghost predicate EveryoneDelivers(env: Env, steps: seq<IssuerStep>)
  {
    forall c :: Certified(steps, c) ==> exists d :: Delivers(env, c, d)
  }

  lemma {:induction false} AgreeingKeysSuffice(env: Env, steps: seq<IssuerStep>)
    requires ValidEnv(env) && KeysAgree(env, steps)
    ensures NeverRepeats(env, steps)
  {
    NeverRepeatsExactly(env, steps);
    forall a, b | AttestedUnder(env, steps, a) && AttestedUnder(env, steps, b) && a.lotId == b.lotId
      ensures IndexOf(env, a) == IndexOf(env, b)
    {
      var c := AttestedLeafIsCertified(env, steps, a);
      var d := AttestedLeafIsCertified(env, steps, b);
      assert OfOneLot(steps, c, d) && Opens(env, c, a.nullifierKey) && Opens(env, d, b.nullifierKey);
    }
  }

  /**
   * Where every certified actor has signed events for its lot and no two keys share a nullifier, repetition
   * is excluded exactly when the certificates of each lot agree on the key.
   */
  lemma {:induction false} KeysDecideExactly(env: Env, steps: seq<IssuerStep>)
    requires ValidEnv(env) && EveryoneDelivers(env, steps) && NullifiersTellKeysApart(env, steps)
    ensures NeverRepeats(env, steps) <==> KeysAgree(env, steps)
  {
    if KeysAgree(env, steps) { AgreeingKeysSuffice(env, steps); }
    if NeverRepeats(env, steps) {
      forall c, d, keyC, keyD | OfOneLot(steps, c, d) && Opens(env, c, keyC) && Opens(env, d, keyD)
        ensures keyC == keyD
      {
        if keyC != keyD {
          var forC :| Delivers(env, c, forC);
          var forD :| Delivers(env, d, forD);
          var run := TwoKeysRepeat(env, steps, c, keyC, forC, d, keyD, forD);
          RunRepeats(env, steps, run);
        }
      }
    }
  }
}
