/**
 * Preparing one leaf of a paced cell: its events are matched with credentials of the snapshot, and the
 * resulting private input is accepted exactly when the events pass the policy's own checks.
 */
module Preparation {
  import opened Primitives
  import opened Digests
  import opened PolicyTypes
  import opened Workload
  import opened Epoch
  import Geofence
  import Merkle
  import Policy
  import SparseNullifiers
  import Registry

  // ----- the leaf's private input

  ghost predicate FixedWidth(task: LeafTask)
  {
    forall w :: w in task.events ==> |w.eventBytes| == EVENT_BYTES
  }

  /** The event belongs to the task's lot and epoch and the snapshot holds a credential for it. */
  ghost predicate Certified(env: Policy.Env, s: Registry.RegistrySnapshot, task: LeafTask, owner: Digest, key: Digest,
                            bytes: Bytes)
    requires |bytes| == EVENT_BYTES
  {
    var event := Policy.DecodeEvent(env, bytes);
    && event.Ok? && event.value.epochId == task.epochId && event.value.lotId == task.lotId
    && HasCredential(env, s, event.value, owner, key)
  }

  ghost predicate HasCredential(env: Policy.Env, s: Registry.RegistrySnapshot, event: EpcisEvent, owner: Digest,
                                key: Digest)
  {
    exists k :: k in s.credentials && Registry.Matches(env, s.credentials[k], event, owner, KeyCommitment(key))
  }

  ghost predicate Opens(env: Policy.Env, s: Registry.RegistrySnapshot, event: EpcisEvent, owner: Digest, key: Digest,
                        slot: U16, path: seq<Digest>)
  {
    && |path| == env.certificateDepth
    && Policy.CredentialRoot(slot, event, owner, KeyCommitment(key), path) == Registry.SnapshotRoot(env, s.credentials)
  }

  /** The witness as prepared: same bytes and signature, under a slot and path that open the snapshot's root. */
  ghost predicate Prepared(env: Policy.Env, s: Registry.RegistrySnapshot, owner: Digest, key: Digest,
                           before: Policy.EventWitness, w: Policy.EventWitness)
  {
    && w.eventBytes == before.eventBytes && w.signature == before.signature
    && |w.eventBytes| == EVENT_BYTES && Policy.DecodeEvent(env, w.eventBytes).Ok?
    && Opens(env, s, Policy.DecodeEvent(env, w.eventBytes).value, owner, key, w.credentialIndex, w.certificatePath)
  }

  method PrepareEvent(env: Policy.Env, s: Registry.RegistrySnapshot, task: LeafTask, owner: Digest, key: Digest,
                      w: Policy.EventWitness)
      returns (r: Option<Policy.EventWitness>)
    requires Policy.ValidEnv(env) && Registry.ValidSnapshot(env, s) && |w.eventBytes| == EVENT_BYTES
    ensures r.Some? ==> Certified(env, s, task, owner, key, w.eventBytes)
    ensures r.None? ==> !Certified(env, s, task, owner, key, w.eventBytes)
    ensures r.Some? ==> Prepared(env, s, owner, key, w, r.value)
  {
    hide Policy.ValidEnv;
    hide Policy.DecodeEvent;
    hide Registry.ValidSnapshot;
    hide Prepared;
    hide HasCredential;
    hide Opens;
    var event := Policy.DecodeEvent(env, w.eventBytes);
    if event.Err? || event.value.epochId != task.epochId || event.value.lotId != task.lotId { return None; }
    r := AttachCredential(env, s, event.value, owner, key, w);
  }

  lemma {:induction false} IsPrepared(env: Policy.Env, s: Registry.RegistrySnapshot, event: EpcisEvent, owner: Digest,
                                      key: Digest, before: Policy.EventWitness, w: Policy.EventWitness)
    requires |w.eventBytes| == EVENT_BYTES && Policy.DecodeEvent(env, w.eventBytes) == Ok(event)
    requires w.eventBytes == before.eventBytes && w.signature == before.signature
    requires Opens(env, s, event, owner, key, w.credentialIndex, w.certificatePath)
    ensures Prepared(env, s, owner, key, before, w)
  {
  }

  method AttachCredential(env: Policy.Env, s: Registry.RegistrySnapshot, event: EpcisEvent, owner: Digest,
                          key: Digest, w: Policy.EventWitness)
      returns (r: Option<Policy.EventWitness>)
    requires Policy.ValidEnv(env) && Registry.ValidSnapshot(env, s)
    requires |w.eventBytes| == EVENT_BYTES && Policy.DecodeEvent(env, w.eventBytes) == Ok(event)
    ensures r.Some? ==> HasCredential(env, s, event, owner, key)
    ensures r.None? ==> !HasCredential(env, s, event, owner, key)
    ensures r.Some? ==> Prepared(env, s, owner, key, w, r.value)
  {
    var credential := Registry.CredentialPath(env, s, event, owner, key);
    if credential.Err? { return None; }
    var attached := Policy.EventWitness(w.eventBytes, w.signature, credential.value.0, credential.value.1);
    IsPrepared(env, s, event, owner, key, w, attached);
    return Some(attached);
  }

  ghost predicate AllCertified(env: Policy.Env, s: Registry.RegistrySnapshot, task: LeafTask, owner: Digest,
                               key: Digest, n: nat)
    requires FixedWidth(task) && n <= |task.events|
  {
    forall i: nat :: i < n ==>
        (assert task.events[i] in task.events; Certified(env, s, task, owner, key, task.events[i].eventBytes))
  }

  ghost predicate AllPrepared(env: Policy.Env, s: Registry.RegistrySnapshot, owner: Digest, key: Digest,
                              before: seq<Policy.EventWitness>, after: seq<Policy.EventWitness>)
  {
    |after| <= |before| && forall i: nat :: i < |after| ==> Prepared(env, s, owner, key, before[i], after[i])
  }

  lemma {:induction false} PreparedSnoc(env: Policy.Env, s: Registry.RegistrySnapshot, owner: Digest, key: Digest,
                                        before: seq<Policy.EventWitness>, after: seq<Policy.EventWitness>,
                                        w: Policy.EventWitness)
    requires AllPrepared(env, s, owner, key, before, after) && |after| < |before|
    requires Prepared(env, s, owner, key, before[|after|], w)
    ensures AllPrepared(env, s, owner, key, before, after + [w])
  {
  }

  lemma {:induction false} PreparedWidths(env: Policy.Env, s: Registry.RegistrySnapshot, owner: Digest, key: Digest,
                                          before: seq<Policy.EventWitness>, after: seq<Policy.EventWitness>)
    requires AllPrepared(env, s, owner, key, before, after)
    ensures forall w :: w in after ==> |w.eventBytes| == EVENT_BYTES && |w.certificatePath| == env.certificateDepth
  {
  }

  /** `policy_input_from_events`: refuses exactly when some event is not certified. */
  method PrepareInput(env: Policy.Env, s: Registry.RegistrySnapshot, task: LeafTask, root: Digest, key: Digest,
                      path: seq<Digest>, owner: Digest, nonce: Digest) returns (r: Option<Policy.PolicyInput>)
    requires Policy.ValidEnv(env) && Registry.ValidSnapshot(env, s) && FixedWidth(task) && |path| == env.depth
    ensures r.Some? <==> AllCertified(env, s, task, owner, key, |task.events|)
    ensures r.Some? ==> Policy.WellFormed(env, r.value)
    ensures r.Some? ==>
        r.value == Policy.PolicyInput(
                     task.epochId, task.lotId, s.polygon, Registry.SnapshotRoot(env, s.credentials), root,
                     key, owner, s.polygonNonce, nonce, path, r.value.events)
    ensures r.Some? ==>
        |r.value.events| == |task.events| && AllPrepared(env, s, owner, key, task.events, r.value.events)
  {
    hide Prepared;
    hide Certified;
    var events: seq<Policy.EventWitness> := [];
    for i := 0 to |task.events|
      invariant |events| == i && AllCertified(env, s, task, owner, key, i)
      invariant AllPrepared(env, s, owner, key, task.events, events)
    {
      assert task.events[i] in task.events;
      var prepared := PrepareEvent(env, s, task, owner, key, task.events[i]);
      if prepared.None? { return None; }
      PreparedSnoc(env, s, owner, key, task.events, events, prepared.value);
      events := events + [prepared.value];
    }
    PreparedWidths(env, s, owner, key, task.events, events);
    var certificateRoot := Registry.Root(env, s);
    return Some(Policy.PolicyInput(task.epochId, task.lotId, s.polygon, certificateRoot, root, key, owner,
                                   s.polygonNonce, nonce, path, events));
  }

  // ----- why a leaf is refused

  /** What the run is configured with; `keyOf` and `nonceOf` are the benchmark's per-lot derivations. */
  datatype Setup = Setup(env: Policy.Env, keys: Keys, snapshot: Registry.RegistrySnapshot, owner: Digest,
                         keyOf: U64 -> Digest, nonceOf: U64 -> Digest)

  datatype Failure =
    | PathUsed | BadEvents | PolicyRejected | ProofFailed | NullifierUsed | MapDiverged
    | NoLeaves | AggregationFailed | AnchorRejected | RootDisagrees | ReceiptIncomplete | ProducerFailed

  function IndexOf(setup: Setup, lot: U64): Bytes
  {
    setup.env.bytesOf(Policy.Nullifier(lot, setup.keyOf(lot)))
  }

  /** The event passes the policy's own checks against a polygon. */
  ghost predicate EventPasses(env: Policy.Env, polygon: seq<PointE6>, w: Policy.EventWitness)
    requires |w.eventBytes| == EVENT_BYTES
  {
    var event := Policy.DecodeEvent(env, w.eventBytes);
    && event.Ok? && event.value.role == REQUIRED_ROLE && event.value.readings <= MAX_ALLOWED_READING
    && Geofence.StrictlyOutside(polygon, event.value.point)
    && env.signatureOk(event.value.actorPublicKey, w.eventBytes, w.signature)
  }

  function EventTime(env: Policy.Env, w: Policy.EventWitness): U64
    requires |w.eventBytes| == EVENT_BYTES
  {
    var event := Policy.DecodeEvent(env, w.eventBytes);
    if event.Ok? then event.value.timestampMs else 0
  }

  /** What the policy asks of a leaf's events beyond their certificates: number, checks and ascending times. */
  ghost predicate TaskPasses(setup: Setup, task: LeafTask)
    requires FixedWidth(task)
  {
    var env, events := setup.env, task.events;
    && Geofence.PolygonVerdict(setup.snapshot.polygon).Ok? && MIN_EVENTS <= |events| <= MAX_EVENTS
    && (forall i: nat :: i < |events| ==>
         (assert events[i] in events; EventPasses(env, setup.snapshot.polygon, events[i])))
    && forall i: nat, j: nat :: i < j < |events| ==>
         (assert events[i] in events && events[j] in events; EventTime(env, events[i]) < EventTime(env, events[j]))
  }

  /** Why a leaf is refused, if it is. */
  ghost function LeafVerdict(setup: Setup, used: set<nat>, task: LeafTask, proved: bool): Option<Failure>
    requires FixedWidth(task)
  {
    if BigEndian(IndexOf(setup, task.lotId)) in used then Some(PathUsed)
    else if !AllCertified(setup.env, setup.snapshot, task, setup.owner, setup.keyOf(task.lotId), |task.events|)
        then Some(BadEvents)
    else if !TaskPasses(setup, task) then Some(PolicyRejected)
    else if !proved then Some(ProofFailed)
    else None
  }

  /** Each refusal names its cause: a used nullifier, then events not certified, the policy, the prover. */
  lemma {:induction false} LeafRefusals(setup: Setup, used: set<nat>, task: LeafTask, proved: bool)
    requires FixedWidth(task)
    ensures var v, unused := LeafVerdict(setup, used, task, proved), BigEndian(IndexOf(setup, task.lotId)) !in used;
      var key := setup.keyOf(task.lotId);
      var certified := AllCertified(setup.env, setup.snapshot, task, setup.owner, key, |task.events|);
      && (v == Some(PathUsed) <==> !unused)
      && (v == Some(BadEvents) <==> unused && !certified)
      && (v == Some(PolicyRejected) <==> unused && certified && !TaskPasses(setup, task))
      && (v == Some(ProofFailed) <==> unused && certified && TaskPasses(setup, task) && !proved)
      && (v == None <==> unused && certified && TaskPasses(setup, task) && proved)
  {
  }

  /** The certificate root and polygon commitment of the run's snapshot. */
  ghost function PolicyPair(setup: Setup): (Digest, Digest)
  {
    (Registry.SnapshotRoot(setup.env, setup.snapshot.credentials),
     PolygonCommitment(setup.snapshot.polygonNonce, setup.snapshot.polygon))
  }

  /** The leaf's words lead from the root of the used set to the root with its own index added. */
  ghost predicate LeafMoves(setup: Setup, used: set<nat>, task: LeafTask, leaf: Words)
  {
    && leaf[1] == SparseNullifiers.SetRoot(setup.env.depth, used) && leaf[9] == Raw(|task.events|)
    && leaf[2] == SparseNullifiers.SetRoot(setup.env.depth, used + {BigEndian(IndexOf(setup, task.lotId))})
    && (leaf[4], leaf[5]) == PolicyPair(setup)
  }

  /** `input` is the task's prepared witness against the root and path of a map without its nullifier. */
  ghost predicate PreparedFor(setup: Setup, task: LeafTask, used: set<nat>, input: Policy.PolicyInput)
    requires FixedWidth(task)
  {
    var env, s, key, index := setup.env, setup.snapshot, setup.keyOf(task.lotId), BigEndian(IndexOf(setup, task.lotId));
    && AllCertified(env, s, task, setup.owner, key, |task.events|)
         && AllPrepared(env, s, setup.owner, key, task.events, input.events)
    && |input.events| == |task.events|
    && input == Policy.PolicyInput(
         task.epochId, task.lotId, s.polygon, Registry.SnapshotRoot(env, s.credentials),
         SparseNullifiers.SetRoot(env.depth, used), key, setup.owner, s.polygonNonce,
         setup.nonceOf(task.lotId),
         Merkle.SiblingPath(NullifierTree, SparseNullifiers.LeafOf(used), 0, index, env.depth), input.events)
  }

  lemma {:induction false} PreparedEventPasses(setup: Setup, task: LeafTask, used: set<nat>,
                                               input: Policy.PolicyInput, i: nat)
    requires FixedWidth(task) && PreparedFor(setup, task, used, input) && Policy.WellFormed(setup.env, input)
    requires i < |task.events|
    ensures task.events[i] in task.events
    ensures Policy.EventAccepted(setup.env, input, i)
        <==> EventPasses(setup.env, setup.snapshot.polygon, task.events[i])
    ensures Policy.Timestamp(setup.env, input, i) == EventTime(setup.env, task.events[i])
  {
    var env, s, key := setup.env, setup.snapshot, setup.keyOf(task.lotId);
    assert task.events[i] in task.events && input.events[i] in input.events;
    assert Prepared(env, s, setup.owner, key, task.events[i], input.events[i]);
    assert Certified(env, s, task, setup.owner, key, task.events[i].eventBytes);
  }

  lemma {:induction false} PreparedRootOpens(setup: Setup, task: LeafTask, used: set<nat>, input: Policy.PolicyInput)
    requires Policy.ValidEnv(setup.env) && FixedWidth(task) && PreparedFor(setup, task, used, input)
    requires BigEndian(IndexOf(setup, task.lotId)) !in used
    ensures Policy.OldRoot(setup.env, input) == input.oldNullifierRoot
  {
    var digest := Policy.Nullifier(task.lotId, setup.keyOf(task.lotId));
    assert 8 * |setup.env.bytesOf(digest)| == setup.env.depth;
    SparseNullifiers.BigEndianBound(setup.env.bytesOf(digest));
    SparseNullifiers.UnusedOpens(setup.env.depth, used, BigEndian(IndexOf(setup, task.lotId)));
  }

  /** A prepared witness is accepted exactly when its task passes the policy's own checks. */
  lemma {:induction false} PreparedIsAccepted(setup: Setup, task: LeafTask, used: set<nat>, input: Policy.PolicyInput)
    requires Policy.ValidEnv(setup.env) && FixedWidth(task) && PreparedFor(setup, task, used, input)
    requires Policy.WellFormed(setup.env, input) && BigEndian(IndexOf(setup, task.lotId)) !in used
    ensures Policy.Evaluate(setup.env, input).Ok? <==> TaskPasses(setup, task)
  {
    hide Policy.Evaluate;
    Policy.EvaluateAcceptsExactly(setup.env, input);
    PreparedRootOpens(setup, task, used, input);
    forall i: nat | i < |task.events|
      ensures task.events[i] in task.events
      ensures Policy.EventAccepted(setup.env, input, i)
          <==> EventPasses(setup.env, setup.snapshot.polygon, task.events[i])
      ensures Policy.Timestamp(setup.env, input, i) == EventTime(setup.env, task.events[i])
    {
      PreparedEventPasses(setup, task, used, input, i);
    }
  }
}
