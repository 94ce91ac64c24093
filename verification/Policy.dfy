/** The leaf policy: `evaluate` accepts one lot and moves the nullifier root. */
module Policy {
  import opened Primitives
  import opened Digests
  import opened PolicyTypes
  import opened Merkle
  import Geofence
  import SparseNullifiers

  /**
   * What the symbolic model leaves abstract: the 32 bytes of a digest, how 32 bytes are read back and
   * strict Ed25519 verification (including key decoding).  The two tree depths, 256 and 16 in the
   * source, are kept as parameters tied to the digest width and to the 65,536 credential slots.
   */
  datatype Env = Env(depth: nat, certificateDepth: nat, bytesOf: Digest -> Bytes, wordOf: Bytes -> Digest,
                     signatureOk: (Digest, Bytes, Bytes) -> bool)

  ghost predicate ValidEnv(env: Env)
  {
    && env.depth > 0 && (forall d: Digest :: 8 * |env.bytesOf(d)| == env.depth)
    && Pow2(env.certificateDepth) == 0x1_0000
  }

  /** The source's own depths and 32-byte digests are an instance. */
  lemma {:induction false} SourceDepthsAreValid(env: Env)
    requires env.depth == 256 && env.certificateDepth == 16 && forall d: Digest :: |env.bytesOf(d)| == 32
    ensures ValidEnv(env)
  {
    WordSizes();
  }

  datatype EventWitness = EventWitness(eventBytes: Bytes, signature: Bytes, credentialIndex: U16,
                                       certificatePath: seq<Digest>)

  datatype PolicyInput = PolicyInput(
    epochId: U64, lotId: U64, polygon: seq<PointE6>,
    certificateRoot: Digest, oldNullifierRoot: Digest, nullifierKey: Digest, ownerIdentity: Digest,
    polygonNonce: Digest, batchNonce: Digest, nullifierPath: seq<Digest>, events: seq<EventWitness>)

  /** The fixed-width arrays of the source's input types. */
  predicate WellFormed(env: Env, input: PolicyInput)
  {
    && |input.nullifierPath| == env.depth
    && forall w | w in input.events :: |w.eventBytes| == EVENT_BYTES && |w.certificatePath| == env.certificateDepth
  }

  datatype PolicyPublicValues = PolicyPublicValues(
    epochId: U64, oldNullifierRoot: Digest, newNullifierRoot: Digest, eventBatchDigest: Digest,
    certificateRoot: Digest, polygonCommitment: Digest, nullifier: Digest,
    role: U8, threshold: U32, eventCount: U8, valid: bool)

  // ----- canonical events

  function Signed32(n: nat): I32
    requires n < 0x1_0000_0000
  {
    if n < 0x8000_0000 then n else n - 0x1_0000_0000
  }

  lemma {:induction false} BigEndianWidth(b: Bytes)
    ensures |b| == 2 ==> BigEndian(b) < 0x1_0000
    ensures |b| == 4 ==> BigEndian(b) < 0x1_0000_0000
    ensures |b| == 8 ==> BigEndian(b) < U64_LIMIT
  {
    SparseNullifiers.BigEndianBound(b);
    WordSizes();
  }

  function ReadU64(b: Bytes): U64
    requires |b| == 8
  {
    BigEndianWidth(b); BigEndian(b)
  }

  function ReadU32(b: Bytes): U32
    requires |b| == 4
  {
    BigEndianWidth(b); BigEndian(b)
  }

  function DecodeEvent(env: Env, b: Bytes): Result<EpcisEvent, PolicyError>
    requires |b| == EVENT_BYTES
  {
    if b[0] != 1 then Err(UnsupportedEventVersion)
    else
      var point := PointE6(Signed32(ReadU32(b[37..41])), Signed32(ReadU32(b[41..45])));
      if !Geofence.ValidPoint(point) then Err(InvalidCoordinate)
      else Ok(EpcisEvent(ReadU64(b[1..9]), ReadU64(b[9..17]), ReadU64(b[17..25]), ReadU64(b[25..33]),
                         ReadU32(b[33..37]), point, ReadU64(b[45..53]), b[53], env.wordOf(b[54..86])))
  }

  // ----- credentials, nullifiers, event batches

  function CertificateLeafOf(slot: nat, event: EpcisEvent, owner: Digest, keyCommitment: Digest): Digest
  {
    CertificateLeaf(event.lotId, owner, keyCommitment, slot, event.certificateId, event.actorPublicKey, event.role)
  }

  /** A certificate's leaf names the event's lot, certificate, actor and role, and the owner and key given. */
  lemma {:induction false} CertificateNames(slot: nat, event: EpcisEvent, owner: Digest, keyCommitment: Digest)
    ensures CertificateLeafOf(slot, event, owner, keyCommitment)
        == CertificateLeaf(event.lotId, owner, keyCommitment, slot, event.certificateId, event.actorPublicKey,
                           event.role)
  {
  }

  function CredentialRoot(slot: nat, event: EpcisEvent, owner: Digest, keyCommitment: Digest, path: seq<Digest>): Digest
  {
    PathRoot(CertificateTree, slot, CertificateLeafOf(slot, event, owner, keyCommitment), path)
  }

  function Nullifier(lot: U64, key: Digest): Digest
  {
    NullifierHash(lot, LotSecret(key, lot))
  }

  /** A nullifier belongs to one lot and one key. */
  lemma {:induction false} NullifierIsUnique(lot: U64, key: Digest, other: U64, otherKey: Digest)
    ensures Nullifier(lot, key) == Nullifier(other, otherKey) <==> lot == other && key == otherKey
  {
  }

  function NullifierIndex(env: Env, lot: U64, key: Digest): nat
  {
    BigEndian(env.bytesOf(Nullifier(lot, key)))
  }

  function EventLeaves(events: seq<EventWitness>, nonce: Digest): nat -> Digest
  {
    (i: nat) => if i < |events| then EventLeaf(i, EventSalt(nonce, i), events[i].eventBytes) else EventPadding(i)
  }

  /** No two positions of an event tree hold the same leaf, event or padding. */
  lemma {:induction false} EventLeavesDiffer(events: seq<EventWitness>, nonce: Digest, i: nat, j: nat)
    requires i != j
    ensures EventLeaves(events, nonce)(i) != EventLeaves(events, nonce)(j)
  {
  }

  /** The number of levels above the leaves of a tree of `n` leaves padded to a power of two. */
  function TreeHeight(n: nat): (h: nat)
    ensures n <= Pow2(h)
    ensures h > 0 ==> Pow2(h - 1) < n
  {
    if n <= 1 then 0 else 1 + TreeHeight((n + 1) / 2)
  }

  function EventBatchCommitment(events: seq<EventWitness>, nonce: Digest): Digest
  {
    EventBatch(|events|, TreeNode(EventTree, EventLeaves(events, nonce), TreeHeight(|events|), 0))
  }

  // ----- evaluation

  ghost function EventVerdict(env: Env, input: PolicyInput, i: nat): Result<U64, PolicyError>
    requires WellFormed(env, input) && i < |input.events|
  {
    var w := input.events[i];
    match DecodeEvent(env, w.eventBytes)
    case Err(e) => Err(e)
    case Ok(event) =>
      if || event.lotId != input.lotId || event.epochId != input.epochId || event.role != REQUIRED_ROLE
         || event.readings > MAX_ALLOWED_READING || !Later(env, input, i, event.timestampMs) then Err(C3ThresholdOrTime)
      else if !Geofence.StrictlyOutside(input.polygon, event.point) then Err(C1Geofence)
      else if !env.signatureOk(event.actorPublicKey, w.eventBytes, w.signature) then Err(C4SignatureOrRole)
      else if CredentialRoot(w.credentialIndex, event, input.ownerIdentity, KeyCommitment(input.nullifierKey),
                             w.certificatePath)
              != input.certificateRoot then Err(C2CredentialRoot)
      else Ok(event.timestampMs)
  }

  ghost predicate Later(env: Env, input: PolicyInput, i: nat, timestamp: U64)
    requires WellFormed(env, input) && i < |input.events|
  {
    i > 0 ==>
      var before := DecodeEvent(env, input.events[i - 1].eventBytes);
      before.Ok? ==> before.value.timestampMs < timestamp
  }

  ghost function Verdicts(env: Env, input: PolicyInput): seq<Result<U64, PolicyError>>
    requires WellFormed(env, input)
  {
    seq(|input.events|, i requires 0 <= i < |input.events| => EventVerdict(env, input, i))
  }

  ghost function FirstError(verdicts: seq<Result<U64, PolicyError>>): Result<(), PolicyError>
  {
    if verdicts == [] then Ok(())
    else if verdicts[0].Err? then Err(verdicts[0].error)
    else FirstError(verdicts[1..])
  }

  lemma {:induction false} NoErrorIffAllOk(verdicts: seq<Result<U64, PolicyError>>)
    ensures FirstError(verdicts).Ok? <==> forall v :: v in verdicts ==> v.Ok?
  {
    if verdicts != [] { NoErrorIffAllOk(verdicts[1..]); }
  }

  lemma {:induction false} IncreasingFromAdjacent(times: seq<U64>, i: nat, j: nat)
    requires i < j < |times|
    requires forall k: nat :: 0 < k < |times| ==> times[k - 1] < times[k]
    ensures times[i] < times[j]
    decreases j - i
  {
    if i < j - 1 { IncreasingFromAdjacent(times, i, j - 1); }
  }

  function NewRoot(env: Env, input: PolicyInput): Digest
  {
    PathRoot(NullifierTree, NullifierIndex(env, input.lotId, input.nullifierKey), NullifierLeaf(true),
             input.nullifierPath)
  }

  function OldRoot(env: Env, input: PolicyInput): Digest
  {
    PathRoot(NullifierTree, NullifierIndex(env, input.lotId, input.nullifierKey), NullifierLeaf(false),
             input.nullifierPath)
  }

  function PublicValues(env: Env, input: PolicyInput): PolicyPublicValues
    requires |input.events| < 0x100
  {
    PolicyPublicValues(input.epochId, input.oldNullifierRoot, NewRoot(env, input),
                       EventBatchCommitment(input.events, input.batchNonce), input.certificateRoot,
                       PolygonCommitment(input.polygonNonce, input.polygon),
                       Nullifier(input.lotId, input.nullifierKey), REQUIRED_ROLE, MAX_ALLOWED_READING,
                       |input.events|, true)
  }

  ghost function Evaluate(env: Env, input: PolicyInput): Result<PolicyPublicValues, PolicyError>
    requires WellFormed(env, input)
  {
    var polygon := Geofence.PolygonVerdict(input.polygon);
    if polygon.Err? then Err(polygon.error)
    else if !(MIN_EVENTS <= |input.events| <= MAX_EVENTS) then Err(InvalidInput)
    else
      var events := FirstError(Verdicts(env, input));
      if events.Err? then Err(events.error)
      else if OldRoot(env, input) != input.oldNullifierRoot then Err(C5Nullifier)
      else Ok(PublicValues(env, input))
  }

  /** One round of the evaluator's event loop. */
  method CheckEvent(env: Env, input: PolicyInput, i: nat, previous: Option<U64>) returns (r: Result<U64, PolicyError>)
    requires WellFormed(env, input) && i < |input.events|
    requires i == 0 ==> previous == None
    requires i > 0 ==> Verdicts(env, input)[i - 1].Ok? && previous == Some(Verdicts(env, input)[i - 1].value)
    ensures r == Verdicts(env, input)[i]
  {
    if i > 0 { VerdictTime(env, input, i - 1); }
    var w := input.events[i];
    var decoded := DecodeEvent(env, w.eventBytes);
    if decoded.Err? { return Err(decoded.error); }
    var event := decoded.value;
    if || event.lotId != input.lotId || event.epochId != input.epochId || event.role != REQUIRED_ROLE
       || event.readings > MAX_ALLOWED_READING || (previous.Some? && event.timestampMs <= previous.value) {
      return Err(C3ThresholdOrTime);
    }
    var outside := Geofence.IsStrictlyOutside(input.polygon, event.point);
    if !outside { return Err(C1Geofence); }
    if !env.signatureOk(event.actorPublicKey, w.eventBytes, w.signature) { return Err(C4SignatureOrRole); }
    var leaf := CertificateLeafOf(w.credentialIndex, event, input.ownerIdentity, KeyCommitment(input.nullifierKey));
    var root := FoldPath(CertificateTree, w.credentialIndex, leaf, w.certificatePath);
    return if root != input.certificateRoot then Err(C2CredentialRoot) else Ok(event.timestampMs);
  }

  lemma {:induction false} VerdictTime(env: Env, input: PolicyInput, i: nat)
    requires WellFormed(env, input) && i < |input.events| && Verdicts(env, input)[i].Ok?
    ensures DecodeEvent(env, input.events[i].eventBytes).Ok?
        && Verdicts(env, input)[i].value == Timestamp(env, input, i)
  {
  }

  /** The evaluator's loop over the events, with the previous timestamp carried along. */
  method CheckEvents(env: Env, input: PolicyInput) returns (r: Result<(), PolicyError>)
    requires WellFormed(env, input)
    ensures r == FirstError(Verdicts(env, input))
  {
    ghost var verdicts := Verdicts(env, input);
    var previous: Option<U64> := None;
    for i := 0 to |input.events|
      invariant FirstError(verdicts) == FirstError(verdicts[i..])
      invariant i == 0 ==> previous == None
      invariant i > 0 ==> verdicts[i - 1].Ok? && previous == Some(verdicts[i - 1].value)
    {
      assert verdicts[i..][0] == verdicts[i] && verdicts[i..][1..] == verdicts[i + 1..];
      var verdict := CheckEvent(env, input, i, previous);
      if verdict.Err? { return Err(verdict.error); }
      previous := Some(verdict.value);
    }
    return Ok(());
  }

  method EvaluateInput(env: Env, input: PolicyInput) returns (r: Result<PolicyPublicValues, PolicyError>)
    requires WellFormed(env, input) && ValidEnv(env)
    ensures r == Evaluate(env, input)
  {
    var polygon := Geofence.ValidatePolygon(input.polygon);
    if polygon.Err? { return Err(polygon.error); }
    if !(MIN_EVENTS <= |input.events| <= MAX_EVENTS) { return Err(InvalidInput); }
    var events := CheckEvents(env, input);
    if events.Err? { return Err(events.error); }
    var nullifier := Nullifier(input.lotId, input.nullifierKey);
    assert 8 * |env.bytesOf(nullifier)| == env.depth;
    var index := env.bytesOf(nullifier);
    var oldRoot := SparseNullifiers.SparseRoot(index, NullifierLeaf(false), input.nullifierPath);
    if oldRoot != input.oldNullifierRoot { return Err(C5Nullifier); }
    var newRoot := SparseNullifiers.SparseRoot(index, NullifierLeaf(true), input.nullifierPath);
    var batch := EventBatchRoot(input.events, input.batchNonce);
    return Ok(PolicyPublicValues(input.epochId, input.oldNullifierRoot, newRoot, batch, input.certificateRoot,
                                 PolygonCommitment(input.polygonNonce, input.polygon), nullifier,
                                 REQUIRED_ROLE, MAX_ALLOWED_READING, |input.events|, true));
  }

  /** `event_tree`: leaves and padding, then levels up to the root. */
  method BuildEventTree(events: seq<EventWitness>, nonce: Digest) returns (levels: seq<seq<Digest>>)
    ensures IsTree(EventTree, EventLeaves(events, nonce), TreeHeight(|events|), levels)
  {
    var width, height := 1, 0;
    while width < |events|
      invariant width == Pow2(height) && height <= TreeHeight(|events|)
      decreases TreeHeight(|events|) - height
    {
      if height == TreeHeight(|events|) { assert false; }
      width, height := 2 * width, height + 1;
    }
    HeightIsLeast(|events|, height);
    var leaves := seq(width, i requires 0 <= i < width => EventLeaves(events, nonce)(i));
    levels := BuildLevels(EventTree, leaves, height);
    forall d: nat | d <= height
      ensures IsLevel(EventTree, EventLeaves(events, nonce), height, d, levels[d])
    {
      assert IsLevel(EventTree, LeafAt(leaves), height, d, levels[d]);
      forall p: nat | p < |levels[d]|
        ensures levels[d][p] == TreeNode(EventTree, EventLeaves(events, nonce), d, p)
      {
        SubtreeInside(height, d, p);
        TreeNodeExtensional(EventTree, LeafAt(leaves), EventLeaves(events, nonce), d, p);
      }
    }
  }

  lemma {:induction false} SubtreeInside(height: nat, d: nat, p: nat)
    requires d <= height && p < Pow2(height - d)
    ensures (p + 1) * Pow2(d) <= Pow2(height)
  {
    Pow2Add(height - d, d);
    MulMonotone(p + 1, Pow2(height - d), Pow2(d));
  }

  lemma {:induction false} HeightIsLeast(n: nat, h: nat)
    requires n <= Pow2(h) && h <= TreeHeight(n)
    ensures h == TreeHeight(n)
  {
    var below: nat := if TreeHeight(n) == 0 then 0 else TreeHeight(n) - 1;
    if h < TreeHeight(n) {
      Pow2Monotone(h, below);
      assert false;
    }
  }

  method EventBatchRoot(events: seq<EventWitness>, nonce: Digest) returns (commitment: Digest)
    ensures commitment == EventBatchCommitment(events, nonce)
  {
    var levels := BuildEventTree(events, nonce);
    var height := |levels| - 1;
    assert IsLevel(EventTree, EventLeaves(events, nonce), height, height, levels[height]);
    assert Pow2(0) == 1;
    commitment := EventBatch(|events|, levels[height][0]);
  }

  // ----- what acceptance means

  ghost predicate EventAccepted(env: Env, input: PolicyInput, i: nat)
    requires WellFormed(env, input) && i < |input.events|
  {
    var w := input.events[i];
    var decoded := DecodeEvent(env, w.eventBytes);
    && decoded.Ok?
    && decoded.value.lotId == input.lotId && decoded.value.epochId == input.epochId
    && decoded.value.role == REQUIRED_ROLE && decoded.value.readings <= MAX_ALLOWED_READING
    && Geofence.StrictlyOutside(input.polygon, decoded.value.point)
    && env.signatureOk(decoded.value.actorPublicKey, w.eventBytes, w.signature)
    && CredentialRoot(w.credentialIndex, decoded.value, input.ownerIdentity, KeyCommitment(input.nullifierKey),
                      w.certificatePath)
       == input.certificateRoot
  }

  function Timestamp(env: Env, input: PolicyInput, i: nat): U64
    requires WellFormed(env, input) && i < |input.events|
  {
    var decoded := DecodeEvent(env, input.events[i].eventBytes);
    if decoded.Ok? then decoded.value.timestampMs else 0
  }

  ghost predicate TimestampsIncrease(env: Env, input: PolicyInput)
    requires WellFormed(env, input)
  {
    forall i: nat, j: nat :: i < j < |input.events| ==> Timestamp(env, input, i) < Timestamp(env, input, j)
  }

  /** All that is asked of an input but its nullifier: signed, certified events outside the polygon. */
  ghost predicate Attested(env: Env, input: PolicyInput)
    requires WellFormed(env, input)
  {
    && Geofence.PolygonVerdict(input.polygon).Ok?
    && MIN_EVENTS <= |input.events| <= MAX_EVENTS
    && (forall i: nat :: i < |input.events| ==> EventAccepted(env, input, i))
    && TimestampsIncrease(env, input)
  }

  ghost predicate Accepted(env: Env, input: PolicyInput)
    requires WellFormed(env, input)
  {
    Attested(env, input) && OldRoot(env, input) == input.oldNullifierRoot
  }

  lemma {:induction false} VerdictIsAcceptance(env: Env, input: PolicyInput, i: nat)
    requires WellFormed(env, input) && i < |input.events|
    ensures Verdicts(env, input)[i].Ok?
        <==> EventAccepted(env, input, i) && Later(env, input, i, Timestamp(env, input, i))
  {
  }

  lemma {:induction false} LaterIsAdjacent(env: Env, input: PolicyInput, i: nat)
    requires WellFormed(env, input) && 0 < i < |input.events|
    requires EventAccepted(env, input, i - 1)
    ensures Later(env, input, i, Timestamp(env, input, i)) <==> Timestamp(env, input, i - 1) < Timestamp(env, input, i)
  {
  }

  lemma {:induction false} AcceptedTimestampsIncrease(env: Env, input: PolicyInput)
    requires WellFormed(env, input)
    requires forall i: nat :: i < |input.events| ==>
        EventAccepted(env, input, i) && Later(env, input, i, Timestamp(env, input, i))
    ensures TimestampsIncrease(env, input)
  {
    var times := seq(|input.events|, i requires 0 <= i < |input.events| => Timestamp(env, input, i));
    forall i: nat | 0 < i < |times|
      ensures times[i - 1] < times[i]
    {
      LaterIsAdjacent(env, input, i);
    }
    forall i: nat, j: nat | i < j < |input.events|
      ensures Timestamp(env, input, i) < Timestamp(env, input, j)
    {
      IncreasingFromAdjacent(times, i, j);
      assert times[i] == Timestamp(env, input, i) && times[j] == Timestamp(env, input, j);
    }
  }

  /** All events pass the loop exactly when each is accepted and the timestamps strictly increase. */
  lemma {:induction false} EventsAcceptedExactly(env: Env, input: PolicyInput)
    requires WellFormed(env, input)
    ensures FirstError(Verdicts(env, input)).Ok? <==>
      (forall i: nat :: i < |input.events| ==> EventAccepted(env, input, i)) && TimestampsIncrease(env, input)
  {
    hide EventAccepted;
    hide EventVerdict;
    var verdicts := Verdicts(env, input);
    NoErrorIffAllOk(verdicts);
    if FirstError(verdicts).Ok? {
      forall i: nat | i < |input.events|
        ensures EventAccepted(env, input, i) && Later(env, input, i, Timestamp(env, input, i))
      {
        assert verdicts[i] in verdicts;
        VerdictIsAcceptance(env, input, i);
      }
      AcceptedTimestampsIncrease(env, input);
    } else {
      var k :| 0 <= k < |verdicts| && verdicts[k].Err?;
      VerdictIsAcceptance(env, input, k);
      if k > 0 && EventAccepted(env, input, k - 1) { LaterIsAdjacent(env, input, k); }
    }
  }

  /** `evaluate` succeeds exactly on inputs meeting every clause, with strictly increasing timestamps throughout. */
  lemma {:induction false} EvaluateAcceptsExactly(env: Env, input: PolicyInput)
    requires WellFormed(env, input)
    ensures Evaluate(env, input).Ok? <==> Accepted(env, input)
    ensures Evaluate(env, input).Ok? ==> Evaluate(env, input).value == PublicValues(env, input)
  {
    EventsAcceptedExactly(env, input);
  }

  /** What acceptance publishes, field by field: every private value only inside a hash. */
  lemma {:induction false} EvaluatePublishes(env: Env, input: PolicyInput)
    requires WellFormed(env, input) && Evaluate(env, input).Ok?
    ensures var v := Evaluate(env, input).value;
      && v.epochId == input.epochId && v.certificateRoot == input.certificateRoot
      && v.polygonCommitment == PolygonCommitment(input.polygonNonce, input.polygon)
      && v.nullifier == NullifierHash(input.lotId, LotSecret(input.nullifierKey, input.lotId))
      && v.eventBatchDigest == EventBatchCommitment(input.events, input.batchNonce)
      && v.eventCount == |input.events| && v.role == 4 && v.threshold == 900 && v.valid
      && v.oldNullifierRoot == input.oldNullifierRoot
      && v.newNullifierRoot
           == PathRoot(NullifierTree, BigEndian(env.bytesOf(v.nullifier)), NullifierLeaf(true), input.nullifierPath)
  {
    EvaluateAcceptsExactly(env, input);
  }

  // ----- why an input is refused

  /** The event is the input's: lot, epoch, role, reading, and later than the event before it. */
  ghost predicate FieldsAccepted(env: Env, input: PolicyInput, i: nat)
    requires WellFormed(env, input) && i < |input.events|
  {
    var decoded := DecodeEvent(env, input.events[i].eventBytes);
    && decoded.Ok? && decoded.value.lotId == input.lotId && decoded.value.epochId == input.epochId
    && decoded.value.role == REQUIRED_ROLE && decoded.value.readings <= MAX_ALLOWED_READING
    && (i > 0 ==> Timestamp(env, input, i - 1) < Timestamp(env, input, i))
  }

  ghost predicate Outside(env: Env, input: PolicyInput, i: nat)
    requires WellFormed(env, input) && i < |input.events|
  {
    var decoded := DecodeEvent(env, input.events[i].eventBytes);
    decoded.Ok? && Geofence.StrictlyOutside(input.polygon, decoded.value.point)
  }

  ghost predicate Signed(env: Env, input: PolicyInput, i: nat)
    requires WellFormed(env, input) && i < |input.events|
  {
    var w := input.events[i];
    var decoded := DecodeEvent(env, w.eventBytes);
    decoded.Ok? && env.signatureOk(decoded.value.actorPublicKey, w.eventBytes, w.signature)
  }

  /** What an error says about the event it is raised for, if every earlier check passed. */
  ghost predicate Blames(env: Env, input: PolicyInput, i: nat, error: PolicyError)
    requires WellFormed(env, input) && i < |input.events|
  {
    var decoded := DecodeEvent(env, input.events[i].eventBytes);
    match error
    case UnsupportedEventVersion => input.events[i].eventBytes[0] != 1
    case InvalidCoordinate => input.events[i].eventBytes[0] == 1 && decoded.Err?
    case C3ThresholdOrTime => decoded.Ok? && !FieldsAccepted(env, input, i)
    case C1Geofence => FieldsAccepted(env, input, i) && !Outside(env, input, i)
    case C4SignatureOrRole => FieldsAccepted(env, input, i) && Outside(env, input, i) && !Signed(env, input, i)
    case C2CredentialRoot =>
      && FieldsAccepted(env, input, i) && Outside(env, input, i) && Signed(env, input, i)
      && !EventAccepted(env, input, i)
    case _ => false
  }

  lemma {:induction false} VerdictBlames(env: Env, input: PolicyInput, i: nat, error: PolicyError)
    requires WellFormed(env, input) && i < |input.events| && (i > 0 ==> EventAccepted(env, input, i - 1))
    ensures EventVerdict(env, input, i) == Err(error) <==> Blames(env, input, i, error)
  {
  }

  /** The events before `i` are accepted, at increasing times. */
  ghost predicate AcceptedBefore(env: Env, input: PolicyInput, i: nat)
    requires WellFormed(env, input) && i <= |input.events|
  {
    forall k: nat :: k < i ==>
      EventAccepted(env, input, k) && (k > 0 ==> Timestamp(env, input, k - 1) < Timestamp(env, input, k))
  }

  lemma {:induction false} FirstErrorIsFirst(verdicts: seq<Result<U64, PolicyError>>, error: PolicyError)
    ensures FirstError(verdicts) == Err(error) <==>
      exists i: nat :: i < |verdicts| && verdicts[i] == Err(error) && forall k: nat :: k < i ==> verdicts[k].Ok?
  {
    if verdicts != [] {
      FirstErrorIsFirst(verdicts[1..], error);
      if i: nat :| i < |verdicts| && verdicts[i] == Err(error) && forall k: nat :: k < i ==> verdicts[k].Ok? {
        if i > 0 { assert verdicts[1..][i - 1] == Err(error); }
      }
      if verdicts[0].Ok? && FirstError(verdicts) == Err(error) {
        var j: nat :| j < |verdicts[1..]| && verdicts[1..][j] == Err(error)
          && forall k: nat :: k < j ==> verdicts[1..][k].Ok?;
        assert verdicts[j + 1] == Err(error);
        forall k: nat | k < j + 1
          ensures verdicts[k].Ok?
        {
          if k > 0 { assert verdicts[k] == verdicts[1..][k - 1]; }
        }
      }
    }
  }

  lemma {:induction false} FirstIsLater(env: Env, input: PolicyInput, timestamp: U64)
    requires WellFormed(env, input) && input.events != []
    ensures Later(env, input, 0, timestamp)
  {
  }

  lemma {:induction false} OkBefore(env: Env, input: PolicyInput, i: nat)
    requires WellFormed(env, input) && i <= |input.events|
    ensures (forall k: nat :: k < i ==> Verdicts(env, input)[k].Ok?) <==> AcceptedBefore(env, input, i)
  {
    hide EventAccepted;
    hide EventVerdict;
    hide Later;
    hide Timestamp;
    if i > 0 {
      OkBefore(env, input, i - 1);
      VerdictIsAcceptance(env, input, i - 1);
      if i == 1 { FirstIsLater(env, input, Timestamp(env, input, 0)); }
      if i > 1 && EventAccepted(env, input, i - 2) { LaterIsAdjacent(env, input, i - 1); }
    }
  }

  /** The events raise an error exactly when the first event that is not accepted is to blame for it. */
  lemma {:induction false} EventsBlameExactly(env: Env, input: PolicyInput, error: PolicyError)
    requires WellFormed(env, input)
    ensures FirstError(Verdicts(env, input)) == Err(error) <==>
      exists i: nat :: i < |input.events| && AcceptedBefore(env, input, i) && Blames(env, input, i, error)
  {
    hide EventAccepted;
    hide EventVerdict;
    hide Blames;
    var verdicts := Verdicts(env, input);
    FirstErrorIsFirst(verdicts, error);
    forall i: nat | i < |input.events|
      ensures (forall k: nat :: k < i ==> verdicts[k].Ok?) <==> AcceptedBefore(env, input, i)
      ensures AcceptedBefore(env, input, i) ==> (verdicts[i] == Err(error) <==> Blames(env, input, i, error))
    {
      OkBefore(env, input, i);
      if AcceptedBefore(env, input, i) { VerdictBlames(env, input, i, error); }
    }
  }

  /** Which error a refused input gets: the polygon's, the count, the first event to blame, the nullifier. */
  lemma {:induction false} EvaluateRefusesExactly(env: Env, input: PolicyInput, error: PolicyError)
    requires WellFormed(env, input)
    ensures Evaluate(env, input) == Err(error) <==>
      || Geofence.PolygonVerdict(input.polygon) == Err(error)
      || (Geofence.PolygonVerdict(input.polygon).Ok? &&
          if !(8 <= |input.events| <= 64) then error == InvalidInput
          else
            || (exists i: nat :: i < |input.events| && AcceptedBefore(env, input, i) && Blames(env, input, i, error))
            || (Attested(env, input) && OldRoot(env, input) != input.oldNullifierRoot && error == C5Nullifier))
  {
    hide EventAccepted;
    hide Blames;
    hide Verdicts;
    EventsBlameExactly(env, input, error);
    EventsAcceptedExactly(env, input);
  }
}
