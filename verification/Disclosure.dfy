/** Bundles that open selected private fields of one leaf and authenticate it to an aggregate. */
module Disclosure {
  import opened Primitives
  import opened Sequences
  import opened Digests
  import opened PolicyTypes
  import opened Epoch
  import opened Authentication
  import opened EventOpenings
  import Merkle
  import Policy
  import Registry
  import NoLotTwice
  import Archive

  // ----- selections

  /** A comma-separated field: a single index is a range whose ends agree. */
  datatype Field = PolygonField | CredentialField | Events(first: nat, last: nat) | Unreadable

  datatype Selection = Selection(polygon: bool, events: seq<nat>, credential: bool)

  datatype DisclosureError =
    | UnknownField | OutsideLot | NoEvent | WrongLot | WitnessFails | NoLevels | Unauthenticated(error: AuthError)
    | DuplicateIndex | WrongEvent | WrongPolygon | WrongCredential

  predicate FieldOk(field: Field, eventCount: nat)
  {
    !field.Unreadable? && (field.Events? ==> field.first <= field.last < eventCount)
  }

  /** `index` is selected by one of the fields. */
  ghost predicate Selected(fields: seq<Field>, index: nat)
  {
    exists field :: field in fields && field.Events? && field.first <= index <= field.last
  }

  /** `parse_fields`: the selected indices, ascending and without repetition, all inside the lot. */
  method ParseFields(fields: seq<Field>, eventCount: nat) returns (r: Result<Selection, DisclosureError>)
    ensures r.Ok? <==>
      && (forall field :: field in fields ==> FieldOk(field, eventCount))
      && exists field :: field in fields && field.Events?
    ensures r.Ok? ==>
      && r.value.events != [] && Ascending(r.value.events)
      && (forall i :: i in r.value.events <==> Selected(fields, i))
      && (forall i :: i in r.value.events ==> i < eventCount)
      && (r.value.polygon <==> PolygonField in fields) && (r.value.credential <==> CredentialField in fields)
  {
    var polygon, credential := false, false;
    var events: set<nat> := {};
    for k := 0 to |fields|
      invariant forall field :: field in fields[..k] ==> FieldOk(field, eventCount)
      invariant polygon <==> PolygonField in fields[..k]
      invariant credential <==> CredentialField in fields[..k]
      invariant forall i :: i in events <==> Selected(fields[..k], i)
    {
      assert fields[..k + 1] == fields[..k] + [fields[k]];
      assert forall field :: field in fields[..k + 1] <==> field in fields[..k] || field == fields[k];
      assert fields[k] in fields;
      match fields[k]
      case PolygonField => polygon := true;
      case CredentialField => credential := true;
      case Unreadable => return Err(UnknownField);
      case Events(first, last) =>
        if first > last || last >= eventCount { return Err(OutsideLot); }
        events := events + Span(first, last);
    }
    assert fields[..|fields|] == fields;
    assert forall i :: i in events ==> i < eventCount;
    var indices := Sorted(events, eventCount);
    forall field | field in fields && field.Events?
      ensures indices != []
    {
      assert Selected(fields, field.first) && field.first in events;
    }
    if indices == [] { return Err(NoEvent); }
    assert Selected(fields, indices[0]);
    return Ok(Selection(polygon, indices, credential));
  }

  predicate Between(i: nat, first: nat, last: nat)
  {
    first <= i <= last
  }

  function Span(first: nat, last: nat): set<nat>
  {
    set i: nat | i <= last && Between(i, first, last)
  }

  /** The members of an index set in ascending order. */
  function Sorted(events: set<nat>, bound: nat): (s: seq<nat>)
    ensures Ascending(s) && forall i :: i in s <==> i in events && i < bound
  {
    if bound == 0 then []
    else
      var below := Sorted(events, bound - 1);
      assert forall k: nat :: k < |below| ==> below[k] in below;
      if bound - 1 in events then below + [bound - 1] else below
  }

  // ----- bundles

  datatype PolygonOpening = PolygonOpening(nonce: Digest, vertices: seq<PointE6>)
  datatype EventOpening = EventOpening(index: nat, bytes: Bytes, salt: Digest, path: seq<Digest>)
  datatype CredentialOpening = CredentialOpening(
    eventIndex: nat, credentialIndex: U16, ownerIdentity: Digest, keyCommitment: Digest,
    lotId: U64, certificateId: U64, actorPublicKey: Digest, role: U8, path: seq<Digest>)
  datatype Bundle = Bundle(
    protocolVersion: U8, lotId: U64, leaf: Words, authentication: AuthenticationPath,
    polygon: Option<PolygonOpening>, events: seq<EventOpening>, credential: Option<CredentialOpening>)
  datatype VerifiedBundle = VerifiedBundle(epochId: U64, lotId: U64, rootPublicValues: Words)

  /** `PolicyPublicValues::abi_encode`. */
  function LeafAbi(v: Policy.PolicyPublicValues): Words
  {
    [Raw(v.epochId), v.oldNullifierRoot, v.newNullifierRoot, v.eventBatchDigest, v.certificateRoot, v.polygonCommitment,
     v.nullifier, Raw(v.role), Raw(v.threshold), Raw(v.eventCount), Raw(if v.valid then 1 else 0)]
  }

  predicate EventMatches(env: Policy.Env, leaf: Words, lotId: U64, o: EventOpening)
  {
    && |o.bytes| == EVENT_BYTES
    && OpeningVerifies(NumberOf(leaf[9]), o.index, o.salt, o.bytes, o.path, leaf[3])
    && var event := Policy.DecodeEvent(env, o.bytes);
       event.Ok? && event.value.lotId == lotId && event.value.epochId == NumberOf(leaf[0])
  }

  predicate PolygonMatches(leaf: Words, o: PolygonOpening)
  {
    3 <= |o.vertices| <= MAX_POLYGON_VERTICES && PolygonCommitment(o.nonce, o.vertices) == leaf[5]
  }

  /** The credential is for the actor of an opened event and lies under the leaf's certificate root. */
  predicate CredentialMatches(env: Policy.Env, leaf: Words, o: EventOpening, c: CredentialOpening)
  {
    && |o.bytes| == EVENT_BYTES && Policy.DecodeEvent(env, o.bytes).Ok?
    && var event := Policy.DecodeEvent(env, o.bytes).value;
    && c.lotId == event.lotId && c.certificateId == event.certificateId && c.role == event.role
    && c.actorPublicKey == event.actorPublicKey
    && |c.path| == env.certificateDepth
    && Policy.CredentialRoot(c.credentialIndex, event, c.ownerIdentity, c.keyCommitment, c.path) == leaf[4]
  }

  ghost predicate DistinctIndices(events: seq<EventOpening>)
  {
    forall i: nat, j: nat :: i < j < |events| ==> events[i].index != events[j].index
  }

  /** What an accepted bundle shows. */
  ghost predicate Shows(env: Policy.Env, keys: Keys, b: Bundle)
  {
    && b.protocolVersion == 2 && 1 <= |b.events| <= MAX_EVENTS
    && Verify(keys, b.leaf, b.authentication).Ok?
    && DistinctIndices(b.events) && (forall o :: o in b.events ==> EventMatches(env, b.leaf, b.lotId, o))
    && (b.polygon.Some? ==> PolygonMatches(b.leaf, b.polygon.value))
    && (b.credential.Some? ==>
          exists o :: o in b.events && o.index == b.credential.value.eventIndex
                      && CredentialMatches(env, b.leaf, o, b.credential.value))
  }

  lemma {:induction false} AuthenticLeafWords(keys: Keys, leaf: Words, path: AuthenticationPath)
    requires Verify(keys, leaf, path).Ok?
    ensures IsU64(leaf[0]) && IsU64(leaf[9])
  {
    NodeAcceptsExactly(keys, [Leaf(leaf)]);
    assert [Leaf(leaf)][0] in [Leaf(leaf)];
  }

  ghost predicate IndexIn(events: seq<EventOpening>, index: nat)
  {
    exists o :: o in events && o.index == index
  }

  lemma {:induction false} OneMoreIndex(events: seq<EventOpening>, k: nat)
    requires k < |events|
    ensures forall i :: IndexIn(events[..k + 1], i) <==> IndexIn(events[..k], i) || i == events[k].index
    ensures DistinctIndices(events[..k + 1]) <==> DistinctIndices(events[..k]) && !IndexIn(events[..k], events[k].index)
    ensures DistinctIndices(events) ==> DistinctIndices(events[..k + 1])
  {
    assert events[..k + 1] == events[..k] + [events[k]];
    if IndexIn(events[..k], events[k].index) {
      var o :| o in events[..k] && o.index == events[k].index;
      var j :| 0 <= j < k && events[..k][j] == o;
      assert events[..k + 1][j].index == events[..k + 1][k].index;
    }
  }

  method CheckEventOpening(env: Policy.Env, leaf: Words, lotId: U64, o: EventOpening) returns (ok: bool)
    ensures ok == EventMatches(env, leaf, lotId, o)
  {
    if |o.bytes| != EVENT_BYTES { return false; }
    var verified := VerifyEventOpening(NumberOf(leaf[9]), o.index, o.salt, o.bytes, o.path, leaf[3]);
    if !verified { return false; }
    var event := Policy.DecodeEvent(env, o.bytes);
    return event.Ok? && event.value.lotId == lotId && event.value.epochId == NumberOf(leaf[0]);
  }

  /** The loop over the opened events. */
  method CheckEventOpenings(env: Policy.Env, b: Bundle) returns (r: Result<(), DisclosureError>)
    ensures r.Ok? <==> DistinctIndices(b.events) && forall o :: o in b.events ==> EventMatches(env, b.leaf, b.lotId, o)
  {
    var seen: set<nat> := {};
    for k := 0 to |b.events|
      invariant forall i :: i in seen <==> IndexIn(b.events[..k], i)
      invariant DistinctIndices(b.events[..k])
      invariant forall o :: o in b.events[..k] ==> EventMatches(env, b.leaf, b.lotId, o)
    {
      var o := b.events[k];
      assert b.events[..k + 1] == b.events[..k] + [o] && o in b.events;
      OneMoreIndex(b.events, k);
      if o.index in seen { return Err(DuplicateIndex); }
      seen := seen + {o.index};
      var matches := CheckEventOpening(env, b.leaf, b.lotId, o);
      if !matches { return Err(WrongEvent); }
    }
    assert b.events[..|b.events|] == b.events;
    return Ok(());
  }

  /** The check of an opened credential against the first opening with its index. */
  method CheckCredential(env: Policy.Env, b: Bundle, c: CredentialOpening) returns (ok: bool)
    requires DistinctIndices(b.events)
    ensures ok <==> exists o :: o in b.events && o.index == c.eventIndex && CredentialMatches(env, b.leaf, o, c)
  {
    var k := 0;
    while k < |b.events| && b.events[k].index != c.eventIndex
      invariant k <= |b.events| && forall j: nat :: j < k ==> b.events[j].index != c.eventIndex
    {
      k := k + 1;
    }
    if k == |b.events| { return false; }
    var o := b.events[k];
    assert forall x :: x in b.events && x.index == c.eventIndex ==> x == o;
    if |o.bytes| != EVENT_BYTES { return false; }
    var event := Policy.DecodeEvent(env, o.bytes);
    if event.Err? || c.lotId != event.value.lotId || c.certificateId != event.value.certificateId
        || c.role != event.value.role
       || c.actorPublicKey != event.value.actorPublicKey || |c.path| != env.certificateDepth {
      return false;
    }
    var leaf := Policy.CertificateLeafOf(c.credentialIndex, event.value, c.ownerIdentity, c.keyCommitment);
    var root := Merkle.FoldPath(CertificateTree, c.credentialIndex, leaf, c.path);
    return root == b.leaf[4];
  }

  /** `verify_openings`. */
  method VerifyOpenings(env: Policy.Env, keys: Keys, b: Bundle) returns (r: Result<VerifiedBundle, DisclosureError>)
    ensures r.Ok? <==> Shows(env, keys, b)
    ensures r.Ok? ==>
      Raw(r.value.epochId) == b.leaf[0] && r.value.lotId == b.lotId
          && Ok(r.value.rootPublicValues) == Verify(keys, b.leaf, b.authentication)
  {
    if b.protocolVersion != 2 || b.events == [] || |b.events| > MAX_EVENTS { return Err(NoEvent); }
    var root := VerifyAuthentication(keys, b.leaf, b.authentication);
    if root.Err? { return Err(Unauthenticated(root.error)); }
    AuthenticLeafWords(keys, b.leaf, b.authentication);
    var events := CheckEventOpenings(env, b);
    if events.Err? { return Err(events.error); }
    if b.polygon.Some? && !PolygonMatches(b.leaf, b.polygon.value) { return Err(WrongPolygon); }
    if b.credential.Some? {
      var ok := CheckCredential(env, b, b.credential.value);
      if !ok { return Err(WrongCredential); }
    }
    return Ok(VerifiedBundle(b.leaf[0].word, b.lotId, root.value));
  }

  // ----- opening

  /** The committed words of an accepted witness's leaf. */
  ghost predicate Commits(input: Policy.PolicyInput, leaf: Words)
  {
    && leaf[0] == Raw(input.epochId) && leaf[3] == Policy.EventBatchCommitment(input.events, input.batchNonce)
    && leaf[4] == input.certificateRoot && leaf[5] == PolygonCommitment(input.polygonNonce, input.polygon)
    && leaf[9] == Raw(|input.events|)
  }

  /** The eleven words of an accepted leaf: what it commits to, the nullifier's hash and the policy's constants. */
  lemma {:induction false} EvaluatedLeafWords(env: Policy.Env, input: Policy.PolicyInput)
    requires Policy.WellFormed(env, input) && Policy.Evaluate(env, input).Ok?
    ensures var leaf := LeafAbi(Policy.Evaluate(env, input).value);
      && Commits(input, leaf) && leaf[1] == input.oldNullifierRoot && leaf[2] == Policy.NewRoot(env, input)
      && leaf[6] == NullifierHash(input.lotId, LotSecret(input.nullifierKey, input.lotId))
      && leaf[7] == Raw(4) && leaf[8] == Raw(900) && leaf[10] == Raw(1)
  {
    hide Policy.Evaluate;
    hide Policy.Accepted;
    hide Policy.EventBatchCommitment;
    EvaluatedLeafCommits(env, input);
    Policy.EvaluatePublishes(env, input);
  }

  lemma {:induction false} EvaluatedLeafCommits(env: Policy.Env, input: Policy.PolicyInput)
    requires Policy.WellFormed(env, input) && Policy.Evaluate(env, input).Ok?
    ensures Policy.Accepted(env, input) && Commits(input, LeafAbi(Policy.Evaluate(env, input).value))
  {
    hide Policy.Evaluate;
    hide Policy.EventAccepted;
    hide Policy.TimestampsIncrease;
    Policy.EvaluateAcceptsExactly(env, input);
  }

  function Indices(events: seq<EventOpening>): seq<nat>
  {
    seq(|events|, k requires 0 <= k < |events| => events[k].index)
  }

  predicate InLot(indices: seq<nat>, count: nat)
  {
    forall k: nat :: k < |indices| ==> indices[k] < count
  }

  function OpenedEvent(input: Policy.PolicyInput, index: nat): EventOpening
    requires index < |input.events|
  {
    EventOpening(index, input.events[index].eventBytes, EventSalt(input.batchNonce, index),
                 OpeningPath(input.events, input.batchNonce, index))
  }

  function OpenedEvents(input: Policy.PolicyInput, indices: seq<nat>): seq<EventOpening>
    requires InLot(indices, |input.events|)
  {
    seq(|indices|, k requires 0 <= k < |indices| => OpenedEvent(input, indices[k]))
  }

  function OpenedCredential(env: Policy.Env, input: Policy.PolicyInput, index: nat): Option<CredentialOpening>
    requires Policy.WellFormed(env, input) && index < |input.events|
  {
    var w := input.events[index];
    var event := Policy.DecodeEvent(env, w.eventBytes);
    if event.Err? then None
    else Some(CredentialOpening(
                index, w.credentialIndex, input.ownerIdentity, KeyCommitment(input.nullifierKey), event.value.lotId,
                event.value.certificateId, event.value.actorPublicKey, event.value.role, w.certificatePath))
  }

  function OpenedBundle(env: Policy.Env, input: Policy.PolicyInput, selection: Selection,
                        authentication: AuthenticationPath, leaf: Words): Bundle
    requires Policy.WellFormed(env, input) && selection.events != [] && InLot(selection.events, |input.events|)
  {
    Bundle(2, input.lotId, leaf, authentication,
           if selection.polygon then Some(PolygonOpening(input.polygonNonce, input.polygon)) else None,
           OpenedEvents(input, selection.events),
           if selection.credential then OpenedCredential(env, input, selection.events[0]) else None)
  }

  lemma {:induction false} OpenedEventMatches(env: Policy.Env, input: Policy.PolicyInput, leaf: Words, index: nat)
    requires Policy.WellFormed(env, input) && Policy.Accepted(env, input) && Commits(input, leaf)
        && index < |input.events|
    ensures EventMatches(env, leaf, input.lotId, OpenedEvent(input, index))
  {
    assert Policy.EventAccepted(env, input, index);
    assert input.events[index] in input.events;
    var o := OpenedEvent(input, index);
    OpeningIsComplete(input.events, input.batchNonce, |input.events|, index, o.salt, o.bytes, o.path);
  }

  lemma {:induction false} OpenedCredentialMatches(env: Policy.Env, input: Policy.PolicyInput, leaf: Words, index: nat)
    requires Policy.WellFormed(env, input) && Policy.Accepted(env, input) && Commits(input, leaf)
        && index < |input.events|
    ensures OpenedCredential(env, input, index).Some?
    ensures CredentialMatches(env, leaf, OpenedEvent(input, index), OpenedCredential(env, input, index).value)
  {
    assert Policy.EventAccepted(env, input, index);
    assert input.events[index] in input.events;
  }

  /**
   * Every bundle opened from an accepted witness shows its fields: only the index list and the
   * authentication can fail.
   */
  lemma {:induction false} OpenedBundleShows(env: Policy.Env, keys: Keys, input: Policy.PolicyInput,
                                             selection: Selection, authentication: AuthenticationPath, leaf: Words)
    requires Policy.WellFormed(env, input) && Policy.Accepted(env, input) && Commits(input, leaf)
    requires selection.events != [] && InLot(selection.events, |input.events|)
    ensures Shows(env, keys, OpenedBundle(env, input, selection, authentication, leaf)) <==>
      |selection.events| <= MAX_EVENTS && Verify(keys, leaf, authentication).Ok? && NoRepeats(selection.events)
  {
    hide Policy.EventAccepted;
    hide Policy.TimestampsIncrease;
    hide EventMatches;
    hide CredentialMatches;
    hide Verify;
    var b := OpenedBundle(env, input, selection, authentication, leaf);
    assert forall k: nat :: k < |b.events| ==> b.events[k].index == selection.events[k];
    assert DistinctIndices(b.events) <==> NoRepeats(selection.events);
    forall o | o in b.events
      ensures EventMatches(env, leaf, input.lotId, o)
    {
      OpenedEventMatches(env, input, leaf, o.index);
    }
    if selection.credential {
      OpenedCredentialMatches(env, input, leaf, selection.events[0]);
      assert b.events[0] in b.events && b.events[0].index == b.credential.value.eventIndex;
    }
  }

  /** The iterator chain that opens each selected event from the rebuilt event tree. */
  method OpenEvents(input: Policy.PolicyInput, indices: seq<nat>) returns (openings: seq<EventOpening>)
    requires InLot(indices, |input.events|)
    ensures openings == OpenedEvents(input, indices)
  {
    openings := [];
    for k := 0 to |indices|
      invariant |openings| == k && forall j: nat :: j < k ==> openings[j] == OpenedEvent(input, indices[j])
    {
      var index := indices[k];
      var path := OpenEvent(input.events, input.batchNonce, index);
      var salt := EventSalt(input.batchNonce, index);
      openings := openings + [EventOpening(index, input.events[index].eventBytes, salt, path)];
    }
  }

  /** `open_bundle`: refuses exactly a wrong lot, a bad selection, a failing witness or a failing authentication. */
  method OpenBundle(env: Policy.Env, input: Policy.PolicyInput, lot: U64, selection: Selection,
                    authentication: AuthenticationPath)
      returns (r: Result<Bundle, DisclosureError>)
    requires Policy.WellFormed(env, input) && Policy.ValidEnv(env)
    ensures r.Ok? <==>
      && lot == input.lotId && Policy.Evaluate(env, input).Ok?
      && selection.events != [] && InLot(selection.events, |input.events|)
      && |selection.events| <= MAX_EVENTS && NoRepeats(selection.events)
      && authentication.levels != []
      && Verify(authentication.levels[0].keys, LeafAbi(Policy.Evaluate(env, input).value), authentication).Ok?
    ensures r.Ok? ==>
        r.value == OpenedBundle(env, input, selection, authentication, LeafAbi(Policy.Evaluate(env, input).value))
    ensures r.Ok? ==>
      && (r.value.polygon.Some? <==> selection.polygon) && (r.value.credential.Some? <==> selection.credential)
      && Indices(r.value.events) == selection.events
  {
    hide Policy.EventAccepted;
    hide OpenedEvent;
    if lot != input.lotId { return Err(WrongLot); }
    if selection.events == [] || !InLot(selection.events, |input.events|) { return Err(NoEvent); }
    var values := Policy.EvaluateInput(env, input);
    if values.Err? { return Err(WitnessFails); }
    EvaluatedLeafCommits(env, input);
    var leaf := LeafAbi(values.value);
    var events := OpenEvents(input, selection.events);
    var credential := None;
    if selection.credential {
      OpenedCredentialMatches(env, input, leaf, selection.events[0]);
      credential := OpenedCredential(env, input, selection.events[0]);
    }
    var polygon := if selection.polygon then Some(PolygonOpening(input.polygonNonce, input.polygon)) else None;
    var bundle := Bundle(2, lot, leaf, authentication, polygon, events, credential);
    if authentication.levels == [] { return Err(NoLevels); }
    OpenedBundleShows(env, authentication.levels[0].keys, input, selection, authentication, leaf);
    var checked := VerifyOpenings(env, authentication.levels[0].keys, bundle);
    IndicesOpened(input, selection.events);
    return if checked.Err? then Err(checked.error) else Ok(bundle);
  }

  /**
   * The bundle opens what the fields name and nothing else: an event, the polygon or the credential is in it
   * if and only if some field names it, and each is the witness's own.
   */
  ghost predicate OpensOnly(input: Policy.PolicyInput, fields: seq<Field>, b: Bundle)
  {
    && b.protocolVersion == 2 && b.lotId == input.lotId
    && (b.polygon.Some? <==> PolygonField in fields)
    && (b.polygon.Some? ==> b.polygon.value == PolygonOpening(input.polygonNonce, input.polygon))
    && b.events != [] && Ascending(Indices(b.events))
    && (forall i: nat :: IndexIn(b.events, i) <==> Selected(fields, i))
    && (forall o :: o in b.events ==> o.index < |input.events| && o == OpenedEvent(input, o.index))
    && (b.credential.Some? <==> CredentialField in fields)
    && (b.credential.Some? ==>
      && b.credential.value.eventIndex == b.events[0].index
      && b.credential.value.ownerIdentity == input.ownerIdentity
      && b.credential.value.keyCommitment == KeyCommitment(input.nullifierKey))
  }

  lemma {:induction false} OpenedBundleOpensOnly(env: Policy.Env, input: Policy.PolicyInput, fields: seq<Field>,
                                                 selection: Selection, authentication: AuthenticationPath, leaf: Words)
    requires Policy.WellFormed(env, input) && Policy.Accepted(env, input) && Commits(input, leaf)
    requires selection.events != [] && Ascending(selection.events) && InLot(selection.events, |input.events|)
    requires forall i: nat :: i in selection.events <==> Selected(fields, i)
    requires selection.polygon <==> PolygonField in fields
    requires selection.credential <==> CredentialField in fields
    ensures OpensOnly(input, fields, OpenedBundle(env, input, selection, authentication, leaf))
  {
    hide Policy.Accepted;
    hide OpenedEvent;
    var b := OpenedBundle(env, input, selection, authentication, leaf);
    assert Indices(b.events) == selection.events by { IndicesOpened(input, selection.events); }
    forall i: nat
      ensures IndexIn(b.events, i) <==> i in selection.events
    {
      if i in selection.events {
        var k: nat :| k < |selection.events| && selection.events[k] == i;
        assert b.events[k] in b.events && Indices(b.events)[k] == i;
      }
      if IndexIn(b.events, i) {
        var o :| o in b.events && o.index == i;
        var k: nat :| k < |b.events| && b.events[k] == o;
        assert Indices(b.events)[k] == i;
      }
    }
    forall o | o in b.events
      ensures o.index < |input.events| && o == OpenedEvent(input, o.index)
    {
      var k: nat :| k < |b.events| && b.events[k] == o;
      assert Indices(b.events)[k] == o.index;
    }
    if selection.credential { OpenedCredentialMatches(env, input, leaf, selection.events[0]); }
  }

  lemma {:induction false} IndicesOpened(input: Policy.PolicyInput, indices: seq<nat>)
    requires InLot(indices, |input.events|)
    ensures Indices(OpenedEvents(input, indices)) == indices
  {
  }

  /** `view-open`: parses the fields, opens the bundle, and discloses exactly the fields asked for. */
  method ViewOpen(env: Policy.Env, input: Policy.PolicyInput, lot: U64, fields: seq<Field>,
                  authentication: AuthenticationPath)
      returns (r: Result<Bundle, DisclosureError>)
    requires Policy.WellFormed(env, input) && Policy.ValidEnv(env)
    ensures r.Ok? ==> OpensOnly(input, fields, r.value) && r.value.authentication == authentication
    ensures r.Ok? <==>
      && (forall field :: field in fields ==> FieldOk(field, |input.events|))
      && (exists field :: field in fields && field.Events?)
      && lot == input.lotId && Policy.Evaluate(env, input).Ok? && authentication.levels != []
      && Verify(authentication.levels[0].keys, LeafAbi(Policy.Evaluate(env, input).value), authentication).Ok?
  {
    hide Verify;
    hide Policy.Evaluate;
    hide OpensOnly;
    hide Policy.Accepted;
    var selection := ParseFields(fields, |input.events|);
    if selection.Err? { return Err(selection.error); }
    r := OpenBundle(env, input, lot, selection.value, authentication);
    assert forall k: nat :: k < |selection.value.events| ==> selection.value.events[k] in selection.value.events;
    AscendingIsShort(selection.value.events, |input.events|);
    if Policy.Evaluate(env, input).Ok? {
      EvaluatedLeafCommits(env, input);
      AcceptedCount(env, input);
      OpenedBundleOpensOnly(env, input, fields, selection.value, authentication,
                            LeafAbi(Policy.Evaluate(env, input).value));
    }
  }

  lemma {:induction false} AcceptedCount(env: Policy.Env, input: Policy.PolicyInput)
    requires Policy.WellFormed(env, input) && Policy.Accepted(env, input)
    ensures |input.events| <= MAX_EVENTS
  {
  }

  /**
   * An archived leaf can be disclosed: with the path the archive recorded for it, every nonempty parsed
   * selection opens under the keys of the path's first level and authenticates to the archive's root.
   */
  lemma {:induction false} ArchivedLeafOpens(env: Policy.Env, keys: Keys, input: Policy.PolicyInput,
                                             selection: Selection, transaction: Digest, levels: seq<Level>, root: Words)
    requires Policy.WellFormed(env, input) && Policy.Evaluate(env, input).Ok?
    requires selection.events != [] && Ascending(selection.events) && InLot(selection.events, |input.events|)
    requires Archive.Authenticates(keys, LeafAbi(Policy.Evaluate(env, input).value), levels, root)
    ensures levels != [] && levels[0].keys == keys
    ensures var path, leaf := AuthenticationPath(2, Some(transaction), levels),
        LeafAbi(Policy.Evaluate(env, input).value);
      Shows(env, keys, OpenedBundle(env, input, selection, path, leaf)) && Verify(keys, leaf, path) == Ok(root)
  {
    EvaluatedLeafCommits(env, input);
    var path, leaf := AuthenticationPath(2, Some(transaction), levels), LeafAbi(Policy.Evaluate(env, input).value);
    assert Verify(keys, leaf, path) == Ok(root);
    ClimbUsesKeys(keys, Leaf(leaf), levels);
    AscendingIsShort(selection.events, |input.events|);
    OpenedBundleShows(env, keys, input, selection, path, leaf);
  }

  lemma {:induction false} ClimbUsesKeys(keys: Keys, node: EpochChild, levels: seq<Level>)
    requires Climb(keys, node, levels).Ok?
    ensures forall level :: level in levels ==> level.keys == keys
  {
    hide EvaluateNode;
    if levels != [] {
      ClimbUsesKeys(keys, node, levels[..|levels| - 1]);
      assert levels == levels[..|levels| - 1] + [levels[|levels| - 1]];
    }
  }

  lemma {:induction false} AscendingIsShort(s: seq<nat>, bound: nat)
    requires Ascending(s) && InLot(s, bound)
    ensures |s| <= bound
  {
    if s != [] { AscendingIsShort(s[..|s| - 1], s[|s| - 1]); }
  }

  // ----- what an accepted bundle proves about the witness

  /** An accepted bundle for an evaluated leaf opens the witness's own events, polygon, lot and epoch. */
  lemma {:induction false} BundleRevealsWitness(env: Policy.Env, keys: Keys, input: Policy.PolicyInput, b: Bundle)
    requires Policy.WellFormed(env, input) && Policy.Evaluate(env, input).Ok?
    requires Shows(env, keys, b) && b.leaf == LeafAbi(Policy.Evaluate(env, input).value)
    ensures b.lotId == input.lotId
    ensures forall o :: o in b.events ==> o.index < |input.events| && o == OpenedEvent(input, o.index)
    ensures b.polygon.Some? ==> b.polygon.value == PolygonOpening(input.polygonNonce, input.polygon)
  {
    EvaluatedLeafCommits(env, input);
    forall o | o in b.events
      ensures o.index < |input.events| && o == OpenedEvent(input, o.index) && b.lotId == input.lotId
    {
      OpeningRevealsEvent(env, input, b, o);
    }
    assert b.events[0] in b.events;
  }

  lemma {:induction false} OpeningRevealsEvent(env: Policy.Env, input: Policy.PolicyInput, b: Bundle, o: EventOpening)
    requires Policy.WellFormed(env, input) && Policy.Accepted(env, input) && Commits(input, b.leaf)
    requires EventMatches(env, b.leaf, b.lotId, o)
    ensures o.index < |input.events| && o == OpenedEvent(input, o.index) && b.lotId == input.lotId
  {
    OpeningIsComplete(input.events, input.batchNonce, NumberOf(b.leaf[9]), o.index, o.salt, o.bytes, o.path);
    assert Policy.EventAccepted(env, input, o.index);
  }

  /** Whatever an accepted bundle opens is of its own lot and epoch, and its polygon has 3 to 32 vertices. */
  lemma {:induction false} ShownFieldsBelong(env: Policy.Env, keys: Keys, b: Bundle)
    requires Shows(env, keys, b)
    ensures b.events != [] && IsU64(b.leaf[0])
    ensures forall o :: o in b.events ==>
      && |o.bytes| == EVENT_BYTES && Policy.DecodeEvent(env, o.bytes).Ok?
      && Policy.DecodeEvent(env, o.bytes).value.lotId == b.lotId
      && Raw(Policy.DecodeEvent(env, o.bytes).value.epochId) == b.leaf[0]
    ensures b.polygon.Some? ==>
      && 3 <= |b.polygon.value.vertices| <= 32
      && b.leaf[5] == PolygonCommitment(b.polygon.value.nonce, b.polygon.value.vertices)
  {
    hide Verify;
    hide Policy.DecodeEvent;
    AuthenticLeafWords(keys, b.leaf, b.authentication);
    assert forall o :: o in b.events ==> EventMatches(env, b.leaf, b.lotId, o);
  }

  /** Under an issued root, an opened credential is the registered one, and its owner is the witness's owner. */
  lemma {:induction false} CredentialRevealsOwner(env: Policy.Env, keys: Keys, input: Policy.PolicyInput, b: Bundle,
                                                  slots: Registry.Slots, catalog: Registry.Catalog)
    requires Policy.ValidEnv(env) && Policy.WellFormed(env, input) && Policy.Evaluate(env, input).Ok?
    requires Shows(env, keys, b) && b.leaf == LeafAbi(Policy.Evaluate(env, input).value) && b.credential.Some?
    requires input.certificateRoot == Registry.SnapshotRoot(env, slots) && Registry.SlotsOwned(catalog, slots)
    ensures var c := b.credential.value;
      && c.credentialIndex in slots && slots[c.credentialIndex].event.lotId == c.lotId == input.lotId
      && slots[c.credentialIndex].event.certificateId == c.certificateId
      && slots[c.credentialIndex].event.actorPublicKey == c.actorPublicKey
           && slots[c.credentialIndex].event.role == c.role
      && c.ownerIdentity == input.ownerIdentity && c.keyCommitment == KeyCommitment(input.nullifierKey)
  {
    var c := b.credential.value;
    var o :| o in b.events && o.index == c.eventIndex && CredentialMatches(env, b.leaf, o, c);
    BundleRevealsWitness(env, keys, input, b);
    assert EventMatches(env, b.leaf, b.lotId, o);
    EvaluatedLeafCommits(env, input);
    NoLotTwice.CredentialBindsOwnership(env, input, slots, catalog);
    var event := Policy.DecodeEvent(env, o.bytes).value;
    SlotIsOpened(env, slots, c, event);
  }

  lemma {:induction false} SlotIsOpened(env: Policy.Env, slots: Registry.Slots, c: CredentialOpening, event: EpcisEvent)
    requires Policy.ValidEnv(env) && |c.path| == env.certificateDepth
    requires Policy.CredentialRoot(c.credentialIndex, event, c.ownerIdentity, c.keyCommitment, c.path)
        == Registry.SnapshotRoot(env, slots)
    ensures c.credentialIndex in slots
        && Registry.Matches(env, slots[c.credentialIndex], event, c.ownerIdentity, c.keyCommitment)
  {
    var leaf := Policy.CertificateLeafOf(c.credentialIndex, event, c.ownerIdentity, c.keyCommitment);
    NoLotTwice.SlotIsInTree(env, c.credentialIndex);
    Merkle.OpeningIsExact(CertificateTree, Registry.SlotLeaves(env, slots), 0, c.credentialIndex, leaf, c.path);
    Registry.SlotMatches(env, slots, c.credentialIndex, event, c.ownerIdentity, c.keyCommitment);
  }

  // ----- two bundles under one root

  lemma {:induction false} PathPinsLeaf(domain: Domain, i: nat, a: Digest, p: seq<Digest>, b: Digest, q: seq<Digest>)
    requires |p| == |q| && Merkle.PathRoot(domain, i, a, p) == Merkle.PathRoot(domain, i, b, q)
    ensures a == b && p == q
    decreases |p|
  {
    hide Merkle.Parent;
    if p != [] {
      var above, other := Merkle.Parent(domain, i, a, p[0]), Merkle.Parent(domain, i, b, q[0]);
      PathPinsLeaf(domain, i / 2, above, p[1..], other, q[1..]);
      Merkle.ParentIsInjective(domain, i, a, p[0], b, q[0]);
      assert p == [p[0]] + p[1..] && q == [q[0]] + q[1..];
    } else {
      assert q == p;
    }
  }

  /** Both bundles authenticate to the same root values and choose the same child positions. */
  ghost predicate SameLeaf(keys: Keys, a: Bundle, b: Bundle)
  {
    && Verify(keys, a.leaf, a.authentication) == Verify(keys, b.leaf, b.authentication)
    && SamePositions(a.authentication.levels, b.authentication.levels)
  }

  /**
   * Two accepted bundles for the same leaf of the same root cannot contradict each other: whatever
   * events they open, they show the same epoch and the same polygon.
   */
  lemma {:induction false} BundlesAgree(env: Policy.Env, keys: Keys, a: Bundle, b: Bundle)
    requires Shows(env, keys, a) && Shows(env, keys, b) && SameLeaf(keys, a, b)
    ensures a.leaf[0] == b.leaf[0]
    ensures a.polygon.Some? && b.polygon.Some? ==> a.polygon == b.polygon
  {
    VerifiedRootPinsLeaf(keys, a.leaf, a.authentication, b.leaf, b.authentication);
  }

  /** Where they open the same event index they also show the same lot, bytes, salt and path. */
  lemma {:induction false} SharedEventAgrees(env: Policy.Env, keys: Keys, a: Bundle, b: Bundle, x: EventOpening,
                                             y: EventOpening)
    requires Shows(env, keys, a) && Shows(env, keys, b) && SameLeaf(keys, a, b)
    requires x in a.events && y in b.events && x.index == y.index
    ensures a.lotId == b.lotId && x == y
  {
    VerifiedRootPinsLeaf(keys, a.leaf, a.authentication, b.leaf, b.authentication);
    assert EventMatches(env, a.leaf, a.lotId, x) && EventMatches(env, b.leaf, b.lotId, y);
    PathPinsLeaf(EventTree, x.index, EventLeaf(x.index, x.salt, x.bytes), x.path, EventLeaf(y.index, y.salt, y.bytes),
                 y.path);
  }
}
