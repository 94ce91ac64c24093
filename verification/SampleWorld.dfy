/**
 * For any two credentials with different key commitments, an environment in which their actors have signed
 * events for their lots and their keys have different nullifiers.
 */
module SampleWorld {
  import opened Primitives
  import opened Digests
  import opened PolicyTypes
  import opened Policy
  import opened Registry
  import opened RepeatedLots
  import Geofence
  import Wire

  function Filled(x: Byte): Word
  {
    seq(32, _ => x)
  }

  const FIRST_KEY: Digest := Raw(1)
  const SECOND_KEY: Digest := Raw(2)

  /** The stored commitments and actor keys of the two credentials, and the digests they stand for. */
  datatype Cast = Cast(c: Credential, d: Credential, actorOfC: Word, actorOfD: Word)

  predicate AllDifferent(x: Cast)
  {
    && x.c.keyCommitment != x.d.keyCommitment && x.actorOfC != x.actorOfD
    && x.actorOfC != x.c.keyCommitment && x.actorOfC != x.d.keyCommitment
    && x.actorOfD != x.c.keyCommitment && x.actorOfD != x.d.keyCommitment
  }

  lemma {:induction false} FilledDiffer(x: Byte, y: Byte)
    requires x != y
    ensures Filled(x) != Filled(y)
  {
    assert Filled(x)[0] != Filled(y)[0];
  }

  function Unlike(a: Word, b: Word, x: Byte): (w: Word)
    requires x < 0xfd
    ensures w == Filled(x) || w == Filled(x + 1) || w == Filled(x + 2)
    ensures w != a && w != b
  {
    FilledDiffer(x, x + 1);
    FilledDiffer(x, x + 2);
    FilledDiffer(x + 1, x + 2);
    if Filled(x) != a && Filled(x) != b then Filled(x)
    else if Filled(x + 1) != a && Filled(x + 1) != b then Filled(x + 1) else Filled(x + 2)
  }

  lemma {:induction false} UnlikeDiffer(a: Word, b: Word)
    ensures Unlike(a, b, 0) != Unlike(a, b, 3)
  {
    forall x: Byte, y: Byte | x < 3 <= y
      ensures Filled(x) != Filled(y)
    {
      FilledDiffer(x, y);
    }
  }

  function WordIn(x: Cast): Bytes -> Digest
  {
    (b: Bytes) =>
      if b == x.c.keyCommitment then KeyCommitment(FIRST_KEY)
      else if b == x.d.keyCommitment then KeyCommitment(SECOND_KEY)
      else if b == x.actorOfC then x.c.event.actorPublicKey
      else if b == x.actorOfD then x.d.event.actorPublicKey
      else Raw(0)
  }

  function BytesIn(lot: U64): Digest -> Bytes
  {
    (y: Digest) => Filled(if y == Nullifier(lot, FIRST_KEY) then 0 else 1)
  }

  function World(x: Cast): Env
  {
    Env(256, 16, BytesIn(x.c.event.lotId), WordIn(x), (_, _, _) => true)
  }

  lemma {:induction false} LastByte(x: Byte)
    ensures BigEndian(Filled(x)) % 0x100 == x
  {
    assert Filled(x) != [] && Filled(x)[31] == x;
  }

  lemma {:induction false} WorldIsValid(x: Cast)
    requires AllDifferent(x) && x.c.event.lotId == x.d.event.lotId
    ensures ValidEnv(World(x)) && Opens(World(x), x.c, FIRST_KEY) && Opens(World(x), x.d, SECOND_KEY)
    ensures NullifierIndex(World(x), x.c.event.lotId, FIRST_KEY)
        != NullifierIndex(World(x), x.c.event.lotId, SECOND_KEY)
  {
    SourceDepthsAreValid(World(x));
    LastByte(0);
    LastByte(1);
  }

  // ----- the events

  const TRIANGLE: seq<PointE6> := [PointE6(0, 0), PointE6(0, 1), PointE6(1, 0)]
  const PLACE: PointE6 := PointE6(2, 2)

  lemma {:induction false} AreaStep(v: seq<PointE6>, n: nat)
    requires n < |v|
    ensures Geofence.Area(v, n + 1) == Geofence.Area(v, n)
        + Geofence.Cross(v[n].longitudeE6, v[n].latitudeE6, Geofence.Next(v, n).longitudeE6,
                         Geofence.Next(v, n).latitudeE6)
  {
  }

  lemma {:induction false} TriangleHasArea()
    ensures Geofence.Area(TRIANGLE, 3) != 0
  {
    assert Geofence.Area(TRIANGLE, 0) == 0;
    hide Geofence.Area;
    AreaStep(TRIANGLE, 0);
    AreaStep(TRIANGLE, 1);
    AreaStep(TRIANGLE, 2);
  }

  lemma {:induction false} TriangleIsSimple()
    ensures Geofence.SimplePolygon(TRIANGLE)
  {
    hide Geofence.SegmentsIntersect;
    hide Geofence.Area;
    TriangleHasArea();
    forall i: nat | i < 3
      ensures TRIANGLE[i] != Geofence.Next(TRIANGLE, i)
    {
    }
    forall i: nat, j: nat | i < j < 3
      ensures !Geofence.Clash(TRIANGLE, i, j)
    {
    }
  }

  lemma {:induction false} TriangleIsValid()
    ensures Geofence.PolygonVerdict(TRIANGLE) == Ok(())
    ensures Geofence.ValidPoint(PLACE) && Geofence.StrictlyOutside(TRIANGLE, PLACE)
  {
    hide Geofence.SimplePolygon;
    hide Geofence.StrictlyOutside;
    TriangleIsSimple();
    assert Geofence.OutsideBox(TRIANGLE, PLACE);
    Geofence.OutsideBoxIsOutside(TRIANGLE, PLACE);
  }

  function RawEvent(c: Credential, actor: Word, i: nat): Wire.Event
    requires i < MIN_EVENTS
  {
    Wire.Event(i, c.event.lotId, 1, i + 1, 1, PLACE, c.event.certificateId, c.event.role, actor)
  }

  function DeliveryBy(c: Credential, actor: Word): Delivery
  {
    Delivery(1, TRIANGLE, seq(MIN_EVENTS, i requires 0 <= i < MIN_EVENTS =>
      (Wire.EncodeEvent(RawEvent(c, actor, i)), [])))
  }

  lemma {:induction false} MessageDecodes(env: Env, c: Credential, actor: Word, i: nat)
    requires i < MIN_EVENTS
    ensures DecodeEvent(env, Wire.EncodeEvent(RawEvent(c, actor, i)))
         == Ok(EpcisEvent(i, c.event.lotId, 1, i + 1, 1, PLACE, c.event.certificateId, c.event.role, env.wordOf(actor)))
  {
    TriangleIsValid();
    Wire.EventExactly(Wire.EncodeEvent(RawEvent(c, actor, i)), RawEvent(c, actor, i));
    Wire.PolicyReadsTheSameEvent(env, Wire.EncodeEvent(RawEvent(c, actor, i)));
  }

  lemma {:induction false} ActorSigns(env: Env, c: Credential, actor: Word, i: nat)
    requires env.wordOf(actor) == c.event.actorPublicKey && i < MIN_EVENTS
    requires forall key: Digest, message: Bytes, signature: Bytes :: env.signatureOk(key, message, signature)
    ensures MessagePasses(env, c, DeliveryBy(c, actor), i)
    ensures MessageTime(env, DeliveryBy(c, actor).messages[i]) == i + 1
  {
    hide DecodeEvent;
    hide Geofence.StrictlyOutside;
    TriangleIsValid();
    MessageDecodes(env, c, actor, i);
  }

  /** Where all signatures verify, an actor whose key is read from these bytes delivers. */
  lemma {:induction false} ActorDelivers(env: Env, c: Credential, actor: Word)
    requires env.wordOf(actor) == c.event.actorPublicKey
    requires forall key: Digest, message: Bytes, signature: Bytes :: env.signatureOk(key, message, signature)
    ensures Delivers(env, c, DeliveryBy(c, actor))
  {
    hide MessagePasses;
    hide MessageTime;
    hide Geofence.PolygonVerdict;
    TriangleIsValid();
    forall i: nat | i < MIN_EVENTS
      ensures MessagePasses(env, c, DeliveryBy(c, actor), i)
      ensures MessageTime(env, DeliveryBy(c, actor).messages[i]) == i + 1
    {
      ActorSigns(env, c, actor, i);
    }
  }

  lemma {:induction false} CastOf(c: Credential, d: Credential) returns (x: Cast)
    requires c.keyCommitment != d.keyCommitment
    ensures x.c == c && x.d == d && AllDifferent(x)
  {
    hide Unlike;
    x := Cast(c, d, Unlike(c.keyCommitment, d.keyCommitment, 0), Unlike(c.keyCommitment, d.keyCommitment, 3));
    UnlikeDiffer(c.keyCommitment, d.keyCommitment);
  }

  /** Both deliver, under keys with different nullifiers. */
  lemma {:induction false} TwoCanDeliver(c: Credential, d: Credential)
      returns (env: Env, forC: Delivery, forD: Delivery)
    requires c.event.lotId == d.event.lotId && c.keyCommitment != d.keyCommitment
    ensures ValidEnv(env) && Opens(env, c, FIRST_KEY) && Opens(env, d, SECOND_KEY)
    ensures Delivers(env, c, forC) && Delivers(env, d, forD)
    ensures NullifierIndex(env, c.event.lotId, FIRST_KEY) != NullifierIndex(env, c.event.lotId, SECOND_KEY)
  {
    hide Delivers;
    hide DeliveryBy;
    var x := CastOf(c, d);
    env, forC, forD := World(x), DeliveryBy(c, x.actorOfC), DeliveryBy(d, x.actorOfD);
    WorldIsValid(x);
    ActorDelivers(env, c, x.actorOfC);
    ActorDelivers(env, d, x.actorOfD);
  }
}
