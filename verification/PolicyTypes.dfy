/** Error codes, limits and records of policy version 2. */
module PolicyTypes {
  import opened Primitives
  import opened Digests

  const MIN_EVENTS: nat := 8
  const MAX_EVENTS: nat := 64
  const EVENT_BYTES: nat := 86
  const REQUIRED_ROLE: nat := 4
  const MAX_ALLOWED_READING: nat := 900
  const MAX_POLYGON_VERTICES: nat := 32

  datatype PolicyError =
    | InvalidInput
    | UnsupportedEventVersion
    | InvalidCoordinate
    | InvalidPolygon
    | C1Geofence
    | C2CredentialRoot
    | C3ThresholdOrTime
    | C4SignatureOrRole
    | C5Nullifier

  datatype EpcisEvent = EpcisEvent(
    eventId: U64, lotId: U64, epochId: U64, timestampMs: U64, readings: U32,
    point: PointE6, certificateId: U64, role: U8, actorPublicKey: Digest)
}
