/**
 * The byte formats of the policy crate, on raw bytes: canonical events, leaf public values in Solidity
 * ABI form and the private policy input.  Every decoder is proved to invert its encoder exactly, in
 * both directions, so nothing it accepts has a second encoding.
 */
module Wire {
  import opened Primitives
  import opened Digests
  import opened PolicyTypes
  import Policy
  import SparseNullifiers
  import Geofence

  // ----- reading from the front

  /** Splits off the first `n` bytes. */
  function Take(b: Bytes, n: nat): Option<(Bytes, Bytes)>
  {
    if |b| < n then None else Some((b[..n], b[n..]))
  }

  lemma {:induction false} TakeExactly(b: Bytes, n: nat, front: Bytes, rest: Bytes)
    ensures Take(b, n) == Some((front, rest)) <==> |front| == n && b == front + rest
  {
    if |front| == n && b == front + rest { assert b[..n] == front && b[n..] == rest; }
  }

  /** The source's reader: a byte string and an offset into it. */
  class ByteReader {
    const bytes: Bytes
    var offset: nat

    ghost predicate Valid()
      reads this
    {
      offset <= |bytes|
    }

    ghost function Remaining(): Bytes
      requires Valid()
      reads this
    {
      bytes[offset..]
    }

    constructor (bytes: Bytes)
      ensures Valid() && Remaining() == bytes
    {
      this.bytes, offset := bytes, 0;
    }

    /** `take`: advances past `n` bytes, or leaves the offset alone when fewer remain. */
    method Read(n: nat) returns (r: Option<Bytes>)
      requires Valid()
      modifies this
      ensures Valid() && r.Some? == Take(old(Remaining()), n).Some?
      ensures r.Some? ==> Take(old(Remaining()), n) == Some((r.value, Remaining()))
      ensures r.None? ==> Remaining() == old(Remaining())
    {
      if offset + n > |bytes| { return None; }
      r := Some(bytes[offset..offset + n]);
      assert bytes[offset..][..n] == bytes[offset..offset + n] && bytes[offset..][n..] == bytes[offset + n..];
      offset := offset + n;
    }

    method Finished() returns (done: bool)
      requires Valid()
      ensures done <==> Remaining() == []
    {
      done := offset == |bytes|;
    }
  }

  // ----- integers

  function Unsigned32(x: I32): U32
  {
    if x < 0 then x + 0x1_0000_0000 else x
  }

  /** Big-endian integers of 2, 4 and 8 bytes are read back and written back. */
  lemma {:induction false} IntegersExactly(n: nat, b: Bytes)
    requires |b| == 2 || |b| == 4 || |b| == 8
    ensures n == BigEndian(b) <==> n < Pow2(8 * |b|) && b == ToBytes(n, |b|)
  {
    SparseNullifiers.BigEndianBound(b);
    WritesBack(b);
    if n < Pow2(8 * |b|) { ReadsBack(n, |b|); }
  }

  lemma {:induction false} U64Exactly(n: U64, b: Bytes)
    requires |b| == 8
    ensures n == Policy.ReadU64(b) <==> b == ToBytes(n, 8)
  {
    WordSizes();
    IntegersExactly(n, b);
  }

  lemma {:induction false} U32Exactly(n: U32, b: Bytes)
    requires |b| == 4
    ensures n == Policy.ReadU32(b) <==> b == ToBytes(n, 4)
  {
    WordSizes();
    IntegersExactly(n, b);
  }

  lemma {:induction false} I32Exactly(x: I32, b: Bytes)
    requires |b| == 4
    ensures x == Policy.Signed32(Policy.ReadU32(b)) <==> b == ToBytes(Unsigned32(x), 4)
  {
    U32Exactly(Unsigned32(x), b);
  }

  function ReadU16(b: Bytes): U16
    requires |b| == 2
  {
    Policy.BigEndianWidth(b); BigEndian(b)
  }

  lemma {:induction false} U16Exactly(n: U16, b: Bytes)
    requires |b| == 2
    ensures n == ReadU16(b) <==> b == ToBytes(n, 2)
  {
    WordSizes();
    IntegersExactly(n, b);
  }

  // ----- canonical events

  datatype Event = Event(
    eventId: U64, lotId: U64, epochId: U64, timestampMs: U64, readings: U32,
    point: PointE6, certificateId: U64, role: U8, actorPublicKey: Word)

  function EncodePoint(p: PointE6): (b: Bytes)
    ensures |b| == 8
  {
    ToBytes(Unsigned32(p.latitudeE6), 4) + ToBytes(Unsigned32(p.longitudeE6), 4)
  }

  function ReadPoint(b: Bytes): PointE6
    requires |b| == 8
  {
    PointE6(Policy.Signed32(Policy.ReadU32(b[..4])), Policy.Signed32(Policy.ReadU32(b[4..])))
  }

  lemma {:induction false} PointExactly(p: PointE6, b: Bytes)
    requires |b| == 8
    ensures p == ReadPoint(b) <==> b == EncodePoint(p)
  {
    I32Exactly(p.latitudeE6, b[..4]);
    I32Exactly(p.longitudeE6, b[4..]);
    assert b == b[..4] + b[4..];
    TakeExactly(b, 4, ToBytes(Unsigned32(p.latitudeE6), 4), ToBytes(Unsigned32(p.longitudeE6), 4));
  }

  /** `canonical_bytes`. */
  function EncodeEvent(e: Event): (b: Bytes)
    ensures |b| == EVENT_BYTES
  {
    [1] + ToBytes(e.eventId, 8) + ToBytes(e.lotId, 8) + ToBytes(e.epochId, 8) + ToBytes(e.timestampMs, 8)
    + ToBytes(e.readings, 4) + EncodePoint(e.point) + ToBytes(e.certificateId, 8) + [e.role] + e.actorPublicKey
  }

  function ReadEvent(b: Bytes): Event
    requires |b| == EVENT_BYTES
  {
    Event(Policy.ReadU64(b[1..9]), Policy.ReadU64(b[9..17]), Policy.ReadU64(b[17..25]), Policy.ReadU64(b[25..33]),
          Policy.ReadU32(b[33..37]), ReadPoint(b[37..45]), Policy.ReadU64(b[45..53]), b[53], b[54..86])
  }

  function DecodeEvent(b: Bytes): Result<Event, PolicyError>
    requires |b| == EVENT_BYTES
  {
    if b[0] != 1 then Err(UnsupportedEventVersion)
    else if !Geofence.ValidPoint(ReadEvent(b).point) then Err(InvalidCoordinate)
    else Ok(ReadEvent(b))
  }

  /** The ten fields, in order, make up the 86 bytes. */
  lemma {:induction false} EventParts(b: Bytes, e: Event)
    requires |b| == EVENT_BYTES
    ensures b == EncodeEvent(e) <==>
      && b[0] == 1 && b[1..9] == ToBytes(e.eventId, 8) && b[9..17] == ToBytes(e.lotId, 8)
           && b[17..25] == ToBytes(e.epochId, 8)
      && b[25..33] == ToBytes(e.timestampMs, 8) && b[33..37] == ToBytes(e.readings, 4)
           && b[37..45] == EncodePoint(e.point)
      && b[45..53] == ToBytes(e.certificateId, 8) && b[53] == e.role && b[54..86] == e.actorPublicKey
  {
    var c := EncodeEvent(e);
    EncodedParts(e);
    hide EncodeEvent;
    hide EncodePoint;
    hide ToBytes;
    assert c == [c[0]] + c[1..9] + c[9..17] + c[17..25] + c[25..33] + c[33..37] + c[37..45] + c[45..53] + [c[53]]
        + c[54..86];
    assert b == [b[0]] + b[1..9] + b[9..17] + b[17..25] + b[25..33] + b[33..37] + b[37..45] + b[45..53] + [b[53]]
        + b[54..86];
  }

  lemma {:induction false} EncodedParts(e: Event)
    ensures var c := EncodeEvent(e);
      && c[0] == 1 && c[1..9] == ToBytes(e.eventId, 8) && c[9..17] == ToBytes(e.lotId, 8)
           && c[17..25] == ToBytes(e.epochId, 8)
      && c[25..33] == ToBytes(e.timestampMs, 8) && c[33..37] == ToBytes(e.readings, 4)
           && c[37..45] == EncodePoint(e.point)
      && c[45..53] == ToBytes(e.certificateId, 8) && c[53] == e.role && c[54..86] == e.actorPublicKey
  {
  }

  /** An event decodes exactly from its own canonical bytes. */
  lemma {:induction false} EventExactly(b: Bytes, e: Event)
    requires |b| == EVENT_BYTES
    ensures DecodeEvent(b) == Ok(e) <==> Geofence.ValidPoint(e.point) && b == EncodeEvent(e)
  {
    EventParts(b, e);
    U64Exactly(e.eventId, b[1..9]);
    U64Exactly(e.lotId, b[9..17]);
    U64Exactly(e.epochId, b[17..25]);
    U64Exactly(e.timestampMs, b[25..33]);
    U32Exactly(e.readings, b[33..37]);
    PointExactly(e.point, b[37..45]);
    U64Exactly(e.certificateId, b[45..53]);
  }

  /** The policy evaluates the event these bytes denote, with the actor key read as a digest. */
  lemma {:induction false} PolicyReadsTheSameEvent(env: Policy.Env, b: Bytes)
    requires |b| == EVENT_BYTES
    ensures Policy.DecodeEvent(env, b) ==
      match DecodeEvent(b)
      case Err(error) => Err(error)
      case Ok(e) => Ok(EpcisEvent(e.eventId, e.lotId, e.epochId, e.timestampMs, e.readings, e.point, e.certificateId,
                                  e.role, env.wordOf(e.actorPublicKey)))
  {
    assert b[37..45][..4] == b[37..41] && b[37..45][4..] == b[41..45];
  }

  // ----- lists

  function EncodeWords(words: seq<Word>): Bytes
  {
    if words == [] then [] else words[0] + EncodeWords(words[1..])
  }

  function ParseWords(b: Bytes, n: nat): Option<(seq<Word>, Bytes)>
    decreases n
  {
    if n == 0 then Some(([], b))
    else
      var first := Take(b, 32);
      if first.None? then None
      else
        var more := ParseWords(first.value.1, n - 1);
        if more.None? then None else Some(([first.value.0] + more.value.0, more.value.1))
  }

  lemma {:induction false} WordsExactly(b: Bytes, n: nat, words: seq<Word>, rest: Bytes)
    ensures ParseWords(b, n) == Some((words, rest)) <==> |words| == n && b == EncodeWords(words) + rest
    decreases n
  {
    if n == 0 {
      if words == [] { assert EncodeWords(words) + rest == rest; }
    } else if words != [] {
      var tail := EncodeWords(words[1..]) + rest;
      TakeExactly(b, 32, words[0], tail);
      WordsExactly(tail, n - 1, words[1..], rest);
      assert EncodeWords(words) + rest == words[0] + tail;
      assert words == [words[0]] + words[1..];
      var first := Take(b, 32);
      if first.Some? { WordsExactly(first.value.1, n - 1, words[1..], rest); }
    }
  }

  function EncodePoints(points: seq<PointE6>): Bytes
  {
    if points == [] then [] else EncodePoint(points[0]) + EncodePoints(points[1..])
  }

  function ParsePoints(b: Bytes, n: nat): Option<(seq<PointE6>, Bytes)>
    decreases n
  {
    if n == 0 then Some(([], b))
    else
      var first := Take(b, 8);
      if first.None? then None
      else
        var more := ParsePoints(first.value.1, n - 1);
        if more.None? then None else Some(([ReadPoint(first.value.0)] + more.value.0, more.value.1))
  }

  lemma {:induction false} PointsExactly(b: Bytes, n: nat, points: seq<PointE6>, rest: Bytes)
    ensures ParsePoints(b, n) == Some((points, rest)) <==> |points| == n && b == EncodePoints(points) + rest
    decreases n
  {
    if n == 0 {
      if points == [] { assert EncodePoints(points) + rest == rest; }
    } else if points != [] {
      var tail := EncodePoints(points[1..]) + rest;
      TakeExactly(b, 8, EncodePoint(points[0]), tail);
      assert EncodePoints(points) + rest == EncodePoint(points[0]) + tail;
      assert points == [points[0]] + points[1..];
      var first := Take(b, 8);
      if first.Some? {
        PointExactly(points[0], first.value.0);
        PointsExactly(first.value.1, n - 1, points[1..], rest);
      }
    }
  }

  // ----- the private policy input

  datatype Witness = Witness(eventBytes: Bytes, signature: Bytes, credentialIndex: U16, certificatePath: seq<Word>)

  datatype Input = Input(
    epochId: U64, lotId: U64, polygon: seq<PointE6>, certificateRoot: Word, oldNullifierRoot: Word, nullifierKey: Word,
    ownerIdentity: Word, polygonNonce: Word, batchNonce: Word, nullifierPath: seq<Word>, events: seq<Witness>)

  /** The fixed-width arrays of the source's types, for tree depths `depth` and `certificateDepth`. */
  datatype Shape = Shape(depth: nat, certificateDepth: nat)

  predicate WitnessShaped(shape: Shape, w: Witness)
  {
    |w.eventBytes| == EVENT_BYTES && |w.signature| == 64 && |w.certificatePath| == shape.certificateDepth
  }

  predicate Shaped(shape: Shape, x: Input)
  {
    |x.nullifierPath| == shape.depth && forall w | w in x.events :: WitnessShaped(shape, w)
  }

  function EncodeWitness(w: Witness): Bytes
  {
    w.eventBytes + w.signature + ToBytes(w.credentialIndex, 2) + EncodeWords(w.certificatePath)
  }

  function EncodeWitnesses(events: seq<Witness>): Bytes
  {
    if events == [] then [] else EncodeWitness(events[0]) + EncodeWitnesses(events[1..])
  }

  function ParseWitness(shape: Shape, b: Bytes): Option<(Witness, Bytes)>
  {
    var event := Take(b, EVENT_BYTES);
    if event.None? then None
    else
      var signature := Take(event.value.1, 64);
      if signature.None? then None
      else
        var index := Take(signature.value.1, 2);
        if index.None? then None
        else
          var path := ParseWords(index.value.1, shape.certificateDepth);
          if path.None? then None
          else Some((Witness(event.value.0, signature.value.0, ReadU16(index.value.0), path.value.0), path.value.1))
  }

  lemma {:induction false} WitnessExactly(shape: Shape, b: Bytes, w: Witness, rest: Bytes)
    ensures ParseWitness(shape, b) == Some((w, rest)) <==> WitnessShaped(shape, w) && b == EncodeWitness(w) + rest
  {
    var words := EncodeWords(w.certificatePath) + rest;
    var index := ToBytes(w.credentialIndex, 2) + words;
    var signature := w.signature + index;
    assert EncodeWitness(w) + rest == w.eventBytes + signature;
    TakeExactly(b, EVENT_BYTES, w.eventBytes, signature);
    TakeExactly(signature, 64, w.signature, index);
    TakeExactly(index, 2, ToBytes(w.credentialIndex, 2), words);
    WordsExactly(words, shape.certificateDepth, w.certificatePath, rest);
    U16Exactly(w.credentialIndex, ToBytes(w.credentialIndex, 2));
    if ParseWitness(shape, b) == Some((w, rest)) { WitnessReadBack(shape, b); }
  }

  lemma {:induction false} WitnessReadBack(shape: Shape, b: Bytes)
    requires ParseWitness(shape, b).Some?
    ensures var (w, rest) := ParseWitness(shape, b).value; WitnessShaped(shape, w) && b == EncodeWitness(w) + rest
  {
    var event := Take(b, EVENT_BYTES).value;
    var signature := Take(event.1, 64).value;
    var index := Take(signature.1, 2).value;
    var path := ParseWords(index.1, shape.certificateDepth).value;
    TakeExactly(b, EVENT_BYTES, event.0, event.1);
    TakeExactly(event.1, 64, signature.0, signature.1);
    TakeExactly(signature.1, 2, index.0, index.1);
    WordsExactly(index.1, shape.certificateDepth, path.0, path.1);
    U16Exactly(ReadU16(index.0), index.0);
    assert event.0 + (signature.0 + (index.0 + (EncodeWords(path.0) + path.1)))
        == event.0 + signature.0 + index.0 + EncodeWords(path.0) + path.1;
  }

  function ParseWitnesses(shape: Shape, b: Bytes, n: nat): Option<(seq<Witness>, Bytes)>
    decreases n
  {
    if n == 0 then Some(([], b))
    else
      var first := ParseWitness(shape, b);
      if first.None? then None
      else
        var more := ParseWitnesses(shape, first.value.1, n - 1);
        if more.None? then None else Some(([first.value.0] + more.value.0, more.value.1))
  }

  lemma {:induction false} WitnessesExactly(shape: Shape, b: Bytes, n: nat, events: seq<Witness>, rest: Bytes)
    ensures ParseWitnesses(shape, b, n) == Some((events, rest)) <==>
      |events| == n && (forall w :: w in events ==> WitnessShaped(shape, w)) && b == EncodeWitnesses(events) + rest
    decreases n
  {
    if n == 0 {
      if events == [] { assert EncodeWitnesses(events) + rest == rest; }
    } else if events != [] {
      var tail := EncodeWitnesses(events[1..]) + rest;
      WitnessExactly(shape, b, events[0], tail);
      assert EncodeWitnesses(events) + rest == EncodeWitness(events[0]) + tail;
      assert events == [events[0]] + events[1..];
      var first := ParseWitness(shape, b);
      if first.Some? {
        WitnessExactly(shape, b, first.value.0, first.value.1);
        WitnessesExactly(shape, first.value.1, n - 1, events[1..], rest);
      }
    }
  }

  /** The six commitments, keys and nonces in wire order, then the nullifier path. */
  function WordsOf(x: Input): seq<Word>
  {
    [x.certificateRoot, x.oldNullifierRoot, x.nullifierKey, x.ownerIdentity, x.polygonNonce, x.batchNonce]
        + x.nullifierPath
  }

  function Header(epochId: U64, lotId: U64, polygon: seq<PointE6>): Bytes
    requires |polygon| < 0x100
  {
    [2] + ToBytes(epochId, 8) + ToBytes(lotId, 8) + [|polygon|] + EncodePoints(polygon)
  }

  ghost predicate Encodable(shape: Shape, x: Input)
  {
    Shaped(shape, x) && Geofence.PolygonVerdict(x.polygon).Ok? && MIN_EVENTS <= |x.events| <= MAX_EVENTS
  }

  function Encoding(x: Input): Bytes
    requires |x.polygon| < 0x100 && |x.events| < 0x100
  {
    Header(x.epochId, x.lotId, x.polygon) + EncodeWords(WordsOf(x)) + [|x.events|] + EncodeWitnesses(x.events)
  }

  /** The fields of an input in wire order. */
  lemma {:induction false} InputLayout(x: Input)
    requires |x.polygon| < 0x100 && |x.events| < 0x100
    ensures Encoding(x)
         == [2] + ToBytes(x.epochId, 8) + ToBytes(x.lotId, 8) + [|x.polygon|] + EncodePoints(x.polygon)
            + (x.certificateRoot + (x.oldNullifierRoot + (x.nullifierKey + (x.ownerIdentity
            + (x.polygonNonce + (x.batchNonce + EncodeWords(x.nullifierPath)))))))
            + [|x.events|] + EncodeWitnesses(x.events)
  {
    var words := WordsOf(x);
    FirstWord(x.batchNonce, x.nullifierPath);
    FirstWord(x.polygonNonce, [x.batchNonce] + x.nullifierPath);
    FirstWord(x.ownerIdentity, words[4..]);
    FirstWord(x.nullifierKey, words[3..]);
    FirstWord(x.oldNullifierRoot, words[2..]);
    FirstWord(x.certificateRoot, words[1..]);
    assert words[4..] == [x.polygonNonce] + ([x.batchNonce] + x.nullifierPath);
    assert words[3..] == [x.ownerIdentity] + words[4..] && words[2..] == [x.nullifierKey] + words[3..];
    assert words[1..] == [x.oldNullifierRoot] + words[2..] && words == [x.certificateRoot] + words[1..];
  }

  lemma {:induction false} FirstWord(first: Word, rest: seq<Word>)
    ensures EncodeWords([first] + rest) == first + EncodeWords(rest)
  {
    assert ([first] + rest)[1..] == rest;
  }

  datatype Head = Head(epochId: U64, lotId: U64, polygon: seq<PointE6>)

  ghost function ParseHead(b: Bytes): Result<(Head, Bytes), PolicyError>
  {
    var version := Take(b, 1);
    if version.None? || version.value.0 != [2] then Err(InvalidInput)
    else
      var epoch := Take(version.value.1, 8);
      if epoch.None? then Err(InvalidInput)
      else
        var lot := Take(epoch.value.1, 8);
        if lot.None? then Err(InvalidInput)
        else
          var count := Take(lot.value.1, 1);
          if count.None? then Err(InvalidInput)
          else ParsePolygon(Policy.ReadU64(epoch.value.0), Policy.ReadU64(lot.value.0), count.value.0[0], count.value.1)
  }

  ghost function ParsePolygon(epochId: U64, lotId: U64, count: Byte, b: Bytes): Result<(Head, Bytes), PolicyError>
  {
    if !(3 <= count <= MAX_POLYGON_VERTICES) then Err(InvalidPolygon)
    else
      var points := ParsePoints(b, count);
      if points.None? then Err(InvalidInput)
      else if Geofence.PolygonVerdict(points.value.0).Err? then Err(Geofence.PolygonVerdict(points.value.0).error)
      else Ok((Head(epochId, lotId, points.value.0), points.value.1))
  }

  lemma {:induction false} HeadReadBack(b: Bytes)
    requires ParseHead(b).Ok?
    ensures var (h, rest) := ParseHead(b).value;
      Geofence.PolygonVerdict(h.polygon).Ok? && |h.polygon| < 0x100 && b == Header(h.epochId, h.lotId, h.polygon) + rest
  {
    hide Geofence.SimplePolygon;
    var version := Take(b, 1).value;
    var epoch := Take(version.1, 8).value;
    var lot := Take(epoch.1, 8).value;
    var count := Take(lot.1, 1).value;
    var points := ParsePoints(count.1, count.0[0]).value;
    U64Exactly(Policy.ReadU64(epoch.0), epoch.0);
    U64Exactly(Policy.ReadU64(lot.0), lot.0);
    PointsExactly(count.1, count.0[0], points.0, points.1);
    assert count.0 == [|points.0|];
    TakeExactly(b, 1, version.0, version.1);
    TakeExactly(version.1, 8, epoch.0, epoch.1);
    TakeExactly(epoch.1, 8, lot.0, lot.1);
    TakeExactly(lot.1, 1, count.0, count.1);
    Regroup([2], epoch.0, lot.0, count.0, EncodePoints(points.0), points.1);
  }

  lemma {:induction false} Regroup(a: Bytes, b: Bytes, c: Bytes, d: Bytes, e: Bytes, f: Bytes)
    ensures a + (b + (c + (d + (e + f)))) == a + b + c + d + e + f
  {
    assert a + (b + (c + (d + (e + f)))) == a + b + (c + (d + (e + f)));
    assert a + b + (c + (d + (e + f))) == a + b + c + (d + (e + f));
  }

  lemma {:induction false} HeadReadsOwn(h: Head, rest: Bytes)
    requires Geofence.PolygonVerdict(h.polygon).Ok?
    ensures |h.polygon| < 0x100 && ParseHead(Header(h.epochId, h.lotId, h.polygon) + rest) == Ok((h, rest))
  {
    hide Geofence.SimplePolygon;
    var points := EncodePoints(h.polygon) + rest;
    var count := [|h.polygon|] + points;
    var lot := ToBytes(h.lotId, 8) + count;
    var epoch := ToBytes(h.epochId, 8) + lot;
    var b := Header(h.epochId, h.lotId, h.polygon) + rest;
    Regroup([2], ToBytes(h.epochId, 8), ToBytes(h.lotId, 8), [|h.polygon|], EncodePoints(h.polygon), rest);
    TakeExactly(b, 1, [2], epoch);
    TakeExactly(epoch, 8, ToBytes(h.epochId, 8), lot);
    TakeExactly(lot, 8, ToBytes(h.lotId, 8), count);
    TakeExactly(count, 1, [|h.polygon|], points);
    U64Exactly(h.epochId, ToBytes(h.epochId, 8));
    U64Exactly(h.lotId, ToBytes(h.lotId, 8));
    PointsExactly(points, |h.polygon|, h.polygon, rest);
  }

  function InputOf(h: Head, words: seq<Word>, events: seq<Witness>): Input
    requires |words| >= 6
  {
    Input(h.epochId, h.lotId, h.polygon, words[0], words[1], words[2], words[3], words[4], words[5], words[6..], events)
  }

  ghost function ParseInput(shape: Shape, b: Bytes): Result<Input, PolicyError>
  {
    var head := ParseHead(b);
    if head.Err? then Err(head.error)
    else
      var words := ParseWords(head.value.1, 6 + shape.depth);
      if words.None? then Err(InvalidInput)
      else
        WordsExactly(head.value.1, 6 + shape.depth, words.value.0, words.value.1);
        var events := ParseEvents(shape, words.value.1);
        if events.Err? then Err(events.error) else Ok(InputOf(head.value.0, words.value.0, events.value))
  }

  /** The event count, that many events, and nothing after them. */
  function ParseEvents(shape: Shape, b: Bytes): Result<seq<Witness>, PolicyError>
  {
    var count := Take(b, 1);
    if count.None? || !(MIN_EVENTS <= count.value.0[0] <= MAX_EVENTS) then Err(InvalidInput)
    else
      var events := ParseWitnesses(shape, count.value.1, count.value.0[0]);
      if events.None? || events.value.1 != [] then Err(InvalidInput) else Ok(events.value.0)
  }

  lemma {:induction false} EventsReadBack(shape: Shape, b: Bytes)
    requires ParseEvents(shape, b).Ok?
    ensures var events := ParseEvents(shape, b).value;
      && MIN_EVENTS <= |events| <= MAX_EVENTS && (forall w :: w in events ==> WitnessShaped(shape, w))
      && b == [|events|] + EncodeWitnesses(events)
  {
    var count := Take(b, 1).value;
    var events := ParseWitnesses(shape, count.1, count.0[0]).value;
    WitnessesExactly(shape, count.1, count.0[0], events.0, events.1);
    assert count.0 == [|events.0|] && b == count.0 + EncodeWitnesses(events.0);
  }

  lemma {:induction false} InputReadBack(shape: Shape, b: Bytes)
    requires ParseInput(shape, b).Ok?
    ensures var x := ParseInput(shape, b).value;
        Encodable(shape, x) && |x.polygon| < 0x100 && |x.events| < 0x100 && b == Encoding(x)
  {
    hide ParseHead;
    hide Geofence.PolygonVerdict;
    var head := ParseHead(b).value;
    HeadReadBack(b);
    var words := ParseWords(head.1, 6 + shape.depth).value;
    WordsExactly(head.1, 6 + shape.depth, words.0, words.1);
    EventsReadBack(shape, words.1);
    var events := ParseEvents(shape, words.1).value;
    WordsOfInput(head.0, words.0, events);
    assert b == Header(head.0.epochId, head.0.lotId, head.0.polygon)
        + (EncodeWords(words.0) + ([|events|] + EncodeWitnesses(events)));
  }

  lemma {:induction false} WordsOfInput(h: Head, words: seq<Word>, events: seq<Witness>)
    requires |words| >= 6
    ensures WordsOf(InputOf(h, words, events)) == words
  {
  }

  lemma {:induction false} InputReadsOwn(shape: Shape, x: Input)
    requires Encodable(shape, x)
    ensures |x.polygon| < 0x100 && |x.events| < 0x100 && ParseInput(shape, Encoding(x)) == Ok(x)
  {
    var events := EncodeWitnesses(x.events);
    var count := [|x.events|] + events;
    var words := EncodeWords(WordsOf(x)) + count;
    assert Encoding(x) == Header(x.epochId, x.lotId, x.polygon) + words;
    HeadReadsOwn(Head(x.epochId, x.lotId, x.polygon), words);
    WordsExactly(words, 6 + shape.depth, WordsOf(x), count);
    TakeExactly(count, 1, [|x.events|], events);
    assert events == EncodeWitnesses(x.events) + [];
    WitnessesExactly(shape, events, |x.events|, x.events, []);
    assert ParseEvents(shape, count) == Ok(x.events);
    assert InputOf(Head(x.epochId, x.lotId, x.polygon), WordsOf(x), x.events) == x;
  }

  /** Decoding inverts encoding in both directions: an input decodes from exactly its own bytes. */
  lemma {:induction false} InputExactly(shape: Shape, b: Bytes, x: Input)
    ensures ParseInput(shape, b) == Ok(x) ==>
        Encodable(shape, x) && |x.polygon| < 0x100 && |x.events| < 0x100 && b == Encoding(x)
    ensures Encodable(shape, x) ==>
        |x.polygon| < 0x100 && |x.events| < 0x100 && (b == Encoding(x) ==> ParseInput(shape, b) == Ok(x))
  {
    if ParseInput(shape, b) == Ok(x) { InputReadBack(shape, b); }
    if Encodable(shape, x) { InputReadsOwn(shape, x); }
  }

  // ----- why an input is refused

  /** A version 2 head whose polygon is refused with this error. */
  ghost predicate PolygonBlamed(b: Bytes, error: PolicyError)
  {
    && |b| >= 18 && b[0] == 2
    && if !(3 <= b[17] <= 32) then error == InvalidPolygon
       else
         var points := ParsePoints(b[18..], b[17]);
         points.Some? && Geofence.PolygonVerdict(points.value.0) == Err(error)
  }

  lemma {:induction false} HeadIsPolygon(b: Bytes)
    ensures ParseHead(b) ==
      if |b| < 18 || b[0] != 2 then Err(InvalidInput)
      else ParsePolygon(Policy.ReadU64(b[1..9]), Policy.ReadU64(b[9..17]), b[17], b[18..])
  {
    hide ParsePolygon;
    if |b| >= 18 {
      assert b[1..][..8] == b[1..9] && b[1..][8..] == b[9..];
      assert b[9..][..8] == b[9..17] && b[9..][8..] == b[17..];
      assert b[17..][..1] == [b[17]] && b[17..][1..] == b[18..];
      assert b[..1] == [b[0]];
    }
  }

  lemma {:induction false} VerdictErrors(v: seq<PointE6>)
    ensures Geofence.PolygonVerdict(v).Err? ==>
      Geofence.PolygonVerdict(v).error == InvalidPolygon || Geofence.PolygonVerdict(v).error == InvalidCoordinate
  {
  }

  /** Every refusal is the polygon's own error or, for anything else that is wrong, an invalid input. */
  lemma {:induction false} InputRefusals(shape: Shape, b: Bytes, error: PolicyError)
    ensures PolygonBlamed(b, error) ==> ParseInput(shape, b) == Err(error)
    ensures ParseInput(shape, b) == Err(error) ==> PolygonBlamed(b, error) || error == InvalidInput
  {
    hide Geofence.PolygonVerdict;
    HeadIsPolygon(b);
    hide ParseHead;
  }

  // ----- the source's loops

  /** Items already read, then what the rest still parses to. */
  function Onto<T>(done: seq<T>, rest: Option<(seq<T>, Bytes)>): Option<(seq<T>, Bytes)>
  {
    if rest.None? then None else Some((done + rest.value.0, rest.value.1))
  }

  lemma {:induction false} OntoTwice<T>(done: seq<T>, item: T, rest: Option<(seq<T>, Bytes)>)
    ensures Onto(done + [item], rest) == Onto(done, Onto([item], rest))
    ensures Onto([], rest) == rest
  {
    if rest.Some? { assert done + [item] + rest.value.0 == done + ([item] + rest.value.0)
        && [] + rest.value.0 == rest.value.0; }
  }

  method ReadWords(reader: ByteReader, n: nat) returns (r: Option<seq<Word>>)
    requires reader.Valid()
    modifies reader
    ensures reader.Valid() && r.Some? == ParseWords(old(reader.Remaining()), n).Some?
    ensures r.Some? ==> ParseWords(old(reader.Remaining()), n) == Some((r.value, reader.Remaining()))
  {
    ghost var b := reader.Remaining();
    var words: seq<Word> := [];
    OntoTwice(words, seq(32, _ => 0), ParseWords(b, n));
    for i := 0 to n
      invariant reader.Valid() && ParseWords(b, n) == Onto(words, ParseWords(reader.Remaining(), n - i))
    {
      ghost var before := reader.Remaining();
      var word := reader.Read(32);
      if word.None? { return None; }
      assert ParseWords(before, n - i) == Onto([word.value], ParseWords(reader.Remaining(), n - i - 1));
      OntoTwice(words, word.value, ParseWords(reader.Remaining(), n - i - 1));
      words := words + [word.value];
    }
    assert words + [] == words;
    return Some(words);
  }

  method ReadPoints(reader: ByteReader, n: nat) returns (r: Option<seq<PointE6>>)
    requires reader.Valid()
    modifies reader
    ensures reader.Valid() && r.Some? == ParsePoints(old(reader.Remaining()), n).Some?
    ensures r.Some? ==> ParsePoints(old(reader.Remaining()), n) == Some((r.value, reader.Remaining()))
  {
    ghost var b := reader.Remaining();
    var points: seq<PointE6> := [];
    OntoTwice(points, PointE6(0, 0), ParsePoints(b, n));
    for i := 0 to n
      invariant reader.Valid() && ParsePoints(b, n) == Onto(points, ParsePoints(reader.Remaining(), n - i))
    {
      ghost var before := reader.Remaining();
      var point := reader.Read(8);
      if point.None? { return None; }
      assert ParsePoints(before, n - i) == Onto([ReadPoint(point.value)], ParsePoints(reader.Remaining(), n - i - 1));
      OntoTwice(points, ReadPoint(point.value), ParsePoints(reader.Remaining(), n - i - 1));
      points := points + [ReadPoint(point.value)];
    }
    assert points + [] == points;
    return Some(points);
  }

  method ReadWitness(shape: Shape, reader: ByteReader) returns (r: Option<Witness>)
    requires reader.Valid()
    modifies reader
    ensures reader.Valid() && r.Some? == ParseWitness(shape, old(reader.Remaining())).Some?
    ensures r.Some? ==> ParseWitness(shape, old(reader.Remaining())) == Some((r.value, reader.Remaining()))
  {
    var event := reader.Read(EVENT_BYTES);
    if event.None? { return None; }
    var signature := reader.Read(64);
    if signature.None? { return None; }
    var index := reader.Read(2);
    if index.None? { return None; }
    var path := ReadWords(reader, shape.certificateDepth);
    if path.None? { return None; }
    return Some(Witness(event.value, signature.value, ReadU16(index.value), path.value));
  }

  method ReadWitnesses(shape: Shape, reader: ByteReader, n: nat) returns (r: Option<seq<Witness>>)
    requires reader.Valid()
    modifies reader
    ensures reader.Valid() && r.Some? == ParseWitnesses(shape, old(reader.Remaining()), n).Some?
    ensures r.Some? ==> ParseWitnesses(shape, old(reader.Remaining()), n) == Some((r.value, reader.Remaining()))
  {
    ghost var b := reader.Remaining();
    var events: seq<Witness> := [];
    OntoTwice(events, Witness([], [], 0, []), ParseWitnesses(shape, b, n));
    for i := 0 to n
      invariant reader.Valid()
          && ParseWitnesses(shape, b, n) == Onto(events, ParseWitnesses(shape, reader.Remaining(), n - i))
    {
      ghost var before := reader.Remaining();
      var event := ReadWitness(shape, reader);
      if event.None? { return None; }
      assert ParseWitnesses(shape, before, n - i)
          == Onto([event.value], ParseWitnesses(shape, reader.Remaining(), n - i - 1));
      OntoTwice(events, event.value, ParseWitnesses(shape, reader.Remaining(), n - i - 1));
      events := events + [event.value];
    }
    assert events + [] == events;
    return Some(events);
  }

  method ReadHead(reader: ByteReader) returns (r: Result<Head, PolicyError>)
    requires reader.Valid()
    modifies reader
    ensures reader.Valid() && r.Ok? == ParseHead(old(reader.Remaining())).Ok?
    ensures r.Ok? ==> ParseHead(old(reader.Remaining())) == Ok((r.value, reader.Remaining()))
    ensures r.Err? ==> ParseHead(old(reader.Remaining())).error == r.error
  {
    var version := reader.Read(1);
    if version.None? || version.value != [2] { return Err(InvalidInput); }
    var epoch := reader.Read(8);
    if epoch.None? { return Err(InvalidInput); }
    var lot := reader.Read(8);
    if lot.None? { return Err(InvalidInput); }
    var count := reader.Read(1);
    if count.None? { return Err(InvalidInput); }
    if !(3 <= count.value[0] <= MAX_POLYGON_VERTICES) { return Err(InvalidPolygon); }
    var points := ReadPoints(reader, count.value[0]);
    if points.None? { return Err(InvalidInput); }
    var valid := Geofence.ValidatePolygon(points.value);
    if valid.Err? { return Err(valid.error); }
    return Ok(Head(Policy.ReadU64(epoch.value), Policy.ReadU64(lot.value), points.value));
  }

  /** `PolicyInput::decode`. */
  method DecodeInput(shape: Shape, b: Bytes) returns (r: Result<Input, PolicyError>)
    ensures r == ParseInput(shape, b)
  {
    var reader := new ByteReader(b);
    var head := ReadHead(reader);
    if head.Err? { return Err(head.error); }
    ghost var afterHead := reader.Remaining();
    var words := ReadWords(reader, 6 + shape.depth);
    if words.None? { return Err(InvalidInput); }
    WordsExactly(afterHead, 6 + shape.depth, words.value, reader.Remaining());
    var events := ReadEvents(shape, reader);
    return if events.Err? then Err(events.error) else Ok(InputOf(head.value, words.value, events.value));
  }

  method ReadEvents(shape: Shape, reader: ByteReader) returns (r: Result<seq<Witness>, PolicyError>)
    requires reader.Valid()
    modifies reader
    ensures r == ParseEvents(shape, old(reader.Remaining()))
  {
    var count := reader.Read(1);
    if count.None? || !(MIN_EVENTS <= count.value[0] <= MAX_EVENTS) { return Err(InvalidInput); }
    var events := ReadWitnesses(shape, reader, count.value[0]);
    if events.None? { return Err(InvalidInput); }
    var finished := reader.Finished();
    return if finished then Ok(events.value) else Err(InvalidInput);
  }

  /** `PolicyInput::encode`: refuses an invalid polygon or event count, and otherwise writes the encoding. */
  method EncodeInput(shape: Shape, x: Input) returns (r: Result<Bytes, PolicyError>)
    requires Shaped(shape, x)
    ensures r.Ok? <==> Encodable(shape, x)
    ensures r.Ok? ==> |x.polygon| < 0x100 && |x.events| < 0x100 && r.value == Encoding(x)
  {
    var polygon := Geofence.ValidatePolygon(x.polygon);
    if polygon.Err? { return Err(polygon.error); }
    if !(MIN_EVENTS <= |x.events| <= MAX_EVENTS) { return Err(InvalidInput); }
    var points := WritePoints(x.polygon);
    var words := WriteWords(WordsOf(x));
    var events := WriteWitnesses(x.events);
    return Ok([2] + ToBytes(x.epochId, 8) + ToBytes(x.lotId, 8) + [|x.polygon|] + points + words + [|x.events|]
        + events);
  }

  method WritePoints(points: seq<PointE6>) returns (b: Bytes)
    ensures b == EncodePoints(points)
  {
    b := [];
    for i := 0 to |points|
      invariant EncodePoints(points) == b + EncodePoints(points[i..])
    {
      assert points[i..][1..] == points[i + 1..];
      b := b + ToBytes(Unsigned32(points[i].latitudeE6), 4) + ToBytes(Unsigned32(points[i].longitudeE6), 4);
    }
  }

  method WriteWords(words: seq<Word>) returns (b: Bytes)
    ensures b == EncodeWords(words)
  {
    b := [];
    for i := 0 to |words|
      invariant EncodeWords(words) == b + EncodeWords(words[i..])
    {
      assert words[i..][1..] == words[i + 1..];
      b := b + words[i];
    }
  }

  method WriteWitnesses(events: seq<Witness>) returns (b: Bytes)
    ensures b == EncodeWitnesses(events)
  {
    b := [];
    for i := 0 to |events|
      invariant EncodeWitnesses(events) == b + EncodeWitnesses(events[i..])
    {
      assert events[i..][1..] == events[i + 1..];
      var path := WriteWords(events[i].certificatePath);
      b := b + (events[i].eventBytes + events[i].signature + ToBytes(events[i].credentialIndex, 2) + path);
    }
  }
}
