/** One aggregation node: ordered children, one epoch, one policy pair, a connected root chain. */
module Epoch {
  import opened Primitives
  import opened Digests
  import opened PolicyTypes

  const MAX_FAN_IN: nat := 8

  /** 352 public bytes: eleven 32-byte ABI words. */
  type Words = w: seq<Digest> | |w| == 11 witness seq(11, _ => Raw(0))

  datatype EpochChild = Leaf(words: Words) | Aggregate(words: Words)

  datatype EpochError =
    | FanIn | Noncanonical | MismatchedRoots | InvalidLeaf | AggregateLotOverflow | InvalidAggregate
    | OtherEpoch | BrokenChain | RootDidNotAdvance | DuplicateChild | LotOverflow | EventOverflow

  datatype EpochPublicValues = EpochPublicValues(
    epochId: U64, oldNullifierRoot: Digest, newNullifierRoot: Digest, epochCommitment: Digest,
    lotCount: U64, eventCount: U64, valid: bool, leafVk: Digest, aggregateVk: Digest,
    certificateRoot: Digest, polygonCommitment: Digest)

  function AbiEncode(v: EpochPublicValues): Words
  {
    [Raw(v.epochId), v.oldNullifierRoot, v.newNullifierRoot, v.epochCommitment, Raw(v.lotCount), Raw(v.eventCount),
     Raw(if v.valid then 1 else 0), v.leafVk, v.aggregateVk, v.certificateRoot, v.polygonCommitment]
  }

  /** `word_u64`: the upper 24 bytes of an ABI integer must be zero. */
  function WordU64(w: Digest): Result<U64, EpochError>
  {
    if w.Raw? && w.word < U64_LIMIT then Ok(w.word) else Err(Noncanonical)
  }

  function NumberOf(w: Digest): nat
  {
    if w.Raw? then w.word else 0
  }

  /** The verification-key digests every node is evaluated under. */
  datatype Keys = Keys(leafVk: Digest, aggregateVk: Digest)

  // ----- the evaluator's loop body

  datatype Acc = Acc(epochId: Option<U64>, oldRoot: Digest, currentRoot: Digest, lots: U64, events: U64,
                     seen: set<Digest>, shared: Option<(Digest, Digest)>, records: seq<ChildRecord>)

  const START: Acc := Acc(None, Raw(0), Raw(0), 0, 0, {}, None, [])

  function RequireWord(w: Digest, expected: nat, otherwise: EpochError): Result<(), EpochError>
  {
    var value := WordU64(w);
    if value.Err? then Err(value.error) else if value.value != expected then Err(otherwise) else Ok(())
  }

  function LeafCounts(w: Words): Result<(U64, U64), EpochError>
  {
    var events := WordU64(w[9]);
    if events.Err? then Err(events.error)
    else
      var role := RequireWord(w[7], REQUIRED_ROLE, InvalidLeaf);
      if role.Err? then Err(role.error)
      else
        var threshold := RequireWord(w[8], MAX_ALLOWED_READING, InvalidLeaf);
        if threshold.Err? then Err(threshold.error)
        else
          var valid := RequireWord(w[10], 1, InvalidLeaf);
          if valid.Err? then Err(valid.error)
          else if !(MIN_EVENTS <= events.value <= MAX_EVENTS) then Err(InvalidLeaf)
          else Ok((1, events.value))
  }

  function AggregateCounts(keys: Keys, w: Words): Result<(U64, U64), EpochError>
  {
    var lots := WordU64(w[4]);
    var events := WordU64(w[5]);
    if lots.Err? then Err(lots.error)
    else if events.Err? then Err(events.error)
    else if lots.value * 64 >= U64_LIMIT then Err(AggregateLotOverflow)
    else
      var valid := RequireWord(w[6], 1, InvalidAggregate);
      if valid.Err? then Err(valid.error)
      else if w[7] != keys.leafVk || w[8] != keys.aggregateVk || lots.value == 0
              || events.value < lots.value * 8 || events.value > lots.value * 64 then Err(InvalidAggregate)
      else Ok((lots.value, events.value))
  }

  function PairOf(c: EpochChild): (Digest, Digest)
  {
    if c.Leaf? then (c.words[4], c.words[5]) else (c.words[9], c.words[10])
  }

  function Absorb(keys: Keys, acc: Acc, c: EpochChild): Result<Acc, EpochError>
  {
    var w := c.words;
    var id := WordU64(w[0]);
    if id.Err? then Err(id.error)
    else if acc.shared.Some? && acc.shared.value != PairOf(c) then Err(MismatchedRoots)
    else
      var counts := if c.Leaf? then LeafCounts(w) else AggregateCounts(keys, w);
      if counts.Err? then Err(counts.error)
      else
        var (lots, events) := counts.value;
        var oldRoot := if acc.records == [] then w[1] else acc.oldRoot;
        if acc.epochId.Some? && acc.epochId.value != id.value then Err(OtherEpoch)
        else if acc.records != [] && w[1] != acc.currentRoot then Err(BrokenChain)
        else if w[2] == w[1] then Err(RootDidNotAdvance)
        else if w[3] in acc.seen then Err(DuplicateChild)
        else if acc.lots + lots >= U64_LIMIT then Err(LotOverflow)
        else if acc.events + events >= U64_LIMIT then Err(EventOverflow)
        else Ok(Acc(Some(id.value), oldRoot, w[2], acc.lots + lots, acc.events + events,
                    acc.seen + {w[3]}, Some(PairOf(c)),
                    acc.records + [ChildRecord(c.Aggregate?, w[3], w[1], w[2], lots, events)]))
  }

  /** The loop's state after the children, or its first error. */
  function Fold(keys: Keys, children: seq<EpochChild>): (r: Result<Acc, EpochError>)
    ensures r.Ok? ==> |r.value.records| == |children|
    ensures r.Ok? && children != [] ==> r.value.epochId.Some? && r.value.shared.Some?
  {
    if children == [] then Ok(START)
    else
      var before := Fold(keys, children[..|children| - 1]);
      if before.Err? then before else Absorb(keys, before.value, children[|children| - 1])
  }

  function Finish(keys: Keys, acc: Acc): EpochPublicValues
    requires acc.epochId.Some? && acc.shared.Some?
  {
    EpochPublicValues(acc.epochId.value, acc.oldRoot, acc.currentRoot,
                      EpochCommitment(keys.leafVk, keys.aggregateVk, acc.shared.value.0, acc.shared.value.1,
                                      acc.records),
                      acc.lots, acc.events, true, keys.leafVk, keys.aggregateVk, acc.shared.value.0, acc.shared.value.1)
  }

  function EvaluateNode(keys: Keys, children: seq<EpochChild>): Result<EpochPublicValues, EpochError>
  {
    if !(1 <= |children| <= MAX_FAN_IN) then Err(FanIn)
    else
      var acc := Fold(keys, children);
      if acc.Err? then Err(acc.error) else Ok(Finish(keys, acc.value))
  }

  lemma {:induction false} ErrorsPersist(keys: Keys, children: seq<EpochChild>, n: nat)
    requires n <= |children| && Fold(keys, children[..n]).Err?
    ensures Fold(keys, children) == Fold(keys, children[..n])
  {
    if n < |children| {
      var shorter := children[..|children| - 1];
      assert shorter[..n] == children[..n];
      ErrorsPersist(keys, shorter, n);
    } else {
      assert children[..n] == children;
    }
  }

  /** `epoch::evaluate`: the loop over the ordered children. */
  method Evaluate(keys: Keys, children: seq<EpochChild>) returns (r: Result<EpochPublicValues, EpochError>)
    ensures r == EvaluateNode(keys, children)
  {
    if !(1 <= |children| <= MAX_FAN_IN) { return Err(FanIn); }
    var acc := START;
    for i := 0 to |children|
      invariant Fold(keys, children[..i]) == Ok(acc)
    {
      assert children[..i + 1][..i] == children[..i];
      var next := Absorb(keys, acc, children[i]);
      if next.Err? {
        ErrorsPersist(keys, children, i + 1);
        return Err(next.error);
      }
      acc := next.value;
    }
    assert children[..|children|] == children;
    return Ok(Finish(keys, acc));
  }

  // ----- what a node accepts, and what it reports

  function LotsOf(c: EpochChild): nat
  {
    if c.Leaf? then 1 else NumberOf(c.words[4])
  }

  function EventsOf(c: EpochChild): nat
  {
    if c.Leaf? then NumberOf(c.words[9]) else NumberOf(c.words[5])
  }

  function EpochOf(c: EpochChild): nat { NumberOf(c.words[0]) }

  function OldOf(c: EpochChild): Digest { c.words[1] }

  function NewOf(c: EpochChild): Digest { c.words[2] }

  function BatchOf(c: EpochChild): Digest { c.words[3] }

  function RecordOf(c: EpochChild): ChildRecord
  {
    ChildRecord(c.Aggregate?, BatchOf(c), OldOf(c), NewOf(c), LotsOf(c), EventsOf(c))
  }

  predicate IsU64(w: Digest)
  {
    w.Raw? && w.word < U64_LIMIT
  }

  /** A child acceptable on its own. */
  predicate ChildOk(keys: Keys, c: EpochChild)
  {
    var w := c.words;
    && IsU64(w[0]) && NewOf(c) != OldOf(c)
    && if c.Leaf? then
         && w[7] == Raw(REQUIRED_ROLE) && w[8] == Raw(MAX_ALLOWED_READING) && w[10] == Raw(1)
         && IsU64(w[9]) && MIN_EVENTS <= EventsOf(c) <= MAX_EVENTS
       else
         && IsU64(w[4]) && IsU64(w[5]) && w[6] == Raw(1) && w[7] == keys.leafVk && w[8] == keys.aggregateVk
         && LotsOf(c) > 0 && LotsOf(c) * 64 < U64_LIMIT && LotsOf(c) * 8 <= EventsOf(c) <= LotsOf(c) * 64
  }

  function TotalLots(children: seq<EpochChild>): nat
  {
    if children == [] then 0 else TotalLots(children[..|children| - 1]) + LotsOf(children[|children| - 1])
  }

  function TotalEvents(children: seq<EpochChild>): nat
  {
    if children == [] then 0 else TotalEvents(children[..|children| - 1]) + EventsOf(children[|children| - 1])
  }

  /** One epoch and policy pair, and each child starts from the root its predecessor ended in. */
  ghost predicate Linked(children: seq<EpochChild>)
  {
    && (forall i: nat :: i < |children| ==>
          EpochOf(children[i]) == EpochOf(children[0]) && PairOf(children[i]) == PairOf(children[0]))
    && (forall i: nat :: 0 < i < |children| ==> OldOf(children[i]) == NewOf(children[i - 1]))
  }

  ghost predicate DistinctBatches(children: seq<EpochChild>)
  {
    forall i: nat, j: nat :: i < j < |children| ==> BatchOf(children[i]) != BatchOf(children[j])
  }

  ghost predicate Connected(keys: Keys, children: seq<EpochChild>)
  {
    && (forall c :: c in children ==> ChildOk(keys, c))
    && Linked(children) && DistinctBatches(children)
    && TotalLots(children) < U64_LIMIT && TotalEvents(children) < U64_LIMIT
  }

  function Records(children: seq<EpochChild>): seq<ChildRecord>
  {
    seq(|children|, i requires 0 <= i < |children| => RecordOf(children[i]))
  }

  ghost predicate HasBatch(children: seq<EpochChild>, d: Digest)
  {
    exists c :: c in children && BatchOf(c) == d
  }

  ghost predicate Summarises(acc: Acc, children: seq<EpochChild>)
  {
    && acc.records == Records(children) && acc.lots == TotalLots(children) && acc.events == TotalEvents(children)
    && (forall d :: d in acc.seen <==> HasBatch(children, d))
    && (children == [] ==> acc.epochId == None && acc.shared == None)
    && (children != [] ==>
      && acc.epochId.Some? && acc.epochId.value == EpochOf(children[0]) && acc.shared == Some(PairOf(children[0]))
      && acc.oldRoot == OldOf(children[0]) && acc.currentRoot == NewOf(children[|children| - 1]))
  }

  /** `c` may be appended to connected children. */
  ghost predicate CanFollow(keys: Keys, children: seq<EpochChild>, c: EpochChild)
  {
    && ChildOk(keys, c)
    && (children != [] ==>
      && EpochOf(c) == EpochOf(children[0]) && PairOf(c) == PairOf(children[0])
      && OldOf(c) == NewOf(children[|children| - 1]))
    && (forall x :: x in children ==> BatchOf(x) != BatchOf(c))
    && TotalLots(children) + LotsOf(c) < U64_LIMIT && TotalEvents(children) + EventsOf(c) < U64_LIMIT
  }

  lemma {:induction false} ConnectedSnoc(keys: Keys, children: seq<EpochChild>, c: EpochChild)
    ensures Connected(keys, children + [c]) <==> Connected(keys, children) && CanFollow(keys, children, c)
  {
    var longer := children + [c];
    assert longer[..|longer| - 1] == children && longer[|children|] == c;
    assert forall i: nat :: i < |children| ==> longer[i] == children[i];
    assert forall x :: x in longer <==> x in children || x == c;
    LinkedSnoc(children, c);
    DistinctSnoc(children, c);
  }

  lemma {:induction false} LinkedSnoc(children: seq<EpochChild>, c: EpochChild)
    ensures Linked(children + [c]) <==> Linked(children) && (children != [] ==>
      && EpochOf(c) == EpochOf(children[0]) && PairOf(c) == PairOf(children[0])
      && OldOf(c) == NewOf(children[|children| - 1]))
  {
    var longer := children + [c];
    assert longer[|children|] == c;
    assert forall i: nat :: i < |children| ==> longer[i] == children[i];
  }

  lemma {:induction false} DistinctSnoc(children: seq<EpochChild>, c: EpochChild)
    ensures DistinctBatches(children + [c]) <==>
      DistinctBatches(children) && forall x :: x in children ==> BatchOf(x) != BatchOf(c)
  {
    var longer := children + [c];
    assert longer[|children|] == c;
    assert forall i: nat :: i < |children| ==> longer[i] == children[i];
  }

  lemma {:induction false} CountsExactly(keys: Keys, c: EpochChild)
    ensures var counts := if c.Leaf? then LeafCounts(c.words) else AggregateCounts(keys, c.words);
      && (WordU64(c.words[0]).Ok? && counts.Ok? && NewOf(c) != OldOf(c) <==> ChildOk(keys, c))
      && (counts.Ok? ==> counts.value == (LotsOf(c), EventsOf(c)))
  {
  }

  /** Absorbing one more child succeeds exactly when it can follow. */
  lemma {:induction false} AbsorbExactly(keys: Keys, children: seq<EpochChild>, acc: Acc, c: EpochChild)
    requires Summarises(acc, children)
    ensures Absorb(keys, acc, c).Ok? <==> CanFollow(keys, children, c)
  {
    CountsExactly(keys, c);
    assert BatchOf(c) in acc.seen <==> HasBatch(children, BatchOf(c));
    assert acc.records == [] <==> children == [];
  }

  lemma {:induction false} SeenSnoc(children: seq<EpochChild>, c: EpochChild)
    ensures forall d :: HasBatch(children + [c], d) <==> HasBatch(children, d) || d == BatchOf(c)
  {
    assert forall x :: x in children + [c] <==> x in children || x == c;
    assert c in children + [c];
  }

  /** The fields of an accumulator that absorbed one more child. */
  lemma {:induction false} Absorbed(keys: Keys, acc: Acc, c: EpochChild)
    requires Absorb(keys, acc, c).Ok?
    ensures var next := Absorb(keys, acc, c).value;
      && next.epochId == Some(EpochOf(c)) && next.shared == Some(PairOf(c)) && next.currentRoot == NewOf(c)
      && next.oldRoot == (if acc.records == [] then OldOf(c) else acc.oldRoot)
      && (acc.epochId.Some? ==> acc.epochId == next.epochId) && (acc.shared.Some? ==> acc.shared == next.shared)
      && next.lots == acc.lots + LotsOf(c) && next.events == acc.events + EventsOf(c)
      && next.seen == acc.seen + {BatchOf(c)} && next.records == acc.records + [RecordOf(c)]
  {
    CountsExactly(keys, c);
  }

  lemma {:induction false} AbsorbSummarises(keys: Keys, children: seq<EpochChild>, acc: Acc, c: EpochChild)
    requires Summarises(acc, children) && Absorb(keys, acc, c).Ok?
    ensures Summarises(Absorb(keys, acc, c).value, children + [c])
  {
    Absorbed(keys, acc, c);
    SummaryGrows(acc, Absorb(keys, acc, c).value, children, c);
  }

  lemma {:induction false} SummaryGrows(acc: Acc, next: Acc, children: seq<EpochChild>, c: EpochChild)
    requires Summarises(acc, children)
    requires next.epochId == Some(EpochOf(c)) && next.shared == Some(PairOf(c)) && next.currentRoot == NewOf(c)
    requires next.oldRoot == if acc.records == [] then OldOf(c) else acc.oldRoot
    requires (acc.epochId.Some? ==> acc.epochId == next.epochId) && (acc.shared.Some? ==> acc.shared == next.shared)
    requires next.lots == acc.lots + LotsOf(c) && next.events == acc.events + EventsOf(c)
    requires next.seen == acc.seen + {BatchOf(c)} && next.records == acc.records + [RecordOf(c)]
    ensures Summarises(next, children + [c])
  {
    var longer := children + [c];
    assert longer[..|longer| - 1] == children && longer[|children|] == c;
    assert Records(longer) == Records(children) + [RecordOf(c)];
    SeenSnoc(children, c);
  }

  lemma {:induction false} FoldExactly(keys: Keys, children: seq<EpochChild>)
    ensures Fold(keys, children).Ok? <==> Connected(keys, children)
    ensures Fold(keys, children).Ok? ==> Summarises(Fold(keys, children).value, children)
  {
    if children != [] {
      var before, c := children[..|children| - 1], children[|children| - 1];
      assert children == before + [c];
      FoldExactly(keys, before);
      ConnectedSnoc(keys, before, c);
      if Fold(keys, before).Ok? {
        AbsorbExactly(keys, before, Fold(keys, before).value, c);
        if Fold(keys, children).Ok? { AbsorbSummarises(keys, before, Fold(keys, before).value, c); }
      }
    }
  }

  /** What an accepted node publishes about its children. */
  function Report(keys: Keys, children: seq<EpochChild>): EpochPublicValues
    requires children != [] && EpochOf(children[0]) < U64_LIMIT
    requires TotalLots(children) < U64_LIMIT && TotalEvents(children) < U64_LIMIT
  {
    EpochPublicValues(
      EpochOf(children[0]), OldOf(children[0]), NewOf(children[|children| - 1]),
      EpochCommitment(keys.leafVk, keys.aggregateVk, PairOf(children[0]).0, PairOf(children[0]).1, Records(children)),
      TotalLots(children), TotalEvents(children), true, keys.leafVk, keys.aggregateVk,
      PairOf(children[0]).0, PairOf(children[0]).1)
  }

  /**
   * A node succeeds exactly on one to eight connected children and reports their first, last, totals and
   * ordered records.
   */
  lemma {:induction false} NodeAcceptsExactly(keys: Keys, children: seq<EpochChild>)
    ensures EvaluateNode(keys, children).Ok? <==> 1 <= |children| <= 8 && Connected(keys, children)
    ensures EvaluateNode(keys, children).Ok? ==>
      && children[0] in children && EpochOf(children[0]) < U64_LIMIT
      && EvaluateNode(keys, children) == Ok(Report(keys, children))
  {
    FoldExactly(keys, children);
  }

  /**
   * The published commitment is over the published keys and policy pair and one record for each child: its
   * kind, digest word, two root words, lots and events.
   */
  lemma {:induction false} ReportIsBound(keys: Keys, children: seq<EpochChild>)
    requires EvaluateNode(keys, children).Ok?
    ensures var v := EvaluateNode(keys, children).value;
      && v.leafVk == keys.leafVk && v.aggregateVk == keys.aggregateVk && v.valid
      && v.epochCommitment
           == EpochCommitment(v.leafVk, v.aggregateVk, v.certificateRoot, v.polygonCommitment, Records(children))
    ensures forall i: nat :: i < |children| ==>
      var w := children[i].words;
      Records(children)[i]
          == ChildRecord(children[i].Aggregate?, w[3], w[1], w[2], LotsOf(children[i]), EventsOf(children[i]))
  {
    NodeAcceptsExactly(keys, children);
  }

  /** Where a child's policy pair stands: words 4 and 5 of a leaf, words 9 and 10 of an aggregate. */
  lemma {:induction false} PairsOfWords(w: Words)
    ensures PairOf(Leaf(w)) == (w[4], w[5]) && PairOf(Aggregate(w)) == (w[9], w[10])
  {
  }

  // ----- why a node is refused

  /** The child's own fields are canonical and within the policy's bounds. */
  predicate CountsOk(keys: Keys, c: EpochChild)
  {
    if c.Leaf? then LeafCounts(c.words).Ok? else AggregateCounts(keys, c.words).Ok?
  }

  lemma {:induction false} CountsErrors(keys: Keys, c: EpochChild)
    ensures var counts := if c.Leaf? then LeafCounts(c.words) else AggregateCounts(keys, c.words);
      && (counts.Ok? <==> CountsOk(keys, c)) && (counts.Ok? ==> counts.value == (LotsOf(c), EventsOf(c)))
      && (counts.Err? ==> counts.error in {Noncanonical, InvalidLeaf, AggregateLotOverflow, InvalidAggregate})
  {
    CountsExactly(keys, c);
  }

  /** Each error against the children before says what is wrong with the next one, in the order of the checks. */
  lemma {:induction false} AbsorbRefusals(keys: Keys, children: seq<EpochChild>, acc: Acc, c: EpochChild)
    requires Summarises(acc, children)
    ensures var r, w := Absorb(keys, acc, c), c.words;
      var paired := IsU64(w[0]) && (children != [] ==> PairOf(c) == PairOf(children[0]));
      var counted := paired && CountsOk(keys, c);
      var sameEpoch := counted && (children != [] ==> EpochOf(c) == EpochOf(children[0]));
      var follows := sameEpoch && (children != [] ==> OldOf(c) == NewOf(children[|children| - 1]));
      var advances := follows && NewOf(c) != OldOf(c);
      var isNew := advances && !HasBatch(children, BatchOf(c));
      && (!IsU64(w[0]) ==> r == Err(Noncanonical))
      && (r == Err(MismatchedRoots) <==> IsU64(w[0]) && !paired)
      && (r == Err(OtherEpoch) <==> counted && !sameEpoch)
      && (r == Err(BrokenChain) <==> sameEpoch && !follows)
      && (r == Err(RootDidNotAdvance) <==> follows && !advances)
      && (r == Err(DuplicateChild) <==> advances && !isNew)
      && (r == Err(LotOverflow) <==> isNew && TotalLots(children) + LotsOf(c) >= U64_LIMIT)
      && (r == Err(EventOverflow) <==>
           isNew && TotalLots(children) + LotsOf(c) < U64_LIMIT && TotalEvents(children) + EventsOf(c) >= U64_LIMIT)
  {
    hide LeafCounts;
    hide AggregateCounts;
    hide CountsOk;
    CountsErrors(keys, c);
    assert BatchOf(c) in acc.seen <==> HasBatch(children, BatchOf(c));
    assert acc.records == [] <==> children == [];
  }

  /** Child `i` is the first that cannot follow those before it, for this reason. */
  ghost predicate RefusedAt(keys: Keys, children: seq<EpochChild>, i: nat, error: EpochError)
    requires i < |children|
  {
    Fold(keys, children[..i]).Ok? && Absorb(keys, Fold(keys, children[..i]).value, children[i]) == Err(error)
  }

  /** The error of a group is that of its first child that cannot follow those before it. */
  lemma {:induction false} FoldRefusesExactly(keys: Keys, children: seq<EpochChild>, error: EpochError)
    ensures Fold(keys, children) == Err(error) <==>
      exists i: nat :: i < |children| && RefusedAt(keys, children, i, error)
  {
    hide Absorb;
    if children != [] {
      var last := |children| - 1;
      FoldRefusesExactly(keys, children[..last], error);
      RefusedInPrefix(keys, children, last, error);
      LastRefused(keys, children, error);
    }
  }

  lemma {:induction false} LastRefused(keys: Keys, children: seq<EpochChild>, error: EpochError)
    requires children != []
    ensures var last := |children| - 1;
      Fold(keys, children) == Err(error) <==>
        Fold(keys, children[..last]) == Err(error) || RefusedAt(keys, children, last, error)
  {
    hide Absorb;
  }

  lemma {:induction false} RefusedInPrefix(keys: Keys, children: seq<EpochChild>, last: nat, error: EpochError)
    requires last < |children|
    ensures forall i: nat :: i < last ==>
        (RefusedAt(keys, children, i, error) <==> RefusedAt(keys, children[..last], i, error))
  {
    hide Absorb;
    hide Fold;
    forall i: nat | i < last
      ensures RefusedAt(keys, children, i, error) <==> RefusedAt(keys, children[..last], i, error)
    {
      assert children[..last][..i] == children[..i];
    }
  }
}
