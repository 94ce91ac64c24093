/**
 * One seed of the paced end-to-end benchmark: a producer thread offers lots to a bounded queue, a
 * consumer proves and anchors them, and shared counters are written as evidence.  Each mutex-guarded
 * update is one step; every interleaving of the two threads is a sequence of steps.
 */
module E2Pipeline {
  import opened Primitives
  import opened Sequences
  import opened Sums
  import opened PolicyTypes

  // ----- lot and event numbering

  /** `global_lot_id`: run, seed and ordinal packed into one 64-bit number. */
  function GlobalLotId(runId: U64, seed: U64, ordinal: U64): Option<U64>
  {
    var id := runId * 1_000_000_000 + seed * 1_000_000 + ordinal;
    if seed > 999 || ordinal >= 1_000_000 || id >= U64_LIMIT then None else Some(id)
  }

  /** No two lots of any runs and seeds share an id. */
  lemma {:induction false} LotIdsAreUnique(runA: U64, seedA: U64, a: U64, runB: U64, seedB: U64, b: U64)
    requires GlobalLotId(runA, seedA, a).Some? && GlobalLotId(runA, seedA, a) == GlobalLotId(runB, seedB, b)
    ensures runA == runB && seedA == seedB && a == b
  {
  }

  /** A planned lot: its id, its first event id and its number of events. */
  datatype Lot = Lot(lotId: U64, firstEvent: U64, events: nat)

  function Size(lots: seq<Lot>): nat -> nat
  {
    (i: nat) => if i < |lots| then lots[i].events else 0
  }

  /** The first id of a seed's block of a million. */
  function BlockStart(runId: U64, seed: U64): nat
  {
    runId * 1_000_000_000 + seed * 1_000_000
  }

  /** Lot `i` of the plan carries its packed id and the event ids that follow those of the lots before it. */
  ghost predicate PlannedAt(lots: seq<Lot>, ordinals: seq<(U64, nat)>, runId: U64, seed: U64, i: nat)
    requires i < |lots| && i < |ordinals|
  {
    && GlobalLotId(runId, seed, ordinals[i].0) == Some(lots[i].lotId)
    && lots[i].firstEvent == BlockStart(runId, seed) + UpTo(Counts(ordinals), i)
    && lots[i].events == ordinals[i].1
  }

  method TotalEvents(ordinals: seq<(U64, nat)>) returns (total: nat)
    ensures total == UpTo(Counts(ordinals), |ordinals|)
  {
    total := 0;
    for i := 0 to |ordinals|
      invariant total == UpTo(Counts(ordinals), i)
    {
      total := total + ordinals[i].1;
    }
  }

  /** Lot `i` can be planned: its packed id exists and it has 8 to 64 events. */
  predicate Plannable(ordinals: seq<(U64, nat)>, runId: U64, seed: U64, i: nat)
    requires i < |ordinals|
  {
    GlobalLotId(runId, seed, ordinals[i].0).Some? && MIN_EVENTS <= ordinals[i].1 <= MAX_EVENTS
  }

  /** `prepare_lots`: event ids are consecutive and stay inside the seed's own million. */
  method PrepareLots(ordinals: seq<(U64, nat)>, runId: U64, seed: U64) returns (r: Option<seq<Lot>>)
    ensures r.Some? <==>
      && GlobalLotId(runId, seed, 0).Some? && UpTo(Counts(ordinals), |ordinals|) < 1_000_000
      && (forall i: nat :: i < |ordinals| ==> Plannable(ordinals, runId, seed, i))
      && BlockStart(runId, seed) + UpTo(Counts(ordinals), |ordinals|) < U64_LIMIT
    ensures r.Some? ==> |r.value| == |ordinals|
    ensures r.Some? ==> forall i: nat :: i < |ordinals| ==> PlannedAt(r.value, ordinals, runId, seed, i)
  {
    var base := GlobalLotId(runId, seed, 0);
    if base.None? { return None; }
    var total := TotalEvents(ordinals);
    if total >= 1_000_000 { return None; }
    var next := base.value;
    var lots: seq<Lot> := [];
    for i := 0 to |ordinals|
      invariant |lots| == i && next == BlockStart(runId, seed) + UpTo(Counts(ordinals), i) < U64_LIMIT
      invariant forall k: nat :: k < i ==>
          Plannable(ordinals, runId, seed, k) && PlannedAt(lots, ordinals, runId, seed, k)
    {
      UpToGrows(Counts(ordinals), i + 1, |ordinals|);
      var id := GlobalLotId(runId, seed, ordinals[i].0);
      if id.None? || !(MIN_EVENTS <= ordinals[i].1 <= MAX_EVENTS) {
        assert !Plannable(ordinals, runId, seed, i);
        return None;
      }
      if next + ordinals[i].1 >= U64_LIMIT { return None; }
      ghost var before := lots;
      lots := lots + [Lot(id.value, next, ordinals[i].1)];
      next := next + ordinals[i].1;
      assert forall k: nat :: k < i ==> PlannedAt(before, ordinals, runId, seed, k) ==>
          PlannedAt(lots, ordinals, runId, seed, k);
    }
    return Some(lots);
  }

  /** Event ids of different lots, seeds or runs never meet. */
  lemma {:induction false} EventIdsAreUnique(lotsA: seq<Lot>, a: seq<(U64, nat)>, runA: U64, seedA: U64, i: nat, x: nat,
                                             lotsB: seq<Lot>, b: seq<(U64, nat)>, runB: U64, seedB: U64, j: nat, y: nat)
    requires i < |lotsA| == |a| && j < |lotsB| == |b| && x < lotsA[i].events && y < lotsB[j].events
    requires PlannedAt(lotsA, a, runA, seedA, i) && PlannedAt(lotsB, b, runB, seedB, j)
    requires UpTo(Counts(a), |a|) < 1_000_000 && UpTo(Counts(b), |b|) < 1_000_000
    requires lotsA[i].firstEvent + x == lotsB[j].firstEvent + y
    ensures runA == runB && seedA == seedB
    ensures a == b ==> i == j && x == y
  {
    UpToGrows(Counts(a), i + 1, |a|);
    UpToGrows(Counts(b), j + 1, |b|);
    if a == b && i < j { UpToGrows(Counts(a), i + 1, j); }
    if a == b && j < i { UpToGrows(Counts(a), j + 1, i); }
  }

  function Counts(ordinals: seq<(U64, nat)>): nat -> nat
  {
    (i: nat) => if i < |ordinals| then ordinals[i].1 else 0
  }

  // ----- the bounded send

  datatype TrySend = Accepted | Full | Disconnected

  /** What one round of the retry loop observes, in the order it looks. */
  datatype Attempt = Attempt(stopped: bool, result: TrySend, expired: bool)

  datatype SendFailure = Saturated | Stopped | Gone

  predicate Undecided(a: Attempt)
  {
    !a.stopped && a.result == Full && !a.expired
  }

  /** `send_before_deadline`: the first decisive round decides, and a failed send hands the same item back. */
  method SendBeforeDeadline<T>(item: T, attempts: seq<Attempt>)
      returns (r: Option<Result<(), (T, SendFailure)>>, rounds: nat)
    ensures rounds <= |attempts| && forall k: nat :: k < rounds ==> Undecided(attempts[k])
    ensures r.None? <==> rounds == |attempts|
    ensures r.Some? && r.value.Err? ==> r.value.error.0 == item
    ensures r.Some? ==>
      var a := attempts[rounds];
      && (a.stopped <==> r.value == Err((item, Stopped)))
      && (!a.stopped && a.result == Accepted <==> r.value == Ok(()))
      && (!a.stopped && a.result == Disconnected <==> r.value == Err((item, Gone)))
      && (r.value == Err((item, Saturated)) ==> a.result == Full && a.expired)
  {
    var held := item;
    rounds := 0;
    while rounds < |attempts|
      invariant rounds <= |attempts| && held == item && forall k: nat :: k < rounds ==> Undecided(attempts[k])
    {
      var a := attempts[rounds];
      if a.stopped { return Some(Err((held, Stopped))), rounds; }
      match a.result
      case Accepted => return Some(Ok(())), rounds;
      case Disconnected => return Some(Err((held, Gone))), rounds;
      case Full =>
      if a.expired { return Some(Err((held, Saturated))), rounds; }
      rounds := rounds + 1;
    }
    r := None;
  }

  // ----- the two threads

  datatype Plan = Plan(lots: seq<Lot>, capacity: nat)

  datatype Stage =
    | NoStage | Witness | Prove | Anchor | Fabric | FabricReadback | QueueSaturated | QueueStopped
    | ConsumerStopped | ProducerStopped

  datatype Status = Anchored | Failed | NotOffered

  datatype Row = Row(index: nat, events: nat, status: Status, stage: Stage)

  datatype Counters = Counters(
    offeredLots: nat, offeredEvents: nat, committedLots: nat, committedEvents: nat,
    readbackLots: nat, readbackEvents: nat,
    queuedLots: nat, receivedLots: nat, provedLots: nat, provedEvents: nat, anchoredLots: nat, anchoredEvents: nat,
    saturatedLots: nat, maxQueueDepth: nat)

  /** Where the producer is within the current lot. */
  datatype ProducerAt =
    | NextLot | Offering(offered: nat) | Posting(posting: nat) | Reading(read: nat) | Sending | Enqueued

  datatype ConsumerAt = Waiting | Received | Working | Proved | Left

  /** `sent` and `dropped` record what the bounded queue accepted and refused; `taken` how many were received. */
  datatype State = State(
    lot: nat, at: ProducerAt, finished: bool, sent: seq<nat>, dropped: seq<nat>,
    failures: map<nat, Stage>, producerFailed: bool,
    stop: bool, c: Counters, consumer: ConsumerAt, taken: nat, rows: seq<Row>, consumerFailed: bool)

  datatype Step =
    | TakeLot | LotsEnd | PaceStops | Offer | Commit | CommitFails | AllCommitted | Read | ReadFails | AllRead
    | Enqueue | QueueStops | Saturate | CountQueued
    | Receive | QueueEnds | CountReceived | WitnessFails | ProveFails | Proves | AnchorFails | Anchors

  function Start(): State
  {
    State(0, NextLot, false, [], [], map[], false, false, Counters(0, 0, 0, 0, 0, 0, 0, 0, 0, 0, 0, 0, 0, 0), Waiting,
          0, [], false)
  }

  function Here(plan: Plan, s: State): nat
  {
    if s.lot < |plan.lots| then plan.lots[s.lot].events else 0
  }

  predicate IsProducerStep(step: Step)
  {
    step in {TakeLot, LotsEnd, PaceStops, Offer, Commit, CommitFails, AllCommitted, Read, ReadFails, AllRead, Enqueue,
             QueueStops, Saturate, CountQueued}
  }

  /**
   * A stop ends a round only if the producer looks after it was set; having looked before, the producer may
   * still take a lot, offer an event or enqueue.
   */
  predicate ProducerMay(plan: Plan, s: State, step: Step)
  {
    !s.finished &&
    match step
    case TakeLot => s.at == NextLot && s.lot < |plan.lots|
    case LotsEnd => s.at == NextLot && (s.lot >= |plan.lots| || s.stop)
    case PaceStops => s.at.Offering? && s.at.offered < Here(plan, s) && s.stop
    case Offer => s.at.Offering? && s.at.offered < Here(plan, s)
    case Commit => s.at.Posting?
    case CommitFails => s.at.Posting?
    case AllCommitted => s.at.Offering? && s.at.offered == Here(plan, s)
    case Read => s.at.Reading? && s.at.read < Here(plan, s)
    case ReadFails => s.at.Reading? && s.at.read < Here(plan, s)
    case AllRead => s.at.Reading? && s.at.read == Here(plan, s)
    case Enqueue => s.at == Sending && |s.sent| < s.taken + plan.capacity
    case QueueStops => s.at == Sending && s.stop
    case Saturate => s.at == Sending
    case CountQueued => s.at == Enqueued
    case _ => false
  }

  predicate ConsumerMay(plan: Plan, s: State, step: Step)
  {
    match step
    case Receive => s.consumer == Waiting && s.taken < |s.sent|
    case QueueEnds => s.consumer == Waiting && s.taken == |s.sent| && s.finished
    case CountReceived => s.consumer == Received
    case WitnessFails => s.consumer == Working
    case ProveFails => s.consumer == Working
    case Proves => s.consumer == Working
    case AnchorFails => s.consumer == Proved
    case Anchors => s.consumer == Proved
    case _ => false
  }

  function Max(a: nat, b: nat): nat { if a < b then b else a }

  function Min(a: nat, b: nat): nat { if a < b then a else b }

  function AfterProducer(plan: Plan, s: State, step: Step): State
    requires ProducerMay(plan, s, step)
  {
    match step
    case TakeLot => s.(at := Offering(0), c := s.c.(offeredLots := s.c.offeredLots + 1))
    case LotsEnd => s.(finished := true)
    case PaceStops => s.(finished := true)
    case Offer => s.(at := Posting(s.at.offered), c := s.c.(offeredEvents := s.c.offeredEvents + 1))
    case Commit => s.(at := Offering(s.at.posting + 1), c := s.c.(committedEvents := s.c.committedEvents + 1))
    case CommitFails => s.(finished := true, producerFailed := true, failures := s.failures[s.lot := Fabric])
    case AllCommitted => s.(at := Reading(0), c := s.c.(committedLots := s.c.committedLots + 1))
    case Read => s.(at := Reading(s.at.read + 1), c := s.c.(readbackEvents := s.c.readbackEvents + 1))
    case ReadFails => s.(finished := true, producerFailed := true, failures := s.failures[s.lot := FabricReadback])
    case AllRead => s.(at := Sending, c := s.c.(readbackLots := s.c.readbackLots + 1))
    case Enqueue => s.(at := Enqueued, sent := s.sent + [s.lot])
    case QueueStops => s.(finished := true, failures := s.failures[s.lot := QueueStopped])
    case Saturate =>
      s.(at := NextLot, lot := s.lot + 1, dropped := s.dropped + [s.lot],
         failures := s.failures[s.lot := QueueSaturated],
         c := s.c.(saturatedLots := s.c.saturatedLots + 1, maxQueueDepth := plan.capacity))
    case CountQueued =>
      var queued := s.c.queuedLots + 1;
      var depth := Min(if queued < s.c.receivedLots then 0 else queued - s.c.receivedLots, plan.capacity);
      s.(at := NextLot, lot := s.lot + 1,
         c := s.c.(queuedLots := queued, maxQueueDepth := Max(s.c.maxQueueDepth, depth)))
    case _ => s
  }

  /** The lot the consumer holds. */
  function Held(s: State): nat
  {
    if 0 < s.taken <= |s.sent| then s.sent[s.taken - 1] else 0
  }

  function Fail(plan: Plan, s: State, stage: Stage): State
  {
    s.(consumer := Left, stop := true, consumerFailed := true,
       rows := s.rows + [Row(Held(s), Size(plan.lots)(Held(s)), Failed, stage)])
  }

  function AfterConsumer(plan: Plan, s: State, step: Step): State
    requires ConsumerMay(plan, s, step)
  {
    var size := Size(plan.lots)(Held(s));
    match step
    case Receive => s.(consumer := Received, taken := s.taken + 1)
    case QueueEnds => s.(consumer := Left, stop := true)
    case CountReceived => s.(consumer := Working, c := s.c.(receivedLots := s.c.receivedLots + 1))
    case WitnessFails => Fail(plan, s, Witness)
    case ProveFails => Fail(plan, s, Prove)
    case Proves =>
      s.(consumer := Proved,
         c := s.c.(provedLots := s.c.provedLots + 1, provedEvents := s.c.provedEvents + size))
    case AnchorFails => Fail(plan, s, Anchor)
    case Anchors =>
      s.(consumer := Waiting, rows := s.rows + [Row(Held(s), size, Anchored, NoStage)],
         c := s.c.(anchoredLots := s.c.anchoredLots + 1, anchoredEvents := s.c.anchoredEvents + size))
    case _ => s
  }

  predicate Enabled(plan: Plan, s: State, step: Step)
  {
    if IsProducerStep(step) then ProducerMay(plan, s, step) else ConsumerMay(plan, s, step)
  }

  function After(plan: Plan, s: State, step: Step): State
    requires Enabled(plan, s, step)
  {
    if IsProducerStep(step) then AfterProducer(plan, s, step) else AfterConsumer(plan, s, step)
  }

  function Reached(plan: Plan, steps: seq<Step>): Option<State>
  {
    if steps == [] then Some(Start())
    else
      var before := Reached(plan, steps[..|steps| - 1]);
      if before.Some? && Enabled(plan, before.value, steps[|steps| - 1])
      then Some(After(plan, before.value, steps[|steps| - 1]))
      else None
  }

  // ----- the invariant

  /** Lots the producer is done with. */
  function Done(s: State): nat
  {
    s.lot + if s.at == Enqueued then 1 else 0
  }

  predicate EventsAre(s: State, offered: nat, committed: nat, readback: nat)
  {
    s.c.offeredEvents == offered && s.c.committedEvents == committed && s.c.readbackEvents == readback
  }

  ghost predicate ProducerCounts(plan: Plan, s: State)
  {
    var size, before := Size(plan.lots), UpTo(Size(plan.lots), s.lot);
    && s.lot <= |plan.lots| && (s.at != NextLot ==> s.lot < |plan.lots|)
    && s.c.offeredLots == s.lot + (if s.at == NextLot then 0 else 1)
    && s.c.committedLots == s.lot + (if s.at.Reading? || s.at == Sending || s.at == Enqueued then 1 else 0)
    && s.c.readbackLots == s.lot + (if s.at == Sending || s.at == Enqueued then 1 else 0)
    && match s.at
       case NextLot => EventsAre(s, before, before, before)
       case Offering(j) => j <= size(s.lot) && EventsAre(s, before + j, before + j, before)
       case Posting(j) => j < size(s.lot) && EventsAre(s, before + j + 1, before + j, before)
       case Reading(j) => j <= size(s.lot) && EventsAre(s, before + size(s.lot), before + size(s.lot), before + j)
       case _ => EventsAre(s, before + size(s.lot), before + size(s.lot), before + size(s.lot))
  }

  ghost predicate QueueOk(plan: Plan, s: State)
  {
    QueueCounts(plan, s) && FailuresOk(plan, s)
  }

  ghost predicate QueueCounts(plan: Plan, s: State)
  {
    && EachOnce(s.sent + s.dropped, Done(s))
    && s.c.queuedLots + (if s.at == Enqueued then 1 else 0) == |s.sent|
    && s.c.saturatedLots == |s.dropped|
    && s.taken <= |s.sent| <= s.taken + plan.capacity && s.c.maxQueueDepth <= plan.capacity
    && (s.finished ==> s.at != Enqueued)
  }

  ghost predicate FailuresOk(plan: Plan, s: State)
  {
    && (forall i :: i in s.failures ==>
          i in s.dropped || (i == s.lot && s.finished && i < |plan.lots| && s.at != Enqueued))
    && (forall i :: i in s.failures ==> (s.failures[i] == QueueSaturated <==> i in s.dropped))
    && (forall i :: i in s.dropped ==> i in s.failures)
    && (s.producerFailed ==> s.finished && s.lot < |plan.lots|)
    && (s.finished && (s.at.Posting? || s.at.Reading? || s.at == Sending) ==> s.lot in s.failures)
    && (s.lot in s.failures && s.lot !in s.dropped ==>
         s.failures[s.lot] == StageAt(s.at) && (s.at.Posting? || s.at.Reading? || s.at == Sending))
    && (s.producerFailed <==> s.finished && (s.at.Posting? || s.at.Reading?))
  }

  /** The stage at which the producer stopped in its current lot. */
  function StageAt(at: ProducerAt): Stage
  {
    match at
    case Posting(_) => Fabric
    case Reading(_) => FabricReadback
    case Sending => QueueStopped
    case _ => ProducerStopped
  }

  /** Lots anchored so far: every row but a final failed one. */
  function AnchoredRows(s: State): nat
  {
    if s.consumerFailed && s.rows != [] then |s.rows| - 1 else |s.rows|
  }

  ghost predicate ConsumerOk(plan: Plan, s: State)
  {
    && s.taken <= |s.sent|
    && s.c.receivedLots + (if s.consumer == Received then 1 else 0) == s.taken
    && |s.rows| + (if s.consumer == Received || s.consumer == Working || s.consumer == Proved then 1 else 0) == s.taken
    && (s.consumerFailed ==> s.consumer == Left && s.rows != [] && s.rows[|s.rows| - 1].status == Failed)
    && (s.consumer == Left ==> s.stop)
    && s.c.anchoredLots == AnchoredRows(s)
    && s.c.anchoredLots <= s.c.provedLots <= s.c.receivedLots
    && (s.consumer == Proved ==> s.c.provedLots == s.taken)
         && (s.consumer != Proved && s.consumer != Left ==> s.c.provedLots == s.c.anchoredLots)
    && s.c.anchoredEvents == Weighted(Size(plan.lots), s.sent[..s.c.anchoredLots])
    && s.c.provedEvents == Weighted(Size(plan.lots), s.sent[..s.c.provedLots])
  }

  /** A row of the consumer: anchored, or failed at one of its stages. */
  predicate StageFits(row: Row)
  {
    match row.status
    case Anchored => row.stage == NoStage
    case Failed => row.stage == Witness || row.stage == Prove || row.stage == Anchor
    case NotOffered => false
  }

  ghost predicate RowsOk(plan: Plan, s: State)
  {
    && |s.rows| <= |s.sent|
    && (forall k: nat :: k < |s.rows| ==>
         s.rows[k].index == s.sent[k] && s.rows[k].events == Size(plan.lots)(s.sent[k])
         && StageFits(s.rows[k]))
    && forall k: nat :: k < AnchoredRows(s) ==> s.rows[k].status == Anchored
  }

  ghost predicate Inv(plan: Plan, s: State)
  {
    ProducerCounts(plan, s) && QueueOk(plan, s) && ConsumerOk(plan, s) && RowsOk(plan, s)
  }

  lemma {:induction false} StartQueue(plan: Plan)
    ensures QueueOk(plan, Start())
  {
    var s := Start();
    assert s.sent + s.dropped == [];
    NothingOnce();
  }

  lemma {:induction false} StartConsumer(plan: Plan)
    ensures ConsumerOk(plan, Start()) && RowsOk(plan, Start())
  {
    hide UpTo;
    assert Start().sent[..0] == [];
  }

  lemma {:induction false} StartInv(plan: Plan)
    ensures Inv(plan, Start())
  {
    StartQueue(plan);
    StartConsumer(plan);
  }

  lemma {:induction false} ProducerKeepsCounts(plan: Plan, s: State, step: Step)
    requires ProducerCounts(plan, s) && ProducerMay(plan, s, step)
    ensures ProducerCounts(plan, AfterProducer(plan, s, step))
  {
  }

  lemma {:induction false} OneMoreOnce(sent: seq<nat>, dropped: seq<nat>, n: nat)
    requires EachOnce(sent + dropped, n)
    ensures EachOnce(sent + [n] + dropped, n + 1) && EachOnce(sent + (dropped + [n]), n + 1)
    ensures n !in sent && n !in dropped && (forall i: nat :: i in sent || i in dropped <==> i < n)
    ensures forall i :: i in sent ==> i !in dropped
  {
    var all := sent + dropped;
    assert forall k: nat :: k < |all| ==> all[k] in all;
    assert forall i: nat :: i in all <==> i in sent || i in dropped;
    var a, b := sent + [n] + dropped, sent + (dropped + [n]);
    assert a == all[..|sent|] + [n] + all[|sent|..] && b == all[..|all|] + [n] + all[|all|..];
    Inserted(all, a, |sent|, n);
    Inserted(all, b, |all|, n);
    forall i | i in sent
      ensures i !in dropped
    {
      var j: nat :| j < |sent| && sent[j] == i;
      assert all[j] == i;
      assert forall k: nat :: k < |dropped| ==> all[|sent| + k] == dropped[k];
    }
  }

  lemma {:induction false} ProducerKeepsQueue(plan: Plan, s: State, step: Step)
    requires ProducerCounts(plan, s) && QueueOk(plan, s) && ProducerMay(plan, s, step)
    ensures QueueOk(plan, AfterProducer(plan, s, step))
  {
    OneMoreOnce(s.sent, s.dropped, Done(s));
    ProducerKeepsQueueCounts(plan, s, step);
    ProducerKeepsFailures(plan, s, step);
  }

  lemma {:induction false} ProducerKeepsQueueCounts(plan: Plan, s: State, step: Step)
    requires ProducerCounts(plan, s) && QueueCounts(plan, s) && ProducerMay(plan, s, step)
    requires EachOnce(s.sent + [Done(s)] + s.dropped, Done(s) + 1)
    requires EachOnce(s.sent + (s.dropped + [Done(s)]), Done(s) + 1)
    ensures QueueCounts(plan, AfterProducer(plan, s, step))
  {
    hide EachOnce;
    hide UpTo;
  }

  lemma {:induction false} ProducerKeepsFailures(plan: Plan, s: State, step: Step)
    requires ProducerCounts(plan, s) && FailuresOk(plan, s) && ProducerMay(plan, s, step)
    requires Done(s) !in s.sent && Done(s) !in s.dropped && (s.finished ==> s.at != Enqueued)
    ensures FailuresOk(plan, AfterProducer(plan, s, step))
  {
    hide UpTo;
  }

  /** The producer only appends to what was sent. */
  lemma {:induction false} ConsumerFrame(plan: Plan, s: State, after: State)
    requires ConsumerOk(plan, s) && s.sent <= after.sent && (s.stop ==> after.stop)
    requires after.consumer == s.consumer && after.taken == s.taken && after.rows == s.rows
        && after.consumerFailed == s.consumerFailed
    requires after.c.receivedLots == s.c.receivedLots && after.c.provedLots == s.c.provedLots
        && after.c.provedEvents == s.c.provedEvents
    requires after.c.anchoredLots == s.c.anchoredLots && after.c.anchoredEvents == s.c.anchoredEvents
    ensures ConsumerOk(plan, after)
  {
    assert after.sent[..s.c.anchoredLots] == s.sent[..s.c.anchoredLots]
        && after.sent[..s.c.provedLots] == s.sent[..s.c.provedLots];
  }

  lemma {:induction false} RowsFrame(plan: Plan, s: State, after: State)
    requires RowsOk(plan, s) && s.sent <= after.sent && after.rows == s.rows && after.consumerFailed == s.consumerFailed
    ensures RowsOk(plan, after)
  {
    assert forall k: nat :: k < |s.rows| ==> after.sent[k] == s.sent[k];
  }

  lemma {:induction false} ProducerKeepsConsumer(plan: Plan, s: State, step: Step)
    requires ConsumerOk(plan, s) && RowsOk(plan, s) && ProducerMay(plan, s, step)
    ensures ConsumerOk(plan, AfterProducer(plan, s, step)) && RowsOk(plan, AfterProducer(plan, s, step))
  {
    ConsumerFrame(plan, s, AfterProducer(plan, s, step));
    RowsFrame(plan, s, AfterProducer(plan, s, step));
  }

  lemma {:induction false} ConsumerKeepsCounts(plan: Plan, s: State, step: Step)
    requires ProducerCounts(plan, s) && QueueOk(plan, s) && ConsumerMay(plan, s, step)
    ensures ProducerCounts(plan, AfterConsumer(plan, s, step)) && QueueOk(plan, AfterConsumer(plan, s, step))
  {
  }

  lemma {:induction false} ConsumerKeepsOk(plan: Plan, s: State, step: Step)
    requires ConsumerOk(plan, s) && RowsOk(plan, s) && ConsumerMay(plan, s, step)
    ensures ConsumerOk(plan, AfterConsumer(plan, s, step))
  {
    if step == Proves || step == Anchors {
      var n := s.taken;
      assert s.sent[..n][..n - 1] == s.sent[..n - 1] && s.sent[..n][n - 1] == Held(s);
    }
  }

  lemma {:induction false} ConsumerKeepsRows(plan: Plan, s: State, step: Step)
    requires ConsumerOk(plan, s) && RowsOk(plan, s) && ConsumerMay(plan, s, step)
    ensures RowsOk(plan, AfterConsumer(plan, s, step))
  {
    var after := AfterConsumer(plan, s, step);
    assert s.rows <= after.rows && after.sent == s.sent;
    assert forall k: nat :: k < |s.rows| ==> after.rows[k] == s.rows[k];
  }

  lemma {:induction false} StepKeeps(plan: Plan, s: State, step: Step)
    requires Inv(plan, s) && Enabled(plan, s, step)
    ensures Inv(plan, After(plan, s, step))
  {
    if IsProducerStep(step) {
      ProducerKeepsCounts(plan, s, step);
      ProducerKeepsQueue(plan, s, step);
      ProducerKeepsConsumer(plan, s, step);
    } else {
      ConsumerKeepsCounts(plan, s, step);
      ConsumerKeepsOk(plan, s, step);
      ConsumerKeepsRows(plan, s, step);
    }
  }

  lemma {:induction false} RunKeeps(plan: Plan, steps: seq<Step>)
    requires Reached(plan, steps).Some?
    ensures Inv(plan, Reached(plan, steps).value)
  {
    if steps == [] {
      StartInv(plan);
    } else {
      var before := steps[..|steps| - 1];
      RunKeeps(plan, before);
      StepKeeps(plan, Reached(plan, before).value, steps[|steps| - 1]);
    }
  }

  /**
   * At every moment of every run: at most one more lot received than counted as queued, and the queue
   * within capacity.
   */
  lemma {:induction false} ReceivedNeverRunsAhead(plan: Plan, steps: seq<Step>)
    requires Reached(plan, steps).Some?
    ensures var s := Reached(plan, steps).value;
      s.c.receivedLots <= s.c.queuedLots + 1 && |s.sent| - s.taken <= plan.capacity
          && s.c.maxQueueDepth <= plan.capacity
  {
    RunKeeps(plan, steps);
  }

  // ----- the deepest queue

  /** The depth a step counts: lots queued and not received after it counts its own, or a queue found full. */
  function DepthSeen(plan: Plan, s: State, step: Step): nat
  {
    match step
    case CountQueued =>
      var queued := s.c.queuedLots + 1;
      Min(if queued > s.c.receivedLots then queued - s.c.receivedLots else 0, plan.capacity)
    case Saturate => plan.capacity
    case _ => 0
  }

  /** The depth counted by step `n` of a run. */
  function DepthAt(plan: Plan, steps: seq<Step>, n: nat): nat
    requires n < |steps|
  {
    var before := Reached(plan, steps[..n]);
    if before.Some? then DepthSeen(plan, before.value, steps[n]) else 0
  }

  /** The recorded maximum is the greatest depth any step of the run counted. */
  lemma {:induction false} MaxDepthIsGreatest(plan: Plan, steps: seq<Step>)
    requires Reached(plan, steps).Some?
    ensures var most := Reached(plan, steps).value.c.maxQueueDepth;
      && (forall n: nat :: n < |steps| ==> DepthAt(plan, steps, n) <= most)
      && (most == 0 || exists n: nat :: n < |steps| && DepthAt(plan, steps, n) == most)
  {
    if steps != [] {
      MaxDepthIsGreatest(plan, steps[..|steps| - 1]);
      LastDepth(plan, steps);
      MaxDepthGrows(plan, steps);
    }
  }

  lemma {:induction false} MaxDepthGrows(plan: Plan, steps: seq<Step>)
    requires steps != [] && Reached(plan, steps).Some? && Reached(plan, steps[..|steps| - 1]).Some?
    requires var before := steps[..|steps| - 1];
      var most := Reached(plan, before).value.c.maxQueueDepth;
      && (forall n: nat :: n < |before| ==> DepthAt(plan, before, n) <= most)
      && (most == 0 || exists n: nat :: n < |before| && DepthAt(plan, before, n) == most)
      && Reached(plan, steps).value.c.maxQueueDepth == Max(most, DepthAt(plan, steps, |steps| - 1))
    ensures var now := Reached(plan, steps).value.c.maxQueueDepth;
      && (forall n: nat :: n < |steps| ==> DepthAt(plan, steps, n) <= now)
      && (now == 0 || exists n: nat :: n < |steps| && DepthAt(plan, steps, n) == now)
  {
    hide Reached;
    var last := |steps| - 1;
    var before := steps[..last];
    forall n: nat | n < last
      ensures DepthAt(plan, steps, n) == DepthAt(plan, before, n)
    {
      DepthOfPrefix(plan, steps, last, n);
    }
  }

  lemma {:induction false} DepthOfPrefix(plan: Plan, steps: seq<Step>, last: nat, n: nat)
    requires n < last <= |steps|
    ensures DepthAt(plan, steps, n) == DepthAt(plan, steps[..last], n)
  {
    assert steps[..last][..n] == steps[..n];
  }

  lemma {:induction false} LastDepth(plan: Plan, steps: seq<Step>)
    requires steps != [] && Reached(plan, steps).Some?
    ensures var before := Reached(plan, steps[..|steps| - 1]);
      && before.Some?
      && Reached(plan, steps).value.c.maxQueueDepth
           == Max(before.value.c.maxQueueDepth, DepthAt(plan, steps, |steps| - 1))
  {
    hide After;
    hide Inv;
    var before := steps[..|steps| - 1];
    RunKeeps(plan, before);
    DepthGrows(plan, Reached(plan, before).value, steps[|steps| - 1]);
  }

  lemma {:induction false} DepthGrows(plan: Plan, s: State, step: Step)
    requires Inv(plan, s) && Enabled(plan, s, step)
    ensures After(plan, s, step).c.maxQueueDepth == Max(s.c.maxQueueDepth, DepthSeen(plan, s, step))
  {
    if IsProducerStep(step) { ProducerDepth(plan, s, step); } else { ConsumerDepth(plan, s, step); }
  }

  lemma {:induction false} ProducerDepth(plan: Plan, s: State, step: Step)
    requires s.c.maxQueueDepth <= plan.capacity && ProducerMay(plan, s, step)
    ensures AfterProducer(plan, s, step).c.maxQueueDepth == Max(s.c.maxQueueDepth, DepthSeen(plan, s, step))
  {
  }

  lemma {:induction false} ConsumerDepth(plan: Plan, s: State, step: Step)
    requires ConsumerMay(plan, s, step)
    ensures AfterConsumer(plan, s, step).c.maxQueueDepth == Max(s.c.maxQueueDepth, DepthSeen(plan, s, step))
  {
  }

  // ----- every run ends joined

  predicate Joined(s: State)
  {
    s.finished && s.consumer == Left
  }

  /** Producer steps one lot can take: offering it, posting and reading its events, sending and counting it. */
  function LotSteps(lots: seq<Lot>): nat -> nat
  {
    (i: nat) => 5 + if i < |lots| then 3 * lots[i].events else 0
  }

  function AtSteps(plan: Plan, s: State): nat
  {
    match s.at
    case NextLot => 0
    case Offering(j) => 2 * j + 1
    case Posting(j) => 2 * j + 2
    case Reading(j) => 2 * Here(plan, s) + j + 2
    case Sending => 3 * Here(plan, s) + 3
    case Enqueued => 3 * Here(plan, s) + 4
  }

  function ProducerProgress(plan: Plan, s: State): nat
  {
    UpTo(LotSteps(plan.lots), s.lot) + AtSteps(plan, s) + if s.finished then 1 else 0
  }

  function ConsumerProgress(s: State): int
  {
    4 * s.taken +
    match s.consumer
    case Waiting => 0
    case Received => -3
    case Working => -2
    case Proved => -1
    case Left => 1
  }

  function Bound(plan: Plan): nat
  {
    UpTo(LotSteps(plan.lots), |plan.lots|) + 4 * |plan.lots| + 2
  }

  /** Each step of either thread is progress of that thread alone. */
  lemma {:induction false} StepProgresses(plan: Plan, s: State, step: Step)
    requires Inv(plan, s) && Enabled(plan, s, step)
    ensures var after := After(plan, s, step);
      ProducerProgress(plan, after) + ConsumerProgress(after) > ProducerProgress(plan, s) + ConsumerProgress(s)
  {
    if IsProducerStep(step) { ProducerStepProgresses(plan, s, step); } else { ConsumerStepProgresses(plan, s, step); }
  }

  lemma {:induction false} ConsumerStepProgresses(plan: Plan, s: State, step: Step)
    requires ConsumerMay(plan, s, step)
    ensures ConsumerProgress(AfterConsumer(plan, s, step)) > ConsumerProgress(s)
    ensures ProducerProgress(plan, AfterConsumer(plan, s, step)) == ProducerProgress(plan, s)
  {
    ProducerUntouched(plan, s, step);
  }

  lemma {:induction false} ProducerUntouched(plan: Plan, s: State, step: Step)
    requires ConsumerMay(plan, s, step)
    ensures var after := AfterConsumer(plan, s, step);
      after.lot == s.lot && after.at == s.at && after.finished == s.finished
  {
  }

  lemma {:induction false} ConsumerUntouched(plan: Plan, s: State, step: Step)
    requires ProducerMay(plan, s, step)
    ensures var after := AfterProducer(plan, s, step); after.taken == s.taken && after.consumer == s.consumer
  {
  }

  lemma {:induction false} NextLotSteps(lots: seq<Lot>, i: nat)
    requires i < |lots|
    ensures UpTo(LotSteps(lots), i + 1) == UpTo(LotSteps(lots), i) + 3 * lots[i].events + 5
  {
  }

  lemma {:induction false} ProducerStepProgresses(plan: Plan, s: State, step: Step)
    requires ProducerCounts(plan, s) && ProducerMay(plan, s, step)
    ensures ProducerProgress(plan, AfterProducer(plan, s, step)) > ProducerProgress(plan, s)
    ensures ConsumerProgress(AfterProducer(plan, s, step)) == ConsumerProgress(s)
  {
    hide UpTo;
    hide LotSteps;
    ConsumerUntouched(plan, s, step);
    if s.lot < |plan.lots| { NextLotSteps(plan.lots, s.lot); }
  }

  lemma {:induction false} ProgressIsBounded(plan: Plan, s: State)
    requires Inv(plan, s)
    ensures ProducerProgress(plan, s) + ConsumerProgress(s) <= Bound(plan)
  {
    ProducerIsBounded(plan, s);
    TakenIsBounded(plan, s);
  }

  lemma {:induction false} ProducerIsBounded(plan: Plan, s: State)
    requires ProducerCounts(plan, s)
    ensures ProducerProgress(plan, s) <= UpTo(LotSteps(plan.lots), |plan.lots|) + 1
  {
    if s.lot < |plan.lots| { UpToGrows(LotSteps(plan.lots), s.lot + 1, |plan.lots|); }
  }

  lemma {:induction false} TakenIsBounded(plan: Plan, s: State)
    requires ProducerCounts(plan, s) && QueueOk(plan, s)
    ensures s.taken <= |plan.lots|
  {
    OrderIsIrrelevant(Size(plan.lots), s.sent + s.dropped, Done(s));
  }

  lemma {:induction false} ProgressCountsSteps(plan: Plan, steps: seq<Step>)
    requires Reached(plan, steps).Some?
    ensures var s := Reached(plan, steps).value; |steps| <= ProducerProgress(plan, s) + ConsumerProgress(s)
  {
    if steps != [] {
      var before := steps[..|steps| - 1];
      ProgressCountsSteps(plan, before);
      RunKeeps(plan, before);
      StepProgresses(plan, Reached(plan, before).value, steps[|steps| - 1]);
    }
  }

  /** Unless it has finished, the producer can always move: a full queue is left by stopping or timing out. */
  lemma {:induction false} ProducerCannotHang(plan: Plan, s: State) returns (step: Step)
    requires ProducerCounts(plan, s) && !s.finished
    ensures IsProducerStep(step) && ProducerMay(plan, s, step)
    ensures s.stop ==> step !in {TakeLot, Offer, Saturate, Enqueue}
  {
    step :=
      match s.at
      case NextLot => if s.lot >= |plan.lots| || s.stop then LotsEnd else TakeLot
      case Offering(j) => if j == Here(plan, s) then AllCommitted else if s.stop then PaceStops else Offer
      case Posting(_) => Commit
      case Reading(j) => if j == Here(plan, s) then AllRead else Read
      case Sending => if s.stop then QueueStops else Saturate
      case Enqueued => CountQueued;
  }

  /** Once the producer has finished, the consumer can move until it has left. */
  lemma {:induction false} ConsumerCannotHang(plan: Plan, s: State) returns (step: Step)
    requires QueueOk(plan, s) && s.finished && s.consumer != Left
    ensures !IsProducerStep(step) && ConsumerMay(plan, s, step)
  {
    step :=
      match s.consumer
      case Waiting => if s.taken < |s.sent| then Receive else QueueEnds
      case Received => CountReceived
      case Working => Proves
      case Proved => Anchors
      case Left => Receive;
  }

  /**
   * Both joins return: every run has at most `Bound(plan)` steps, and a run that cannot go on has both
   * threads finished.
   */
  lemma {:induction false} RunsEndJoined(plan: Plan, steps: seq<Step>)
    requires Reached(plan, steps).Some?
    ensures |steps| <= Bound(plan)
    ensures var s := Reached(plan, steps).value;
      (forall step :: !Enabled(plan, s, step)) <==> Joined(s)
  {
    RunKeeps(plan, steps);
    var s := Reached(plan, steps).value;
    ProgressCountsSteps(plan, steps);
    ProgressIsBounded(plan, s);
    if !s.finished {
      var step := ProducerCannotHang(plan, s);
      assert Enabled(plan, s, step);
    } else if s.consumer != Left {
      var step := ConsumerCannotHang(plan, s);
      assert Enabled(plan, s, step);
    }
  }

  // ----- why a producer ends early

  /** The stop flag is set by a failing consumer, or by one that has taken everything. */
  ghost predicate StopHasCause(plan: Plan, s: State)
  {
    && (s.stop ==> s.consumerFailed || (s.finished && s.taken == |s.sent|))
    && (s.finished && s.lot < |plan.lots| ==> s.producerFailed || s.consumerFailed)
    && (s.consumer == Left && !s.consumerFailed ==> s.finished && s.taken == |s.sent|)
  }

  lemma {:induction false} CauseStays(plan: Plan, s: State, step: Step)
    requires StopHasCause(plan, s) && Enabled(plan, s, step)
    ensures StopHasCause(plan, After(plan, s, step))
  {
    if IsProducerStep(step) { ProducerKeepsCause(plan, s, step); } else { ConsumerKeepsCause(plan, s, step); }
  }

  lemma {:induction false} ProducerKeepsCause(plan: Plan, s: State, step: Step)
    requires StopHasCause(plan, s) && ProducerMay(plan, s, step)
    ensures StopHasCause(plan, AfterProducer(plan, s, step))
  {
  }

  lemma {:induction false} ConsumerKeepsCause(plan: Plan, s: State, step: Step)
    requires StopHasCause(plan, s) && ConsumerMay(plan, s, step)
    ensures StopHasCause(plan, AfterConsumer(plan, s, step))
  {
  }

  /** In every run the producer leaves lots unoffered only after one of the threads has failed. */
  lemma {:induction false} EarlyEndHasCause(plan: Plan, steps: seq<Step>)
    requires Reached(plan, steps).Some?
    ensures StopHasCause(plan, Reached(plan, steps).value)
  {
    if steps != [] {
      var before := steps[..|steps| - 1];
      EarlyEndHasCause(plan, before);
      CauseStays(plan, Reached(plan, before).value, steps[|steps| - 1]);
    }
  }

  // ----- closing the seed

  function RowIndices(rows: seq<Row>): seq<nat>
  {
    seq(|rows|, k requires 0 <= k < |rows| => rows[k].index)
  }

  function CountOk(rows: seq<Row>): nat
  {
    if rows == [] then 0 else CountOk(rows[..|rows| - 1]) + if rows[|rows| - 1].status == Anchored then 1 else 0
  }

  function OkEvents(rows: seq<Row>): nat
  {
    if rows == [] then 0
    else
      var last := rows[|rows| - 1];
      OkEvents(rows[..|rows| - 1]) + if last.status == Anchored then last.events else 0
  }

  function RowEvents(rows: seq<Row>): nat
  {
    if rows == [] then 0 else RowEvents(rows[..|rows| - 1]) + rows[|rows| - 1].events
  }

  function CountSaturated(rows: seq<Row>): nat
  {
    if rows == [] then 0
    else CountSaturated(rows[..|rows| - 1]) + if rows[|rows| - 1].stage == QueueSaturated then 1 else 0
  }

  /** The row of a lot that was never received. */
  function UnrecordedRow(plan: Plan, s: State, i: nat): Row
  {
    var committed := i < s.c.committedLots;
    Row(i, Size(plan.lots)(i), if committed then Failed else NotOffered,
        if i in s.failures then s.failures[i] else if committed then ConsumerStopped else ProducerStopped)
  }

  ghost predicate Recorded(rows: seq<Row>, i: nat)
  {
    exists k: nat :: k < |rows| && rows[k].index == i
  }

  /** Rows of the lots below `n`, after those the consumer wrote. */
  ghost predicate Complemented(plan: Plan, s: State, rows: seq<Row>, n: nat)
  {
    && s.rows <= rows
    && (forall k: nat :: |s.rows| <= k < |rows| ==>
         rows[k] == UnrecordedRow(plan, s, rows[k].index) && rows[k].index < n)
    && (forall i: nat :: i < n || Recorded(s.rows, i) <==> Recorded(rows, i))
    && NoRepeats(RowIndices(rows))
  }

  /** The loop over the planned lots that have no row yet. */
  method WriteUnrecorded(plan: Plan, s: State) returns (rows: seq<Row>)
    requires NoRepeats(RowIndices(s.rows))
    ensures Complemented(plan, s, rows, |plan.lots|)
  {
    rows := s.rows;
    for i := 0 to |plan.lots|
      invariant Complemented(plan, s, rows, i)
    {
      if exists k | 0 <= k < |s.rows| :: s.rows[k].index == i { continue; }
      ghost var before := rows;
      rows := rows + [UnrecordedRow(plan, s, i)];
      assert !Recorded(before, i);
      RowAdded(before, UnrecordedRow(plan, s, i));
    }
  }

  lemma {:induction false} RowAdded(rows: seq<Row>, row: Row)
    requires NoRepeats(RowIndices(rows)) && !Recorded(rows, row.index)
    ensures NoRepeats(RowIndices(rows + [row]))
    ensures forall i: nat :: Recorded(rows + [row], i) <==> Recorded(rows, i) || i == row.index
  {
    var more := rows + [row];
    assert forall k: nat :: k < |rows| ==> more[k] == rows[k] && RowIndices(more)[k] == RowIndices(rows)[k];
    assert more[|rows|] == row;
    forall a: nat, b: nat | a < b < |more|
      ensures RowIndices(more)[a] != RowIndices(more)[b]
    {
      assert Recorded(rows, rows[a].index);
    }
  }

  lemma {:induction false} RowsOfEachLot(plan: Plan, s: State, rows: seq<Row>)
    requires Inv(plan, s) && Complemented(plan, s, rows, |plan.lots|)
    ensures EachOnce(RowIndices(rows), |plan.lots|)
  {
    OneMoreOnce(s.sent, s.dropped, Done(s));
    assert forall k: nat :: k < |s.rows| ==> s.rows[k].index == s.sent[k] && s.sent[k] in s.sent;
    forall i: nat
      ensures i in RowIndices(rows) <==> i < |plan.lots|
    {
      if Recorded(rows, i) {
        var k: nat :| k < |rows| && rows[k].index == i;
        assert RowIndices(rows)[k] == i;
      }
      if i in RowIndices(rows) {
        var k: nat :| k < |rows| && RowIndices(rows)[k] == i;
        assert rows[k].index == i;
      }
    }
  }

  lemma {:induction false} WrittenRowsDiffer(plan: Plan, s: State)
    requires Inv(plan, s)
    ensures NoRepeats(RowIndices(s.rows))
  {
    assert forall k: nat :: k < |s.rows| ==> RowIndices(s.rows)[k] == s.sent[k] == (s.sent + s.dropped)[k];
  }

  lemma {:induction false} RowEventsAreWeights(plan: Plan, rows: seq<Row>)
    requires forall k: nat :: k < |rows| ==> rows[k].events == Size(plan.lots)(rows[k].index)
    ensures RowEvents(rows) == Weighted(Size(plan.lots), RowIndices(rows))
  {
    if rows != [] {
      RowEventsAreWeights(plan, rows[..|rows| - 1]);
      assert RowIndices(rows)[..|rows| - 1] == RowIndices(rows[..|rows| - 1]);
    }
  }

  /** The first `n` rows are anchored and no later one is. */
  lemma {:induction false} AnchoredPrefixCounts(plan: Plan, rows: seq<Row>, sent: seq<nat>, n: nat)
    requires n <= |rows| && n <= |sent|
    requires forall k: nat :: k < n ==>
      rows[k].status == Anchored && rows[k].index == sent[k] && rows[k].events == Size(plan.lots)(sent[k])
    requires forall k: nat :: n <= k < |rows| ==> rows[k].status != Anchored
    ensures CountOk(rows) == n && OkEvents(rows) == Weighted(Size(plan.lots), sent[..n])
  {
    if rows != [] {
      var m := |rows| - 1;
      if n > m {
        AnchoredPrefixCounts(plan, rows[..m], sent, m);
        assert sent[..n][..m] == sent[..m];
      } else {
        AnchoredPrefixCounts(plan, rows[..m], sent, n);
      }
    }
  }

  function Indicator(members: seq<nat>): nat -> nat
  {
    (i: nat) => if i in members then 1 else 0
  }

  lemma {:induction false} SaturatedAreWeights(rows: seq<Row>, dropped: seq<nat>)
    requires forall k: nat :: k < |rows| ==> (rows[k].stage == QueueSaturated <==> rows[k].index in dropped)
    ensures CountSaturated(rows) == Weighted(Indicator(dropped), RowIndices(rows))
  {
    if rows != [] {
      SaturatedAreWeights(rows[..|rows| - 1], dropped);
      assert RowIndices(rows)[..|rows| - 1] == RowIndices(rows[..|rows| - 1]);
    }
  }

  lemma {:induction false} DroppedIsCounted(plan: Plan, s: State)
    requires Inv(plan, s)
    ensures UpTo(Indicator(s.dropped), |plan.lots|) == s.c.saturatedLots
  {
    var weight := Indicator(s.dropped);
    OneMoreOnce(s.sent, s.dropped, Done(s));
    ConstantWeight(weight, s.sent, 0);
    ConstantWeight(weight, s.dropped, 1);
    WeightedConcat(weight, s.sent, s.dropped);
    OrderIsIrrelevant(weight, s.sent + s.dropped, Done(s));
    NothingBeyond(weight, Done(s), |plan.lots|);
  }

  /** Each row's stage says saturated exactly for the lots the queue refused. */
  lemma {:induction false} SaturatedRows(plan: Plan, s: State, rows: seq<Row>)
    requires Inv(plan, s) && Complemented(plan, s, rows, |plan.lots|)
    ensures CountSaturated(rows) == s.c.saturatedLots
  {
    OneMoreOnce(s.sent, s.dropped, Done(s));
    forall k: nat | k < |rows|
      ensures rows[k].stage == QueueSaturated <==> rows[k].index in s.dropped
    {
      if k < |s.rows| { assert rows[k] == s.rows[k] && s.sent[k] in s.sent; }
    }
    SaturatedAreWeights(rows, s.dropped);
    RowsOfEachLot(plan, s, rows);
    OrderIsIrrelevant(Indicator(s.dropped), RowIndices(rows), |plan.lots|);
    DroppedIsCounted(plan, s);
  }

  lemma {:induction false} OkRows(plan: Plan, s: State, rows: seq<Row>)
    requires Inv(plan, s) && Complemented(plan, s, rows, |plan.lots|)
    ensures CountOk(rows) == s.c.anchoredLots && OkEvents(rows) == s.c.anchoredEvents
  {
    forall k: nat | k < |rows|
      ensures k < s.c.anchoredLots ==>
        rows[k].status == Anchored && rows[k].index == s.sent[k] && rows[k].events == Size(plan.lots)(s.sent[k])
      ensures k >= s.c.anchoredLots ==> rows[k].status != Anchored
    {
      if k < |s.rows| { assert rows[k] == s.rows[k]; }
    }
    AnchoredPrefixCounts(plan, rows, s.sent, s.c.anchoredLots);
  }

  lemma {:induction false} AllRowEvents(plan: Plan, s: State, rows: seq<Row>)
    requires Inv(plan, s) && Complemented(plan, s, rows, |plan.lots|)
    ensures |rows| == |plan.lots| && RowEvents(rows) == UpTo(Size(plan.lots), |plan.lots|)
  {
    forall k: nat | k < |rows|
      ensures rows[k].events == Size(plan.lots)(rows[k].index)
    {
      if k < |s.rows| { assert rows[k] == s.rows[k]; }
    }
    RowEventsAreWeights(plan, rows);
    RowsOfEachLot(plan, s, rows);
    OrderIsIrrelevant(Size(plan.lots), RowIndices(rows), |plan.lots|);
  }

  // ----- the terminal record and the analyzer's checks

  datatype SeedStatus = SeedComplete | SeedFailed | SeedPartial

  datatype Terminal = Terminal(scheduledLots: nat, scheduledEvents: nat, c: Counters, status: SeedStatus)

  function LotChain(t: Terminal): seq<nat>
  {
    [t.scheduledLots, t.c.offeredLots, t.c.committedLots, t.c.readbackLots, t.c.queuedLots, t.c.receivedLots,
     t.c.provedLots, t.c.anchoredLots]
  }

  function EventChain(t: Terminal): seq<nat>
  {
    [t.scheduledEvents, t.c.offeredEvents, t.c.committedEvents, t.c.readbackEvents, t.c.provedEvents,
     t.c.anchoredEvents]
  }

  predicate Descends(counts: seq<nat>)
  {
    forall k: nat :: k + 1 < |counts| ==> counts[k] >= counts[k + 1]
  }

  /** The per-seed accounting checks of `analyze_records`. */
  predicate AnalyzerAccepts(capacity: nat, rows: seq<Row>, t: Terminal)
  {
    && |rows| == t.scheduledLots && RowEvents(rows) == t.scheduledEvents
    && t.c.anchoredLots == CountOk(rows) && t.c.anchoredEvents == OkEvents(rows)
         && t.c.saturatedLots == CountSaturated(rows)
    && Descends(LotChain(t)) && Descends(EventChain(t)) && t.c.maxQueueDepth <= capacity
  }

  /** The analyzer's checks, spelled out. */
  lemma {:induction false} AnalyzerAcceptsExactly(capacity: nat, rows: seq<Row>, t: Terminal)
    ensures AnalyzerAccepts(capacity, rows, t) <==>
      && |rows| == t.scheduledLots && RowEvents(rows) == t.scheduledEvents
      && t.c.anchoredLots == CountOk(rows) && t.c.anchoredEvents == OkEvents(rows)
      && t.c.saturatedLots == CountSaturated(rows) && t.c.maxQueueDepth <= capacity
      && t.scheduledLots >= t.c.offeredLots >= t.c.committedLots >= t.c.readbackLots >= t.c.queuedLots
           >= t.c.receivedLots >= t.c.provedLots >= t.c.anchoredLots
      && t.scheduledEvents >= t.c.offeredEvents >= t.c.committedEvents >= t.c.readbackEvents >= t.c.provedEvents
           >= t.c.anchoredEvents
  {
    var lots, events := LotChain(t), EventChain(t);
    assert Descends(lots) ==>
      lots[0] >= lots[1] >= lots[2] >= lots[3] >= lots[4] >= lots[5] >= lots[6] >= lots[7];
    assert Descends(events) ==> events[0] >= events[1] >= events[2] >= events[3] >= events[4] >= events[5];
  }

  function TerminalOf(plan: Plan, s: State): Terminal
  {
    var lots, events := |plan.lots|, UpTo(Size(plan.lots), |plan.lots|);
    var complete := && lots > 0 && s.c.anchoredLots == lots && s.c.offeredEvents == events
                    && s.c.saturatedLots == 0 && !s.consumerFailed && !s.producerFailed;
    Terminal(lots, events, s.c,
             if complete then SeedComplete
             else if s.consumerFailed || s.producerFailed then SeedFailed else SeedPartial)
  }

  lemma {:induction false} PrefixWeight(weight: nat -> nat, indices: seq<nat>, m: nat, n: nat)
    requires m <= n <= |indices|
    ensures Weighted(weight, indices[..m]) <= Weighted(weight, indices[..n])
  {
    if m < n {
      PrefixWeight(weight, indices, m, n - 1);
      assert indices[..n][..n - 1] == indices[..n - 1];
    }
  }

  /** Everything proved was read back. */
  lemma {:induction false} ProvedWasReadBack(plan: Plan, s: State)
    requires Inv(plan, s) && Joined(s)
    ensures s.c.anchoredEvents <= s.c.provedEvents <= s.c.readbackEvents
  {
    var size := Size(plan.lots);
    PrefixWeight(size, s.sent, s.c.anchoredLots, s.c.provedLots);
    PrefixWeight(size, s.sent, s.c.provedLots, |s.sent|);
    assert s.sent[..|s.sent|] == s.sent;
    WeightedConcat(size, s.sent, s.dropped);
    OrderIsIrrelevant(size, s.sent + s.dropped, Done(s));
  }

  lemma {:induction false} OfferedWasScheduled(plan: Plan, s: State)
    requires ProducerCounts(plan, s)
    ensures s.c.readbackEvents <= s.c.committedEvents <= s.c.offeredEvents <= UpTo(Size(plan.lots), |plan.lots|)
  {
    var size := Size(plan.lots);
    UpToGrows(size, s.lot, |plan.lots|);
    if s.lot < |plan.lots| { UpToGrows(size, s.lot + 1, |plan.lots|); }
  }

  lemma {:induction false} EventsDescend(plan: Plan, s: State)
    requires Inv(plan, s) && Joined(s)
    ensures Descends(EventChain(TerminalOf(plan, s)))
  {
    ProvedWasReadBack(plan, s);
    OfferedWasScheduled(plan, s);
  }

  lemma {:induction false} LotsDescend(plan: Plan, s: State)
    requires Inv(plan, s) && Joined(s)
    ensures Descends(LotChain(TerminalOf(plan, s)))
  {
    hide EachOnce;
    hide Weighted;
    hide RowsOk;
    hide FailuresOk;
    OrderIsIrrelevant(Size(plan.lots), s.sent + s.dropped, Done(s));
  }

  lemma {:induction false} AllOkExactly(rows: seq<Row>)
    ensures CountOk(rows) <= |rows|
    ensures CountOk(rows) == |rows| <==> forall row :: row in rows ==> row.status == Anchored
    ensures CountOk(rows) == |rows| ==> OkEvents(rows) == RowEvents(rows)
  {
    if rows != [] {
      AllOkExactly(rows[..|rows| - 1]);
      assert rows == rows[..|rows| - 1] + [rows[|rows| - 1]];
    }
  }

  /** With a failed thread some row is not anchored. */
  lemma {:induction false} FailureShows(plan: Plan, s: State, rows: seq<Row>)
    requires Inv(plan, s) && Complemented(plan, s, rows, |plan.lots|) && (s.consumerFailed || s.producerFailed)
    ensures exists row :: row in rows && row.status != Anchored
  {
    if s.consumerFailed {
      var k := |s.rows| - 1;
      assert rows[k] == s.rows[k] && rows[k] in rows;
    } else {
      OneMoreOnce(s.sent, s.dropped, Done(s));
      assert forall k: nat :: k < |s.rows| ==> rows[k] == s.rows[k] && s.sent[k] in s.sent && rows[k].index != s.lot;
      assert Recorded(rows, s.lot);
      var k: nat :| k < |rows| && rows[k].index == s.lot;
      assert rows[k] in rows;
    }
  }

  /**
   * The end of a seed: one row for every planned lot, a terminal record the analyzer accepts, and the
   * seed is complete exactly when it has lots and every one of them was anchored.
   */
  method CloseSeed(plan: Plan, s: State) returns (rows: seq<Row>, terminal: Terminal)
    requires Inv(plan, s) && Joined(s)
    ensures EachOnce(RowIndices(rows), |plan.lots|) && s.rows <= rows
    ensures terminal == TerminalOf(plan, s) && AnalyzerAccepts(plan.capacity, rows, terminal)
    ensures terminal.status == SeedComplete ==> plan.lots != [] && forall row :: row in rows ==> row.status == Anchored
    ensures plan.lots != [] && (forall row :: row in rows ==> row.status == Anchored) ==>
        terminal.status == SeedComplete
    ensures terminal.status == SeedFailed <==> exists row :: row in rows && NamesFailure(row.stage)
    ensures forall row :: row in rows ==> (row.status == NotOffered <==> row.index >= s.c.committedLots)
    ensures CountNotOffered(rows) + s.c.committedLots == |plan.lots|
    ensures forall k: nat :: |s.rows| <= k < |rows| ==> (rows[k].status, rows[k].stage) == Fate(s, rows[k].index)
  {
    WrittenRowsDiffer(plan, s);
    rows := WriteUnrecorded(plan, s);
    terminal := TerminalOf(plan, s);
    RowsOfEachLot(plan, s, rows);
    AllRowEvents(plan, s, rows);
    OkRows(plan, s, rows);
    SaturatedRows(plan, s, rows);
    LotsDescend(plan, s);
    EventsDescend(plan, s);
    AllOkExactly(rows);
    CompleteExactly(plan, s, rows);
    FailedExactly(plan, s, rows);
    NotOfferedExactly(plan, s, rows);
    Fates(plan, s, rows);
  }

  /** What became of a lot without a row of its own, by where the two threads left it. */
  function Fate(s: State, i: nat): (Status, Stage)
  {
    if i in s.dropped then (Failed, QueueSaturated)
    else if i in s.sent then (Failed, ConsumerStopped)
    else if i == s.lot then
      match s.at
      case Posting(_) => (NotOffered, Fabric)
      case Reading(_) => (Failed, FabricReadback)
      case Sending => (Failed, QueueStopped)
      case _ => (NotOffered, ProducerStopped)
    else (NotOffered, ProducerStopped)
  }

  lemma {:induction false} Fates(plan: Plan, s: State, rows: seq<Row>)
    requires Inv(plan, s) && Joined(s) && Complemented(plan, s, rows, |plan.lots|)
    ensures forall k: nat :: |s.rows| <= k < |rows| ==> (rows[k].status, rows[k].stage) == Fate(s, rows[k].index)
  {
    hide ConsumerOk;
    hide RowsOk;
    OneMoreOnce(s.sent, s.dropped, Done(s));
  }

  /** The stages of a failed thread. */
  predicate NamesFailure(stage: Stage)
  {
    stage in {Witness, Prove, Anchor, Fabric, FabricReadback}
  }

  lemma {:induction false} LastRowFailed(plan: Plan, s: State) returns (k: nat)
    requires Inv(plan, s) && s.consumerFailed
    ensures k < |s.rows| && NamesFailure(s.rows[k].stage)
  {
    k := |s.rows| - 1;
    assert s.rows[k].status == Failed && StageFits(s.rows[k]);
  }

  lemma {:induction false} FailureNamed(plan: Plan, s: State, rows: seq<Row>) returns (row: Row)
    requires Inv(plan, s) && Joined(s) && Complemented(plan, s, rows, |plan.lots|)
    requires s.consumerFailed || s.producerFailed
    ensures row in rows && NamesFailure(row.stage)
  {
    hide ProducerCounts;
    hide ConsumerOk;
    if s.consumerFailed {
      var k := LastRowFailed(plan, s);
      assert rows[k] == s.rows[k];
      row := rows[k];
    } else {
      LastLotUnrecorded(plan, s);
      OneMoreOnce(s.sent, s.dropped, Done(s));
      assert Recorded(rows, s.lot);
      var k: nat :| k < |rows| && rows[k].index == s.lot;
      assert forall j: nat :: j < |s.rows| ==> rows[j] == s.rows[j];
      row := rows[k];
    }
  }

  lemma {:induction false} NoFailureNamed(plan: Plan, s: State, rows: seq<Row>, k: nat)
    requires Inv(plan, s) && Joined(s) && Complemented(plan, s, rows, |plan.lots|) && k < |rows|
    requires !s.consumerFailed && !s.producerFailed
    ensures !NamesFailure(rows[k].stage)
  {
    hide ProducerCounts;
    hide QueueCounts;
    if k < |s.rows| { assert rows[k] == s.rows[k]; } else { Fates(plan, s, rows); }
  }

  lemma {:induction false} FailedExactly(plan: Plan, s: State, rows: seq<Row>)
    requires Inv(plan, s) && Joined(s) && Complemented(plan, s, rows, |plan.lots|)
    ensures TerminalOf(plan, s).status == SeedFailed <==> exists row :: row in rows && NamesFailure(row.stage)
  {
    hide Inv;
    hide NamesFailure;
    if s.consumerFailed || s.producerFailed {
      var row := FailureNamed(plan, s, rows);
    } else {
      forall row | row in rows
        ensures !NamesFailure(row.stage)
      {
        var k: nat :| k < |rows| && rows[k] == row;
        NoFailureNamed(plan, s, rows, k);
      }
    }
  }

  lemma {:induction false} LastLotUnrecorded(plan: Plan, s: State)
    requires Inv(plan, s) && s.at != Enqueued
    ensures !Recorded(s.rows, s.lot)
  {
    OneMoreOnce(s.sent, s.dropped, Done(s));
    assert forall k: nat :: k < |s.rows| ==> s.rows[k].index == s.sent[k] && s.sent[k] in s.sent;
  }

  function CountNotOffered(rows: seq<Row>): nat
  {
    if rows == [] then 0
    else CountNotOffered(rows[..|rows| - 1]) + if rows[|rows| - 1].status == NotOffered then 1 else 0
  }

  lemma {:induction false} NotOfferedAreWeights(rows: seq<Row>, n: nat)
    requires forall k: nat :: k < |rows| ==> (rows[k].status == NotOffered <==> rows[k].index >= n)
    ensures CountNotOffered(rows) == Weighted(From(n), RowIndices(rows))
  {
    if rows != [] {
      NotOfferedAreWeights(rows[..|rows| - 1], n);
      assert RowIndices(rows)[..|rows| - 1] == RowIndices(rows[..|rows| - 1]);
    }
  }

  function From(n: nat): nat -> nat
  {
    (i: nat) => if i >= n then 1 else 0
  }

  lemma {:induction false} CountFrom(n: nat, m: nat)
    requires n <= m
    ensures UpTo(From(n), m) == m - n
  {
    if n < m { CountFrom(n, m - 1); } else { NothingBelow(n, m); }
  }

  lemma {:induction false} NothingBelow(n: nat, m: nat)
    requires m <= n
    ensures UpTo(From(n), m) == 0
  {
    if m > 0 { NothingBelow(n, m - 1); }
  }

  /** The rows that say not offered are those of the lots that were not fully committed. */
  lemma {:induction false} NotOfferedExactly(plan: Plan, s: State, rows: seq<Row>)
    requires Inv(plan, s) && Joined(s) && Complemented(plan, s, rows, |plan.lots|)
    ensures forall row :: row in rows ==> (row.status == NotOffered <==> row.index >= s.c.committedLots)
    ensures CountNotOffered(rows) + s.c.committedLots == |plan.lots|
  {
    hide ConsumerOk;
    OneMoreOnce(s.sent, s.dropped, Done(s));
    forall k: nat | k < |rows|
      ensures rows[k].status == NotOffered <==> rows[k].index >= s.c.committedLots
    {
      if k < |s.rows| { assert rows[k] == s.rows[k] && s.sent[k] in s.sent; }
    }
    NotOfferedAreWeights(rows, s.c.committedLots);
    RowsOfEachLot(plan, s, rows);
    OrderIsIrrelevant(From(s.c.committedLots), RowIndices(rows), |plan.lots|);
    CountFrom(s.c.committedLots, |plan.lots|);
  }

  lemma {:induction false} CompleteExactly(plan: Plan, s: State, rows: seq<Row>)
    requires Inv(plan, s) && Complemented(plan, s, rows, |plan.lots|)
        && AnalyzerAccepts(plan.capacity, rows, TerminalOf(plan, s))
    ensures TerminalOf(plan, s).status == SeedComplete ==> CountOk(rows) == |rows| > 0
    ensures CountOk(rows) == |rows| > 0 ==> TerminalOf(plan, s).status == SeedComplete
  {
    AllOkExactly(rows);
    var t := TerminalOf(plan, s);
    if CountOk(rows) == |rows| {
      if s.consumerFailed || s.producerFailed { FailureShows(plan, s, rows); }
      AnchoredNotSaturated(plan, s, rows);
      var events := EventChain(t);
      assert events[0] >= events[1] >= events[2] >= events[3] >= events[4] >= events[5];
    }
  }

  lemma {:induction false} AnchoredNotSaturated(plan: Plan, s: State, rows: seq<Row>)
    requires Inv(plan, s) && Complemented(plan, s, rows, |plan.lots|) && forall row :: row in rows ==>
        row.status == Anchored
    ensures CountSaturated(rows) == 0
  {
    forall k: nat | k < |rows|
      ensures rows[k].stage != QueueSaturated
    {
      assert rows[k] in rows;
      if k < |s.rows| { assert rows[k] == s.rows[k]; }
    }
    NoneSaturated(rows);
  }

  lemma {:induction false} NoneSaturated(rows: seq<Row>)
    requires forall k: nat :: k < |rows| ==> rows[k].stage != QueueSaturated
    ensures CountSaturated(rows) == 0
  {
    if rows != [] { NoneSaturated(rows[..|rows| - 1]); }
  }

  /** A seed ends partial exactly when no thread failed and it has no lots or the queue refused some. */
  lemma {:induction false} PartialExactly(plan: Plan, steps: seq<Step>)
    requires Reached(plan, steps).Some? && Joined(Reached(plan, steps).value)
    ensures var s := Reached(plan, steps).value;
      TerminalOf(plan, s).status == SeedPartial <==>
        !s.consumerFailed && !s.producerFailed && (plan.lots == [] || s.c.saturatedLots > 0)
  {
    RunKeeps(plan, steps);
    EarlyEndHasCause(plan, steps);
    var s := Reached(plan, steps).value;
    OrderIsIrrelevant(Size(plan.lots), s.sent + s.dropped, Done(s));
  }

  /** The stage a failing step of the consumer names. */
  function StageOf(step: Step): Option<Stage>
  {
    match step
    case WitnessFails => Some(Witness)
    case ProveFails => Some(Prove)
    case AnchorFails => Some(Anchor)
    case _ => None
  }

  /** When the consumer failed, its last row names the stage of the step that failed, for the lot it held. */
  lemma {:induction false} FailedRowNamesStep(plan: Plan, steps: seq<Step>)
    requires Reached(plan, steps).Some? && Reached(plan, steps).value.consumerFailed
    ensures var s := Reached(plan, steps).value;
      && s.rows != [] && 0 < s.taken <= |s.sent|
      && s.rows[|s.rows| - 1].index == s.sent[s.taken - 1]
      && exists step :: step in steps && StageOf(step) == Some(s.rows[|s.rows| - 1].stage)
  {
    hide Inv;
    hide After;
    hide Enabled;
    if steps != [] {
      var last := |steps| - 1;
      var before := steps[..last];
      assert steps == before + [steps[last]];
      RunKeeps(plan, before);
      var s := Reached(plan, before).value;
      if s.consumerFailed { FailedRowNamesStep(plan, before); }
      LastRowStays(plan, s, steps[last]);
    }
  }

  lemma {:induction false} LastRowStays(plan: Plan, s: State, step: Step)
    requires Inv(plan, s) && Enabled(plan, s, step) && After(plan, s, step).consumerFailed
    ensures var after := After(plan, s, step);
      if s.consumerFailed then s.sent <= after.sent && after.rows == s.rows && after.taken == s.taken
      else
        && after.rows != [] && 0 < after.taken <= |after.sent|
        && after.rows[|after.rows| - 1].index == after.sent[after.taken - 1]
        && StageOf(step) == Some(after.rows[|after.rows| - 1].stage)
  {
    if IsProducerStep(step) { ProducerLeavesRows(plan, s, step); } else { ConsumerLastRow(plan, s, step); }
  }

  lemma {:induction false} ProducerLeavesRows(plan: Plan, s: State, step: Step)
    requires ProducerMay(plan, s, step)
    ensures var after := AfterProducer(plan, s, step);
      && s.sent <= after.sent && after.rows == s.rows && after.taken == s.taken
      && after.consumerFailed == s.consumerFailed
  {
  }

  lemma {:induction false} ConsumerLastRow(plan: Plan, s: State, step: Step)
    requires ConsumerOk(plan, s) && ConsumerMay(plan, s, step) && AfterConsumer(plan, s, step).consumerFailed
    ensures !s.consumerFailed
    ensures var after := AfterConsumer(plan, s, step);
      && after.rows != [] && 0 < after.taken <= |after.sent|
      && after.rows[|after.rows| - 1].index == after.sent[after.taken - 1]
      && StageOf(step) == Some(after.rows[|after.rows| - 1].stage)
  {
  }
}
