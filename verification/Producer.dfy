/**
 * Parallel ingestion with in-order release: up to 32 workers acknowledge leaves inside a sliding
 * window while a coordinator releases them in order through a bounded channel.  Every thread
 * interleaving is a sequence of the steps below; `released` is read and written one atomic at a time.
 */
module Producer {
  import opened Primitives
  import opened Sequences
  import opened Workload

  const WORKERS: nat := 32
  const WINDOW: nat := 64
  const CHANNEL: nat := 32

  /** The leaves in order, the epoch closed by each epoch's last leaf, and each worker's share. */
  datatype Plan = Plan(leaves: seq<LeafTask>, ends: map<nat, U64>, shares: seq<seq<nat>>)

  // ----- round-robin assignment

  ghost predicate Shares(shares: seq<seq<nat>>, count: nat)
  {
    && shares != []
    && (forall w: nat :: w < |shares| ==> Ascending(shares[w]))
    && (forall w: nat, x :: w < |shares| && x in shares[w] ==> x < count && x % |shares| == w)
    && (forall x: nat :: x < count ==> x in shares[x % |shares|])
  }

  ghost predicate ValidPlan(plan: Plan)
  {
    Shares(plan.shares, |plan.leaves|)
  }

  lemma {:induction false} ShareOneMore(shares: seq<seq<nat>>, count: nat)
    requires Shares(shares, count)
    ensures count % |shares| < |shares|
    ensures Shares(shares[count % |shares| := shares[count % |shares|] + [count]], count + 1)
  {
    var w := count % |shares|;
    var grown := shares[w := shares[w] + [count]];
    forall v: nat | v < |grown|
      ensures Ascending(grown[v])
    {
      assert forall a: nat :: a < |shares[v]| ==> shares[v][a] in shares[v];
    }
    forall x: nat | x < count + 1
      ensures x in grown[x % |grown|]
    {
      if x < count { assert x in shares[x % |shares|]; }
    }
  }

  function LeafMessages(leaves: seq<LeafTask>): seq<Message>
  {
    seq(|leaves|, k requires 0 <= k < |leaves| => LeafMessage(leaves[k]))
  }

  predicate NoneEmpty(tasks: seq<seq<LeafTask>>)
  {
    forall k: nat :: k < |tasks| ==> tasks[k] != []
  }

  /** What the consumer should receive: each epoch's leaves in order, then the epoch's end. */
  function Script(tasks: seq<seq<LeafTask>>): seq<Message>
    requires NoneEmpty(tasks)
  {
    if tasks == [] then []
    else
      var last := tasks[|tasks| - 1];
      Script(tasks[..|tasks| - 1]) + LeafMessages(last) + [EpochEnd(last[0].epochId)]
  }

  /** The messages released with leaf `n`. */
  function Released(leaves: seq<LeafTask>, ends: map<nat, U64>, n: nat): seq<Message>
    requires n < |leaves|
  {
    [LeafMessage(leaves[n])] + if n in ends then [EpochEnd(ends[n])] else []
  }

  function ScriptUpTo(leaves: seq<LeafTask>, ends: map<nat, U64>, n: nat): seq<Message>
    requires n <= |leaves|
  {
    if n == 0 then [] else ScriptUpTo(leaves, ends, n - 1) + Released(leaves, ends, n - 1)
  }

  lemma {:induction false} ScriptFrame(leaves: seq<LeafTask>, more: seq<LeafTask>, ends: map<nat, U64>,
                                       changed: map<nat, U64>, n: nat)
    requires n <= |leaves| && leaves <= more
    requires forall i: nat :: i < n ==> (i in ends <==> i in changed) && (i in ends ==> ends[i] == changed[i])
    ensures ScriptUpTo(more, changed, n) == ScriptUpTo(leaves, ends, n)
  {
    if n != 0 { ScriptFrame(leaves, more, ends, changed, n - 1); }
  }

  lemma {:induction false} ScriptPrefix(leaves: seq<LeafTask>, ends: map<nat, U64>, m: nat, n: nat)
    requires m <= n <= |leaves|
    ensures ScriptUpTo(leaves, ends, m) <= ScriptUpTo(leaves, ends, n)
  {
    if m < n { ScriptPrefix(leaves, ends, m, n - 1); }
  }

  /** An epoch's leaves without an end add exactly their own messages. */
  lemma {:induction false} ScriptLeaves(leaves: seq<LeafTask>, ends: map<nat, U64>, m: nat, n: nat)
    requires m <= n <= |leaves| && forall i: nat :: m <= i < n ==> i !in ends
    ensures ScriptUpTo(leaves, ends, n) == ScriptUpTo(leaves, ends, m) + LeafMessages(leaves[m..n])
  {
    if m < n {
      ScriptLeaves(leaves, ends, m, n - 1);
      assert leaves[m..n] == leaves[m..n - 1] + [leaves[n - 1]];
      assert LeafMessages(leaves[m..n]) == LeafMessages(leaves[m..n - 1]) + [LeafMessage(leaves[n - 1])];
    }
  }

  lemma {:induction false} EpochScript(leaves: seq<LeafTask>, ends: map<nat, U64>, epoch: seq<LeafTask>, m: nat)
    requires epoch != [] && m + |epoch| == |leaves| && leaves[m..] == epoch && forall i :: i in ends ==> i < m
    ensures ScriptUpTo(leaves, ends[|leaves| - 1 := epoch[0].epochId], |leaves|)
         == ScriptUpTo(leaves, ends, m) + LeafMessages(epoch) + [EpochEnd(epoch[0].epochId)]
  {
    var n := |leaves| - 1;
    var closed := ends[n := epoch[0].epochId];
    ScriptLeaves(leaves, ends, m, n);
    ScriptFrame(leaves, leaves, ends, closed, n);
    assert leaves[m..n] == epoch[..|epoch| - 1] && leaves[n] == epoch[|epoch| - 1];
    assert LeafMessages(epoch) == LeafMessages(epoch[..|epoch| - 1]) + [LeafMessage(leaves[n])];
  }

  lemma {:induction false} EpochAssigned(tasks: seq<seq<LeafTask>>, e: nat, before: seq<LeafTask>, ends: map<nat, U64>)
    requires e < |tasks| && tasks[e] != [] && NoneEmpty(tasks[..e]) && before == Flatten(tasks[..e])
    requires (forall i :: i in ends ==> i < |before|) && ScriptUpTo(before, ends, |before|) == Script(tasks[..e])
    ensures NoneEmpty(tasks[..e + 1]) && before + tasks[e] == Flatten(tasks[..e + 1])
    ensures var leaves := before + tasks[e];
      ScriptUpTo(leaves, ends[|leaves| - 1 := tasks[e][0].epochId], |leaves|) == Script(tasks[..e + 1])
  {
    var leaves := before + tasks[e];
    assert tasks[..e + 1][..e] == tasks[..e] && leaves[|before|..] == tasks[e];
    ScriptFrame(before, leaves, ends, ends, |before|);
    EpochScript(leaves, ends, tasks[e], |before|);
  }

  /** The inner loop: hands `count` leaves from index `first` on to the workers in turn. */
  method AssignEpoch(shares: seq<seq<nat>>, first: nat, count: nat) returns (grown: seq<seq<nat>>)
    requires Shares(shares, first)
    ensures |grown| == |shares| && Shares(grown, first + count)
  {
    grown := shares;
    for index := first to first + count
      invariant |grown| == |shares| && Shares(grown, index)
    {
      ShareOneMore(grown, index);
      var w := index % |shares|;
      grown := grown[w := grown[w] + [index]];
    }
  }

  /** The opening loop of `produce`: leaves go to workers in turn and each epoch's last index is recorded. */
  method Assign(tasks: seq<seq<LeafTask>>) returns (r: Option<Plan>)
    ensures r.Some? <==> NoneEmpty(tasks)
    ensures r.Some? ==>
      && r.value.leaves == Flatten(tasks) && ValidPlan(r.value)
      && |r.value.shares| == (if r.value.leaves == [] then 1
                              else if |r.value.leaves| < 32 then |r.value.leaves| else 32)
      && ScriptUpTo(r.value.leaves, r.value.ends, |r.value.leaves|) == Script(tasks)
  {
    var total := |Flatten(tasks)|;
    var workers := if total < 1 then 1 else if total < WORKERS then total else WORKERS;
    var shares: seq<seq<nat>> := seq(workers, _ => []);
    var leaves: seq<LeafTask>, ends: map<nat, U64> := [], map[];
    for e := 0 to |tasks|
      invariant |shares| == workers && Shares(shares, |leaves|)
      invariant leaves == Flatten(tasks[..e]) && forall i :: i in ends ==> i < |leaves|
      invariant NoneEmpty(tasks[..e])
      invariant ScriptUpTo(leaves, ends, |leaves|) == Script(tasks[..e])
    {
      var epoch := tasks[e];
      if epoch == [] { return None; }
      EpochAssigned(tasks, e, leaves, ends);
      shares := AssignEpoch(shares, |leaves|, |epoch|);
      leaves := leaves + epoch;
      ends := ends[|leaves| - 1 := epoch[0].epochId];
    }
    assert tasks[..|tasks|] == tasks;
    return Some(Plan(leaves, ends, shares));
  }

  // ----- the concurrent run

  datatype Phase = AtWindow | Posting(posted: nat) | Failing | Sending | Ended

  /** `turn` counts the leaves this worker has sent. */
  datatype Worker = Worker(turn: nat, phase: Phase)

  datatype Report = Acknowledged(index: nat) | Failed(index: nat)

  /** Where the coordinator stands in its loop. */
  datatype Coordinator = Receiving | Scanning | LeafSent | EndSent | Publishing | Closed

  datatype State = State(
    workers: seq<Worker>, stop: bool, expired: bool, results: seq<Report>,
    coordinator: Coordinator, ready: set<nat>, next: nat, released: nat, failed: bool,
    emitted: seq<Message>, consumed: nat, listening: bool)

  /** A failed post sets `stop` first and reports the failure in a step of its own. */
  datatype WorkerAction =
    | EnterWindow | GiveUp | PostEvent | PostFails | ReportFailure | FinishPosting | SendResult | SendRefused

  datatype CoordinatorAction =
    | ReceiveResult | ResultsEnd | SendLeaf | SendLeafRefused | ScanEnds | SendEpochEnd | NoEpochEnd
    | SendEpochEndRefused | Advance | Publish

  datatype Step =
    | OfWorker(w: nat, action: WorkerAction)
    | OfCoordinator(move: CoordinatorAction)
    | Consume | ConsumerStops | ConsumerDrops | DeadlinePasses

  function Start(plan: Plan): State
  {
    State(seq(|plan.shares|, _ => Worker(0, AtWindow)), false, false, [], Receiving, {}, 0, 0, false, [], 0, true)
  }

  predicate Busy(plan: Plan, s: State, w: nat)
  {
    && w < |plan.shares| == |s.workers|
    && s.workers[w].turn < |plan.shares[w]| && s.workers[w].phase != Ended
    && plan.shares[w][s.workers[w].turn] < |plan.leaves|
  }

  /** The index a busy worker is working on. */
  function Current(plan: Plan, s: State, w: nat): nat
    requires Busy(plan, s, w)
  {
    plan.shares[w][s.workers[w].turn]
  }

  predicate WorkerMay(plan: Plan, s: State, w: nat, action: WorkerAction)
  {
    && Busy(plan, s, w)
    && var i, phase := Current(plan, s, w), s.workers[w].phase;
    && var interrupted := s.stop || s.expired;
      match action
      case EnterWindow => phase == AtWindow && i < s.released + WINDOW
      case GiveUp => interrupted && (phase.Posting? || (phase == AtWindow && i >= s.released + WINDOW))
      case PostEvent => phase.Posting? && phase.posted < |plan.leaves[i].events|
      case PostFails => phase.Posting? && phase.posted < |plan.leaves[i].events|
      case ReportFailure => phase == Failing
      case FinishPosting => phase.Posting? && phase.posted == |plan.leaves[i].events| && !interrupted
      case SendResult => phase == Sending && s.coordinator != Closed
      case SendRefused => phase == Sending && s.coordinator == Closed
  }

  function WithWorker(s: State, w: nat, worker: Worker): State
    requires w < |s.workers|
  {
    s.(workers := s.workers[w := worker])
  }

  function AfterWorker(plan: Plan, s: State, w: nat, action: WorkerAction): State
    requires WorkerMay(plan, s, w, action)
  {
    var turn := s.workers[w].turn;
    match action
    case EnterWindow => WithWorker(s, w, Worker(turn, Posting(0)))
    case GiveUp => WithWorker(s, w, Worker(turn, Ended)).(stop := true)
    case PostEvent => WithWorker(s, w, Worker(turn, Posting(s.workers[w].phase.posted + 1)))
    case PostFails => WithWorker(s, w, Worker(turn, Failing)).(stop := true)
    case ReportFailure =>
      var reported := if s.coordinator == Closed then s.results else s.results + [Failed(Current(plan, s, w))];
      WithWorker(s, w, Worker(turn, Ended)).(results := reported)
    case FinishPosting => WithWorker(s, w, Worker(turn, Sending))
    case SendResult =>
      WithWorker(s, w, Worker(turn + 1, AtWindow)).(results := s.results + [Acknowledged(Current(plan, s, w))])
    case SendRefused => WithWorker(s, w, Worker(turn, Ended))
  }

  predicate Idle(plan: Plan, s: State, w: nat)
    requires w < |plan.shares| == |s.workers|
  {
    s.workers[w].phase == Ended || s.workers[w].turn >= |plan.shares[w]|
  }

  predicate AllIdle(plan: Plan, s: State)
  {
    |plan.shares| == |s.workers| && forall w: nat :: w < |s.workers| ==> Idle(plan, s, w)
  }

  predicate Room(s: State)
  {
    s.listening && |s.emitted| < s.consumed + CHANNEL
  }

  predicate CoordinatorMay(plan: Plan, s: State, move: CoordinatorAction)
  {
    match move
    case ReceiveResult => s.coordinator == Receiving && s.results != []
    case ResultsEnd => s.coordinator == Receiving && s.results == [] && AllIdle(plan, s)
    case SendLeaf => s.coordinator == Scanning && s.next in s.ready && s.next < |plan.leaves| && Room(s)
    case SendLeafRefused => s.coordinator == Scanning && s.next in s.ready && !s.listening
    case ScanEnds => s.coordinator == Scanning && s.next !in s.ready
    case SendEpochEnd => s.coordinator == LeafSent && s.next in plan.ends && Room(s)
    case NoEpochEnd => s.coordinator == LeafSent && s.next !in plan.ends
    case SendEpochEndRefused => s.coordinator == LeafSent && s.next in plan.ends && !s.listening
    case Advance => s.coordinator == EndSent
    case Publish => s.coordinator == Publishing
  }

  /** Leaving the receive loop drops the result receiver and sets `stop`. */
  function Close(s: State): State
  {
    s.(coordinator := Closed, stop := true)
  }

  function AfterCoordinator(plan: Plan, s: State, move: CoordinatorAction): State
    requires CoordinatorMay(plan, s, move)
  {
    match move
    case ReceiveResult =>
      var rest := s.(results := s.results[1..]);
      if s.results[0].Failed? then Close(rest.(failed := true))
      else rest.(ready := s.ready + {s.results[0].index}, coordinator := Scanning)
    case ResultsEnd => Close(s)
    case SendLeaf =>
      s.(ready := s.ready - {s.next}, emitted := s.emitted + [LeafMessage(plan.leaves[s.next])],
         coordinator := LeafSent)
    case SendLeafRefused => Close(s.(ready := s.ready - {s.next}))
    case ScanEnds => if s.stop then Close(s) else s.(coordinator := Receiving)
    case SendEpochEnd => s.(emitted := s.emitted + [EpochEnd(plan.ends[s.next])], coordinator := EndSent)
    case NoEpochEnd => s.(coordinator := EndSent)
    case SendEpochEndRefused => Close(s)
    case Advance => s.(next := s.next + 1, coordinator := Publishing)
    case Publish => s.(released := s.next, coordinator := Scanning)
  }

  predicate Enabled(plan: Plan, s: State, step: Step)
  {
    match step
    case OfWorker(w, action) => WorkerMay(plan, s, w, action)
    case OfCoordinator(move) => CoordinatorMay(plan, s, move)
    case Consume => s.listening && s.consumed < |s.emitted|
    case ConsumerStops => s.listening
    case ConsumerDrops => s.listening && s.stop
    case DeadlinePasses => true
  }

  function After(plan: Plan, s: State, step: Step): State
    requires Enabled(plan, s, step)
  {
    match step
    case OfWorker(w, action) => AfterWorker(plan, s, w, action)
    case OfCoordinator(move) => AfterCoordinator(plan, s, move)
    case Consume => s.(consumed := s.consumed + 1)
    case ConsumerStops => s.(stop := true)
    case ConsumerDrops => s.(listening := false)
    case DeadlinePasses => s.(expired := true)
  }

  /** The state after the steps, if each was enabled in turn. */
  function Reached(plan: Plan, steps: seq<Step>): Option<State>
  {
    if steps == [] then Some(Start(plan))
    else
      var before := Reached(plan, steps[..|steps| - 1]);
      if before.Some? && Enabled(plan, before.value, steps[|steps| - 1])
      then Some(After(plan, before.value, steps[|steps| - 1]))
      else None
  }

  // ----- the invariant

  /** Acknowledged and handed to the coordinator, not yet released. */
  predicate Pending(s: State, i: nat)
  {
    i in s.ready || Acknowledged(i) in s.results
  }

  predicate MidLeaf(s: State)
  {
    s.coordinator == LeafSent || s.coordinator == EndSent
  }

  predicate Sent(s: State, i: nat)
  {
    i < s.next || Pending(s, i) || (i == s.next && MidLeaf(s))
  }

  ghost predicate WorkerOk(plan: Plan, s: State, w: nat)
    requires ValidPlan(plan) && w < |s.workers| == |plan.shares|
  {
    var worker := s.workers[w];
    && worker.turn <= |plan.shares[w]|
    && (worker.phase.Posting? || worker.phase.Sending? ==>
         Busy(plan, s, w) && Current(plan, s, w) < s.released + WINDOW)
    && (worker.phase.Posting? ==> worker.phase.posted <= |plan.leaves[Current(plan, s, w)].events|)
  }

  ghost predicate WorkersOk(plan: Plan, s: State)
  {
    && ValidPlan(plan) && |s.workers| == |plan.shares|
    && forall w: nat :: w < |s.workers| ==> WorkerOk(plan, s, w)
  }

  ghost predicate CoordinatorOk(plan: Plan, s: State)
  {
    && s.next <= |plan.leaves| && (MidLeaf(s) ==> s.next < |plan.leaves|)
    && s.next == s.released + (if s.coordinator == Publishing then 1 else 0)
    && (s.coordinator == Receiving ==> s.next !in s.ready)
    && (s.coordinator == Closed ==> s.stop)
  }

  ghost predicate PendingOk(plan: Plan, s: State)
  {
    && (forall i: nat :: Pending(s, i) ==> s.next <= i < |plan.leaves| && i < s.released + WINDOW)
    && (MidLeaf(s) ==> !Pending(s, s.next))
    && (forall i :: i in s.ready ==> Acknowledged(i) !in s.results)
    && forall a: nat, b: nat :: a < b < |s.results| && s.results[a].Acknowledged? ==> s.results[a] != s.results[b]
  }

  /**
   * No leaf is lost or repeated: until the coordinator leaves, a worker has sent exactly the leaves that
   * are pending or released.
   */
  ghost predicate Conserved(plan: Plan, s: State)
  {
    |s.workers| == |plan.shares| &&
    forall w: nat, t: nat :: w < |plan.shares| && t < |plan.shares[w]| ==>
      && (Sent(s, plan.shares[w][t]) ==> t < s.workers[w].turn)
      && (s.coordinator != Closed && t < s.workers[w].turn ==> Sent(s, plan.shares[w][t]))
  }

  /** The emitted messages are the script up to `next`, and inside a release the leaf and then its epoch's end. */
  ghost predicate EmissionOk(plan: Plan, s: State)
    requires s.next <= |plan.leaves|
  {
    var done := ScriptUpTo(plan.leaves, plan.ends, s.next);
    && s.consumed <= |s.emitted| <= s.consumed + CHANNEL
    && match s.coordinator
       case LeafSent => s.next < |plan.leaves| && s.emitted == done + [LeafMessage(plan.leaves[s.next])]
       case EndSent => s.next < |plan.leaves| && s.emitted == done + Released(plan.leaves, plan.ends, s.next)
       case Closed => s.emitted == done
           || (s.next < |plan.leaves| && s.emitted == done + [LeafMessage(plan.leaves[s.next])])
       case _ => s.emitted == done
  }

  ghost predicate Inv(plan: Plan, s: State)
  {
    WorkersOk(plan, s) && CoordinatorOk(plan, s) && PendingOk(plan, s) && Conserved(plan, s) && EmissionOk(plan, s)
  }

  lemma {:induction false} StartInv(plan: Plan)
    requires ValidPlan(plan)
    ensures Inv(plan, Start(plan))
  {
  }

  /** A share's position determines its index: distinct positions, or distinct workers, mean distinct leaves. */
  lemma {:induction false} SharesDistinct(plan: Plan, w: nat, t: nat, v: nat, u: nat)
    requires ValidPlan(plan) && w < |plan.shares| && t < |plan.shares[w]| && v < |plan.shares| && u < |plan.shares[v]|
    requires plan.shares[w][t] == plan.shares[v][u]
    ensures w == v && t == u
  {
    assert plan.shares[w][t] in plan.shares[w] && plan.shares[v][u] in plan.shares[v];
  }

  lemma {:induction false} WorkerKeepsWorkers(plan: Plan, s: State, w: nat, action: WorkerAction)
    requires WorkersOk(plan, s) && WorkerMay(plan, s, w, action)
    ensures WorkersOk(plan, AfterWorker(plan, s, w, action))
  {
    var after := AfterWorker(plan, s, w, action);
    forall v: nat | v < |after.workers|
      ensures WorkerOk(plan, after, v)
    {
      assert WorkerOk(plan, s, v);
    }
  }

  lemma {:induction false} NewlySent(plan: Plan, s: State, w: nat)
    requires Inv(plan, s) && WorkerMay(plan, s, w, SendResult)
    ensures PendingOk(plan, AfterWorker(plan, s, w, SendResult)) && Conserved(plan, AfterWorker(plan, s, w, SendResult))
  {
    var i, t, after := Current(plan, s, w), s.workers[w].turn, AfterWorker(plan, s, w, SendResult);
    assert WorkerOk(plan, s, w);
    assert !Sent(s, i);
    assert forall r :: r in after.results <==> r in s.results || r == Acknowledged(i);
    assert forall x: nat :: Pending(after, x) <==> Pending(s, x) || x == i;
    forall v: nat, u: nat | v < |plan.shares| && u < |plan.shares[v]|
      ensures u < after.workers[v].turn <==> Sent(after, plan.shares[v][u])
    {
      if plan.shares[v][u] == i { SharesDistinct(plan, w, t, v, u); }
    }
  }

  /** The same pending leaves under a window that has not moved back. */
  lemma {:induction false} PendingFrame(plan: Plan, s: State, after: State)
    requires PendingOk(plan, s) && after.ready == s.ready && after.next == s.next && after.released >= s.released
    requires after.results == s.results || exists i :: after.results == s.results + [Failed(i)]
    requires MidLeaf(after) ==> MidLeaf(s)
    ensures PendingOk(plan, after) && forall i: nat :: Pending(after, i) <==> Pending(s, i)
  {
    assert forall i: nat :: Acknowledged(i) in after.results <==> Acknowledged(i) in s.results;
    assert forall i: nat :: Pending(after, i) <==> Pending(s, i);
  }

  lemma {:induction false} ConservedFrame(plan: Plan, s: State, after: State)
    requires Conserved(plan, s) && |after.workers| == |s.workers|
    requires forall w: nat :: w < |s.workers| ==> after.workers[w].turn == s.workers[w].turn
    requires s.coordinator == Closed ==> after.coordinator == Closed
    requires forall i: nat :: Sent(after, i) ==> Sent(s, i)
    requires after.coordinator != Closed ==> forall i: nat :: Sent(s, i) ==> Sent(after, i)
    ensures Conserved(plan, after)
  {
  }

  lemma {:induction false} WorkerKeeps(plan: Plan, s: State, w: nat, action: WorkerAction)
    requires Inv(plan, s) && WorkerMay(plan, s, w, action)
    ensures Inv(plan, AfterWorker(plan, s, w, action))
  {
    WorkerKeepsWorkers(plan, s, w, action);
    if action == SendResult {
      NewlySent(plan, s, w);
    } else {
      var after := AfterWorker(plan, s, w, action);
      PendingFrame(plan, s, after);
      ConservedFrame(plan, s, after);
    }
  }

  lemma {:induction false} SameWorkers(plan: Plan, s: State, after: State)
    requires WorkersOk(plan, s) && after.workers == s.workers && after.released >= s.released
    ensures WorkersOk(plan, after)
  {
    assert forall v: nat :: v < |s.workers| && WorkerOk(plan, s, v) ==> WorkerOk(plan, after, v);
  }

  lemma {:induction false} ReceiveKeeps(plan: Plan, s: State)
    requires Inv(plan, s) && CoordinatorMay(plan, s, ReceiveResult)
    ensures Inv(plan, AfterCoordinator(plan, s, ReceiveResult))
  {
    var after := AfterCoordinator(plan, s, ReceiveResult);
    SameWorkers(plan, s, after);
    ReceiveKeepsPending(plan, s, after);
    ConservedFrame(plan, s, after);
  }

  /** A received acknowledgement moves from the results to the ready set. */
  lemma {:induction false} ReceiveKeepsPending(plan: Plan, s: State, after: State)
    requires PendingOk(plan, s) && s.results != [] && after.results == s.results[1..] && !MidLeaf(after)
    requires after.next == s.next && after.released == s.released
    requires after.ready == s.ready + if s.results[0].Failed? then {} else {s.results[0].index}
    ensures PendingOk(plan, after) && forall i: nat :: Pending(after, i) <==> Pending(s, i)
  {
    FirstIsTaken(s, after);
    assert forall i: nat :: Pending(after, i) <==> Pending(s, i);
  }

  lemma {:induction false} FirstIsTaken(s: State, after: State)
    requires s.results != [] && after.results == s.results[1..]
    requires forall a: nat, b: nat :: a < b < |s.results| && s.results[a].Acknowledged? ==> s.results[a] != s.results[b]
    ensures forall r :: r in s.results <==> r == s.results[0] || r in after.results
    ensures s.results[0].Acknowledged? ==> s.results[0] !in after.results
    ensures forall a: nat, b: nat :: a < b < |after.results| && after.results[a].Acknowledged? ==>
        after.results[a] != after.results[b]
  {
    assert forall k: nat :: k < |after.results| ==> after.results[k] == s.results[k + 1];
    assert s.results == [s.results[0]] + after.results;
  }

  lemma {:induction false} SendLeafKeeps(plan: Plan, s: State, move: CoordinatorAction)
    requires Inv(plan, s) && CoordinatorMay(plan, s, move) && (move == SendLeaf || move == SendLeafRefused)
    ensures Inv(plan, AfterCoordinator(plan, s, move))
  {
    var after := AfterCoordinator(plan, s, move);
    SameWorkers(plan, s, after);
    assert forall i: nat :: Pending(after, i) <==> Pending(s, i) && i != s.next;
    ConservedFrame(plan, s, after);
  }

  lemma {:induction false} AdvanceKeeps(plan: Plan, s: State)
    requires Inv(plan, s) && CoordinatorMay(plan, s, Advance)
    ensures Inv(plan, AfterCoordinator(plan, s, Advance))
  {
    var after := AfterCoordinator(plan, s, Advance);
    SameWorkers(plan, s, after);
    assert forall i: nat :: Pending(after, i) <==> Pending(s, i);
    ConservedFrame(plan, s, after);
  }

  lemma {:induction false} CoordinatorKeeps(plan: Plan, s: State, move: CoordinatorAction)
    requires Inv(plan, s) && CoordinatorMay(plan, s, move)
    ensures Inv(plan, AfterCoordinator(plan, s, move))
  {
    match move
    case ReceiveResult => ReceiveKeeps(plan, s);
    case SendLeaf => SendLeafKeeps(plan, s, move);
    case SendLeafRefused => SendLeafKeeps(plan, s, move);
    case Advance => AdvanceKeeps(plan, s);
    case _ => QuietMoveKeeps(plan, s, move);
  }

  /** Moves that neither take a result nor release a leaf. */
  lemma {:induction false} QuietMoveKeeps(plan: Plan, s: State, move: CoordinatorAction)
    requires Inv(plan, s) && CoordinatorMay(plan, s, move)
    requires move !in {ReceiveResult, SendLeaf, SendLeafRefused, Advance}
    ensures Inv(plan, AfterCoordinator(plan, s, move))
  {
    var after := AfterCoordinator(plan, s, move);
    SameWorkers(plan, s, after);
    PendingFrame(plan, s, after);
    ConservedFrame(plan, s, after);
  }

  lemma {:induction false} EnvironmentKeeps(plan: Plan, s: State, step: Step)
    requires Inv(plan, s) && Enabled(plan, s, step) && !step.OfWorker? && !step.OfCoordinator?
    ensures Inv(plan, After(plan, s, step))
  {
    var after := After(plan, s, step);
    SameWorkers(plan, s, after);
    PendingFrame(plan, s, after);
    ConservedFrame(plan, s, after);
  }

  lemma {:induction false} StepKeeps(plan: Plan, s: State, step: Step)
    requires Inv(plan, s) && Enabled(plan, s, step)
    ensures Inv(plan, After(plan, s, step))
  {
    match step
    case OfWorker(w, action) => WorkerKeeps(plan, s, w, action);
    case OfCoordinator(move) => CoordinatorKeeps(plan, s, move);
    case _ => EnvironmentKeeps(plan, s, step);
  }

  lemma {:induction false} RunKeeps(plan: Plan, steps: seq<Step>)
    requires ValidPlan(plan) && Reached(plan, steps).Some?
    ensures Inv(plan, Reached(plan, steps).value)
  {
    if steps == [] {
      StartInv(plan);
    } else {
      var before := steps[..|steps| - 1];
      RunKeeps(plan, before);
      StepKeeps(plan, Reached(plan, before).value, steps[|steps| - 1]);
    }
  }

  // ----- safety of every interleaving

  /**
   * Everything the consumer is ever sent, in any run: a prefix of the leaves in order with each epoch's
   * end in its place.
   */
  lemma {:induction false} ReleaseInOrder(tasks: seq<seq<LeafTask>>, plan: Plan, steps: seq<Step>)
    requires ValidPlan(plan) && NoneEmpty(tasks) && ScriptUpTo(plan.leaves, plan.ends, |plan.leaves|) == Script(tasks)
    requires Reached(plan, steps).Some?
    ensures Reached(plan, steps).value.emitted <= Script(tasks)
  {
    RunKeeps(plan, steps);
    EmittedIsPrefix(plan, Reached(plan, steps).value);
  }

  lemma {:induction false} EmittedIsPrefix(plan: Plan, s: State)
    requires Inv(plan, s)
    ensures s.emitted <= ScriptUpTo(plan.leaves, plan.ends, |plan.leaves|)
  {
    var whole, done := ScriptUpTo(plan.leaves, plan.ends, |plan.leaves|), ScriptUpTo(plan.leaves, plan.ends, s.next);
    ScriptPrefix(plan.leaves, plan.ends, s.next, |plan.leaves|);
    if s.next < |plan.leaves| {
      var more := ScriptUpTo(plan.leaves, plan.ends, s.next + 1);
      ScriptPrefix(plan.leaves, plan.ends, s.next + 1, |plan.leaves|);
      assert more == done + Released(plan.leaves, plan.ends, s.next);
      assert done <= done + [LeafMessage(plan.leaves[s.next])] <= more;
    }
  }

  /** Leaves whose worker has its acknowledgement but which the coordinator has not released. */
  predicate AwaitsRelease(plan: Plan, s: State, i: nat)
  {
    || Pending(s, i)
    || exists w: nat | w < |s.workers| :: s.workers[w].phase == Sending && Busy(plan, s, w) && Current(plan, s, w) == i
  }

  lemma {:induction false} AtMostWindowWaits(plan: Plan, steps: seq<Step>)
    requires ValidPlan(plan) && Reached(plan, steps).Some?
    ensures var s := Reached(plan, steps).value;
      |set i: nat | i < |plan.leaves| && AwaitsRelease(plan, s, i)| <= 64 && |s.emitted| - s.consumed <= 32
  {
    RunKeeps(plan, steps);
    var s := Reached(plan, steps).value;
    var waiting := set i: nat | i < |plan.leaves| && AwaitsRelease(plan, s, i);
    forall i | i in waiting
      ensures s.released <= i < s.released + WINDOW
    {
      if !Pending(s, i) {
        var w: nat :| w < |s.workers| && s.workers[w].phase == Sending && Busy(plan, s, w) && Current(plan, s, w) == i;
        assert WorkerOk(plan, s, w);
        assert !Sent(s, plan.shares[w][s.workers[w].turn]);
      }
    }
    IntervalSize(waiting, s.released, s.released + WINDOW);
  }

  lemma {:induction false} IntervalSize(s: set<nat>, lo: nat, hi: nat)
    requires lo <= hi && forall i :: i in s ==> lo <= i < hi
    ensures |s| <= hi - lo
    decreases hi
  {
    if lo < hi {
      assert s == (s - {hi - 1}) + (s * {hi - 1}) && |s * {hi - 1}| <= |{hi - 1}|;
      IntervalSize(s - {hi - 1}, lo, hi - 1);
    } else {
      assert forall i :: i !in s;
      assert s == {};
    }
  }

  // ----- progress

  /** Nobody failed, stopped or ran out of time, and the consumer is still there. */
  predicate Undisturbed(s: State)
  {
    && !s.stop && !s.expired && !s.failed && s.listening && s.coordinator != Closed
    && (forall w: nat :: w < |s.workers| ==> s.workers[w].phase != Ended && s.workers[w].phase != Failing)
    && forall r | r in s.results :: r.Acknowledged?
  }

  predicate Productive(step: Step)
  {
    match step
    case OfWorker(_, action) => action in {EnterWindow, PostEvent, FinishPosting, SendResult}
    case OfCoordinator(move) => move in {ReceiveResult, SendLeaf, ScanEnds, SendEpochEnd, NoEpochEnd, Advance, Publish}
    case Consume => true
    case _ => false
  }

  lemma {:induction false} UndisturbedByWorker(plan: Plan, s: State, w: nat, action: WorkerAction)
    requires Inv(plan, s) && WorkerMay(plan, s, w, action)
    ensures Undisturbed(AfterWorker(plan, s, w, action)) <==> Undisturbed(s) && Productive(OfWorker(w, action))
  {
    var after := AfterWorker(plan, s, w, action);
    assert forall v: nat :: v < |s.workers| && v != w ==> after.workers[v] == s.workers[v];
    assert after.workers[w].phase == Ended || after.workers[w].phase == Failing <==>
        action in {GiveUp, PostFails, ReportFailure, SendRefused};
    if action == SendResult {
      assert forall r :: r in after.results <==> r in s.results || r == Acknowledged(Current(plan, s, w));
    }
  }

  lemma {:induction false} UndisturbedByCoordinator(plan: Plan, s: State, move: CoordinatorAction)
    requires Inv(plan, s) && CoordinatorMay(plan, s, move)
    ensures Undisturbed(AfterCoordinator(plan, s, move)) <==> Undisturbed(s) && Productive(OfCoordinator(move))
  {
    if move == ReceiveResult {
      assert s.results == [s.results[0]] + s.results[1..];
      assert s.results[0] in s.results && forall r :: r in s.results <==> r == s.results[0] || r in s.results[1..];
      assert AfterCoordinator(plan, s, move).workers == s.workers;
    }
  }

  /** A step leaves an undisturbed state undisturbed exactly when it is productive. */
  lemma {:induction false} UndisturbedExactly(plan: Plan, s: State, step: Step)
    requires Inv(plan, s) && Enabled(plan, s, step)
    ensures Undisturbed(After(plan, s, step)) <==> Undisturbed(s) && Productive(step)
  {
    match step
    case OfWorker(w, action) => UndisturbedByWorker(plan, s, w, action);
    case OfCoordinator(move) => UndisturbedByCoordinator(plan, s, move);
    case _ =>
  }

  /** A run ends undisturbed exactly when every step it took was productive. */
  lemma {:induction false} UndisturbedRunsExactly(plan: Plan, steps: seq<Step>)
    requires ValidPlan(plan) && Reached(plan, steps).Some?
    ensures Undisturbed(Reached(plan, steps).value) <==> forall step :: step in steps ==> Productive(step)
  {
    if steps != [] {
      var before, last := steps[..|steps| - 1], steps[|steps| - 1];
      assert steps == before + [last];
      UndisturbedRunsExactly(plan, before);
      RunKeeps(plan, before);
      UndisturbedExactly(plan, Reached(plan, before).value, last);
    }
  }

  /** What can end the flow from outside it: a failed post, the consumer, the deadline, or the end of all results. */
  predicate Interrupts(step: Step)
  {
    match step
    case OfWorker(_, action) => action == PostFails
    case OfCoordinator(move) => move == ResultsEnd
    case Consume => false
    case ConsumerStops => true
    case ConsumerDrops => false
    case DeadlinePasses => true
  }

  /** In an undisturbed state every other step is productive. */
  lemma {:induction false} OthersAreProductive(plan: Plan, s: State, step: Step)
    requires Inv(plan, s) && Undisturbed(s) && Enabled(plan, s, step)
    ensures Productive(step) <==> !Interrupts(step)
  {
  }

  /** A run is disturbed exactly when one of these steps was taken: nobody gives up or is refused without one. */
  lemma {:induction false} OnlyInterruptsDisturb(plan: Plan, steps: seq<Step>)
    requires ValidPlan(plan) && Reached(plan, steps).Some?
    ensures Undisturbed(Reached(plan, steps).value) <==> forall step :: step in steps ==> !Interrupts(step)
  {
    if steps != [] {
      var before, last := steps[..|steps| - 1], steps[|steps| - 1];
      assert steps == before + [last];
      OnlyInterruptsDisturb(plan, before);
      RunKeeps(plan, before);
      UndisturbedExactly(plan, Reached(plan, before).value, last);
      if Undisturbed(Reached(plan, before).value) {
        OthersAreProductive(plan, Reached(plan, before).value, last);
      }
    }
  }

  /** The worker that owns the next leaf to release is at that leaf and is not held back by the window. */
  lemma {:induction false} OwnerIsReady(plan: Plan, s: State) returns (w: nat)
    requires Inv(plan, s) && s.coordinator == Receiving && s.results == [] && s.next < |plan.leaves|
    ensures w < |s.workers| && s.workers[w].turn < |plan.shares[w]| && plan.shares[w][s.workers[w].turn] == s.next
  {
    w := s.next % |plan.shares|;
    var share := plan.shares[w];
    var t: nat :| t < |share| && share[t] == s.next;
    assert WorkerOk(plan, s, w);
    assert forall a: nat :: a < t ==> share[a] < share[t];
    assert !Sent(s, share[t]);
    assert forall a: nat :: a < t ==> Sent(s, share[a]);
  }

  /** No deadlock: an undisturbed state with unreleased leaves has a productive step. */
  lemma {:induction false} SomeoneCanMove(plan: Plan, s: State) returns (step: Step)
    requires Inv(plan, s) && Undisturbed(s)
    requires s.next < |plan.leaves| || s.consumed < |s.emitted| || s.coordinator != Receiving
    ensures Productive(step) && Enabled(plan, s, step)
  {
    if s.consumed < |s.emitted| { return Consume; }
    match s.coordinator
    case Publishing => step := OfCoordinator(Publish);
    case EndSent => step := OfCoordinator(Advance);
    case LeafSent => step := OfCoordinator(if s.next in plan.ends then SendEpochEnd else NoEpochEnd);
    case Scanning => step := OfCoordinator(if s.next in s.ready then SendLeaf else ScanEnds);
      assert s.next in s.ready ==> Pending(s, s.next);
    case Closed => assert false;
    case Receiving =>
      if s.results != [] { return OfCoordinator(ReceiveResult); }
      var w := OwnerIsReady(plan, s);
      assert WorkerOk(plan, s, w);
      step := OfWorker(w,
        match s.workers[w].phase
        case AtWindow => EnterWindow
        case Posting(posted) => if posted < |plan.leaves[s.next].events| then PostEvent else FinishPosting
        case Sending => SendResult
        case _ => SendRefused);
  }

  /** Work units of a leaf: entering, its events, finishing, sending and being received. */
  function LeafWork(plan: Plan, i: nat): nat
  {
    if i < |plan.leaves| then |plan.leaves[i].events| + 5 else 0
  }

  function ShareWork(plan: Plan, share: seq<nat>, turn: nat): nat
    requires turn <= |share|
  {
    if turn == 0 then 0 else ShareWork(plan, share, turn - 1) + LeafWork(plan, share[turn - 1])
  }

  function WorkerWork(plan: Plan, share: seq<nat>, worker: Worker): nat
  {
    if worker.turn >= |share| then ShareWork(plan, share, |share|)
    else
      ShareWork(plan, share, worker.turn) +
      match worker.phase
      case AtWindow => 0
      case Posting(posted) => 1 + posted
      case Failing => LeafWork(plan, share[worker.turn]) - (if share[worker.turn] < |plan.leaves| then 4 else 0)
      case Sending => LeafWork(plan, share[worker.turn]) - (if share[worker.turn] < |plan.leaves| then 3 else 0)
      case Ended => LeafWork(plan, share[worker.turn])
  }

  function SumWork(plan: Plan, workers: seq<Worker>, n: nat): nat
    requires n <= |workers| == |plan.shares|
  {
    if n == 0 then 0 else SumWork(plan, workers, n - 1) + WorkerWork(plan, plan.shares[n - 1], workers[n - 1])
  }

  function Offset(c: Coordinator): int
  {
    match c
    case Receiving => 1
    case LeafSent => 1
    case EndSent => 2
    case Publishing => -1
    case _ => 0
  }

  function Progress(plan: Plan, s: State): int
    requires |s.workers| == |plan.shares|
  {
    SumWork(plan, s.workers, |s.workers|) - 2 * |s.results| + Offset(s.coordinator) + 4 * s.next + s.consumed
  }

  lemma {:induction false} SumAfterUpdate(plan: Plan, workers: seq<Worker>, w: nat, worker: Worker, n: nat)
    requires w < |workers| == |plan.shares| && n <= |workers|
    ensures SumWork(plan, workers[w := worker], n)
         == SumWork(plan, workers, n)
             + if w >= n then 0
               else WorkerWork(plan, plan.shares[w], worker) - WorkerWork(plan, plan.shares[w], workers[w])
  {
    if n != 0 { SumAfterUpdate(plan, workers, w, worker, n - 1); }
  }

  lemma {:induction false} WorkerProgress(plan: Plan, s: State, w: nat, action: WorkerAction)
    requires Inv(plan, s) && Undisturbed(s) && WorkerMay(plan, s, w, action) && Productive(OfWorker(w, action))
    ensures Progress(plan, AfterWorker(plan, s, w, action)) == Progress(plan, s) + 1
  {
    var after := AfterWorker(plan, s, w, action);
    SumAfterUpdate(plan, s.workers, w, after.workers[w], |s.workers|);
    assert WorkerWork(plan, plan.shares[w], after.workers[w])
        == WorkerWork(plan, plan.shares[w], s.workers[w]) + (if action == SendResult then 3 else 1);
  }

  lemma {:induction false} CoordinatorProgress(plan: Plan, s: State, move: CoordinatorAction)
    requires Inv(plan, s) && Undisturbed(s) && CoordinatorMay(plan, s, move) && Productive(OfCoordinator(move))
    ensures Progress(plan, AfterCoordinator(plan, s, move)) == Progress(plan, s) + 1
  {
    if move == ReceiveResult { assert s.results[0] in s.results; }
  }

  /** Every productive step is one unit of progress. */
  lemma {:induction false} ProgressByOne(plan: Plan, s: State, step: Step)
    requires Inv(plan, s) && Undisturbed(s) && Enabled(plan, s, step) && Productive(step)
    ensures Progress(plan, After(plan, s, step)) == Progress(plan, s) + 1
  {
    match step
    case OfWorker(w, action) => WorkerProgress(plan, s, w, action);
    case OfCoordinator(move) => CoordinatorProgress(plan, s, move);
    case _ =>
  }

  function TotalWork(plan: Plan, n: nat): nat
    requires n <= |plan.shares|
  {
    if n == 0 then 0 else TotalWork(plan, n - 1) + ShareWork(plan, plan.shares[n - 1], |plan.shares[n - 1]|)
  }

  function Bound(plan: Plan): nat
  {
    TotalWork(plan, |plan.shares|) + 6 * |plan.leaves| + 2
  }

  lemma {:induction false} ShareWorkGrows(plan: Plan, share: seq<nat>, a: nat, b: nat)
    requires a <= b <= |share|
    ensures ShareWork(plan, share, a) <= ShareWork(plan, share, b)
  {
    if a < b { ShareWorkGrows(plan, share, a, b - 1); }
  }

  lemma {:induction false} WorkIsBounded(plan: Plan, s: State, n: nat)
    requires WorkersOk(plan, s) && n <= |s.workers|
    ensures SumWork(plan, s.workers, n) <= TotalWork(plan, n)
  {
    if n != 0 {
      WorkIsBounded(plan, s, n - 1);
      WorkerWorkBounded(plan, s, n - 1);
    }
  }

  lemma {:induction false} WorkerWorkBounded(plan: Plan, s: State, w: nat)
    requires WorkersOk(plan, s) && w < |s.workers|
    ensures WorkerWork(plan, plan.shares[w], s.workers[w]) <= ShareWork(plan, plan.shares[w], |plan.shares[w]|)
  {
    assert WorkerOk(plan, s, w);
    var turn, share := s.workers[w].turn, plan.shares[w];
    if turn < |share| { ShareWorkGrows(plan, share, turn + 1, |share|); }
  }

  lemma {:induction false} ScriptLength(leaves: seq<LeafTask>, ends: map<nat, U64>, n: nat)
    requires n <= |leaves|
    ensures |ScriptUpTo(leaves, ends, n)| <= 2 * n
  {
    if n != 0 { ScriptLength(leaves, ends, n - 1); }
  }

  lemma {:induction false} ProgressIsBounded(plan: Plan, s: State)
    requires Inv(plan, s)
    ensures Progress(plan, s) <= Bound(plan)
  {
    WorkIsBounded(plan, s, |s.workers|);
    EmittedIsPrefix(plan, s);
    ScriptLength(plan.leaves, plan.ends, |plan.leaves|);
  }

  lemma {:induction false} NothingDoneYet(plan: Plan, n: nat)
    requires n <= |plan.shares|
    ensures SumWork(plan, Start(plan).workers, n) == 0
  {
    if n != 0 { NothingDoneYet(plan, n - 1); }
  }

  lemma {:induction false} ProgressCountsSteps(plan: Plan, steps: seq<Step>)
    requires ValidPlan(plan) && Reached(plan, steps).Some? && Undisturbed(Reached(plan, steps).value)
    ensures Inv(plan, Reached(plan, steps).value) && Progress(plan, Reached(plan, steps).value) == |steps| + 1
  {
    RunKeeps(plan, steps);
    if steps == [] {
      NothingDoneYet(plan, |plan.shares|);
    } else {
      var before, last := steps[..|steps| - 1], steps[|steps| - 1];
      RunKeeps(plan, before);
      UndisturbedExactly(plan, Reached(plan, before).value, last);
      ProgressCountsSteps(plan, before);
      ProgressByOne(plan, Reached(plan, before).value, last);
    }
  }

  /**
   * All leaves are eventually released: an undisturbed run takes fewer than `Bound(plan)` steps, and one
   * that cannot go on productively has delivered the whole script to the consumer.
   */
  lemma {:induction false} UndisturbedRunsComplete(tasks: seq<seq<LeafTask>>, plan: Plan, steps: seq<Step>)
    requires ValidPlan(plan) && NoneEmpty(tasks) && ScriptUpTo(plan.leaves, plan.ends, |plan.leaves|) == Script(tasks)
    requires Reached(plan, steps).Some? && Undisturbed(Reached(plan, steps).value)
    ensures |steps| < Bound(plan)
    ensures var s := Reached(plan, steps).value;
      (forall step :: Productive(step) ==> !Enabled(plan, s, step)) ==>
        s.released == |plan.leaves| && s.emitted == Script(tasks) && s.consumed == |s.emitted|
  {
    ProgressCountsSteps(plan, steps);
    var s := Reached(plan, steps).value;
    ProgressIsBounded(plan, s);
    if forall step :: Productive(step) ==> !Enabled(plan, s, step) {
      if s.next < |plan.leaves| || s.consumed < |s.emitted| || s.coordinator != Receiving {
        var step := SomeoneCanMove(plan, s);
      }
    }
  }

  // ----- the producer's result

  /** Any step of a worker is an advance, and a worker has only finitely much to do, so joining the workers ends. */
  lemma {:induction false} WorkersAlwaysAdvance(plan: Plan, s: State, w: nat, action: WorkerAction)
    requires Inv(plan, s) && WorkerMay(plan, s, w, action)
    ensures WorkerWork(plan, plan.shares[w], s.workers[w])
          < WorkerWork(plan, plan.shares[w], AfterWorker(plan, s, w, action).workers[w])
         <= ShareWork(plan, plan.shares[w], |plan.shares[w]|)
  {
    assert WorkerOk(plan, s, w);
    WorkerKeeps(plan, s, w, action);
    WorkerWorkBounded(plan, AfterWorker(plan, s, w, action), w);
  }

  /** Once the coordinator has left, every worker that is not idle can still move, so the joins cannot hang. */
  lemma {:induction false} JoinCannotHang(plan: Plan, s: State, w: nat) returns (action: WorkerAction)
    requires Inv(plan, s) && s.coordinator == Closed && w < |s.workers| && !Idle(plan, s, w)
    ensures WorkerMay(plan, s, w, action)
  {
    assert WorkerOk(plan, s, w);
    assert plan.shares[w][s.workers[w].turn] in plan.shares[w];
    var i := Current(plan, s, w);
    action :=
      match s.workers[w].phase
      case AtWindow => if i < s.released + WINDOW then EnterWindow else GiveUp
      case Posting(_) => GiveUp
      case Failing => ReportFailure
      case _ => SendRefused;
  }

  datatype Outcome = FabricFailure | StoppedEarly | Finished

  /** What `produce` returns after joining its workers. */
  function ResultOf(plan: Plan, s: State): Outcome
  {
    if s.failed then FabricFailure else if s.next < |plan.leaves| && !s.expired then StoppedEarly else Finished
  }

  /** Some worker has ended before all its leaves were sent. */
  ghost predicate SomeoneGaveUp(plan: Plan, s: State)
  {
    exists w: nat :: w < |s.workers| == |plan.shares| && s.workers[w].phase == Ended
        && s.workers[w].turn < |plan.shares[w]|
  }

  /** A failure that was reported, read or not, comes from a worker that gave up; reading one ends the coordinator. */
  ghost predicate FailuresKnown(plan: Plan, s: State)
  {
    && (s.failed ==> s.coordinator == Closed)
    && (s.failed || (exists r :: r in s.results && r.Failed?) ==> SomeoneGaveUp(plan, s))
  }

  lemma {:induction false} WorkerKeepsFailures(plan: Plan, s: State, w: nat, action: WorkerAction)
    requires FailuresKnown(plan, s) && WorkerMay(plan, s, w, action)
    ensures FailuresKnown(plan, AfterWorker(plan, s, w, action))
  {
    var after := AfterWorker(plan, s, w, action);
    assert forall v: nat :: v < |s.workers| && v != w ==> after.workers[v] == s.workers[v];
    if action == ReportFailure {
      assert after.workers[w].phase == Ended && after.workers[w].turn < |plan.shares[w]|;
    } else {
      assert forall r :: r in after.results && r.Failed? ==> r in s.results;
    }
  }

  lemma {:induction false} StepKeepsFailures(plan: Plan, s: State, step: Step)
    requires FailuresKnown(plan, s) && Enabled(plan, s, step)
    ensures FailuresKnown(plan, After(plan, s, step))
  {
    hide AfterWorker;
    hide AfterCoordinator;
    match step
    case OfWorker(w, action) => WorkerKeepsFailures(plan, s, w, action);
    case OfCoordinator(move) => CoordinatorKeepsFailures(plan, s, move);
    case _ =>
  }

  lemma {:induction false} CoordinatorKeepsFailures(plan: Plan, s: State, move: CoordinatorAction)
    requires FailuresKnown(plan, s) && CoordinatorMay(plan, s, move)
    ensures FailuresKnown(plan, AfterCoordinator(plan, s, move))
  {
    var after := AfterCoordinator(plan, s, move);
    if move == ReceiveResult { assert s.results[0] in s.results; }
    assert after.workers == s.workers && forall r :: r in after.results ==> r in s.results;
    FailedByMove(plan, s, move);
  }

  lemma {:induction false} RunKeepsFailures(plan: Plan, steps: seq<Step>)
    requires Reached(plan, steps).Some?
    ensures FailuresKnown(plan, Reached(plan, steps).value)
  {
    hide FailuresKnown;
    if steps == [] {
      NoFailureYet(plan);
    } else {
      var before := steps[..|steps| - 1];
      RunKeepsFailures(plan, before);
      StepKeepsFailures(plan, Reached(plan, before).value, steps[|steps| - 1]);
    }
  }

  lemma {:induction false} NoFailureYet(plan: Plan)
    ensures FailuresKnown(plan, Start(plan))
  {
  }

  /** The leaf of a failed post is never released. */
  lemma {:induction false} FailedIsUnfinished(plan: Plan, s: State)
    requires Inv(plan, s) && FailuresKnown(plan, s) && s.failed
    ensures s.next < |plan.leaves|
  {
    var w: nat :| w < |s.workers| == |plan.shares| && s.workers[w].phase == Ended
      && s.workers[w].turn < |plan.shares[w]|;
    var i := plan.shares[w][s.workers[w].turn];
    assert i in plan.shares[w];
    assert !Sent(s, i);
  }

  /** Step `n` of the run read the report of a failed post. */
  ghost predicate ReadsFailure(plan: Plan, steps: seq<Step>, n: nat)
    requires n < |steps|
  {
    && steps[n] == OfCoordinator(ReceiveResult)
    && var before := Reached(plan, steps[..n]);
       before.Some? && before.value.results != [] && before.value.results[0].Failed?
  }

  /** The producer returns a worker's failure exactly when it has read one. */
  lemma {:induction false} FailureIsReturnedExactly(plan: Plan, steps: seq<Step>)
    requires Reached(plan, steps).Some?
    ensures ResultOf(plan, Reached(plan, steps).value) == FabricFailure
       <==> exists n: nat :: n < |steps| && ReadsFailure(plan, steps, n)
  {
    if steps != [] {
      FailureIsReturnedExactly(plan, steps[..|steps| - 1]);
      FailedByLast(plan, steps);
      ReadsInPrefix(plan, steps);
    }
  }

  lemma {:induction false} ReadsInPrefix(plan: Plan, steps: seq<Step>)
    requires steps != []
    ensures var last := |steps| - 1;
      (exists n: nat :: n < |steps| && ReadsFailure(plan, steps, n)) <==>
        || ReadsFailure(plan, steps, last)
        || exists n: nat :: n < last && ReadsFailure(plan, steps[..last], n)
  {
    hide Reached;
    var last := |steps| - 1;
    forall n: nat | n < last
      ensures ReadsFailure(plan, steps, n) <==> ReadsFailure(plan, steps[..last], n)
    {
      assert steps[..last][..n] == steps[..n];
    }
  }

  lemma {:induction false} FailedByLast(plan: Plan, steps: seq<Step>)
    requires steps != [] && Reached(plan, steps).Some?
    ensures var before := Reached(plan, steps[..|steps| - 1]);
      && before.Some?
      && (Reached(plan, steps).value.failed <==> before.value.failed || ReadsFailure(plan, steps, |steps| - 1))
  {
    hide After;
    hide WorkerMay;
    FailedByReading(plan, Reached(plan, steps[..|steps| - 1]).value, steps[|steps| - 1]);
  }

  lemma {:induction false} FailedByReading(plan: Plan, s: State, step: Step)
    requires Enabled(plan, s, step)
    ensures After(plan, s, step).failed <==>
        s.failed || (step == OfCoordinator(ReceiveResult) && s.results != [] && s.results[0].Failed?)
  {
    hide AfterWorker;
    hide AfterCoordinator;
    match step
    case OfWorker(w, action) => WorkerReadsNothing(plan, s, w, action);
    case OfCoordinator(move) => FailedByMove(plan, s, move);
    case _ =>
  }

  lemma {:induction false} WorkerReadsNothing(plan: Plan, s: State, w: nat, action: WorkerAction)
    requires WorkerMay(plan, s, w, action)
    ensures AfterWorker(plan, s, w, action).failed == s.failed
  {
  }

  lemma {:induction false} FailedByMove(plan: Plan, s: State, move: CoordinatorAction)
    requires CoordinatorMay(plan, s, move)
    ensures AfterCoordinator(plan, s, move).failed <==>
        s.failed || (move == ReceiveResult && s.results != [] && s.results[0].Failed?)
  {
  }

  /** Before the deadline a producer finishes exactly when it has sent the whole script, whatever the interleaving. */
  lemma {:induction false} FinishedMeansAllSent(tasks: seq<seq<LeafTask>>, plan: Plan, steps: seq<Step>)
    requires ValidPlan(plan) && NoneEmpty(tasks) && ScriptUpTo(plan.leaves, plan.ends, |plan.leaves|) == Script(tasks)
    requires Reached(plan, steps).Some? && Reached(plan, steps).value.coordinator == Closed
    ensures var s := Reached(plan, steps).value;
      !s.expired ==> (ResultOf(plan, s) == Finished <==> s.emitted == Script(tasks) && s.next == |plan.leaves|)
    ensures var s := Reached(plan, steps).value;
      ResultOf(plan, s) == StoppedEarly <==> !s.failed && !s.expired && s.next < |plan.leaves|
  {
    RunKeeps(plan, steps);
    RunKeepsFailures(plan, steps);
    var s := Reached(plan, steps).value;
    if s.failed { FailedIsUnfinished(plan, s); }
  }

  /** A worker that stops before its last leaf, or has a failure to report, leaves `stop` set. */
  lemma {:induction false} StopSpreads(plan: Plan, steps: seq<Step>)
    requires ValidPlan(plan) && Reached(plan, steps).Some?
    ensures StopIsSet(Reached(plan, steps).value)
  {
    if steps != [] {
      var before := steps[..|steps| - 1];
      StopSpreads(plan, before);
      RunKeeps(plan, before);
      StopStaysSet(plan, Reached(plan, before).value, steps[|steps| - 1]);
    }
  }

  ghost predicate StopIsSet(s: State)
  {
    forall w: nat :: w < |s.workers| && (s.workers[w].phase == Ended || s.workers[w].phase == Failing) ==> s.stop
  }

  lemma {:induction false} StopStaysSet(plan: Plan, s: State, step: Step)
    requires Inv(plan, s) && StopIsSet(s) && Enabled(plan, s, step)
    ensures StopIsSet(After(plan, s, step))
  {
    hide AfterWorker;
    hide AfterCoordinator;
    match step
    case OfWorker(w, action) => WorkerStops(plan, s, w, action);
    case OfCoordinator(move) => MoveKeepsStop(plan, s, move);
    case _ =>
  }

  lemma {:induction false} WorkerStops(plan: Plan, s: State, w: nat, action: WorkerAction)
    requires StopIsSet(s) && WorkerMay(plan, s, w, action) && (s.coordinator == Closed ==> s.stop)
    ensures StopIsSet(AfterWorker(plan, s, w, action))
  {
    var after := AfterWorker(plan, s, w, action);
    assert forall v: nat :: v < |s.workers| && v != w ==> after.workers[v] == s.workers[v];
  }

  lemma {:induction false} MoveKeepsStop(plan: Plan, s: State, move: CoordinatorAction)
    requires StopIsSet(s) && CoordinatorMay(plan, s, move)
    ensures StopIsSet(AfterCoordinator(plan, s, move))
  {
    assert AfterCoordinator(plan, s, move).workers == s.workers;
  }

  // ----- winding down

  /** The state before step `n` of a run. */
  function StateAt(plan: Plan, steps: seq<Step>, n: nat): State
    requires Reached(plan, steps).Some? && n <= |steps|
  {
    PrefixIsReached(plan, steps, n);
    Reached(plan, steps[..n]).value
  }

  lemma {:induction false} PrefixIsReached(plan: Plan, steps: seq<Step>, n: nat)
    requires Reached(plan, steps).Some? && n <= |steps|
    ensures Reached(plan, steps[..n]).Some?
    ensures n < |steps| ==>
      Enabled(plan, Reached(plan, steps[..n]).value, steps[n])
          && Reached(plan, steps[..n + 1]) == Some(After(plan, Reached(plan, steps[..n]).value, steps[n]))
    decreases |steps| - n
  {
    hide After;
    hide Enabled;
    if n < |steps| {
      PrefixIsReached(plan, steps, n + 1);
      assert steps[..n + 1][..n] == steps[..n];
    } else {
      assert steps[..n] == steps;
    }
  }

  /** After a stop this worker has nothing left to send. */
  predicate DoneSending(s: State, w: nat)
  {
    s.stop && w < |s.workers| && s.workers[w].phase != Sending
  }

  /** After a stop the coordinator is past its last wait. */
  predicate DoneReading(s: State)
  {
    s.stop && s.coordinator != Receiving
  }

  lemma {:induction false} StaysDone(plan: Plan, s: State, step: Step, w: nat)
    requires Enabled(plan, s, step)
    ensures DoneSending(s, w) ==> DoneSending(After(plan, s, step), w)
    ensures DoneReading(s) ==> DoneReading(After(plan, s, step))
  {
    hide AfterWorker;
    hide AfterCoordinator;
    match step
    case OfWorker(v, action) => WorkerStaysDone(plan, s, v, action, w);
    case OfCoordinator(move) => MoveStaysDone(plan, s, move, w);
    case _ =>
  }

  lemma {:induction false} WorkerStaysDone(plan: Plan, s: State, v: nat, action: WorkerAction, w: nat)
    requires WorkerMay(plan, s, v, action)
    ensures DoneSending(s, w) ==> DoneSending(AfterWorker(plan, s, v, action), w)
    ensures DoneReading(s) ==> DoneReading(AfterWorker(plan, s, v, action))
    ensures s.stop && v == w && action == SendResult && w < |s.workers| ==>
        DoneSending(AfterWorker(plan, s, v, action), w)
  {
  }

  lemma {:induction false} MoveStaysDone(plan: Plan, s: State, move: CoordinatorAction, w: nat)
    requires CoordinatorMay(plan, s, move)
    ensures DoneSending(s, w) ==> DoneSending(AfterCoordinator(plan, s, move), w)
    ensures DoneReading(s) ==> DoneReading(AfterCoordinator(plan, s, move))
    ensures s.stop && move == ReceiveResult ==> DoneReading(AfterCoordinator(plan, s, move))
  {
  }

  lemma {:induction false} DoneFrom(plan: Plan, steps: seq<Step>, w: nat, k: nat, m: nat)
    requires Reached(plan, steps).Some? && k <= m <= |steps|
    ensures DoneSending(StateAt(plan, steps, k), w) ==> DoneSending(StateAt(plan, steps, m), w)
    ensures DoneReading(StateAt(plan, steps, k)) ==> DoneReading(StateAt(plan, steps, m))
    decreases m - k
  {
    hide After;
    hide Enabled;
    hide Reached;
    if k < m {
      DoneFrom(plan, steps, w, k, m - 1);
      PrefixIsReached(plan, steps, m - 1);
      StaysDone(plan, StateAt(plan, steps, m - 1), steps[m - 1], w);
    }
  }

  /** Of two acknowledgements one worker sends, the first is sent before any stop. */
  lemma {:induction false} AtMostOneSendAfterStop(plan: Plan, steps: seq<Step>, w: nat, n: nat, m: nat)
    requires Reached(plan, steps).Some? && n < m < |steps|
    requires steps[n] == OfWorker(w, SendResult) && steps[m] == OfWorker(w, SendResult)
    ensures !StateAt(plan, steps, n).stop
  {
    hide Reached;
    PrefixIsReached(plan, steps, n);
    PrefixIsReached(plan, steps, m);
    WorkerStaysDone(plan, StateAt(plan, steps, n), w, SendResult, w);
    DoneFrom(plan, steps, w, n + 1, m);
  }

  /** Of two results the coordinator reads, the first is read before any stop. */
  lemma {:induction false} AtMostOneReadAfterStop(plan: Plan, steps: seq<Step>, n: nat, m: nat)
    requires Reached(plan, steps).Some? && n < m < |steps|
    requires steps[n] == OfCoordinator(ReceiveResult) && steps[m] == OfCoordinator(ReceiveResult)
    ensures !StateAt(plan, steps, n).stop
  {
    hide Reached;
    PrefixIsReached(plan, steps, n);
    PrefixIsReached(plan, steps, m);
    MoveStaysDone(plan, StateAt(plan, steps, n), ReceiveResult, 0);
    DoneFrom(plan, steps, 0, n + 1, m);
  }
}
