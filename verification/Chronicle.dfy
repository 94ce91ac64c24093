/** What a paced cell's consumer has taken: totals, used nullifiers and the inputs evaluated so far. */
module Chronicle {
  import opened Primitives
  import opened Workload
  import opened Epoch
  import opened ReductionTree
  import opened Preparation
  import Policy
  import SparseNullifiers
  import Registry
  import NoLotTwice
  import Archive
  import Disclosure
  import EndToEnd
  import Producer

  // ----- totals of the messages taken so far

  function EventsOf(m: Message): nat
  {
    match m
    case LeafMessage(leaf) => |leaf.events|
    case EpochEnd(_) => 0
  }

  function ShipmentsOf(m: Message): nat
  {
    if m.LeafMessage? && m.leaf.shipmentEnd then 1 else 0
  }

  function EventsIn(messages: seq<Message>): nat
  {
    if messages == [] then 0
    else EventsIn(messages[..|messages| - 1]) + EventsOf(messages[|messages| - 1])
  }

  function ShipmentsIn(messages: seq<Message>): nat
  {
    if messages == [] then 0
    else ShipmentsIn(messages[..|messages| - 1]) + ShipmentsOf(messages[|messages| - 1])
  }

  function LeavesIn(messages: seq<Message>): nat
  {
    if messages == [] then 0
    else LeavesIn(messages[..|messages| - 1]) + if messages[|messages| - 1].LeafMessage? then 1 else 0
  }

  function EndsIn(messages: seq<Message>): nat
  {
    if messages == [] then 0
    else EndsIn(messages[..|messages| - 1]) + if messages[|messages| - 1].EpochEnd? then 1 else 0
  }

  /** The ids of the epochs that have ended, in order. */
  function EndIds(messages: seq<Message>): seq<U64>
  {
    if messages == [] then []
    else
      var last := messages[|messages| - 1];
      EndIds(messages[..|messages| - 1]) + if last.EpochEnd? then [last.epochId] else []
  }

  lemma {:induction false} TakenSnoc(taken: seq<Message>, m: Message)
    ensures EventsIn(taken + [m]) == EventsIn(taken) + EventsOf(m)
    ensures ShipmentsIn(taken + [m]) == ShipmentsIn(taken) + ShipmentsOf(m)
    ensures LeavesIn(taken + [m]) == LeavesIn(taken) + if m.LeafMessage? then 1 else 0
    ensures EndsIn(taken + [m]) == EndsIn(taken) + if m.EpochEnd? then 1 else 0
  {
    assert (taken + [m])[..|taken|] == taken;
  }

  lemma {:induction false} EndIdsSnoc(taken: seq<Message>, m: Message)
    ensures EndIds(taken + [m]) == EndIds(taken) + if m.EpochEnd? then [m.epochId] else []
  {
    assert (taken + [m])[..|taken|] == taken;
  }

  /** The positions of the leaves that end a shipment. */
  function ShipmentEnds(messages: seq<Message>): set<nat>
  {
    set k: nat | k < |messages| && messages[k].LeafMessage? && messages[k].leaf.shipmentEnd
  }

  /** As many shipments as leaves that end one. */
  lemma {:induction false} ShipmentsAreEnds(messages: seq<Message>)
    ensures ShipmentsIn(messages) == |ShipmentEnds(messages)|
  {
    if messages != [] {
      var n := |messages| - 1;
      ShipmentsAreEnds(messages[..n]);
      var last := messages[n].LeafMessage? && messages[n].leaf.shipmentEnd;
      assert ShipmentEnds(messages) == ShipmentEnds(messages[..n]) + if last then {n} else {};
    }
  }

  lemma {:induction false} CountsConcat(a: seq<Message>, b: seq<Message>)
    ensures EndsIn(a + b) == EndsIn(a) + EndsIn(b) && EventsIn(a + b) == EventsIn(a) + EventsIn(b)
    ensures ShipmentsIn(a + b) == ShipmentsIn(a) + ShipmentsIn(b)
    decreases |b|
  {
    if b == [] {
      assert a + b == a;
    } else {
      assert (a + b)[..|a + b| - 1] == a + b[..|b| - 1];
      CountsConcat(a, b[..|b| - 1]);
    }
  }

  lemma {:induction false} LeavesHaveNoEnds(leaves: seq<LeafTask>)
    ensures EndsIn(Producer.LeafMessages(leaves)) == 0
  {
    if leaves != [] {
      assert Producer.LeafMessages(leaves)[..|leaves| - 1] == Producer.LeafMessages(leaves[..|leaves| - 1]);
      LeavesHaveNoEnds(leaves[..|leaves| - 1]);
    }
  }

  lemma {:induction false} EndsOfScript(tasks: seq<seq<LeafTask>>)
    requires Producer.NoneEmpty(tasks)
    ensures EndsIn(Producer.Script(tasks)) == |tasks|
    ensures tasks != [] ==>
        Producer.Script(tasks) != [] && Producer.Script(tasks)[|Producer.Script(tasks)| - 1].EpochEnd?
  {
    if tasks != [] {
      var before, last := tasks[..|tasks| - 1], tasks[|tasks| - 1];
      EndsOfScript(before);
      LeavesHaveNoEnds(last);
      CountsConcat(Producer.Script(before), Producer.LeafMessages(last));
      TakenSnoc(Producer.Script(before) + Producer.LeafMessages(last), EpochEnd(last[0].epochId));
    }
  }

  /** The ids of the scheduled epochs. */
  function ScheduledIds(tasks: seq<seq<LeafTask>>): seq<U64>
    requires Producer.NoneEmpty(tasks)
  {
    if tasks == [] then []
    else ScheduledIds(tasks[..|tasks| - 1]) + [tasks[|tasks| - 1][0].epochId]
  }

  lemma {:induction false} LeavesKeepIds(before: seq<Message>, leaves: seq<LeafTask>)
    ensures EndIds(before + Producer.LeafMessages(leaves)) == EndIds(before)
  {
    if leaves == [] {
      assert before + Producer.LeafMessages(leaves) == before;
    } else {
      var n := |leaves| - 1;
      LeavesKeepIds(before, leaves[..n]);
      EndIdsSnoc(before + Producer.LeafMessages(leaves[..n]), LeafMessage(leaves[n]));
      assert before + Producer.LeafMessages(leaves)
          == before + Producer.LeafMessages(leaves[..n]) + [LeafMessage(leaves[n])];
    }
  }

  lemma {:induction false} IdsOfScript(tasks: seq<seq<LeafTask>>)
    requires Producer.NoneEmpty(tasks)
    ensures EndIds(Producer.Script(tasks)) == ScheduledIds(tasks)
  {
    if tasks != [] {
      var before, last := tasks[..|tasks| - 1], tasks[|tasks| - 1];
      IdsOfScript(before);
      LeavesKeepIds(Producer.Script(before), last);
      EndIdsSnoc(Producer.Script(before) + Producer.LeafMessages(last), EpochEnd(last[0].epochId));
    }
  }

  /** A prefix of the schedule that contains every epoch's end is the whole schedule. */
  lemma {:induction false} AllEndsMeansAll(tasks: seq<seq<LeafTask>>, taken: seq<Message>)
    requires Producer.NoneEmpty(tasks) && taken <= Producer.Script(tasks)
    ensures EndsIn(taken) == |tasks| ==> taken == Producer.Script(tasks)
  {
    var script := Producer.Script(tasks);
    EndsOfScript(tasks);
    if |taken| < |script| {
      var most := script[..|script| - 1];
      TakenSnoc(most, script[|script| - 1]);
      assert script == most + [script[|script| - 1]];
      CountsConcat(taken, most[|taken|..]);
      assert most == taken + most[|taken|..];
    }
  }

  // ----- nullifiers and lots

  /** The nullifier indices of the leaves taken. */
  function UsedBy(setup: Setup, taken: seq<Message>): set<nat>
  {
    if taken == [] then {}
    else UsedBy(setup, taken[..|taken| - 1]) + UsedByMessage(setup, taken[|taken| - 1])
  }

  function UsedByMessage(setup: Setup, m: Message): set<nat>
  {
    match m
    case LeafMessage(task) => {BigEndian(IndexOf(setup, task.lotId))}
    case EpochEnd(_) => {}
  }

  lemma {:induction false} LeafUses(setup: Setup, taken: seq<Message>, task: LeafTask)
    requires BigEndian(IndexOf(setup, task.lotId)) !in UsedBy(setup, taken) && |UsedBy(setup, taken)| == LeavesIn(taken)
    ensures UsedBy(setup, taken + [LeafMessage(task)]) == UsedBy(setup, taken) + {BigEndian(IndexOf(setup, task.lotId))}
    ensures |UsedBy(setup, taken + [LeafMessage(task)])| == LeavesIn(taken + [LeafMessage(task)])
  {
    assert (taken + [LeafMessage(task)])[..|taken|] == taken;
  }

  lemma {:induction false} EpochUses(setup: Setup, taken: seq<Message>, epochId: U64)
    ensures UsedBy(setup, taken + [EpochEnd(epochId)]) == UsedBy(setup, taken)
    ensures LeavesIn(taken + [EpochEnd(epochId)]) == LeavesIn(taken)
  {
    assert (taken + [EpochEnd(epochId)])[..|taken|] == taken;
  }

  ghost predicate LotsDiffer(taken: seq<Message>)
  {
    forall i: nat, j: nat :: i < j < |taken| && taken[i].LeafMessage? && taken[j].LeafMessage? ==>
      taken[i].leaf.lotId != taken[j].leaf.lotId
  }

  lemma {:induction false} UsedContains(setup: Setup, taken: seq<Message>, i: nat)
    requires i < |taken|
    ensures UsedByMessage(setup, taken[i]) <= UsedBy(setup, taken)
  {
    if i < |taken| - 1 { UsedContains(setup, taken[..|taken| - 1], i); }
  }

  /** As many indices as leaves means that all lots are different. */
  lemma {:induction false} OneIndexEach(setup: Setup, taken: seq<Message>)
    ensures |UsedBy(setup, taken)| <= LeavesIn(taken)
    ensures |UsedBy(setup, taken)| == LeavesIn(taken) ==> LotsDiffer(taken)
  {
    if taken != [] {
      var n := |taken| - 1;
      var before, last := taken[..n], taken[n];
      OneIndexEach(setup, before);
      OneMoreIndex(UsedBy(setup, before), UsedByMessage(setup, last));
      if |UsedBy(setup, taken)| == LeavesIn(taken) {
        forall i: nat | i < n && taken[i].LeafMessage? && last.LeafMessage?
          ensures taken[i].leaf.lotId != last.leaf.lotId
        {
          UsedContains(setup, before, i);
        }
        DifferSnoc(taken);
      }
    }
  }

  lemma {:induction false} OneMoreIndex(used: set<nat>, more: set<nat>)
    ensures |used + more| <= |used| + |more|
    ensures |used + more| == |used| + |more| ==> used !! more
  {
    assert used + more == used + (more - used) && more == (more - used) + (more * used);
    assert |used + more| == |used| + |more - used| && |more| == |more - used| + |more * used|;
  }

  lemma {:induction false} DifferSnoc(taken: seq<Message>)
    requires taken != [] && LotsDiffer(taken[..|taken| - 1])
    requires forall i: nat :: i < |taken| - 1 && taken[i].LeafMessage? && taken[|taken| - 1].LeafMessage? ==>
      taken[i].leaf.lotId != taken[|taken| - 1].leaf.lotId
    ensures LotsDiffer(taken)
  {
    var before := taken[..|taken| - 1];
    assert forall i: nat :: i < |before| ==> before[i] == taken[i];
  }

  // ----- the inputs evaluated so far

  function LeafTasks(taken: seq<Message>): seq<LeafTask>
  {
    if taken == [] then []
    else LeafTasks(taken[..|taken| - 1]) + if taken[|taken| - 1].LeafMessage? then [taken[|taken| - 1].leaf] else []
  }

  /** The leaves taken since the last epoch's end. */
  function Pending(taken: seq<Message>): seq<LeafTask>
  {
    if taken == [] || taken[|taken| - 1].EpochEnd? then []
    else Pending(taken[..|taken| - 1]) + [taken[|taken| - 1].leaf]
  }

  lemma {:induction false} PendingIsSuffix(taken: seq<Message>)
    ensures |Pending(taken)| <= |LeafTasks(taken)|
    ensures Pending(taken) == LeafTasks(taken)[|LeafTasks(taken)| - |Pending(taken)|..]
  {
    if taken != [] { PendingIsSuffix(taken[..|taken| - 1]); }
  }

  /** An input for the task, under the cell's snapshot and the lot's key. */
  ghost predicate InputOf(setup: Setup, task: LeafTask, input: Policy.PolicyInput)
  {
    && input.epochId == task.epochId && input.lotId == task.lotId && input.nullifierKey == setup.keyOf(task.lotId)
    && input.polygon == setup.snapshot.polygon && input.polygonNonce == setup.snapshot.polygonNonce
    && input.certificateRoot == Registry.SnapshotRoot(setup.env, setup.snapshot.credentials)
  }

  ghost predicate Evaluated(setup: Setup, tasks: seq<LeafTask>, inputs: seq<Policy.PolicyInput>)
  {
    |inputs| == |tasks| && forall k: nat :: k < |inputs| ==> InputOf(setup, tasks[k], inputs[k])
  }

  ghost function WordsOf(env: Policy.Env, input: Policy.PolicyInput): Words
    requires Policy.WellFormed(env, input) && Policy.Evaluate(env, input).Ok?
  {
    Disclosure.LeafAbi(Policy.Evaluate(env, input).value)
  }

  /**
   * The words are those of an accepted input for the task, from the used set's root to the root with its
   * index added.
   */
  ghost predicate Publishes(setup: Setup, used: set<nat>, task: LeafTask, input: Policy.PolicyInput, leaf: Words)
  {
    && Policy.WellFormed(setup.env, input) && Policy.Evaluate(setup.env, input).Ok? && InputOf(setup, task, input)
    && leaf == WordsOf(setup.env, input)
    && var v := Policy.Evaluate(setup.env, input).value;
       && v.oldNullifierRoot == SparseNullifiers.SetRoot(setup.env.depth, used)
       && v.newNullifierRoot
            == SparseNullifiers.SetRoot(setup.env.depth, used + {BigEndian(IndexOf(setup, task.lotId))})
  }

  /** Where the chain of inputs ends: at the root of the used set. */
  ghost predicate EndsAt(env: Policy.Env, inputs: seq<Policy.PolicyInput>, used: set<nat>)
    requires NoLotTwice.AllAccepted(env, inputs)
  {
    if inputs == [] then used == {}
    else Policy.Evaluate(env, inputs[|inputs| - 1]).value.newNullifierRoot == SparseNullifiers.SetRoot(env.depth, used)
  }

  /**
   * The inputs are those of the leaves taken, chained from the empty map, and the pending words are the
   * last ones published.
   */
  ghost predicate Recorded(setup: Setup, taken: seq<Message>, inputs: seq<Policy.PolicyInput>, leaves: seq<Words>)
  {
    && Evaluated(setup, LeafTasks(taken), inputs) && NoLotTwice.ChainedRun(setup.env, inputs)
    && EndsAt(setup.env, inputs, UsedBy(setup, taken))
    && |leaves| == |Pending(taken)| <= |inputs|
    && Archive.LeafNodes(leaves) == EndToEnd.Published(setup.env, inputs)[|inputs| - |leaves|..]
  }

  lemma {:induction false} ChainSnoc(env: Policy.Env, inputs: seq<Policy.PolicyInput>, input: Policy.PolicyInput,
                                     used: set<nat>)
    requires NoLotTwice.ChainedRun(env, inputs) && EndsAt(env, inputs, used)
    requires Policy.WellFormed(env, input) && Policy.Evaluate(env, input).Ok?
    requires Policy.Evaluate(env, input).value.oldNullifierRoot == SparseNullifiers.SetRoot(env.depth, used)
    ensures NoLotTwice.ChainedRun(env, inputs + [input])
  {
    hide Policy.Evaluate;
    StepsSnoc(env, inputs, input);
    var chain := NoLotTwice.ChainOf(env, inputs);
    if inputs != [] { assert chain[|chain| - 1] == NoLotTwice.StepOf(env, inputs[|inputs| - 1]); }
    LinkSnoc(env.depth, chain, NoLotTwice.StepOf(env, input));
  }

  lemma {:induction false} StepsSnoc(env: Policy.Env, inputs: seq<Policy.PolicyInput>, input: Policy.PolicyInput)
    requires NoLotTwice.AllAccepted(env, inputs) && Policy.WellFormed(env, input) && Policy.Evaluate(env, input).Ok?
    ensures NoLotTwice.AllAccepted(env, inputs + [input])
    ensures NoLotTwice.ChainOf(env, inputs + [input])
        == NoLotTwice.ChainOf(env, inputs) + [NoLotTwice.StepOf(env, input)]
  {
    hide Policy.Evaluate;
    assert forall k: nat :: k < |inputs| ==> (inputs + [input])[k] == inputs[k];
  }

  lemma {:induction false} LinkSnoc(depth: nat, chain: seq<NoLotTwice.RootStep>, step: NoLotTwice.RootStep)
    requires NoLotTwice.Chained(depth, chain)
    requires step.oldRoot == if chain == [] then SparseNullifiers.SetRoot(depth, {}) else chain[|chain| - 1].newRoot
    ensures NoLotTwice.Chained(depth, chain + [step])
  {
  }

  lemma {:induction false} PublishedSnoc(env: Policy.Env, inputs: seq<Policy.PolicyInput>, input: Policy.PolicyInput,
                                         leaves: seq<Words>)
    requires NoLotTwice.AllAccepted(env, inputs) && NoLotTwice.AllAccepted(env, inputs + [input])
    requires Policy.WellFormed(env, input) && Policy.Evaluate(env, input).Ok?
    requires |leaves| <= |inputs| && Archive.LeafNodes(leaves) == EndToEnd.Published(env, inputs)[|inputs| - |leaves|..]
    ensures Archive.LeafNodes(leaves + [WordsOf(env, input)])
         == EndToEnd.Published(env, inputs + [input])[|inputs| - |leaves|..]
  {
    hide Policy.Evaluate;
    assert (inputs + [input])[..|inputs|] == inputs;
    assert Archive.LeafNodes(leaves + [WordsOf(env, input)]) == Archive.LeafNodes(leaves) + [Leaf(WordsOf(env, input))];
  }

  lemma {:induction false} LeafRecorded(setup: Setup, taken: seq<Message>, inputs: seq<Policy.PolicyInput>,
                                        leaves: seq<Words>, task: LeafTask, input: Policy.PolicyInput, leaf: Words)
    requires Recorded(setup, taken, inputs, leaves) && Publishes(setup, UsedBy(setup, taken), task, input, leaf)
    ensures Recorded(setup, taken + [LeafMessage(task)], inputs + [input], leaves + [leaf])
  {
    hide Policy.Evaluate;
    hide NoLotTwice.Chained;
    assert (taken + [LeafMessage(task)])[..|taken|] == taken;
    ChainSnoc(setup.env, inputs, input, UsedBy(setup, taken));
    PublishedSnoc(setup.env, inputs, input, leaves);
  }

  lemma {:induction false} EndRecorded(setup: Setup, taken: seq<Message>, inputs: seq<Policy.PolicyInput>,
                                       leaves: seq<Words>, epochId: U64)
    requires Recorded(setup, taken, inputs, leaves)
    ensures Recorded(setup, taken + [EpochEnd(epochId)], inputs, [])
  {
    hide Policy.Evaluate;
    hide NoLotTwice.Chained;
    assert (taken + [EpochEnd(epochId)])[..|taken|] == taken;
    EpochUses(setup, taken, epochId);
    assert Archive.LeafNodes([]) == EndToEnd.Published(setup.env, inputs)[|inputs|..];
  }

  // ----- when the pending leaves aggregate

  ghost predicate OneEpoch(tasks: seq<LeafTask>)
  {
    forall k: nat :: k < |tasks| ==> tasks[k].epochId == tasks[0].epochId
  }

  lemma {:induction false} InputsDiffer(setup: Setup, tasks: seq<LeafTask>, inputs: seq<Policy.PolicyInput>)
    requires Policy.ValidEnv(setup.env) && Evaluated(setup, tasks, inputs) && NoLotTwice.ChainedRun(setup.env, inputs)
    ensures NoLotTwice.LotsDiffer(inputs)
  {
    var env, chain := setup.env, NoLotTwice.ChainOf(setup.env, inputs);
    NoLotTwice.ChainAddsUnused(env, inputs);
    forall i: nat, j: nat | i < j < |inputs|
      ensures inputs[i].lotId != inputs[j].lotId
    {
      NoLotTwice.ChainIndicesDiffer(env.depth, chain, i, j);
      assert InputOf(setup, tasks[i], inputs[i]) && InputOf(setup, tasks[j], inputs[j]);
      assert chain[i] == NoLotTwice.StepOf(env, inputs[i]) && chain[j] == NoLotTwice.StepOf(env, inputs[j]);
    }
  }

  /** The input of the `k`-th pending leaf. */
  lemma {:induction false} PendingInput(setup: Setup, taken: seq<Message>, inputs: seq<Policy.PolicyInput>, k: nat)
    requires Evaluated(setup, LeafTasks(taken), inputs) && k < |Pending(taken)|
    ensures |Pending(taken)| <= |inputs| && InputOf(setup, Pending(taken)[k], inputs[|inputs| - |Pending(taken)| + k])
  {
    PendingIsSuffix(taken);
    var i := |inputs| - |Pending(taken)|;
    assert LeafTasks(taken)[i..][k] == LeafTasks(taken)[i + k];
  }

  lemma {:induction false} PendingShareEpoch(setup: Setup, taken: seq<Message>, inputs: seq<Policy.PolicyInput>)
    requires Evaluated(setup, LeafTasks(taken), inputs) && OneEpoch(Pending(taken)) && |Pending(taken)| <= |inputs|
    ensures EndToEnd.SameEpoch(inputs, |inputs| - |Pending(taken)|, |inputs|)
  {
    var i := |inputs| - |Pending(taken)|;
    forall k: nat | i <= k < |inputs|
      ensures InputOf(setup, Pending(taken)[k - i], inputs[k]) && InputOf(setup, Pending(taken)[0], inputs[i])
    {
      PendingInput(setup, taken, inputs, 0);
      PendingInput(setup, taken, inputs, k - i);
    }
  }

  lemma {:induction false} WordsNameEpoch(env: Policy.Env, input: Policy.PolicyInput)
    requires Policy.WellFormed(env, input) && Policy.Evaluate(env, input).Ok?
    ensures EpochOf(Leaf(WordsOf(env, input))) == input.epochId
  {
    Policy.EvaluateAcceptsExactly(env, input);
  }

  ghost predicate NamesEpochs(published: seq<EpochChild>, inputs: seq<Policy.PolicyInput>)
  {
    |published| == |inputs| && forall k: nat :: k < |inputs| ==> EpochOf(published[k]) == inputs[k].epochId
  }

  lemma {:induction false} NamesSnoc(published: seq<EpochChild>, inputs: seq<Policy.PolicyInput>, node: EpochChild,
                                     input: Policy.PolicyInput)
    requires NamesEpochs(published, inputs) && EpochOf(node) == input.epochId
    ensures NamesEpochs(published + [node], inputs + [input])
  {
  }

  lemma {:induction false} PublishedNameEpochs(env: Policy.Env, inputs: seq<Policy.PolicyInput>)
    requires NoLotTwice.AllAccepted(env, inputs)
    ensures NamesEpochs(EndToEnd.Published(env, inputs), inputs)
  {
    if inputs != [] {
      var n := |inputs| - 1;
      assert forall k: nat :: k < n ==> inputs[..n][k] == inputs[k];
      PublishedNameEpochs(env, inputs[..n]);
      WordsNameEpoch(env, inputs[n]);
      NamesSnoc(EndToEnd.Published(env, inputs[..n]), inputs[..n], Leaf(WordsOf(env, inputs[n])), inputs[n]);
      assert inputs == inputs[..n] + [inputs[n]];
    }
  }

  lemma {:induction false} PendingNamesEpoch(setup: Setup, taken: seq<Message>, inputs: seq<Policy.PolicyInput>,
                                             leaves: seq<Words>, published: seq<EpochChild>, k: nat)
    requires Evaluated(setup, LeafTasks(taken), inputs) && NamesEpochs(published, inputs)
    requires k < |leaves| == |Pending(taken)| <= |inputs|
    requires Archive.LeafNodes(leaves) == published[|inputs| - |leaves|..]
    ensures EpochOf(Archive.LeafNodes(leaves)[k]) == Pending(taken)[k].epochId
  {
    var i := |inputs| - |leaves| + k;
    assert Archive.LeafNodes(leaves)[k] == published[i];
    PendingInput(setup, taken, inputs, k);
  }

  /** A reduction of the pending leaves needs one epoch. */
  lemma {:induction false} ReducedIsOneEpoch(setup: Setup, keys: Keys, taken: seq<Message>,
                                             inputs: seq<Policy.PolicyInput>, leaves: seq<Words>,
                                             published: seq<EpochChild>)
    requires Evaluated(setup, LeafTasks(taken), inputs) && NamesEpochs(published, inputs)
    requires |leaves| == |Pending(taken)| <= |inputs| && Archive.LeafNodes(leaves) == published[|inputs| - |leaves|..]
    requires Reduce(keys, Archive.LeafNodes(leaves)).Ok?
    ensures OneEpoch(Pending(taken))
  {
    var nodes := Archive.LeafNodes(leaves);
    ReductionMeansList(keys, nodes);
    forall k: nat | k < |leaves|
      ensures EpochOf(nodes[k]) == Pending(taken)[k].epochId
    {
      PendingNamesEpoch(setup, taken, inputs, leaves, published, k);
    }
  }

  lemma {:induction false} OneEpochReduces(setup: Setup, keys: Keys, taken: seq<Message>,
                                           inputs: seq<Policy.PolicyInput>, leaves: seq<Words>)
    requires Policy.ValidEnv(setup.env) && Evaluated(setup, LeafTasks(taken), inputs)
        && NoLotTwice.ChainedRun(setup.env, inputs)
    requires 0 < |leaves| == |Pending(taken)| <= |inputs| && |leaves| * 64 < U64_LIMIT && OneEpoch(Pending(taken))
    requires Archive.LeafNodes(leaves) == EndToEnd.Published(setup.env, inputs)[|inputs| - |leaves|..]
    ensures Reduce(keys, Archive.LeafNodes(leaves)).Ok?
  {
    hide Policy.Evaluate;
    hide NoLotTwice.Chained;
    hide Evaluated;
    hide OneEpoch;
    InputsDiffer(setup, LeafTasks(taken), inputs);
    PendingShareEpoch(setup, taken, inputs);
    TailReduces(setup.env, keys, inputs, |inputs| - |leaves|);
  }

  lemma {:induction false} TailReduces(env: Policy.Env, keys: Keys, inputs: seq<Policy.PolicyInput>, i: nat)
    requires Policy.ValidEnv(env) && NoLotTwice.ChainedRun(env, inputs) && NoLotTwice.LotsDiffer(inputs)
    requires i < |inputs| && EndToEnd.SameEpoch(inputs, i, |inputs|) && (|inputs| - i) * 64 < U64_LIMIT
    ensures Reduce(keys, EndToEnd.Published(env, inputs)[i..]).Ok?
  {
    hide Policy.Evaluate;
    EndToEnd.EpochAggregates(env, keys, inputs, i, |inputs|);
    assert EndToEnd.Published(env, inputs)[i..|inputs|] == EndToEnd.Published(env, inputs)[i..];
  }

  /** The pending leaves of a cell always aggregate, unless they come from different epochs. */
  lemma {:induction false} PendingReduces(setup: Setup, keys: Keys, taken: seq<Message>,
                                          inputs: seq<Policy.PolicyInput>, leaves: seq<Words>)
    requires Policy.ValidEnv(setup.env) && Recorded(setup, taken, inputs, leaves)
    requires leaves != [] && |leaves| * 64 < U64_LIMIT
    ensures Reduce(keys, Archive.LeafNodes(leaves)).Ok? <==> OneEpoch(Pending(taken))
  {
    if OneEpoch(Pending(taken)) { OneEpochReduces(setup, keys, taken, inputs, leaves); }
    if Reduce(keys, Archive.LeafNodes(leaves)).Ok? {
      PublishedNameEpochs(setup.env, inputs);
      ReducedIsOneEpoch(setup, keys, taken, inputs, leaves, EndToEnd.Published(setup.env, inputs));
    }
  }

  // ----- what is pending when the schedule ends an epoch

  lemma {:induction false} PendingOfEpoch(before: seq<Message>, leaves: seq<LeafTask>)
    requires before == [] || before[|before| - 1].EpochEnd?
    ensures Pending(before + Producer.LeafMessages(leaves)) == leaves
  {
    var taken := before + Producer.LeafMessages(leaves);
    if leaves == [] {
      assert taken == before;
    } else {
      var n := |leaves| - 1;
      PendingOfEpoch(before, leaves[..n]);
      assert taken[..|taken| - 1] == before + Producer.LeafMessages(leaves[..n]);
      assert taken[|taken| - 1] == LeafMessage(leaves[n]);
    }
  }

  /** Where the schedule has an epoch's end, the pending leaves are that epoch's. */
  lemma {:induction false} EpochIsPending(tasks: seq<seq<LeafTask>>, taken: seq<Message>, epochId: U64) returns (e: nat)
    requires Producer.NoneEmpty(tasks) && taken + [EpochEnd(epochId)] <= Producer.Script(tasks)
    ensures e < |tasks| && Pending(taken) == tasks[e]
  {
    e := |tasks| - 1;
    var before, last := tasks[..e], Producer.LeafMessages(tasks[e]);
    var script := Producer.Script(before);
    assert Producer.Script(tasks) == script + last + [EpochEnd(tasks[e][0].epochId)];
    if |taken| < |script| {
      assert taken + [EpochEnd(epochId)] <= script;
      e := EpochIsPending(before, taken, epochId);
    } else {
      assert Producer.Script(tasks)[|taken|] == EpochEnd(epochId);
      assert |taken| == |script + last|;
      assert taken == Producer.Script(tasks)[..|taken|] == script + last;
      EndsOfScript(before);
      PendingOfEpoch(script, tasks[e]);
    }
  }
}
