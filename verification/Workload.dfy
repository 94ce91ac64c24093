/** The paced workload: shipments of an epoch, their split into leaves, and the messages that carry them. */
module Workload {
  import opened Primitives
  import opened Sequences
  import opened PolicyTypes
  import opened Policy

  datatype LeafTask = LeafTask(epochId: U64, lotId: U64, shipmentEnd: bool, events: seq<EventWitness>)

  datatype Message = LeafMessage(leaf: LeafTask) | EpochEnd(epochId: U64)

  predicate ShipmentSize(shipment: nat)
  {
    shipment == 16 || shipment == 32 || shipment == 64 || shipment == 128
  }

  ghost predicate AllBetween(s: seq<nat>, lo: nat, hi: nat)
  {
    forall x :: x in s ==> lo <= x <= hi
  }

  lemma {:induction false} SumOfEqual(n: nat, x: nat)
    ensures Sum(seq(n, _ => x)) == n * x
  {
    if n != 0 {
      assert seq(n, _ => x)[..n - 1] == seq(n - 1, _ => x);
      SumOfEqual(n - 1, x);
    }
  }

  /** `n` split into parts of at most `size`. */
  function Parts(n: nat, size: nat): nat
    requires size > 0
  {
    (n + size - 1) / size
  }

  /** Every part is full but the last two, and of these the first is full or the last is eight: one way to split. */
  ghost predicate FullButTail(parts: seq<nat>, size: nat)
  {
    && (forall k: nat :: k + 2 < |parts| ==> parts[k] == size)
    && (|parts| >= 2 ==> parts[|parts| - 2] == size || parts[|parts| - 1] == 8)
  }

  /** The branches on the tail: a short one borrows from the last full shipment. */
  method PlaceTail(full: seq<nat>, shipment: nat, tail: nat) returns (sizes: seq<nat>)
    requires ShipmentSize(shipment) && tail < shipment && forall x :: x in full ==> x == shipment
    ensures full != [] || tail >= MIN_EVENTS ==>
      && Sum(sizes) == Sum(full) + tail && AllBetween(sizes, MIN_EVENTS, shipment) && sizes != []
      && |sizes| == |full| + (if tail == 0 then 0 else 1) && FullButTail(sizes, shipment)
  {
    sizes := full;
    assert forall k: nat :: k < |full| ==> full[k] in full;
    if tail >= 8 {
      SumConcat(sizes, [tail]);
      sizes := sizes + [tail];
    } else if tail > 0 && sizes != [] {
      var last := |sizes| - 1;
      sizes := sizes[last := sizes[last] - (8 - tail)];
      assert sizes[..last] == full[..last];
      SumConcat(sizes, [8]);
      sizes := sizes + [8];
    }
  }

  /** `shipment_sizes`: as few shipments as possible, none of fewer than eight when the epoch has eight events. */
  method ShipmentSizes(events: nat, shipment: nat) returns (sizes: seq<nat>)
    requires ShipmentSize(shipment)
    ensures events >= MIN_EVENTS ==>
      && Sum(sizes) == events && AllBetween(sizes, MIN_EVENTS, shipment) && sizes != []
      && |sizes| == Parts(events, shipment) && FullButTail(sizes, shipment)
  {
    FullAndTail(events, shipment);
    SumOfEqual(events / shipment, shipment);
    sizes := PlaceTail(seq(events / shipment, _ => shipment), shipment, events % shipment);
  }

  lemma {:induction false} FullAndTail(events: nat, shipment: nat)
    requires ShipmentSize(shipment)
    ensures events == events / shipment * shipment + events % shipment && events % shipment < shipment
    ensures events / shipment == 0 <==> events < shipment
    ensures Parts(events, shipment) == events / shipment + if events % shipment == 0 then 0 else 1
  {
  }

  /** The leaf-splitting loop: as few leaves as possible, of 8 to 64 events, so its error branch is dead. */
  method SplitShipment(size: nat) returns (counts: seq<nat>)
    requires MIN_EVENTS <= size
    ensures Sum(counts) == size && AllBetween(counts, MIN_EVENTS, MAX_EVENTS) && counts != []
    ensures |counts| == Parts(size, MAX_EVENTS) && FullButTail(counts, MAX_EVENTS)
  {
    counts := [];
    var part := 0;
    while part < size
      invariant Sum(counts) == part <= size && AllBetween(counts, MIN_EVENTS, MAX_EVENTS)
      invariant part == size || size - part >= MIN_EVENTS
      invariant counts == [] ==> part == 0
      invariant |counts| + Parts(size - part, MAX_EVENTS) == Parts(size, MAX_EVENTS)
      invariant forall k: nat :: k + 1 < |counts| && (part < size || k + 2 < |counts|) ==> counts[k] == 64
      invariant counts != [] && part < size ==> counts[|counts| - 1] == 64 || size - part == 8
      invariant part == size ==> FullButTail(counts, MAX_EVENTS)
    {
      var remaining := size - part;
      var count := if remaining <= 64 then remaining else if remaining - 8 < 64 then remaining - 8 else 64;
      SumConcat(counts, [count]);
      counts := counts + [count];
      part := part + count;
    }
  }

  // ----- the leaves of an epoch

  /** The sizes of the shipments that the marked leaves end, `open` events being already in the first. */
  function Regroup(leaves: seq<nat>, ends: seq<bool>, open: nat): seq<nat>
    requires |leaves| == |ends|
  {
    if leaves == [] then []
    else if ends[0] then [open + leaves[0]] + Regroup(leaves[1..], ends[1..], 0)
    else Regroup(leaves[1..], ends[1..], open + leaves[0])
  }

  lemma {:induction false} RegroupConcat(a: seq<nat>, ea: seq<bool>, b: seq<nat>, eb: seq<bool>, open: nat)
    requires |a| == |ea| && |b| == |eb| && (a == [] ==> open == 0) && (ea != [] ==> ea[|ea| - 1])
    ensures Regroup(a + b, ea + eb, open) == Regroup(a, ea, open) + Regroup(b, eb, 0)
  {
    if a == [] {
      assert a + b == b && ea + eb == eb;
    } else {
      assert (a + b)[1..] == a[1..] + b && (ea + eb)[1..] == ea[1..] + eb;
      RegroupConcat(a[1..], ea[1..], b, eb, if ea[0] then 0 else open + a[0]);
    }
  }

  function LastOnly(n: nat): seq<bool>
  {
    if n == 0 then [] else seq(n - 1, _ => false) + [true]
  }

  lemma {:induction false} RegroupOne(counts: seq<nat>, open: nat)
    requires counts != []
    ensures Regroup(counts, LastOnly(|counts|), open) == [open + Sum(counts)]
  {
    SumConcat([counts[0]], counts[1..]);
    assert counts == [counts[0]] + counts[1..] && [counts[0]][..0] == [];
    if |counts| > 1 {
      assert LastOnly(|counts|)[1..] == LastOnly(|counts| - 1);
      RegroupOne(counts[1..], open + counts[0]);
    }
  }

  lemma {:induction false} ShipmentAdded(leaves: seq<nat>, ends: seq<bool>, sizes: seq<nat>, k: nat, counts: seq<nat>)
    requires |ends| == |leaves| && (leaves == [] <==> k == 0) && (k > 0 ==> ends[|ends| - 1])
    requires k < |sizes| && Regroup(leaves, ends, 0) == sizes[..k] && Sum(leaves) == Sum(sizes[..k])
    requires counts != [] && Sum(counts) == sizes[k]
    ensures Regroup(leaves + counts, ends + LastOnly(|counts|), 0) == sizes[..k + 1]
    ensures Sum(leaves + counts) == Sum(sizes[..k + 1])
    ensures var more := ends + LastOnly(|counts|); |more| == |leaves + counts| && more[|more| - 1]
  {
    hide Regroup;
    hide Sum;
    RegroupConcat(leaves, ends, counts, LastOnly(|counts|), 0);
    RegroupOne(counts, 0);
    SumConcat(leaves, counts);
    SumConcat(sizes[..k], [sizes[k]]);
    SumOfOne(sizes[k]);
    assert sizes[..k + 1] == sizes[..k] + [sizes[k]];
  }

  lemma {:induction false} SumOfOne(x: nat)
    ensures Sum([x]) == x
  {
    assert [x][..0] == [];
  }

  /** The leaf sizes of one epoch with, for each leaf, whether it ends its shipment. */
  method SplitEpoch(events: nat, shipment: nat) returns (leaves: seq<nat>, ends: seq<bool>)
    requires ShipmentSize(shipment) && events >= MIN_EVENTS
    ensures Sum(leaves) == events && AllBetween(leaves, MIN_EVENTS, MAX_EVENTS)
    ensures |ends| == |leaves| > 0 && ends[|ends| - 1]
    ensures var shipments := Regroup(leaves, ends, 0);
      && |shipments| == Parts(events, shipment) && Sum(shipments) == events
      && AllBetween(shipments, MIN_EVENTS, shipment) && FullButTail(shipments, shipment)
  {
    var sizes := ShipmentSizes(events, shipment);
    leaves, ends := [], [];
    for k := 0 to |sizes|
      invariant Sum(leaves) == Sum(sizes[..k]) && AllBetween(leaves, MIN_EVENTS, MAX_EVENTS)
      invariant |ends| == |leaves| && (leaves == [] <==> k == 0) && (k > 0 ==> ends[|ends| - 1])
      invariant Regroup(leaves, ends, 0) == sizes[..k]
    {
      hide Regroup;
      hide Sum;
      assert sizes[k] in sizes;
      var counts := SplitShipment(sizes[k]);
      ShipmentAdded(leaves, ends, sizes, k, counts);
      leaves := leaves + counts;
      ends := ends + LastOnly(|counts|);
    }
    assert sizes[..|sizes|] == sizes;
  }
}
