/**
 The sharding plan around the apportionment (runtime/dynamic_sharding.py,
 calculate_sharding_plan): eligible nodes, their order, contiguous layer ranges, and the
 bytes each range takes. Latency and throughput estimates are not modelled.
 */
module ShardPlanner {
  import opened Basics
  import opened StableSort
  import opened Apportionment

  datatype Node = Node(nodeId: string, vram: int, tflops: real, bandwidth: real, isLocal: bool, healthy: bool)

  datatype Assignment = Assignment(
    nodeId: string, startLayer: int, endLayer: int, allocatedVram: int, layers: int, isLocal: bool)

  datatype Plan =
    | NoHealthyNodes
    | InsufficientVram
    | Feasible(assignments: seq<Assignment>)

  datatype Request = Request(
    layers: int, modelVram: int, reserve: int, minBandwidth: real, timedOut: set<string>)

  // ------------------------------------------------------------- what is asked

  /** Healthy, not silent for too long, with memory above the reserve and enough bandwidth. */
  predicate Usable(n: Node, q: Request) {
    n.healthy && n.nodeId !in q.timedOut && n.vram > q.reserve && n.bandwidth >= q.minBandwidth
  }

  /** Local nodes first, then more compute, then more memory, then as given. */
  predicate Before(nodes: seq<Node>, i: int, j: int)
    requires 0 <= i < |nodes| && 0 <= j < |nodes|
  {
    var a, b := nodes[i], nodes[j];
    || (a.isLocal && !b.isLocal)
    || (a.isLocal == b.isLocal && a.tflops > b.tflops)
    || (a.isLocal == b.isLocal && a.tflops == b.tflops && a.vram > b.vram)
    || (a.isLocal == b.isLocal && a.tflops == b.tflops && a.vram == b.vram && i < j)
  }

  /** `at` are the places of the usable nodes in the order of preference, `order` the nodes
      there, and `w` their free bytes. */
  ghost predicate Ranking(nodes: seq<Node>, q: Request, at: seq<int>, order: seq<Node>, w: seq<int>) {
    && |at| == |order| == |w|
    && (forall k :: 0 <= k < |at| ==> 0 <= at[k] < |nodes| && order[k] == nodes[at[k]])
    && (forall k :: 0 <= k < |at| ==> Usable(order[k], q) && w[k] == order[k].vram - q.reserve)
    && (forall i :: 0 <= i < |nodes| && Usable(nodes[i], q) ==> i in at)
    && (forall j, k :: 0 <= j < k < |at| ==> Before(nodes, at[j], at[k]))
  }

  /** The whole bytes that `count` layers take, with the fraction of a byte dropped. */
  predicate ByteShare(bytes: int, count: int, q: Request) {
    var layers := if q.layers > 0 then q.layers else 1;
    if count * q.modelVram >= 0
    then bytes * layers <= count * q.modelVram < (bytes + 1) * layers
    else (bytes - 1) * layers < count * q.modelVram <= bytes * layers
  }

  /** The places of the positive counts, in order. */
  function Positive(counts: seq<int>): seq<int> {
    if counts == [] then []
    else
      var n := |counts| - 1;
      Positive(counts[..n]) + if counts[n] > 0 then [n] else []
  }

  /** One assignment for each node with a positive count, in order. */
  ghost predicate Laid(a: seq<Assignment>, order: seq<Node>, counts: seq<int>, pick: seq<int>, q: Request) {
    && |pick| == |a| && |counts| == |order|
    && forall k :: 0 <= k < |a| ==> 0 <= pick[k] < |order| && LaidFor(a[k], order[pick[k]], counts[pick[k]], q)
  }

  predicate LaidFor(a: Assignment, n: Node, count: int, q: Request) {
    && a.nodeId == n.nodeId && a.isLocal == n.isLocal
    && a.layers == count > 0 && ByteShare(a.allocatedVram, count, q)
  }

  /** Ranges start at `from`, each follows the one before it, and the last ends before `to`. */
  predicate Chain(a: seq<Assignment>, from: int, to: int) {
    if a == [] then from == to
    else
      && a[0].startLayer == from && a[0].layers > 0
      && a[0].endLayer == from + a[0].layers - 1
      && Chain(a[1..], from + a[0].layers, to)
  }

  function TotalVram(a: seq<Assignment>): int {
    if a == [] then 0 else a[0].allocatedVram + TotalVram(a[1..])
  }

  /** What a feasible plan promises: the best split, laid out in order of preference as a
      partition of the layers, the model's bytes but for a fraction of a byte per assignment, and no
      node over its free memory by as much as one layer's share. */
  ghost predicate SoundPlan(
    a: seq<Assignment>, order: seq<Node>, w: seq<int>, counts: seq<int>, q: Request)
  {
    var pick := Positive(counts);
    && |order| == |w| == |counts| && Sum(w) > 0
    && (q.layers >= 0 ==> BestSplit(w, q.layers, Sum(w), counts))
    && Laid(a, order, counts, pick, q) && Chain(a, 0, Max(0, q.layers))
    && (q.layers > 0 && q.modelVram >= 0 ==>
          && TotalVram(a) <= q.modelVram < TotalVram(a) + |a|
          && forall k :: 0 <= k < |a| ==> (a[k].allocatedVram - w[pick[k]]) * q.layers < Max(1, q.modelVram))
  }

  ghost predicate PlanSpec(plan: Plan, q: Request, order: seq<Node>, w: seq<int>) {
    match plan
    case NoHealthyNodes => order == []
    case InsufficientVram => order != [] && Sum(w) < q.modelVram
    case Feasible(a) =>
      order != [] && q.modelVram <= Sum(w) && exists counts :: SoundPlan(a, order, w, counts, q)
  }

  // ------------------------------------------------------------------- order

  function Eligible(nodes: seq<Node>, q: Request): seq<Node> {
    Filter(nodes, (n: Node) =>
      n.healthy && n.nodeId !in q.timedOut && n.vram - q.reserve > 0 && n.bandwidth >= q.minBandwidth)
  }

  /** Sorting is by the key (local, compute, memory) in reverse. */
  predicate NotAfter(a: Node, b: Node) {
    if a.isLocal != b.isLocal then a.isLocal
    else if a.tflops != b.tflops then a.tflops > b.tflops
    else a.vram >= b.vram
  }

  lemma NotAfterIsTotal()
    ensures TotalPreorder(NotAfter)
  {
  }

  function Ordered(nodes: seq<Node>, q: Request): seq<Node> {
    Sort(Eligible(nodes, q), NotAfter)
  }

  function Weights(nodes: seq<Node>, q: Request): (w: seq<int>)
    ensures |w| == |nodes|
  {
    seq(|nodes|, i requires 0 <= i < |nodes| => nodes[i].vram - q.reserve)
  }

  lemma {:induction false} WeightsSum(nodes: seq<Node>, q: Request)
    ensures Sum(Weights(nodes, q)) == SumBy(nodes, (n: Node) => n.vram - q.reserve)
  {
    if nodes != [] {
      WeightsSum(nodes[1..], q);
      assert Weights(nodes, q)[1..] == Weights(nodes[1..], q);
    }
  }

  lemma RankedBefore(nodes: seq<Node>, i: int, j: int)
    requires 0 <= i < |nodes| && 0 <= j < |nodes|
    requires NotAfter(nodes[i], nodes[j]) && (NotAfter(nodes[j], nodes[i]) ==> i < j)
    ensures Before(nodes, i, j)
  {
  }

  /** The filtered and sorted nodes are the ranking. */
  lemma OrderedRanks(nodes: seq<Node>, q: Request) returns (at: seq<int>)
    ensures var order := Ordered(nodes, q);
      |order| == |Eligible(nodes, q)| && Ranking(nodes, q, at, order, Weights(order, q))
  {
    NotAfterIsTotal();
    at := FilterSortPlaces(nodes, (n: Node) =>
      n.healthy && n.nodeId !in q.timedOut && n.vram - q.reserve > 0 && n.bandwidth >= q.minBandwidth, NotAfter);
    forall j, k | 0 <= j < k < |at|
      ensures Before(nodes, at[j], at[k])
    {
      RankedBefore(nodes, at[j], at[k]);
    }
  }

  // ------------------------------------------------------------------- layout

  predicate Holds(a: Assignment, layer: int) {
    a.startLayer <= layer <= a.endLayer
  }

  lemma {:induction false} ChainBounds(a: seq<Assignment>, from: int, to: int, k: nat)
    requires Chain(a, from, to) && k < |a|
    ensures from <= a[k].startLayer <= a[k].endLayer < to
  {
    if |a| > 1 {
      ChainBounds(a[1..], from + a[0].layers, to, if k == 0 then 0 else k - 1);
    }
  }

  /** A chain is a partition: every layer in range is held by exactly one assignment, and no
      assignment holds a layer out of range. */
  lemma {:induction false} ChainPartitions(a: seq<Assignment>, from: int, to: int, layer: int) returns (k: int)
    requires Chain(a, from, to)
    ensures from <= layer < to ==> 0 <= k < |a| && Holds(a[k], layer)
    ensures forall j :: 0 <= j < |a| && Holds(a[j], layer) ==> j == k && from <= layer < to
  {
    k := 0;
    if a != [] {
      var rest := ChainPartitions(a[1..], from + a[0].layers, to, layer);
      if layer >= from + a[0].layers {
        k := rest + 1;
      }
      ChainBounds(a, from, to, 0);
      forall j | 0 <= j < |a| && Holds(a[j], layer)
        ensures j == k && from <= layer < to
      {
        ChainBounds(a, from, to, j);
        if j > 0 {
          assert Holds(a[1..][j - 1], layer);
        }
      }
    }
  }

  lemma {:induction false} ChainAppend(a: seq<Assignment>, from: int, to: int, last: Assignment)
    requires Chain(a, from, to)
    requires last.startLayer == to && last.layers > 0 && last.endLayer == to + last.layers - 1
    ensures Chain(a + [last], from, to + last.layers)
  {
    if a == [] {
      assert a + [last] == [last] && [last][1..] == [];
    } else {
      assert (a + [last])[1..] == a[1..] + [last];
      ChainAppend(a[1..], from + a[0].layers, to, last);
    }
  }

  // ------------------------------------------------------------------- bytes

  lemma TruncatedShare(x: int, layers: int)
    requires layers > 0
    ensures var v := TruncDiv(x, layers);
      if x >= 0 then v * layers <= x < (v + 1) * layers else (v - 1) * layers < x <= v * layers
  {
    var v := TruncDiv(x, layers);
    Distribute(v, 1, layers);
    Distribute(v, -1, layers);
    DivBounds(Abs(x), layers);
    if x < 0 {
      assert v * layers == -(layers * ((-x) / layers));
    }
  }

  function AllocatedBytes(count: int, q: Request): (bytes: int)
    ensures ByteShare(bytes, count, q)
  {
    TruncatedShare(count * q.modelVram, Max(1, q.layers));
    TruncDiv(count * q.modelVram, Max(1, q.layers))
  }

  /** The bytes of a chain: no more than its layers' share, and less than a byte per assignment
      missing. */
  lemma {:induction false} ChainBytes(a: seq<Assignment>, from: int, to: int, q: Request)
    requires Chain(a, from, to) && q.layers > 0 && q.modelVram >= 0
    requires forall k :: 0 <= k < |a| ==> a[k].layers > 0 && ByteShare(a[k].allocatedVram, a[k].layers, q)
    ensures TotalVram(a) * q.layers <= (to - from) * q.modelVram <= (TotalVram(a) + |a|) * q.layers
    ensures a != [] ==> (to - from) * q.modelVram < (TotalVram(a) + |a|) * q.layers
  {
    if a != [] {
      var rest, next := a[1..], from + a[0].layers;
      ChainBytes(rest, next, to, q);
      MulMono(0, a[0].layers, q.modelVram);
      Distribute(a[0].layers, to - next, q.modelVram);
      Distribute(a[0].allocatedVram, TotalVram(rest), q.layers);
      Distribute(a[0].allocatedVram + 1, TotalVram(rest) + |rest|, q.layers);
      assert TotalVram(a) + |a| == a[0].allocatedVram + 1 + (TotalVram(rest) + |rest|);
    }
  }

  lemma PlanBytes(a: seq<Assignment>, q: Request)
    requires Chain(a, 0, q.layers) && q.layers > 0 && q.modelVram >= 0
    requires forall k :: 0 <= k < |a| ==> a[k].layers > 0 && ByteShare(a[k].allocatedVram, a[k].layers, q)
    ensures TotalVram(a) <= q.modelVram < TotalVram(a) + |a|
  {
    ChainBytes(a, 0, q.layers, q);
    Distribute(q.modelVram, 1, q.layers);
    MulLess(TotalVram(a), q.modelVram + 1, q.layers);
    MulLess(q.modelVram, TotalVram(a) + |a|, q.layers);
  }

  lemma ShareArithmetic(x: int, f: int, m: int, total: int, count: int)
    requires x <= count * m && total * count < f + total && 0 < m <= total && f >= 0
    ensures x < f + m
  {
    MulMono(x, count * m, total);
    MulMono(total * count + 1, f + total, m);
    MulMono(m, total, f);
    Distribute(f, total, m);
    Distribute(total * count, 1, m);
    Distribute(f, m, total);
    assert (count * m) * total == (total * count) * m;
    MulLess(x, f + m, total);
  }

  /** Whoever gets the floor or ceiling of its quota exceeds its free bytes by less than one
      layer's share of the model. */
  lemma ShareBound(free: int, total: int, count: int, bytes: int, q: Request)
    requires q.layers > 0 && 0 <= q.modelVram <= total && total > 0 && free > 0 && count >= 0
    requires FloorOrCeiling(free, q.layers, total, count) && ByteShare(bytes, count, q)
    ensures (bytes - free) * q.layers < Max(1, q.modelVram)
  {
    MulMono(0, count, q.modelVram);
    MulMono(1, free, q.layers);
    Distribute(bytes, -free, q.layers);
    if q.modelVram > 0 {
      ShareArithmetic(bytes * q.layers, free * q.layers, q.modelVram, total, count);
    } else {
      assert count * q.modelVram == 0;
    }
  }

  // -------------------------------------------------------------------- plan

  /** The layers that the positive counts take. */
  function Used(counts: seq<int>): int {
    if counts == [] then 0 else Used(counts[..|counts| - 1]) + Max(0, counts[|counts| - 1])
  }

  lemma {:induction false} UsedIsSum(counts: seq<int>)
    requires forall i :: 0 <= i < |counts| ==> counts[i] >= 0
    ensures Used(counts) == Sum(counts)
  {
    if counts != [] {
      var front, last := counts[..|counts| - 1], counts[|counts| - 1];
      UsedIsSum(front);
      Unsnoc(counts);
      SumConcat(front, [last]);
      assert [last][1..] == [] && Sum([last]) == last;
    }
  }

  lemma {:induction false} UsedIsNothing(counts: seq<int>)
    requires forall i :: 0 <= i < |counts| ==> counts[i] <= 0
    ensures Used(counts) == 0
  {
    if counts != [] {
      UsedIsNothing(counts[..|counts| - 1]);
    }
  }

  /** The picked places are those of the positive counts, each once and in order. */
  lemma {:induction false} PositiveSpec(counts: seq<int>)
    ensures forall i :: i in Positive(counts) <==> 0 <= i < |counts| && counts[i] > 0
    ensures forall j, k :: 0 <= j < k < |Positive(counts)| ==> Positive(counts)[j] < Positive(counts)[k]
  {
    if counts != [] {
      var n := |counts| - 1;
      PositiveSpec(counts[..n]);
      forall k | 0 <= k < |Positive(counts[..n])|
        ensures Positive(counts[..n])[k] < n
      {
        assert Positive(counts[..n])[k] in Positive(counts[..n]);
      }
    }
  }

  /** Consecutive ranges for the nodes with a positive count. */
  method BuildAssignments(order: seq<Node>, counts: seq<int>, q: Request) returns (a: seq<Assignment>)
    requires |order| == |counts|
    ensures Laid(a, order, counts, Positive(counts), q) && Chain(a, 0, Used(counts))
  {
    a := [];
    var current := 0;
    for i := 0 to |order|
      invariant current == Used(counts[..i]) && Chain(a, 0, current)
      invariant Laid(a, order, counts, Positive(counts[..i]), q)
    {
      assert counts[..i + 1][..i] == counts[..i];
      if counts[i] > 0 {
        var start := current;
        current := current + counts[i];
        var bytes := AllocatedBytes(counts[i], q);
        var last := Assignment(order[i].nodeId, start, current - 1, bytes, counts[i], order[i].isLocal);
        ChainAppend(a, 0, start, last);
        LaidAppend(a, order, counts, Positive(counts[..i]), q, i, last);
        a := a + [last];
      }
    }
    assert counts[..|order|] == counts;
  }

  lemma LaidAppend(
    a: seq<Assignment>, order: seq<Node>, counts: seq<int>, pick: seq<int>, q: Request, i: nat, last: Assignment)
    requires Laid(a, order, counts, pick, q) && i < |order| && LaidFor(last, order[i], counts[i], q)
    ensures Laid(a + [last], order, counts, pick + [i], q)
  {
  }

  method CalculateShardingPlan(nodes: seq<Node>, q: Request) returns (plan: Plan)
    ensures exists at, order, w :: Ranking(nodes, q, at, order, w) && PlanSpec(plan, q, order, w)
    ensures plan.NoHealthyNodes? <==> forall n :: n in nodes ==> !Usable(n, q)
  {
    var eligible, order := Eligible(nodes, q), Ordered(nodes, q);
    ghost var at := OrderedRanks(nodes, q);
    OrderFacts(eligible, order, q);
    if eligible == [] {
      plan := NoHealthyNodes;
    } else if Sum(Weights(eligible, q)) < q.modelVram {
      plan := InsufficientVram;
    } else {
      var assignments := PlanFor(order, q);
      plan := Feasible(assignments);
    }
    assert PlanSpec(plan, q, order, Weights(order, q));
  }

  method PlanFor(order: seq<Node>, q: Request) returns (a: seq<Assignment>)
    requires order != [] && AllPositive(Weights(order, q)) && q.modelVram <= Sum(Weights(order, q))
    ensures exists counts :: SoundPlan(a, order, Weights(order, q), counts, q)
  {
    var counts := Apportion(Weights(order, q), q.layers);
    a := BuildAssignments(order, counts, q);
    PlanFacts(order, Weights(order, q), counts, a, q);
  }

  lemma OrderFacts(eligible: seq<Node>, order: seq<Node>, q: Request)
    requires order == Sort(eligible, NotAfter)
    ensures Sum(Weights(order, q)) == Sum(Weights(eligible, q))
  {
    WeightsSum(eligible, q);
    WeightsSum(order, q);
    SumBySort(eligible, NotAfter, (n: Node) => n.vram - q.reserve);
  }

  lemma PlanFacts(order: seq<Node>, w: seq<int>, counts: seq<int>, a: seq<Assignment>, q: Request)
    requires |w| == |order| && AllPositive(w) && Sum(w) > 0 && q.modelVram <= Sum(w)
    requires Laid(a, order, counts, Positive(counts), q) && Chain(a, 0, Used(counts))
    requires q.layers >= 0 ==> BestSplit(w, q.layers, Sum(w), counts)
    requires q.layers < 0 ==> forall i :: 0 <= i < |counts| ==> counts[i] <= 0
    ensures SoundPlan(a, order, w, counts, q)
  {
    var pick := Positive(counts);
    if q.layers < 0 {
      UsedIsNothing(counts);
    } else {
      UsedIsSum(counts);
    }
    if q.layers > 0 && q.modelVram >= 0 {
      SharesWithin(order, w, counts, a, pick, q);
      PlanBytes(a, q);
    }
  }

  lemma SharesWithin(order: seq<Node>, w: seq<int>, counts: seq<int>, a: seq<Assignment>, pick: seq<int>, q: Request)
    requires |w| == |order| == |counts| && AllPositive(w) && 0 <= q.modelVram <= Sum(w) && Sum(w) > 0 && q.layers > 0
    requires forall i :: 0 <= i < |w| ==> FloorOrCeiling(w[i], q.layers, Sum(w), counts[i])
    requires Laid(a, order, counts, pick, q)
    ensures forall k :: 0 <= k < |a| ==> a[k].layers > 0 && ByteShare(a[k].allocatedVram, a[k].layers, q)
    ensures forall k :: 0 <= k < |a| ==> (a[k].allocatedVram - w[pick[k]]) * q.layers < Max(1, q.modelVram)
  {
    forall k | 0 <= k < |a|
      ensures (a[k].allocatedVram - w[pick[k]]) * q.layers < Max(1, q.modelVram)
    {
      ShareBound(w[pick[k]], Sum(w), counts[pick[k]], a[k].allocatedVram, q);
    }
  }
}
