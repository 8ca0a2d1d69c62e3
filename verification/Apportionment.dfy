/**
 Largest-remainder apportionment (the allocation step of calculate_sharding_plan in
 runtime/dynamic_sharding.py).

 Quotas are exact: with weights `w[i]` (free bytes), their sum `s` and `n` layers, node `i`
 is due `w[i] * n / s` layers. All statements are about the integers `w[i] * n` and `s`.
 */
module Apportionment {
  import opened Basics
  import opened StableSort

  // -------------------------------------------------------------- arithmetic

  /** Python's `int(a / b)` for positive b: truncation toward zero. */
  function TruncDiv(a: int, b: int): int
    requires b > 0
  {
    if a >= 0 then a / b else -((-a) / b)
  }

  lemma DivBounds(a: int, b: int)
    requires a >= 0 && b > 0
    ensures b * (a / b) <= a < b * (a / b) + b
    ensures a / b >= 0
  {
  }

  /** The integer numerator of what a node's whole-layer share leaves over. */
  function Remainder(weight: int, layers: int, total: int): int
    requires total > 0
  {
    weight * layers - total * TruncDiv(weight * layers, total)
  }

  function Floors(w: seq<int>, layers: int, total: int): (r: seq<int>)
    requires total > 0
    ensures |r| == |w|
  {
    seq(|w|, i requires 0 <= i < |w| => TruncDiv(w[i] * layers, total))
  }

  function Remainders(w: seq<int>, layers: int, total: int): (r: seq<int>)
    requires total > 0
    ensures |r| == |w|
  {
    seq(|w|, i requires 0 <= i < |w| => Remainder(w[i], layers, total))
  }

  predicate AllPositive(w: seq<int>) {
    forall i :: 0 <= i < |w| ==> w[i] > 0
  }

  lemma {:induction false} SumPositive(w: seq<int>)
    requires AllPositive(w) && w != []
    ensures Sum(w) > 0
  {
    if |w| > 1 {
      SumPositive(w[1..]);
    }
  }

  lemma RemainderBounds(weight: int, layers: int, total: int)
    requires weight > 0 && layers >= 0 && total > 0
    ensures 0 <= Remainder(weight, layers, total) < total
  {
    assert weight * layers >= 0;
    DivBounds(weight * layers, total);
  }

  /** The leftover layers, times the total weight, are exactly the remainders. */
  lemma {:induction false} RemaindersAddUp(w: seq<int>, layers: int, total: int)
    requires total > 0
    ensures Sum(Remainders(w, layers, total)) == Sum(w) * layers - total * Sum(Floors(w, layers, total))
  {
    if w != [] {
      var f, g := Floors(w, layers, total), Remainders(w, layers, total);
      var f', g' := Floors(w[1..], layers, total), Remainders(w[1..], layers, total);
      RemaindersAddUp(w[1..], layers, total);
      assert f[1..] == f' && g[1..] == g';
      Distribute(w[0], Sum(w[1..]), layers);
      Distribute(f[0], Sum(f'), total);
      assert g[0] == w[0] * layers - total * f[0];
    }
  }

  // --------------------------------------------------------- remainder order

  function Numbered(r: seq<int>): (s: seq<(int, int)>)
    ensures |s| == |r|
  {
    seq(|r|, i requires 0 <= i < |r| => (r[i], i))
  }

  predicate NotSmaller(a: (int, int), b: (int, int)) {
    a.0 >= b.0
  }

  /** Node indexes, largest remainder first, ties in node order. */
  function ByRemainder(r: seq<int>): seq<(int, int)> {
    Sort(Numbered(r), NotSmaller)
  }

  lemma NumberedInOrder(r: seq<int>) returns (at: seq<int>)
    ensures Places(Numbered(r), ByRemainder(r), at) && InStableOrder(ByRemainder(r), at, NotSmaller)
    ensures |at| == |r| && forall k :: 0 <= k < |r| ==> 0 <= at[k] < |r| && ByRemainder(r)[k] == (r[at[k]], at[k])
    ensures Distinct(ByRemainder(r))
  {
    at := SortIsStable(Numbered(r), NotSmaller);
    SortKeepsDistinct(Numbered(r), NotSmaller);
  }

  lemma ByRemainderSpec(r: seq<int>)
    ensures |ByRemainder(r)| == |r|
    ensures forall k :: 0 <= k < |r| ==> var p := ByRemainder(r)[k]; 0 <= p.1 < |r| && p.0 == r[p.1]
    ensures forall j, k :: 0 <= j < k < |r| ==> ByRemainder(r)[j].0 >= ByRemainder(r)[k].0
    ensures forall j, k :: 0 <= j < k < |r| ==> ByRemainder(r)[j].1 != ByRemainder(r)[k].1
    ensures forall j, k :: 0 <= j < k < |r| && ByRemainder(r)[j].0 == ByRemainder(r)[k].0 ==>
      ByRemainder(r)[j].1 < ByRemainder(r)[k].1
    ensures forall i :: 0 <= i < |r| ==> (r[i], i) in ByRemainder(r)
  {
    var s := ByRemainder(r);
    var at := NumberedInOrder(r);
    forall i | 0 <= i < |r|
      ensures (r[i], i) in s
    {
      assert i in at;
      var k :| 0 <= k < |at| && at[k] == i;
      assert s[k] == (r[i], i);
    }
    forall j, k | 0 <= j < k < |r|
      ensures s[j].1 != s[k].1 && (s[j].0 == s[k].0 ==> s[j].1 < s[k].1)
    {
      assert s[j] != s[k];
      assert NotSmaller(s[k], s[j]) ==> at[j] < at[k];
    }
  }

  // ------------------------------------------------------------ apportionment

  function First(p: (int, int)): int {
    p.0
  }

  lemma {:induction false} PairsSum(r: seq<int>, from: nat)
    requires from <= |r|
    ensures SumBy(Numbered(r)[from..], First) == Sum(r[from..])
    decreases |r| - from
  {
    if from < |r| {
      PairsSum(r, from + 1);
      assert Numbered(r)[from..][1..] == Numbered(r)[from + 1..];
      assert r[from..][1..] == r[from + 1..];
    }
  }

  lemma OrderKeepsSum(r: seq<int>)
    ensures SumBy(ByRemainder(r), First) == Sum(r)
  {
    SumBySort(Numbered(r), NotSmaller, First);
    PairsSum(r, 0);
    assert Numbered(r)[0..] == Numbered(r) && r[0..] == r;
  }

  /** Remainders below `total`, all zero from position `m` on, cannot reach `(m + 1) * total`. */
  lemma {:induction false} SmallSum(s: seq<(int, int)>, m: nat, total: int)
    requires total > 0 && forall k :: 0 <= k < |s| ==> 0 <= s[k].0 < total
    requires forall k :: m <= k < |s| ==> s[k].0 == 0
    ensures 0 <= SumBy(s, First) <= m * total
  {
    if s != [] {
      if m == 0 {
        SmallSum(s[1..], 0, total);
      } else {
        SmallSum(s[1..], m - 1, total);
        Distribute(m - 1, 1, total);
      }
    }
  }

  function Leftover(w: seq<int>, layers: int, total: int): int
    requires total > 0
  {
    layers - Sum(Floors(w, layers, total))
  }

  lemma LeftoverProduct(w: seq<int>, layers: int)
    requires Sum(w) > 0
    ensures Sum(Remainders(w, layers, Sum(w))) == Leftover(w, layers, Sum(w)) * Sum(w)
  {
    RemaindersAddUp(w, layers, Sum(w));
    Distribute(layers, -Sum(Floors(w, layers, Sum(w))), Sum(w));
  }

  lemma LeftoverInOrder(order: seq<(int, int)>, left: int, total: int)
    requires total > 0 && order != [] && forall k :: 0 <= k < |order| ==> 0 <= order[k].0 < total
    requires forall j, k :: 0 <= j < k < |order| ==> order[j].0 >= order[k].0
    requires SumBy(order, First) == left * total
    ensures 0 <= left < |order| && (left > 0 ==> order[left - 1].0 > 0)
  {
    LargerThanSum(order, total);
    MulLess(left, |order|, total);
    SmallSum(order, |order|, total);
    Distribute(left, 1, total);
    MulLess(-1, left, total);
    if left > 0 && order[left - 1].0 == 0 {
      SmallSum(order, left - 1, total);
      Distribute(left - 1, 1, total);
    }
  }

  /** The number of leftover layers is within bounds, and every node that gets one of them has
      a positive remainder. */
  lemma LeftoverBounds(w: seq<int>, layers: int, total: int, order: seq<(int, int)>)
    requires w != [] && AllPositive(w) && layers >= 0 && total == Sum(w) > 0
    requires order == ByRemainder(Remainders(w, layers, total))
    ensures |order| == |w| && 0 <= Leftover(w, layers, total) < |w|
    ensures Leftover(w, layers, total) > 0 ==> order[Leftover(w, layers, total) - 1].0 > 0
  {
    var r := Remainders(w, layers, total);
    ByRemainderSpec(r);
    OrderKeepsSum(r);
    LeftoverProduct(w, layers);
    forall k | 0 <= k < |order|
      ensures 0 <= order[k].0 < total
    {
      RemainderBounds(w[order[k].1], layers, total);
    }
    LeftoverInOrder(order, Leftover(w, layers, total), total);
  }

  lemma {:induction false} LargerThanSum(s: seq<(int, int)>, total: int)
    requires s != [] && forall k :: 0 <= k < |s| ==> 0 <= s[k].0 < total
    ensures SumBy(s, First) < |s| * total
  {
    if |s| > 1 {
      LargerThanSum(s[1..], total);
      Distribute(|s| - 1, 1, total);
    }
  }

  /** Sum of the absolute deviations from the quotas, times the total weight. */
  function Deviation(w: seq<int>, layers: int, total: int, a: seq<int>): int
    requires |a| == |w|
  {
    if w == [] then 0
    else Abs(total * a[0] - w[0] * layers) + Deviation(w[1..], layers, total, a[1..])
  }

  /** Either the floor with a remainder at most `t`, or one more with a remainder at least `t`. */
  predicate OnThreshold(weight: int, layers: int, total: int, count: int, t: int)
    requires total > 0
  {
    var floor, r := TruncDiv(weight * layers, total), Remainder(weight, layers, total);
    (count == floor && r <= t) || (count == floor + 1 && r >= t && r > 0)
  }

  predicate ThresholdSplit(w: seq<int>, layers: int, total: int, a: seq<int>, t: int)
    requires total > 0
  {
    && |a| == |w| && 0 <= t <= total
    && forall i :: 0 <= i < |w| ==> OnThreshold(w[i], layers, total, a[i], t)
  }

  lemma Products(d: int, total: int, t: int)
    requires 0 <= t <= total
    ensures d >= 1 ==> d * total >= total && d * t >= t
    ensures d <= 0 ==> d * total <= d * t
  {
    if d >= 1 {
      MulMono(1, d, total);
      MulMono(1, d, t);
    } else {
      MulMono(t, total, -d);
    }
  }

  /** One node: moving from `a` to any `b` costs at least the slope of the threshold per layer. */
  lemma ExchangeBound(q: int, total: int, f: int, r: int, a: int, b: int, t: int)
    requires total > 0 && q == total * f + r && 0 <= r < total && 0 <= t <= total
    requires (a == f && r <= t) || (a == f + 1 && r >= t)
    ensures Abs(total * b - q) >= Abs(total * a - q) + (b - a) * (total - 2 * t)
  {
    var d := b - f;
    var z, y := d * total, d * t;
    Products(d, total, t);
    assert total * b - q == z - r by { Distribute(f, d, total); }
    assert d * (total - 2 * t) == z - 2 * y;
    if a == f {
      assert total * a - q == -r;
    } else {
      Distribute(f, 1, total);
      Distribute(d, -1, total - 2 * t);
      assert total * a - q == total - r;
      assert (b - a) * (total - 2 * t) == z - 2 * y - (total - 2 * t);
    }
  }

  lemma {:induction false} ThresholdLowerBound(w: seq<int>, layers: int, total: int, a: seq<int>, b: seq<int>, t: int)
    requires total > 0 && layers >= 0 && AllPositive(w)
    requires ThresholdSplit(w, layers, total, a, t) && |b| == |w|
    ensures Deviation(w, layers, total, b)
         >= Deviation(w, layers, total, a) + (Sum(b) - Sum(a)) * (total - 2 * t)
  {
    if w != [] {
      RemainderBounds(w[0], layers, total);
      assert OnThreshold(w[0], layers, total, a[0], t);
      ExchangeBound(w[0] * layers, total, TruncDiv(w[0] * layers, total), Remainder(w[0], layers, total),
                    a[0], b[0], t);
      forall i | 0 <= i < |w[1..]|
        ensures OnThreshold(w[1..][i], layers, total, a[1..][i], t)
      {
        assert OnThreshold(w[i + 1], layers, total, a[i + 1], t);
      }
      ThresholdLowerBound(w[1..], layers, total, a[1..], b[1..], t);
      Distribute(b[0] - a[0], Sum(b[1..]) - Sum(a[1..]), total - 2 * t);
    }
  }

  lemma ThresholdBest(w: seq<int>, layers: int, total: int, a: seq<int>, b: seq<int>, t: int)
    requires total > 0 && layers >= 0 && AllPositive(w)
    requires ThresholdSplit(w, layers, total, a, t) && |b| == |w| && Sum(b) == Sum(a)
    ensures Deviation(w, layers, total, a) <= Deviation(w, layers, total, b)
  {
    var gain := Sum(b) - Sum(a);
    assert gain * (total - 2 * t) == 0;
    ThresholdLowerBound(w, layers, total, a, b, t);
  }

  /** No whole-number split of the same total deviates less from the quotas. */
  ghost predicate Optimal(w: seq<int>, layers: int, total: int, a: seq<int>) {
    && |a| == |w|
    && forall b: seq<int> :: |b| == |w| && Sum(b) == layers ==>
         Deviation(w, layers, total, a) <= Deviation(w, layers, total, b)
  }

  lemma ThresholdSplitOptimal(w: seq<int>, layers: int, total: int, a: seq<int>, t: int)
    requires AllPositive(w) && layers >= 0 && total > 0
    requires ThresholdSplit(w, layers, total, a, t) && Sum(a) == layers
    ensures Optimal(w, layers, total, a)
  {
    forall b: seq<int> | |b| == |w| && Sum(b) == layers
      ensures Deviation(w, layers, total, a) <= Deviation(w, layers, total, b)
    {
      ThresholdBest(w, layers, total, a, b, t);
    }
  }

  /** Strictly less than one layer away from the quota: its floor or its ceiling. */
  predicate FloorOrCeiling(weight: int, layers: int, total: int, count: int) {
    weight * layers - total < total * count < weight * layers + total
  }

  lemma ThresholdFair(weight: int, layers: int, total: int, count: int, t: int)
    requires weight > 0 && layers >= 0 && total > 0 && OnThreshold(weight, layers, total, count, t)
    ensures FloorOrCeiling(weight, layers, total, count) && count >= 0
  {
    RemainderBounds(weight, layers, total);
    assert weight * layers >= 0;
    DivBounds(weight * layers, total);
    Distribute(TruncDiv(weight * layers, total), 1, total);
  }

  lemma {:induction false} SumUpdate(a: seq<int>, i: nat, v: int)
    requires i < |a|
    ensures Sum(a[i := v]) == Sum(a) - a[i] + v
  {
    if i == 0 {
      assert a[0 := v][1..] == a[1..];
    } else {
      assert a[i := v][1..] == a[1..][i - 1 := v];
      SumUpdate(a[1..], i - 1, v);
    }
  }

  ghost predicate Raised(order: seq<(int, int)>, k: int, i: int) {
    exists j :: 0 <= j < k && j < |order| && order[j].1 == i
  }

  /** After the loop the raised nodes are a top segment of the remainder order. */
  lemma RaisedIsThreshold(w: seq<int>, layers: int, total: int, order: seq<(int, int)>, a: seq<int>)
    requires w != [] && AllPositive(w) && layers >= 0 && total == Sum(w) > 0 && |a| == |w|
    requires order == ByRemainder(Remainders(w, layers, total))
    requires forall i :: 0 <= i < |w| ==>
      a[i] == Floors(w, layers, total)[i] + (if Raised(order, Leftover(w, layers, total), i) then 1 else 0)
    ensures exists t :: ThresholdSplit(w, layers, total, a, t)
  {
    var r := Remainders(w, layers, total);
    var left := Leftover(w, layers, total);
    LeftoverBounds(w, layers, total, order);
    ByRemainderSpec(r);
    var t := if left == 0 then total else order[left - 1].0;
    if left > 0 {
      RemainderBounds(w[order[left - 1].1], layers, total);
    }
    forall i | 0 <= i < |w|
      ensures OnThreshold(w[i], layers, total, a[i], t)
    {
      RemainderBounds(w[i], layers, total);
      assert (r[i], i) in order;
      var k :| 0 <= k < |order| && order[k] == (r[i], i);
      assert Raised(order, left, i) <==> k < left;
    }
    assert ThresholdSplit(w, layers, total, a, t);
  }

  /** Who is above its quota was due more of that layer than whoever is not, or as much and
      comes first. */
  predicate LargestFirst(w: seq<int>, layers: int, total: int, a: seq<int>)
    requires |a| == |w|
  {
    forall i, j :: 0 <= i < |w| && 0 <= j < |w| && w[i] * layers < total * a[i] && total * a[j] <= w[j] * layers ==>
      var due, left := w[i] * layers - total * (a[i] - 1), w[j] * layers - total * a[j];
      due > left || (due == left && i < j)
  }

  lemma RaisedOrNot(weight: int, layers: int, total: int, count: int, raised: bool)
    requires weight > 0 && layers >= 0 && total > 0
    requires count == TruncDiv(weight * layers, total) + if raised then 1 else 0
    ensures raised <==> weight * layers < total * count
    ensures raised ==> weight * layers - total * (count - 1) == Remainder(weight, layers, total)
    ensures !raised ==> weight * layers - total * count == Remainder(weight, layers, total)
  {
    RemainderBounds(weight, layers, total);
    Distribute(TruncDiv(weight * layers, total), 1, total);
  }

  lemma RaisedComeFirst(r: seq<int>, order: seq<(int, int)>, left: int, i: int, j: int)
    requires order == ByRemainder(r) && 0 <= i < |r| && 0 <= j < |r|
    requires Raised(order, left, i) && !Raised(order, left, j)
    ensures r[i] > r[j] || (r[i] == r[j] && i < j)
  {
    ByRemainderSpec(r);
    assert (r[i], i) in order && (r[j], j) in order;
    var k :| 0 <= k < left && k < |order| && order[k].1 == i;
    var m :| 0 <= m < |order| && order[m] == (r[j], j);
    assert k < m;
  }

  lemma RaisedLargestFirst(w: seq<int>, layers: int, total: int, order: seq<(int, int)>, a: seq<int>, left: int)
    requires AllPositive(w) && layers >= 0 && total > 0 && |a| == |w|
    requires order == ByRemainder(Remainders(w, layers, total))
    requires forall i :: 0 <= i < |w| ==>
      a[i] == Floors(w, layers, total)[i] + (if Raised(order, left, i) then 1 else 0)
    ensures LargestFirst(w, layers, total, a)
  {
    forall i, j | 0 <= i < |w| && 0 <= j < |w| && w[i] * layers < total * a[i] && total * a[j] <= w[j] * layers
      ensures var due, left := w[i] * layers - total * (a[i] - 1), w[j] * layers - total * a[j];
        due > left || (due == left && i < j)
    {
      RaisedOrNot(w[i], layers, total, a[i], Raised(order, left, i));
      RaisedOrNot(w[j], layers, total, a[j], Raised(order, left, j));
      RaisedComeFirst(Remainders(w, layers, total), order, left, i, j);
    }
  }

  /** The whole promise of the apportionment: all layers handed out, every node at the floor or
      ceiling of its quota, largest remainders first, and no better split. */
  ghost predicate BestSplit(w: seq<int>, layers: int, total: int, a: seq<int>) {
    && |a| == |w| && Sum(a) == layers && Optimal(w, layers, total, a) && LargestFirst(w, layers, total, a)
    && forall i :: 0 <= i < |w| ==> a[i] >= 0 && FloorOrCeiling(w[i], layers, total, a[i])
  }

  lemma {:induction false} SumLess(a: seq<int>, b: seq<int>, i: nat)
    requires |a| == |b| && i < |a| && a[i] < b[i] && forall k :: 0 <= k < |a| ==> a[k] <= b[k]
    ensures Sum(a) < Sum(b)
  {
    if i > 0 {
      SumLess(a[1..], b[1..], i - 1);
    } else if |a| > 1 {
      SumAtMost(a[1..], b[1..]);
    }
  }

  lemma {:induction false} SumAtMost(a: seq<int>, b: seq<int>)
    requires |a| == |b| && forall k :: 0 <= k < |a| ==> a[k] <= b[k]
    ensures Sum(a) <= Sum(b)
  {
    if a != [] {
      SumAtMost(a[1..], b[1..]);
    }
  }

  /** Of two ways to be within one layer of a quota, the larger is above it by one layer more. */
  lemma OneAbove(weight: int, layers: int, total: int, low: int, high: int)
    requires total > 0 && low < high
    requires FloorOrCeiling(weight, layers, total, low) && FloorOrCeiling(weight, layers, total, high)
    ensures high == low + 1 && total * low <= weight * layers < total * high
  {
    MulMono(low + 1, high, total);
    Distribute(low, 1, total);
    if high > low + 1 {
      MulMono(low + 2, high, total);
      Distribute(low, 2, total);
    }
  }

  /** The promise leaves nothing open: there is one such split. */
  lemma BestSplitUnique(w: seq<int>, layers: int, total: int, a: seq<int>, b: seq<int>)
    requires total > 0 && BestSplit(w, layers, total, a) && BestSplit(w, layers, total, b)
    ensures a == b
  {
    forall i | 0 <= i < |a|
      ensures a[i] >= b[i]
    {
      NotBelow(w, layers, total, a, b, i);
    }
    forall i | 0 <= i < |a|
      ensures b[i] >= a[i]
    {
      NotBelow(w, layers, total, b, a, i);
    }
  }

  lemma NotBelow(w: seq<int>, layers: int, total: int, a: seq<int>, b: seq<int>, i: nat)
    requires total > 0 && BestSplit(w, layers, total, a) && BestSplit(w, layers, total, b) && i < |w|
    ensures a[i] >= b[i]
  {
    if a[i] < b[i] {
      if forall k :: 0 <= k < |a| ==> a[k] <= b[k] {
        SumLess(a, b, i);
      } else {
        var j :| 0 <= j < |a| && b[j] < a[j];
        OneAbove(w[i], layers, total, a[i], b[i]);
        OneAbove(w[j], layers, total, b[j], a[j]);
      }
    }
  }

  lemma RaiseNext(order: seq<(int, int)>, k: nat, n: nat)
    requires k < |order| && forall i, j :: 0 <= i < j < |order| ==> order[i].1 != order[j].1
    ensures !Raised(order, k, order[k].1)
    ensures forall i :: 0 <= i < n ==> (Raised(order, k + 1, i) <==> Raised(order, k, i) || i == order[k].1)
  {
  }

  /** Floors first, then one more layer each for the largest remainders. */
  method Apportion(w: seq<int>, layers: int) returns (a: seq<int>)
    requires w != [] && AllPositive(w)
    ensures |a| == |w| && Sum(w) > 0
    ensures layers >= 0 ==> BestSplit(w, layers, Sum(w), a)
    ensures layers < 0 ==> forall i :: 0 <= i < |w| ==> a[i] <= 0
  {
    SumPositive(w);
    var total := Sum(w);
    var floors := Floors(w, layers, total);
    a := floors;
    var left := layers - Sum(floors);
    var order := ByRemainder(Remainders(w, layers, total));
    ByRemainderSpec(Remainders(w, layers, total));
    if layers >= 0 {
      LeftoverBounds(w, layers, total, order);
    } else {
      NegativeLayers(w, layers, total);
    }
    var k := 0;
    while k < left
      invariant 0 <= k && (k <= left || (left < 0 && k == 0)) && |a| == |w|
      invariant Sum(a) == Sum(floors) + k
      invariant forall i :: 0 <= i < |w| ==> a[i] == floors[i] + (if Raised(order, k, i) then 1 else 0)
    {
      var idx := order[k].1;
      SumUpdate(a, idx, a[idx] + 1);
      RaiseNext(order, k, |w|);
      a := a[idx := a[idx] + 1];
      k := k + 1;
    }
    if layers >= 0 {
      ApportionmentSound(w, layers, total, order, a);
    }
  }

  lemma ApportionmentSound(w: seq<int>, layers: int, total: int, order: seq<(int, int)>, a: seq<int>)
    requires w != [] && AllPositive(w) && layers >= 0 && total == Sum(w) > 0 && |a| == |w| && Sum(a) == layers
    requires order == ByRemainder(Remainders(w, layers, total))
    requires forall i :: 0 <= i < |w| ==>
      a[i] == Floors(w, layers, total)[i] + (if Raised(order, Leftover(w, layers, total), i) then 1 else 0)
    ensures BestSplit(w, layers, total, a)
  {
    RaisedLargestFirst(w, layers, total, order, a, Leftover(w, layers, total));
    RaisedIsThreshold(w, layers, total, order, a);
    var t :| ThresholdSplit(w, layers, total, a, t);
    ThresholdSplitOptimal(w, layers, total, a, t);
    forall i | 0 <= i < |w|
      ensures a[i] >= 0 && FloorOrCeiling(w[i], layers, total, a[i])
    {
      assert OnThreshold(w[i], layers, total, a[i], t);
      ThresholdFair(w[i], layers, total, a[i], t);
    }
  }

  lemma NegativeShare(weight: int, layers: int, total: int)
    requires weight > 0 && layers < 0 && total > 0
    ensures TruncDiv(weight * layers, total) <= 0 && Remainder(weight, layers, total) <= 0
  {
    assert weight * layers < 0;
    DivBounds(-(weight * layers), total);
  }

  /** A negative layer count leaves nothing to distribute. */
  lemma NegativeLayers(w: seq<int>, layers: int, total: int)
    requires w != [] && AllPositive(w) && layers < 0 && total == Sum(w) > 0
    ensures Leftover(w, layers, total) <= 0
    ensures forall i :: 0 <= i < |w| ==> Floors(w, layers, total)[i] <= 0
  {
    forall i | 0 <= i < |w|
      ensures Floors(w, layers, total)[i] <= 0 && Remainders(w, layers, total)[i] <= 0
    {
      NegativeShare(w[i], layers, total);
    }
    LeftoverProduct(w, layers);
    NonPositiveSum(Remainders(w, layers, total));
    Distribute(Leftover(w, layers, total), -1, total);
    MulLess(Leftover(w, layers, total) - 1, 0, total);
  }

  lemma {:induction false} NonPositiveSum(s: seq<int>)
    requires forall i :: 0 <= i < |s| ==> s[i] <= 0
    ensures Sum(s) <= 0
  {
    if s != [] {
      NonPositiveSum(s[1..]);
    }
  }
}
