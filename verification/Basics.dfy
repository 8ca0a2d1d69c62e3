/** Shared result types and a stable sort in the style of Python's `sorted`. */
module Basics {

  datatype Option<+T> = None | Some(value: T)

  datatype Result<+T, +E> = Ok(value: T) | Err(error: E)

  /** White space for `bytes.strip`. */
  predicate IsSpace(c: int) {
    c == 32 || 9 <= c <= 13
  }

  /** White space for `str.strip`: Unicode white space and the information separators. */
  predicate IsTextSpace(c: int) {
    || IsSpace(c) || 28 <= c <= 31 || c == 0x85 || c == 0xA0 || c == 0x1680 || 0x2000 <= c <= 0x200A
    || c == 0x2028 || c == 0x2029 || c == 0x202F || c == 0x205F || c == 0x3000
  }

  function Max(a: int, b: int): int {
    if a >= b then a else b
  }

  function Min(a: int, b: int): int {
    if a <= b then a else b
  }

  function Abs(a: int): int {
    if a >= 0 then a else -a
  }

  function Sum(s: seq<int>): int {
    if s == [] then 0 else s[0] + Sum(s[1..])
  }

  lemma Distribute(a: int, b: int, c: int)
    ensures (a + b) * c == a * c + b * c
    ensures c * (a + b) == c * a + c * b
  {
  }

  lemma MulMono(a: int, b: int, c: int)
    requires a <= b && c >= 0
    ensures a * c <= b * c
  {
    Distribute(a, b - a, c);
  }

  /** Cancelling a positive factor. */
  lemma MulLess(a: int, b: int, c: int)
    requires a * c < b * c && c > 0
    ensures a < b
  {
    if a >= b {
      MulMono(b, a, c);
    }
  }

  lemma {:induction false} SumConcat(a: seq<int>, b: seq<int>)
    ensures Sum(a + b) == Sum(a) + Sum(b)
  {
    if a == [] {
      assert a + b == b;
    } else {
      assert (a + b)[1..] == a[1..] + b;
      SumConcat(a[1..], b);
    }
  }

  function Filter<T>(s: seq<T>, keep: T -> bool): seq<T> {
    if s == [] then []
    else if keep(s[0]) then [s[0]] + Filter(s[1..], keep)
    else Filter(s[1..], keep)
  }

  /** The elements of `t` are kept ones of `s`, in order, from the places `from`. */
  ghost predicate Kept<T>(s: seq<T>, keep: T -> bool, t: seq<T>, from: seq<int>) {
    && |from| == |t|
    && (forall k :: 0 <= k < |t| ==> 0 <= from[k] < |s| && t[k] == s[from[k]] && keep(t[k]))
    && (forall j, k :: 0 <= j < k < |from| ==> from[j] < from[k])
  }

  function Later(from: seq<int>): (r: seq<int>)
    ensures |r| == |from| && forall k :: 0 <= k < |r| ==> r[k] == from[k] + 1
  {
    seq(|from|, k requires 0 <= k < |from| => from[k] + 1)
  }

  lemma {:induction false} FilterSnoc<T>(s: seq<T>, x: T, keep: T -> bool)
    ensures Filter(s + [x], keep) == Filter(s, keep) + if keep(x) then [x] else []
  {
    if s == [] {
      assert s + [x] == [x] && [x][1..] == [];
    } else {
      assert (s + [x])[1..] == s[1..] + [x];
      FilterSnoc(s[1..], x, keep);
    }
  }

  /** The places of the kept elements. */
  function FilterPlaces<T>(s: seq<T>, keep: T -> bool): seq<int> {
    if s == [] then []
    else if keep(s[0]) then [0] + Later(FilterPlaces(s[1..], keep))
    else Later(FilterPlaces(s[1..], keep))
  }

  lemma KeptFirst<T>(s: seq<T>, keep: T -> bool, t: seq<T>, from: seq<int>)
    requires s != [] && Kept(s[1..], keep, t, from)
    ensures keep(s[0]) ==> Kept(s, keep, [s[0]] + t, [0] + Later(from))
    ensures Kept(s, keep, t, Later(from))
  {
  }

  /** Filtering keeps only what is to be kept, in the given order. */
  lemma {:induction false} FilterKeeps<T>(s: seq<T>, keep: T -> bool)
    ensures Kept(s, keep, Filter(s, keep), FilterPlaces(s, keep))
  {
    if s != [] {
      FilterKeeps(s[1..], keep);
      KeptFirst(s, keep, Filter(s[1..], keep), FilterPlaces(s[1..], keep));
    }
  }

  /** Filtering keeps all that is to be kept. */
  lemma {:induction false} FilterCovers<T>(s: seq<T>, keep: T -> bool, i: nat)
    requires i < |s| && keep(s[i])
    ensures i in FilterPlaces(s, keep)
  {
    if i > 0 {
      FilterCovers(s[1..], keep, i - 1);
      var from := FilterPlaces(s[1..], keep);
      var k :| 0 <= k < |from| && from[k] == i - 1;
      assert Later(from)[k] == i;
    }
  }

  lemma Unsnoc<T>(s: seq<T>)
    requires s != []
    ensures s == s[..|s| - 1] + [s[|s| - 1]]
  {
  }

  lemma PrefixSnoc<T>(s: seq<T>, k: nat)
    requires k < |s|
    ensures s[..k + 1] == s[..k] + [s[k]]
  {
  }

  lemma AppendUnsnoc<T>(a: seq<T>, b: seq<T>)
    requires b != []
    ensures a + b == (a + b[..|b| - 1]) + [b[|b| - 1]]
  {
  }

  lemma Reassociate<T>(a: seq<T>, b: seq<T>, c: seq<T>)
    ensures a + (b + c) == (a + b) + c
  {
  }

  lemma SplitAt<T>(a: seq<T>, x: seq<T>, b: seq<T>, y: seq<T>)
    requires |a| == |b| && a + x == b + y
    ensures a == b && x == y
  {
    assert a == (a + x)[..|a|] && b == (b + y)[..|b|];
    assert x == (a + x)[|a|..] && y == (b + y)[|b|..];
  }

  lemma {:induction false} SubsetSize<T>(a: set<T>, b: set<T>)
    requires a <= b
    ensures |a| <= |b|
  {
    if a != {} {
      var x :| x in a;
      SubsetSize(a - {x}, b - {x});
    }
  }
}

/** Stable insertion of equal keys in their original order, for any total preorder. */
module StableSort {
  import opened Basics

  ghost predicate TotalPreorder<T(!new)>(le: (T, T) -> bool) {
    && (forall a, b :: le(a, b) || le(b, a))
    && (forall a, b, c :: le(a, b) && le(b, c) ==> le(a, c))
  }

  ghost predicate Sorted<T>(s: seq<T>, le: (T, T) -> bool) {
    forall i, j :: 0 <= i < j < |s| ==> le(s[i], s[j])
  }

  function Insert<T>(x: T, s: seq<T>, le: (T, T) -> bool): seq<T> {
    if s == [] then [x]
    else if le(x, s[0]) then [x] + s
    else [s[0]] + Insert(x, s[1..], le)
  }

  function Sort<T>(s: seq<T>, le: (T, T) -> bool): seq<T> {
    if s == [] then [] else Insert(s[0], Sort(s[1..], le), le)
  }

  lemma {:induction false} InsertPermutes<T>(x: T, s: seq<T>, le: (T, T) -> bool)
    ensures multiset(Insert(x, s, le)) == multiset{x} + multiset(s)
  {
    if s != [] {
      assert s == [s[0]] + s[1..];
      if !le(x, s[0]) {
        InsertPermutes(x, s[1..], le);
      }
    }
  }

  lemma {:induction false} InsertSorted<T(!new)>(x: T, s: seq<T>, le: (T, T) -> bool)
    requires TotalPreorder(le) && Sorted(s, le)
    ensures Sorted(Insert(x, s, le), le)
  {
    if s != [] && !le(x, s[0]) {
      var rest := Insert(x, s[1..], le);
      InsertSorted(x, s[1..], le);
      InsertPermutes(x, s[1..], le);
      forall j | 0 <= j < |rest|
        ensures le(s[0], rest[j])
      {
        assert rest[j] in multiset(rest);
        assert rest[j] == x || rest[j] in s[1..];
      }
    }
  }

  /** Sorting permutes, and it sorts whatever total preorder is given. */
  lemma {:induction false} SortSpec<T(!new)>(s: seq<T>, le: (T, T) -> bool)
    requires TotalPreorder(le)
    ensures multiset(Sort(s, le)) == multiset(s)
    ensures |Sort(s, le)| == |s|
    ensures Sorted(Sort(s, le), le)
  {
    if s != [] {
      SortSpec(s[1..], le);
      InsertPermutes(s[0], Sort(s[1..], le), le);
      InsertSorted(s[0], Sort(s[1..], le), le);
      assert s == [s[0]] + s[1..];
      assert |multiset(Sort(s, le))| == |multiset(s)|;
    }
  }

  lemma {:induction false} InsertAt<T>(x: T, s: seq<T>, le: (T, T) -> bool) returns (p: nat)
    ensures p <= |s| && Insert(x, s, le) == s[..p] + [x] + s[p..]
    ensures forall i :: 0 <= i < p ==> !le(x, s[i])
    ensures p < |s| ==> le(x, s[p])
  {
    p := 0;
    if s != [] && !le(x, s[0]) {
      var k := InsertAt(x, s[1..], le);
      p := k + 1;
      assert s[..p] == [s[0]] + s[1..][..k] && s[p..] == s[1..][k..];
      assert [s[0]] + (s[1..][..k] + [x] + s[1..][k..]) == s[..p] + [x] + s[p..];
      assert forall i :: 0 < i < p ==> s[i] == s[1..][i - 1];
    }
  }

  /** The places in `s` that the elements of `t` come from: each place once. */
  ghost predicate Places<T>(s: seq<T>, t: seq<T>, at: seq<int>) {
    && |s| == |t| == |at|
    && (forall k :: 0 <= k < |at| ==> 0 <= at[k] < |s| && t[k] == s[at[k]])
    && (forall i :: 0 <= i < |s| ==> i in at)
  }

  /** `t` is in order, and what is equal in the order keeps the order of its places. */
  ghost predicate InStableOrder<T>(t: seq<T>, at: seq<int>, le: (T, T) -> bool) {
    && |t| == |at|
    && (forall j, k :: 0 <= j < k < |t| ==> le(t[j], t[k]) && (le(t[k], t[j]) ==> at[j] < at[k]))
  }

  /** Where the elements of the longer list are once its first one has been put in place `p`. */
  function Shifted(at: seq<int>, p: nat): (r: seq<int>)
    requires p <= |at|
    ensures |r| == |at| + 1
  {
    seq(|at| + 1, k requires 0 <= k <= |at| => if k < p then at[k] + 1 else if k == p then 0 else at[k - 1] + 1)
  }

  lemma ShiftedCovers(at: seq<int>, p: nat, i: int)
    requires p <= |at| && (i == 0 || i - 1 in at)
    ensures i in Shifted(at, p)
  {
    if i == 0 {
      assert Shifted(at, p)[p] == 0;
    } else {
      var k :| 0 <= k < |at| && at[k] == i - 1;
      assert Shifted(at, p)[if k < p then k else k + 1] == i;
    }
  }

  lemma PlacesShifted<T>(s: seq<T>, rest: seq<T>, tail: seq<int>, p: nat)
    requires s != [] && Places(s[1..], rest, tail) && p <= |rest|
    ensures Places(s, rest[..p] + [s[0]] + rest[p..], Shifted(tail, p))
  {
    forall i | 0 <= i < |s|
      ensures i in Shifted(tail, p)
    {
      assert i > 0 ==> 0 <= i - 1 < |s[1..]|;
      ShiftedCovers(tail, p, i);
    }
  }

  lemma OrderShifted<T(!new)>(x: T, rest: seq<T>, tail: seq<int>, p: nat, le: (T, T) -> bool)
    requires TotalPreorder(le) && p <= |rest| && InStableOrder(rest, tail, le)
    requires forall i :: 0 <= i < |tail| ==> tail[i] >= 0
    requires forall i :: 0 <= i < p ==> !le(x, rest[i])
    requires p < |rest| ==> le(x, rest[p])
    ensures InStableOrder(rest[..p] + [x] + rest[p..], Shifted(tail, p), le)
  {
    var t, at := rest[..p] + [x] + rest[p..], Shifted(tail, p);
    forall j, k | 0 <= j < k < |t|
      ensures le(t[j], t[k]) && (le(t[k], t[j]) ==> at[j] < at[k])
    {
      if j == p {
        assert k - 1 > p ==> le(rest[p], rest[k - 1]);
      }
    }
  }

  /** Sorting is stable. */
  lemma {:induction false} SortIsStable<T(!new)>(s: seq<T>, le: (T, T) -> bool) returns (at: seq<int>)
    requires TotalPreorder(le)
    ensures Places(s, Sort(s, le), at) && InStableOrder(Sort(s, le), at, le)
  {
    at := [];
    if s != [] {
      var rest := Sort(s[1..], le);
      var tail := SortIsStable(s[1..], le);
      var p := InsertAt(s[0], rest, le);
      PlacesShifted(s, rest, tail, p);
      OrderShifted(s[0], rest, tail, p, le);
      at := Shifted(tail, p);
    }
  }

  /** The places of a list that was filtered and then sorted. */
  lemma PlacesCompose<T>(
    s: seq<T>, keep: T -> bool, t: seq<T>, from: seq<int>, u: seq<T>, place: seq<int>) returns (at: seq<int>)
    requires Kept(s, keep, t, from) && Places(t, u, place)
    requires forall i :: 0 <= i < |s| && keep(s[i]) ==> i in from
    ensures |at| == |u| && forall k :: 0 <= k < |u| ==>
      0 <= place[k] < |from| && at[k] == from[place[k]] && 0 <= at[k] < |s| && u[k] == s[at[k]] && keep(u[k])
    ensures forall i :: 0 <= i < |s| && keep(s[i]) ==> i in at
  {
    at := seq(|place|, k requires 0 <= k < |place| => from[place[k]]);
    forall i | 0 <= i < |s| && keep(s[i])
      ensures i in at
    {
      var m :| 0 <= m < |from| && from[m] == i;
      assert m in place;
      var k :| 0 <= k < |place| && place[k] == m;
      assert at[k] == i;
    }
  }

  /** Filtering and then sorting takes each kept element once, in order, and in the given order
      where the order makes no difference. */
  lemma FilterSortPlaces<T(!new)>(s: seq<T>, keep: T -> bool, le: (T, T) -> bool) returns (at: seq<int>)
    requires TotalPreorder(le)
    ensures var t := Sort(Filter(s, keep), le);
      && |at| == |t| == |Filter(s, keep)| && InStableOrder(t, at, le)
      && (forall k :: 0 <= k < |at| ==> 0 <= at[k] < |s| && t[k] == s[at[k]] && keep(t[k]))
    ensures forall i :: 0 <= i < |s| && keep(s[i]) ==> i in at
  {
    var kept, from := Filter(s, keep), FilterPlaces(s, keep);
    FilterKeeps(s, keep);
    forall i | 0 <= i < |s| && keep(s[i])
      ensures i in from
    {
      FilterCovers(s, keep, i);
    }
    var place := SortIsStable(kept, le);
    at := PlacesCompose(s, keep, kept, from, Sort(kept, le), place);
    PlacesInOrder(Sort(kept, le), place, from, at, le);
  }

  lemma PlacesInOrder<T>(t: seq<T>, place: seq<int>, from: seq<int>, at: seq<int>, le: (T, T) -> bool)
    requires InStableOrder(t, place, le) && |at| == |t|
    requires forall j, k :: 0 <= j < k < |from| ==> from[j] < from[k]
    requires forall k :: 0 <= k < |t| ==> 0 <= place[k] < |from| && at[k] == from[place[k]]
    ensures InStableOrder(t, at, le)
  {
  }

  predicate Distinct<T(==)>(s: seq<T>) {
    forall i, j :: 0 <= i < j < |s| ==> s[i] != s[j]
  }

  lemma {:induction false} DistinctCounts<T>(s: seq<T>, x: T)
    requires Distinct(s)
    ensures multiset(s)[x] <= 1
  {
    if s != [] {
      assert s == [s[0]] + s[1..];
      DistinctCounts(s[1..], x);
    }
  }

  lemma TwoPositions<T>(s: seq<T>, j: int, k: int)
    requires 0 <= j < k < |s| && s[j] == s[k]
    ensures multiset(s)[s[j]] >= 2
  {
    assert s == s[..k] + s[k..];
    assert s[..k][j] in multiset(s[..k]) && s[k..][0] in multiset(s[k..]);
  }

  lemma SortKeepsDistinct<T(!new)>(s: seq<T>, le: (T, T) -> bool)
    requires TotalPreorder(le) && Distinct(s)
    ensures Distinct(Sort(s, le))
  {
    SortSpec(s, le);
    var t := Sort(s, le);
    forall i, j | 0 <= i < j < |t|
      ensures t[i] != t[j]
    {
      DistinctCounts(s, t[i]);
      if t[i] == t[j] {
        TwoPositions(t, i, j);
      }
    }
  }

  lemma MemberOfSort<T(!new)>(s: seq<T>, le: (T, T) -> bool, x: T)
    requires TotalPreorder(le)
    ensures x in Sort(s, le) <==> x in s
  {
    SortSpec(s, le);
    assert x in Sort(s, le) <==> x in multiset(Sort(s, le));
    assert x in s <==> x in multiset(s);
  }

  function SumBy<T>(s: seq<T>, f: T -> int): int {
    if s == [] then 0 else f(s[0]) + SumBy(s[1..], f)
  }

  lemma {:induction false} SumByInsert<T>(x: T, s: seq<T>, le: (T, T) -> bool, f: T -> int)
    ensures SumBy(Insert(x, s, le), f) == f(x) + SumBy(s, f)
  {
    if s != [] && !le(x, s[0]) {
      SumByInsert(x, s[1..], le, f);
    }
  }

  /** Sorting changes no total. */
  lemma {:induction false} SumBySort<T>(s: seq<T>, le: (T, T) -> bool, f: T -> int)
    ensures SumBy(Sort(s, le), f) == SumBy(s, f)
  {
    if s != [] {
      SumByInsert(s[0], Sort(s[1..], le), le, f);
      SumBySort(s[1..], le, f);
    }
  }
}
