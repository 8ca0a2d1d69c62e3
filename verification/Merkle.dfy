/**
 The Merkle root over chunk hashes (compute_merkle_root in runtime/distributed_model_cache.py).

 The hash is any function on strings. Binding is stated without assuming that collisions do
 not exist: two different lists with one root yield a concrete pair of colliding inputs.
 */
module Merkle {
  import opened Basics

  type Hash = string -> string

  /** Nodes on a level of the tree over `n` leaves. */
  function Width(n: nat, level: nat): nat {
    if level == 0 then n else (Width(n, level - 1) + 1) / 2
  }

  lemma {:induction false} WidthPositive(n: nat, level: nat)
    requires n > 0
    ensures Width(n, level) > 0
  {
    if level > 0 {
      WidthPositive(n, level - 1);
    }
  }

  /** The tree, node by node: a leaf, or the hash of two children, the last child of an odd
      level standing in for its missing sibling. */
  function NodeAt(leaves: seq<string>, level: nat, i: nat, h: Hash): string
    requires i < Width(|leaves|, level)
  {
    if level == 0 then leaves[i]
    else
      var last := Width(|leaves|, level - 1) - 1;
      h(NodeAt(leaves, level - 1, 2 * i, h) + NodeAt(leaves, level - 1, Min(2 * i + 1, last), h))
  }

  /** The first level with a single node. */
  function Height(n: nat): nat
    requires n > 0
  {
    if n == 1 then 0 else 1 + Height((n + 1) / 2)
  }

  lemma {:induction false} WidthShift(n: nat, level: nat)
    ensures Width((n + 1) / 2, level) == Width(n, level + 1)
  {
    if level > 0 {
      WidthShift(n, level - 1);
    }
  }

  lemma {:induction false} TopIsSingle(n: nat)
    requires n > 0
    ensures Width(n, Height(n)) == 1
  {
    if n > 1 {
      TopIsSingle((n + 1) / 2);
      WidthShift(n, Height((n + 1) / 2));
    }
  }

  function TreeRoot(leaves: seq<string>, h: Hash): string {
    if leaves == [] then ""
    else
      TopIsSingle(|leaves|);
      NodeAt(leaves, Height(|leaves|), 0, h)
  }

  /** Levels below the top are wider than one node. */
  lemma {:induction false} WidthOneFromTop(n: nat, level: nat)
    requires n > 0 && Width(n, level) == 1 && (level == 0 || Width(n, level - 1) > 1)
    ensures level == Height(n)
  {
    if level > 0 {
      WidthAbove(n, level - 1);
      WidthShift(n, level - 1);
      if level > 1 {
        WidthShift(n, level - 2);
      }
      WidthOneFromTop((n + 1) / 2, level - 1);
    }
  }

  lemma {:induction false} WidthAbove(n: nat, level: nat)
    requires Width(n, level) > 1
    ensures n > 1
  {
    if level > 0 {
      WidthAbove(n, level - 1);
    }
  }

  /** Pairs neighbours; the last of an odd level is paired with itself. */
  method NextLevel(current: seq<string>, h: Hash) returns (next: seq<string>)
    ensures |next| == (|current| + 1) / 2
    ensures forall k :: 0 <= k < |next| ==> next[k] == h(current[2 * k] + current[Min(2 * k + 1, |current| - 1)])
  {
    next := [];
    var i := 0;
    while i < |current|
      invariant i == 2 * |next| && i <= |current| + 1
      invariant forall k :: 0 <= k < |next| ==> next[k] == h(current[2 * k] + current[Min(2 * k + 1, |current| - 1)])
    {
      var left := current[i];
      var right := if i + 1 < |current| then current[i + 1] else left;
      next := next + [h(left + right)];
      i := i + 2;
    }
  }

  lemma LevelUp(leaves: seq<string>, level: nat, current: seq<string>, next: seq<string>, h: Hash)
    requires |current| == Width(|leaves|, level) && |next| == (|current| + 1) / 2
    requires forall k :: 0 <= k < |current| ==> current[k] == NodeAt(leaves, level, k, h)
    requires forall k :: 0 <= k < |next| ==> next[k] == h(current[2 * k] + current[Min(2 * k + 1, |current| - 1)])
    ensures |next| == Width(|leaves|, level + 1)
    ensures forall k :: 0 <= k < |next| ==> next[k] == NodeAt(leaves, level + 1, k, h)
  {
  }

  /** Rebinds the level until one hash is left; it is the root of the tree. */
  method ComputeMerkleRoot(chunkHashes: seq<string>, h: Hash) returns (root: string)
    ensures root == TreeRoot(chunkHashes, h)
  {
    if |chunkHashes| == 0 { return ""; }
    if |chunkHashes| == 1 { return chunkHashes[0]; }
    var current := chunkHashes;
    ghost var level := 0;
    while |current| > 1
      invariant |current| == Width(|chunkHashes|, level) > 0
      invariant level == 0 || Width(|chunkHashes|, level - 1) > 1
      invariant forall k :: 0 <= k < |current| ==> current[k] == NodeAt(chunkHashes, level, k, h)
      decreases |current|
    {
      var next := NextLevel(current, h);
      LevelUp(chunkHashes, level, current, next, h);
      level := level + 1;
      current := next;
    }
    WidthOneFromTop(|chunkHashes|, level);
    root := current[0];
  }

  // ------------------------------------------------------------------ binding

  predicate FixedWidth(leaves: seq<string>, width: nat) {
    forall i :: 0 <= i < |leaves| ==> |leaves[i]| == width
  }

  ghost predicate HashWidth(h: Hash, width: nat) {
    forall s: string :: |h(s)| == width
  }

  datatype Collision = NoCollision | Collision(a: string, b: string)

  /** Two different inputs with one hash. */
  predicate Collides(c: Collision, h: Hash) {
    c.Collision? && c.a != c.b && h(c.a) == h(c.b)
  }

  lemma PairAgrees(a: string, b: string, a': string, b': string, h: Hash) returns (c: Collision)
    requires |a| == |a'| && h(a + b) == h(a' + b')
    ensures (a == a' && b == b') || Collides(c, h)
  {
    c := Collision(a + b, a' + b');
    if a + b == a' + b' {
      SplitAt(a, b, a', b');
    }
  }

  /** The full binary tree under a node, in which the repetitions that stand in for missing
      siblings are written out. */
  datatype Tree = Leaf(value: string) | Fork(left: Tree, right: Tree)

  predicate Full(t: Tree, level: nat) {
    if level == 0 then t.Leaf? else t.Fork? && Full(t.left, level - 1) && Full(t.right, level - 1)
  }

  function HashOf(t: Tree, h: Hash): string {
    match t
    case Leaf(v) => v
    case Fork(l, r) => h(HashOf(l, h) + HashOf(r, h))
  }

  function Leaves(t: Tree): seq<string> {
    match t
    case Leaf(v) => [v]
    case Fork(l, r) => Leaves(l) + Leaves(r)
  }

  function Build(xs: seq<string>, level: nat, i: nat): Tree
    requires i < Width(|xs|, level)
  {
    if level == 0 then Leaf(xs[i])
    else Fork(Build(xs, level - 1, 2 * i), Build(xs, level - 1, Min(2 * i + 1, Width(|xs|, level - 1) - 1)))
  }

  lemma {:induction false} BuildSpec(xs: seq<string>, level: nat, i: nat, h: Hash)
    requires i < Width(|xs|, level)
    ensures Full(Build(xs, level, i), level) && HashOf(Build(xs, level, i), h) == NodeAt(xs, level, i, h)
  {
    if level > 0 {
      BuildSpec(xs, level - 1, 2 * i, h);
      BuildSpec(xs, level - 1, Min(2 * i + 1, Width(|xs|, level - 1) - 1), h);
    }
  }

  function Power2(n: nat): nat {
    if n == 0 then 1 else 2 * Power2(n - 1)
  }

  lemma {:induction false} LeavesLength(t: Tree, level: nat)
    requires Full(t, level)
    ensures |Leaves(t)| == Power2(level)
  {
    if level > 0 {
      LeavesLength(t.left, level - 1);
      LeavesLength(t.right, level - 1);
    }
  }

  lemma {:induction false} LeavesGiveTree(t: Tree, u: Tree, level: nat)
    requires Full(t, level) && Full(u, level) && Leaves(t) == Leaves(u)
    ensures t == u
  {
    if level == 0 {
      assert Leaves(t)[0] == Leaves(u)[0];
    } else {
      LeavesLength(t.left, level - 1);
      LeavesLength(u.left, level - 1);
      SplitAt(Leaves(t.left), Leaves(t.right), Leaves(u.left), Leaves(u.right));
      LeavesGiveTree(t.left, u.left, level - 1);
      LeavesGiveTree(t.right, u.right, level - 1);
    }
  }

  ghost predicate TreeWidth(t: Tree, width: nat) {
    match t
    case Leaf(v) => |v| == width
    case Fork(l, r) => TreeWidth(l, width) && TreeWidth(r, width)
  }

  lemma {:induction false} BuildWidth(xs: seq<string>, level: nat, i: nat, width: nat)
    requires i < Width(|xs|, level) && FixedWidth(xs, width)
    ensures TreeWidth(Build(xs, level, i), width)
  {
    if level > 0 {
      BuildWidth(xs, level - 1, 2 * i, width);
      BuildWidth(xs, level - 1, Min(2 * i + 1, Width(|xs|, level - 1) - 1), width);
    }
  }

  lemma HashLength(t: Tree, h: Hash, width: nat)
    requires TreeWidth(t, width) && HashWidth(h, width)
    ensures |HashOf(t, h)| == width
  {
    if t.Fork? {
      assert |h(HashOf(t.left, h) + HashOf(t.right, h))| == width;
    }
  }

  /** Full trees of one height with the same hash are the same tree, or else inputs collide. */
  lemma {:induction false} HashGivesTree(t: Tree, u: Tree, level: nat, h: Hash, width: nat) returns (c: Collision)
    requires Full(t, level) && Full(u, level) && TreeWidth(t, width) && TreeWidth(u, width) && HashWidth(h, width)
    requires HashOf(t, h) == HashOf(u, h)
    ensures t == u || Collides(c, h)
  {
    c := NoCollision;
    if level > 0 {
      HashLength(t.left, h, width);
      HashLength(u.left, h, width);
      c := PairAgrees(HashOf(t.left, h), HashOf(t.right, h), HashOf(u.left, h), HashOf(u.right, h), h);
      if !Collides(c, h) {
        c := HashGivesTree(t.left, u.left, level - 1, h, width);
        if !Collides(c, h) {
          c := HashGivesTree(t.right, u.right, level - 1, h, width);
        }
      }
    }
  }

  function TreeOf(xs: seq<string>): Tree
    requires xs != []
  {
    TopIsSingle(|xs|);
    Build(xs, Height(|xs|), 0)
  }

  /** The list padded to a full tree. */
  function Padded(xs: seq<string>): seq<string>
    requires xs != []
  {
    Leaves(TreeOf(xs))
  }

  lemma TreeOfSpec(xs: seq<string>, h: Hash)
    requires xs != []
    ensures Full(TreeOf(xs), Height(|xs|)) && HashOf(TreeOf(xs), h) == TreeRoot(xs, h)
  {
    TopIsSingle(|xs|);
    BuildSpec(xs, Height(|xs|), 0, h);
  }

  /** What the root binds, exactly: lists of one height and fixed-width hashes, whatever their
      lengths, have the same root if and only if they agree once padded to a full tree, unless
      the lemma's result is a pair of colliding hash inputs. */
  lemma RootBindsPadding(xs: seq<string>, ys: seq<string>, h: Hash, width: nat) returns (c: Collision)
    requires xs != [] && ys != [] && Height(|xs|) == Height(|ys|)
    requires FixedWidth(xs, width) && FixedWidth(ys, width) && HashWidth(h, width)
    ensures Padded(xs) == Padded(ys) ==> TreeRoot(xs, h) == TreeRoot(ys, h)
    ensures TreeRoot(xs, h) == TreeRoot(ys, h) ==> Padded(xs) == Padded(ys) || Collides(c, h)
  {
    c := NoCollision;
    var top := Height(|xs|);
    TreeOfSpec(xs, h);
    TreeOfSpec(ys, h);
    if Padded(xs) == Padded(ys) {
      LeavesGiveTree(TreeOf(xs), TreeOf(ys), top);
    } else if TreeRoot(xs, h) == TreeRoot(ys, h) {
      TopIsSingle(|xs|);
      TopIsSingle(|ys|);
      BuildWidth(xs, top, 0, width);
      BuildWidth(ys, top, 0, width);
      c := HashGivesTree(TreeOf(xs), TreeOf(ys), top, h, width);
    }
  }

  // ----------------------------------------------------- padding keeps the list

  lemma {:induction false} LevelsCover(n: nat, level: nat)
    ensures Width(n, level) * Power2(level) >= n
  {
    if level > 0 {
      LevelsCover(n, level - 1);
      MulMono(Width(n, level - 1), 2 * Width(n, level), Power2(level - 1));
      Halves(Width(n, level), Power2(level - 1));
    }
  }

  lemma Halves(i: nat, half: nat)
    ensures (2 * i) * half == i * (2 * half)
    ensures (2 * i + 1) * half == i * (2 * half) + half
  {
    Distribute(2 * i, 1, half);
  }

  /** A node with an element of the list under its right half has a right child of its own. */
  lemma RightIsThere(n: nat, level: nat, i: nat, at: nat)
    requires level > 0 && at < n && i * Power2(level) + Power2(level - 1) <= at
    ensures 2 * i + 1 < Width(n, level - 1)
  {
    var half, w := Power2(level - 1), Width(n, level - 1);
    LevelsCover(n, level - 1);
    Halves(i, half);
    if w <= 2 * i + 1 {
      MulMono(w, 2 * i + 1, half);
    }
  }

  /** Where the original list has an element, the padded one has the same. */
  lemma {:induction false} BuildHolds(xs: seq<string>, level: nat, i: nat, start: nat, at: nat)
    requires i < Width(|xs|, level) && start == i * Power2(level) && start <= at < start + Power2(level) && at < |xs|
    ensures at - start < |Leaves(Build(xs, level, i))| && Leaves(Build(xs, level, i))[at - start] == xs[at]
  {
    if level > 0 {
      var half := Power2(level - 1);
      var t := Build(xs, level, i);
      BuildSpec(xs, level - 1, 2 * i, s => s);
      LeavesLength(t.left, level - 1);
      Halves(i, half);
      if at < start + half {
        BuildHolds(xs, level - 1, 2 * i, start, at);
      } else {
        RightIsThere(|xs|, level, i, at);
        BuildHolds(xs, level - 1, 2 * i + 1, start + half, at);
      }
    }
  }

  lemma PaddedHolds(xs: seq<string>)
    requires xs != []
    ensures |xs| <= |Padded(xs)| && Padded(xs)[..|xs|] == xs
  {
    var top := Height(|xs|);
    TopIsSingle(|xs|);
    LevelsCover(|xs|, top);
    TreeOfSpec(xs, s => s);
    LeavesLength(TreeOf(xs), top);
    forall k | 0 <= k < |xs|
      ensures Padded(xs)[k] == xs[k]
    {
      BuildHolds(xs, top, 0, 0, k);
    }
  }

  /** The root binds the list: lists of one length and fixed-width hashes with the same root are
      the same list, unless the lemma's result is a pair of colliding hash inputs. */
  lemma RootBinds(xs: seq<string>, ys: seq<string>, h: Hash, width: nat) returns (c: Collision)
    requires |xs| == |ys| && FixedWidth(xs, width) && FixedWidth(ys, width) && HashWidth(h, width)
    requires TreeRoot(xs, h) == TreeRoot(ys, h)
    ensures xs == ys || Collides(c, h)
  {
    c := NoCollision;
    if xs != [] {
      c := RootBindsPadding(xs, ys, h, width);
      PaddedHolds(xs);
      PaddedHolds(ys);
    }
  }

  // -------------------------------------------- why the lengths have to agree

  lemma {:induction false} DuplicateLeafWidth(n: nat, level: nat)
    requires n % 2 == 1 && level > 0
    ensures Width(n + 1, level) == Width(n, level)
  {
    if level > 1 {
      DuplicateLeafWidth(n, level - 1);
    }
  }

  lemma LowestFork(xs: seq<string>, i: nat)
    requires i < Width(|xs|, 1)
    ensures Build(xs, 1, i) == Fork(Leaf(xs[2 * i]), Leaf(xs[Min(2 * i + 1, |xs| - 1)]))
  {
  }

  lemma DuplicateLeafBottom(xs: seq<string>, ys: seq<string>, i: nat)
    requires |xs| % 2 == 1 && ys == xs + [xs[|xs| - 1]] && i < Width(|xs|, 1)
    ensures i < Width(|ys|, 1) && Build(ys, 1, i) == Build(xs, 1, i)
  {
    LowestFork(xs, i);
    LowestFork(ys, i);
  }

  /** The step of the induction: equal children under levels of equal width. */
  lemma SameChildren(xs: seq<string>, ys: seq<string>, level: nat, i: nat)
    requires Width(|xs|, level) == Width(|ys|, level) && i < Width(|xs|, level + 1)
    requires forall k: nat :: k < Width(|xs|, level) ==> Build(xs, level, k) == Build(ys, level, k)
    ensures Build(ys, level + 1, i) == Build(xs, level + 1, i)
  {
  }

  lemma {:induction false} DuplicateLeafNode(xs: seq<string>, ys: seq<string>, level: nat, i: nat)
    requires |xs| % 2 == 1 && ys == xs + [xs[|xs| - 1]] && level > 0 && i < Width(|xs|, level)
    ensures i < Width(|ys|, level) && Build(ys, level, i) == Build(xs, level, i)
    decreases level
  {
    DuplicateLeafWidth(|xs|, level);
    if level == 1 {
      DuplicateLeafBottom(xs, ys, i);
    } else {
      var below := level - 1;
      DuplicateLeafWidth(|xs|, below);
      forall k: nat | k < Width(|xs|, below)
        ensures Build(xs, below, k) == Build(ys, below, k)
      {
        DuplicateLeafNode(xs, ys, below, k);
      }
      SameChildren(xs, ys, below, i);
    }
  }

  /** Equal length is needed: repeating the last of an odd number of leaves (at least three)
      never changes the root, whatever the hash. */
  lemma RepeatedLastLeafKeepsRoot(xs: seq<string>, h: Hash)
    requires |xs| % 2 == 1 && |xs| > 1
    ensures TreeRoot(xs + [xs[|xs| - 1]], h) == TreeRoot(xs, h)
  {
    var ys := xs + [xs[|xs| - 1]];
    TopIsSingle(|xs|);
    assert (|xs| + 1 + 1) / 2 == (|xs| + 1) / 2;
    assert Height(|ys|) == Height(|xs|);
    DuplicateLeafNode(xs, ys, Height(|xs|), 0);
    TreeOfSpec(xs, h);
    TreeOfSpec(ys, h);
  }
}
