/**
 Merkle trees in an array and single branches (crates/crypto/merkle/src/lib.rs). The node type and
 the pair hash `h` are parameters.
 */
module MerkleTree {
  import opened Wrappers
  import opened Bits
  import opened GeneralizedIndex

  /** Node `i` is the hash of its two children. */
  ghost predicate Hashed<T(!new)>(h: (T, T) -> T, tree: seq<T>, i: nat) {
    1 <= i && 2 * i + 1 < |tree| && tree[i] == h(tree[2 * i], tree[2 * i + 1])
  }

  ghost predicate IsTree<T(!new)>(h: (T, T) -> T, tree: seq<T>, depth: nat) {
    && |tree| == 2 * Pow2(depth)
    && (forall i :: 1 <= i < Pow2(depth) ==> Hashed(h, tree, i))
  }

  /** Two different pairs of inputs with the same hash. */
  ghost predicate Collide<T(!new)>(h: (T, T) -> T, a: T, b: T, c: T, d: T) {
    h(a, b) == h(c, d) && (a != c || b != d)
  }

  function Zeros<T>(zero: T, n: nat): (r: seq<T>)
    ensures |r| == n && forall i :: 0 <= i < n ==> r[i] == zero
  {
    seq(n, _ => zero)
  }

  lemma HashOneMore<T(!new)>(h: (T, T) -> T, tree: seq<T>, bottom: nat, i: nat, tree': seq<T>)
    requires |tree| == 2 * bottom && 1 <= i < bottom
    requires forall j :: i < j < bottom ==> Hashed(h, tree, j)
    requires tree' == tree[i := h(tree[2 * i], tree[2 * i + 1])]
    ensures forall j :: i <= j < bottom ==> Hashed(h, tree', j)
  {
    forall j | i <= j < bottom ensures Hashed(h, tree', j) {
      assert i < j ==> Hashed(h, tree, j);
    }
  }

  method BuildTree<T(!new)>(h: (T, T) -> T, zero: T, leaves: seq<T>, depth: nat) returns (r: Result<seq<T>>)
    ensures r.Ok? <==> |leaves| <= Pow2(depth)
    ensures r.Ok? ==>
      && IsTree(h, r.value, depth)
      && r.value[0] == zero
      && r.value[Pow2(depth)..] == leaves + Zeros(zero, Pow2(depth) - |leaves|)
  {
    var bottom := Pow2(depth);
    if |leaves| > bottom {
      return Err("Number of leaves is greater than the bottom length (depth too small)");
    }
    var initial := Zeros(zero, bottom) + leaves + Zeros(zero, bottom - |leaves|);
    var tree := new T[|initial|](i requires 0 <= i < |initial| => initial[i]);
    assert tree[..] == initial;
    var i := bottom;
    while i > 1
      invariant 1 <= i <= bottom
      invariant tree[bottom..] == initial[bottom..]
      invariant tree[0] == zero
      invariant forall j :: i <= j < bottom ==> Hashed(h, tree[..], j)
    {
      i := i - 1;
      ghost var before := tree[..];
      tree[i] := h(tree[i * 2], tree[i * 2 + 1]);
      assert tree[..] == before[i := h(before[2 * i], before[2 * i + 1])];
      HashOneMore(h, before, bottom, i, tree[..]);
    }
    assert tree[..][bottom..] == initial[bottom..];
    return Ok(tree[..]);
  }

  /** The root of the `2^k` leaves of `xs` from `lo` on, by halving: the reference for the array form. */
  ghost function HalvingRoot<T>(h: (T, T) -> T, xs: seq<T>, lo: nat, k: nat): T
    requires lo + Pow2(k) <= |xs|
    decreases k
  {
    if k == 0 then xs[lo]
    else h(HalvingRoot(h, xs, lo, k - 1), HalvingRoot(h, xs, lo + Pow2(k - 1), k - 1))
  }

  lemma {:induction false} HalvingRootOfSuffix<T>(h: (T, T) -> T, xs: seq<T>, from: nat, lo: nat, k: nat)
    requires from + lo + Pow2(k) <= |xs|
    ensures HalvingRoot(h, xs, from + lo, k) == HalvingRoot(h, xs[from..], lo, k)
    decreases k
  {
    if k > 0 {
      HalvingRootOfSuffix(h, xs, from, lo, k - 1);
      HalvingRootOfSuffix(h, xs, from, lo + Pow2(k - 1), k - 1);
    }
  }

  /** The leftmost node `k` levels below `g`. */
  ghost function LeftmostBelow(g: nat, k: nat): nat
    decreases k
  {
    if k == 0 then g else LeftmostBelow(2 * g, k - 1)
  }

  lemma {:induction false} LeftmostBelowSum(a: nat, b: nat, k: nat)
    requires a >= b
    ensures LeftmostBelow(a, k) >= LeftmostBelow(b, k)
    ensures a == b + 1 ==> LeftmostBelow(a, k) == LeftmostBelow(b, k) + Pow2(k)
    decreases k
  {
    if k > 0 {
      LeftmostBelowSum(2 * a, 2 * b, k - 1);
      if a == b + 1 {
        LeftmostBelowSum(2 * b + 1, 2 * b, k - 1);
        LeftmostBelowSum(2 * b + 2, 2 * b + 1, k - 1);
      }
    }
  }

  lemma {:induction false} LeftmostBelowRow(d: nat, k: nat)
    ensures LeftmostBelow(Pow2(d), k) == Pow2(d + k)
    decreases k
  {
    if k > 0 {
      LeftmostBelowRow(d + 1, k - 1);
    }
  }

  lemma SpanInTree(g: nat, k: nat, depth: nat)
    requires k <= depth && Pow2(depth - k) <= g < Pow2(depth - k + 1)
    ensures LeftmostBelow(g, k) + Pow2(k) <= 2 * Pow2(depth)
    ensures 1 <= g < 2 * Pow2(depth)
    ensures k > 0 ==>
      && g < Pow2(depth)
      && Pow2(depth - (k - 1)) <= 2 * g
      && 2 * g + 1 < Pow2(depth - (k - 1) + 1)
      && LeftmostBelow(2 * g + 1, k - 1) == LeftmostBelow(g, k) + Pow2(k - 1)
  {
    LeftmostBelowSum(g + 1, g, k);
    LeftmostBelowSum(Pow2(depth - k + 1), g + 1, k);
    LeftmostBelowRow(depth - k + 1, k);
    Pow2Monotone(depth - k + 1, depth + 1);
    if k > 0 {
      Pow2Monotone(depth - k + 1, depth);
      LeftmostBelowSum(2 * g + 1, 2 * g, k - 1);
    }
  }

  /** Every node of the array at height `k` is the root of the leaves below it. */
  lemma {:induction false} NodeIsHalvingRoot<T(!new)>(h: (T, T) -> T, tree: seq<T>, depth: nat, g: nat, k: nat)
    requires IsTree(h, tree, depth)
    requires k <= depth && Pow2(depth - k) <= g < Pow2(depth - k + 1)
    ensures LeftmostBelow(g, k) + Pow2(k) <= |tree| && g < |tree|
    ensures tree[g] == HalvingRoot(h, tree, LeftmostBelow(g, k), k)
    decreases k
  {
    SpanInTree(g, k, depth);
    if k > 0 {
      assert Hashed(h, tree, g);
      NodeIsHalvingRoot(h, tree, depth, 2 * g, k - 1);
      NodeIsHalvingRoot(h, tree, depth, 2 * g + 1, k - 1);
    }
  }

  /** The root of the array is the root of the padded leaves. */
  lemma RootOfLeaves<T(!new)>(h: (T, T) -> T, tree: seq<T>, depth: nat)
    requires IsTree(h, tree, depth)
    ensures tree[1] == HalvingRoot(h, tree[Pow2(depth)..], 0, depth)
  {
    NodeIsHalvingRoot(h, tree, depth, 1, depth);
    LeftmostBelowRow(0, depth);
    HalvingRootOfSuffix(h, tree, Pow2(depth), 0, depth);
  }

  /** The nodes beside the path from node `g` to the root, bottom up. */
  ghost predicate IsProofOf<T(!new)>(tree: seq<T>, proof: seq<T>, g: nat, depth: nat) {
    && |proof| == depth
    && (forall i :: 0 <= i < depth ==> Sibling(Shr(g, i)) < |tree| && proof[i] == tree[Sibling(Shr(g, i))])
  }

  /** One level down: the child of `Shr(g, k + 1)` on the path is picked by bit `k` of the leaf index. */
  lemma PathStep(index: nat, depth: nat, k: nat)
    requires k < depth && index < Pow2(depth)
    ensures IndexBit(index, k) == (Shr(FromLeafIndex(index, depth), k) % 2 == 1)
    ensures Shr(FromLeafIndex(index, depth), k + 1) == Shr(FromLeafIndex(index, depth), k) / 2
    ensures 2 <= Shr(FromLeafIndex(index, depth), k) < 2 * Pow2(depth - k)
  {
    var g := FromLeafIndex(index, depth);
    ShrSucc(g, k);
    ShrOffset(index, depth, k);
    assert Pow2(depth - k) == 2 * Pow2(depth - k - 1);
    ShrBelow(index, depth, k);
  }

  lemma {:induction false} ShrBelow(x: nat, d: nat, k: nat)
    requires k <= d && x < Pow2(d)
    ensures Shr(x, k) < Pow2(d - k)
    decreases k
  {
    if k > 0 {
      ShrBelow(x / 2, d - 1, k - 1);
    }
  }

  /** A node is the child of its parent that its last bit names, and its sibling is the other one. */
  lemma ChildOfParent(x: nat)
    requires x >= 2
    ensures x == Child(x / 2, x % 2 == 1) && Sibling(x) == Child(x / 2, x % 2 == 0)
  {
  }

  lemma ChildrenBelow(x: nat, m: nat)
    requires x < 2 * m
    ensures Child(x / 2, false) < 2 * m && Child(x / 2, true) < 2 * m
  {
  }

  /** Going down from `current`, the child on the path and the one beside it. */
  lemma ProofStep(index: nat, depth: nat, level: nat, current: nat)
    requires 0 < level <= depth && index < Pow2(depth) && current == Shr(FromLeafIndex(index, depth), level)
    ensures Child(current, false) < 2 * Pow2(depth) && Child(current, true) < 2 * Pow2(depth)
    ensures var next := Shr(FromLeafIndex(index, depth), level - 1);
      && next == Child(current, IndexBit(index, level - 1))
      && Sibling(next) == Child(current, !IndexBit(index, level - 1))
  {
    var next := Shr(FromLeafIndex(index, depth), level - 1);
    PathStep(index, depth, level - 1);
    Pow2Monotone(depth - (level - 1), depth);
    ChildOfParent(next);
    ChildrenBelow(next, Pow2(depth));
  }

  method GenerateProof<T(!new)>(tree: seq<T>, index: nat, depth: nat) returns (r: Result<seq<T>>)
    requires index < Pow2(depth) ==> |tree| >= 2 * Pow2(depth)
    ensures r.Ok? <==> index < Pow2(depth)
    ensures r.Ok? ==> IsProofOf(tree, r.value, FromLeafIndex(index, depth), depth)
  {
    if index >= Pow2(depth) {
      return Err("Index out of bounds");
    }
    ghost var g := FromLeafIndex(index, depth);
    var proof := [];
    var current := 1;
    var level := depth;
    ShrOffset(index, depth, depth);
    ShrSmall(index, depth);
    while level > 0
      invariant 0 <= level <= depth
      invariant current == Shr(g, level)
      invariant |proof| == depth - level
      invariant forall j :: level <= j < depth ==>
        Sibling(Shr(g, j)) < |tree| && proof[depth - 1 - j] == tree[Sibling(Shr(g, j))]
    {
      var left, right := Child(current, false), Child(current, true);
      ghost var before, next := proof, Shr(g, level - 1);
      ProofStep(index, depth, level, current);
      if IndexBit(index, level - 1) {
        proof := proof + [tree[left]];
        current := right;
      } else {
        proof := proof + [tree[right]];
        current := left;
      }
      level := level - 1;
      assert current == next && proof == before + [tree[Sibling(next)]];
    }
    var reversed := seq(|proof|, i requires 0 <= i < |proof| => proof[|proof| - 1 - i]);
    return Ok(reversed);
  }

  /** The root that a leaf and the first `depth` nodes of a branch determine. */
  ghost function FoldBranch<T>(h: (T, T) -> T, leaf: T, branch: seq<T>, depth: nat, index: nat): T
    requires depth <= |branch|
    decreases depth
  {
    if depth == 0 then leaf
    else
      var value := FoldBranch(h, leaf, branch, depth - 1, index);
      if IndexBit(index, depth - 1) then h(branch[depth - 1], value) else h(value, branch[depth - 1])
  }

  method RootFromBranch<T>(h: (T, T) -> T, leaf: T, branch: seq<T>, depth: nat, index: nat) returns (value: T)
    requires depth <= |branch|
    ensures value == FoldBranch(h, leaf, branch, depth, index)
  {
    value := leaf;
    for i := 0 to depth
      invariant value == FoldBranch(h, leaf, branch, i, index)
    {
      if IndexBit(index, i) {
        value := h(branch[i], value);
      } else {
        value := h(value, branch[i]);
      }
    }
  }

  ghost predicate ValidBranch<T>(h: (T, T) -> T, leaf: T, branch: seq<T>, depth: nat, index: nat, root: T) {
    |branch| == depth && root == FoldBranch(h, leaf, branch, depth, index)
  }

  method IsValidBranch<T(==)>(h: (T, T) -> T, leaf: T, branch: seq<T>, depth: nat, index: nat, root: T)
    returns (valid: bool)
    ensures valid == ValidBranch(h, leaf, branch, depth, index, root)
  {
    if |branch| != depth {
      return false;
    }
    var value := RootFromBranch(h, leaf, branch, depth, index);
    return root == value;
  }

  ghost predicate ValidNormalizedBranch<T>(h: (T, T) -> T, zero: T, leaf: T, branch: seq<T>, g: nat, root: T) {
    var depth := FloorLog2(g);
    && |branch| >= depth
    && branch[..|branch| - depth] == Zeros(zero, |branch| - depth)
    && ValidBranch(h, leaf, branch[|branch| - depth..], depth, SubtreeIndex(g), root)
  }

  method IsValidNormalizedBranch<T(==)>(h: (T, T) -> T, zero: T, leaf: T, branch: seq<T>, g: nat, root: T)
    returns (valid: bool)
    ensures valid == ValidNormalizedBranch(h, zero, leaf, branch, g, root)
  {
    var depth := FloorLog2(g);
    if |branch| < depth {
      return false;
    }
    var extra := |branch| - depth;
    for i := 0 to extra
      invariant branch[..i] == Zeros(zero, i)
    {
      if branch[i] != zero {
        assert branch[..extra][i] != Zeros(zero, extra)[i];
        return false;
      }
      assert branch[..i + 1] == branch[..i] + [zero];
    }
    valid := IsValidBranch(h, leaf, branch[extra..], depth, SubtreeIndex(g), root);
  }

  /** Folding the first `k` nodes of a proof reaches the tree's own node `k` levels up. */
  lemma {:induction false} FoldFollowsTree<T(!new)>(h: (T, T) -> T, tree: seq<T>, depth: nat, index: nat,
      proof: seq<T>, k: nat)
    requires IsTree(h, tree, depth) && index < Pow2(depth) && k <= depth
    requires IsProofOf(tree, proof, FromLeafIndex(index, depth), depth)
    ensures Shr(FromLeafIndex(index, depth), k) < |tree|
    ensures FoldBranch(h, tree[FromLeafIndex(index, depth)], proof, k, index) ==
            tree[Shr(FromLeafIndex(index, depth), k)]
    decreases k
  {
    var g := FromLeafIndex(index, depth);
    if k > 0 {
      FoldFollowsTree(h, tree, depth, index, proof, k - 1);
      PathStep(index, depth, k - 1);
      var c := Shr(g, k - 1);
      assert Pow2(depth - (k - 1)) <= Pow2(depth) by { Pow2Monotone(depth - (k - 1), depth); }
      assert Hashed(h, tree, c / 2);
    }
  }

  lemma NormalizedIndex(index: nat, depth: nat)
    requires index < Pow2(depth)
    ensures FloorLog2(FromLeafIndex(index, depth)) == depth
    ensures SubtreeIndex(FromLeafIndex(index, depth)) == index
  {
    FloorLog2Of(depth, index);
  }

  /** Completeness: the proof of a leaf folds back to the root. */
  lemma BranchComplete<T(!new)>(h: (T, T) -> T, tree: seq<T>, depth: nat, index: nat, proof: seq<T>)
    requires IsTree(h, tree, depth) && index < Pow2(depth)
    requires IsProofOf(tree, proof, FromLeafIndex(index, depth), depth)
    ensures ValidBranch(h, tree[FromLeafIndex(index, depth)], proof, depth, index, tree[1])
  {
    FoldFollowsTree(h, tree, depth, index, proof, depth);
    ShrOffset(index, depth, depth);
    ShrSmall(index, depth);
  }

  /** The normalized form holds of exactly the zero-padded valid branches, whatever the padding. */
  lemma NormalizedIsPadded<T(!new)>(h: (T, T) -> T, zero: T, leaf: T, branch: seq<T>, depth: nat, index: nat, root: T)
    requires index < Pow2(depth)
    ensures ValidNormalizedBranch(h, zero, leaf, branch, FromLeafIndex(index, depth), root) <==>
      exists extra: nat, proof: seq<T> ::
        branch == Zeros(zero, extra) + proof && ValidBranch(h, leaf, proof, depth, index, root)
  {
    NormalizedIndex(index, depth);
    var n := |branch| - depth;
    if ValidNormalizedBranch(h, zero, leaf, branch, FromLeafIndex(index, depth), root) {
      assert branch == Zeros(zero, n) + branch[n..];
    }
    forall extra: nat, proof: seq<T> | branch == Zeros(zero, extra) + proof &&
      ValidBranch(h, leaf, proof, depth, index, root)
      ensures ValidNormalizedBranch(h, zero, leaf, branch, FromLeafIndex(index, depth), root)
    {
      assert n == extra;
      assert branch[..n] == Zeros(zero, extra) && branch[n..] == proof;
    }
  }

  /** The two nodes hashed at level `k` of a fold, left first. */
  ghost function FoldInputs<T>(h: (T, T) -> T, leaf: T, branch: seq<T>, k: nat, index: nat): (T, T)
    requires k < |branch|
  {
    var value := FoldBranch(h, leaf, branch, k, index);
    if IndexBit(index, k) then (branch[k], value) else (value, branch[k])
  }

  ghost predicate FoldsCollide<T(!new)>(h: (T, T) -> T, leaf: T, branch: seq<T>, leaf': T, branch': seq<T>,
      depth: nat, index: nat)
    requires depth <= |branch| && depth <= |branch'|
  {
    exists k :: 0 <= k < depth &&
      var (a, b) := FoldInputs(h, leaf, branch, k, index);
      var (c, d) := FoldInputs(h, leaf', branch', k, index);
      Collide(h, a, b, c, d)
  }

  /** Binding: two branches with one root are the same branch of the same leaf, or the two folds
      hash different pairs to one value at the same level. */
  lemma {:induction false} BranchBinding<T(!new)>(h: (T, T) -> T, leaf: T, branch: seq<T>, leaf': T,
      branch': seq<T>, depth: nat, index: nat)
    requires depth <= |branch| && depth <= |branch'|
    requires FoldBranch(h, leaf, branch, depth, index) == FoldBranch(h, leaf', branch', depth, index)
    ensures (leaf == leaf' && branch[..depth] == branch'[..depth])
            || FoldsCollide(h, leaf, branch, leaf', branch', depth, index)
    decreases depth
  {
    if depth > 0 {
      var k := depth - 1;
      var (a, b) := FoldInputs(h, leaf, branch, k, index);
      var (c, d) := FoldInputs(h, leaf', branch', k, index);
      if !Collide(h, a, b, c, d) {
        BranchBinding(h, leaf, branch, leaf', branch', k, index);
        if !FoldsCollide(h, leaf, branch, leaf', branch', k, index) {
          assert branch[..depth] == branch[..k] + [branch[k]];
          assert branch'[..depth] == branch'[..k] + [branch'[k]];
        }
      }
    }
  }

  /** Soundness against a tree: a valid branch for the tree's root carries the tree's leaf and the
      tree's own proof, unless it exhibits a collision with the tree's hashing. */
  lemma BranchSound<T(!new)>(h: (T, T) -> T, tree: seq<T>, depth: nat, index: nat, proof: seq<T>, leaf: T,
      branch: seq<T>)
    requires IsTree(h, tree, depth) && index < Pow2(depth)
    requires IsProofOf(tree, proof, FromLeafIndex(index, depth), depth)
    requires ValidBranch(h, leaf, branch, depth, index, tree[1])
    ensures (leaf == tree[FromLeafIndex(index, depth)] && branch == proof)
            || FoldsCollide(h, leaf, branch, tree[FromLeafIndex(index, depth)], proof, depth, index)
  {
    BranchComplete(h, tree, depth, index, proof);
    BranchBinding(h, leaf, branch, tree[FromLeafIndex(index, depth)], proof, depth, index);
    assert branch[..depth] == branch && proof[..depth] == proof;
  }
}
