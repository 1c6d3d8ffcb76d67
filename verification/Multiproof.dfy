/**
 Merkle multiproofs (crates/crypto/merkle/src/multiproof.rs and `get_helper_indices`). The root a
 multiproof determines is specified by a recursive reading of the sparse node map, `Rebuild`; the
 worklist loop is proved to compute it for every input.
 */
module Multiproof {
  import opened Wrappers
  import opened Sets
  import opened Bits
  import opened GeneralizedIndex
  import opened MerkleTree

  datatype Multiproof<T> = Multiproof(leaves: map<nat, T>, proofs: map<nat, T>)

  // ---------- Index sets ----------

  ghost function Paths(gs: set<nat>): set<nat> {
    set g, k | g in gs && k in PathIndices(g) :: k
  }

  ghost function Branches(gs: set<nat>): set<nat> {
    set g, k | g in gs && k in BranchIndices(g) :: k
  }

  /** The extra nodes needed to prove the nodes `gs`. */
  ghost function Helpers(gs: set<nat>): set<nat> {
    Branches(gs) - Paths(gs)
  }

  ghost predicate Descending(s: seq<nat>) {
    forall i, j :: 0 <= i < j < |s| ==> s[i] > s[j]
  }

  /** The elements of a set in some order. */
  method Elements(s: set<nat>) returns (r: seq<nat>)
    ensures AsSet(r) == s
  {
    r := [];
    var rest := s;
    while rest != {}
      invariant rest <= s && forall x :: x in s <==> x in r || x in rest
      decreases rest
    {
      var x :| x in rest;
      r := r + [x];
      rest := rest - {x};
    }
  }

  lemma AppendSmaller(r: seq<nat>, m: nat)
    requires Descending(r) && forall x :: x in r ==> x > m
    ensures Descending(r + [m])
  {
    assert forall i :: 0 <= i < |r| ==> r[i] in r;
  }

  lemma PrependLarger(m: nat, r: seq<nat>)
    requires Descending(r) && forall x :: x in r ==> m > x
    ensures Descending([m] + r)
  {
    assert forall i :: 0 <= i < |r| ==> r[i] in r;
  }

  method SortDescending(s: set<nat>) returns (r: seq<nat>)
    ensures Descending(r) && |r| == |s| && AsSet(r) == s
  {
    r := [];
    var rest := s;
    while rest != {}
      invariant rest <= s && |r| + |rest| == |s|
      invariant forall x :: x in s <==> x in r || x in rest
      invariant forall x, y :: x in r && y in rest ==> x > y
      invariant Descending(r)
      decreases rest
    {
      ghost var w := GreatestExists(rest, (x: nat) => x);
      assert w in rest;
      var m :| m in rest && forall x :: x in rest ==> x <= m;
      AppendSmaller(r, m);
      r := r + [m];
      rest := rest - {m};
    }
  }

  lemma DescendingHead(a: seq<nat>)
    requires Descending(a)
    ensures a == [] <==> AsSet(a) == {}
    ensures a != [] ==>
      && a[0] in AsSet(a) && (forall x :: x in AsSet(a) ==> x <= a[0])
      && AsSet(a[1..]) == AsSet(a) - {a[0]}
  {
    if a != [] {
      assert a[0] in AsSet(a);
      assert a == [a[0]] + a[1..];
      assert a[0] !in a[1..];
    }
  }

  lemma {:induction false} DescendingUnique(a: seq<nat>, b: seq<nat>)
    requires Descending(a) && Descending(b) && AsSet(a) == AsSet(b)
    ensures a == b
    decreases |a|
  {
    DescendingHead(a);
    DescendingHead(b);
    if a != [] {
      DescendingUnique(a[1..], b[1..]);
      assert a == [a[0]] + a[1..] && b == [b[0]] + b[1..];
    }
  }

  method GetHelperIndices(gs: seq<nat>) returns (result: seq<nat>)
    ensures Descending(result) && |result| == |Helpers(AsSet(gs))|
    ensures AsSet(result) == Helpers(AsSet(gs))
  {
    var helpers: set<nat>, paths: set<nat> := {}, {};
    for i := 0 to |gs|
      invariant helpers == Branches(AsSet(gs[..i]))
      invariant paths == Paths(AsSet(gs[..i]))
    {
      var branch := GetBranchIndices(gs[i]);
      var path := GetPathIndices(gs[i]);
      helpers := helpers + (set k | k in branch);
      paths := paths + (set k | k in path);
      assert gs[..i + 1] == gs[..i] + [gs[i]];
    }
    assert gs[..|gs|] == gs;
    result := SortDescending(helpers - paths);
  }

  // ---------- The root of a sparse node map ----------

  ghost function Top(s: set<nat>): (m: nat)
    ensures forall x :: x in s ==> x <= m
  {
    if s == {} then 0 else
      var x :| x in s;
      var rest := Top(s - {x});
      assert forall y :: y in s ==> y == x || y in s - {x};
      if x > rest then x else rest
  }

  /** The value `base` determines for node `k`: its own entry, or the hash of its two children. */
  ghost function Rebuild<T>(h: (T, T) -> T, base: map<nat, T>, k: nat): Option<T>
    requires k >= 1
    decreases if k <= Top(base.Keys) then Top(base.Keys) + 1 - k else 0
  {
    if k in base then Some(base[k])
    else if k > Top(base.Keys) then None
    else
      var left, right := Rebuild(h, base, 2 * k), Rebuild(h, base, 2 * k + 1);
      if left.Some? && right.Some? then Some(h(left.value, right.value)) else None
  }

  ghost function Base<T>(m: Multiproof<T>): map<nat, T> {
    m.leaves + m.proofs
  }

  /** What a multiproof proves: nothing unless it has as many proof nodes as helper indices. */
  ghost function RootOf<T>(h: (T, T) -> T, m: Multiproof<T>): Option<T> {
    if |m.proofs| != |Helpers(m.leaves.Keys)| then None else Rebuild(h, Base(m), 1)
  }

  // ---------- The worklist ----------

  /** A stored node is a given one or the hash of its stored children. */
  ghost predicate Sound<T(!new)>(h: (T, T) -> T, base: map<nat, T>, objects: map<nat, T>, k: nat) {
    && (k in base ==> k in objects && objects[k] == base[k])
    && (k in objects && k !in base ==>
          1 <= k && 2 * k in objects && 2 * k + 1 in objects && objects[k] == h(objects[2 * k], objects[2 * k + 1]))
  }

  /** If both nodes of the pair of `c` have been taken from the worklist, their parent is stored. */
  ghost predicate PairDone<T>(taken: seq<nat>, objects: map<nat, T>, c: nat) {
    c in taken && Sibling(c) in taken ==> c / 2 in objects
  }

  /** What the loop maintains: the worklist holds the stored nodes, all stored nodes are sound, and
      the pairs taken so far have their parents. */
  ghost predicate Progress<T(!new)>(h: (T, T) -> T, base: map<nat, T>, objects: map<nat, T>, keys: seq<nat>,
      taken: seq<nat>) {
    && (forall k :: k in keys <==> k in objects)
    && (forall k :: k in objects ==> k <= Top(base.Keys))
    && (forall k: nat :: Sound(h, base, objects, k))
    && (forall c: nat :: PairDone(taken, objects, c))
  }

  lemma StoreParent<T(!new)>(h: (T, T) -> T, base: map<nat, T>, objects: map<nat, T>, keys: seq<nat>, taken: seq<nat>,
                             p: nat, objects': map<nat, T>)
    requires Progress(h, base, objects, keys, taken)
    requires 1 <= p && p !in objects && 2 * p in objects && 2 * p + 1 in objects
    requires objects' == objects[p := h(objects[2 * p], objects[2 * p + 1])]
    ensures Progress(h, base, objects', keys + [p], taken)
    ensures |Missing(objects', Top(base.Keys))| < |Missing(objects, Top(base.Keys))|
  {
    var top := Top(base.Keys);
    forall k: nat ensures Sound(h, base, objects', k) {
      assert Sound(h, base, objects, k);
    }
    forall c: nat ensures PairDone(taken, objects', c) {
      assert PairDone(taken, objects, c);
    }
    assert p in Missing(objects, top) && Missing(objects', top) == Missing(objects, top) - {p};
  }

  lemma TakeKey<T(!new)>(h: (T, T) -> T, base: map<nat, T>, objects: map<nat, T>, keys: seq<nat>,
      taken: seq<nat>, key: nat, taken': seq<nat>)
    requires Progress(h, base, objects, keys, taken)
    requires (forall k :: k in taken ==> k in keys) && taken' == taken + [key]
    requires Sibling(key) in objects ==> key / 2 in objects
    ensures Progress(h, base, objects, keys, taken')
  {
    forall c: nat ensures PairDone(taken', objects, c) {
      assert PairDone(taken, objects, c);
    }
  }

  /** A sound map in which every complete pair has its parent holds exactly what `Rebuild` says. */
  lemma {:induction false} WorklistRebuilds<T(!new)>(h: (T, T) -> T, base: map<nat, T>, objects: map<nat, T>,
      keys: seq<nat>, k: nat)
    requires forall j: nat :: Sound(h, base, objects, j)
    requires forall j :: j in keys <==> j in objects
    requires forall c: nat :: PairDone(keys, objects, c)
    requires forall j :: j in objects ==> j <= Top(base.Keys)
    requires k >= 1
    ensures Rebuild(h, base, k) == if k in objects then Some(objects[k]) else None
    decreases if k <= Top(base.Keys) then Top(base.Keys) + 1 - k else 0
  {
    assert Sound(h, base, objects, k);
    if k !in base && k <= Top(base.Keys) {
      WorklistRebuilds(h, base, objects, keys, 2 * k);
      WorklistRebuilds(h, base, objects, keys, 2 * k + 1);
      assert PairDone(keys, objects, 2 * k);
    }
  }

  ghost function Missing<T>(objects: map<nat, T>, top: nat): set<nat> {
    set k: nat | 0 <= k <= top && k !in objects
  }

  /** The loop: keys are taken in order; a key whose sibling is stored and whose parent is not stores
      the parent and appends it to the worklist. */
  method FillIn<T(!new)>(h: (T, T) -> T, base: map<nat, T>) returns (objects: map<nat, T>)
    ensures Rebuild(h, base, 1) == if 1 in objects then Some(objects[1]) else None
  {
    objects := base;
    var keys := SortDescending(base.Keys);
    var position := 0;
    while position < |keys|
      invariant 0 <= position <= |keys|
      invariant Progress(h, base, objects, keys, keys[..position])
      decreases |Missing(objects, Top(base.Keys))|, |keys| - position
    {
      var key := keys[position];
      var parent := Parent(key);
      ghost var taken := keys[..position];
      ghost var keys0 := keys;
      if key in objects && Sibling(key) in objects && parent !in objects {
        var right := RightOfPair(key);
        var left := Sibling(right);
        ghost var before := objects;
        assert parent >= 1;
        objects := objects[parent := h(objects[left], objects[right])];
        StoreParent(h, base, before, keys, taken, parent, objects);
        keys := keys + [parent];
      }
      TakeKey(h, base, objects, keys, taken, key, taken + [key]);
      position := position + 1;
      assert keys[..position] == taken + [key];
    }
    assert keys[..position] == keys;
    WorklistRebuilds(h, base, objects, keys, 1);
  }

  method CalculateRoot<T(!new)>(h: (T, T) -> T, m: Multiproof<T>) returns (r: Result<T>)
    ensures RootOf(h, m) == if r.Ok? then Some(r.value) else None
    ensures r.Ok? <==> |m.proofs| == |Helpers(m.leaves.Keys)| && Rebuild(h, m.leaves + m.proofs, 1).Some?
    ensures r.Ok? ==> Rebuild(h, m.leaves + m.proofs, 1) == Some(r.value)
  {
    var leafIndices := Elements(m.leaves.Keys);
    var helpers := GetHelperIndices(leafIndices);
    if |m.proofs| != |helpers| {
      return Err("Invalid proof: proof length does not match helper indices length");
    }
    var objects := FillIn(h, m.leaves + m.proofs);
    if 1 !in objects {
      return Err("Missing root node at index 1");
    }
    return Ok(objects[1]);
  }

  method Verify<T(==, !new)>(h: (T, T) -> T, m: Multiproof<T>, expected: T) returns (valid: bool)
    ensures valid <==> RootOf(h, m) == Some(expected)
    ensures valid <==>
      |m.proofs| == |Helpers(m.leaves.Keys)| && Rebuild(h, m.leaves + m.proofs, 1) == Some(expected)
  {
    var root := CalculateRoot(h, m);
    return root.Ok? && root.value == expected;
  }

  // ---------- Completeness ----------

  /** The multiproof of the nodes `gs` with the tree's own values. */
  ghost predicate IsHonest<T>(tree: seq<T>, gs: set<nat>, m: Multiproof<T>) {
    && m.leaves.Keys == gs && m.proofs.Keys == Helpers(gs)
    && AgreesWithTree(tree, Base(m))
  }

  ghost predicate AgreesWithTree<T>(tree: seq<T>, base: map<nat, T>) {
    forall k :: k in base ==> k < |tree| && base[k] == tree[k]
  }

  lemma SiblingBounded(k: nat, limit: nat)
    requires 2 <= Sibling(k) < 2 * limit
    ensures 2 <= k < 2 * limit
  {
  }

  lemma HelperBounded(gs: set<nat>, k: nat, limit: nat)
    requires k in Helpers(gs) && forall g :: g in gs ==> g < 2 * limit
    ensures 2 <= k < 2 * limit
  {
    var g :| g in gs && k in BranchIndices(g);
    BranchMembership(g, k);
    PathMembership(g, Sibling(k));
    AboveIsSmaller(Sibling(k), g);
    SiblingBounded(k, limit);
  }

  ghost function Nodes(indices: seq<nat>, depth: nat): set<nat> {
    set i | i in indices :: FromLeafIndex(i, depth)
  }

  function ToGeneralized(indices: seq<nat>, depth: nat): (gs: seq<nat>)
    ensures AsSet(gs) == Nodes(indices, depth)
  {
    if indices == [] then [] else
      assert Nodes(indices, depth) == {FromLeafIndex(indices[0], depth)} + Nodes(indices[1..], depth) by {
        assert indices == [indices[0]] + indices[1..];
      }
      [FromLeafIndex(indices[0], depth)] + ToGeneralized(indices[1..], depth)
  }

  method Generate<T(!new)>(tree: seq<T>, depth: nat, indices: seq<nat>) returns (r: Result<Multiproof<T>>)
    requires indices != [] && (forall i :: i in indices ==> i < Pow2(depth)) ==> |tree| >= 2 * Pow2(depth)
    ensures r.Ok? <==> indices != [] && forall i :: i in indices ==> i < Pow2(depth)
    ensures r.Ok? ==> IsHonest(tree, Nodes(indices, depth), r.value)
    ensures r.Ok? ==> LeavesAt(tree, indices, depth, r.value.leaves)
  {
    if indices == [] {
      return Err("Indices cannot be empty");
    }
    if exists i :: i in indices && i >= Pow2(depth) {
      return Err("Index out of bounds");
    }
    var gs := ToGeneralized(indices, depth);
    var helpers := GetHelperIndices(gs);
    NodesInTree(indices, depth);
    r := Ok(Read(tree, gs, helpers));
    NodeRange(indices, depth);
    HonestLeaves(tree, Nodes(indices, depth), depth, r.value);
    LeavesOfNodes(tree, indices, depth, r.value);
  }

  /** Leaf `i` of the tree is at `2^depth + i`, and so in the multiproof. */
  ghost predicate LeavesAt<T>(tree: seq<T>, indices: seq<nat>, depth: nat, leaves: map<nat, T>) {
    forall i :: i in indices ==> LeafAt(tree, i, depth, leaves)
  }

  ghost predicate LeafAt<T>(tree: seq<T>, i: nat, depth: nat, leaves: map<nat, T>) {
    var k := Pow2(depth) + i;
    k in leaves && k < |tree| && leaves[k] == tree[k]
  }

  /** An honest multiproof has the tree's values at its leaves. */
  lemma HonestLeaves<T>(tree: seq<T>, gs: set<nat>, depth: nat, m: Multiproof<T>)
    requires IsHonest(tree, gs, m) && forall g :: g in gs ==> Pow2(depth) <= g < 2 * Pow2(depth)
    ensures AgreesWithTree(tree, m.leaves)
  {
    forall k | k in m.leaves ensures k !in m.proofs {
      HelperShapeExposed(gs, depth, k);
    }
    PartsAgree(tree, m);
  }

  lemma NodeRange(indices: seq<nat>, depth: nat)
    requires forall i :: i in indices ==> i < Pow2(depth)
    ensures forall g :: g in Nodes(indices, depth) ==> Pow2(depth) <= g < 2 * Pow2(depth)
    ensures forall i :: i in indices ==> FromLeafIndex(i, depth) in Nodes(indices, depth)
  {
  }

  lemma LeavesOfNodes<T>(tree: seq<T>, indices: seq<nat>, depth: nat, m: Multiproof<T>)
    requires m.leaves.Keys == Nodes(indices, depth) && AgreesWithTree(tree, m.leaves)
    ensures LeavesAt(tree, indices, depth, m.leaves)
  {
    forall i | i in indices ensures LeafAt(tree, i, depth, m.leaves) {
      LeafOfIndex(tree, indices, depth, m.leaves, i);
    }
  }

  lemma LeafOfIndex<T>(tree: seq<T>, indices: seq<nat>, depth: nat, leaves: map<nat, T>, i: nat)
    requires leaves.Keys == Nodes(indices, depth) && AgreesWithTree(tree, leaves) && i in indices
    ensures LeafAt(tree, i, depth, leaves)
  {
    assert FromLeafIndex(i, depth) in leaves;
  }

  lemma NodesInTree(indices: seq<nat>, depth: nat)
    requires forall i :: i in indices ==> i < Pow2(depth)
    ensures forall k :: k in Nodes(indices, depth) + Helpers(Nodes(indices, depth)) ==> k < 2 * Pow2(depth)
  {
    forall k | k in Helpers(Nodes(indices, depth)) ensures k < 2 * Pow2(depth) {
      HelperBounded(Nodes(indices, depth), k, Pow2(depth));
    }
  }

  /** The tree's values at the given indices. */
  function Read<T>(tree: seq<T>, gs: seq<nat>, helpers: seq<nat>): (m: Multiproof<T>)
    requires AsSet(helpers) == Helpers(AsSet(gs)) && forall k :: k in AsSet(gs) + Helpers(AsSet(gs)) ==> k < |tree|
    ensures IsHonest(tree, AsSet(gs), m)
  {
    assert forall g :: g in gs ==> g in AsSet(gs) + Helpers(AsSet(gs));
    assert forall k :: k in helpers ==> k in AsSet(gs) + Helpers(AsSet(gs)) by {
      assert forall k :: k in helpers ==> k in AsSet(helpers);
    }
    var leaves := map g | g in gs :: tree[g];
    var proofs := map k | k in helpers :: tree[k];
    assert leaves.Keys == AsSet(gs) && proofs.Keys == AsSet(helpers);
    Multiproof(leaves, proofs)
  }

  /** A map with the tree's own values determines no other value. */
  lemma {:induction false} RebuildAgrees<T(!new)>(h: (T, T) -> T, tree: seq<T>, depth: nat, base: map<nat, T>, k: nat)
    requires IsTree(h, tree, depth) && AgreesWithTree(tree, base) && k >= 1
    ensures Rebuild(h, base, k).Some? ==> k < |tree| && Rebuild(h, base, k) == Some(tree[k])
    decreases if k <= Top(base.Keys) then Top(base.Keys) + 1 - k else 0
  {
    if k !in base && k <= Top(base.Keys) {
      RebuildAgrees(h, tree, depth, base, 2 * k);
      RebuildAgrees(h, tree, depth, base, 2 * k + 1);
      if Rebuild(h, base, k).Some? {
        assert Hashed(h, tree, k);
      }
    }
  }

  /** With the helper nodes present, every node above a proved node is determined. */
  lemma {:induction false} RebuildReaches<T(!new)>(h: (T, T) -> T, base: map<nat, T>, gs: set<nat>, g: nat, k: nat)
    requires gs + Helpers(gs) <= base.Keys
    requires g in gs && k >= 1 && Above(k, g)
    ensures Rebuild(h, base, k).Some?
    decreases if k <= Top(base.Keys) then Top(base.Keys) + 1 - k else 0
  {
    AboveIsSmaller(k, g);
    assert g in base.Keys;
    if k !in base {
      var c := AboveThroughChild(k, g);
      RebuildReaches(h, base, gs, g, c);
      var s := Sibling(c);
      PathMembership(g, c);
      assert Sibling(s) == c;
      BranchMembership(g, s);
      assert s in Branches(gs);
      if s in Paths(gs) {
        var g' :| g' in gs && s in PathIndices(g');
        PathMembership(g', s);
        RebuildReaches(h, base, gs, g', s);
      } else {
        assert s in Helpers(gs);
      }
    }
  }

  /** The helper nodes and the proved nodes of a tree determine the tree's root. */
  lemma HonestRebuild<T(!new)>(h: (T, T) -> T, tree: seq<T>, depth: nat, gs: set<nat>, base: map<nat, T>)
    requires IsTree(h, tree, depth) && AgreesWithTree(tree, base) && gs + Helpers(gs) <= base.Keys
    requires gs != {} && forall g :: g in gs ==> g >= 1
    ensures Rebuild(h, base, 1) == Some(tree[1])
  {
    var g :| g in gs;
    RootAboveAll(g);
    RebuildReaches(h, base, gs, g, 1);
    RebuildAgrees(h, tree, depth, base, 1);
  }

  /** Completeness: the generated multiproof of any non-empty set of nodes yields the tree's root. */
  lemma MultiproofComplete<T(!new)>(h: (T, T) -> T, tree: seq<T>, depth: nat, gs: set<nat>, m: Multiproof<T>)
    requires IsTree(h, tree, depth) && IsHonest(tree, gs, m)
    requires gs != {} && forall g :: g in gs ==> g >= 1
    ensures RootOf(h, m) == Some(tree[1])
  {
    HonestRebuild(h, tree, depth, gs, Base(m));
    assert |m.proofs| == |m.proofs.Keys|;
  }

  // ---------- Binding ----------

  /** No given node lies strictly above `k`. */
  ghost predicate Exposed(keys: set<nat>, k: nat) {
    forall a :: a in keys ==> !StrictlyAbove(a, k)
  }

  /** Rebuilding hashes some pair of nodes to the tree's value at `p` with inputs other than the tree's. */
  ghost predicate CollidesWithTree<T(!new)>(h: (T, T) -> T, base: map<nat, T>, tree: seq<T>, p: nat) {
    && 1 <= p && 2 * p + 1 < |tree|
    && Rebuild(h, base, 2 * p).Some? && Rebuild(h, base, 2 * p + 1).Some?
    && Collide(h, Rebuild(h, base, 2 * p).value, Rebuild(h, base, 2 * p + 1).value, tree[2 * p], tree[2 * p + 1])
  }

  ghost predicate HasCollision<T(!new)>(h: (T, T) -> T, base: map<nat, T>, tree: seq<T>) {
    exists p: nat :: CollidesWithTree(h, base, tree, p)
  }

  lemma {:induction false} BindingDescends<T(!new)>(h: (T, T) -> T, tree: seq<T>, depth: nat,
      base: map<nat, T>, k: nat, a: nat)
    requires IsTree(h, tree, depth)
    requires Rebuild(h, base, 1) == Some(tree[1])
    requires k in base && Exposed(base.Keys, k) && 1 <= k < |tree|
    requires Above(a, k)
    ensures 1 <= a < |tree|
    ensures Rebuild(h, base, a) == Some(tree[a]) || HasCollision(h, base, tree)
    decreases a
  {
    AboveIsSmaller(a, k);
    if a > 1 {
      var p := a / 2;
      assert Above(p, a) by { assert Above(p, a / 2); }
      AboveTransitive(p, a, k);
      BindingDescends(h, tree, depth, base, k, p);
      assert StrictlyAbove(p, k) by { AboveIsSmaller(a, k); }
      assert p !in base;
      assert Hashed(h, tree, p);
      if Rebuild(h, base, p) == Some(tree[p]) && Rebuild(h, base, a) != Some(tree[a]) {
        assert CollidesWithTree(h, base, tree, p);
      }
    }
  }

  /** Binding: a multiproof that verifies against the tree's root carries the tree's value at every
      exposed node, or it exhibits a collision with the tree's hashing. */
  lemma MultiproofBinding<T(!new)>(h: (T, T) -> T, tree: seq<T>, depth: nat, m: Multiproof<T>, k: nat)
    requires IsTree(h, tree, depth) && Rebuild(h, Base(m), 1) == Some(tree[1])
    requires k in Base(m) && 1 <= k < 2 * Pow2(depth) && Exposed(Base(m).Keys, k)
    ensures Base(m)[k] == tree[k] || HasCollision(h, Base(m), tree)
  {
    BindingDescends(h, tree, depth, Base(m), k, k);
  }

  /** A node below a given node is never read. */
  lemma {:induction false} ShieldedUnread<T(!new)>(h: (T, T) -> T, base: map<nat, T>, k: nat, v: T, a: nat, j: nat)
    requires k in base && a in base && StrictlyAbove(a, k)
    requires j >= 1 && !StrictlyAbove(a, j)
    ensures Rebuild(h, base[k := v], j) == Rebuild(h, base, j)
    decreases if j <= Top(base.Keys) then Top(base.Keys) + 1 - j else 0
  {
    assert base[k := v].Keys == base.Keys;
    if j !in base && j <= Top(base.Keys) {
      assert (2 * j) / 2 == j && (2 * j + 1) / 2 == j;
      ShieldedUnread(h, base, k, v, a, 2 * j);
      ShieldedUnread(h, base, k, v, a, 2 * j + 1);
    }
  }

  /** Node 0 is no node of any tree and is never read. */
  lemma {:induction false} ZeroUnread<T(!new)>(h: (T, T) -> T, base: map<nat, T>, v: T, j: nat)
    requires 0 in base && j >= 1
    ensures Rebuild(h, base[0 := v], j) == Rebuild(h, base, j)
    decreases if j <= Top(base.Keys) then Top(base.Keys) + 1 - j else 0
  {
    assert base[0 := v].Keys == base.Keys;
    if j !in base && j <= Top(base.Keys) {
      ZeroUnread(h, base, v, 2 * j);
      ZeroUnread(h, base, v, 2 * j + 1);
    }
  }

  /** Leaf `k` counts: its key is a node, not also a proof key, and no given key lies strictly above it. */
  ghost predicate Counts<T>(m: Multiproof<T>, k: nat) {
    k >= 1 && k !in m.proofs && Exposed(Base(m).Keys, k)
  }

  /** The value of any other leaf is never read. */
  lemma ShieldedLeafUnread<T(!new)>(h: (T, T) -> T, m: Multiproof<T>, k: nat, v: T)
    requires k in m.leaves && !Counts(m, k)
    ensures Rebuild(h, Base(m.(leaves := m.leaves[k := v])), 1) == Rebuild(h, Base(m), 1)
  {
    var m' := m.(leaves := m.leaves[k := v]);
    if k in m.proofs {
      assert Base(m') == Base(m);
    } else {
      assert Base(m') == Base(m)[k := v];
      if k == 0 {
        ZeroUnread(h, Base(m), v, 1);
      } else {
        var a :| a in Base(m).Keys && StrictlyAbove(a, k);
        assert !StrictlyAbove(a, 1);
        ShieldedUnread(h, Base(m), k, v, a, 1);
      }
    }
  }

  /** Such a leaf may be replaced by any value without changing the outcome. */
  lemma ShieldedLeafUnbound<T(!new)>(h: (T, T) -> T, m: Multiproof<T>, k: nat, v: T)
    requires k in m.leaves && !Counts(m, k)
    ensures RootOf(h, m.(leaves := m.leaves[k := v])) == RootOf(h, m)
  {
    assert m.leaves[k := v].Keys == m.leaves.Keys;
    ShieldedLeafUnread(h, m, k, v);
  }

  /** Rebuilding from two maps hashes different pairs to one value at node `p`. */
  ghost predicate CollidesAt<T(!new)>(h: (T, T) -> T, base: map<nat, T>, base': map<nat, T>, p: nat) {
    && p >= 1
    && Rebuild(h, base, 2 * p).Some? && Rebuild(h, base, 2 * p + 1).Some?
    && Rebuild(h, base', 2 * p).Some? && Rebuild(h, base', 2 * p + 1).Some?
    && Collide(h, Rebuild(h, base, 2 * p).value, Rebuild(h, base, 2 * p + 1).value,
               Rebuild(h, base', 2 * p).value, Rebuild(h, base', 2 * p + 1).value)
  }

  ghost predicate MapsCollide<T(!new)>(h: (T, T) -> T, base: map<nat, T>, base': map<nat, T>) {
    exists p: nat :: CollidesAt(h, base, base', p)
  }

  /** Two maps with the same keys and one root agree at every node from the root down to an exposed key. */
  lemma {:induction false} AgreementDescends<T(!new)>(h: (T, T) -> T, base: map<nat, T>, base': map<nat, T>,
      k: nat, a: nat)
    requires base.Keys == base'.Keys && k in base && k >= 1 && Exposed(base.Keys, k)
    requires Rebuild(h, base, 1).Some? && Rebuild(h, base, 1) == Rebuild(h, base', 1)
    requires Above(a, k)
    ensures a >= 1
    ensures (Rebuild(h, base, a).Some? && Rebuild(h, base, a) == Rebuild(h, base', a)) || MapsCollide(h, base, base')
    decreases a
  {
    AboveIsSmaller(a, k);
    if a > 1 {
      var p := a / 2;
      assert Above(p, a) by { assert Above(p, a / 2); }
      AboveTransitive(p, a, k);
      AgreementDescends(h, base, base', k, p);
      assert StrictlyAbove(p, k) by { AboveIsSmaller(a, k); }
      assert p !in base;
      if !MapsCollide(h, base, base') {
        assert !CollidesAt(h, base, base', p);
      }
    }
  }

  /** Between any two multiproofs with the same keys and one root, whatever the keys and with no tree in
      sight, a leaf that counts has one value, or the two collide. */
  lemma LeafAgreement<T(!new)>(h: (T, T) -> T, m: Multiproof<T>, m': Multiproof<T>, k: nat)
    requires SameKeys(m, m') && RootOf(h, m).Some? && RootOf(h, m) == RootOf(h, m')
    requires k in m.leaves && Counts(m, k)
    ensures m.leaves[k] == m'.leaves[k] || MapsCollide(h, Base(m), Base(m'))
  {
    assert Base(m).Keys == Base(m').Keys;
    assert Above(k, k);
    AgreementDescends(h, Base(m), Base(m'), k, k);
    assert Base(m)[k] == m.leaves[k] && Base(m')[k] == m'.leaves[k];
  }

  ghost predicate SameKeys<T>(m: Multiproof<T>, m': Multiproof<T>) {
    m.leaves.Keys == m'.leaves.Keys && m.proofs.Keys == m'.proofs.Keys
  }

  ghost predicate Injective<T(!new)>(h: (T, T) -> T) {
    forall a, b, c, d :: h(a, b) == h(c, d) ==> a == c && b == d
  }

  /** Verification against `root` fixes the value of leaf `k` for every multiproof with these keys. */
  ghost predicate Binds<T(!new)>(h: (T, T) -> T, shape: Multiproof<T>, root: T, k: nat, value: T) {
    forall m: Multiproof<T> :: BindsIn(h, shape, root, k, value, m)
  }

  ghost predicate BindsIn<T>(h: (T, T) -> T, shape: Multiproof<T>, root: T, k: nat, value: T, m: Multiproof<T>) {
    SameKeys(shape, m) && RootOf(h, m) == Some(root) && k in m.leaves ==> m.leaves[k] == value
  }

  lemma InjectiveMapsAgree<T(!new)>(h: (T, T) -> T, base: map<nat, T>, base': map<nat, T>)
    requires Injective(h)
    ensures !MapsCollide(h, base, base')
  {
    forall p: nat ensures !CollidesAt(h, base, base', p) {
    }
  }

  lemma CountingLeafAgrees<T(!new)>(h: (T, T) -> T, m: Multiproof<T>, m': Multiproof<T>, root: T, k: nat)
    requires Injective(h) && SameKeys(m, m') && RootOf(h, m) == Some(root) && RootOf(h, m') == Some(root)
    requires k in m.leaves && Counts(m, k)
    ensures m.leaves[k] == m'.leaves[k]
  {
    InjectiveMapsAgree(h, Base(m), Base(m'));
    LeafAgreement(h, m, m', k);
  }

  lemma CountingLeafBound<T(!new)>(h: (T, T) -> T, m: Multiproof<T>, root: T, k: nat)
    requires Injective(h) && RootOf(h, m) == Some(root) && k in m.leaves && Counts(m, k)
    ensures Binds(h, m, root, k, m.leaves[k])
  {
    forall m': Multiproof<T> ensures BindsIn(h, m, root, k, m.leaves[k], m') {
      if SameKeys(m, m') && RootOf(h, m') == Some(root) {
        CountingLeafAgrees(h, m, m', root, k);
      }
    }
  }

  /** One multiproof of the shape that verifies with another value refutes the binding. */
  lemma WitnessRefutes<T(!new)>(h: (T, T) -> T, m: Multiproof<T>, root: T, k: nat, value: T, m': Multiproof<T>)
    requires SameKeys(m, m') && RootOf(h, m') == Some(root) && k in m'.leaves && m'.leaves[k] != value
    ensures !Binds(h, m, root, k, value)
  {
    assert !BindsIn(h, m, root, k, value, m');
  }

  lemma ReplacedLeaf<T>(m: Multiproof<T>, k: nat, v: T)
    requires k in m.leaves
    ensures var m' := m.(leaves := m.leaves[k := v]); SameKeys(m, m') && k in m'.leaves && m'.leaves[k] == v
  {
    assert m.leaves[k := v].Keys == m.leaves.Keys;
  }

  /** A leaf that does not count is bound to nothing: the multiproof with any other value there verifies. */
  lemma OtherLeafNotBound<T(!new)>(h: (T, T) -> T, m: Multiproof<T>, root: T, k: nat, value: T, other: T)
    requires RootOf(h, m) == Some(root) && k in m.leaves && !Counts(m, k) && other != value
    ensures !Binds(h, m, root, k, value)
  {
    var m' := m.(leaves := m.leaves[k := other]);
    ShieldedLeafUnbound(h, m, k, other);
    ReplacedLeaf(m, k, other);
    WitnessRefutes(h, m, root, k, value, m');
  }

  /** The exact condition: with an injective hash, whatever its keys, a multiproof that verifies binds a
      leaf if and only if the leaf counts. */
  lemma LeafBoundExactly<T(!new)>(h: (T, T) -> T, m: Multiproof<T>, root: T, k: nat, other: T)
    requires Injective(h) && RootOf(h, m) == Some(root)
    requires k in m.leaves && other != m.leaves[k]
    ensures Binds(h, m, root, k, m.leaves[k]) <==> Counts(m, k)
  {
    if Counts(m, k) {
      CountingLeafBound(h, m, root, k);
    } else {
      OtherLeafNotBound(h, m, root, k, m.leaves[k], other);
    }
  }

  lemma CountingLeafIsTrees<T(!new)>(h: (T, T) -> T, tree: seq<T>, depth: nat, m: Multiproof<T>, k: nat)
    requires IsTree(h, tree, depth) && Injective(h) && RootOf(h, m) == Some(tree[1])
    requires k in m.leaves && k < 2 * Pow2(depth) && Counts(m, k)
    ensures m.leaves[k] == tree[k]
  {
    MultiproofBinding(h, tree, depth, m, k);
    assert Base(m)[k] == m.leaves[k];
    forall p: nat ensures !CollidesWithTree(h, Base(m), tree, p) {
    }
  }

  /** Against a tree's root, what a leaf that counts is bound to is the tree's own value. */
  lemma LeafBoundToTree<T(!new)>(h: (T, T) -> T, tree: seq<T>, depth: nat, m: Multiproof<T>, k: nat, other: T)
    requires IsTree(h, tree, depth) && Injective(h) && RootOf(h, m) == Some(tree[1])
    requires k in m.leaves && k < 2 * Pow2(depth) && other != tree[k]
    ensures Binds(h, m, tree[1], k, tree[k]) <==> Counts(m, k)
  {
    if Counts(m, k) {
      CountingLeafIsTrees(h, tree, depth, m, k);
      CountingLeafBound(h, m, tree[1], k);
    } else {
      OtherLeafNotBound(h, m, tree[1], k, tree[k], other);
    }
  }

  /** For nodes of one depth with exactly their helper nodes, every key is exposed. */
  lemma HelperShapeExposed(gs: set<nat>, d: nat, k: nat)
    requires forall g :: g in gs ==> Pow2(d) <= g < 2 * Pow2(d)
    requires k in gs + Helpers(gs)
    ensures Exposed(gs + Helpers(gs), k) && gs !! Helpers(gs) && 1 <= k < 2 * Pow2(d)
  {
    forall g | g in gs ensures g !in Helpers(gs) && g >= 1 {
      if g > 1 {
        PathMembership(g, g);
        assert g in Paths(gs);
      } else if g in Helpers(gs) {
        HelperBounded(gs, g, Pow2(d));
      }
    }
    if k in Helpers(gs) { HelperBounded(gs, k, Pow2(d)); }
    forall a | a in gs + Helpers(gs) ensures !StrictlyAbove(a, k) {
      if StrictlyAbove(a, k) {
        var g := AboveSomeNode(gs, k, a);
        AboveIsSmaller(a, g / 2);
        if a in gs {
          assert false;
        } else {
          HelperBounded(gs, a, Pow2(d));
          PathMembership(g, a);
          assert false;
        }
      }
    }
  }

  /** What lies strictly above a helper or a node lies strictly above a node. */
  lemma AboveSomeNode(gs: set<nat>, k: nat, a: nat) returns (g: nat)
    requires k in gs + Helpers(gs) && StrictlyAbove(a, k)
    ensures g in gs && StrictlyAbove(a, g) && Above(a, g)
  {
    if k in gs {
      g := k;
    } else {
      g :| g in gs && k in BranchIndices(g);
      BranchMembership(g, k);
      PathMembership(g, Sibling(k));
      assert Above(a, Sibling(k) / 2);
      StrictlyAboveTransitive(a, Sibling(k), g);
    }
  }

  lemma {:induction false} StrictlyAboveTransitive(a: nat, b: nat, g: nat)
    requires StrictlyAbove(a, b) && Above(b, g)
    ensures StrictlyAbove(a, g)
    decreases g
  {
    AboveIsSmaller(b, g);
    if b != g {
      StrictlyAboveTransitive(a, b, g / 2);
    }
  }

  /** Binding for the shape `Generate` produces: every leaf and every proof node is the tree's. */
  lemma HelperShapeBinding<T(!new)>(h: (T, T) -> T, tree: seq<T>, depth: nat, m: Multiproof<T>, d: nat)
    requires IsTree(h, tree, depth) && d <= depth
    requires forall g :: g in m.leaves ==> Pow2(d) <= g < 2 * Pow2(d)
    requires m.proofs.Keys == Helpers(m.leaves.Keys)
    requires Rebuild(h, Base(m), 1) == Some(tree[1])
    ensures (AgreesWithTree(tree, m.leaves) && AgreesWithTree(tree, m.proofs))
            || HasCollision(h, Base(m), tree)
  {
    if !HasCollision(h, Base(m), tree) {
      forall k | k in Base(m) ensures k < |tree| && Base(m)[k] == tree[k] {
        HelperShapeKeyBound(h, tree, depth, m, d, k);
      }
      forall k | k in m.leaves ensures k !in m.proofs {
        HelperShapeExposed(m.leaves.Keys, d, k);
      }
      PartsAgree(tree, m);
    }
  }

  lemma PartsAgree<T>(tree: seq<T>, m: Multiproof<T>)
    requires AgreesWithTree(tree, Base(m)) && forall k :: k in m.leaves ==> k !in m.proofs
    ensures AgreesWithTree(tree, m.leaves) && AgreesWithTree(tree, m.proofs)
  {
    assert forall k :: k in m.leaves ==> k in Base(m) && m.leaves[k] == Base(m)[k];
    assert forall k :: k in m.proofs ==> k in Base(m) && m.proofs[k] == Base(m)[k];
  }

  lemma HelperShapeKeyBound<T(!new)>(h: (T, T) -> T, tree: seq<T>, depth: nat, m: Multiproof<T>, d: nat, k: nat)
    requires IsTree(h, tree, depth) && d <= depth
    requires forall g :: g in m.leaves ==> Pow2(d) <= g < 2 * Pow2(d)
    requires m.proofs.Keys == Helpers(m.leaves.Keys)
    requires Rebuild(h, Base(m), 1) == Some(tree[1]) && k in Base(m)
    ensures k < |tree|
    ensures Base(m)[k] == tree[k] || HasCollision(h, Base(m), tree)
  {
    var gs := m.leaves.Keys;
    Pow2Monotone(d, depth);
    assert Base(m).Keys == gs + Helpers(gs);
    HelperShapeExposed(gs, d, k);
    MultiproofBinding(h, tree, depth, m, k);
  }

  /** A proof that skips the leaf: with the root itself as its one proof node, the leaf at node 2
      verifies whatever its value. */
  lemma CountCheckIsNotEnough<T(!new)>(h: (T, T) -> T, root: T, x: T)
    ensures RootOf(h, Multiproof(map[2 := x], map[1 := root])) == Some(root)
  {
    var m := Multiproof(map[2 := x], map[1 := root]);
    assert m.leaves.Keys == {2};
    assert BranchIndices(2) == [3] + BranchIndices(1) && PathIndices(2) == [2] + PathIndices(1);
    assert forall k :: k in Branches({2}) <==> k in BranchIndices(2);
    assert forall k :: k in Paths({2}) <==> k in PathIndices(2);
    assert Helpers(m.leaves.Keys) == {3};
    assert |m.proofs| == 1;
  }

  lemma RebuildFromChildren<T(!new)>(h: (T, T) -> T, base: map<nat, T>)
    requires 1 !in base && 2 in base && 3 in base
    ensures Rebuild(h, base, 1) == Some(h(base[2], base[3]))
  {
    assert Top(base.Keys) >= 3;
  }

  lemma HelpersOfZeroAndTwo()
    ensures Helpers({0, 2}) == {3}
  {
    assert BranchIndices(0) == [] && PathIndices(0) == [];
    assert BranchIndices(2) == [3] + BranchIndices(1) && PathIndices(2) == [2] + PathIndices(1);
    assert forall k :: k in Branches({0, 2}) <==> k in BranchIndices(2);
    assert forall k :: k in Paths({0, 2}) <==> k in PathIndices(2);
  }

  lemma CountsMatchAtThree<T>(m: Multiproof<T>)
    requires m.leaves.Keys == {0, 2} && m.proofs.Keys == {3}
    ensures |m.proofs| == |Helpers(m.leaves.Keys)|
  {
    HelpersOfZeroAndTwo();
    assert |m.proofs| == |m.proofs.Keys|;
  }

  lemma RootBesideKeyZero<T(!new)>(h: (T, T) -> T, m: Multiproof<T>)
    requires m.leaves.Keys == {0, 2} && m.proofs.Keys == {3}
    ensures RootOf(h, m) == Some(h(m.leaves[2], m.proofs[3]))
  {
    CountsMatchAtThree(m);
    RebuildFromChildren(h, Base(m));
  }

  /** A surplus proof node is refused: with one leaf at node 2 the only helper is node 3. */
  lemma SurplusProofRefused<T(!new)>(h: (T, T) -> T, a: T, proofs: map<nat, T>)
    requires |proofs| != 1
    ensures RootOf(h, Multiproof(map[2 := a], proofs)).None?
  {
    var m := Multiproof(map[2 := a], proofs);
    assert m.leaves.Keys == {2};
    HelpersOfTwo();
  }

  lemma HelpersOfTwo()
    ensures Helpers({2}) == {3}
  {
    assert BranchIndices(2) == [3] + BranchIndices(1) && PathIndices(2) == [2] + PathIndices(1);
    assert forall k :: k in Branches({2}) <==> k in BranchIndices(2);
    assert forall k :: k in Paths({2}) <==> k in PathIndices(2);
  }

  /** A leaf at key 0, which has neither branch nor path, verifies beside any proof, whatever its value,
      though it is no proof key and no given key lies above it. */
  lemma KeyZeroIsNotBound<T(!new)>(h: (T, T) -> T, a: T, b: T, x: T)
    ensures var m := Multiproof(map[0 := x, 2 := a], map[3 := b]);
      RootOf(h, m) == Some(h(a, b)) && 0 !in m.proofs && Exposed(Base(m).Keys, 0)
  {
    var m := Multiproof(map[0 := x, 2 := a], map[3 := b]);
    RootBesideKeyZero(h, m);
  }

  // ---------- The single-index case ----------

  lemma {:induction false} BranchDescends(g: nat)
    ensures Descending(BranchIndices(g))
    ensures forall k :: k in BranchIndices(g) ==> 2 <= k <= g + 1 && k / 2 <= g / 2
    decreases g
  {
    if g > 1 {
      BranchDescends(g / 2);
      var rest := BranchIndices(g / 2);
      PrependLarger(Sibling(g), rest);
    }
  }

  lemma {:induction false} NotBothAbove(a: nat, g: nat)
    requires a > 1 && Above(a, g)
    ensures !Above(Sibling(a), g)
    decreases g
  {
    AboveIsSmaller(a, g);
    if a == g {
      if Above(Sibling(a), g / 2) { AboveIsSmaller(Sibling(a), g / 2); }
    } else if Sibling(a) == g {
      AboveIsSmaller(a, g / 2);
    } else {
      NotBothAbove(a, g / 2);
    }
  }

  lemma {:induction false} BranchAt(g: nat, depth: nat, i: nat)
    requires Pow2(depth) <= g < 2 * Pow2(depth)
    ensures |BranchIndices(g)| == depth
    ensures i < depth ==> BranchIndices(g)[i] == Sibling(Shr(g, i))
    decreases depth
  {
    if depth > 0 {
      BranchAt(g / 2, depth - 1, if i > 0 then i - 1 else 0);
    }
  }

  lemma SiblingTwice(k: nat)
    ensures Sibling(Sibling(k)) == k
  {
  }

  /** What is beside a path is not on it. */
  lemma BranchNotPath(g: nat, k: nat)
    requires k in BranchIndices(g)
    ensures k !in PathIndices(g)
  {
    BranchMembership(g, k);
    PathMembership(g, Sibling(k));
    if k in PathIndices(g) {
      PathMembership(g, k);
      SiblingTwice(k);
      NotBothAbove(Sibling(k), g);
    }
  }

  /** The helpers of one node are its branch. */
  lemma HelpersOfOne(g: nat)
    ensures Helpers({g}) == AsSet(BranchIndices(g))
  {
    forall k ensures k in Helpers({g}) <==> k in AsSet(BranchIndices(g)) {
      if k in BranchIndices(g) { BranchNotPath(g, k); }
    }
  }

  lemma BranchIsProof<T(!new)>(tree: seq<T>, depth: nat, g: nat, nodes: seq<T>)
    requires Pow2(depth) <= g < 2 * Pow2(depth)
    requires |nodes| == |BranchIndices(g)|
    requires forall i :: 0 <= i < |nodes| ==> BranchIndices(g)[i] < |tree| && nodes[i] == tree[BranchIndices(g)[i]]
    ensures IsProofOf(tree, nodes, g, depth)
  {
    BranchAt(g, depth, 0);
    forall i | 0 <= i < depth ensures Sibling(Shr(g, i)) < |tree| && nodes[i] == tree[Sibling(Shr(g, i))] {
      BranchAt(g, depth, i);
    }
  }

  /** The helpers of one leaf in descending order are the nodes of its ordinary proof, in order. */
  lemma OneIndexIsProof<T(!new)>(tree: seq<T>, depth: nat, g: nat, helpers: seq<nat>, nodes: seq<T>)
    requires Pow2(depth) <= g < 2 * Pow2(depth) <= |tree|
    requires Descending(helpers) && AsSet(helpers) == Helpers({g})
    requires |nodes| == |helpers| && forall i :: 0 <= i < |nodes| ==>
      helpers[i] < |tree| && nodes[i] == tree[helpers[i]]
    ensures IsProofOf(tree, nodes, g, depth)
  {
    HelpersOfOne(g);
    BranchDescends(g);
    DescendingUnique(helpers, BranchIndices(g));
    BranchIsProof(tree, depth, g, nodes);
  }
}
