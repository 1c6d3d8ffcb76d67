/**
 Generalized indices of a binary Merkle tree (crates/crypto/merkle/src/index.rs): node 1 is the
 root and the children of node `g` are `2g` and `2g + 1`.
 */
module GeneralizedIndex {
  import opened Bits

  function Sibling(g: nat): nat {
    if g % 2 == 0 then g + 1 else g - 1
  }

  /** The right node of the pair `g` belongs to. */
  function RightOfPair(g: nat): nat {
    2 * (g / 2) + 1
  }

  predicate IndexBit(index: nat, position: nat) {
    Bit(index, position)
  }

  /** The three index operations are the source's `^ 1`, `| 1` and test against `1 << position`. */
  lemma IndexOperationsAreBitwise(g: nat, position: nat)
    ensures Sibling(g) == BitXor(g, 1)
    ensures RightOfPair(g) == BitOr(g, 1)
    ensures IndexBit(g, position) == (BitAnd(g, Pow2(position)) > 0)
  {
    BitTest(g, position);
    assert g / 2 > 0 ==> BitXor(g / 2, 0) == g / 2 && BitOr(g / 2, 0) == g / 2;
  }

  function Child(g: nat, right: bool): nat {
    g * 2 + if right then 1 else 0
  }

  function Parent(g: nat): nat {
    g / 2
  }

  function FromLeafIndex(index: nat, depth: nat): nat {
    index + Pow2(depth)
  }

  /** The index of a node among the nodes of its own depth. */
  function SubtreeIndex(g: nat): nat {
    g % Pow2(FloorLog2(g))
  }

  /** The nodes from `g` up to, and without, the root. */
  ghost function PathIndices(g: nat): seq<nat> {
    if g <= 1 then [] else [g] + PathIndices(g / 2)
  }

  /** The siblings of `PathIndices(g)`, in the same order. */
  ghost function BranchIndices(g: nat): seq<nat> {
    if g <= 1 then [] else [Sibling(g)] + BranchIndices(g / 2)
  }

  /** `a` is `g` or one of its ancestors. */
  ghost predicate Above(a: nat, g: nat) {
    a == g || (g > 1 && Above(a, g / 2))
  }

  /** `a` is an ancestor of `g` other than `g`. */
  ghost predicate StrictlyAbove(a: nat, g: nat) {
    g > 1 && Above(a, g / 2)
  }

  lemma {:induction false} AboveIsSmaller(a: nat, g: nat)
    requires Above(a, g)
    ensures a <= g && (g >= 1 ==> a >= 1)
    decreases g
  {
    if a != g {
      AboveIsSmaller(a, g / 2);
    }
  }

  lemma {:induction false} RootAboveAll(g: nat)
    requires g >= 1
    ensures Above(1, g)
    decreases g
  {
    if g > 1 {
      RootAboveAll(g / 2);
    }
  }

  lemma {:induction false} AboveTransitive(a: nat, b: nat, g: nat)
    requires Above(a, b) && Above(b, g)
    ensures Above(a, g)
    decreases g
  {
    if b != g {
      AboveTransitive(a, b, g / 2);
    }
  }

  /** Seen from above: a strict ancestor of `g` has exactly one child that is `g` or above it. */
  lemma {:induction false} AboveThroughChild(a: nat, g: nat) returns (c: nat)
    requires StrictlyAbove(a, g) && a >= 1
    ensures c == 2 * a || c == 2 * a + 1
    ensures Above(c, g) && c > 1
    decreases g
  {
    if a == g / 2 {
      c := g;
    } else {
      c := AboveThroughChild(a, g / 2);
    }
  }

  /** The path of `g` is every node above it but the root. */
  lemma {:induction false} PathMembership(g: nat, k: nat)
    ensures k in PathIndices(g) <==> k > 1 && Above(k, g)
    decreases g
  {
    if g <= 1 {
      if Above(k, g) { AboveIsSmaller(k, g); }
    } else {
      PathMembership(g / 2, k);
    }
  }

  lemma SiblingSwap(a: nat, b: nat)
    ensures Sibling(a) == b <==> a == Sibling(b)
  {
  }

  /** The branch of `g` is the siblings of its path. */
  lemma {:induction false} BranchMembership(g: nat, k: nat)
    ensures k in BranchIndices(g) <==> Sibling(k) in PathIndices(g)
    decreases g
  {
    if g > 1 {
      BranchMembership(g / 2, k);
      SiblingSwap(k, g);
      assert BranchIndices(g) == [Sibling(g)] + BranchIndices(g / 2);
      assert PathIndices(g) == [g] + PathIndices(g / 2);
    }
  }

  /** In order, bottom up: node `i` of the path is `g` shifted by `i`, and node `i` of the branch its sibling. */
  lemma {:induction false} IndicesInOrder(g: nat, i: nat)
    ensures |PathIndices(g)| == |BranchIndices(g)| == FloorLog2(g)
    ensures i < FloorLog2(g) ==> PathIndices(g)[i] == Shr(g, i) && BranchIndices(g)[i] == Sibling(Shr(g, i))
    decreases g
  {
    if g > 1 {
      IndicesInOrder(g / 2, if i > 0 then i - 1 else 0);
    }
  }

  lemma SiblingOfParent(x: nat)
    requires Sibling(x) > 1
    ensures x > 1 && Parent(Sibling(x)) == x / 2 && BranchIndices(x) == [Sibling(x)] + BranchIndices(x / 2)
  {
  }

  lemma RootHasNoBranch(x: nat)
    requires Sibling(x) <= 1
    ensures BranchIndices(x) == []
  {
  }

  /** The sister nodes along the path of `g`, collected bottom up. */
  method GetBranchIndices(g: nat) returns (result: seq<nat>)
    ensures result == BranchIndices(g)
  {
    var focus := Sibling(g);
    result := [focus];
    ghost var x, found := g, [];
    while focus > 1
      invariant focus == Sibling(x) && result == found + [focus]
      invariant found + BranchIndices(x) == BranchIndices(g)
      decreases x
    {
      SiblingOfParent(x);
      found := result;
      x := x / 2;
      focus := Sibling(Parent(focus));
      result := result + [focus];
    }
    RootHasNoBranch(x);
    result := result[..|result| - 1];
  }

  /** The path of `g`, collected bottom up. */
  method GetPathIndices(g: nat) returns (result: seq<nat>)
    ensures result == PathIndices(g)
  {
    var focus := g;
    result := [focus];
    while focus > 1
      invariant |result| >= 1 && result[|result| - 1] == focus
      invariant result[..|result| - 1] + PathIndices(focus) == PathIndices(g)
    {
      ghost var before := result;
      focus := Parent(focus);
      result := result + [focus];
      assert result[..|result| - 1] == before;
      assert before == before[..|before| - 1] + [before[|before| - 1]];
    }
    result := result[..|result| - 1];
  }
}
