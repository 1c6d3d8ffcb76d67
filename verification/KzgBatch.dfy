/**
 Batched KZG verification of data columns (crates/common/polynomial_commitments/src/handlers.rs). The
 batch verifier is a parameter that accepts a batch exactly when every cell of it is valid.
 */
module KzgBatch {
  import opened Wrappers

  const MAX_CELLS_PER_KZG_BATCH: nat := 4096

  datatype Sidecar = Sidecar(index: nat, cells: seq<nat>, commitments: seq<nat>, proofs: seq<nat>)

  /** One cell with its commitment, cell index and proof. */
  datatype Claim = Claim(commitment: nat, index: nat, cell: nat, proof: nat)

  type BatchVerifier = (seq<nat>, seq<nat>, seq<nat>, seq<nat>) -> Result<bool>

  datatype Batch = Batch(commitments: seq<nat>, indices: seq<nat>, cells: seq<nat>, proofs: seq<nat>)

  ghost predicate SameLength(b: Batch) {
    |b.commitments| == |b.indices| == |b.cells| == |b.proofs|
  }

  ghost function ClaimAt(b: Batch, i: nat): Claim
    requires SameLength(b) && i < |b.cells|
  {
    Claim(b.commitments[i], b.indices[i], b.cells[i], b.proofs[i])
  }

  ghost predicate DecidesBatch(verify: BatchVerifier, valid: Claim -> bool, b: Batch) {
    SameLength(b) ==> (verify(b.commitments, b.indices, b.cells, b.proofs) == Ok(true) <==> AllValid(valid, b))
  }

  ghost predicate AllValid(valid: Claim -> bool, b: Batch)
    requires SameLength(b)
  {
    forall i :: 0 <= i < |b.cells| ==> valid(ClaimAt(b, i))
  }

  /** The verifier accepts a batch of equally long lists exactly when every cell is valid. */
  ghost predicate Decides(verify: BatchVerifier, valid: Claim -> bool) {
    forall b :: DecidesBatch(verify, valid, b)
  }

  ghost predicate Consistent(s: Sidecar) {
    |s.cells| == |s.commitments| == |s.proofs|
  }

  /** The column is consistent, fits a batch, and every cell is valid against its own commitment. */
  ghost predicate Good(valid: Claim -> bool, s: Sidecar) {
    && Consistent(s) && |s.cells| <= MAX_CELLS_PER_KZG_BATCH
    && forall i :: 0 <= i < |s.cells| ==> valid(Claim(s.commitments[i], s.index, s.cells[i], s.proofs[i]))
  }

  ghost function CellCount(sidecars: seq<Sidecar>): nat {
    if sidecars == [] then 0 else CellCount(sidecars[..|sidecars| - 1]) + |sidecars[|sidecars| - 1].cells|
  }

  /** The batches are consecutive non-empty runs of the columns up to `end`, each within the limit, and
      each as long as the limit allows. */
  ghost predicate Batches(sidecars: seq<Sidecar>, cuts: seq<nat>, end: nat) {
    && |cuts| >= 1 && cuts[0] == 0 && cuts[|cuts| - 1] == end && end <= |sidecars|
    && (forall k :: 0 <= k < |cuts| - 1 ==> IsBatch(sidecars, cuts[k], cuts[k + 1]))
  }

  ghost predicate IsBatch(sidecars: seq<Sidecar>, from: nat, to: nat) {
    && from < to <= |sidecars| && CellCount(sidecars[from..to]) <= MAX_CELLS_PER_KZG_BATCH
    && (to < |sidecars| ==> CellCount(sidecars[from..to]) + |sidecars[to].cells| > MAX_CELLS_PER_KZG_BATCH)
  }

  method BatchEnd(sidecars: seq<Sidecar>, offset: nat) returns (end: nat)
    requires offset < |sidecars|
    ensures offset <= end <= |sidecars|
    ensures end > offset ==> IsBatch(sidecars, offset, end)
    ensures end == offset ==> |sidecars[offset].cells| > MAX_CELLS_PER_KZG_BATCH
  {
    end := offset;
    var count := 0;
    while end < |sidecars| && count + |sidecars[end].cells| <= MAX_CELLS_PER_KZG_BATCH
      invariant offset <= end <= |sidecars|
      invariant count == CellCount(sidecars[offset..end]) && count <= MAX_CELLS_PER_KZG_BATCH
    {
      count := count + |sidecars[end].cells|;
      assert sidecars[offset..end + 1][..end - offset] == sidecars[offset..end];
      end := end + 1;
    }
  }

  /** The claims of a column, in order. */
  ghost function Claims(s: Sidecar): seq<Claim>
    requires Consistent(s)
  {
    seq(|s.cells|, i requires 0 <= i < |s.cells| => Claim(s.commitments[i], s.index, s.cells[i], s.proofs[i]))
  }

  ghost function AllClaims(sidecars: seq<Sidecar>): (r: seq<Claim>)
    requires forall s :: s in sidecars ==> Consistent(s)
  {
    if sidecars == [] then []
    else
      assert sidecars[|sidecars| - 1] in sidecars;
      AllClaims(sidecars[..|sidecars| - 1]) + Claims(sidecars[|sidecars| - 1])
  }

  ghost predicate Lists(b: Batch, claims: seq<Claim>) {
    && SameLength(b) && |b.cells| == |claims|
    && forall i :: 0 <= i < |claims| ==> ClaimAt(b, i) == claims[i]
  }

  method Collect(columns: seq<Sidecar>) returns (r: Result<Batch>)
    ensures r.Ok? <==> forall s :: s in columns ==> Consistent(s)
    ensures r.Ok? ==> Lists(r.value, AllClaims(columns))
  {
    var b := Batch([], [], [], []);
    for i := 0 to |columns|
      invariant forall s :: s in columns[..i] ==> Consistent(s)
      invariant Lists(b, AllClaims(columns[..i]))
    {
      var s := columns[i];
      if |s.cells| != |s.commitments| || |s.cells| != |s.proofs| {
        assert s in columns && !Consistent(s);
        return Err("Length mismatch in data column sidecar");
      }
      assert columns[..i + 1][..i] == columns[..i];
      assert columns[..i + 1] == columns[..i] + [s];
      b := Batch(b.commitments + s.commitments, b.indices + seq(|s.cells|, _ => s.index),
                 b.cells + s.cells, b.proofs + s.proofs);
    }
    assert columns[..|columns|] == columns;
    return Ok(b);
  }

  ghost predicate ClaimsHold(valid: Claim -> bool, claims: seq<Claim>) {
    forall i :: 0 <= i < |claims| ==> valid(claims[i])
  }

  lemma ClaimsHoldInBoth(valid: Claim -> bool, a: seq<Claim>, b: seq<Claim>)
    ensures ClaimsHold(valid, a + b) <==> ClaimsHold(valid, a) && ClaimsHold(valid, b)
  {
    if ClaimsHold(valid, a + b) {
      forall i | 0 <= i < |a| ensures valid(a[i]) { assert (a + b)[i] == a[i]; }
      forall i | 0 <= i < |b| ensures valid(b[i]) { assert (a + b)[|a| + i] == b[i]; }
    }
  }

  lemma ClaimsHoldOfColumn(valid: Claim -> bool, s: Sidecar)
    requires Consistent(s) && |s.cells| <= MAX_CELLS_PER_KZG_BATCH
    ensures ClaimsHold(valid, Claims(s)) <==> Good(valid, s)
  {
    if ClaimsHold(valid, Claims(s)) {
      forall i | 0 <= i < |s.cells| ensures valid(Claim(s.commitments[i], s.index, s.cells[i], s.proofs[i])) {
        assert valid(Claims(s)[i]);
      }
    }
  }

  lemma {:induction false} AllClaimsValid(valid: Claim -> bool, columns: seq<Sidecar>)
    requires forall s :: s in columns ==> Consistent(s) && |s.cells| <= MAX_CELLS_PER_KZG_BATCH
    ensures ClaimsHold(valid, AllClaims(columns)) <==> forall s :: s in columns ==> Good(valid, s)
    decreases |columns|
  {
    if columns != [] {
      var n := |columns| - 1;
      var front, s := columns[..n], columns[n];
      assert columns == front + [s];
      AllClaimsValid(valid, front);
      assert AllClaims(columns) == AllClaims(front) + Claims(s);
      ClaimsHoldInBoth(valid, AllClaims(front), Claims(s));
      ClaimsHoldOfColumn(valid, s);
    }
  }

  lemma {:induction false} WithinCount(columns: seq<Sidecar>, s: Sidecar)
    requires s in columns
    ensures |s.cells| <= CellCount(columns)
    decreases |columns|
  {
    var n := |columns| - 1;
    assert columns == columns[..n] + [columns[n]];
    if s != columns[n] {
      WithinCount(columns[..n], s);
    }
  }

  lemma ListsHold(valid: Claim -> bool, b: Batch, claims: seq<Claim>)
    requires Lists(b, claims)
    ensures AllValid(valid, b) <==> ClaimsHold(valid, claims)
  {
    if AllValid(valid, b) {
      forall i | 0 <= i < |claims| ensures valid(claims[i]) { assert valid(ClaimAt(b, i)); }
    }
  }

  /** The batch verdict on consistent columns within the limit is the per-cell check of each. */
  lemma BatchIsPerCell(verify: BatchVerifier, valid: Claim -> bool, columns: seq<Sidecar>, b: Batch)
    requires Decides(verify, valid)
    requires forall s :: s in columns ==> Consistent(s)
    requires CellCount(columns) <= MAX_CELLS_PER_KZG_BATCH && Lists(b, AllClaims(columns))
    ensures verify(b.commitments, b.indices, b.cells, b.proofs) == Ok(true) <==>
      forall s :: s in columns ==> Good(valid, s)
  {
    forall s | s in columns ensures |s.cells| <= MAX_CELLS_PER_KZG_BATCH { WithinCount(columns, s); }
    AllClaimsValid(valid, columns);
    ListsHold(valid, b, AllClaims(columns));
    assert DecidesBatch(verify, valid, b);
  }

  /** Accepts exactly when every column passes the per-cell check; acceptance cuts all columns into
      consecutive full batches. */
  method VerifySidecars(verify: BatchVerifier, ghost valid: Claim -> bool, sidecars: seq<Sidecar>)
    returns (r: Result<bool>, ghost cuts: seq<nat>)
    requires Decides(verify, valid)
    ensures r == Ok(true) <==> forall s :: s in sidecars ==> Good(valid, s)
    ensures exists end :: Batches(sidecars, cuts, end) && (r == Ok(true) ==> end == |sidecars|)
  {
    var offset := 0;
    cuts := [0];
    while offset < |sidecars|
      invariant 0 <= offset <= |sidecars|
      invariant Batches(sidecars, cuts, offset)
      invariant forall s :: s in sidecars[..offset] ==> Good(valid, s)
    {
      var end := BatchEnd(sidecars, offset);
      if end == offset {
        assert !Good(valid, sidecars[offset]) && sidecars[offset] in sidecars;
        return Err("Column exceeds KZG batch cell limit"), cuts;
      }
      var columns := sidecars[offset..end];
      assert forall s :: s in columns ==> s in sidecars;
      var batch := Collect(columns);
      if batch.Err? {
        return Err(batch.message), cuts;
      }
      BatchIsPerCell(verify, valid, columns, batch.value);
      var verdict := verify(batch.value.commitments, batch.value.indices, batch.value.cells, batch.value.proofs);
      if verdict != Ok(true) {
        return verdict, cuts;
      }
      assert sidecars[..end] == sidecars[..offset] + columns;
      ghost var before := cuts;
      cuts := cuts + [end];
      forall k | 0 <= k < |cuts| - 1 ensures IsBatch(sidecars, cuts[k], cuts[k + 1]) {
        assert k < |before| - 1 ==> IsBatch(sidecars, before[k], before[k + 1]);
      }
      offset := end;
    }
    assert sidecars[..offset] == sidecars;
    return Ok(true), cuts;
  }
}
