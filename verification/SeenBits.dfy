/** The pruned list of seen aggregation bitfields (crates/storage/src/cache.rs). */
module SeenBits {
  type Bits = set<nat>

  predicate IsNonStrictSuperset(seen: seq<Bits>, bits: Bits) {
    exists i :: 0 <= i < |seen| && bits <= seen[i]
  }

  function Uncovered(seen: seq<Bits>, bits: Bits): (r: seq<Bits>)
    ensures forall b :: b in r <==> b in seen && !(b <= bits)
  {
    if seen == [] then []
    else
      var n := |seen| - 1;
      assert seen == seen[..n] + [seen[n]];
      Uncovered(seen[..n], bits) + (if seen[n] <= bits then [] else [seen[n]])
  }

  function Record(seen: seq<Bits>, bits: Bits): seq<Bits> {
    Uncovered(seen, bits) + [bits]
  }

  method Retain(seen: seq<Bits>, bits: Bits) returns (kept: seq<Bits>)
    ensures kept == Uncovered(seen, bits)
  {
    kept := [];
    for i := 0 to |seen|
      invariant kept == Uncovered(seen[..i], bits)
    {
      assert seen[..i + 1][..i] == seen[..i];
      if !(seen[i] <= bits) {
        kept := kept + [seen[i]];
      }
    }
    assert seen[..|seen|] == seen;
  }

  /** `retain` then `push`, in place on an object that holds the list. */
  class SeenList {
    var seen: seq<Bits>

    constructor ()
      ensures seen == []
    {
      seen := [];
    }

    method RecordAggregationBits(bits: Bits)
      modifies this
      ensures seen == Record(old(seen), bits)
    {
      var kept := Retain(seen, bits);
      seen := kept + [bits];
    }
  }

  function RecordAll(history: seq<Bits>): seq<Bits> {
    if history == [] then [] else Record(RecordAll(history[..|history| - 1]), history[|history| - 1])
  }

  lemma AppendCovers(seen: seq<Bits>, bits: Bits, query: Bits)
    ensures IsNonStrictSuperset(seen + [bits], query) <==> IsNonStrictSuperset(seen, query) || query <= bits
  {
    var r := seen + [bits];
    if IsNonStrictSuperset(seen, query) {
      var i :| 0 <= i < |seen| && query <= seen[i];
      assert query <= r[i];
    }
    if query <= bits {
      assert query <= r[|seen|];
    }
  }

  /** What `bits` covers may be dropped beside it. */
  lemma UncoveredCovers(seen: seq<Bits>, bits: Bits, query: Bits)
    requires !(query <= bits)
    ensures IsNonStrictSuperset(Uncovered(seen, bits), query) <==> IsNonStrictSuperset(seen, query)
  {
    var kept := Uncovered(seen, bits);
    if IsNonStrictSuperset(kept, query) {
      var i :| 0 <= i < |kept| && query <= kept[i];
      assert kept[i] in seen;
    }
    if IsNonStrictSuperset(seen, query) {
      var i :| 0 <= i < |seen| && query <= seen[i];
      assert seen[i] in kept;
    }
  }

  /** The pruned list answers every query as the full history would. */
  lemma {:induction false} PrunedAgreesWithHistory(history: seq<Bits>, query: Bits)
    ensures IsNonStrictSuperset(RecordAll(history), query) <==> IsNonStrictSuperset(history, query)
    decreases |history|
  {
    if history != [] {
      var n := |history| - 1;
      var front, bits := history[..n], history[n];
      assert history == front + [bits];
      PrunedAgreesWithHistory(front, query);
      AppendCovers(front, bits, query);
      AppendCovers(Uncovered(RecordAll(front), bits), bits, query);
      if !(query <= bits) {
        UncoveredCovers(RecordAll(front), bits, query);
      }
    }
  }

  ghost predicate Antichain(seen: seq<Bits>) {
    forall i, j :: 0 <= i < |seen| && 0 <= j < |seen| && i != j ==> !(seen[i] <= seen[j])
  }

  lemma {:induction false} UncoveredAntichain(seen: seq<Bits>, bits: Bits)
    requires Antichain(seen)
    ensures Antichain(Uncovered(seen, bits))
    decreases |seen|
  {
    if seen != [] {
      var n := |seen| - 1;
      UncoveredAntichain(seen[..n], bits);
      var rest := Uncovered(seen[..n], bits);
      forall j | 0 <= j < |rest| ensures !(seen[n] <= rest[j]) && !(rest[j] <= seen[n]) {
        assert rest[j] in seen[..n];
        var k :| 0 <= k < n && seen[..n][k] == rest[j];
        assert seen[k] == rest[j];
      }
    }
  }

  /** Bitfield `n` was not covered when it was recorded. */
  ghost predicate NewAt(history: seq<Bits>, n: nat)
    requires n < |history|
  {
    !IsNonStrictSuperset(history[..n], history[n])
  }

  /** Recording a bitfield that is not covered keeps the list an antichain. */
  lemma RecordAntichain(seen: seq<Bits>, bits: Bits)
    requires Antichain(seen) && !IsNonStrictSuperset(seen, bits)
    ensures Antichain(Uncovered(seen, bits) + [bits])
  {
    UncoveredAntichain(seen, bits);
    var kept := Uncovered(seen, bits);
    forall b | b in kept ensures !(b <= bits) && !(bits <= b) {
      assert b in seen;
      var k :| 0 <= k < |seen| && seen[k] == b;
    }
    AppendAntichain(kept, bits);
  }

  /** If only bitfields that were not covered are recorded, no kept bitfield covers another. */
  lemma {:induction false} UncoveredRecordsFormAntichain(history: seq<Bits>)
    requires forall n :: 0 <= n < |history| ==> NewAt(history, n)
    ensures Antichain(RecordAll(history))
    decreases |history|
  {
    if history != [] {
      var n := |history| - 1;
      var front, bits := history[..n], history[n];
      assert NewAt(history, n);
      forall m | 0 <= m < n ensures NewAt(front, m) {
        assert NewAt(history, m) && front[..m] == history[..m];
      }
      UncoveredRecordsFormAntichain(front);
      PrunedAgreesWithHistory(front, bits);
      RecordAntichain(RecordAll(front), bits);
    }
  }

  lemma AppendAntichain(kept: seq<Bits>, bits: Bits)
    requires Antichain(kept) && forall b :: b in kept ==> !(b <= bits) && !(bits <= b)
    ensures Antichain(kept + [bits])
  {
    assert forall i :: 0 <= i < |kept| ==> kept[i] in kept;
  }
}
