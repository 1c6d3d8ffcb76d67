/**
 Attestation aggregation and block packing (crates/common/operation_pool/src/lib.rs). A signature that
 parses is the multiset of committee positions it covers; aggregation adds them up and fails if one
 does not parse. The root of attestation data is a parameter.
 */
module AttestationPool {
  import opened Wrappers
  import opened Sets

  const MAX_ATTESTATIONS_ELECTRA: nat := 8
  const SLOTS_PER_EPOCH: nat := 32
  const MIN_ATTESTATION_INCLUSION_DELAY: nat := 1

  datatype Signature = Unparsable | Covers(positions: multiset<nat>)

  datatype Data = Data(slot: nat, source: nat, targetEpoch: nat, rest: nat)

  datatype Attestation = Attestation(data: Data, committees: set<nat>, bits: seq<bool>, signature: Signature)

  datatype Key = Key(slot: nat, dataRoot: nat, committee: nat)

  function SetBits(a: Attestation): set<nat> {
    set i: nat | i < |a.bits| && a.bits[i]
  }

  function Aggregate(signatures: seq<Signature>): Option<Signature> {
    if signatures == [] then Some(Covers(multiset{}))
    else
      var rest := Aggregate(signatures[1..]);
      if rest.None? || signatures[0].Unparsable? then None
      else Some(Covers(signatures[0].positions + rest.value.positions))
  }

  function Signatures(group: seq<Attestation>): (r: seq<Signature>)
    ensures |r| == |group| && forall i :: 0 <= i < |group| ==> r[i] == group[i].signature
  {
    seq(|group|, i requires 0 <= i < |group| => group[i].signature)
  }

  // ---------- Aggregating one group ----------

  /** Has votes, all of them for positions below `length`, in the given committees. */
  predicate WellFormed(a: Attestation, committees: set<nat>, length: nat) {
    a.committees == committees && SetBits(a) != {} && forall i :: i in SetBits(a) ==> i < length
  }

  predicate Takes(a: Attestation, committees: set<nat>, length: nat, included: set<nat>, seen: set<nat>) {
    WellFormed(a, committees, length) && SetBits(a) !! seen && !(SetBits(a) <= included)
  }

  /** The attestations the greedy pass takes, in order. */
  function Select(group: seq<Attestation>, committees: set<nat>, length: nat, included: set<nat>,
      seen: set<nat>): seq<Attestation>
    decreases |group|
  {
    if group == [] then []
    else if Takes(group[0], committees, length, included, seen) then
      [group[0]] + Select(group[1..], committees, length, included, seen + SetBits(group[0]))
    else Select(group[1..], committees, length, included, seen)
  }

  function UnionBits(group: seq<Attestation>): set<nat> {
    if group == [] then {} else SetBits(group[0]) + UnionBits(group[1..])
  }

  function Chosen(group: seq<Attestation>, included: set<nat>): seq<Attestation>
    requires group != []
  {
    Select(group, group[0].committees, |group[0].bits|, included, {})
  }

  function BitsOf(length: nat, positions: set<nat>): (r: seq<bool>)
    ensures |r| == length && forall i :: 0 <= i < length ==> r[i] == (i in positions)
  {
    seq(length, i => i in positions)
  }

  function AggregateGroup(group: seq<Attestation>, included: set<nat>): Option<Attestation> {
    if group == [] then None
    else
      var chosen := Chosen(group, included);
      if chosen == [] then None
      else
        match Aggregate(Signatures(chosen))
        case None => None
        case Some(signature) =>
          Some(group[0].(bits := BitsOf(|group[0].bits|, UnionBits(chosen)), signature := signature))
  }

  method MarkPositions(positions: set<nat>, seen: set<nat>, bits: seq<bool>, length: nat)
    returns (seen': set<nat>, bits': seq<bool>)
    requires bits == BitsOf(length, seen) && forall p :: p in positions ==> p < length
    ensures seen' == seen + positions && bits' == BitsOf(length, seen')
  {
    seen', bits' := seen, bits;
    var rest := positions;
    while rest != {}
      invariant rest <= positions && seen' == seen + (positions - rest) && bits' == BitsOf(length, seen')
      decreases rest
    {
      var p :| p in rest;
      rest := rest - {p};
      seen' := seen' + {p};
      bits' := bits'[p := true];
    }
  }

  /** The pass over the group with its running bits, seen positions and signatures. */
  method AggregateAttestationGroup(group: seq<Attestation>, included: set<nat>) returns (r: Option<Attestation>)
    ensures r == AggregateGroup(group, included)
  {
    if group == [] {
      return None;
    }
    var first := group[0];
    var length := |first.bits|;
    var bits := BitsOf(length, {});
    var seen: set<nat> := {};
    var signatures: seq<Signature> := [];
    ghost var taken: seq<Attestation> := [];
    for i := 0 to |group|
      invariant bits == BitsOf(length, seen) && seen == UnionBits(taken)
      invariant signatures == Signatures(taken)
      invariant Chosen(group, included) == taken + Select(group[i..], first.committees, length, included, seen)
    {
      var a := group[i];
      assert group[i..][1..] == group[i + 1..];
      if a.committees != first.committees {
        continue;
      }
      var positions := SetBits(a);
      if positions == {} || (exists p :: p in positions && p >= length)
         || (exists p :: p in positions && p in seen) || positions <= included {
        continue;
      }
      UnionAppend(taken, a);
      assert Takes(a, first.committees, length, included, seen);
      seen, bits := MarkPositions(positions, seen, bits, length);
      signatures := signatures + [a.signature];
      taken := taken + [a];
    }
    assert Chosen(group, included) == taken;
    if signatures == [] {
      return None;
    }
    var signature := Aggregate(signatures);
    if signature.None? {
      return None;
    }
    return Some(first.(bits := bits, signature := signature.value));
  }

  lemma {:induction false} UnionAppend(taken: seq<Attestation>, a: Attestation)
    ensures UnionBits(taken + [a]) == UnionBits(taken) + SetBits(a)
    decreases |taken|
  {
    if taken == [] {
      assert taken + [a] == [a];
      assert [a][1..] == [];
    } else {
      assert (taken + [a])[1..] == taken[1..] + [a];
      UnionAppend(taken[1..], a);
    }
  }

  // ---------- What the aggregate is ----------

  ghost predicate PairwiseDisjoint(group: seq<Attestation>) {
    forall i, j :: 0 <= i < j < |group| ==> SetBits(group[i]) !! SetBits(group[j])
  }

  ghost predicate WellSigned(a: Attestation) {
    a.signature == Covers(multiset(SetBits(a)))
  }

  lemma {:induction false} UnionContains(group: seq<Attestation>, i: nat)
    requires i < |group|
    ensures SetBits(group[i]) <= UnionBits(group)
    decreases |group|
  {
    if i > 0 {
      UnionContains(group[1..], i - 1);
    }
  }

  lemma {:induction false} UnionMember(group: seq<Attestation>, p: nat) returns (a: Attestation)
    requires p in UnionBits(group)
    ensures a in group && p in SetBits(a)
    decreases |group|
  {
    if p in SetBits(group[0]) {
      a := group[0];
    } else {
      a := UnionMember(group[1..], p);
    }
  }

  /** The greedy pass takes well-formed, new, pairwise disjoint members, and leaves one out only if it
      overlaps what was taken or adds no vote. */
  lemma {:induction false} SelectExact(group: seq<Attestation>, committees: set<nat>, length: nat,
      included: set<nat>, seen: set<nat>)
    ensures var chosen := Select(group, committees, length, included, seen);
      && PairwiseDisjoint(chosen) && UnionBits(chosen) !! seen
      && (forall a :: a in chosen ==> a in group && WellFormed(a, committees, length) && !(SetBits(a) <= included))
      && (forall a :: a in group && WellFormed(a, committees, length) && a !in chosen ==>
            !(SetBits(a) !! seen + UnionBits(chosen)) || SetBits(a) <= included)
    decreases |group|
  {
    if group != [] {
      var a, rest := group[0], group[1..];
      assert group == [a] + rest;
      if Takes(a, committees, length, included, seen) {
        SelectExact(rest, committees, length, included, seen + SetBits(a));
        var tail := Select(rest, committees, length, included, seen + SetBits(a));
        var chosen := [a] + tail;
        assert UnionBits(chosen) == SetBits(a) + UnionBits(tail) by { assert chosen[1..] == tail; }
        forall j | 0 <= j < |tail| ensures SetBits(a) !! SetBits(tail[j]) {
          UnionContains(tail, j);
        }
        assert PairwiseDisjoint(chosen);
      } else {
        SelectExact(rest, committees, length, included, seen);
      }
    }
  }

  /** The pass is greedy from the front: what it does with a member depends on the members before it, and it
      takes one exactly if it is of the committees, has votes, all in range, none of them seen or taken before,
      and not all of them included. */
  lemma {:induction false} SelectOneMore(group: seq<Attestation>, a: Attestation, committees: set<nat>, length: nat,
      included: set<nat>, seen: set<nat>)
    ensures var before := Select(group, committees, length, included, seen);
      var taken :=
        && a.committees == committees && SetBits(a) != {} && (forall p :: p in SetBits(a) ==> p < length)
        && SetBits(a) !! seen + UnionBits(before) && !(SetBits(a) <= included);
      Select(group + [a], committees, length, included, seen) == before + if taken then [a] else []
    decreases |group|
  {
    var all := group + [a];
    if group == [] {
      assert all == [a] && all[1..] == [];
      assert seen + {} == seen;
    } else {
      assert all[1..] == group[1..] + [a];
      if Takes(group[0], committees, length, included, seen) {
        SelectOneMore(group[1..], a, committees, length, included, seen + SetBits(group[0]));
        var tail := Select(group[1..], committees, length, included, seen + SetBits(group[0]));
        assert ([group[0]] + tail)[1..] == tail;
        assert seen + UnionBits([group[0]] + tail) == seen + SetBits(group[0]) + UnionBits(tail);
      } else {
        SelectOneMore(group[1..], a, committees, length, included, seen);
      }
    }
  }

  lemma {:induction false} DisjointCover(group: seq<Attestation>)
    requires PairwiseDisjoint(group) && forall i :: 0 <= i < |group| ==> WellSigned(group[i])
    ensures Aggregate(Signatures(group)) == Some(Covers(multiset(UnionBits(group))))
    decreases |group|
  {
    if group == [] {
      assert multiset(UnionBits(group)) == multiset{};
    } else {
      var rest := group[1..];
      assert Signatures(group)[1..] == Signatures(rest);
      DisjointCover(rest);
      forall p | p in UnionBits(rest) ensures p !in SetBits(group[0]) {
        var a := UnionMember(rest, p);
        var j :| 0 <= j < |rest| && rest[j] == a;
        assert SetBits(group[0]) !! SetBits(group[j + 1]);
      }
      assert multiset(UnionBits(group)) == multiset(SetBits(group[0])) + multiset(UnionBits(rest));
    }
  }

  lemma ResultBits(group: seq<Attestation>, included: set<nat>)
    requires group != [] && AggregateGroup(group, included).Some?
    ensures SetBits(AggregateGroup(group, included).value) == UnionBits(Chosen(group, included))
  {
    var chosen := Chosen(group, included);
    SelectExact(group, group[0].committees, |group[0].bits|, included, {});
    forall p | p in UnionBits(chosen) ensures p < |group[0].bits| {
      var a := UnionMember(chosen, p);
    }
  }

  /** The aggregate has the first member's data, committees and length, the chosen members' votes, and one
      that is not yet included. */
  lemma AggregateShape(group: seq<Attestation>, included: set<nat>)
    requires group != [] && AggregateGroup(group, included).Some?
    ensures var r := AggregateGroup(group, included).value;
      && r.data == group[0].data && r.committees == group[0].committees && |r.bits| == |group[0].bits|
      && SetBits(r) == UnionBits(Chosen(group, included)) && !(SetBits(r) <= included)
  {
    var chosen := Chosen(group, included);
    SelectExact(group, group[0].committees, |group[0].bits|, included, {});
    ResultBits(group, included);
    UnionContains(chosen, 0);
    assert chosen[0] in chosen;
  }

  /** The aggregate's bits are the disjoint union of the chosen members', its signature covers each of
      them exactly once, it has a vote not yet included, and every other well-formed member overlaps it
      or adds nothing. */
  lemma AggregateExactAndMaximal(group: seq<Attestation>, included: set<nat>)
    requires group != [] && AggregateGroup(group, included).Some?
    ensures var r := AggregateGroup(group, included).value;
      var chosen := Chosen(group, included);
      && SetBits(r) == UnionBits(chosen) && PairwiseDisjoint(chosen) && !(SetBits(r) <= included)
      && r.data == group[0].data && r.committees == group[0].committees && |r.bits| == |group[0].bits|
      && ((forall a :: a in chosen ==> WellSigned(a)) ==> WellSigned(r))
      && (forall a :: a in chosen ==>
            && a in group && a.committees == r.committees && SetBits(a) != {}
            && forall p :: p in SetBits(a) ==> p < |r.bits|)
      && (forall a :: a in group && a !in chosen ==>
            || a.committees != r.committees || SetBits(a) == {} || (exists p :: p in SetBits(a) && p >= |r.bits|)
            || !(SetBits(a) !! SetBits(r)) || SetBits(a) <= included)
  {
    var chosen := Chosen(group, included);
    var r := AggregateGroup(group, included).value;
    SelectExact(group, group[0].committees, |group[0].bits|, included, {});
    AggregateShape(group, included);
    if forall a :: a in chosen ==> WellSigned(a) {
      DisjointCover(chosen);
    }
    assert {} + UnionBits(chosen) == UnionBits(chosen);
  }

  /** Bit by bit: position `p` of the aggregate is set exactly if it is in a chosen member. */
  lemma AggregateBit(group: seq<Attestation>, included: set<nat>, p: nat)
    requires group != [] && AggregateGroup(group, included).Some? && p < |group[0].bits|
    ensures var r := AggregateGroup(group, included).value;
      && |r.bits| == |group[0].bits|
      && (r.bits[p] <==> exists a :: a in Chosen(group, included) && p < |a.bits| && a.bits[p])
  {
    var r, chosen := AggregateGroup(group, included).value, Chosen(group, included);
    AggregateShape(group, included);
    assert r.bits[p] <==> p in SetBits(r);
    if p in UnionBits(chosen) {
      var a := UnionMember(chosen, p);
    }
    if a :| a in chosen && p < |a.bits| && a.bits[p] {
      var i :| 0 <= i < |chosen| && chosen[i] == a;
      UnionContains(chosen, i);
      assert p in SetBits(a);
    }
  }

  lemma {:induction false} AggregateFails(signatures: seq<Signature>)
    ensures Aggregate(signatures).None? <==> Unparsable in signatures
    decreases |signatures|
  {
    if signatures != [] {
      AggregateFails(signatures[1..]);
      assert signatures == [signatures[0]] + signatures[1..];
    }
  }

  /** Nothing is produced exactly when no well-formed member has a new vote, or a chosen signature does
      not parse. */
  lemma NoneExactly(group: seq<Attestation>, included: set<nat>)
    requires group != []
    ensures AggregateGroup(group, included).None? <==>
      (forall a :: a in group && WellFormed(a, group[0].committees, |group[0].bits|) ==> SetBits(a) <= included)
      || (exists a :: a in Chosen(group, included) && a.signature.Unparsable?)
  {
    var chosen := Chosen(group, included);
    SelectExact(group, group[0].committees, |group[0].bits|, included, {});
    AggregateFails(Signatures(chosen));
    if Unparsable in Signatures(chosen) {
      var i :| 0 <= i < |chosen| && Signatures(chosen)[i] == Unparsable;
      assert chosen[i] in chosen;
    }
    if a :| a in chosen && a.signature.Unparsable? {
      var i :| 0 <= i < |chosen| && chosen[i] == a;
      assert Signatures(chosen)[i] == Unparsable;
    }
    if chosen != [] {
      assert chosen[0] in chosen;
    }
  }

  // ---------- Largest first ----------

  function Votes(a: Attestation): nat {
    |SetBits(a)|
  }

  function InsertByVotes(a: Attestation, sorted: seq<Attestation>): seq<Attestation> {
    if sorted == [] || Votes(a) >= Votes(sorted[0]) then [a] + sorted
    else [sorted[0]] + InsertByVotes(a, sorted[1..])
  }

  /** A stable sort, most votes first. */
  function SortByVotes(group: seq<Attestation>): seq<Attestation> {
    if group == [] then [] else InsertByVotes(group[0], SortByVotes(group[1..]))
  }

  ghost predicate LargestFirst(s: seq<Attestation>) {
    forall i, j :: 0 <= i < j < |s| ==> |SetBits(s[i])| >= |SetBits(s[j])|
  }

  lemma {:induction false} InsertPermutes(a: Attestation, s: seq<Attestation>)
    ensures multiset(InsertByVotes(a, s)) == multiset{a} + multiset(s)
    decreases |s|
  {
    if s != [] && Votes(a) < Votes(s[0]) {
      InsertPermutes(a, s[1..]);
      assert s == [s[0]] + s[1..];
    }
  }

  lemma InsertMember(a: Attestation, s: seq<Attestation>, x: Attestation)
    requires x in InsertByVotes(a, s)
    ensures x == a || x in s
  {
    InsertPermutes(a, s);
    assert x in multiset(InsertByVotes(a, s));
  }

  lemma {:induction false} InsertSorted(a: Attestation, s: seq<Attestation>)
    requires LargestFirst(s)
    ensures LargestFirst(InsertByVotes(a, s))
    decreases |s|
  {
    if s != [] && Votes(a) < Votes(s[0]) {
      InsertSorted(a, s[1..]);
      var tail := InsertByVotes(a, s[1..]);
      forall j | 0 <= j < |tail| ensures Votes(s[0]) >= Votes(tail[j]) {
        InsertMember(a, s[1..], tail[j]);
      }
      assert InsertByVotes(a, s) == [s[0]] + tail;
    }
  }

  /** The members with exactly `votes` votes, in order. */
  ghost function WithVotes(s: seq<Attestation>, votes: nat): seq<Attestation> {
    if s == [] then [] else (if Votes(s[0]) == votes then [s[0]] else []) + WithVotes(s[1..], votes)
  }

  lemma {:induction false} InsertStable(a: Attestation, s: seq<Attestation>, votes: nat)
    ensures WithVotes(InsertByVotes(a, s), votes) == WithVotes([a] + s, votes)
    decreases |s|
  {
    var inserted := InsertByVotes(a, s);
    assert ([a] + s)[1..] == s;
    if s != [] && Votes(a) < Votes(s[0]) {
      InsertStable(a, s[1..], votes);
      assert inserted[1..] == InsertByVotes(a, s[1..]);
      assert ([a] + s[1..])[1..] == s[1..];
    }
  }

  /** A permutation with the most votes first that keeps the order of equals. */
  lemma {:induction false} SortCorrect(group: seq<Attestation>)
    ensures LargestFirst(SortByVotes(group)) && multiset(SortByVotes(group)) == multiset(group)
    ensures forall votes :: WithVotes(SortByVotes(group), votes) == WithVotes(group, votes)
    decreases |group|
  {
    if group != [] {
      SortCorrect(group[1..]);
      forall votes ensures WithVotes(SortByVotes(group), votes) == WithVotes(group, votes) {
        var sorted := SortByVotes(group[1..]);
        InsertStable(group[0], sorted, votes);
        assert ([group[0]] + sorted)[1..] == sorted;
      }
      InsertSorted(group[0], SortByVotes(group[1..]));
      InsertPermutes(group[0], SortByVotes(group[1..]));
      assert group == [group[0]] + group[1..];
    }
  }

  lemma FirstIsTaken(group: seq<Attestation>)
    requires group != []
    ensures SetBits(group[0]) <= UnionBits(Chosen(group, {}))
  {
    if SetBits(group[0]) != {} {
      assert Takes(group[0], group[0].committees, |group[0].bits|, {}, {});
      UnionContains(Chosen(group, {}), 0);
    }
  }

  /** Sorted largest first and with nothing included yet, the aggregate has at least as many votes as
      any member of the group. */
  lemma LargestFirstIsAtLeastAsLarge(group: seq<Attestation>, a: Attestation)
    requires a in group && AggregateGroup(SortByVotes(group), {}).Some?
    ensures |SetBits(AggregateGroup(SortByVotes(group), {}).value)| >= |SetBits(a)|
  {
    SortCorrect(group);
    var sorted := SortByVotes(group);
    assert a in multiset(sorted);
    var i :| 0 <= i < |sorted| && sorted[i] == a;
    assert Votes(sorted[0]) >= Votes(a);
    ResultBits(sorted, {});
    FirstIsTaken(sorted);
    SubsetNotLarger(SetBits(sorted[0]), UnionBits(Chosen(sorted, {})));
  }

  // ---------- Packing blocks ----------

  datatype BeaconState = BeaconState(slot: nat, currentJustified: nat, previousJustified: nat)

  type Groups = map<Key, seq<Attestation>>
  type Included = map<Key, set<nat>>

  function EpochAt(slot: nat): nat {
    slot / SLOTS_PER_EPOCH
  }

  function IncludedFor(included: Included, key: Key): set<nat> {
    if key in included then included[key] else {}
  }

  predicate InWindow(key: Key, state: BeaconState) {
    var current := EpochAt(state.slot);
    var previous := if current == 0 then 0 else current - 1;
    && (EpochAt(key.slot) == current || EpochAt(key.slot) == previous)
    && key.slot + MIN_ATTESTATION_INCLUSION_DELAY <= state.slot
  }

  predicate SourceIsJustified(data: Data, state: BeaconState) {
    data.source == if data.targetEpoch == EpochAt(state.slot) then state.currentJustified else state.previousJustified
  }

  predicate Eligible(groups: Groups, key: Key, state: BeaconState) {
    key in groups && InWindow(key, state) && groups[key] != [] && SourceIsJustified(groups[key][0].data, state)
  }

  lemma OneMember(s: set<nat>)
    requires |s| == 1
    ensures exists x :: x in s
    ensures forall x, y :: x in s && y in s ==> x == y
  {
    var x :| x in s;
    assert |s - {x}| == 0;
  }

  /** The key a marked attestation counts for, if it is of one committee. */
  function KeyOf(root: Data -> nat, a: Attestation): Option<Key> {
    if |a.committees| != 1 then None
    else
      OneMember(a.committees);
      var committee :| committee in a.committees;
      Some(Key(a.data.slot, root(a.data), committee))
  }

  function Mark(root: Data -> nat, included: Included, a: Attestation): Included {
    var key := KeyOf(root, a);
    if key.None? then included else included[key.value := IncludedFor(included, key.value) + SetBits(a)]
  }

  function MarkAll(root: Data -> nat, included: Included, attestations: seq<Attestation>): Included
    decreases |attestations|
  {
    if attestations == [] then included else MarkAll(root, Mark(root, included, attestations[0]), attestations[1..])
  }

  /** The attestation is of the key's slot, data and one committee. */
  ghost predicate CountsFor(root: Data -> nat, a: Attestation, key: Key) {
    a.committees == {key.committee} && a.data.slot == key.slot && root(a.data) == key.dataRoot
  }

  lemma KeyOfExactly(root: Data -> nat, a: Attestation, key: Key)
    ensures KeyOf(root, a) == Some(key) <==> CountsFor(root, a, key)
  {
    if |a.committees| == 1 {
      OneMember(a.committees);
    }
  }

  /** Marking, exactly: a position is included for a key afterwards if it was before, or is a set bit of a
      marked attestation that counts for the key. */
  lemma {:induction false} MarkedExactly(root: Data -> nat, included: Included, attestations: seq<Attestation>,
      key: Key, p: nat)
    ensures p in IncludedFor(MarkAll(root, included, attestations), key) <==>
      || p in IncludedFor(included, key)
      || exists a :: a in attestations && CountsFor(root, a, key) && p < |a.bits| && a.bits[p]
    decreases |attestations|
  {
    if attestations != [] {
      var a, rest := attestations[0], attestations[1..];
      assert attestations == [a] + rest;
      KeyOfExactly(root, a, key);
      MarkedExactly(root, Mark(root, included, a), rest, key, p);
    }
  }

  /** What packing returns: at most eight aggregates, each of a different eligible key in the order of
      `keys`, and none left out while there is room. */
  ghost predicate IsPacking(groups: Groups, included: Included, state: BeaconState, keys: seq<Key>,
      packed: seq<Attestation>) {
    && packed == Pack(groups, included, keys, MAX_ATTESTATIONS_ELECTRA)
    && (forall key :: key in keys <==> Eligible(groups, key, state))
    && NewestFirst(keys)
  }

  ghost predicate NewestFirst(keys: seq<Key>) {
    forall i, j :: 0 <= i < j < |keys| ==> keys[i].slot >= keys[j].slot && keys[i] != keys[j]
  }

  ghost predicate Follows(keys: seq<Key>, key: Key) {
    forall i :: 0 <= i < |keys| ==> keys[i].slot >= key.slot && keys[i] != key
  }

  ghost function AggregateOf(groups: Groups, included: Included, key: Key): Option<Attestation> {
    if key in groups then AggregateGroup(groups[key], IncludedFor(included, key)) else None
  }

  ghost function Pack(groups: Groups, included: Included, keys: seq<Key>, room: nat): seq<Attestation>
    decreases |keys|
  {
    if keys == [] || room == 0 then []
    else
      var a := AggregateOf(groups, included, keys[0]);
      if a.None? then Pack(groups, included, keys[1..], room)
      else [a.value] + Pack(groups, included, keys[1..], room - 1)
  }

  class OperationPool {
    var attestations: Groups
    var included: Included

    constructor ()
      ensures attestations == map[] && included == map[]
    {
      attestations, included := map[], map[];
    }

    method InsertAttestation(root: Data -> nat, a: Attestation, committee: nat)
      modifies this`attestations
      ensures var key := Key(a.data.slot, root(a.data), committee);
        attestations ==
        old(attestations)[key := (if key in old(attestations) then old(attestations)[key] else []) + [a]]
    {
      var key := Key(a.data.slot, root(a.data), committee);
      if key in attestations {
        attestations := attestations[key := attestations[key] + [a]];
      } else {
        assert [] + [a] == [a];
        attestations := attestations[key := [a]];
      }
    }

    method GetAggregateAttestation(slot: nat, committee: nat, dataRoot: nat) returns (r: Option<Attestation>)
      ensures var key := Key(slot, dataRoot, committee);
        r == if key in attestations then AggregateGroup(SortByVotes(attestations[key]), {}) else None
    {
      var key := Key(slot, dataRoot, committee);
      if key !in attestations {
        return None;
      }
      r := AggregateAttestationGroup(SortByVotes(attestations[key]), {});
    }

    method MarkAttestationsIncluded(root: Data -> nat, block: seq<Attestation>)
      modifies this`included
      ensures included == MarkAll(root, old(included), block)
    {
      for i := 0 to |block|
        invariant MarkAll(root, included, block[i..]) == MarkAll(root, old(included), block)
      {
        assert block[i..][1..] == block[i + 1..];
        var key := KeyOf(root, block[i]);
        if key.None? {
          continue;
        }
        included := included[key.value := IncludedFor(included, key.value) + SetBits(block[i])];
      }
    }

    /** The eligible keys, newest slot first. */
    method EligibleKeys(state: BeaconState) returns (keys: seq<Key>)
      ensures forall key :: key in keys <==> Eligible(attestations, key, state)
      ensures NewestFirst(keys)
    {
      var rest := set key | key in attestations && Eligible(attestations, key, state);
      keys := [];
      while rest != {}
        invariant forall key :: Eligible(attestations, key, state) <==> key in keys || key in rest
        invariant NewestFirst(keys) && forall key :: key in rest ==> Follows(keys, key)
        decreases rest
      {
        ghost var w := GreatestExists(rest, (key: Key) => key.slot);
        var key :| key in rest && forall other :: other in rest ==> key.slot >= other.slot;
        ghost var before := keys;
        keys := keys + [key];
        rest := rest - {key};
        forall other | other in rest ensures Follows(keys, other) {
          assert Follows(before, other);
        }
        assert NewestFirst(keys) by { assert Follows(before, key); }
      }
    }

    method GetAttestationsForBlock(state: BeaconState) returns (packed: seq<Attestation>)
      ensures exists keys :: IsPacking(attestations, included, state, keys, packed)
    {
      var keys := EligibleKeys(state);
      assert forall i :: 0 <= i < |keys| ==> keys[i] in keys;
      packed := PackInOrder(attestations, included, keys, MAX_ATTESTATIONS_ELECTRA);
      assert IsPacking(attestations, included, state, keys, packed);
    }
  }

  lemma PackNext(groups: Groups, included: Included, keys: seq<Key>, i: nat, room: nat, a: Option<Attestation>)
    requires i < |keys| && room > 0 && a == AggregateOf(groups, included, keys[i])
    ensures Pack(groups, included, keys[i..], room) ==
            if a.None? then Pack(groups, included, keys[i + 1..], room)
            else [a.value] + Pack(groups, included, keys[i + 1..], room - 1)
  {
    var rest := keys[i..];
    assert rest[0] == keys[i] && rest[1..] == keys[i + 1..];
  }

  lemma PackFull(groups: Groups, included: Included, keys: seq<Key>, i: nat, room: nat)
    requires i <= |keys| && (i == |keys| || room == 0)
    ensures Pack(groups, included, keys[i..], room) == []
  {
  }

  /** Appends the aggregate of one key's group, if there is one. */
  method PackOne(groups: Groups, included: Included, keys: seq<Key>, i: nat, packed: seq<Attestation>, limit: nat)
    returns (packed': seq<Attestation>)
    requires i < |keys| && keys[i] in groups && |packed| < limit
    ensures |packed'| <= limit
    ensures packed' + Pack(groups, included, keys[i + 1..], limit - |packed'|) ==
            packed + Pack(groups, included, keys[i..], limit - |packed|)
  {
    var a := AggregateAttestationGroup(groups[keys[i]], IncludedFor(included, keys[i]));
    PackNext(groups, included, keys, i, limit - |packed|, a);
    packed' := if a.Some? then packed + [a.value] else packed;
  }

  /** Aggregates the keys' groups in order until the block is full. */
  method PackInOrder(groups: Groups, included: Included, keys: seq<Key>, limit: nat) returns (packed: seq<Attestation>)
    requires forall i :: 0 <= i < |keys| ==> keys[i] in groups
    ensures packed == Pack(groups, included, keys, limit)
  {
    packed := [];
    ghost var goal := Pack(groups, included, keys, limit);
    var i := 0;
    while i < |keys| && |packed| < limit
      invariant 0 <= i <= |keys| && |packed| <= limit
      invariant goal == packed + Pack(groups, included, keys[i..], limit - |packed|)
    {
      packed := PackOne(groups, included, keys, i, packed, limit);
      i := i + 1;
    }
    PackFull(groups, included, keys, i, limit - |packed|);
  }

  // ---------- Repeated packing drains the pool ----------

  /** Groups hold attestations of their own key's data and single committee, of one length, with
      signatures that parse. */
  ghost predicate WellKept(root: Data -> nat, groups: Groups) {
    forall key, a :: key in groups && a in groups[key] ==>
      && a.committees == {key.committee} && a.data.slot == key.slot && root(a.data) == key.dataRoot
      && |a.bits| == |groups[key][0].bits| && a.signature.Covers?
  }

  /** The votes of the pool that no marked attestation contained. */
  ghost function Unincluded(groups: Groups, included: Included): set<(Key, nat)> {
    set key, i, p |
      && key in groups && 0 <= i < |groups[key]|
      && p in SetBits(groups[key][i]) && p !in IncludedFor(included, key)
      :: (key, p)
  }

  ghost predicate Grows(included: Included, included': Included) {
    forall key :: IncludedFor(included, key) <= IncludedFor(included', key)
  }

  lemma {:induction false} MarkAllGrows(root: Data -> nat, included: Included, attestations: seq<Attestation>)
    ensures Grows(included, MarkAll(root, included, attestations))
    ensures forall a :: a in attestations && KeyOf(root, a).Some? ==>
      SetBits(a) <= IncludedFor(MarkAll(root, included, attestations), KeyOf(root, a).value)
    decreases |attestations|
  {
    if attestations != [] {
      var one := Mark(root, included, attestations[0]);
      MarkAllGrows(root, one, attestations[1..]);
      assert attestations == [attestations[0]] + attestations[1..];
      assert Grows(included, one);
    }
  }

  lemma SingleCommittee(root: Data -> nat, a: Attestation, committee: nat)
    requires a.committees == {committee}
    ensures KeyOf(root, a) == Some(Key(a.data.slot, root(a.data), committee))
  {
  }

  /** The aggregate of a kept group counts for the group's key and has a vote not yet included. */
  lemma AggregateIsNew(root: Data -> nat, groups: Groups, included: Included, key: Key)
    requires WellKept(root, groups) && key in groups && AggregateGroup(groups[key], IncludedFor(included, key)).Some?
    ensures var a := AggregateGroup(groups[key], IncludedFor(included, key)).value;
      KeyOf(root, a) == Some(key) && exists p :: p in SetBits(a) && (key, p) in Unincluded(groups, included)
  {
    var group, inc := groups[key], IncludedFor(included, key);
    var a := AggregateGroup(group, inc).value;
    AggregateShape(group, inc);
    assert group[0] in group;
    SingleCommittee(root, a, key.committee);
    var p :| p in SetBits(a) && p !in inc;
    var member := UnionMember(Chosen(group, inc), p);
    SelectExact(group, group[0].committees, |group[0].bits|, inc, {});
    var i :| 0 <= i < |group| && group[i] == member;
    assert (key, p) in Unincluded(groups, included);
  }

  /** Everything packed is some key's aggregate, and while there is room no key's is left out. */
  lemma {:induction false} PackMembers(groups: Groups, included: Included, keys: seq<Key>, room: nat)
    ensures forall a :: a in Pack(groups, included, keys, room) ==>
      exists key :: key in keys && key in groups && AggregateGroup(groups[key], IncludedFor(included, key)) == Some(a)
    ensures |Pack(groups, included, keys, room)| < room ==>
      forall key :: key in keys && key in groups ==>
        var a := AggregateGroup(groups[key], IncludedFor(included, key));
        a.None? || a.value in Pack(groups, included, keys, room)
    decreases |keys|
  {
    if keys != [] && room > 0 {
      assert keys == [keys[0]] + keys[1..];
      var a := AggregateOf(groups, included, keys[0]);
      PackMembers(groups, included, keys[1..], if a.None? then room else room - 1);
    }
  }

  lemma {:induction false} PackSize(groups: Groups, included: Included, keys: seq<Key>, room: nat)
    ensures |Pack(groups, included, keys, room)| <= room
    decreases |keys|
  {
    if keys != [] && room > 0 {
      var a := AggregateOf(groups, included, keys[0]);
      PackSize(groups, included, keys[1..], if a.None? then room else room - 1);
    }
  }

  /** Everything packed can be included: at most eight, each inside the inclusion window with a
      justified source and with a vote not yet included. */
  lemma PackedIsIncludable(root: Data -> nat, groups: Groups, included: Included, state: BeaconState,
      keys: seq<Key>, packed: seq<Attestation>, a: Attestation)
    requires WellKept(root, groups) && IsPacking(groups, included, state, keys, packed) && a in packed
    ensures |packed| <= MAX_ATTESTATIONS_ELECTRA
    ensures a.data.slot + 1 <= state.slot
    ensures a.data.slot / 32 == state.slot / 32 || a.data.slot / 32 + 1 == state.slot / 32
    ensures a.data.source ==
            if a.data.targetEpoch == state.slot / 32 then state.currentJustified else state.previousJustified
    ensures exists key :: CountsFor(root, a, key) && !(SetBits(a) <= IncludedFor(included, key))
  {
    PackSize(groups, included, keys, MAX_ATTESTATIONS_ELECTRA);
    PackMembers(groups, included, keys, MAX_ATTESTATIONS_ELECTRA);
    var key :| key in keys && key in groups && AggregateGroup(groups[key], IncludedFor(included, key)) == Some(a);
    AggregateIsNew(root, groups, included, key);
    AggregateShape(groups[key], IncludedFor(included, key));
    KeyOfExactly(root, a, key);
    assert Eligible(groups, key, state);
  }

  /** Which keys are eligible, in slots: in the pool, at least one slot old, of this epoch or the one before,
      and with the source that is justified for their target. */
  lemma EligibleExactly(groups: Groups, key: Key, state: BeaconState)
    ensures Eligible(groups, key, state) <==>
      && key in groups && groups[key] != [] && key.slot + 1 <= state.slot
      && (key.slot / 32 == state.slot / 32 || key.slot / 32 + 1 == state.slot / 32)
      && var data := groups[key][0].data;
         data.source == if data.targetEpoch == state.slot / 32 then state.currentJustified else state.previousJustified
  {
  }

  lemma AggregateSlot(root: Data -> nat, groups: Groups, included: Included, key: Key, a: Attestation)
    requires WellKept(root, groups) && AggregateOf(groups, included, key) == Some(a)
    ensures a.data.slot == key.slot
  {
    AggregateShape(groups[key], IncludedFor(included, key));
    assert groups[key][0] in groups[key];
  }

  ghost predicate SlotsNeverRise(packed: seq<Attestation>) {
    forall i, j :: 0 <= i < j < |packed| ==> packed[i].data.slot >= packed[j].data.slot
  }

  lemma PrependNewer(first: Attestation, rest: seq<Attestation>)
    requires SlotsNeverRise(rest) && forall a :: a in rest ==> a.data.slot <= first.data.slot
    ensures SlotsNeverRise([first] + rest)
  {
    assert forall i :: 0 <= i < |rest| ==> rest[i] in rest;
  }

  /** Newest first: the slots of what is packed never rise. */
  lemma {:induction false} PackedNewestFirst(root: Data -> nat, groups: Groups, included: Included,
      keys: seq<Key>, room: nat)
    requires WellKept(root, groups) && NewestFirst(keys)
    ensures SlotsNeverRise(Pack(groups, included, keys, room))
    decreases |keys|
  {
    if keys != [] && room > 0 {
      var first := AggregateOf(groups, included, keys[0]);
      var room' := if first.None? then room else room - 1;
      PackedNewestFirst(root, groups, included, keys[1..], room');
      if first.Some? {
        RestNotNewer(root, groups, included, keys, room');
        AggregateSlot(root, groups, included, keys[0], first.value);
        PrependNewer(first.value, Pack(groups, included, keys[1..], room'));
      }
    }
  }

  /** The newest win: an aggregate is left out only if all that is packed is at least as new. */
  lemma {:induction false} NewestWin(root: Data -> nat, groups: Groups, included: Included,
      keys: seq<Key>, room: nat, key: Key, left: Attestation, a: Attestation)
    requires WellKept(root, groups) && NewestFirst(keys) && key in keys
    requires AggregateOf(groups, included, key) == Some(left) && left !in Pack(groups, included, keys, room)
    requires a in Pack(groups, included, keys, room)
    ensures a.data.slot >= key.slot
    decreases |keys|
  {
    var first := AggregateOf(groups, included, keys[0]);
    assert keys == [keys[0]] + keys[1..];
    if first.Some? && a == first.value {
      AggregateSlot(root, groups, included, keys[0], a);
    } else {
      NewestWin(root, groups, included, keys[1..], if first.None? then room else room - 1, key, left, a);
    }
  }

  lemma RestNotNewer(root: Data -> nat, groups: Groups, included: Included, keys: seq<Key>, room: nat)
    requires WellKept(root, groups) && NewestFirst(keys) && keys != []
    ensures forall a :: a in Pack(groups, included, keys[1..], room) ==> a.data.slot <= keys[0].slot
    ensures forall key :: key in keys ==> key.slot <= keys[0].slot
  {
    PackMembers(groups, included, keys[1..], room);
    forall a | a in Pack(groups, included, keys[1..], room) ensures a.data.slot <= keys[0].slot {
      var key :| key in keys[1..] && key in groups &&
        AggregateGroup(groups[key], IncludedFor(included, key)) == Some(a);
      AggregateSlot(root, groups, included, key, a);
    }
  }

  /** A non-empty packing, once marked, leaves strictly fewer votes to include. */
  lemma PackingShrinks(root: Data -> nat, groups: Groups, included: Included, state: BeaconState,
      keys: seq<Key>, packed: seq<Attestation>)
    requires WellKept(root, groups) && IsPacking(groups, included, state, keys, packed) && packed != []
    ensures |Unincluded(groups, MarkAll(root, included, packed))| < |Unincluded(groups, included)|
  {
    var included' := MarkAll(root, included, packed);
    MarkAllGrows(root, included, packed);
    PackMembers(groups, included, keys, MAX_ATTESTATIONS_ELECTRA);
    var a := packed[0];
    assert a in packed;
    var key :| key in keys && key in groups && AggregateGroup(groups[key], IncludedFor(included, key)) == Some(a);
    AggregateIsNew(root, groups, included, key);
    var p :| p in SetBits(a) && (key, p) in Unincluded(groups, included);
    var before, after := Unincluded(groups, included), Unincluded(groups, included');
    assert (key, p) !in after;
    assert after <= before by {
      forall x | x in after ensures x in before {
        assert IncludedFor(included, x.0) <= IncludedFor(included', x.0);
      }
    }
    ProperSubsetSmaller(after, before);
  }

  /** When packing yields nothing, every vote of every eligible key is marked included. */
  lemma EmptyPackingMeansDrained(root: Data -> nat, groups: Groups, included: Included, state: BeaconState,
      keys: seq<Key>)
    requires WellKept(root, groups) && IsPacking(groups, included, state, keys, [])
    ensures forall key, a :: Eligible(groups, key, state) && a in groups[key] ==>
      SetBits(a) <= IncludedFor(included, key)
  {
    PackMembers(groups, included, keys, MAX_ATTESTATIONS_ELECTRA);
    forall key, a | Eligible(groups, key, state) && a in groups[key] ensures SetBits(a) <= IncludedFor(included, key) {
      assert key in keys;
      var group, inc := groups[key], IncludedFor(included, key);
      SelectExact(group, group[0].committees, |group[0].bits|, inc, {});
      NoneExactly(group, inc);
      assert group[0] in group;
    }
  }

  /** A run of packing and marking with a fixed state. */
  ghost predicate DrainRun(root: Data -> nat, groups: Groups, state: BeaconState, marks: seq<Included>) {
    forall i :: 0 <= i < |marks| - 1 ==> PackedOnce(root, groups, state, marks[i], marks[i + 1])
  }

  ghost predicate PackedOnce(root: Data -> nat, groups: Groups, state: BeaconState, included: Included,
      included': Included) {
    exists keys, packed ::
      IsPacking(groups, included, state, keys, packed) && packed != [] && included' == MarkAll(root, included, packed)
  }

  /** Repeated packing ends: no run of non-empty packings is longer than the number of votes to include. */
  lemma {:induction false} DrainTerminates(root: Data -> nat, groups: Groups, state: BeaconState, marks: seq<Included>)
    requires WellKept(root, groups) && marks != [] && DrainRun(root, groups, state, marks)
    ensures |marks| - 1 + |Unincluded(groups, marks[|marks| - 1])| <= |Unincluded(groups, marks[0])|
    decreases |marks|
  {
    var n := |marks| - 1;
    if n > 0 {
      assert DrainRun(root, groups, state, marks[..n]);
      DrainTerminates(root, groups, state, marks[..n]);
      assert PackedOnce(root, groups, state, marks[n - 1], marks[n]);
      var keys, packed :| IsPacking(groups, marks[n - 1], state, keys, packed) && packed != [] &&
        marks[n] == MarkAll(root, marks[n - 1], packed);
      PackingShrinks(root, groups, marks[n - 1], state, keys, packed);
    }
  }

  /** The step from `included` to `included'` packed an aggregate that counts for the key and has the vote. */
  ghost predicate PacksVote(root: Data -> nat, groups: Groups, state: BeaconState, included: Included,
      included': Included, key: Key, p: nat) {
    exists keys, packed, a ::
      && IsPacking(groups, included, state, keys, packed) && included' == MarkAll(root, included, packed)
      && a in packed && CountsFor(root, a, key) && p in SetBits(a)
  }

  lemma StepMarksPacked(root: Data -> nat, groups: Groups, state: BeaconState, included: Included,
      included': Included, key: Key, p: nat)
    requires PackedOnce(root, groups, state, included, included') && p in IncludedFor(included', key)
    ensures p in IncludedFor(included, key) || PacksVote(root, groups, state, included, included', key, p)
  {
    var keys, packed :| IsPacking(groups, included, state, keys, packed) && packed != [] &&
      included' == MarkAll(root, included, packed);
    MarkedExactly(root, included, packed, key, p);
  }

  /** Over every run of packing and marking, a vote that is marked was marked at the start or is in an
      aggregate that some step packed. */
  lemma {:induction false} OnlyPackedIsMarked(root: Data -> nat, groups: Groups, state: BeaconState,
      marks: seq<Included>, n: nat, key: Key, p: nat)
    requires DrainRun(root, groups, state, marks) && n < |marks| && p in IncludedFor(marks[n], key)
    ensures || p in IncludedFor(marks[0], key)
            || exists i :: 0 <= i < n && PacksVote(root, groups, state, marks[i], marks[i + 1], key, p)
    decreases n
  {
    if n > 0 {
      assert PackedOnce(root, groups, state, marks[n - 1], marks[n - 1 + 1]);
      StepMarksPacked(root, groups, state, marks[n - 1], marks[n], key, p);
      if p in IncludedFor(marks[n - 1], key) {
        OnlyPackedIsMarked(root, groups, state, marks, n - 1, key, p);
      } else {
        assert PacksVote(root, groups, state, marks[n - 1], marks[n - 1 + 1], key, p);
      }
    }
  }
}
