/**
 Aggregating sync committee messages into contributions (crates/common/sync_committee_pool/src/lib.rs).
 A signature is the multiset of signers it covers; aggregation is any partial function that, where it
 succeeds, adds them up.
 */
module SyncPool {
  import opened Wrappers

  const SUBCOMMITTEE_SIZE: nat := 128

  type Signature = multiset<nat>
  type Aggregator = seq<Signature> -> Option<Signature>
  type Message = (Signature, nat)

  datatype DataKey = DataKey(slot: nat, blockRoot: nat, subcommittee: nat)

  /** `log` lists the messages aggregated into the contribution, with their position in the subcommittee. */
  datatype Contribution = Contribution(bits: set<nat>, signature: Signature, log: seq<Message>)

  const INFINITY := Contribution({}, multiset{}, [])

  function Sum(signatures: seq<Signature>): Signature {
    if signatures == [] then multiset{} else signatures[0] + Sum(signatures[1..])
  }

  ghost predicate PartialSum(aggregate: Aggregator) {
    forall s :: aggregate(s).Some? ==> aggregate(s).value == Sum(s)
  }

  predicate Has(contributions: seq<Contribution>, position: nat) {
    exists i :: 0 <= i < |contributions| && position in contributions[i].bits
  }

  /** The first contribution the signature aggregates with. */
  function FirstFit(aggregate: Aggregator, contributions: seq<Contribution>, signature: Signature): (i: nat)
    ensures i <= |contributions|
    ensures i < |contributions| ==> aggregate([contributions[i].signature, signature]).Some?
    ensures forall j :: 0 <= j < i ==> aggregate([contributions[j].signature, signature]).None?
  {
    if contributions == [] || aggregate([contributions[0].signature, signature]).Some? then 0
    else 1 + FirstFit(aggregate, contributions[1..], signature)
  }

  function Extend(aggregate: Aggregator, c: Contribution, m: Message): Contribution {
    var s := aggregate([c.signature, m.0]);
    if s.None? then c else Contribution(c.bits + {m.1}, s.value, c.log + [m])
  }

  function Add(aggregate: Aggregator, contributions: seq<Contribution>, m: Message, limit: nat): seq<Contribution> {
    if m.1 >= SUBCOMMITTEE_SIZE || Has(contributions, m.1) then contributions
    else
      var i := FirstFit(aggregate, contributions, m.0);
      if i < |contributions| then contributions[i := Extend(aggregate, contributions[i], m)]
      else if |contributions| < limit && aggregate([m.0]).Some? then
        contributions + [Contribution({m.1}, aggregate([m.0]).value, [m])]
      else contributions
  }

  function AddAll(aggregate: Aggregator, contributions: seq<Contribution>, messages: seq<Message>,
      limit: nat): seq<Contribution>
    decreases |messages|
  {
    if messages == [] then contributions
    else AddAll(aggregate, Add(aggregate, contributions, messages[0], limit), messages[1..], limit)
  }

  function Started(contributions: seq<Contribution>): seq<Contribution> {
    if contributions == [] then [INFINITY] else contributions
  }

  ghost predicate IsLastLargest(list: seq<Contribution>, i: nat) {
    && i < |list|
    && (forall j :: 0 <= j < |list| ==> |list[j].bits| <= |list[i].bits|)
    && (forall j :: i < j < |list| ==> |list[j].bits| < |list[i].bits|)
  }

  class SyncCommitteePool {
    var contributions: map<DataKey, seq<Contribution>>
    const limit: nat

    constructor (limit: nat)
      ensures contributions == map[] && this.limit == limit
    {
      this.limit, contributions := limit, map[];
    }

    function At(key: DataKey): seq<Contribution>
      reads this
    {
      if key in contributions then contributions[key] else []
    }

    method AggregateMessages(aggregate: Aggregator, key: DataKey, messages: seq<Message>)
      modifies this`contributions
      ensures contributions == old(contributions)[key := AddAll(aggregate, Started(old(At(key))), messages, limit)]
    {
      var list := At(key);
      if list == [] {
        list := [Contribution({}, multiset{}, [])];
      }
      ghost var goal := AddAll(aggregate, Started(At(key)), messages, limit);
      for n := 0 to |messages|
        invariant contributions == old(contributions)
        invariant AddAll(aggregate, list, messages[n..], limit) == goal
      {
        assert messages[n..][1..] == messages[n + 1..];
        list := AddMessage(aggregate, list, messages[n]);
      }
      assert messages[|messages|..] == [];
      contributions := contributions[key := list];
    }

    /** One message: skipped if its position is taken, else added to the first contribution it
        aggregates with, else made a contribution of its own. */
    method AddMessage(aggregate: Aggregator, list: seq<Contribution>, m: Message) returns (r: seq<Contribution>)
      ensures r == Add(aggregate, list, m, limit)
    {
      r := list;
      var (signature, position) := m;
      if position < SUBCOMMITTEE_SIZE && exists i :: 0 <= i < |list| && position in list[i].bits {
        return;
      }
      var added := false;
      var i := 0;
      while i < |list| && !added
        invariant 0 <= i <= |list|
        invariant !added ==> r == list
        invariant !added ==> forall j :: 0 <= j < i ==>
          aggregate([list[j].signature, signature]).None? || position >= SUBCOMMITTEE_SIZE
        invariant added ==> r == Add(aggregate, list, m, limit)
        decreases |list| - i, !added
      {
        var s := aggregate([list[i].signature, signature]);
        if s.Some? && position < SUBCOMMITTEE_SIZE {
          r := list[i := Contribution(list[i].bits + {position}, s.value, list[i].log + [m])];
          assert FirstFit(aggregate, list, signature) == i;
          added := true;
        } else {
          i := i + 1;
        }
      }
      if !added && |list| < limit {
        var s := aggregate([signature]);
        if s.Some? && position < SUBCOMMITTEE_SIZE {
          assert FirstFit(aggregate, list, signature) == |list|;
          r := list + [Contribution({position}, s.value, [m])];
        }
      }
    }

    /** The contribution with the most bits set; of several, the last. */
    method GetBest(key: DataKey) returns (r: Option<Contribution>)
      ensures r.None? <==> At(key) == []
      ensures r.Some? ==> exists i: nat :: IsLastLargest(At(key), i) && r.value == At(key)[i]
    {
      var list := At(key);
      if list == [] {
        return None;
      }
      var best := 0;
      for j := 1 to |list|
        invariant 0 <= best < j
        invariant forall k :: 0 <= k < j ==> |list[k].bits| <= |list[best].bits|
        invariant forall k :: best < k < j ==> |list[k].bits| < |list[best].bits|
      {
        if |list[j].bits| >= |list[best].bits| {
          best := j;
        }
      }
      assert IsLastLargest(list, best);
      return Some(list[best]);
    }
  }

  // ---------- Guarantees ----------

  function LogSum(log: seq<Message>): Signature {
    if log == [] then multiset{} else LogSum(log[..|log| - 1]) + log[|log| - 1].0
  }

  /** The signature is the sum of the messages' in the log, one per set bit. */
  ghost predicate Exact(c: Contribution) {
    && c.signature == LogSum(c.log)
    && (forall p :: p in c.bits <==> exists k :: 0 <= k < |c.log| && c.log[k].1 == p)
    && (forall k, l :: 0 <= k < l < |c.log| ==> c.log[k].1 != c.log[l].1)
    && (forall p :: p in c.bits ==> p < SUBCOMMITTEE_SIZE)
  }

  ghost predicate Inv(contributions: seq<Contribution>, limit: nat) {
    && (forall i :: 0 <= i < |contributions| ==> Exact(contributions[i]))
    && (forall i, j :: 0 <= i < j < |contributions| ==> contributions[i].bits !! contributions[j].bits)
    && (|contributions| <= 1 || |contributions| <= limit)
  }

  lemma ExtendExact(aggregate: Aggregator, c: Contribution, m: Message)
    requires PartialSum(aggregate) && Exact(c) && m.1 < SUBCOMMITTEE_SIZE && m.1 !in c.bits
    ensures Exact(Extend(aggregate, c, m))
  {
    var c' := Extend(aggregate, c, m);
    if aggregate([c.signature, m.0]).Some? {
      assert Sum([c.signature, m.0]) == c.signature + m.0 by {
        assert [c.signature, m.0][1..] == [m.0];
        assert Sum([m.0]) == m.0 + Sum([]);
      }
      assert c'.log[..|c.log|] == c.log;
      forall p ensures p in c'.bits <==> exists k :: 0 <= k < |c'.log| && c'.log[k].1 == p {
        if p == m.1 {
          assert c'.log[|c.log|].1 == p;
        } else if p in c.bits {
          var k :| 0 <= k < |c.log| && c.log[k].1 == p;
          assert c'.log[k].1 == p;
        }
      }
    }
  }

  lemma SingleExact(aggregate: Aggregator, m: Message)
    requires PartialSum(aggregate) && m.1 < SUBCOMMITTEE_SIZE && aggregate([m.0]).Some?
    ensures Exact(Contribution({m.1}, aggregate([m.0]).value, [m]))
  {
    assert Sum([m.0]) == m.0 + Sum([]);
    assert [m][..0] == [];
    assert LogSum([m]) == LogSum([]) + m.0;
    assert [m][0].1 == m.1;
  }

  lemma ReplaceKeepsInv(contributions: seq<Contribution>, i: nat, c: Contribution, m: Message, limit: nat)
    requires Inv(contributions, limit) && i < |contributions| && !Has(contributions, m.1)
    requires Exact(c) && c.bits <= contributions[i].bits + {m.1}
    ensures Inv(contributions[i := c], limit)
  {
    var after := contributions[i := c];
    forall j | 0 <= j < |after| && j != i ensures after[j].bits !! c.bits {
      assert after[j] == contributions[j] && m.1 !in contributions[j].bits;
      assert contributions[j].bits !! contributions[i].bits;
    }
  }

  lemma AppendKeepsInv(contributions: seq<Contribution>, c: Contribution, m: Message, limit: nat)
    requires Inv(contributions, limit) && |contributions| < limit && !Has(contributions, m.1)
    requires Exact(c) && c.bits == {m.1}
    ensures Inv(contributions + [c], limit)
  {
    var after := contributions + [c];
    forall j | 0 <= j < |contributions| ensures after[j].bits !! c.bits {
      assert m.1 !in contributions[j].bits;
    }
  }

  lemma ExtendKeepsInv(aggregate: Aggregator, contributions: seq<Contribution>, i: nat, m: Message, limit: nat)
    requires PartialSum(aggregate) && Inv(contributions, limit) && i < |contributions|
    requires m.1 < SUBCOMMITTEE_SIZE && !Has(contributions, m.1)
    ensures Inv(contributions[i := Extend(aggregate, contributions[i], m)], limit)
  {
    ExtendExact(aggregate, contributions[i], m);
    ReplaceKeepsInv(contributions, i, Extend(aggregate, contributions[i], m), m, limit);
  }

  lemma SingleKeepsInv(aggregate: Aggregator, contributions: seq<Contribution>, m: Message, limit: nat)
    requires PartialSum(aggregate) && Inv(contributions, limit) && |contributions| < limit
    requires m.1 < SUBCOMMITTEE_SIZE && !Has(contributions, m.1) && aggregate([m.0]).Some?
    ensures Inv(contributions + [Contribution({m.1}, aggregate([m.0]).value, [m])], limit)
  {
    SingleExact(aggregate, m);
    AppendKeepsInv(contributions, Contribution({m.1}, aggregate([m.0]).value, [m]), m, limit);
  }

  /** Adding a message keeps the contributions exact, disjoint and within the limit. */
  lemma AddKeepsInv(aggregate: Aggregator, contributions: seq<Contribution>, m: Message, limit: nat)
    requires PartialSum(aggregate) && Inv(contributions, limit)
    ensures Inv(Add(aggregate, contributions, m, limit), limit)
  {
    if m.1 < SUBCOMMITTEE_SIZE && !Has(contributions, m.1) {
      var i := FirstFit(aggregate, contributions, m.0);
      if i < |contributions| {
        ExtendKeepsInv(aggregate, contributions, i, m, limit);
      } else if |contributions| < limit && aggregate([m.0]).Some? {
        SingleKeepsInv(aggregate, contributions, m, limit);
      }
    }
  }

  lemma {:induction false} AddAllKeepsInv(aggregate: Aggregator, contributions: seq<Contribution>,
      messages: seq<Message>, limit: nat)
    requires PartialSum(aggregate) && Inv(contributions, limit)
    ensures Inv(AddAll(aggregate, contributions, messages, limit), limit)
    decreases |messages|
  {
    if messages != [] {
      AddKeepsInv(aggregate, contributions, messages[0], limit);
      AddAllKeepsInv(aggregate, Add(aggregate, contributions, messages[0], limit), messages[1..], limit);
    }
  }

  /** The contributions under one key after a sequence of calls. */
  function AfterCalls(aggregate: Aggregator, calls: seq<seq<Message>>, limit: nat): seq<Contribution> {
    if calls == [] then []
    else AddAll(aggregate, Started(AfterCalls(aggregate, calls[..|calls| - 1], limit)), calls[|calls| - 1], limit)
  }

  /** Over every sequence of calls the contributions under a key have pairwise disjoint bits, each
      signature covers exactly the messages whose bits it sets, and there are at most max(1, limit). */
  lemma {:induction false} CallsKeepInv(aggregate: Aggregator, calls: seq<seq<Message>>, limit: nat)
    requires PartialSum(aggregate)
    ensures Inv(AfterCalls(aggregate, calls, limit), limit)
    decreases |calls|
  {
    if calls != [] {
      var n := |calls| - 1;
      CallsKeepInv(aggregate, calls[..n], limit);
      var before := AfterCalls(aggregate, calls[..n], limit);
      assert Inv(Started(before), limit);
      AddAllKeepsInv(aggregate, Started(before), calls[n], limit);
    }
  }

  /** Position `p` is set in some contribution. */
  ghost predicate Counted(contributions: seq<Contribution>, p: nat) {
    exists c :: c in contributions && p in c.bits
  }

  lemma CountedIsHas(contributions: seq<Contribution>, p: nat)
    ensures Counted(contributions, p) <==> Has(contributions, p)
  {
    if c :| c in contributions && p in c.bits {
      var i :| 0 <= i < |contributions| && contributions[i] == c;
    }
    if Has(contributions, p) {
      var i :| 0 <= i < |contributions| && p in contributions[i].bits;
      assert contributions[i] in contributions;
    }
  }

  /** A message is counted afterwards exactly when its position was taken already, or it is in range
      and aggregates with a contribution or, while there is room, alone. */
  lemma CountedExactly(aggregate: Aggregator, contributions: seq<Contribution>, m: Message, limit: nat)
    ensures Counted(Add(aggregate, contributions, m, limit), m.1) <==>
      || Counted(contributions, m.1)
      || (&& m.1 < SUBCOMMITTEE_SIZE
          && exists i :: 0 <= i < |contributions| && aggregate([contributions[i].signature, m.0]).Some?)
      || (m.1 < SUBCOMMITTEE_SIZE && |contributions| < limit && aggregate([m.0]).Some?)
    ensures !Counted(Add(aggregate, contributions, m, limit), m.1) ==>
      Add(aggregate, contributions, m, limit) == contributions
  {
    var i := FirstFit(aggregate, contributions, m.0);
    var r := Add(aggregate, contributions, m, limit);
    CountedIsHas(contributions, m.1);
    CountedIsHas(r, m.1);
    if m.1 < SUBCOMMITTEE_SIZE && !Has(contributions, m.1) {
      if i < |contributions| {
        assert m.1 in r[i].bits;
      } else if |contributions| < limit && aggregate([m.0]).Some? {
        assert m.1 in r[|contributions|].bits;
      }
    }
  }

  /** If aggregation fails only for a message that does not parse, one contribution takes them all. */
  lemma {:induction false} OneContributionSuffices(aggregate: Aggregator, contributions: seq<Contribution>,
      messages: seq<Message>, limit: nat)
    requires |contributions| == 1
    requires forall s, t :: aggregate([t]).Some? ==> aggregate([s, t]).Some?
    ensures |AddAll(aggregate, contributions, messages, limit)| == 1
    decreases |messages|
  {
    if messages != [] {
      var next := Add(aggregate, contributions, messages[0], limit);
      assert |next| == 1;
      OneContributionSuffices(aggregate, next, messages[1..], limit);
    }
  }

  // ---------- Nothing counted is lost, nothing is skipped ----------

  lemma CountedStays(aggregate: Aggregator, contributions: seq<Contribution>, m: Message, limit: nat, p: nat)
    requires Has(contributions, p)
    ensures Has(Add(aggregate, contributions, m, limit), p)
  {
    var i :| 0 <= i < |contributions| && p in contributions[i].bits;
    assert p in Add(aggregate, contributions, m, limit)[i].bits;
  }

  lemma {:induction false} CountedStaysAll(aggregate: Aggregator, contributions: seq<Contribution>,
      messages: seq<Message>, limit: nat, p: nat)
    requires Has(contributions, p)
    ensures Has(AddAll(aggregate, contributions, messages, limit), p)
    decreases |messages|
  {
    if messages != [] {
      CountedStays(aggregate, contributions, messages[0], limit, p);
      CountedStaysAll(aggregate, Add(aggregate, contributions, messages[0], limit), messages[1..], limit, p);
    }
  }

  /** Over every sequence of calls, a position once counted stays counted. */
  lemma {:induction false} CountedForGood(aggregate: Aggregator, calls: seq<seq<Message>>, limit: nat,
      i: nat, j: nat, p: nat)
    requires i <= j <= |calls| && Counted(AfterCalls(aggregate, calls[..i], limit), p)
    ensures Counted(AfterCalls(aggregate, calls[..j], limit), p)
    decreases j
  {
    CountedIsHas(AfterCalls(aggregate, calls[..j], limit), p);
    if i < j {
      CountedForGood(aggregate, calls, limit, i, j - 1, p);
      var before := AfterCalls(aggregate, calls[..j - 1], limit);
      assert calls[..j][..j - 1] == calls[..j - 1];
      CountedIsHas(before, p);
      CountedStaysAll(aggregate, Started(before), calls[j - 1], limit, p);
    }
  }

  lemma {:induction false} AddAllSplit(aggregate: Aggregator, contributions: seq<Contribution>,
      messages: seq<Message>, limit: nat, k: nat)
    requires k <= |messages|
    ensures AddAll(aggregate, contributions, messages, limit) ==
            AddAll(aggregate, AddAll(aggregate, contributions, messages[..k], limit), messages[k..], limit)
    decreases k
  {
    if k == 0 {
      assert messages[..0] == [] && messages[0..] == messages;
    } else {
      AddAllSplit(aggregate, Add(aggregate, contributions, messages[0], limit), messages[1..], limit, k - 1);
      assert messages[..k][0] == messages[0] && messages[..k][1..] == messages[1..][..k - 1];
      assert messages[1..][k - 1..] == messages[k..];
    }
  }

  /** What message `k` of call `n` finds when its turn comes. */
  ghost function AtTurn(aggregate: Aggregator, calls: seq<seq<Message>>, limit: nat, n: nat, k: nat): seq<Contribution>
    requires n < |calls| && k < |calls[n]|
  {
    AddAll(aggregate, Started(AfterCalls(aggregate, calls[..n], limit)), calls[n][..k], limit)
  }

  /** Every message of every call has its turn: its position is counted after the call unless it is out of
      range, or aggregates with none of what it finds and, alone, either fails or finds no room. */
  lemma EveryMessageCounted(aggregate: Aggregator, calls: seq<seq<Message>>, limit: nat, n: nat, k: nat)
    requires n < |calls| && k < |calls[n]|
    ensures var (signature, position) := calls[n][k];
      var found := AtTurn(aggregate, calls, limit, n, k);
      || Counted(AfterCalls(aggregate, calls[..n + 1], limit), position)
      || position >= 128
      || (&& (forall i :: 0 <= i < |found| ==> aggregate([found[i].signature, signature]).None?)
          && (|found| >= limit || aggregate([signature]).None?))
  {
    var m := calls[n][k];
    var start := Started(AfterCalls(aggregate, calls[..n], limit));
    var found := AtTurn(aggregate, calls, limit, n, k);
    assert calls[..n + 1][..n] == calls[..n];
    AddAllSplit(aggregate, start, calls[n], limit, k);
    assert calls[n][k..][0] == m;
    CountedExactly(aggregate, found, m, limit);
    var next := Add(aggregate, found, m, limit);
    CountedIsHas(found, m.1);
    CountedIsHas(next, m.1);
    if Has(next, m.1) {
      CountedStaysAll(aggregate, next, calls[n][k..][1..], limit, m.1);
      CountedIsHas(AfterCalls(aggregate, calls[..n + 1], limit), m.1);
    }
  }

  /** Every logged message is one of `from`. */
  ghost predicate LogsFrom(contributions: seq<Contribution>, from: set<Message>) {
    forall i, k :: 0 <= i < |contributions| && 0 <= k < |contributions[i].log| ==> contributions[i].log[k] in from
  }

  lemma {:induction false} AddAllLogs(aggregate: Aggregator, contributions: seq<Contribution>,
      messages: seq<Message>, limit: nat, from: set<Message>)
    requires LogsFrom(contributions, from) && forall m :: m in messages ==> m in from
    ensures LogsFrom(AddAll(aggregate, contributions, messages, limit), from)
    decreases |messages|
  {
    if messages != [] {
      assert messages[0] in messages;
      AddAllLogs(aggregate, Add(aggregate, contributions, messages[0], limit), messages[1..], limit, from);
    }
  }

  ghost function AllMessages(calls: seq<seq<Message>>): set<Message> {
    set n, m | 0 <= n < |calls| && m in calls[n] :: m
  }

  lemma LogsWiden(contributions: seq<Contribution>, from: set<Message>, wider: set<Message>)
    requires LogsFrom(contributions, from) && from <= wider
    ensures LogsFrom(contributions, wider)
  {
  }

  /** Over every sequence of calls, a contribution is made of messages that were passed in and of no other. */
  lemma {:induction false} OnlyGivenMessages(aggregate: Aggregator, calls: seq<seq<Message>>, limit: nat)
    ensures LogsFrom(AfterCalls(aggregate, calls, limit), AllMessages(calls))
    decreases |calls|
  {
    if calls != [] {
      var n := |calls| - 1;
      OnlyGivenMessages(aggregate, calls[..n], limit);
      var before := AfterCalls(aggregate, calls[..n], limit);
      assert AllMessages(calls[..n]) <= AllMessages(calls);
      LogsWiden(before, AllMessages(calls[..n]), AllMessages(calls));
      AddAllLogs(aggregate, Started(before), calls[n], limit, AllMessages(calls));
    }
  }
}
