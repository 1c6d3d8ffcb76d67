/**
 The column fetch scheduler, `ColumnFetchTracker` of
 crates/networking/manager/src/data_availability_fetch.rs: each call as a step on values, and the
 class whose methods take exactly those steps. Time is a number of milliseconds.
 */
module FetchTracker {
  import opened Wrappers
  import opened Sets

  type Root = nat
  type Peer = nat

  const NO_COLUMN_PEER_TIMEOUT: nat := 30_000
  const MAX_TRANSIENT_PEER_ATTEMPTS: nat := 3
  const MAX_CONCURRENT_COLUMN_FETCHES: nat := 32
  const U8_MAX: nat := 255

  datatype ActionState = Queued | InFlight(peer: Peer) | WaitingForPeers(since: nat) | Parked

  datatype Entry = Entry(action: ActionState, tried: set<Peer>, retryable: set<Peer>, failures: map<Peer, nat>)

  datatype Outcome = Complete | Incomplete | Retryable

  datatype State = State(entries: map<Root, Entry>, queued: seq<Root>)

  datatype Event =
    | Enqueue(root: Root)
    | NextFetch(connected: seq<Peer>, now: nat, issued: Option<(Root, Peer)>)
    | Finish(root: Root, peer: Peer, outcome: Outcome, now: nat)
    | Remove(root: Root)
    | PeerDisconnected(peer: Peer)
    | RetainPending(pending: seq<Root>)

  const FRESH := Entry(Queued, {}, {}, map[])

  function FailuresOf(e: Entry, p: Peer): nat {
    if p in e.failures then e.failures[p] else 0
  }

  function InFlightRoots(entries: map<Root, Entry>): set<Root> {
    set r | r in entries && entries[r].action.InFlight?
  }

  // ---------- Refreshing against the connected peers ----------

  predicate CanTry(tried: set<Peer>, connected: set<Peer>) {
    exists p :: p in connected && p !in tried
  }

  predicate TimedOut(since: nat, now: nat) {
    now >= since && now - since >= NO_COLUMN_PEER_TIMEOUT
  }

  function RefreshEntry(e: Entry, connected: set<Peer>, now: nat): Entry {
    var e1 := e.(tried := e.tried * connected, retryable := e.retryable * connected);
    if (e.action.WaitingForPeers? || e.action.Parked?) && CanTry(e1.tried, connected) then
      e1.(action := Queued)
    else if e.action.WaitingForPeers? && TimedOut(e.action.since, now) then
      var e2 := e1.(tried := e1.tried - e1.retryable, retryable := {});
      e2.(action := if CanTry(e2.tried, connected) then Queued else Parked)
    else e1
  }

  /** The refresh puts the entry back in the queue. */
  predicate Wakes(e: Entry, connected: set<Peer>, now: nat) {
    !e.action.Queued? && RefreshEntry(e, connected, now).action.Queued?
  }

  ghost predicate Distinct<T>(s: seq<T>) {
    forall i, j :: 0 <= i < j < |s| ==> s[i] != s[j]
  }

  /** Every entry is refreshed; the woken roots join the queue once each, in some order. */
  ghost predicate Refreshed(s: State, connected: set<Peer>, now: nat, s': State) {
    && s'.entries == (map r | r in s.entries :: RefreshEntry(s.entries[r], connected, now))
    && exists woken :: IsWakeList(s, connected, now, woken) && s'.queued == s.queued + woken
  }

  ghost predicate IsWakeList(s: State, connected: set<Peer>, now: nat, woken: seq<Root>) {
    && Distinct(woken)
    && forall r :: r in woken <==> r in s.entries && Wakes(s.entries[r], connected, now)
  }

  // ---------- Choosing the next fetch ----------

  ghost predicate ComesFirst(connected: seq<Peer>, tried: set<Peer>, p: Peer, k: nat) {
    k < |connected| && connected[k] == p && forall j :: 0 <= j < k ==> connected[j] in tried
  }

  function FirstUntried(connected: seq<Peer>, tried: set<Peer>): (r: Option<Peer>)
    ensures r.None? <==> forall p :: p in connected ==> p in tried
    ensures r.Some? ==> r.value !in tried && exists k: nat :: ComesFirst(connected, tried, r.value, k)
  {
    if connected == [] then None
    else if connected[0] !in tried then
      assert ComesFirst(connected, tried, connected[0], 0);
      Some(connected[0])
    else
      var rest := connected[1..];
      assert forall j :: 0 <= j < |rest| ==> rest[j] == connected[j + 1];
      var r := FirstUntried(rest, tried);
      assert forall k: nat :: r.Some? && ComesFirst(rest, tried, r.value, k) ==>
        ComesFirst(connected, tried, r.value, k + 1);
      r
  }

  /** Pops the queue until a queued entry has a peer to try. */
  function Scan(s: State, connected: seq<Peer>, now: nat): (State, Option<(Root, Peer)>)
    decreases |s.queued|
  {
    if s.queued == [] then (s, None)
    else
      var root, rest := s.queued[0], s.queued[1..];
      if root !in s.entries || !s.entries[root].action.Queued? then Scan(State(s.entries, rest), connected, now)
      else
        var e := s.entries[root];
        match FirstUntried(connected, e.tried)
        case None =>
          Scan(State(s.entries[root := e.(action := WaitingForPeers(now))], rest), connected, now)
        case Some(p) =>
          (State(s.entries[root := e.(tried := e.tried + {p}, action := InFlight(p))], rest), Some((root, p)))
  }

  function ScanUnderCap(s: State, connected: seq<Peer>, now: nat): (State, Option<(Root, Peer)>) {
    if |InFlightRoots(s.entries)| >= MAX_CONCURRENT_COLUMN_FETCHES then (s, None) else Scan(s, connected, now)
  }

  // ---------- Finishing a fetch ----------

  function SaturatingSucc(n: nat): nat {
    if n < U8_MAX then n + 1 else n
  }

  function FinishRetryable(e: Entry, p: Peer, now: nat): Entry {
    var n := SaturatingSucc(FailuresOf(e, p));
    e.(failures := e.failures[p := n],
       retryable := if n < MAX_TRANSIENT_PEER_ATTEMPTS then e.retryable + {p} else e.retryable,
       action := WaitingForPeers(now))
  }

  /** One transient failure more of `p`: the count, up to the end of a byte, whether it may be retried, and
      the wait that begins; nothing else. */
  ghost predicate FailedOnce(e: Entry, e': Entry, p: Peer, now: nat) {
    var f := FailuresOf(e, p);
    && e'.action == WaitingForPeers(now) && e'.tried == e.tried
    && FailuresOf(e', p) == (if f < 255 then f + 1 else f)
    && (forall q :: q != p ==> FailuresOf(e', q) == FailuresOf(e, q))
    && (forall q :: q in e'.retryable <==> q in e.retryable || (q == p && f + 1 < 3))
  }

  function Finished(s: State, root: Root, p: Peer, outcome: Outcome, now: nat): State {
    if root !in s.entries || s.entries[root].action != InFlight(p) then s
    else
      var e := s.entries[root];
      match outcome
      case Complete => s.(entries := s.entries - {root})
      case Incomplete => s.(entries := s.entries[root := e.(action := WaitingForPeers(now))])
      case Retryable => s.(entries := s.entries[root := FinishRetryable(e, p, now)])
  }

  function Forget(e: Entry, p: Peer): Entry {
    e.(tried := e.tried - {p}, retryable := e.retryable - {p})
  }

  /** The peer counts as neither tried nor retryable; nothing else changes. */
  ghost predicate ForgetsOnly(e: Entry, e': Entry, p: Peer) {
    && e'.action == e.action && e'.failures == e.failures
    && (forall q :: q in e'.tried <==> q in e.tried && q != p)
    && (forall q :: q in e'.retryable <==> q in e.retryable && q != p)
  }

  // ---------- Steps ----------

  ghost predicate Step(s: State, e: Event, s': State) {
    match e
    case Enqueue(root) =>
      if root in s.entries then s' == s
      else s' == State(s.entries[root := FRESH], s.queued + [root])
    case NextFetch(connected, now, issued) =>
      exists s1 :: Refreshed(s, AsSet(connected), now, s1) && ScanUnderCap(s1, connected, now) == (s', issued)
    case Finish(root, p, outcome, now) =>
      s' == Finished(s, root, p, outcome, now)
    case Remove(root) =>
      s' == s.(entries := s.entries - {root})
    case PeerDisconnected(p) =>
      s' == s.(entries := map r | r in s.entries :: Forget(s.entries[r], p))
    case RetainPending(pending) =>
      && s'.entries == (map r | r in s.entries && r in pending :: s.entries[r])
      && s'.queued == Keep(s.queued, s'.entries.Keys)
  }

  function Keep(s: seq<Root>, keep: set<Root>): (r: seq<Root>)
    ensures forall x :: x in r <==> x in s && x in keep
  {
    if s == [] then []
    else
      assert s == [s[0]] + s[1..];
      (if s[0] in keep then [s[0]] else []) + Keep(s[1..], keep)
  }

  // ---------- The scheduler ----------

  class ColumnFetchTracker {
    var entries: map<Root, Entry>
    var queued: seq<Root>

    ghost function View(): State
      reads this
    {
      State(entries, queued)
    }

    constructor ()
      ensures View() == State(map[], [])
    {
      entries, queued := map[], [];
    }

    method EnqueueRoot(root: Root) returns (added: bool)
      modifies this
      ensures Step(old(View()), Enqueue(root), View())
      ensures added <==> root !in old(entries)
      ensures View() ==
              if added then State(old(entries)[root := Entry(Queued, {}, {}, map[])], old(queued) + [root])
              else old(View())
    {
      if root in entries {
        return false;
      }
      entries := entries[root := Entry(Queued, {}, {}, map[])];
      queued := queued + [root];
      return true;
    }

    method FetchNext(connectedPeers: seq<Peer>, now: nat) returns (issued: Option<(Root, Peer)>)
      modifies this
      ensures Step(old(View()), NextFetch(connectedPeers, now, issued), View())
    {
      RefreshConnectedPeers(connectedPeers, now);
      ghost var s1 := View();
      if |InFlightRoots(entries)| >= MAX_CONCURRENT_COLUMN_FETCHES {
        assert ScanUnderCap(s1, connectedPeers, now) == (View(), None);
        return None;
      }
      ghost var goal := ScanUnderCap(s1, connectedPeers, now);
      while queued != []
        invariant Scan(View(), connectedPeers, now) == goal
        decreases |queued|
      {
        var root := queued[0];
        queued := queued[1..];
        if root !in entries || entries[root].action != Queued {
          continue;
        }
        var e := entries[root];
        var peer := FirstUntried(connectedPeers, e.tried);
        if peer.None? {
          entries := entries[root := e.(action := WaitingForPeers(now))];
          continue;
        }
        entries := entries[root := e.(tried := e.tried + {peer.value}, action := InFlight(peer.value))];
        assert (View(), Some((root, peer.value))) == goal;
        return Some((root, peer.value));
      }
      assert (View(), None) == goal;
      return None;
    }

    /** The fetch of `root` from `peer` is in flight. */
    predicate FetchedFrom(root: Root, peer: Peer)
      reads this
    {
      root in entries && entries[root].action == InFlight(peer)
    }

    method FinishFetch(root: Root, peer: Peer, outcome: Outcome, now: nat)
      modifies this
      ensures Step(old(View()), Finish(root, peer, outcome, now), View())
      ensures queued == old(queued)
      ensures !old(FetchedFrom(root, peer)) ==> entries == old(entries)
      ensures old(FetchedFrom(root, peer)) ==>
        match outcome
        case Complete => entries == old(entries) - {root}
        case Incomplete => entries == old(entries)[root := old(entries)[root].(action := WaitingForPeers(now))]
        case Retryable =>
          && entries.Keys == old(entries).Keys
          && (forall r :: r in entries && r != root ==> entries[r] == old(entries)[r])
          && FailedOnce(old(entries)[root], entries[root], peer, now)
    {
      if root !in entries || entries[root].action != InFlight(peer) {
        return;
      }
      var e := entries[root];
      match outcome {
        case Complete =>
          entries := entries - {root};
        case Incomplete =>
          entries := entries[root := e.(action := WaitingForPeers(now))];
        case Retryable =>
          var n := SaturatingSucc(FailuresOf(e, peer));
          e := e.(failures := e.failures[peer := n]);
          if n < MAX_TRANSIENT_PEER_ATTEMPTS {
            e := e.(retryable := e.retryable + {peer});
          }
          entries := entries[root := e.(action := WaitingForPeers(now))];
      }
    }

    method RefreshOne(entry: Entry, connected: set<Peer>, now: nat) returns (e: Entry, wakes: bool)
      ensures e == RefreshEntry(entry, connected, now) && wakes == Wakes(entry, connected, now)
    {
      e, wakes := entry, false;
      e := e.(tried := set p | p in e.tried && p in connected);
      e := e.(retryable := set p | p in e.retryable && p in connected);
      assert e.tried == entry.tried * connected && e.retryable == entry.retryable * connected;
      if (e.action.WaitingForPeers? || e.action.Parked?) && CanTry(e.tried, connected) {
        e, wakes := e.(action := Queued), true;
      } else if e.action.WaitingForPeers? && TimedOut(e.action.since, now) {
        e := e.(tried := e.tried - e.retryable, retryable := {});
        if CanTry(e.tried, connected) {
          e, wakes := e.(action := Queued), true;
        } else {
          e := e.(action := Parked);
        }
      }
    }

    method RefreshConnectedPeers(connectedPeers: seq<Peer>, now: nat)
      modifies this
      ensures Refreshed(old(View()), AsSet(connectedPeers), now, View())
    {
      var connected := AsSet(connectedPeers);
      var rest := entries.Keys;
      ghost var before := entries;
      ghost var woken: seq<Root> := [];
      while rest != {}
        invariant rest <= before.Keys && entries.Keys == before.Keys
        invariant forall r :: r in before ==>
          entries[r] == if r in rest then before[r] else RefreshEntry(before[r], connected, now)
        invariant queued == old(queued) + woken && Distinct(woken)
        invariant forall r :: r in woken <==> r in before && r !in rest && Wakes(before[r], connected, now)
        decreases rest
      {
        var root :| root in rest;
        rest := rest - {root};
        var e, wakes := RefreshOne(entries[root], connected, now);
        if wakes {
          queued := queued + [root];
          woken := woken + [root];
        }
        entries := entries[root := e];
      }
      assert IsWakeList(old(View()), connected, now, woken);
    }

    method RemoveRoot(root: Root)
      modifies this
      ensures Step(old(View()), Remove(root), View())
      ensures View() == State(old(entries) - {root}, old(queued))
    {
      entries := entries - {root};
    }

    method ForgetPeer(peer: Peer)
      modifies this
      ensures Step(old(View()), PeerDisconnected(peer), View())
      ensures queued == old(queued) && entries.Keys == old(entries).Keys
      ensures forall r :: r in entries ==> ForgetsOnly(old(entries)[r], entries[r], peer)
    {
      var rest := entries.Keys;
      ghost var before := entries;
      while rest != {}
        invariant rest <= before.Keys && entries.Keys == before.Keys && queued == old(queued)
        invariant forall r :: r in before ==> entries[r] == if r in rest then before[r] else Forget(before[r], peer)
        decreases rest
      {
        var root :| root in rest;
        rest := rest - {root};
        var e := entries[root];
        entries := entries[root := e.(tried := e.tried - {peer}, retryable := e.retryable - {peer})];
      }
    }

    method RetainRoots(pendingRoots: seq<Root>)
      modifies this
      ensures Step(old(View()), RetainPending(pendingRoots), View())
      ensures forall r :: r in entries <==> r in old(entries) && r in pendingRoots
      ensures forall r :: r in entries ==> entries[r] == old(entries)[r]
      ensures forall r :: r in queued <==> r in old(queued) && r in entries
    {
      entries := map r | r in entries && r in pendingRoots :: entries[r];
      queued := Keep(queued, entries.Keys);
    }
  }
}
