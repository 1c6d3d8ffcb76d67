/**
 What the column fetch scheduler guarantees over every run: no queued root is lost, the concurrency
 cap holds, no fetch is withheld, roots are served in turn, a connected peer is asked at most three
 times, and no root is fetched twice at once.
 */
module FetchRuns {
  import opened Wrappers
  import opened Sets
  import opened FetchTracker

  /** Every queued entry is in the queue, and the cap holds. */
  ghost predicate Inv(s: State) {
    && (forall r :: r in s.entries && s.entries[r].action.Queued? ==> r in s.queued)
    && |InFlightRoots(s.entries)| <= MAX_CONCURRENT_COLUMN_FETCHES
  }

  /** What a refresh keeps: the queue discipline, the fetches in flight and their number. */
  lemma RefreshKeeps(s: State, connected: set<Peer>, now: nat, s1: State)
    requires Inv(s) && Refreshed(s, connected, now, s1)
    ensures Inv(s1) && InFlightRoots(s1.entries) == InFlightRoots(s.entries)
    ensures forall r :: r in s1.entries && !s1.entries[r].action.Queued? && !s1.entries[r].action.InFlight? ==>
      forall p :: p in connected ==> p in s1.entries[r].tried
  {
    assert InFlightRoots(s1.entries) == InFlightRoots(s.entries);
    var woken :| IsWakeList(s, connected, now, woken) && s1.queued == s.queued + woken;
    forall r | r in s1.entries && s1.entries[r].action.Queued? ensures r in s1.queued {
      assert r in s.queued || r in woken;
    }
  }

  /** Scanning: an entry changes only from queued, to in flight for the issued root or to waiting with
      every connected peer tried; and when nothing is issued no queued entry is left. */
  lemma {:induction false} ScanOutcome(s: State, connected: seq<Peer>, now: nat)
    requires forall r :: r in s.entries && s.entries[r].action.Queued? ==> r in s.queued
    ensures var (s', issued) := Scan(s, connected, now);
      && s'.entries.Keys == s.entries.Keys
      && (forall r :: r in s'.entries && s'.entries[r].action.Queued? ==> r in s'.queued)
      && (issued.None? ==> forall r :: r in s'.entries ==> !s'.entries[r].action.Queued?)
      && (forall r :: r in s.entries ==> ScannedEntry(s.entries[r], s'.entries[r], r, connected, now, issued))
      && (issued.Some? ==> issued.value.0 in s.entries)
    decreases |s.queued|
  {
    if s.queued != [] {
      var root, rest := s.queued[0], s.queued[1..];
      assert s.queued == [root] + rest;
      if root !in s.entries || !s.entries[root].action.Queued? {
        ScanOutcome(State(s.entries, rest), connected, now);
      } else {
        var e := s.entries[root];
        if FirstUntried(connected, e.tried).None? {
          ScanOutcome(State(s.entries[root := e.(action := WaitingForPeers(now))], rest), connected, now);
        }
      }
    }
  }

  ghost predicate ScannedEntry(e: Entry, e': Entry, r: Root, connected: seq<Peer>, now: nat,
      issued: Option<(Root, Peer)>) {
    if issued.Some? && issued.value.0 == r then
      var p := issued.value.1;
      && e.action.Queued? && p !in e.tried && (exists k: nat :: ComesFirst(connected, e.tried, p, k))
      && e' == e.(tried := e.tried + {p}, action := InFlight(p))
    else
      || e' == e
      || (&& e.action.Queued? && e' == e.(action := WaitingForPeers(now))
          && forall p :: p in connected ==> p in e.tried)
  }

  lemma ScanInFlight(s: State, connected: seq<Peer>, now: nat)
    requires Inv(s)
    ensures var (s', issued) := ScanUnderCap(s, connected, now);
      Inv(s') && InFlightRoots(s'.entries) == InFlightRoots(s.entries) + (if issued.Some? then {issued.value.0} else {})
  {
    ScanOutcome(s, connected, now);
    var (s', issued) := ScanUnderCap(s, connected, now);
    if |InFlightRoots(s.entries)| < MAX_CONCURRENT_COLUMN_FETCHES {
      ScanAddsIssued(s, s', connected, now, issued);
    } else {
      assert InFlightRoots(s.entries) + {} == InFlightRoots(s.entries);
    }
  }

  lemma ScanAddsIssued(s: State, s': State, connected: seq<Peer>, now: nat, issued: Option<(Root, Peer)>)
    requires s'.entries.Keys == s.entries.Keys && (issued.Some? ==> issued.value.0 in s.entries)
    requires forall r :: r in s.entries ==> ScannedEntry(s.entries[r], s'.entries[r], r, connected, now, issued)
    ensures InFlightRoots(s'.entries) == InFlightRoots(s.entries) + (if issued.Some? then {issued.value.0} else {})
  {
    var added: set<Root> := if issued.Some? then {issued.value.0} else {};
    forall r ensures r in InFlightRoots(s'.entries) <==> r in InFlightRoots(s.entries) + added {
      if r in s.entries {
        assert ScannedEntry(s.entries[r], s'.entries[r], r, connected, now, issued);
      }
    }
  }

  /** What one call does to one entry: a refresh, then the scan. */
  lemma EntryAfterFetch(s: State, connected: seq<Peer>, now: nat, issued: Option<(Root, Peer)>, s': State, root: Root)
    returns (e1: Entry)
    requires Inv(s) && Step(s, NextFetch(connected, now, issued), s') && root in s.entries
    ensures root in s'.entries && e1 == RefreshEntry(s.entries[root], AsSet(connected), now)
    ensures ScannedEntry(e1, s'.entries[root], root, connected, now, issued)
  {
    var s1 :| Refreshed(s, AsSet(connected), now, s1) && ScanUnderCap(s1, connected, now) == (s', issued);
    RefreshKeeps(s, AsSet(connected), now, s1);
    ScanOutcome(s1, connected, now);
    e1 := s1.entries[root];
  }

  /** Every step keeps the invariant: no queued root is ever lost and at most 32 fetches are in flight. */
  lemma StepKeepsInv(s: State, e: Event, s': State)
    requires Inv(s) && Step(s, e, s')
    ensures Inv(s')
  {
    match e {
      case NextFetch(connected, now, issued) =>
        var s1 :| Refreshed(s, AsSet(connected), now, s1) && ScanUnderCap(s1, connected, now) == (s', issued);
        RefreshKeeps(s, AsSet(connected), now, s1);
        ScanInFlight(s1, connected, now);
      case _ =>
        SubsetNotLarger(InFlightRoots(s'.entries), InFlightRoots(s.entries));
    }
  }

  /** Work conservation: if a fetch is withheld, the cap is reached or every entry not in flight has
      tried every connected peer. */
  lemma WithheldOnlyIfNothingToDo(s: State, connected: seq<Peer>, now: nat, s': State)
    requires Inv(s) && Step(s, NextFetch(connected, now, None), s')
    ensures |InFlightRoots(s.entries)| == |InFlightRoots(s'.entries)| == MAX_CONCURRENT_COLUMN_FETCHES
            || forall r :: r in s'.entries && !s'.entries[r].action.InFlight? ==>
                 forall p :: p in connected ==> p in s'.entries[r].tried
  {
    var s1 :| Refreshed(s, AsSet(connected), now, s1) && ScanUnderCap(s1, connected, now) == (s', None);
    RefreshKeeps(s, AsSet(connected), now, s1);
    ScanInFlight(s1, connected, now);
    if |InFlightRoots(s1.entries)| < MAX_CONCURRENT_COLUMN_FETCHES {
      ScanOutcome(s1, connected, now);
      forall r | r in s'.entries && !s'.entries[r].action.InFlight?
        ensures forall p :: p in connected ==> p in s'.entries[r].tried
      {
        assert ScannedEntry(s1.entries[r], s'.entries[r], r, connected, now, None);
      }
    }
  }

  /** Seen from the caller: below the cap, an entry that is not in flight and has an untried connected
      peer makes the next call issue a fetch. */
  lemma FetchIssuedWhenPossible(s: State, connected: seq<Peer>, now: nat, issued: Option<(Root, Peer)>,
      s': State, r: Root, p: Peer)
    requires Inv(s) && Step(s, NextFetch(connected, now, issued), s')
    requires |InFlightRoots(s.entries)| < MAX_CONCURRENT_COLUMN_FETCHES
    requires r in s.entries && !s.entries[r].action.InFlight? && p in connected && p !in s.entries[r].tried
    ensures issued.Some?
  {
    if issued.None? {
      var e1 := EntryAfterFetch(s, connected, now, issued, s', r);
      WithheldOnlyIfNothingToDo(s, connected, now, s');
    }
  }

  // ---------- Waking and retrying ----------

  /** A refresh puts a waiting or parked entry back in the queue exactly when a connected peer is
      untried or, after the timeout, a connected peer failed only transiently. */
  lemma WakesExactly(e: Entry, connected: set<Peer>, now: nat)
    ensures Wakes(e, connected, now) <==>
      || ((e.action.WaitingForPeers? || e.action.Parked?) && exists p :: p in connected && p !in e.tried)
      || (&& e.action.WaitingForPeers? && now >= e.action.since + NO_COLUMN_PEER_TIMEOUT
          && exists p :: p in connected && p in e.retryable)
  {
  }

  /** A connected peer that was tried may be tried again exactly when it failed transiently, the wait
      timed out and every connected peer was tried first. */
  lemma RetriedExactly(e: Entry, connected: set<Peer>, now: nat, p: Peer)
    requires p in connected && p in e.tried
    ensures p !in RefreshEntry(e, connected, now).tried <==>
      && e.action.WaitingForPeers? && now >= e.action.since + NO_COLUMN_PEER_TIMEOUT && p in e.retryable
      && forall q :: q in connected ==> q in e.tried
  {
  }

  /** Some connected peer is still to be tried. */
  ghost predicate Untried(e: Entry, connected: set<Peer>) {
    exists p :: p in connected && p !in e.tried
  }

  /** The wait has lasted long enough and every connected peer was tried. */
  ghost predicate GivesUpWaiting(e: Entry, connected: set<Peer>, now: nat) {
    e.action.WaitingForPeers? && now >= e.action.since + NO_COLUMN_PEER_TIMEOUT && !Untried(e, connected)
  }

  /** A refresh, peer by peer and state by state: disconnected peers are forgotten; after a wait in vain the
      retryable peers become untried and none is retryable any more; an entry is parked when a wait in vain
      finds nobody to try. */
  lemma RefreshExactly(e: Entry, connected: set<Peer>, now: nat)
    ensures var e' := RefreshEntry(e, connected, now);
      var vain := GivesUpWaiting(e, connected, now);
      && (forall p :: p in e'.tried <==> p in e.tried && p in connected && !(vain && p in e.retryable))
      && (forall p :: p in e'.retryable <==> p in e.retryable && p in connected && !vain)
      && e'.failures == e.failures
      && (e'.action != e.action ==> e'.action.Queued? || e'.action.Parked?)
      && (e'.action.Parked? <==>
            || (e.action.Parked? && !Untried(e, connected))
            || (vain && !exists p :: p in connected && p in e.retryable))
  {
    assert CanTry(e.tried * connected, connected) <==> Untried(e, connected);
    var e' := RefreshEntry(e, connected, now);
    if GivesUpWaiting(e, connected, now) {
      assert CanTry(e'.tried, connected) <==> exists p :: p in connected && p in e.retryable;
    }
  }

  /** A transient failure recovers: once all connected peers are tried and the wait timed out, the
      peer may be tried again exactly if this was at most its second failure, and then the root is queued. */
  lemma TransientFailureRecoversExactly(e: Entry, p: Peer, now: nat, connected: set<Peer>, later: nat)
    requires e.action == InFlight(p) && p in e.tried && p !in e.retryable && p in connected
    requires (forall q :: q in connected ==> q in e.tried) && later >= now + NO_COLUMN_PEER_TIMEOUT
    ensures var e' := RefreshEntry(FinishRetryable(e, p, now), connected, later);
      (p !in e'.tried <==> FailuresOf(e, p) + 1 < MAX_TRANSIENT_PEER_ATTEMPTS) && (p !in e'.tried ==> e'.action.Queued?)
  {
    var e1 := FinishRetryable(e, p, now);
    RetriedExactly(e1, connected, later, p);
    WakesExactly(e1, connected, later);
  }

  /** The queue item is passed over: no entry, not queued, or no connected peer left to try. */
  ghost predicate PassedOver(s: State, root: Root, connected: seq<Peer>) {
    root in s.entries && s.entries[root].action.Queued? ==> forall p :: p in connected ==> p in s.entries[root].tried
  }

  /** Item `i` of the queue is served: all before it are passed over and the queue continues after it. */
  ghost predicate ServedAt(s: State, s': State, connected: seq<Peer>, root: Root, i: nat) {
    && i < |s.queued| && s.queued[i] == root && !PassedOver(s, root, connected) && s'.queued == s.queued[i + 1..]
    && (forall j :: 0 <= j < i ==> PassedOver(s, s.queued[j], connected))
  }

  /** First come, first served: the issued root is the first item of the queue that is not passed over,
      and the queue continues right after it. */
  lemma {:induction false} ScanServesFirst(s: State, connected: seq<Peer>, now: nat)
    ensures var (s', issued) := Scan(s, connected, now);
      issued.Some? ==> exists i: nat :: ServedAt(s, s', connected, issued.value.0, i)
    decreases |s.queued|
  {
    var (s', issued) := Scan(s, connected, now);
    if s.queued != [] && issued.Some? {
      var root, rest := s.queued[0], s.queued[1..];
      if PassedOver(s, root, connected) {
        var s1 :=
          if root in s.entries && s.entries[root].action.Queued?
          then State(s.entries[root := s.entries[root].(action := WaitingForPeers(now))], rest)
          else State(s.entries, rest);
        ScanServesFirst(s1, connected, now);
        var i: nat :| ServedAt(s1, s', connected, issued.value.0, i);
        assert s.queued[i + 1] == rest[i] && s.queued[i + 2..] == rest[i + 1..];
        forall j | 0 <= j < i + 1 ensures PassedOver(s, s.queued[j], connected) {
          if j > 0 { assert PassedOver(s1, rest[j - 1], connected); }
        }
        assert ServedAt(s, s', connected, issued.value.0, i + 1);
      } else {
        assert ServedAt(s, s', connected, issued.value.0, 0);
      }
    }
  }

  // ---------- Runs ----------

  ghost predicate Run(states: seq<State>, events: seq<Event>) {
    && |states| == |events| + 1
    && forall i :: 0 <= i < |events| ==> StepAt(states, events, i)
  }

  ghost predicate StepAt(states: seq<State>, events: seq<Event>, i: nat)
    requires i < |events| < |states|
  {
    Step(states[i], events[i], states[i + 1])
  }

  lemma {:induction false} RunPrefix(states: seq<State>, events: seq<Event>, n: nat)
    requires Run(states, events) && n <= |events|
    ensures Run(states[..n + 1], events[..n])
  {
    var states', events' := states[..n + 1], events[..n];
    forall i | 0 <= i < n ensures StepAt(states', events', i) {
      assert StepAt(states, events, i);
    }
  }

  /** Over every run from the empty tracker the invariant holds in every state. */
  lemma {:induction false} RunSafe(states: seq<State>, events: seq<Event>, n: nat)
    requires Run(states, events) && states[0] == State(map[], []) && n < |states|
    ensures Inv(states[n])
    decreases n
  {
    if n > 0 {
      RunSafe(states, events, n - 1);
      assert StepAt(states, events, n - 1);
      StepKeepsInv(states[n - 1], events[n - 1], states[n]);
    } else {
      assert InFlightRoots(states[0].entries) == {};
    }
  }

  // ---------- Served in turn ----------

  /** The call hands out `root`, to whichever peer. */
  ghost predicate IssuesRoot(e: Event, root: Root) {
    e.NextFetch? && e.issued.Some? && e.issued.value.0 == root
  }

  /** The root waits in the queue, at place `b` or before, and peer `p` is still to be tried for it. */
  ghost predicate QueuedWithin(s: State, root: Root, p: Peer, b: int) {
    && root in s.entries && s.entries[root].action.Queued? && p !in s.entries[root].tried
    && exists q :: 0 <= q <= b && q < |s.queued| && s.queued[q] == root
  }

  /** The call is made below the cap. */
  ghost predicate BelowCap(s: State, e: Event) {
    e.NextFetch? && |InFlightRoots(s.entries)| < MAX_CONCURRENT_COLUMN_FETCHES
  }

  lemma {:induction false} KeepPlace(s: seq<Root>, keep: set<Root>, q: nat) returns (q': nat)
    requires q < |s| && s[q] in keep
    ensures q' <= q && q' < |Keep(s, keep)| && Keep(s, keep)[q'] == s[q]
    decreases q
  {
    var rest := s[1..];
    if q == 0 {
      q' := 0;
    } else {
      q' := KeepPlace(rest, keep, q - 1);
      if s[0] in keep { q' := q' + 1; }
    }
  }

  /** A scan that issues another root than one it could serve takes a place before it. */
  lemma ScanKeepsPlace(s: State, connected: seq<Peer>, now: nat, root: Root, p: Peer, b: int)
    requires Inv(s) && QueuedWithin(s, root, p, b) && p in connected
    ensures var (s', issued) := Scan(s, connected, now);
      issued.Some? && (issued.value.0 != root ==> QueuedWithin(s', root, p, b - 1))
  {
    ScanOutcome(s, connected, now);
    ScanServesFirst(s, connected, now);
    var (s', issued) := Scan(s, connected, now);
    assert ScannedEntry(s.entries[root], s'.entries[root], root, connected, now, issued);
    if issued.Some? && issued.value.0 != root {
      var q :| 0 <= q <= b && q < |s.queued| && s.queued[q] == root;
      var i: nat :| ServedAt(s, s', connected, issued.value.0, i);
      assert !PassedOver(s, s.queued[q], connected);
      assert i < q && s'.queued[q - i - 1] == root;
    }
  }

  lemma FetchKeepsPlace(s: State, e: Event, s': State, root: Root, p: Peer, b: int)
    requires Inv(s) && Step(s, e, s') && QueuedWithin(s, root, p, b)
    requires e.NextFetch? && p in e.connected && !IssuesRoot(e, root)
    ensures QueuedWithin(s', root, p, if BelowCap(s, e) then b - 1 else b)
  {
    var s1 :| Refreshed(s, AsSet(e.connected), e.now, s1) && ScanUnderCap(s1, e.connected, e.now) == (s', e.issued);
    RefreshKeeps(s, AsSet(e.connected), e.now, s1);
    var q :| 0 <= q <= b && q < |s.queued| && s.queued[q] == root;
    assert s1.queued[q] == root;
    assert QueuedWithin(s1, root, p, b);
    ScanKeepsPlace(s1, e.connected, e.now, root, p, b);
  }

  lemma StepKeepsPlace(s: State, e: Event, s': State, root: Root, p: Peer, b: int)
    requires Inv(s) && Step(s, e, s') && QueuedWithin(s, root, p, b)
    requires KeepsPeer(e, p) && root in s'.entries && !IssuesRoot(e, root)
    ensures QueuedWithin(s', root, p, if BelowCap(s, e) then b - 1 else b)
  {
    if e.NextFetch? {
      FetchKeepsPlace(s, e, s', root, p, b);
    } else {
      var q: nat :| q <= b && q < |s.queued| && s.queued[q] == root;
      if e.RetainPending? {
        var q' := KeepPlace(s.queued, s'.entries.Keys, q);
        assert s'.queued[q'] == root;
      } else {
        assert s'.queued[q] == root;
      }
    }
  }

  /** The number of calls made below the cap. */
  ghost function Chances(states: seq<State>, events: seq<Event>): nat
    requires |states| == |events| + 1
    decreases |events|
  {
    if events == [] then 0
    else
      var n := |events| - 1;
      Chances(states[..n + 1], events[..n]) + if BelowCap(states[n], events[n]) then 1 else 0
  }

  lemma {:induction false} PlaceKept(states: seq<State>, events: seq<Event>, root: Root, p: Peer, b: int)
    requires Run(states, events) && Inv(states[0]) && QueuedWithin(states[0], root, p, b)
    requires forall i :: 0 <= i < |states| ==> root in states[i].entries
    requires forall i :: 0 <= i < |events| ==> KeepsPeer(events[i], p) && !IssuesRoot(events[i], root)
    ensures Inv(states[|events|]) && QueuedWithin(states[|events|], root, p, b - Chances(states, events))
    decreases |events|
  {
    if events != [] {
      var n := |events| - 1;
      RunPrefix(states, events, n);
      PlaceKept(states[..n + 1], events[..n], root, p, b);
      assert StepAt(states, events, n);
      StepKeepsInv(states[n], events[n], states[n + 1]);
      StepKeepsPlace(states[n], events[n], states[n + 1], root, p, b - Chances(states[..n + 1], events[..n]));
    }
  }

  /** First come, first served over every run: a queued root at place `b` that has an untried peer, which
      stays connected, is handed out within `b + 1` calls below the cap, whatever else happens. */
  lemma ServedInTurn(states: seq<State>, events: seq<Event>, root: Root, p: Peer, b: nat)
    requires Run(states, events) && Inv(states[0]) && QueuedWithin(states[0], root, p, b)
    requires forall i :: 0 <= i < |states| ==> root in states[i].entries
    requires forall i :: 0 <= i < |events| ==> KeepsPeer(events[i], p)
    requires Chances(states, events) > b
    ensures exists i :: 0 <= i < |events| && IssuesRoot(events[i], root)
  {
    if forall i :: 0 <= i < |events| ==> !IssuesRoot(events[i], root) {
      PlaceKept(states, events, root, p, b);
    }
  }

  // ---------- Nothing is lost ----------

  /** The event ends the tracking of `root`: its removal, a retain without it, or its complete fetch. */
  ghost predicate Untracks(s: State, e: Event, root: Root) {
    || e == Remove(root)
    || (e.RetainPending? && root !in e.pending)
    || (&& e.Finish? && e.root == root && e.outcome.Complete?
        && root in s.entries && s.entries[root].action == InFlight(e.peer))
  }

  /** A tracked root stops being tracked exactly by one of those three. */
  lemma LeavesExactly(s: State, e: Event, s': State, root: Root)
    requires Inv(s) && Step(s, e, s') && root in s.entries
    ensures root !in s'.entries <==> Untracks(s, e, root)
  {
    if e.NextFetch? {
      var e1 := EntryAfterFetch(s, e.connected, e.now, e.issued, s', root);
    }
  }

  /** Over every run, a tracked root stays tracked until one of them. */
  lemma {:induction false} StaysTracked(states: seq<State>, events: seq<Event>, i: nat, j: nat, root: Root)
    requires Run(states, events) && states[0] == State(map[], []) && i <= j < |states|
    requires root in states[i].entries && forall k :: i <= k < j ==> !Untracks(states[k], events[k], root)
    ensures root in states[j].entries
    decreases j
  {
    if i < j {
      StaysTracked(states, events, i, j - 1, root);
      RunSafe(states, events, j - 1);
      assert StepAt(states, events, j - 1);
      LeavesExactly(states[j - 1], events[j - 1], states[j], root);
    }
  }

  /** From its enqueue on. */
  lemma EnqueuedStaysTracked(states: seq<State>, events: seq<Event>, i: nat, j: nat, root: Root)
    requires Run(states, events) && states[0] == State(map[], []) && i < j < |states| && events[i] == Enqueue(root)
    requires forall k :: i < k < j ==> !Untracks(states[k], events[k], root)
    ensures root in states[j].entries
  {
    assert StepAt(states, events, i);
    StaysTracked(states, events, i + 1, j, root);
  }

  /** Calls about another root, and finishes that match no fetch in flight, leave an entry as it is; one that
      matches leaves it waiting since then. */
  lemma OtherwiseUntouched(s: State, e: Event, s': State, root: Root)
    requires Step(s, e, s') && root in s.entries && root in s'.entries && !e.NextFetch? && !e.PeerDisconnected?
    ensures if e.Finish? && e.root == root && s.entries[root].action == InFlight(e.peer)
            then s'.entries[root].action == WaitingForPeers(e.now) && s'.entries[root].tried == s.entries[root].tried
            else s'.entries[root] == s.entries[root]
  {
  }

  /** After a disconnect the peer counts as untried everywhere, and once it is back it may be handed the first
      queued root again, whatever it was asked before. */
  lemma ReconnectedPeerServes(s: State, p: Peer, s1: State, now: nat, issued: Option<(Root, Peer)>, s2: State)
    requires Inv(s) && Step(s, PeerDisconnected(p), s1) && Step(s1, NextFetch([p], now, issued), s2)
    requires |InFlightRoots(s.entries)| < MAX_CONCURRENT_COLUMN_FETCHES
    requires s.queued != [] && s.queued[0] in s.entries && s.entries[s.queued[0]].action.Queued?
    ensures issued == Some((s.queued[0], p))
  {
    var root := s.queued[0];
    StepKeepsInv(s, PeerDisconnected(p), s1);
    assert InFlightRoots(s1.entries) == InFlightRoots(s.entries);
    var t :| Refreshed(s1, AsSet([p]), now, t) && ScanUnderCap(t, [p], now) == (s2, issued);
    RefreshKeeps(s1, AsSet([p]), now, t);
    assert t.queued[0] == root && p !in t.entries[root].tried;
    assert FirstUntried([p], t.entries[root].tried) == Some(p);
  }

  // ---------- Bounded retries ----------

  ghost predicate HandsOut(e: Event, root: Root, p: Peer) {
    e.NextFetch? && e.issued == Some((root, p))
  }

  ghost function HandOuts(events: seq<Event>, root: Root, p: Peer): nat {
    if events == [] then 0
    else HandOuts(events[..|events| - 1], root, p) + if HandsOut(events[|events| - 1], root, p) then 1 else 0
  }

  /** Peer `p` stays connected through the event. */
  ghost predicate KeepsPeer(e: Event, p: Peer) {
    (e.NextFetch? ==> p in e.connected) && e != PeerDisconnected(p)
  }

  /** The events that make the tracker forget that the peer was tried. */
  ghost function Drops(events: seq<Event>, p: Peer): nat {
    if events == [] then 0
    else Drops(events[..|events| - 1], p) + if KeepsPeer(events[|events| - 1], p) then 0 else 1
  }

  function Min(a: int, b: int): int {
    if a < b then a else b
  }

  /** How many hand-outs more than drops the record of one peer in one entry allows for. */
  function Allowance(e: Entry, p: Peer): int {
    var f := FailuresOf(e, p);
    if p in e.retryable then Min(f, MAX_TRANSIENT_PEER_ATTEMPTS - 1) - if p in e.tried then 0 else 1
    else Min(f, MAX_TRANSIENT_PEER_ATTEMPTS - 1) + if p in e.tried then 1 else 0
  }

  lemma RefreshAllows(e: Entry, connected: set<Peer>, now: nat, p: Peer)
    ensures Allowance(e, p) <= Allowance(RefreshEntry(e, connected, now), p) + if p in connected then 0 else 1
    ensures p !in connected ==> p !in RefreshEntry(e, connected, now).tried
  {
  }

  lemma FetchAllows(s: State, e: Event, s': State, root: Root, p: Peer)
    requires Inv(s) && Step(s, e, s') && root in s.entries && e.NextFetch?
    ensures root in s'.entries
    ensures Allowance(s.entries[root], p) + (if HandsOut(e, root, p) then 1 else 0)
            <= Allowance(s'.entries[root], p) + if KeepsPeer(e, p) then 0 else 1
  {
    var e1 := EntryAfterFetch(s, e.connected, e.now, e.issued, s', root);
    RefreshAllows(s.entries[root], AsSet(e.connected), e.now, p);
  }

  lemma StepAllows(s: State, e: Event, s': State, root: Root, p: Peer)
    requires Inv(s) && Step(s, e, s') && root in s.entries && root in s'.entries
    ensures Allowance(s.entries[root], p) + (if HandsOut(e, root, p) then 1 else 0)
            <= Allowance(s'.entries[root], p) + if KeepsPeer(e, p) then 0 else 1
  {
    if e.NextFetch? {
      FetchAllows(s, e, s', root, p);
    }
  }

  /** From its enqueue on, while the entry lives, a peer is handed out for a root at most three times, and
      once more for each time the tracker lost sight of the peer. */
  lemma {:induction false} BoundedRetries(states: seq<State>, events: seq<Event>, root: Root, p: Peer)
    requires Run(states, events) && Inv(states[0])
    requires root in states[0].entries && states[0].entries[root] == FRESH
    requires forall i :: 0 <= i < |states| ==> root in states[i].entries
    ensures HandOuts(events, root, p) <= MAX_TRANSIENT_PEER_ATTEMPTS + Drops(events, p)
    ensures Inv(states[|events|])
    ensures HandOuts(events, root, p) <= Allowance(states[|events|].entries[root], p) + Drops(events, p)
    decreases |events|
  {
    var n := |events|;
    if n > 0 {
      RunPrefix(states, events, n - 1);
      BoundedRetries(states[..n], events[..n - 1], root, p);
      assert StepAt(states, events, n - 1);
      StepKeepsInv(states[n - 1], events[n - 1], states[n]);
      StepAllows(states[n - 1], events[n - 1], states[n], root, p);
    }
  }

  // ---------- One fetch at a time ----------

  /** The event ends the fetch of `root` by `p`: its own finish, or the removal of the entry. */
  ghost predicate Ends(e: Event, s': State, root: Root, p: Peer) {
    (e.Finish? && e.root == root && e.peer == p) || root !in s'.entries
  }

  lemma StepHoldsFetch(s: State, e: Event, s': State, root: Root, p: Peer)
    requires Inv(s) && Step(s, e, s') && root in s.entries && s.entries[root].action == InFlight(p)
    requires !Ends(e, s', root, p)
    ensures s'.entries[root].action == InFlight(p)
    ensures forall q :: !HandsOut(e, root, q)
  {
    match e {
      case NextFetch(connected, now, issued) =>
        var e1 := EntryAfterFetch(s, connected, now, issued, s', root);
      case _ =>
    }
  }

  lemma HandOutStartsFetch(s: State, e: Event, s': State, root: Root, p: Peer)
    requires Inv(s) && Step(s, e, s') && HandsOut(e, root, p)
    ensures root in s'.entries && s'.entries[root].action == InFlight(p)
  {
    var s1 :| Refreshed(s, AsSet(e.connected), e.now, s1) && ScanUnderCap(s1, e.connected, e.now) == (s', e.issued);
    RefreshKeeps(s, AsSet(e.connected), e.now, s1);
    ScanOutcome(s1, e.connected, e.now);
    assert ScannedEntry(s1.entries[root], s'.entries[root], root, e.connected, e.now, e.issued);
  }

  /** Between two hand-outs of one root, the first fetch was finished or its entry removed. */
  lemma {:induction false} OneFetchAtATime(states: seq<State>, events: seq<Event>, i: nat, j: nat, root: Root,
      p: Peer, q: Peer)
    requires Run(states, events) && states[0] == State(map[], [])
    requires i < j < |events| && HandsOut(events[i], root, p) && HandsOut(events[j], root, q)
    ensures exists k :: i < k < j && Ends(events[k], states[k + 1], root, p)
  {
    if !exists k :: i < k < j && Ends(events[k], states[k + 1], root, p) {
      FetchStillOn(states, events, i, j, root, p);
      RunSafe(states, events, j);
      assert StepAt(states, events, j);
      HandOutStartsFetch(states[j], events[j], states[j + 1], root, q);
      StepHoldsFetch(states[j], events[j], states[j + 1], root, p);
    }
  }

  lemma {:induction false} FetchStillOn(states: seq<State>, events: seq<Event>, i: nat, j: nat, root: Root, p: Peer)
    requires Run(states, events) && states[0] == State(map[], [])
    requires i < j < |events| && HandsOut(events[i], root, p)
    requires forall k :: i < k < j ==> !Ends(events[k], states[k + 1], root, p)
    ensures root in states[j].entries && states[j].entries[root].action == InFlight(p)
    decreases j
  {
    RunSafe(states, events, j - 1);
    assert StepAt(states, events, j - 1);
    if j == i + 1 {
      HandOutStartsFetch(states[i], events[i], states[j], root, p);
    } else {
      FetchStillOn(states, events, i, j - 1, root, p);
      StepHoldsFetch(states[j - 1], events[j - 1], states[j], root, p);
    }
  }
}
