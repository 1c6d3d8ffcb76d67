/**
 The bounded state-snapshot queue, its worker and the overlay of pending states
 (crates/storage/src/cache.rs and crates/storage/src/tables/beacon/beacon_state.rs). Producers, one
 worker and the owner that closes the queue interleave freely. A producer that is admitted holds the
 queue's mutex from its check to its push, in three steps; the overlay has a mutex of its own, so the
 worker can clear it in between. Waiting on the condition variable is a sleep that only a
 notification, or a spurious wake-up, ends.
 */
module SnapshotQueue {
  import opened Wrappers
  import opened Sets

  const STATE_SNAPSHOT_PENDING_LIMIT: nat := 3

  type Root = nat

  /** `state` is the identity of the shared state object, which is what the overlay compares. */
  datatype Task = Task(root: Root, state: nat)

  /** The states readable from memory. */
  type Overlay = map<Root, nat>

  /** What the queue's mutex protects. */
  datatype Queue = Queue(tasks: seq<Task>, inFlight: nat, accepting: bool)

  datatype Admission = Blocked | Refused | Admitted

  datatype Supply = NoneYet | Closed | Next(task: Task)

  // ---------- The operations ----------

  /** The check of one pass of the producer's wait loop. */
  function Check(q: Queue): Admission {
    if q.accepting && q.inFlight == STATE_SNAPSHOT_PENDING_LIMIT then Blocked
    else if !q.accepting then Refused
    else Admitted
  }

  function Push(q: Queue, task: Task): Queue {
    q.(tasks := q.tasks + [task], inFlight := q.inFlight + 1)
  }

  /** One pass of the worker's wait loop. */
  function Take(q: Queue): (Queue, Supply) {
    if q.accepting && q.tasks == [] then (q, NoneYet)
    else if q.tasks == [] then (q, Closed)
    else (q.(tasks := q.tasks[1..]), Next(q.tasks[0]))
  }

  /** Removes the task's entry, unless another state was published for the root since. */
  function ClearPending(overlay: Overlay, task: Task): Overlay {
    if task.root in overlay && overlay[task.root] == task.state then overlay - {task.root} else overlay
  }

  class PendingStates {
    var states: Overlay

    constructor ()
      ensures states == map[]
    {
      states := map[];
    }

    method Publish(task: Task)
      modifies this
      ensures states == old(states)[task.root := task.state]
    {
      states := states[task.root := task.state];
    }

    method Clear(task: Task)
      modifies this
      ensures states == ClearPending(old(states), task)
      ensures states == if task.root in old(states) && old(states)[task.root] == task.state
                        then old(states) - {task.root} else old(states)
    {
      if task.root in states && states[task.root] == task.state {
        states := states - {task.root};
      }
    }
  }

  class StateSnapshotQueue {
    var tasks: seq<Task>
    var inFlight: nat
    var accepting: bool

    ghost function View(): Queue
      reads this
    {
      Queue(tasks, inFlight, accepting)
    }

    constructor ()
      ensures View() == Queue([], 0, true)
    {
      tasks, inFlight, accepting := [], 0, true;
    }

    /** One pass of the producer's loop: unless it has to wait or is refused, it publishes, then pushes. */
    method TryEnqueue(task: Task, pending: PendingStates) returns (r: Admission)
      modifies this, pending
      ensures r == Check(old(View()))
      ensures r.Blocked? <==> old(accepting) && old(inFlight) == 3
      ensures r.Refused? <==> !old(accepting)
      ensures r.Admitted? ==> tasks == old(tasks) + [task] && inFlight == old(inFlight) + 1 && accepting
      ensures View() == if r.Admitted? then Push(old(View()), task) else old(View())
      ensures pending.states ==
              if r.Admitted? then old(pending.states)[task.root := task.state] else old(pending.states)
    {
      if accepting && inFlight == STATE_SNAPSHOT_PENDING_LIMIT {
        return Blocked;
      }
      if !accepting {
        return Refused;
      }
      pending.Publish(task);
      inFlight := inFlight + 1;
      tasks := tasks + [task];
      return Admitted;
    }

    method TryNext() returns (r: Supply)
      modifies this
      ensures (View(), r) == Take(old(View()))
      ensures r.NoneYet? <==> old(accepting) && old(tasks) == []
      ensures r.Closed? <==> !old(accepting) && old(tasks) == []
      ensures r.Next? ==> [r.task] + tasks == old(tasks)
      ensures inFlight == old(inFlight) && accepting == old(accepting)
    {
      if accepting && tasks == [] {
        return NoneYet;
      }
      if tasks == [] {
        return Closed;
      }
      r := Next(tasks[0]);
      tasks := tasks[1..];
    }

    method Complete()
      requires inFlight > 0
      modifies this`inFlight
      ensures inFlight == old(inFlight) - 1
    {
      inFlight := inFlight - 1;
    }

    method Close()
      modifies this`accepting
      ensures !accepting
    {
      accepting := false;
    }
  }

  // ---------- The protocol ----------

  /** An admitted producer holds the mutex until it has pushed. */
  datatype Producer =
    | Trying(task: Task)
    | Sleeping(task: Task)
    | Publishing(task: Task)
    | Pushing(task: Task)
    | Done(admitted: bool)

  datatype Worker =
    | Ready
    | Asleep
    | Running(task: Task)
    | Committed(task: Task)
    | Completing(task: Task)
    | Exited
    | Panicked

  /** `published`, `admitted` and `popped` log the tasks in order. A task is known by its place in
      `published`: `committed` has those whose write committed, and `cleared` those that went on to
      clear the overlay, each with the number of tasks published by then. */
  datatype System = System(
    queue: Queue, holder: Option<nat>, producers: map<nat, Producer>, worker: Worker, overlay: Overlay,
    published: seq<Task>, admitted: seq<Task>, popped: seq<Task>,
    committed: set<int>, cleared: Clears, completed: nat, failed: nat)

  /** Places in `published`, each with the number of tasks published when it cleared. */
  type Clears = map<int, nat>

  datatype Action =
    | Arrive(thread: nat, task: Task)
    | TryEnqueue(thread: nat)
    | PublishState(thread: nat)
    | PushTask(thread: nat)
    | SpuriousWake(thread: nat)
    | TryNext
    | WorkerSpuriousWake
    | Commit
    | ClearState
    | Complete
    | Fail
    | Panic
    | Close

  function WakeProducer(p: Producer): Producer {
    if p.Sleeping? then Trying(p.task) else p
  }

  /** `notify_all`: every sleeper goes back to its check. */
  function NotifyAll(s: System): System {
    s.(producers := map t | t in s.producers :: WakeProducer(s.producers[t]),
       worker := if s.worker.Asleep? then Ready else s.worker)
  }

  predicate HasTask(w: Worker) {
    w.Running? || w.Committed? || w.Completing?
  }

  predicate Enabled(s: System, a: Action) {
    match a
    case Arrive(t, _) => t !in s.producers
    case TryEnqueue(t) => t in s.producers && s.producers[t].Trying? && s.holder.None?
    case PublishState(t) => t in s.producers && s.producers[t].Publishing?
    case PushTask(t) => t in s.producers && s.producers[t].Pushing?
    case SpuriousWake(t) => t in s.producers && s.producers[t].Sleeping?
    case TryNext => s.worker.Ready? && s.holder.None?
    case WorkerSpuriousWake => s.worker.Asleep?
    case Commit => s.worker.Running?
    case ClearState => s.worker.Committed?
    case Complete => s.worker.Completing? && s.holder.None? && s.queue.inFlight > 0
    case Fail => s.worker.Running? || s.worker.Committed?
    case Panic => s.worker.Running? || s.worker.Committed?
    case Close => s.holder.None?
  }

  function Do(s: System, a: Action): System
    requires Enabled(s, a)
  {
    match a
    case Arrive(t, task) => s.(producers := s.producers[t := Trying(task)])
    case TryEnqueue(t) =>
      var task := s.producers[t].task;
      (match Check(s.queue)
       case Blocked => s.(producers := s.producers[t := Sleeping(task)])
       case Refused => s.(producers := s.producers[t := Done(false)])
       case Admitted => s.(producers := s.producers[t := Publishing(task)], holder := Some(t)))
    case PublishState(t) =>
      var task := s.producers[t].task;
      s.(producers := s.producers[t := Pushing(task)],
         overlay := s.overlay[task.root := task.state], published := s.published + [task])
    case PushTask(t) =>
      var task := s.producers[t].task;
      NotifyAll(s.(queue := Push(s.queue, task), producers := s.producers[t := Done(true)],
                   holder := None, admitted := s.admitted + [task]))
    case SpuriousWake(t) => s.(producers := s.producers[t := WakeProducer(s.producers[t])])
    case TryNext =>
      var (q, r) := Take(s.queue);
      (match r
       case NoneYet => s.(worker := Asleep)
       case Closed => s.(worker := Exited)
       case Next(task) => s.(queue := q, worker := Running(task), popped := s.popped + [task]))
    case WorkerSpuriousWake => s.(worker := Ready)
    case Commit => s.(worker := Committed(s.worker.task), committed := s.committed + {|s.popped| - 1})
    case ClearState =>
      s.(worker := Completing(s.worker.task), overlay := ClearPending(s.overlay, s.worker.task),
         cleared := s.cleared[|s.popped| - 1 := |s.published|])
    case Complete =>
      NotifyAll(s.(queue := s.queue.(inFlight := s.queue.inFlight - 1),
                   worker := Ready, completed := s.completed + 1))
    case Fail => s.(worker := Ready, failed := s.failed + 1)
    case Panic => s.(worker := Panicked, failed := s.failed + 1)
    case Close => NotifyAll(s.(queue := s.queue.(accepting := false)))
  }

  ghost predicate Initial(s: System) {
    && s.queue.tasks == [] && s.queue.inFlight == 0 && s.queue.accepting && s.holder.None?
    && |s.producers| == 0 && s.worker.Ready? && |s.overlay| == 0
    && s.published == [] && s.admitted == [] && s.popped == []
    && s.committed == {} && |s.cleared| == 0 && s.completed == 0 && s.failed == 0
  }

  // ---------- The invariant ----------

  /** The count: queued, being written, or failed. */
  ghost predicate Counted(s: System) {
    && s.queue.inFlight == |s.queue.tasks| + (if HasTask(s.worker) then 1 else 0) + s.failed
    && s.queue.inFlight <= STATE_SNAPSHOT_PENDING_LIMIT
    && |s.admitted| == s.completed + s.queue.inFlight
    && |s.cleared| == s.completed + if s.worker.Completing? then 1 else 0
  }

  /** The mutex excludes: one producer at most is between its check and its push, and what it checked
      still holds. */
  ghost predicate Locked(s: System) {
    && (forall t :: t in s.producers && (s.producers[t].Publishing? || s.producers[t].Pushing?) ==> s.holder == Some(t))
    && (s.holder.Some? ==>
          && s.holder.value in s.producers
          && (s.producers[s.holder.value].Publishing? || s.producers[s.holder.value].Pushing?)
          && s.queue.accepting && s.queue.inFlight < STATE_SNAPSHOT_PENDING_LIMIT)
  }

  /** What was published and is about to be pushed. */
  function BeingPushed(s: System): seq<Task> {
    if s.holder.Some? && s.holder.value in s.producers && s.producers[s.holder.value].Pushing?
    then [s.producers[s.holder.value].task] else []
  }

  /** Tasks are published, admitted and popped in one order, each once. */
  ghost predicate InOrder(s: System) {
    && s.published == s.admitted + BeingPushed(s)
    && s.admitted == s.popped + s.queue.tasks
    && (HasTask(s.worker) ==> s.popped != [] && s.popped[|s.popped| - 1] == s.worker.task)
  }

  /** No lost wake-up: whoever sleeps still has to wait. */
  ghost predicate Awake(s: System) {
    && (forall t :: t in s.producers && s.producers[t].Sleeping? ==>
          s.queue.accepting && s.queue.inFlight == STATE_SNAPSHOT_PENDING_LIMIT)
    && (s.worker.Asleep? ==> s.queue.accepting && s.queue.tasks == [])
  }

  ghost predicate Leaving(s: System) {
    && (s.worker.Exited? ==> !s.queue.accepting && s.queue.tasks == [])
    && (s.worker.Panicked? ==> s.failed > 0)
  }

  /** Only popped tasks commit, only committed ones clear, and none twice. */
  ghost predicate Logged(s: System) {
    && (forall j :: j in s.committed ==> 0 <= j < |s.popped|)
    && Timed(s.published, s.cleared) && s.cleared.Keys <= s.committed
    && (s.worker.Running? || s.worker.Committed? ==> |s.popped| - 1 !in s.cleared)
    && (s.worker.Committed? ==> |s.popped| - 1 in s.committed)
  }

  /** The place of the task that published last for `root`, or -1. */
  ghost function LastFor(log: seq<Task>, root: Root): (r: int)
    ensures -1 <= r < |log|
    ensures r >= 0 ==> log[r].root == root
    ensures r == -1 ==> forall i :: 0 <= i < |log| ==> log[i].root != root
  {
    if log == [] then -1
    else
      var n := |log| - 1;
      if log[n].root == root then n else LastFor(log[..n], root)
  }

  lemma LastForAppend(log: seq<Task>, task: Task, root: Root)
    ensures LastFor(log + [task], root) == if task.root == root then |log| else LastFor(log, root)
  {
    assert (log + [task])[..|log|] == log;
  }

  /** Task `j`, the same as task `k`, cleared the overlay after `k` was published. */
  ghost predicate ClearedSince(published: seq<Task>, cleared: Clears, j: int, k: int) {
    && 0 <= k < |published| && 0 <= j < |published| && j in cleared
    && published[j] == published[k] && k < cleared[j]
  }

  /** Every clear came after its own publication. */
  ghost predicate Timed(published: seq<Task>, cleared: Clears) {
    forall j :: j in cleared ==> 0 <= j < cleared[j] <= |published|
  }

  /** The latest state published for `root` has not been cleared since. */
  ghost predicate Unwritten(published: seq<Task>, cleared: Clears, root: Root) {
    var k := LastFor(published, root);
    k >= 0 && forall j :: j in cleared ==> !ClearedSince(published, cleared, j, k)
  }

  ghost predicate RootExact(overlay: Overlay, published: seq<Task>, cleared: Clears, root: Root) {
    && (root in overlay <==> Unwritten(published, cleared, root))
    && (root in overlay ==> overlay[root] == published[LastFor(published, root)].state)
  }

  /** The overlay, exactly: a root is there until its latest state was written, with that state. */
  ghost predicate OverlayExact(overlay: Overlay, published: seq<Task>, cleared: Clears) {
    forall root :: RootExact(overlay, published, cleared, root)
  }

  /** Everything but the overlay. */
  ghost predicate Core(s: System) {
    Counted(s) && Locked(s) && InOrder(s) && Awake(s) && Leaving(s) && Logged(s)
  }

  ghost predicate Inv(s: System) {
    Core(s) && OverlayExact(s.overlay, s.published, s.cleared)
  }

  // ---------- Every step keeps it ----------

  lemma AdmitKeepsCore(s: System, t: nat)
    requires Core(s) && Enabled(s, TryEnqueue(t)) && Check(s.queue).Admitted?
    ensures Core(Do(s, TryEnqueue(t)))
  {
    var s' := Do(s, TryEnqueue(t));
    assert BeingPushed(s) == BeingPushed(s') == [];
    assert Counted(s') && Logged(s') && Awake(s') && Leaving(s');
  }

  /** A producer that holds nothing goes to another place that holds nothing. */
  lemma MoveKeepsCore(s: System, t: nat, p: Producer)
    requires Core(s) && s.holder != Some(t) && !p.Publishing? && !p.Pushing?
    requires p.Sleeping? ==> s.queue.accepting && s.queue.inFlight == STATE_SNAPSHOT_PENDING_LIMIT
    ensures Core(s.(producers := s.producers[t := p]))
  {
    var s' := s.(producers := s.producers[t := p]);
    assert BeingPushed(s') == BeingPushed(s);
    assert Counted(s') && Logged(s') && Leaving(s') && Awake(s');
  }

  lemma PublishKeepsCore(s: System, t: nat)
    requires Core(s) && Enabled(s, PublishState(t))
    ensures Core(Do(s, PublishState(t)))
  {
    assert s.holder == Some(t) && BeingPushed(s) == [];
    assert s.admitted + [] == s.admitted;
  }

  lemma PushKeepsOrder(s: System, t: nat)
    requires InOrder(s) && s.holder == Some(t) && Enabled(s, PushTask(t))
    ensures InOrder(Do(s, PushTask(t)))
  {
    var s' := Do(s, PushTask(t));
    var task := s.producers[t].task;
    assert BeingPushed(s) == [task] && BeingPushed(s') == [];
    assert s'.admitted + [] == s'.admitted;
    assert s.popped + (s.queue.tasks + [task]) == (s.popped + s.queue.tasks) + [task];
  }

  lemma PushKeepsCore(s: System, t: nat)
    requires Core(s) && Enabled(s, PushTask(t))
    ensures Core(Do(s, PushTask(t)))
  {
    var s' := Do(s, PushTask(t));
    assert s.holder == Some(t);
    PushKeepsOrder(s, t);
    assert Counted(s') && Logged(s') && Leaving(s');
  }

  lemma TakeKeepsCore(s: System)
    requires Core(s) && Enabled(s, TryNext)
    ensures Core(Do(s, TryNext))
  {
    if s.queue.tasks != [] {
      var task, rest := s.queue.tasks[0], s.queue.tasks[1..];
      assert s.queue.tasks == [task] + rest;
      assert s.popped + s.queue.tasks == (s.popped + [task]) + rest;
    }
  }

  lemma ClearKeepsCore(s: System)
    requires Core(s) && Enabled(s, ClearState)
    ensures Core(Do(s, ClearState))
  {
    var i := |s.popped| - 1;
    assert |s.cleared[i := |s.published|]| == |s.cleared| + 1;
  }

  lemma CommitKeepsCore(s: System)
    requires Core(s) && Enabled(s, Commit)
    ensures Core(Do(s, Commit))
  {
    assert BeingPushed(Do(s, Commit)) == BeingPushed(s);
  }

  lemma FailKeepsCore(s: System, a: Action)
    requires Core(s) && Enabled(s, a) && (a.Fail? || a.Panic?)
    ensures Core(Do(s, a))
  {
    assert BeingPushed(Do(s, a)) == BeingPushed(s);
  }

  lemma CompleteKeepsCore(s: System)
    requires Core(s) && Enabled(s, Complete)
    ensures Core(Do(s, Complete))
  {
    var s' := Do(s, Complete);
    assert BeingPushed(s') == BeingPushed(s) == [];
    assert Counted(s') && Logged(s');
  }

  lemma CloseKeepsCore(s: System)
    requires Core(s) && Enabled(s, Close)
    ensures Core(Do(s, Close))
  {
    var s' := Do(s, Close);
    assert BeingPushed(s') == BeingPushed(s) == [];
    assert Counted(s') && Logged(s');
  }

  lemma StepKeepsCore(s: System, a: Action)
    requires Core(s) && Enabled(s, a)
    ensures Core(Do(s, a))
  {
    match a {
      case Arrive(t, task) => MoveKeepsCore(s, t, Trying(task));
      case TryEnqueue(t) =>
        var task := s.producers[t].task;
        if Check(s.queue).Admitted? {
          AdmitKeepsCore(s, t);
        } else {
          MoveKeepsCore(s, t, if Check(s.queue).Blocked? then Sleeping(task) else Done(false));
        }
      case PublishState(t) => PublishKeepsCore(s, t);
      case PushTask(t) => PushKeepsCore(s, t);
      case SpuriousWake(t) => MoveKeepsCore(s, t, WakeProducer(s.producers[t]));
      case TryNext => TakeKeepsCore(s);
      case ClearState => ClearKeepsCore(s);
      case Complete => CompleteKeepsCore(s);
      case Close => CloseKeepsCore(s);
      case Commit => CommitKeepsCore(s);
      case Fail => FailKeepsCore(s, a);
      case Panic => FailKeepsCore(s, a);
      case WorkerSpuriousWake => assert BeingPushed(Do(s, a)) == BeingPushed(s);
    }
  }

  /** Publishing makes the task's state the latest of its root and leaves other roots alone. */
  lemma PublishKeepsExact(overlay: Overlay, published: seq<Task>, cleared: Clears, task: Task, root: Root)
    requires RootExact(overlay, published, cleared, root)
    requires Timed(published, cleared)
    ensures RootExact(overlay[task.root := task.state], published + [task], cleared, root)
  {
    LastForAppend(published, task, root);
    var k := LastFor(published, root);
    if task.root != root && k >= 0 {
      forall j ensures ClearedSince(published + [task], cleared, j, k) <==> ClearedSince(published, cleared, j, k) {
      }
    }
  }

  /** Clearing removes exactly an entry whose latest state is the one just written. */
  lemma ClearKeepsExact(overlay: Overlay, published: seq<Task>, cleared: Clears, i: nat, root: Root)
    requires RootExact(overlay, published, cleared, root)
    requires i < |published| && i !in cleared
    ensures RootExact(ClearPending(overlay, published[i]), published, cleared[i := |published|], root)
  {
    var k := LastFor(published, root);
    var cleared' := cleared[i := |published|];
    if k >= 0 {
      forall j ensures ClearedSince(published, cleared', j, k) <==>
        ClearedSince(published, cleared, j, k) || (j == i && published[i] == published[k])
      {
      }
      if published[i] == published[k] {
        assert ClearedSince(published, cleared', i, k);
      } else {
        assert Unwritten(published, cleared', root) <==> Unwritten(published, cleared, root);
      }
    }
  }

  /** The place of the worker's task, and that it did not clear before. */
  lemma WorkerTask(s: System)
    requires Core(s) && s.worker.Committed?
    ensures s.popped != [] && |s.popped| <= |s.published|
    ensures s.published[|s.popped| - 1] == s.worker.task && |s.popped| - 1 !in s.cleared
  {
  }

  lemma PublishedExact(overlay: Overlay, published: seq<Task>, cleared: Clears, task: Task)
    requires OverlayExact(overlay, published, cleared) && Timed(published, cleared)
    ensures OverlayExact(overlay[task.root := task.state], published + [task], cleared)
  {
    var overlay', published' := overlay[task.root := task.state], published + [task];
    forall root ensures RootExact(overlay', published', cleared, root) {
      assert RootExact(overlay, published, cleared, root);
      PublishKeepsExact(overlay, published, cleared, task, root);
    }
  }

  lemma ClearedExact(overlay: Overlay, published: seq<Task>, cleared: Clears, i: nat)
    requires OverlayExact(overlay, published, cleared) && i < |published| && i !in cleared
    ensures OverlayExact(ClearPending(overlay, published[i]), published, cleared[i := |published|])
  {
    var overlay', cleared' := ClearPending(overlay, published[i]), cleared[i := |published|];
    forall root ensures RootExact(overlay', published, cleared', root) {
      assert RootExact(overlay, published, cleared, root);
      ClearKeepsExact(overlay, published, cleared, i, root);
    }
  }

  lemma StepKeepsExact(s: System, a: Action)
    requires Inv(s) && Enabled(s, a)
    ensures OverlayExact(Do(s, a).overlay, Do(s, a).published, Do(s, a).cleared)
  {
    match a {
      case PublishState(t) => PublishedExact(s.overlay, s.published, s.cleared, s.producers[t].task);
      case ClearState =>
        WorkerTask(s);
        ClearedExact(s.overlay, s.published, s.cleared, |s.popped| - 1);
      case _ =>
    }
  }

  /** Every step of every thread keeps the invariant. */
  lemma StepKeepsInv(s: System, a: Action)
    requires Inv(s) && Enabled(s, a)
    ensures Inv(Do(s, a))
  {
    StepKeepsCore(s, a);
    StepKeepsExact(s, a);
  }

  /** The count never underflows: a worker that is to complete a task can, once the mutex is free. */
  lemma CompleteNeverUnderflows(s: System)
    requires Inv(s) && s.worker.Completing?
    ensures s.queue.inFlight > 0 && (s.holder.None? ==> Enabled(s, Complete))
  {
  }

  ghost predicate StepAt(states: seq<System>, actions: seq<Action>, i: nat)
    requires i < |actions| < |states|
  {
    Enabled(states[i], actions[i]) && states[i + 1] == Do(states[i], actions[i])
  }

  ghost predicate Run(states: seq<System>, actions: seq<Action>) {
    && |states| == |actions| + 1 && Initial(states[0])
    && forall i :: 0 <= i < |actions| ==> StepAt(states, actions, i)
  }

  lemma InitialInv(s: System)
    requires Initial(s)
    ensures Inv(s)
  {
    assert s.admitted + [] == s.admitted && s.popped + [] == s.popped;
    assert OverlayExact(s.overlay, s.published, s.cleared);
  }

  /** In every reachable state of every interleaving the invariant holds. */
  lemma {:induction false} RunSafe(states: seq<System>, actions: seq<Action>, n: nat)
    requires Run(states, actions) && n < |states|
    ensures Inv(states[n])
    decreases n
  {
    if n == 0 {
      InitialInv(states[0]);
    } else {
      RunSafe(states, actions, n - 1);
      assert StepAt(states, actions, n - 1);
      StepKeepsInv(states[n - 1], actions[n - 1]);
    }
  }

  // ---------- What readers see ----------

  /** Readable until written: the latest state published for a root is in the overlay, or the write of
      that very state has committed. */
  lemma ReadableUntilWritten(s: System, root: Root)
    requires Inv(s) && LastFor(s.published, root) >= 0
    ensures var latest := s.published[LastFor(s.published, root)];
      || (root in s.overlay && s.overlay[root] == latest.state)
      || exists j :: j in s.committed && 0 <= j < |s.published| && s.published[j] == latest
  {
    var k := LastFor(s.published, root);
    assert RootExact(s.overlay, s.published, s.cleared, root);
    if root !in s.overlay {
      var j :| j in s.cleared && ClearedSince(s.published, s.cleared, j, k);
      assert j in s.committed && s.published[j] == s.published[k];
    }
  }

  /** The task waits in the queue or is being written. */
  ghost predicate Waiting(s: System, i: nat) {
    || |s.popped| <= i < |s.published|
    || (i == |s.popped| - 1 && (s.worker.Running? || s.worker.Committed?))
  }

  /** If no state object is published twice for a root, then a root is readable exactly until its latest
      task clears it, so the root of every task that is queued or being written is. */
  lemma WaitingIsReadable(s: System, i: nat)
    requires Inv(s) && i < |s.published|
    requires forall j, k :: 0 <= j < k < |s.published| ==> s.published[j] != s.published[k]
    ensures var root := s.published[i].root;
      && (root in s.overlay <==> LastFor(s.published, root) !in s.cleared)
      && (Waiting(s, i) ==> root in s.overlay)
  {
    var root := s.published[i].root;
    var k := LastFor(s.published, root);
    assert RootExact(s.overlay, s.published, s.cleared, root);
    LastForIsLast(s.published, i);
    if k in s.cleared {
      assert ClearedSince(s.published, s.cleared, k, k);
    }
  }

  lemma {:induction false} LastForIsLast(log: seq<Task>, i: nat)
    requires i < |log|
    ensures LastFor(log, log[i].root) >= i
    decreases |log|
  {
    var n := |log| - 1;
    if log[n].root != log[i].root {
      LastForIsLast(log[..n], i);
    }
  }

  /** The first `n` places. */
  ghost function Places(n: nat): (r: set<int>)
    ensures |r| == n && forall i :: i in r <==> 0 <= i < n
  {
    if n == 0 then {} else Places(n - 1) + {n - 1}
  }

  /** The tasks that hold the given roots. */
  ghost function Owners(published: seq<Task>, roots: set<Root>): set<int> {
    set root | root in roots :: LastFor(published, root)
  }

  /** Different roots are held by different tasks. */
  lemma {:induction false} OwnersSize(published: seq<Task>, roots: set<Root>)
    requires forall root :: root in roots ==> LastFor(published, root) >= 0
    ensures |Owners(published, roots)| == |roots|
    decreases roots
  {
    if roots != {} {
      var root :| root in roots;
      var k, rest := LastFor(published, root), roots - {root};
      OwnersSize(published, rest);
      assert k !in Owners(published, rest);
      assert Owners(published, roots) == Owners(published, rest) + {k};
    }
  }

  /** A root of the overlay is held by a task that has not cleared. */
  lemma LatestUncleared(overlay: Overlay, published: seq<Task>, cleared: Clears)
    requires OverlayExact(overlay, published, cleared) && Timed(published, cleared)
    ensures forall root :: root in overlay ==> LastFor(published, root) >= 0 && LastFor(published, root) !in cleared
  {
    forall root | root in overlay
      ensures LastFor(published, root) >= 0 && LastFor(published, root) !in cleared
    {
      var k := LastFor(published, root);
      assert RootExact(overlay, published, cleared, root);
      if k in cleared { assert ClearedSince(published, cleared, k, k); }
    }
  }

  lemma OverlayNotLarger(overlay: Overlay, published: seq<Task>, cleared: Clears)
    requires OverlayExact(overlay, published, cleared)
    requires Timed(published, cleared)
    ensures |overlay| + |cleared| <= |published|
  {
    LatestUncleared(overlay, published, cleared);
    OwnersSize(published, overlay.Keys);
    var all := Places(|published|);
    assert cleared.Keys <= all by { assert forall j :: j in cleared ==> j in all; }
    SubsetNotLarger(Owners(published, overlay.Keys), all - cleared.Keys);
    DifferenceSize(all, cleared.Keys);
  }

  /** Memory is bounded: the overlay never holds more states than there are tasks queued, being written,
      failed or just being pushed, and never more than three. */
  lemma OverlayBounded(s: System)
    requires Inv(s)
    ensures |s.overlay| <= |s.queue.tasks| + (if s.worker.Running? || s.worker.Committed? then 1 else 0)
                           + s.failed + |BeingPushed(s)|
    ensures |s.overlay| <= STATE_SNAPSHOT_PENDING_LIMIT
  {
    OverlayNotLarger(s.overlay, s.published, s.cleared);
  }

  // ---------- Progress ----------

  /** The action is the worker's own. */
  predicate ByWorker(a: Action) {
    a.TryNext? || a.Commit? || a.ClearState? || a.Complete? || a.Fail?
  }

  /** The worker has a step to take that is not just going back to sleep. */
  ghost predicate WorkerMoves(s: System) {
    exists a :: ByWorker(a) && Enabled(s, a) && (a.TryNext? ==> Take(s.queue).1.Next?)
  }

  /** Deadlock, exactly: while a producer sleeps, the worker can go on if and only if it has not
      panicked and fewer than three tasks have failed. */
  lemma SleepersAreServedExactly(s: System, t: nat)
    requires Inv(s) && t in s.producers && s.producers[t].Sleeping?
    ensures WorkerMoves(s) <==> s.failed < STATE_SNAPSHOT_PENDING_LIMIT && !s.worker.Panicked?
  {
    assert s.holder.None?;
    match s.worker {
      case Ready => assert Enabled(s, TryNext);
      case Running(_) => assert Enabled(s, Commit);
      case Committed(_) => assert Enabled(s, ClearState);
      case Completing(_) => assert Enabled(s, Complete);
      case _ =>
    }
  }

  /** How much of the worker is left to take before a sleeper is woken, failures included. */
  function Patience(s: System): int {
    5 * (STATE_SNAPSHOT_PENDING_LIMIT - s.failed) +
    match s.worker
    case Ready => 4
    case Asleep => 4
    case Running(_) => 3
    case Committed(_) => 2
    case Completing(_) => 1
    case _ => 0
  }

  lemma PatienceFalls(s: System, a: Action, t: nat)
    requires Inv(s) && Enabled(s, a) && s.failed < STATE_SNAPSHOT_PENDING_LIMIT
    requires t in s.producers && s.producers[t].Sleeping? && Do(s, a).producers[t].Sleeping?
    ensures Patience(Do(s, a)) + (if ByWorker(a) then 1 else 0) <= Patience(s)
  {
  }

  lemma FailedGrows(s: System, a: Action)
    requires Enabled(s, a)
    ensures s.failed <= Do(s, a).failed
  {
  }

  ghost predicate SleepsThrough(states: seq<System>, i: nat, j: nat, t: nat) {
    i <= j < |states| && forall k :: i <= k <= j ==> t in states[k].producers && states[k].producers[t].Sleeping?
  }

  /** No sleep lasts: unless three tasks have failed, a producer sleeps through at most `Patience`, and
      so at most nineteen, steps of the worker, whatever fails and whatever the others do. */
  lemma {:induction false} SleepIsBounded(states: seq<System>, actions: seq<Action>, i: nat, j: nat, t: nat)
    requires Run(states, actions) && SleepsThrough(states, i, j, t) && states[j].failed < STATE_SNAPSHOT_PENDING_LIMIT
    ensures WorkerSteps(actions[i..j]) + Patience(states[j]) <= Patience(states[i]) <= 19
    decreases j
  {
    RunSafe(states, actions, i);
    if i < j {
      var s, a := states[j - 1], actions[j - 1];
      RunSafe(states, actions, j - 1);
      assert StepAt(states, actions, j - 1);
      FailedGrows(s, a);
      SleepIsBounded(states, actions, i, j - 1, t);
      PatienceFalls(s, a, t);
      WorkerStepsNext(actions, i, j);
    } else {
      assert actions[i..j] == [];
    }
  }

  /** No task will complete any more. */
  ghost predicate Stopped(s: System) {
    s.worker.Panicked? || s.failed == STATE_SNAPSHOT_PENDING_LIMIT
  }

  lemma StoppedStays(s: System, a: Action)
    requires Inv(s) && Enabled(s, a) && Stopped(s)
    ensures Stopped(Do(s, a)) && Do(s, a).completed == s.completed
    ensures s.queue.inFlight == STATE_SNAPSHOT_PENDING_LIMIT ==>
      Do(s, a).queue.inFlight == s.queue.inFlight && Do(s, a).admitted == s.admitted
  {
  }

  /** A sleeper stays outside: asleep, at its check, or refused after close. */
  ghost predicate Outside(s: System, t: nat) {
    t in s.producers && (s.producers[t].Sleeping? || s.producers[t].Trying? || s.producers[t] == Done(false))
  }

  lemma OutsideStays(s: System, a: Action, t: nat)
    requires Inv(s) && Enabled(s, a) && s.queue.inFlight == STATE_SNAPSHOT_PENDING_LIMIT && Outside(s, t)
    ensures Outside(Do(s, a), t)
  {
  }

  /** After a panic, or after three failures, slots are held for good: nothing completes any more, and
      the tasks admitted from then on only fill the slots that were free. */
  lemma {:induction false} StoppedForGood(states: seq<System>, actions: seq<Action>, i: nat, j: nat)
    requires Run(states, actions) && i <= j < |states| && Stopped(states[i])
    ensures Stopped(states[j]) && states[j].completed == states[i].completed
    ensures |states[j].admitted| <= |states[i].admitted| + STATE_SNAPSHOT_PENDING_LIMIT - states[i].queue.inFlight
    decreases j
  {
    if i < j {
      StoppedForGood(states, actions, i, j - 1);
      StoppedStep(states, actions, j - 1);
    }
    CountAt(states, actions, i);
    CountAt(states, actions, j);
  }

  lemma StoppedStep(states: seq<System>, actions: seq<Action>, k: nat)
    requires Run(states, actions) && k < |actions| && Stopped(states[k])
    ensures Stopped(states[k + 1]) && states[k + 1].completed == states[k].completed
  {
    RunSafe(states, actions, k);
    assert StepAt(states, actions, k);
    StoppedStays(states[k], actions[k]);
  }

  lemma CountAt(states: seq<System>, actions: seq<Action>, k: nat)
    requires Run(states, actions) && k < |states|
    ensures |states[k].admitted| == states[k].completed + states[k].queue.inFlight
    ensures states[k].queue.inFlight <= STATE_SNAPSHOT_PENDING_LIMIT
  {
    RunSafe(states, actions, k);
  }

  /** No sleeper is ever admitted once the worker has panicked or three tasks have failed. */
  lemma {:induction false} SleeperNeverAdmitted(states: seq<System>, actions: seq<Action>, i: nat, j: nat, t: nat)
    requires Run(states, actions) && i <= j < |states| && Stopped(states[i])
    requires t in states[i].producers && states[i].producers[t].Sleeping?
    ensures states[j].admitted == states[i].admitted && states[j].queue.inFlight == STATE_SNAPSHOT_PENDING_LIMIT
    ensures Outside(states[j], t)
    decreases j
  {
    if i < j {
      SleeperNeverAdmitted(states, actions, i, j - 1, t);
      StoppedForGood(states, actions, i, j - 1);
      OutsideStep(states, actions, j - 1, t);
    } else {
      RunSafe(states, actions, i);
    }
  }

  lemma OutsideStep(states: seq<System>, actions: seq<Action>, k: nat, t: nat)
    requires Run(states, actions) && k < |actions| && Stopped(states[k]) && Outside(states[k], t)
    requires states[k].queue.inFlight == STATE_SNAPSHOT_PENDING_LIMIT
    ensures states[k + 1].queue.inFlight == STATE_SNAPSHOT_PENDING_LIMIT
    ensures states[k + 1].admitted == states[k].admitted && Outside(states[k + 1], t)
  {
    RunSafe(states, actions, k);
    assert StepAt(states, actions, k);
    StoppedStays(states[k], actions[k]);
    OutsideStays(states[k], actions[k], t);
  }

  // ---------- Runs that show it ----------

  lemma Extend(states: seq<System>, actions: seq<Action>, a: Action)
    returns (states': seq<System>, actions': seq<Action>)
    requires Run(states, actions) && Enabled(states[|actions|], a)
    ensures Run(states', actions') && |actions'| == |actions| + 1 && states'[0] == states[0]
    ensures states'[|actions'|] == Do(states[|actions|], a)
  {
    states', actions' := states + [Do(states[|actions|], a)], actions + [a];
    forall i | 0 <= i < |actions'| ensures StepAt(states', actions', i) {
      if i < |actions| { assert StepAt(states, actions, i); }
    }
  }

  /** Undisturbed, the three steps of an admission publish the state and push the task. */
  lemma Admits(states: seq<System>, actions: seq<Action>, t: nat, task: Task)
    returns (states': seq<System>, actions': seq<Action>)
    requires Run(states, actions)
    requires var s := states[|actions|];
      s.holder.None? && t !in s.producers && Check(s.queue).Admitted? && s.worker.Ready?
    ensures Run(states', actions') && states'[0] == states[0]
    ensures var s, s' := states[|actions|], states'[|actions'|];
      && s'.queue == Push(s.queue, task) && s'.overlay == s.overlay[task.root := task.state]
      && s'.holder.None? && s'.worker.Ready? && s'.producers.Keys == s.producers.Keys + {t} && s'.failed == s.failed
  {
    states', actions' := Extend(states, actions, Arrive(t, task));
    states', actions' := Extend(states', actions', TryEnqueue(t));
    states', actions' := Extend(states', actions', PublishState(t));
    states', actions' := Extend(states', actions', PushTask(t));
  }

  lemma FillsQueue(s: System, a: Task, b: Task, c: Task) returns (states: seq<System>, actions: seq<Action>)
    requires Initial(s)
    ensures Run(states, actions) && states[0] == s
    ensures var end := states[|actions|];
      && end.queue == Queue([a, b, c], STATE_SNAPSHOT_PENDING_LIMIT, true) && end.worker.Ready?
      && end.holder.None? && 3 !in end.producers && end.failed == 0
  {
    states, actions := [s], [];
    states, actions := Admits(states, actions, 0, a);
    states, actions := Admits(states, actions, 1, b);
    states, actions := Admits(states, actions, 2, c);
  }

  /** One panic is enough: a run in which a single task panics and a producer sleeps, and so, by
      `SleeperNeverAdmitted`, is never admitted. */
  lemma OnePanicStrandsSleepers(s: System, a: Task, b: Task, c: Task, d: Task)
    returns (states: seq<System>, actions: seq<Action>)
    requires Initial(s)
    ensures Run(states, actions) && states[0] == s
    ensures var end := states[|actions|];
      end.failed == 1 && end.worker.Panicked? && 3 in end.producers && end.producers[3] == Sleeping(d)
  {
    states, actions := FillsQueue(s, a, b, c);
    states, actions := Extend(states, actions, TryNext);
    states, actions := Extend(states, actions, Arrive(3, d));
    states, actions := Extend(states, actions, TryEnqueue(3));
    states, actions := Extend(states, actions, Panic);
  }

  /** The same state object published twice: the first write clears the root while the second is queued.
      The root is then readable from the database only. */
  lemma RepeatedStateClearedEarly(s: System, task: Task) returns (states: seq<System>, actions: seq<Action>)
    requires Initial(s)
    ensures Run(states, actions) && states[0] == s
    ensures var end := states[|actions|]; end.queue.tasks == [task] && task.root !in end.overlay
  {
    states, actions := [s], [];
    states, actions := Admits(states, actions, 0, task);
    states, actions := Admits(states, actions, 1, task);
    states, actions := Extend(states, actions, TryNext);
    states, actions := Extend(states, actions, Commit);
    states, actions := Extend(states, actions, ClearState);
  }

  // ---------- Draining after close ----------

  /** What the worker still has to do once the queue is closed. */
  function Remaining(s: System): nat {
    4 * |s.queue.tasks| +
    match s.worker
    case Running(_) => 4
    case Committed(_) => 3
    case Completing(_) => 2
    case Ready => 1
    case Asleep => 1
    case _ => 0
  }

  /** Draining: after close no thread adds work, every worker step shrinks what remains, and the worker
      always has one until it leaves. */
  lemma ClosedQueueDrains(s: System, a: Action)
    requires Inv(s) && !s.queue.accepting && Enabled(s, a)
    ensures !Do(s, a).queue.accepting && Do(s, a).published == s.published
    ensures ByWorker(a) || a.Panic? ==> Remaining(Do(s, a)) < Remaining(s)
    ensures !(ByWorker(a) || a.Panic?) ==> Remaining(Do(s, a)) == Remaining(s) && Do(s, a).worker == s.worker
  {
    assert s.holder.None?;
  }

  ghost function WorkerSteps(actions: seq<Action>): nat {
    if actions == [] then 0
    else WorkerSteps(actions[..|actions| - 1]) + if ByWorker(actions[|actions| - 1]) then 1 else 0
  }

  /** From a closed state the worker takes at most `Remaining` more steps, whatever the others do. */
  lemma {:induction false} DrainIsBounded(states: seq<System>, actions: seq<Action>, i: nat, j: nat)
    requires Run(states, actions) && i <= j < |states| && !states[i].queue.accepting
    ensures !states[j].queue.accepting
    ensures WorkerSteps(actions[i..j]) + Remaining(states[j]) <= Remaining(states[i])
    decreases j
  {
    if i < j {
      DrainIsBounded(states, actions, i, j - 1);
      ClosedStep(states, actions, j - 1);
      WorkerStepsNext(actions, i, j);
    } else {
      assert actions[i..j] == [];
    }
  }

  /** Over every run, once the queue is closed no task is published or admitted any more, and no producer is
      let in. */
  lemma {:induction false} ClosedForGood(states: seq<System>, actions: seq<Action>, i: nat, j: nat)
    requires Run(states, actions) && i < j < |states| && actions[i].Close?
    ensures !states[j].queue.accepting
    ensures states[j].published == states[i].published && states[j].admitted == states[i].admitted
    decreases j
  {
    if i < j - 1 {
      ClosedForGood(states, actions, i, j - 1);
      RunSafe(states, actions, j - 1);
      assert StepAt(states, actions, j - 1);
      ClosedQueueDrains(states[j - 1], actions[j - 1]);
      ClosedAdmitsNone(states[j - 1], actions[j - 1]);
    } else {
      assert StepAt(states, actions, i);
    }
  }

  lemma ClosedAdmitsNone(s: System, a: Action)
    requires Inv(s) && !s.queue.accepting && Enabled(s, a)
    ensures Do(s, a).admitted == s.admitted
  {
    assert s.holder.None?;
  }

  lemma ClosedStep(states: seq<System>, actions: seq<Action>, k: nat)
    requires Run(states, actions) && k < |actions| && !states[k].queue.accepting
    ensures !states[k + 1].queue.accepting
    ensures Remaining(states[k + 1]) + (if ByWorker(actions[k]) then 1 else 0) <= Remaining(states[k])
  {
    RunSafe(states, actions, k);
    assert StepAt(states, actions, k);
    ClosedQueueDrains(states[k], actions[k]);
  }

  lemma WorkerStepsNext(actions: seq<Action>, i: nat, j: nat)
    requires i < j <= |actions|
    ensures WorkerSteps(actions[i..j]) == WorkerSteps(actions[i..j - 1]) + if ByWorker(actions[j - 1]) then 1 else 0
  {
    var run := actions[i..j];
    assert run[..|run| - 1] == actions[i..j - 1];
  }

  /** The latest task for the root was popped, did not clear, and is not being written: it failed. */
  ghost predicate HeldByFailed(s: System, root: Root) {
    var k := LastFor(s.published, root);
    0 <= k < |s.popped| && k !in s.cleared && !HasTask(s.worker)
  }

  /** When the worker has no step left after close, it panicked, or it left with every admitted task popped. */
  lemma StuckIsDrained(s: System)
    requires Core(s) && !s.queue.accepting && forall a :: ByWorker(a) ==> !Enabled(s, a)
    ensures !s.worker.Panicked? ==>
      && s.worker.Exited? && s.queue.tasks == [] && s.holder.None?
      && s.popped == s.admitted == s.published && s.queue.inFlight == s.failed
  {
    assert s.holder.None?;
    assert s.popped + [] == s.popped && s.admitted + [] == s.admitted;
    match s.worker {
      case Ready => assert Enabled(s, TryNext);
      case Running(_) => assert Enabled(s, Commit);
      case Committed(_) => assert Enabled(s, ClearState);
      case Completing(_) => assert Enabled(s, Complete);
      case _ =>
    }
  }

  /** When the worker has no step left after close, it panicked, or it left with every admitted task
      popped and nothing in the overlay but states of failed tasks, which shutdown writes again. */
  lemma WorkerLeavesOnlyDrained(s: System)
    requires Inv(s) && !s.queue.accepting && forall a :: ByWorker(a) ==> !Enabled(s, a)
    ensures !s.worker.Panicked? ==>
      && s.worker.Exited? && s.queue.tasks == [] && s.popped == s.admitted == s.published
      && s.queue.inFlight == s.failed && |s.overlay| <= s.failed
      && forall root :: root in s.overlay ==> HeldByFailed(s, root)
  {
    StuckIsDrained(s);
    OverlayBounded(s);
    LatestUncleared(s.overlay, s.published, s.cleared);
  }
}
