/**
 The promise bridge (runtime/src/promise/bridge.rs) and its resolution queue
 (runtime/src/promise/queue.rs). Tasks on many threads settle promises by pushing to a shared
 queue that the JS thread drains. Each effect below is one atomic action of the program on the
 shared state; the protocol interleaves the effects of any number of tasks and drains.
 */
module Bridge {
  import opened Prelude

  type PromiseId = nat
  type Handle = nat

  datatype Settlement = Resolve(value: string) | Reject(exception: string)

  datatype Resolution = Resolution(handle: Handle, settlement: Settlement)

  // ---------- The shared state and its atomic effects ----------

  datatype Shared = Shared(
    promiseCount: nat,
    pending: map<PromiseId, Handle>,
    queue: seq<Resolution>,
    totalEnqueued: nat,
    totalDrained: nat)

  const NOTHING_SHARED := Shared(0, map[], [], 0, 0)

  datatype Effect =
    | CountPromise
    | InsertPending(id: PromiseId, handle: Handle)
    | PushBack(resolution: Resolution)
    | CountEnqueued
    | RemovePending(id: PromiseId)
    | TakeAll
    | CountDrained(n: nat)

  function Do(s: Shared, e: Effect): Shared {
    match e
    case CountPromise => s.(promiseCount := s.promiseCount + 1)
    case InsertPending(id, handle) => s.(pending := s.pending[id := handle])
    case PushBack(r) => s.(queue := s.queue + [r])
    case CountEnqueued => s.(totalEnqueued := s.totalEnqueued + 1)
    case RemovePending(id) => s.(pending := s.pending - {id})
    case TakeAll => s.(queue := [])
    case CountDrained(n) => s.(totalDrained := s.totalDrained + n)
  }

  class ResolutionQueue {
    var queue: seq<Resolution>
    var totalEnqueued: nat
    var totalDrained: nat

    constructor ()
      ensures queue == [] && totalEnqueued == 0 && totalDrained == 0
    {
      queue, totalEnqueued, totalDrained := [], 0, 0;
    }

    method Push(r: Resolution)
      modifies this
      ensures queue == old(queue) + [r]
      ensures totalEnqueued == old(totalEnqueued) + 1 && totalDrained == old(totalDrained)
    {
      queue := queue + [r];
      totalEnqueued := totalEnqueued + 1;
    }

    /** Takes everything, oldest first; an empty queue is left alone. */
    method Drain() returns (drained: seq<Resolution>)
      modifies this
      ensures drained == old(queue) && queue == []
      ensures totalDrained == old(totalDrained) + |drained| && totalEnqueued == old(totalEnqueued)
    {
      var count := |queue|;
      if count == 0 {
        return [];
      }
      drained := queue;
      queue := [];
      totalDrained := totalDrained + count;
    }
  }

  class PromiseBridge {
    const resolutionQueue: ResolutionQueue
    var pending: map<PromiseId, Handle>
    var promiseCount: nat

    constructor (resolutionQueue: ResolutionQueue)
      ensures this.resolutionQueue == resolutionQueue && pending == map[] && promiseCount == 0
    {
      this.resolutionQueue := resolutionQueue;
      pending, promiseCount := map[], 0;
    }

    function View(): Shared
      reads this, resolutionQueue
    {
      Shared(promiseCount, pending, resolutionQueue.queue,
             resolutionQueue.totalEnqueued, resolutionQueue.totalDrained)
    }

    /** The caller's side of starting a task: count the promise, then make it pending. */
    method SpawnTask(id: PromiseId, handle: Handle)
      modifies this
      ensures View() == Do(Do(old(View()), CountPromise), InsertPending(id, handle))
    {
      promiseCount := promiseCount + 1;
      pending := pending[id := handle];
    }

    /**
     The task's side once its future is done: a value resolves the promise and an exception
     rejects it. Push, count, then stop being pending.
     */
    method FinishTask(id: PromiseId, handle: Handle, outcome: Result<string, string>)
      modifies this, resolutionQueue
      ensures outcome.Success? ==> View() == Do(Do(Do(old(View()),
        PushBack(Resolution(handle, Resolve(outcome.value)))), CountEnqueued), RemovePending(id))
      ensures outcome.Failure? ==> View() == Do(Do(Do(old(View()),
        PushBack(Resolution(handle, Reject(outcome.error)))), CountEnqueued), RemovePending(id))
    {
      match outcome {
        case Success(value) => resolutionQueue.Push(Resolution(handle, Resolve(value)));
        case Failure(exception) => resolutionQueue.Push(Resolution(handle, Reject(exception)));
      }
      pending := pending - {id};
    }

    method DrainResolutions() returns (drained: seq<Resolution>)
      modifies resolutionQueue
      ensures drained == old(View()).queue
      ensures View() == Do(Do(old(View()), TakeAll), CountDrained(|drained|))
    {
      drained := resolutionQueue.Drain();
    }
  }

  // ---------- The protocol ----------

  /** How far a task has come: each phase ends with one atomic effect. */
  datatype Phase =
    | Counted
    | Inserted
    | Finished(settlement: Settlement)
    | Pushed(settlement: Settlement)
    | Enqueued(settlement: Settlement)
    | Removed(settlement: Settlement)

  datatype Task = Task(handle: Handle, phase: Phase)

  /**
   `taken` is the batch the draining thread holds, still under the queue lock, before it is
   counted. `batches` and `pushed` are history: what drains have returned, and the promises in
   the order of their pushes.
   */
  datatype State = State(
    shared: Shared,
    tasks: map<PromiseId, Task>,
    taken: Option<seq<Resolution>>,
    batches: seq<seq<Resolution>>,
    pushed: seq<PromiseId>)

  const INITIAL := State(NOTHING_SHARED, map[], None, [], [])

  datatype Action =
    | Create(id: PromiseId, handle: Handle)
    | Insert(id: PromiseId)
    | Finish(id: PromiseId, settlement: Settlement)
    | Push(id: PromiseId)
    | CountPush(id: PromiseId)
    | Remove(id: PromiseId)
    | DrainNothing
    | DrainTake
    | DrainCount

  /** Identifiers are fresh, tasks take their steps in order, and the queue lock excludes. */
  predicate Enabled(s: State, a: Action) {
    match a
    case Create(id, _) => id !in s.tasks
    case Insert(id) => id in s.tasks && s.tasks[id].phase.Counted?
    case Finish(id, _) => id in s.tasks && s.tasks[id].phase.Inserted?
    case Push(id) => id in s.tasks && s.tasks[id].phase.Finished? && s.taken.None?
    case CountPush(id) => id in s.tasks && s.tasks[id].phase.Pushed?
    case Remove(id) => id in s.tasks && s.tasks[id].phase.Enqueued?
    case DrainNothing => s.taken.None? && s.shared.queue == []
    case DrainTake => s.taken.None? && s.shared.queue != []
    case DrainCount => s.taken.Some?
  }

  function Become(s: State, id: PromiseId, phase: Phase, e: Effect): State
    requires id in s.tasks
  {
    s.(shared := Do(s.shared, e), tasks := s.tasks[id := s.tasks[id].(phase := phase)])
  }

  /** The state after an action; one that is not enabled does nothing. */
  function Next(s: State, a: Action): State {
    if !Enabled(s, a) then s
    else
      match a
      case Create(id, handle) =>
        s.(shared := Do(s.shared, CountPromise), tasks := s.tasks[id := Task(handle, Counted)])
      case Insert(id) => Become(s, id, Inserted, InsertPending(id, s.tasks[id].handle))
      case Finish(id, settlement) =>
        s.(tasks := s.tasks[id := s.tasks[id].(phase := Finished(settlement))])
      case Push(id) =>
        var st := s.tasks[id].phase.settlement;
        Become(s, id, Pushed(st), PushBack(Resolution(s.tasks[id].handle, st))).(pushed := s.pushed + [id])
      case CountPush(id) => Become(s, id, Enqueued(s.tasks[id].phase.settlement), CountEnqueued)
      case Remove(id) => Become(s, id, Removed(s.tasks[id].phase.settlement), RemovePending(id))
      case DrainNothing => s.(batches := s.batches + [[]])
      case DrainTake => s.(shared := Do(s.shared, TakeAll), taken := Some(s.shared.queue))
      case DrainCount =>
        s.(shared := Do(s.shared, CountDrained(|s.taken.value|)), taken := None, batches := s.batches + [s.taken.value])
  }

  /** The state after a run of actions, in any interleaving. */
  function After(actions: seq<Action>): State {
    if |actions| == 0 then INITIAL else Next(After(actions[..|actions| - 1]), actions[|actions| - 1])
  }

  // ---------- What every interleaving keeps ----------

  predicate IsSettled(p: Phase) {
    p.Pushed? || p.Enqueued? || p.Removed?
  }

  predicate IsPending(p: Phase) {
    p.Inserted? || p.Finished? || p.Pushed? || p.Enqueued?
  }

  function Concat(batches: seq<seq<Resolution>>): seq<Resolution> {
    if |batches| == 0 then [] else Concat(batches[..|batches| - 1]) + batches[|batches| - 1]
  }

  function InHand(s: State): seq<Resolution> {
    if s.taken.Some? then s.taken.value else []
  }

  /** Everything ever pushed, in order: drained, held by the draining thread, or still queued. */
  function Flow(s: State): seq<Resolution> {
    Concat(s.batches) + InHand(s) + s.shared.queue
  }

  /** Tasks between their push and their count. */
  function Uncounted(s: State): set<PromiseId> {
    set id | id in s.tasks && s.tasks[id].phase.Pushed?
  }

  /** What a settled task's resolution is: its own handle and its own settlement. */
  ghost predicate Carries(s: State, id: PromiseId, r: Resolution) {
    id in s.tasks && IsSettled(s.tasks[id].phase) && r == Resolution(s.tasks[id].handle, s.tasks[id].phase.settlement)
  }

  ghost predicate PushedOnce(s: State) {
    && NoDuplicates(s.pushed)
    && (forall id :: id in s.pushed <==> id in s.tasks && IsSettled(s.tasks[id].phase))
  }

  ghost predicate FlowIsPushed(s: State) {
    && |Flow(s)| == |s.pushed|
    && (forall i :: 0 <= i < |s.pushed| ==> Carries(s, s.pushed[i], Flow(s)[i]))
  }

  ghost predicate CountersAreExact(s: State) {
    && s.shared.promiseCount == |s.tasks|
    && s.shared.totalEnqueued + |Uncounted(s)| == |s.pushed|
    && s.shared.totalDrained == |Concat(s.batches)|
  }

  ghost predicate PendingIsExact(s: State) {
    forall id :: (id in s.shared.pending <==> id in s.tasks && IsPending(s.tasks[id].phase))
              && (id in s.shared.pending ==> s.shared.pending[id] == s.tasks[id].handle)
  }

  ghost predicate Inv(s: State) {
    PushedOnce(s) && FlowIsPushed(s) && CountersAreExact(s) && PendingIsExact(s)
  }

  lemma ConcatSnoc(batches: seq<seq<Resolution>>, b: seq<Resolution>)
    ensures Concat(batches + [b]) == Concat(batches) + b
  {
    assert (batches + [b])[..|batches|] == batches;
  }

  lemma NextFlow(s: State, a: Action)
    requires Enabled(s, a)
    ensures Flow(Next(s, a)) == Flow(s) +
      if a.Push? then [Resolution(s.tasks[a.id].handle, s.tasks[a.id].phase.settlement)] else []
  {
    if a.DrainNothing? {
      ConcatSnoc(s.batches, []);
    } else if a.DrainCount? {
      ConcatSnoc(s.batches, s.taken.value);
    }
  }

  lemma NextPushedOnce(s: State, a: Action)
    requires PushedOnce(s) && Enabled(s, a)
    ensures PushedOnce(Next(s, a))
  {
  }

  /** What a settled task carries does not change any more. */
  lemma StillCarries(s: State, a: Action, id: PromiseId, r: Resolution)
    requires Carries(s, id, r)
    ensures Carries(Next(s, a), id, r)
  {
  }

  lemma NextFlowIsPushed(s: State, a: Action)
    requires FlowIsPushed(s) && Enabled(s, a)
    ensures FlowIsPushed(Next(s, a))
  {
    NextFlow(s, a);
    var s' := Next(s, a);
    forall i | 0 <= i < |s.pushed| ensures Carries(s', s.pushed[i], Flow(s)[i]) {
      StillCarries(s, a, s.pushed[i], Flow(s)[i]);
    }
  }

  lemma NextUncounted(s: State, a: Action)
    requires Enabled(s, a)
    ensures |Uncounted(Next(s, a))| == |Uncounted(s)| + (if a.Push? then 1 else if a.CountPush? then -1 else 0)
  {
    var s' := Next(s, a);
    if a.Push? {
      assert a.id !in Uncounted(s) && Uncounted(s') == Uncounted(s) + {a.id};
    } else if a.CountPush? {
      assert a.id in Uncounted(s) && Uncounted(s') == Uncounted(s) - {a.id};
    } else {
      assert Uncounted(s') == Uncounted(s);
    }
  }

  lemma NextDrained(s: State, a: Action)
    requires Enabled(s, a)
    ensures |Concat(Next(s, a).batches)| == |Concat(s.batches)| + if a.DrainCount? then |s.taken.value| else 0
  {
    if a.DrainNothing? {
      ConcatSnoc(s.batches, []);
    } else if a.DrainCount? {
      ConcatSnoc(s.batches, s.taken.value);
    }
  }

  lemma NextTasks(s: State, a: Action)
    requires Enabled(s, a)
    ensures |Next(s, a).tasks| == |s.tasks| + if a.Create? then 1 else 0
  {
    var s' := Next(s, a);
    if a.Create? {
      assert s'.tasks.Keys == s.tasks.Keys + {a.id};
    } else {
      assert s'.tasks.Keys == s.tasks.Keys;
    }
  }

  lemma NextCounters(s: State, a: Action)
    requires CountersAreExact(s) && Enabled(s, a)
    ensures CountersAreExact(Next(s, a))
  {
    NextUncounted(s, a);
    NextDrained(s, a);
    NextTasks(s, a);
  }

  lemma NextPending(s: State, a: Action)
    requires PendingIsExact(s) && Enabled(s, a)
    ensures PendingIsExact(Next(s, a))
  {
  }

  /** Every reachable state, under every interleaving, keeps the books exactly. */
  lemma {:induction false} AlwaysInv(actions: seq<Action>)
    ensures Inv(After(actions))
  {
    if |actions| > 0 {
      var s, a := After(actions[..|actions| - 1]), actions[|actions| - 1];
      AlwaysInv(actions[..|actions| - 1]);
      if Enabled(s, a) {
        NextPushedOnce(s, a);
        NextFlowIsPushed(s, a);
        NextCounters(s, a);
        NextPending(s, a);
      }
    }
  }

  // ---------- What that means for promises ----------

  /** How often a promise's resolution has been pushed. */
  function TimesPushed(s: State, id: PromiseId): nat {
    multiset(s.pushed)[id]
  }

  lemma OccursOnce<T>(s: seq<T>, x: T)
    requires NoDuplicates(s)
    ensures multiset(s)[x] == if x in s then 1 else 0
  {
    if x in s {
      var i :| 0 <= i < |s| && s[i] == x;
      assert s == s[..i] + [x] + s[i + 1..];
      assert x !in s[..i] && x !in s[i + 1..];
    }
  }

  /**
   Delivery is exactly once, and in push order. At any moment what drains have returned, then
   what the draining thread holds, then the queue, is the row of pushed promises; each created
   promise is in it exactly once with its own handle and settlement if its task has pushed,
   and not at all before.
   */
  lemma DeliveredExactlyOnceInOrder(actions: seq<Action>)
    ensures var s := After(actions);
      && |Concat(s.batches) + InHand(s) + s.shared.queue| == |s.pushed|
      && (forall i :: 0 <= i < |s.pushed| ==>
            Carries(s, s.pushed[i], (Concat(s.batches) + InHand(s) + s.shared.queue)[i]))
      && (forall id :: id in s.tasks ==> TimesPushed(s, id) == if IsSettled(s.tasks[id].phase) then 1 else 0)
  {
    AlwaysInv(actions);
    var s := After(actions);
    forall id | id in s.tasks
      ensures TimesPushed(s, id) == if IsSettled(s.tasks[id].phase) then 1 else 0
    {
      OccursOnce(s.pushed, id);
    }
  }

  /** The two counters differ by what is queued, in hand, and pushed but not yet counted. */
  lemma CountersBalance(actions: seq<Action>)
    ensures var s := After(actions);
      s.shared.totalDrained + |InHand(s)| + |s.shared.queue| == s.shared.totalEnqueued + |Uncounted(s)|
    ensures var s := After(actions); s.shared.promiseCount == |s.tasks|
  {
    AlwaysInv(actions);
  }

  /** A promise that is no longer pending was never made so, or its resolution is in the flow. */
  lemma MissingFromPendingIsSettled(actions: seq<Action>, id: PromiseId)
    requires id in After(actions).tasks && id !in After(actions).shared.pending
    ensures var s := After(actions);
      s.tasks[id].phase.Counted?
      || exists i :: 0 <= i < |s.pushed| && i < |Flow(s)| && s.pushed[i] == id && Carries(s, id, Flow(s)[i])
  {
    AlwaysInv(actions);
  }

  /** Once nothing is pending, queued or in hand, every promise made pending has been drained, once. */
  lemma QuietMeansAllDelivered(actions: seq<Action>, id: PromiseId)
    requires var s := After(actions);
      s.shared.pending == map[] && s.shared.queue == [] && s.taken.None?
    requires id in After(actions).tasks && !After(actions).tasks[id].phase.Counted?
    ensures var s := After(actions); var drained := Concat(s.batches);
      && |drained| == |s.pushed|
      && (exists i :: 0 <= i < |drained| && s.pushed[i] == id && Carries(s, id, drained[i]))
      && TimesPushed(s, id) == 1
  {
    AlwaysInv(actions);
    var s := After(actions);
    assert Flow(s) == Concat(s.batches);
    MissingFromPendingIsSettled(actions, id);
    DeliveredExactlyOnceInOrder(actions);
  }

  /** If no two promises share a handle, no handle is ever settled twice. */
  lemma HandlesSettleOnce(actions: seq<Action>, i: nat, j: nat)
    requires var s := After(actions);
      forall a, b :: a in s.tasks && b in s.tasks && s.tasks[a].handle == s.tasks[b].handle ==> a == b
    requires i < j < |Flow(After(actions))|
    ensures Flow(After(actions))[i].handle != Flow(After(actions))[j].handle
  {
    AlwaysInv(actions);
    var s := After(actions);
    assert Carries(s, s.pushed[i], Flow(s)[i]) && Carries(s, s.pushed[j], Flow(s)[j]);
  }

  // ---------- Delivery does happen ----------

  /** Some action of a task: its next one, or finishing the drain that holds the lock it waits for. */
  lemma TaskIsNeverStuck(s: State, id: PromiseId, settlement: Settlement)
    requires id in s.tasks && !s.tasks[id].phase.Removed?
    ensures Enabled(s, DrainCount) || (exists a :: Enabled(s, a) && IsStepOf(a, id) && Progress(s, a, id))
  {
    var a := match s.tasks[id].phase
      case Counted => Insert(id)
      case Inserted => Finish(id, settlement)
      case Finished(_) => Push(id)
      case Pushed(_) => CountPush(id)
      case _ => Remove(id);
    assert IsStepOf(a, id) && (Enabled(s, a) ==> Progress(s, a, id));
  }

  predicate IsStepOf(a: Action, id: PromiseId) {
    match a
    case Insert(i) => i == id
    case Finish(i, _) => i == id
    case Push(i) => i == id
    case CountPush(i) => i == id
    case Remove(i) => i == id
    case _ => false
  }

  /** How many steps a task has before it. */
  function StepsLeft(p: Phase): nat {
    match p
    case Counted => 5
    case Inserted => 4
    case Finished(_) => 3
    case Pushed(_) => 2
    case Enqueued(_) => 1
    case Removed(_) => 0
  }

  ghost predicate Progress(s: State, a: Action, id: PromiseId)
    requires id in s.tasks
  {
    id in Next(s, a).tasks && StepsLeft(Next(s, a).tasks[id].phase) + 1 == StepsLeft(s.tasks[id].phase)
  }

  lemma TwoMore(actions: seq<Action>, a: Action, b: Action)
    ensures After(actions + [a, b]) == Next(Next(After(actions), a), b)
  {
    assert (actions + [a, b])[..|actions| + 1] == actions + [a] && (actions + [a])[..|actions|] == actions;
  }

  /** The queue is free, and the task, the queue, the count and the batches are these. */
  ghost predicate Stands(s: State, id: PromiseId, t: Task, queue: seq<Resolution>, enqueued: nat, batches: seq<seq<Resolution>>) {
    && s.taken.None? && id in s.tasks && s.tasks[id] == t
    && s.shared.queue == queue && s.shared.totalEnqueued == enqueued && s.batches == batches
  }

  lemma TaskStarts(s: State, id: PromiseId, handle: Handle)
    requires id !in s.tasks && s.taken.None?
    ensures Stands(Next(Next(s, Create(id, handle)), Insert(id)), id, Task(handle, Inserted),
                   s.shared.queue, s.shared.totalEnqueued, s.batches)
  {
  }

  lemma TaskPushes(s: State, id: PromiseId, handle: Handle, settlement: Settlement, q: seq<Resolution>, n: nat, bs: seq<seq<Resolution>>)
    requires Stands(s, id, Task(handle, Inserted), q, n, bs)
    ensures Stands(Next(Next(s, Finish(id, settlement)), Push(id)), id, Task(handle, Pushed(settlement)),
                   q + [Resolution(handle, settlement)], n, bs)
  {
  }

  lemma TaskEnds(s: State, id: PromiseId, handle: Handle, settlement: Settlement, q: seq<Resolution>, n: nat, bs: seq<seq<Resolution>>)
    requires Stands(s, id, Task(handle, Pushed(settlement)), q, n, bs)
    ensures Stands(Next(Next(s, CountPush(id)), Remove(id)), id, Task(handle, Removed(settlement)), q, n + 1, bs)
  {
  }

  lemma QueueDrains(s: State, id: PromiseId, t: Task, q: seq<Resolution>, n: nat, bs: seq<seq<Resolution>>)
    requires Stands(s, id, t, q, n, bs) && q != []
    ensures Stands(Next(Next(s, DrainTake), DrainCount), id, t, [], n, bs + [q])
  {
  }

  /**
   A task that runs from start to end while nobody holds the queue, and the drain after it:
   the batch ends with its settlement, after all that was queued before.
   */
  lemma UndisturbedTaskDelivers(actions: seq<Action>, id: PromiseId, handle: Handle, settlement: Settlement)
    requires id !in After(actions).tasks && After(actions).taken.None?
    ensures var s := After(actions);
      Stands(After(actions + [Create(id, handle), Insert(id)] + [Finish(id, settlement), Push(id)]
                   + [CountPush(id), Remove(id)] + [DrainTake, DrainCount]),
             id, Task(handle, Removed(settlement)), [], s.shared.totalEnqueued + 1,
             s.batches + [s.shared.queue + [Resolution(handle, settlement)]])
  {
    var s := After(actions);
    var q, n, bs := s.shared.queue, s.shared.totalEnqueued, s.batches;
    var a1 := actions + [Create(id, handle), Insert(id)];
    var a2 := a1 + [Finish(id, settlement), Push(id)];
    var a3 := a2 + [CountPush(id), Remove(id)];
    TwoMore(actions, Create(id, handle), Insert(id));
    TaskStarts(s, id, handle);
    TwoMore(a1, Finish(id, settlement), Push(id));
    TaskPushes(After(a1), id, handle, settlement, q, n, bs);
    TwoMore(a2, CountPush(id), Remove(id));
    TaskEnds(After(a2), id, handle, settlement, q + [Resolution(handle, settlement)], n, bs);
    TwoMore(a3, DrainTake, DrainCount);
    QueueDrains(After(a3), id, Task(handle, Removed(settlement)), q + [Resolution(handle, settlement)], n + 1, bs);
  }

  /** The history of a state is a start of the history of another. */
  ghost predicate HistoryWithin(s: State, s': State) {
    s.batches <= s'.batches && s.pushed <= s'.pushed && Flow(s) <= Flow(s')
  }

  lemma NextHistory(s: State, a: Action)
    ensures HistoryWithin(s, Next(s, a))
  {
    if Enabled(s, a) {
      NextFlow(s, a);
    }
  }

  lemma AfterSnoc(actions: seq<Action>, more: seq<Action>)
    requires |more| > 0
    ensures After(actions + more) == Next(After(actions + more[..|more| - 1]), more[|more| - 1])
  {
    assert (actions + more)[..|actions + more| - 1] == actions + more[..|more| - 1];
  }

  lemma HistoryWithinTransitive(a: State, b: State, c: State)
    requires HistoryWithin(a, b) && HistoryWithin(b, c)
    ensures HistoryWithin(a, c)
  {
  }

  /** Nothing delivered is ever taken back or reordered: history only grows. */
  lemma {:induction false} HistoryGrows(actions: seq<Action>, more: seq<Action>)
    ensures HistoryWithin(After(actions), After(actions + more))
  {
    if |more| == 0 {
      assert actions + more == actions;
    } else {
      var n := |more| - 1;
      var s := After(actions + more[..n]);
      HistoryGrows(actions, more[..n]);
      AfterSnoc(actions, more);
      NextHistory(s, more[n]);
      HistoryWithinTransitive(After(actions), s, Next(s, more[n]));
    }
  }
}
