/**
 The propagate dispatcher each design owns: one queue, a few worker threads that each take the
 front task under the lock and make its RPC outside it, and a shutdown that drains the queue.
 */
module PropagateDispatchers {
  import opened Wrappers
  import Clusters

  /** A Propagate RPC to be made: the request and, as its destination, the successor. */
  type Task = Clusters.Env

  datatype Worker = Waiting | Calling(task: Task) | Exited

  /**
   `accepted` lists every queued task, `taken` those some worker has taken, `attempted` counts
   those whose RPC has been made, and `late` those queued after the stop flag was raised.
   */
  datatype Dispatch = Dispatch(
    queue: seq<Task>, stop: bool, workers: seq<Worker>,
    accepted: seq<Task>, taken: seq<Task>, attempted: multiset<Task>, late: seq<Task>)

  datatype Event =
    | Enqueue(task: Task)
    | Stop
    | Take(worker: nat)      // the worker wakes and pops the front task
    | Finish(worker: nat)    // its RPC returns, successfully or not
    | Exit(worker: nat)      // the worker sees the stop flag and an empty queue

  predicate Enabled(d: Dispatch, e: Event) {
    match e
    case Enqueue(_) => true
    case Stop => true
    case Take(w) => w < |d.workers| && d.workers[w].Waiting? && d.queue != []
    case Finish(w) => w < |d.workers| && d.workers[w].Calling?
    case Exit(w) => w < |d.workers| && d.workers[w].Waiting? && d.stop && d.queue == []
  }

  function Next(d: Dispatch, e: Event): Dispatch
    requires Enabled(d, e)
  {
    match e
    case Enqueue(t) =>
      d.(queue := d.queue + [t], accepted := d.accepted + [t], late := if d.stop then d.late + [t] else d.late)
    case Stop => d.(stop := true)
    case Take(w) =>
      d.(queue := d.queue[1..], taken := d.taken + [d.queue[0]], workers := d.workers[w := Calling(d.queue[0])])
    case Finish(w) =>
      d.(attempted := d.attempted + multiset{d.workers[w].task}, workers := d.workers[w := Waiting])
    case Exit(w) => d.(workers := d.workers[w := Exited])
  }

  function Fresh(workers: nat): Dispatch {
    Dispatch([], false, seq(workers, _ => Waiting), [], [], multiset{}, [])
  }

  ghost predicate IsRun(workers: nat, tr: seq<Dispatch>, events: seq<Event>) {
    && |tr| == |events| + 1 && tr[0] == Fresh(workers)
    && forall k :: 0 <= k < |events| ==> Enabled(tr[k], events[k]) && tr[k+1] == Next(tr[k], events[k])
  }

  function Load(w: Worker, t: Task): nat {
    if w == Calling(t) then 1 else 0
  }

  /** How many workers are making the RPC of task t. */
  function InCall(workers: seq<Worker>, t: Task): nat {
    if workers == [] then 0 else Load(workers[0], t) + InCall(workers[1..], t)
  }

  lemma {:induction false} InCallUpdate(workers: seq<Worker>, i: nat, w: Worker, t: Task)
    requires i < |workers|
    ensures InCall(workers[i := w], t) + Load(workers[i], t) == InCall(workers, t) + Load(w, t)
  {
    if i == 0 {
      assert workers[0 := w][1..] == workers[1..];
    } else {
      assert workers[i := w][1..] == workers[1..][i - 1 := w];
      InCallUpdate(workers[1..], i - 1, w, t);
    }
  }

  lemma {:induction false} NothingInCall(workers: seq<Worker>, t: Task)
    requires forall i :: 0 <= i < |workers| ==> !workers[i].Calling?
    ensures InCall(workers, t) == 0
  {
    if workers != [] { NothingInCall(workers[1..], t); }
  }

  ghost predicate SomeExited(workers: seq<Worker>) {
    exists i :: 0 <= i < |workers| && workers[i].Exited?
  }

  lemma ExitedBefore(workers: seq<Worker>, w: nat, x: Worker)
    requires w < |workers| && !x.Exited? && SomeExited(workers[w := x])
    ensures SomeExited(workers)
  {
    var i :| 0 <= i < |workers| && workers[w := x][i].Exited?;
    assert workers[i].Exited?;
  }

  /** Tasks are taken in the order they were accepted, and none is lost or made twice. */
  ghost predicate Conserved(d: Dispatch) {
    && d.taken + d.queue == d.accepted
    && (forall t :: Accounted(d, t))
    && (SomeExited(d.workers) ==> d.stop && EndsWith(d.late, d.queue))
  }

  /** Every taken task is being attempted or has been, and no other. */
  ghost predicate Accounted(d: Dispatch, t: Task) {
    multiset(d.taken)[t] == d.attempted[t] + InCall(d.workers, t)
  }

  ghost predicate EndsWith(s: seq<Task>, t: seq<Task>) {
    |t| <= |s| && s[|s| - |t|..] == t
  }

  lemma TakeConserves(d: Dispatch, w: nat)
    requires Conserved(d) && Enabled(d, Take(w))
    ensures Conserved(Next(d, Take(w)))
  {
    var d' := Next(d, Take(w));
    forall t ensures Accounted(d', t) {
      assert Accounted(d, t);
      InCallUpdate(d.workers, w, Calling(d.queue[0]), t);
    }
    assert d'.taken + d'.queue == d.taken + ([d.queue[0]] + d.queue[1..]);
    if SomeExited(d'.workers) {
      ExitedBefore(d.workers, w, Calling(d.queue[0]));
      assert d.late[|d.late| - |d.queue|..][1..] == d.late[|d.late| - |d'.queue|..];
    }
  }

  lemma EnqueueConserves(d: Dispatch, t: Task)
    requires Conserved(d)
    ensures Conserved(Next(d, Enqueue(t)))
  {
    forall x ensures Accounted(Next(d, Enqueue(t)), x) { assert Accounted(d, x); }
    assert d.taken + (d.queue + [t]) == (d.taken + d.queue) + [t];
    if SomeExited(d.workers) {
      var n, k := |d.late|, |d.queue|;
      assert (d.late + [t])[n - k..] == d.late[n - k..] + [t];
    }
  }

  lemma NextConserves(d: Dispatch, e: Event)
    requires Conserved(d) && Enabled(d, e)
    ensures Conserved(Next(d, e))
  {
    match e
    case Enqueue(t) => EnqueueConserves(d, t);
    case Stop => forall t ensures Accounted(Next(d, e), t) { assert Accounted(d, t); }
    case Take(w) => TakeConserves(d, w);
    case Finish(w) =>
      forall t ensures Accounted(Next(d, e), t) {
        assert Accounted(d, t);
        InCallUpdate(d.workers, w, Waiting, t);
      }
      if SomeExited(d.workers[w := Waiting]) { ExitedBefore(d.workers, w, Waiting); }
    case Exit(w) =>
      forall t ensures Accounted(Next(d, e), t) {
        assert Accounted(d, t);
        InCallUpdate(d.workers, w, Exited, t);
      }
  }

  lemma {:induction false} RunConserves(workers: nat, tr: seq<Dispatch>, events: seq<Event>, k: nat)
    requires IsRun(workers, tr, events) && k < |tr|
    ensures Conserved(tr[k]) && |tr[k].workers| == workers
  {
    if k == 0 {
      assert !SomeExited(tr[0].workers);
      forall t ensures Accounted(tr[0], t) { NothingInCall(tr[0].workers, t); }
    } else {
      RunConserves(workers, tr, events, k - 1);
      NextConserves(tr[k-1], events[k-1]);
    }
  }

  ghost predicate AllExited(d: Dispatch) {
    forall i :: 0 <= i < |d.workers| ==> d.workers[i].Exited?
  }

  /** The tasks queued by the events from `start` up to `end`, in order. */
  function QueuedBetween(events: seq<Event>, start: nat, end: nat): seq<Task>
    requires start <= end <= |events|
    decreases end
  {
    if start == end then []
    else QueuedBetween(events, start, end - 1) + if events[end-1].Enqueue? then [events[end-1].task] else []
  }

  /** Event j is the last exit of a worker before instant k. */
  ghost predicate LastExit(events: seq<Event>, j: nat, k: nat) {
    j < k <= |events| && events[j].Exit? && forall i :: j < i < k ==> !events[i].Exit?
  }

  lemma BusyIsNotExited(d: Dispatch, e: Event)
    requires Enabled(d, e) && (e.Take? || e.Finish?)
    ensures !AllExited(Next(d, e))
  {
    assert !Next(d, e).workers[e.worker].Exited?;
  }

  lemma ExitOrQueue(d: Dispatch, e: Event)
    requires Enabled(d, e)
    ensures AllExited(Next(d, e)) ==> e.Exit? || (AllExited(d) && (e.Enqueue? || e.Stop?))
  {
    if e.Take? || e.Finish? { BusyIsNotExited(d, e); }
  }

  lemma FreshIsNotExited(workers: nat)
    requires workers > 0
    ensures !AllExited(Fresh(workers))
  {
    assert Fresh(workers).workers[0].Waiting?;
  }

  /** Once all workers have exited, the queue holds exactly what was queued after the last exit. */
  lemma {:induction false} LeftAfterLastExit(workers: nat, tr: seq<Dispatch>, events: seq<Event>, k: nat)
    requires IsRun(workers, tr, events) && k < |tr| && workers > 0
    ensures AllExited(tr[k]) ==>
              exists j: nat :: LastExit(events, j, k) && tr[k].queue == QueuedBetween(events, j + 1, k)
  {
    if k == 0 {
      FreshIsNotExited(workers);
    } else {
      ExitOrQueue(tr[k-1], events[k-1]);
      LeftAfterLastExit(workers, tr, events, k - 1);
      if events[k-1].Exit? {
        assert LastExit(events, k - 1, k) && QueuedBetween(events, k, k) == [];
      } else if AllExited(tr[k-1]) && !events[k-1].Take? {
        var j: nat :| LastExit(events, j, k - 1) && tr[k-1].queue == QueuedBetween(events, j + 1, k - 1);
        assert LastExit(events, j, k);
      }
    }
  }

  /**
   Shutdown: once every worker has exited, what is left in the queue is exactly what was queued
   after the last worker's exit, and every other accepted task has been attempted exactly once.
   Nothing is left if nothing was queued after the stop flag was raised.
   */
  lemma ShutdownDrains(workers: nat, tr: seq<Dispatch>, events: seq<Event>, k: nat)
    requires IsRun(workers, tr, events) && k < |tr| && workers > 0 && AllExited(tr[k])
    ensures multiset(tr[k].accepted) == tr[k].attempted + multiset(tr[k].queue)
    ensures exists j: nat :: LastExit(events, j, k) && tr[k].queue == QueuedBetween(events, j + 1, k)
    ensures EndsWith(tr[k].late, tr[k].queue)
    ensures tr[k].late == [] ==> multiset(tr[k].accepted) == tr[k].attempted
  {
    RunConserves(workers, tr, events, k);
    LeftAfterLastExit(workers, tr, events, k);
    forall t ensures multiset(tr[k].taken)[t] == tr[k].attempted[t] {
      assert Accounted(tr[k], t);
      NothingInCall(tr[k].workers, t);
    }
    assert multiset(tr[k].taken) == tr[k].attempted;
    assert tr[k].workers[0].Exited?;
    assert multiset(tr[k].accepted) == multiset(tr[k].taken) + multiset(tr[k].queue);
  }

  /** Without late tasks no event of the run queued anything after a stop, and conversely. */
  lemma {:induction false} LateIff(workers: nat, tr: seq<Dispatch>, events: seq<Event>, k: nat)
    requires IsRun(workers, tr, events) && k < |tr|
    ensures tr[k].stop <==> exists i :: 0 <= i < k && events[i].Stop?
    ensures tr[k].late == [] <==> forall i, j :: 0 <= i < j < k && events[i].Stop? ==> !events[j].Enqueue?
  {
    if k > 0 {
      LateIff(workers, tr, events, k - 1);
      if tr[k-1].late == [] && tr[k].late != [] {
        var i :| 0 <= i < k - 1 && events[i].Stop?;
        assert events[k-1].Enqueue?;
      }
      if tr[k].stop && !tr[k-1].stop { assert events[k-1].Stop?; }
    }
  }

  /** The accepted tasks are exactly those the events queued, in order. */
  lemma {:induction false} AcceptedAreQueued(workers: nat, tr: seq<Dispatch>, events: seq<Event>, k: nat)
    requires IsRun(workers, tr, events) && k < |tr|
    ensures tr[k].accepted == QueuedBetween(events, 0, k)
  {
    if k > 0 { AcceptedAreQueued(workers, tr, events, k - 1); }
  }

  // ----- shutdown completes -----

  function StepsOf(w: Worker): nat {
    match w
    case Waiting => 1
    case Calling(_) => 2
    case Exited => 0
  }

  function WorkerSteps(workers: seq<Worker>): nat {
    if workers == [] then 0 else StepsOf(workers[0]) + WorkerSteps(workers[1..])
  }

  /** The steps left to a shutdown: two for a queued task or a call being made, one for a waiting worker. */
  function StepsLeft(d: Dispatch): nat {
    2 * |d.queue| + WorkerSteps(d.workers)
  }

  predicate Drains(e: Event) {
    e.Take? || e.Finish? || e.Exit?
  }

  lemma {:induction false} WorkerStepsUpdate(workers: seq<Worker>, i: nat, w: Worker)
    requires i < |workers|
    ensures WorkerSteps(workers[i := w]) + StepsOf(workers[i]) == WorkerSteps(workers) + StepsOf(w)
  {
    if i == 0 {
      assert workers[0 := w][1..] == workers[1..];
    } else {
      assert workers[i := w][1..] == workers[1..][i - 1 := w];
      WorkerStepsUpdate(workers[1..], i - 1, w);
    }
  }

  /** Every event of a worker brings the shutdown one step closer. */
  lemma DrainingCounts(d: Dispatch, e: Event)
    requires Enabled(d, e) && Drains(e)
    ensures StepsLeft(Next(d, e)) == StepsLeft(d) - 1 && Next(d, e).stop == d.stop
  {
    match e
    case Take(w) => WorkerStepsUpdate(d.workers, w, Calling(d.queue[0]));
    case Finish(w) => WorkerStepsUpdate(d.workers, w, Waiting);
    case Exit(w) => WorkerStepsUpdate(d.workers, w, Exited);
  }

  /** With the stop flag raised, a worker that has not exited can always move. */
  lemma StoppedWorkersCanMove(d: Dispatch, w: nat) returns (e: Event)
    requires d.stop && w < |d.workers| && !d.workers[w].Exited?
    ensures Enabled(d, e) && Drains(e) && e.worker == w
  {
    e := if d.workers[w].Calling? then Finish(w) else if d.queue == [] then Exit(w) else Take(w);
  }

  lemma RunGoesOn(workers: nat, tr: seq<Dispatch>, events: seq<Event>, e: Event)
    requires IsRun(workers, tr, events) && Enabled(tr[|events|], e)
    ensures IsRun(workers, tr + [Next(tr[|events|], e)], events + [e])
  {
    var tr', events' := tr + [Next(tr[|events|], e)], events + [e];
    forall k | 0 <= k < |events'| ensures Enabled(tr'[k], events'[k]) && tr'[k+1] == Next(tr'[k], events'[k]) {
      if k < |events| { assert Enabled(tr[k], events[k]) && tr[k+1] == Next(tr[k], events[k]); }
    }
  }

  /** The events after the first n are all a worker's. */
  ghost predicate DrainsFrom(events: seq<Event>, n: nat) {
    forall k :: n <= k < |events| ==> Drains(events[k])
  }

  /**
   Shutdown completes: once the stop flag is raised, the workers' own events, at most as many
   as there are steps left, bring every worker to its exit.
   */
  lemma {:induction false} ShutdownCompletes(workers: nat, tr: seq<Dispatch>, events: seq<Event>)
    returns (tr': seq<Dispatch>, events': seq<Event>)
    requires IsRun(workers, tr, events) && tr[|events|].stop
    ensures IsRun(workers, tr', events') && tr <= tr' && events <= events' && DrainsFrom(events', |events|)
    ensures AllExited(tr'[|events'|]) && |events'| - |events| <= StepsLeft(tr[|events|])
    decreases StepsLeft(tr[|events|])
  {
    var d := tr[|events|];
    if AllExited(d) {
      tr', events' := tr, events;
    } else {
      var w :| 0 <= w < |d.workers| && !d.workers[w].Exited?;
      var e := StoppedWorkersCanMove(d, w);
      DrainingCounts(d, e);
      RunGoesOn(workers, tr, events, e);
      tr', events' := ShutdownCompletes(workers, tr + [Next(d, e)], events + [e]);
      assert events'[|events|] == e;
    }
  }

  /** However the workers' events are ordered, no more of them can follow than there are steps left. */
  lemma {:induction false} ShutdownBound(workers: nat, tr: seq<Dispatch>, events: seq<Event>, n: nat)
    requires IsRun(workers, tr, events) && n <= |events| && DrainsFrom(events, n)
    ensures |events| - n + StepsLeft(tr[|events|]) == StepsLeft(tr[n])
    decreases |events|
  {
    if n < |events| {
      var m := |events| - 1;
      ShutdownBound(workers, tr[..m + 1], events[..m], n);
      DrainingCounts(tr[m], events[m]);
    }
  }

  class PropagateDispatcher {
    var queue: seq<Task>
    var stop: bool
    var workers: seq<Worker>
    ghost var accepted: seq<Task>
    ghost var taken: seq<Task>
    ghost var attempted: multiset<Task>
    ghost var late: seq<Task>

    ghost function State(): Dispatch
      reads this
    {
      Dispatch(queue, stop, workers, accepted, taken, attempted, late)
    }

    /** At most eight workers; four when the processor count is unknown. */
    constructor (processors: nat)
      ensures State() == Fresh(if processors == 0 then 4 else if processors < 8 then processors else 8)
      ensures queue == [] && !stop && forall w :: 0 <= w < |workers| ==> workers[w] == Waiting
      ensures |workers| == if processors == 0 then 4 else if processors < 8 then processors else 8
    {
      var count := if processors == 0 then 4 else processors;
      count := if count < 8 then count else 8;
      queue, stop, workers := [], false, seq(count, _ => Waiting);
      accepted, taken, attempted, late := [], [], multiset{}, [];
    }

    /** A task without a successor stub is skipped; the stop flag is not consulted. */
    method EnqueueTask(successor: Option<nat>, task: Task)
      modifies this
      ensures State() == if successor.Some? then Next(old(State()), Enqueue(task)) else old(State())
      ensures queue == (if successor.Some? then old(queue) + [task] else old(queue))
      ensures stop == old(stop) && workers == old(workers)
    {
      if successor.None? { return; }
      queue := queue + [task];
      accepted, late := accepted + [task], if stop then late + [task] else late;
    }

    method RaiseStop()
      modifies this
      ensures State() == Next(old(State()), Stop)
      ensures stop && queue == old(queue) && workers == old(workers)
    {
      stop := true;
    }

    /** One pass of a waiting worker that holds the lock: exit, take the front task, or keep waiting. */
    method Wake(w: nat) returns (task: Option<Task>)
      requires w < |workers| && workers[w].Waiting?
      modifies this
      ensures task.Some? <==> old(queue) != []
      ensures task.Some? ==> task.value == old(queue)[0] && State() == Next(old(State()), Take(w))
      ensures task.None? ==> State() == if old(stop) then Next(old(State()), Exit(w)) else old(State())
      ensures task.Some? ==> queue == old(queue)[1..] && workers == old(workers)[w := Calling(task.value)]
      ensures task.None? ==> queue == [] && workers == if old(stop) then old(workers)[w := Exited] else old(workers)
    {
      if !stop && queue == [] { return None; }
      if stop && queue == [] {
        workers := workers[w := Exited];
        return None;
      }
      var front := queue[0];
      queue := queue[1..];
      workers := workers[w := Calling(front)];
      taken := taken + [front];
      return Some(front);
    }

    /** The RPC of the worker's task has returned; a failure is only logged. */
    method Returned(w: nat)
      requires w < |workers| && workers[w].Calling?
      modifies this
      ensures State() == Next(old(State()), Finish(w))
      ensures queue == old(queue) && workers == old(workers)[w := Waiting]
      ensures attempted == old(attempted) + multiset{old(workers)[w].task}
    {
      attempted := attempted + multiset{workers[w].task};
      workers := workers[w := Waiting];
    }
  }
}
