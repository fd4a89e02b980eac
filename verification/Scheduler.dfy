/** The task scheduler: a queue of ready tasks over the task graph, and what every run of it keeps.

    The order in which ready tasks enter the queue is the hash map's, hence arbitrary. */
module Scheduler {
  import opened Collections
  import opened Paths
  import opened Tasks
  import opened Wrappers

  datatype Sched = Sched(nodes: Nodes, queue: seq<TaskId>)

  // ---------------------------------------------------------------- operations on values

  /** The queue is extended by the ready tasks it lacks, each once, in some order. */
  ghost predicate Refreshed(s: Sched, s': Sched) {
    && s'.nodes == s.nodes
    && s.queue <= s'.queue
    && Enumerates(s'.queue[|s.queue|..], Ready(s.nodes) - ToSet(s.queue))
  }

  /** Queue entries are discarded until one is Pending; that one is set Running. */
  function Popped(nodes: Nodes, queue: seq<TaskId>): (Sched, Option<TaskNode>) {
    if queue == [] then (Sched(nodes, []), None)
    else if queue[0] in nodes && nodes[queue[0]].state == Pending then
      var nodes' := WithState(nodes, queue[0], Running);
      (Sched(nodes', queue[1..]), Some(nodes'[queue[0]]))
    else Popped(nodes, queue[1..])
  }

  ghost predicate NextReadyStep(s: Sched, s': Sched, r: Option<TaskNode>) {
    exists mid :: Refreshed(s, mid) && (s', r) == Popped(mid.nodes, mid.queue)
  }

  function Marked(s: Sched, t: TaskId, state: TaskState): Sched {
    Sched(WithState(s.nodes, t, state), Without(s.queue, t))
  }

  // ---------------------------------------------------------------- the scheduler

  class TaskScheduler {
    const graph: TaskGraph
    var queue: seq<TaskId>

    ghost function State(): Sched
      reads this, graph
    {
      Sched(graph.nodes, queue)
    }

    ghost predicate Valid()
      reads this, graph
    {
      graph.Valid()
    }

    constructor (graph: TaskGraph)
      requires graph.Valid()
      ensures Valid() && this.graph == graph
      ensures Refreshed(Sched(graph.nodes, []), State())
    {
      this.graph := graph;
      queue := [];
      new;
      RefreshQueue();
    }

    method RefreshQueue()
      requires Valid()
      modifies this
      ensures Valid()
      ensures Refreshed(old(State()), State())
    {
      var ready := graph.ReadyTasks();
      ghost var before := queue;
      ghost var added: seq<TaskId> := [];
      for i := 0 to |ready|
        invariant queue == before + added
        invariant Enumerates(added, ToSet(ready[..i]) - ToSet(before))
      {
        var t := ready[i];
        assert ToSet(ready[..i + 1]) == ToSet(ready[..i]) + {t};
        if t !in queue {
          EnumeratesAppend(added, ToSet(ready[..i]) - ToSet(before), t);
          assert ToSet(ready[..i]) - ToSet(before) + {t} == ToSet(ready[..i + 1]) - ToSet(before);
          queue := queue + [t];
          added := added + [t];
        } else {
          assert t in before || t in added;
          assert ToSet(ready[..i]) - ToSet(before) == ToSet(ready[..i + 1]) - ToSet(before);
        }
      }
      assert ready[..|ready|] == ready;
      assert ToSet(ready) == Ready(graph.nodes);
      assert queue[|before|..] == added;
    }

    method NextReady() returns (r: Option<TaskNode>)
      requires Valid()
      modifies this, graph
      ensures Valid()
      ensures NextReadyStep(old(State()), State(), r)
    {
      RefreshQueue();
      ghost var mid := State();
      while queue != []
        invariant Valid()
        invariant graph.nodes == mid.nodes
        invariant Popped(graph.nodes, queue) == Popped(mid.nodes, mid.queue)
        decreases |queue|
      {
        var taskId := queue[0];
        queue := queue[1..];
        if taskId in graph.nodes && graph.nodes[taskId].state == Pending {
          graph.SetState(taskId, Running);
          return Some(graph.nodes[taskId]);
        }
      }
      r := None;
    }

    method MarkCompleted(taskId: TaskId)
      requires Valid()
      modifies this, graph
      ensures Valid()
      ensures Refreshed(Marked(old(State()), taskId, Completed), State())
    {
      graph.SetState(taskId, Completed);
      queue := Without(queue, taskId);
      RefreshQueue();
    }

    method MarkFailed(taskId: TaskId)
      requires Valid()
      modifies this, graph
      ensures Valid()
      ensures State() == Marked(old(State()), taskId, Failed)
    {
      graph.SetState(taskId, Failed);
      queue := Without(queue, taskId);
    }

    method MarkBlocked(taskId: TaskId)
      requires Valid()
      modifies this, graph
      ensures Valid()
      ensures State() == Marked(old(State()), taskId, Blocked)
    {
      graph.SetState(taskId, Blocked);
      queue := Without(queue, taskId);
    }
  }

  // ---------------------------------------------------------------- runs

  datatype Event =
    | Dispatch(result: Option<TaskNode>)
    | Complete(t: TaskId)
    | Fail(t: TaskId)
    | Block(t: TaskId)

  /** Only running tasks are marked, and nothing else touches the graph. */
  ghost predicate Next(s: Sched, e: Event, s': Sched) {
    match e
    case Dispatch(r) => NextReadyStep(s, s', r)
    case Complete(t) => IsRunning(s, t) && Refreshed(Marked(s, t, Completed), s')
    case Fail(t) => IsRunning(s, t) && s' == Marked(s, t, Failed)
    case Block(t) => IsRunning(s, t) && s' == Marked(s, t, Blocked)
  }

  predicate IsRunning(s: Sched, t: TaskId) {
    t in s.nodes && s.nodes[t].state == Running
  }

  ghost predicate Run(nodes: Nodes, states: seq<Sched>, events: seq<Event>) {
    && |states| == |events| + 1
    && (forall t :: t in nodes ==> nodes[t].id == t)
    && Refreshed(Sched(nodes, []), states[0])
    && forall i :: 0 <= i < |events| ==> Next(states[i], events[i], states[i + 1])
  }

  /** Event e hands task t out. */
  predicate Dispatches(e: Event, t: TaskId) {
    e.Dispatch? && e.result.Some? && e.result.value.id == t
  }

  /** The queue holds ready tasks only, each once; tasks never change but for their state. */
  ghost predicate QueueInv(nodes: Nodes, s: Sched) {
    && Distinct(s.queue)
    && (forall t :: t in s.queue ==> IsReady(s.nodes, t))
    && SameTasks(nodes, s.nodes)
  }

  ghost predicate SameTasks(nodes: Nodes, nodes': Nodes) {
    && nodes'.Keys == nodes.Keys
    && forall t :: t in nodes ==> nodes'[t] == nodes[t].(state := nodes'[t].state)
  }

  lemma RefreshKeepsInv(nodes: Nodes, s: Sched, s': Sched)
    requires QueueInv(nodes, s) && Refreshed(s, s')
    ensures QueueInv(nodes, s') && ToSet(s'.queue) == Ready(s.nodes)
  {
    hide IsReady;
    var added := s'.queue[|s.queue|..];
    assert s'.queue == s.queue + added;
    forall t | t in s.queue
      ensures t in Ready(s.nodes)
    {
      ReadyIsPending(s.nodes, t);
    }
    assert forall t :: t in s'.queue <==> t in s.queue || t in added;
    forall i, j | 0 <= i < j < |s'.queue|
      ensures s'.queue[i] != s'.queue[j]
    {
      if i < |s.queue| <= j {
        assert s'.queue[j] == added[j - |s.queue|];
        assert added[j - |s.queue|] in added;
        assert s.queue[i] in ToSet(s.queue);
      } else if |s.queue| <= i {
        assert s'.queue[i] == added[i - |s.queue|] && s'.queue[j] == added[j - |s.queue|];
      }
    }
  }

  /** Changing the state of a task that is not Completed spoils no other task's readiness. */
  lemma StateChangeKeepsReady(nodes: Nodes, t: TaskId, state: TaskState, x: TaskId)
    requires IsReady(nodes, x) && x != t && t in nodes && nodes[t].state != Completed
    ensures IsReady(WithState(nodes, t, state), x)
  {
  }

  lemma MarkKeepsInv(nodes: Nodes, s: Sched, t: TaskId, state: TaskState)
    requires QueueInv(nodes, s) && IsRunning(s, t)
    ensures QueueInv(nodes, Marked(s, t, state))
  {
    hide IsReady;
    var s' := Marked(s, t, state);
    WithoutMembers(s.queue, t);
    forall x | x in s'.queue
      ensures IsReady(s'.nodes, x)
    {
      StateChangeKeepsReady(s.nodes, t, state, x);
    }
    WithoutDistinct(s.queue, t);
  }

  /** What a dispatch does: the head of the refreshed queue, if any, which is ready, becomes Running. */
  lemma DispatchEffect(nodes: Nodes, s: Sched, s': Sched, r: Option<TaskNode>)
    requires QueueInv(nodes, s) && NextReadyStep(s, s', r)
    ensures QueueInv(nodes, s')
    ensures r.None? <==> Ready(s.nodes) == {}
    ensures r.None? ==> s'.nodes == s.nodes
    ensures r.Some? ==> exists t :: t in Ready(s.nodes) && s'.nodes == WithState(s.nodes, t, Running) && r.value == s'.nodes[t]
  {
    var mid :| Refreshed(s, mid) && (s', r) == Popped(mid.nodes, mid.queue);
    hide NextReadyStep, QueueInv;
    RefreshKeepsInv(nodes, s, mid);
    RefreshedNodes(s, mid);
    hide Refreshed;
    PopEffect(nodes, mid);
    if mid.queue != [] {
      assert mid.queue[0] in ToSet(mid.queue);
    }
  }

  lemma PopEffect(nodes: Nodes, mid: Sched)
    requires QueueInv(nodes, mid)
    ensures
      var (s', r) := Popped(mid.nodes, mid.queue);
      && QueueInv(nodes, s')
      && (mid.queue == [] ==> r == None && s'.nodes == mid.nodes)
      && (mid.queue != [] ==>
            && s'.nodes == WithState(mid.nodes, mid.queue[0], Running)
            && mid.queue[0] in s'.nodes && r == Some(s'.nodes[mid.queue[0]]))
  {
    if mid.queue != [] {
      var t, rest := mid.queue[0], mid.queue[1..];
      assert mid.queue == [t] + rest;
      assert t in mid.queue;
      ReadyIsPending(mid.nodes, t);
      hide IsReady;
      forall x | x in rest
        ensures IsReady(WithState(mid.nodes, t, Running), x)
      {
        var i :| 0 <= i < |rest| && rest[i] == x;
        assert mid.queue[i + 1] == x && x in mid.queue;
        StateChangeKeepsReady(mid.nodes, t, Running, x);
      }
    }
  }

  lemma RefreshedNodes(s: Sched, s': Sched)
    requires Refreshed(s, s')
    ensures s'.nodes == s.nodes
  {
  }

  lemma ReadyIsPending(nodes: Nodes, t: TaskId)
    requires IsReady(nodes, t)
    ensures t in nodes && nodes[t].state == Pending && t in Ready(nodes)
  {
  }

  lemma NextKeepsInv(nodes: Nodes, s: Sched, e: Event, s': Sched)
    requires QueueInv(nodes, s) && Next(s, e, s')
    ensures QueueInv(nodes, s')
  {
    hide QueueInv, NextReadyStep, Refreshed;
    match e
    case Dispatch(r) => DispatchEffect(nodes, s, s', r);
    case Complete(t) =>
      MarkKeepsInv(nodes, s, t, Completed);
      RefreshKeepsInv(nodes, Marked(s, t, Completed), s');
    case Fail(t) => MarkKeepsInv(nodes, s, t, Failed);
    case Block(t) => MarkKeepsInv(nodes, s, t, Blocked);
  }

  lemma {:induction false} RunKeepsInv(nodes: Nodes, states: seq<Sched>, events: seq<Event>, i: nat)
    requires Run(nodes, states, events) && i < |states|
    ensures QueueInv(nodes, states[i])
  {
    hide Next, IsReady;
    if i == 0 {
      RefreshKeepsInv(nodes, Sched(nodes, []), states[0]);
    } else {
      RunKeepsInv(nodes, states, events, i - 1);
      assert Next(states[i - 1], events[i - 1], states[i - 1 + 1]);
      NextKeepsInv(nodes, states[i - 1], events[i - 1], states[i]);
    }
  }

  /** What one step does to one task's state. */
  lemma StepOnTask(nodes: Nodes, s: Sched, e: Event, s': Sched, t: TaskId)
    requires QueueInv(nodes, s) && Next(s, e, s') && t in s.nodes
    requires forall x :: x in nodes ==> nodes[x].id == x
    ensures t in s'.nodes
    ensures Dispatches(e, t) ==> IsReady(s.nodes, t) && s'.nodes[t].state == Running
    ensures !Dispatches(e, t) && s'.nodes[t].state != s.nodes[t].state ==> !e.Dispatch? && e.t == t && IsRunning(s, t)
    ensures !e.Dispatch? && e.t == t ==>
      s'.nodes[t].state == match e { case Complete(_) => Completed case Fail(_) => Failed case Block(_) => Blocked }
  {
    hide IsReady, NextReadyStep;
    if e.Dispatch? {
      DispatchEffect(nodes, s, s', e.result);
      if e.result.Some? {
        var x :| x in Ready(s.nodes) && s'.nodes == WithState(s.nodes, x, Running) && e.result.value == s'.nodes[x];
        assert s.nodes[x].id == x;
        if x != t {
          assert !Dispatches(e, t);
        }
      }
    }
  }

  // ---------------------------------------------------------------- in every run

  /** A task is handed out only when it is Pending and all its dependencies are there and Completed. */
  lemma DispatchedWhenReady(nodes: Nodes, states: seq<Sched>, events: seq<Event>, i: nat, t: TaskId)
    requires Run(nodes, states, events) && i < |events| && Dispatches(events[i], t)
    ensures
      var now := states[i].nodes;
      && t in now && now[t].state == Pending
      && forall d :: d in now[t].dependsOn ==> d in now && now[d].state == Completed
  {
    HandedOutWhenReady(nodes, states, events, i, t);
  }

  lemma HandedOutWhenReady(nodes: Nodes, states: seq<Sched>, events: seq<Event>, i: nat, t: TaskId)
    requires Run(nodes, states, events) && i < |events| && Dispatches(events[i], t)
    ensures IsReady(states[i].nodes, t)
  {
    hide IsReady;
    RunKeepsInv(nodes, states, events, i);
    assert Next(states[i], events[i], states[i + 1]);
    hide Next;
    DispatchedIsTask(nodes, states[i], events[i], states[i + 1], t);
    StepOnTask(nodes, states[i], events[i], states[i + 1], t);
  }

  lemma DispatchedIsTask(nodes: Nodes, s: Sched, e: Event, s': Sched, t: TaskId)
    requires QueueInv(nodes, s) && Next(s, e, s') && Dispatches(e, t)
    requires forall x :: x in nodes ==> nodes[x].id == x
    ensures t in s.nodes
  {
    hide IsReady, NextReadyStep;
    DispatchEffect(nodes, s, s', e.result);
    var x :| x in Ready(s.nodes) && s'.nodes == WithState(s.nodes, x, Running) && e.result.value == s'.nodes[x];
    assert s.nodes[x].id == x;
  }

  lemma StartedStays(nodes: Nodes, s: Sched, e: Event, s': Sched, t: TaskId)
    requires QueueInv(nodes, s) && Next(s, e, s') && t in s.nodes && s.nodes[t].state != Pending
    requires forall x :: x in nodes ==> nodes[x].id == x
    ensures t in s'.nodes && s'.nodes[t].state != Pending
    ensures s.nodes[t].state != Running ==> s'.nodes[t].state == s.nodes[t].state
  {
    hide QueueInv, Next, IsReady;
    StepOnTask(nodes, s, e, s', t);
    if Dispatches(e, t) {
      ReadyIsPending(s.nodes, t);
    }
  }

  lemma {:induction false} StaysStarted(nodes: Nodes, states: seq<Sched>, events: seq<Event>, i: nat, j: nat, t: TaskId)
    requires Run(nodes, states, events) && i <= j < |states| && t in states[i].nodes
    requires states[i].nodes[t].state != Pending
    ensures t in states[j].nodes && states[j].nodes[t].state != Pending
    ensures states[i].nodes[t].state != Running ==> states[j].nodes[t].state == states[i].nodes[t].state
  {
    hide IsReady, QueueInv, Next, Refreshed;
    if i < j {
      StaysStarted(nodes, states, events, i, j - 1, t);
      RunKeepsInv(nodes, states, events, j - 1);
      assert Next(states[j - 1], events[j - 1], states[j - 1 + 1]);
      StartedStays(nodes, states[j - 1], events[j - 1], states[j], t);
    }
  }

  /** No task is handed out twice. */
  lemma DispatchedOnce(nodes: Nodes, states: seq<Sched>, events: seq<Event>, i: nat, j: nat, t: TaskId)
    requires Run(nodes, states, events) && i < j < |events|
    requires Dispatches(events[i], t)
    ensures !Dispatches(events[j], t)
  {
    hide IsReady;
    HandedOutWhenReady(nodes, states, events, i, t);
    ReadyIsPending(states[i].nodes, t);
    RunKeepsInv(nodes, states, events, i);
    assert Next(states[i], events[i], states[i + 1]);
    hide Next;
    StepOnTask(nodes, states[i], events[i], states[i + 1], t);
    StaysStarted(nodes, states, events, i + 1, j, t);
    if Dispatches(events[j], t) {
      HandedOutWhenReady(nodes, states, events, j, t);
      ReadyIsPending(states[j].nodes, t);
    }
  }

  /** next_ready comes back empty-handed exactly when no task is ready. */
  lemma NothingDispatchedOnlyWhenNoneReady(nodes: Nodes, states: seq<Sched>, events: seq<Event>, i: nat)
    requires Run(nodes, states, events) && i < |events| && events[i].Dispatch?
    ensures events[i].result.None? <==> Ready(states[i].nodes) == {}
    ensures
      var now := states[i].nodes;
      events[i].result.Some? <==>
        exists t :: t in now && now[t].state == Pending
                    && forall d :: d in now[t].dependsOn ==> d in now && now[d].state == Completed
  {
    RunKeepsInv(nodes, states, events, i);
    assert Next(states[i], events[i], states[i + 1]);
    DispatchEffect(nodes, states[i], states[i + 1], events[i].result);
    forall t | t in states[i].nodes
      ensures t in Ready(states[i].nodes) <==> IsReady(states[i].nodes, t)
    {
    }
    var ready := Ready(states[i].nodes);
    if t :| t in ready {
      assert IsReady(states[i].nodes, t);
    }
  }

  // ---------------------------------------------------------------- failed and blocked ancestors

  predicate HasStarted(nodes: Nodes, t: TaskId) {
    t in nodes && (nodes[t].state == Running || nodes[t].state == Completed)
  }

  /** Whatever has started since the beginning has all its dependencies Completed. */
  ghost predicate StartedAfterDependencies(initial: Nodes, nodes: Nodes) {
    forall t, d :: HasStarted(nodes, t) && !HasStarted(initial, t) && d in nodes[t].dependsOn ==>
      d in nodes && nodes[d].state == Completed
  }

  lemma CompletedStays(nodes: Nodes, s: Sched, e: Event, s': Sched, d: TaskId)
    requires QueueInv(nodes, s) && Next(s, e, s') && d in s.nodes && s.nodes[d].state == Completed
    requires forall x :: x in nodes ==> nodes[x].id == x
    ensures d in s'.nodes && s'.nodes[d].state == Completed
  {
    hide QueueInv, Next;
    StepOnTask(nodes, s, e, s', d);
  }

  /** What has started, had started before or was ready. */
  lemma StartsWhenReady(nodes: Nodes, s: Sched, e: Event, s': Sched, t: TaskId)
    requires QueueInv(nodes, s) && Next(s, e, s') && t in s.nodes && HasStarted(s'.nodes, t)
    requires forall x :: x in nodes ==> nodes[x].id == x
    ensures HasStarted(s.nodes, t) || IsReady(s.nodes, t)
  {
    hide QueueInv, Next, IsReady;
    StepOnTask(nodes, s, e, s', t);
  }

  lemma ReadyAfterDependencies(nodes: Nodes, t: TaskId, d: TaskId)
    requires IsReady(nodes, t) && d in nodes[t].dependsOn
    ensures d in nodes && nodes[d].state == Completed
  {
  }

  lemma StepKeepsStartedAfter(initial: Nodes, nodes: Nodes, s: Sched, e: Event, s': Sched)
    requires QueueInv(nodes, s) && Next(s, e, s') && StartedAfterDependencies(initial, s.nodes)
    requires forall x :: x in nodes ==> nodes[x].id == x
    ensures StartedAfterDependencies(initial, s'.nodes)
  {
    StartedAreTasks(s'.nodes);
    hide QueueInv, Next, IsReady, HasStarted;
    NextKeepsTasks(nodes, s, e, s');
    forall t, d | t in s'.nodes && HasStarted(s'.nodes, t) && !HasStarted(initial, t) && d in s'.nodes[t].dependsOn
      ensures d in s'.nodes && s'.nodes[d].state == Completed
    {
      StartsWhenReady(nodes, s, e, s', t);
      if IsReady(s.nodes, t) {
        ReadyAfterDependencies(s.nodes, t, d);
      }
      CompletedStays(nodes, s, e, s', d);
    }
  }

  lemma StartedAreTasks(nodes: Nodes)
    ensures forall t :: HasStarted(nodes, t) ==> t in nodes
  {
  }

  lemma NextKeepsTasks(nodes: Nodes, s: Sched, e: Event, s': Sched)
    requires QueueInv(nodes, s) && Next(s, e, s')
    ensures s'.nodes.Keys == s.nodes.Keys
    ensures forall t :: t in s.nodes ==> s'.nodes[t].dependsOn == s.nodes[t].dependsOn
  {
    hide Next, IsReady;
    NextKeepsInv(nodes, s, e, s');
  }

  lemma {:induction false} RunKeepsStartedAfter(nodes: Nodes, states: seq<Sched>, events: seq<Event>, i: nat)
    requires Run(nodes, states, events) && i < |states|
    ensures StartedAfterDependencies(nodes, states[i].nodes)
  {
    if i == 0 {
      RefreshedNodes(Sched(nodes, []), states[0]);
    } else {
      hide StartedAfterDependencies;
      RunKeepsStartedAfter(nodes, states, events, i - 1);
      RunKeepsInv(nodes, states, events, i - 1);
      assert Next(states[i - 1], events[i - 1], states[i - 1 + 1]);
      StepKeepsStartedAfter(nodes, nodes, states[i - 1], events[i - 1], states[i]);
    }
  }

  /** The dependencies of the tasks that had not started at the beginning. */
  function OpenDependencies(nodes: Nodes): Graph<TaskId> {
    map t | t in nodes && !HasStarted(nodes, t) :: ToSet(nodes[t].dependsOn)
  }

  /** What a ready task depends on through tasks that had not started at the beginning is Completed. */
  lemma ReadyAboveCompleted(initial: Nodes, nodes: Nodes, t: TaskId, d: TaskId)
    requires SameTasks(initial, nodes) && StartedAfterDependencies(initial, nodes) && IsReady(nodes, t)
    requires Reach(OpenDependencies(initial), t, d) && d != t
    ensures d in nodes && nodes[d].state == Completed
  {
    hide Reach;
    var g, done := OpenDependencies(initial), set x | x in nodes && nodes[x].state == Completed;
    forall u | u in done + {t} && u in g
      ensures g[u] <= done + {t}
    {
      assert nodes[u].dependsOn == initial[u].dependsOn;
      assert u in done ==> HasStarted(nodes, u);
    }
    ReachStaysInClosed(g, done + {t}, t, d);
  }

  /** Once a task has failed or been blocked, no task is ever handed out that depends on it, however indirectly, through
      tasks that had not started when the scheduler began. */
  lemma NothingDispatchedBelowFailure(nodes: Nodes, states: seq<Sched>, events: seq<Event>, i: nat, j: nat,
                                      f: TaskId, t: TaskId)
    requires Run(nodes, states, events) && i <= j < |events|
    requires f in states[i].nodes && (states[i].nodes[f].state == Failed || states[i].nodes[f].state == Blocked)
    requires Reach(OpenDependencies(nodes), t, f)
    ensures !Dispatches(events[j], t)
  {
    hide Reach, IsReady, StartedAfterDependencies, Next, OpenDependencies;
    StaysStarted(nodes, states, events, i, j, f);
    if Dispatches(events[j], t) {
      HandedOutWhenReady(nodes, states, events, j, t);
      ReadyIsPending(states[j].nodes, t);
      RunKeepsStartedAfter(nodes, states, events, j);
      RunKeepsInv(nodes, states, events, j);
      if f != t {
        ReadyAboveCompleted(nodes, states[j].nodes, t, f);
      }
    }
  }

  /** A graph in which everything that has started has its dependencies Completed. */
  ghost predicate Orderly(nodes: Nodes) {
    forall t, d :: HasStarted(nodes, t) && d in nodes[t].dependsOn ==> d in nodes && nodes[d].state == Completed
  }

  /** From an orderly graph, every way of depending on a failed task counts. */
  lemma NothingDispatchedBelowFailureFromOrderly(nodes: Nodes, states: seq<Sched>, events: seq<Event>, i: nat, j: nat,
                                                 f: TaskId, t: TaskId)
    requires Run(nodes, states, events) && Orderly(nodes) && i <= j < |events|
    requires f in states[i].nodes && (states[i].nodes[f].state == Failed || states[i].nodes[f].state == Blocked)
    requires Reach(Dependencies(nodes), t, f)
    ensures !Dispatches(events[j], t)
  {
    hide Reach, IsReady, Next, OpenDependencies, Orderly;
    RefreshedNodes(Sched(nodes, []), states[0]);
    RunKeepsInv(nodes, states, events, i);
    if nodes[f].state == Completed {
      StaysStarted(nodes, states, events, 0, i, f);
    } else {
      OrderlyReach(nodes, t, f);
      NothingDispatchedBelowFailure(nodes, states, events, i, j, f, t);
    }
  }

  lemma OrderlyReach(nodes: Nodes, t: TaskId, f: TaskId)
    requires Orderly(nodes) && Reach(Dependencies(nodes), t, f) && f in nodes && nodes[f].state != Completed
    ensures Reach(OpenDependencies(nodes), t, f)
  {
    hide Reach;
    var g, open := Dependencies(nodes), OpenDependencies(nodes);
    var all := set x | x in Mentioned(nodes, t) && (Reach(open, t, x) || (x in nodes && nodes[x].state == Completed));
    ReachRefl(open, t);
    forall u, d | u in all && u in g && d in g[u]
      ensures d in all
    {
      assert d in nodes[u].dependsOn;
      if !HasStarted(nodes, u) {
        assert Edge(open, u, d);
        ReachEdge(open, u, d);
        ReachTrans(open, t, u, d);
      }
    }
    assert Closed(g, all);
    ReachStaysInClosed(g, all, t, f);
  }

  function ThreeTasks(f: TaskId, c: TaskId, t: TaskId): Nodes {
    map[f := TaskNode(f, "f", [], Failed), c := TaskNode(c, "c", [f], Completed), t := TaskNode(t, "t", [c], Pending)]
  }

  /** One graph that is not orderly, and a run in which what depends on a failed task is handed out: f has failed, c
      depends on f and is Completed all the same, and t depends on c. */
  lemma DispatchedBelowFailure(f: TaskId, c: TaskId, t: TaskId) returns (states: seq<Sched>, events: seq<Event>)
    requires f != c && c != t && t != f
    ensures Run(ThreeTasks(f, c, t), states, events) && |events| == 1 && Dispatches(events[0], t)
    ensures Reach(Dependencies(ThreeTasks(f, c, t)), t, f) && !Orderly(ThreeTasks(f, c, t))
  {
    var nodes := ThreeTasks(f, c, t);
    assert Ready(nodes) == {t};
    ThreeTasksReach(f, c, t);
    hide Reach, Orderly, Dependencies, IsReady;
    var s0 := Sched(nodes, [t]);
    var (s1, r) := Popped(nodes, [t]);
    assert Enumerates([t], Ready(nodes) - ToSet([]));
    assert Refreshed(Sched(nodes, []), s0);
    assert Enumerates([], Ready(nodes) - ToSet([t]));
    assert Refreshed(s0, s0);
    states, events := [s0, s1], [Dispatch(r)];
  }

  lemma ThreeTasksReach(f: TaskId, c: TaskId, t: TaskId)
    requires f != c && c != t && t != f
    ensures Reach(Dependencies(ThreeTasks(f, c, t)), t, f) && !Orderly(ThreeTasks(f, c, t))
  {
    hide Reach;
    var nodes := ThreeTasks(f, c, t);
    var g := Dependencies(nodes);
    assert Edge(g, t, c) && Edge(g, c, f);
    ReachEdge(g, t, c);
    ReachEdge(g, c, f);
    ReachTrans(g, t, c, f);
    assert nodes[c].dependsOn[0] == f;
    assert HasStarted(nodes, c) && f in nodes[c].dependsOn && nodes[f].state == Failed;
  }

  lemma SameDependencies(nodes: Nodes, nodes': Nodes)
    requires SameTasks(nodes, nodes')
    ensures Dependencies(nodes') == Dependencies(nodes)
  {
  }

  // ---------------------------------------------------------------- completion

  /** Every dependency names a task of the graph. */
  predicate DependenciesPresent(nodes: Nodes) {
    forall t :: t in nodes ==> forall d :: d in nodes[t].dependsOn ==> d in nodes
  }

  ghost predicate NoTrouble(nodes: Nodes) {
    forall t :: t in nodes ==> nodes[t].state != Failed && nodes[t].state != Blocked
  }

  lemma {:induction false} RunKeepsNoTrouble(nodes: Nodes, states: seq<Sched>, events: seq<Event>, i: nat)
    requires Run(nodes, states, events) && i < |states| && NoTrouble(nodes)
    requires forall k :: 0 <= k < |events| ==> events[k].Dispatch? || events[k].Complete?
    ensures NoTrouble(states[i].nodes)
  {
    hide Next;
    if i == 0 {
      RefreshedNodes(Sched(nodes, []), states[0]);
    } else {
      RunKeepsNoTrouble(nodes, states, events, i - 1);
      RunKeepsInv(nodes, states, events, i - 1);
      var s, e, s' := states[i - 1], events[i - 1], states[i];
      assert Next(states[i - 1], events[i - 1], states[i - 1 + 1]);
      NextKeepsInv(nodes, s, e, s');
      forall t | t in s'.nodes
        ensures s'.nodes[t].state != Failed && s'.nodes[t].state != Blocked
      {
        assert t in s.nodes;
        StepOnTask(nodes, s, e, s', t);
      }
    }
  }

  /** Without failures the scheduler never gets stuck: if no task is ready and none is running, all are Completed. */
  lemma StuckOnlyWhenComplete(nodes: Nodes)
    requires Acyclic(Dependencies(nodes)) && DependenciesPresent(nodes) && NoTrouble(nodes)
    requires Ready(nodes) == {}
    requires forall t :: t in nodes ==> nodes[t].state != Running
    ensures forall t :: t in nodes ==> nodes[t].state == Completed
  {
    hide Acyclic;
    var open := set t | t in nodes && nodes[t].state != Completed;
    assert forall t :: t in nodes && nodes[t].state != Completed ==> t in open;
    if open != {} {
      var t := SinkExists(Dependencies(nodes), open);
      forall d | d in nodes[t].dependsOn
        ensures d in nodes && nodes[d].state == Completed
      {
        assert Edge(Dependencies(nodes), t, d);
      }
      assert nodes[t].state == Pending;
      ReadyIsPending(nodes, t);
    }
  }

  /** When all tasks start Pending, the graph is acyclic, no dependency is missing and every dispatched task is completed,
      then by the time next_ready has nothing to hand out and nothing runs, everything is Completed. */
  lemma AllTasksComplete(nodes: Nodes, states: seq<Sched>, events: seq<Event>, i: nat)
    requires Run(nodes, states, events) && i < |events|
    requires forall t :: t in nodes ==> nodes[t].state == Pending
    requires Acyclic(Dependencies(nodes)) && DependenciesPresent(nodes)
    requires forall k :: 0 <= k < |events| ==> events[k].Dispatch? || events[k].Complete?
    requires events[i].Dispatch? && events[i].result.None?
    requires forall t :: t in states[i].nodes ==> states[i].nodes[t].state != Running
    ensures states[i].nodes.Keys == nodes.Keys
    ensures forall t :: t in nodes ==> states[i].nodes[t].state == Completed
  {
    hide Acyclic, Next, IsReady;
    RunKeepsInv(nodes, states, events, i);
    RunKeepsNoTrouble(nodes, states, events, i);
    NothingDispatchedOnlyWhenNoneReady(nodes, states, events, i);
    SameDependencies(nodes, states[i].nodes);
    var now := states[i].nodes;
    assert DependenciesPresent(now) by {
      forall t | t in now
        ensures forall d :: d in now[t].dependsOn ==> d in now
      {
        assert now[t].dependsOn == nodes[t].dependsOn;
      }
    }
    StuckOnlyWhenComplete(now);
  }

  /** A run hands out at most as many tasks as there are. */
  lemma {:induction false} DispatchesBounded(nodes: Nodes, states: seq<Sched>, events: seq<Event>, upTo: nat)
    requires Run(nodes, states, events) && upTo <= |events|
    ensures Handed(events, upTo) <= |Started(states[upTo].nodes)|
  {
    hide Next, IsReady;
    if upTo > 0 {
      var s, e, s' := states[upTo - 1], events[upTo - 1], states[upTo];
      DispatchesBounded(nodes, states, events, upTo - 1);
      RunKeepsInv(nodes, states, events, upTo - 1);
      assert Next(states[upTo - 1], events[upTo - 1], states[upTo - 1 + 1]);
      forall t | t in Started(s.nodes)
        ensures t in Started(s'.nodes)
      {
        StaysStarted(nodes, states, events, upTo - 1, upTo, t);
      }
      SubsetCardinality(Started(s.nodes), Started(s'.nodes));
      if e.Dispatch? && e.result.Some? {
        var t := e.result.value.id;
        DispatchedIsTask(nodes, s, e, s', t);
        HandedOutWhenReady(nodes, states, events, upTo - 1, t);
        ReadyIsPending(s.nodes, t);
        StepOnTask(nodes, s, e, s', t);
        SubsetCardinality(Started(s.nodes) + {t}, Started(s'.nodes));
      }
    }
  }

  function Started(nodes: Nodes): set<TaskId> {
    set t | t in nodes && nodes[t].state != Pending
  }

  function Handed(events: seq<Event>, upTo: nat): nat
    requires upTo <= |events|
  {
    if upTo == 0 then 0
    else Handed(events, upTo - 1) + if events[upTo - 1].Dispatch? && events[upTo - 1].result.Some? then 1 else 0
  }
}
