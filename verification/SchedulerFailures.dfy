/** Exactly when a task can still be handed out after another one has failed or been blocked. */
module SchedulerFailures {
  import opened Collections
  import opened Paths
  import opened Scheduler
  import opened SchedulerRuns
  import opened Tasks
  import opened Wrappers

  // ---------------------------------------------------------------- what a task needs

  /** The dependencies of Pending tasks only. */
  function PendingDependencies(nodes: Nodes): Graph<TaskId> {
    map t | t in nodes && nodes[t].state == Pending :: ToSet(nodes[t].dependsOn)
  }

  /** t is x or waits for x, directly or through Pending tasks. */
  ghost predicate Needs(nodes: Nodes, t: TaskId, x: TaskId) {
    Reach(PendingDependencies(nodes), t, x)
  }

  predicate Hopeless(nodes: Nodes, t: TaskId) {
    t !in nodes || Trouble(nodes, t)
  }

  /** t is Pending, and what it needs is all there, in no trouble, and never needs itself in turn. */
  ghost predicate Startable(nodes: Nodes, t: TaskId) {
    && t in nodes && nodes[t].state == Pending
    && (forall x :: Needs(nodes, t, x) ==> !Hopeless(nodes, x))
    && forall x, y :: Needs(nodes, t, x) && Edge(PendingDependencies(nodes), x, y) ==> !Needs(nodes, y, x)
  }

  /** Something that f depends on needs d. */
  ghost predicate NeededEarly(nodes: Nodes, f: TaskId, d: TaskId) {
    f in nodes && exists e :: e in nodes[f].dependsOn && e != d && Needs(nodes, e, d)
  }

  /** t can be kept out of the queue until f is in it: t waits for something that need not be Completed before the last of
      f's dependencies. */
  ghost predicate CanWaitFor(nodes: Nodes, t: TaskId, f: TaskId) {
    t in nodes && exists d :: KeepsWaiting(nodes, t, f, d)
  }

  ghost predicate KeepsWaiting(nodes: Nodes, t: TaskId, f: TaskId, d: TaskId)
    requires t in nodes
  {
    d in nodes[t].dependsOn && d in nodes && nodes[d].state != Completed && !NeededEarly(nodes, f, d)
  }

  /** f can be in trouble before t is handed out. */
  ghost predicate CanFailFirst(nodes: Nodes, f: TaskId, t: TaskId) {
    f in nodes
    && (Trouble(nodes, f) || nodes[f].state == Running
        || (Startable(nodes, f) && (IsReady(nodes, f) || CanWaitFor(nodes, t, f))))
  }

  /** t can be started without f, and after f has failed. */
  ghost predicate CanOutlive(nodes: Nodes, t: TaskId, f: TaskId) {
    Startable(nodes, t) && !Needs(nodes, t, f) && CanFailFirst(nodes, f, t)
  }

  /** At the i-th state f has failed or is blocked; the j-th event, then or later, hands t out. */
  ghost predicate Outlives(nodes: Nodes, states: seq<Sched>, events: seq<Event>, i: int, j: int, f: TaskId, t: TaskId) {
    && Run(nodes, states, events) && 0 <= i <= j < |events|
    && Trouble(states[i].nodes, f) && Dispatches(events[j], t)
  }

  // ---------------------------------------------------------------- needing

  lemma PendingEdge(nodes: Nodes, x: TaskId, y: TaskId)
    ensures Edge(PendingDependencies(nodes), x, y) <==>
            x in nodes && nodes[x].state == Pending && y in nodes[x].dependsOn
  {
  }

  lemma NeedsItself(nodes: Nodes, t: TaskId)
    ensures Needs(nodes, t, t)
  {
    ReachRefl(PendingDependencies(nodes), t);
  }

  /** Whoever needs something else is Pending and has a dependency that needs it. */
  lemma NeedsThrough(nodes: Nodes, t: TaskId, x: TaskId) returns (d: TaskId)
    requires Needs(nodes, t, x)
    ensures t != x ==>
      t in nodes && nodes[t].state == Pending && d in nodes[t].dependsOn && Needs(nodes, d, x)
  {
    hide Reach;
    var g := PendingDependencies(nodes);
    d := t;
    ReachUnfold(g, t, x);
    if t != x {
      d :| Edge(g, t, d) && Reach(g, d, x);
      PendingEdge(nodes, t, d);
    }
  }

  lemma NeedsDependency(nodes: Nodes, t: TaskId, d: TaskId, x: TaskId)
    requires t in nodes && nodes[t].state == Pending && d in nodes[t].dependsOn && Needs(nodes, d, x)
    ensures Needs(nodes, t, x)
  {
    hide Reach;
    var g := PendingDependencies(nodes);
    PendingEdge(nodes, t, d);
    ReachEdge(g, t, d);
    ReachTrans(g, t, d, x);
  }

  lemma NeedsTwice(nodes: Nodes, t: TaskId, x: TaskId, y: TaskId)
    requires Needs(nodes, t, x) && Needs(nodes, x, y)
    ensures Needs(nodes, t, y)
  {
    hide Reach;
    ReachTrans(PendingDependencies(nodes), t, x, y);
  }

  /** Nothing that a startable task depends on needs it. */
  lemma NoneNeedsBack(nodes: Nodes, t: TaskId, d: TaskId)
    requires Startable(nodes, t) && d in nodes[t].dependsOn
    ensures !Needs(nodes, d, t) && d != t
  {
    hide Needs, Hopeless;
    NeedsItself(nodes, t);
    PendingEdge(nodes, t, d);
  }

  lemma NeededIsFine(nodes: Nodes, t: TaskId, x: TaskId)
    requires Startable(nodes, t) && Needs(nodes, t, x)
    ensures x in nodes && !Trouble(nodes, x)
  {
    hide Needs;
    assert !Hopeless(nodes, x);
  }

  /** A Pending task is startable when its dependencies are startable or need not be started. */
  lemma StartableFromDependencies(nodes: Nodes, t: TaskId)
    requires t in nodes && nodes[t].state == Pending
    requires forall d :: d in nodes[t].dependsOn ==>
      !Hopeless(nodes, d) && (nodes[d].state != Pending || Startable(nodes, d))
    ensures Startable(nodes, t)
  {
    hide Needs, Edge, PendingDependencies, Hopeless, Startable;
    assert !Hopeless(nodes, t) by {
      PendingIsHopeful(nodes, t);
    }
    forall x | Needs(nodes, t, x)
      ensures !Hopeless(nodes, x)
    {
      var d := NeedsThrough(nodes, t, x);
      if t != x {
        HopeThroughDependency(nodes, d, x);
      }
    }
    forall x, y | Needs(nodes, t, x) && Edge(PendingDependencies(nodes), x, y)
      ensures !Needs(nodes, y, x)
    {
      PendingEdge(nodes, x, y);
      var d := NeedsThrough(nodes, t, x);
      if t != x {
        NoCycleThroughDependency(nodes, d, x, y);
      } else {
        NoCycleAtTop(nodes, t, y);
      }
    }
    StartableMeans(nodes, t);
  }

  lemma PendingIsHopeful(nodes: Nodes, t: TaskId)
    requires t in nodes && nodes[t].state == Pending
    ensures !Hopeless(nodes, t)
  {
  }

  lemma StartableMeans(nodes: Nodes, t: TaskId)
    requires t in nodes && nodes[t].state == Pending
    requires forall x :: Needs(nodes, t, x) ==> !Hopeless(nodes, x)
    requires forall x, y :: Needs(nodes, t, x) && Edge(PendingDependencies(nodes), x, y) ==> !Needs(nodes, y, x)
    ensures Startable(nodes, t)
  {
    hide Needs, Edge;
  }

  lemma HopeThroughDependency(nodes: Nodes, d: TaskId, x: TaskId)
    requires !Hopeless(nodes, d) && (nodes[d].state != Pending || Startable(nodes, d)) && Needs(nodes, d, x)
    ensures !Hopeless(nodes, x)
  {
    hide Needs;
    var _ := NeedsThrough(nodes, d, x);
  }

  lemma NoCycleThroughDependency(nodes: Nodes, d: TaskId, x: TaskId, y: TaskId)
    requires !Hopeless(nodes, d) && (nodes[d].state != Pending || Startable(nodes, d)) && Needs(nodes, d, x)
    requires Edge(PendingDependencies(nodes), x, y)
    ensures !Needs(nodes, y, x)
  {
    hide Needs, Edge;
    var _ := NeedsThrough(nodes, d, x);
    PendingEdge(nodes, x, y);
  }

  lemma NoCycleAtTop(nodes: Nodes, t: TaskId, d: TaskId)
    requires t in nodes && nodes[t].state == Pending && d in nodes[t].dependsOn
    requires !Hopeless(nodes, d) && (nodes[d].state != Pending || Startable(nodes, d))
    ensures !Needs(nodes, d, t)
  {
    hide Needs, Edge;
    if Needs(nodes, d, t) {
      var _ := NeedsThrough(nodes, d, t);
      PendingEdge(nodes, t, d);
      NeedsItself(nodes, d);
    }
  }

  // ---------------------------------------------------------------- only if: starting

  /** Whatever is no longer Pending was not Pending at the beginning, or startable. */
  lemma {:induction false} OnlyStartableStart(nodes: Nodes, states: seq<Sched>, events: seq<Event>, i: nat, t: TaskId)
    requires Run(nodes, states, events) && i < |states| && t in nodes
    requires t in states[i].nodes && states[i].nodes[t].state != Pending
    ensures nodes[t].state != Pending || Startable(nodes, t)
    decreases i
  {
    hide Next, IsReady, Startable, Refreshed;
    RefreshedNodes(Sched(nodes, []), states[0]);
    if nodes[t].state == Pending {
      var k := HandedOutBetween(nodes, states, events, 0, i, t);
      HandedOutWhenReady(nodes, states, events, k, t);
      forall d | d in nodes[t].dependsOn
        ensures !Hopeless(nodes, d) && (nodes[d].state != Pending || Startable(nodes, d))
      {
        TaskWasThere(nodes, states, events, k, t);
        ReadyAfterDependencies(states[k].nodes, t, d);
        CompletedWasFine(nodes, states, events, k, d);
        OnlyStartableStart(nodes, states, events, k, d);
      }
      StartableFromDependencies(nodes, t);
    }
  }

  lemma CompletedWasFine(nodes: Nodes, states: seq<Sched>, events: seq<Event>, k: nat, d: TaskId)
    requires Run(nodes, states, events) && k < |states| && d in states[k].nodes && states[k].nodes[d].state == Completed
    ensures d in nodes && !Hopeless(nodes, d)
  {
    hide Run;
    TaskWasThere(nodes, states, events, k, d);
  }

  // ---------------------------------------------------------------- only if: the queue

  predicate InFront(q: seq<TaskId>, t: TaskId, f: TaskId) {
    exists p :: 0 <= p < |q| && q[p] == t && f !in q[..p + 1]
  }

  /** t has been handed out, or f has not, and f is not queued except behind t. */
  predicate Ahead(s: Sched, t: TaskId, f: TaskId)
    requires t in s.nodes && f in s.nodes
  {
    s.nodes[t].state != Pending
    || (s.nodes[f].state == Pending && (f in s.queue ==> InFront(s.queue, t, f)))
  }

  lemma InFrontLonger(q: seq<TaskId>, more: seq<TaskId>, t: TaskId, f: TaskId)
    requires InFront(q, t, f) || (t in q && f !in q)
    ensures InFront(q + more, t, f)
  {
    var p :| 0 <= p < |q| && q[p] == t && f !in q[..p + 1];
    assert (q + more)[..p + 1] == q[..p + 1];
  }

  lemma InFrontTail(q: seq<TaskId>, t: TaskId, f: TaskId)
    requires InFront(q, t, f)
    ensures q != [] && q[0] != f && (q[0] != t ==> InFront(q[1..], t, f))
  {
    var p :| 0 <= p < |q| && q[p] == t && f !in q[..p + 1];
    assert q[0] in q[..p + 1];
    if q[0] != t {
      assert q[1..][..p] == q[..p + 1][1..];
      assert q[1..][p - 1] == t && f !in q[1..][..p];
    }
  }

  lemma DispatchKeepsAhead(nodes: Nodes, s: Sched, s': Sched, r: Option<TaskNode>, t: TaskId, f: TaskId)
    requires QueueInv(nodes, s) && Settled(s) && NextReadyStep(s, s', r) && t in s.nodes && f in s.nodes && t != f
    requires Ahead(s, t, f)
    ensures t in s'.nodes && f in s'.nodes && Ahead(s', t, f)
  {
    hide NextReadyStep, QueueInv, Settled, InFront;
    SettledDispatch(nodes, s, s', r);
    if s.queue != [] && s.nodes[t].state == Pending {
      assert s.queue == [s.queue[0]] + s.queue[1..];
      if f in s.queue {
        InFrontTail(s.queue, t, f);
      }
    }
  }

  lemma QueuedIsReady(s: Sched, x: TaskId)
    requires Settled(s)
    ensures x in s.queue <==> IsReady(s.nodes, x)
  {
    hide IsReady;
    assert x in s.queue <==> x in ToSet(s.queue);
    assert x in Ready(s.nodes) ==> IsReady(s.nodes, x);
    if IsReady(s.nodes, x) {
      ReadyIsPending(s.nodes, x);
    }
  }

  lemma CompleteKeepsAhead(nodes: Nodes, s: Sched, s': Sched, y: TaskId, t: TaskId, f: TaskId)
    requires QueueInv(nodes, s) && Settled(s) && Next(s, Complete(y), s') && t in s.nodes && f in s.nodes
    requires Ahead(s, t, f)
    requires s.nodes[t].state == Pending && !IsReady(s.nodes, f) && IsReady(s'.nodes, f) ==> IsReady(s.nodes, t)
    ensures t in s'.nodes && f in s'.nodes && Ahead(s', t, f)
  {
    hide IsReady, InFront, Settled, QueueInv;
    RunningIsNotQueued(nodes, s, y);
    WithoutStranger(s.queue, y);
    StepSettles(nodes, s, Complete(y), s');
    RefreshedNodes(Marked(s, y, Completed), s');
    var more := s'.queue[|s.queue|..];
    assert s'.queue == s.queue + more;
    QueuedIsReady(s, f);
    QueuedIsReady(s, t);
    QueuedIsReady(s', f);
    if s.nodes[t].state == Pending && f in s'.queue {
      InFrontLonger(s.queue, more, t, f);
    }
  }

  lemma MarkKeepsAhead(nodes: Nodes, s: Sched, y: TaskId, state: TaskState, t: TaskId, f: TaskId)
    requires QueueInv(nodes, s) && IsRunning(s, y) && t in s.nodes && f in s.nodes && Ahead(s, t, f) && state != Pending
    ensures
      var s' := Marked(s, y, state);
      t in s'.nodes && f in s'.nodes && Ahead(s', t, f)
  {
    hide QueueInv, InFront;
    RunningIsNotQueued(nodes, s, y);
    WithoutStranger(s.queue, y);
  }

  /** If t waits for nothing that f's last dependency does not wait for, it was ready before f becomes so. */
  lemma ReadyEarlier(nodes: Nodes, states: seq<Sched>, events: seq<Event>, k: nat, y: TaskId, t: TaskId, f: TaskId)
    requires Run(nodes, states, events) && k < |events| && events[k] == Complete(y)
    requires Startable(nodes, t) && f in nodes && !CanWaitFor(nodes, t, f)
    requires t in states[k].nodes && states[k].nodes[t].state == Pending && IsReady(states[k + 1].nodes, f)
    ensures IsReady(states[k].nodes, t)
  {
    var s := states[k];
    assert Next(states[k], events[k], states[k + 1]);
    RunKeepsInv(nodes, states, events, k);
    RunKeepsStartedAfter(nodes, states, events, k);
    TaskWasThere(nodes, states, events, k, t);
    TaskWasThere(nodes, states, events, k + 1, f);
    hide Run, Next, Startable, Needs, NeededEarly, StartedAfterDependencies, QueueInv;
    RefreshedNodesOf(s, y, states[k + 1]);
    forall d | d in s.nodes[t].dependsOn
      ensures d in s.nodes && s.nodes[d].state == Completed
    {
      DependencyIsThere(nodes, t, d);
      TaskWasThere(nodes, states, events, k, d);
      assert !KeepsWaiting(nodes, t, f, d);
      if nodes[d].state != Completed {
        var e := EarlyNeeder(nodes, f, d);
        ReadyAfterDependencies(states[k + 1].nodes, f, e);
        StartedNeedsCompleted(nodes, s.nodes, e, d);
      }
    }
  }

  lemma RefreshedNodesOf(s: Sched, y: TaskId, s': Sched)
    requires Next(s, Complete(y), s')
    ensures IsRunning(s, y) && s'.nodes == WithState(s.nodes, y, Completed)
  {
  }

  lemma DependencyIsThere(nodes: Nodes, t: TaskId, d: TaskId)
    requires Startable(nodes, t) && d in nodes[t].dependsOn
    ensures d in nodes
  {
    hide Needs;
    NeedsItself(nodes, d);
    NeedsDependency(nodes, t, d, d);
  }

  lemma EarlyNeeder(nodes: Nodes, f: TaskId, d: TaskId) returns (e: TaskId)
    requires NeededEarly(nodes, f, d)
    ensures f in nodes && e in nodes[f].dependsOn && e != d && Needs(nodes, e, d)
  {
    e :| e in nodes[f].dependsOn && e != d && Needs(nodes, e, d);
  }

  /** What has started since the beginning has all it needed Completed. */
  lemma StartedNeedsCompleted(initial: Nodes, nodes: Nodes, e: TaskId, d: TaskId)
    requires SameTasks(initial, nodes) && StartedAfterDependencies(initial, nodes) && HasStarted(nodes, e)
    requires Needs(initial, e, d) && e != d
    ensures d in nodes && nodes[d].state == Completed
  {
    hide Reach;
    var g, done := PendingDependencies(initial), set x | x in nodes && nodes[x].state == Completed;
    forall u | u in done + {e} && u in g
      ensures g[u] <= done + {e}
    {
      assert nodes[u].dependsOn == initial[u].dependsOn;
      assert HasStarted(nodes, u) && !HasStarted(initial, u);
    }
    ReachStaysInClosed(g, done + {e}, e, d);
  }

  /** If f is Pending and not ready at the beginning, and t cannot be kept waiting for it, then f is never handed out, let
      alone failed, before t. */
  lemma {:induction false} NeverBefore(nodes: Nodes, states: seq<Sched>, events: seq<Event>, i: nat, t: TaskId, f: TaskId)
    requires Run(nodes, states, events) && i < |states| && t != f
    requires Startable(nodes, t) && f in nodes && nodes[f].state == Pending && !IsReady(nodes, f)
    requires !CanWaitFor(nodes, t, f)
    ensures t in states[i].nodes && f in states[i].nodes && Ahead(states[i], t, f)
  {
    hide Startable, IsReady, CanWaitFor, InFront, Settled, QueueInv, Refreshed, Next;
    assert t in nodes by {
      StartableIsTask(nodes, t);
    }
    RunSettles(nodes, states, events, i);
    TaskWasThere(nodes, states, events, i, t);
    TaskWasThere(nodes, states, events, i, f);
    if i == 0 {
      RefreshedNodes(Sched(nodes, []), states[0]);
      QueuedIsReady(states[0], f);
    } else {
      var k := i - 1;
      NeverBefore(nodes, states, events, k, t, f);
      RunKeepsInv(nodes, states, events, k);
      RunSettles(nodes, states, events, k);
      assert Next(states[k], events[k], states[k + 1]);
      StepKeepsAhead(nodes, states, events, k, t, f);
    }
  }

  lemma StartableIsTask(nodes: Nodes, t: TaskId)
    requires Startable(nodes, t)
    ensures t in nodes && nodes[t].state == Pending
  {
  }

  lemma StepKeepsAhead(nodes: Nodes, states: seq<Sched>, events: seq<Event>, k: nat, t: TaskId, f: TaskId)
    requires Run(nodes, states, events) && k < |events| && k + 1 < |states| && t != f
    requires Startable(nodes, t) && f in nodes && !CanWaitFor(nodes, t, f)
    requires QueueInv(nodes, states[k]) && Settled(states[k]) && Next(states[k], events[k], states[k + 1])
    requires t in states[k].nodes && f in states[k].nodes && Ahead(states[k], t, f)
    ensures t in states[k + 1].nodes && f in states[k + 1].nodes && Ahead(states[k + 1], t, f)
  {
    hide Run, Startable, IsReady, CanWaitFor, Settled, QueueInv, Refreshed, Ahead, Marked;
    var s, s' := states[k], states[k + 1];
    match events[k]
    case Dispatch(r) => DispatchKeepsAhead(nodes, s, s', r, t, f);
    case Complete(y) =>
      if s.nodes[t].state == Pending && IsReady(s'.nodes, f) {
        ReadyEarlier(nodes, states, events, k, y, t, f);
      }
      CompleteKeepsAhead(nodes, s, s', y, t, f);
    case Fail(y) => MarkKeepsAhead(nodes, s, y, Failed, t, f);
    case Block(y) => MarkKeepsAhead(nodes, s, y, Blocked, t, f);
  }

  /** Only if. */
  lemma OutlivesOnlyIf(nodes: Nodes, states: seq<Sched>, events: seq<Event>, i: nat, j: nat, f: TaskId, t: TaskId)
    requires Outlives(nodes, states, events, i, j, f, t)
    ensures CanOutlive(nodes, t, f)
  {
    hide IsReady, Startable, CanWaitFor, Next, Refreshed;
    HandedOutWhenReady(nodes, states, events, j, t);
    ReadyIsPending(states[j].nodes, t);
    TaskWasThere(nodes, states, events, j, t);
    TaskWasThere(nodes, states, events, i, t);
    TaskWasThere(nodes, states, events, i, f);
    assert states[i].nodes[t].state == Pending by {
      if states[i].nodes[t].state != Pending {
        StaysStarted(nodes, states, events, i, j, t);
      }
    }
    DispatchedStarts(nodes, states, events, j, t);
    if Needs(nodes, t, f) {
      NeedsIsOpen(nodes, t, f);
      NothingDispatchedBelowFailure(nodes, states, events, i, j, f, t);
    }
    NeedsItself(nodes, t);
    OnlyStartableStart(nodes, states, events, i, f);
    if nodes[f].state == Pending && !IsReady(nodes, f) && !CanWaitFor(nodes, t, f) {
      NeverBefore(nodes, states, events, i, t, f);
    }
  }

  lemma DispatchedStarts(nodes: Nodes, states: seq<Sched>, events: seq<Event>, j: nat, t: TaskId)
    requires Run(nodes, states, events) && j < |events| && Dispatches(events[j], t)
    ensures Startable(nodes, t)
  {
    hide IsReady, Startable, QueueInv;
    HandedOutWhenReady(nodes, states, events, j, t);
    ReadyIsPending(states[j].nodes, t);
    RunKeepsInv(nodes, states, events, j);
    assert Next(states[j], events[j], states[j + 1]);
    hide Next;
    StepOnTask(nodes, states[j], events[j], states[j + 1], t);
    TaskWasThere(nodes, states, events, j, t);
    OnlyStartableStart(nodes, states, events, j + 1, t);
  }

  lemma NeedsIsOpen(nodes: Nodes, t: TaskId, f: TaskId)
    requires Needs(nodes, t, f)
    ensures Reach(OpenDependencies(nodes), t, f)
  {
    hide Reach;
    ReachMonotone(PendingDependencies(nodes), OpenDependencies(nodes), t, f);
  }

  // ---------------------------------------------------------------- if: what is left when nothing more can be done

  /** The part of the graph that x needs. */
  ghost function NeededBy(nodes: Nodes, x: TaskId): Graph<TaskId> {
    map y | y in nodes && nodes[y].state == Pending && Needs(nodes, x, y) :: ToSet(nodes[y].dependsOn)
  }

  lemma NeededByIsAcyclic(nodes: Nodes, x: TaskId)
    requires Startable(nodes, x)
    ensures Acyclic(NeededBy(nodes, x))
  {
    var g := NeededBy(nodes, x);
    forall u, v | Edge(g, u, v)
      ensures !Reach(g, v, u)
    {
      assert Needs(nodes, x, u) && Edge(PendingDependencies(nodes), u, v);
      hide Reach;
      if Reach(g, v, u) {
        ReachMonotone(g, PendingDependencies(nodes), v, u);
      }
    }
  }

  /** All that x needs, itself apart, is Completed or among those that are completed as soon as they run. */
  ghost predicate NeedsOnly(initial: Nodes, nodes: Nodes, x: TaskId, done: set<TaskId>) {
    forall y :: Needs(initial, x, y) ==>
      && y in nodes && !Trouble(nodes, y)
      && (y != x && nodes[y].state == Running ==> y in done)
  }

  /** When nothing is ready, and nothing runs of what x needs, x has been started. */
  lemma LeftoverHasStarted(initial: Nodes, nodes: Nodes, x: TaskId, done: set<TaskId>)
    requires Startable(initial, x) && NeedsOnly(initial, nodes, x, done)
    requires forall y :: y in nodes ==> y in initial && nodes[y].dependsOn == initial[y].dependsOn
    requires forall y :: y in nodes && nodes[y].state == Pending ==> initial[y].state == Pending
    requires forall y :: y in done && y in nodes ==> nodes[y].state != Running
    requires Ready(nodes) == {}
    ensures x in nodes && nodes[x].state != Pending
  {
    hide Needs, Startable, Acyclic, Edge;
    NeedsItself(initial, x);
    var open := set y | y in nodes && nodes[y].state == Pending && Needs(initial, x, y);
    if x in open {
      NeededByIsAcyclic(initial, x);
      var y := SinkExists(NeededBy(initial, x), open);
      SinkIsReady(initial, nodes, x, done, open, y);
    }
  }

  lemma SinkIsReady(initial: Nodes, nodes: Nodes, x: TaskId, done: set<TaskId>, open: set<TaskId>, y: TaskId)
    requires Startable(initial, x) && NeedsOnly(initial, nodes, x, done)
    requires forall y :: y in nodes ==> y in initial && nodes[y].dependsOn == initial[y].dependsOn
    requires forall y :: y in nodes && nodes[y].state == Pending ==> initial[y].state == Pending
    requires forall y :: y in done && y in nodes ==> nodes[y].state != Running
    requires open == set y | y in nodes && nodes[y].state == Pending && Needs(initial, x, y)
    requires y in open && forall z :: z in open ==> !Edge(NeededBy(initial, x), y, z)
    ensures y in Ready(nodes)
  {
    hide Needs;
    forall d | d in nodes[y].dependsOn
      ensures d in nodes && nodes[d].state == Completed
    {
      NeedsItself(initial, d);
      NeedsDependency(initial, y, d, d);
      NeedsTwice(initial, x, y, d);
      assert Edge(NeededBy(initial, x), y, d);
      assert d != x by {
        NotBackToTop(initial, x, y, d);
      }
    }
    ReadyIsPending(nodes, y);
  }

  lemma NotBackToTop(nodes: Nodes, x: TaskId, y: TaskId, d: TaskId)
    requires Startable(nodes, x) && Needs(nodes, x, y) && Edge(PendingDependencies(nodes), y, d)
    ensures d != x
  {
    hide Needs, Edge;
    assert !Needs(nodes, d, y);
  }

  // ---------------------------------------------------------------- if: running on

  /** After running on from the from-th state, in which only f may be in trouble that was not at the beginning, whatever
      needs only what may complete, and not f, has been started. */
  lemma RunOnStarts(nodes: Nodes, states: seq<Sched>, events: seq<Event>, from: nat, done: set<TaskId>, f: TaskId,
                    x: TaskId)
    requires Run(nodes, states, events) && from < |states| && OnlyCompletes(events, from, done)
    requires Last(states).queue == [] && forall y :: y in done ==> !IsRunning(Last(states), y)
    requires forall y :: Trouble(states[from].nodes, y) ==> y == f || Trouble(nodes, y)
    requires Startable(nodes, x) && (Needs(nodes, x, f) ==> !Trouble(states[from].nodes, f))
    requires forall y :: Needs(nodes, x, y) && y != x && y in nodes && nodes[y].state != Completed ==> y in done
    ensures x in Last(states).nodes && Last(states).nodes[x].state != Pending
  {
    var i := |events|;
    var now := states[i].nodes;
    RunSettles(nodes, states, events, i);
    assert Ready(now) == {} by {
      NothingQueued(states[i]);
    }
    hide Next, Needs, Startable, Settled, Refreshed, OnlyCompletes, Ready;
    forall y | y in now
      ensures y in nodes && now[y].dependsOn == nodes[y].dependsOn
      ensures now[y].state == Pending ==> nodes[y].state == Pending
    {
      TaskWasThere(nodes, states, events, i, y);
    }
    forall y | Needs(nodes, x, y)
      ensures y in now && !Trouble(now, y)
      ensures y != x && now[y].state == Running ==> y in done
    {
      NeededIsFine(nodes, x, y);
      TaskWasThere(nodes, states, events, i, y);
      TaskWasThere(nodes, states, events, from, y);
      OthersWait(nodes, states, events, from, i, done, y);
    }
    forall y | y in done && y in now
      ensures now[y].state != Running
    {
      NotRunning(states[i], y);
    }
    LeftoverHasStarted(nodes, now, x, done);
  }

  lemma NotRunning(s: Sched, y: TaskId)
    requires !IsRunning(s, y) && y in s.nodes
    ensures s.nodes[y].state != Running
  {
  }

  lemma NothingQueued(s: Sched)
    requires Settled(s) && s.queue == []
    ensures Ready(s.nodes) == {}
  {
    hide IsReady;
  }

  // ---------------------------------------------------------------- if: f fails first

  /** f is in trouble, no other task is that was not at the beginning, and t is still Pending. */
  ghost predicate FailedFirst(nodes: Nodes, s: Sched, f: TaskId, t: TaskId) {
    && Trouble(s.nodes, f) && (forall y :: Trouble(s.nodes, y) ==> y == f || Trouble(nodes, y))
    && t in s.nodes && s.nodes[t].state == Pending
  }

  lemma FailRunning(nodes: Nodes, states: seq<Sched>, events: seq<Event>, f: TaskId, t: TaskId)
    returns (states': seq<Sched>, events': seq<Event>)
    requires Run(nodes, states, events) && IsRunning(Last(states), f)
    requires t in Last(states).nodes && Last(states).nodes[t].state == Pending
    requires forall y :: Trouble(Last(states).nodes, y) ==> Trouble(nodes, y)
    ensures Run(nodes, states', events') && FailedFirst(nodes, Last(states'), f, t)
  {
    states', events' := FailOne(nodes, states, events, f);
  }

  lemma FailFirst(nodes: Nodes, f: TaskId, t: TaskId) returns (states: seq<Sched>, events: seq<Event>)
    requires WellNamed(nodes) && CanOutlive(nodes, t, f)
    ensures Run(nodes, states, events) && FailedFirst(nodes, Last(states), f, t)
  {
    NeedsItself(nodes, t);
    StartableIsTask(nodes, t);
    hide Startable, Needs, IsReady, Next, Refreshed, CanWaitFor;
    if Trouble(nodes, f) || nodes[f].state == Running {
      var items := SomeListing(Ready(nodes));
      BeginRun(nodes, items);
      states, events := [Sched(nodes, items)], [];
      if nodes[f].state == Running {
        states, events := FailRunning(nodes, states, events, f, t);
      }
    } else if IsReady(nodes, f) {
      states, events := FailReady(nodes, f, t);
    } else {
      states, events := FailLater(nodes, f, t);
    }
  }

  /** f is ready at the beginning: it may stand first in the queue. */
  lemma FailReady(nodes: Nodes, f: TaskId, t: TaskId) returns (states: seq<Sched>, events: seq<Event>)
    requires WellNamed(nodes) && IsReady(nodes, f) && t != f && t in nodes && nodes[t].state == Pending
    ensures Run(nodes, states, events) && FailedFirst(nodes, Last(states), f, t)
  {
    ReadyIsPending(nodes, f);
    var items := ListingFrom(Ready(nodes), f);
    BeginRun(nodes, items);
    hide Next, IsReady, Refreshed;
    states, events := DispatchHead(nodes, [Sched(nodes, items)], []);
    states, events := FailRunning(nodes, states, events, f, t);
  }

  /** While d, which t depends on, is not Completed, t is not handed out. */
  lemma StillWaiting(nodes: Nodes, states: seq<Sched>, events: seq<Event>, done: set<TaskId>, t: TaskId, d: TaskId)
    requires Run(nodes, states, events) && OnlyCompletes(events, 0, done)
    requires t in nodes && nodes[t].state == Pending && d in nodes[t].dependsOn
    requires d in nodes && nodes[d].state != Completed && d !in done
    ensures t in Last(states).nodes && Last(states).nodes[t].state == Pending
    ensures d in Last(states).nodes && Last(states).nodes[d].state != Completed
  {
    var i := |events|;
    RefreshedNodes(Sched(nodes, []), states[0]);
    TaskWasThere(nodes, states, events, i, t);
    OthersWait(nodes, states, events, 0, i, done, d);
    hide Next, IsReady, Refreshed;
    if states[i].nodes[t].state != Pending {
      var k := HandedOutBetween(nodes, states, events, 0, i, t);
      HandedOutWhenReady(nodes, states, events, k, t);
      TaskWasThere(nodes, states, events, k, t);
      ReadyAfterDependencies(states[k].nodes, t, d);
      OthersWait(nodes, states, events, 0, k, done, d);
    }
  }

  /** f has to wait: everything it needs is completed, except that d, for which t waits, comes last if f needs it. */
  lemma FailLater(nodes: Nodes, f: TaskId, t: TaskId) returns (states: seq<Sched>, events: seq<Event>)
    requires WellNamed(nodes) && Startable(nodes, f) && Startable(nodes, t) && CanWaitFor(nodes, t, f) && t != f
    ensures Run(nodes, states, events) && FailedFirst(nodes, Last(states), f, t)
  {
    StartableIsTask(nodes, t);
    var d :| KeepsWaiting(nodes, t, f, d);
    var done := set x | x in nodes && x != f && x != d && Needs(nodes, f, x);
    var items := SomeListing(Ready(nodes));
    BeginRun(nodes, items);
    hide Startable, Needs, IsReady, Next, Refreshed, NeededEarly;
    states, events := RunOn(nodes, [Sched(nodes, items)], [], done);
    StillWaiting(nodes, states, events, done, t, d);
    NoNewTrouble(nodes, states, events, done);
    var s := Last(states);
    TaskWasThere(nodes, states, events, |events|, f);
    StartableIsTask(nodes, f);
    FNotDone(nodes, states, events, done, f);
    if s.nodes[f].state != Pending {
      states, events := FailRunning(nodes, states, events, f, t);
    } else {
      LastDependency(nodes, states, events, done, f, d);
      var now := WithState(s.nodes, d, Completed);
      assert Ready(now) - ToSet(s.queue) == Ready(now);
      FIsReady(now, f);
      var added := ListingFrom(Ready(now), f);
      states, events := CompleteOne(nodes, states, events, d, added);
      states, events := DispatchHead(nodes, states, events);
      states, events := FailRunning(nodes, states, events, f, t);
    }
  }

  lemma FIsReady(nodes: Nodes, f: TaskId)
    requires IsReady(nodes, f)
    ensures f in Ready(nodes)
  {
  }

  /** A task that may not complete can only have been started. */
  lemma FNotDone(nodes: Nodes, states: seq<Sched>, events: seq<Event>, done: set<TaskId>, f: TaskId)
    requires Run(nodes, states, events) && OnlyCompletes(events, 0, done) && f !in done
    requires f in nodes && nodes[f].state == Pending
    ensures f in Last(states).nodes
    ensures Last(states).nodes[f].state == Pending || Last(states).nodes[f].state == Running
  {
    hide Next, IsReady;
    RefreshedNodes(Sched(nodes, []), states[0]);
    OthersWait(nodes, states, events, 0, |events|, done, f);
  }

  lemma NoNewTrouble(nodes: Nodes, states: seq<Sched>, events: seq<Event>, done: set<TaskId>)
    requires Run(nodes, states, events) && OnlyCompletes(events, 0, done)
    ensures forall y :: Trouble(Last(states).nodes, y) ==> Trouble(nodes, y)
  {
    hide Next, IsReady, OnlyCompletes;
    forall y | Trouble(Last(states).nodes, y)
      ensures Trouble(nodes, y)
    {
      TaskWasThere(nodes, states, events, |events|, y);
      RefreshedNodes(Sched(nodes, []), states[0]);
      OthersWait(nodes, states, events, 0, |events|, done, y);
    }
  }

  /** If f still waits when all it needs but d is done, it waits for d alone, and d runs. */
  lemma LastDependency(nodes: Nodes, states: seq<Sched>, events: seq<Event>, done: set<TaskId>, f: TaskId, d: TaskId)
    requires Run(nodes, states, events) && OnlyCompletes(events, 0, done)
    requires Last(states).queue == [] && forall y :: y in done ==> !IsRunning(Last(states), y)
    requires Startable(nodes, f) && !NeededEarly(nodes, f, d)
    requires done == set x | x in nodes && x != f && x != d && Needs(nodes, f, x)
    requires d in nodes && nodes[d].state != Completed
    requires f in Last(states).nodes && Last(states).nodes[f].state == Pending
    ensures IsRunning(Last(states), d) && IsReady(WithState(Last(states).nodes, d, Completed), f)
  {
    var s := Last(states);
    TaskWasThere(nodes, states, events, |events|, f);
    hide Startable, Needs, Next, Refreshed, NeededEarly, OnlyCompletes, IsRunning, Run;
    forall e | e in s.nodes[f].dependsOn && e != d
      ensures e in s.nodes && s.nodes[e].state == Completed
    {
      OtherDependencyDone(nodes, states, events, done, f, d, e);
    }
    assert s.nodes[f].dependsOn == nodes[f].dependsOn;
    NotReadyYet(nodes, states, events, f);
    assert d in s.nodes[f].dependsOn;
    assert s.nodes[d].state != Completed by {
      DNotDone(nodes, states, events, done, d);
    }
    DRuns(nodes, states, events, done, f, d);
  }

  lemma NotReadyYet(nodes: Nodes, states: seq<Sched>, events: seq<Event>, f: TaskId)
    requires Run(nodes, states, events) && Last(states).queue == []
    ensures !IsReady(Last(states).nodes, f)
  {
    hide IsReady;
    RunSettles(nodes, states, events, |events|);
    QueuedIsReady(Last(states), f);
  }

  lemma DNotDone(nodes: Nodes, states: seq<Sched>, events: seq<Event>, done: set<TaskId>, d: TaskId)
    requires Run(nodes, states, events) && OnlyCompletes(events, 0, done) && d !in done
    requires d in nodes && nodes[d].state != Completed
    ensures d in Last(states).nodes && Last(states).nodes[d].state != Completed
  {
    hide Next, IsReady;
    RefreshedNodes(Sched(nodes, []), states[0]);
    OthersWait(nodes, states, events, 0, |events|, done, d);
  }

  lemma OtherDependencyDone(nodes: Nodes, states: seq<Sched>, events: seq<Event>, done: set<TaskId>, f: TaskId,
                            d: TaskId, e: TaskId)
    requires Run(nodes, states, events) && OnlyCompletes(events, 0, done)
    requires Last(states).queue == [] && forall y :: y in done ==> !IsRunning(Last(states), y)
    requires Startable(nodes, f) && !NeededEarly(nodes, f, d)
    requires done == set x | x in nodes && x != f && x != d && Needs(nodes, f, x)
    requires e in nodes[f].dependsOn && e != d
    ensures e in Last(states).nodes && Last(states).nodes[e].state == Completed
  {
    hide Next, IsReady, Refreshed;
    NoneNeedsBack(nodes, f, e);
    NeedsItself(nodes, e);
    StartableIsTask(nodes, f);
    NeedsDependency(nodes, f, e, e);
    NeededIsFine(nodes, f, e);
    assert e in done && !Needs(nodes, e, d);
    TaskWasThere(nodes, states, events, |events|, e);
    NoNewTrouble(nodes, states, events, done);
    if nodes[e].state == Pending {
      DependencyIsStartable(nodes, f, e);
      NeededIsDone(nodes, f, e, d, done);
      hide Startable, Needs, NeededEarly;
      RefreshedNodes(Sched(nodes, []), states[0]);
      RunOnStarts(nodes, states, events, 0, done, f, e);
    } else {
      RefreshedNodes(Sched(nodes, []), states[0]);
      StaysStarted(nodes, states, events, 0, |events|, e);
    }
    assert !IsRunning(Last(states), e);
  }

  /** What e needs, e being a dependency of f, f needs too, and it is neither f nor d. */
  lemma NeededIsDone(nodes: Nodes, f: TaskId, e: TaskId, d: TaskId, done: set<TaskId>)
    requires Startable(nodes, f) && e in nodes[f].dependsOn
    requires done == set x | x in nodes && x != f && x != d && Needs(nodes, f, x)
    ensures forall y :: Needs(nodes, e, y) && y != d && y in nodes ==> y in done
  {
    StartableIsTask(nodes, f);
    NoneNeedsBack(nodes, f, e);
    hide Needs, Startable;
    forall y | Needs(nodes, e, y)
      ensures Needs(nodes, f, y)
    {
      NeedsDependency(nodes, f, e, y);
    }
  }

  lemma DependencyIsStartable(nodes: Nodes, f: TaskId, e: TaskId)
    requires Startable(nodes, f) && e in nodes[f].dependsOn && e in nodes && nodes[e].state == Pending
    ensures Startable(nodes, e)
  {
    hide Needs, Hopeless;
    forall y | Needs(nodes, e, y)
      ensures Needs(nodes, f, y)
    {
      NeedsDependency(nodes, f, e, y);
    }
  }

  lemma DRuns(nodes: Nodes, states: seq<Sched>, events: seq<Event>, done: set<TaskId>, f: TaskId, d: TaskId)
    requires Run(nodes, states, events) && OnlyCompletes(events, 0, done)
    requires Last(states).queue == [] && forall y :: y in done ==> !IsRunning(Last(states), y)
    requires Startable(nodes, f) && d in nodes[f].dependsOn && d in nodes
    requires done == set x | x in nodes && x != f && x != d && Needs(nodes, f, x)
    requires d in Last(states).nodes && Last(states).nodes[d].state != Completed
    ensures IsRunning(Last(states), d)
  {
    hide Next, IsReady, Refreshed;
    StartableIsTask(nodes, f);
    NeedsItself(nodes, d);
    NeedsDependency(nodes, f, d, d);
    NeededIsFine(nodes, f, d);
    NoNewTrouble(nodes, states, events, done);
    RefreshedNodes(Sched(nodes, []), states[0]);
    if nodes[d].state == Pending {
      DependencyIsStartable(nodes, f, d);
      NeededIsDone(nodes, f, d, d, done);
      hide Startable, Needs;
      RunOnStarts(nodes, states, events, 0, done, f, d);
    } else {
      StaysStarted(nodes, states, events, 0, |events|, d);
    }
  }

  // ---------------------------------------------------------------- if: t is handed out all the same

  lemma OutlivesIf(nodes: Nodes, f: TaskId, t: TaskId)
    returns (states: seq<Sched>, events: seq<Event>, i: nat, j: nat)
    requires WellNamed(nodes) && CanOutlive(nodes, t, f)
    ensures Outlives(nodes, states, events, i, j, f, t)
  {
    hide Startable, Needs, Next, Refreshed, IsReady;
    var states0, events0 := FailFirst(nodes, f, t);
    i := |events0|;
    var all := nodes.Keys;
    states, events := RunOn(nodes, states0, events0, all);
    assert states[i] == Last(states0);
    RunOnStarts(nodes, states, events, i, all, f, t);
    TaskWasThere(nodes, states, events, |events|, t);
    j := HandedOutBetween(nodes, states, events, i, |events|, t);
  }

  // ---------------------------------------------------------------- exactly when

  /** Some run hands t out after f has failed or been blocked if and only if t can be started without f, and f can be in
      trouble first: it is from the beginning, or it runs, or it is startable and can reach the queue before t. */
  lemma OutlivesExactlyWhen(nodes: Nodes, f: TaskId, t: TaskId)
    requires WellNamed(nodes)
    ensures (exists states, events, i, j :: Outlives(nodes, states, events, i, j, f, t)) <==> CanOutlive(nodes, t, f)
  {
    hide Outlives, CanOutlive;
    if CanOutlive(nodes, t, f) {
      var states, events, i, j := OutlivesIf(nodes, f, t);
    }
    if states, events, i, j :| Outlives(nodes, states, events, i, j, f, t) {
      assert 0 <= i <= j by {
        OutlivesInOrder(nodes, states, events, i, j, f, t);
      }
      OutlivesOnlyIf(nodes, states, events, i, j, f, t);
    }
  }

  lemma OutlivesInOrder(nodes: Nodes, states: seq<Sched>, events: seq<Event>, i: int, j: int, f: TaskId, t: TaskId)
    requires Outlives(nodes, states, events, i, j, f, t)
    ensures 0 <= i <= j
  {
  }

  /** In no run is a task handed out that depends, however indirectly, on one that has failed or been blocked. */
  ghost predicate FailureStopsDependents(nodes: Nodes) {
    forall states, events, i, j, f, t ::
      Reach(Dependencies(nodes), t, f) ==> !Outlives(nodes, states, events, i, j, f, t)
  }

  /** Failure stops everything that depends on it if and only if no task that depends on another can outlive it. */
  lemma FailureStopsDependentsExactlyWhen(nodes: Nodes)
    requires WellNamed(nodes)
    ensures
      FailureStopsDependents(nodes)
      <==> forall f, t :: Reach(Dependencies(nodes), t, f) ==> !CanOutlive(nodes, t, f)
  {
    hide Reach, Outlives, CanOutlive;
    forall f, t
      ensures (exists states, events, i, j :: Outlives(nodes, states, events, i, j, f, t)) <==> CanOutlive(nodes, t, f)
    {
      OutlivesExactlyWhen(nodes, f, t);
    }
  }

  function FourTasks(g: TaskId, f: TaskId, c: TaskId, t: TaskId): Nodes {
    map[g := TaskNode(g, "g", [], Pending), f := TaskNode(f, "f", [g], Pending),
        c := TaskNode(c, "c", [f], Completed), t := TaskNode(t, "t", [c], Pending)]
  }

  /** The queue's order matters.  f waits for g, c is Completed although it depends on f, and t depends on c alone: both f
      and t can be started, and t does not need f, yet t is never handed out after f has failed, because t is queued from
      the beginning and f is not. */
  lemma QueueOrderProtects(g: TaskId, f: TaskId, c: TaskId, t: TaskId, states: seq<Sched>, events: seq<Event>, i: nat,
                           j: nat)
    requires g != f && g != c && g != t && f != c && f != t && c != t
    ensures
      var nodes := FourTasks(g, f, c, t);
      && Reach(Dependencies(nodes), t, f) && Startable(nodes, f) && Startable(nodes, t) && !Needs(nodes, t, f)
      && !Outlives(nodes, states, events, i, j, f, t)
  {
    var nodes := FourTasks(g, f, c, t);
    FourTasksStart(g, f, c, t);
    FourTasksReach(g, f, c, t);
    FourTasksQueue(g, f, c, t);
    hide Reach, Startable, Outlives, CanOutlive;
    if Outlives(nodes, states, events, i, j, f, t) {
      OutlivesOnlyIf(nodes, states, events, i, j, f, t);
    }
  }

  lemma FourTasksQueue(g: TaskId, f: TaskId, c: TaskId, t: TaskId)
    requires g != f && g != c && g != t && f != c && f != t && c != t
    ensures !CanOutlive(FourTasks(g, f, c, t), t, f)
  {
    hide Startable, Needs;
    var nodes := FourTasks(g, f, c, t);
    assert nodes[f].dependsOn == [g] && nodes[t].dependsOn == [c];
    assert g in nodes[f].dependsOn && nodes[g].state != Completed;
    assert forall d :: d in nodes[t].dependsOn ==> nodes[d].state == Completed;
  }

  lemma FourTasksStart(g: TaskId, f: TaskId, c: TaskId, t: TaskId)
    requires g != f && g != c && g != t && f != c && f != t && c != t
    ensures
      var nodes := FourTasks(g, f, c, t);
      Startable(nodes, f) && Startable(nodes, t)
  {
    hide Startable;
    var nodes := FourTasks(g, f, c, t);
    StartableFromDependencies(nodes, g);
    StartableFromDependencies(nodes, f);
    StartableFromDependencies(nodes, t);
  }

  lemma FourTasksReach(g: TaskId, f: TaskId, c: TaskId, t: TaskId)
    requires g != f && g != c && g != t && f != c && f != t && c != t
    ensures
      var nodes := FourTasks(g, f, c, t);
      Reach(Dependencies(nodes), t, f) && !Needs(nodes, t, f)
  {
    hide Reach;
    var nodes := FourTasks(g, f, c, t);
    var all, pending := Dependencies(nodes), PendingDependencies(nodes);
    assert Edge(all, t, c) && Edge(all, c, f);
    ReachEdge(all, t, c);
    ReachEdge(all, c, f);
    ReachTrans(all, t, c, f);
    assert Closed(pending, {t, c});
    if Needs(nodes, t, f) {
      ReachStaysInClosed(pending, {t, c}, t, f);
    }
  }
}
