/** What the scheduler's queue holds at any time, and runs built to order: everything that can be handed out is, and of
    what runs only chosen tasks complete. */
module SchedulerRuns {
  import opened Collections
  import opened Paths
  import opened Scheduler
  import opened Tasks
  import opened Wrappers

  predicate WellNamed(nodes: Nodes) {
    forall t :: t in nodes ==> nodes[t].id == t
  }

  function Last(states: seq<Sched>): Sched
    requires states != []
  {
    states[|states| - 1]
  }

  // ---------------------------------------------------------------- the queue is what is ready

  ghost predicate Settled(s: Sched) {
    ToSet(s.queue) == Ready(s.nodes)
  }

  /** Setting a task that is not Completed to a state that is not Pending nor Completed makes no other task ready or
      unready. */
  lemma ReadyElsewhere(nodes: Nodes, t: TaskId, state: TaskState)
    requires t in nodes && nodes[t].state != Completed && state != Pending && state != Completed
    ensures Ready(WithState(nodes, t, state)) == Ready(nodes) - {t}
  {
  }

  lemma WithoutStranger(q: seq<TaskId>, t: TaskId)
    requires t !in q
    ensures Without(q, t) == q
  {
    WithoutMembers(q, t);
  }

  /** With a settled queue a dispatch takes its head. */
  lemma SettledDispatch(nodes: Nodes, s: Sched, s': Sched, r: Option<TaskNode>)
    requires QueueInv(nodes, s) && Settled(s) && NextReadyStep(s, s', r)
    ensures Settled(s')
    ensures s.queue == [] ==> s' == s && r == None
    ensures s.queue != [] ==>
      && s.queue[0] in s.nodes && s' == Sched(WithState(s.nodes, s.queue[0], Running), s.queue[1..])
      && r == Some(s'.nodes[s.queue[0]])
  {
    var mid :| Refreshed(s, mid) && (s', r) == Popped(mid.nodes, mid.queue);
    assert mid == s by {
      SettledRefresh(s, mid);
    }
    hide NextReadyStep, Refreshed, IsReady;
    if s.queue != [] {
      var h, rest := s.queue[0], s.queue[1..];
      assert s.queue == [h] + rest;
      assert h in ToSet(s.queue);
      ReadyIsPending(s.nodes, h);
      ReadyElsewhere(s.nodes, h, Running);
      assert ToSet(rest) == ToSet(s.queue) - {h};
    }
  }

  lemma SettledRefresh(s: Sched, mid: Sched)
    requires Settled(s) && Refreshed(s, mid)
    ensures mid == s
  {
    hide IsReady;
    var added := mid.queue[|s.queue|..];
    assert mid.queue == s.queue + added;
    EnumeratesCardinality(added, {});
  }

  lemma RunningIsNotQueued(nodes: Nodes, s: Sched, t: TaskId)
    requires QueueInv(nodes, s) && IsRunning(s, t)
    ensures t !in s.queue
  {
  }

  lemma StepSettles(nodes: Nodes, s: Sched, e: Event, s': Sched)
    requires QueueInv(nodes, s) && Settled(s) && Next(s, e, s')
    ensures Settled(s')
  {
    hide IsReady, NextReadyStep, QueueInv, Refreshed;
    match e
    case Dispatch(r) => SettledDispatch(nodes, s, s', r);
    case Complete(t) =>
      MarkKeepsInv(nodes, s, t, Completed);
      RefreshKeepsInv(nodes, Marked(s, t, Completed), s');
      RefreshedNodes(Marked(s, t, Completed), s');
    case Fail(t) =>
      RunningIsNotQueued(nodes, s, t);
      WithoutStranger(s.queue, t);
      ReadyElsewhere(s.nodes, t, Failed);
      NotReadyWhileRunning(s, t);
    case Block(t) =>
      RunningIsNotQueued(nodes, s, t);
      WithoutStranger(s.queue, t);
      ReadyElsewhere(s.nodes, t, Blocked);
      NotReadyWhileRunning(s, t);
  }

  lemma NotReadyWhileRunning(s: Sched, t: TaskId)
    requires IsRunning(s, t)
    ensures t !in Ready(s.nodes)
  {
  }

  /** In every run the queue holds exactly the ready tasks. */
  lemma {:induction false} RunSettles(nodes: Nodes, states: seq<Sched>, events: seq<Event>, i: nat)
    requires Run(nodes, states, events) && i < |states|
    ensures Settled(states[i])
  {
    hide Next, IsReady, Settled, QueueInv;
    if i == 0 {
      FirstSettles(nodes, states[0]);
    } else {
      RunSettles(nodes, states, events, i - 1);
      RunKeepsInv(nodes, states, events, i - 1);
      assert Next(states[i - 1], events[i - 1], states[i - 1 + 1]);
      StepSettles(nodes, states[i - 1], events[i - 1], states[i]);
    }
  }

  lemma FirstSettles(nodes: Nodes, s: Sched)
    requires Refreshed(Sched(nodes, []), s)
    ensures Settled(s)
  {
    hide IsReady;
    assert s.queue[0..] == s.queue;
  }

  // ---------------------------------------------------------------- building runs

  lemma {:induction false} SomeListing(s: set<TaskId>) returns (items: seq<TaskId>)
    ensures Enumerates(items, s)
  {
    if s == {} {
      items := [];
    } else {
      var x :| x in s;
      var rest := SomeListing(s - {x});
      EnumeratesAppend(rest, s - {x}, x);
      assert s - {x} + {x} == s;
      items := rest + [x];
    }
  }

  /** A listing that starts with a given member. */
  lemma ListingFrom(s: set<TaskId>, x: TaskId) returns (items: seq<TaskId>)
    requires x in s
    ensures Enumerates(items, s) && items != [] && items[0] == x
  {
    var rest := SomeListing(s - {x});
    EnumeratesCardinality([x], {x});
    EnumeratesConcat([x], {x}, rest, s - {x});
    assert {x} + (s - {x}) == s;
    items := [x] + rest;
  }

  lemma BeginRun(nodes: Nodes, items: seq<TaskId>)
    requires WellNamed(nodes) && Enumerates(items, Ready(nodes))
    ensures Run(nodes, [Sched(nodes, items)], [])
  {
    hide IsReady;
    assert items[0..] == items;
    assert Ready(nodes) - ToSet([]) == Ready(nodes);
  }

  lemma OneMore(nodes: Nodes, states: seq<Sched>, events: seq<Event>, e: Event, s': Sched)
    requires Run(nodes, states, events) && Next(Last(states), e, s')
    ensures Run(nodes, states + [s'], events + [e])
  {
    hide Next;
    var ss, es := states + [s'], events + [e];
    forall i | 0 <= i < |es|
      ensures Next(ss[i], es[i], ss[i + 1])
    {
      if i < |events| {
        assert Next(states[i], events[i], states[i + 1]);
      }
    }
  }

  /** Handing out the head of the queue. */
  lemma DispatchHead(nodes: Nodes, states: seq<Sched>, events: seq<Event>)
    returns (states': seq<Sched>, events': seq<Event>)
    requires Run(nodes, states, events) && Last(states).queue != []
    ensures Run(nodes, states', events') && |events'| == |events| + 1 && events <= events' && states <= states'
    ensures
      var s, h := Last(states), Last(states).queue[0];
      && h in Ready(s.nodes) && h in s.nodes
      && Last(states') == Sched(WithState(s.nodes, h, Running), s.queue[1..])
      && events'[|events|].Dispatch? && Dispatches(events'[|events|], h)
  {
    var s := Last(states);
    RunKeepsInv(nodes, states, events, |events|);
    RunSettles(nodes, states, events, |events|);
    var (s', r) := Popped(s.nodes, s.queue);
    assert Refreshed(s, s) by {
      RefreshNothing(s);
    }
    assert Next(s, Dispatch(r), s');
    SettledDispatch(nodes, s, s', r);
    hide Next, QueueInv, IsReady;
    assert s.queue[0] in ToSet(s.queue);
    HeadIsNamed(nodes, s);
    OneMore(nodes, states, events, Dispatch(r), s');
    states', events' := states + [s'], events + [Dispatch(r)];
  }

  lemma HeadIsNamed(nodes: Nodes, s: Sched)
    requires QueueInv(nodes, s) && WellNamed(nodes) && s.queue != []
    ensures s.queue[0] in s.nodes && s.nodes[s.queue[0]].id == s.queue[0]
  {
    hide IsReady;
    assert s.queue[0] in s.queue;
    ReadyIsPending(s.nodes, s.queue[0]);
  }

  lemma RefreshNothing(s: Sched)
    requires Settled(s)
    ensures Refreshed(s, s)
  {
    hide IsReady;
    assert s.queue[|s.queue|..] == [];
  }

  /** Completing a running task; what becomes ready is queued in the given order. */
  lemma CompleteOne(nodes: Nodes, states: seq<Sched>, events: seq<Event>, t: TaskId, added: seq<TaskId>)
    returns (states': seq<Sched>, events': seq<Event>)
    requires Run(nodes, states, events) && IsRunning(Last(states), t)
    requires
      Enumerates(added, Ready(WithState(Last(states).nodes, t, Completed)) - ToSet(Last(states).queue))
    ensures Run(nodes, states', events') && events' == events + [Complete(t)] && states <= states'
    ensures Last(states') == Sched(WithState(Last(states).nodes, t, Completed), Last(states).queue + added)
  {
    var s := Last(states);
    RunKeepsInv(nodes, states, events, |events|);
    hide IsReady;
    RunningIsNotQueued(nodes, s, t);
    WithoutStranger(s.queue, t);
    var s' := Sched(WithState(s.nodes, t, Completed), s.queue + added);
    assert s'.queue[|s.queue|..] == added;
    assert Next(s, Complete(t), s');
    OneMore(nodes, states, events, Complete(t), s');
    states', events' := states + [s'], events + [Complete(t)];
  }

  lemma FailOne(nodes: Nodes, states: seq<Sched>, events: seq<Event>, t: TaskId)
    returns (states': seq<Sched>, events': seq<Event>)
    requires Run(nodes, states, events) && IsRunning(Last(states), t)
    ensures Run(nodes, states', events') && events' == events + [Fail(t)] && states <= states'
    ensures Last(states').nodes == WithState(Last(states).nodes, t, Failed)
  {
    var s := Last(states);
    var s' := Marked(s, t, Failed);
    assert Next(s, Fail(t), s');
    OneMore(nodes, states, events, Fail(t), s');
    states', events' := states + [s'], events + [Fail(t)];
  }

  // ---------------------------------------------------------------- running on until nothing is left to do

  function InState(nodes: Nodes, state: TaskState): set<TaskId> {
    set t | t in nodes && nodes[t].state == state
  }

  /** Starting a task and completing it are one unit of work each. */
  function Work(nodes: Nodes): nat {
    2 * |InState(nodes, Pending)| + |InState(nodes, Running)|
  }

  lemma StartingIsWork(nodes: Nodes, t: TaskId)
    requires t in nodes && nodes[t].state == Pending
    ensures Work(WithState(nodes, t, Running)) < Work(nodes)
  {
    var nodes' := WithState(nodes, t, Running);
    assert InState(nodes', Pending) == InState(nodes, Pending) - {t};
    assert InState(nodes', Running) == InState(nodes, Running) + {t};
  }

  lemma CompletingIsWork(nodes: Nodes, t: TaskId)
    requires t in nodes && nodes[t].state == Running
    ensures Work(WithState(nodes, t, Completed)) < Work(nodes)
  {
    var nodes' := WithState(nodes, t, Completed);
    assert InState(nodes', Pending) == InState(nodes, Pending);
    assert InState(nodes', Running) == InState(nodes, Running) - {t};
  }

  /** From the from-th event on, tasks are only handed out, and only those in done completed. */
  predicate OnlyCompletes(events: seq<Event>, from: nat, done: set<TaskId>) {
    forall k :: from <= k < |events| ==> events[k].Dispatch? || (events[k].Complete? && events[k].t in done)
  }

  /** Runs on, handing out whatever is ready and completing whatever of done runs, until neither is possible. */
  lemma {:induction false} RunOn(nodes: Nodes, states: seq<Sched>, events: seq<Event>, done: set<TaskId>)
    returns (states': seq<Sched>, events': seq<Event>)
    requires Run(nodes, states, events)
    ensures Run(nodes, states', events') && events <= events' && states <= states'
    ensures OnlyCompletes(events', |events|, done)
    ensures Last(states').queue == []
    ensures forall t :: t in done ==> !IsRunning(Last(states'), t)
    decreases Work(Last(states).nodes)
  {
    hide Next, Work, IsRunning, WithState, Ready, Dispatches, Refreshed;
    var s := Last(states);
    if s.queue != [] {
      var h := s.queue[0];
      var states1, events1 := DispatchHead(nodes, states, events);
      QueuedIsPending(s.nodes, h);
      StartingIsWork(s.nodes, h);
      states', events' := RunOn(nodes, states1, events1, done);
    } else if t :| t in done && IsRunning(s, t) {
      var added := SomeListing(Ready(WithState(s.nodes, t, Completed)) - ToSet(s.queue));
      var states1, events1 := CompleteOne(nodes, states, events, t, added);
      RunningIsRunning(s, t);
      CompletingIsWork(s.nodes, t);
      states', events' := RunOn(nodes, states1, events1, done);
    } else {
      states', events' := states, events;
    }
  }

  lemma QueuedIsPending(nodes: Nodes, t: TaskId)
    requires t in Ready(nodes)
    ensures t in nodes && nodes[t].state == Pending
  {
  }

  lemma RunningIsRunning(s: Sched, t: TaskId)
    requires IsRunning(s, t)
    ensures t in s.nodes && s.nodes[t].state == Running
  {
  }

  predicate Trouble(nodes: Nodes, t: TaskId) {
    t in nodes && (nodes[t].state == Failed || nodes[t].state == Blocked)
  }

  /** While only some tasks complete, no other task does, and trouble neither comes nor goes. */
  lemma {:induction false} OthersWait(nodes: Nodes, states: seq<Sched>, events: seq<Event>, from: nat, i: nat,
                                      done: set<TaskId>, t: TaskId)
    requires Run(nodes, states, events) && from <= i < |states| && OnlyCompletes(events, from, done)
    requires t in states[from].nodes
    ensures t in states[i].nodes
    ensures Trouble(states[i].nodes, t) <==> Trouble(states[from].nodes, t)
    ensures t !in done && states[i].nodes[t].state == Completed ==> states[from].nodes[t].state == Completed
    decreases i
  {
    hide Next, IsReady, QueueInv, Refreshed;
    if i > from {
      OthersWait(nodes, states, events, from, i - 1, done, t);
      RunKeepsInv(nodes, states, events, i - 1);
      assert Next(states[i - 1], events[i - 1], states[i - 1 + 1]);
      StepOnTask(nodes, states[i - 1], events[i - 1], states[i], t);
      assert events[i - 1].Dispatch? || events[i - 1].Complete?;
      if Dispatches(events[i - 1], t) {
        ReadyIsPending(states[i - 1].nodes, t);
      }
    }
  }

  /** A task leaves Pending only by being handed out. */
  lemma {:induction false} HandedOutBetween(nodes: Nodes, states: seq<Sched>, events: seq<Event>, from: nat, upTo: nat,
                                            t: TaskId) returns (k: nat)
    requires Run(nodes, states, events) && from <= upTo < |states| && t in states[from].nodes
    requires states[from].nodes[t].state == Pending
    requires t in states[upTo].nodes && states[upTo].nodes[t].state != Pending
    ensures from <= k < upTo && Dispatches(events[k], t)
    decreases upTo
  {
    hide Next, IsReady, QueueInv, Refreshed, Dispatches;
    RunKeepsInv(nodes, states, events, upTo - 1);
    assert Next(states[upTo - 1], events[upTo - 1], states[upTo - 1 + 1]);
    TaskWasThere(nodes, states, events, from, t);
    TaskWasThere(nodes, states, events, upTo - 1, t);
    StepOnTask(nodes, states[upTo - 1], events[upTo - 1], states[upTo], t);
    if states[upTo - 1].nodes[t].state != Pending {
      k := HandedOutBetween(nodes, states, events, from, upTo - 1, t);
    } else {
      assert Dispatches(events[upTo - 1], t) by {
        PendingLeaves(states[upTo - 1], events[upTo - 1], t);
      }
      k := upTo - 1;
    }
  }

  lemma PendingLeaves(s: Sched, e: Event, t: TaskId)
    requires t in s.nodes && s.nodes[t].state == Pending
    ensures !IsRunning(s, t)
  {
  }

  /** Tasks never come or go, and no task becomes Pending again. */
  lemma TaskWasThere(nodes: Nodes, states: seq<Sched>, events: seq<Event>, i: nat, t: TaskId)
    requires Run(nodes, states, events) && i < |states|
    ensures t in states[i].nodes <==> t in nodes
    ensures t in nodes ==> states[i].nodes[t].dependsOn == nodes[t].dependsOn
    ensures t in nodes && states[i].nodes[t].state == Pending ==> nodes[t].state == Pending
    ensures t in nodes && nodes[t].state == Completed ==> states[i].nodes[t].state == Completed
    ensures Trouble(nodes, t) ==> Trouble(states[i].nodes, t)
  {
    hide Next, IsReady;
    RunKeepsInv(nodes, states, events, i);
    RefreshedNodes(Sched(nodes, []), states[0]);
    if t in nodes && nodes[t].state != Pending {
      StaysStarted(nodes, states, events, 0, i, t);
    }
  }
}
