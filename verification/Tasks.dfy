/** The task graph: dependencies, the cycle test and the spread of failure. */
module Tasks {
  import opened Collections
  import opened Paths

  datatype TaskId = TaskId(text: string)

  datatype TaskState = Pending | Running | Blocked | Completed | Failed

  datatype TaskNode = TaskNode(id: TaskId, name: string, dependsOn: seq<TaskId>, state: TaskState)

  type Nodes = map<TaskId, TaskNode>

  /** Edges lead from a task to its dependencies. */
  function Dependencies(nodes: Nodes): Graph<TaskId> {
    map t | t in nodes :: ToSet(nodes[t].dependsOn)
  }

  function WithDependency(nodes: Nodes, t: TaskId, d: TaskId): Nodes {
    if t in nodes && d !in nodes[t].dependsOn
    then nodes[t := nodes[t].(dependsOn := nodes[t].dependsOn + [d])]
    else nodes
  }

  function WithState(nodes: Nodes, t: TaskId, state: TaskState): Nodes {
    if t in nodes then nodes[t := nodes[t].(state := state)] else nodes
  }

  predicate IsReady(nodes: Nodes, t: TaskId) {
    && t in nodes
    && nodes[t].state == Pending
    && forall d :: d in nodes[t].dependsOn ==> d in nodes && nodes[d].state == Completed
  }

  function Ready(nodes: Nodes): set<TaskId> {
    set t | t in nodes && IsReady(nodes, t)
  }

  // ---------------------------------------------------------------- cycles

  lemma DependencyIsEdge(nodes: Nodes, t: TaskId, d: TaskId)
    requires t in nodes
    ensures Dependencies(WithDependency(nodes, t, d)) == WithEdge(Dependencies(nodes), t, d)
  {
    var g, g' := Dependencies(WithDependency(nodes, t, d)), WithEdge(Dependencies(nodes), t, d);
    assert g.Keys == g'.Keys;
    forall x | x in g
      ensures g[x] == g'[x]
    {
    }
  }

  /** The cycle test tells exactly whether the dependency may be added: to an acyclic graph it closes a cycle if and only
      if the dependency already depends on the task. */
  lemma DependencyKeepsAcyclicExactlyWhen(nodes: Nodes, t: TaskId, d: TaskId)
    requires t in nodes && Acyclic(Dependencies(nodes))
    ensures Acyclic(Dependencies(WithDependency(nodes, t, d))) <==> !Reach(Dependencies(nodes), d, t)
  {
    hide *;
    DependencyIsEdge(nodes, t, d);
    assert t in Dependencies(nodes) by {
      DependenciesKeys(nodes);
    }
    AcyclicWithEdge(Dependencies(nodes), t, d);
  }

  lemma DependenciesKeys(nodes: Nodes)
    ensures Dependencies(nodes).Keys == nodes.Keys
  {
  }

  /** Every task id that can turn up when following dependencies from start. */
  ghost function Mentioned(nodes: Nodes, start: TaskId): set<TaskId> {
    {start} + set t, d | t in nodes && d in nodes[t].dependsOn :: d
  }

  // ---------------------------------------------------------------- failure

  predicate Waiting(n: TaskNode) {
    n.state == Pending || n.state == Blocked
  }

  /** The dependencies of waiting tasks only. */
  function WaitingDependencies(nodes: Nodes): Graph<TaskId> {
    map t | t in nodes && Waiting(nodes[t]) :: ToSet(nodes[t].dependsOn)
  }

  /** t waits, and depends on the failed task directly or through waiting tasks. */
  ghost predicate DependsOnFailed(nodes: Nodes, t: TaskId, failed: TaskId) {
    exists d :: Edge(WaitingDependencies(nodes), t, d) && Reach(WaitingDependencies(nodes), d, failed)
  }

  /** Each task of the chain but the last is Pending or Blocked and depends on the next. */
  predicate WaitingChain(nodes: Nodes, chain: seq<TaskId>) {
    && |chain| >= 2
    && forall i :: 0 <= i < |chain| - 1 ==>
         && chain[i] in nodes && (nodes[chain[i]].state == Pending || nodes[chain[i]].state == Blocked)
         && chain[i + 1] in nodes[chain[i]].dependsOn
  }

  ghost predicate ChainLeads(nodes: Nodes, t: TaskId, failed: TaskId) {
    exists chain: seq<TaskId> :: WaitingChain(nodes, chain) && chain[0] == t && chain[|chain| - 1] == failed
  }

  lemma WaitingEdge(nodes: Nodes, x: TaskId, y: TaskId)
    ensures
      Edge(WaitingDependencies(nodes), x, y)
      <==> x in nodes && (nodes[x].state == Pending || nodes[x].state == Blocked) && y in nodes[x].dependsOn
  {
  }

  lemma DependsExactlyWhenChain(nodes: Nodes, t: TaskId, failed: TaskId)
    ensures DependsOnFailed(nodes, t, failed) <==> ChainLeads(nodes, t, failed)
  {
    var g := WaitingDependencies(nodes);
    forall x, y
      ensures Edge(g, x, y)
              <==> x in nodes && (nodes[x].state == Pending || nodes[x].state == Blocked) && y in nodes[x].dependsOn
    {
      WaitingEdge(nodes, x, y);
    }
    hide WaitingDependencies, Edge;
    if DependsOnFailed(nodes, t, failed) {
      var d :| Edge(g, t, d) && Reach(g, d, failed);
      var p: seq<TaskId> :| PathFrom(g, p, d, failed);
      var chain := [t] + p;
      forall i | 0 <= i < |chain| - 1
        ensures
          && chain[i] in nodes && (nodes[chain[i]].state == Pending || nodes[chain[i]].state == Blocked)
          && chain[i + 1] in nodes[chain[i]].dependsOn
      {
        if i == 0 {
          assert Edge(g, chain[i], chain[i + 1]);
        } else {
          assert Edge(g, p[i - 1], p[i - 1 + 1]);
        }
      }
      assert WaitingChain(nodes, chain);
    }
    if chain: seq<TaskId> :| WaitingChain(nodes, chain) && chain[0] == t && chain[|chain| - 1] == failed {
      var p := chain[1..];
      assert Edge(g, chain[0], chain[0 + 1]);
      forall i | 0 <= i < |p| - 1
        ensures Edge(g, p[i], p[i + 1])
      {
        assert Edge(g, chain[i + 1], chain[i + 1 + 1]);
      }
      assert PathFrom(g, p, p[0], failed);
    }
  }

  function MarkedFailed(nodes: Nodes, ts: set<TaskId>): Nodes {
    map t | t in nodes :: if t in ts then nodes[t].(state := Failed) else nodes[t]
  }

  lemma MarkedMeans(nodes: Nodes, ts: seq<TaskId>)
    ensures
      var nodes' := MarkedFailed(nodes, ToSet(ts));
      && nodes'.Keys == nodes.Keys
      && forall t :: t in nodes' ==> nodes'[t] == if t in ts then nodes[t].(state := Failed) else nodes[t]
  {
  }

  function Dependents(nodes: Nodes, src: TaskId): set<TaskId> {
    set t | t in nodes && Waiting(nodes[t]) && src in nodes[t].dependsOn
  }

  lemma DependentsDependOnFailed(nodes: Nodes, src: TaskId, failed: TaskId, t: TaskId)
    requires src == failed || DependsOnFailed(nodes, src, failed)
    requires t in Dependents(nodes, src)
    ensures t in nodes && DependsOnFailed(nodes, t, failed)
  {
    hide Reach;
    var g := WaitingDependencies(nodes);
    assert Edge(g, t, src);
    if src == failed {
      ReachRefl(g, src);
    } else {
      var d :| Edge(g, src, d) && Reach(g, d, failed);
      ReachEdge(g, src, d);
      ReachTrans(g, src, d, failed);
    }
  }

  /** A set of waiting tasks that contains the dependents of the failed task and of its own members contains all that
      depend on the failed task. */
  lemma MarkedIsEverything(nodes: Nodes, failed: TaskId, marked: set<TaskId>, t: TaskId)
    requires forall x :: x == failed || x in marked ==> Dependents(nodes, x) <= marked
    requires DependsOnFailed(nodes, t, failed)
    ensures t in marked
  {
    hide Reach;
    var g := WaitingDependencies(nodes);
    forall x, y | Edge(g, x, y) && y in marked + {failed}
      ensures x in marked
    {
      assert x in Dependents(nodes, y);
    }
    var d :| Edge(g, t, d) && Reach(g, d, failed);
    ReachesIntoBackwardClosed(g, marked + {failed}, d, failed);
  }

  lemma DependentsOfRest(nodes: Nodes, marked: set<TaskId>, src: TaskId)
    ensures Dependents(MarkedFailed(nodes, marked), src) == Dependents(nodes, src) - marked
  {
  }

  /** The worklist invariant: what is marked depends on the failed task, and the dependents of everything marked are
      marked too, unless it is still in the queue. */
  ghost predicate Spreading(nodes: Nodes, failed: TaskId, marked: set<TaskId>, queue: seq<TaskId>) {
    && marked <= nodes.Keys
    && (forall x :: x in queue ==> x == failed || x in marked)
    && (forall x :: x in marked ==> DependsOnFailed(nodes, x, failed))
    && (forall x :: x == failed || x in marked ==> x in queue || Dependents(nodes, x) <= marked)
  }

  lemma StartSpreading(nodes: Nodes, failed: TaskId)
    ensures Spreading(nodes, failed, {}, [failed])
    ensures Enumerates<TaskId>([], {})
  {
  }

  lemma SpreadOnce(nodes: Nodes, failed: TaskId, marked: set<TaskId>, queue: seq<TaskId>, src: TaskId,
                   dependents: seq<TaskId>)
    requires Spreading(nodes, failed, marked, queue + [src])
    requires Enumerates(dependents, Dependents(nodes, src) - marked)
    ensures
      var more := Dependents(nodes, src) - marked;
      && Spreading(nodes, failed, marked + more, queue + dependents)
      && |nodes.Keys - (marked + more)| + |queue + dependents| < |nodes.Keys - marked| + |queue + [src]|
  {
    hide DependsOnFailed, Dependents;
    var more := Dependents(nodes, src) - marked;
    assert src in queue + [src];
    forall t | t in more
      ensures DependsOnFailed(nodes, t, failed) && t in nodes
    {
      DependentsDependOnFailed(nodes, src, failed, t);
    }
    EnumeratesCardinality(dependents, more);
    RemainingAfter(nodes.Keys, marked, more);
    forall x | (x == failed || x in marked + more) && x !in queue + dependents
      ensures Dependents(nodes, x) <= marked + more
    {
      assert x !in dependents && x !in more;
      assert x !in queue;
      assert x in queue + [src] ==> x == src;
    }
  }

  lemma DoneSpreading(nodes: Nodes, failed: TaskId, marked: set<TaskId>, newlyFailed: seq<TaskId>)
    requires Spreading(nodes, failed, marked, []) && Enumerates(newlyFailed, marked)
    ensures ToSet(newlyFailed) == marked
    ensures forall t :: t in newlyFailed <==> DependsOnFailed(nodes, t, failed)
  {
    hide DependsOnFailed, Dependents;
    forall t | DependsOnFailed(nodes, t, failed)
      ensures t in marked
    {
      MarkedIsEverything(nodes, failed, marked, t);
    }
  }

  lemma NothingMarked(nodes: Nodes)
    ensures MarkedFailed(nodes, {}) == nodes
  {
  }

  lemma MarkMore(nodes: Nodes, marked: set<TaskId>, more: set<TaskId>)
    ensures MarkedFailed(MarkedFailed(nodes, marked), more) == MarkedFailed(nodes, marked + more)
  {
  }

  lemma MarkingKeepsIds(nodes: Nodes, marked: set<TaskId>)
    ensures forall t :: t in MarkedFailed(nodes, marked) ==> t in nodes && MarkedFailed(nodes, marked)[t].id == nodes[t].id
  {
  }

  lemma RemainingAfter<T>(all: set<T>, marked: set<T>, more: set<T>)
    requires more <= all && more !! marked
    ensures |all - (marked + more)| == |all - marked| - |more|
  {
    assert all - marked == (all - (marked + more)) + more;
  }

  lemma MarkOneMore(nodes: Nodes, marked: set<TaskId>, t: TaskId)
    requires t in nodes
    ensures WithState(MarkedFailed(nodes, marked), t, Failed) == MarkedFailed(nodes, marked + {t})
  {
  }

  // ---------------------------------------------------------------- the graph

  class TaskGraph {
    var nodes: Nodes

    /** Tasks are stored under their own id. */
    ghost predicate Valid()
      reads this
    {
      forall t :: t in nodes ==> nodes[t].id == t
    }

    constructor ()
      ensures Valid() && nodes == map[]
    {
      nodes := map[];
    }

    method AddTask(node: TaskNode)
      requires Valid()
      modifies this
      ensures Valid()
      ensures nodes == old(nodes)[node.id := node]
    {
      nodes := nodes[node.id := node];
    }

    method AddDependency(taskId: TaskId, dependencyId: TaskId)
      requires Valid()
      modifies this
      ensures Valid()
      ensures nodes == WithDependency(old(nodes), taskId, dependencyId)
    {
      if taskId in nodes {
        var node := nodes[taskId];
        if dependencyId !in node.dependsOn {
          nodes := nodes[taskId := node.(dependsOn := node.dependsOn + [dependencyId])];
        }
      }
    }

    method SetState(taskId: TaskId, state: TaskState)
      requires Valid()
      modifies this
      ensures Valid()
      ensures nodes == WithState(old(nodes), taskId, state)
    {
      if taskId in nodes {
        nodes := nodes[taskId := nodes[taskId].(state := state)];
      }
    }

    /** True exactly when depId depends, directly or not, on taskId. */
    method WouldCreateCycle(taskId: TaskId, depId: TaskId) returns (cycle: bool)
      ensures cycle <==> Reach(Dependencies(nodes), depId, taskId)
    {
      hide Reach;
      ghost var g, all := Dependencies(nodes), Mentioned(nodes, depId);
      ReachRefl(g, depId);
      if taskId == depId {
        return true;
      }
      var visited: set<TaskId> := {};
      var stack := [depId];
      while stack != []
        invariant visited <= all && ToSet(stack) <= all
        invariant forall x :: x in visited || x in stack ==> Reach(g, depId, x)
        invariant depId in visited || depId in stack
        invariant taskId !in visited
        invariant forall x, d :: x in visited && Edge(g, x, d) ==> d in visited || d in stack
        decreases all - visited, |stack|
      {
        var cur := stack[|stack| - 1];
        assert stack == stack[..|stack| - 1] + [cur];
        stack := stack[..|stack| - 1];
        if cur == taskId {
          return true;
        }
        if cur in visited {
          continue;
        }
        visited := visited + {cur};
        if cur in nodes {
          ReachSuccessors(g, depId, cur);
          assert ToSet(nodes[cur].dependsOn) <= all;
          stack := stack + nodes[cur].dependsOn;
        }
      }
      cycle := false;
      assert Closed(g, visited);
      if Reach(g, depId, taskId) {
        ReachStaysInClosed(g, visited, depId, taskId);
      }
    }

    /** Fails exactly the waiting tasks that depend on the failed one through waiting tasks, lists each of them once,
        and changes nothing else. */
    method PropagateFailure(failedTaskId: TaskId) returns (newlyFailed: seq<TaskId>)
      requires Valid()
      modifies this
      ensures Valid()
      ensures forall t :: t in newlyFailed <==> DependsOnFailed(old(nodes), t, failedTaskId)
      ensures Enumerates(newlyFailed, ToSet(newlyFailed))
      ensures forall t :: t in newlyFailed <==> ChainLeads(old(nodes), t, failedTaskId)
      ensures nodes == MarkedFailed(old(nodes), ToSet(newlyFailed))
      ensures nodes.Keys == old(nodes.Keys)
      ensures forall t :: t in nodes ==>
        nodes[t] == if t in newlyFailed then old(nodes)[t].(state := Failed) else old(nodes)[t]
    {
      hide DependsOnFailed, MarkedFailed, Dependents, Spreading, Enumerates, ToSet, Waiting, WithState, ChainLeads;
      ghost var was := nodes;
      ghost var marked: set<TaskId> := {};
      newlyFailed := [];
      var queue := [failedTaskId];
      NothingMarked(was);
      StartSpreading(was, failedTaskId);
      while queue != []
        invariant nodes == MarkedFailed(was, marked)
        invariant Enumerates(newlyFailed, marked)
        invariant Spreading(was, failedTaskId, marked, queue)
        decreases |was.Keys - marked| + |queue|
      {
        var src := queue[|queue| - 1];
        InitAndLast(queue);
        queue := queue[..|queue| - 1];
        DependentsOfRest(was, marked, src);
        var dependents := FailDependents(src);
        ghost var more := Dependents(was, src) - marked;
        MarkMore(was, marked, more);
        SpreadOnce(was, failedTaskId, marked, queue, src, dependents);
        EnumeratesConcat(newlyFailed, marked, dependents, more);
        newlyFailed := newlyFailed + dependents;
        queue := queue + dependents;
        marked := marked + more;
      }
      DoneSpreading(was, failedTaskId, marked, newlyFailed);
      forall t: TaskId
        ensures DependsOnFailed(was, t, failedTaskId) <==> ChainLeads(was, t, failedTaskId)
      {
        DependsExactlyWhenChain(was, t, failedTaskId);
      }
      MarkedMeans(was, newlyFailed);
      MarkingKeepsIds(was, marked);
    }

    /** Fails the waiting tasks that depend directly on src. */
    method FailDependents(src: TaskId) returns (dependents: seq<TaskId>)
      modifies this
      ensures Enumerates(dependents, Dependents(old(nodes), src))
      ensures nodes == MarkedFailed(old(nodes), Dependents(old(nodes), src))
    {
      ghost var was := nodes;
      var rest := Dependents(nodes, src);
      ghost var all := rest;
      dependents := [];
      NothingMarked(was);
      hide MarkedFailed;
      assert all - rest == {};
      while rest != {}
        invariant rest <= all
        invariant Enumerates(dependents, all - rest)
        invariant nodes == MarkedFailed(was, all - rest)
        decreases rest
      {
        var dep :| dep in rest;
        MarkOneMore(was, all - rest, dep);
        EnumeratesAppend(dependents, all - rest, dep);
        assert all - rest + {dep} == all - (rest - {dep});
        nodes := WithState(nodes, dep, Failed);
        dependents := dependents + [dep];
        rest := rest - {dep};
      }
      assert all - rest == all;
    }

    /** Stops at the first dependency that is missing or not Completed. */
    method AllCompleted(dependsOn: seq<TaskId>) returns (all: bool)
      ensures all <==> forall d :: d in dependsOn ==> d in nodes && nodes[d].state == Completed
    {
      for i := 0 to |dependsOn|
        invariant forall k :: 0 <= k < i ==> dependsOn[k] in nodes && nodes[dependsOn[k]].state == Completed
      {
        if dependsOn[i] !in nodes || nodes[dependsOn[i]].state != Completed {
          return false;
        }
      }
      all := true;
    }

    /** Filters the tasks, in whatever order the hash map yields them. */
    method ReadyTasks() returns (ready: seq<TaskId>)
      ensures Enumerates(ready, Ready(nodes))
    {
      ready := [];
      var rest := nodes.Keys;
      while rest != {}
        invariant rest <= nodes.Keys
        invariant Enumerates(ready, Ready(nodes) - rest)
        decreases rest
      {
        var t :| t in rest;
        var isReady := nodes[t].state == Pending;
        if isReady {
          isReady := AllCompleted(nodes[t].dependsOn);
        }
        if isReady {
          assert Ready(nodes) - (rest - {t}) == Ready(nodes) - rest + {t};
          EnumeratesAppend(ready, Ready(nodes) - rest, t);
          ready := ready + [t];
        } else {
          assert Ready(nodes) - (rest - {t}) == Ready(nodes) - rest;
        }
        rest := rest - {t};
      }
      assert Ready(nodes) - rest == Ready(nodes);
    }
  }

  lemma ReachSuccessors(g: Graph<TaskId>, u: TaskId, v: TaskId)
    requires Reach(g, u, v)
    ensures forall w :: Edge(g, v, w) ==> Reach(g, u, w)
  {
    hide Reach;
    forall w | Edge(g, v, w)
      ensures Reach(g, u, w)
    {
      ReachEdge(g, v, w);
      ReachTrans(g, u, v, w);
    }
  }
}
