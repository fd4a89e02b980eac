/** The durable task queue: rows in a table that survives crashes, executions that do not, writes that may fail. */
module TaskQueue {
  import opened Collections
  import opened Wrappers

  datatype TaskId = TaskId(text: string)

  datatype Status = Pending | Failed(error: string)

  datatype Row = Row(taskType: string, caption: string, payload: string, status: Status, createdAt: int, updatedAt: int)

  type Table = map<TaskId, Row>

  const MAX_RETRIES: nat := 3
  const FAILED_RETENTION_SECS: int := 7 * 86_400

  // ---------------------------------------------------------------- the table

  /** An id that is taken makes the insertion fail. */
  function WithPending(t: Table, id: TaskId, taskType: string, caption: string, payload: string, now: int): Table {
    if id in t then t else t[id := Row(taskType, caption, payload, Pending, now, now)]
  }

  function MarkedCompleted(t: Table, id: TaskId): Table {
    t - {id}
  }

  function MarkedFailed(t: Table, id: TaskId, error: string, now: int): Table {
    if id in t then t[id := t[id].(status := Failed(error), updatedAt := now)] else t
  }

  predicate Expired(row: Row, now: int) {
    row.status.Failed? && row.updatedAt < now - FAILED_RETENTION_SECS
  }

  function Pruned(t: Table, now: int): Table {
    map id | id in t && !Expired(t[id], now) :: t[id]
  }

  function PendingIds(t: Table): set<TaskId> {
    set id | id in t && t[id].status == Pending
  }

  /** What a finished execution writes. */
  function Concluded(t: Table, id: TaskId, result: Result<string, string>, now: int): Table {
    match result
    case Ok(_) => MarkedCompleted(t, id)
    case Err(e) => MarkedFailed(t, id, e, now)
  }

  // ---------------------------------------------------------------- retries

  /** A live execution: still trying after some failed attempts, or finished. */
  datatype Live = Trying(failures: nat) | Finished(attempts: nat, result: Result<string, string>)

  function AfterAttempt(live: Live, outcome: Result<string, string>): Live
    requires live.Trying?
  {
    if outcome.Ok? || live.failures + 1 == MAX_RETRIES then Finished(live.failures + 1, outcome)
    else Trying(live.failures + 1)
  }

  /** After n attempts with the given outcomes, or fewer if it finished before. */
  function LiveAfter(outcomes: nat -> Result<string, string>, n: nat): Live {
    if n == 0 then Trying(0)
    else
      var before := LiveAfter(outcomes, n - 1);
      if before.Trying? then AfterAttempt(before, outcomes(before.failures)) else before
  }

  /** 50 ms, doubled each time, at most 5 s. */
  function DelayMs(i: nat): nat {
    if i == 0 then 50 else if 2 * DelayMs(i - 1) < 5000 then 2 * DelayMs(i - 1) else 5000
  }

  /** The delays double six times and are then 5 s for good. */
  lemma {:induction false} DelaysDouble(i: nat)
    ensures i < 7 ==> DelayMs(i) == [50, 100, 200, 400, 800, 1600, 3200][i]
    ensures i >= 7 ==> DelayMs(i) == 5000
  {
    if i > 0 {
      DelaysDouble(i - 1);
    }
  }

  /** The attempts stop at the first success, or with the third failure; that one's error is the answer. The waits
      between them are those of the back-off. */
  method RunWithRetry(outcomes: nat -> Result<string, string>)
    returns (result: Result<string, string>, attempts: nat, waits: seq<nat>)
    ensures 1 <= attempts <= 3 && result == outcomes(attempts - 1)
    ensures forall i :: 0 <= i < attempts - 1 ==> outcomes(i).Err?
    ensures result.Ok? <==> exists i: nat :: i < 3 && outcomes(i).Ok?
    ensures |waits| == attempts - 1 && forall i :: 0 <= i < |waits| ==> waits[i] == DelayMs(i) == [50, 100][i]
    ensures LiveAfter(outcomes, MAX_RETRIES) == Finished(attempts, result)
  {
    var delay := 50;
    waits := [];
    var attempt := 0;
    while attempt < MAX_RETRIES
      invariant attempt <= MAX_RETRIES && |waits| == attempt
      invariant forall i :: 0 <= i < attempt ==> outcomes(i).Err? && waits[i] == DelayMs(i)
      invariant attempt < MAX_RETRIES
      invariant delay == DelayMs(attempt) && LiveAfter(outcomes, attempt) == Trying(attempt)
    {
      var outcome := outcomes(attempt);
      attempts := attempt + 1;
      assert LiveAfter(outcomes, attempt + 1) == AfterAttempt(Trying(attempt), outcome);
      if outcome.Ok? || attempt + 1 == MAX_RETRIES {
        FinishedStays(outcomes, attempt + 1, MAX_RETRIES);
        return outcome, attempts, waits;
      }
      waits := waits + [delay];
      delay := if 2 * delay < 5000 then 2 * delay else 5000;
      attempt := attempt + 1;
    }
  }

  lemma {:induction false} FinishedStays(outcomes: nat -> Result<string, string>, n: nat, m: nat)
    requires n <= m && LiveAfter(outcomes, n).Finished?
    ensures LiveAfter(outcomes, m) == LiveAfter(outcomes, n)
  {
    if n < m {
      FinishedStays(outcomes, n, m - 1);
    }
  }

  // ---------------------------------------------------------------- runs with crashes

  datatype Execution = Execution(id: TaskId, live: Live)

  /** A recovery pass: the rows it read, those it still has to deal with, and the result for the first of them, if it has
      been executed but not recorded yet. */
  datatype Pass = Pass(initial: seq<TaskId>, todo: seq<TaskId>, executed: Option<Result<string, string>>)

  /** The table survives crashes, executions and passes do not. The last two fields are history: the ids ever enqueued
      and the ids of which some execution returned Ok. */
  datatype State = State(
    table: Table,
    lives: map<nat, Execution>,
    passes: map<nat, Pass>,
    used: set<TaskId>,
    succeeded: set<TaskId>)

  const START := State(map[], map[], map[], {}, {})

  datatype Event =
    | Enqueue(run: nat, id: TaskId, taskType: string, caption: string, payload: string, written: bool, now: int)
    | Attempt(run: nat, outcome: Result<string, string>)
    | Conclude(run: nat, written: bool, now: int)
    | Prune(written: bool, now: int)
    | Read(pass: nat, rows: seq<TaskId>)
    | Execute(pass: nat, outcome: Result<string, string>)
    | Record(pass: nat, written: bool, now: int)
    | Crash

  function Succeeding(succeeded: set<TaskId>, id: TaskId, outcome: Result<string, string>): set<TaskId> {
    if outcome.Ok? then succeeded + {id} else succeeded
  }

  ghost predicate Next(s: State, e: Event, s': State) {
    match e
    case Enqueue(run, id, taskType, caption, payload, written, now) =>
      && run !in s.lives && id !in s.used
      && s' == s.(table := if written then WithPending(s.table, id, taskType, caption, payload, now) else s.table,
                  lives := s.lives[run := Execution(id, Trying(0))],
                  used := s.used + {id})
    case Attempt(run, outcome) =>
      && run in s.lives && s.lives[run].live.Trying?
      && s' == s.(lives := s.lives[run := s.lives[run].(live := AfterAttempt(s.lives[run].live, outcome))],
                  succeeded := Succeeding(s.succeeded, s.lives[run].id, outcome))
    case Conclude(run, written, now) =>
      && run in s.lives && s.lives[run].live.Finished?
      && s' == s.(lives := s.lives - {run},
                  table := if written then Concluded(s.table, s.lives[run].id, s.lives[run].live.result, now) else s.table)
    case Prune(written, now) =>
      s' == s.(table := if written then Pruned(s.table, now) else s.table)
    case Read(pass, rows) =>
      && pass !in s.passes && Enumerates(rows, PendingIds(s.table))
      && s' == s.(passes := s.passes[pass := Pass(rows, rows, None)])
    case Execute(pass, outcome) =>
      && pass in s.passes && s.passes[pass].todo != [] && s.passes[pass].executed.None?
      && s' == s.(passes := s.passes[pass := s.passes[pass].(executed := Some(outcome))],
                  succeeded := Succeeding(s.succeeded, s.passes[pass].todo[0], outcome))
    case Record(pass, written, now) =>
      && pass in s.passes && s.passes[pass].todo != [] && s.passes[pass].executed.Some?
      && var p := s.passes[pass];
         s' == s.(passes := s.passes[pass := p.(todo := p.todo[1..], executed := None)],
                  table := if written then Concluded(s.table, p.todo[0], p.executed.value, now) else s.table)
    case Crash =>
      s' == s.(lives := map[], passes := map[])
  }

  ghost predicate IsRun(states: seq<State>, events: seq<Event>) {
    && |states| == |events| + 1
    && states[0] == START
    && forall i :: 0 <= i < |events| ==> Next(states[i], events[i], states[i + 1])
  }

  // ---------------------------------------------------------------- what every step keeps

  /** Attempts are counted right and end with the third; only successful executions are about to delete a row. */
  predicate LiveInv(s: State, x: Execution) {
    && x.id in s.used
    && match x.live
       case Trying(failures) => failures < MAX_RETRIES
       case Finished(attempts, result) =>
         && 1 <= attempts <= MAX_RETRIES
         && (result.Err? ==> attempts == MAX_RETRIES)
         && (result.Ok? ==> x.id in s.succeeded)
  }

  predicate PassInv(s: State, p: Pass) {
    && (p.executed.Some? ==> p.todo != [] && (p.executed.value.Ok? ==> p.todo[0] in s.succeeded))
    && |p.todo| <= |p.initial| && p.todo == p.initial[|p.initial| - |p.todo|..]
    && forall id :: id in p.initial ==> id in s.used
  }

  ghost predicate Inv(s: State) {
    && s.table.Keys <= s.used
    && (forall run :: run in s.lives ==> LiveInv(s, s.lives[run]))
    && forall pass :: pass in s.passes ==> PassInv(s, s.passes[pass])
  }

  lemma StepKeepsLives(s: State, e: Event, s': State)
    requires Inv(s) && Next(s, e, s')
    ensures s'.table.Keys <= s'.used && s.used <= s'.used && s.succeeded <= s'.succeeded
    ensures forall run :: run in s'.lives ==> LiveInv(s', s'.lives[run])
  {
    hide PassInv;
    forall run | run in s'.lives
      ensures LiveInv(s', s'.lives[run])
    {
      assert run in s.lives ==> LiveInv(s, s.lives[run]);
    }
  }

  lemma StepKeepsPasses(s: State, e: Event, s': State)
    requires Inv(s) && Next(s, e, s') && s.used <= s'.used && s.succeeded <= s'.succeeded
    ensures forall pass :: pass in s'.passes ==> PassInv(s', s'.passes[pass])
  {
    hide Next, LiveInv, PassInv;
    forall pass | pass in s'.passes
      ensures PassInv(s', s'.passes[pass])
    {
      assert pass in s.passes ==> PassInv(s, s.passes[pass]);
      StepKeepsPassInv(s, e, s', pass);
    }
  }

  lemma StepKeepsPassInv(s: State, e: Event, s': State, pass: nat)
    requires Next(s, e, s') && s.used <= s'.used && s.succeeded <= s'.succeeded && s.table.Keys <= s.used
    requires pass in s'.passes && (pass in s.passes ==> PassInv(s, s.passes[pass]))
    ensures PassInv(s', s'.passes[pass])
  {
    hide AfterAttempt, Concluded, WithPending, Pruned, Enumerates;
    if e.Read? && e.pass == pass {
      EnumeratesPending(s, e.rows);
    }
  }

  lemma EnumeratesPending(s: State, rows: seq<TaskId>)
    requires s.table.Keys <= s.used && Enumerates(rows, PendingIds(s.table))
    ensures forall id :: id in rows ==> id in s.used
  {
  }

  lemma StepKeepsInv(s: State, e: Event, s': State)
    requires Inv(s) && Next(s, e, s')
    ensures Inv(s') && s.used <= s'.used && s.succeeded <= s'.succeeded
  {
    hide Next, LiveInv, PassInv;
    StepKeepsLives(s, e, s');
    StepKeepsPasses(s, e, s');
  }

  lemma {:induction false} RunKeepsInv(states: seq<State>, events: seq<Event>, i: nat)
    requires IsRun(states, events) && i < |states|
    ensures Inv(states[i])
  {
    if i > 0 {
      RunKeepsInv(states, events, i - 1);
      assert Next(states[i - 1], events[i - 1], states[i]);
      StepKeepsInv(states[i - 1], events[i - 1], states[i]);
    }
  }

  /** In every run no live execution makes more than three attempts, and it gives up only after three. */
  lemma AtMostThreeAttempts(states: seq<State>, events: seq<Event>, i: nat, run: nat)
    requires IsRun(states, events) && i < |states| && run in states[i].lives
    ensures
      match states[i].lives[run].live
      case Trying(failures) => failures < 3
      case Finished(attempts, result) => attempts <= 3 && (result.Err? ==> attempts == 3)
  {
    RunKeepsInv(states, events, i);
    assert LiveInv(states[i], states[i].lives[run]);
  }

  // ---------------------------------------------------------------- nothing is lost

  /** The step prunes the row, which failed more than the retention time before. */
  predicate PrunedAway(s: State, e: Event, id: TaskId) {
    e.Prune? && e.written && id in s.table && Expired(s.table[id], e.now)
  }

  lemma DeletedOnlyWhen(s: State, e: Event, s': State, id: TaskId)
    requires Inv(s) && Next(s, e, s') && id in s.table && id !in s'.table
    ensures id in s.succeeded || PrunedAway(s, e, id)
  {
    match e
    case Conclude(run, _, _) =>
      assert LiveInv(s, s.lives[run]);
    case Record(pass, _, _) =>
      assert PassInv(s, s.passes[pass]);
    case _ =>
  }

  lemma {:induction false} LostOnlyWhen(states: seq<State>, events: seq<Event>, i: nat, j: nat, id: TaskId)
    requires IsRun(states, events) && i <= j < |states| && id in states[i].table && id !in states[j].table
    ensures id in states[j].succeeded || exists k :: i <= k < j && PrunedAway(states[k], events[k], id)
    decreases j
  {
    RunKeepsInv(states, events, j - 1);
    assert Next(states[j - 1], events[j - 1], states[j]);
    StepKeepsInv(states[j - 1], events[j - 1], states[j]);
    if id in states[j - 1].table {
      DeletedOnlyWhen(states[j - 1], events[j - 1], states[j], id);
    } else {
      LostOnlyWhen(states, events, i, j - 1, id);
    }
  }

  /** In this step an execution of the task returns Ok. */
  predicate ReturnsOk(s: State, e: Event, id: TaskId) {
    || (e.Attempt? && e.run in s.lives && s.lives[e.run].id == id && e.outcome.Ok?)
    || (e.Execute? && e.pass in s.passes && s.passes[e.pass].todo != [] && s.passes[e.pass].todo[0] == id
        && e.outcome.Ok?)
  }

  /** The step writes, at time at, that the task failed with this error. */
  predicate WritesFailure(s: State, e: Event, id: TaskId, error: string, at: int) {
    || (e.Conclude? && e.written && e.now == at && e.run in s.lives && s.lives[e.run].id == id
        && s.lives[e.run].live.Finished? && s.lives[e.run].live.result == Err(error))
    || (e.Record? && e.written && e.now == at && e.pass in s.passes && s.passes[e.pass].todo != []
        && s.passes[e.pass].todo[0] == id && s.passes[e.pass].executed == Some(Err(error)))
  }

  ghost predicate EverReturnedOk(states: seq<State>, events: seq<Event>, j: nat, id: TaskId)
    requires j <= |states| && j <= |events|
  {
    exists k :: 0 <= k < j && ReturnsOk(states[k], events[k], id)
  }

  lemma {:induction false} SucceededReturnedOk(states: seq<State>, events: seq<Event>, j: nat, id: TaskId)
    requires IsRun(states, events) && j < |states| && id in states[j].succeeded
    ensures EverReturnedOk(states, events, j, id)
  {
    if j > 0 {
      assert Next(states[j - 1], events[j - 1], states[j - 1 + 1]);
      if id in states[j - 1].succeeded {
        SucceededReturnedOk(states, events, j - 1, id);
        var k :| 0 <= k < j - 1 && ReturnsOk(states[k], events[k], id);
        assert k < j;
      } else {
        assert ReturnsOk(states[j - 1], events[j - 1], id);
      }
    }
  }

  lemma FailedByStep(s: State, e: Event, s': State, id: TaskId)
    requires Next(s, e, s') && id in s'.table && s'.table[id].status.Failed?
    ensures (id in s.table && s.table[id] == s'.table[id])
            || WritesFailure(s, e, id, s'.table[id].status.error, s'.table[id].updatedAt)
  {
  }

  /** A row that is failed was written so, with its error and at its time. */
  lemma {:induction false} FailedWasWritten(states: seq<State>, events: seq<Event>, j: nat, id: TaskId) returns (k: nat)
    requires IsRun(states, events) && j < |states| && id in states[j].table && states[j].table[id].status.Failed?
    ensures k < j
    ensures WritesFailure(states[k], events[k], id, states[j].table[id].status.error, states[j].table[id].updatedAt)
  {
    assert Next(states[j - 1], events[j - 1], states[j - 1 + 1]);
    FailedByStep(states[j - 1], events[j - 1], states[j], id);
    if id in states[j - 1].table && states[j - 1].table[id] == states[j].table[id] {
      k := FailedWasWritten(states, events, j - 1, id);
    } else {
      k := j - 1;
    }
  }

  /** A failure was written at the k-th step, and the l-th prunes more than seven days later. */
  predicate FailedAndPruned(states: seq<State>, events: seq<Event>, k: nat, l: nat, id: TaskId, error: string, at: int)
    requires k < |states| && k < l < |events|
  {
    && WritesFailure(states[k], events[k], id, error, at)
    && events[l].Prune? && events[l].written && events[l].now - at > 604_800
  }

  /** Whatever crashes, fails to write or overlaps: when a row is gone, some execution of its task had returned Ok, or a
      failure had been written for it and a later step pruned more than seven days after the time of that writing. */
  lemma NeverSilentlyLost(states: seq<State>, events: seq<Event>, i: nat, j: nat, id: TaskId)
    requires IsRun(states, events) && i <= j < |states| && id in states[i].table && id !in states[j].table
    ensures
      || EverReturnedOk(states, events, j, id)
      || exists k: nat, l: nat, error, at :: i <= l && k < l < j && FailedAndPruned(states, events, k, l, id, error, at)
  {
    LostOnlyWhen(states, events, i, j, id);
    if id in states[j].succeeded {
      SucceededReturnedOk(states, events, j, id);
    } else {
      var l :| i <= l < j && PrunedAway(states[l], events[l], id);
      var row := states[l].table[id];
      var k := FailedWasWritten(states, events, l, id);
      assert FailedAndPruned(states, events, k, l, id, row.status.error, row.updatedAt);
    }
  }

  /** The step writes no verdict on the task, and if it prunes, it is at most seven days after the given time. */
  predicate TooEarlyFor(s: State, e: Event, id: TaskId, at: int) {
    !Judges(s, e, id) && (e.Prune? ==> e.now - at <= 604_800)
  }

  lemma StepOfRun(states: seq<State>, events: seq<Event>, k: nat)
    requires IsRun(states, events) && k < |events|
    ensures |states| == |events| + 1 && Next(states[k], events[k], states[k + 1])
  {
    hide Next;
  }

  lemma FailureIsKept(s: State, e: Event, s': State, id: TaskId)
    requires Next(s, e, s') && id in s.table && s.table[id].status.Failed?
    requires TooEarlyFor(s, e, id, s.table[id].updatedAt)
    ensures id in s'.table && s'.table[id] == s.table[id]
  {
  }

  lemma FailureIsWritten(s: State, e: Event, s': State, id: TaskId, error: string, at: int)
    requires Next(s, e, s') && WritesFailure(s, e, id, error, at) && id in s.table
    ensures id in s'.table && s'.table[id] == s.table[id].(status := Failed(error), updatedAt := at)
  {
  }

  predicate HasRow(s: State, id: TaskId, row: Row) {
    id in s.table && s.table[id] == row
  }

  lemma {:induction false} FailedRowStays(states: seq<State>, events: seq<Event>, i: nat, j: nat, id: TaskId, row: Row)
    requires IsRun(states, events) && i <= j < |states| && HasRow(states[i], id, row) && row.status.Failed?
    requires forall k :: i <= k < j ==> TooEarlyFor(states[k], events[k], id, row.updatedAt)
    ensures HasRow(states[j], id, row)
    decreases j
  {
    hide Next, TooEarlyFor;
    if i < j {
      FailedRowStays(states, events, i, j - 1, id, row);
      StepOfRun(states, events, j - 1);
      FailureIsKept(states[j - 1], events[j - 1], states[j], id);
    }
  }

  /** A failure that is written stays in the table, with its error and its time, through all prunings within seven days, as
      long as no later verdict on the task is written. */
  lemma FailedStaysSevenDays(states: seq<State>, events: seq<Event>, i: nat, j: nat, id: TaskId, error: string, at: int)
    requires IsRun(states, events) && i < j < |states| && id in states[i].table
    requires WritesFailure(states[i], events[i], id, error, at)
    requires forall k :: i < k < j ==> TooEarlyFor(states[k], events[k], id, at)
    ensures HasRow(states[j], id, states[i].table[id].(status := Failed(error), updatedAt := at))
  {
    hide Next, TooEarlyFor, WritesFailure;
    StepOfRun(states, events, i);
    FailureIsWritten(states[i], events[i], states[i + 1], id, error, at);
    FailedRowStays(states, events, i + 1, j, id, states[i + 1].table[id]);
  }

  /** The step writes a verdict on the task. */
  predicate Judges(s: State, e: Event, id: TaskId) {
    || (e.Conclude? && e.run in s.lives && s.lives[e.run].id == id)
    || (e.Record? && e.pass in s.passes && s.passes[e.pass].todo != [] && s.passes[e.pass].todo[0] == id)
  }

  /** A pending row stays exactly as it is, through any number of crashes, until an execution of the task has finished
      and its result is written; so the next recovery pass finds it. */
  lemma {:induction false} StaysPendingUntilJudged(states: seq<State>, events: seq<Event>, i: nat, j: nat, id: TaskId)
    requires IsRun(states, events) && i <= j < |states|
    requires id in states[i].table && states[i].table[id].status == Pending
    requires forall k :: i <= k < j ==> !Judges(states[k], events[k], id)
    ensures id in states[j].table && states[j].table[id] == states[i].table[id]
    decreases j
  {
    if i < j {
      StaysPendingUntilJudged(states, events, i, j - 1, id);
      assert Next(states[j - 1], events[j - 1], states[j]);
    }
  }

  /** The step enqueues the task and writes the row as it is. */
  predicate Enqueues(e: Event, id: TaskId, row: Row) {
    && e.Enqueue? && e.written && e.id == id
    && e.taskType == row.taskType && e.caption == row.caption && e.payload == row.payload && e.now == row.createdAt
  }

  lemma RowByStep(s: State, e: Event, s': State, id: TaskId)
    requires Next(s, e, s') && id in s'.table
    ensures
      || (id in s.table && s'.table[id] == s.table[id].(status := s'.table[id].status, updatedAt := s'.table[id].updatedAt))
      || Enqueues(e, id, s'.table[id])
  {
  }

  /** Type, caption, payload and time of every row are those with which its task was enqueued. */
  lemma {:induction false} RowsAreAsEnqueued(states: seq<State>, events: seq<Event>, j: nat, id: TaskId) returns (k: nat)
    requires IsRun(states, events) && j < |states| && id in states[j].table
    ensures k < j && Enqueues(events[k], id, states[j].table[id])
  {
    hide Next;
    StepOfRun(states, events, j - 1);
    RowByStep(states[j - 1], events[j - 1], states[j], id);
    if Enqueues(events[j - 1], id, states[j].table[id]) {
      k := j - 1;
    } else {
      k := RowsAreAsEnqueued(states, events, j - 1, id);
    }
  }

  // ---------------------------------------------------------------- recovery

  /** Rows that the pass has dealt with are no longer pending. */
  ghost predicate DealtWith(s: State, pass: nat, initial: seq<TaskId>) {
    && pass in s.passes && s.passes[pass].initial == initial
    && forall i :: 0 <= i < |initial| - |s.passes[pass].todo| ==> initial[i] !in PendingIds(s.table)
  }

  /** The pass loses no write and no crash cuts it off. */
  predicate GoesWell(e: Event, pass: nat) {
    !e.Crash? && (e.Record? && e.pass == pass ==> e.written)
  }

  /** No known task becomes pending again. */
  lemma NeverPendingAgain(s: State, e: Event, s': State, id: TaskId)
    requires Next(s, e, s') && id in s.used && id !in PendingIds(s.table)
    ensures id !in PendingIds(s'.table)
  {
  }

  lemma RecordedIsNotPending(s: State, e: Event, s': State)
    requires Next(s, e, s') && e.Record? && e.written
    ensures s.passes[e.pass].todo[0] !in PendingIds(s'.table)
  {
  }

  lemma StepKeepsPass(s: State, e: Event, s': State, pass: nat)
    requires Next(s, e, s') && pass in s.passes && !e.Crash?
    ensures pass in s'.passes && s'.passes[pass].initial == s.passes[pass].initial
    ensures s'.passes[pass].todo == s.passes[pass].todo
            || (e.Record? && e.pass == pass && s.passes[pass].todo != [] && s'.passes[pass].todo == s.passes[pass].todo[1..])
  {
  }

  lemma StepDealsWith(s: State, e: Event, s': State, pass: nat, initial: seq<TaskId>)
    requires Inv(s) && Next(s, e, s') && DealtWith(s, pass, initial) && GoesWell(e, pass)
    ensures DealtWith(s', pass, initial)
  {
    hide Next, PendingIds, LiveInv;
    assert PassInv(s, s.passes[pass]);
    StepKeepsPass(s, e, s', pass);
    var p, p' := s.passes[pass], s'.passes[pass];
    forall i | 0 <= i < |initial| - |p'.todo|
      ensures initial[i] !in PendingIds(s'.table)
    {
      assert initial[i] in initial;
      if i < |initial| - |p.todo| {
        NeverPendingAgain(s, e, s', initial[i]);
      } else {
        RecordedIsNotPending(s, e, s');
      }
    }
  }

  /** A recovery pass that is not cut off and whose writes succeed leaves none of the rows it read pending, whatever
      other passes and live executions do meanwhile. */
  lemma RecoveryLeavesNonePending(states: seq<State>, events: seq<Event>, i: nat, j: nat)
    requires IsRun(states, events) && i < j < |states| && events[i].Read?
    requires forall k :: i < k < j ==> GoesWell(events[k], events[i].pass)
    ensures events[i].pass in states[j].passes
    ensures states[j].passes[events[i].pass].todo == [] ==>
      forall id :: id in PendingIds(states[i].table) ==> id !in PendingIds(states[j].table)
  {
    RecoveryProgress(states, events, i, j);
    var pass, rows := events[i].pass, events[i].rows;
    assert Next(states[i], events[i], states[i + 1]);
    if states[j].passes[pass].todo == [] {
      forall id | id in PendingIds(states[i].table)
        ensures id !in PendingIds(states[j].table)
      {
        assert id in rows;
        var n :| 0 <= n < |rows| && rows[n] == id;
      }
    }
  }

  lemma {:induction false} RecoveryProgress(states: seq<State>, events: seq<Event>, i: nat, j: nat)
    requires IsRun(states, events) && i < j < |states| && events[i].Read?
    requires forall k :: i < k < j ==> GoesWell(events[k], events[i].pass)
    ensures DealtWith(states[j], events[i].pass, events[i].rows)
    decreases j
  {
    assert Next(states[j - 1], events[j - 1], states[j]);
    if i + 1 < j {
      RecoveryProgress(states, events, i, j - 1);
      RunKeepsInv(states, events, j - 1);
      StepDealsWith(states[j - 1], events[j - 1], states[j], events[i].pass, events[i].rows);
    }
  }

  // ---------------------------------------------------------------- the store

  /** A pending row is executed; its result is written unless the write fails. Every other row is left alone. */
  ghost predicate RecoveredRow(before: Table, after: Table, id: TaskId, executor: (string, string) -> Result<string, string>,
                               writable: TaskId -> bool, now: int)
  {
    if id !in before || before[id].status != Pending || !writable(id) then
      (id in after <==> id in before) && (id in before ==> after[id] == before[id])
    else
      var row := before[id];
      match executor(row.taskType, row.payload)
      case Ok(_) => id !in after
      case Err(e) => id in after && after[id] == row.(status := Failed(e), updatedAt := now)
  }

  predicate Succeeds(t: Table, executor: (string, string) -> Result<string, string>, id: TaskId) {
    id in t && executor(t[id].taskType, t[id].payload).Ok?
  }

  predicate NoYounger(t: Table, a: TaskId, b: TaskId) {
    a in t && b in t && t[a].createdAt <= t[b].createdAt
  }

  ghost predicate OlderFirst(t: Table, ids: seq<TaskId>) {
    forall i, j :: 0 <= i < j < |ids| ==> NoYounger(t, ids[i], ids[j])
  }

  lemma ListsPending(t: Table, ids: seq<TaskId>)
    requires Enumerates(ids, PendingIds(t))
    ensures forall id :: id in ids <==> id in t && t[id].status == Pending
  {
  }

  lemma OldestFirst(t: Table, ids: seq<TaskId>)
    requires OlderFirst(t, ids) && forall id :: id in ids ==> id in t
    ensures forall i, j :: 0 <= i < j < |ids| ==> t[ids[i]].createdAt <= t[ids[j]].createdAt
  {
    assert forall i, j :: 0 <= i < j < |ids| ==> NoYounger(t, ids[i], ids[j]);
  }

  lemma OneMoreListed(t: Table, ids: seq<TaskId>, id: TaskId)
    requires OlderFirst(t, ids) && forall before :: before in ids ==> NoYounger(t, before, id)
    ensures OlderFirst(t, ids + [id])
    ensures forall x :: x in ids + [id] <==> x in ids || x == id
  {
  }

  predicate SameRow(before: Table, after: Table, id: TaskId) {
    (id in after <==> id in before) && (id in before ==> after[id] == before[id])
  }

  /** The rows in done have been dealt with, the others not. */
  ghost predicate RecoveredSoFar(base: Table, t: Table, done: seq<TaskId>, executor: (string, string) -> Result<string, string>,
                                 writable: TaskId -> bool, now: int)
  {
    && (forall id :: id !in done ==> SameRow(base, t, id))
    && forall id :: id in done ==> RecoveredRow(base, t, id, executor, writable, now)
  }

  lemma OneMoreRecovered(base: Table, t: Table, done: seq<TaskId>, id: TaskId,
                         executor: (string, string) -> Result<string, string>, writable: TaskId -> bool, now: int)
    requires RecoveredSoFar(base, t, done, executor, writable, now) && id !in done && id in PendingIds(base)
    ensures id in t && t[id] == base[id]
    ensures
      var t' := if writable(id) then Concluded(t, id, executor(t[id].taskType, t[id].payload), now) else t;
      RecoveredSoFar(base, t', done + [id], executor, writable, now)
  {
    assert SameRow(base, t, id);
    var t' := if writable(id) then Concluded(t, id, executor(t[id].taskType, t[id].payload), now) else t;
    forall other | other in done + [id]
      ensures RecoveredRow(base, t', other, executor, writable, now)
    {
      assert other != id ==> RecoveredRow(base, t, other, executor, writable, now);
    }
    forall other | other !in done + [id]
      ensures SameRow(base, t', other)
    {
      assert id in done + [id];
      assert SameRow(base, t, other);
    }
  }

  function Successes(t: Table, executor: (string, string) -> Result<string, string>, ids: seq<TaskId>): nat {
    if ids == [] then 0
    else Successes(t, executor, ids[..|ids| - 1]) + if Succeeds(t, executor, ids[|ids| - 1]) then 1 else 0
  }

  lemma {:induction false} SuccessesCount(t: Table, executor: (string, string) -> Result<string, string>, ids: seq<TaskId>,
                                          s: set<TaskId>)
    requires Enumerates(ids, s)
    ensures Successes(t, executor, ids) == |set id | id in s && Succeeds(t, executor, id)|
  {
    if ids != [] {
      EnumeratesInit(ids, s);
      hide Enumerates, Succeeds;
      var init, last := ids[..|ids| - 1], ids[|ids| - 1];
      SuccessesCount(t, executor, init, s - {last});
      var all := set id | id in s && Succeeds(t, executor, id);
      var fewer := set id | id in s - {last} && Succeeds(t, executor, id);
      assert Succeeds(t, executor, last) ==> all == fewer + {last};
      assert !Succeeds(t, executor, last) ==> all == fewer;
    } else {
      assert forall id :: id !in s;
      assert (set id | id in s && Succeeds(t, executor, id)) == {};
    }
  }

  class TaskStore {
    var rows: Table

    constructor ()
      ensures rows == map[]
    {
      rows := map[];
    }

    method InsertPending(id: TaskId, taskType: string, caption: string, payload: string, now: int)
      modifies this
      ensures rows == WithPending(old(rows), id, taskType, caption, payload, now)
      ensures rows == if id in old(rows) then old(rows)
                      else old(rows)[id := Row(taskType, caption, payload, Pending, now, now)]
    {
      if id !in rows {
        rows := rows[id := Row(taskType, caption, payload, Pending, now, now)];
      }
    }

    method MarkCompleted(id: TaskId)
      modifies this
      ensures rows == MarkedCompleted(old(rows), id)
    {
      rows := rows - {id};
    }

    method MarkFailed(id: TaskId, error: string, now: int)
      modifies this
      ensures rows == MarkedFailed(old(rows), id, error, now)
      ensures rows.Keys == old(rows.Keys)
      ensures id in rows ==> rows[id] == old(rows)[id].(status := Failed(error), updatedAt := now)
      ensures forall other :: other in rows && other != id ==> rows[other] == old(rows)[other]
    {
      if id in rows {
        rows := rows[id := rows[id].(status := Failed(error), updatedAt := now)];
      }
    }

    method PruneOldFailures(now: int)
      modifies this
      ensures rows == Pruned(old(rows), now)
      ensures forall id :: id in rows <==>
        id in old(rows) && !(old(rows)[id].status.Failed? && now - old(rows)[id].updatedAt > 604_800)
      ensures forall id :: id in rows ==> rows[id] == old(rows)[id]
    {
      rows := map id | id in rows && !Expired(rows[id], now) :: rows[id];
    }

    /** The ids of the pending rows, oldest first. */
    method ListPending() returns (ids: seq<TaskId>)
      ensures Enumerates(ids, PendingIds(rows))
      ensures OlderFirst(rows, ids)
      ensures forall id :: id in ids <==> id in rows && rows[id].status == Pending
      ensures forall i, j :: 0 <= i < j < |ids| ==> rows[ids[i]].createdAt <= rows[ids[j]].createdAt
    {
      ids := [];
      var rest := PendingIds(rows);
      assert Enumerates(ids, PendingIds(rows) - rest);
      hide Enumerates, OlderFirst, NoYounger;
      while rest != {}
        invariant rest <= PendingIds(rows) && Enumerates(ids, PendingIds(rows) - rest)
        invariant OlderFirst(rows, ids)
        invariant forall id, later :: id in ids && later in rest ==> NoYounger(rows, id, later)
        decreases |rest|
      {
        var id := Oldest(rest);
        EnumeratesAppend(ids, PendingIds(rows) - rest, id);
        OneMoreListed(rows, ids, id);
        assert PendingIds(rows) - rest + {id} == PendingIds(rows) - (rest - {id});
        ids := ids + [id];
        rest := rest - {id};
      }
      assert PendingIds(rows) - rest == PendingIds(rows);
      ListsPending(rows, ids);
      OldestFirst(rows, ids);
    }

    method Oldest(ids: set<TaskId>) returns (id: TaskId)
      requires ids != {} && forall id :: id in ids ==> id in rows
      ensures id in ids && forall other :: other in ids ==> NoYounger(rows, id, other)
    {
      id :| id in ids;
      var rest := ids - {id};
      while rest != {}
        invariant id in ids && rest <= ids
        invariant forall other :: other in ids - rest ==> NoYounger(rows, id, other)
        decreases |rest|
      {
        var other :| other in rest;
        ghost var before := id;
        if rows[other].createdAt < rows[id].createdAt {
          id := other;
        }
        assert forall x :: x in ids - rest ==> NoYounger(rows, before, x) && NoYounger(rows, id, x);
        rest := rest - {other};
      }
    }

    /** Old failures go; then every pending row is executed once and its result written, unless that write fails. The
        answer is the number of successes. */
    method RecoverPending(executor: (string, string) -> Result<string, string>, pruning: bool, readable: bool,
                          writable: TaskId -> bool, now: int) returns (recovered: nat)
      modifies this
      ensures
        var base := if pruning then Pruned(old(rows), now) else old(rows);
        if readable then
          (forall id :: RecoveredRow(base, rows, id, executor, writable, now))
          && recovered == |set id | id in PendingIds(base) && Succeeds(base, executor, id)|
        else rows == base && recovered == 0
    {
      if pruning {
        PruneOldFailures(now);
      }
      recovered := 0;
      if !readable {
        return;
      }
      ghost var base := rows;
      var pending := ListPending();
      for i := 0 to |pending|
        invariant RecoveredSoFar(base, rows, pending[..i], executor, writable, now)
        invariant recovered == Successes(base, executor, pending[..i])
      {
        var id := pending[i];
        assert pending[..i + 1] == pending[..i] + [id];
        assert pending[..i + 1][..i] == pending[..i];
        OneMoreRecovered(base, rows, pending[..i], id, executor, writable, now);
        hide RecoveredSoFar, PendingIds;
        var result := executor(rows[id].taskType, rows[id].payload);
        match result
        case Ok(_) =>
          if writable(id) {
            MarkCompleted(id);
          }
          recovered := recovered + 1;
        case Err(e) =>
          if writable(id) {
            MarkFailed(id, e, now);
          }
      }
      assert pending[..|pending|] == pending;
      AllRecovered(base, rows, pending, executor, writable, now);
      SuccessesCount(base, executor, pending, PendingIds(base));
    }
  }

  lemma AllRecovered(base: Table, t: Table, pending: seq<TaskId>, executor: (string, string) -> Result<string, string>,
                     writable: TaskId -> bool, now: int)
    requires RecoveredSoFar(base, t, pending, executor, writable, now) && Enumerates(pending, PendingIds(base))
    ensures forall id :: RecoveredRow(base, t, id, executor, writable, now)
  {
    forall id
      ensures RecoveredRow(base, t, id, executor, writable, now)
    {
      if id !in pending {
        assert SameRow(base, t, id);
        assert id !in PendingIds(base);
      }
    }
  }
}
