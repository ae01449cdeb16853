/** The task queue: popping a queued task (internal/models/task.go) and the guard of a popped one
    (internal/invoker/tasks.go). */
module TaskQueue {
  import opened Options

  datatype Status = Queued | Running | Succeeded | Failed

  datatype Task = Task(kind: int, status: Status, state: string, expireTime: int)

  const POP_LIMIT := 10

  // ---- Popping ----

  /** The answer to the query for queued tasks: the first ten by id. */
  ghost predicate IsQueuedQuery(ids: seq<int>, rows: map<int, Task>) {
    && |ids| <= POP_LIMIT
    && (forall i, j :: 0 <= i < j < |ids| ==> ids[i] < ids[j])
    && (forall i :: 0 <= i < |ids| ==> ids[i] in rows && rows[ids[i]].status.Queued?)
    && (forall id :: id in rows && rows[id].status.Queued? && id !in ids ==>
          |ids| == POP_LIMIT && forall i :: 0 <= i < |ids| ==> ids[i] < id)
  }

  // ---- Workers ----

  // What a guard asks the store to change.
  datatype Change = SetStatus(status: Status) | SetState(state: string) | Ping(duration: int)

  /** A guard and its copy of the task. Its mutex is held from the check to the end of the update. */
  datatype Guard = Guard(id: int, task: Task, writing: Option<Task>)

  datatype State = State(
    now: int,
    rows: map<int, Task>,
    guards: map<int, Guard>,
    history: map<int, seq<Status>>)   // the statuses each task went through

  datatype Step =
    | Tick(now: int)
    | Create(id: int, task: Task)
    | Pop(guard: int, id: int, duration: int)
    | Check(guard: int, change: Change, later: int)   // check(), and the new row, computed a little later
    | Write(guard: int)                     // the update lands
    | WriteFails(guard: int)
    | Defer(guard: int, state: string)      // SetDeferredState

  const MIN_DURATION := 2

  predicate Usable(s: State, g: Guard) {
    g.task.status.Running? && s.now < g.task.expireTime
  }

  function Changed(now: int, t: Task, c: Change): Task {
    match c
    case SetStatus(status) => t.(status := status)
    case SetState(state) => t.(state := state)
    case Ping(d) => t.(expireTime := now + if d < MIN_DURATION then MIN_DURATION else d)
  }

  function Record(h: seq<Status>, status: Status): seq<Status> {
    if h != [] && h[|h| - 1] == status then h else h + [status]
  }

  ghost predicate Next(s: State, step: Step, s': State) {
    match step
    case Tick(now) => now >= s.now && s' == s.(now := now)
    case Create(id, task) =>
      id !in s.rows && task.status.Queued? && s' == s.(rows := s.rows[id := task], history := s.history[id := [Queued]])
    case Pop(g, id, d) =>
      && g !in s.guards && id in s.rows && s.rows[id].status.Queued? && id in s.history
      && var t := s.rows[id].(status := Running, expireTime := s.now + d);
      s' == s.(rows := s.rows[id := t], guards := s.guards[g := Guard(id, t, None)],
               history := s.history[id := Record(s.history[id], Running)])
    case Check(g, c, later) =>
      && g in s.guards && s.guards[g].writing.None? && later >= s.now
      && (c.SetStatus? ==> c.status.Succeeded? || c.status.Failed?)
      && s' == if Usable(s, s.guards[g])
               then s.(now := later,
                       guards := s.guards[g := s.guards[g].(writing := Some(Changed(later, s.guards[g].task, c)))])
               else s.(now := later)
    case Write(g) =>
      && g in s.guards && s.guards[g].writing.Some? && s.guards[g].id in s.history
      // The update runs under a deadline at the expiry.
      && s.now <= s.guards[g].task.expireTime
      && var t, id := s.guards[g].writing.value, s.guards[g].id;
      s' == s.(rows := s.rows[id := t], guards := s.guards[g := Guard(id, t, None)],
               history := s.history[id := Record(s.history[id], t.status)])
    case WriteFails(g) =>
      g in s.guards && s.guards[g].writing.Some? && s' == s.(guards := s.guards[g := s.guards[g].(writing := None)])
    case Defer(g, state) =>
      && g in s.guards && s.guards[g].writing.None?
      && s' == if Usable(s, s.guards[g])
               then s.(guards := s.guards[g := s.guards[g].(task := s.guards[g].task.(state := state))])
               else s
  }

  ghost predicate Initial(s: State) {
    s.rows == map[] && s.guards == map[] && s.history == map[]
  }

  // ---- Every run ----

  /** Queued, Running, then one of Succeeded and Failed. */
  predicate Legal(h: seq<Status>) {
    h == [Queued] || h == [Queued, Running] || h == [Queued, Running, Succeeded] || h == [Queued, Running, Failed]
  }

  ghost predicate GuardInv(s: State, g: int)
    requires g in s.guards
  {
    var guard := s.guards[g];
    && guard.id in s.rows && !guard.task.status.Queued?
    && s.rows[guard.id].status == guard.task.status && s.rows[guard.id].expireTime == guard.task.expireTime
    && (guard.writing.Some? ==> guard.task.status.Running? && !guard.writing.value.status.Queued?)
  }

  ghost predicate Inv(s: State) {
    && s.history.Keys == s.rows.Keys
    && (forall id :: id in s.rows ==> Legal(s.history[id]) && s.history[id][|s.history[id]| - 1] == s.rows[id].status)
    && (forall g :: g in s.guards ==> GuardInv(s, g))
    && (forall g, h :: g in s.guards && h in s.guards && g != h ==> s.guards[g].id != s.guards[h].id)
  }

  lemma StepKeeps(s: State, step: Step, s': State)
    requires Inv(s) && Next(s, step, s')
    ensures Inv(s')
  {
    match step
    case Tick(_) => OthersKeep(s, step, s');
    case Create(_, _) => OthersKeep(s, step, s');
    case Pop(_, _, _) => PopKeeps(s, step, s');
    case Check(_, _, _) => OthersKeep(s, step, s');
    case Write(_) => WriteKeeps(s, step, s');
    case WriteFails(_) => OthersKeep(s, step, s');
    case Defer(_, _) => OthersKeep(s, step, s');
  }

  lemma PopKeeps(s: State, step: Step, s': State)
    requires Inv(s) && Next(s, step, s') && step.Pop?
    ensures Inv(s')
  {
    forall g | g in s'.guards
      ensures GuardInv(s', g) && (g != step.guard ==> s'.guards[g].id != step.id)
    {
      assert g in s.guards ==> GuardInv(s, g);
    }
  }

  lemma WriteKeeps(s: State, step: Step, s': State)
    requires Inv(s) && Next(s, step, s') && step.Write?
    ensures Inv(s')
  {
    assert GuardInv(s, step.guard);
    forall g | g in s'.guards
      ensures GuardInv(s', g)
    {
      assert GuardInv(s, g);
    }
  }

  lemma OthersKeep(s: State, step: Step, s': State)
    requires Inv(s) && Next(s, step, s') && !step.Pop? && !step.Write?
    ensures Inv(s')
  {
    forall g | g in s'.guards
      ensures GuardInv(s', g)
    {
      assert GuardInv(s, g);
    }
  }

  ghost predicate IsPath(run: seq<State>, steps: seq<Step>) {
    |run| == |steps| + 1 && forall i :: 0 <= i < |steps| ==> Next(run[i], steps[i], run[i + 1])
  }

  ghost predicate IsRun(run: seq<State>, steps: seq<Step>) {
    IsPath(run, steps) && Initial(run[0])
  }

  /** The status history of every task is a prefix of a legal one, and its last status is the row's; a
      guard sees the row's status and expiry, and is the only guard of its task. */
  lemma {:induction false} RunKeeps(run: seq<State>, steps: seq<Step>, i: nat)
    requires IsRun(run, steps) && i < |run|
    ensures Inv(run[i])
  {
    if i > 0 {
      RunKeeps(run, steps, i - 1);
      StepKeeps(run[i - 1], steps[i - 1], run[i]);
    }
  }

  /** A task goes Queued, Running and one of Succeeded and Failed, as far as it has come, and no two guards
      are of one task. */
  lemma HistoryIsLegal(run: seq<State>, steps: seq<Step>, i: nat, id: int)
    requires IsRun(run, steps) && i < |run| && id in run[i].rows
    ensures id in run[i].history && Legal(run[i].history[id])
    ensures var h := run[i].history[id]; h[|h| - 1] == run[i].rows[id].status
    ensures forall g, h :: g in run[i].guards && h in run[i].guards && run[i].guards[g].id == run[i].guards[h].id ==> g == h
  {
    RunKeeps(run, steps, i);
  }

  // A task that is not queued never is again, and one that has ended never changes.
  lemma {:induction false} StatusOnlyAdvances(run: seq<State>, steps: seq<Step>, i: nat, j: nat, id: int)
    requires IsRun(run, steps) && i <= j < |run| && id in run[i].rows
    ensures id in run[j].rows
    ensures !run[i].rows[id].status.Queued? ==> !run[j].rows[id].status.Queued?
    ensures run[i].rows[id].status.Succeeded? || run[i].rows[id].status.Failed? ==> run[j].rows[id] == run[i].rows[id]
    decreases j
  {
    if i < j {
      StatusOnlyAdvances(run, steps, i, j - 1, id);
      RunKeeps(run, steps, j - 1);
      assert Next(run[j - 1], steps[j - 1], run[j]);
      if steps[j - 1].Write? {
        assert GuardInv(run[j - 1], steps[j - 1].guard);
      }
    }
  }

  /** Each task is popped at most once, by whichever worker. */
  lemma PoppedOnce(run: seq<State>, steps: seq<Step>, i: nat, j: nat)
    requires IsRun(run, steps) && i < j < |steps| && steps[i].Pop? && steps[j].Pop?
    ensures steps[i].id != steps[j].id
  {
    assert Next(run[i], steps[i], run[i + 1]) && Next(run[j], steps[j], run[j + 1]);
    StatusOnlyAdvances(run, steps, i + 1, j, steps[i].id);
  }

  /** No write lands on a task that has succeeded or failed. */
  lemma NoWriteAfterEnd(run: seq<State>, steps: seq<Step>, i: nat, j: nat, id: int)
    requires IsRun(run, steps) && i <= j < |steps| && id in run[i].rows
    requires run[i].rows[id].status.Succeeded? || run[i].rows[id].status.Failed?
    ensures steps[j].Write? ==> steps[j].guard in run[j].guards && run[j].guards[steps[j].guard].id != id
  {
    StatusOnlyAdvances(run, steps, i, j, id);
    RunKeeps(run, steps, j);
    assert Next(run[j], steps[j], run[j + 1]);
    if steps[j].Write? {
      assert GuardInv(run[j], steps[j].guard);
    }
  }

  // A guard whose check fails stays as it is.
  lemma {:induction false} UnusableForever(run: seq<State>, steps: seq<Step>, i: nat, j: nat, g: int)
    requires IsRun(run, steps) && i <= j < |run|
    requires g in run[i].guards && run[i].guards[g].writing.None? && !Usable(run[i], run[i].guards[g])
    ensures g in run[j].guards && run[j].guards[g] == run[i].guards[g] && run[i].now <= run[j].now
    decreases j
  {
    if i < j {
      UnusableForever(run, steps, i, j - 1, g);
      assert Next(run[j - 1], steps[j - 1], run[j]);
    }
  }

  /** After a failed check a guard never writes again. */
  lemma NoWriteAfterFailedCheck(run: seq<State>, steps: seq<Step>, i: nat, j: nat)
    requires IsRun(run, steps) && i < j < |steps|
    requires steps[i].Check? && steps[i].guard in run[i].guards && !Usable(run[i], run[i].guards[steps[i].guard])
    ensures steps[j] != Write(steps[i].guard)
  {
    assert Next(run[i], steps[i], run[i + 1]) && Next(run[j], steps[j], run[j + 1]);
    UnusableForever(run, steps, i, j, steps[i].guard);
  }

  // Between its check and its write a guard stays as it is.
  lemma {:induction false} GuardStays(run: seq<State>, steps: seq<Step>, i: nat, j: nat, g: int)
    requires IsRun(run, steps) && i <= j < |run| && g in run[i].guards
    requires forall k :: i <= k < j ==> steps[k].Tick? || steps[k].Create? || steps[k].guard != g
    ensures g in run[j].guards && run[j].guards[g] == run[i].guards[g]
    decreases j
  {
    if i < j {
      GuardStays(run, steps, i, j - 1, g);
      assert Next(run[j - 1], steps[j - 1], run[j]);
    }
  }

  /** What a write leaves in the row is what its check was asked for, whatever the others did in between:
      the status and nothing else, the state and nothing else, or an expiry at least two seconds off. */
  lemma WritesWhatWasAsked(run: seq<State>, steps: seq<Step>, i: nat, j: nat, g: int, c: Change, later: int)
    requires IsRun(run, steps) && i < j < |steps| && steps[i] == Check(g, c, later) && steps[j] == Write(g)
    requires forall k :: i < k < j ==> steps[k].Tick? || steps[k].Create? || steps[k].guard != g
    ensures g in run[i].guards && run[i].guards[g].id in run[j + 1].rows
    ensures var was, row := run[i].guards[g].task, run[j + 1].rows[run[i].guards[g].id];
            && was.status.Running? && run[i].now < was.expireTime
            && match c
               case SetStatus(status) => row == was.(status := status)
               case SetState(state) => row == was.(state := state)
               case Ping(d) => row == was.(expireTime := row.expireTime) && row.expireTime == later + (if d >= 2 then d else 2)
  {
    assert Next(run[i], steps[i], run[i + 1]) && Next(run[j], steps[j], run[j + 1]);
    GuardStays(run, steps, i + 1, j, g);
  }

  // ---- The code: each call below is one step of its worker, between any steps of the others ----

  class TaskStore {
    var rows: map<int, Task>

    // Update of the store, which fails on a missing row.
    method Update(id: int, task: Task) returns (ok: bool)
      modifies this
      ensures ok <==> id in old(rows)
      ensures rows == if ok then old(rows)[id := task] else old(rows)
    {
      ok := id in rows;
      if ok {
        rows := rows[id := task];
      }
    }

    /** Pops the first queued task of a supported kind, if there is one among the first ten. The table is
        locked, so the whole call is one step. */
    method PopQueued(
        ids: seq<int>, supported: int -> bool, clock: int, duration: int, ghost s: State, ghost g: int)
      returns (popped: Option<int>, ghost s': State)
      requires IsQueuedQuery(ids, rows)
      requires Inv(s) && s.rows == rows && s.now == clock && g !in s.guards
      modifies this
      ensures popped.Some? ==>
                && popped.value in old(rows) && old(rows)[popped.value].status.Queued?
                && supported(old(rows)[popped.value].kind)
                && rows == old(rows)[popped.value := old(rows)[popped.value].(status := Running, expireTime := clock + duration)]
                && forall id :: id in old(rows) && old(rows)[id].status.Queued? && id < popped.value ==>
                     !supported(old(rows)[id].kind)
      ensures popped.None? ==> rows == old(rows) && s' == s
      ensures popped.None? ==>
                forall id :: id in rows && rows[id].status.Queued? && supported(rows[id].kind) ==>
                  |ids| == 10 && forall k :: 0 <= k < 10 ==> ids[k] < id
      ensures popped.Some? ==> Next(s, Pop(g, popped.value, duration), s') && s'.rows == rows
      ensures popped.Some? ==> g in s'.guards && s'.guards[g] == Guard(popped.value, rows[popped.value], None)
    {
      for i := 0 to |ids|
        invariant rows == old(rows)
        invariant forall k :: 0 <= k < i ==> !supported(rows[ids[k]].kind)
      {
        var task := rows[ids[i]];
        if supported(task.kind) {
          task := task.(status := Running, expireTime := clock + duration);
          rows := rows[ids[i] := task];
          s' := s.(rows := rows, guards := s.guards[g := Guard(ids[i], task, None)],
                   history := s.history[ids[i] := Record(s.history[ids[i]], Running)]);
          return Some(ids[i]), s';
        }
      }
      popped, s' := None, s;
    }
  }

  /** The guard of a popped task. */
  class TaskGuard {
    const store: TaskStore
    const id: int
    var task: Task

    /** This is guard g of the state, `writing` what it has to write, and the table is that of the state. */
    ghost predicate Stands(s: State, g: int, writing: Option<Task>)
      reads this, store
    {
      s.rows == store.rows && g in s.guards && s.guards[g] == Guard(id, task, writing)
    }

    constructor (store: TaskStore, id: int, task: Task)
      ensures this.store == store && this.id == id && this.task == task
    {
      this.store, this.id, this.task := store, id, task;
    }

    predicate Ready(clock: int)
      reads this
    {
      task.status.Running? && clock < task.expireTime
    }

    /** check(), and the changed copy that is to be written. */
    method Check(change: Change, clock: int, later: int, ghost s: State, ghost g: int)
      returns (next: Option<Task>, ghost s': State)
      requires Stands(s, g, None) && clock == s.now <= later
      requires change.SetStatus? ==> change.status.Succeeded? || change.status.Failed?
      ensures next.Some? <==> task.status.Running? && clock < task.expireTime
      ensures next.Some? ==>
                match change
                case SetStatus(status) => next.value == task.(status := status)
                case SetState(state) => next.value == task.(state := state)
                case Ping(duration) => next.value == task.(expireTime := later + if duration >= 2 then duration else 2)
      ensures Next(s, Step.Check(g, change, later), s')
      ensures Stands(s', g, next) && s'.now == later && s'.history == s.history
    {
      if !Ready(clock) {
        return None, s.(now := later);
      }
      match change {
        case SetStatus(status) => next := Some(task.(status := status));
        case SetState(state) => next := Some(task.(state := state));
        case Ping(duration) =>
          var d := if duration < MIN_DURATION then MIN_DURATION else duration;
          next := Some(task.(expireTime := later + d));
      }
      s' := s.(now := later, guards := s.guards[g := Guard(id, task, next)]);
    }

    /** update(): the store is asked to write under a deadline at the expiry; `answers` is whether it
        does so without an error. The copy follows the row, or neither changes. */
    method Update(next: Task, clock: int, answers: bool, ghost s: State, ghost g: int)
      returns (ok: bool, ghost s': State)
      requires Stands(s, g, Some(next)) && clock == s.now && s.history.Keys == s.rows.Keys
      modifies this, store
      ensures ok <==> answers && clock <= old(task).expireTime && id in old(store.rows)
      ensures task == (if ok then next else old(task))
      ensures store.rows == if ok then old(store.rows)[id := next] else old(store.rows)
      ensures Next(s, if ok then Write(g) else WriteFails(g), s')
      ensures Stands(s', g, None) && s'.now == clock
    {
      ok := answers && clock <= task.expireTime;
      if ok {
        ok := store.Update(id, next);
      }
      if ok {
        task := next;
      }
      s' := s.(rows := store.rows, guards := s.guards[g := Guard(id, task, None)],
               history := if ok then s.history[id := Record(s.history[id], next.status)] else s.history);
    }

    /** SetDeferredState changes the copy only; the next update carries the state along. */
    method SetDeferredState(clock: int, state: string, ghost s: State, ghost g: int)
      returns (ok: bool, ghost s': State)
      requires Stands(s, g, None) && clock == s.now
      modifies this
      ensures ok <==> old(Ready(clock))
      ensures task == if ok then old(task).(state := state) else old(task)
      ensures Next(s, Defer(g, state), s') && Stands(s', g, None)
    {
      ok := Ready(clock);
      if ok {
        task := task.(state := state);
      }
      s' := s.(guards := s.guards[g := Guard(id, task, None)]);
    }

    /** SetStatus, SetState and Ping: the check at `clock`, the new row computed at `later`, the write at
        `lands`. The guard's mutex is held, so other workers may act in between but not on this guard;
        here none does. */
    method Perform(
        change: Change, clock: int, later: int, lands: int, answers: bool, ghost s: State, ghost g: int)
      returns (ok: bool, ghost run: seq<State>, ghost steps: seq<Step>)
      requires Stands(s, g, None) && clock == s.now <= later <= lands && s.history.Keys == s.rows.Keys
      requires change.SetStatus? ==> change.status.Succeeded? || change.status.Failed?
      modifies this, store
      ensures ok <==> old(Ready(clock)) && answers && lands <= old(task).expireTime && id in old(store.rows)
      ensures ok ==>
                match change
                case SetStatus(status) => task == old(task).(status := status)
                case SetState(state) => task == old(task).(state := state)
                case Ping(duration) => task == old(task).(expireTime := later + if duration >= 2 then duration else 2)
      ensures !ok ==> task == old(task)
      ensures store.rows == if ok then old(store.rows)[id := task] else old(store.rows)
      ensures IsPath(run, steps) && run[0] == s && Stands(run[|steps|], g, None)
      ensures steps == if !old(Ready(clock)) then [Step.Check(g, change, later)]
                       else [Step.Check(g, change, later), Tick(lands), if ok then Write(g) else WriteFails(g)]
    {
      ghost var s1, s2;
      var next;
      next, s1 := Check(change, clock, later, s, g);
      run, steps := [s, s1], [Step.Check(g, change, later)];
      if next.None? {
        return false, run, steps;
      }
      ghost var landing := s1.(now := lands);
      ok, s2 := Update(next.value, lands, answers, landing, g);
      run := [s, s1, landing, s2];
      steps := [Step.Check(g, change, later), Tick(lands), if ok then Write(g) else WriteFails(g)];
    }
  }

  /** popQueuedTask: the guard of the popped task, standing where the step has put it. */
  method PopQueuedTask(
      store: TaskStore, ids: seq<int>, supported: int -> bool, clock: int, duration: int, ghost s: State, ghost g: int)
    returns (guard: TaskGuard?, ghost s': State)
    requires IsQueuedQuery(ids, store.rows)
    requires Inv(s) && s.rows == store.rows && s.now == clock && g !in s.guards
    modifies store
    ensures guard == null ==> store.rows == old(store.rows) && s' == s
    ensures guard != null ==> fresh(guard) && guard.store == store && guard.Stands(s', g, None)
    ensures guard != null ==> Next(s, Pop(g, guard.id, duration), s')
  {
    var popped;
    popped, s' := store.PopQueued(ids, supported, clock, duration, s, g);
    guard := null;
    if popped.Some? {
      guard := new TaskGuard(store, popped.value, store.rows[popped.value]);
    }
  }

  /** The steps of other guards, and time, leave a guard as it is. */
  lemma OthersLeaveGuard(s: State, step: Step, s': State, g: int)
    requires Next(s, step, s') && g in s.guards
    requires step.Tick? || step.Create? || step.guard != g
    ensures g in s'.guards && s'.guards[g] == s.guards[g] && s.now <= s'.now
  {
  }
}
