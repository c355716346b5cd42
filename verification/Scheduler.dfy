/** The scheduler's linked task list and the operations on it. */
module Scheduler {
  import opened ScheduleOrder

  const PID_LIMIT: int := 32767

  class Task {
    var pid: int
    var state: int
    var next: Task?
    var prev: Task?

    /** A task outside any list. */
    constructor (pid: int, state: int)
      ensures this.pid == pid && this.state == state && next == null && prev == null
    {
      this.pid, this.state := pid, state;
      next, prev := null, null;
    }
  }

  function After(ts: seq<Task>, i: nat): Task? {
    if i + 1 < |ts| then ts[i + 1] else null
  }

  function Before(ts: seq<Task>, i: nat): Task? {
    if 0 < i <= |ts| then ts[i - 1] else null
  }

  ghost predicate NoRepeat(ts: seq<Task>) {
    forall i, j :: 0 <= i < j < |ts| ==> ts[i] != ts[j]
  }

  ghost predicate Chained(ts: seq<Task>)
    reads ts
  {
    forall i :: 0 <= i < |ts| ==> ts[i].next == After(ts, i) && ts[i].prev == Before(ts, i)
  }

  twostate lemma ChainKept(ts: seq<Task>)
    requires old(Chained(ts))
    requires forall t :: t in ts ==> t.next == old(t.next) && t.prev == old(t.prev)
    ensures Chained(ts)
  {
  }

  twostate lemma ChainGrown(ts: seq<Task>, new last: Task, new task: Task)
    requires old(Chained(ts))
    requires NoRepeat(ts) && |ts| > 0 && task !in ts && last == ts[|ts| - 1]
    requires forall t :: t in ts ==> t.prev == old(t.prev)
    requires forall t :: t in ts && t != last ==> t.next == old(t.next)
    requires last.next == task && task.next == null && task.prev == last
    ensures Chained(ts + [task]) && NoRepeat(ts + [task])
  {
    hide NoRepeat;
    AppendDistinct(ts, task);
    NoRepeatAt(ts, |ts| - 1);
    var all := ts + [task];
    forall i | 0 <= i < |all|
      ensures all[i].next == After(all, i) && all[i].prev == Before(all, i)
    {
      if i < |ts| {
        assert old(ts[i].next == After(ts, i)) && old(ts[i].prev == Before(ts, i));
      }
    }
  }

  lemma ChainOfOne(task: Task)
    requires task.next == null && task.prev == null
    ensures Chained([task]) && NoRepeat([task])
  {
  }

  lemma AppendDistinct(ts: seq<Task>, task: Task)
    requires NoRepeat(ts) && task !in ts
    ensures NoRepeat(ts + [task])
  {
  }

  class TaskScheduler {
    var head: Task?
    var current: Task?
    ghost var tasks: seq<Task>       // the list from head on

    /** The links spell out `tasks`. */
    ghost predicate Linked()
      reads this, tasks
    {
      && (head == if |tasks| == 0 then null else tasks[0])
      && NoRepeat(tasks) && Chained(tasks)
    }

    ghost function States(): (s: seq<int>)
      reads this, tasks
      ensures |s| == |tasks| && forall i :: 0 <= i < |s| ==> s[i] == tasks[i].state
    {
      seq(|tasks|, i requires 0 <= i < |tasks| reads this, tasks => tasks[i].state)
    }

    ghost function Pids(): (s: seq<int>)
      reads this, tasks
      ensures |s| == |tasks| && forall i :: 0 <= i < |s| ==> s[i] == tasks[i].pid
    {
      seq(|tasks|, i requires 0 <= i < |tasks| reads this, tasks => tasks[i].pid)
    }

    /** Index of the current task. */
    ghost function CurrentIndex(): (i: nat)
      reads this
      requires current != null && current in tasks
      ensures i < |tasks| && tasks[i] == current
    {
      IndexOf(tasks, current)
    }

    ghost predicate Valid()
      reads this, tasks
    {
      Linked() && current != null && current in tasks
    }

    ghost function Value(): (l: TaskList)
      reads this, tasks
      requires Valid()
      ensures l.Valid() && |l.states| == |tasks|
    {
      TaskList(States(), Pids(), CurrentIndex())
    }

    /** `l` lists the tasks as they are. */
    ghost predicate Lists(l: TaskList)
      reads this, tasks
    {
      && |l.states| == |l.pids| == |tasks| && l.cur < |tasks| && tasks[l.cur] == current
      && forall i :: 0 <= i < |tasks| ==> l.states[i] == tasks[i].state && l.pids[i] == tasks[i].pid
    }

    lemma ValueIs(l: TaskList)
      requires Valid()
      ensures Lists(l) <==> Value() == l
    {
      if Lists(l) {
        IndexUnique(tasks, CurrentIndex(), l.cur);
        assert States() == l.states && Pids() == l.pids;
      }
    }

    /** init_scheduler: the idle task is head and current. */
    constructor ()
      ensures Valid() && Value() == TaskList([TASK_IDLE], [0], 0) && fresh(tasks)
    {
      head, current := null, null;
      tasks := [];
      new;
      var idle := new Task(0, TASK_IDLE);
      AddTask(idle);
      current := head;
      hide States, Pids;
      assert States() == [TASK_IDLE] && Pids() == [0] && CurrentIndex() == 0;
    }

    /** The scan of schedule: the first runnable task behind the current one, null if there is none. */
    method FindNext() returns (next: Task?)
      requires Valid()
      ensures next == if Choose(Value().states, Value().cur) == NOBODY then null else tasks[Choose(Value().states, Value().cur)]
    {
      hide Choose, States, Pids;
      ghost var l := Value();
      next := null;
      var cursor := current;
      var original := current;
      ghost var i := l.cur;
      ChooseStart(l.states, l.cur);
      while next == null
        invariant next == null && 0 <= i < |tasks| && tasks[i] == cursor && original == tasks[l.cur]
        invariant Choose(l.states, l.cur) == FirstFrom(l.states, l.cur, Succ(i, |tasks|))
        decreases if i < l.cur then l.cur - i else l.cur - i + |tasks|
      {
        i := Succ(i, |tasks|);
        if cursor.next == null {
          cursor := head;
        } else {
          cursor := cursor.next;
        }
        if cursor.state == TASK_READY || cursor.state == TASK_EXECUTING {
          next := cursor;
          return;
        }
        if cursor == original {
          break;
        }
      }
    }

    /** schedule. `panicked` when nobody can run and the head is not the idle task. */
    method Schedule() returns (panicked: bool, prev: Task)
      requires Valid()
      modifies this`current, tasks
      ensures Valid() && tasks == old(tasks) && prev == old(current)
      ensures panicked <==> Stuck(old(Value()))
      ensures panicked <==>
        && old(tasks[0].state) != TASK_IDLE
        && forall t :: t in tasks ==> old(t.state) != TASK_READY && old(t.state) != TASK_EXECUTING
      ensures !panicked ==> Value() == Scheduled(old(Value()))
      ensures !panicked ==> current.state == TASK_EXECUTING || (current == head && current.state == TASK_IDLE)
      ensures panicked ==> Value() == old(Value())
    {
      hide Choose, States, Pids, CurrentIndex, Value, IndexOf, NoRepeat, Chained;
      ghost var l := Value();
      ValueIs(l);
      StuckStates(l);
      ChooseNearest(l.states, l.cur);
      prev := current;
      var next := FindNext();
      if next == null {
        next := head;
        if next.state != TASK_IDLE {
          return true, prev;
        }
      }
      Switch(next, NextTask(l));
      panicked := false;
      ScheduledStates(l);
      NoRepeatAt(tasks, NextTask(l));
      NoRepeatAt(tasks, l.cur);
      ValueIs(Scheduled(l));
    }

    /** The end of schedule: `next` becomes current. */
    method Switch(next: Task, ghost i: nat)
      requires Valid() && i < |tasks| && tasks[i] == next
      modifies this`current, tasks
      ensures Valid() && tasks == old(tasks) && current == next
      ensures forall t :: t in tasks ==> t.pid == old(t.pid)
      ensures forall t :: t in tasks && t != next ==>
        t.state == if t == old(current) && old(t.state) == TASK_EXECUTING then TASK_READY else old(t.state)
      ensures next.state == if Runnable(old(next.state)) then TASK_EXECUTING else old(next.state)
    {
      hide NoRepeat, Chained;
      if current.state == TASK_EXECUTING {
        current.state := TASK_READY;
      }
      current := next;
      if current.state == TASK_READY {
        current.state := TASK_EXECUTING;
      }
      ChainKept(tasks);
    }

    /** The end of the list. */
    method LastTask() returns (last: Task)
      requires Linked() && |tasks| > 0
      ensures last == tasks[|tasks| - 1]
    {
      last := head;
      ghost var i := 0;
      while last.next != null
        invariant 0 <= i < |tasks| && last == tasks[i]
        decreases |tasks| - i
      {
        last := last.next;
        i := i + 1;
      }
    }

    /** add_task: walks to the end and links the task there. */
    method AddTask(task: Task)
      requires Linked() && task !in tasks && task.next == null && task.prev == null
      modifies this`head, this`tasks, tasks, task
      ensures Linked() && tasks == old(tasks) + [task] && task.pid == old(task.pid) && task.state == old(task.state)
      ensures forall t :: t in old(tasks) ==> t.pid == old(t.pid) && t.state == old(t.state)
    {
      hide NoRepeat, Chained;
      if head == null {
        head := task;
        tasks := [task];
        ChainOfOne(task);
      } else {
        var cursor := LastTask();
        LinkBehind(cursor, task);
      }
    }

    /** The links add_task stores. */
    method LinkBehind(last: Task, task: Task)
      requires Linked() && |tasks| > 0 && last == tasks[|tasks| - 1]
      requires task !in tasks && task.next == null && task.prev == null
      modifies this`tasks, last`next, task`prev
      ensures Linked() && tasks == old(tasks) + [task]
    {
      hide NoRepeat, Chained;
      last.next := task;
      task.prev := last;
      ChainGrown(tasks, last, task);
      tasks := tasks + [task];
    }

    /** get_task: the first task with the pid, or null. */
    method GetTask(pid: int) returns (task: Task?)
      requires Linked()
      ensures task == null <==> pid !in Pids()
      ensures task != null ==> task == tasks[FirstWith(Pids(), pid)]
    {
      hide States, Pids, FirstWith, NoRepeat;
      var cursor := head;
      if cursor == null {
        return null;
      }
      if cursor.pid == pid {
        FirstWithIs(Pids(), pid, 0);
        return cursor;
      }
      ghost var i := 0;
      while cursor.next != null
        invariant 0 <= i < |tasks| && cursor == tasks[i]
        invariant forall k :: 0 <= k <= i ==> Pids()[k] != pid
        decreases |tasks| - i
      {
        if cursor.next.pid == pid {
          FirstWithIs(Pids(), pid, i + 1);
          return cursor.next;
        }
        cursor := cursor.next;
        i := i + 1;
      }
      task := null;
    }

    /** get_free_pid: the least unused positive pid, found in at most n + 1 looks. */
    method GetFreePid() returns (pid: int, ghost looks: nat)
      requires Linked() && |tasks| < PID_LIMIT
      ensures LeastUnused(Pids(), pid) && pid <= |tasks| + 1 <= PID_LIMIT && looks == pid
    {
      hide States, Pids, Linked;
      pid := 1;
      var task := GetTask(pid);
      looks := 1;
      while task != null
        invariant pid >= 1 && looks == pid && (task == null <==> pid !in Pids())
        invariant forall k :: 1 <= k < pid ==> k in Pids()
        decreases |tasks| + 2 - pid
      {
        LeastUnusedFits(Pids(), pid + 1);
        pid := pid + 1;
        task := GetTask(pid);
        looks := looks + 1;
      }
      LeastUnusedFits(Pids(), pid);
    }

    /** The parts of create_task the scheduler sees: a ready task with the least unused pid, not yet listed. */
    method CreateTask() returns (task: Task)
      requires Linked() && |tasks| < PID_LIMIT
      ensures fresh(task) && task.state == TASK_READY && task.next == null && task.prev == null
      ensures LeastUnused(Pids(), task.pid)
    {
      var pid, looks := GetFreePid();
      task := new Task(pid, TASK_READY);
    }

    /** create_task followed at once by add_task keeps pids distinct. */
    method Spawn() returns (task: Task)
      requires Valid() && |tasks| < PID_LIMIT && DistinctPids(Pids())
      modifies this`head, this`tasks, tasks
      ensures Valid() && tasks == old(tasks) + [task] && DistinctPids(Pids())
      ensures Value() == Apply(old(Value()), Add(task.pid, TASK_READY))
    {
      hide States, CurrentIndex, IndexOf, Value, Linked, NoRepeat, Chained;
      ghost var l := Value();
      ValueIs(l);
      task := CreateTask();
      AddKeepsDistinct(Pids(), task.pid);
      AddTask(task);
      ValueIs(TaskList(l.states + [TASK_READY], l.pids + [task.pid], l.cur));
      assert Pids() == l.pids + [task.pid];
    }

    /** A listed task's state is stored; nothing else changes. */
    method SetTaskState(task: Task, state: int, ghost i: nat)
      requires Valid() && i < |tasks| && tasks[i] == task
      modifies task
      ensures Valid() && Value() == Apply(old(Value()), SetState(i, state))
      ensures task.pid == old(task.pid)
    {
      hide NoRepeat, Chained, Value, States, Pids, CurrentIndex, IndexOf;
      ghost var l := Value();
      ValueIs(l);
      task.state := state;
      ChainKept(tasks);
      NoRepeatAt(tasks, i);
      ValueIs(Apply(l, SetState(i, state)));
    }

    /** pause_task. */
    method PauseTask(task: Task, ghost i: nat)
      requires Valid() && i < |tasks| && tasks[i] == task
      modifies task
      ensures Valid() && Value() == Apply(old(Value()), SetState(i, TASK_UNINTERRUPTIBLE))
    {
      SetTaskState(task, TASK_UNINTERRUPTIBLE, i);
    }

    /** resume_task. */
    method ResumeTask(task: Task, ghost i: nat)
      requires Valid() && i < |tasks| && tasks[i] == task
      modifies task
      ensures Valid() && Value() == Apply(old(Value()), SetState(i, TASK_READY))
    {
      SetTaskState(task, TASK_READY, i);
    }

    /** kill_task: the first task with the pid becomes a zombie. */
    method KillTask(pid: int)
      requires Valid()
      modifies tasks
      ensures Valid() && tasks == old(tasks)
      ensures pid !in old(Pids()) ==> Value() == old(Value())
      ensures pid in old(Pids()) ==> Value() == Apply(old(Value()), SetState(FirstWith(old(Pids()), pid), TASK_ZOMBIE))
    {
      hide States, Pids, CurrentIndex, Value, IndexOf, NoRepeat, Chained;
      var task := GetTask(pid);
      if task == null {
        return;
      }
      SetTaskState(task, TASK_ZOMBIE, FirstWith(Pids(), pid));
    }

    /** block_task: the current task gives up the processor in state `reason`. */
    method BlockTask(reason: int) returns (panicked: bool)
      requires Valid()
      modifies this`current, tasks
      ensures Valid() && tasks == old(tasks)
      ensures panicked <==> Stuck(Apply(old(Value()), SetState(old(Value()).cur, reason)))
      ensures Value() == Run(old(Value()), [SetState(old(Value()).cur, reason), ScheduleOrder.Schedule])
    {
      hide Value, States, Pids, CurrentIndex, IndexOf, Scheduled, Stuck, NoRepeat, Chained;
      ghost var l := Value();
      ValueIs(l);
      SetTaskState(current, reason, l.cur);
      ghost var l1 := Value();
      var prev;
      panicked, prev := Schedule();
      TwoEvents(l, SetState(l.cur, reason), ScheduleOrder.Schedule);
    }

    /** unblock_task: the task becomes ready, and the caller yields. */
    method UnblockTask(task: Task, ghost i: nat) returns (panicked: bool)
      requires Valid() && i < |tasks| && tasks[i] == task
      modifies this`current, tasks
      ensures Valid() && tasks == old(tasks) && !panicked
      ensures Value() == Run(old(Value()), [SetState(i, TASK_READY), ScheduleOrder.Schedule])
    {
      hide Value, States, Pids, CurrentIndex, IndexOf, Scheduled, Stuck, NoRepeat, Chained;
      ghost var l := Value();
      ValueIs(l);
      SetTaskState(task, TASK_READY, i);
      ghost var l1 := Value();
      var prev;
      ScheduleNearer(l1, i);
      panicked, prev := Schedule();
      TwoEvents(l, SetState(i, TASK_READY), ScheduleOrder.Schedule);
    }
  }

  /** Index of the first task with the pid. */
  ghost function FirstWith(pids: seq<int>, pid: int): (i: nat)
    requires pid in pids
    ensures i < |pids| && pids[i] == pid && forall k :: 0 <= k < i ==> pids[k] != pid
  {
    if pids[0] == pid then 0 else 1 + FirstWith(pids[1..], pid)
  }

  lemma FirstWithIs(pids: seq<int>, pid: int, i: nat)
    requires i < |pids| && pids[i] == pid && forall k :: 0 <= k < i ==> pids[k] != pid
    ensures pid in pids && FirstWith(pids, pid) == i
  {
  }

  ghost function IndexOf(ts: seq<Task>, t: Task): (i: nat)
    requires t in ts
    ensures i < |ts| && ts[i] == t
  {
    var i :| 0 <= i < |ts| && ts[i] == t;
    i
  }

  lemma NoRepeatAt(ts: seq<Task>, i: nat)
    requires NoRepeat(ts) && i < |ts|
    ensures forall j :: 0 <= j < |ts| && j != i ==> ts[j] != ts[i]
  {
  }

  lemma IndexUnique(ts: seq<Task>, i: nat, j: nat)
    requires NoRepeat(ts)
    requires i < |ts| && j < |ts| && ts[i] == ts[j]
    ensures i == j
  {
  }

  lemma TwoEvents(l: TaskList, a: Event, b: Event)
    requires l.Valid()
    ensures Run(l, [a, b]) == Apply(Apply(l, a), b)
  {
    assert [a, b][1..] == [b] && [b][1..] == [];
    hide Apply;
    var l1 := Apply(l, a);
    assert Run(Apply(l1, b), []) == Apply(l1, b);
    assert Run(l1, [b]) == Run(Apply(l1, b), [b][1..]);
  }
}
