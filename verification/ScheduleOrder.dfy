/** The scheduling decision on values, and what it means for waiting tasks. */
module ScheduleOrder {

  const TASK_EXECUTING: int := 0
  const TASK_READY: int := 1
  const TASK_UNINTERRUPTIBLE: int := 3
  const TASK_ZOMBIE: int := 5
  const TASK_IDLE: int := 8
  const NOBODY: int := -1

  /** The task list in order: states and pids, and the index of the current task. */
  datatype TaskList = TaskList(states: seq<int>, pids: seq<int>, cur: nat) {
    ghost predicate Valid() {
      |states| == |pids| && cur < |states|
    }
  }

  predicate Runnable(state: int) {
    state == TASK_READY || state == TASK_EXECUTING
  }

  /** Index of the next task, back to the head behind the last one. */
  function Succ(i: nat, n: nat): nat
    requires i < n
  {
    if i + 1 == n then 0 else i + 1
  }

  /** Steps from `i` forward to `j`; a full round from a task to itself. */
  function Distance(i: nat, j: nat, n: nat): (d: nat)
    requires i < n && j < n
    ensures 1 <= d <= n
  {
    if j > i then j - i else j - i + n
  }

  /** First runnable task from `i` on, `stop` being the last one looked at. */
  function FirstFrom(states: seq<int>, stop: nat, i: nat): (r: int)
    requires stop < |states| && i < |states|
    ensures r == NOBODY || 0 <= r < |states|
    decreases if i <= stop then stop - i else stop - i + |states|
  {
    if Runnable(states[i]) then i
    else if i == stop then NOBODY
    else FirstFrom(states, stop, Succ(i, |states|))
  }

  /** The scan of schedule. */
  function Choose(states: seq<int>, cur: nat): (r: int)
    requires cur < |states|
    ensures r == NOBODY || 0 <= r < |states|
  {
    FirstFrom(states, cur, Succ(cur, |states|))
  }

  lemma ChooseStart(states: seq<int>, cur: nat)
    requires cur < |states|
    ensures Choose(states, cur) == FirstFrom(states, cur, Succ(cur, |states|))
  {
  }

  lemma {:induction false} FirstFromIs(states: seq<int>, stop: nat, i: nat)
    requires stop < |states| && i < |states|
    ensures var r := FirstFrom(states, stop, i);
      var n := |states|;
      && (r != NOBODY ==> Runnable(states[r]) && Distance(stop, i, n) <= Distance(stop, r, n))
      && forall t :: 0 <= t < n && Runnable(states[t]) && Distance(stop, i, n) <= Distance(stop, t, n) ==>
        r != NOBODY && Distance(stop, r, n) <= Distance(stop, t, n)
    decreases if i <= stop then stop - i else stop - i + |states|
  {
    if !Runnable(states[i]) && i != stop {
      FirstFromIs(states, stop, Succ(i, |states|));
    }
  }

  /** schedule picks the runnable task nearest in cyclic order, the current one last; nobody only if nobody can run. */
  lemma ChooseNearest(states: seq<int>, cur: nat)
    requires cur < |states|
    ensures var r := Choose(states, cur);
      && (r == NOBODY <==> forall t :: 0 <= t < |states| ==> states[t] != TASK_READY && states[t] != TASK_EXECUTING)
      && (r != NOBODY ==> states[r] == TASK_READY || states[r] == TASK_EXECUTING)
      && (forall t :: 0 <= t < |states| && (states[t] == TASK_READY || states[t] == TASK_EXECUTING) ==>
            Distance(cur, r, |states|) <= Distance(cur, t, |states|))
  {
    FirstFromIs(states, cur, Succ(cur, |states|));
    hide Choose, FirstFrom;
    var r := Choose(states, cur);
    if r == NOBODY {
      forall t | 0 <= t < |states|
        ensures states[t] != TASK_READY && states[t] != TASK_EXECUTING
      {
        assert !Runnable(states[t]);
      }
    }
  }

  /** The tasks passed over lie behind the current one and before the chosen one, around the end of the list if need be:
      none of them is ready or executing. An executing task goes on when it is the only one. */
  lemma PassedOver(states: seq<int>, cur: nat, t: nat)
    requires cur < |states| && t < |states| && Choose(states, cur) != NOBODY
    ensures var r := Choose(states, cur);
      (if cur < r then cur < t < r else cur < t || t < r) ==> states[t] != TASK_READY && states[t] != TASK_EXECUTING
    ensures states[cur] == TASK_EXECUTING ==>
      ((forall u :: 0 <= u < |states| && u != cur ==> states[u] != TASK_READY && states[u] != TASK_EXECUTING) ==>
        Choose(states, cur) == cur)
  {
    ChooseNearest(states, cur);
    hide Choose;
  }

  /** The panic of schedule: nobody can run and the head is not the idle task. */
  predicate Stuck(l: TaskList)
    requires l.Valid()
  {
    Choose(l.states, l.cur) == NOBODY && l.states[0] != TASK_IDLE
  }

  /** Who runs next: the chosen task, or the head. */
  function NextTask(l: TaskList): nat
    requires l.Valid()
  {
    var r := Choose(l.states, l.cur);
    if r == NOBODY then 0 else r
  }

  /** The list after schedule. */
  function Scheduled(l: TaskList): (l': TaskList)
    requires l.Valid()
    ensures l'.Valid() && |l'.states| == |l.states|
  {
    var next := NextTask(l);
    var states := if l.states[l.cur] == TASK_EXECUTING then l.states[l.cur := TASK_READY] else l.states;
    TaskList(if states[next] == TASK_READY then states[next := TASK_EXECUTING] else states, l.pids, next)
  }

  lemma ScheduledStates(l: TaskList)
    requires l.Valid()
    ensures var l', next := Scheduled(l), NextTask(l);
      && l'.pids == l.pids && l'.cur == next
      && (forall i :: 0 <= i < |l.states| && i != next ==>
            l'.states[i] == if i == l.cur && l.states[i] == TASK_EXECUTING then TASK_READY else l.states[i])
      && l'.states[next] ==
         if l.states[next] == TASK_READY || l.states[next] == TASK_EXECUTING then TASK_EXECUTING else l.states[next]
  {
    hide Choose;
  }

  /** At most the current task is executing. */
  ghost predicate OnlyCurrentExecutes(l: TaskList) {
    forall i :: 0 <= i < |l.states| && l.states[i] == TASK_EXECUTING ==> i == l.cur
  }

  lemma ScheduledExecutes(l: TaskList)
    requires l.Valid() && OnlyCurrentExecutes(l)
    ensures OnlyCurrentExecutes(Scheduled(l))
    ensures Choose(l.states, l.cur) != NOBODY ==> Scheduled(l).states[Scheduled(l).cur] == TASK_EXECUTING
    ensures !Stuck(l) && Choose(l.states, l.cur) == NOBODY ==>
      Scheduled(l).cur == 0 && Scheduled(l).states[0] == TASK_IDLE
  {
    ChooseNearest(l.states, l.cur);
    hide Choose;
  }

  /** The panic, told in the states. */
  lemma StuckStates(l: TaskList)
    requires l.Valid()
    ensures Stuck(l) <==>
      && l.states[0] != TASK_IDLE
      && forall t :: 0 <= t < |l.states| ==> l.states[t] != TASK_READY && l.states[t] != TASK_EXECUTING
  {
    ChooseNearest(l.states, l.cur);
    hide Choose;
  }

  // ----- runs

  /** What happens between two looks at the list: a schedule, a new task at the end, a task's state set. */
  datatype Event = Schedule | Add(pid: int, state: int) | SetState(index: nat, state: int)

  function Apply(l: TaskList, e: Event): (l': TaskList)
    requires l.Valid()
    ensures l'.Valid() && |l.states| <= |l'.states|
  {
    match e
    case Schedule => if Stuck(l) then l else Scheduled(l)
    case Add(pid, state) => TaskList(l.states + [state], l.pids + [pid], l.cur)
    case SetState(i, state) => if i < |l.states| then l.(states := l.states[i := state]) else l
  }

  function Run(l: TaskList, events: seq<Event>): (l': TaskList)
    requires l.Valid()
    ensures l'.Valid() && |l.states| <= |l'.states|
    decreases |events|
  {
    if events == [] then l else Run(Apply(l, events[0]), events[1..])
  }

  function Schedules(events: seq<Event>): nat {
    if events == [] then 0 else (if events[0].Schedule? then 1 else 0) + Schedules(events[1..])
  }

  function Adds(events: seq<Event>): nat {
    if events == [] then 0 else (if events[0].Add? then 1 else 0) + Adds(events[1..])
  }

  /** Task `t` becomes current by one of the schedules among the events. */
  ghost predicate GetsTurn(l: TaskList, events: seq<Event>, t: nat)
    requires l.Valid()
  {
    exists p :: 0 < p <= |events| && events[p - 1].Schedule? && Run(l, events[..p]).cur == t
  }

  lemma TurnLater(l: TaskList, events: seq<Event>, t: nat)
    requires l.Valid() && |events| > 0 && GetsTurn(Apply(l, events[0]), events[1..], t)
    ensures GetsTurn(l, events, t)
  {
    var p :| 0 < p <= |events| - 1 && events[1..][p - 1].Schedule? && Run(Apply(l, events[0]), events[1..][..p]).cur == t;
    assert events[..p + 1][1..] == events[1..][..p];
    assert Run(l, events[..p + 1]).cur == t;
  }

  /** One schedule either runs the waiting task or brings it nearer; it stays ready. */
  lemma ScheduleNearer(l: TaskList, t: nat)
    requires l.Valid() && t < |l.states| && l.states[t] == TASK_READY
    ensures !Stuck(l)
    ensures Scheduled(l).cur != t ==>
      && Scheduled(l).states[t] == TASK_READY
      && Distance(Scheduled(l).cur, t, |l.states|) < Distance(l.cur, t, |l.states|)
  {
    ChooseNearest(l.states, l.cur);
    hide Choose;
  }

  /** A ready task that nobody else changes gets its turn within its distance plus the number of tasks added. */
  lemma {:induction false} FairFrom(l: TaskList, events: seq<Event>, t: nat)
    requires l.Valid() && t < |l.states| && l.states[t] == TASK_READY
    requires forall e :: e in events && e.SetState? ==> e.index != t
    requires Schedules(events) >= Distance(l.cur, t, |l.states|) + Adds(events)
    ensures GetsTurn(l, events, t)
    decreases |events|
  {
    var l' := Apply(l, events[0]);
    if events[0].Schedule? {
      ScheduleNearer(l, t);
      if l'.cur == t {
        assert events[..1][1..] == [];
        assert Run(l, events[..1]).cur == t;
        return;
      }
    }
    assert events[0] in events;
    hide Choose, Scheduled;
    FairFrom(l', events[1..], t);
    TurnLater(l, events, t);
  }

  /** Bounded fairness: with n tasks at first and k added, a ready task waits for at most n + k schedules. */
  lemma BoundedFairness(l: TaskList, events: seq<Event>, t: nat)
    requires l.Valid() && t < |l.states| && l.states[t] == TASK_READY
    requires forall e :: e in events && e.SetState? ==> e.index != t
    requires Schedules(events) >= |l.states| + Adds(events)
    ensures GetsTurn(l, events, t)
  {
    FairFrom(l, events, t);
  }

  /** The bound is exact: when all tasks are ready and nothing else happens, a task's turn comes at its distance, not before. */
  lemma {:induction false} NotBefore(l: TaskList, events: seq<Event>, t: nat)
    requires l.Valid() && t < |l.states|
    requires forall i :: 0 <= i < |l.states| ==> l.states[i] == TASK_READY || l.states[i] == TASK_EXECUTING
    requires forall e :: e in events ==> e.Schedule?
    requires |events| < Distance(l.cur, t, |l.states|)
    ensures !GetsTurn(l, events, t)
    decreases |events|
  {
    forall p | 0 < p <= |events|
      ensures Run(l, events[..p]).cur != t
    {
      NotYet(l, events[..p], t);
    }
  }

  lemma {:induction false} NotYet(l: TaskList, events: seq<Event>, t: nat)
    requires l.Valid() && t < |l.states|
    requires forall i :: 0 <= i < |l.states| ==> l.states[i] == TASK_READY || l.states[i] == TASK_EXECUTING
    requires forall e :: e in events ==> e.Schedule?
    requires 0 < |events| < Distance(l.cur, t, |l.states|)
    ensures Run(l, events).cur != t
    decreases |events|
  {
    var l' := Apply(l, events[0]);
    assert events[0] in events;
    assert Choose(l.states, l.cur) == Succ(l.cur, |l.states|);
    if |events| > 1 {
      NotYet(l', events[1..], t);
    } else {
      assert events[1..] == [];
    }
  }

  // ----- invariants over runs

  /** Events that never make a second task executing. */
  predicate Proper(e: Event) {
    e.Schedule? || e.state != TASK_EXECUTING
  }

  lemma {:induction false} RunExecutes(l: TaskList, events: seq<Event>)
    requires l.Valid() && OnlyCurrentExecutes(l) && forall e :: e in events ==> Proper(e)
    ensures OnlyCurrentExecutes(Run(l, events))
    decreases |events|
  {
    if events != [] {
      assert events[0] in events;
      if events[0].Schedule? {
        ScheduledExecutes(l);
      }
      hide Scheduled, Stuck;
      RunExecutes(Apply(l, events[0]), events[1..]);
    }
  }

  /** A task that is neither ready, executing nor idle does not become current, whatever else happens, until somebody
      sets its state again. */
  lemma {:induction false} SleeperNeverRuns(l: TaskList, events: seq<Event>, t: nat)
    requires l.Valid() && t < |l.states| && l.states[t] != TASK_READY && l.states[t] != TASK_EXECUTING
    requires l.states[t] != TASK_IDLE && (forall e :: e in events && e.SetState? ==> e.index != t)
    ensures l.cur != t ==> Run(l, events).cur != t
    ensures !Stuck(l) ==> Scheduled(l).cur != t
    ensures Run(l, events).states[t] == l.states[t]
    decreases |events|
  {
    ChooseNearest(l.states, l.cur);
    if events != [] {
      assert events[0] in events;
      ScheduledStates(l);
      hide Scheduled, Choose, Distance;
      SleeperNeverRuns(Apply(l, events[0]), events[1..], t);
    }
  }

  /** A killed or paused task gives up the processor at the next schedule that somebody else can use, and never gets it
      back by a schedule. */
  lemma KilledNeverRuns(l: TaskList, t: nat, state: int, events: seq<Event>)
    requires l.Valid() && t < |l.states| && state in {TASK_ZOMBIE, TASK_UNINTERRUPTIBLE}
    requires forall e :: e in events && e.SetState? ==> e.index != t
    ensures var l' := Apply(l, SetState(t, state));
      && (l.cur != t ==> Run(l', events).cur != t)
      && Choose(l'.states, l'.cur) != t
      && (!Stuck(l') ==> Scheduled(l').cur != t)
  {
    var l' := Apply(l, SetState(t, state));
    SleeperNeverRuns(l', events, t);
    ChooseNearest(l'.states, l'.cur);
  }

  // ----- pids

  /** Least positive number that is no task's pid. */
  ghost predicate LeastUnused(pids: seq<int>, pid: int) {
    pid >= 1 && pid !in pids && forall k :: 1 <= k < pid ==> k in pids
  }

  lemma {:induction false} UsedPidsFit(pids: seq<int>, n: nat)
    requires forall k :: 1 <= k <= n ==> k in pids
    ensures n <= |pids|
    decreases n
  {
    if n > 0 {
      assert n in pids;
      var i :| 0 <= i < |pids| && pids[i] == n;
      var rest := pids[..i] + pids[i + 1..];
      forall k | 1 <= k <= n - 1
        ensures k in rest
      {
        assert k in pids;
        assert pids == pids[..i] + [pids[i]] + pids[i + 1..];
      }
      UsedPidsFit(rest, n - 1);
    }
  }

  /** With n tasks the least unused pid is at most n + 1. */
  lemma LeastUnusedFits(pids: seq<int>, pid: int)
    requires pid >= 1 && forall k :: 1 <= k < pid ==> k in pids
    ensures pid <= |pids| + 1
  {
    UsedPidsFit(pids, pid - 1);
  }

  ghost predicate DistinctPids(pids: seq<int>) {
    forall i, j :: 0 <= i < j < |pids| ==> pids[i] != pids[j]
  }

  /** Adding a task keeps pids distinct exactly when its pid is still unused at that moment. */
  lemma AddKeepsDistinct(pids: seq<int>, pid: int)
    requires DistinctPids(pids)
    ensures DistinctPids(pids + [pid]) <==> pid !in pids
  {
    var all := pids + [pid];
    if pid in pids {
      var i :| 0 <= i < |pids| && pids[i] == pid;
      assert all[i] == all[|pids|];
    }
  }

  /** Two tasks created before either is added get the same pid. */
  lemma CreateTwice(pids: seq<int>, a: int, b: int)
    requires LeastUnused(pids, a) && LeastUnused(pids, b)
    ensures a == b && !DistinctPids(pids + [a] + [b])
  {
    assert a == b;
    var all := pids + [a] + [b];
    assert all[|pids|] == all[|pids| + 1];
  }

  /** The pids listed, and those of tasks created but not yet added. */
  datatype PidState = PidState(pids: seq<int>, pending: seq<int>) {
    function All(): seq<int> {
      pids + pending
    }
  }

  /** create_task, and add_task of a created task. */
  datatype PidEvent = Create | AddCreated(k: nat)

  ghost predicate PidStep(a: PidState, b: PidState, e: PidEvent) {
    match e
    case Create =>
      b.pids == a.pids && |b.pending| > 0 && b.pending[..|b.pending| - 1] == a.pending
      && LeastUnused(a.pids, b.pending[|b.pending| - 1])
    case AddCreated(k) =>
      k < |a.pending| && b == PidState(a.pids + [a.pending[k]], a.pending[..k] + a.pending[k + 1..])
  }

  ghost predicate PidRun(states: seq<PidState>, events: seq<PidEvent>) {
    |states| == |events| + 1 && forall k :: 0 <= k < |events| ==> PidStep(states[k], states[k + 1], events[k])
  }

  /** No task was created while another one was still to be added. */
  ghost predicate OneAtATime(states: seq<PidState>, events: seq<PidEvent>)
    requires |states| == |events| + 1
  {
    forall k :: 0 <= k < |events| && events[k].Create? ==> states[k].pending == []
  }

  /** Where an event puts the pid at place `i`. */
  function NewPlace(a: PidState, e: PidEvent, i: nat): nat {
    if e.Create? || i < |a.pids| || i > |a.pids| + e.k then i
    else if i == |a.pids| + e.k then |a.pids| else i + 1
  }

  lemma NewPlaceHolds(a: PidState, b: PidState, e: PidEvent, i: nat)
    requires PidStep(a, b, e) && i < |a.All()|
    ensures NewPlace(a, e, i) < |b.All()| && b.All()[NewPlace(a, e, i)] == a.All()[i]
  {
    hide LeastUnused;
  }

  lemma NewPlacesDiffer(a: PidState, e: PidEvent, i: nat, j: nat)
    requires i != j
    ensures NewPlace(a, e, i) != NewPlace(a, e, j)
  {
  }

  /** A repeated pid stays repeated. */
  lemma RepeatStays(a: PidState, b: PidState, e: PidEvent)
    requires PidStep(a, b, e) && !DistinctPids(a.All())
    ensures !DistinctPids(b.All())
  {
    hide PidStep, NewPlace, PidState.All;
    var i, j :| 0 <= i < j < |a.All()| && a.All()[i] == a.All()[j];
    NewPlaceHolds(a, b, e, i);
    NewPlaceHolds(a, b, e, j);
    NewPlacesDiffer(a, e, i, j);
  }

  /** At most one pid is pending, and it is the least unused one. */
  ghost predicate Orderly(a: PidState) {
    DistinctPids(a.All()) && (a.pending == [] || (|a.pending| == 1 && LeastUnused(a.pids, a.pending[0])))
  }

  lemma SnocOf(a: seq<int>, b: seq<int>)
    requires |b| > 0 && b[..|b| - 1] == a
    ensures b == a + [b[|b| - 1]]
  {
  }

  lemma OneElement(a: seq<int>)
    requires |a| == 1
    ensures a == [a[0]] && a[..0] + a[1..] == []
  {
  }

  lemma Concatenations(a: seq<int>, p: int, q: int)
    ensures a + [] == a && [] + [p] == [p] && a + ([q] + [p]) == a + [q] + [p]
  {
  }

  lemma OrderlyStep(a: PidState, b: PidState, e: PidEvent)
    requires PidStep(a, b, e) && Orderly(a)
    ensures if e.Create? && a.pending != [] then !DistinctPids(b.All()) else Orderly(b)
  {
    hide DistinctPids, LeastUnused;
    if a.pending != [] {
      OneElement(a.pending);
    }
    if e.Create? {
      var p := b.pending[|b.pending| - 1];
      SnocOf(a.pending, b.pending);
      if a.pending == [] {
        Concatenations(a.pids, p, p);
        UnusedPid(a.pids, p);
        AddKeepsDistinct(a.pids, p);
      } else {
        var q := a.pending[0];
        Concatenations(a.pids, p, q);
        CreateTwice(a.pids, q, p);
      }
    } else {
      Concatenations(a.pids + [a.pending[0]], 0, 0);
    }
  }

  lemma UnusedPid(pids: seq<int>, pid: int)
    requires LeastUnused(pids, pid)
    ensures pid !in pids
  {
  }

  /** Over every run of creations and additions the pids stay distinct if and only if no task was created while
      another one was still to be added. */
  lemma {:induction false} PidsOverRun(states: seq<PidState>, events: seq<PidEvent>)
    requires PidRun(states, events) && states[0].pending == [] && DistinctPids(states[0].pids)
    ensures DistinctPids(states[|events|].All()) <==> OneAtATime(states, events)
    ensures OneAtATime(states, events) ==> Orderly(states[|events|])
    decreases |events|
  {
    hide PidStep, DistinctPids, Orderly;
    if events == [] {
      assert states[0].All() == states[0].pids;
      OrderlyAtFirst(states[0]);
    } else {
      var n := |events| - 1;
      PidsOverRun(states[..n + 1], events[..n]);
      StepLast(states, events);
      if OneAtATime(states[..n + 1], events[..n]) {
        OrderlyStep(states[n], states[n + 1], events[n]);
        OrderlyDistinct(states[n + 1]);
      } else {
        RepeatStays(states[n], states[n + 1], events[n]);
      }
    }
  }

  lemma OrderlyAtFirst(a: PidState)
    requires DistinctPids(a.All()) && a.pending == []
    ensures Orderly(a)
  {
  }

  lemma OrderlyDistinct(a: PidState)
    ensures Orderly(a) ==> DistinctPids(a.All())
  {
  }

  lemma StepLast(states: seq<PidState>, events: seq<PidEvent>)
    requires |states| == |events| + 1 && events != []
    ensures var n := |events| - 1;
      OneAtATime(states, events) <==>
        OneAtATime(states[..n + 1], events[..n]) && (events[n].Create? ==> states[n].pending == [])
  {
    var n := |events| - 1;
    if OneAtATime(states[..n + 1], events[..n]) && (events[n].Create? ==> states[n].pending == []) {
      forall k | 0 <= k < |events| && events[k].Create?
        ensures states[k].pending == []
      {
        if k < n {
          assert events[..n][k] == events[k] && states[..n + 1][k] == states[k];
        }
      }
    }
  }

  // ----- the pids of listed tasks alone: created tasks need not be added

  /** Tasks created since the last addition. */
  function CreatedSince(events: seq<PidEvent>): nat {
    if events == [] || events[|events| - 1].AddCreated? then 0 else CreatedSince(events[..|events| - 1]) + 1
  }

  /** Every added task was created after the addition before: it is among the last pending ones. */
  ghost predicate AddedInTurn(states: seq<PidState>, events: seq<PidEvent>)
    requires |states| == |events| + 1
  {
    forall k :: 0 <= k < |events| && events[k].AddCreated? ==> |states[k].pending| - CreatedSince(events[..k]) <= events[k].k
  }

  /** Pending tasks created before the last addition have pids that are listed by now; the `n` later ones share the
      least unused pid. */
  ghost predicate Aged(a: PidState, n: nat) {
    && DistinctPids(a.pids) && n <= |a.pending|
    && (forall k :: 0 <= k < |a.pending| - n ==> a.pending[k] in a.pids)
    && (forall k :: |a.pending| - n <= k < |a.pending| ==> LeastUnused(a.pids, a.pending[k]))
  }

  lemma AgedCreate(a: PidState, b: PidState, n: nat)
    requires PidStep(a, b, Create) && Aged(a, n)
    ensures Aged(b, n + 1)
  {
    hide DistinctPids, LeastUnused;
    SnocOf(a.pending, b.pending);
  }

  lemma AgedAdd(a: PidState, b: PidState, k: nat, n: nat)
    requires PidStep(a, b, AddCreated(k)) && Aged(a, n)
    ensures if |a.pending| - n <= k then Aged(b, 0) else !DistinctPids(b.pids)
  {
    hide DistinctPids;
    AddKeepsDistinct(a.pids, a.pending[k]);
    if |a.pending| - n <= k {
      forall j | 0 <= j < |b.pending|
        ensures b.pending[j] in b.pids
      {
        var i := if j < k then j else j + 1;
        assert b.pending[j] == a.pending[i];
        if |a.pending| - n <= i {
          SameLeast(a.pids, a.pending[i], a.pending[k]);
        }
      }
    }
  }

  lemma SameLeast(pids: seq<int>, p: int, q: int)
    requires LeastUnused(pids, p) && LeastUnused(pids, q)
    ensures p == q
  {
  }

  lemma RepeatListed(a: PidState, b: PidState, e: PidEvent)
    requires PidStep(a, b, e) && !DistinctPids(a.pids)
    ensures !DistinctPids(b.pids)
  {
    var i, j :| 0 <= i < j < |a.pids| && a.pids[i] == a.pids[j];
    assert b.pids[i] == a.pids[i] && b.pids[j] == a.pids[j];
  }

  /** Over every run of creations and additions the listed pids stay distinct if and only if every added task was
      created after the addition before. */
  lemma {:induction false} ListedPidsOverRun(states: seq<PidState>, events: seq<PidEvent>)
    requires PidRun(states, events) && states[0].pending == [] && DistinctPids(states[0].pids)
    ensures DistinctPids(states[|events|].pids) <==> AddedInTurn(states, events)
    ensures AddedInTurn(states, events) ==> Aged(states[|events|], CreatedSince(events))
    decreases |events|
  {
    hide PidStep, DistinctPids, Aged;
    if events == [] {
      AgedAtFirst(states[0]);
    } else {
      var n := |events| - 1;
      ListedPidsOverRun(states[..n + 1], events[..n]);
      AddedLast(states, events);
      if AddedInTurn(states[..n + 1], events[..n]) {
        if events[n].Create? {
          AgedCreate(states[n], states[n + 1], CreatedSince(events[..n]));
        } else {
          AgedAdd(states[n], states[n + 1], events[n].k, CreatedSince(events[..n]));
        }
        AgedDistinct(states[n + 1], CreatedSince(events));
      } else {
        RepeatListed(states[n], states[n + 1], events[n]);
      }
    }
  }

  lemma AgedAtFirst(a: PidState)
    requires DistinctPids(a.pids) && a.pending == []
    ensures Aged(a, 0)
  {
  }

  lemma AgedDistinct(a: PidState, n: nat)
    ensures Aged(a, n) ==> DistinctPids(a.pids)
  {
  }

  lemma AddedLast(states: seq<PidState>, events: seq<PidEvent>)
    requires |states| == |events| + 1 && events != []
    ensures var n := |events| - 1;
      AddedInTurn(states, events) <==>
        AddedInTurn(states[..n + 1], events[..n])
        && (events[n].AddCreated? ==> |states[n].pending| - CreatedSince(events[..n]) <= events[n].k)
  {
    hide CreatedSince;
    var n := |events| - 1;
    forall k | 0 <= k < n
      ensures events[..n][k] == events[k] && states[..n + 1][k] == states[k] && events[..n][..k] == events[..k]
    {
    }
  }
}
