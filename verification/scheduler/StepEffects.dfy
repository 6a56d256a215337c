/** What every step does to every list and every task, read off the state before it. */
module StepEffects {
  import opened Lists
  import opened Seals
  import opened Sequences
  import opened Widths
  import opened Scheduling

  /** The tasks of `z` that are in `which`, in the order of `z`. */
  function Those(z: seq<Task>, which: set<Task>): seq<Task> {
    if z == [] then [] else (if z[0] in which then [z[0]] else []) + Those(z[1..], which)
  }

  lemma {:induction false} ThoseOf(z: seq<Task>, which: set<Task>, t: Task)
    ensures t in Those(z, which) <==> t in z && t in which
  {
    if z != [] {
      ThoseOf(z[1..], which, t);
      assert z == [z[0]] + z[1..];
    }
  }

  lemma {:induction false} ThoseAndOne(z: seq<Task>, which: set<Task>, t: Task)
    ensures Those(z + [t], which) == Those(z, which) + if t in which then [t] else []
  {
    if z == [] {
      assert [t][1..] == [];
    } else {
      ThoseAndOne(z[1..], which, t);
      assert (z + [t])[1..] == z[1..] + [t];
    }
  }

  /** The tasks whose sleep ends with the next tick. */
  function Due(s: Sys): set<Task> { set t | t in s.tasks && s.tasks[t].sleep == 1 }

  lemma {:induction false} SplitByDue(s: Sys, z: seq<Task>, late: set<Task>)
    requires forall t | t in z :: t in late <==> t !in Due(s)
    requires forall t | t in z :: t in s.tasks
    ensures Woken(z, s.tasks) == Those(z, Due(s)) && Still(z, s.tasks) == Those(z, late)
  {
    if z != [] {
      var y, t := z[..|z| - 1], z[|z| - 1];
      assert z == y + [t];
      assert t in z && forall u | u in y :: u in z;
      SplitByDue(s, y, late);
      ThoseAndOne(y, Due(s), t);
      ThoseAndOne(y, late, t);
    }
  }

  predicate Owns(s: Sys, m: int, t: Task) { m in s.mutexes && s.mutexes[m].owner == t }

  /** The running task asks for a lock that another one holds. */
  predicate Contends(s: Sys, step: Step, m: int) {
    step == Lock(m) && m in s.mutexes && s.mutexes[m].locked != 0 && s.mutexes[m].owner != s.curr
  }

  /** The owner gives up a lock for which others wait. */
  predicate HandsOff(s: Sys, step: Step, m: int) {
    && step == Unlock(m) && Owns(s, m, s.curr) && s.mutexes[m].locked == 1
    && MutexWait(m) in s.lists && s.lists[MutexWait(m)] != []
  }

  /** The running task asks for a permit when there is none. */
  predicate Blocks(s: Sys, step: Step, k: int) {
    step == SemWaits(k) && k in s.sems && s.sems[k] <= 0
  }

  /** A permit goes to the first of those that wait. */
  predicate Grants(s: Sys, step: Step, k: int) {
    step == Notify(k) && SemWait(k) in s.lists && s.lists[SemWait(k)] != []
  }

  /** The running task waits for a child, exits, or sleeps for a number of ticks that overflows to none. */
  predicate Parks(step: Step) {
    step.AwaitChild? || step.Exit? || (step.Msleep? && TicksOf(step.ms) == 0)
  }

  /** Whether the running task leaves the head of the ready list. */
  predicate Leaves(s: Sys, step: Step)
    requires Ready in s.lists && s.curr in s.tasks
  {
    && s.curr != IDLE
    && match step
       case Tick => s.tasks[s.curr].slice == 1
       case Yield => |s.lists[Ready]| > 1
       case Lock(m) => Contends(s, step, m)
       case SemWaits(k) => Blocks(s, step, k)
       case Msleep(_) => true
       case AwaitChild => true
       case Exit(_) => true
       case _ => false
  }

  /** Those that an exit wakes: the first task when it was given a child, and the parent, if they wait. */
  function ParentsWaiting(s: Sys, moved: bool): seq<Task>
    requires s.curr in s.tasks
  {
    var p := s.tasks[s.curr].parent;
    var first := FIRST_TASK in s.tasks && s.tasks[FIRST_TASK].state == Waiting && (moved || p == FIRST_TASK);
    (if first then [FIRST_TASK] else [])
      + if p != FIRST_TASK && p != IDLE && p in s.tasks && s.tasks[p].state == Waiting then [p] else []
  }

  /** Those that come to the end of the ready list, in this order: the running task when its slice is used up
      or it yields, the sleepers that are due, the first waiter, parents, a new task. */
  function Joins(s: Sys, step: Step): seq<Task>
    requires Ready in s.lists && Sleep in s.lists && s.curr in s.tasks
  {
    match step
    case Tick => (if Leaves(s, step) then [s.curr] else []) + Those(s.lists[Sleep], Due(s))
    case Yield => if Leaves(s, step) then [s.curr] else []
    case Unlock(m) => if HandsOff(s, step, m) then [s.lists[MutexWait(m)][0]] else []
    case Notify(k) => if Grants(s, step, k) then [s.lists[SemWait(k)][0]] else []
    case Exit(moved) => ParentsWaiting(s, moved)
    case Start(t) => [t]
    case _ => []
  }

  function ListAfter(s: Sys, step: Step, l: ListId): seq<Task>
    requires Ready in s.lists && Sleep in s.lists && l in s.lists && s.curr in s.tasks
  {
    var q := s.lists[l];
    match l
    case Ready => (if Leaves(s, step) && q != [] then q[1..] else q) + Joins(s, step)
    case Sleep =>
      if step.Tick? then Those(q, (set t | t in q) - Due(s))
      else if step.Msleep? && TicksOf(step.ms) > 0 then q + [s.curr] else q
    case MutexWait(m) =>
      if Contends(s, step, m) then q + [s.curr] else if HandsOff(s, step, m) then q[1..] else q
    case SemWait(k) =>
      if Blocks(s, step, k) then q + [s.curr] else if Grants(s, step, k) then q[1..] else q
  }

  /** Who runs then. */
  function RunsAfter(s: Sys, step: Step): Task
    requires Ready in s.lists && Sleep in s.lists && s.curr in s.tasks
  {
    NextRun(ListAfter(s, step, Ready))
  }

  /** The state of a task before the next one is chosen. */
  function StateBetween(s: Sys, step: Step, t: Task): TaskState
    requires Ready in s.lists && Sleep in s.lists && s.curr in s.tasks && t in s.tasks
  {
    if t in Joins(s, step) then ReadyToRun
    else if step.Msleep? && t == s.curr && TicksOf(step.ms) > 0 then Sleeping
    else if step.AwaitChild? && t == s.curr then Waiting
    else if step.Exit? && t == s.curr then Zombie
    else if step == Reap(t) then Created
    else s.tasks[t].state
  }

  function StateAfter(s: Sys, step: Step, t: Task): TaskState
    requires Ready in s.lists && Sleep in s.lists && s.curr in s.tasks && t in s.tasks
  {
    if t == RunsAfter(s, step) && t != s.curr then Running else StateBetween(s, step, t)
  }

  function SliceAfter(s: Sys, step: Step, t: Task): int
    requires t in s.tasks
  {
    if step.Tick? && t == s.curr then if s.tasks[t].slice == 1 then TASK_TIME_SLICE_DEFAULT else s.tasks[t].slice - 1
    else if step == Start(t) then TASK_TIME_SLICE_DEFAULT
    else if step == Reap(t) then 0
    else s.tasks[t].slice
  }

  function SleepAfter(s: Sys, step: Step, t: Task): int
    requires Sleep in s.lists && t in s.tasks
  {
    if step.Tick? && t in s.lists[Sleep] then s.tasks[t].sleep - 1
    else if step.Msleep? && t == s.curr && TicksOf(step.ms) > 0 then TicksOf(step.ms)
    else if step == Start(t) || step == Reap(t) then 0
    else s.tasks[t].sleep
  }

  function ParentAfter(s: Sys, step: Step, t: Task): Task
    requires t in s.tasks
  {
    if step == Start(t) then s.curr
    else if step == Reap(t) then NOBODY
    else if step == Adopt(t) then FIRST_TASK
    else s.tasks[t].parent
  }

  function MutexAfter(s: Sys, step: Step, m: int): Mutex
    requires m in s.mutexes && MutexWait(m) in s.lists
  {
    var mx := s.mutexes[m];
    if step == Lock(m) && mx.locked == 0 then Mutex(1, s.curr)
    else if step == Lock(m) && mx.owner == s.curr then Mutex(mx.locked + 1, s.curr)
    else if HandsOff(s, step, m) then Mutex(1, s.lists[MutexWait(m)][0])
    else if step == Unlock(m) && mx.owner == s.curr then
      Mutex(mx.locked - 1, if mx.locked == 1 then NOBODY else s.curr)
    else mx
  }

  function CountAfter(s: Sys, step: Step, k: int): int
    requires k in s.sems
  {
    if step == SemWaits(k) && s.sems[k] > 0 then s.sems[k] - 1
    else if step == Notify(k) && !Grants(s, step, k) then s.sems[k] + 1
    else s.sems[k]
  }

  ghost predicate ListsMoved(s: Sys, step: Step, s': Sys)
    requires Ready in s.lists && Sleep in s.lists && s.curr in s.tasks
  {
    s'.lists.Keys == s.lists.Keys && forall l | l in s.lists :: s'.lists[l] == ListAfter(s, step, l)
  }

  ghost predicate TasksMoved(s: Sys, step: Step, s': Sys)
    requires Ready in s.lists && Sleep in s.lists && s.curr in s.tasks
  {
    && s'.tasks.Keys == s.tasks.Keys
    && forall t | t in s.tasks ::
         && s'.tasks[t].state == StateAfter(s, step, t) && s'.tasks[t].slice == SliceAfter(s, step, t)
         && s'.tasks[t].sleep == SleepAfter(s, step, t) && s'.tasks[t].parent == ParentAfter(s, step, t)
  }

  ghost predicate PrimitivesMoved(s: Sys, step: Step, s': Sys)
    requires HasLists(s)
  {
    && s'.mutexes.Keys == s.mutexes.Keys && s'.sems.Keys == s.sems.Keys
    && (forall m | m in s.mutexes :: s'.mutexes[m] == MutexAfter(s, step, m))
    && (forall k | k in s.sems :: s'.sems[k] == CountAfter(s, step, k))
  }

  /** Everything that a step does. */
  ghost predicate Moved(s: Sys, step: Step, s': Sys)
    requires HasLists(s) && s.curr in s.tasks
  {
    ListsMoved(s, step, s') && TasksMoved(s, step, s') && PrimitivesMoved(s, step, s') && s'.curr == RunsAfter(s, step)
  }

  /** Everything but choosing the task that runs next. */
  ghost predicate Prepared(s: Sys, step: Step, b: Sys)
    requires HasLists(s) && s.curr in s.tasks
  {
    ListsMoved(s, step, b) && TasksPrepared(s, step, b) && PrimitivesMoved(s, step, b) && b.curr == s.curr
  }

  ghost predicate TasksPrepared(s: Sys, step: Step, b: Sys)
    requires Ready in s.lists && Sleep in s.lists && s.curr in s.tasks
  {
    && b.tasks.Keys == s.tasks.Keys
    && forall t | t in s.tasks ::
         && b.tasks[t].state == StateBetween(s, step, t) && b.tasks[t].slice == SliceAfter(s, step, t)
         && b.tasks[t].sleep == SleepAfter(s, step, t) && b.tasks[t].parent == ParentAfter(s, step, t)
  }

  lemma Chosen(s: Sys, step: Step, b: Sys)
    requires Inv(s) && Prepared(s, step, b) && Core(b)
    ensures NextRun(b.lists[Ready]) in b.tasks && Moved(s, step, Dispatched(b))
  {
    DispatchKeeps(b);
    ChosenRuns(s, step, b, Dispatched(b));
  }

  lemma ChosenRuns(s: Sys, step: Step, b: Sys, s': Sys)
    requires HasLists(s) && s.curr in s.tasks && TasksPrepared(s, step, b) && ListsMoved(s, step, b)
    requires s'.lists == b.lists && s'.curr == NextRun(b.lists[Ready]) && s'.tasks.Keys == b.tasks.Keys
    requires forall t | t in b.tasks ::
      && s'.tasks[t].slice == b.tasks[t].slice && s'.tasks[t].sleep == b.tasks[t].sleep
      && s'.tasks[t].parent == b.tasks[t].parent
      && s'.tasks[t].state == if t == s'.curr && t != s.curr then Running else b.tasks[t].state
    ensures TasksMoved(s, step, s') && ListsMoved(s, step, s') && s'.curr == RunsAfter(s, step)
  {
    var next := RunsAfter(s, step);
    assert s'.curr == next;
  }

  // ----- each step

  lemma ReadyKnown(s: Sys)
    requires Inv(s)
    ensures forall t | t in s.lists[Ready] ::
      t in s.tasks && t != IDLE && 1 <= s.tasks[t].slice <= TASK_TIME_SLICE_DEFAULT
    ensures s.curr == IDLE <==> s.lists[Ready] == []
    ensures Disjoint(s.lists[Ready], s.lists[Sleep]) && Disjoint(s.lists[Sleep], s.lists[Ready])
    ensures s.curr != IDLE ==> s.lists[Ready] == [s.curr] + s.lists[Ready][1..] && s.curr !in s.lists[Ready][1..]
  {
    assert Unsealed(Seal);
    assert AllMayHang(s, s.lists[Ready]);
    var r := s.lists[Ready];
    if r != [] {
      assert r[0] in r;
      TailOnce(s.lists, Ready);
    }
  }

  lemma DispatchKeeps(s: Sys)
    requires Core(s)
    ensures NextRun(s.lists[Ready]) in s.tasks
    ensures var s' := Dispatched(s);
      && s'.lists == s.lists && s'.mutexes == s.mutexes && s'.sems == s.sems && s'.tasks.Keys == s.tasks.Keys
      && s'.curr == NextRun(s.lists[Ready])
      && forall t | t in s.tasks ::
           && s'.tasks[t].slice == s.tasks[t].slice && s'.tasks[t].sleep == s.tasks[t].sleep
           && s'.tasks[t].parent == s.tasks[t].parent
           && s'.tasks[t].state ==
                if t == NextRun(s.lists[Ready]) && t != s.curr then Running else s.tasks[t].state
  {
    NextRunKnown(s);
  }

  lemma SleepersKnown(s: Sys)
    requires Inv(s)
    ensures forall t | t in s.lists[Sleep] :: t in s.tasks && t != s.curr && t != IDLE && !Parked(s.tasks[t].state)
  {
    assert Unsealed(Seal);
    assert AllMayHang(s, s.lists[Sleep]);
    ReadyKnown(s);
    assert Disjoint(s.lists[Sleep], s.lists[Ready]);
    assert s.curr != IDLE ==> s.curr in s.lists[Ready];
  }

  /** The two parts of a tick. */
  lemma SliceMoves(s: Sys)
    requires Inv(s)
    ensures var s1 := SliceUsed(s);
      && s1.lists == s.lists[Ready := (if Leaves(s, Tick) then s.lists[Ready][1..] + [s.curr] else s.lists[Ready])]
      && s1.mutexes == s.mutexes && s1.sems == s.sems && s1.curr == s.curr && s1.tasks.Keys == s.tasks.Keys
      && forall t | t in s.tasks ::
           && s1.tasks[t].sleep == s.tasks[t].sleep && s1.tasks[t].parent == s.tasks[t].parent
           && s1.tasks[t].slice == SliceAfter(s, Tick, t)
           && s1.tasks[t].state == if Leaves(s, Tick) && t == s.curr then ReadyToRun else s.tasks[t].state
  {
    ReadyKnown(s);
  }

  lemma SleepersMove(s: Sys)
    requires Core(s) && forall t | t in s.lists[Sleep] :: t in s.tasks
    ensures var s2, z := SleepersCounted(s), s.lists[Sleep];
      && s2.lists == s.lists[Ready := s.lists[Ready] + Those(z, Due(s))][Sleep := Those(z, (set t | t in z) - Due(s))]
      && s2.mutexes == s.mutexes && s2.sems == s.sems && s2.curr == s.curr && s2.tasks.Keys == s.tasks.Keys
      && forall t | t in s.tasks ::
           && s2.tasks[t].sleep == (if t in z then s.tasks[t].sleep - 1 else s.tasks[t].sleep)
           && s2.tasks[t].parent == s.tasks[t].parent && s2.tasks[t].slice == s.tasks[t].slice
           && s2.tasks[t].state == if t in z && t in Due(s) then ReadyToRun else s.tasks[t].state
  {
    SplitByDue(s, s.lists[Sleep], (set t | t in s.lists[Sleep]) - Due(s));
  }

  lemma TickLists(s: Sys)
    requires Inv(s)
    ensures ListsMoved(s, Tick, SleepersCounted(SliceUsed(s)))
  {
    SliceMoves(s);
    var s1, z, r := SliceUsed(s), s.lists[Sleep], s.lists[Ready];
    ReadyKnown(s);
    TickLate(s, s1);
    TickJoins(s, s1.lists[Ready], Those(z, Due(s)), SleepersCounted(s1).lists[Ready]);
  }

  lemma TickJoins(s: Sys, r1: seq<Task>, due: seq<Task>, r2: seq<Task>)
    requires Ready in s.lists && Sleep in s.lists && s.curr in s.tasks && due == Those(s.lists[Sleep], Due(s))
    requires s.curr != IDLE ==> s.lists[Ready] != []
    requires r1 == (if Leaves(s, Tick) then s.lists[Ready][1..] + [s.curr] else s.lists[Ready]) && r2 == r1 + due
    ensures r2 == ListAfter(s, Tick, Ready)
  {
    var r := s.lists[Ready];
    assert r != [] ==> (r[1..] + [s.curr]) + due == r[1..] + ([s.curr] + due);
    assert r + due == r + ([] + due);
  }

  lemma TickLate(s: Sys, s1: Sys)
    requires Inv(s) && s1 == SliceUsed(s)
    ensures Core(s1) && s1.lists[Sleep] == s.lists[Sleep]
    ensures var z := s.lists[Sleep];
      SleepersCounted(s1).lists == s1.lists[Ready := s1.lists[Ready] + Those(z, Due(s))]
                                           [Sleep := Those(z, (set t | t in z) - Due(s))]
  {
    SleepersKnown(s);
    SliceUsedCore(s);
    SliceMoves(s);
    SleepersMove(s1);
    assert Due(s1) == Due(s);
  }

  lemma TickTasks(s: Sys)
    requires Inv(s) && Core(SliceUsed(s))
    ensures TasksPrepared(s, Tick, SleepersCounted(SliceUsed(s)))
  {
    SleepersKnown(s);
    SliceMoves(s);
    var s1 := SliceUsed(s);
    SleepersMove(s1);
    assert Due(s1) == Due(s);
    TickInfos(s, s1, SleepersCounted(s1));
  }

  lemma TickInfos(s: Sys, s1: Sys, s2: Sys)
    requires HasLists(s) && s.curr in s.tasks && s.curr !in s.lists[Sleep] && s1.tasks.Keys == s.tasks.Keys
    requires s2.tasks.Keys == s.tasks.Keys
    requires forall t | t in s.tasks ::
      && s1.tasks[t].sleep == s.tasks[t].sleep && s1.tasks[t].parent == s.tasks[t].parent
      && s1.tasks[t].slice == SliceAfter(s, Tick, t)
      && s1.tasks[t].state == if Leaves(s, Tick) && t == s.curr then ReadyToRun else s.tasks[t].state
    requires forall t | t in s.tasks ::
      && s2.tasks[t].sleep == (if t in s.lists[Sleep] then s1.tasks[t].sleep - 1 else s1.tasks[t].sleep)
      && s2.tasks[t].parent == s1.tasks[t].parent && s2.tasks[t].slice == s1.tasks[t].slice
      && s2.tasks[t].state == if t in s.lists[Sleep] && t in Due(s) then ReadyToRun else s1.tasks[t].state
    ensures TasksPrepared(s, Tick, s2)
  {
    forall t
      ensures t in Those(s.lists[Sleep], Due(s)) <==> t in s.lists[Sleep] && t in Due(s)
    {
      ThoseOf(s.lists[Sleep], Due(s), t);
    }
  }

  lemma YieldPrepares(s: Sys)
    requires Inv(s) && s.curr != IDLE && |s.lists[Ready]| > 1
    ensures Prepared(s, Yield, MadeReady(Blocked(s), s.curr))
  {
    ReadyKnown(s);
  }

  lemma SleepLists(s: Sys, ms: U32)
    requires Inv(s) && s.curr != IDLE
    ensures ListsMoved(s, Msleep(ms), PutToSleep(s, ms)) && PrimitivesMoved(s, Msleep(ms), PutToSleep(s, ms))
  {
    ReadyKnown(s);
  }

  lemma SleepTasks(s: Sys, ms: U32)
    requires Inv(s) && s.curr != IDLE
    ensures TasksPrepared(s, Msleep(ms), PutToSleep(s, ms))
  {
    ReadyKnown(s);
  }

  lemma LeavePrepares(s: Sys)
    requires Inv(s) && s.curr != IDLE
    ensures Prepared(s, AwaitChild, LeftIn(s, Waiting))
  {
    ReadyKnown(s);
  }

  lemma QueueLists(s: Sys, l: ListId, step: Step)
    requires Inv(s) && s.curr != IDLE && l in s.lists && (l.MutexWait? || l.SemWait?)
    requires l.MutexWait? ==> Contends(s, step, l.mutex)
    requires l.SemWait? ==> Blocks(s, step, l.sem)
    ensures ListsMoved(s, step, Hung(Blocked(s), l, s.curr))
  {
    ReadyKnown(s);
  }

  lemma QueuePrimitives(s: Sys, l: ListId, step: Step)
    requires Inv(s) && s.curr != IDLE && l in s.lists && (l.MutexWait? || l.SemWait?)
    requires l.MutexWait? ==> Contends(s, step, l.mutex)
    requires l.SemWait? ==> Blocks(s, step, l.sem)
    ensures PrimitivesMoved(s, step, Hung(Blocked(s), l, s.curr))
  {
  }

  lemma QueueTasks(s: Sys, l: ListId, step: Step)
    requires Inv(s) && s.curr != IDLE && l in s.lists && (l.MutexWait? || l.SemWait?)
    requires l.MutexWait? ==> Contends(s, step, l.mutex)
    requires l.SemWait? ==> Blocks(s, step, l.sem)
    ensures TasksPrepared(s, step, Hung(Blocked(s), l, s.curr))
  {
    ReadyKnown(s);
  }

  lemma LockPrepares(s: Sys, m: int)
    requires Inv(s) && s.curr != IDLE && m in s.mutexes && !Contends(s, Lock(m), m)
    ensures Prepared(s, Lock(m), Locked(s, m))
  {
    MutexKnown(s, m);
  }

  lemma UnlockLists(s: Sys, m: int)
    requires Inv(s) && s.curr != IDLE && m in s.mutexes && !HandsOff(s, Unlock(m), m)
    ensures ListsMoved(s, Unlock(m), Unlocked(s, m)) && PrimitivesMoved(s, Unlock(m), Unlocked(s, m))
  {
    MutexKnown(s, m);
  }

  lemma UnlockTasks(s: Sys, m: int)
    requires Inv(s) && s.curr != IDLE && m in s.mutexes && !HandsOff(s, Unlock(m), m)
    ensures TasksPrepared(s, Unlock(m), Unlocked(s, m))
  {
    MutexKnown(s, m);
  }

  lemma HandOffLists(s: Sys, m: int)
    requires Inv(s) && m in s.mutexes && HandsOff(s, Unlock(m), m)
    ensures s.lists[MutexWait(m)][0] in s.tasks && ListsMoved(s, Unlock(m), HandedOver(s, m))
  {
    FirstWaiter(s, MutexWait(m));
  }

  lemma HandOffPrimitives(s: Sys, m: int)
    requires Inv(s) && m in s.mutexes && HandsOff(s, Unlock(m), m)
    ensures s.lists[MutexWait(m)][0] in s.tasks && PrimitivesMoved(s, Unlock(m), HandedOver(s, m))
  {
    FirstWaiter(s, MutexWait(m));
  }

  lemma HandOffTasks(s: Sys, m: int)
    requires Inv(s) && m in s.mutexes && HandsOff(s, Unlock(m), m)
    ensures s.lists[MutexWait(m)][0] in s.tasks && TasksPrepared(s, Unlock(m), HandedOver(s, m))
  {
    FirstWaiter(s, MutexWait(m));
  }

  lemma GrantLists(s: Sys, k: int)
    requires Inv(s) && k in s.sems && Grants(s, Notify(k), k)
    ensures s.lists[SemWait(k)][0] in s.tasks && ListsMoved(s, Notify(k), Woke(s, SemWait(k)))
  {
    FirstWaiter(s, SemWait(k));
  }

  lemma GrantPrimitives(s: Sys, k: int)
    requires Inv(s) && k in s.sems && Grants(s, Notify(k), k)
    ensures s.lists[SemWait(k)][0] in s.tasks && PrimitivesMoved(s, Notify(k), Woke(s, SemWait(k)))
  {
    FirstWaiter(s, SemWait(k));
  }

  lemma GrantTasks(s: Sys, k: int)
    requires Inv(s) && k in s.sems && Grants(s, Notify(k), k)
    ensures s.lists[SemWait(k)][0] in s.tasks && TasksPrepared(s, Notify(k), Woke(s, SemWait(k)))
  {
    FirstWaiter(s, SemWait(k));
  }

  lemma StartLists(s: Sys, t: Task)
    requires Inv(s) && Enabled(s, Start(t))
    ensures ListsMoved(s, Start(t), Started(s, t)) && PrimitivesMoved(s, Start(t), Started(s, t))
  {
  }

  lemma StartTasks(s: Sys, t: Task)
    requires Inv(s) && Enabled(s, Start(t))
    ensures TasksPrepared(s, Start(t), Started(s, t))
  {
  }

  lemma ReapPrepares(s: Sys, t: Task)
    requires Inv(s) && Enabled(s, Reap(t))
    ensures Prepared(s, Reap(t), Reaped(s, t))
  {
  }

  lemma AdoptPrepares(s: Sys, t: Task)
    requires Inv(s) && Enabled(s, Adopt(t))
    ensures Prepared(s, Adopt(t), Adopted(s, t))
  {
  }

  /** The parents that an exit wakes are at the end of the ready list, and ready. */
  lemma ParentsJoin(s: Sys, moved: bool)
    requires Inv(s) && Enabled(s, Exit(moved))
    ensures var p := ParentsWoken(s, moved);
      && p.lists.Keys == s.lists.Keys && p.lists[Ready] == s.lists[Ready] + ParentsWaiting(s, moved)
      && (forall l | l in s.lists && l != Ready :: p.lists[l] == s.lists[l])
      && p.mutexes == s.mutexes && p.sems == s.sems && p.curr == s.curr
  {
    var r, q := s.lists[Ready], s.tasks[s.curr].parent;
    assert r + [] == r && r + ([FIRST_TASK] + [q]) == r + [FIRST_TASK] + [q];
  }

  lemma ParentsReady(s: Sys, moved: bool)
    requires Inv(s) && Enabled(s, Exit(moved))
    ensures var p := ParentsWoken(s, moved);
      && p.tasks.Keys == s.tasks.Keys
      && forall t | t in s.tasks ::
           p.tasks[t] == if t in ParentsWaiting(s, moved) then s.tasks[t].(state := ReadyToRun) else s.tasks[t]
  {
    var p, first := s.tasks[s.curr].parent, moved && s.tasks[s.curr].parent != FIRST_TASK;
    WokenState(s, FIRST_TASK);
    var s1 := if first then WokenIfWaiting(s, FIRST_TASK) else s;
    WokenState(s1, p);
    assert ParentsWoken(s, moved) == WokenIfWaiting(s1, p);
  }

  lemma WokenState(s: Sys, t: Task)
    requires Ready in s.lists && t in s.tasks
    ensures WokenIfWaiting(s, t).tasks ==
      if t != IDLE && s.tasks[t].state == Waiting then s.tasks[t := s.tasks[t].(state := ReadyToRun)] else s.tasks
  {
  }

  lemma RunningWaitsForNobody(s: Sys)
    requires Inv(s) && s.curr != IDLE
    ensures !Parked(s.tasks[s.curr].state)
  {
    assert Unsealed(Seal);
    ReadyKnown(s);
    assert s.curr in s.lists[Ready];
    assert AllMayHang(s, s.lists[Ready]);
  }

  lemma ExitLists(s: Sys, p: Sys, moved: bool)
    requires Inv(s) && Enabled(s, Exit(moved)) && p == ParentsWoken(s, moved)
    ensures ListsMoved(s, Exit(moved), LeftIn(p, Zombie)) && PrimitivesMoved(s, Exit(moved), LeftIn(p, Zombie))
  {
    ParentsJoin(s, moved);
    ExitingLast(s, p, moved, ParentsWaiting(s, moved));
    ExitingKeeps(s, p, moved);
  }

  lemma ExitingLast(s: Sys, p: Sys, moved: bool, w: seq<Task>)
    requires Inv(s) && s.curr != IDLE && w == ParentsWaiting(s, moved) && p.lists.Keys == s.lists.Keys
    requires forall l | l in s.lists && l != Ready :: p.lists[l] == s.lists[l]
    requires p.curr == s.curr && s.curr in p.tasks
    requires p.lists[Ready] == s.lists[Ready] + w
    ensures ListsMoved(s, Exit(moved), LeftIn(p, Zombie))
  {
    var lists' := LeftIn(p, Zombie).lists;
    ExitingReady(s, p, moved, w);
    forall l | l in s.lists
      ensures lists'[l] == ListAfter(s, Exit(moved), l)
    {
    }
  }

  lemma ExitingReady(s: Sys, p: Sys, moved: bool, w: seq<Task>)
    requires Inv(s) && s.curr != IDLE && w == ParentsWaiting(s, moved) && p.curr == s.curr && s.curr in p.tasks
    requires Ready in p.lists && p.lists[Ready] == s.lists[Ready] + w
    ensures LeftIn(p, Zombie).lists == p.lists[Ready := ListAfter(s, Exit(moved), Ready)]
  {
    ReadyKnown(s);
    var r := s.lists[Ready];
    assert (r + w)[1..] == r[1..] + w;
  }

  lemma ExitingKeeps(s: Sys, p: Sys, moved: bool)
    requires HasLists(s) && Ready in p.lists && p.curr in p.tasks && p.mutexes == s.mutexes && p.sems == s.sems
    ensures PrimitivesMoved(s, Exit(moved), LeftIn(p, Zombie))
  {
  }

  lemma ExitTasks(s: Sys, p: Sys, moved: bool)
    requires Inv(s) && Enabled(s, Exit(moved)) && p == ParentsWoken(s, moved)
    ensures p.curr == s.curr && s.curr in p.tasks
    ensures TasksPrepared(s, Exit(moved), LeftIn(p, Zombie))
  {
    ParentsReady(s, moved);
    var w := ParentsWaiting(s, moved);
    ExitingNotIn(s, moved, w);
    ExitStates(s, moved, w, p, LeftIn(p, Zombie).tasks);
  }

  lemma ExitingNotIn(s: Sys, moved: bool, w: seq<Task>)
    requires Inv(s) && s.curr != IDLE && w == ParentsWaiting(s, moved)
    ensures s.curr !in w && s.tasks[s.curr].state != Waiting
  {
    RunningWaitsForNobody(s);
  }

  lemma ExitStates(s: Sys, moved: bool, w: seq<Task>, p: Sys, tasks': map<Task, Info>)
    requires HasLists(s) && s.curr in s.tasks && s.tasks[s.curr].state != Waiting && p.tasks.Keys == s.tasks.Keys
    requires w == ParentsWaiting(s, moved) && s.curr !in w
    requires forall t | t in s.tasks :: p.tasks[t] == if t in w then s.tasks[t].(state := ReadyToRun) else s.tasks[t]
    requires tasks' == p.tasks[s.curr := p.tasks[s.curr].(state := Zombie)]
    ensures TasksPrepared(s, Exit(moved), p.(tasks := tasks'))
  {
    assert Joins(s, Exit(moved)) == w;
  }

  /** What a step makes of every list, every task, every lock and every semaphore. */
  lemma StepMoves(s: Sys, step: Step)
    requires Inv(s) && Enabled(s, step)
    ensures Moved(s, step, Next(s, step))
  {
    match step
    case Tick => TickMoves(s);
    case Yield => YieldMoves(s);
    case Msleep(ms) => SleepMoves(s, ms);
    case Lock(m) => LockMoves(s, m);
    case Unlock(m) => UnlockMoves(s, m);
    case SemWaits(k) => WaitMoves(s, k);
    case Notify(k) => NotifyMoves(s, k);
    case AwaitChild => AwaitMoves(s);
    case Adopt(t) =>
      AdoptPrepares(s, t);
      Unchosen(s, step, Adopted(s, t));
    case Exit(moved) => ExitMoves(s, moved);
    case Reap(t) =>
      ReapPrepares(s, t);
      Unchosen(s, step, Reaped(s, t));
    case Start(t) => StartMoves(s, t);
  }

  lemma TickMoves(s: Sys)
    requires Inv(s)
    ensures Moved(s, Tick, Ticked(s))
  {
    TickLists(s);
    SliceUsedCore(s);
    TickTasks(s);
    SleepersCountedCore(SliceUsed(s));
    Chosen(s, Tick, SleepersCounted(SliceUsed(s)));
  }

  lemma SleepMoves(s: Sys, ms: U32)
    requires Inv(s) && s.curr != IDLE
    ensures Moved(s, Msleep(ms), Slept(s, ms))
  {
    SleepLists(s, ms);
    SleepTasks(s, ms);
    SleptCore(s, ms);
    Chosen(s, Msleep(ms), PutToSleep(s, ms));
  }

  lemma AwaitMoves(s: Sys)
    requires Inv(s) && s.curr != IDLE
    ensures Moved(s, AwaitChild, Awaiting(s))
  {
    LeavePrepares(s);
    LeftCore(s, Waiting);
    Chosen(s, AwaitChild, LeftIn(s, Waiting));
  }

  lemma StartMoves(s: Sys, t: Task)
    requires Inv(s) && Enabled(s, Start(t))
    ensures Moved(s, Start(t), Started(s, t))
  {
    StartLists(s, t);
    StartTasks(s, t);
    Unchosen(s, Start(t), Started(s, t));
  }

  /** A step after which nobody is chosen: the head of the ready list is the same. */
  lemma Unchosen(s: Sys, step: Step, b: Sys)
    requires Inv(s) && Prepared(s, step, b) && NextRun(b.lists[Ready]) == s.curr
    ensures Moved(s, step, b)
  {
  }

  lemma YieldMoves(s: Sys)
    requires Inv(s) && s.curr != IDLE
    ensures Moved(s, Yield, Yielded(s))
  {
    if |s.lists[Ready]| > 1 {
      YieldPrepares(s);
      BlockedCore(s);
      NextRunKnown(s);
      MadeReadyCore(Blocked(s), s.curr);
      Chosen(s, Yield, MadeReady(Blocked(s), s.curr));
    }
  }

  lemma QueueingMoves(s: Sys, l: ListId, step: Step)
    requires Inv(s) && s.curr != IDLE && l in s.lists && (l.MutexWait? || l.SemWait?)
    requires l.MutexWait? ==> Contends(s, step, l.mutex) && s.mutexes[l.mutex].locked > 0
    requires l.SemWait? ==> Blocks(s, step, l.sem) && s.sems[l.sem] == 0
    ensures Moved(s, step, Queued(s, l))
  {
    QueueLists(s, l, step);
    QueuePrimitives(s, l, step);
    QueueTasks(s, l, step);
    BlockedCore(s);
    HungCore(Blocked(s), l, s.curr);
    Chosen(s, step, Hung(Blocked(s), l, s.curr));
  }

  lemma LockMoves(s: Sys, m: int)
    requires Inv(s) && s.curr != IDLE && m in s.mutexes
    ensures Moved(s, Lock(m), Locked(s, m))
  {
    MutexKnown(s, m);
    if Contends(s, Lock(m), m) {
      QueueingMoves(s, MutexWait(m), Lock(m));
    } else {
      LockPrepares(s, m);
      Unchosen(s, Lock(m), Locked(s, m));
    }
  }

  lemma UnlockMoves(s: Sys, m: int)
    requires Inv(s) && s.curr != IDLE && m in s.mutexes
    ensures Moved(s, Unlock(m), Unlocked(s, m))
  {
    if HandsOff(s, Unlock(m), m) {
      HandOffLists(s, m);
      HandOffPrimitives(s, m);
      HandOffTasks(s, m);
      HandedOverCore(s, m);
      Chosen(s, Unlock(m), HandedOver(s, m));
    } else {
      UnlockLists(s, m);
      UnlockTasks(s, m);
      Unchosen(s, Unlock(m), Unlocked(s, m));
    }
  }

  lemma WaitMoves(s: Sys, k: int)
    requires Inv(s) && s.curr != IDLE && k in s.sems
    ensures Moved(s, SemWaits(k), Waited(s, k))
  {
    SemKnown(s, k);
    if Blocks(s, SemWaits(k), k) {
      QueueingMoves(s, SemWait(k), SemWaits(k));
    }
  }

  lemma NotifyMoves(s: Sys, k: int)
    requires Inv(s) && k in s.sems
    ensures Moved(s, Notify(k), Notified(s, k))
  {
    if Grants(s, Notify(k), k) {
      GrantLists(s, k);
      GrantPrimitives(s, k);
      GrantTasks(s, k);
      WokeCore(s, k);
      Chosen(s, Notify(k), Woke(s, SemWait(k)));
    }
  }

  lemma ExitMoves(s: Sys, moved: bool)
    requires Inv(s) && Enabled(s, Exit(moved))
    ensures Moved(s, Exit(moved), Exited(s, moved))
  {
    var p := ParentsWoken(s, moved);
    ParentsWokenInv(s, moved);
    LeftCore(p, Zombie);
    ExitLists(s, p, moved);
    ExitTasks(s, p, moved);
    Chosen(s, Exit(moved), LeftIn(p, Zombie));
  }

  /** A step leads to exactly one state: the one in which all of this holds. */
  lemma NextIsMoved(s: Sys, step: Step, s': Sys)
    requires Inv(s) && Enabled(s, step)
    ensures Moved(s, step, s') <==> s' == Next(s, step)
  {
    StepMoves(s, step);
    if Moved(s, step, s') {
      MovedOnce(s, step, s', Next(s, step));
    }
  }

  lemma MovedOnce(s: Sys, step: Step, a: Sys, b: Sys)
    requires HasLists(s) && s.curr in s.tasks && Moved(s, step, a) && Moved(s, step, b)
    ensures a == b
  {
    forall t | t in s.tasks
      ensures a.tasks[t] == b.tasks[t]
    {
    }
    forall m | m in s.mutexes
      ensures a.mutexes[m] == b.mutexes[m]
    {
    }
    forall k | k in s.sems
      ensures a.sems[k] == b.sems[k]
    {
    }
    SameMap(a.lists, b.lists, s.lists.Keys);
    SameMap(a.tasks, b.tasks, s.tasks.Keys);
    SameMap(a.mutexes, b.mutexes, s.mutexes.Keys);
    SameMap(a.sems, b.sems, s.sems.Keys);
  }

  lemma SameMap<K, V>(a: map<K, V>, b: map<K, V>, keys: set<K>)
    requires a.Keys == keys && b.Keys == keys && forall k | k in keys :: a[k] == b[k]
    ensures a == b
  {
  }
}
