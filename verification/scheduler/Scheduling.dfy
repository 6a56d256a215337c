/** The scheduler and the blocking primitives as a state machine: every interrupt-protected region is one step. */
module Scheduling {
  import opened Lists
  import opened Seals
  import opened Sequences
  import opened Widths

  const IDLE: Task := 0
  const FIRST_TASK: Task := 1
  const NOBODY: Task := -1
  const TASK_TIME_SLICE_DEFAULT := 100
  const OS_TICK_MS := 10

  datatype TaskState = Created | Running | Sleeping | ReadyToRun | Waiting | Zombie

  datatype Info = Info(state: TaskState, slice: int, sleep: int, parent: Task)

  datatype Mutex = Mutex(locked: int, owner: Task)

  datatype Sys = Sys(lists: map<ListId, seq<Task>>, tasks: map<Task, Info>, mutexes: map<int, Mutex>,
    sems: map<int, int>, curr: Task)

  // ----- what every reachable state keeps

  /** A task in one of these states hangs in no list. */
  predicate Parked(st: TaskState) { st.Created? || st.Waiting? || st.Zombie? }

  predicate HasLists(s: Sys) {
    && Ready in s.lists && Sleep in s.lists
    && (forall m | m in s.mutexes :: MutexWait(m) in s.lists)
    && (forall k | k in s.sems :: SemWait(k) in s.lists)
  }

  /** No task occurs twice, in the same list or in two. */
  predicate OneListEach(lists: map<ListId, seq<Task>>) {
    && (forall l | l in lists :: Distinct(lists[l]))
    && (forall l, l' | l in lists && l' in lists && l != l' :: Disjoint(lists[l], lists[l']))
  }

  /** What is known of a task that hangs in a list: it is not idle and it may run again. */
  predicate MayHang(s: Sys, t: Task) {
    t in s.tasks && t != IDLE && !Parked(s.tasks[t].state)
  }

  predicate SlicesOk(s: Sys) {
    forall t | t in s.tasks && (t == IDLE || !s.tasks[t].state.Created?) ::
      1 <= s.tasks[t].slice <= TASK_TIME_SLICE_DEFAULT
  }

  predicate SleepersOk(s: Sys)
    requires Sleep in s.lists
  {
    forall t | t in s.lists[Sleep] :: t in s.tasks && s.tasks[t].sleep > 0
  }

  /** Waiters only while the lock is held; the owner is never queued. */
  predicate MutexOk(s: Sys, m: int)
    requires m in s.mutexes && MutexWait(m) in s.lists
  {
    var mx, waiters := s.mutexes[m], s.lists[MutexWait(m)];
    && mx.locked >= 0 && (mx.locked == 0 <==> mx.owner == NOBODY)
    && (mx.locked == 0 ==> waiters == []) && mx.owner !in waiters && mx.owner != IDLE
  }

  /** No waiters while the count is positive. */
  predicate SemOk(s: Sys, k: int)
    requires k in s.sems && SemWait(k) in s.lists
  {
    s.sems[k] >= 0 && (s.sems[k] > 0 ==> s.lists[SemWait(k)] == [])
  }

  predicate PrimitivesOk(s: Sys)
    requires HasLists(s)
  {
    (forall m | m in s.mutexes :: MutexOk(s, m)) && (forall k | k in s.sems :: SemOk(s, k))
  }

  predicate AllMayHang(s: Sys, r: seq<Task>) {
    forall t | t in r :: MayHang(s, t)
  }

  /** Every task in a list may hang there. */
  predicate HangersOk(s: Sys) {
    forall l | l in s.lists :: AllMayHang(s, s.lists[l])
  }

  ghost predicate Core(s: Sys) {
    && HasLists(s) && IDLE in s.tasks && s.curr in s.tasks && NOBODY !in s.tasks
    && forall k: Seal {:trigger Unsealed(k)} | Unsealed(k) ::
         OneListEach(s.lists) && HangersOk(s) && SlicesOk(s) && SleepersOk(s) && PrimitivesOk(s)
  }

  lemma MutexKnown(s: Sys, m: int)
    requires Core(s) && m in s.mutexes
    ensures MutexOk(s, m)
  {
    assert Unsealed(Seal);
  }

  lemma SemKnown(s: Sys, k: int)
    requires Core(s) && k in s.sems
    ensures SemOk(s, k)
  {
    assert Unsealed(Seal);
  }

  /** The head of the ready list, or the idle task. */
  function NextRun(ready: seq<Task>): Task {
    if ready == [] then IDLE else ready[0]
  }

  /** Every state between two protected regions. */
  ghost predicate Inv(s: Sys) {
    Core(s) && s.curr == NextRun(s.lists[Ready])
  }

  predicate Nowhere(s: Sys, t: Task) {
    forall l | l in s.lists :: t !in s.lists[l]
  }

  // ----- the parts of a step

  function Hung(s: Sys, l: ListId, t: Task): Sys
    requires l in s.lists
  {
    s.(lists := s.lists[l := s.lists[l] + [t]])
  }

  /** The running task leaves the ready list, whose head it is. */
  function Blocked(s: Sys): Sys
    requires Ready in s.lists
  {
    if s.curr == IDLE || s.lists[Ready] == [] then s else s.(lists := s.lists[Ready := s.lists[Ready][1..]])
  }

  function InState(s: Sys, t: Task, st: TaskState): Sys
    requires t in s.tasks
  {
    s.(tasks := s.tasks[t := s.tasks[t].(state := st)])
  }

  function MadeReady(s: Sys, t: Task): Sys
    requires Ready in s.lists && t in s.tasks
  {
    if t == IDLE then s else InState(Hung(s, Ready, t), t, ReadyToRun)
  }

  function Dispatched(s: Sys): Sys
    requires Ready in s.lists && NextRun(s.lists[Ready]) in s.tasks
  {
    var to := NextRun(s.lists[Ready]);
    if to == s.curr then s else InState(s, to, Running).(curr := to)
  }

  /** Only the waiting lists matter to mutexes and semaphores. */
  lemma PrimitivesKept(s: Sys, s': Sys)
    requires HasLists(s) && HasLists(s') && PrimitivesOk(s) && s'.mutexes == s.mutexes && s'.sems == s.sems
    requires forall l | l in s.lists && (l.MutexWait? || l.SemWait?) :: l in s'.lists && s'.lists[l] == s.lists[l]
    ensures PrimitivesOk(s')
  {
    forall m | m in s'.mutexes
      ensures MutexOk(s', m)
    {
      assert MutexOk(s, m);
    }
    forall k | k in s'.sems
      ensures SemOk(s', k)
    {
      assert SemOk(s, k);
    }
  }

  lemma TailOnce(lists: map<ListId, seq<Task>>, l: ListId)
    requires OneListEach(lists) && l in lists && lists[l] != []
    ensures OneListEach(lists[l := lists[l][1..]])
    ensures lists[l][0] !in lists[l][1..] && forall l' | l' in lists && l' != l :: lists[l][0] !in lists[l']
    ensures forall t | t in lists[l][1..] :: t in lists[l]
  {
    var r := lists[l];
    var h := r[0];
    assert h in r;
    assert forall i | 0 <= i < |r| - 1 :: r[1..][i] == r[i + 1];
    forall l' | l' in lists && l' != l
      ensures Disjoint(lists[l'], r[1..]) && Disjoint(r[1..], lists[l']) && h !in lists[l']
    {
      assert Disjoint(r, lists[l']);
    }
  }

  lemma AppendedOnce(lists: map<ListId, seq<Task>>, l: ListId, t: Task)
    requires OneListEach(lists) && l in lists && forall l' | l' in lists :: t !in lists[l']
    ensures OneListEach(lists[l := lists[l] + [t]])
  {
    forall l' | l' in lists && l' != l
      ensures Disjoint(lists[l'], lists[l] + [t]) && Disjoint(lists[l] + [t], lists[l'])
    {
      assert Disjoint(lists[l], lists[l']) && Disjoint(lists[l'], lists[l]);
    }
  }

  lemma BlockedCore(s: Sys)
    requires Inv(s) && s.curr != IDLE
    ensures Core(Blocked(s)) && Nowhere(Blocked(s), s.curr) && MayHang(s, s.curr)
    ensures s.lists[Ready] == [s.curr] + Blocked(s).lists[Ready]
  {
    assert Unsealed(Seal);
    TailOnce(s.lists, Ready);
    assert s.curr in s.lists[Ready];
    PrimitivesKept(s, Blocked(s));
  }

  lemma HungCore(s: Sys, l: ListId, t: Task)
    requires Core(s) && l in s.lists && Nowhere(s, t) && MayHang(s, t)
    requires l.Sleep? ==> s.tasks[t].sleep > 0
    requires l.MutexWait? && l.mutex in s.mutexes ==> s.mutexes[l.mutex].locked > 0 && s.mutexes[l.mutex].owner != t
    requires l.SemWait? && l.sem in s.sems ==> s.sems[l.sem] == 0
    ensures Core(Hung(s, l, t))
  {
    assert Unsealed(Seal);
    var s' := Hung(s, l, t);
    AppendedOnce(s.lists, l, t);
    forall m | m in s'.mutexes
      ensures MutexOk(s', m)
    {
      assert MutexOk(s, m);
    }
    forall k | k in s'.sems
      ensures SemOk(s', k)
    {
      assert SemOk(s, k);
    }
  }

  lemma InStateCore(s: Sys, t: Task, st: TaskState)
    requires Core(s) && t in s.tasks && (!Parked(st) || Nowhere(s, t))
    requires !st.Created? ==> 1 <= s.tasks[t].slice <= TASK_TIME_SLICE_DEFAULT
    ensures Core(InState(s, t, st))
  {
    assert Unsealed(Seal);
    var s' := InState(s, t, st);
    forall l | l in s'.lists
      ensures AllMayHang(s', s'.lists[l])
    {
      assert AllMayHang(s, s.lists[l]);
    }
    PrimitivesKept(s, s');
  }

  lemma MadeReadyCore(s: Sys, t: Task)
    requires Core(s) && Nowhere(s, t) && t in s.tasks && 1 <= s.tasks[t].slice <= TASK_TIME_SLICE_DEFAULT
    ensures Core(MadeReady(s, t))
  {
    if t != IDLE {
      InStateCore(s, t, ReadyToRun);
      HungCore(InState(s, t, ReadyToRun), Ready, t);
      assert Hung(InState(s, t, ReadyToRun), Ready, t) == MadeReady(s, t);
    }
  }

  lemma NextRunKnown(s: Sys)
    requires Core(s)
    ensures var to := NextRun(s.lists[Ready]); to in s.tasks && 1 <= s.tasks[to].slice <= TASK_TIME_SLICE_DEFAULT
  {
    assert Unsealed(Seal);
    var r := s.lists[Ready];
    if r != [] {
      assert r[0] in r;
      assert MayHang(s, r[0]);
    }
  }

  lemma DispatchedInv(s: Sys)
    requires Core(s)
    ensures NextRun(s.lists[Ready]) in s.tasks && Inv(Dispatched(s))
  {
    NextRunKnown(s);
    InStateCore(s, NextRun(s.lists[Ready]), Running);
  }

  // ----- the clock

  /** The ticks of a sleep: (ms + 9) / 10 in 32-bit arithmetic, of at least one tick's milliseconds. */
  function TicksOf(ms: U32): int {
    var m := if ms < OS_TICK_MS then OS_TICK_MS else ms;
    ((m + (OS_TICK_MS - 1)) % 0x1_0000_0000) / OS_TICK_MS
  }

  function Still(sleeping: seq<Task>, tasks: map<Task, Info>): seq<Task> {
    if sleeping == [] then []
    else
      var rest := Still(sleeping[..|sleeping| - 1], tasks);
      var t := sleeping[|sleeping| - 1];
      if t in tasks && tasks[t].sleep == 1 then rest else rest + [t]
  }

  function Woken(sleeping: seq<Task>, tasks: map<Task, Info>): seq<Task> {
    if sleeping == [] then []
    else
      var rest := Woken(sleeping[..|sleeping| - 1], tasks);
      var t := sleeping[|sleeping| - 1];
      if t in tasks && tasks[t].sleep == 1 then rest + [t] else rest
  }

  /** One tick later, sleepers count one less; those that reach zero are ready. */
  function Counted(tasks: map<Task, Info>, sleeping: seq<Task>): map<Task, Info> {
    map t | t in tasks ::
      if t in sleeping then
        if tasks[t].sleep == 1 then tasks[t].(sleep := 0, state := ReadyToRun)
          else tasks[t].(sleep := tasks[t].sleep - 1)
      else tasks[t]
  }

  function SleepersCounted(s: Sys): Sys
    requires Ready in s.lists && Sleep in s.lists
  {
    var z := s.lists[Sleep];
    s.(lists := s.lists[Sleep := Still(z, s.tasks)][Ready := s.lists[Ready] + Woken(z, s.tasks)],
      tasks := Counted(s.tasks, z))
  }

  function SliceUsed(s: Sys): Sys
    requires Ready in s.lists && s.curr in s.tasks
  {
    var left := s.tasks[s.curr].slice - 1;
    var s1 := s.(tasks := s.tasks[s.curr :=
      s.tasks[s.curr].(slice := if left == 0 then TASK_TIME_SLICE_DEFAULT else left)]);
    if left == 0 then MadeReady(Blocked(s1), s.curr) else s1
  }

  lemma {:induction false} StillOrWoken(z: seq<Task>, tasks: map<Task, Info>, t: Task)
    requires Distinct(z)
    ensures t in Still(z, tasks) <==> t in z && !(t in tasks && tasks[t].sleep == 1)
    ensures t in Woken(z, tasks) <==> t in z && t in tasks && tasks[t].sleep == 1
    ensures Distinct(Still(z, tasks)) && Distinct(Woken(z, tasks))
  {
    if z != [] {
      var y, u := z[..|z| - 1], z[|z| - 1];
      assert z == y + [u];
      StillOrWoken(y, tasks, t);
      StillOrWoken(y, tasks, u);
    }
  }

  lemma SleepersSplit(s: Sys)
    requires Core(s)
    ensures OneListEach(SleepersCounted(s).lists)
    ensures var z := s.lists[Sleep]; forall t ::
      && (t in Still(z, s.tasks) <==> t in z && t in s.tasks && s.tasks[t].sleep != 1)
      && (t in Woken(z, s.tasks) <==> t in z && t in s.tasks && s.tasks[t].sleep == 1)
  {
    assert Unsealed(Seal);
    var z, r := s.lists[Sleep], s.lists[Ready];
    forall t
      ensures t in Still(z, s.tasks) <==> t in z && s.tasks[t].sleep != 1
      ensures t in Woken(z, s.tasks) <==> t in z && s.tasks[t].sleep == 1
    {
      StillOrWoken(z, s.tasks, t);
    }
    StillOrWoken(z, s.tasks, IDLE);
    assert Disjoint(r, z) && Disjoint(z, r);
    DistinctJoined(r, Woken(z, s.tasks));
    OthersApart(s);
  }

  /** The lists that the sleepers do not come to stay apart from those that they do. */
  lemma OthersApart(s: Sys)
    requires Core(s)
    requires var z := s.lists[Sleep]; forall t ::
      (t in Still(z, s.tasks) ==> t in z) && (t in Woken(z, s.tasks) ==> t in z)
    ensures var lists' := SleepersCounted(s).lists;
      forall l | l in lists' && l != Ready && l != Sleep ::
        && Disjoint(lists'[l], lists'[Ready]) && Disjoint(lists'[Ready], lists'[l])
        && Disjoint(lists'[l], lists'[Sleep]) && Disjoint(lists'[Sleep], lists'[l])
  {
    assert Unsealed(Seal);
    var z, r, lists' := s.lists[Sleep], s.lists[Ready], SleepersCounted(s).lists;
    forall l | l in lists' && l != Ready && l != Sleep
      ensures Disjoint(lists'[l], lists'[Ready]) && Disjoint(lists'[Ready], lists'[l])
      ensures Disjoint(lists'[l], lists'[Sleep]) && Disjoint(lists'[Sleep], lists'[l])
    {
      assert Disjoint(s.lists[l], r) && Disjoint(s.lists[l], z);
    }
  }

  lemma SleepersCountedCore(s: Sys)
    requires Core(s)
    ensures Core(SleepersCounted(s))
  {
    assert Unsealed(Seal);
    var s', z := SleepersCounted(s), s.lists[Sleep];
    SleepersSplit(s);
    assert AllMayHang(s, s.lists[Ready]) && AllMayHang(s, z);
    forall l | l in s'.lists
      ensures AllMayHang(s', s'.lists[l])
    {
      assert AllMayHang(s, s.lists[l]);
    }
    assert SleepersOk(s);
    PrimitivesKept(s, s');
  }

  // ----- the steps

  datatype Step =
    | Tick
    | Yield
    | Msleep(ms: U32)
    | Lock(m: int)
    | Unlock(m: int)
    | SemWaits(k: int)
    | Notify(k: int)
    | AwaitChild
    | Adopt(t: Task)
    | Exit(moved: bool)
    | Reap(t: Task)
    | Start(t: Task)

  /** Which steps the kernel and its tasks can take. The idle task only halts; ticks and notifications also
      come from interrupts. A task that exits has a parent. */
  predicate Enabled(s: Sys, step: Step) {
    match step
    case Tick => true
    case Notify(k) => k in s.sems
    case Yield => s.curr != IDLE
    case Msleep(_) => s.curr != IDLE
    case Lock(m) => s.curr != IDLE && m in s.mutexes
    case Unlock(m) => s.curr != IDLE && m in s.mutexes
    case SemWaits(k) => s.curr != IDLE && k in s.sems
    case AwaitChild => s.curr != IDLE
    case Adopt(t) => s.curr != IDLE && IsChild(s, t) && FIRST_TASK in s.tasks
    case Exit(_) => s.curr != IDLE && s.curr in s.tasks && s.tasks[s.curr].parent in s.tasks && FIRST_TASK in s.tasks
    case Reap(t) => s.curr != IDLE && t in s.tasks && t != IDLE && s.tasks[t].parent == s.curr
      && s.tasks[t].state == Zombie
    case Start(t) => s.curr != IDLE && t in s.tasks && t != IDLE && s.tasks[t].state == Created
  }

  /** Whether a task of the table is a child of the running task. */
  predicate IsChild(s: Sys, t: Task) {
    t in s.tasks && t != IDLE && t != FIRST_TASK && s.tasks[t].parent == s.curr
  }

  /** task_time_tick */
  ghost function Ticked(s: Sys): Sys
    requires Inv(s)
  {
    SliceUsedCore(s);
    SleepersCountedCore(SliceUsed(s));
    NextRunKnown(SleepersCounted(SliceUsed(s)));
    Dispatched(SleepersCounted(SliceUsed(s)))
  }

  lemma SliceUsedCore(s: Sys)
    requires Inv(s)
    ensures Core(SliceUsed(s))
  {
    assert Unsealed(Seal);
    var left := s.tasks[s.curr].slice - 1;
    NextRunKnown(s);
    var s1 := s.(tasks := s.tasks[s.curr :=
      s.tasks[s.curr].(slice := if left == 0 then TASK_TIME_SLICE_DEFAULT else left)]);
    forall l | l in s1.lists
      ensures AllMayHang(s1, s1.lists[l])
    {
      assert AllMayHang(s, s.lists[l]);
    }
    PrimitivesKept(s, s1);
    if left == 0 && s.curr != IDLE {
      BlockedCore(s1);
      MadeReadyCore(Blocked(s1), s.curr);
    }
  }

  /** sys_yield */
  ghost function Yielded(s: Sys): Sys
    requires Inv(s) && s.curr != IDLE
  {
    if |s.lists[Ready]| > 1 then
      BlockedCore(s);
      NextRunKnown(s);
      MadeReadyCore(Blocked(s), s.curr);
      NextRunKnown(MadeReady(Blocked(s), s.curr));
      Dispatched(MadeReady(Blocked(s), s.curr))
    else s
  }

  /** sys_msleep; a tick count of zero puts the task in no list at all. */
  ghost function Slept(s: Sys, ms: U32): Sys
    requires Inv(s) && s.curr != IDLE
  {
    SleptCore(s, ms);
    NextRunKnown(PutToSleep(s, ms));
    Dispatched(PutToSleep(s, ms))
  }

  function PutToSleep(s: Sys, ms: U32): Sys
    requires Ready in s.lists && Sleep in s.lists && s.curr in s.tasks
  {
    var b, n := Blocked(s), TicksOf(ms);
    if n == 0 then b
    else Hung(b.(tasks := b.tasks[s.curr := b.tasks[s.curr].(sleep := n, state := Sleeping)]), Sleep, s.curr)
  }

  lemma SleptCore(s: Sys, ms: U32)
    requires Inv(s) && s.curr != IDLE
    ensures Core(PutToSleep(s, ms))
  {
    assert Unsealed(Seal);
    BlockedCore(s);
    NextRunKnown(s);
    var b, n := Blocked(s), TicksOf(ms);
    if n != 0 {
      InStateCore(b, s.curr, Sleeping);
      var b1 := InState(b, s.curr, Sleeping);
      var b2 := b.(tasks := b.tasks[s.curr := b.tasks[s.curr].(sleep := n, state := Sleeping)]);
      assert s.curr !in b.lists[Sleep];
      forall l | l in b2.lists
        ensures AllMayHang(b2, b2.lists[l])
      {
        assert AllMayHang(b1, b1.lists[l]);
      }
      PrimitivesKept(b1, b2);
      HungCore(b2, Sleep, s.curr);
    }
  }

  /** The running task goes to the end of a waiting list. */
  ghost function Queued(s: Sys, l: ListId): Sys
    requires Inv(s) && s.curr != IDLE && l in s.lists && (l.MutexWait? || l.SemWait?)
    requires l.MutexWait? ==>
      l.mutex in s.mutexes && s.mutexes[l.mutex].locked > 0 && s.mutexes[l.mutex].owner != s.curr
    requires l.SemWait? ==> l.sem in s.sems && s.sems[l.sem] == 0
  {
    BlockedCore(s);
    HungCore(Blocked(s), l, s.curr);
    NextRunKnown(Hung(Blocked(s), l, s.curr));
    Dispatched(Hung(Blocked(s), l, s.curr))
  }

  /** mutex_lock: a recursive lock is counted. */
  ghost function Locked(s: Sys, m: int): Sys
    requires Inv(s) && s.curr != IDLE && m in s.mutexes
  {
    var mx := s.mutexes[m];
    if mx.locked == 0 then s.(mutexes := s.mutexes[m := Mutex(1, s.curr)])
    else if mx.owner == s.curr then s.(mutexes := s.mutexes[m := mx.(locked := mx.locked + 1)])
    else
      MutexKnown(s, m);
      Queued(s, MutexWait(m))
  }

  /** The first waiter leaves its list and is made ready. */
  function Woke(s: Sys, l: ListId): Sys
    requires Ready in s.lists && l in s.lists && l != Ready && s.lists[l] != [] && s.lists[l][0] in s.tasks
  {
    MadeReady(s.(lists := s.lists[l := s.lists[l][1..]]), s.lists[l][0])
  }

  /** mutex_unlock: by the owner only; when the count reaches zero the first waiter owns the lock at once. */
  ghost function Unlocked(s: Sys, m: int): Sys
    requires Inv(s) && s.curr != IDLE && m in s.mutexes
  {
    var mx, w := s.mutexes[m], s.lists[MutexWait(m)];
    if mx.owner != s.curr then s
    else if mx.locked - 1 != 0 then s.(mutexes := s.mutexes[m := mx.(locked := mx.locked - 1)])
    else if w == [] then s.(mutexes := s.mutexes[m := Mutex(0, NOBODY)])
    else
      HandedOverCore(s, m);
      NextRunKnown(HandedOver(s, m));
      Dispatched(HandedOver(s, m))
  }

  function HandedOver(s: Sys, m: int): Sys
    requires Ready in s.lists && MutexWait(m) in s.lists && s.lists[MutexWait(m)] != []
    requires s.lists[MutexWait(m)][0] in s.tasks
  {
    Woke(s, MutexWait(m)).(mutexes := s.mutexes[m := Mutex(1, s.lists[MutexWait(m)][0])])
  }

  lemma FirstWaiter(s: Sys, l: ListId)
    requires Core(s) && l in s.lists && s.lists[l] != []
    ensures var t := s.lists[l][0]; MayHang(s, t) && t != NOBODY && 1 <= s.tasks[t].slice <= TASK_TIME_SLICE_DEFAULT
    ensures Nowhere(s.(lists := s.lists[l := s.lists[l][1..]]), s.lists[l][0])
    ensures OneListEach(s.lists[l := s.lists[l][1..]])
  {
    assert Unsealed(Seal);
    var t := s.lists[l][0];
    assert t in s.lists[l];
    assert AllMayHang(s, s.lists[l]);
    TailOnce(s.lists, l);
  }

  lemma HandedOverCore(s: Sys, m: int)
    requires Inv(s) && m in s.mutexes && s.lists[MutexWait(m)] != []
    ensures s.lists[MutexWait(m)][0] in s.tasks && Core(HandedOver(s, m))
  {
    assert Unsealed(Seal);
    var l := MutexWait(m);
    var t := s.lists[l][0];
    FirstWaiter(s, l);
    TailOnce(s.lists, l);
    var s1 := s.(lists := s.lists[l := s.lists[l][1..]], mutexes := s.mutexes[m := Mutex(1, t)]);
    forall l' | l' in s1.lists
      ensures AllMayHang(s1, s1.lists[l'])
    {
      assert AllMayHang(s, s.lists[l']);
    }
    forall m' | m' in s1.mutexes
      ensures MutexOk(s1, m')
    {
      assert MutexOk(s, m');
    }
    forall k | k in s1.sems
      ensures SemOk(s1, k)
    {
      assert SemOk(s, k);
    }
    MadeReadyCore(s1, t);
    assert MadeReady(s1, t) == HandedOver(s, m);
  }

  /** sem_wait */
  ghost function Waited(s: Sys, k: int): Sys
    requires Inv(s) && s.curr != IDLE && k in s.sems
  {
    if s.sems[k] > 0 then s.(sems := s.sems[k := s.sems[k] - 1])
    else
      SemKnown(s, k);
      Queued(s, SemWait(k))
  }

  /** sem_notify: a waiter gets the permit directly. */
  ghost function Notified(s: Sys, k: int): Sys
    requires Inv(s) && k in s.sems
  {
    if s.lists[SemWait(k)] == [] then s.(sems := s.sems[k := s.sems[k] + 1])
    else
      WokeCore(s, k);
      NextRunKnown(Woke(s, SemWait(k)));
      Dispatched(Woke(s, SemWait(k)))
  }

  lemma WokeCore(s: Sys, k: int)
    requires Inv(s) && k in s.sems && s.lists[SemWait(k)] != []
    ensures s.lists[SemWait(k)][0] in s.tasks && Core(Woke(s, SemWait(k)))
  {
    assert Unsealed(Seal);
    var l := SemWait(k);
    FirstWaiter(s, l);
    TailOnce(s.lists, l);
    var s1 := s.(lists := s.lists[l := s.lists[l][1..]]);
    forall l' | l' in s1.lists
      ensures AllMayHang(s1, s1.lists[l'])
    {
      assert AllMayHang(s, s.lists[l']);
    }
    forall m' | m' in s1.mutexes
      ensures MutexOk(s1, m')
    {
      assert MutexOk(s, m');
    }
    forall k' | k' in s1.sems
      ensures SemOk(s1, k')
    {
      assert SemOk(s, k');
    }
    MadeReadyCore(s1, s.lists[l][0]);
  }

  /** The running task left the ready list and is in a state in which it hangs nowhere. */
  function LeftIn(s: Sys, st: TaskState): Sys
    requires Ready in s.lists && s.curr in s.tasks
  {
    InState(Blocked(s), s.curr, st)
  }

  lemma LeftCore(s: Sys, st: TaskState)
    requires Inv(s) && s.curr != IDLE && !st.Created?
    ensures Core(LeftIn(s, st)) && NextRun(LeftIn(s, st).lists[Ready]) in LeftIn(s, st).tasks
  {
    BlockedCore(s);
    NextRunKnown(s);
    InStateCore(Blocked(s), s.curr, st);
    NextRunKnown(LeftIn(s, st));
  }

  /** The second half of sys_wait: no child has exited yet. */
  ghost function Awaiting(s: Sys): Sys
    requires Inv(s) && s.curr != IDLE
  {
    LeftCore(s, Waiting);
    Dispatched(LeftIn(s, Waiting))
  }

  /** One slot in the scan of sys_exit: a child goes to the first task. */
  function Adopted(s: Sys, t: Task): Sys
    requires t in s.tasks
  {
    s.(tasks := s.tasks[t := s.tasks[t].(parent := FIRST_TASK)])
  }

  function WokenIfWaiting(s: Sys, t: Task): Sys
    requires Ready in s.lists && t in s.tasks
  {
    if s.tasks[t].state == Waiting then MadeReady(s, t) else s
  }

  /** The parents that an exit wakes. */
  function ParentsWoken(s: Sys, moved: bool): Sys
    requires Ready in s.lists && s.curr in s.tasks && s.tasks[s.curr].parent in s.tasks && FIRST_TASK in s.tasks
  {
    var parent := s.tasks[s.curr].parent;
    var s1 := if moved && parent != FIRST_TASK then WokenIfWaiting(s, FIRST_TASK) else s;
    WokenIfWaiting(s1, parent)
  }

  /** The last region of sys_exit. */
  ghost function Exited(s: Sys, moved: bool): Sys
    requires Inv(s) && s.curr != IDLE && s.tasks[s.curr].parent in s.tasks && FIRST_TASK in s.tasks
  {
    ParentsWokenInv(s, moved);
    var p := ParentsWoken(s, moved);
    LeftCore(p, Zombie);
    Dispatched(LeftIn(p, Zombie))
  }

  lemma WokenInv(s: Sys, t: Task)
    requires Inv(s) && s.curr != IDLE && t in s.tasks
    ensures Inv(WokenIfWaiting(s, t)) && WokenIfWaiting(s, t).curr == s.curr
  {
    assert Unsealed(Seal);
    if s.tasks[t].state == Waiting {
      forall l | l in s.lists
        ensures t !in s.lists[l]
      {
        assert AllMayHang(s, s.lists[l]);
      }
      MadeReadyCore(s, t);
    }
  }

  lemma ParentsWokenInv(s: Sys, moved: bool)
    requires Inv(s) && s.curr != IDLE && s.tasks[s.curr].parent in s.tasks && FIRST_TASK in s.tasks
    ensures Inv(ParentsWoken(s, moved)) && ParentsWoken(s, moved).curr == s.curr
  {
    var parent := s.tasks[s.curr].parent;
    WokenInv(s, FIRST_TASK);
    WokenInv(s, parent);
    WokenInv(WokenIfWaiting(s, FIRST_TASK), parent);
  }

  /** The first half of sys_wait: a child that exited is cleared. */
  function Reaped(s: Sys, t: Task): Sys
    requires t in s.tasks
  {
    s.(tasks := s.tasks[t := Info(Created, 0, 0, NOBODY)])
  }

  /** task_init and task_start of a new child */
  function Started(s: Sys, t: Task): Sys
    requires Ready in s.lists && t in s.tasks
  {
    MadeReady(s.(tasks := s.tasks[t := Info(Created, TASK_TIME_SLICE_DEFAULT, 0, s.curr)]), t)
  }

  lemma ParkedNowhere(s: Sys, t: Task)
    requires Core(s) && t in s.tasks && Parked(s.tasks[t].state)
    ensures Nowhere(s, t)
  {
    assert Unsealed(Seal);
    forall l | l in s.lists
      ensures t !in s.lists[l]
    {
      assert AllMayHang(s, s.lists[l]);
    }
  }

  /** The rules do not speak of parents. */
  lemma AdoptedCore(s: Sys, t: Task)
    requires Core(s) && t in s.tasks
    ensures Core(Adopted(s, t))
  {
    assert Unsealed(Seal);
    var s' := Adopted(s, t);
    forall l | l in s'.lists
      ensures AllMayHang(s', s'.lists[l])
    {
      assert AllMayHang(s, s.lists[l]);
    }
    PrimitivesKept(s, s');
  }

  lemma InfoReplaced(s: Sys, t: Task, info: Info)
    requires Core(s) && t in s.tasks && Nowhere(s, t) && t != IDLE && info.state.Created?
    ensures Core(s.(tasks := s.tasks[t := info]))
  {
    assert Unsealed(Seal);
    var s' := s.(tasks := s.tasks[t := info]);
    forall l | l in s'.lists
      ensures AllMayHang(s', s'.lists[l])
    {
      assert AllMayHang(s, s.lists[l]);
    }
    PrimitivesKept(s, s');
  }

  ghost function Next(s: Sys, step: Step): Sys
    requires Inv(s) && Enabled(s, step)
  {
    match step
    case Tick => Ticked(s)
    case Yield => Yielded(s)
    case Msleep(ms) => Slept(s, ms)
    case Lock(m) => Locked(s, m)
    case Unlock(m) => Unlocked(s, m)
    case SemWaits(k) => Waited(s, k)
    case Notify(k) => Notified(s, k)
    case AwaitChild => Awaiting(s)
    case Adopt(t) => Adopted(s, t)
    case Exit(moved) => Exited(s, moved)
    case Reap(t) => Reaped(s, t)
    case Start(t) => Started(s, t)
  }

  /** Every step leaves the lists in order and the head of the ready list (or the idle task) running. */
  lemma StepKeepsInv(s: Sys, step: Step)
    requires Inv(s) && Enabled(s, step)
    ensures Inv(Next(s, step))
  {
    match step
    case Tick =>
      SliceUsedCore(s);
      SleepersCountedCore(SliceUsed(s));
      DispatchedInv(SleepersCounted(SliceUsed(s)));
    case Yield =>
      if |s.lists[Ready]| > 1 {
        BlockedCore(s);
        NextRunKnown(s);
        MadeReadyCore(Blocked(s), s.curr);
        DispatchedInv(MadeReady(Blocked(s), s.curr));
      }
    case Msleep(ms) =>
      SleptCore(s, ms);
      DispatchedInv(PutToSleep(s, ms));
    case Lock(m) => LockKeepsInv(s, m);
    case Unlock(m) => UnlockKeepsInv(s, m);
    case SemWaits(k) => SemStepsKeepInv(s, k);
    case Notify(k) => SemStepsKeepInv(s, k);
    case AwaitChild =>
      LeftCore(s, Waiting);
      DispatchedInv(LeftIn(s, Waiting));
    case Adopt(t) => AdoptedCore(s, t);
    case Exit(moved) =>
      ParentsWokenInv(s, moved);
      LeftCore(ParentsWoken(s, moved), Zombie);
      DispatchedInv(LeftIn(ParentsWoken(s, moved), Zombie));
    case Reap(t) =>
      ParkedNowhere(s, t);
      InfoReplaced(s, t, Info(Created, 0, 0, NOBODY));
    case Start(t) =>
      ParkedNowhere(s, t);
      var info := Info(Created, TASK_TIME_SLICE_DEFAULT, 0, s.curr);
      InfoReplaced(s, t, info);
      MadeReadyCore(s.(tasks := s.tasks[t := info]), t);
  }

  lemma QueuedKeepsInv(s: Sys, l: ListId)
    requires Inv(s) && s.curr != IDLE && l in s.lists && (l.MutexWait? || l.SemWait?)
    requires l.MutexWait? ==>
      l.mutex in s.mutexes && s.mutexes[l.mutex].locked > 0 && s.mutexes[l.mutex].owner != s.curr
    requires l.SemWait? ==> l.sem in s.sems && s.sems[l.sem] == 0
    ensures Inv(Queued(s, l))
  {
    BlockedCore(s);
    HungCore(Blocked(s), l, s.curr);
    DispatchedInv(Hung(Blocked(s), l, s.curr));
  }

  /** A mutex or a semaphore changed while nobody waits for it, or stays held by its owner. */
  lemma FieldsChanged(s: Sys, s': Sys)
    requires Inv(s) && s' == s.(mutexes := s'.mutexes, sems := s'.sems)
    requires s'.mutexes.Keys == s.mutexes.Keys && s'.sems.Keys == s.sems.Keys
    requires forall m | m in s.mutexes :: s'.mutexes[m] == s.mutexes[m] || MutexOk(s', m)
    requires forall k | k in s.sems :: s'.sems[k] == s.sems[k] || SemOk(s', k)
    ensures Inv(s')
  {
    assert Unsealed(Seal);
    forall m | m in s'.mutexes
      ensures MutexOk(s', m)
    {
      assert MutexOk(s, m);
    }
    forall k | k in s'.sems
      ensures SemOk(s', k)
    {
      assert SemOk(s, k);
    }
    forall l | l in s'.lists
      ensures AllMayHang(s', s'.lists[l])
    {
      assert AllMayHang(s, s.lists[l]);
    }
  }

  lemma RunningWaitsNowhere(s: Sys)
    requires Inv(s) && s.curr != IDLE
    ensures s.curr != NOBODY && forall l | l in s.lists && l != Ready :: s.curr !in s.lists[l]
  {
    assert Unsealed(Seal);
    TailOnce(s.lists, Ready);
  }

  lemma LockKeepsInv(s: Sys, m: int)
    requires Inv(s) && s.curr != IDLE && m in s.mutexes
    ensures Inv(Locked(s, m))
  {
    MutexKnown(s, m);
    RunningWaitsNowhere(s);
    if s.mutexes[m].locked == 0 || s.mutexes[m].owner == s.curr {
      FieldsChanged(s, Locked(s, m));
    } else {
      QueuedKeepsInv(s, MutexWait(m));
    }
  }

  lemma UnlockKeepsInv(s: Sys, m: int)
    requires Inv(s) && s.curr != IDLE && m in s.mutexes
    ensures Inv(Unlocked(s, m))
  {
    MutexKnown(s, m);
    if s.mutexes[m].owner == s.curr && s.mutexes[m].locked == 1 && s.lists[MutexWait(m)] != [] {
      HandedOverCore(s, m);
      DispatchedInv(HandedOver(s, m));
    } else {
      FieldsChanged(s, Unlocked(s, m));
    }
  }

  lemma SemStepsKeepInv(s: Sys, k: int)
    requires Inv(s) && k in s.sems
    ensures s.curr != IDLE ==> Inv(Waited(s, k))
    ensures Inv(Notified(s, k))
  {
    SemKnown(s, k);
    if s.curr != IDLE {
      if s.sems[k] > 0 {
        FieldsChanged(s, Waited(s, k));
      } else {
        QueuedKeepsInv(s, SemWait(k));
      }
    }
    if s.lists[SemWait(k)] == [] {
      FieldsChanged(s, Notified(s, k));
    } else {
      WokeCore(s, k);
      DispatchedInv(Woke(s, SemWait(k)));
    }
  }
}
