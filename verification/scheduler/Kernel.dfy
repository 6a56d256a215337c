/** The kernel's task functions over its linked lists: each protected region is the step of the state machine. */
module Kernels {
  import opened Lists
  import opened Seals
  import opened Sequences
  import opened Widths
  import opened Scheduling
  import opened StepEffects
  import opened SchedulerRuns

  class Kernel {
    const lists: ListStore
    var tasks: map<Task, Info>
    var mutexes: map<int, Mutex>
    var sems: map<int, int>
    var curr: Task

    /** The state as the state machine sees it. */
    ghost function Abs(): Sys
      reads this, lists
    {
      Sys(lists.contents, tasks, mutexes, sems, curr)
    }

    ghost predicate Valid()
      reads this, lists
    {
      lists.Valid() && Inv(Abs())
    }

    /** task_manager_init and task_first_init, mutex_init and sem_init */
    constructor (table: set<Task>, mutexIds: set<int>, counts: map<int, int>)
      requires NOBODY !in table && forall k | k in counts :: counts[k] >= 0
      ensures Valid() && fresh(lists) && Abs() == Boot(table, mutexIds, counts)
    {
      lists := new ListStore(ListsFor(mutexIds, counts.Keys));
      tasks := map t | t in table + {IDLE, FIRST_TASK} ::
        Info(if t == FIRST_TASK then ReadyToRun else Created,
             if t in {IDLE, FIRST_TASK} then TASK_TIME_SLICE_DEFAULT else 0, 0, NOBODY);
      mutexes := map m | m in mutexIds :: Mutex(0, NOBODY);
      sems := counts;
      curr := FIRST_TASK;
      new;
      lists.InsertLast(Ready, FIRST_TASK);
      BootLists(table, mutexIds, counts);
      BootInv(table, mutexIds, counts);
    }

    /** task_set_ready */
    method SetReady(t: Task)
      requires lists.Valid() && Ready in lists.contents && t in tasks && (t != IDLE ==> Free(lists.contents, Ready, t))
      modifies this`tasks, lists
      ensures lists.Valid() && Abs() == MadeReady(old(Abs()), t)
    {
      if t != IDLE {
        lists.InsertLast(Ready, t);
        tasks := tasks[t := tasks[t].(state := ReadyToRun)];
      }
    }

    /** task_set_block of the running task */
    method SetBlock()
      requires lists.Valid() && Ready in lists.contents && curr == NextRun(lists.contents[Ready])
      requires IDLE !in lists.contents[Ready]
      modifies lists
      ensures lists.Valid() && Abs() == Blocked(old(Abs()))
    {
      if curr != IDLE {
        ghost var r := lists.contents[Ready];
        lists.Remove(Ready, curr, 0);
        assert Without(r, 0) == r[1..];
      }
    }

    /** task_dispatch */
    method Dispatch()
      requires lists.Valid() && Ready in lists.contents && NextRun(lists.contents[Ready]) in tasks
      modifies this`tasks, this`curr
      ensures Abs() == Dispatched(old(Abs()))
    {
      var head := lists.heads[Ready];
      lists.ListKnown(Ready);
      var to := if head.count == 0 then IDLE else head.first.node.task;
      if to != curr {
        curr := to;
        tasks := tasks[to := tasks[to].(state := Running)];
      }
    }

    /** The step of a sleeping task whose turn it is in the scan of the sleep list. */
    method CountSleeper(t: Task, ghost at: int)
      requires lists.Valid() && Ready in lists.contents && Sleep in lists.contents && t in tasks && t != IDLE
      requires 0 <= at < |lists.contents[Sleep]| && lists.contents[Sleep][at] == t && t !in lists.contents[Ready]
      modifies this`tasks, lists
      ensures lists.Valid() && Abs() == OneCounted(old(Abs()), t, at)
    {
      tasks := tasks[t := tasks[t].(sleep := tasks[t].sleep - 1)];
      if tasks[t].sleep == 0 {
        ghost var c := lists.contents;
        lists.ListKnown(Sleep);
        lists.Remove(Sleep, t, at);
        WithoutDistinct(c[Sleep], at);
        RunNodesFree(c, lists.contents, t);
        SetReady(t);
      }
    }

    /** The scan of the sleep list in task_time_tick. */
    method CountSleepers(ghost s: Sys)
      requires lists.Valid() && Core(s) && Abs() == s
      modifies this`tasks, lists
      ensures lists.Valid() && Abs() == SleepersCounted(s)
    {
      ghost var z := s.lists[Sleep];
      var p := lists.heads[Sleep].first;
      lists.ListKnown(Sleep);
      ghost var i := 0;
      ScanStarts(s);
      while p != Null
        invariant 0 <= i <= |z| && p == PtrAt(Sleep, z, i) && Scanning(s, i)
        decreases |z| - i
      {
        ghost var i' := i + 1;
        p := CountNext(p, s, i, i');
        i := i';
      }
      ScanEnds(s);
      assert Unsealed(Seal);
    }

    /** The scan has counted the first `i` sleepers. */
    ghost predicate Scanning(s: Sys, i: int)
      requires Core(s) && 0 <= i <= |s.lists[Sleep]|
      reads this, lists
    {
      forall seal: Seal {:trigger Unsealed(seal)} | Unsealed(seal) :: lists.Valid() && Abs() == Scanned(s, i)
    }

    /** One round of the scan. */
    method CountNext(p: Ptr, ghost s: Sys, ghost i: int, ghost i': int) returns (next: Ptr)
      requires Core(s) && 0 <= i < |s.lists[Sleep]| && i' == i + 1 && p == PtrAt(Sleep, s.lists[Sleep], i)
      requires Scanning(s, i)
      modifies this`tasks, lists
      ensures Scanning(s, i') && next == PtrAt(Sleep, s.lists[Sleep], i')
    {
      assert Unsealed(Seal);
      ghost var at := |Still(s.lists[Sleep][..i], s.tasks)|;
      ScanAt(s, i);
      lists.ListKnown(Sleep);
      assert LinkedAt(lists.links, Sleep, lists.contents[Sleep], at);
      next := lists.links[p.node].next;
      var t := p.node.task;
      CountSleeper(t, at);
      ScanNext(s, i, i');
    }

    /** task_time_tick */
    method TimeTick()
      requires Valid()
      modifies this, lists
      ensures Valid() && Abs() == Next(old(Abs()), Tick)
    {
      ghost var s := Abs();
      StepKeepsInv(s, Tick);
      SliceUsedCore(s);
      UseSlice();
      CountSleepers(SliceUsed(s));
      SleepersCountedCore(SliceUsed(s));
      NextRunKnown(SleepersCounted(SliceUsed(s)));
      Dispatch();
    }

    method UseSlice()
      requires Valid()
      modifies this`tasks, lists
      ensures lists.Valid() && Abs() == SliceUsed(old(Abs()))
    {
      ghost var s := Abs();
      ReadyKnown(s);
      tasks := tasks[curr := tasks[curr].(slice := tasks[curr].slice - 1)];
      if tasks[curr].slice == 0 {
        WrittenTwice(s.tasks, curr, tasks[curr], tasks[curr].(slice := TASK_TIME_SLICE_DEFAULT));
        tasks := tasks[curr := tasks[curr].(slice := TASK_TIME_SLICE_DEFAULT)];
        SetBlock();
        if curr != IDLE {
          BlockedCore(s);
        }
        SetReady(curr);
      }
    }

    /** sys_yield */
    method Yield()
      requires Valid() && curr != IDLE
      modifies this, lists
      ensures Valid() && Abs() == Next(old(Abs()), Step.Yield)
    {
      ghost var s := Abs();
      StepKeepsInv(s, Step.Yield);
      ReadyKnown(s);
      lists.ListKnown(Ready);
      if lists.heads[Ready].count > 1 {
        BlockedCore(s);
        NextRunKnown(s);
        SetBlock();
        SetReady(curr);
        MadeReadyCore(Blocked(s), s.curr);
        NextRunKnown(MadeReady(Blocked(s), s.curr));
        Dispatch();
      }
    }

    /** task_set_sleep */
    method SetSleep(t: Task, ticks: int)
      requires lists.Valid() && Sleep in lists.contents && t in tasks && Free(lists.contents, Sleep, t) && ticks >= 0
      modifies this`tasks, lists
      ensures lists.Valid()
      ensures ticks == 0 ==> Abs() == old(Abs())
      ensures ticks > 0 ==>
        Abs() ==
          Hung(old(Abs()).(tasks := old(tasks)[t := old(tasks[t]).(sleep := ticks, state := Sleeping)]), Sleep, t)
    {
      if ticks <= 0 {
        return;
      }
      tasks := tasks[t := tasks[t].(sleep := ticks, state := Sleeping)];
      lists.InsertLast(Sleep, t);
    }

    /** The milliseconds in ticks, at least one tick's. */
    static method InTicks(ms: U32) returns (n: int)
      ensures n == TicksOf(ms) && n >= 0
    {
      var m := ms;
      if m < OS_TICK_MS {
        m := OS_TICK_MS;
      }
      n := ((m + (OS_TICK_MS - 1)) % 0x1_0000_0000) / OS_TICK_MS;
    }

    /** sys_msleep */
    method Msleep(ms: U32)
      requires Valid() && curr != IDLE
      modifies this, lists
      ensures Valid() && Abs() == Next(old(Abs()), Step.Msleep(ms))
    {
      ghost var s := Abs();
      StepKeepsInv(s, Step.Msleep(ms));
      ReadyKnown(s);
      BlockedCore(s);
      SetBlock();
      var n := InTicks(ms);
      SetSleep(curr, n);
      SleptCore(s, ms);
      NextRunKnown(PutToSleep(s, ms));
      Dispatch();
    }

    /** The running task waits in a list. */
    method QueueUp(l: ListId)
      requires Valid() && curr != IDLE && l in lists.contents && (l.MutexWait? || l.SemWait?)
      requires l.MutexWait? ==> l.mutex in mutexes && mutexes[l.mutex].locked > 0 && mutexes[l.mutex].owner != curr
      requires l.SemWait? ==> l.sem in sems && sems[l.sem] == 0
      modifies this, lists
      ensures lists.Valid() && Abs() == Queued(old(Abs()), l)
    {
      ghost var s := Abs();
      ReadyKnown(s);
      BlockedCore(s);
      SetBlock();
      lists.InsertLast(l, curr);
      HungCore(Blocked(s), l, s.curr);
      NextRunKnown(Hung(Blocked(s), l, s.curr));
      Dispatch();
    }

    /** mutex_lock */
    method MutexLock(m: int)
      requires Valid() && curr != IDLE && m in mutexes
      modifies this, lists
      ensures Valid() && Abs() == Next(old(Abs()), Lock(m))
    {
      StepKeepsInv(Abs(), Lock(m));
      MutexKnown(Abs(), m);
      if mutexes[m].locked == 0 {
        mutexes := mutexes[m := Mutex(1, curr)];
      } else if mutexes[m].owner == curr {
        mutexes := mutexes[m := mutexes[m].(locked := mutexes[m].locked + 1)];
      } else {
        QueueUp(MutexWait(m));
      }
    }

    /** mutex_unlock */
    method MutexUnlock(m: int)
      requires Valid() && curr != IDLE && m in mutexes
      modifies this, lists
      ensures Valid() && Abs() == Next(old(Abs()), Unlock(m))
    {
      ghost var s := Abs();
      StepKeepsInv(s, Unlock(m));
      MutexKnown(s, m);
      if mutexes[m].owner == curr {
        mutexes := mutexes[m := mutexes[m].(locked := mutexes[m].locked - 1)];
        if mutexes[m].locked == 0 {
          WrittenTwice(s.mutexes, m, mutexes[m], Mutex(0, NOBODY));
          mutexes := mutexes[m := mutexes[m].(owner := NOBODY)];
          lists.ListKnown(MutexWait(m));
          if lists.heads[MutexWait(m)].count != 0 {
            HandOver(s, m);
          }
        }
      }
    }

    /** The first waiter gets the lock that was just released. */
    method HandOver(ghost s: Sys, m: int)
      requires lists.Valid() && Inv(s) && m in s.mutexes && s.lists[MutexWait(m)] != []
      requires m in mutexes && Abs() == s.(mutexes := s.mutexes[m := Mutex(0, NOBODY)])
      modifies this, lists
      ensures lists.Valid() && s.lists[MutexWait(m)][0] in s.tasks && Core(HandedOver(s, m))
      ensures NextRun(HandedOver(s, m).lists[Ready]) in s.tasks && Abs() == Dispatched(HandedOver(s, m))
    {
      FirstWaiter(s, MutexWait(m));
      HandedOverCore(s, m);
      NextRunKnown(HandedOver(s, m));
      var p := lists.RemoveFirst(MutexWait(m));
      var t := p.node.task;
      SetReady(t);
      WrittenTwice(s.mutexes, m, Mutex(0, NOBODY), Mutex(1, t));
      mutexes := mutexes[m := Mutex(1, t)];
      assert Abs() == HandedOver(s, m);
      Dispatch();
    }

    /** sem_wait */
    method SemWait(k: int)
      requires Valid() && curr != IDLE && k in sems
      modifies this, lists
      ensures Valid() && Abs() == Next(old(Abs()), SemWaits(k))
    {
      StepKeepsInv(Abs(), SemWaits(k));
      SemKnown(Abs(), k);
      if sems[k] > 0 {
        sems := sems[k := sems[k] - 1];
      } else {
        QueueUp(ListId.SemWait(k));
      }
    }

    /** sem_notify */
    method SemNotify(k: int)
      requires Valid() && k in sems
      modifies this, lists
      ensures Valid() && Abs() == Next(old(Abs()), Notify(k))
    {
      ghost var s, l := Abs(), ListId.SemWait(k);
      StepKeepsInv(s, Notify(k));
      SemKnown(s, k);
      lists.ListKnown(l);
      if lists.heads[ListId.SemWait(k)].count != 0 {
        FirstWaiter(s, l);
        var p := lists.RemoveFirst(ListId.SemWait(k));
        SetReady(p.node.task);
        WokeCore(s, k);
        NextRunKnown(Woke(s, l));
        Dispatch();
      } else {
        sems := sems[k := sems[k] + 1];
      }
    }

    /** The region of sys_wait that waits for a child to exit. */
    method AwaitChild()
      requires Valid() && curr != IDLE
      modifies this, lists
      ensures Valid() && Abs() == Next(old(Abs()), Step.AwaitChild)
    {
      ghost var s := Abs();
      StepKeepsInv(s, Step.AwaitChild);
      ReadyKnown(s);
      LeftCore(s, Waiting);
      SetBlock();
      tasks := tasks[curr := tasks[curr].(state := Waiting)];
      Dispatch();
    }

    method WakeIfWaiting(t: Task)
      requires Valid() && curr != IDLE && t in tasks
      modifies this`tasks, lists
      ensures Valid() && Abs() == WokenIfWaiting(old(Abs()), t)
    {
      WokenInv(Abs(), t);
      if tasks[t].state == Waiting {
        ParkedNowhere(Abs(), t);
        SetReady(t);
      }
    }

    /** One slot in the scan of sys_exit. */
    method Adopt(t: Task)
      requires Valid() && Enabled(Abs(), Step.Adopt(t))
      modifies this`tasks
      ensures Valid() && Abs() == Next(old(Abs()), Step.Adopt(t))
    {
      StepKeepsInv(Abs(), Step.Adopt(t));
      tasks := tasks[t := tasks[t].(parent := FIRST_TASK)];
    }

    /** The scan of sys_exit: every child in the task table goes to the first task. */
    method AdoptChildren(table: seq<Task>) returns (moved: bool)
      requires Valid() && curr != IDLE && curr != FIRST_TASK && FIRST_TASK in tasks
      modifies this`tasks
      ensures Valid() && Abs() == AllAdopted(old(Abs()), table)
      ensures moved <==> HasZombieChild(old(Abs()), table)
    {
      ghost var s := Abs();
      moved := false;
      NobodyAdopted(s);
      for i := 0 to |table|
        invariant Valid() && Abs() == AllAdopted(s, table[..i])
        invariant moved <==> HasZombieChild(s, table[..i])
      {
        var t := table[i];
        assert table[..i + 1] == table[..i] + [t];
        OneMoreAdopted(s, table[..i], t);
        if t in tasks && t != IDLE && t != FIRST_TASK && tasks[t].parent == curr {
          if tasks[t].state == Zombie {
            moved := true;
          }
          Adopt(t);
        }
      }
      assert table[..|table|] == table;
    }

    /** sys_exit: no task of the table is left with the task that is gone as its parent. */
    method SysExit(table: seq<Task>)
      requires Valid() && curr != FIRST_TASK && Enabled(Abs(), Step.Exit(false))
      modifies this, lists
      ensures var s, moved := AllAdopted(old(Abs()), table), HasZombieChild(old(Abs()), table);
        Valid() && Inv(s) && Enabled(s, Step.Exit(moved)) && Abs() == Next(s, Step.Exit(moved))
      ensures ParentsSettled(old(Abs()), Abs(), table) && WaitingWoken(old(Abs()), Abs(), table)
    {
      ghost var s := Abs();
      var moved := AdoptChildren(table);
      ghost var s1 := Abs();
      AdoptionKeeps(s, table);
      ExitSettlesParents(s, s1, moved, table);
      ExitWakesWaiting(s, s1, moved, table);
      Exit(moved);
    }

    /** The last region of sys_exit: `moved` says whether a zombie child went to the first task. */
    method Exit(moved: bool)
      requires Valid() && Enabled(Abs(), Step.Exit(moved))
      modifies this, lists
      ensures Valid() && Abs() == Next(old(Abs()), Step.Exit(moved))
    {
      StepKeepsInv(Abs(), Step.Exit(moved));
      WakeParents(moved);
      BecomeZombie();
    }

    /** The tasks that the exit wakes: the parent, and the first task for a zombie that came to it. */
    method WakeParents(moved: bool)
      requires Valid() && Enabled(Abs(), Step.Exit(moved))
      modifies this`tasks, lists
      ensures Valid() && Abs() == ParentsWoken(old(Abs()), moved)
    {
      ghost var s := Abs();
      ParentsWokenInv(s, moved);
      WokenInv(s, FIRST_TASK);
      var parent := tasks[curr].parent;
      if moved && parent != FIRST_TASK {
        WakeIfWaiting(FIRST_TASK);
      }
      WakeIfWaiting(parent);
    }

    /** The running task turns into a zombie and is never ready again. */
    method BecomeZombie()
      requires Valid() && curr != IDLE
      modifies this, lists
      ensures lists.Valid() && Core(LeftIn(old(Abs()), Zombie))
      ensures NextRun(LeftIn(old(Abs()), Zombie).lists[Ready]) in LeftIn(old(Abs()), Zombie).tasks
      ensures Abs() == Dispatched(LeftIn(old(Abs()), Zombie))
    {
      ghost var p := Abs();
      ReadyKnown(p);
      LeftCore(p, Zombie);
      tasks := tasks[curr := tasks[curr].(state := Zombie)];
      SetBlock();
      Dispatch();
    }

    /** The region of sys_wait that clears a child that has exited. */
    method Reap(t: Task)
      requires Valid() && Enabled(Abs(), Step.Reap(t))
      modifies this`tasks
      ensures Valid() && Abs() == Next(old(Abs()), Step.Reap(t))
    {
      StepKeepsInv(Abs(), Step.Reap(t));
      tasks := tasks[t := Info(Created, 0, 0, NOBODY)];
    }

    /** task_init and task_start of a new child */
    method Start(t: Task)
      requires Valid() && Enabled(Abs(), Step.Start(t))
      modifies this`tasks, lists
      ensures Valid() && Abs() == Next(old(Abs()), Step.Start(t))
    {
      StepKeepsInv(Abs(), Step.Start(t));
      ParkedNowhere(Abs(), t);
      tasks := tasks[t := Info(Created, TASK_TIME_SLICE_DEFAULT, 0, curr)];
      SetReady(t);
    }

    /** Whether a step can be taken now. */
    method CanTake(step: Step) returns (b: bool)
      requires Valid()
      ensures b == Enabled(Abs(), step)
    {
      match step
      case Tick => return true;
      case Notify(k) => return k in sems;
      case Lock(m) => return curr != IDLE && m in mutexes;
      case Unlock(m) => return curr != IDLE && m in mutexes;
      case SemWaits(k) => return curr != IDLE && k in sems;
      case Adopt(t) =>
        return curr != IDLE && t in tasks && t != IDLE && t != FIRST_TASK && tasks[t].parent == curr
          && FIRST_TASK in tasks;
      case Exit(_) => return curr != IDLE && tasks[curr].parent in tasks && FIRST_TASK in tasks;
      case Reap(t) => return curr != IDLE && t in tasks && t != IDLE && tasks[t].parent == curr
        && tasks[t].state == Zombie;
      case Start(t) => return curr != IDLE && t in tasks && t != IDLE && tasks[t].state == Created;
      case _ => return curr != IDLE;
    }

    method Take(step: Step)
      requires Valid() && Enabled(Abs(), step)
      modifies this, lists
      ensures Valid() && Abs() == Next(old(Abs()), step)
    {
      match step
      case Tick => TimeTick();
      case Yield => Yield();
      case Msleep(ms) => Msleep(ms);
      case Lock(m) => MutexLock(m);
      case Unlock(m) => MutexUnlock(m);
      case SemWaits(k) => SemWait(k);
      case Notify(k) => SemNotify(k);
      case AwaitChild => AwaitChild();
      case Adopt(t) => Adopt(t);
      case Exit(moved) => Exit(moved);
      case Reap(t) => Reap(t);
      case Start(t) => Start(t);
    }

    /** Whatever is asked of the kernel, in any order, is a run of the state machine. */
    method Perform(steps: seq<Step>) returns (ghost r: Run)
      requires Valid()
      modifies this, lists
      ensures Valid() && Origin(r) == old(Abs()) && End(r) == Abs() && Steps(r) == steps
    {
      r := Begin(Abs());
      for i := 0 to |steps|
        invariant Valid() && Origin(r) == old(Abs()) && End(r) == Abs() && Steps(r) == steps[..i]
      {
        var can := CanTake(steps[i]);
        r := After(r, steps[i]);
        if can {
          Take(steps[i]);
        }
      }
    }
  }

  lemma BootLists(table: set<Task>, mutexIds: set<int>, counts: map<int, int>)
    ensures (map l | l in ListsFor(mutexIds, counts.Keys) :: [])[Ready := [] + [FIRST_TASK]]
      == Boot(table, mutexIds, counts).lists
  {
    var lists: map<ListId, seq<Task>> := map l | l in ListsFor(mutexIds, counts.Keys) :: [];
    var booted := Boot(table, mutexIds, counts).lists;
    assert [] + [FIRST_TASK] == [FIRST_TASK];
    assert lists[Ready := [FIRST_TASK]].Keys == booted.Keys;
    assert lists[Ready := [FIRST_TASK]] == booted;
  }

  lemma WrittenTwice<V>(m: map<int, V>, k: int, a: V, b: V)
    ensures m[k := a][k := b] == m[k := b]
  {
  }

  // ----- the children of a task that exits

  /** All children of the running task that are in the table went to the first task. */
  function AllAdopted(s: Sys, table: seq<Task>): Sys {
    s.(tasks := map t | t in s.tasks ::
      if t in table && IsChild(s, t) then s.tasks[t].(parent := FIRST_TASK) else s.tasks[t])
  }

  ghost predicate HasZombieChild(s: Sys, table: seq<Task>) {
    exists t :: t in table && IsChild(s, t) && s.tasks[t].state == Zombie
  }

  lemma NobodyAdopted(s: Sys)
    ensures AllAdopted(s, []) == s
  {
    assert AllAdopted(s, []).tasks == s.tasks;
  }

  lemma OneMoreAdopted(s: Sys, table: seq<Task>, t: Task)
    requires s.curr != FIRST_TASK
    ensures var s1 := AllAdopted(s, table);
      && (IsChild(s1, t) <==> IsChild(s, t) && t !in table)
      && AllAdopted(s, table + [t]) == (if IsChild(s1, t) then Adopted(s1, t) else s1)
      && (t in s.tasks ==> s1.tasks[t].state == s.tasks[t].state)
      && (HasZombieChild(s, table + [t]) <==>
            HasZombieChild(s, table) || (IsChild(s1, t) && s.tasks[t].state == Zombie))
  {
    var s1 := AllAdopted(s, table);
    assert AllAdopted(s, table + [t]).tasks == (if IsChild(s1, t) then Adopted(s1, t) else s1).tasks;
  }

  lemma AdoptionKeeps(s: Sys, table: seq<Task>)
    requires s.curr in s.tasks && s.tasks[s.curr].parent in s.tasks && FIRST_TASK in s.tasks && s.curr != IDLE
    ensures forall moved :: Enabled(AllAdopted(s, table), Step.Exit(moved))
  {
  }

  lemma ExitKeepsParents(s: Sys, moved: bool)
    requires Inv(s) && Enabled(s, Step.Exit(moved))
    ensures var s' := Next(s, Step.Exit(moved));
      s'.tasks.Keys == s.tasks.Keys && forall t | t in s.tasks :: s'.tasks[t].parent == s.tasks[t].parent
  {
    StepMoves(s, Step.Exit(moved));
  }

  /** Every task of the table whose parent was the running task has the first task as its parent, the others the
      one they had. */
  ghost predicate ParentsSettled(s: Sys, s': Sys, table: seq<Task>) {
    s'.tasks.Keys == s.tasks.Keys && forall t | t in s.tasks && t in table && t != IDLE && t != FIRST_TASK ::
      s'.tasks[t].parent == if s.tasks[t].parent == s.curr then FIRST_TASK else s.tasks[t].parent
  }

  lemma ExitSettlesParents(s: Sys, s1: Sys, moved: bool, table: seq<Task>)
    requires s1 == AllAdopted(s, table) && Inv(s1) && Enabled(s1, Step.Exit(moved))
    ensures ParentsSettled(s, Next(s1, Step.Exit(moved)), table)
  {
    ExitKeepsParents(s1, moved);
  }

  /** A waiting parent is ready, and so is the first task when it waits and got a child that has exited. */
  ghost predicate WaitingWoken(s: Sys, s': Sys, table: seq<Task>)
    requires s.curr in s.tasks && s.tasks[s.curr].parent in s.tasks && FIRST_TASK in s.tasks
  {
    var p := s.tasks[s.curr].parent;
    && Ready in s'.lists
    && (p != IDLE && s.tasks[p].state == Waiting ==> p in s'.lists[Ready])
    && (forall t | t in table && IsChild(s, t) && s.tasks[t].state == Zombie && s.tasks[FIRST_TASK].state == Waiting ::
          FIRST_TASK in s'.lists[Ready])
  }

  lemma ExitWakesWaiting(s: Sys, s1: Sys, moved: bool, table: seq<Task>)
    requires s.curr in s.tasks && s.tasks[s.curr].parent in s.tasks && FIRST_TASK in s.tasks
    requires s1 == AllAdopted(s, table) && Inv(s1) && Enabled(s1, Step.Exit(moved))
    requires moved <==> HasZombieChild(s, table)
    ensures WaitingWoken(s, Next(s1, Step.Exit(moved)), table)
  {
    StepMoves(s1, Step.Exit(moved));
    RunningWaitsForNobody(s1);
    var w := ParentsWaiting(s1, moved);
    assert Next(s1, Step.Exit(moved)).lists[Ready] == ListAfter(s1, Step.Exit(moved), Ready);
    assert forall t | t in w :: t in ListAfter(s1, Step.Exit(moved), Ready);
  }

  // ----- the scan of the sleep list

  /** The state after the first `i` sleepers have been counted. */
  function Scanned(s: Sys, i: int): Sys
    requires Ready in s.lists && Sleep in s.lists && 0 <= i <= |s.lists[Sleep]|
  {
    var z := s.lists[Sleep];
    s.(lists := s.lists[Sleep := Still(z[..i], s.tasks) + z[i..]][Ready := s.lists[Ready] + Woken(z[..i], s.tasks)],
       tasks := Counted(s.tasks, z[..i]))
  }

  lemma ScanStarts(s: Sys)
    requires Core(s)
    ensures Scanned(s, 0) == s
  {
    var z := s.lists[Sleep];
    assert z[..0] == [] && [] + z[0..] == z && s.lists[Ready] + [] == s.lists[Ready];
    assert Counted(s.tasks, []) == s.tasks;
  }

  lemma ScanEnds(s: Sys)
    requires Core(s)
    ensures Scanned(s, |s.lists[Sleep]|) == SleepersCounted(s)
  {
    var z := s.lists[Sleep];
    assert z[..|z|] == z && Still(z, s.tasks) + z[|z|..] == Still(z, s.tasks);
  }

  /** Where the scan stands. */
  lemma ScanAt(s: Sys, i: int)
    requires Core(s) && 0 <= i < |s.lists[Sleep]|
    ensures var z, s', at := s.lists[Sleep], Scanned(s, i), |Still(s.lists[Sleep][..i], s.tasks)|;
      && at < |s'.lists[Sleep]| && s'.lists[Sleep][at] == z[i]
      && PtrAt(Sleep, s'.lists[Sleep], at + 1) == PtrAt(Sleep, z, i + 1)
      && z[i] in s'.tasks && z[i] != IDLE && s'.tasks[z[i]] == s.tasks[z[i]] && z[i] !in s'.lists[Ready]
  {
    assert Unsealed(Seal);
    var z := s.lists[Sleep];
    assert AllMayHang(s, z) && z[i] in z && Disjoint(z, s.lists[Ready]);
    assert z[i] !in z[..i];
    SplitDistinct(z, i);
    StillOrWoken(z[..i], s.tasks, z[i]);
  }

  lemma SplitDistinct(z: seq<Task>, i: int)
    requires Distinct(z) && 0 <= i < |z|
    ensures Distinct(z[..i]) && z[i] !in z[..i] && z[..i + 1] == z[..i] + [z[i]] && z[i..] == [z[i]] + z[i + 1..]
  {
  }

  /** What the scan does with the sleeper at position `at` of the sleep list. */
  function OneCounted(s: Sys, t: Task, at: int): Sys
    requires Ready in s.lists && Sleep in s.lists && 0 <= at < |s.lists[Sleep]| && t in s.tasks
  {
    if s.tasks[t].sleep == 1 then
      s.(tasks := s.tasks[t := s.tasks[t].(sleep := 0, state := ReadyToRun)],
         lists := s.lists[Sleep := Without(s.lists[Sleep], at)][Ready := s.lists[Ready] + [t]])
    else s.(tasks := s.tasks[t := s.tasks[t].(sleep := s.tasks[t].sleep - 1)])
  }

  /** One sleeper further. */
  lemma ScanNext(s: Sys, i: int, i': int)
    requires Core(s) && 0 <= i < |s.lists[Sleep]| && i' == i + 1
    ensures var z, s0, at := s.lists[Sleep], Scanned(s, i), |Still(s.lists[Sleep][..i], s.tasks)|;
      at < |s0.lists[Sleep]| && z[i] in s0.tasks && Scanned(s, i') == OneCounted(s0, z[i], at)
  {
    ScanAt(s, i);
    var z := s.lists[Sleep];
    var t, y := z[i], z[..i];
    assert Distinct(z) && AllMayHang(s, z) && t in z by { assert Unsealed(Seal); }
    SplitDistinct(z, i);
    CountedNext(s.tasks, y, t);
    ScanNextLists(s, y, t, z[i + 1..]);
  }

  /** The lists before and after the turn of task `t`, with `y` before it and `rest` behind it. */
  lemma ScanNextLists(s: Sys, y: seq<Task>, t: Task, rest: seq<Task>)
    requires t in s.tasks
    ensures var r, st, w := s.lists, Still(y, s.tasks), Woken(y, s.tasks); Ready in r ==>
      if s.tasks[t].sleep == 1 then
        && Still(y + [t], s.tasks) + rest == Without(st + ([t] + rest), |st|)
        && r[Ready] + Woken(y + [t], s.tasks) == (r[Ready] + w) + [t]
      else
        && Still(y + [t], s.tasks) + rest == st + ([t] + rest)
        && Woken(y + [t], s.tasks) == w
  {
    StillNext(s, y, t);
    Shifted(Still(y, s.tasks), t, rest);
    if Ready in s.lists {
      assert s.lists[Ready] + (Woken(y, s.tasks) + [t]) == (s.lists[Ready] + Woken(y, s.tasks)) + [t];
    }
  }

  lemma StillNext(s: Sys, y: seq<Task>, t: Task)
    requires t in s.tasks
    ensures Still(y + [t], s.tasks) == if s.tasks[t].sleep == 1 then Still(y, s.tasks) else Still(y, s.tasks) + [t]
    ensures Woken(y + [t], s.tasks) == if s.tasks[t].sleep == 1 then Woken(y, s.tasks) + [t] else Woken(y, s.tasks)
  {
    assert (y + [t])[..|y|] == y;
  }

  lemma Shifted(st: seq<Task>, t: Task, rest: seq<Task>)
    ensures Without(st + ([t] + rest), |st|) == st + rest && (st + [t]) + rest == st + ([t] + rest)
  {
  }

  lemma CountedNext(tasks: map<Task, Info>, y: seq<Task>, t: Task)
    requires t in tasks && t !in y
    ensures Counted(tasks, y + [t]) == Counted(tasks, y)[t :=
      if tasks[t].sleep == 1 then tasks[t].(sleep := 0, state := ReadyToRun)
        else tasks[t].(sleep := tasks[t].sleep - 1)]
  {
  }

  lemma RunNodesFree(c: map<ListId, seq<Task>>, c': map<ListId, seq<Task>>, t: Task)
    requires Ready in c && Sleep in c && t !in c[Ready] && Sleep in c' && c' == c[Sleep := c'[Sleep]] && t !in c'[Sleep]
    ensures Free(c', Ready, t)
  {
  }
}
