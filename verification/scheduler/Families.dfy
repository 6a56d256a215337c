/** Parents and children: who is woken by an exit, and who waits in vain. */
module Families {
  import opened Lists
  import opened Seals
  import opened Scheduling
  import opened StepEffects
  import opened SchedulerRuns
  import opened SchedulerHistories

  /** A task that is started is the last of the ready tasks, with a full slice, and a child of the one that
      starts it. */
  lemma StartedIsReady(s: Sys, t: Task)
    requires Inv(s) && Enabled(s, Start(t))
    ensures var s' := Next(s, Start(t));
      && Ready in s'.lists && s'.lists[Ready] == s.lists[Ready] + [t] && t in s'.tasks
      && s'.tasks[t] == Info(ReadyToRun, 100, 0, s.curr)
  {
    StepMoves(s, Start(t));
    ReadyKnown(s);
    ParkedNowhere(s, t);
    assert s.lists[Ready][0] in s.lists[Ready];
  }

  /** The slot of a child that was reaped can be used again. */
  lemma ReapedIsFree(s: Sys, t: Task)
    requires Inv(s) && Enabled(s, Reap(t))
    ensures var s' := Next(s, Reap(t)); Inv(s') && Enabled(s', Start(t)) && s'.tasks[t].parent == NOBODY
  {
    StepKeepsInv(s, Reap(t));
  }

  /** The task awaits a child in the state in which an exit looks for it. */
  lemma AwaitsInWaiting(s: Sys)
    requires Inv(s) && s.curr != IDLE
    ensures var s' := Next(s, AwaitChild);
      Nowhere(s', s.curr) && s.curr in s'.tasks && s'.tasks[s.curr].state == Waiting
    ensures Next(s, AwaitChild).curr != s.curr
  {
    StepKeepsInv(s, AwaitChild);
    StepMoves(s, AwaitChild);
    RunningPlaced(s, AwaitChild);
    NotChosen(s, AwaitChild, s.curr);
  }

  /** Whether an exit has woken the task. */
  ghost predicate Awoken(r: Run, p: Task) {
    r.After? && (Awoken(r.before, p)
      || (Effective(r) && r.step.Exit? && p in ParentsWaiting(End(r.before), r.step.moved)))
  }

  /** Nothing but an exit ends the wait for a child. */
  lemma {:induction false} WaitsForExit(r: Run, p: Task)
    requires Inv(Origin(r)) && p != IDLE && p in Origin(r).tasks && Origin(r).tasks[p].state == Waiting
    ensures Awoken(r, p) || (p in End(r).tasks && End(r).tasks[p].state == Waiting)
  {
    if r.After? {
      WaitsForExit(r.before, p);
      RunKeepsInv(r.before);
      if Enabled(End(r.before), r.step) && !Awoken(r.before, p) {
        StillWaits(End(r.before), r.step, p);
      }
    }
  }

  lemma StillWaits(s: Sys, step: Step, p: Task)
    requires Inv(s) && Enabled(s, step) && p != IDLE && p in s.tasks && s.tasks[p].state == Waiting
    ensures p in Next(s, step).tasks
    ensures Next(s, step).tasks[p].state == Waiting || (step.Exit? && p in ParentsWaiting(s, step.moved))
  {
    StepMoves(s, step);
    ParkedNowhere(s, p);
    if p in Joins(s, step) {
      FromNowhere(s, step, p);
    } else {
      StepPlaces(s, step, p);
      WaitingNotRunning(s, p);
      NotChosen(s, step, p);
      assert Next(s, step).tasks[p].state == StateAfter(s, step, p);
    }
  }

  /** Who comes to the ready list from no list was started, or is woken by an exit. */
  lemma FromNowhere(s: Sys, step: Step, t: Task)
    requires Inv(s) && Enabled(s, step) && t in Joins(s, step)
    ensures step == Start(t) || (step.Exit? && t in ParentsWaiting(s, step.moved))
      || exists l :: l in s.lists && t in s.lists[l]
  {
    ParkedJoins(s, step, t);
    ReadyKnown(s);
    match step
    case Tick => ThoseOf(s.lists[Sleep], Due(s), t);
    case Unlock(m) => assert t in s.lists[MutexWait(m)];
    case Notify(k) => assert t in s.lists[SemWait(k)];
    case _ =>
  }

  /** Task `p` awaits a child, and its child `t` has not exited. */
  predicate AwaitsLive(s: Sys, p: Task, t: Task) {
    && p != IDLE && p in s.tasks && s.tasks[p].state == Waiting
    && t in s.tasks && s.tasks[t].parent == p && !s.tasks[t].state.Zombie? && !s.tasks[t].state.Created?
  }

  /** A parent that began to wait before its child exited is woken before that child is a zombie; one whose child
      was a zombie already may wait for ever (ExitMissed). */
  lemma {:induction false} ExitNoticed(r: Run, p: Task, t: Task)
    requires Inv(Origin(r)) && AwaitsLive(Origin(r), p, t)
    ensures Awoken(r, p) || AwaitsLive(End(r), p, t)
  {
    if r.After? {
      ExitNoticed(r.before, p, t);
      RunKeepsInv(r.before);
      if Enabled(End(r.before), r.step) && !Awoken(r.before, p) {
        StillLive(End(r.before), r.step, p, t);
      }
    }
  }

  lemma StillLive(s: Sys, step: Step, p: Task, t: Task)
    requires Inv(s) && Enabled(s, step) && AwaitsLive(s, p, t)
    ensures AwaitsLive(Next(s, step), p, t) || (step.Exit? && p in ParentsWaiting(s, step.moved))
  {
    StillWaits(s, step, p);
    StepMoves(s, step);
    ChildStays(s, step, p, t);
    ChildMoved(s, step, Next(s, step), t);
  }

  lemma ChildMoved(s: Sys, step: Step, s': Sys, t: Task)
    requires HasLists(s) && s.curr in s.tasks && TasksMoved(s, step, s') && t in s.tasks
    ensures t in s'.tasks
    ensures s'.tasks[t].state == StateAfter(s, step, t) && s'.tasks[t].parent == ParentAfter(s, step, t)
  {
  }

  lemma ChildStays(s: Sys, step: Step, p: Task, t: Task)
    requires Inv(s) && Enabled(s, step) && AwaitsLive(s, p, t)
    ensures ParentAfter(s, step, t) == p
    ensures var st := StateAfter(s, step, t);
      (!st.Zombie? && !st.Created?) || (step.Exit? && p in ParentsWaiting(s, step.moved))
  {
    WaitingNotRunning(s, p);
  }

  lemma WaitingNotRunning(s: Sys, p: Task)
    requires Inv(s) && p != IDLE && p in s.tasks && s.tasks[p].state == Waiting
    ensures s.curr != p
  {
    ParkedNowhere(s, p);
    ReadyKnown(s);
    assert s.curr != IDLE ==> s.curr in s.lists[Ready];
  }

  /** A parent that awaits a child when it exits is ready, and runs after a slice for each ready task. */
  lemma ExitWakesParent(s: Sys, moved: bool, r: Run)
    requires Inv(s) && Enabled(s, Exit(moved)) && Origin(r) == Next(s, Exit(moved))
    requires var p := s.tasks[s.curr].parent; p != IDLE && s.tasks[p].state == Waiting
    ensures var p, s' := s.tasks[s.curr].parent, Next(s, Exit(moved));
      && Ready in s'.lists && p in s'.lists[Ready] && s.curr in s'.tasks && s'.tasks[s.curr].state == Zombie
      && p in s'.tasks && s'.tasks[p].state == if s'.curr == p then Running else ReadyToRun
    ensures Ticks(r) >= TASK_TIME_SLICE_DEFAULT * |s.lists[Ready]| ==> HasRun(r, s.tasks[s.curr].parent)
  {
    var p, w := s.tasks[s.curr].parent, ParentsWaiting(s, moved);
    StepMoves(s, Exit(moved));
    RunningPlaced(s, Exit(moved));
    NotChosen(s, Exit(moved), s.curr);
    RunningWaitsForNobody(s);
    var j: nat := if w[0] == p then 0 else 1;
    assert w[j] == p && Joins(s, Exit(moved)) == w;
    assert Next(s, Exit(moved)).lists[Ready] == ListAfter(s, Exit(moved), Ready);
    if Ticks(r) >= TASK_TIME_SLICE_DEFAULT * |s.lists[Ready]| {
      JoinedRuns(s, Exit(moved), j, r);
    }
  }

  /** The first task and a child of it, in these states, when the ready list is `ready` and nobody sleeps. */
  ghost predicate Family(s: Sys, ready: seq<Task>, first: TaskState, child: TaskState) {
    && Inv(s) && s.sems == map[] && s.lists.Keys == {Ready, Sleep} && s.lists[Ready] == ready && s.lists[Sleep] == []
    && 1 in s.tasks && s.tasks[1].state == first
    && 2 in s.tasks && s.tasks[2].state == child && s.tasks[2].parent == 1
  }

  /** From boot: the first task starts a child, looks for one that has exited, is preempted, and goes on to wait
      when the child has run to its end. */
  function ChildTooFast(): Run {
    After(After(After(After(Begin(Boot({2}, {}, map[])), Start(2)), Yield), Exit(false)), AwaitChild)
  }

  /** Boot with one free slot. */
  ghost predicate JustBooted(s: Sys) {
    && Inv(s) && s.curr == 1 && s.sems == map[] && s.lists.Keys == {Ready, Sleep} && s.lists[Ready] == [1]
    && s.lists[Sleep] == [] && 1 in s.tasks && s.tasks[1].state == ReadyToRun && 2 in s.tasks
    && s.tasks[2].state == Created
  }

  lemma Booted()
    ensures JustBooted(Boot({2}, {}, map[]))
  {
    BootInv({2}, {}, map[]);
    assert ListsFor({}, {}) == {Ready, Sleep};
  }

  lemma ChildStarts(s: Sys)
    requires JustBooted(s)
    ensures Enabled(s, Start(2)) && Family(Next(s, Start(2)), [1, 2], ReadyToRun, ReadyToRun)
  {
    StepKeepsInv(s, Start(2));
    StepMoves(s, Start(2));
    assert Joins(s, Start(2)) == [2] && ListAfter(s, Start(2), Ready) == [1, 2];
  }

  lemma ChildRuns(s: Sys)
    requires Family(s, [1, 2], ReadyToRun, ReadyToRun)
    ensures Enabled(s, Yield) && Family(Next(s, Yield), [2, 1], ReadyToRun, Running)
  {
    StepKeepsInv(s, Yield);
    StepMoves(s, Yield);
    assert Joins(s, Yield) == [1] && ListAfter(s, Yield, Ready) == [2, 1];
  }

  lemma ChildExits(s: Sys)
    requires Family(s, [2, 1], ReadyToRun, Running)
    ensures Enabled(s, Exit(false)) && Family(Next(s, Exit(false)), [1], Running, Zombie)
  {
    StepKeepsInv(s, Exit(false));
    StepMoves(s, Exit(false));
    assert Joins(s, Exit(false)) == [] && ListAfter(s, Exit(false), Ready) == [1];
  }

  lemma ParentAwaits(s: Sys)
    requires Family(s, [1], Running, Zombie)
    ensures Enabled(s, AwaitChild) && Family(Next(s, AwaitChild), [], Waiting, Zombie)
  {
    StepKeepsInv(s, AwaitChild);
    StepMoves(s, AwaitChild);
    assert Joins(s, AwaitChild) == [] && ListAfter(s, AwaitChild, Ready) == [];
  }

  /** While the idle task runs, nobody sleeps and there is no semaphore, only the clock goes on. */
  lemma NobodyComes(s: Sys, step: Step)
    requires Family(s, [], Waiting, Zombie) && Enabled(s, step)
    ensures Family(Next(s, step), [], Waiting, Zombie)
  {
    StepKeepsInv(s, step);
    StepMoves(s, step);
    assert step == Tick && Joins(s, Tick) == [] && ListAfter(s, Tick, Ready) == [];
  }

  /** A child that exits between the search of sys_wait and its wait is not noticed: the parent may wait for
      ever for a child that has exited. */
  lemma {:induction false} ExitMissed(r: Run)
    requires Origin(r) == End(ChildTooFast())
    ensures End(r).curr == IDLE && Family(End(r), [], Waiting, Zombie)
  {
    if r.Begin? {
      Booted();
      ChildStarts(Boot({2}, {}, map[]));
      var s := Next(Boot({2}, {}, map[]), Start(2));
      ChildRuns(s);
      ChildExits(Next(s, Yield));
      ParentAwaits(Next(Next(s, Yield), Exit(false)));
    } else {
      ExitMissed(r.before);
      if Enabled(End(r.before), r.step) {
        NobodyComes(End(r.before), r.step);
      }
    }
  }
}
