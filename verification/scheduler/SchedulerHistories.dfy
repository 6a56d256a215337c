/** Sleep times, and what locks and semaphores have done so far, over every run. */
module SchedulerHistories {
  import opened Lists
  import opened Seals
  import opened Widths
  import opened Scheduling
  import opened StepEffects
  import opened SchedulerRuns

  /** The lists that a step may change. */
  predicate Touches(step: Step, l: ListId) {
    match l
    case Ready => true
    case Sleep => step.Tick? || step.Msleep?
    case MutexWait(m) => step == Lock(m) || step == Unlock(m)
    case SemWait(k) => step == SemWaits(k) || step == Notify(k)
  }

  /** What a step leaves alone. */
  predicate Untouched(s: Sys, s': Sys, step: Step) {
    && s'.lists.Keys == s.lists.Keys && s'.mutexes.Keys == s.mutexes.Keys && s'.sems.Keys == s.sems.Keys
    && (forall l | l in s.lists && !Touches(step, l) :: s'.lists[l] == s.lists[l])
    && (forall m | m in s.mutexes && step != Lock(m) && step != Unlock(m) :: s'.mutexes[m] == s.mutexes[m])
    && (forall k | k in s.sems && step != SemWaits(k) && step != Notify(k) :: s'.sems[k] == s.sems[k])
    && (!step.Tick? && Sleep in s.lists ==> SleepKept(s, s'))
  }

  /** Those that sleep go on sleeping. */
  predicate SleepKept(s: Sys, s': Sys)
    requires Sleep in s.lists
  {
    forall t | t in s.lists[Sleep] :: Sleep in s'.lists && t in s'.lists[Sleep] && t in s.tasks && t in s'.tasks
      && s'.tasks[t].sleep == s.tasks[t].sleep
  }

  lemma StepLeaves(s: Sys, step: Step)
    requires Inv(s) && Enabled(s, step)
    ensures Untouched(s, Next(s, step), step)
  {
    StepMoves(s, step);
    SleepersStay(s, step);
    OthersUnmoved(s, step, Next(s, step));
  }

  lemma OthersUnmoved(s: Sys, step: Step, s': Sys)
    requires HasLists(s) && s.curr in s.tasks && ListsMoved(s, step, s') && PrimitivesMoved(s, step, s')
    requires !step.Tick? ==> SleepKept(s, s')
    ensures Untouched(s, s', step)
  {
    forall l | l in s.lists && !Touches(step, l)
      ensures s'.lists[l] == s.lists[l]
    {
      assert s'.lists[l] == ListAfter(s, step, l);
    }
  }

  lemma SleepersStay(s: Sys, step: Step)
    requires Inv(s) && Enabled(s, step)
    ensures !step.Tick? ==> SleepKept(s, Next(s, step))
  {
    SleepersKnown(s);
    StepMoves(s, step);
    if !step.Tick? {
      var s' := Next(s, step);
      forall t | t in s.lists[Sleep]
        ensures t in s'.lists[Sleep] && t in s.tasks && t in s'.tasks && s'.tasks[t].sleep == s.tasks[t].sleep
      {
        assert s'.lists[Sleep] == ListAfter(s, step, Sleep) && s'.tasks[t].sleep == SleepAfter(s, step, t);
        CountsOn(s, step, t);
      }
    }
  }

  lemma CountsOn(s: Sys, step: Step, t: Task)
    requires Inv(s) && Enabled(s, step) && !step.Tick? && t in s.lists[Sleep]
    requires t in s.tasks && t != s.curr && !Parked(s.tasks[t].state)
    ensures t in ListAfter(s, step, Sleep) && SleepAfter(s, step, t) == s.tasks[t].sleep
  {
  }

  // ----- sleeping

  /** The number of ticks of a sleep is the time in ticks, rounded up; it is zero exactly for the last nine
      numbers of milliseconds, whose rounding overflows. */
  lemma SleepTicks(ms: U32)
    ensures var m := if ms < OS_TICK_MS then OS_TICK_MS else ms;
      (TicksOf(ms) > 0 <==> ms + (OS_TICK_MS - 1) < 0x1_0000_0000)
      && (TicksOf(ms) > 0 ==> (TicksOf(ms) - 1) * OS_TICK_MS < m <= TicksOf(ms) * OS_TICK_MS)
  {
  }

  lemma FallsAsleep(s: Sys, ms: U32)
    requires Inv(s) && s.curr != IDLE
    ensures var t, s' := s.curr, Slept(s, ms);
      && Sleep in s'.lists && t in s'.tasks
      && (TicksOf(ms) > 0 ==>
            && s'.lists[Sleep] == s.lists[Sleep] + [t] && s'.tasks[t].sleep == TicksOf(ms)
            && s'.tasks[t].state == Sleeping)
      && (TicksOf(ms) == 0 ==> Lost(s', t))
  {
    StepMoves(s, Msleep(ms));
    ReadyKnown(s);
    assert s.curr in s.lists[Ready];
    StepLoses(s, Msleep(ms), s.curr);
    if TicksOf(ms) > 0 {
      var r := s.lists[Ready][1..];
      assert r != [] ==> r[0] in r;
    }
  }

  /** One tick of a sleeper. */
  lemma TickOnSleeper(s: Sys, t: Task)
    requires Inv(s) && t in s.lists[Sleep]
    ensures var s' := Ticked(s);
      && Ready in s'.lists && Sleep in s'.lists && t in s.tasks && t in s'.tasks
      && (s.tasks[t].sleep == 1 ==> t in s'.lists[Ready] && t !in s'.lists[Sleep])
      && (s.tasks[t].sleep != 1 ==> t in s'.lists[Sleep] && s'.tasks[t].sleep == s.tasks[t].sleep - 1)
  {
    SleepersKnown(s);
    StepMoves(s, Tick);
    var z := s.lists[Sleep];
    ThoseOf(z, Due(s), t);
    ThoseOf(z, (set u | u in z) - Due(s), t);
    assert Ticked(s).lists[Ready] == ListAfter(s, Tick, Ready);
  }

  /** Until its ticks have passed the task sleeps, its counter above zero, whatever else happens. */
  lemma {:induction false} SleepsOn(r: Run, t: Task, n: int)
    requires Inv(Origin(r)) && t in Origin(r).lists[Sleep] && t in Origin(r).tasks && Origin(r).tasks[t].sleep == n
    requires Ticks(r) < n
    ensures var s := End(r); Sleep in s.lists && t in s.lists[Sleep] && t in s.tasks && s.tasks[t].sleep == n - Ticks(r)
  {
    RunKeepsInv(r);
    if r.After? {
      RunKeepsInv(r.before);
      SleepsOn(r.before, t, n);
      if Enabled(End(r.before), r.step) {
        StepLeaves(End(r.before), r.step);
        if r.step.Tick? {
          TickOnSleeper(End(r.before), t);
        }
      }
    }
  }

  /** A sleeping task comes back to the ready list on exactly the tick that its sleep was rounded to. */
  lemma WakesOnTime(s: Sys, ms: U32, r: Run)
    requires Inv(s) && s.curr != IDLE && TicksOf(ms) > 0 && Origin(r) == Slept(s, ms)
    ensures Ticks(r) < TicksOf(ms) ==> Sleep in End(r).lists && s.curr in End(r).lists[Sleep]
    ensures Ticks(r) == TicksOf(ms) - 1 ==>
      var s' := End(After(r, Tick)); Ready in s'.lists && s.curr in s'.lists[Ready]
  {
    StepKeepsInv(s, Msleep(ms));
    FallsAsleep(s, ms);
    if Ticks(r) < TicksOf(ms) {
      SleepsOn(r, s.curr, TicksOf(ms));
      RunKeepsInv(r);
      if Ticks(r) == TicksOf(ms) - 1 {
        TickOnSleeper(End(r), s.curr);
      }
    }
  }

  /** A task that hangs nowhere although it is neither new, nor waiting for a child, nor gone. */
  predicate Lost(s: Sys, t: Task) {
    Nowhere(s, t) && t != IDLE && t in s.tasks && !Parked(s.tasks[t].state)
  }

  /** Where a task hangs after a step: it goes off the lists only when it awaits a child, exits or sleeps for a
      number of ticks that overflows, and it comes to one only at the end of the ready list. */
  lemma StepPlaces(s: Sys, step: Step, t: Task)
    requires Inv(s) && Enabled(s, step)
    ensures Nowhere(Next(s, step), t) <==>
      (Nowhere(s, t) && t !in Joins(s, step)) || (t == s.curr && Parks(step))
  {
    StepMoves(s, step);
    ReadyKnown(s);
    if t == s.curr && t != IDLE {
      RunningPlaced(s, step);
    } else if Nowhere(s, t) {
      if t in Joins(s, step) {
        assert t in ListAfter(s, step, Ready);
      } else {
        forall l | l in s.lists
          ensures t !in ListAfter(s, step, l)
        {
          StaysOut(s, step, l, t);
        }
      }
    } else {
      var l :| l in s.lists && t in s.lists[l];
      var l' := StaysIn(s, step, l, t);
    }
  }

  lemma RunningPlaced(s: Sys, step: Step)
    requires Inv(s) && Enabled(s, step) && s.curr != IDLE
    ensures Nowhere(Next(s, step), s.curr) <==> Parks(step)
    ensures !Nowhere(s, s.curr)
  {
    ReadyKnown(s);
    assert s.curr in s.lists[Ready];
    StepMoves(s, step);
    if Parks(step) {
      forall l | l in s.lists
        ensures s.curr !in ListAfter(s, step, l)
      {
        RunningGoes(s, step, l);
      }
    } else {
      var l := RunningStays(s, step);
    }
  }

  lemma RunningGoes(s: Sys, step: Step, l: ListId)
    requires Inv(s) && Enabled(s, step) && s.curr != IDLE && Parks(step) && l in s.lists
    ensures s.curr !in ListAfter(s, step, l)
  {
    ReadyKnown(s);
    RunningWaitsNowhere(s);
    RunningWaitsForNobody(s);
  }

  lemma RunningStays(s: Sys, step: Step) returns (l: ListId)
    requires Inv(s) && Enabled(s, step) && s.curr != IDLE && !Parks(step)
    ensures l in s.lists && s.curr in ListAfter(s, step, l)
  {
    ReadyKnown(s);
    assert s.curr in s.lists[Ready];
    l := match step
      case Msleep(_) => Sleep
      case Lock(m) => if Leaves(s, step) then MutexWait(m) else Ready
      case SemWaits(k) => if Leaves(s, step) then SemWait(k) else Ready
      case _ => Ready;
  }

  lemma StaysOut(s: Sys, step: Step, l: ListId, t: Task)
    requires Inv(s) && Enabled(s, step) && l in s.lists && Nowhere(s, t) && t !in Joins(s, step)
    requires t != s.curr || s.curr == IDLE
    ensures t !in ListAfter(s, step, l)
  {
    if l == Sleep && step.Tick? {
      ThoseOf(s.lists[l], (set u | u in s.lists[l]) - Due(s), t);
    }
  }

  /** A task that hangs and is not running hangs in the same list or at the end of the ready list. */
  lemma StaysIn(s: Sys, step: Step, l: ListId, t: Task) returns (l': ListId)
    requires Inv(s) && Enabled(s, step) && l in s.lists && t in s.lists[l] && (t != s.curr || s.curr == IDLE)
    ensures (l' == l || l' == Ready) && t in ListAfter(s, step, l')
  {
    ReadyKnown(s);
    var w := s.lists[l];
    assert w == [w[0]] + w[1..];
    if l == Sleep && step.Tick? {
      SleepersKnown(s);
      ThoseOf(w, Due(s), t);
      ThoseOf(w, (set u | u in w) - Due(s), t);
    }
    l' := if t in ListAfter(s, step, l) then l else Ready;
  }

  /** One way to get lost: a sleep that overflows; and no way back. */
  lemma StepLoses(s: Sys, step: Step, t: Task)
    requires Inv(s) && Enabled(s, step)
    ensures Lost(Next(s, step), t) <==>
      Lost(s, t) || (t == s.curr && step.Msleep? && TicksOf(step.ms) == 0)
  {
    StepPlaces(s, step, t);
    StepMoves(s, step);
    if t in s.tasks && t != IDLE && Nowhere(Next(s, step), t) {
      NotChosen(s, step, t);
      assert Next(s, step).tasks[t].state == StateAfter(s, step, t);
      if t == s.curr {
        RunningPlaced(s, step);
        RunningWaitsForNobody(s);
      }
      ParkedAfter(s, step, t);
    } else if Nowhere(s, t) && t in Joins(s, step) {
      ParkedJoins(s, step, t);
    }
  }

  /** Who comes to the ready list from no list was waiting for a child or is new. */
  lemma ParkedJoins(s: Sys, step: Step, t: Task)
    requires Inv(s) && Enabled(s, step) && t in Joins(s, step)
    ensures (t in s.tasks && Parked(s.tasks[t].state)) || exists l :: l in s.lists && t in s.lists[l]
  {
    ReadyKnown(s);
    assert s.curr != IDLE ==> s.curr in s.lists[Ready];
    match step
    case Tick => ThoseOf(s.lists[Sleep], Due(s), t);
    case Unlock(m) => assert t in s.lists[MutexWait(m)];
    case Notify(k) => assert t in s.lists[SemWait(k)];
    case _ =>
  }

  lemma NotChosen(s: Sys, step: Step, t: Task)
    requires Inv(s) && Enabled(s, step) && Nowhere(Next(s, step), t) && t != IDLE
    ensures t != RunsAfter(s, step) && t !in Joins(s, step)
  {
    StepMoves(s, step);
    var r' := ListAfter(s, step, Ready);
    assert r' == Next(s, step).lists[Ready];
    assert r' != [] ==> r'[0] in r';
    assert forall u | u in Joins(s, step) :: u in r';
  }

  lemma ParkedAfter(s: Sys, step: Step, t: Task)
    requires Inv(s) && Enabled(s, step) && t in s.tasks && t != RunsAfter(s, step) && t !in Joins(s, step)
    ensures t != s.curr ==> (Parked(StateAfter(s, step, t)) <==> Parked(s.tasks[t].state))
    ensures t == s.curr && Parks(step) && !Parked(s.tasks[t].state) ==>
      (Parked(StateAfter(s, step, t)) <==> !step.Msleep?)
  {
  }

  /** Whether the task took a step after which it hangs in no list: it awaited a child, exited or overslept. */
  ghost predicate GivesUp(r: Run, t: Task) {
    r.After? && (GivesUp(r.before, t) || (Effective(r) && End(r.before).curr == t && Parks(r.step)))
  }

  /** Nobody falls out of the lists: over every run, a task that hung in a list hangs in one, unless it went. */
  lemma {:induction false} NobodyDropped(r: Run, t: Task)
    requires Inv(Origin(r)) && !Nowhere(Origin(r), t) && !GivesUp(r, t)
    ensures !Nowhere(End(r), t)
  {
    if r.After? {
      NobodyDropped(r.before, t);
      RunKeepsInv(r.before);
      if Enabled(End(r.before), r.step) {
        StepPlaces(End(r.before), r.step, t);
      }
    }
  }

  /** Whether the task asked for a sleep whose ticks overflow. */
  ghost predicate Oversleeps(r: Run, t: Task) {
    r.After? && (Oversleeps(r.before, t)
      || (Effective(r) && End(r.before).curr == t && r.step.Msleep? && TicksOf(r.step.ms) == 0))
  }

  /** Exactly the tasks that overslept are lost. */
  lemma {:induction false} LostExactly(r: Run, t: Task)
    requires Inv(Origin(r))
    ensures Lost(End(r), t) <==> Lost(Origin(r), t) || Oversleeps(r, t)
  {
    if r.After? {
      LostExactly(r.before, t);
      RunKeepsInv(r.before);
      if Enabled(End(r.before), r.step) {
        StepLoses(End(r.before), r.step, t);
      }
    }
  }

  /** From boot on: a task is in no list exactly while it is new, awaits a child or has exited, or after it asked
      for a sleep whose ticks overflow. */
  lemma WhoHangs(r: Run, t: Task, table: set<Task>, mutexes: set<int>, sems: map<int, int>)
    requires NOBODY !in table && (forall k | k in sems :: sems[k] >= 0) && Origin(r) == Boot(table, mutexes, sems)
    requires t in End(r).tasks && t != IDLE
    ensures Nowhere(End(r), t) <==> Parked(End(r).tasks[t].state) || Oversleeps(r, t)
  {
    BootInv(table, mutexes, sems);
    RunKeepsInv(r);
    LostExactly(r, t);
    assert FIRST_TASK in Origin(r).lists[Ready];
    assert !Lost(Origin(r), t);
    if Parked(End(r).tasks[t].state) {
      ParkedNowhere(End(r), t);
    }
  }

  lemma LostIsNotRunning(s: Sys, t: Task)
    requires Inv(s) && Lost(s, t)
    ensures s.curr != t
  {
    ReadyKnown(s);
    assert s.curr != IDLE ==> s.curr in s.lists[Ready];
  }

  /** A sleep of 2^32 - 9 milliseconds or more never ends: the task is in no list and does not run again. */
  lemma SleepsForever(s: Sys, ms: U32, r: Run)
    requires Inv(s) && s.curr != IDLE && ms + (OS_TICK_MS - 1) >= 0x1_0000_0000 && Origin(r) == Slept(s, ms)
    ensures Nowhere(End(r), s.curr) && End(r).curr != s.curr
  {
    SleepTicks(ms);
    LostAsleep(s, ms);
    StaysLost(r, s.curr);
  }

  lemma LostAsleep(s: Sys, ms: U32)
    requires Inv(s) && s.curr != IDLE && TicksOf(ms) == 0
    ensures Inv(Slept(s, ms)) && Lost(Slept(s, ms), s.curr)
  {
    StepKeepsInv(s, Msleep(ms));
    FallsAsleep(s, ms);
  }

  lemma StaysLost(r: Run, t: Task)
    requires Inv(Origin(r)) && Lost(Origin(r), t)
    ensures Nowhere(End(r), t) && End(r).curr != t
  {
    LostExactly(r, t);
    RunKeepsInv(r);
    LostIsNotRunning(End(r), t);
  }

  // ----- locks

  /** How often a task has locked a mutex, waiting or not, and how often it has unlocked it as its owner. */
  ghost function Locks(r: Run, m: int, t: Task): nat {
    if r.Begin? then 0
    else Locks(r.before, m, t) + if Effective(r) && r.step == Lock(m) && End(r.before).curr == t then 1 else 0
  }

  ghost function Unlocks(r: Run, m: int, t: Task): nat {
    if r.Begin? then 0
    else
      Unlocks(r.before, m, t)
        + if Effective(r) && r.step == Unlock(m) && End(r.before).curr == t && Owns(End(r.before), m, t) then 1 else 0
  }

  /** What a task's locks and unlocks must add up to: the count of its lock, or one while it is queued. */
  function Claims(s: Sys, m: int, t: Task): int
    requires m in s.mutexes && MutexWait(m) in s.lists
  {
    (if s.mutexes[m].owner == t then s.mutexes[m].locked else 0) + if t in s.lists[MutexWait(m)] then 1 else 0
  }

  /** The tasks that had to queue for a mutex, and those that were handed it, in order. */
  ghost function Arrivals(r: Run, m: int): seq<Task> {
    if r.Begin? then []
    else Arrivals(r.before, m) + if Effective(r) && Contends(End(r.before), r.step, m) then [End(r.before).curr] else []
  }

  ghost function Handoffs(r: Run, m: int): seq<Task> {
    if r.Begin? then []
    else
      var s := End(r.before);
      Handoffs(r.before, m) + if Effective(r) && HandsOff(s, r.step, m) then [s.lists[MutexWait(m)][0]] else []
  }

  /** What a step does to the waiters of a mutex. */
  predicate QueueMoves(s: Sys, s': Sys, step: Step, m: int) {
    && MutexWait(m) in s.lists && MutexWait(m) in s'.lists
    && s'.lists[MutexWait(m)] ==
         if Contends(s, step, m) then s.lists[MutexWait(m)] + [s.curr]
         else if HandsOff(s, step, m) then s.lists[MutexWait(m)][1..] else s.lists[MutexWait(m)]
  }

  lemma LockStep(s: Sys, m: int, t: Task)
    requires Inv(s) && s.curr != IDLE && m in s.mutexes && t != NOBODY
    ensures var s' := Locked(s, m);
      && m in s'.mutexes && QueueMoves(s, s', Lock(m), m)
      && Claims(s', m, t) == Claims(s, m, t) + if s.curr == t then 1 else 0
  {
    MutexKnown(s, m);
    RunningWaitsNowhere(s);
    StepMoves(s, Lock(m));
  }

  lemma UnlockStep(s: Sys, m: int, t: Task)
    requires Inv(s) && s.curr != IDLE && m in s.mutexes && t != NOBODY
    ensures var s' := Unlocked(s, m);
      && m in s'.mutexes && QueueMoves(s, s', Unlock(m), m)
      && Claims(s', m, t) == Claims(s, m, t) - if s.curr == t && Owns(s, m, t) then 1 else 0
  {
    MutexKnown(s, m);
    RunningWaitsNowhere(s);
    StepMoves(s, Unlock(m));
    if HandsOff(s, Unlock(m), m) {
      FirstOnce(s, MutexWait(m), t);
    }
  }

  /** The first waiter waits once. */
  lemma FirstOnce(s: Sys, l: ListId, t: Task)
    requires Core(s) && l in s.lists && s.lists[l] != []
    ensures s.lists[l][0] !in s.lists[l][1..] && (t in s.lists[l] <==> t == s.lists[l][0] || t in s.lists[l][1..])
  {
    assert Unsealed(Seal);
    var w := s.lists[l];
    TailOnce(s.lists, l);
    assert w == [w[0]] + w[1..];
  }

  /** One step, as a mutex and one task see it. */
  lemma MutexStep(s: Sys, step: Step, m: int, t: Task)
    requires Inv(s) && Enabled(s, step) && m in s.mutexes && t != NOBODY
    ensures var s' := Next(s, step);
      && m in s'.mutexes && QueueMoves(s, s', step, m)
      && Claims(s', m, t) == Claims(s, m, t)
        + (if step == Lock(m) && s.curr == t then 1 else 0)
        - (if step == Unlock(m) && s.curr == t && Owns(s, m, t) then 1 else 0)
  {
    if step == Lock(m) {
      LockStep(s, m, t);
    } else if step == Unlock(m) {
      UnlockStep(s, m, t);
    } else {
      StepLeaves(s, step);
    }
  }

  /** A queue between what came and what went: one comes, or the first goes. */
  lemma Queue(o: seq<Task>, came: seq<Task>, gone: seq<Task>, w: seq<Task>, t: Task)
    requires o + came == gone + w
    ensures o + (came + [t]) == gone + (w + [t])
    ensures w != [] ==> o + came == (gone + [w[0]]) + w[1..]
    ensures came + [] == came && gone + [] == gone
  {
    assert o + (came + [t]) == (o + came) + [t];
    assert gone + (w + [t]) == (gone + w) + [t];
    assert w != [] ==> w == [w[0]] + w[1..];
  }

  /** Over every run, the count of a mutex is the number of its owner's locks that were not unlocked. */
  lemma {:induction false} MutexHistory(r: Run, m: int, t: Task)
    requires Inv(Origin(r)) && m in Origin(r).mutexes && t != NOBODY
    ensures var o, s := Origin(r), End(r);
      && m in s.mutexes && MutexWait(m) in s.lists
      && Claims(s, m, t) == Claims(o, m, t) + Locks(r, m, t) - Unlocks(r, m, t)
  {
    if r.After? {
      MutexHistory(r.before, m, t);
      RunKeepsInv(r.before);
      if Enabled(End(r.before), r.step) {
        MutexStep(End(r.before), r.step, m, t);
      }
    }
  }

  /** Contended waiters get the lock in the order in which they came. */
  lemma {:induction false} MutexFifo(r: Run, m: int)
    requires Inv(Origin(r)) && m in Origin(r).mutexes
    ensures var o, s := Origin(r), End(r);
      && m in s.mutexes && MutexWait(m) in s.lists
      && o.lists[MutexWait(m)] + Arrivals(r, m) == Handoffs(r, m) + s.lists[MutexWait(m)]
  {
    if r.After? {
      MutexFifo(r.before, m);
      RunKeepsInv(r.before);
      var s := End(r.before);
      Queue(Origin(r).lists[MutexWait(m)], Arrivals(r.before, m), Handoffs(r.before, m), s.lists[MutexWait(m)], s.curr);
      if Enabled(s, r.step) {
        MutexStep(s, r.step, m, IDLE);
      }
    }
  }

  /** From boot on: the owner's count is exactly its unmatched locks, everyone else's are matched but for the
      lock that a waiter waits for. */
  lemma LocksMatched(r: Run, m: int, t: Task, table: set<Task>, mutexes: set<int>, sems: map<int, int>)
    requires NOBODY !in table && (forall k | k in sems :: sems[k] >= 0) && m in mutexes && t != NOBODY
    requires Origin(r) == Boot(table, mutexes, sems)
    ensures var s := End(r);
      && m in s.mutexes && MutexWait(m) in s.lists
      && Locks(r, m, t) - Unlocks(r, m, t) ==
           (if s.mutexes[m].owner == t then s.mutexes[m].locked else if t in s.lists[MutexWait(m)] then 1 else 0)
      && Arrivals(r, m) == Handoffs(r, m) + s.lists[MutexWait(m)]
  {
    BootInv(table, mutexes, sems);
    assert m in Origin(r).mutexes;
    MutexHistory(r, m, t);
    MutexFifo(r, m);
    RunKeepsInv(r);
    MutexKnown(End(r), m);
    MutexKnown(Origin(r), m);
    assert Origin(r).lists[MutexWait(m)] == [];
  }

  // ----- semaphores

  ghost function Notifies(r: Run, k: int): nat {
    if r.Begin? then 0 else Notifies(r.before, k) + if Effective(r) && r.step == Notify(k) then 1 else 0
  }

  /** Permits taken at once. */
  ghost function Immediate(r: Run, k: int): nat {
    if r.Begin? then 0
    else Immediate(r.before, k) + if Effective(r) && r.step == SemWaits(k) && End(r.before).sems[k] > 0 then 1 else 0
  }

  /** The tasks that had to queue, and those that were handed a permit, in order. */
  ghost function Queuers(r: Run, k: int): seq<Task> {
    if r.Begin? then []
    else
      Queuers(r.before, k)
        + if Effective(r) && r.step == SemWaits(k) && End(r.before).sems[k] <= 0 then [End(r.before).curr] else []
  }

  ghost function Granted(r: Run, k: int): seq<Task> {
    if r.Begin? then []
    else
      var s := End(r.before);
      Granted(r.before, k)
        + if Effective(r) && r.step == Notify(k) && s.lists[SemWait(k)] != [] then [s.lists[SemWait(k)][0]] else []
  }

  lemma SemStep(s: Sys, step: Step, k: int)
    requires Inv(s) && Enabled(s, step) && k in s.sems
    ensures var s', w := Next(s, step), s.lists[SemWait(k)];
      && k in s'.sems && SemWait(k) in s'.lists
      && s'.sems[k] == s.sems[k] + (if step == Notify(k) && w == [] then 1 else 0)
           - (if step == SemWaits(k) && s.sems[k] > 0 then 1 else 0)
      && s'.lists[SemWait(k)] ==
           if step == SemWaits(k) && s.sems[k] <= 0 then w + [s.curr]
           else if step == Notify(k) && w != [] then w[1..] else w
  {
    SemAfter(s, step, k);
  }

  lemma SemAfter(s: Sys, step: Step, k: int)
    requires Inv(s) && Enabled(s, step) && k in s.sems
    ensures var s' := Next(s, step);
      && k in s'.sems && SemWait(k) in s'.lists
      && s'.sems[k] == CountAfter(s, step, k) && s'.lists[SemWait(k)] == ListAfter(s, step, SemWait(k))
  {
    StepMoves(s, step);
    SemMoved(s, step, Next(s, step), k);
  }

  lemma SemMoved(s: Sys, step: Step, s': Sys, k: int)
    requires HasLists(s) && s.curr in s.tasks && k in s.sems && ListsMoved(s, step, s') && PrimitivesMoved(s, step, s')
    ensures k in s'.sems && SemWait(k) in s'.lists
    ensures s'.sems[k] == CountAfter(s, step, k) && s'.lists[SemWait(k)] == ListAfter(s, step, SemWait(k))
  {
  }

  /** Over every run, permits are conserved: the first count and all notifications are the count and all grants. */
  lemma {:induction false} SemConservation(r: Run, k: int)
    requires Inv(Origin(r)) && k in Origin(r).sems
    ensures var o, s := Origin(r), End(r);
      && k in s.sems && SemWait(k) in s.lists
      && o.sems[k] + Notifies(r, k) == s.sems[k] + Immediate(r, k) + |Granted(r, k)|
      && (s.sems[k] > 0 ==> s.lists[SemWait(k)] == [])
  {
    RunKeepsInv(r);
    if r.After? {
      SemConservation(r.before, k);
      RunKeepsInv(r.before);
      if Enabled(End(r.before), r.step) {
        SemStep(End(r.before), r.step, k);
      }
    }
    SemKnown(End(r), k);
  }

  /** Queued waiters are granted in the order in which they came. */
  lemma {:induction false} SemFifo(r: Run, k: int)
    requires Inv(Origin(r)) && k in Origin(r).sems
    ensures var o, s := Origin(r), End(r);
      && k in s.sems && SemWait(k) in s.lists
      && o.lists[SemWait(k)] + Queuers(r, k) == Granted(r, k) + s.lists[SemWait(k)]
  {
    if r.After? {
      SemFifo(r.before, k);
      RunKeepsInv(r.before);
      var s := End(r.before);
      Queue(Origin(r).lists[SemWait(k)], Queuers(r.before, k), Granted(r.before, k), s.lists[SemWait(k)], s.curr);
      if Enabled(s, r.step) {
        SemStep(s, r.step, k);
      }
    }
  }
}
