/** What holds over every run of the scheduler. */
module SchedulerRuns {
  import opened Lists
  import opened Seals
  import opened Widths
  import opened Scheduling
  import opened StepEffects

  /** Any steps in any order; one that cannot be taken changes nothing. */
  datatype Run = Begin(s: Sys) | After(before: Run, step: Step)

  function Origin(r: Run): Sys {
    if r.Begin? then r.s else Origin(r.before)
  }

  /** The steps that were asked for, in order. */
  function Steps(r: Run): seq<Step> {
    if r.Begin? then [] else Steps(r.before) + [r.step]
  }

  ghost predicate Effective(r: Run) {
    r.After? && Inv(End(r.before)) && Enabled(End(r.before), r.step)
  }

  ghost function End(r: Run): Sys {
    match r
    case Begin(s) => s
    case After(b, step) => if Inv(End(b)) && Enabled(End(b), step) then Next(End(b), step) else End(b)
  }

  /** In every reachable state each list is well formed, no task hangs twice, the idle task in none, and the
      task that runs is the head of the ready list. */
  lemma {:induction false} RunKeepsInv(r: Run)
    requires Inv(Origin(r))
    ensures Inv(End(r))
  {
    if r.After? {
      RunKeepsInv(r.before);
      if Enabled(End(r.before), r.step) {
        StepKeepsInv(End(r.before), r.step);
      }
    }
  }

  lemma OnePlaceEach(r: Run, l: ListId, i: int, l': ListId, j: int)
    requires Inv(Origin(r))
    requires l in End(r).lists && 0 <= i < |End(r).lists[l]|
    requires l' in End(r).lists && 0 <= j < |End(r).lists[l']| && End(r).lists[l][i] == End(r).lists[l'][j]
    ensures l == l' && i == j && End(r).lists[l][i] != IDLE
  {
    assert Unsealed(Seal);
    RunKeepsInv(r);
    var s := End(r);
    var t := s.lists[l][i];
    assert t in s.lists[l] && t in s.lists[l'];
    assert AllMayHang(s, s.lists[l]);
    assert l != l' ==> Disjoint(s.lists[l], s.lists[l']);
  }

  /** The ready and the sleep list, and one for each mutex and semaphore. */
  function ListsFor(mutexes: set<int>, sems: set<int>): set<ListId> {
    {Ready, Sleep} + (set m | m in mutexes :: MutexWait(m)) + (set k | k in sems :: SemWait(k))
  }

  /** The state that boot leaves: the first task runs, locks are free, semaphores have their first counts. */
  function Boot(table: set<Task>, mutexes: set<int>, sems: map<int, int>): Sys {
    Sys(map l | l in ListsFor(mutexes, sems.Keys) :: if l == Ready then [FIRST_TASK] else [],
        map t | t in table + {IDLE, FIRST_TASK} ::
          Info(if t == FIRST_TASK then ReadyToRun else Created,
               if t in {IDLE, FIRST_TASK} then TASK_TIME_SLICE_DEFAULT else 0, 0, NOBODY),
        map m | m in mutexes :: Mutex(0, NOBODY),
        sems,
        FIRST_TASK)
  }

  lemma BootInv(table: set<Task>, mutexes: set<int>, sems: map<int, int>)
    requires NOBODY !in table && forall k | k in sems :: sems[k] >= 0
    ensures Inv(Boot(table, mutexes, sems))
  {
    assert Unsealed(Seal);
    var s := Boot(table, mutexes, sems);
    assert forall l | l in s.lists && l != Ready :: s.lists[l] == [];
    forall k | k in s.sems
      ensures SemOk(s, k)
    {
      assert SemWait(k) in s.lists;
    }
    forall m | m in s.mutexes
      ensures MutexOk(s, m)
    {
      assert MutexWait(m) in s.lists;
    }
  }

  // ----- bounded waiting

  function SliceSum(r: seq<Task>, tasks: map<Task, Info>): int {
    if |r| == 0 then 0
    else SliceSum(r[1..], tasks) + if r[0] in tasks then tasks[r[0]].slice else 0
  }

  lemma {:induction false} SliceSumBounds(r: seq<Task>, tasks: map<Task, Info>)
    requires forall t | t in r :: t in tasks && 1 <= tasks[t].slice <= TASK_TIME_SLICE_DEFAULT
    ensures |r| <= SliceSum(r, tasks) <= TASK_TIME_SLICE_DEFAULT * |r|
  {
    if |r| > 0 {
      var h := r[0];
      assert h in r;
      assert forall t | t in r[1..] :: t in r;
      SliceSumBounds(r[1..], tasks);
    }
  }

  lemma {:induction false} SliceSumSame(r: seq<Task>, tasks: map<Task, Info>, tasks': map<Task, Info>)
    requires forall t | t in r :: t in tasks && t in tasks' && tasks'[t].slice == tasks[t].slice
    ensures SliceSum(r, tasks') == SliceSum(r, tasks)
  {
    if |r| > 0 {
      var h := r[0];
      assert h in r;
      assert forall t | t in r[1..] :: t in r;
      SliceSumSame(r[1..], tasks, tasks');
    }
  }

  /** How a step treats the ready list: the head may go (`gone` is 1) and others may come at the end; the
      head uses up `used` ticks of its slice, nobody else any. */
  predicate Advances(s: Sys, s': Sys, gone: int, used: int)
    requires Ready in s.lists && Ready in s'.lists
  {
    var r, r' := s.lists[Ready], s'.lists[Ready];
    && gone in {0, 1} && gone <= |r| && r[gone..] <= r'
    && (forall t | t in r[gone..] :: t in s.tasks && t in s'.tasks)
    && (forall i | 1 <= i < |r| :: r[i] in s.tasks && r[i] in s'.tasks && s'.tasks[r[i]].slice == s.tasks[r[i]].slice)
    && (r != [] ==> r[0] in s.tasks && r[0] in s'.tasks)
    && (r != [] && gone == 0 ==> s'.tasks[r[0]].slice == s.tasks[r[0]].slice - used)
    && (r != [] && gone == 1 ==> used <= s.tasks[r[0]].slice)
  }

  function UsedBy(step: Step): int { if step.Tick? then 1 else 0 }

  /** Whether the head leaves the ready list. */
  ghost function Gone(s: Sys, step: Step): int
    requires Inv(s)
  {
    if Leaves(s, step) then 1 else 0
  }

  lemma StepAdvances(s: Sys, step: Step)
    requires Inv(s) && Enabled(s, step)
    ensures Ready in Next(s, step).lists && Advances(s, Next(s, step), Gone(s, step), UsedBy(step))
  {
    StepMoves(s, step);
    ReadyKnown(s);
    var r, s' := s.lists[Ready], Next(s, step);
    assert s'.lists[Ready] == ListAfter(s, step, Ready);
    forall i | 0 <= i < |r|
      ensures r[i] in s.tasks && r[i] in s'.tasks
      ensures s'.tasks[r[i]].slice == s.tasks[r[i]].slice
        || (i == 0 && step.Tick? && s'.tasks[r[i]].slice == SliceAfter(s, Tick, r[0]))
    {
      ReadySlice(s, step, i);
      assert s'.tasks[r[i]].slice == SliceAfter(s, step, r[i]);
    }
  }

  /** Of the ready tasks only the one that runs uses its slice. */
  lemma ReadySlice(s: Sys, step: Step, i: int)
    requires Inv(s) && Enabled(s, step) && 0 <= i < |s.lists[Ready]|
    ensures s.lists[Ready][i] in s.tasks
    ensures SliceAfter(s, step, s.lists[Ready][i]) == s.tasks[s.lists[Ready][i]].slice || (i == 0 && step.Tick?)
  {
    assert Unsealed(Seal);
    ReadyKnown(s);
    var r := s.lists[Ready];
    assert r[i] in r && AllMayHang(s, r);
    assert i > 0 ==> r[i] == r[1..][i - 1] && r[i] in r[1..];
  }

  function Ticks(r: Run): nat {
    if r.Begin? then 0 else Ticks(r.before) + UsedBy(r.step)
  }

  /** Whether the task ran at some point of the run. */
  ghost predicate HasRun(r: Run, t: Task) {
    End(r).curr == t || (r.After? && HasRun(r.before, t))
  }

  /** Task `t` is in the ready list at position `i`; the ticks that those before it may still use are at most `w`. */
  predicate WaitsAt(s: Sys, t: Task, i: int, w: int) {
    && Ready in s.lists && 0 <= i < |s.lists[Ready]| && s.lists[Ready][i] == t
    && SliceSum(s.lists[Ready][..i], s.tasks) <= w
  }

  /** While a task waits in the ready list, nothing that any step does adds to what it has to wait for, and
      every tick takes one away. */
  lemma StepBringsNearer(s: Sys, step: Step, t: Task, i: int, w: int) returns (i': int)
    requires Inv(s) && Enabled(s, step) && WaitsAt(s, t, i, w) && i > 0
    ensures i' <= i && WaitsAt(Next(s, step), t, i', w - UsedBy(step))
  {
    StepAdvances(s, step);
    ReadyKnown(s);
    var s', gone := Next(s, step), Gone(s, step);
    i' := i - gone;
    AheadAfter(s, s', gone, UsedBy(step), i);
  }

  /** The tasks ahead of position `i` that are still ahead, and what they may still use. */
  lemma AheadAfter(s: Sys, s': Sys, gone: int, used: int, i: int)
    requires Ready in s.lists && Ready in s'.lists && Advances(s, s', gone, used) && 0 < i < |s.lists[Ready]|
    ensures i - gone < |s'.lists[Ready]| && s'.lists[Ready][i - gone] == s.lists[Ready][i]
    ensures SliceSum(s'.lists[Ready][..i - gone], s'.tasks) <= SliceSum(s.lists[Ready][..i], s.tasks) - used
  {
    var r, r', i' := s.lists[Ready], s'.lists[Ready], i - gone;
    assert r[gone..][i'] == r[i] && r'[i'] == r[gone..][i'];
    var a := r[1..i];
    assert r[..i] == [r[0]] + a && r[..i][1..] == a;
    forall u | u in a
      ensures u in s.tasks && u in s'.tasks && s'.tasks[u].slice == s.tasks[u].slice
    {
      var j :| 0 <= j < |a| && a[j] == u;
      assert r[j + 1] == u;
    }
    SliceSumSame(a, s.tasks, s'.tasks);
    if gone == 1 {
      assert r'[..i'] == r[1..][..i'] == a;
    } else {
      assert r'[..i'] == r[..i];
    }
  }

  lemma {:induction false} NotRunYet(r: Run, t: Task, k: int) returns (i: int)
    requires Inv(Origin(r)) && t != IDLE
    requires 0 <= k < |Origin(r).lists[Ready]| && Origin(r).lists[Ready][k] == t && !HasRun(r, t)
    ensures 0 < i <= k && WaitsAt(End(r), t, i, TASK_TIME_SLICE_DEFAULT * k - Ticks(r))
  {
    RunKeepsInv(r);
    if r.Begin? {
      i := k;
      ReadyKnown(r.s);
      SliceSumBounds(r.s.lists[Ready][..k], r.s.tasks);
    } else {
      i := NotRunYet(r.before, t, k);
      RunKeepsInv(r.before);
      if Enabled(End(r.before), r.step) {
        i := StepBringsNearer(End(r.before), r.step, t, i, TASK_TIME_SLICE_DEFAULT * k - Ticks(r.before));
      }
    }
  }

  /** Bounded waiting: a ready task with `k` tasks ahead of it has run after `k` full time slices of ticks,
      whatever the others do. */
  lemma BoundedWaiting(r: Run, t: Task, k: int)
    requires Inv(Origin(r)) && 0 <= k < |Origin(r).lists[Ready]| && Origin(r).lists[Ready][k] == t
    requires Ticks(r) >= TASK_TIME_SLICE_DEFAULT * k
    ensures HasRun(r, t)
  {
    ReadyKnown(Origin(r));
    assert t in Origin(r).lists[Ready];
    if !HasRun(r, t) {
      var i := NotRunYet(r, t, k);
      RunKeepsInv(r);
      ReadyKnown(End(r));
      SliceSumBounds(End(r).lists[Ready][..i], End(r).tasks);
    }
  }

  /** Whoever comes to the ready list runs after full slices for those that are ahead of it: a task that yielded
      or used up its slice, that was due, was granted a permit, was handed a lock, awaited a child that exits,
      or was started. */
  lemma JoinedRuns(s: Sys, step: Step, j: nat, r: Run)
    requires Inv(s) && Enabled(s, step) && j < |Joins(s, step)| && Origin(r) == Next(s, step)
    requires Ticks(r) >= TASK_TIME_SLICE_DEFAULT * (|s.lists[Ready]| - Gone(s, step) + j)
    ensures HasRun(r, Joins(s, step)[j])
  {
    var k := |s.lists[Ready]| - Gone(s, step) + j;
    JoinsAt(s, step, j, k);
    BoundedWaiting(r, Joins(s, step)[j], k);
  }

  lemma JoinsAt(s: Sys, step: Step, j: nat, k: int)
    requires Inv(s) && Enabled(s, step) && j < |Joins(s, step)| && k == |s.lists[Ready]| - Gone(s, step) + j
    ensures var s' := Next(s, step); Inv(s') && 0 <= k < |s'.lists[Ready]| && s'.lists[Ready][k] == Joins(s, step)[j]
  {
    StepKeepsInv(s, step);
    ReadyMoved(s, step);
    PlaceInReady(s, step, j, k);
  }

  lemma ReadyMoved(s: Sys, step: Step)
    requires Inv(s) && Enabled(s, step)
    ensures Ready in Next(s, step).lists && Next(s, step).lists[Ready] == ListAfter(s, step, Ready)
  {
    StepMoves(s, step);
  }

  lemma PlaceInReady(s: Sys, step: Step, j: nat, k: int)
    requires Inv(s) && j < |Joins(s, step)| && k == |s.lists[Ready]| - Gone(s, step) + j
    ensures var r' := ListAfter(s, step, Ready); 0 <= k < |r'| && r'[k] == Joins(s, step)[j]
  {
    ReadyKnown(s);
  }

  /** The first waiter of a semaphore takes the permit of a notification, is the last of the ready tasks and
      runs after a slice for each of the others. */
  lemma GrantedRuns(s: Sys, k: int, r: Run)
    requires Inv(s) && k in s.sems && s.lists[SemWait(k)] != [] && Origin(r) == Next(s, Notify(k))
    ensures var w, s' := s.lists[SemWait(k)][0], Next(s, Notify(k));
      && Ready in s'.lists && SemWait(k) in s'.lists && k in s'.sems && w in s'.tasks
      && s'.lists[Ready] == s.lists[Ready] + [w] && s'.lists[SemWait(k)] == s.lists[SemWait(k)][1..]
      && s'.sems[k] == s.sems[k] == 0
      && s'.tasks[w].state == (if s.curr == IDLE then Running else ReadyToRun)
      && (s.curr == IDLE ==> s'.curr == w)
    ensures Ticks(r) >= TASK_TIME_SLICE_DEFAULT * |s.lists[Ready]| ==> HasRun(r, s.lists[SemWait(k)][0])
  {
    SemKnown(s, k);
    StepMoves(s, Notify(k));
    FirstWaiter(s, SemWait(k));
    ReadyKnown(s);
    WaitersNotRunning(s, SemWait(k));
    if Ticks(r) >= TASK_TIME_SLICE_DEFAULT * |s.lists[Ready]| {
      JoinedRuns(s, Notify(k), 0, r);
    }
  }

  /** The first waiter of a mutex that is given up owns it, once, is the last of the ready tasks and runs after
      a slice for each of the others. */
  lemma HandedRuns(s: Sys, m: int, r: Run)
    requires Inv(s) && s.curr != IDLE && m in s.mutexes && Owns(s, m, s.curr) && s.mutexes[m].locked == 1
    requires s.lists[MutexWait(m)] != [] && Origin(r) == Next(s, Unlock(m))
    ensures var w, s' := s.lists[MutexWait(m)][0], Next(s, Unlock(m));
      && Ready in s'.lists && MutexWait(m) in s'.lists && m in s'.mutexes && w in s'.tasks
      && s'.lists[Ready] == s.lists[Ready] + [w] && s'.lists[MutexWait(m)] == s.lists[MutexWait(m)][1..]
      && s'.mutexes[m] == Mutex(1, w) && s'.tasks[w].state == ReadyToRun && s'.curr == s.curr
    ensures Ticks(r) >= TASK_TIME_SLICE_DEFAULT * |s.lists[Ready]| ==> HasRun(r, s.lists[MutexWait(m)][0])
  {
    StepMoves(s, Unlock(m));
    FirstWaiter(s, MutexWait(m));
    ReadyKnown(s);
    WaitersNotRunning(s, MutexWait(m));
    if Ticks(r) >= TASK_TIME_SLICE_DEFAULT * |s.lists[Ready]| {
      JoinedRuns(s, Unlock(m), 0, r);
    }
  }

  lemma WaitersNotRunning(s: Sys, l: ListId)
    requires Inv(s) && l in s.lists && l != Ready && s.lists[l] != []
    ensures s.lists[l][0] !in s.lists[Ready] && s.lists[l][0] != IDLE
  {
    assert Unsealed(Seal);
    assert s.lists[l][0] in s.lists[l] && AllMayHang(s, s.lists[l]);
    assert Disjoint(s.lists[l], s.lists[Ready]);
  }
}
