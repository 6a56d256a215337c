/** sys_sbrk: growing a task's heap. */
module Heaps {
  import opened Machine
  import opened Seals
  import opened PageTables
  import opened UserPages
  import opened MemoryManagers
  import opened Rights

  const STACK_BOTTOM := MEM_TASK_STACK_TOP - MEM_TASK_STACK_SIZE
  const USER_FLAGS := PTE_P + PTE_U + PTE_W

  /** The part of a task that sys_sbrk uses. */
  class UserTask {
    const dir: nat
    const heapStart: Word
    var heapEnd: Word

    constructor (dir: nat, heapStart: Word, heapEnd: Word)
      ensures this.dir == dir && this.heapStart == heapStart && this.heapEnd == heapEnd
    {
      this.dir, this.heapStart, this.heapEnd := dir, heapStart, heapEnd;
    }
  }

  /** From the page of the heap's start up to the stack, exactly the pages that begin below its end are mapped. */
  ghost predicate HeapMapped(m: seq<Page>, d: nat, start: Word, end: Word) {
    && MEMORY_TASK_BASE <= start <= end <= STACK_BOTTOM
    && forall v: nat {:trigger Pte(m, d, v)} | FrameOf(start) <= v < FrameOf(STACK_BOTTOM) ::
         Present(Pte(m, d, v)) <==> v * PAGE_SIZE < end
  }

  /** The first page that begins at `a` or later. */
  function PageAbove(a: nat): nat { (a + PAGE_SIZE - 1) / PAGE_SIZE }

  /** How many pages begin at `end` or later and below `end'`. */
  function PagesBetween(end: nat, end': nat): nat
    requires end <= end'
  {
    PageAbove(end') - PageAbove(end)
  }

  lemma PagesOfGap(end: Word, start: Word, end': Word)
    requires MEMORY_TASK_BASE <= end <= start <= end' && start % PAGE_SIZE == 0 && start < end + PAGE_SIZE
    ensures FrameOf(start) == PageAbove(end) && PageCount(end' - start) == PagesBetween(end, end')
    ensures FrameOf(start) + PageCount(end' - start) <= VPN_END
  {
  }

  lemma SameLastPage(end: Word, end': Word)
    requires end <= end' && end % PAGE_SIZE != 0 && end' - end <= PAGE_SIZE - end % PAGE_SIZE
    ensures PagesBetween(end, end') == 0
  {
  }

  /** Whether the free pages suffice to grow the heap, or the very first one already fails for want of a table. */
  predicate HeapStaysMapped(m: seq<Page>, d: nat, end: Word, end': Word, free: int)
    requires end <= end'
  {
    var n := PagesBetween(end, end');
    PagesNeeded(m, d, PageAbove(end), n) <= free || (n > 0 && free == 1 && NeedsTable(m, d, PageAbove(end), 0))
  }

  lemma HeapGrown(m: seq<Page>, own: Owners, m': seq<Page>, own': Owners, kd: nat, d: nat,
                  start: Word, end: Word, end': Word, n: nat, done: nat, now: Word)
    requires HeapMapped(m, d, start, end) && IsDirectory(own, d) && d != kd && end <= end' <= STACK_BOTTOM
    requires n == PagesBetween(end, end') && done <= n
    requires Given(m, own, m', own', kd, d, PageAbove(end), USER_FLAGS, done)
    requires now == end' || (now == end && done < n)
    ensures HeapMapped(m', d, start, now) <==> (now == end' && done == n) || (now == end && done == 0)
  {
    assert Unfolded(Seal);
    assert IsRoot(own, kd, d);
    var v0 := PageAbove(end);
    forall v: nat | FrameOf(start) <= v < FrameOf(STACK_BOTTOM)
      ensures Present(Pte(m', d, v)) <==> v < v0 + done
    {
      assert Mappable(kd, d, v);
      assert v * PAGE_SIZE < end <==> v < v0;
      assert Present(Pte(m, d, v)) <==> v < v0;
    }
    if now == end' && done < n {
      assert v0 + done < FrameOf(STACK_BOTTOM);
      assert (v0 + done) * PAGE_SIZE < end';
      assert !Present(Pte(m', d, v0 + done));
    }
    if now == end && done > 0 && end < end' {
      assert Present(Pte(m', d, v0));
    }
  }

  lemma HeapAfter(m: seq<Page>, own: Owners, m': seq<Page>, own': Owners, kd: nat, d: nat,
                  start: Word, end: Word, end': Word, done: nat, free: int, res: int)
    requires HeapMapped(m, d, start, end) && IsDirectory(own, d) && d != kd && end <= end' <= STACK_BOTTOM
    requires Grown(m, own, m', own', kd, d, end, end', done, free, res)
    ensures HeapMapped(m', d, start, if res == -1 then end else end') <==> HeapStaysMapped(m, d, end, end', free)
  {
    var n := PagesBetween(end, end');
    HeapGrown(m, own, m', own', kd, d, start, end, end', n, done, if res == -1 then end else end');
    AllocationOutcome(m, d, PageAbove(end), n, done, free, if res == -1 then -1 else 0);
    if n > 0 && free == 1 && NeedsTable(m, d, PageAbove(end), 0) {
      assert PagesNeeded(m, d, PageAbove(end), 0) == 0;
    }
  }

  /** An allocation leaves the owners `kept`, but for a page that it may have lost. */
  ghost predicate KeptOrLost(kept: Owners, own: Owners) {
    own == kept || exists p: nat :: p !in kept && own == kept[p := Leaked]
  }

  /** What sys_sbrk did with the `free` pages there were: `done` of the pages between the ends were mapped. */
  ghost predicate Grown(m: seq<Page>, own: Owners, m': seq<Page>, kept: Owners, kd: nat, d: nat,
                        end: Word, end': Word, done: nat, free: int, res: int)
    requires end <= end'
  {
    && Given(m, own, m', kept, kd, d, PageAbove(end), USER_FLAGS, done)
    && StoppedFor(m, d, PageAbove(end), PagesBetween(end, end'), done, free, if res == -1 then -1 else 0)
  }

  /** The program may read and write every page its heap was given; `now` are the owners after the call. */
  lemma HeapUsable(m: seq<Page>, own: Owners, m': seq<Page>, kept: Owners, now: Owners, kd: nat, d: nat,
                   end: Word, end': Word, done: nat, free: int, res: int)
    requires MEMORY_TASK_BASE <= end <= end' && Grown(m, own, m', kept, kd, d, end, end', done, free, res)
    requires IsDirectory(own, d) && d != kd && KeptOrLost(kept, now) && TablesOk(m', now, kd)
    ensures forall v: nat {:trigger UserWrites(m', d, v)} | PageAbove(end) <= v < PageAbove(end) + done ::
      UserWrites(m', d, v)
  {
    GivenKeeps(m, own, m', kept, kd, d, PageAbove(end), USER_FLAGS, done);
    assert IsDirectory(now, d);
    forall v: nat | PageAbove(end) <= v < PageAbove(end) + done
      ensures UserWrites(m', d, v)
    {
      GivenRights(m, own, m', kept, now, kd, d, PageAbove(end), done, v);
    }
  }

  lemma NotGrown(m: seq<Page>, own: Owners, kd: nat, d: nat, end: Word, end': Word, free: int, res: int)
    requires end <= end' && PagesBetween(end, end') == 0 && free >= 0 && res != -1
    ensures Grown(m, own, m, own, kd, d, end, end', 0, free, res)
  {
    NothingGiven(m, own, kd, d, PageAbove(end), USER_FLAGS);
    assert PagesNeeded(m, d, PageAbove(end), 0) == 0;
  }

  /** The part of sys_sbrk that starts on a page boundary. */
  method GrowFrom(mm: MemoryManager, task: UserTask, start: Word, end: Word)
    returns (err: int, ghost done: nat, ghost kept: Owners)
    requires mm.Valid() && IsDirectory(mm.own, task.dir) && MEMORY_TASK_BASE <= task.heapEnd
    requires task.heapEnd <= start < task.heapEnd + PAGE_SIZE && start % PAGE_SIZE == 0 && start <= end
    requires forall u: nat | PageAbove(task.heapEnd) <= u < PageAbove(end) :: !Present(Pte(mm.phys.view, task.dir, u))
    modifies task, mm`own, mm.phys, mm.phys.pages, mm.alloc, mm.alloc.bitmap.bits
    ensures mm.Valid() && err in {0, -1}
    ensures task.heapEnd == if err == -1 then old(task.heapEnd) else end
    ensures Grown(old(mm.phys.view), old(mm.own), mm.phys.view, kept, mm.kernelDir, task.dir,
                  old(task.heapEnd), end, done, old(mm.alloc.Free()), err)
    ensures KeptOrLost(kept, mm.own)
  {
    PagesOfGap(task.heapEnd, start, end);
    err, done, kept := mm.AllocForPageDir(task.dir, start, end - start, USER_FLAGS);
    if err < 0 {
      return;
    }
    task.heapEnd := end;
  }

  /** Grows the heap of the running task; the old end, or -1. Only fresh pages are mapped, `done` of them from
      the first one after the old end on, and nothing else changes. When the pages run out it may report
      success all the same. A heap that was completely mapped stays so exactly under HeapStaysMapped. Pages on
      the way that are mapped already would stop the kernel. */
  method SysSbrk(mm: MemoryManager, task: UserTask, incr: nat) returns (res: int, ghost done: nat, ghost kept: Owners)
    requires mm.Valid() && IsDirectory(mm.own, task.dir) && task.dir == mm.cr3
    requires MEMORY_TASK_BASE <= task.heapEnd && task.heapEnd + incr < 0x1_0000_0000
    requires forall u: nat | PageAbove(task.heapEnd) <= u < PageAbove(task.heapEnd + incr) ::
      !Present(Pte(mm.phys.view, task.dir, u))
    modifies task, mm`own, mm.phys, mm.phys.pages, mm.alloc, mm.alloc.bitmap.bits
    ensures mm.Valid()
    ensures res == -1 ==> task.heapEnd == old(task.heapEnd)
    ensures res != -1 ==> res == old(task.heapEnd) && task.heapEnd == old(task.heapEnd) + incr
    ensures Grown(old(mm.phys.view), old(mm.own), mm.phys.view, kept, mm.kernelDir, task.dir,
                  old(task.heapEnd), old(task.heapEnd) + incr, done, old(mm.alloc.Free()), res)
    ensures KeptOrLost(kept, mm.own)
    ensures forall v: nat {:trigger UserWrites(mm.phys.view, task.dir, v)}
      | PageAbove(old(task.heapEnd)) <= v < PageAbove(old(task.heapEnd)) + done :: UserWrites(mm.phys.view, task.dir, v)
    ensures old(HeapMapped(mm.phys.view, task.dir, task.heapStart, task.heapEnd)) ==>
      old(task.heapEnd) + incr <= STACK_BOTTOM ==>
      (HeapMapped(mm.phys.view, task.dir, task.heapStart, task.heapEnd) <==>
        HeapStaysMapped(old(mm.phys.view), task.dir, old(task.heapEnd), old(task.heapEnd) + incr, old(mm.alloc.Free())))
  {
    ghost var m, own, free := mm.phys.view, mm.own, mm.alloc.Free();
    var preHeapEnd := task.heapEnd;
    res, done, kept := Grow(mm, task, incr);
    HeapUsable(m, own, mm.phys.view, kept, mm.own, mm.kernelDir, task.dir, preHeapEnd, preHeapEnd + incr, done,
      free, res);
    if HeapMapped(m, task.dir, task.heapStart, preHeapEnd) && preHeapEnd + incr <= STACK_BOTTOM {
      HeapAfter(m, own, mm.phys.view, kept, mm.kernelDir, task.dir, task.heapStart, preHeapEnd, preHeapEnd + incr,
        done, free, res);
    }
  }

  method Grow(mm: MemoryManager, task: UserTask, incr: nat) returns (res: int, ghost done: nat, ghost kept: Owners)
    requires mm.Valid() && IsDirectory(mm.own, task.dir) && task.dir == mm.cr3
    requires MEMORY_TASK_BASE <= task.heapEnd && task.heapEnd + incr < 0x1_0000_0000
    requires forall u: nat | PageAbove(task.heapEnd) <= u < PageAbove(task.heapEnd + incr) ::
      !Present(Pte(mm.phys.view, task.dir, u))
    modifies task, mm`own, mm.phys, mm.phys.pages, mm.alloc, mm.alloc.bitmap.bits
    ensures mm.Valid()
    ensures if res == -1 then task.heapEnd == old(task.heapEnd)
            else res == old(task.heapEnd) && task.heapEnd == old(task.heapEnd) + incr
    ensures Grown(old(mm.phys.view), old(mm.own), mm.phys.view, kept, mm.kernelDir, task.dir,
                  old(task.heapEnd), old(task.heapEnd) + incr, done, old(mm.alloc.Free()), res)
    ensures KeptOrLost(kept, mm.own)
  {
    var preHeapEnd := task.heapEnd;
    done, kept := 0, mm.own;
    if incr == 0 {
      NotGrown(mm.phys.view, mm.own, mm.kernelDir, task.dir, preHeapEnd, preHeapEnd, mm.alloc.Free(), preHeapEnd);
      return preHeapEnd, 0, kept;
    }
    var start := task.heapEnd;
    var end := start + incr;
    var offset := start % PAGE_SIZE;
    if offset != 0 {
      if offset + incr <= PAGE_SIZE {
        SameLastPage(preHeapEnd, end);
        NotGrown(mm.phys.view, mm.own, mm.kernelDir, task.dir, preHeapEnd, end, mm.alloc.Free(), preHeapEnd);
        task.heapEnd := end;
        return preHeapEnd, 0, kept;
      }
      start := start + (PAGE_SIZE - offset);
    }
    var err;
    err, done, kept := GrowFrom(mm, task, start, end);
    res := if err < 0 then -1 else preHeapEnd;
  }
}
