/** What holds over every run of the memory manager. */
module MemoryRuns {
  import opened Machine
  import opened Seals
  import opened PageTables
  import opened PageAllocators
  import opened UserPages
  import opened AddressSpaces
  import opened MemoryManagers
  import opened Heaps
  import opened KernelTables
  import opened Bitmaps

  /** The uses a page can be put to. */
  datatype Role = IsDir | IsTable(dir: nat, index: nat) | IsUserPage(dir: nat, vpn: nat) | IsKernelPage

  /** Page `f` is used in this role: read off the directories alone, without the owner map. */
  ghost predicate Plays(m: seq<Page>, dirs: set<nat>, kernelPages: set<nat>, f: nat, role: Role) {
    match role
    case IsDir => f in dirs
    case IsTable(d, i) => d in dirs && USER_PDE <= i < PDE_CNT && Present(Entry(m, d, i))
      && FrameOf(Entry(m, d, i)) == f
    case IsUserPage(d, v) => d in dirs && USER_PDE * PTE_CNT <= v < VPN_END && Present(Pte(m, d, v))
      && FrameOf(Pte(m, d, v)) == f
    case IsKernelPage => f in kernelPages
  }

  ghost function DirectoriesOf(own: Owners): set<nat> {
    set f: nat | f in own && own[f].Directory?
  }

  ghost function KernelPagesOf(own: Owners): set<nat> {
    set f: nat | f in own && own[f].Kernel?
  }

  /** Every page in use has one use: directories, tables, user pages and kernel pages never overlap, no
      two address spaces share a user page, and the bitmap marks each of them. */
  lemma OneUsePerPage(m: seq<Page>, own: Owners, kd: nat, f: nat, role: Role, other: Role)
    requires Inv(m, own, kd)
    requires Plays(m, DirectoriesOf(own), KernelPagesOf(own), f, role)
    requires Plays(m, DirectoriesOf(own), KernelPagesOf(own), f, other)
    ensures f in own && role == other
  {
    HasOwner(m, own, kd, f, role);
    HasOwner(m, own, kd, f, other);
  }

  lemma HasOwner(m: seq<Page>, own: Owners, kd: nat, f: nat, role: Role)
    requires Inv(m, own, kd) && Plays(m, DirectoriesOf(own), KernelPagesOf(own), f, role)
    ensures f in own
    ensures own[f] == match role
      case IsDir => Directory
      case IsTable(d, i) => Table(d, i)
      case IsUserPage(d, v) => Data(d, v)
      case IsKernelPage => Kernel
  {
    assert Unfolded(Seal);
    match role
    case IsTable(d, i) => assert IsRoot(own, kd, d);
    case IsUserPage(d, v) => assert IsDirectory(own, d);
    case _ =>
  }

  /** Conversely, a marked page is in one of these uses, or is a table of the kernel, or was lost. */
  lemma EveryPageUsed(m: seq<Page>, own: Owners, kd: nat, f: nat)
    requires Inv(m, own, kd) && f in own && own[f] != Leaked && !(own[f].Table? && own[f].dir == kd)
    ensures exists role :: Plays(m, DirectoriesOf(own), KernelPagesOf(own), f, role)
  {
    assert Unfolded(Seal);
    match own[f]
    case Directory => assert Plays(m, DirectoriesOf(own), KernelPagesOf(own), f, IsDir);
    case Table(d, i) =>
      assert TableOk(m, own, kd, f);
      assert Plays(m, DirectoriesOf(own), KernelPagesOf(own), f, IsTable(d, i));
    case Data(d, v) =>
      assert DataPageOk(m, own, kd, f);
      assert Plays(m, DirectoriesOf(own), KernelPagesOf(own), f, IsUserPage(d, v));
    case Kernel => assert Plays(m, DirectoriesOf(own), KernelPagesOf(own), f, IsKernelPage);
  }

  // ----- runs

  datatype Operation =
    | Create
    | Allocate(d: nat, vaddr: Word, size: Word, perm: nat)
    | CopyActive
    | Destroy(d: nat)
    | TakePage
    | GiveBack(f: nat)
    | SwitchTo(d: nat)
    | Sbrk(heapEnd: Word, incr: nat)

  /** The kernel's bookkeeping: which directories are live and which pages it holds itself. */
  ghost predicate Tracks(own: Owners, dirs: set<nat>, held: set<nat>) {
    dirs == DirectoriesOf(own) && held == KernelPagesOf(own)
  }

  /** What there is to see between two operations. */
  datatype State = State(m: seq<Page>, own: Owners, dirs: set<nat>, held: set<nat>, active: nat, free: int)

  ghost function StateOf(mm: MemoryManager, dirs: set<nat>, held: set<nat>): State
    reads mm, mm.phys, mm.alloc
  {
    State(mm.phys.view, mm.own, dirs, held, mm.cr3, mm.alloc.Free())
  }

  /** What an operation does. */
  ghost predicate Did(kd: nat, s: State, op: Operation, s': State) {
    && s'.active == (if op.SwitchTo? && op.d in s.dirs then op.d else s.active)
    && match op
       case Create => Created(kd, s, s')
       case Allocate(d, vaddr, size, perm) => Allocated(kd, s, d, Request(vaddr, size, perm), s')
       case CopyActive => Copied(kd, s, s')
       case Destroy(d) => s'.m == s.m && s'.held == s.held && s'.dirs == s.dirs - {d}
         && s'.own == if d in s.dirs then Without(s.own, d) else s.own
       case TakePage => Taken(s, s')
       case GiveBack(f) => s'.m == s.m && s'.dirs == s.dirs && s'.held == s.held - {f}
         && s'.own == if f in s.held then s.own - {f} else s.own
       case SwitchTo(_) => s' == s.(active := s'.active)
       case Sbrk(end, incr) => HeapGrew(kd, s, end, incr, s')
  }

  /** A new empty address space, if there is a page. */
  ghost predicate Created(kd: nat, s: State, s': State) {
    && s'.held == s.held && (s.free == 0 ==> s' == s)
    && (s.free != 0 ==> exists d: nat ::
          && d !in s.own && s'.own == s.own[d := Directory] && s'.dirs == s.dirs + {d}
          && forall v: nat {:trigger Pte(s'.m, d, v)} | Mappable(kd, d, v) :: !Present(Pte(s'.m, d, v)))
  }

  /** One more page for the kernel, if there is one. */
  ghost predicate Taken(s: State, s': State) {
    && s'.m == s.m && s'.dirs == s.dirs && (s.free == 0 ==> s' == s)
    && (s.free != 0 ==> exists f: nat :: f !in s.own && s'.own == s.own[f := Kernel] && s'.held == s.held + {f})
  }

  /** A copy of the active address space, if there are pages enough for all of it. */
  ghost predicate Copied(kd: nat, s: State, s': State) {
    && s'.held == s.held
    && if s.active in s.dirs && 1 + PagesToCopy(s.m, s.active, VPN_END) <= s.free then
         exists to: nat :: s'.dirs == s.dirs + {to} && IsCopyOf(s.m, s.own, s'.m, s'.own, kd, s.active, to)
       else
         s'.dirs == s.dirs && OldPagesKept(s.m, s.own, s'.m) && KeptOrLost(s.own, s'.own)
  }

  ghost predicate Allocated(kd: nat, s: State, d: nat, r: Request, s': State) {
    && s'.dirs == s.dirs && s'.held == s.held
    && if d in s.dirs then Answered(kd, s.m, s.own, s.free, d, r, s'.m, s'.own) else s' == s
  }

  /** Pages for a range where none is mapped, as far as they go. */
  ghost predicate Answered(kd: nat, m: seq<Page>, own: Owners, free: int, d: nat, r: Request, m': seq<Page>,
      own': Owners)
  {
    if Sensible(r) && Unmapped(m, d, FrameOf(r.vaddr), PageCount(r.size)) then
      exists kept: Owners, done: nat, res: int {:trigger IsAnswer(kd, m, own, free, d, r, m', kept, done, res)} ::
        IsAnswer(kd, m, own, free, d, r, m', kept, done, res) && KeptOrLost(kept, own')
    else
      m' == m && own' == own
  }

  ghost predicate IsAnswer(kd: nat, m: seq<Page>, own: Owners, free: int, d: nat, r: Request, m': seq<Page>,
      kept: Owners, done: nat, res: int)
    requires Sensible(r)
  {
    && Given(m, own, m', kept, kd, d, FrameOf(r.vaddr), r.perm, done)
    && StoppedFor(m, d, FrameOf(r.vaddr), PageCount(r.size), done, free, res)
  }

  ghost predicate HeapGrew(kd: nat, s: State, end: Word, incr: nat, s': State) {
    && s'.dirs == s.dirs && s'.held == s.held
    && if s.active in s.dirs && HeapFree(s.m, s.active, end, incr) then
         exists kept: Owners, done: nat, res: int {:trigger IsGrowth(kd, s, end, incr, s', kept, done, res)} ::
           IsGrowth(kd, s, end, incr, s', kept, done, res) && KeptOrLost(kept, s'.own)
       else
         s' == s
  }

  ghost predicate IsGrowth(kd: nat, s: State, end: Word, incr: nat, s': State, kept: Owners, done: nat, res: int)
    requires end + incr < 0x1_0000_0000
  {
    Grown(s.m, s.own, s'.m, kept, kd, s.active, end, end + incr, done, s.free, res)
  }

  ghost predicate HeapFree(m: seq<Page>, d: nat, end: Word, incr: nat) {
    && MEMORY_TASK_BASE <= end && end + incr < 0x1_0000_0000
    && Unmapped(m, d, PageAbove(end), PagesBetween(end, end + incr))
  }

  ghost predicate Unmapped(m: seq<Page>, d: nat, v0: nat, n: nat) {
    forall u: nat {:trigger Pte(m, d, u)} | v0 <= u < v0 + n :: !Present(Pte(m, d, u))
  }

  lemma GrowthTracked(own: Owners, own': Owners, dirs: set<nat>, held: set<nat>, d: nat)
    requires Tracks(own, dirs, held) && GrewBy(own, own', d) && d in own' && own'[d] == Directory
    ensures Tracks(own', dirs + {d}, held)
    ensures forall p: nat | p !in own' :: Tracks(own'[p := Leaked], dirs + {d}, held)
  {
    forall f: nat
      ensures f in own' && own'[f].Directory? <==> f in dirs + {d}
      ensures f in own' && own'[f].Kernel? <==> f in held
    {
      assert f in own ==> f in own' && own'[f] == own[f];
      assert f in own' && f !in own ==> BelongsTo(own', f, d);
    }
  }

  lemma DestructionTracked(m: seq<Page>, own: Owners, kd: nat, dirs: set<nat>, held: set<nat>, d: nat)
    requires Tracks(own, dirs, held) && IsDirectory(own, d)
    ensures Tracks(Without(own, d), dirs - {d}, held)
  {
    forall f: nat
      ensures f in Without(own, d) && own[f].Directory? <==> f in dirs - {d}
      ensures f in Without(own, d) && own[f].Kernel? <==> f in held
    {
    }
  }

  /** Whether no page of a user range is mapped. */
  method RangeFree(mm: MemoryManager, d: nat, v0: nat, n: nat) returns (b: bool)
    requires mm.Valid() && IsDirectory(mm.own, d) && USER_PDE * PTE_CNT <= v0 && v0 + n <= VPN_END
    ensures b <==> Unmapped(mm.phys.view, d, v0, n)
  {
    for i := 0 to n
      invariant forall u: nat | v0 <= u < v0 + i :: !Present(Pte(mm.phys.view, d, u))
    {
      var e := mm.Translate(d, v0 + i, (v0 + i) * PAGE_SIZE);
      if Present(e) {
        return false;
      }
    }
    return true;
  }

  /** One operation; one that its caller may not ask for is skipped. */
  method Perform(mm: MemoryManager, op: Operation, dirs: set<nat>, held: set<nat>)
    returns (dirs': set<nat>, held': set<nat>)
    requires mm.Valid() && Tracks(mm.own, dirs, held)
    modifies mm`own, mm`cr3, mm.phys, mm.phys.pages, mm.alloc, mm.alloc.bitmap.bits
    ensures mm.Valid() && Tracks(mm.own, dirs', held')
    ensures Did(mm.kernelDir, old(StateOf(mm, dirs, held)), op, StateOf(mm, dirs', held'))
  {
    dirs', held' := dirs, held;
    match op
    case Create =>
      dirs' := PerformCreate(mm, dirs, held);
    case Allocate(d, vaddr, size, perm) =>
      PerformAllocate(mm, d, Request(vaddr, size, perm), dirs, held);
    case CopyActive =>
      dirs' := PerformCopy(mm, dirs, held);
    case Destroy(d) =>
      dirs' := PerformDestroy(mm, d, dirs, held);
    case TakePage =>
      held' := PerformTake(mm, dirs, held);
    case GiveBack(f) =>
      held' := PerformGiveBack(mm, f, dirs, held);
    case SwitchTo(d) =>
      PerformSwitch(mm, d, dirs);
    case Sbrk(heapEnd, incr) =>
      PerformSbrk(mm, heapEnd, incr, dirs, held);
  }

  method PerformCreate(mm: MemoryManager, dirs: set<nat>, ghost held: set<nat>) returns (dirs': set<nat>)
    requires mm.Valid() && Tracks(mm.own, dirs, held)
    modifies mm`own, mm.phys, mm.phys.pages, mm.alloc, mm.alloc.bitmap.bits
    ensures mm.Valid() && Tracks(mm.own, dirs', held)
    ensures mm.cr3 == old(mm.cr3) && Created(mm.kernelDir, old(StateOf(mm, dirs, held)), StateOf(mm, dirs', held))
  {
    ghost var own0 := mm.own;
    dirs' := dirs;
    var d := mm.CreateUvm();
    if d != 0 {
      dirs' := dirs + {d};
      NewOwnerTracked(own0, mm.own, dirs, held, d, Directory);
    }
  }

  method PerformAllocate(mm: MemoryManager, d: nat, r: Request, dirs: set<nat>, ghost held: set<nat>)
    requires mm.Valid() && Tracks(mm.own, dirs, held)
    modifies mm`own, mm.phys, mm.phys.pages, mm.alloc, mm.alloc.bitmap.bits
    ensures mm.Valid() && Tracks(mm.own, dirs, held)
    ensures Allocated(mm.kernelDir, old(StateOf(mm, dirs, held)), d, r, StateOf(mm, dirs, held))
  {
    if d in dirs {
      ghost var m1, own1 := mm.phys.view, mm.own;
      SameOwners(m1, own1, d);
      var _, kept := Answer(mm, d, r, m1, own1);
      assert d in own1 && d in kept;
      GrowthTracked(own1, kept, dirs, held, d);
      assert dirs + {d} == dirs;
    }
  }

  method PerformDestroy(mm: MemoryManager, d: nat, dirs: set<nat>, ghost held: set<nat>) returns (dirs': set<nat>)
    requires mm.Valid() && Tracks(mm.own, dirs, held)
    modifies mm`own, mm.alloc, mm.alloc.bitmap.bits
    ensures mm.Valid() && Tracks(mm.own, dirs', held)
    ensures mm.own == (if d in dirs then Without(old(mm.own), d) else old(mm.own)) && dirs' == dirs - {d}
  {
    dirs' := dirs - {d};
    if d in dirs {
      DestructionTracked(mm.phys.view, mm.own, mm.kernelDir, dirs, held, d);
      mm.DestroyUvm(d);
    }
  }

  method PerformTake(mm: MemoryManager, ghost dirs: set<nat>, held: set<nat>) returns (held': set<nat>)
    requires mm.Valid() && Tracks(mm.own, dirs, held)
    modifies mm`own, mm.alloc, mm.alloc.bitmap.bits
    ensures mm.Valid() && Tracks(mm.own, dirs, held')
    ensures Taken(old(StateOf(mm, dirs, held)), StateOf(mm, dirs, held'))
  {
    ghost var own0 := mm.own;
    held' := held;
    var page := mm.AllocPage();
    if page != 0 {
      held' := held + {FrameOf(page)};
      NewOwnerTracked(own0, mm.own, dirs, held, FrameOf(page), Kernel);
    }
  }

  method PerformGiveBack(mm: MemoryManager, f: nat, ghost dirs: set<nat>, held: set<nat>) returns (held': set<nat>)
    requires mm.Valid() && Tracks(mm.own, dirs, held)
    modifies mm`own, mm.alloc, mm.alloc.bitmap.bits
    ensures mm.Valid() && Tracks(mm.own, dirs, held')
    ensures mm.own == (if f in held then old(mm.own) - {f} else old(mm.own)) && held' == held - {f}
  {
    held' := held - {f};
    if f in held {
      mm.FreeKernelPage(f);
      assert DirectoriesOf(mm.own) == dirs && KernelPagesOf(mm.own) == held';
    }
  }

  method PerformSwitch(mm: MemoryManager, d: nat, dirs: set<nat>)
    requires mm.Valid()
    modifies mm`cr3
    ensures mm.Valid()
    ensures mm.cr3 == if d in dirs then d else old(mm.cr3)
  {
    if d in dirs {
      mm.cr3 := d;
    }
  }

  /** A heap may end anywhere in the user half. */
  method PerformSbrk(mm: MemoryManager, heapEnd: Word, incr: nat, dirs: set<nat>, ghost held: set<nat>)
    requires mm.Valid() && Tracks(mm.own, dirs, held)
    modifies mm`own, mm.phys, mm.phys.pages, mm.alloc, mm.alloc.bitmap.bits
    ensures mm.Valid() && Tracks(mm.own, dirs, held)
    ensures HeapGrew(mm.kernelDir, old(StateOf(mm, dirs, held)), heapEnd, incr, StateOf(mm, dirs, held))
  {
    if mm.cr3 in dirs && MEMORY_TASK_BASE <= heapEnd && heapEnd + incr < 0x1_0000_0000 {
      var free := RangeFree(mm, mm.cr3, PageAbove(heapEnd), PagesBetween(heapEnd, heapEnd + incr));
      if free {
        GrowActive(mm, heapEnd, incr, dirs, held);
      }
    }
  }

  method GrowActive(mm: MemoryManager, heapEnd: Word, incr: nat, ghost dirs: set<nat>, ghost held: set<nat>)
    requires mm.Valid() && Tracks(mm.own, dirs, held) && mm.cr3 in dirs && HeapFree(mm.phys.view, mm.cr3, heapEnd, incr)
    modifies mm`own, mm.phys, mm.phys.pages, mm.alloc, mm.alloc.bitmap.bits
    ensures mm.Valid() && Tracks(mm.own, dirs, held)
    ensures HeapGrew(mm.kernelDir, old(StateOf(mm, dirs, held)), heapEnd, incr, StateOf(mm, dirs, held))
  {
    ghost var m0, own0, s0 := mm.phys.view, mm.own, StateOf(mm, dirs, held);
    var task := new UserTask(mm.cr3, heapEnd, heapEnd);
    var res, done, kept := SysSbrk(mm, task, incr);
    GivenKeeps(m0, own0, mm.phys.view, kept, mm.kernelDir, mm.cr3, PageAbove(heapEnd), USER_FLAGS, done);
    GrowthTracked(own0, kept, dirs, held, mm.cr3);
    assert dirs + {mm.cr3} == dirs;
    assert IsGrowth(mm.kernelDir, s0, heapEnd, incr, StateOf(mm, dirs, held), kept, done, res);
  }

  lemma NewOwnerTracked(own: Owners, own': Owners, dirs: set<nat>, held: set<nat>, f: nat, to: Owner)
    requires Tracks(own, dirs, held) && f !in own && own' == own[f := to]
    ensures to == Directory ==> Tracks(own', dirs + {f}, held)
    ensures to == Kernel ==> Tracks(own', dirs, held + {f})
  {
    if to == Directory {
      assert DirectoriesOf(own') == dirs + {f} && KernelPagesOf(own') == held;
    } else if to == Kernel {
      assert DirectoriesOf(own') == dirs && KernelPagesOf(own') == held + {f};
    }
  }

  lemma SameOwners(m: seq<Page>, own: Owners, d: nat)
    ensures GrewBy(own, own, d) && OthersKept(m, own, m, d)
  {
  }

  method PerformCopy(mm: MemoryManager, dirs: set<nat>, ghost held: set<nat>) returns (dirs': set<nat>)
    requires mm.Valid() && Tracks(mm.own, dirs, held)
    modifies mm`own, mm.phys, mm.phys.pages, mm.alloc, mm.alloc.bitmap.bits
    ensures mm.Valid() && Tracks(mm.own, dirs', held)
    ensures Copied(mm.kernelDir, old(StateOf(mm, dirs, held)), StateOf(mm, dirs', held))
  {
    ghost var own0 := mm.own;
    dirs' := dirs;
    if mm.cr3 in dirs {
      var to := mm.CopyUvm(mm.cr3);
      if to >= 0 {
        GrowthTracked(own0, mm.own, dirs, held, to);
        dirs' := dirs + {to};
      } else {
        assert DirectoriesOf(mm.own) == dirs && KernelPagesOf(mm.own) == held;
      }
    }
  }

  /** Each state of the trace follows from the one before it by its operation. */
  ghost predicate IsTrace(kd: nat, trace: seq<State>, ops: seq<Operation>) {
    |trace| == |ops| + 1 && forall i | 0 <= i < |ops| :: Did(kd, trace[i], ops[i], trace[i + 1])
  }

  lemma TraceExtended(kd: nat, trace: seq<State>, ops: seq<Operation>, op: Operation, s: State)
    requires IsTrace(kd, trace, ops) && Did(kd, trace[|ops|], op, s)
    ensures IsTrace(kd, trace + [s], ops + [op])
  {
  }

  /** After any operations, in any order, every page in use still has one use and its bit set
      (OneUsePerPage and EveryPageUsed apply to the state that this leaves). */
  method AnyRun(mm: MemoryManager, ops: seq<Operation>, dirs0: set<nat>, held0: set<nat>)
    returns (dirs: set<nat>, held: set<nat>, ghost trace: seq<State>)
    requires mm.Valid() && Tracks(mm.own, dirs0, held0)
    modifies mm`own, mm`cr3, mm.phys, mm.phys.pages, mm.alloc, mm.alloc.bitmap.bits
    ensures mm.Valid() && Tracks(mm.own, dirs, held)
    ensures IsTrace(mm.kernelDir, trace, ops)
    ensures trace[0] == old(StateOf(mm, dirs0, held0)) && trace[|ops|] == StateOf(mm, dirs, held)
    ensures forall f, role, other
      | Plays(mm.phys.view, dirs, held, f, role) && Plays(mm.phys.view, dirs, held, f, other) ::
      role == other && f in mm.alloc.used
  {
    dirs, held, trace := dirs0, held0, [StateOf(mm, dirs0, held0)];
    for i := 0 to |ops|
      invariant mm.Valid() && Tracks(mm.own, dirs, held) && IsTrace(mm.kernelDir, trace, ops[..i])
      invariant trace[0] == old(StateOf(mm, dirs0, held0)) && trace[i] == StateOf(mm, dirs, held)
    {
      dirs, held := Perform(mm, ops[i], dirs, held);
      TraceExtended(mm.kernelDir, trace, ops[..i], ops[i], StateOf(mm, dirs, held));
      trace := trace + [StateOf(mm, dirs, held)];
      assert ops[..i + 1] == ops[..i] + [ops[i]];
    }
    assert ops[..|ops|] == ops;
    forall f, role, other | Plays(mm.phys.view, dirs, held, f, role) && Plays(mm.phys.view, dirs, held, f, other)
      ensures role == other && f in mm.alloc.used
    {
      OneUsePerPage(mm.phys.view, mm.own, mm.kernelDir, f, role, other);
    }
  }

  /** From boot on: memory as it is found, the kernel's tables, then any operations. */
  method BootAndRun(bits: array<bv8>, upper: Word, kernelDir: nat, regions: seq<Region>, ops: seq<Operation>)
    returns (mm: MemoryManager, dirs: set<nat>, held: set<nat>, ghost trace: seq<State>)
    requires upper % PAGE_SIZE == 0 && MEM_EXT_START + upper <= MEMORY_TASK_BASE
    requires ByteCount(upper / PAGE_SIZE) <= bits.Length
    requires 0 < kernelDir < MEM_EXT_START / PAGE_SIZE && Apart(regions)
    modifies bits
    ensures mm.Valid() && Tracks(mm.own, dirs, held)
    ensures IsTrace(kernelDir, trace, ops) && trace[|ops|] == StateOf(mm, dirs, held)
    ensures var s := trace[0];
      && s.dirs == s.held == {} && s.active == kernelDir && OnlyKernelTables(s.own, kernelDir)
      && (|TablesOf(regions)| <= upper / PAGE_SIZE ==> KernelMapped(s.m, kernelDir, regions))
    ensures forall f, role, other
      | Plays(mm.phys.view, dirs, held, f, role) && Plays(mm.phys.view, dirs, held, f, other) ::
      role == other && f in mm.alloc.used
  {
    mm := new MemoryManager(bits, upper, kernelDir);
    assert |mm.alloc.bitmap.View()| == upper / PAGE_SIZE && mm.alloc.used == {};
    var _ := CreateKernelTable(mm, regions);
    NobodyYet(mm.own, kernelDir);
    dirs, held, trace := AnyRun(mm, ops, {}, {});
  }

  lemma NobodyYet(own: Owners, kd: nat)
    requires OnlyKernelTables(own, kd)
    ensures Tracks(own, {}, {})
  {
    assert DirectoriesOf(own) == {} && KernelPagesOf(own) == {};
  }

  // ----- a whole life of an address space

  datatype Request = Request(vaddr: Word, size: Word, perm: nat)

  predicate Sensible(r: Request) {
    r.perm < PAGE_SIZE && MEMORY_TASK_BASE <= r.vaddr && FrameOf(r.vaddr) + PageCount(r.size) <= VPN_END
  }

  /** Gives directory `d` what is asked for; stops at an allocation that reports failure. */
  method Fill(mm: MemoryManager, d: nat, requests: seq<Request>, ghost m1: seq<Page>, ghost own1: Owners)
    returns (failed: bool, ghost kept: Owners)
    requires mm.Valid() && IsDirectory(mm.own, d) && mm.phys.view == m1 && mm.own == own1
    modifies mm`own, mm.phys, mm.phys.pages, mm.alloc, mm.alloc.bitmap.bits
    ensures mm.Valid() && IsDirectory(mm.own, d)
    ensures GrewBy(own1, kept, d) && OthersKept(m1, own1, mm.phys.view, d)
    ensures if failed then exists p: nat :: p !in kept && mm.own == kept[p := Leaked] else mm.own == kept
  {
    for i := 0 to |requests|
      invariant mm.Valid() && IsDirectory(mm.own, d)
      invariant GrewBy(own1, mm.own, d) && OthersKept(m1, own1, mm.phys.view, d)
    {
      failed, kept := Answer(mm, d, requests[i], m1, own1);
      if failed {
        return;
      }
    }
    return false, mm.own;
  }

  method Answer(mm: MemoryManager, d: nat, r: Request, ghost m1: seq<Page>, ghost own1: Owners)
    returns (failed: bool, ghost kept: Owners)
    requires mm.Valid() && IsDirectory(mm.own, d)
    requires GrewBy(own1, mm.own, d) && OthersKept(m1, own1, mm.phys.view, d)
    modifies mm`own, mm.phys, mm.phys.pages, mm.alloc, mm.alloc.bitmap.bits
    ensures mm.Valid() && IsDirectory(mm.own, d)
    ensures GrewBy(own1, kept, d) && OthersKept(m1, own1, mm.phys.view, d)
    ensures if failed then exists p: nat :: p !in kept && mm.own == kept[p := Leaked] else mm.own == kept
    ensures Answered(mm.kernelDir, old(mm.phys.view), old(mm.own), old(mm.alloc.Free()), d, r, mm.phys.view, mm.own)
  {
    ghost var m2, own2, free2 := mm.phys.view, mm.own, mm.alloc.Free();
    failed, kept := false, own2;
    if Sensible(r) {
      var free := RangeFree(mm, d, FrameOf(r.vaddr), PageCount(r.size));
      if free {
        var res;
        ghost var done;
        res, done, kept := mm.AllocForPageDir(d, r.vaddr, r.size, r.perm);
        GivenKeeps(m2, own2, mm.phys.view, kept, mm.kernelDir, d, FrameOf(r.vaddr), r.perm, done);
        GrewByTwice(own1, own2, kept, d);
        OthersKeptTwice(m1, own1, m2, own2, mm.phys.view, d);
        assert d in kept;
        failed := res == -1;
        assert IsAnswer(mm.kernelDir, m2, own2, free2, d, r, mm.phys.view, kept, done, res);
      }
    }
  }

  /** Create, allocate, destroy: the bitmap is exactly as before unless an allocation reported failure
      (then one page is gone), and no page that was in use has changed. */
  method CreateFillDestroy(mm: MemoryManager, requests: seq<Request>) returns (failed: bool)
    requires mm.Valid()
    modifies mm`own, mm.phys, mm.phys.pages, mm.alloc, mm.alloc.bitmap.bits
    ensures mm.Valid() && OldPagesKept(old(mm.phys.view), old(mm.own), mm.phys.view)
    ensures !failed ==> mm.own == old(mm.own) && mm.alloc.bitmap.View() == old(mm.alloc.bitmap.View())
    ensures failed ==> exists p: nat :: p !in old(mm.own) && mm.own == old(mm.own)[p := Leaked]
  {
    ghost var m0, own0, bits := mm.phys.view, mm.own, mm.alloc.bitmap.View();
    assert Marks(bits, mm.alloc.start / PAGE_SIZE, own0.Keys);
    var d := mm.CreateUvm();
    if d == 0 {
      UsedDeterminesBitmap(bits, mm.alloc.bitmap.View(), mm.alloc.start / PAGE_SIZE, own0.Keys);
      return false;
    }
    ghost var m1 := mm.phys.view;
    ghost var kept;
    failed, kept := Fill(mm, d, requests, m1, own0[d := Directory]);
    OldPages(m0, own0, m1, mm.phys.view, mm.kernelDir, d);
    AllGivenBack(m0, own0, kept, mm.kernelDir, d);
    mm.DestroyUvm(d);
    if !failed {
      UsedDeterminesBitmap(bits, mm.alloc.bitmap.View(), mm.alloc.start / PAGE_SIZE, own0.Keys);
    }
  }
}
