/** Two-level address spaces built from allocated pages. */
module MemoryManagers {
  import opened Machine
  import opened Seals
  import opened PageTables
  import opened UserPages
  import opened AddressSpaces
  import opened PageAllocators
  import opened Bitmaps

  /** A pointer to a page-table entry, or null. */
  datatype PteRef = NoPte | At(table: nat, index: nat)

  /** The outcome of giving one page to a directory. */
  datatype Giving = Given1 | NoPage | NoTable

  /** Where a copy stopped: the page it was at, the page it lost there, the owners but for that one. */
  datatype Stop = Stop(at: nat, lost: nat, kept: Owners)

  class MemoryManager {
    const phys: PhysicalMemory
    const alloc: PageAllocator
    const kernelDir: nat
    var cr3: nat
    ghost var own: Owners

    /** The bitmap marks exactly the pages that have an owner, and tables are sound. */
    ghost predicate Coherent()
      reads this, phys, phys.pages, alloc, alloc.bitmap, alloc.bitmap.bits
    {
      && phys.Valid() && alloc.Valid() && alloc.bitmap.bits as object != phys.pages
      && |phys.view| == (alloc.start + alloc.size) / PAGE_SIZE <= VPN_END && 0 < kernelDir && !alloc.Manages(kernelDir)
      && alloc.used == own.Keys
      && TablesOk(phys.view, own, kernelDir)
    }

    ghost predicate Valid()
      reads this, phys, phys.pages, alloc, alloc.bitmap, alloc.bitmap.bits
    {
      Coherent() && Inv(phys.view, own, kernelDir)
    }

    /** The state memory_init leaves: every page above the first megabyte is free, the kernel directory is empty. */
    constructor (bits: array<bv8>, upper: Word, kernelDir: nat)
      requires upper % PAGE_SIZE == 0 && MEM_EXT_START + upper <= MEMORY_TASK_BASE
      requires ByteCount(upper / PAGE_SIZE) <= bits.Length
      requires 0 < kernelDir < MEM_EXT_START / PAGE_SIZE
      modifies bits
      ensures Valid() && this.kernelDir == kernelDir && cr3 == kernelDir && own == map[]
      ensures fresh(phys) && fresh(phys.pages) && fresh(alloc) && fresh(alloc.bitmap) && alloc.bitmap.bits == bits
      ensures phys.view == seq(|phys.view|, _ => ZeroedPage())
      ensures alloc.bitmap.View() == seq(upper / PAGE_SIZE, _ => false)
    {
      phys := new PhysicalMemory((MEM_EXT_START + upper) / PAGE_SIZE);
      alloc := new PageAllocator(bits, MEM_EXT_START, upper);
      this.kernelDir := kernelDir;
      cr3 := kernelDir;
      own := map[];
      new;
      NothingOwned(phys.view, kernelDir);
    }

    /** addr_alloc_page(&paddr_alloc, 1) */
    method AllocPage() returns (addr: Word)
      requires Coherent()
      modifies alloc, alloc.bitmap.bits, this`own
      ensures Coherent()
      ensures addr == 0 <==> old(alloc.Free()) == 0
      ensures addr == 0 ==> own == old(own) && alloc.Free() == 0
      ensures addr != 0 ==>
        && addr % PAGE_SIZE == 0 && FrameOf(addr) !in old(own) && FrameOf(addr) != kernelDir
        && FrameOf(addr) < |phys.view|
        && own == old(own)[FrameOf(addr) := Kernel] && alloc.Free() == old(alloc.Free()) - 1
      ensures old(Valid()) ==> Valid()
    {
      ghost var m := phys.view;
      addr := alloc.AllocPage();
      if addr != 0 {
        ghost var f := FrameOf(addr);
        KernelPage(m, own, own[f := Kernel], kernelDir, f, Kernel);
        own := own[f := Kernel];
      }
    }

    /** Finds the entry of a virtual page, with a fresh zeroed table when asked for and none is there. */
    method FindPte(d: nat, vaddr: Word, create: bool) returns (pte: PteRef)
      requires Coherent() && IsRoot(own, kernelDir, d) && Mappable(kernelDir, d, FrameOf(vaddr))
      modifies phys, phys.pages, alloc, alloc.bitmap.bits, this`own
      ensures Coherent()
      ensures var i := FrameOf(vaddr) / PTE_CNT;
        if pte.At? then
          && pte.index == FrameOf(vaddr) % PTE_CNT
          && TableFound(old(phys.view), old(own), phys.view, own, kernelDir, d, i, pte.table)
        else
          && !Present(Entry(old(phys.view), d, i)) && (!create || alloc.Free() == 0)
          && phys.view == old(phys.view) && own == old(own)
      ensures !create ==> phys.view == old(phys.view) && own == old(own)
      ensures SameTranslations(old(phys.view), phys.view, old(own), kernelDir)
    {
      var i := FrameOf(vaddr) / PTE_CNT;
      var pde := phys.ReadWord(d, i);
      var table;
      if Present(pde) {
        table := FrameOf(pde);
      } else {
        if !create {
          return NoPte;
        }
        var page := AllocPage();
        if page == 0 {
          return NoPte;
        }
        table := FrameOf(page);
        ghost var m := phys.view;
        phys.WriteWord(d, i, TableEntry(table));
        phys.ZeroPage(table);
        own := old(own)[table := Table(d, i)];
        NewTable(m, phys.view, old(own), own, kernelDir, d, i, table, TableEntry(table));
      }
      return At(table, FrameOf(vaddr) % PTE_CNT);
    }

    /** Writes the entry of the page at `va`; fails when a table is missing and no page is free. */
    method MapPage(d: nat, va: Word, ghost v: nat, pa: Word, ghost f: nat, perm: nat) returns (ok: bool)
      requires Coherent() && IsRoot(own, kernelDir, d) && FrameOf(va) == v && FrameOf(pa) == f
      requires Mappable(kernelDir, d, v) && perm < PAGE_SIZE && !Present(Pte(phys.view, d, v))
      modifies phys, phys.pages, alloc, alloc.bitmap.bits, this`own
      ensures Coherent()
      ensures ok ==>
        Mapped(old(phys.view), old(own), phys.view, own, kernelDir, d, v, f, perm, 1)
      ensures !ok ==>
        && phys.view == old(phys.view) && own == old(own) && alloc.Free() == 0
        && NeedsTable(phys.view, d, v, 0)
    {
      ghost var m := phys.view;
      var pte := FindPte(d, va, true);
      ok := pte.At?;
      if ok {
        ghost var m1 := phys.view;
        TableFoundOwned(m, old(own), m1, own, kernelDir, d, v / PTE_CNT, pte.table);
        var entry := phys.ReadWord(pte.table, pte.index);
        assert !Present(entry);
        phys.WriteWord(pte.table, pte.index, MakeEntry(FrameOf(pa), perm));
        WriteEntry(m, old(own), m1, own, phys.view, kernelDir, d, v, pte.table, f, perm);
      }
    }

    /** CreateMap after `k` pages of a range that began at image `m`. */
    ghost predicate MappingAt(m: seq<Page>, own0: Owners, d: nat, v0: nat, first: nat, perm: nat, k: nat)
      requires perm < PAGE_SIZE && first + k <= VPN_END
      reads this, phys, phys.pages, alloc, alloc.bitmap, alloc.bitmap.bits
    {
      forall seal: Seal {:trigger Unsealed(seal)} | Unsealed(seal) ::
        Coherent() && IsRoot(own, kernelDir, d) && Mapped(m, own0, phys.view, own, kernelDir, d, v0, first, perm, k)
    }

    /** One more page of a range that began at image `m`. */
    method MapNext(d: nat, va: Word, pa: Word, perm: nat, ghost m: seq<Page>, ghost own0: Owners, ghost v0: nat,
        ghost first: nat, ghost k: nat, ghost k': nat)
      returns (ok: bool)
      requires k' == k + 1 && perm < PAGE_SIZE && first + k < VPN_END && MappingAt(m, own0, d, v0, first, perm, k)
      requires FrameOf(va) == v0 + k && FrameOf(pa) == first + k
      requires Mappable(kernelDir, d, v0) && Mappable(kernelDir, d, v0 + k) && IsRoot(own0, kernelDir, d)
      requires !Present(Pte(m, d, v0 + k))
      modifies phys, phys.pages, alloc, alloc.bitmap.bits, this`own
      ensures ok ==> MappingAt(m, own0, d, v0, first, perm, k')
      ensures !ok ==>
        && phys.view == old(phys.view) && own == old(own) && MappingAt(m, own0, d, v0, first, perm, k)
        && alloc.Free() == 0 && TablesNeeded(m, d, v0, k + 1) == TablesNeeded(m, d, v0, k) + 1
    {
      ghost var m1, own1, v, f := phys.view, own, v0 + k, first + k;
      assert Unsealed(Seal);
      NotMappedYet(m, own0, m1, own1, kernelDir, d, v0, first, perm, k);
      ok := MapPage(d, va, v, pa, f, perm);
      if ok {
        MapStep(m, own0, m1, own1, phys.view, own, kernelDir, d, v0, first, perm, k, k', v, f);
      } else {
        NextTableMissing(m, m1, kernelDir, d, v0, k);
      }
    }

    /** The address one page further on. */
    static method Advance(a: Word) returns (b: Word)
      ensures FrameOf(a) + 1 < VPN_END ==> FrameOf(b) == FrameOf(a) + 1
    {
      b := Add32(a, PAGE_SIZE);
      if FrameOf(a) + 1 < VPN_END {
        NextPage(a);
      }
    }

    /** The page loop of CreateMap. */
    method MapRange(d: nat, vaddr: Word, paddr: Word, count: nat, perm: nat, ghost v0: nat, ghost first: nat)
      returns (done: nat)
      requires Coherent() && IsRoot(own, kernelDir, d) && perm < PAGE_SIZE && FrameOf(vaddr) == v0
      requires FrameOf(paddr) == first
      requires FirstPde(kernelDir, d) * PTE_CNT <= v0 && v0 + count <= VPN_END && first + count <= VPN_END
      requires forall u: nat | v0 <= u < v0 + count :: !Present(Pte(phys.view, d, u))
      modifies phys, phys.pages, alloc, alloc.bitmap.bits, this`own
      ensures done <= count && MappingAt(old(phys.view), old(own), d, v0, first, perm, done)
      ensures done < count ==>
        && alloc.Free() == 0
        && TablesNeeded(old(phys.view), d, v0, done + 1) == TablesNeeded(old(phys.view), d, v0, done) + 1
      ensures done == 0 ==> phys.view == old(phys.view) && own == old(own)
    {
      ghost var m, own0 := phys.view, own;
      var va, pa := vaddr, paddr;
      done := 0;
      while done < count
        invariant done <= count && MappingAt(m, own0, d, v0, first, perm, done)
        invariant done < count ==> FrameOf(va) == v0 + done && FrameOf(pa) == first + done
        invariant done == 0 ==> phys.view == m && own == own0
      {
        var next := done + 1;
        var ok := MapNext(d, va, pa, perm, m, own0, v0, first, done, next);
        if !ok {
          break;
        }
        done := next;
        va := Advance(va);
        pa := Advance(pa);
      }
    }

    /** Maps `count` pages from `vaddr` to those from `paddr`. Fails exactly when there are too few free
        pages for the missing tables; then a first part of the range, `done` pages, stays mapped. */
    method CreateMap(d: nat, vaddr: Word, paddr: Word, count: nat, perm: nat) returns (res: int, ghost done: nat)
      requires Coherent() && IsRoot(own, kernelDir, d) && perm < PAGE_SIZE && paddr % PAGE_SIZE == 0
      requires FirstPde(kernelDir, d) * PTE_CNT <= FrameOf(vaddr) && FrameOf(vaddr) + count <= VPN_END
      requires FrameOf(paddr) + count <= VPN_END
      requires forall u: nat | FrameOf(vaddr) <= u < FrameOf(vaddr) + count :: !Present(Pte(phys.view, d, u))
      modifies phys, phys.pages, alloc, alloc.bitmap.bits, this`own
      ensures Coherent() && done <= count
      ensures Mapped(old(phys.view), old(own), phys.view, own, kernelDir, d, FrameOf(vaddr), FrameOf(paddr), perm, done)
      ensures res == if done == count then 0 else -1
      ensures res == 0 <==> TablesNeeded(old(phys.view), d, FrameOf(vaddr), count) <= old(alloc.Free())
      ensures res == -1 ==> alloc.Free() == 0
      ensures done == 0 ==> phys.view == old(phys.view) && own == old(own)
    {
      ghost var m, own0, v0 := phys.view, own, FrameOf(vaddr);
      var mapped := MapRange(d, vaddr, paddr, count, perm, v0, FrameOf(paddr));
      done := mapped;
      res := if mapped < count then -1 else 0;
      assert Unsealed(Seal);
      assert |own| == |own0| + TablesNeeded(m, d, v0, done) by { assert Unfolded(Seal); }
      if done < count {
        TablesNeededGrows(m, d, v0, done + 1, count);
      }
    }

    /** Allocates a page and maps it at `va`. When its table cannot be had the page is lost. */
    method GivePage(d: nat, va: Word, ghost v: nat, perm: nat) returns (g: Giving, page: Word)
      requires Valid() && IsDirectory(own, d) && FrameOf(va) == v && Mappable(kernelDir, d, v) && perm < PAGE_SIZE
      requires !Present(Pte(phys.view, d, v))
      modifies phys, phys.pages, alloc, alloc.bitmap.bits, this`own
      ensures Valid() && IsDirectory(own, d)
      ensures g.Given1? ==>
        && Given(old(phys.view), old(own), phys.view, own, kernelDir, d, v, perm, 1)
        && Pte(phys.view, d, v) == MakeEntry(FrameOf(page), perm)
      ensures g.NoPage? ==> phys.view == old(phys.view) && own == old(own) && alloc.Free() == 0
      ensures g.NoTable? ==>
        && phys.view == old(phys.view) && alloc.Free() == 0 && NeedsTable(phys.view, d, v, 0)
        && FrameOf(page) !in old(own) && own == old(own)[FrameOf(page) := Leaked]
    {
      page := AllocPage();
      if page == 0 {
        g := NoPage;
      } else {
        g := MapNewPage(d, va, v, page, perm, old(own));
      }
    }

    /** Maps a page that the kernel just took, or loses it. */
    method MapNewPage(d: nat, va: Word, ghost v: nat, page: Word, perm: nat, ghost own0: Owners) returns (g: Giving)
      requires Valid() && Inv(phys.view, own0, kernelDir) && IsDirectory(own0, d) && IsDirectory(own, d)
      requires FrameOf(va) == v && Mappable(kernelDir, d, v) && perm < PAGE_SIZE && !Present(Pte(phys.view, d, v))
      requires page % PAGE_SIZE == 0 && FrameOf(page) !in own0 && own == own0[FrameOf(page) := Kernel]
      modifies phys, phys.pages, alloc, alloc.bitmap.bits, this`own
      ensures Valid() && IsDirectory(own, d) && !g.NoPage?
      ensures g.Given1? ==>
        && Given(old(phys.view), own0, phys.view, own, kernelDir, d, v, perm, 1)
        && Pte(phys.view, d, v) == MakeEntry(FrameOf(page), perm)
      ensures g.NoTable? ==>
        && phys.view == old(phys.view) && alloc.Free() == 0 && NeedsTable(phys.view, d, v, 0)
        && own == own0[FrameOf(page) := Leaked]
    {
      ghost var m := phys.view;
      var err, _ := CreateMap(d, va, page, 1, perm);
      if err < 0 {
        LosePage(FrameOf(page), own0);
        g := NoTable;
      } else {
        HandOverPage(m, own0, d, v, FrameOf(page), perm);
        g := Given1;
      }
    }

    /** The page in hand will be reached by nobody. */
    ghost method LosePage(p: nat, own0: Owners)
      requires Valid() && Inv(phys.view, own0, kernelDir) && p !in own0 && own == own0[p := Kernel]
      modifies this`own
      ensures Valid() && own == own0[p := Leaked]
    {
      assert p in own && p < |phys.view| && p != kernelDir;
      own := own0[p := Leaked];
      KernelPage(phys.view, own0, own, kernelDir, p, Leaked);
    }

    /** The page that was mapped belongs to directory `d` from now on. */
    ghost method HandOverPage(m: seq<Page>, own0: Owners, d: nat, v: nat, p: nat, perm: nat)
      requires Coherent() && Inv(m, own0, kernelDir) && IsDirectory(own0, d) && |m| == |phys.view|
      requires Mappable(kernelDir, d, v) && perm < PAGE_SIZE && !Present(Pte(m, d, v)) && p !in own0 && p != kernelDir
      requires p < VPN_END
      requires Mapped(m, own0[p := Kernel], phys.view, own, kernelDir, d, v, p, perm, 1)
      modifies this`own
      ensures Valid() && IsDirectory(own, d)
      ensures Given(m, own0, phys.view, own, kernelDir, d, v, perm, 1) && Pte(phys.view, d, v) == MakeEntry(p, perm)
    {
      ghost var own1 := own;
      assert IsRoot(own0[p := Kernel], kernelDir, d);
      own := own1[p := Data(d, v)];
      assert p in own1 by { assert Unfolded(Seal); }
      HandOver(m, own0, own0[p := Kernel], phys.view, own1, own, kernelDir, d, v, p, perm);
    }

    /** AllocForPageDir after `k` pages of an allocation that began at image `m`. */
    ghost predicate GivingAt(m: seq<Page>, own0: Owners, d: nat, v0: nat, perm: nat, k: nat)
      requires perm < PAGE_SIZE
      reads this, phys, phys.pages, alloc, alloc.bitmap, alloc.bitmap.bits
    {
      forall seal: Seal {:trigger Unsealed(seal)} | Unsealed(seal) ::
        Valid() && IsDirectory(own, d) && Given(m, own0, phys.view, own, kernelDir, d, v0, perm, k)
    }

    /** It stopped there: `kept` are the owners without the page that was lost last. */
    ghost predicate GivingStopped(m: seq<Page>, own0: Owners, d: nat, v0: nat, perm: nat, k: nat, g: Giving,
        kept: Owners)
      requires perm < PAGE_SIZE
      reads this, phys, phys.pages, alloc, alloc.bitmap, alloc.bitmap.bits
    {
      && Valid() && alloc.Free() == 0 && Given(m, own0, phys.view, kept, kernelDir, d, v0, perm, k)
      && (g.NoPage? ==> own == kept)
      && (g.NoTable? ==> NeedsTable(m, d, v0, k) && exists page: nat :: page !in kept && own == kept[page := Leaked])
    }

    /** One more page of an allocation that began at image `m`. */
    method GiveNext(d: nat, va: Word, perm: nat, ghost m: seq<Page>, ghost own0: Owners, ghost v0: nat, ghost k: nat,
        ghost k': nat)
      returns (g: Giving)
      requires k' == k + 1 && perm < PAGE_SIZE && GivingAt(m, own0, d, v0, perm, k) && FrameOf(va) == v0 + k
      requires Mappable(kernelDir, d, v0) && Mappable(kernelDir, d, v0 + k) && IsRoot(own0, kernelDir, d)
      requires !Present(Pte(m, d, v0 + k))
      modifies phys, phys.pages, alloc, alloc.bitmap.bits, this`own
      ensures g.Given1? ==> GivingAt(m, own0, d, v0, perm, k')
      ensures !g.Given1? ==> GivingStopped(m, own0, d, v0, perm, k, g, old(own))
    {
      ghost var m1, own1, v := phys.view, own, v0 + k;
      assert Unsealed(Seal);
      NotGivenYet(m, own0, m1, own1, kernelDir, d, v0, perm, k);
      var page;
      g, page := GivePage(d, va, v, perm);
      if g.Given1? {
        GivenStep(m, own0, m1, own1, phys.view, own, kernelDir, d, v0, perm, k, k', v);
      } else if g.NoTable? {
        NextTableMissing(m, m1, kernelDir, d, v0, k);
      }
    }

    /** The page loop of AllocForPageDir. */
    method GiveRange(d: nat, vaddr: Word, count: nat, perm: nat, ghost v0: nat)
      returns (g: Giving, done: nat, ghost kept: Owners)
      requires Valid() && IsDirectory(own, d) && perm < PAGE_SIZE && FrameOf(vaddr) == v0
      requires MEMORY_TASK_BASE <= vaddr && v0 + count <= VPN_END
      requires forall u: nat | v0 <= u < v0 + count :: !Present(Pte(phys.view, d, u))
      modifies phys, phys.pages, alloc, alloc.bitmap.bits, this`own
      ensures done <= count
      ensures g.Given1? ==> done == count && own == kept && GivingAt(old(phys.view), old(own), d, v0, perm, done)
      ensures !g.Given1? ==> done < count && GivingStopped(old(phys.view), old(own), d, v0, perm, done, g, kept)
    {
      ghost var m, own0 := phys.view, own;
      var curr := vaddr;
      g, done, kept := Given1, 0, own;
      NothingGiven(m, own0, kernelDir, d, v0, perm);
      while done < count
        invariant done <= count && GivingAt(m, own0, d, v0, perm, done) && g.Given1? && kept == own
        invariant done < count ==> FrameOf(curr) == v0 + done
      {
        var next := done + 1;
        g := GiveNext(d, curr, perm, m, own0, v0, done, next);
        if !g.Given1? {
          break;
        }
        done, kept := next, own;
        curr := Advance(curr);
      }
    }

    /** A user address lies past the bitmap, so freeing by it changes nothing. */
    method FreeByUserAddress(vaddr: Word, count: nat)
      requires Valid() && MEMORY_TASK_BASE <= vaddr
      modifies alloc, alloc.bitmap.bits
      ensures Valid() && alloc.used == old(alloc.used)
    {
      ghost var used := alloc.used;
      var page := FrameOf(vaddr) * PAGE_SIZE;
      alloc.FreePages(page, count);
      assert alloc.used == used;
    }

    /** Gives directory `d` fresh pages for the `size` bytes from `vaddr` on; `done` of them were given.
        The result is 0 also when the pages run out. A page whose table cannot be had is lost. */
    method AllocForPageDir(d: nat, vaddr: Word, size: Word, perm: nat)
      returns (res: int, ghost done: nat, ghost kept: Owners)
      requires Valid() && IsDirectory(own, d) && perm < PAGE_SIZE
      requires MEMORY_TASK_BASE <= vaddr && FrameOf(vaddr) + PageCount(size) <= VPN_END
      requires forall u: nat | FrameOf(vaddr) <= u < FrameOf(vaddr) + PageCount(size) :: !Present(Pte(phys.view, d, u))
      modifies phys, phys.pages, alloc, alloc.bitmap.bits, this`own
      ensures Valid()
      ensures Given(old(phys.view), old(own), phys.view, kept, kernelDir, d, FrameOf(vaddr), perm, done)
      ensures StoppedFor(old(phys.view), d, FrameOf(vaddr), PageCount(size), done, old(alloc.Free()), res)
      ensures res == 0 ==> own == kept
      ensures res == -1 ==> exists p: nat :: p !in kept && own == kept[p := Leaked]
    {
      var g, i;
      ghost var m, own0 := phys.view, own;
      g, i, kept := GiveRange(d, vaddr, PageCount(size), perm, FrameOf(vaddr));
      assert Unsealed(Seal);
      done := i;
      GivenKeeps(m, own0, phys.view, kept, kernelDir, d, FrameOf(vaddr), perm, done);
      res := 0;
      if g.NoTable? {
        FreeByUserAddress(vaddr, i + 1);
        res := -1;
      }
    }

    /** A new address space: the kernel's half shared, the user half empty. Directories are named by their
        page frame; 0 means that no page was free. */
    method CreateUvm() returns (d: nat)
      requires Valid()
      modifies phys, phys.pages, alloc, alloc.bitmap.bits, this`own
      ensures Valid()
      ensures d == 0 <==> old(alloc.Free()) == 0
      ensures d == 0 ==> phys.view == old(phys.view) && own == old(own)
      ensures d != 0 ==>
        && d !in old(own) && d != kernelDir && own == old(own)[d := Directory]
        && |phys.view| == |old(phys.view)|
        && (forall f | 0 <= f < |phys.view| && f != d :: phys.view[f] == old(phys.view)[f])
        && SameTranslations(old(phys.view), phys.view, old(own), kernelDir)
        && (forall i: nat | USER_PDE <= i < PDE_CNT :: !Present(Entry(phys.view, d, i)))
        && (forall v: nat | Mappable(kernelDir, d, v) :: !Present(Pte(phys.view, d, v)))
    {
      ghost var m, own0 := phys.view, own;
      var page := AllocPage();
      if page == 0 {
        return 0;
      }
      d := FrameOf(page);
      CopyKernelEntries(d);
      own := own0[d := Directory];
      NewDirectory(m, phys.view, own0, own, kernelDir, d, phys.view[d]);
    }

    method CopyKernelEntries(d: nat)
      requires phys.Valid() && d < |phys.view| && kernelDir < |phys.view| && d != kernelDir
      modifies phys, phys.pages
      ensures phys.Valid() && |phys.view| == |old(phys.view)|
      ensures phys.view == SetPage(old(phys.view), d, phys.view[d])
      ensures FreshDirectory(old(phys.view), kernelDir, phys.view[d])
    {
      ghost var m := phys.view;
      phys.ZeroPage(d);
      for i := 0 to USER_PDE
        invariant phys.Valid() && |phys.view| == |m| && phys.view == SetPage(m, d, phys.view[d])
        invariant forall k | 0 <= k < PDE_CNT :: phys.view[d][k] == if k < i then m[kernelDir][k] else 0
      {
        var e := phys.ReadWord(kernelDir, i);
        phys.WriteWord(d, i, e);
      }
    }

    /** addr_free_page(&paddr_alloc, page, 1) */
    method FreePage(f: nat)
      requires alloc.Valid() && f < VPN_END && alloc.start <= f * PAGE_SIZE
      modifies alloc, alloc.bitmap.bits
      ensures alloc.Valid() && alloc.used == old(alloc.used) - {f}
    {
      alloc.FreePages(f * PAGE_SIZE, 1);
      assert Run(f, 1) == {f};
    }

    /** Halfway through DestroyUvm: the owners still stand, the released pages are already free. */
    ghost predicate Releasing(d: nat, v: nat, i: nat)
      reads this, phys, phys.pages, alloc, alloc.bitmap, alloc.bitmap.bits
    {
      && phys.Valid() && alloc.Valid() && alloc.bitmap.bits as object != phys.pages
      && |phys.view| == (alloc.start + alloc.size) / PAGE_SIZE <= VPN_END && 0 < kernelDir && !alloc.Manages(kernelDir)
      && Inv(phys.view, own, kernelDir) && IsDirectory(own, d)
      && (forall f | f in own :: alloc.Manages(f))
      && alloc.used == own.Keys - Released(own, d, v, i)
    }

    /** The same fact, sealed. */
    ghost predicate ReleasingAt(d: nat, v: nat, i: nat)
      reads this, phys, phys.pages, alloc, alloc.bitmap, alloc.bitmap.bits
    {
      forall seal: Seal {:trigger Unsealed(seal)} | Unsealed(seal) :: Releasing(d, v, i)
    }

    method ReleaseOne(f: nat, ghost d: nat, ghost v: nat, ghost i: nat, ghost v': nat, ghost i': nat)
      requires ReleasingAt(d, v, i) && f in own
      requires Released(own, d, v', i') == Released(own, d, v, i) + {f}
      modifies alloc, alloc.bitmap.bits
      ensures ReleasingAt(d, v', i')
    {
      assert Unsealed(Seal);
      FreePage(f);
      OneMoreReleased(own.Keys, Released(own, d, v, i), Released(own, d, v', i'), f);
    }

    /** One entry of a page table: virtual page `v`, the next one is `v'`. */
    method ReleaseEntry(d: nat, i: nat, table: nat, j: nat, ghost v: nat, ghost v': nat)
      requires USER_PDE <= i < PDE_CNT && j < PTE_CNT && v == i * PTE_CNT + j && v' == v + 1
      requires ReleasingAt(d, v, i) && table < |phys.view|
      requires Present(Entry(phys.view, d, i)) && FrameOf(Entry(phys.view, d, i)) == table
      modifies alloc, alloc.bitmap.bits
      ensures ReleasingAt(d, v', i)
    {
      var pte := ReadTable(d, i, table, j, v, v');
      if Present(pte) {
        ReleaseOne(FrameOf(pte), d, v, i, v', i);
      }
    }

    /** The table entry and what becomes of its page. */
    method ReadTable(d: nat, i: nat, table: nat, j: nat, ghost v: nat, ghost v': nat) returns (pte: Word)
      requires USER_PDE <= i < PDE_CNT && j < PTE_CNT && v == i * PTE_CNT + j && v' == v + 1
      requires ReleasingAt(d, v, i) && table < |phys.view|
      requires Present(Entry(phys.view, d, i)) && FrameOf(Entry(phys.view, d, i)) == table
      ensures Present(pte) ==> FrameOf(pte) in own && Released(own, d, v', i) == Released(own, d, v, i) + {FrameOf(pte)}
      ensures !Present(pte) ==> ReleasingAt(d, v', i)
    {
      assert Unsealed(Seal);
      ReleasePage(phys.view, own, kernelDir, d, v, v', i);
      PteAt(phys.view, d, i, j, v);
      pte := phys.ReadWord(table, j);
    }

    /** One entry of the directory: the pages of its table, then the table. */
    method ReleaseDirectoryEntry(d: nat, i: nat, ghost i': nat, ghost v: nat, ghost v': nat)
      requires USER_PDE <= i < PDE_CNT && v == i * PTE_CNT && v' == v + PTE_CNT && i' == i + 1 && ReleasingAt(d, v, i)
      modifies alloc, alloc.bitmap.bits
      ensures ReleasingAt(d, v', i')
    {
      var pde := ReadDirectory(d, i, i', v, v');
      if Present(pde) {
        ReleaseTablePages(d, i, FrameOf(pde), v, v');
        ReleaseOne(FrameOf(pde), d, v', i, v', i');
      }
    }

    /** The directory entry and what becomes of its table. */
    method ReadDirectory(d: nat, i: nat, ghost i': nat, ghost v: nat, ghost v': nat) returns (pde: Word)
      requires USER_PDE <= i < PDE_CNT && v == i * PTE_CNT && v' == v + PTE_CNT && i' == i + 1 && ReleasingAt(d, v, i)
      ensures pde == Entry(phys.view, d, i)
      ensures Present(pde) ==>
        && FrameOf(pde) in own && FrameOf(pde) < |phys.view|
        && Released(own, d, v', i') == Released(own, d, v', i) + {FrameOf(pde)}
      ensures !Present(pde) ==> ReleasingAt(d, v', i')
    {
      assert Unsealed(Seal);
      assert IsRoot(own, kernelDir, d) && d in own;
      ReleaseTable(phys.view, own, kernelDir, d, i, i', v, v');
      pde := phys.ReadWord(d, i);
    }

    /** The pages of one table. */
    method ReleaseTablePages(d: nat, i: nat, table: nat, ghost v0: nat, ghost v': nat)
      requires USER_PDE <= i < PDE_CNT && v0 == i * PTE_CNT && v' == v0 + PTE_CNT && ReleasingAt(d, v0, i)
      requires table < |phys.view|
      requires Present(Entry(phys.view, d, i)) && FrameOf(Entry(phys.view, d, i)) == table
      modifies alloc, alloc.bitmap.bits
      ensures ReleasingAt(d, v', i)
    {
      ghost var v := v0;
      for j := 0 to PTE_CNT
        invariant v == v0 + j && ReleasingAt(d, v, i)
      {
        ghost var u := v + 1;
        ReleaseEntry(d, i, table, j, v, u);
        v := u;
      }
    }

    /** Gives back every user page, every page table and the directory itself. */
    method DestroyUvm(d: nat)
      requires Valid() && IsDirectory(own, d)
      modifies alloc, alloc.bitmap.bits, this`own
      ensures Valid() && phys.view == old(phys.view)
      ensures own == Without(old(own), d)
    {
      ReleaseUserPages(d);
      FreeDirectory(d);
    }

    /** addr_free_page of the directory, the last of its pages. */
    method FreeDirectory(d: nat)
      requires Releasing(d, VPN_END, PDE_CNT)
      modifies alloc, alloc.bitmap.bits, this`own
      ensures Valid() && own == Without(old(own), d)
    {
      ReleasedAll(phys.view, own, kernelDir, d);
      DestroyedInv(phys.view, own, kernelDir, d);
      FreePage(d);
      own := Without(own, d);
    }

    method ReleaseUserPages(d: nat)
      requires Valid() && IsDirectory(own, d)
      modifies alloc, alloc.bitmap.bits
      ensures Releasing(d, VPN_END, PDE_CNT)
    {
      NothingReleased(phys.view, own, kernelDir, d);
      ReleaseTables(d);
      assert Unsealed(Seal);
    }

    method ReleaseTables(d: nat)
      requires ReleasingAt(d, USER_PDE * PTE_CNT, USER_PDE)
      modifies alloc, alloc.bitmap.bits
      ensures ReleasingAt(d, VPN_END, PDE_CNT)
    {
      ghost var v := USER_PDE * PTE_CNT;
      var i := USER_PDE;
      while i < PDE_CNT
        invariant USER_PDE <= i <= PDE_CNT && v == i * PTE_CNT && ReleasingAt(d, v, i)
      {
        var i' := i + 1;
        ghost var v' := v + PTE_CNT;
        ReleaseDirectoryEntry(d, i, i', v, v');
        i, v := i', v';
      }
    }

    /** What the processor makes of a virtual page under directory `d`. */
    method Translate(d: nat, ghost v: nat, va: Word) returns (e: Word)
      requires phys.Valid() && TablesOk(phys.view, own, kernelDir) && IsRoot(own, kernelDir, d)
      requires FrameOf(va) == v && Mappable(kernelDir, d, v)
      ensures e == Pte(phys.view, d, v)
    {
      TableThere(phys.view, own, kernelDir, d, v / PTE_CNT);
      var pde := phys.ReadWord(d, FrameOf(va) / PTE_CNT);
      if !Present(pde) {
        return 0;
      }
      e := phys.ReadWord(FrameOf(pde), FrameOf(va) % PTE_CNT);
    }

    /** memory_copy_uvm at page `v`: `to` was made as image `m` with owners `own0`. */
    ghost predicate CopyAt(m: seq<Page>, own0: Owners, from: nat, to: nat, v: nat)
      reads this, phys, phys.pages, alloc, alloc.bitmap, alloc.bitmap.bits
    {
      forall seal: Seal {:trigger Unsealed(seal)} | Unsealed(seal) ::
      && Valid() && from == cr3 && from != to && |phys.view| == |m| && IsDirectory(own, to)
      && Inv(m, own0, kernelDir) && IsDirectory(own0, from) && IsDirectory(own0, to)
      && Copying(m, own0, phys.view, own, kernelDir, from, to, v)
    }

    /** The copy stopped: everything taken since belongs to `to`, but for the page that was lost. */
    ghost predicate CopyStopped(m: seq<Page>, own0: Owners, from: nat, to: nat, g: Giving, stop: Stop)
      reads this, phys, phys.pages, alloc, alloc.bitmap, alloc.bitmap.bits
    {
      forall seal: Seal {:trigger Unsealed(seal)} | Unsealed(seal) ::
      && Valid() && IsDirectory(own, to) && alloc.Free() == 0 && !g.Given1?
      && GrewBy(own0, stop.kept, to) && OthersKept(m, own0, phys.view, to)
      && own == (if g.NoTable? then stop.kept[stop.lost := Leaked] else stop.kept)
      && (g.NoTable? ==> stop.lost !in stop.kept)
      && StoppedAt(m, from, stop.at, |own| - |own0| + 1, g.NoTable?)
    }

    /** Copies one present page of the parent. */
    method CopyPresent(from: nat, to: nat, va: Word, pte: Word, ghost v: nat, ghost v': nat, ghost m: seq<Page>,
        ghost own0: Owners)
      returns (g: Giving, ghost stop: Stop)
      requires CopyAt(m, own0, from, to, v) && v' == v + 1 && FrameOf(va) == v && Mappable(kernelDir, to, v)
      requires pte == Pte(m, from, v) && Present(pte)
      modifies phys, phys.pages, alloc, alloc.bitmap.bits, this`own
      ensures g.Given1? ==> CopyAt(m, own0, from, to, v')
      ensures !g.Given1? ==> CopyStopped(m, own0, from, to, g, stop)
    {
      assert Unsealed(Seal);
      ghost var m1, own1 := phys.view, own;
      NotCopiedYet(m, own0, m1, own1, kernelDir, from, to, v);
      var page;
      g, page := GivePage(to, va, v, PermOf(pte));
      stop := Stop(v, FrameOf(page), own1);
      if g.Given1? {
        CopyContents(from, to, va, page, v, v', PermOf(pte), m, own0, m1, own1);
      } else {
        StopsHere(m, own0, m1, own1, kernelDir, from, to, v);
      }
    }

    /** Fills the page that was just given to the child. */
    method CopyContents(from: nat, to: nat, va: Word, page: Word, ghost v: nat, ghost v': nat, ghost perm: nat,
                        ghost m: seq<Page>, ghost own0: Owners, ghost m1: seq<Page>, ghost own1: Owners)
      requires Valid() && from == cr3 && from != to && |phys.view| == |m| == |m1| && IsDirectory(own, to)
      requires IsDirectory(own1, to)
      requires Inv(m, own0, kernelDir) && IsDirectory(own0, from) && IsDirectory(own0, to) && Inv(m1, own1, kernelDir)
      requires Copying(m, own0, m1, own1, kernelDir, from, to, v) && v' == v + 1 && FrameOf(va) == v
      requires Mappable(kernelDir, to, v)
      requires Present(Pte(m, from, v)) && perm == PermOf(Pte(m, from, v))
      requires Given(m1, own1, phys.view, own, kernelDir, to, v, perm, 1)
      requires Pte(phys.view, to, v) == MakeEntry(FrameOf(page), perm)
      modifies phys, phys.pages
      ensures CopyAt(m, own0, from, to, v')
    {
      ghost var m2 := phys.view;
      ParentKept(m, own0, m1, own1, m2, own, kernelDir, from, to, v, perm);
      var src := Translate(cr3, v, va);
      phys.CopyPage(FrameOf(page), FrameOf(src));
      CopyOnePage(m, own0, m1, own1, m2, own, phys.view, kernelDir, from, to, v, v', FrameOf(page));
    }

    /** One entry of the parent's page table. */
    method CopyEntry(from: nat, to: nat, i: nat, j: nat, table: nat, ghost v: nat, ghost v': nat, ghost m: seq<Page>,
        ghost own0: Owners)
      returns (g: Giving, ghost stop: Stop)
      requires CopyAt(m, own0, from, to, v) && USER_PDE <= i < PDE_CNT && j < PTE_CNT && v == i * PTE_CNT + j
      requires v' == v + 1
      requires Present(Entry(m, from, i)) && table == FrameOf(Entry(m, from, i))
      modifies phys, phys.pages, alloc, alloc.bitmap.bits, this`own
      ensures g.Given1? ==> CopyAt(m, own0, from, to, v')
      ensures !g.Given1? ==> CopyStopped(m, own0, from, to, g, stop)
    {
      g, stop := Given1, Stop(v, 0, own);
      var pte := ReadParentPage(from, to, i, j, table, v, v', m, own0);
      if Present(pte) {
        g, stop := CopyPresent(from, to, (i * PTE_CNT + j) * PAGE_SIZE, pte, v, v', m, own0);
      }
    }

    /** The entry of the parent's table and, when there is no page, what that means. */
    method ReadParentPage(from: nat, to: nat, i: nat, j: nat, table: nat, ghost v: nat, ghost v': nat,
        ghost m: seq<Page>, ghost own0: Owners)
      returns (pte: Word)
      requires CopyAt(m, own0, from, to, v) && USER_PDE <= i < PDE_CNT && j < PTE_CNT && v == i * PTE_CNT + j
      requires v' == v + 1
      requires Present(Entry(m, from, i)) && table == FrameOf(Entry(m, from, i))
      ensures pte == Pte(m, from, v) && Mappable(kernelDir, to, v)
      ensures !Present(pte) ==> CopyAt(m, own0, from, to, v')
    {
      assert Unsealed(Seal);
      ParentTables(m, own0, phys.view, own, kernelDir, from, to, v, i);
      PteAt(m, from, i, j, v);
      pte := phys.ReadWord(table, j);
      if !Present(pte) {
        SkipPage(m, own0, phys.view, own, kernelDir, from, to, v, v');
      }
    }

    /** One entry of the parent's directory. */
    method CopyDirectoryEntry(from: nat, to: nat, i: nat, ghost v0: nat, ghost v': nat, ghost m: seq<Page>,
        ghost own0: Owners)
      returns (g: Giving, ghost stop: Stop)
      requires CopyAt(m, own0, from, to, v0) && USER_PDE <= i < PDE_CNT && v0 == i * PTE_CNT && v' == v0 + PTE_CNT
      modifies phys, phys.pages, alloc, alloc.bitmap.bits, this`own
      ensures g.Given1? ==> CopyAt(m, own0, from, to, v')
      ensures !g.Given1? ==> CopyStopped(m, own0, from, to, g, stop)
    {
      g, stop := Given1, Stop(v0, 0, own);
      var pde := ReadParent(from, to, i, v0, v', m, own0);
      if Present(pde) {
        g, stop := CopyTable(from, to, i, FrameOf(pde), v0, v', m, own0);
      }
    }

    /** The pages of one table of the parent. */
    method CopyTable(from: nat, to: nat, i: nat, table: nat, ghost v0: nat, ghost v': nat, ghost m: seq<Page>,
        ghost own0: Owners)
      returns (g: Giving, ghost stop: Stop)
      requires CopyAt(m, own0, from, to, v0) && USER_PDE <= i < PDE_CNT && v0 == i * PTE_CNT && v' == v0 + PTE_CNT
      requires Present(Entry(m, from, i)) && table == FrameOf(Entry(m, from, i))
      modifies phys, phys.pages, alloc, alloc.bitmap.bits, this`own
      ensures g.Given1? ==> CopyAt(m, own0, from, to, v')
      ensures !g.Given1? ==> CopyStopped(m, own0, from, to, g, stop)
    {
      g, stop := Given1, Stop(v0, 0, own);
      ghost var v := v0;
      for j := 0 to PTE_CNT
        invariant v == v0 + j && CopyAt(m, own0, from, to, v) && g.Given1?
      {
        ghost var next := v + 1;
        g, stop := CopyEntry(from, to, i, j, table, v, next, m, own0);
        if !g.Given1? {
          return;
        }
        v := next;
      }
      assert v == v';
    }

    /** The parent's directory entry and, when it has no table there, what that means. */
    method ReadParent(from: nat, to: nat, i: nat, ghost v: nat, ghost v': nat, ghost m: seq<Page>, ghost own0: Owners)
      returns (pde: Word)
      requires CopyAt(m, own0, from, to, v) && USER_PDE <= i < PDE_CNT && v == i * PTE_CNT && v' == v + PTE_CNT
      ensures pde == Entry(m, from, i)
      ensures !Present(pde) ==> CopyAt(m, own0, from, to, v')
    {
      assert Unsealed(Seal);
      ParentTables(m, own0, phys.view, own, kernelDir, from, to, v, i);
      pde := phys.ReadWord(from, i);
      if !Present(pde) {
        SkipTable(m, own0, phys.view, own, kernelDir, from, to, i, v, v');
      }
    }

    method CopyUserPages(from: nat, to: nat, ghost m: seq<Page>, ghost own0: Owners)
      returns (g: Giving, ghost stop: Stop)
      requires CopyAt(m, own0, from, to, USER_PDE * PTE_CNT)
      modifies phys, phys.pages, alloc, alloc.bitmap.bits, this`own
      ensures g.Given1? ==> CopyAt(m, own0, from, to, VPN_END)
      ensures !g.Given1? ==> CopyStopped(m, own0, from, to, g, stop)
    {
      g, stop := Given1, Stop(0, 0, own);
      ghost var v := USER_PDE * PTE_CNT;
      for i := USER_PDE to PDE_CNT
        invariant v == i * PTE_CNT && CopyAt(m, own0, from, to, v) && g.Given1?
      {
        ghost var next := v + PTE_CNT;
        g, stop := CopyDirectoryEntry(from, to, i, v, next, m, own0);
        if !g.Given1? {
          return;
        }
        v := next;
      }
    }

    /** Directory `to` was just made, in image `m`; there were `free` pages before. */
    ghost predicate CopyBegan(m0: seq<Page>, own0: Owners, m: seq<Page>, from: nat, to: nat, free: int) {
      forall seal: Seal {:trigger Unsealed(seal)} | Unsealed(seal) ::
        && Inv(m0, own0, kernelDir) && IsDirectory(own0, from) && to !in own0 && to != kernelDir && |m| == |m0|
        && SameTranslations(m0, m, own0, kernelDir) && (forall f | 0 <= f < |m| && f != to :: m[f] == m0[f])
        && free == alloc.size / PAGE_SIZE - |own0|
    }

    /** Copies the active address space, page by page. It succeeds exactly when there are enough free pages for
        the directory, the pages and their tables. A failed copy gives back all it took but for at most one
        page: the one in hand when no page was left for its table. */
    method CopyUvm(from: nat) returns (to: int)
      requires Valid() && IsDirectory(own, from) && from == cr3
      modifies phys, phys.pages, alloc, alloc.bitmap.bits, this`own
      ensures Valid() && to >= -1
      ensures to >= 0 <==> 1 + PagesToCopy(old(phys.view), from, VPN_END) <= old(alloc.Free())
      ensures to >= 0 ==> IsCopyOf(old(phys.view), old(own), phys.view, own, kernelDir, from, to)
      ensures to == -1 ==> OldPagesKept(old(phys.view), old(own), phys.view)
      ensures to == -1 ==> own == old(own) || exists p: nat :: p !in old(own) && own == old(own)[p := Leaked]
      ensures to == -1 ==> (own != old(own) <==> exists v: nat :: LosesPage(old(phys.view), from, v, old(alloc.Free())))
    {
      ghost var m0, own0, free := phys.view, own, alloc.Free();
      var dir := StartCopy(from);
      if dir == 0 {
        return -1;
      }
      ghost var m := phys.view;
      var g;
      ghost var stop;
      g, stop := CopyUserPages(from, dir, m, own0[dir := Directory]);
      if g.Given1? {
        CopyDone(m0, own0, m, from, dir, free);
        return dir;
      }
      UndoCopy(m0, own0, m, from, dir, g, stop, free);
      return -1;
    }

    /** The new directory; 0 when there is no page for it. */
    method StartCopy(from: nat) returns (to: nat)
      requires Valid() && IsDirectory(own, from) && from == cr3
      modifies phys, phys.pages, alloc, alloc.bitmap.bits, this`own
      ensures Valid() && (to == 0 <==> old(alloc.Free()) == 0)
      ensures to == 0 ==> phys.view == old(phys.view) && own == old(own)
      ensures to != 0 ==>
        && own == old(own)[to := Directory] && CopyAt(phys.view, own, from, to, USER_PDE * PTE_CNT)
        && CopyBegan(old(phys.view), old(own), phys.view, from, to, old(alloc.Free()))
    {
      ghost var own0 := own;
      to := CreateUvm();
      if to != 0 {
        assert from in own0 && to in own;
        CopyStarts(phys.view, own, kernelDir, from, to);
      }
    }

    lemma CopyDone(m0: seq<Page>, own0: Owners, m: seq<Page>, from: nat, to: nat, free: int)
      requires CopyBegan(m0, own0, m, from, to, free) && CopyAt(m, own0[to := Directory], from, to, VPN_END)
      ensures Valid() && IsCopyOf(m0, own0, phys.view, own, kernelDir, from, to)
      ensures 1 + PagesToCopy(m0, from, VPN_END) <= free
    {
      assert Unfolded(Seal);
      assert Unsealed(Seal);
      CopyComplete(m0, own0, m, phys.view, own, kernelDir, from, to);
      SameToCopyNow(m0, m, own0, kernelDir, from);
      assert |own| == |alloc.used|;
    }

    /** A copy that stopped is destroyed. */
    method UndoCopy(ghost m0: seq<Page>, ghost own0: Owners, ghost m: seq<Page>, ghost from: nat, dir: nat, g: Giving,
        ghost stop: Stop, ghost free: int)
      requires CopyBegan(m0, own0, m, from, dir, free) && CopyStopped(m, own0[dir := Directory], from, dir, g, stop)
      modifies alloc, alloc.bitmap.bits, this`own
      ensures Valid() && phys.view == old(phys.view) && OldPagesKept(m0, own0, phys.view)
      ensures own == own0 || exists p: nat :: p !in own0 && own == own0[p := Leaked]
      ensures free < 1 + PagesToCopy(m0, from, VPN_END)
      ensures own != own0 <==> exists v: nat :: LosesPage(m0, from, v, free)
    {
      StopCounted(m0, own0, m, from, dir, g, stop, free);
      DestroyUvm(dir);
    }

    lemma StopCounted(m0: seq<Page>, own0: Owners, m: seq<Page>, from: nat, dir: nat, g: Giving, stop: Stop, free: int)
      requires CopyBegan(m0, own0, m, from, dir, free) && CopyStopped(m, own0[dir := Directory], from, dir, g, stop)
      ensures Valid() && IsDirectory(own, dir) && OldPagesKept(m0, own0, phys.view)
      ensures (g.NoTable? ==> stop.lost !in own0)
      ensures Without(own, dir) == if g.NoTable? then own0[stop.lost := Leaked] else own0
      ensures free < 1 + PagesToCopy(m0, from, VPN_END)
      ensures g.NoTable? <==> exists v: nat :: LosesPage(m0, from, v, free)
    {
      assert Unsealed(Seal);
      OldPages(m0, own0, m, phys.view, kernelDir, dir);
      AllGivenBack(m0, own0, stop.kept, kernelDir, dir);
      assert |own| == |alloc.used| && |own0[dir := Directory]| == |own0| + 1;
      CopyOutcome(m, from, stop.at, free, g.NoTable?);
      SameToCopyNow(m0, m, own0, kernelDir, from);
    }

    /** memory_free_page for a page that the kernel holds */
    method FreeKernelPage(f: nat)
      requires Valid() && f in own && own[f] == Kernel
      modifies alloc, alloc.bitmap.bits, this`own
      ensures Valid() && own == old(own) - {f}
    {
      FreePage(f);
      KernelPageFreed(phys.view, own, kernelDir, f);
      own := own - {f};
    }
  }
}
