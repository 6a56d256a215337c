/** The kernel's own page tables: the state in which boot leaves memory. */
module KernelTables {
  import opened Machine
  import opened Seals
  import opened PageTables
  import opened Rights
  import opened MemoryManagers

  /** memory_map_t: virtual addresses from `vstart` up to `vend`, mapped to those from `pstart` on. */
  datatype MemoryMap = MemoryMap(vstart: Word, vend: Word, pstart: Word, perm: nat)

  function FirstPage(g: MemoryMap): nat { FrameOf(g.vstart) }

  /** (up2(vend) - down2(vstart)) / MEM_PAGE_SIZE */
  function Pages(g: MemoryMap): nat
    requires g.vstart <= g.vend
  {
    (g.vend + PAGE_SIZE - 1) / PAGE_SIZE - FirstPage(g)
  }

  /** An entry of the table kernel_map: below the user half, with a physical page to begin at. */
  predicate Sound(g: MemoryMap) {
    && g.vstart <= g.vend <= MEMORY_TASK_BASE && g.perm < PAGE_SIZE
    && g.pstart % PAGE_SIZE == 0 && FrameOf(g.pstart) + Pages(g) <= VPN_END
  }

  type Region = g: MemoryMap | Sound(g) witness MemoryMap(0, 0, 0, 0)

  predicate In(g: Region, v: nat) {
    FirstPage(g) <= v < FirstPage(g) + Pages(g)
  }

  /** A region is made of the pages from that of its first address up to its end. */
  lemma PagesOfRegion(g: Region, v: nat)
    ensures In(g, v) <==> FrameOf(g.vstart) <= v && v * PAGE_SIZE < g.vend
  {
  }

  /** No page is in two regions: memory_create_map stops the kernel on a page that is mapped already. */
  ghost predicate Apart(regions: seq<Region>) {
    forall i, j, v: nat | 0 <= i < j < |regions| && In(regions[i], v) :: !In(regions[j], v)
  }

  /** The entry that the regions give to page `v`; 0 when it is in none. */
  function EntryFor(regions: seq<Region>, v: nat): Word
  {
    if |regions| == 0 then 0
    else
      var rest, g := regions[..|regions| - 1], regions[|regions| - 1];
      if In(g, v) then MakeEntry(FrameOf(g.pstart) + (v - FirstPage(g)), g.perm) else EntryFor(rest, v)
  }

  /** The directory entries that the pages of the regions need. */
  function TablesOf(regions: seq<Region>): set<nat>
  {
    if |regions| == 0 then {}
    else
      var g := regions[|regions| - 1];
      TablesOf(regions[..|regions| - 1]) + Reached(FirstPage(g), Pages(g))
  }

  function Reached(v0: nat, n: nat): set<nat> {
    set i: nat | i < PDE_CNT && Covers(v0, n, i)
  }

  lemma {:induction false} TablesOfGrows(regions: seq<Region>, k: nat)
    requires k <= |regions|
    ensures TablesOf(regions[..k]) <= TablesOf(regions) && |TablesOf(regions[..k])| <= |TablesOf(regions)|
  {
    if k < |regions| {
      TablesOfGrows(regions[..|regions| - 1], k);
      assert regions[..|regions| - 1][..k] == regions[..k];
    } else {
      assert regions[..k] == regions;
    }
    Smaller(TablesOf(regions[..k]), TablesOf(regions));
  }

  lemma Smaller(a: set<nat>, b: set<nat>)
    requires a <= b
    ensures |a| <= |b|
  {
    assert b == a + (b - a);
  }

  /** The count of missing tables is the number of directory entries reached and not present. */
  lemma {:induction false} TablesNeededCounts(m: seq<Page>, d: nat, v0: nat, n: nat, there: set<nat>)
    requires v0 + n <= VPN_END && forall i: nat | i < PDE_CNT :: Present(Entry(m, d, i)) <==> i in there
    ensures |there + Reached(v0, n)| == |there| + TablesNeeded(m, d, v0, n)
  {
    if n == 0 {
      assert there + Reached(v0, 0) == there;
    } else {
      TablesNeededCounts(m, d, v0, n - 1, there);
      var last := (v0 + n - 1) / PTE_CNT;
      assert last < PDE_CNT;
      LastReached(v0, n, last);
      var before := there + Reached(v0, n - 1);
      assert last in before <==> !NeedsTable(m, d, v0, n - 1);
      assert there + Reached(v0, n) == before + {last};
    }
  }

  lemma LastReached(v0: nat, n: nat, last: nat)
    requires n > 0 && v0 + n <= VPN_END && last == (v0 + n - 1) / PTE_CNT
    ensures Reached(v0, n) == Reached(v0, n - 1) + {last} && (last in Reached(v0, n - 1) <==> Covers(v0, n - 1, last))
  {
    forall i: nat
      ensures Covers(v0, n, i) <==> Covers(v0, n - 1, i) || i == last
    {
    }
  }

  /** Before the first task is made, all pages in use are tables of the kernel. */
  ghost predicate OnlyKernelTables(own: Owners, kd: nat) {
    forall f: nat {:trigger own[f]} {:trigger f in own} | f in own :: own[f].Table? && own[f].dir == kd
  }

  lemma NoTasksYet(m: seq<Page>, own: Owners, kd: nat)
    requires TablesOk(m, own, kd) && OnlyKernelTables(own, kd)
    ensures Inv(m, own, kd)
  {
  }

  lemma StillKernelTables(m: seq<Page>, own: Owners, m': seq<Page>, own': Owners, kd: nat, v0: nat, first: nat,
      perm: nat, n: nat)
    requires perm < PAGE_SIZE && first + n <= VPN_END && Mapped(m, own, m', own', kd, kd, v0, first, perm, n)
    requires OnlyKernelTables(own, kd)
    ensures OnlyKernelTables(own', kd)
  {
    assert Unfolded(Seal);
    forall f: nat | f in own'
      ensures own'[f].Table? && own'[f].dir == kd
    {
      assert f in own ==> own'[f] == own[f];
    }
  }

  ghost predicate KernelMapped(m: seq<Page>, kd: nat, regions: seq<Region>) {
    forall v: nat {:trigger Pte(m, kd, v)} | v < VPN_END :: Pte(m, kd, v) == EntryFor(regions, v)
  }

  lemma {:induction false} EntryInRegion(regions: seq<Region>, i: nat, v: nat)
    requires Apart(regions) && i < |regions| && In(regions[i], v)
    ensures var g := regions[i]; EntryFor(regions, v) == MakeEntry(FrameOf(g.pstart) + (v - FirstPage(g)), g.perm)
  {
    var rest := regions[..|regions| - 1];
    if i < |rest| {
      assert forall j | 0 <= j < |rest| :: rest[j] == regions[j];
      assert !In(regions[|rest|], v);
      EntryInRegion(rest, i, v);
    }
  }

  lemma {:induction false} EntryElsewhere(regions: seq<Region>, v: nat)
    requires forall i: nat | i < |regions| :: !In(regions[i], v)
    ensures EntryFor(regions, v) == 0
  {
    if |regions| > 0 {
      var rest := regions[..|regions| - 1];
      assert forall j | 0 <= j < |rest| :: rest[j] == regions[j];
      EntryElsewhere(rest, v);
    }
  }

  /** Where the kernel's addresses lead: each address of a region to the place as far from the region's first
      page as it is itself, with the rights that the region's flags name; to nothing for all other pages. */
  lemma KernelAddress(m: seq<Page>, own: Owners, kd: nat, regions: seq<Region>, i: nat, a: Word, v: nat)
    requires TablesOk(m, own, kd) && KernelMapped(m, kd, regions) && Apart(regions)
    requires i < |regions| && regions[i].vstart <= a < regions[i].vend && v == a / PAGE_SIZE
    ensures Present(Pte(m, kd, v))
    ensures var g := regions[i];
      FrameOf(Pte(m, kd, v)) * PAGE_SIZE + a % PAGE_SIZE == g.pstart + (a - FirstPage(g) * PAGE_SIZE)
    ensures UserReads(m, kd, v) <==> ForUsers(regions[i].perm)
    ensures UserWrites(m, kd, v) <==> ForUsers(regions[i].perm) && Writable(regions[i].perm)
  {
    var g := regions[i];
    PagesOfRegion(g, v);
    EntryInRegion(regions, i, v);
    MadeRights(FrameOf(g.pstart) + (v - FirstPage(g)), g.perm, Pte(m, kd, v));
    assert IsRoot(own, kd, kd) && Mappable(kd, kd, v);
    RightsOfEntry(m, own, kd, kd, v);
  }

  lemma KernelElsewhere(m: seq<Page>, kd: nat, regions: seq<Region>, v: nat)
    requires KernelMapped(m, kd, regions) && v < VPN_END
    requires forall i: nat | i < |regions| :: !(FrameOf(regions[i].vstart) <= v && v * PAGE_SIZE < regions[i].vend)
    ensures Pte(m, kd, v) == 0
  {
    forall i: nat | i < |regions|
      ensures !In(regions[i], v)
    {
      PagesOfRegion(regions[i], v);
    }
    EntryElsewhere(regions, v);
  }

  /** The first `n` regions are mapped, nothing else is, and that took exactly the tables they need. */
  ghost predicate Done(m: seq<Page>, own: Owners, kd: nat, regions: seq<Region>)
  {
    && KernelMapped(m, kd, regions)
    && (forall i: nat {:trigger Entry(m, kd, i)} | i < PDE_CNT :: Present(Entry(m, kd, i)) <==> i in TablesOf(regions))
    && |own| == |TablesOf(regions)|
  }

  lemma OneRegionDone(m: seq<Page>, own: Owners, m': seq<Page>, own': Owners, kd: nat, before: seq<Region>,
      regions: seq<Region>)
    requires |regions| > 0 && before == regions[..|regions| - 1]
    requires Done(m, own, kd, before)
    requires var g := regions[|regions| - 1];
      Mapped(m, own, m', own', kd, kd, FirstPage(g), FrameOf(g.pstart), g.perm, Pages(g))
    ensures Done(m', own', kd, regions)
  {
    assert Unfolded(Seal);
    var g := regions[|regions| - 1];
    TablesNeededCounts(m, kd, FirstPage(g), Pages(g), TablesOf(before));
    forall v: nat | v < VPN_END
      ensures Pte(m', kd, v) == EntryFor(regions, v)
    {
      assert IsRoot(own, kd, kd) && Mappable(kd, kd, v);
    }
    forall i: nat | i < PDE_CNT
      ensures Present(Entry(m', kd, i)) <==> i in TablesOf(regions)
    {
      assert FirstPde(kd, kd) <= i;
    }
  }

  lemma NothingMapped(m: seq<Page>, own: Owners, kd: nat, regions: seq<Region>)
    requires own == map[]
    requires forall f: nat | f < |m| :: m[f] == ZeroedPage()
    ensures Done(m, own, kd, []) && Unmapped(m, kd, regions, 0) && OnlyKernelTables(own, kd)
  {
  }

  /** The pages of the regions from number `k` on are not mapped. */
  ghost predicate Unmapped(m: seq<Page>, kd: nat, regions: seq<Region>, k: nat)
  {
    forall i, v: nat {:trigger In(regions[i], v)} | k <= i < |regions| && In(regions[i], v) :: !Present(Pte(m, kd, v))
  }

  lemma StillUnmapped(m: seq<Page>, own: Owners, m': seq<Page>, own': Owners, kd: nat, regions: seq<Region>, k: nat,
      done: nat)
    requires Apart(regions) && k < |regions| && Unmapped(m, kd, regions, k) && done <= Pages(regions[k])
    requires var g := regions[k]; Mapped(m, own, m', own', kd, kd, FirstPage(g), FrameOf(g.pstart), g.perm, done)
    ensures Unmapped(m', kd, regions, k + 1)
  {
    assert Unfolded(Seal);
    forall i, v: nat | k + 1 <= i < |regions| && In(regions[i], v)
      ensures !Present(Pte(m', kd, v))
    {
      assert !In(regions[k], v);
      assert IsRoot(own, kd, kd) && Mappable(kd, kd, v);
    }
  }

  /** One region; whether all of it was mapped. */
  method MapRegion(mm: MemoryManager, g: Region, ghost regions: seq<Region>, ghost k: nat) returns (ok: bool)
    requires mm.Valid() && OnlyKernelTables(mm.own, mm.kernelDir) && Apart(regions) && k < |regions| && g == regions[k]
    requires Unmapped(mm.phys.view, mm.kernelDir, regions, k)
    modifies mm`own, mm.phys, mm.phys.pages, mm.alloc, mm.alloc.bitmap.bits
    ensures mm.Valid() && OnlyKernelTables(mm.own, mm.kernelDir) && Unmapped(mm.phys.view, mm.kernelDir, regions, k + 1)
    ensures ok <==> TablesNeeded(old(mm.phys.view), mm.kernelDir, FirstPage(g), Pages(g)) <= old(mm.alloc.Free())
    ensures ok ==>
      Mapped(old(mm.phys.view), old(mm.own), mm.phys.view, mm.own, mm.kernelDir, mm.kernelDir,
             FirstPage(g), FrameOf(g.pstart), g.perm, Pages(g))
  {
    ghost var m, own, kd := mm.phys.view, mm.own, mm.kernelDir;
    var vstart := FrameOf(g.vstart) * PAGE_SIZE;
    forall u: nat | FirstPage(g) <= u < FirstPage(g) + Pages(g)
      ensures !Present(Pte(m, kd, u))
    {
      assert In(regions[k], u);
    }
    var res, done := mm.CreateMap(mm.kernelDir, vstart, g.pstart, Pages(g), g.perm);
    ok := res == 0;
    StillKernelTables(m, own, mm.phys.view, mm.own, kd, FirstPage(g), FrameOf(g.pstart), g.perm, done);
    StillUnmapped(m, own, mm.phys.view, mm.own, kd, regions, k, done);
    NoTasksYet(mm.phys.view, mm.own, kd);
  }

  /** create_kernel_table: on the state that the constructor leaves. The result of a mapping is not looked at;
      all regions are mapped, and nothing else, exactly when there are enough pages for their tables. */
  method CreateKernelTable(mm: MemoryManager, regions: seq<Region>) returns (ghost complete: bool)
    requires mm.Valid() && mm.own == map[] && Apart(regions)
    requires forall f: nat | f < |mm.phys.view| :: mm.phys.view[f] == ZeroedPage()
    modifies mm`own, mm.phys, mm.phys.pages, mm.alloc, mm.alloc.bitmap.bits
    ensures mm.Valid() && OnlyKernelTables(mm.own, mm.kernelDir)
    ensures complete <==> |TablesOf(regions)| <= old(mm.alloc.Free())
    ensures complete ==> KernelMapped(mm.phys.view, mm.kernelDir, regions)
  {
    ghost var free := mm.alloc.Free();
    complete := true;
    NothingMapped(mm.phys.view, mm.own, mm.kernelDir, regions);
    for k := 0 to |regions|
      invariant mm.Valid() && OnlyKernelTables(mm.own, mm.kernelDir) && Unmapped(mm.phys.view, mm.kernelDir, regions, k)
      invariant complete ==>
        Done(mm.phys.view, mm.own, mm.kernelDir, regions[..k]) && |TablesOf(regions[..k])| + mm.alloc.Free() == free
      invariant !complete ==> |TablesOf(regions)| > free
    {
      ghost var m, own, left := mm.phys.view, mm.own, mm.alloc.Free();
      var ok := MapRegion(mm, regions[k], regions, k);
      if complete {
        TablesAfter(m, own, mm.kernelDir, regions, k);
        if ok {
          OneRegionDone(m, own, mm.phys.view, mm.own, mm.kernelDir, regions[..k], regions[..k + 1]);
        } else {
          TablesOfGrows(regions, k + 1);
          complete := false;
        }
      }
    }
    assert regions[..|regions|] == regions;
    assert mm.alloc.Free() >= 0;
  }

  lemma TablesAfter(m: seq<Page>, own: Owners, kd: nat, regions: seq<Region>, k: nat)
    requires k < |regions| && Done(m, own, kd, regions[..k])
    ensures regions[..k + 1][..k] == regions[..k] && regions[..k + 1][k] == regions[k]
    ensures |TablesOf(regions[..k + 1])|
      == |TablesOf(regions[..k])| + TablesNeeded(m, kd, FirstPage(regions[k]), Pages(regions[k]))
  {
    var u := regions[..k + 1];
    assert u[..|u| - 1] == regions[..k];
    TablesNeededCounts(m, kd, FirstPage(regions[k]), Pages(regions[k]), TablesOf(regions[..k]));
  }
}
