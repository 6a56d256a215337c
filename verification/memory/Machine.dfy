/** The machine the memory manager runs on: 32-bit words, 4 KB pages, one array of physical pages.
    The kernel range is identity mapped, so the kernel reaches every page by its physical address. */
module Machine {
  import opened Widths

  const PAGE_SIZE := 4096
  const PDE_CNT := 1024
  const PTE_CNT := 1024
  const PTE_P := 1
  const PTE_W := 2
  const PTE_U := 4
  const MEM_EXT_START := 0x10_0000
  const MEMORY_TASK_BASE := 0x8000_0000
  const MEM_TASK_STACK_TOP := 0xE000_0000
  const MEM_TASK_STACK_SIZE := 500 * PAGE_SIZE

  type Word = U32
  type Page = p: seq<Word> | |p| == PTE_CNT witness seq(PTE_CNT, _ => 0)

  /** up2(size, MEM_PAGE_SIZE) / MEM_PAGE_SIZE */
  function PageCount(size: Word): nat { Add32(size, PAGE_SIZE - 1) / PAGE_SIZE }

  /** It is the least number of pages that hold the bytes, exactly when rounding up does not overflow. */
  lemma PageCountIsLeast(size: Word)
    ensures size <= PageCount(size) * PAGE_SIZE < size + PAGE_SIZE <==> size + PAGE_SIZE <= 0x1_0000_0000
  {
    if size + PAGE_SIZE > 0x1_0000_0000 {
      assert PageCount(size) == 0;
    }
  }

  function ZeroedPage(): (p: Page)
    ensures forall i | 0 <= i < PTE_CNT :: p[i] == 0
  {
    seq(PTE_CNT, _ => 0)
  }

  /** Unsigned 32-bit arithmetic. */
  function Add32(a: Word, b: Word): Word { (a + b) % 0x1_0000_0000 }
  function Sub32(a: Word, b: Word): Word { (a - b) % 0x1_0000_0000 }

  function SetPage(m: seq<Page>, f: nat, p: Page): seq<Page>
    requires f < |m|
  {
    m[f := p]
  }

  function SetWord(m: seq<Page>, f: nat, i: nat, w: Word): seq<Page>
    requires f < |m| && i < PTE_CNT
  {
    SetPage(m, f, m[f][i := w])
  }

  /** Physical memory: page frame `f` holds the bytes of addresses `f * PAGE_SIZE` and up. */
  class PhysicalMemory {
    const pages: array<Page>
    ghost var view: seq<Page>

    ghost predicate Valid()
      reads this, pages
    {
      view == pages[..]
    }

    constructor (frames: nat)
      ensures Valid() && pages.Length == frames && fresh(pages)
      ensures view == seq(frames, _ => ZeroedPage())
    {
      pages := new Page[frames](_ => ZeroedPage());
      view := seq(frames, _ => ZeroedPage());
    }

    method ReadWord(f: nat, i: nat) returns (w: Word)
      requires Valid() && f < |view| && i < PTE_CNT
      ensures w == view[f][i]
    {
      w := pages[f][i];
    }

    method WriteWord(f: nat, i: nat, w: Word)
      requires Valid() && f < |view| && i < PTE_CNT
      modifies this, pages
      ensures Valid() && view == SetWord(old(view), f, i, w)
    {
      pages[f] := pages[f][i := w];
      view := SetWord(view, f, i, w);
    }

    /** kernel_memset(page, 0, MEM_PAGE_SIZE) */
    method ZeroPage(f: nat)
      requires Valid() && f < |view|
      modifies this, pages
      ensures Valid() && view == SetPage(old(view), f, ZeroedPage())
    {
      for i := 0 to PTE_CNT
        invariant |view| == pages.Length && view == old(view)
        invariant forall g | 0 <= g < pages.Length && g != f :: pages[g] == view[g]
        invariant forall k | 0 <= k < i :: pages[f][k] == 0
      {
        pages[f] := pages[f][i := 0];
      }
      assert pages[f] == ZeroedPage();
      view := SetPage(view, f, ZeroedPage());
    }

    /** kernel_memcpy(to, from, MEM_PAGE_SIZE) between two whole pages */
    method CopyPage(to: nat, from: nat)
      requires Valid() && to < |view| && from < |view| && to != from
      modifies this, pages
      ensures Valid() && view == SetPage(old(view), to, old(view)[from])
    {
      for i := 0 to PTE_CNT
        invariant |view| == pages.Length && view == old(view)
        invariant forall g | 0 <= g < pages.Length && g != to :: pages[g] == view[g]
        invariant forall k | 0 <= k < i :: pages[to][k] == view[from][k]
      {
        pages[to] := pages[to][i := pages[from][i]];
      }
      assert pages[to] == view[from];
      view := SetPage(view, to, view[from]);
    }
  }
}
