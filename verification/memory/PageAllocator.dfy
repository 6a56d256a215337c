/** Physical pages handed out one at a time from a bitmap. */
module PageAllocators {
  import opened Seals
  import opened Machine
  import opened Bitmaps

  /** `used` are the page frames that bitmap `bs` marks, when its first bit stands for frame `base`. */
  ghost predicate Marks(bs: seq<bool>, base: nat, used: set<nat>) {
    && (forall k: Seal | Unfolded(k) :: forall i: nat | i < |bs| :: bs[i] <==> base + i in used)
    && (forall f: nat | f in used :: base <= f < base + |bs|)
  }

  /** The page frames `first .. first + count`. */
  ghost function Run(first: nat, count: nat): set<nat> {
    set f: nat | first <= f < first + count && InRun(first, count, f)
  }

  predicate InRun(first: nat, count: nat, f: nat) {
    first <= f < first + count
  }

  lemma {:induction false} RunSize(first: nat, count: nat)
    ensures |Run(first, count)| == count
  {
    if count > 0 {
      RunSize(first, count - 1);
      assert Run(first, count) == Run(first, count - 1) + {first + count - 1};
    }
  }

  /** When the bitmap has no zero left, as many pages are used as there are bits; else fewer. */
  lemma NoneFree(bs: seq<bool>, base: nat, used: set<nat>)
    requires Marks(bs, base, used)
    ensures |used| <= |bs|
    ensures |used| == |bs| <==> forall i | 0 <= i < |bs| :: bs[i]
  {
    assert Unfolded(Seal);
    var all := Run(base, |bs|);
    RunSize(base, |bs|);
    assert used <= all;
    assert all == used + (all - used);
    if i :| 0 <= i < |bs| && !bs[i] {
      assert base + i in all - used;
    } else {
      forall f | f in all
        ensures f in used
      {
        assert bs[f - base];
      }
    }
  }

  lemma MarksAfterAlloc(bs: seq<bool>, bs': seq<bool>, base: nat, used: set<nat>, i: nat, f: nat)
    requires Marks(bs, base, used) && f == base + i
    requires FirstAccepted(bs, false, 1, i) && bs' == Filled(bs, i, 1, true)
    ensures f !in used && Marks(bs', base, used + {f}) && |used| < |bs| && |used + {f}| <= |bs|
  {
    assert Unfolded(Seal);
    NoneFree(bs, base, used);
    assert Accepts(bs, false, 1, i);
    assert !bs[i];
  }

  lemma MarksAfterFree(bs: seq<bool>, base: nat, used: set<nat>, i: nat, count: nat, used': set<nat>)
    requires Marks(bs, base, used) && used' == used - Run(base + i, count)
    ensures Marks(Filled(bs, i, count, false), base, used') && |used'| <= |used|
  {
    assert used == used' + (used - used');
    assert Unfolded(Seal);
  }

  lemma NothingAccepted(bs: seq<bool>, base: nat, used: set<nat>)
    requires Marks(bs, base, used) && forall s: nat :: !Accepts(bs, false, 1, s)
    ensures |used| == |bs|
  {
    forall s: nat | s < |bs|
      ensures bs[s]
    {
      assert !Accepts(bs, false, 1, s);
    }
    NoneFree(bs, base, used);
  }

  lemma PageAddress(start: nat, index: nat)
    requires start % PAGE_SIZE == 0
    ensures (start + index * PAGE_SIZE) / PAGE_SIZE == start / PAGE_SIZE + index
    ensures (start + index * PAGE_SIZE) % PAGE_SIZE == 0
  {
  }

  /** The set of used pages and the bitmap determine each other. */
  lemma UsedDeterminesBitmap(bs: seq<bool>, bs': seq<bool>, base: nat, used: set<nat>)
    requires |bs| == |bs'| && Marks(bs, base, used) && Marks(bs', base, used)
    ensures bs == bs'
  {
    assert Unfolded(Seal);
  }

  class PageAllocator {
    const start: Word
    const size: Word
    const bitmap: Bitmap
    ghost var used: set<nat>

    ghost predicate Valid()
      reads this, bitmap, bitmap.bits
    {
      && bitmap.Valid()
      && WholePages() && bitmap.bitCount == size / PAGE_SIZE
      && Marks(bitmap.View(), start / PAGE_SIZE, used)
      && |used| <= size / PAGE_SIZE
    }

    /** Managed memory is made of pages and lies below the user half of the address space. */
    predicate WholePages() {
      start % PAGE_SIZE == 0 && size % PAGE_SIZE == 0 && 0 < start && start + size <= MEMORY_TASK_BASE
    }

    /** The page frames that the allocator manages. */
    predicate Manages(f: nat) {
      start / PAGE_SIZE <= f < (start + size) / PAGE_SIZE
    }

    /** How many pages are still free. */
    ghost function Free(): int
      reads this
    {
      size / PAGE_SIZE - |used|
    }

    constructor (bits: array<bv8>, start: Word, size: Word)
      requires start % PAGE_SIZE == 0 && size % PAGE_SIZE == 0 && 0 < start && start + size <= MEMORY_TASK_BASE
      requires ByteCount(size / PAGE_SIZE) <= bits.Length
      modifies bits
      ensures Valid() && this.start == start && this.size == size && fresh(bitmap) && bitmap.bits == bits
      ensures used == {} && bitmap.View() == seq(size / PAGE_SIZE, _ => false)
    {
      this.start := start;
      this.size := size;
      bitmap := new Bitmap.Init(bits, size / PAGE_SIZE, false);
      used := {};
    }

    /** Returns the address of a page that was free, or 0 when every page is in use. */
    method AllocPage() returns (addr: Word)
      requires Valid()
      modifies this, bitmap.bits
      ensures Valid()
      ensures addr == 0 <==> old(Free()) == 0
      ensures addr == 0 ==> used == old(used)
      ensures addr != 0 ==>
        && addr % PAGE_SIZE == 0 && Manages(addr / PAGE_SIZE)
        && addr / PAGE_SIZE !in old(used) && used == old(used) + {addr / PAGE_SIZE}
    {
      ghost var bs := bitmap.View();
      addr := 0;
      var index := bitmap.AllocBits(false, 1);
      if index >= 0 {
        addr := AddressOf(index);
        ghost var f := addr / PAGE_SIZE;
        MarksAfterAlloc(bs, bitmap.View(), start / PAGE_SIZE, used, index, f);
        used := used + {f};
      } else {
        NothingAccepted(bs, start / PAGE_SIZE, used);
      }
    }

    /** Gives back `count` pages; pages outside the managed range are ignored. For an address below it the
        index wraps around and lies past the bitmap. */
    method FreePages(addr: Word, count: nat)
      requires Valid()
      modifies this, bitmap.bits
      ensures Valid()
      ensures used == if start <= addr then old(used) - Run(addr / PAGE_SIZE, count) else old(used)
    {
      var index := IndexOf(addr);
      ghost var bs, base := bitmap.View(), start / PAGE_SIZE;
      RunFreed(addr, index, count);
      bitmap.SetBit(index, count, false);
      ghost var used' := used - Run(base + index, count);
      MarksAfterFree(bs, base, used, index, count, used');
      used := used';
    }

    /** The address of the page that a bit stands for. */
    method AddressOf(index: nat) returns (addr: Word)
      requires WholePages() && index < size / PAGE_SIZE
      ensures addr != 0 && addr % PAGE_SIZE == 0 && Manages(addr / PAGE_SIZE)
      ensures addr / PAGE_SIZE == start / PAGE_SIZE + index
    {
      PageAddress(start, index);
      addr := start + index * PAGE_SIZE;
    }

    /** The bit of a page address; past the end for addresses below the managed ones. */
    method IndexOf(addr: Word) returns (index: nat)
      requires WholePages()
      ensures if start <= addr then start / PAGE_SIZE + index == addr / PAGE_SIZE else size / PAGE_SIZE <= index
    {
      index := Sub32(addr, start) / PAGE_SIZE;
    }

    lemma RunFreed(addr: Word, index: nat, count: nat)
      requires Valid()
      requires if start <= addr then start / PAGE_SIZE + index == addr / PAGE_SIZE else size / PAGE_SIZE <= index
      ensures used - Run(start / PAGE_SIZE + index, count) ==
        if start <= addr then used - Run(addr / PAGE_SIZE, count) else used
    {
      assert Unfolded(Seal);
    }
  }
}
