/** Moving bytes from the active address space into another one. */
module CopyData {
  import opened Widths
  import opened Machine
  import opened Seals
  import opened PageTables
  import opened MemoryManagers
  import opened Bytes

  function ActiveBytes(m: seq<Page>, cur: nat, from: nat, n: nat): (bs: seq<Byte>)
    ensures |bs| == n && forall k | 0 <= k < n :: bs[k] == ActiveByte(m, cur, from + k)
  {
    seq<Byte>(n, k requires 0 <= k < n => ActiveByte(m, cur, from + k))
  }

  ghost predicate AllReadable(m: seq<Page>, own: Owners, cur: nat, from: nat, n: nat) {
    forall a: nat {:trigger Readable(m, own, cur, a)} | from <= a < from + n :: Readable(m, own, cur, a)
  }

  ghost predicate AllMapped(m: seq<Page>, d: nat, to: nat, n: nat) {
    forall x: nat {:trigger IsMapped(m, d, x)} | to <= x < to + n :: IsMapped(m, d, x)
  }

  predicate HasTable(m: seq<Page>, d: nat, x: nat) {
    Present(Entry(m, d, x / PAGE_SIZE / PTE_CNT))
  }

  /** Copying `n` bytes for directory `d` since image `m`. */
  ghost predicate Moving(mm: MemoryManager, m: seq<Page>, d: nat, to: nat, from: nat, n: nat)
    reads mm, mm.phys, mm.phys.pages, mm.alloc, mm.alloc.bitmap, mm.alloc.bitmap.bits
  {
    && mm.Valid() && Inv(m, mm.own, mm.kernelDir) && IsDirectory(mm.own, d) && IsDirectory(mm.own, mm.cr3)
    && d != mm.cr3
    && Patched(m, mm.phys.view, mm.own, d, to, ActiveBytes(m, mm.cr3, from, n))
  }

  /** memory_get_paddr: the physical address, or 0 when the page has no table. */
  method GetPaddr(mm: MemoryManager, d: nat, va: Word) returns (pa: Word)
    requires mm.Valid() && IsDirectory(mm.own, d) && MEMORY_TASK_BASE <= va
    ensures pa == if HasTable(mm.phys.view, d, va)
      then FrameOf(Pte(mm.phys.view, d, va / PAGE_SIZE)) * PAGE_SIZE + va % PAGE_SIZE else 0
  {
    var pde := mm.phys.ReadWord(d, FrameOf(va) / PTE_CNT);
    if !Present(pde) {
      return 0;
    }
    var e := mm.Translate(d, FrameOf(va), va);
    return FrameOf(e) * PAGE_SIZE + va % PAGE_SIZE;
  }

  /** Reads a byte the way the processor does. */
  method ReadActive(mm: MemoryManager, a: Word) returns (b: Byte)
    requires mm.Valid() && IsDirectory(mm.own, mm.cr3) && Readable(mm.phys.view, mm.own, mm.cr3, a)
    ensures b == ActiveByte(mm.phys.view, mm.cr3, a)
  {
    var f := a / PAGE_SIZE;
    if a >= MEMORY_TASK_BASE {
      assert IsRoot(mm.own, mm.kernelDir, mm.cr3);
      Target(mm.phys.view, mm.own, mm.kernelDir, mm.cr3, a);
      var e := mm.Translate(mm.cr3, f, a);
      f := FrameOf(e);
    }
    var w := mm.phys.ReadWord(f, a % PAGE_SIZE / 4);
    return ByteOf(w, a % PAGE_SIZE % 4);
  }

  /** Writes the byte at a physical address, which is byte `o` of page `f`. */
  method WriteByte(mm: MemoryManager, pa: Word, ghost f: nat, ghost o: nat, b: Byte)
    requires mm.phys.Valid() && f < |mm.phys.view| && o < PAGE_SIZE && pa == f * PAGE_SIZE + o
    modifies mm.phys, mm.phys.pages
    ensures mm.phys.Valid() && mm.phys.view == SetPageByte(old(mm.phys.view), f, o, b)
  {
    assert FrameOf(pa) == f && pa % PAGE_SIZE == o;
    var w := mm.phys.ReadWord(FrameOf(pa), pa % PAGE_SIZE / 4);
    mm.phys.WriteWord(FrameOf(pa), pa % PAGE_SIZE / 4, WithByte(w, pa % PAGE_SIZE % 4, b));
  }

  // ----- kernel_memcpy

  /** The page that holds the byte at address `a` while directory `d` is active. */
  function SourceFrame(m: seq<Page>, d: nat, a: nat): nat {
    if a < MEMORY_TASK_BASE then a / PAGE_SIZE else FrameOf(Pte(m, d, a / PAGE_SIZE))
  }

  /** Bytes that can be read, none of them in page `f`. */
  ghost predicate SourceAt(m: seq<Page>, own: Owners, cur: nat, from: nat, n: nat, f: nat) {
    && AllReadable(m, own, cur, from, n)
    && forall a: nat {:trigger SourceFrame(m, cur, a)} | from <= a < from + n :: SourceFrame(m, cur, a) != f
  }

  /** Writing a page without tables moves no page, and no byte in another page. */
  lemma StoredKeeps(m: seq<Page>, m': seq<Page>, own: Owners, kd: nat, f: nat)
    requires Inv(m, own, kd) && !HoldsTables(own, f) && f != kd && |m'| == |m|
    requires forall g: nat {:trigger m'[g]} | g < |m| && g != f :: m'[g] == m[g]
    ensures Inv(m', own, kd) && SameTranslations(m, m', own, kd)
  {
    OnlyTablesMatter(m, m', own, kd);
  }

  lemma SourceSame(m: seq<Page>, m': seq<Page>, own: Owners, kd: nat, cur: nat, f: nat, a: nat)
    requires Inv(m, own, kd) && !HoldsTables(own, f) && f != kd && |m'| == |m| && IsDirectory(own, cur) && cur != kd
    requires forall g: nat {:trigger m'[g]} | g < |m| && g != f :: m'[g] == m[g]
    requires Readable(m, own, cur, a) && SourceFrame(m, cur, a) != f
    ensures Readable(m', own, cur, a) && ActiveByte(m', cur, a) == ActiveByte(m, cur, a)
  {
    StoredKeeps(m, m', own, kd, f);
    if a >= MEMORY_TASK_BASE {
      UserPage(m, own, kd, cur, a);
    }
  }

  lemma StoredNext(m: seq<Page>, m1: seq<Page>, m2: seq<Page>, f: nat, o: nat, cur: nat, from: nat, i: nat, b: Byte,
    at: nat, y: nat)
    requires Stored(m, m1, f, o, ActiveBytes(m, cur, from, i)) && at == o + i < PAGE_SIZE
    requires y == from + i && b == ActiveByte(m, cur, y) && m2 == SetPageByte(m1, f, at, b)
    ensures Stored(m, m2, f, o, ActiveBytes(m, cur, from, i + 1))
  {
    assert ActiveBytes(m, cur, from, i + 1) == ActiveBytes(m, cur, from, i) + [b];
    StoreByte(m, m1, f, o, ActiveBytes(m, cur, from, i), b, at);
  }

  /** kernel_memcpy to a physical address, which is offset `o` of page `f`. */
  method CopyBytes(mm: MemoryManager, pa: Word, from: Word, count: nat, ghost f: nat, ghost o: nat)
    requires mm.Valid() && IsDirectory(mm.own, mm.cr3) && f < |mm.phys.view|
    requires !HoldsTables(mm.own, f) && f != mm.kernelDir && pa == f * PAGE_SIZE + o && o + count <= PAGE_SIZE
    requires from + count <= 0x1_0000_0000 && SourceAt(mm.phys.view, mm.own, mm.cr3, from, count, f)
    modifies mm.phys, mm.phys.pages
    ensures mm.Valid()
    ensures Stored(old(mm.phys.view), mm.phys.view, f, o, ActiveBytes(old(mm.phys.view), mm.cr3, from, count))
  {
    ghost var m := mm.phys.view;
    for i := 0 to count
      invariant mm.Valid() && Stored(m, mm.phys.view, f, o, ActiveBytes(m, mm.cr3, from, i))
    {
      CopyNext(mm, pa, from, i, count, m, f, o);
    }
  }

  method CopyNext(mm: MemoryManager, pa: Word, from: Word, i: nat, ghost count: nat, ghost m: seq<Page>, ghost f: nat,
    ghost o: nat)
    requires mm.Valid() && IsDirectory(mm.own, mm.cr3) && f < |m| && i < count && Inv(m, mm.own, mm.kernelDir)
    requires !HoldsTables(mm.own, f) && f != mm.kernelDir && pa == f * PAGE_SIZE + o && o + count <= PAGE_SIZE
    requires from + count <= 0x1_0000_0000 && SourceAt(m, mm.own, mm.cr3, from, count, f)
    requires Stored(m, mm.phys.view, f, o, ActiveBytes(m, mm.cr3, from, i))
    modifies mm.phys, mm.phys.pages
    ensures mm.Valid() && Stored(m, mm.phys.view, f, o, ActiveBytes(m, mm.cr3, from, i + 1))
  {
    ghost var m1, at := mm.phys.view, o + i;
    var y := from + i;
    assert Readable(m, mm.own, mm.cr3, y) && SourceFrame(m, mm.cr3, y) != f;
    SourceSame(m, m1, mm.own, mm.kernelDir, mm.cr3, f, y);
    var b := ReadActive(mm, y);
    WriteByte(mm, pa + i, f, at, b);
    StoredNext(m, m1, mm.phys.view, f, o, mm.cr3, from, i, b, at, y);
    StoredKeeps(m1, mm.phys.view, mm.own, mm.kernelDir, f);
  }

  lemma Target(m: seq<Page>, own: Owners, kd: nat, d: nat, x: nat)
    requires Inv(m, own, kd) && IsDirectory(own, d) && d != kd && IsMapped(m, d, x)
    ensures FrameOf(Pte(m, d, x / PAGE_SIZE)) in own && FrameOf(Pte(m, d, x / PAGE_SIZE)) < |m|
  {
    assert Unfolded(Seal);
    assert Mappable(kd, d, x / PAGE_SIZE);
    assert own[FrameOf(Pte(m, d, x / PAGE_SIZE))] == Data(d, x / PAGE_SIZE);
  }

  lemma SamePage(x: nat, k: nat)
    requires x % PAGE_SIZE + k < PAGE_SIZE
    ensures (x + k) / PAGE_SIZE == x / PAGE_SIZE && (x + k) % PAGE_SIZE == x % PAGE_SIZE + k
  {
  }

  // ----- an address that has a table and no page

  /** The address has a page. */
  ghost predicate There(m: seq<Page>, d: nat, x: nat) {
    forall seal: Seal {:trigger Unsealed(seal)} | Unsealed(seal) :: IsMapped(m, d, x)
  }

  /** The empty entry names physical page 0: what is sent to such an address lands there. At the start of a
      page the physical address is 0, which reads as a missing table. */
  ghost predicate GoesToZero(m: seq<Page>, d: nat, x: nat) {
    forall seal: Seal {:trigger Unsealed(seal)} | Unsealed(seal) ::
      HasTable(m, d, x) && !IsMapped(m, d, x) && x % PAGE_SIZE != 0
  }

  /** What is left of a page, or of the copy. */
  function ChunkSize(x: nat, left: nat): nat {
    if PAGE_SIZE - x % PAGE_SIZE > left then left else PAGE_SIZE - x % PAGE_SIZE
  }

  ghost predicate IsChunk(x: nat, left: nat, n: nat) {
    forall seal: Seal {:trigger Unsealed(seal)} | Unsealed(seal) :: n == ChunkSize(x, left)
  }

  /** How many bytes of a copy to address `to` land in physical page 0. */
  ghost function Astray(m: seq<Page>, d: nat, to: nat, size: nat): nat {
    if GoesToZero(m, d, to) then ChunkSize(to, size) else 0
  }

  /** The page that the bytes sent to address `x` go to. */
  ghost function FrameAt(m: seq<Page>, d: nat, x: nat): nat {
    if There(m, d, x) then FrameOf(Pte(m, d, x / PAGE_SIZE)) else 0
  }

  /** The physical address of the byte that comes next. */
  method NextPlace(mm: MemoryManager, d: nat, to: Word, ghost m: seq<Page>, ghost to0: nat, ghost from0: nat,
      ghost n: nat)
    returns (pa: Word)
    requires Moving(mm, m, d, to0, from0, n) && to == to0 + n && MEMORY_TASK_BASE <= to
    ensures pa == 0 <==> !There(m, d, to) && !GoesToZero(m, d, to)
    ensures There(m, d, to) ==> pa == FrameAt(m, d, to) * PAGE_SIZE + to % PAGE_SIZE
    ensures GoesToZero(m, d, to) ==> pa == to % PAGE_SIZE
  {
    assert Unsealed(Seal);
    pa := GetPaddr(mm, d, to);
    assert !UserPageOf(mm.own, d, d);
    assert HasTable(mm.phys.view, d, to) == HasTable(m, d, to);
    PatchKeepsTables(m, mm.phys.view, mm.own, mm.kernelDir, d);
    assert IsRoot(mm.own, mm.kernelDir, d) && Mappable(mm.kernelDir, d, to / PAGE_SIZE);
    if IsMapped(m, d, to) {
      Target(m, mm.own, mm.kernelDir, d, to);
      assert mm.alloc.Manages(FrameOf(Pte(m, d, to / PAGE_SIZE)));
    } else {
      AbsentIsZero(m, mm.own, mm.kernelDir, d, to / PAGE_SIZE);
    }
  }

  lemma AbsentIsZero(m: seq<Page>, own: Owners, kd: nat, d: nat, v: nat)
    requires DataOk(m, own, kd) && IsDirectory(own, d) && Mappable(kd, d, v) && !Present(Pte(m, d, v))
    ensures Pte(m, d, v) == 0
  {
    assert Unfolded(Seal);
  }

  /** No source byte lies in the page that the next chunk goes to. */
  lemma SourceElsewhere(m: seq<Page>, m1: seq<Page>, own: Owners, kd: nat, cur: nat, d: nat, from: nat, n: nat, f: nat)
    requires Inv(m, own, kd) && IsDirectory(own, cur) && cur != d && cur != kd && |m1| == |m|
    requires forall g: nat {:trigger m1[g]} | g < |m| && !UserPageOf(own, g, d) :: m1[g] == m[g]
    requires AllReadable(m, own, cur, from, n) && (f !in own || UserPageOf(own, f, d))
    ensures SourceAt(m1, own, cur, from, n, f) && ActiveBytes(m1, cur, from, n) == ActiveBytes(m, cur, from, n)
  {
    PatchKeepsTables(m, m1, own, kd, d);
    forall a: nat | from <= a < from + n
      ensures Readable(m1, own, cur, a) && SourceFrame(m1, cur, a) != f
      ensures ActiveByte(m1, cur, a) == ActiveByte(m, cur, a)
    {
      assert Readable(m, own, cur, a);
      SourceKept(m, m1, own, kd, cur, d, a);
      if a >= MEMORY_TASK_BASE {
        UserPage(m1, own, kd, cur, a);
      }
    }
  }

  /** The copy has come one chunk further. */
  lemma ChunkMoved(m: seq<Page>, m1: seq<Page>, m2: seq<Page>, own: Owners, kd: nat, cur: nat, d: nat, to: nat,
                   from: nat, n: nat, count: nat, x: nat, y: nat, n': nat)
    requires Inv(m, own, kd) && Inv(m1, own, kd) && IsDirectory(own, d) && d != kd && There(m, d, x)
    requires Patched(m, m1, own, d, to, ActiveBytes(m, cur, from, n)) && x % PAGE_SIZE + count <= PAGE_SIZE
    requires Stored(m1, m2, FrameAt(m, d, x), x % PAGE_SIZE, ActiveBytes(m, cur, y, count))
    requires x == to + n && y == from + n && n' == n + count
    ensures Patched(m, m2, own, d, to, ActiveBytes(m, cur, from, n'))
  {
    assert Unsealed(Seal);
    UserPage(m, own, kd, d, x);
    PatchKeepsTables(m, m1, own, kd, d);
    StoredIsPatch(m1, m2, own, kd, d, x, ActiveBytes(m, cur, y, count));
    PatchTwice(m, m1, m2, own, kd, d, to, x, ActiveBytes(m, cur, from, n), ActiveBytes(m, cur, y, count));
    BytesJoined(m, cur, from, n, count, y, n');
  }

  lemma BytesJoined(m: seq<Page>, cur: nat, from: nat, n: nat, count: nat, y: nat, n': nat)
    requires y == from + n && n' == n + count
    ensures ActiveBytes(m, cur, from, n) + ActiveBytes(m, cur, y, count) == ActiveBytes(m, cur, from, n')
  {
  }

  /** What one round does to image `m1` at address `x`: the rest of a page, or nothing when the physical address
      is 0. */
  ghost predicate RoundMoved(m: seq<Page>, m1: seq<Page>, m2: seq<Page>, own: Owners, cur: nat, d: nat, to: nat,
    from: nat, n': nat, left: nat, moved: nat, x: nat, y: nat)
  {
    if There(m, d, x) then
      IsChunk(x, left, moved) && Patched(m, m2, own, d, to, ActiveBytes(m, cur, from, n'))
    else if GoesToZero(m, d, x) then
      IsChunk(x, left, moved) && Stored(m1, m2, 0, x % PAGE_SIZE, ActiveBytes(m, cur, y, moved))
    else
      moved == 0 && m2 == m1
  }

  /** One round of memory_copy_uvm_data. */
  method MovePage(mm: MemoryManager, to: Word, d: nat, from: Word, left: nat, ghost m: seq<Page>, ghost to0: nat,
    ghost from0: nat, ghost n: nat)
    returns (moved: nat, ghost n': nat)
    requires Moving(mm, m, d, to0, from0, n) && 0 < left && MEMORY_TASK_BASE <= to == to0 + n && from == from0 + n
    requires from + left <= 0x1_0000_0000 && AllReadable(m, mm.own, mm.cr3, from, left)
    modifies mm.phys, mm.phys.pages
    ensures mm.Valid() && n' == n + moved && moved <= left
    ensures RoundMoved(m, old(mm.phys.view), mm.phys.view, mm.own, mm.cr3, d, to0, from0, n', left, moved, to, from)
  {
    var pa := NextPlace(mm, d, to, m, to0, from0, n);
    if pa == 0 {
      return 0, n;
    }
    moved := PAGE_SIZE - to % PAGE_SIZE;
    if moved > left {
      moved := left;
    }
    ghost var m1, f := mm.phys.view, FrameAt(m, d, to);
    ChunkTarget(mm, m, d, to, f);
    SourceElsewhere(m, m1, mm.own, mm.kernelDir, mm.cr3, d, from, moved, f);
    CopyBytes(mm, pa, from, moved, f, to % PAGE_SIZE);
    n' := n + moved;
    if There(m, d, to) {
      ChunkMoved(m, m1, mm.phys.view, mm.own, mm.kernelDir, mm.cr3, d, to0, from0, n, moved, to, from, n');
    }
  }

  /** A chunk goes to a page of the directory, or to page 0, which nobody owns. */
  lemma ChunkTarget(mm: MemoryManager, m: seq<Page>, d: nat, to: nat, f: nat)
    requires mm.Valid() && Inv(m, mm.own, mm.kernelDir) && IsDirectory(mm.own, d) && |m| == |mm.phys.view|
    requires f == FrameAt(m, d, to)
    ensures f < |m| && f != mm.kernelDir && !HoldsTables(mm.own, f) && (f !in mm.own || UserPageOf(mm.own, f, d))
  {
    assert Unsealed(Seal);
    if IsMapped(m, d, to) {
      UserPage(m, mm.own, mm.kernelDir, d, to);
    } else {
      assert !mm.alloc.Manages(0);
    }
  }

  /** What a copy is asked to do, and the owners and directories at that time. */
  datatype Job = Job(own: Owners, kd: nat, cur: nat, d: nat, to: nat, from: nat, size: nat)

  ghost predicate Allowed(m: seq<Page>, c: Job) {
    && Inv(m, c.own, c.kd) && 0 < c.kd && c.kd !in c.own && 0 !in c.own
    && IsDirectory(c.own, c.d) && IsDirectory(c.own, c.cur) && c.cur != c.d
    && MEMORY_TASK_BASE <= c.to && c.to + c.size <= 0x1_0000_0000 && AllReadable(m, c.own, c.cur, c.from, c.size)
  }

  /** What is left of a job after `k` bytes. */
  function Rest(c: Job, k: nat): Job
    requires k <= c.size
  {
    c.(to := c.to + k, from := c.from + k, size := c.size - k)
  }

  /** From `m` to `m'` the first `done` bytes were copied: every page is mapped, up to the end or the first page
      that is not. */
  ghost predicate CopiedTo(m: seq<Page>, m': seq<Page>, c: Job, done: nat) {
    && done <= c.size && Patched(m, m', c.own, c.d, c.to, ActiveBytes(m, c.cur, c.from, done))
    && AllMapped(m, c.d, c.to, done) && (done < c.size ==> !There(m, c.d, c.to + done))
  }

  /** The same, after the first `k` bytes went to physical page 0 when their page is missing and its table is not.
      That alone makes `base` of `m`, and disturbs neither the destination nor the source. */
  ghost predicate CopiedData(m: seq<Page>, base: seq<Page>, m': seq<Page>, c: Job, k: nat, done: nat) {
    && k == Astray(m, c.d, c.to, c.size) && k <= c.size && WentAstray(m, base, c, k)
    && CopiedTo(base, m', Rest(c, k), done)
  }

  ghost predicate WentAstray(m: seq<Page>, base: seq<Page>, c: Job, k: nat) {
    if k == 0 then base == m
    else Stored(m, base, 0, c.to % PAGE_SIZE, ActiveBytes(m, c.cur, c.from, k)) && Undisturbed(m, base, c)
  }

  /** Both images have the same pages at the destination and the same bytes at the source. */
  ghost predicate Undisturbed(m: seq<Page>, m': seq<Page>, c: Job) {
    && Inv(m', c.own, c.kd)
    && forall seal: Seal {:trigger Unfolded(seal)} | Unfolded(seal) ::
    && (forall x: nat | MEMORY_TASK_BASE <= x < 0x1_0000_0000 ::
          (IsMapped(m', c.d, x) <==> IsMapped(m, c.d, x)) && (HasTable(m', c.d, x) <==> HasTable(m, c.d, x)))
    && (forall a: nat {:trigger Readable(m', c.own, c.cur, a)} {:trigger ActiveByte(m', c.cur, a)}
          | c.from <= a < c.from + c.size ::
          Readable(m', c.own, c.cur, a) && ActiveByte(m', c.cur, a) == ActiveByte(m, c.cur, a))
  }

  /** A copy to mapped pages is complete, and nothing of it goes astray. */
  lemma CopiedToMapped(m: seq<Page>, base: seq<Page>, m': seq<Page>, c: Job, k: nat, done: nat)
    requires CopiedData(m, base, m', c, k, done) && AllMapped(m, c.d, c.to, c.size)
    ensures k + done == c.size && Patched(m, m', c.own, c.d, c.to, ActiveBytes(m, c.cur, c.from, c.size))
  {
    assert Unsealed(Seal);
    assert 0 < c.size ==> IsMapped(m, c.d, c.to);
    assert Rest(c, 0) == c;
  }

  ghost function JobOf(mm: MemoryManager, d: nat, to: nat, from: nat, size: nat): Job
    reads mm
  {
    Job(mm.own, mm.kernelDir, mm.cr3, d, to, from, size)
  }

  /** memory_copy_uvm_data: a copy in page-sized chunks that equals a byte-by-byte translated copy. It stops at the
      first page that is not mapped, but for a first page that has a table: that chunk lands in physical page 0. */
  method CopyUvmData(mm: MemoryManager, to: Word, d: nat, from: Word, size: nat)
    returns (res: int, ghost k: nat, ghost done: nat, ghost base: seq<Page>)
    requires mm.Valid() && IsDirectory(mm.own, d) && IsDirectory(mm.own, mm.cr3) && d != mm.cr3
    requires MEMORY_TASK_BASE <= to && to + size <= 0x1_0000_0000 && from + size <= 0x1_0000_0000
    requires AllReadable(mm.phys.view, mm.own, mm.cr3, from, size)
    modifies mm.phys, mm.phys.pages
    ensures mm.Valid() && Inv(base, mm.own, mm.kernelDir) && res == if k + done == size then 0 else -1
    ensures CopiedData(old(mm.phys.view), base, mm.phys.view, JobOf(mm, d, to, from, size), k, done)
  {
    ghost var m, c0 := mm.phys.view, JobOf(mm, d, to, from, size);
    ghost var c := c0;
    assert !mm.alloc.Manages(0);
    base, k, done := m, 0, 0;
    var x: nat, y: nat, left := to, from, size;
    CopyBegins(m, c0);
    while left > 0
      invariant mm.Valid() && left == c.size - done && y + left <= 0x1_0000_0000 && size == k + c.size
      invariant Begun(m, base, c0, c, k) && Progress(base, mm.phys.view, c, done, x, y)
      invariant c0 == JobOf(mm, d, to, from, size)
    {
      ghost var m1, x0, y0, left0 := mm.phys.view, x, y, left;
      ProgressGives(base, m1, c, done, x, y, left);
      var moved;
      ghost var n;
      moved, n := MovePage(mm, x, d, y, left, base, c.to, c.from, done);
      if moved == 0 {
        CopyStops(m, base, m1, mm.phys.view, c0, c, k, done, n, left, x, y);
        return -1, k, done, base;
      }
      x, y, left := x + moved, y + moved, left - moved;
      base, c, k, done := RoundDone(m, base, m1, mm.phys.view, c0, c, k, done, n, moved, left0, x0, y0, x, y);
    }
    CopyEnds(m, base, mm.phys.view, c0, c, k, done, x, y);
    return 0, k, done, base;
  }

  /** Between two chunks: `n` bytes of the job are copied, and `x` and `y` are the next addresses. */
  ghost predicate Progress(m: seq<Page>, m1: seq<Page>, c: Job, n: nat, x: nat, y: nat) {
    && Allowed(m, c) && n <= c.size && x == c.to + n && y == c.from + n && (n == 0 || n == c.size || StartsPage(x))
    && Patched(m, m1, c.own, c.d, c.to, ActiveBytes(m, c.cur, c.from, n)) && AllMapped(m, c.d, c.to, n)
    && (n == 0 ==> m1 == m)
  }

  ghost predicate StartsPage(x: nat) {
    forall seal: Seal {:trigger Unsealed(seal)} | Unsealed(seal) :: x % PAGE_SIZE == 0
  }

  /** `c` is the whole job on image `m`, or what is left of it after the bytes that went astray. */
  ghost predicate Begun(m: seq<Page>, base: seq<Page>, c0: Job, c: Job, k: nat) {
    && Allowed(m, c0) && k <= c0.size && c == Rest(c0, k) && WentAstray(m, base, c0, k)
    && (k > 0 ==> k == Astray(m, c0.d, c0.to, c0.size) && (c.size == 0 || StartsPage(c.to)))
  }

  lemma CopyBegins(m: seq<Page>, c: Job)
    requires Allowed(m, c)
    ensures Begun(m, m, c, c, 0) && Progress(m, m, c, 0, c.to, c.from)
  {
    PatchedNothing(m, c.own, c.d, c.to, ActiveBytes(m, c.cur, c.from, 0));
    assert Rest(c, 0) == c;
  }

  lemma PatchedNothing(m: seq<Page>, own: Owners, d: nat, x: nat, bs: seq<Byte>)
    requires |bs| == 0
    ensures Patched(m, m, own, d, x, bs)
  {
  }

  lemma ProgressGives(m: seq<Page>, m1: seq<Page>, c: Job, n: nat, x: nat, y: nat, left: nat)
    requires Progress(m, m1, c, n, x, y) && left == c.size - n
    ensures AllReadable(m, c.own, c.cur, y, left) && x + left <= 0x1_0000_0000 && MEMORY_TASK_BASE <= x
  {
  }

  /** What one round moved is added to what is copied, or is what went astray. */
  lemma RoundDone(m: seq<Page>, base: seq<Page>, m1: seq<Page>, m2: seq<Page>, c0: Job, c: Job, k: nat, n: nat, n': nat,
    moved: nat, left: nat, x: nat, y: nat, x': nat, y': nat)
    returns (base': seq<Page>, c': Job, k': nat, done: nat)
    requires Begun(m, base, c0, c, k) && Progress(base, m1, c, n, x, y) && left == c.size - n && 0 < left && 0 < moved
    requires n' == n + moved && x' == x + moved && y' == y + moved
    requires RoundMoved(base, m1, m2, c.own, c.cur, c.d, c.to, c.from, n', left, moved, x, y)
    ensures Begun(m, base', c0, c', k') && Progress(base', m2, c', done, x', y')
    ensures moved <= left && left - moved == c'.size - done && k' + c'.size == k + c.size
  {
    if There(base, c.d, x) {
      ChunkThere(base, m1, m2, c, n, n', moved, left, x, y, x', y');
      base', c', k', done := base, c, k, n';
    } else {
      FirstChunk(m, base, c0, c, k, n, left, x);
      assert x == c0.to && y == c0.from && left == c0.size;
      ChunkAstray(m, m2, c0, moved, x', y');
      base', c', k', done := m2, Rest(c0, moved), moved, 0;
    }
  }

  lemma ChunkThere(m: seq<Page>, m1: seq<Page>, m2: seq<Page>, c: Job, n: nat, n': nat, moved: nat, left: nat, x: nat,
    y: nat, x': nat, y': nat)
    requires Progress(m, m1, c, n, x, y) && left == c.size - n && 0 < moved
    requires n' == n + moved && x' == x + moved && y' == y + moved
    requires There(m, c.d, x) && IsChunk(x, left, moved)
    requires Patched(m, m2, c.own, c.d, c.to, ActiveBytes(m, c.cur, c.from, n'))
    ensures n' <= c.size && Progress(m, m2, c, n', x', y')
  {
    ChunkEndsAt(x, left, moved, x');
    MappedNext(m, c.d, c.to, n, x, moved, left, n');
  }

  lemma ChunkEndsAt(x: nat, left: nat, moved: nat, x': nat)
    requires IsChunk(x, left, moved) && x' == x + moved
    ensures moved <= left && (moved == left || StartsPage(x')) && (left > 0 ==> moved > 0)
  {
    assert Unsealed(Seal);
    ChunkEnds(x, left);
  }

  lemma MappedNext(m: seq<Page>, d: nat, to: nat, n: nat, x: nat, count: nat, left: nat, n': nat)
    requires AllMapped(m, d, to, n) && There(m, d, x) && IsChunk(x, left, count) && x == to + n && n' == n + count
    ensures AllMapped(m, d, to, n')
  {
    assert Unsealed(Seal);
    ChunkMapped(m, d, x, count);
  }

  /** Only the first chunk can go astray: the others begin a page. */
  lemma FirstChunk(m: seq<Page>, base: seq<Page>, c0: Job, c: Job, k: nat, n: nat, left: nat, x: nat)
    requires Begun(m, base, c0, c, k) && left == c.size - n && 0 < left && GoesToZero(base, c.d, x)
    requires x == c.to + n && (n == 0 || n == c.size || StartsPage(x))
    ensures n == 0 && k == 0 && c == c0 && base == m
  {
    assert Unsealed(Seal);
  }

  lemma ChunkAstray(m: seq<Page>, base: seq<Page>, c: Job, k: nat, x: nat, y: nat)
    requires Allowed(m, c) && 0 < c.size && IsChunk(c.to, c.size, k) && GoesToZero(m, c.d, c.to)
    requires Stored(m, base, 0, c.to % PAGE_SIZE, ActiveBytes(m, c.cur, c.from, k)) && x == c.to + k && y == c.from + k
    ensures 0 < k <= c.size && Begun(m, base, c, Rest(c, k), k) && Progress(base, base, Rest(c, k), 0, x, y)
  {
    ChunkEndsAt(c.to, c.size, k, x);
    AstrayElsewhere(m, base, c, k);
    AstrayIs(m, c, k);
    RestAllowed(m, base, c, k);
    PatchedNothing(base, c.own, c.d, x, ActiveBytes(base, c.cur, y, 0));
  }

  lemma AstrayIs(m: seq<Page>, c: Job, k: nat)
    requires IsChunk(c.to, c.size, k) && GoesToZero(m, c.d, c.to)
    ensures k == Astray(m, c.d, c.to, c.size)
  {
    assert Unsealed(Seal);
  }

  lemma RestAllowed(m: seq<Page>, base: seq<Page>, c: Job, k: nat)
    requires Allowed(m, c) && Undisturbed(m, base, c) && k <= c.size
    ensures Allowed(base, Rest(c, k))
  {
    assert Unfolded(Seal);
  }

  /** Writing to physical page 0 disturbs nothing. */
  lemma AstrayElsewhere(m: seq<Page>, base: seq<Page>, c: Job, k: nat)
    requires Allowed(m, c) && Stored(m, base, 0, c.to % PAGE_SIZE, ActiveBytes(m, c.cur, c.from, k))
    ensures Undisturbed(m, base, c)
  {
    StoredKeeps(m, base, c.own, c.kd, 0);
    forall a: nat | c.from <= a < c.from + c.size
      ensures Readable(base, c.own, c.cur, a) && ActiveByte(base, c.cur, a) == ActiveByte(m, c.cur, a)
    {
      assert Readable(m, c.own, c.cur, a);
      if a >= MEMORY_TASK_BASE {
        UserPage(m, c.own, c.kd, c.cur, a);
      }
      SourceSame(m, base, c.own, c.kd, c.cur, 0, a);
    }
    forall x: nat | MEMORY_TASK_BASE <= x < 0x1_0000_0000
      ensures Pte(base, c.d, x / PAGE_SIZE) == Pte(m, c.d, x / PAGE_SIZE)
      ensures HasTable(base, c.d, x) <==> HasTable(m, c.d, x)
    {
      assert IsRoot(c.own, c.kd, c.d) && Mappable(c.kd, c.d, x / PAGE_SIZE);
    }
  }

  lemma CopyStops(m: seq<Page>, base: seq<Page>, m1: seq<Page>, m2: seq<Page>, c0: Job, c: Job, k: nat, n: nat, n': nat,
    left: nat, x: nat, y: nat)
    requires Begun(m, base, c0, c, k) && Progress(base, m1, c, n, x, y) && left == c.size - n && 0 < left
    requires RoundMoved(base, m1, m2, c.own, c.cur, c.d, c.to, c.from, n', left, 0, x, y)
    ensures CopiedData(m, base, m2, c0, k, n) && Inv(base, c.own, c.kd)
  {
    NoEmptyChunk(x, left);
    if k == 0 {
      NoneAstray(m, c0, n, x);
    }
  }

  lemma NoEmptyChunk(x: nat, left: nat)
    requires 0 < left
    ensures !IsChunk(x, left, 0)
  {
    assert Unsealed(Seal);
    ChunkEnds(x, left);
  }

  lemma NoneAstray(m: seq<Page>, c: Job, n: nat, x: nat)
    requires AllMapped(m, c.d, c.to, n) && x == c.to + n && (n == 0 ==> c.size == 0 || !GoesToZero(m, c.d, x))
    ensures Astray(m, c.d, c.to, c.size) == 0
  {
    assert Unsealed(Seal);
    if n > 0 {
      assert IsMapped(m, c.d, c.to);
    }
  }

  lemma CopyEnds(m: seq<Page>, base: seq<Page>, m1: seq<Page>, c0: Job, c: Job, k: nat, n: nat, x: nat, y: nat)
    requires Begun(m, base, c0, c, k) && Progress(base, m1, c, n, x, y) && n == c.size
    ensures CopiedData(m, base, m1, c0, k, n) && Inv(base, c.own, c.kd)
  {
    if k == 0 {
      NoneAstray(m, c0, n, x);
    }
  }

  lemma ChunkEnds(x: nat, left: nat)
    ensures var c := ChunkSize(x, left); c <= left && (c == left || (x + c) % PAGE_SIZE == 0) && (left > 0 ==> c > 0)
  {
    assert x + (PAGE_SIZE - x % PAGE_SIZE) == (x / PAGE_SIZE + 1) * PAGE_SIZE;
  }

  lemma ChunkMapped(m: seq<Page>, d: nat, x: nat, count: nat)
    requires IsMapped(m, d, x) && x % PAGE_SIZE + count <= PAGE_SIZE
    ensures AllMapped(m, d, x, count)
  {
    forall y: nat | x <= y < x + count
      ensures IsMapped(m, d, y)
    {
      SamePage(x, y - x);
    }
  }
}
