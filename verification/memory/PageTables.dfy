/** What the page tables of a memory image mean, and who owns each page. */
module PageTables {
  import opened Machine
  import opened Seals

  const USER_PDE := MEMORY_TASK_BASE / PAGE_SIZE / PTE_CNT
  const VPN_END := PDE_CNT * PTE_CNT

  predicate Present(e: Word) { e % 2 == 1 }
  function FrameOf(e: Word): nat { e / PAGE_SIZE }

  /** The low nine bits: what get_pte_perm reads and what a copied mapping keeps. */
  function PermOf(e: Word): nat { e % 512 }

  /** paddr | perm | PTE_P for the address of page frame `f` and flags below the page size. */
  function MakeEntry(f: nat, perm: nat): (e: Word)
    requires f < VPN_END && perm < PAGE_SIZE
    ensures Present(e) && FrameOf(e) == f
    ensures e % PAGE_SIZE == if perm % 2 == 1 then perm else perm + 1
  {
    PageAndFlags(f, perm + if perm % 2 == 0 then 1 else 0);
    f * PAGE_SIZE + perm + if perm % 2 == 0 then 1 else 0
  }

  lemma PageAndFlags(f: nat, flags: nat)
    requires flags < PAGE_SIZE
    ensures (f * PAGE_SIZE + flags) / PAGE_SIZE == f && (f * PAGE_SIZE + flags) % PAGE_SIZE == flags
    ensures (f * PAGE_SIZE + flags) % 2 == flags % 2
  {
    assert f * PAGE_SIZE + flags == 2 * (f * 2048) + flags;
  }

  /** An entry made with the flags of `e` has its low nine bits. */
  lemma PermKept(f: nat, e: Word)
    requires f < VPN_END && Present(e)
    ensures MakeEntry(f, PermOf(e)) % 512 == e % 512
  {
    NineBits(e);
    NineBits(MakeEntry(f, PermOf(e)));
  }

  lemma NineBits(e: nat)
    ensures e % 512 % 2 == e % 2 && e % PAGE_SIZE % 512 == e % 512
  {
    var q, r := e / 512, e / PAGE_SIZE;
    assert e == 2 * (256 * q) + e % 512;
    assert e == 512 * (8 * r) + e % PAGE_SIZE;
  }

  /** The directory entry for the table in page `t`: its address | PTE_P | PTE_W | PDE_U. */
  function TableEntry(t: nat): (e: Word)
    requires t < VPN_END
    ensures Present(e) && FrameOf(e) == t && TableRights(e)
  {
    MakeEntry(t, PTE_P + PTE_W + PTE_U)
  }

  /** The flags P, W and U and no other. */
  predicate TableRights(e: Word) { e % PAGE_SIZE == 7 }

  function Entry(m: seq<Page>, f: nat, i: nat): Word {
    if f < |m| && i < PTE_CNT then m[f][i] else 0
  }

  /** The page-table entry that directory `d` holds for virtual page `v`; 0 when it has no table there. */
  function Pte(m: seq<Page>, d: nat, v: nat): Word {
    var e := Entry(m, d, v / PTE_CNT);
    if Present(e) then Entry(m, FrameOf(e), v % PTE_CNT) else 0
  }

  /** Who holds a page that is marked as used. */
  datatype Owner =
    | Directory
    | Table(dir: nat, index: nat)
    | Data(dir: nat, vpn: nat)
    | Kernel
    | Leaked

  type Owners = map<nat, Owner>

  predicate IsDirectory(own: Owners, d: nat) { d in own && own[d] == Directory }

  predicate IsRoot(own: Owners, kd: nat, d: nat) { d == kd || IsDirectory(own, d) }

  predicate HoldsTables(own: Owners, f: nat) { f in own && (own[f].Directory? || own[f].Table?) }

  /** The directory entries that a root owns: all of them for the kernel, the user half for a task. */
  function FirstPde(kd: nat, d: nat): nat { if d == kd then 0 else USER_PDE }

  predicate Mappable(kd: nat, d: nat, v: nat) { FirstPde(kd, d) * PTE_CNT <= v < VPN_END }

  /** Every present directory entry names a table that only this entry uses, and leaves all rights to it. */
  ghost predicate TablesOk(m: seq<Page>, own: Owners, kd: nat) {
    && kd < |m| && kd !in own
    && forall seal: Seal {:trigger Unfolded(seal)} | Unfolded(seal) ::
    && (forall f: nat | f in own :: f < |m|)
    && (forall d: nat, i: nat {:trigger IsRoot(own, kd, d), Entry(m, d, i)} |
          IsRoot(own, kd, d) && FirstPde(kd, d) <= i < PDE_CNT && Present(Entry(m, d, i)) ::
          && FrameOf(Entry(m, d, i)) in own && own[FrameOf(Entry(m, d, i))] == Table(d, i)
          && TableRights(Entry(m, d, i)))
    && (forall t: nat {:trigger own[t].Table?} {:trigger TableOk(m, own, kd, t)} | t in own && own[t].Table? ::
          TableOk(m, own, kd, t))
  }

  ghost predicate TableOk(m: seq<Page>, own: Owners, kd: nat, t: nat)
    requires t in own && own[t].Table?
  {
    var d, i := own[t].dir, own[t].index;
    IsRoot(own, kd, d) && FirstPde(kd, d) <= i < PDE_CNT && Present(Entry(m, d, i)) && FrameOf(Entry(m, d, i)) == t
  }

  /** Every user entry that is not zero is present and names a data page that only this entry uses. */
  ghost predicate DataOk(m: seq<Page>, own: Owners, kd: nat) {
    forall seal: Seal {:trigger Unfolded(seal)} | Unfolded(seal) ::
    && (forall d: nat, v: nat {:trigger Pte(m, d, v)}
          | IsDirectory(own, d) && Mappable(kd, d, v) && Pte(m, d, v) != 0 ::
          && Present(Pte(m, d, v)) && FrameOf(Pte(m, d, v)) in own
          && own[FrameOf(Pte(m, d, v))] == Data(d, v))
    && (forall f: nat {:trigger own[f].Data?} {:trigger DataPageOk(m, own, kd, f)} | f in own && own[f].Data? ::
          DataPageOk(m, own, kd, f))
  }

  ghost predicate DataPageOk(m: seq<Page>, own: Owners, kd: nat, f: nat)
    requires f in own && own[f].Data?
  {
    var d, v := own[f].dir, own[f].vpn;
    IsDirectory(own, d) && Mappable(kd, d, v) && Present(Pte(m, d, v)) && FrameOf(Pte(m, d, v)) == f
  }

  /** Every task directory shares the kernel's half of the address space. */
  ghost predicate KernelShared(m: seq<Page>, own: Owners, kd: nat) {
    forall seal: Seal {:trigger Unfolded(seal)} | Unfolded(seal) ::
    forall d: nat, i: nat | IsDirectory(own, d) && 0 <= i < USER_PDE :: Entry(m, d, i) == Entry(m, kd, i)
  }

  ghost predicate Inv(m: seq<Page>, own: Owners, kd: nat) {
    TablesOk(m, own, kd) && DataOk(m, own, kd) && KernelShared(m, own, kd)
  }

  /** All translations agree, for every root and every page it may map. */
  ghost predicate SameTranslations(m: seq<Page>, m': seq<Page>, own: Owners, kd: nat) {
    forall d: nat, v: nat {:trigger Pte(m', d, v)} | IsRoot(own, kd, d) && Mappable(kd, d, v) ::
      Pte(m', d, v) == Pte(m, d, v)
  }

  lemma NothingOwned(m: seq<Page>, kd: nat)
    requires kd < |m| && forall f: nat | f < |m| :: m[f] == ZeroedPage()
    ensures Inv(m, map[], kd)
  {
  }

  // ----- steps on the image

  /** Pages that hold no table do not matter. */
  lemma OnlyTablesMatter(m: seq<Page>, m': seq<Page>, own: Owners, kd: nat)
    requires TablesOk(m, own, kd) && |m'| == |m|
    requires m'[kd] == m[kd] && forall f: nat | f < |m| && HoldsTables(own, f) :: m'[f] == m[f]
    ensures TablesOk(m', own, kd) && SameTranslations(m, m', own, kd)
    ensures DataOk(m, own, kd) ==> DataOk(m', own, kd)
    ensures KernelShared(m, own, kd) ==> KernelShared(m', own, kd)
  {
    assert Unfolded(Seal);
    assert forall d: nat, i: nat | IsRoot(own, kd, d) :: Entry(m', d, i) == Entry(m, d, i);
    forall d: nat, v: nat | IsRoot(own, kd, d) && Mappable(kd, d, v)
      ensures Pte(m', d, v) == Pte(m, d, v)
    {
      assert FirstPde(kd, d) <= v / PTE_CNT < PDE_CNT;
    }
  }

  /** A page that nobody used is taken by the kernel, or the other way round. */
  lemma KernelPage(m: seq<Page>, own: Owners, own': Owners, kd: nat, f: nat, to: Owner)
    requires TablesOk(m, own, kd) && f < |m| && f != kd && f !in own && to in {Kernel, Leaked} && own' == own[f := to]
    ensures TablesOk(m, own', kd)
    ensures DataOk(m, own, kd) ==> DataOk(m, own', kd)
    ensures KernelShared(m, own, kd) ==> KernelShared(m, own', kd)
  {
    assert Unfolded(Seal);
    assert forall d: nat :: IsRoot(own', kd, d) <==> IsRoot(own, kd, d);
    assert forall t: nat | t in own && own[t].Table? :: TableOk(m, own, kd, t) && own'[t] == own[t];
    assert forall p: nat | p in own && own[p].Data? :: own'[p] == own[p];
  }

  /** A zeroed page becomes the table of directory entry `i`; no translation changes. */
  lemma NewTable(m: seq<Page>, m': seq<Page>, own: Owners, own': Owners, kd: nat, d: nat, i: nat, t: nat, e: Word)
    requires TablesOk(m, own, kd) && IsRoot(own, kd, d) && FirstPde(kd, d) <= i < PDE_CNT && !Present(Entry(m, d, i))
    requires t !in own && t != kd && own' == own[t := Table(d, i)]
    requires Present(e) && FrameOf(e) == t && TableRights(e)
    requires d < |m| && t < |m| && m' == SetPage(SetWord(m, d, i, e), t, ZeroedPage())
    ensures TablesOk(m', own', kd) && SameTranslations(m, m', own, kd)
    ensures DataOk(m, own, kd) ==> DataOk(m', own', kd)
    ensures d != kd && KernelShared(m, own, kd) ==> KernelShared(m', own', kd)
  {
    NewTableEntries(m, m', own, own', kd, d, i, t, e);
    NewTableTables(m, m', own, own', kd, d, i, t, e);
    NewTableTranslations(m, m', own, kd, d, i, t, e);
    if DataOk(m, own, kd) {
      NewTableData(m, m', own, own', kd, d, i, t);
    }
  }

  lemma NewTableEntries(m: seq<Page>, m': seq<Page>, own: Owners, own': Owners, kd: nat, d: nat, i: nat, t: nat,
      e: Word)
    requires kd !in own && IsRoot(own, kd, d) && i < PDE_CNT && t !in own && t != kd && own' == own[t := Table(d, i)]
    requires d < |m| && t < |m| && m' == SetPage(SetWord(m, d, i, e), t, ZeroedPage())
    ensures forall r: nat :: IsRoot(own', kd, r) <==> IsRoot(own, kd, r)
    ensures forall r: nat, k: nat | IsRoot(own, kd, r) ::
      Entry(m', r, k) == if r == d && k == i then e else Entry(m, r, k)
    ensures forall g: nat, k: nat | g in own && !own[g].Directory? :: Entry(m', g, k) == Entry(m, g, k)
  {
  }

  lemma NewTableTables(m: seq<Page>, m': seq<Page>, own: Owners, own': Owners, kd: nat, d: nat, i: nat, t: nat, e: Word)
    requires TablesOk(m, own, kd) && IsRoot(own, kd, d) && FirstPde(kd, d) <= i < PDE_CNT && !Present(Entry(m, d, i))
    requires t !in own && t != kd && t < |m| && |m'| == |m| && own' == own[t := Table(d, i)] && Present(e)
    requires FrameOf(e) == t && TableRights(e)
    requires forall r: nat :: IsRoot(own', kd, r) <==> IsRoot(own, kd, r)
    requires forall r: nat, k: nat | IsRoot(own, kd, r) ::
      Entry(m', r, k) == if r == d && k == i then e else Entry(m, r, k)
    ensures TablesOk(m', own', kd)
  {
    assert Unfolded(Seal);
    forall g: nat | g in own' && own'[g].Table?
      ensures TableOk(m', own', kd, g)
    {
      if g != t {
        assert own'[g] == own[g] && TableOk(m, own, kd, g);
      }
    }
  }

  lemma NewTableTranslations(m: seq<Page>, m': seq<Page>, own: Owners, kd: nat, d: nat, i: nat, t: nat, e: Word)
    requires TablesOk(m, own, kd) && IsRoot(own, kd, d) && i < PDE_CNT && !Present(Entry(m, d, i))
    requires t !in own && t != kd && Present(e) && FrameOf(e) == t
    requires d < |m| && t < |m| && m' == SetPage(SetWord(m, d, i, e), t, ZeroedPage())
    requires forall r: nat, k: nat | IsRoot(own, kd, r) ::
      Entry(m', r, k) == if r == d && k == i then e else Entry(m, r, k)
    requires forall g: nat, k: nat | g in own && !own[g].Directory? :: Entry(m', g, k) == Entry(m, g, k)
    ensures SameTranslations(m, m', own, kd)
  {
    assert Unfolded(Seal);
    forall r: nat, v: nat | IsRoot(own, kd, r) && Mappable(kd, r, v)
      ensures Pte(m', r, v) == Pte(m, r, v)
    {
      assert FirstPde(kd, r) <= v / PTE_CNT < PDE_CNT;
      if r == d && v / PTE_CNT == i {
        assert Entry(m', t, v % PTE_CNT) == 0;
      }
    }
  }

  lemma NewTableData(m: seq<Page>, m': seq<Page>, own: Owners, own': Owners, kd: nat, d: nat, i: nat, t: nat)
    requires DataOk(m, own, kd) && SameTranslations(m, m', own, kd) && t !in own && own' == own[t := Table(d, i)]
    requires forall r: nat :: IsRoot(own', kd, r) <==> IsRoot(own, kd, r)
    ensures DataOk(m', own', kd)
  {
    assert Unfolded(Seal);
    forall p: nat | p in own' && own'[p].Data?
      ensures DataPageOk(m', own', kd, p)
    {
      assert own'[p] == own[p] && DataPageOk(m, own, kd, p);
      assert IsRoot(own, kd, own[p].dir);
    }
    forall r: nat, v: nat | IsDirectory(own', r) && Mappable(kd, r, v) && Present(Pte(m', r, v))
      ensures FrameOf(Pte(m', r, v)) in own' && own'[FrameOf(Pte(m', r, v))] == Data(r, v)
    {
      assert IsRoot(own, kd, r);
    }
  }

  /** Writing the entry of one virtual page changes that translation and no other. */
  lemma SetPte(m: seq<Page>, m': seq<Page>, own: Owners, kd: nat, d: nat, v: nat, t: nat, e: Word)
    requires TablesOk(m, own, kd) && IsRoot(own, kd, d) && Mappable(kd, d, v)
    requires Present(Entry(m, d, v / PTE_CNT)) && FrameOf(Entry(m, d, v / PTE_CNT)) == t
    requires t < |m| && m' == SetWord(m, t, v % PTE_CNT, e)
    ensures TablesOk(m', own, kd)
    ensures forall r: nat, u: nat | IsRoot(own, kd, r) && Mappable(kd, r, u) ::
      Pte(m', r, u) == if r == d && u == v then e else Pte(m, r, u)
    ensures KernelShared(m, own, kd) ==> KernelShared(m', own, kd)
  {
    assert Unfolded(Seal);
    assert own[t] == Table(d, v / PTE_CNT);
    assert forall r: nat, k: nat | IsRoot(own, kd, r) :: Entry(m', r, k) == Entry(m, r, k);
    forall r: nat, u: nat | IsRoot(own, kd, r) && Mappable(kd, r, u)
      ensures Pte(m', r, u) == if r == d && u == v then e else Pte(m, r, u)
    {
      assert FirstPde(kd, r) <= u / PTE_CNT < PDE_CNT;
      if r == d && u / PTE_CNT == v / PTE_CNT {
        assert u == u / PTE_CNT * PTE_CNT + u % PTE_CNT;
      }
    }
  }

  // ----- mapping a range of pages

  /** `t` is the table for directory entry `i`: the one already there, or a fresh zeroed page. */
  ghost predicate TableFound(m: seq<Page>, own: Owners, m': seq<Page>, own': Owners, kd: nat, d: nat, i: nat, t: nat)
    requires i < PDE_CNT && d < |m| <= VPN_END
  {
    && (Present(Entry(m, d, i)) ==> m' == m && own' == own && t == FrameOf(Entry(m, d, i)))
    && (!Present(Entry(m, d, i)) ==>
          && t < |m| && t !in own && t != kd && t != d
          && own' == own[t := Table(d, i)]
          && m' == SetPage(SetWord(m, d, i, TableEntry(t)), t, ZeroedPage()))
  }

  /** Whether the pages `v0 .. v0 + n` reach directory entry `i`. */
  predicate Covers(v0: nat, n: nat, i: nat) {
    n > 0 && v0 / PTE_CNT <= i <= (v0 + n - 1) / PTE_CNT
  }

  /** Whether page `v0 + k` is the first of its range to reach a missing table. */
  predicate NeedsTable(m: seq<Page>, d: nat, v0: nat, k: nat) {
    !Present(Entry(m, d, (v0 + k) / PTE_CNT)) && !Covers(v0, k, (v0 + k) / PTE_CNT)
  }

  /** How many page tables are missing for the pages `v0 .. v0 + n`. */
  function TablesNeeded(m: seq<Page>, d: nat, v0: nat, n: nat): nat {
    if n == 0 then 0
    else TablesNeeded(m, d, v0, n - 1) + if NeedsTable(m, d, v0, n - 1) then 1 else 0
  }

  lemma {:induction false} TablesNeededGrows(m: seq<Page>, d: nat, v0: nat, k: nat, n: nat)
    requires k <= n
    ensures TablesNeeded(m, d, v0, k) <= TablesNeeded(m, d, v0, n)
  {
    if k < n {
      TablesNeededGrows(m, d, v0, k, n - 1);
    }
  }

  /** From `m` to `m'`, directory `d` gained the mapping of `n` pages from `v0` on and nothing else changed:
      no other translation, no page but `d`, its tables and fresh tables of it. */
  ghost predicate Mapped(m: seq<Page>, own: Owners, m': seq<Page>, own': Owners, kd: nat,
                         d: nat, v0: nat, first: nat, perm: nat, n: nat)
    requires perm < PAGE_SIZE && first + n <= VPN_END
  {
    forall seal: Seal {:trigger Unfolded(seal)} | Unfolded(seal) ::
    && MapsRange(m, own, m', kd, d, v0, first, perm, n)
    && OnlyTablesOf(m, own, m', own', kd, d)
    && TablesFor(m, m', kd, d, v0, n)
    && |own'| == |own| + TablesNeeded(m, d, v0, n)
  }

  /** Only directory `d`, its tables and fresh tables of it were written, and of `d` only the part it owns. */
  ghost predicate OnlyTablesOf(m: seq<Page>, own: Owners, m': seq<Page>, own': Owners, kd: nat, d: nat) {
    && |m'| == |m|
    && (forall f: nat | f in own :: f in own' && own'[f] == own[f])
    && (forall f: nat | f in own' && f !in own :: own'[f].Table? && own'[f].dir == d)
    && (forall f: nat {:trigger m'[f]} | f < |m| && f != d && !(f in own' && own'[f].Table? && own'[f].dir == d) ::
          m'[f] == m[f])
    && (forall i: nat {:trigger Entry(m', d, i)} | i < FirstPde(kd, d) :: Entry(m', d, i) == Entry(m, d, i))
  }

  ghost predicate MapsRange(m: seq<Page>, own: Owners, m': seq<Page>, kd: nat, d: nat, v0: nat, first: nat, perm: nat,
      n: nat)
    requires perm < PAGE_SIZE && first + n <= VPN_END
  {
    forall r: nat, u: nat {:trigger Pte(m', r, u)} | IsRoot(own, kd, r) && Mappable(kd, r, u) ::
      Pte(m', r, u) == if r == d && v0 <= u < v0 + n then MakeEntry(first + (u - v0), perm) else Pte(m, r, u)
  }

  /** The directory entries that are present are those before, and those that the range reaches. */
  ghost predicate TablesFor(m: seq<Page>, m': seq<Page>, kd: nat, d: nat, v0: nat, n: nat) {
    forall i: nat {:trigger Entry(m', d, i)} | FirstPde(kd, d) <= i < PDE_CNT ::
      Present(Entry(m', d, i)) <==> Present(Entry(m, d, i)) || Covers(v0, n, i)
  }

  /** Finding (or making) the table of page `v` and writing its entry maps that page alone. */
  lemma WriteEntry(m: seq<Page>, own: Owners, m1: seq<Page>, own1: Owners, m2: seq<Page>,
                   kd: nat, d: nat, v: nat, t: nat, f: nat, perm: nat)
    requires IsRoot(own, kd, d) && Mappable(kd, d, v) && d < |m| <= VPN_END && f < VPN_END && perm < PAGE_SIZE
    requires TableFound(m, own, m1, own1, kd, d, v / PTE_CNT, t)
    requires TablesOk(m, own, kd) && TablesOk(m1, own1, kd) && SameTranslations(m, m1, own, kd)
    requires t < |m1| && m2 == SetWord(m1, t, v % PTE_CNT, MakeEntry(f, perm))
    ensures TablesOk(m2, own1, kd) && Mapped(m, own, m2, own1, kd, d, v, f, perm, 1)
  {
    TableFoundOwned(m, own, m1, own1, kd, d, v / PTE_CNT, t);
    SetPte(m1, m2, own1, kd, d, v, t, MakeEntry(f, perm));
    OneMapped(m, own, m1, own1, m2, kd, d, v, f, perm);
    OneTable(m, own, m1, own1, kd, d, v, t);
    OnlyTablesWritten(m, own, m1, own1, m2, kd, d, v / PTE_CNT, t, v % PTE_CNT, MakeEntry(f, perm));
  }

  lemma TableFoundOwned(m: seq<Page>, own: Owners, m': seq<Page>, own': Owners, kd: nat, d: nat, i: nat, t: nat)
    requires FirstPde(kd, d) <= i < PDE_CNT && d < |m| <= VPN_END && IsRoot(own, kd, d)
    requires TablesOk(m, own, kd) && TableFound(m, own, m', own', kd, d, i, t)
    ensures t in own' && own'[t] == Table(d, i) && t != d && t < |m'| && |m'| == |m|
    ensures Present(Entry(m', d, i)) && FrameOf(Entry(m', d, i)) == t
    ensures forall r: nat | IsRoot(own, kd, r) :: IsRoot(own', kd, r)
  {
    assert Unfolded(Seal);
  }

  lemma OneMapped(m: seq<Page>, own: Owners, m1: seq<Page>, own1: Owners, m2: seq<Page>, kd: nat, d: nat, v: nat,
      f: nat, perm: nat)
    requires f < VPN_END && perm < PAGE_SIZE && SameTranslations(m, m1, own, kd)
    requires forall r: nat | IsRoot(own, kd, r) :: IsRoot(own1, kd, r)
    requires forall r: nat, u: nat | IsRoot(own1, kd, r) && Mappable(kd, r, u) ::
      Pte(m2, r, u) == if r == d && u == v then MakeEntry(f, perm) else Pte(m1, r, u)
    ensures MapsRange(m, own, m2, kd, d, v, f, perm, 1)
  {
  }

  lemma OneTable(m: seq<Page>, own: Owners, m1: seq<Page>, own1: Owners, kd: nat, d: nat, v: nat, t: nat)
    requires d < |m| <= VPN_END && Mappable(kd, d, v) && TableFound(m, own, m1, own1, kd, d, v / PTE_CNT, t)
    ensures TablesFor(m, m1, kd, d, v, 1)
    ensures |own1| == |own| + TablesNeeded(m, d, v, 1)
  {
    assert TablesNeeded(m, d, v, 1) == TablesNeeded(m, d, v, 0) + if NeedsTable(m, d, v, 0) then 1 else 0;
    forall i: nat | FirstPde(kd, d) <= i < PDE_CNT
      ensures Present(Entry(m1, d, i)) <==> Present(Entry(m, d, i)) || Covers(v, 1, i)
    {
    }
  }

  lemma OnlyTablesWritten(m: seq<Page>, own: Owners, m1: seq<Page>, own1: Owners, m2: seq<Page>,
                          kd: nat, d: nat, i: nat, t: nat, j: nat, e: Word)
    requires FirstPde(kd, d) <= i < PDE_CNT && d < |m| <= VPN_END && j < PTE_CNT
    requires TableFound(m, own, m1, own1, kd, d, i, t)
    requires t in own1 && own1[t] == Table(d, i) && t < |m1| && t != d && m2 == SetWord(m1, t, j, e)
    ensures OnlyTablesOf(m, own, m2, own1, kd, d)
    ensures forall k: nat :: Entry(m2, d, k) == Entry(m1, d, k)
  {
  }

  /** Mapping `k` pages and then one more is mapping `k + 1` pages. */
  lemma MapStep(m: seq<Page>, own: Owners, m1: seq<Page>, own1: Owners, m2: seq<Page>, own2: Owners,
                kd: nat, d: nat, v0: nat, first: nat, perm: nat, k: nat, k': nat, v: nat, f: nat)
    requires k' == k + 1 && v == v0 + k && f == first + k && perm < PAGE_SIZE && first + k + 1 <= VPN_END
    requires Mappable(kd, d, v0) && v0 + k < VPN_END
    requires Mapped(m, own, m1, own1, kd, d, v0, first, perm, k)
    requires Mapped(m1, own1, m2, own2, kd, d, v, f, perm, 1)
    ensures Mapped(m, own, m2, own2, kd, d, v0, first, perm, k')
    ensures IsRoot(own1, kd, d) ==> IsRoot(own2, kd, d)
  {
    assert Unfolded(Seal);
    MapsRangeStep(m, own, m1, own1, m2, kd, d, v0, first, perm, k, v, f);
    TablesForStep(m, m1, m2, kd, d, v0, k, v);
    OnlyTablesStep(m, own, m1, own1, m2, own2, kd, d);
  }

  lemma MapsRangeStep(m: seq<Page>, own: Owners, m1: seq<Page>, own1: Owners, m2: seq<Page>,
                      kd: nat, d: nat, v0: nat, first: nat, perm: nat, k: nat, v: nat, p: nat)
    requires perm < PAGE_SIZE && first + k + 1 <= VPN_END && v == v0 + k && p == first + k
    requires MapsRange(m, own, m1, kd, d, v0, first, perm, k)
    requires forall f: nat | f in own :: f in own1 && own1[f] == own[f]
    requires MapsRange(m1, own1, m2, kd, d, v, p, perm, 1)
    ensures MapsRange(m, own, m2, kd, d, v0, first, perm, k + 1)
  {
    forall r: nat, u: nat | IsRoot(own, kd, r) && Mappable(kd, r, u)
      ensures Pte(m2, r, u) ==
        if r == d && v0 <= u < v0 + k + 1 then MakeEntry(first + (u - v0), perm) else Pte(m, r, u)
    {
      assert IsRoot(own1, kd, r);
      if r == d && u == v {
      } else {
        assert Pte(m2, r, u) == Pte(m1, r, u);
      }
    }
  }

  lemma TablesForStep(m: seq<Page>, m1: seq<Page>, m2: seq<Page>, kd: nat, d: nat, v0: nat, k: nat, v: nat)
    requires v == v0 + k && TablesFor(m, m1, kd, d, v0, k) && TablesFor(m1, m2, kd, d, v, 1)
    requires FirstPde(kd, d) <= v0 / PTE_CNT && v0 + k < VPN_END
    ensures TablesFor(m, m2, kd, d, v0, k + 1)
    ensures TablesNeeded(m, d, v0, k + 1) == TablesNeeded(m, d, v0, k) + TablesNeeded(m1, d, v, 1)
  {
    var j := v / PTE_CNT;
    assert FirstPde(kd, d) <= j < PDE_CNT;
    assert TablesNeeded(m1, d, v, 1) == TablesNeeded(m1, d, v, 0) + if NeedsTable(m1, d, v, 0) then 1 else 0;
    forall i: nat | FirstPde(kd, d) <= i < PDE_CNT
      ensures Covers(v0, k + 1, i) <==> Covers(v0, k, i) || i == j
      ensures Covers(v, 1, i) <==> i == j
    {
    }
  }

  lemma OnlyTablesStep(m: seq<Page>, own: Owners, m1: seq<Page>, own1: Owners, m2: seq<Page>, own2: Owners, kd: nat,
      d: nat)
    requires OnlyTablesOf(m, own, m1, own1, kd, d) && OnlyTablesOf(m1, own1, m2, own2, kd, d)
    ensures OnlyTablesOf(m, own, m2, own2, kd, d)
  {
  }

  lemma NextTableMissing(m: seq<Page>, m1: seq<Page>, kd: nat, d: nat, v0: nat, k: nat)
    requires TablesFor(m, m1, kd, d, v0, k) && NeedsTable(m1, d, v0 + k, 0)
    requires Mappable(kd, d, v0) && v0 + k < VPN_END
    ensures TablesNeeded(m, d, v0, k + 1) == TablesNeeded(m, d, v0, k) + 1
  {
    assert FirstPde(kd, d) <= (v0 + k) / PTE_CNT < PDE_CNT;
  }

  /** Page `v0 + k` is not mapped by mapping those before it. */
  lemma NotMappedYet(m: seq<Page>, own: Owners, m1: seq<Page>, own1: Owners, kd: nat, d: nat, v0: nat, first: nat,
      perm: nat, k: nat)
    requires perm < PAGE_SIZE && first + k <= VPN_END && Mapped(m, own, m1, own1, kd, d, v0, first, perm, k)
    requires IsRoot(own, kd, d) && Mappable(kd, d, v0 + k) && !Present(Pte(m, d, v0 + k))
    ensures !Present(Pte(m1, d, v0 + k)) && TablesFor(m, m1, kd, d, v0, k)
  {
    assert Unfolded(Seal);
  }

  /** A root and its tables are pages of memory. */
  lemma TableThere(m: seq<Page>, own: Owners, kd: nat, d: nat, i: nat)
    requires TablesOk(m, own, kd) && IsRoot(own, kd, d) && FirstPde(kd, d) <= i < PDE_CNT
    ensures d < |m|
    ensures Present(Entry(m, d, i)) ==>
      var t := FrameOf(Entry(m, d, i)); t in own && own[t] == Table(d, i) && t < |m|
  {
    assert Unfolded(Seal);
  }

  lemma NextPage(a: Word)
    requires FrameOf(a) + 1 < VPN_END
    ensures FrameOf(Add32(a, PAGE_SIZE)) == FrameOf(a) + 1
  {
  }
}
