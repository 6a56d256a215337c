/** Whole address spaces: a new one, one given back, one copied. */
module AddressSpaces {
  import opened Machine
  import opened Seals
  import opened PageTables
  import opened UserPages

  // ----- a new directory

  ghost predicate FreshDirectory(m: seq<Page>, kd: nat, p: Page)
    requires kd < |m|
  {
    forall i | 0 <= i < PDE_CNT :: p[i] == if i < USER_PDE then m[kd][i] else 0
  }

  lemma NewDirectory(m: seq<Page>, m': seq<Page>, own: Owners, own': Owners, kd: nat, d: nat, p: Page)
    requires Inv(m, own, kd) && d < |m| && d !in own && d != kd
    requires FreshDirectory(m, kd, p) && m' == SetPage(m, d, p) && own' == own[d := Directory]
    ensures Inv(m', own', kd) && SameTranslations(m, m', own, kd)
    ensures forall v: nat | Mappable(kd, d, v) :: !Present(Pte(m', d, v))
  {
    assert Unfolded(Seal);
    NewDirectoryTables(m, m', own, own', kd, d, p);
    forall r: nat, v: nat | IsDirectory(own', r) && Mappable(kd, r, v) && Present(Pte(m', r, v))
      ensures FrameOf(Pte(m', r, v)) in own' && own'[FrameOf(Pte(m', r, v))] == Data(r, v)
    {
      assert r != d && IsRoot(own, kd, r);
      assert Pte(m', r, v) == Pte(m, r, v);
    }
    forall f: nat | f in own' && own'[f].Data?
      ensures DataPageOk(m', own', kd, f)
    {
      assert DataPageOk(m, own, kd, f);
      assert IsRoot(own, kd, own[f].dir);
    }
  }

  lemma NewDirectoryTables(m: seq<Page>, m': seq<Page>, own: Owners, own': Owners, kd: nat, d: nat, p: Page)
    requires TablesOk(m, own, kd) && KernelShared(m, own, kd) && d < |m| && d !in own && d != kd
    requires FreshDirectory(m, kd, p) && m' == SetPage(m, d, p) && own' == own[d := Directory]
    ensures TablesOk(m', own', kd) && SameTranslations(m, m', own, kd) && KernelShared(m', own', kd)
    ensures forall v: nat | Mappable(kd, d, v) :: !Present(Pte(m', d, v))
  {
    assert Unfolded(Seal);
    assert forall r: nat :: IsRoot(own', kd, r) <==> IsRoot(own, kd, r) || r == d;
    forall r: nat, i: nat
      ensures Entry(m', r, i) == if r != d then Entry(m, r, i) else if i < USER_PDE then Entry(m, kd, i) else 0
    {
    }
    forall t: nat | t in own' && own'[t].Table?
      ensures TableOk(m', own', kd, t)
    {
      assert TableOk(m, own, kd, t);
    }
    forall r: nat, v: nat | IsRoot(own, kd, r) && Mappable(kd, r, v)
      ensures Pte(m', r, v) == Pte(m, r, v)
    {
      assert FirstPde(kd, r) <= v / PTE_CNT < PDE_CNT;
    }
    forall v: nat | Mappable(kd, d, v)
      ensures !Present(Pte(m', d, v))
    {
      assert USER_PDE <= v / PTE_CNT < PDE_CNT;
    }
  }

  // ----- an address space given back

  ghost function PagesOf(own: Owners, d: nat): set<nat> {
    set f: nat | f in own && BelongsTo(own, f, d)
  }

  /** What is left when the pages of directory `d` are given back. */
  ghost function Without(own: Owners, d: nat): Owners {
    map f: nat | f in own && !BelongsTo(own, f, d) :: own[f]
  }

  lemma DestroyedInv(m: seq<Page>, own: Owners, kd: nat, d: nat)
    requires Inv(m, own, kd) && IsDirectory(own, d)
    ensures Inv(m, Without(own, d), kd)
    ensures forall r: nat | IsRoot(own, kd, r) && r != d :: IsRoot(Without(own, d), kd, r)
  {
    assert Unfolded(Seal);
    var own' := Without(own, d);
    forall r: nat
      ensures IsRoot(own', kd, r) <==> IsRoot(own, kd, r) && r != d
    {
    }
    forall t: nat | t in own' && own'[t].Table?
      ensures TableOk(m, own', kd, t)
    {
      assert TableOk(m, own, kd, t);
    }
    forall f: nat | f in own' && own'[f].Data?
      ensures DataPageOk(m, own', kd, f)
    {
      assert DataPageOk(m, own, kd, f);
    }
    forall r: nat, i: nat | IsRoot(own', kd, r) && FirstPde(kd, r) <= i < PDE_CNT && Present(Entry(m, r, i))
      ensures FrameOf(Entry(m, r, i)) in own' && own'[FrameOf(Entry(m, r, i))] == Table(r, i)
      ensures TableRights(Entry(m, r, i))
    {
      assert IsRoot(own, kd, r);
    }
  }

  /** The pages that the loops of memory_destroy_uvm have released when they reach page `v` and entry `i`. */
  ghost function Released(own: Owners, d: nat, v: nat, i: nat): set<nat> {
    set f: nat | f in own && IsReleased(own[f], d, v, i)
  }

  predicate IsReleased(o: Owner, d: nat, v: nat, i: nat) {
    (o.Data? && o.dir == d && o.vpn < v) || (o.Table? && o.dir == d && o.index < i)
  }

  lemma ReleasePage(m: seq<Page>, own: Owners, kd: nat, d: nat, v: nat, v': nat, i: nat)
    requires v' == v + 1 && DataOk(m, own, kd) && IsDirectory(own, d) && Mappable(kd, d, v)
    ensures Present(Pte(m, d, v)) ==> Released(own, d, v', i) == Released(own, d, v, i) + {FrameOf(Pte(m, d, v))}
    ensures !Present(Pte(m, d, v)) ==> Released(own, d, v', i) == Released(own, d, v, i)
  {
    assert Unfolded(Seal);
    forall f: nat | f in own && own[f] == Data(d, v)
      ensures Present(Pte(m, d, v)) && f == FrameOf(Pte(m, d, v))
    {
      assert DataPageOk(m, own, kd, f);
    }
  }

  lemma PteAt(m: seq<Page>, d: nat, i: nat, j: nat, v: nat)
    requires j < PTE_CNT && Present(Entry(m, d, i)) && v == i * PTE_CNT + j
    ensures Pte(m, d, v) == Entry(m, FrameOf(Entry(m, d, i)), j)
  {
  }

  lemma ReleaseTable(m: seq<Page>, own: Owners, kd: nat, d: nat, i: nat, i': nat, v: nat, v': nat)
    requires i' == i + 1 && v == i * PTE_CNT && v' == v + PTE_CNT
    requires TablesOk(m, own, kd) && DataOk(m, own, kd) && IsDirectory(own, d) && d != kd && USER_PDE <= i < PDE_CNT
    ensures Present(Entry(m, d, i)) ==>
      Released(own, d, v', i') == Released(own, d, v', i) + {FrameOf(Entry(m, d, i))}
    ensures !Present(Entry(m, d, i)) ==> Released(own, d, v', i') == Released(own, d, v, i)
  {
    assert Unfolded(Seal);
    assert IsRoot(own, kd, d);
    forall f: nat | f in own && own[f] == Table(d, i)
      ensures Present(Entry(m, d, i)) && f == FrameOf(Entry(m, d, i))
    {
      assert TableOk(m, own, kd, f);
    }
    forall f: nat | f in own && own[f].Data? && own[f].dir == d && own[f].vpn / PTE_CNT == i
      ensures Present(Entry(m, d, i))
    {
      assert DataPageOk(m, own, kd, f);
    }
  }

  lemma ReleasedAll(m: seq<Page>, own: Owners, kd: nat, d: nat)
    requires Inv(m, own, kd) && IsDirectory(own, d)
    ensures Released(own, d, VPN_END, PDE_CNT) + {d} == PagesOf(own, d)
    ensures d !in Released(own, d, VPN_END, PDE_CNT)
    ensures own.Keys - PagesOf(own, d) == Without(own, d).Keys
  {
    assert Unfolded(Seal);
    forall f: nat | f in own && BelongsTo(own, f, d) && f != d
      ensures IsReleased(own[f], d, VPN_END, PDE_CNT)
    {
      if own[f].Table? {
        assert TableOk(m, own, kd, f);
      } else {
        assert DataPageOk(m, own, kd, f);
      }
    }
  }

  lemma OneMoreReleased(all: set<nat>, released: set<nat>, released': set<nat>, f: nat)
    requires released' == released + {f}
    ensures all - released' == all - released - {f}
  {
  }

  lemma NothingReleased(m: seq<Page>, own: Owners, kd: nat, d: nat)
    requires TablesOk(m, own, kd) && DataOk(m, own, kd) && d != kd
    ensures Released(own, d, USER_PDE * PTE_CNT, USER_PDE) == {}
  {
    assert Unfolded(Seal);
    forall f: nat | f in own
      ensures !IsReleased(own[f], d, USER_PDE * PTE_CNT, USER_PDE)
    {
      if own[f].Table? {
        assert TableOk(m, own, kd, f);
      } else if own[f].Data? {
        assert DataPageOk(m, own, kd, f);
      }
    }
  }

  // ----- an address space copied

  /** Pages below `v` of directory `from`, as they were in `m`, have their copies in directory `to`;
      no other user page of `to` is mapped yet. */
  ghost predicate CopiedUpTo(m: seq<Page>, own: Owners, m': seq<Page>, kd: nat, from: nat, to: nat, v: nat) {
    forall u: nat {:trigger Pte(m', to, u)} | Mappable(kd, to, u) ::
      if u < v && Present(Pte(m, from, u)) then
        IsCopy(m, own, m', Pte(m, from, u), Pte(m', to, u))
      else
        !Present(Pte(m', to, u))
  }

  /** `e'` maps a page that was free in `own`, with the flags (the low nine bits) and the contents that `e` has
      in `m`. */
  ghost predicate IsCopy(m: seq<Page>, own: Owners, m': seq<Page>, e: Word, e': Word) {
    && Present(e') && e' % 512 == e % 512
    && FrameOf(e') !in own && FrameOf(e') < |m'| && FrameOf(e) < |m|
    && m'[FrameOf(e')] == m[FrameOf(e)]
  }

  /** Whether directory `from` has a page before `v` under its entry `i`. */
  ghost predicate HasPageBefore(m: seq<Page>, from: nat, i: nat, v: nat) {
    exists u: nat {:trigger Pte(m, from, u)} :: u < v && u / PTE_CNT == i && Present(Pte(m, from, u))
  }

  /** What a copy takes for page `v`: a page, and a table when it is the first one under its entry. */
  ghost function PagesFor(m: seq<Page>, from: nat, v: nat): nat {
    if !Present(Pte(m, from, v)) then 0 else if HasPageBefore(m, from, v / PTE_CNT, v) then 1 else 2
  }

  /** What a copy takes for the user pages before `v`. */
  ghost function PagesToCopy(m: seq<Page>, from: nat, v: nat): nat {
    if v <= USER_PDE * PTE_CNT then 0 else PagesToCopy(m, from, v - 1) + PagesFor(m, from, v - 1)
  }

  lemma {:induction false} PagesToCopyGrows(m: seq<Page>, from: nat, v: nat, w: nat)
    requires v <= w
    ensures PagesToCopy(m, from, v) <= PagesToCopy(m, from, w)
  {
    if v < w {
      PagesToCopyGrows(m, from, v, w - 1);
    }
  }

  lemma {:induction false} NothingToCopy(m: seq<Page>, from: nat, v: nat, n: nat)
    requires USER_PDE * PTE_CNT <= v && forall u: nat | v <= u < v + n :: !Present(Pte(m, from, u))
    ensures PagesToCopy(m, from, v + n) == PagesToCopy(m, from, v)
    ensures forall i: nat :: HasPageBefore(m, from, i, v + n) <==> HasPageBefore(m, from, i, v)
  {
    if n > 0 {
      NothingToCopy(m, from, v, n - 1);
    }
  }

  lemma {:induction false} SameToCopy(m: seq<Page>, m': seq<Page>, from: nat, v: nat)
    requires v <= VPN_END
    requires forall u: nat | USER_PDE * PTE_CNT <= u < VPN_END :: Pte(m', from, u) == Pte(m, from, u)
    ensures PagesToCopy(m', from, v) == PagesToCopy(m, from, v)
  {
    if v > USER_PDE * PTE_CNT {
      SameToCopy(m, m', from, v - 1);
      SamePageBefore(m, m', from, (v - 1) / PTE_CNT, v - 1);
    }
  }

  lemma SamePageBefore(m: seq<Page>, m': seq<Page>, from: nat, i: nat, v: nat)
    requires USER_PDE <= i && v <= VPN_END
    requires forall u: nat | USER_PDE * PTE_CNT <= u < VPN_END :: Pte(m', from, u) == Pte(m, from, u)
    ensures HasPageBefore(m', from, i, v) <==> HasPageBefore(m, from, i, v)
  {
    forall u: nat | u < v && u / PTE_CNT == i
      ensures Pte(m', from, u) == Pte(m, from, u)
    {
      assert USER_PDE * PTE_CNT <= u;
    }
  }

  /** Directory `to` has tables exactly where it has pages so far. */
  ghost predicate TablesCopied(m: seq<Page>, m': seq<Page>, from: nat, to: nat, v: nat) {
    forall i: nat {:trigger Entry(m', to, i)} | USER_PDE <= i < PDE_CNT ::
      Present(Entry(m', to, i)) <==> HasPageBefore(m, from, i, v)
  }

  /** The state of memory_copy_uvm at page `v`, since the new directory `to` was made in image `m`. */
  ghost predicate Copying(m: seq<Page>, own: Owners, m': seq<Page>, own': Owners, kd: nat, from: nat, to: nat, v: nat) {
    forall seal: Seal {:trigger Unfolded(seal)} | Unfolded(seal) ::
    && GrewBy(own, own', to) && OthersKept(m, own, m', to) && (kd < |m| ==> m'[kd] == m[kd])
    && CopiedUpTo(m, own, m', kd, from, to, v)
    && TablesCopied(m, m', from, to, v) && |own'| == |own| + PagesToCopy(m, from, v)
  }

  /** The page given for `v`, and its table if it is the first one there. */
  lemma OnePageCounted(m: seq<Page>, m1: seq<Page>, m2: seq<Page>, m3: seq<Page>, kd: nat, from: nat, to: nat, v: nat)
    requires TablesCopied(m, m1, from, to, v) && to != kd && Mappable(kd, to, v) && Present(Pte(m, from, v))
    requires TablesFor(m1, m2, kd, to, v, 1) && forall i: nat :: Entry(m3, to, i) == Entry(m2, to, i)
    ensures TablesCopied(m, m3, from, to, v + 1)
    ensures PagesToCopy(m, from, v + 1) == PagesToCopy(m, from, v) + PagesNeeded(m1, to, v, 1)
  {
    assert USER_PDE <= v / PTE_CNT < PDE_CNT;
    assert TablesNeeded(m1, to, v, 1) == TablesNeeded(m1, to, v, 0) + if NeedsTable(m1, to, v, 0) then 1 else 0;
    forall i: nat | USER_PDE <= i < PDE_CNT
      ensures HasPageBefore(m, from, i, v + 1) <==> HasPageBefore(m, from, i, v) || i == v / PTE_CNT
      ensures Covers(v, 1, i) <==> i == v / PTE_CNT
    {
    }
  }

  /** A copy stopped at page `v` of directory `from`, with `free` pages at its start: none was left for the
      page, or (`noTable`) the last one went to the page and none was left for its table. */
  ghost predicate StoppedAt(m: seq<Page>, from: nat, v: nat, free: int, noTable: bool) {
    && USER_PDE * PTE_CNT <= v < VPN_END && Present(Pte(m, from, v))
    && if noTable then LosesPage(m, from, v, free) else free == 1 + PagesToCopy(m, from, v)
  }

  /** The last free page would go to page `v`, whose table is missing. */
  ghost predicate LosesPage(m: seq<Page>, from: nat, v: nat, free: int) {
    && USER_PDE * PTE_CNT <= v < VPN_END && PagesFor(m, from, v) == 2
    && free == 1 + PagesToCopy(m, from, v) + 1
  }

  /** A copy succeeds exactly when there is a page for the directory and enough for all pages and tables; it
      loses a page exactly when that page was the last one and its table is missing. */
  lemma CopyOutcome(m: seq<Page>, from: nat, v: nat, free: int, noTable: bool)
    requires StoppedAt(m, from, v, free, noTable)
    ensures free < 1 + PagesToCopy(m, from, VPN_END)
    ensures noTable <==> exists w: nat :: LosesPage(m, from, w, free)
  {
    OneMoreToCopy(m, from, v, VPN_END);
    if w: nat :| LosesPage(m, from, w, free) {
      StopsOnce(m, from, v, w, free, noTable);
    }
  }

  lemma StopsOnce(m: seq<Page>, from: nat, v: nat, w: nat, free: int, noTable: bool)
    requires StoppedAt(m, from, v, free, noTable) && LosesPage(m, from, w, free)
    ensures noTable
  {
    if w < v {
      OneMoreToCopy(m, from, w, v);
    } else if v < w {
      OneMoreToCopy(m, from, v, w);
    }
  }

  lemma OneMoreToCopy(m: seq<Page>, from: nat, v: nat, w: nat)
    requires USER_PDE * PTE_CNT <= v < w
    ensures PagesToCopy(m, from, v) + PagesFor(m, from, v) <= PagesToCopy(m, from, w)
  {
    assert PagesToCopy(m, from, v + 1) == PagesToCopy(m, from, v) + PagesFor(m, from, v);
    PagesToCopyGrows(m, from, v + 1, w);
  }

  /** Directories other than `to` translate as before. */
  lemma OthersTranslate(m: seq<Page>, own: Owners, m': seq<Page>, kd: nat, to: nat, r: nat, u: nat)
    requires TablesOk(m, own, kd) && IsRoot(own, kd, r) && r != to && Mappable(kd, r, u) && IsDirectory(own, to)
    requires OthersKept(m, own, m', to) && m'[kd] == m[kd]
    ensures Pte(m', r, u) == Pte(m, r, u)
  {
    assert Unfolded(Seal);
    var i := u / PTE_CNT;
    assert FirstPde(kd, r) <= i < PDE_CNT;
    if r != kd {
      assert !IsStructure(own, r, to);
    }
    assert Entry(m', r, i) == Entry(m, r, i);
    if Present(Entry(m, r, i)) {
      var t := FrameOf(Entry(m, r, i));
      assert own[t] == Table(r, i) && !IsStructure(own, t, to);
    }
  }

  /** The page behind a present entry of a task's user half. */
  lemma DataOwner(m: seq<Page>, own: Owners, kd: nat, d: nat, v: nat)
    requires TablesOk(m, own, kd) && DataOk(m, own, kd) && IsDirectory(own, d) && Mappable(kd, d, v)
    requires Present(Pte(m, d, v))
    ensures var f := FrameOf(Pte(m, d, v)); f in own && own[f] == Data(d, v) && f < |m|
  {
    assert Unfolded(Seal);
  }

  lemma GivenPage(m: seq<Page>, own: Owners, m': seq<Page>, own': Owners, kd: nat, d: nat, v: nat, perm: nat)
    requires perm < PAGE_SIZE && Given(m, own, m', own', kd, d, v, perm, 1) && IsDirectory(own, d) && Mappable(kd, d, v)
    ensures GrewBy(own, own', d) && OthersKept(m, own, m', d) && (kd < |m| ==> m'[kd] == m[kd])
    ensures Present(Pte(m', d, v)) && FrameOf(Pte(m', d, v)) !in own
    ensures forall u: nat | Mappable(kd, d, u) && u != v :: Pte(m', d, u) == Pte(m, d, u)
    ensures TablesFor(m, m', kd, d, v, 1) && |own'| == |own| + PagesNeeded(m, d, v, 1)
  {
    assert Unfolded(Seal);
    assert IsRoot(own, kd, d);
  }

  lemma CopyingIs(m: seq<Page>, own: Owners, m': seq<Page>, own': Owners, kd: nat, from: nat, to: nat, v: nat)
    ensures Copying(m, own, m', own', kd, from, to, v) <==>
      && GrewBy(own, own', to) && OthersKept(m, own, m', to) && (kd < |m| ==> m'[kd] == m[kd])
      && CopiedUpTo(m, own, m', kd, from, to, v)
      && TablesCopied(m, m', from, to, v) && |own'| == |own| + PagesToCopy(m, from, v)
  {
    assert Unfolded(Seal);
  }

  /** Giving page `v` and filling it with the parent's contents. */
  lemma CopyOnePage(m: seq<Page>, own: Owners, m1: seq<Page>, own1: Owners, m2: seq<Page>, own2: Owners, m3: seq<Page>,
                    kd: nat, from: nat, to: nat, v: nat, v': nat, p: nat)
    requires v' == v + 1
    requires Inv(m1, own1, kd) && Inv(m2, own2, kd) && IsDirectory(own1, to) && |m| == |m1| <= VPN_END && from != to
    requires Copying(m, own, m1, own1, kd, from, to, v) && Mappable(kd, to, v) && TablesOk(m, own, kd)
    requires DataOk(m, own, kd) && IsDirectory(own, from) && Present(Pte(m, from, v))
    requires p < |m2| && p < VPN_END && FrameOf(Pte(m, from, v)) < |m2|
    requires Given(m1, own1, m2, own2, kd, to, v, PermOf(Pte(m, from, v)), 1)
    requires Pte(m2, to, v) == MakeEntry(p, PermOf(Pte(m, from, v)))
    requires m3 == SetPage(m2, p, m2[FrameOf(Pte(m, from, v))])
    ensures Copying(m, own, m3, own2, kd, from, to, v')
    ensures Inv(m3, own2, kd)
  {
    var e, src := Pte(m, from, v), FrameOf(Pte(m, from, v));
    CopyingIs(m, own, m1, own1, kd, from, to, v);
    GivenPage(m1, own1, m2, own2, kd, to, v, PermOf(e));
    assert FrameOf(Pte(m2, to, v)) == p;
    DataOwner(m, own, kd, from, v);
    assert IsDirectory(own2, to) by { assert to in own2; }
    DataOwner(m2, own2, kd, to, v);
    assert src in own1 && m1[src] == m[src] && m2[src] == m1[src];
    OnlyTablesMatter(m2, m3, own2, kd);
    GrewByTwice(own, own1, own2, to);
    OthersKeptTwice(m, own, m1, own1, m2, to);
    OnePageCounted(m, m1, m2, m3, kd, from, to, v);
    forall u: nat | Mappable(kd, to, u)
      ensures if u < v + 1 && Present(Pte(m, from, u)) then IsCopy(m, own, m3, Pte(m, from, u), Pte(m3, to, u))
              else !Present(Pte(m3, to, u))
    {
      assert IsRoot(own2, kd, to);
      assert Pte(m3, to, u) == Pte(m2, to, u);
      if u == v {
        CopyHere(m, own, m3, e, Pte(m3, to, v), p);
      } else {
        assert Pte(m2, to, u) == Pte(m1, to, u);
        CopyThere(m, own, m1, own1, m2, m3, kd, from, to, v, p, u);
      }
    }
    CopyingIs(m, own, m3, own2, kd, from, to, v');
  }

  /** The page that was just filled. */
  lemma CopyHere(m: seq<Page>, own: Owners, m3: seq<Page>, e: Word, e': Word, p: nat)
    requires Present(e) && p < VPN_END && e' == MakeEntry(p, PermOf(e))
    requires p !in own && p < |m3| && FrameOf(e) < |m| && m3[p] == m[FrameOf(e)]
    ensures IsCopy(m, own, m3, e, e')
  {
    PermKept(p, e);
  }

  lemma CopyThere(m: seq<Page>, own: Owners, m1: seq<Page>, own1: Owners, m2: seq<Page>, m3: seq<Page>,
                  kd: nat, from: nat, to: nat, v: nat, p: nat, u: nat)
    requires DataOk(m1, own1, kd) && IsDirectory(own1, to) && Mappable(kd, to, u) && u != v
    requires CopiedUpTo(m, own, m1, kd, from, to, v) && OthersKept(m1, own1, m2, to) && p !in own1
    requires |m3| == |m2| && (forall f: nat | f < |m2| && f != p :: m3[f] == m2[f]) && Pte(m3, to, u) == Pte(m1, to, u)
    ensures if u < v + 1 && Present(Pte(m, from, u)) then IsCopy(m, own, m3, Pte(m, from, u), Pte(m3, to, u))
            else !Present(Pte(m3, to, u))
  {
    if u < v && Present(Pte(m, from, u)) {
      assert IsCopy(m, own, m1, Pte(m, from, u), Pte(m1, to, u));
      CopyStays(m, own, m1, own1, m2, m3, kd, Pte(m, from, u), Pte(m1, to, u), to, p, u);
    }
  }

  /** A copy made before is not written again. */
  lemma CopyStays(m: seq<Page>, own: Owners, m1: seq<Page>, own1: Owners, m2: seq<Page>, m3: seq<Page>,
                  kd: nat, e: Word, e': Word, to: nat, p: nat, u: nat)
    requires DataOk(m1, own1, kd) && IsDirectory(own1, to) && Mappable(kd, to, u) && e' == Pte(m1, to, u)
    requires IsCopy(m, own, m1, e, e') && OthersKept(m1, own1, m2, to) && p !in own1
    requires |m3| == |m2| && forall f: nat | f < |m2| && f != p :: m3[f] == m2[f]
    ensures IsCopy(m, own, m3, e, e')
  {
    assert Unfolded(Seal);
    var f := FrameOf(e');
    assert own1[f] == Data(to, u) && !IsStructure(own1, f, to);
    assert m2[f] == m1[f] && f != p;
  }

  lemma NotCopiedYet(m: seq<Page>, own: Owners, m1: seq<Page>, own1: Owners, kd: nat, from: nat, to: nat, v: nat)
    requires Copying(m, own, m1, own1, kd, from, to, v) && Mappable(kd, to, v)
    ensures !Present(Pte(m1, to, v))
  {
    assert Unfolded(Seal);
  }

  /** Where a copy is when the pages run out. */
  lemma StopsHere(m: seq<Page>, own: Owners, m1: seq<Page>, own1: Owners, kd: nat, from: nat, to: nat, v: nat)
    requires Copying(m, own, m1, own1, kd, from, to, v) && Mappable(kd, to, v) && to != kd && Present(Pte(m, from, v))
    ensures StoppedAt(m, from, v, |own1| - |own| + 1, false)
    ensures NeedsTable(m1, to, v, 0) ==> StoppedAt(m, from, v, |own1| + 1 - |own| + 1, true)
    ensures GrewBy(own, own1, to) && OthersKept(m, own, m1, to)
  {
    assert Unfolded(Seal);
    assert USER_PDE <= v / PTE_CNT < PDE_CNT;
  }

  /** Making the new directory changed nothing of what there is to copy. */
  lemma SameToCopyNow(m: seq<Page>, m': seq<Page>, own: Owners, kd: nat, from: nat)
    requires SameTranslations(m, m', own, kd) && IsDirectory(own, from) && from != kd
    ensures forall v: nat | v <= VPN_END :: PagesToCopy(m', from, v) == PagesToCopy(m, from, v)
    ensures forall v: nat | USER_PDE * PTE_CNT <= v < VPN_END :: PagesFor(m', from, v) == PagesFor(m, from, v)
    ensures forall v: nat, free: int :: LosesPage(m', from, v, free) <==> LosesPage(m, from, v, free)
  {
    forall u: nat | USER_PDE * PTE_CNT <= u < VPN_END
      ensures Pte(m', from, u) == Pte(m, from, u)
    {
      assert IsRoot(own, kd, from) && Mappable(kd, from, u);
    }
    forall v: nat | v <= VPN_END
      ensures PagesToCopy(m', from, v) == PagesToCopy(m, from, v)
    {
      SameToCopy(m, m', from, v);
    }
    forall v: nat | USER_PDE * PTE_CNT <= v < VPN_END
      ensures PagesFor(m', from, v) == PagesFor(m, from, v)
    {
      SamePageBefore(m, m', from, v / PTE_CNT, v);
    }
  }

  /** A page the parent does not have is skipped. */
  lemma SkipPage(m: seq<Page>, own: Owners, m': seq<Page>, own': Owners, kd: nat, from: nat, to: nat, v: nat, v': nat)
    requires v' == v + 1 && Copying(m, own, m', own', kd, from, to, v) && !Present(Pte(m, from, v))
    requires USER_PDE * PTE_CNT <= v
    ensures Copying(m, own, m', own', kd, from, to, v')
  {
    NothingToCopy(m, from, v, 1);
  }

  /** A whole table the parent does not have is skipped. */
  lemma SkipTable(m: seq<Page>, own: Owners, m': seq<Page>, own': Owners, kd: nat, from: nat, to: nat, i: nat, v: nat,
      v': nat)
    requires v == i * PTE_CNT && v' == v + PTE_CNT
    requires Copying(m, own, m', own', kd, from, to, v) && !Present(Entry(m, from, i)) && USER_PDE <= i
    ensures Copying(m, own, m', own', kd, from, to, v')
  {
    forall u: nat | v <= u < v'
      ensures !Present(Pte(m, from, u))
    {
      assert u / PTE_CNT == i;
    }
    NothingToCopy(m, from, v, PTE_CNT);
  }

  lemma CopyStarts(m: seq<Page>, own: Owners, kd: nat, from: nat, to: nat)
    requires forall v: nat | Mappable(kd, to, v) :: !Present(Pte(m, to, v))
    requires forall i: nat | USER_PDE <= i < PDE_CNT :: !Present(Entry(m, to, i))
    requires to != kd
    ensures Copying(m, own, m, own, kd, from, to, USER_PDE * PTE_CNT)
  {
    forall i: nat | USER_PDE <= i < PDE_CNT
      ensures !HasPageBefore(m, from, i, USER_PDE * PTE_CNT)
    {
    }
  }

  /** Destroying what grew since directory `to` was made leaves the owners there were before it. */
  lemma AllGivenBack(m: seq<Page>, own: Owners, own': Owners, kd: nat, to: nat)
    requires TablesOk(m, own, kd) && DataOk(m, own, kd) && to !in own && to != kd
    requires GrewBy(own[to := Directory], own', to)
    ensures Without(own', to) == own
    ensures forall p: nat | p !in own' :: p !in own && Without(own'[p := Leaked], to) == own[p := Leaked]
  {
    assert Unfolded(Seal);
    var own1 := own[to := Directory];
    forall f: nat
      ensures f in own' && !BelongsTo(own', f, to) <==> f in own
      ensures f in own ==> f in own' && own'[f] == own[f]
    {
      if f in own {
        assert f in own1 && f in own';
        if own[f].Table? {
          assert TableOk(m, own, kd, f);
        } else if own[f].Data? {
          assert DataPageOk(m, own, kd, f);
        }
      } else if f in own' {
        assert f == to || f !in own1;
      }
    }
    forall p: nat | p !in own'
      ensures p !in own && Without(own'[p := Leaked], to) == own[p := Leaked]
    {
      assert to in own1 && to in own';
    }
  }

  /** Giving the child a page does not move the parent's. */
  lemma ParentKept(m: seq<Page>, own: Owners, m1: seq<Page>, own1: Owners, m2: seq<Page>, own2: Owners,
                   kd: nat, from: nat, to: nat, v: nat, perm: nat)
    requires Inv(m, own, kd) && IsDirectory(own, from) && IsDirectory(own, to) && from != to && Mappable(kd, from, v)
    requires Copying(m, own, m1, own1, kd, from, to, v) && |m| == |m1| && perm < PAGE_SIZE
    requires DataOk(m1, own1, kd) && IsDirectory(own1, to)
    requires Given(m1, own1, m2, own2, kd, to, v, perm, 1) && Present(Pte(m, from, v))
    requires TablesOk(m2, own2, kd) && DataOk(m2, own2, kd)
    ensures Pte(m2, from, v) == Pte(m, from, v) && IsDirectory(own2, from) && IsDirectory(own2, to)
    ensures FrameOf(Pte(m, from, v)) < |m2|
    ensures FrameOf(Pte(m2, to, v)) < |m2| && FrameOf(Pte(m2, to, v)) != FrameOf(Pte(m, from, v))
  {
    CopyingIs(m, own, m1, own1, kd, from, to, v);
    GivenPage(m1, own1, m2, own2, kd, to, v, perm);
    GrewByTwice(own, own1, own2, to);
    OthersKeptTwice(m, own, m1, own1, m2, to);
    assert from in own2 && to in own2;
    OthersTranslate(m, own, m2, kd, to, from, v);
    DataOwner(m, own, kd, from, v);
    DataOwner(m2, own2, kd, to, v);
    assert FrameOf(Pte(m, from, v)) in own1;
  }

  /** The parent's directory and tables read as they did when the copy began. */
  lemma ParentTables(m: seq<Page>, own: Owners, m': seq<Page>, own': Owners, kd: nat, from: nat, to: nat, v: nat,
      i: nat)
    requires TablesOk(m, own, kd) && IsDirectory(own, from) && IsDirectory(own, to) && from != to && from != kd
    requires Copying(m, own, m', own', kd, from, to, v) && USER_PDE <= i < PDE_CNT
    ensures from < |m'| && m'[from][i] == Entry(m, from, i)
    ensures Present(Entry(m, from, i)) ==>
      var t := FrameOf(Entry(m, from, i)); t < |m'| && forall j: nat | j < PTE_CNT :: m'[t][j] == Entry(m, t, j)
  {
    assert Unfolded(Seal);
    assert !IsStructure(own, from, to) && m'[from] == m[from];
    if Present(Entry(m, from, i)) {
      var t := FrameOf(Entry(m, from, i));
      assert IsRoot(own, kd, from);
      assert own[t] == Table(from, i);
      assert !IsStructure(own, t, to) && m'[t] == m[t];
    }
  }

  /** `to` is a copy of the user half of `from`: the same pages with the same permissions and contents,
      each in a page that was free; every page that was in use is as it was. */
  ghost predicate IsCopyOf(m: seq<Page>, own: Owners, m': seq<Page>, own': Owners, kd: nat, from: nat, to: nat) {
    && to !in own && IsDirectory(own', to) && GrewBy(own, own', to) && OldPagesKept(m, own, m')
    && forall u: nat {:trigger Pte(m', to, u)} | Mappable(kd, to, u) ::
      if Present(Pte(m, from, u)) then IsCopy(m, own, m', Pte(m, from, u), Pte(m', to, u)) else !Present(Pte(m', to, u))
  }

  ghost predicate OldPagesKept(m: seq<Page>, own: Owners, m': seq<Page>) {
    |m'| == |m| && forall f: nat {:trigger m'[f]} | f < |m| && f in own :: m'[f] == m[f]
  }

  lemma OldPages(m0: seq<Page>, own0: Owners, m: seq<Page>, m': seq<Page>, kd: nat, to: nat)
    requires TablesOk(m0, own0, kd) && to !in own0 && to != kd && |m| == |m0|
    requires forall f | 0 <= f < |m| && f != to :: m[f] == m0[f]
    requires OthersKept(m, own0[to := Directory], m', to)
    ensures OldPagesKept(m0, own0, m')
  {
    assert Unfolded(Seal);
    forall f: nat | f < |m0| && f in own0
      ensures m'[f] == m0[f]
    {
      if own0[f].Table? {
        assert TableOk(m0, own0, kd, f);
      }
      assert !IsStructure(own0[to := Directory], f, to);
    }
  }

  lemma CopyComplete(m0: seq<Page>, own0: Owners, m: seq<Page>, m': seq<Page>, own': Owners, kd: nat, from: nat,
      to: nat)
    requires Inv(m0, own0, kd) && IsDirectory(own0, from) && to !in own0 && to != kd && |m| == |m0|
    requires SameTranslations(m0, m, own0, kd) && forall f | 0 <= f < |m| && f != to :: m[f] == m0[f]
    requires Copying(m, own0[to := Directory], m', own', kd, from, to, VPN_END)
    ensures IsCopyOf(m0, own0, m', own', kd, from, to)
  {
    var own1 := own0[to := Directory];
    CopyingIs(m, own1, m', own', kd, from, to, VPN_END);
    OldPages(m0, own0, m, m', kd, to);
    assert to in own1 && to in own';
    forall f: nat
      ensures f in own0 ==> f in own' && own'[f] == own0[f]
      ensures f in own' && f !in own0 ==> BelongsTo(own', f, to)
    {
      assert f in own0 ==> f in own1 && own1[f] == own0[f];
    }
    forall u: nat | Mappable(kd, to, u)
      ensures if Present(Pte(m0, from, u)) then IsCopy(m0, own0, m', Pte(m0, from, u), Pte(m', to, u))
        else !Present(Pte(m', to, u))
    {
      assert IsRoot(own0, kd, from) && Mappable(kd, from, u);
      assert Pte(m, from, u) == Pte(m0, from, u);
      if Present(Pte(m0, from, u)) {
        assert IsCopy(m, own1, m', Pte(m, from, u), Pte(m', to, u));
        DataOwner(m0, own0, kd, from, u);
      }
    }
  }

  /** The parent of a copy keeps its mappings and its bytes, and copies of different pages are different pages. */
  lemma ParentUnchanged(m: seq<Page>, own: Owners, m': seq<Page>, own': Owners, kd: nat, from: nat, to: nat, u: nat)
    requires Inv(m, own, kd) && Inv(m', own', kd) && IsDirectory(own, from) && Mappable(kd, to, u) && to != kd
    requires from != kd
    requires IsCopyOf(m, own, m', own', kd, from, to)
    ensures Pte(m', from, u) == Pte(m, from, u)
    ensures Present(Pte(m, from, u)) ==> var f := FrameOf(Pte(m, from, u)); f < |m| && f < |m'| && m'[f] == m[f]
    ensures forall w: nat | Mappable(kd, to, w) && Present(Pte(m', to, w)) && Present(Pte(m', to, u)) && w != u ::
      FrameOf(Pte(m', to, w)) != FrameOf(Pte(m', to, u))
  {
    assert Unfolded(Seal);
    assert IsRoot(own, kd, from) && Mappable(kd, from, u);
    var i := u / PTE_CNT;
    assert USER_PDE <= i < PDE_CNT;
    assert Entry(m', from, i) == Entry(m, from, i);
    if Present(Entry(m, from, i)) {
      assert own[FrameOf(Entry(m, from, i))] == Table(from, i);
    }
    if Present(Pte(m, from, u)) {
      assert own[FrameOf(Pte(m, from, u))] == Data(from, u);
    }
  }

  lemma KernelPageFreed(m: seq<Page>, own: Owners, kd: nat, f: nat)
    requires Inv(m, own, kd) && f in own && own[f] == Kernel
    ensures Inv(m, own - {f}, kd)
  {
    assert Unfolded(Seal);
    var own' := own - {f};
    assert forall r: nat :: IsRoot(own', kd, r) <==> IsRoot(own, kd, r);
    forall t: nat | t in own' && own'[t].Table?
      ensures TableOk(m, own', kd, t)
    {
      assert own'[t] == own[t] && TableOk(m, own, kd, t);
    }
    forall p: nat | p in own' && own'[p].Data?
      ensures DataPageOk(m, own', kd, p)
    {
      assert own'[p] == own[p] && DataPageOk(m, own, kd, p);
    }
  }
}
