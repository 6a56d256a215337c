/** Giving user pages to a directory, and taking all of them back. */
module UserPages {
  import opened Machine
  import opened Seals
  import opened PageTables

  /** Whether a page belongs to the address space of directory `d`. */
  predicate BelongsTo(own: Owners, f: nat, d: nat)
    requires f in own
  {
    f == d || (own[f].Table? && own[f].dir == d) || (own[f].Data? && own[f].dir == d)
  }

  /** Every page that had an owner keeps it, and every new one belongs to `d`. */
  ghost predicate GrewBy(own: Owners, own': Owners, d: nat) {
    && (forall f: nat {:trigger own'[f]} {:trigger f in own'} | f in own :: f in own' && own'[f] == own[f])
    && (forall f: nat {:trigger own'[f]} {:trigger f in own'} | f in own' && f !in own :: BelongsTo(own', f, d))
  }

  /** Pages `v0 .. v0 + n` of directory `d` map pages that were free before; other translations are the same. */
  ghost predicate FreshRange(m: seq<Page>, own: Owners, m': seq<Page>, kd: nat, d: nat, v0: nat, perm: nat, n: nat)
    requires perm < PAGE_SIZE
  {
    forall r: nat, u: nat {:trigger Pte(m', r, u)} | IsRoot(own, kd, r) && Mappable(kd, r, u) ::
      if r == d && v0 <= u < v0 + n then
        var f := FrameOf(Pte(m', r, u));
        f < VPN_END && f !in own && Pte(m', r, u) == MakeEntry(f, perm)
      else
        Pte(m', r, u) == Pte(m, r, u)
  }

  /** The directory itself or one of its tables. */
  predicate IsStructure(own: Owners, f: nat, d: nat)
    requires f in own
  {
    f == d || (own[f].Table? && own[f].dir == d)
  }

  /** Every page that was in use keeps its contents, but for directory `d` and its tables. */
  ghost predicate OthersKept(m: seq<Page>, own: Owners, m': seq<Page>, d: nat) {
    && |m'| == |m|
    && forall f: nat {:trigger m'[f]} | f < |m| && f in own && !IsStructure(own, f, d) :: m'[f] == m[f]
  }

  /** From `m` to `m'`, directory `d` was given `n` fresh pages from virtual page `v0` on. */
  ghost predicate Given(m: seq<Page>, own: Owners, m': seq<Page>, own': Owners, kd: nat, d: nat, v0: nat, perm: nat,
      n: nat)
    requires perm < PAGE_SIZE
  {
    forall seal: Seal {:trigger Unfolded(seal)} | Unfolded(seal) ::
    && GrewBy(own, own', d)
    && FreshRange(m, own, m', kd, d, v0, perm, n)
    && OthersKept(m, own, m', d) && (kd < |m| ==> m'[kd] == m[kd])
    && TablesFor(m, m', kd, d, v0, n)
    && |own'| == |own| + PagesNeeded(m, d, v0, n)
  }

  /** How many pages the range takes: itself and the tables that are missing. */
  function PagesNeeded(m: seq<Page>, d: nat, v0: nat, n: nat): nat {
    n + TablesNeeded(m, d, v0, n)
  }

  /** Owners while page `p`, free before, is held by the kernel, then mapped, then handed to directory `d`. */
  ghost predicate HandsOver(own: Owners, held: Owners, own1: Owners, own': Owners, d: nat, v: nat, p: nat) {
    && p !in own && held == own[p := Kernel]
    && (forall f: nat {:trigger own1[f]} {:trigger f in own1} | f in held :: f in own1 && own1[f] == held[f])
    && (forall f: nat {:trigger own1[f]} | f in own1 && f !in held :: own1[f].Table? && own1[f].dir == d)
    && own' == own1[p := Data(d, v)]
  }

  lemma HandOverOwners(own: Owners, held: Owners, own1: Owners, own': Owners, kd: nat, d: nat, v: nat, p: nat)
    requires HandsOver(own, held, own1, own', d, v, p)
    ensures GrewBy(own, own', d) && p in own1 && own1[p] == Kernel
    ensures forall r: nat :: IsRoot(own', kd, r) <==> IsRoot(own, kd, r)
    ensures forall r: nat :: IsRoot(held, kd, r) <==> IsRoot(own, kd, r)
    ensures |own'| == |own1|
  {
    forall f: nat | f in own
      ensures f in own' && own'[f] == own[f]
    {
      assert f in held && f in own1;
    }
    assert p in held && p in own1 && own1[p] == held[p];
    forall f: nat | f in own' && f !in own
      ensures BelongsTo(own', f, d) && !own'[f].Directory?
    {
      if f != p {
        assert own'[f] == own1[f];
      }
    }
  }

  lemma HandOverTables(m: seq<Page>, own1: Owners, own': Owners, kd: nat, d: nat, v: nat, p: nat)
    requires TablesOk(m, own1, kd) && p in own1 && own1[p] == Kernel && own' == own1[p := Data(d, v)]
    ensures TablesOk(m, own', kd)
  {
    assert Unfolded(Seal);
    assert forall r: nat :: IsRoot(own', kd, r) <==> IsRoot(own1, kd, r);
    assert forall t: nat | t in own' && own'[t].Table? :: own1[t] == own'[t] && TableOk(m, own1, kd, t);
  }

  lemma HandOverData(m: seq<Page>, own: Owners, held: Owners, m': seq<Page>, own1: Owners, own': Owners,
                     kd: nat, d: nat, v: nat, p: nat, perm: nat)
    requires HandsOver(own, held, own1, own', d, v, p) && DataOk(m, own, kd)
    requires IsDirectory(own, d) && Mappable(kd, d, v) && !Present(Pte(m, d, v)) && p < VPN_END && perm < PAGE_SIZE
    requires MapsRange(m, held, m', kd, d, v, p, perm, 1)
    ensures DataOk(m', own', kd) && FreshRange(m, own, m', kd, d, v, perm, 1)
  {
    assert Unfolded(Seal);
    HandOverOwners(own, held, own1, own', kd, d, v, p);
    forall r: nat, u: nat | IsRoot(own, kd, r) && Mappable(kd, r, u)
      ensures Pte(m', r, u) == if r == d && u == v then MakeEntry(p, perm) else Pte(m, r, u)
    {
      assert IsRoot(held, kd, r);
    }
    forall r: nat, u: nat | IsDirectory(own', r) && Mappable(kd, r, u) && Present(Pte(m', r, u))
      ensures FrameOf(Pte(m', r, u)) in own' && own'[FrameOf(Pte(m', r, u))] == Data(r, u)
    {
      assert IsRoot(own', kd, r) && IsRoot(own, kd, r);
      if r != d || u != v {
        assert Pte(m', r, u) == Pte(m, r, u);
        assert IsDirectory(own, r) by { DirectoriesSame(own, own', d, r); }
        assert own[FrameOf(Pte(m, r, u))] == Data(r, u);
      }
    }
    forall f: nat | f in own' && own'[f].Data?
      ensures DataPageOk(m', own', kd, f)
    {
      if f != p {
        assert own'[f] == own1[f];
        assert f in held && f in own && own[f] == own'[f];
        assert DataPageOk(m, own, kd, f);
        var r, u := own[f].dir, own[f].vpn;
        assert IsRoot(own, kd, r);
        assert own'[r] == own[r];
      } else {
        assert own'[d] == own[d];
      }
    }
  }

  lemma DirectoriesSame(own: Owners, own': Owners, d: nat, r: nat)
    requires GrewBy(own, own', d) && IsDirectory(own, d) && IsDirectory(own', r)
    ensures IsDirectory(own, r)
  {
    if r !in own {
      assert BelongsTo(own', r, d);
      assert own'[r] == Directory && own'[d] == own[d];
    } else {
      assert own'[r] == own[r];
    }
  }

  lemma HandOverShared(m: seq<Page>, own: Owners, held: Owners, m': seq<Page>, own1: Owners, own': Owners, kd: nat,
      d: nat, v: nat, p: nat)
    requires HandsOver(own, held, own1, own', d, v, p) && IsDirectory(own, d) && d != kd && kd !in own && kd < |m|
    requires p != kd && kd !in own1
    requires TablesOk(m, own, kd) && KernelShared(m, own, kd) && OnlyTablesOf(m, held, m', own1, kd, d)
    ensures KernelShared(m', own', kd) && OthersKept(m, own, m', d) && m'[kd] == m[kd]
  {
    assert Unfolded(Seal);
    HandOverOwners(own, held, own1, own', kd, d, v, p);
    assert m'[kd] == m[kd];
    forall f: nat | f < |m| && f in own && !IsStructure(own, f, d)
      ensures m'[f] == m[f]
    {
      assert own1[f] == held[f];
    }
    forall r: nat, i: nat | IsDirectory(own', r) && i < USER_PDE
      ensures Entry(m', r, i) == Entry(m', kd, i)
    {
      DirectoriesSame(own, own', d, r);
      assert Entry(m, r, i) == Entry(m, kd, i);
      if r != d {
        assert !IsStructure(own, r, d);
      }
    }
  }

  /** Mapping a page that the kernel holds into directory `d` hands it over. */
  lemma HandOver(m: seq<Page>, own: Owners, held: Owners, m': seq<Page>, own1: Owners, own': Owners,
                 kd: nat, d: nat, v: nat, p: nat, perm: nat)
    requires Inv(m, own, kd) && IsDirectory(own, d) && d != kd && Mappable(kd, d, v) && !Present(Pte(m, d, v))
    requires p !in own && p != kd && p < VPN_END && perm < PAGE_SIZE && held == own[p := Kernel]
    requires Mapped(m, held, m', own1, kd, d, v, p, perm, 1) && TablesOk(m', own1, kd)
    requires own' == own1[p := Data(d, v)]
    ensures Inv(m', own', kd)
    ensures Given(m, own, m', own', kd, d, v, perm, 1)
    ensures IsDirectory(own', d) && Pte(m', d, v) == MakeEntry(p, perm)
  {
    assert Unfolded(Seal);
    assert IsRoot(held, kd, d);
    assert HandsOver(own, held, own1, own', d, v, p);
    HandOverOwners(own, held, own1, own', kd, d, v, p);
    HandOverTables(m', own1, own', kd, d, v, p);
    HandOverData(m, own, held, m', own1, own', kd, d, v, p, perm);
    HandOverShared(m, own, held, m', own1, own', kd, d, v, p);
  }

  /** Giving `k` pages and then one more is giving `k + 1` pages. */
  lemma GivenStep(m: seq<Page>, own: Owners, m1: seq<Page>, own1: Owners, m2: seq<Page>, own2: Owners,
                  kd: nat, d: nat, v0: nat, perm: nat, k: nat, k': nat, v: nat)
    requires k' == k + 1 && v == v0 + k && perm < PAGE_SIZE && FirstPde(kd, d) * PTE_CNT <= v0 && v0 + k < VPN_END
    requires Given(m, own, m1, own1, kd, d, v0, perm, k) && Given(m1, own1, m2, own2, kd, d, v, perm, 1)
    ensures Given(m, own, m2, own2, kd, d, v0, perm, k')
  {
    assert Unfolded(Seal);
    TablesForStep(m, m1, m2, kd, d, v0, k, v);
    GrewByTwice(own, own1, own2, d);
    FreshRangeStep(m, own, m1, own1, m2, kd, d, v0, perm, k, k', v);
    OthersKeptTwice(m, own, m1, own1, m2, d);
  }

  lemma GrewByTwice(own: Owners, own1: Owners, own2: Owners, d: nat)
    requires GrewBy(own, own1, d) && GrewBy(own1, own2, d)
    ensures GrewBy(own, own2, d)
  {
    forall f: nat | f in own
      ensures f in own2 && own2[f] == own[f]
    {
      assert f in own1 && own1[f] == own[f];
    }
    forall f: nat | f in own2 && f !in own
      ensures BelongsTo(own2, f, d)
    {
      if f in own1 {
        assert BelongsTo(own1, f, d) && own2[f] == own1[f];
      }
    }
  }

  lemma OthersKeptTwice(m: seq<Page>, own: Owners, m1: seq<Page>, own1: Owners, m2: seq<Page>, d: nat)
    requires GrewBy(own, own1, d) && OthersKept(m, own, m1, d) && OthersKept(m1, own1, m2, d)
    ensures OthersKept(m, own, m2, d)
  {
    forall f: nat | f < |m| && f in own && !IsStructure(own, f, d)
      ensures m2[f] == m[f]
    {
      assert own1[f] == own[f] && m1[f] == m[f];
    }
  }

  lemma FreshRangeStep(m: seq<Page>, own: Owners, m1: seq<Page>, own1: Owners, m2: seq<Page>,
                       kd: nat, d: nat, v0: nat, perm: nat, k: nat, k': nat, v: nat)
    requires perm < PAGE_SIZE && GrewBy(own, own1, d) && k' == k + 1 && v == v0 + k
    requires FreshRange(m, own, m1, kd, d, v0, perm, k) && FreshRange(m1, own1, m2, kd, d, v, perm, 1)
    ensures FreshRange(m, own, m2, kd, d, v0, perm, k')
  {
    forall r: nat, u: nat | IsRoot(own, kd, r) && Mappable(kd, r, u)
      ensures if r == d && v0 <= u < v0 + k' then
          var f := FrameOf(Pte(m2, r, u));
          f < VPN_END && f !in own && Pte(m2, r, u) == MakeEntry(f, perm)
        else
          Pte(m2, r, u) == Pte(m, r, u)
    {
      assert r in own ==> r in own1 && own1[r] == own[r];
      assert IsRoot(own1, kd, r);
      if r == d && u == v {
        var f := FrameOf(Pte(m2, r, u));
        assert f !in own1;
        assert f in own ==> f in own1;
      } else {
        assert Pte(m2, r, u) == Pte(m1, r, u);
      }
    }
  }

  /** What a gift means for the pages there were. */
  lemma GivenKeeps(m: seq<Page>, own: Owners, m': seq<Page>, own': Owners, kd: nat, d: nat, v0: nat, perm: nat, n: nat)
    requires perm < PAGE_SIZE && Given(m, own, m', own', kd, d, v0, perm, n)
    ensures GrewBy(own, own', d) && OthersKept(m, own, m', d) && TablesFor(m, m', kd, d, v0, n)
    ensures |own'| == |own| + PagesNeeded(m, d, v0, n) && (d in own ==> d in own' && own'[d] == own[d])
  {
    assert Unfolded(Seal);
  }

  lemma NotGivenYet(m: seq<Page>, own: Owners, m1: seq<Page>, own1: Owners, kd: nat, d: nat, v0: nat, perm: nat, k: nat)
    requires perm < PAGE_SIZE && Given(m, own, m1, own1, kd, d, v0, perm, k)
    requires IsRoot(own, kd, d) && Mappable(kd, d, v0 + k) && !Present(Pte(m, d, v0 + k))
    ensures !Present(Pte(m1, d, v0 + k)) && TablesFor(m, m1, kd, d, v0, k)
  {
    assert Unfolded(Seal);
  }

  lemma NothingGiven(m: seq<Page>, own: Owners, kd: nat, d: nat, v0: nat, perm: nat)
    requires perm < PAGE_SIZE
    ensures Given(m, own, m, own, kd, d, v0, perm, 0)
  {
  }

  /** How an allocation of `n` pages that stopped after `done` pages used up the free pages. */
  ghost predicate StoppedFor(m: seq<Page>, d: nat, v0: nat, n: nat, done: nat, free: int, res: int) {
    && done <= n && res in {0, -1}
    && (done == n ==> res == 0 && PagesNeeded(m, d, v0, n) <= free)
    // no page was left for page `done` itself: reported as success
    && (done < n && res == 0 ==> free == PagesNeeded(m, d, v0, done))
    // its page was there but not its table
    && (res == -1 ==> done < n && free == PagesNeeded(m, d, v0, done) + 1 && NeedsTable(m, d, v0, done))
  }

  lemma {:induction false} PagesNeededGrows(m: seq<Page>, d: nat, v0: nat, k: nat, n: nat)
    requires k <= n
    ensures PagesNeeded(m, d, v0, k) + (n - k) <= PagesNeeded(m, d, v0, n)
  {
    TablesNeededGrows(m, d, v0, k, n);
  }

  /** The whole range is mapped exactly when enough pages are free before; the result code does not tell:
      it is -1 exactly when the last free page was taken for a page whose table was missing. */
  lemma AllocationOutcome(m: seq<Page>, d: nat, v0: nat, n: nat, done: nat, free: int, res: int)
    requires StoppedFor(m, d, v0, n, done, free, res)
    ensures done == n <==> PagesNeeded(m, d, v0, n) <= free
    ensures res == -1 <==> exists k: nat :: k < n && NeedsTable(m, d, v0, k) && free == PagesNeeded(m, d, v0, k) + 1
  {
    if done < n {
      PagesNeededGrows(m, d, v0, done + 1, n);
    }
    if k: nat :| k < n && NeedsTable(m, d, v0, k) && free == PagesNeeded(m, d, v0, k) + 1 {
      PagesNeededGrows(m, d, v0, k + 1, n);
      assert PagesNeeded(m, d, v0, k + 1) == PagesNeeded(m, d, v0, k) + 2;
      if done < k {
        PagesNeededGrows(m, d, v0, done + 1, k);
      } else if k < done {
        PagesNeededGrows(m, d, v0, k + 1, done);
      }
    }
  }
}
