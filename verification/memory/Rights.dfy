/** What a program may do with a page: the processor asks the directory entry and the table entry. */
module Rights {
  import opened Machine
  import opened Seals
  import opened PageTables
  import opened UserPages
  import opened AddressSpaces

  predicate Writable(e: Word) { e / 2 % 2 == 1 }
  predicate ForUsers(e: Word) { e / 4 % 2 == 1 }

  predicate UserReads(m: seq<Page>, d: nat, v: nat) {
    var pde, pte := Entry(m, d, v / PTE_CNT), Pte(m, d, v);
    Present(pde) && Present(pte) && ForUsers(pde) && ForUsers(pte)
  }

  predicate UserWrites(m: seq<Page>, d: nat, v: nat) {
    UserReads(m, d, v) && Writable(Entry(m, d, v / PTE_CNT)) && Writable(Pte(m, d, v))
  }

  /** Three flags of an entry are those of its low nine bits, and of its low twelve. */
  lemma LowBits(e: Word)
    ensures Present(e) <==> e % 512 % 2 == 1
    ensures Writable(e) <==> e % 512 / 2 % 2 == 1
    ensures ForUsers(e) <==> e % 512 / 4 % 2 == 1
    ensures e % PAGE_SIZE % 512 == e % 512
  {
    NineBits(e);
    HalfBit(128 * (e / 512), e % 512);
    QuarterBit(64 * (e / 512), e % 512);
    assert e == 512 * (e / 512) + e % 512;
  }

  lemma HalfBit(q: nat, b: nat)
    ensures (4 * q + b) / 2 % 2 == b / 2 % 2
  {
    assert (4 * q + b) / 2 == 2 * q + b / 2;
  }

  lemma QuarterBit(q: nat, b: nat)
    ensures (8 * q + b) / 4 % 2 == b / 4 % 2
  {
    assert (8 * q + b) / 4 == 2 * q + b / 4;
  }

  /** The directory entries that a root owns take no right away: what a program may do with a page is in the
      entry of that page alone. */
  lemma RightsOfEntry(m: seq<Page>, own: Owners, kd: nat, d: nat, v: nat)
    requires TablesOk(m, own, kd) && IsRoot(own, kd, d) && Mappable(kd, d, v)
    ensures UserReads(m, d, v) <==> Present(Pte(m, d, v)) && ForUsers(Pte(m, d, v))
    ensures UserWrites(m, d, v) <==> Present(Pte(m, d, v)) && ForUsers(Pte(m, d, v)) && Writable(Pte(m, d, v))
  {
    assert Unfolded(Seal);
    var i := v / PTE_CNT;
    assert FirstPde(kd, d) <= i < PDE_CNT;
    if Present(Entry(m, d, i)) {
      assert TableRights(Entry(m, d, i));
      LowBits(Entry(m, d, i));
    }
  }

  /** A page that was given with flags 7 may be read and written by the program; `now` are the owners later. */
  lemma GivenRights(m: seq<Page>, own: Owners, m': seq<Page>, own': Owners, now: Owners, kd: nat, d: nat, v0: nat,
      n: nat, u: nat)
    requires Given(m, own, m', own', kd, d, v0, 7, n) && IsRoot(own, kd, d)
    requires TablesOk(m', now, kd) && IsRoot(now, kd, d) && Mappable(kd, d, u) && v0 <= u < v0 + n
    ensures UserReads(m', d, u) && UserWrites(m', d, u)
  {
    var f := GivenEntry(m, own, m', own', kd, d, v0, n, u);
    MadeRights(f, 7, Pte(m', d, u));
    RightsOfEntry(m', now, kd, d, u);
  }

  lemma GivenEntry(m: seq<Page>, own: Owners, m': seq<Page>, own': Owners, kd: nat, d: nat, v0: nat, n: nat, u: nat)
    returns (f: nat)
    requires Given(m, own, m', own', kd, d, v0, 7, n) && IsRoot(own, kd, d) && Mappable(kd, d, u) && v0 <= u < v0 + n
    ensures f < VPN_END && Pte(m', d, u) == MakeEntry(f, 7)
  {
    assert Unfolded(Seal);
    f := FrameOf(Pte(m', d, u));
  }

  /** A page that was mapped with flags `perm` may be used by the program as these flags say. */
  lemma MappedRights(m: seq<Page>, own: Owners, m': seq<Page>, own': Owners, kd: nat, d: nat, v0: nat, first: nat,
      perm: nat, n: nat, u: nat)
    requires perm < PAGE_SIZE && first + n <= VPN_END && Mapped(m, own, m', own', kd, d, v0, first, perm, n)
    requires TablesOk(m', own', kd) && IsRoot(own, kd, d) && Mappable(kd, d, u) && v0 <= u < v0 + n
    ensures UserReads(m', d, u) <==> ForUsers(perm)
    ensures UserWrites(m', d, u) <==> ForUsers(perm) && Writable(perm)
  {
    var f := MappedEntry(m, own, m', own', kd, d, v0, first, perm, n, u);
    MadeRights(f, perm, Pte(m', d, u));
    RightsOfEntry(m', own', kd, d, u);
  }

  lemma MappedEntry(m: seq<Page>, own: Owners, m': seq<Page>, own': Owners, kd: nat, d: nat, v0: nat, first: nat,
      perm: nat, n: nat, u: nat)
    returns (f: nat)
    requires perm < PAGE_SIZE && first + n <= VPN_END && Mapped(m, own, m', own', kd, d, v0, first, perm, n)
    requires IsRoot(own, kd, d) && Mappable(kd, d, u) && v0 <= u < v0 + n
    ensures f < VPN_END && Pte(m', d, u) == MakeEntry(f, perm) && IsRoot(own', kd, d)
  {
    assert Unfolded(Seal);
    f := first + (u - v0);
  }

  /** An entry that was made gives the rights its flags name. */
  lemma MadeRights(f: nat, perm: nat, e: Word)
    requires f < VPN_END && perm < PAGE_SIZE && e == MakeEntry(f, perm)
    ensures Present(e) && (Writable(e) <==> Writable(perm)) && (ForUsers(e) <==> ForUsers(perm))
  {
    var low := e % PAGE_SIZE;
    LowBits(e);
    LowBits(low);
    assert low / 2 == perm / 2 && low / 4 == perm / 4;
  }

  /** The child of a fork may do with each page what its parent may. */
  lemma CopyRights(m: seq<Page>, own: Owners, m': seq<Page>, own': Owners, kd: nat, from: nat, to: nat, u: nat)
    requires TablesOk(m, own, kd) && TablesOk(m', own', kd) && IsDirectory(own, from) && from != kd && to != kd
    requires IsCopyOf(m, own, m', own', kd, from, to) && Mappable(kd, to, u)
    ensures UserReads(m', to, u) <==> UserReads(m, from, u)
    ensures UserWrites(m', to, u) <==> UserWrites(m, from, u)
  {
    assert IsRoot(own, kd, from) && IsRoot(own', kd, to);
    RightsOfEntry(m, own, kd, from, u);
    RightsOfEntry(m', own', kd, to, u);
    LowBits(Pte(m, from, u));
    LowBits(Pte(m', to, u));
  }
}
