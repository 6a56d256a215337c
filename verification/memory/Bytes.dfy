/** Bytes inside words, and bytes seen through an address space. */
module Bytes {
  import opened Widths
  import opened Machine
  import opened Seals
  import opened PageTables

  /** Byte `k` of a little-endian word. */
  function ByteOf(w: Word, k: nat): Byte
    requires k < 4
  {
    if k == 0 then w % 256
    else if k == 1 then w / 256 % 256
    else if k == 2 then w / 256 / 256 % 256
    else w / 256 / 256 / 256
  }

  function WordOf(b0: Byte, b1: Byte, b2: Byte, b3: Byte): Word {
    b0 + 256 * (b1 + 256 * (b2 + 256 * b3))
  }

  function WithByte(w: Word, k: nat, b: Byte): Word
    requires k < 4
  {
    if k == 0 then WordOf(b, ByteOf(w, 1), ByteOf(w, 2), ByteOf(w, 3))
    else if k == 1 then WordOf(ByteOf(w, 0), b, ByteOf(w, 2), ByteOf(w, 3))
    else if k == 2 then WordOf(ByteOf(w, 0), ByteOf(w, 1), b, ByteOf(w, 3))
    else WordOf(ByteOf(w, 0), ByteOf(w, 1), ByteOf(w, 2), b)
  }

  lemma Digit(q: nat, r: Byte)
    ensures (r + 256 * q) / 256 == q && (r + 256 * q) % 256 == r
  {
  }

  lemma BytesOfWord(b0: Byte, b1: Byte, b2: Byte, b3: Byte)
    ensures var w := WordOf(b0, b1, b2, b3);
      ByteOf(w, 0) == b0 && ByteOf(w, 1) == b1 && ByteOf(w, 2) == b2 && ByteOf(w, 3) == b3
  {
    Digit(b1 + 256 * (b2 + 256 * b3), b0);
    Digit(b2 + 256 * b3, b1);
    Digit(b3, b2);
  }

  lemma WordOfBytes(w: Word)
    ensures WordOf(ByteOf(w, 0), ByteOf(w, 1), ByteOf(w, 2), ByteOf(w, 3)) == w
  {
    var h := w / 256;
    assert w == w % 256 + 256 * h;
    assert h == h % 256 + 256 * (h / 256);
  }

  lemma OneByteChanged(w: Word, k: nat, b: Byte)
    requires k < 4
    ensures forall j: nat | j < 4 :: ByteOf(WithByte(w, k, b), j) == if j == k then b else ByteOf(w, j)
  {
    if k == 0 { BytesOfWord(b, ByteOf(w, 1), ByteOf(w, 2), ByteOf(w, 3)); }
    else if k == 1 { BytesOfWord(ByteOf(w, 0), b, ByteOf(w, 2), ByteOf(w, 3)); }
    else if k == 2 { BytesOfWord(ByteOf(w, 0), ByteOf(w, 1), b, ByteOf(w, 3)); }
    else { BytesOfWord(ByteOf(w, 0), ByteOf(w, 1), ByteOf(w, 2), b); }
  }

  /** The byte at offset `o` of page `f`. */
  function PageByte(m: seq<Page>, f: nat, o: nat): Byte {
    ByteOf(Entry(m, f, o / 4), o % 4)
  }

  function SetPageByte(m: seq<Page>, f: nat, o: nat, b: Byte): seq<Page>
    requires f < |m| && o < PAGE_SIZE
  {
    SetWord(m, f, o / 4, WithByte(m[f][o / 4], o % 4, b))
  }

  lemma OnePageByteChanged(m: seq<Page>, f: nat, o: nat, b: Byte, g: nat, q: nat)
    requires f < |m| && o < PAGE_SIZE
    ensures PageByte(SetPageByte(m, f, o, b), g, q) == if g == f && q == o then b else PageByte(m, g, q)
  {
    OneByteChanged(m[f][o / 4], o % 4, b);
    assert q == q / 4 * 4 + q % 4 && o == o / 4 * 4 + o % 4;
  }

  /** The byte at user address `x` of directory `d`. */
  function UserByte(m: seq<Page>, d: nat, x: nat): Byte {
    PageByte(m, FrameOf(Pte(m, d, x / PAGE_SIZE)), x % PAGE_SIZE)
  }

  /** The byte at address `a` while directory `d` is active; the kernel range is identity mapped. */
  function ActiveByte(m: seq<Page>, d: nat, a: nat): Byte {
    if a < MEMORY_TASK_BASE then PageByte(m, a / PAGE_SIZE, a % PAGE_SIZE) else UserByte(m, d, a)
  }

  function UserWord(m: seq<Page>, d: nat, x: nat): Word {
    WordOf(UserByte(m, d, x), UserByte(m, d, x + 1), UserByte(m, d, x + 2), UserByte(m, d, x + 3))
  }

  function WordBytes(w: Word): (bs: seq<Byte>)
    ensures |bs| == 4 && forall k | 0 <= k < 4 :: bs[k] == ByteOf(w, k)
  {
    [ByteOf(w, 0), ByteOf(w, 1), ByteOf(w, 2), ByteOf(w, 3)]
  }

  // ----- writing into the pages of one directory

  predicate UserPageOf(own: Owners, f: nat, d: nat) {
    f in own && own[f].Data? && own[f].dir == d
  }

  predicate IsMapped(m: seq<Page>, d: nat, x: nat) {
    MEMORY_TASK_BASE <= x < 0x1_0000_0000 && Present(Pte(m, d, x / PAGE_SIZE))
  }

  /** From `m` to `m'` the bytes from address `x0` of directory `d` on became `bs`, and nothing else changed. */
  ghost predicate Patched(m: seq<Page>, m': seq<Page>, own: Owners, d: nat, x0: nat, bs: seq<Byte>) {
    && |m'| == |m|
    && (forall f: nat {:trigger m'[f]} | f < |m| && !UserPageOf(own, f, d) :: m'[f] == m[f])
    && (forall seal: Seal {:trigger Unfolded(seal)} | Unfolded(seal) ::
          forall x: nat {:trigger UserByte(m', d, x)} | IsMapped(m, d, x) ::
          UserByte(m', d, x) == if x0 <= x < x0 + |bs| then bs[x - x0] else UserByte(m, d, x))
  }

  /** Writing user pages of `d` moves no page. */
  lemma PatchKeepsTables(m: seq<Page>, m': seq<Page>, own: Owners, kd: nat, d: nat)
    requires Inv(m, own, kd) && |m'| == |m|
    requires forall f: nat {:trigger m'[f]} | f < |m| && !UserPageOf(own, f, d) :: m'[f] == m[f]
    ensures Inv(m', own, kd) && SameTranslations(m, m', own, kd)
  {
    OnlyTablesMatter(m, m', own, kd);
  }

  /** From `m` to `m'` the bytes of page frame `f` from offset `o` on became `bs`, and nothing else changed. */
  ghost predicate Stored(m: seq<Page>, m': seq<Page>, f: nat, o: nat, bs: seq<Byte>) {
    && |m'| == |m| && f < |m| && (forall g: nat {:trigger m'[g]} | g < |m| && g != f :: m'[g] == m[g])
    && (forall seal: Seal {:trigger Unfolded(seal)} | Unfolded(seal) ::
          forall q: nat {:trigger PageByte(m', f, q)} | q < PAGE_SIZE ::
          PageByte(m', f, q) == if o <= q < o + |bs| then bs[q - o] else PageByte(m, f, q))
  }

  lemma StoreByte(m: seq<Page>, m1: seq<Page>, f: nat, o: nat, bs: seq<Byte>, b: Byte, at: nat)
    requires Stored(m, m1, f, o, bs) && at == o + |bs| < PAGE_SIZE
    ensures Stored(m, SetPageByte(m1, f, at, b), f, o, bs + [b])
  {
    assert Unfolded(Seal);
    var m2 := SetPageByte(m1, f, at, b);
    forall q: nat | q < PAGE_SIZE
      ensures PageByte(m2, f, q) == if o <= q < o + |bs + [b]| then (bs + [b])[q - o] else PageByte(m, f, q)
    {
      OnePageByteChanged(m1, f, at, b, f, q);
    }
  }

  /** What is stored in one user page patches its directory. */
  lemma StoredIsPatch(m: seq<Page>, m': seq<Page>, own: Owners, kd: nat, d: nat, x0: nat, bs: seq<Byte>)
    requires Inv(m, own, kd) && IsDirectory(own, d) && d != kd && IsMapped(m, d, x0)
    requires x0 % PAGE_SIZE + |bs| <= PAGE_SIZE
    requires Stored(m, m', FrameOf(Pte(m, d, x0 / PAGE_SIZE)), x0 % PAGE_SIZE, bs)
    ensures Patched(m, m', own, d, x0, bs)
  {
    assert Unfolded(Seal);
    var f := FrameOf(Pte(m, d, x0 / PAGE_SIZE));
    UserPage(m, own, kd, d, x0);
    PatchKeepsTables(m, m', own, kd, d);
    forall x: nat | IsMapped(m, d, x)
      ensures UserByte(m', d, x) == if x0 <= x < x0 + |bs| then bs[x - x0] else UserByte(m, d, x)
    {
      UserPage(m, own, kd, d, x);
      assert Pte(m', d, x / PAGE_SIZE) == Pte(m, d, x / PAGE_SIZE);
      OffsetInPage(x0, x, |bs|);
    }
  }

  lemma UserPage(m: seq<Page>, own: Owners, kd: nat, d: nat, x: nat)
    requires Inv(m, own, kd) && IsDirectory(own, d) && d != kd && IsMapped(m, d, x)
    ensures var f := FrameOf(Pte(m, d, x / PAGE_SIZE)); f in own && own[f] == Data(d, x / PAGE_SIZE) && f < |m|
    ensures IsRoot(own, kd, d) && Mappable(kd, d, x / PAGE_SIZE)
  {
    assert Unfolded(Seal);
    assert Mappable(kd, d, x / PAGE_SIZE);
  }

  lemma OffsetInPage(x0: nat, x: nat, n: nat)
    requires x0 % PAGE_SIZE + n <= PAGE_SIZE
    ensures x0 <= x < x0 + n <==>
      x / PAGE_SIZE == x0 / PAGE_SIZE && x0 % PAGE_SIZE <= x % PAGE_SIZE < x0 % PAGE_SIZE + n
    ensures x0 <= x < x0 + n ==> x % PAGE_SIZE - x0 % PAGE_SIZE == x - x0
  {
  }

  /** A patch continued where it ended. */
  lemma PatchTwice(m: seq<Page>, m1: seq<Page>, m2: seq<Page>, own: Owners, kd: nat, d: nat, x0: nat, x1: nat,
                   a: seq<Byte>, b: seq<Byte>)
    requires Inv(m, own, kd) && IsDirectory(own, d) && d != kd && x1 == x0 + |a|
    requires Patched(m, m1, own, d, x0, a) && Patched(m1, m2, own, d, x1, b)
    ensures Patched(m, m2, own, d, x0, a + b)
  {
    assert Unfolded(Seal);
    PatchKeepsTables(m, m1, own, kd, d);
    forall x: nat | IsMapped(m, d, x)
      ensures UserByte(m2, d, x) == if x0 <= x < x0 + |a + b| then (a + b)[x - x0] else UserByte(m, d, x)
    {
      UserPage(m, own, kd, d, x);
      assert IsMapped(m1, d, x);
    }
  }

  /** Bytes read through another directory, or in a page that is no user page of `d`, are not touched. */
  lemma SourceKept(m: seq<Page>, m': seq<Page>, own: Owners, kd: nat, cur: nat, d: nat, a: nat)
    requires Inv(m, own, kd) && IsDirectory(own, cur) && cur != d && cur != kd && |m'| == |m|
    requires forall f: nat {:trigger m'[f]} | f < |m| && !UserPageOf(own, f, d) :: m'[f] == m[f]
    requires Readable(m, own, cur, a)
    ensures ActiveByte(m', cur, a) == ActiveByte(m, cur, a)
    ensures Readable(m', own, cur, a)
  {
    assert Unfolded(Seal);
    PatchKeepsTables(m, m', own, kd, d);
    if a >= MEMORY_TASK_BASE {
      assert Mappable(kd, cur, a / PAGE_SIZE) && IsRoot(own, kd, cur);
      assert own[FrameOf(Pte(m, cur, a / PAGE_SIZE))] == Data(cur, a / PAGE_SIZE);
    } else {
      assert m'[a / PAGE_SIZE] == m[a / PAGE_SIZE];
    }
  }

  /** What the kernel may read while `cur` is active: its own pages and the mapped user pages. */
  predicate Readable(m: seq<Page>, own: Owners, cur: nat, a: nat) {
    if a < MEMORY_TASK_BASE then a / PAGE_SIZE in own && own[a / PAGE_SIZE] == Kernel && a / PAGE_SIZE < |m|
    else IsMapped(m, cur, a)
  }
}
