/** copy_args: laying out a program's arguments on its new stack. */
module CopyArgs {
  import opened Widths
  import opened Machine
  import opened Seals
  import opened PageTables
  import opened MemoryManagers
  import opened Bytes
  import opened CopyData

  // task_args_t: a return address, argc, argv
  const HEADER_SIZE := 12

  /** A string with its terminator. */
  function Terminated(s: seq<Byte>): seq<Byte> { s + [0] }

  /** Where string `i` begins, relative to the first one. */
  function Offset(strs: seq<seq<Byte>>, i: nat): nat
    requires i <= |strs|
  {
    if i == 0 then 0 else Offset(strs, i - 1) + |strs[i - 1]| + 1
  }

  lemma {:induction false} OffsetsGrow(strs: seq<seq<Byte>>, j: nat, i: nat)
    requires j < i <= |strs|
    ensures Offset(strs, j) + |strs[j]| + 1 <= Offset(strs, i)
  {
    if j + 1 < i {
      OffsetsGrow(strs, j, i - 1);
    }
  }

  function TableAt(to: nat): nat { to + HEADER_SIZE }

  function StringAt(to: nat, strs: seq<seq<Byte>>, i: nat): nat
    requires i <= |strs|
  {
    TableAt(to) + 4 * |strs| + Offset(strs, i)
  }

  /** Everything that the arguments take from address `to` on. */
  function TotalSize(strs: seq<seq<Byte>>): nat { HEADER_SIZE + 4 * |strs| + Offset(strs, |strs|) }

  // ----- the arguments of the caller

  function ActiveWord(m: seq<Page>, cur: nat, a: nat): Word {
    WordOf(ActiveByte(m, cur, a), ActiveByte(m, cur, a + 1), ActiveByte(m, cur, a + 2), ActiveByte(m, cur, a + 3))
  }

  /** The caller has string `s` at user address `p`. */
  ghost predicate StringIn(m: seq<Page>, own: Owners, cur: nat, p: nat, s: seq<Byte>) {
    && MEMORY_TASK_BASE <= p && p + |s| + 1 <= 0x1_0000_0000 && 0 !in s
    && AllReadable(m, own, cur, p, |s| + 1)
    && (forall a: nat {:trigger ActiveByte(m, cur, a)} | p <= a <= p + |s| ::
          ActiveByte(m, cur, a) == Terminated(s)[a - p])
  }

  /** The caller's argument vector at `argv` holds the strings `strs`. */
  ghost predicate ArgumentsIn(m: seq<Page>, own: Owners, cur: nat, argv: nat, strs: seq<seq<Byte>>) {
    && MEMORY_TASK_BASE <= argv && argv + 4 * |strs| <= 0x1_0000_0000
    && AllReadable(m, own, cur, argv, 4 * |strs|)
    && (forall i: nat | i < |strs| :: ArgumentIn(m, own, cur, argv, strs, i))
  }

  ghost predicate ArgumentIn(m: seq<Page>, own: Owners, cur: nat, argv: nat, strs: seq<seq<Byte>>, i: nat)
    requires i < |strs|
  {
    StringIn(m, own, cur, ActiveWord(m, cur, argv + 4 * i), strs[i])
  }

  // ----- the arguments of the new program

  /** The string at user address `p` of directory `d` is `s`. */
  ghost predicate StringOut(m: seq<Page>, d: nat, p: nat, s: seq<Byte>) {
    forall x: nat {:trigger UserByte(m, d, x)} | p <= x <= p + |s| :: UserByte(m, d, x) == Terminated(s)[x - p]
  }

  /** Table entries and strings below `i` are in place. */
  ghost predicate Placed(m: seq<Page>, d: nat, to: nat, strs: seq<seq<Byte>>, i: nat)
    requires i <= |strs|
  {
    forall j: nat | j < i :: ArgumentPlaced(m, d, to, strs, j)
  }

  ghost predicate ArgumentPlaced(m: seq<Page>, d: nat, to: nat, strs: seq<seq<Byte>>, j: nat)
    requires j < |strs|
  {
    forall seal: Seal {:trigger Unsealed(seal)} | Unsealed(seal) ::
      UserWord(m, d, TableAt(to) + 4 * j) == StringAt(to, strs, j) && StringOut(m, d, StringAt(to, strs, j), strs[j])
  }

  /** What the new program reads: argc, argv, and through argv the strings. */
  ghost predicate ArgumentsOut(m: seq<Page>, d: nat, to: nat, strs: seq<seq<Byte>>) {
    && UserWord(m, d, to + 4) == |strs|
    && forall i: nat {:trigger strs[i]} | i < |strs| ::
         StringOut(m, d, UserWord(m, d, UserWord(m, d, to + 8) + 4 * i), strs[i])
  }

  /** Pages other than the user pages of `d` are as they were. */
  ghost predicate OnlyUserPages(m: seq<Page>, m': seq<Page>, own: Owners, d: nat) {
    |m'| == |m| && forall f: nat {:trigger m'[f]} | f < |m| && !UserPageOf(own, f, d) :: m'[f] == m[f]
  }

  /** Directory `d` reads what it read, but for the `n` bytes from `to` on. */
  ghost predicate OutsideKept(m: seq<Page>, m': seq<Page>, d: nat, to: nat, n: nat) {
    forall seal: Seal {:trigger Unfolded(seal)} | Unfolded(seal) ::
    forall x: nat {:trigger UserByte(m', d, x)} | IsMapped(m, d, x) && !(to <= x < to + n) ::
      IsMapped(m', d, x) && UserByte(m', d, x) == UserByte(m, d, x)
  }

  lemma PatchInside(m: seq<Page>, m1: seq<Page>, m2: seq<Page>, own: Owners, kd: nat, d: nat, to: nat, n: nat, x0: nat,
      bs: seq<Byte>)
    requires Inv(m1, own, kd) && IsDirectory(own, d) && d != kd && OutsideKept(m, m1, d, to, n)
    requires Patched(m1, m2, own, d, x0, bs) && to <= x0 && x0 + |bs| <= to + n
    ensures OutsideKept(m, m2, d, to, n)
  {
    assert Unfolded(Seal);
    PatchKeepsTables(m1, m2, own, kd, d);
    forall x: nat | IsMapped(m, d, x) && !(to <= x < to + n)
      ensures IsMapped(m2, d, x) && UserByte(m2, d, x) == UserByte(m, d, x)
    {
      assert UserByte(m1, d, x) == UserByte(m, d, x) && IsMapped(m1, d, x);
      assert IsRoot(own, kd, d) && Mappable(kd, d, x / PAGE_SIZE);
    }
  }

  /** Writing a page that belongs to no address space is not seen by any. */
  lemma KernelWriteUnseen(m: seq<Page>, m': seq<Page>, own: Owners, kd: nat, d: nat, to: nat, n: nat, f: nat)
    requires Inv(m, own, kd) && IsDirectory(own, d) && d != kd && |m'| == |m| && f in own && own[f] == Kernel && f != kd
    requires forall g: nat | g < |m| && g != f :: m'[g] == m[g]
    ensures OutsideKept(m, m', d, to, n)
  {
    OnlyTablesMatter(m, m', own, kd);
    forall x: nat | IsMapped(m, d, x)
      ensures IsMapped(m', d, x) && UserByte(m', d, x) == UserByte(m, d, x)
    {
      UserPage(m, own, kd, d, x);
    }
  }

  lemma OutsideTwice(m: seq<Page>, m1: seq<Page>, m2: seq<Page>, d: nat, to: nat, n: nat)
    requires OutsideKept(m, m1, d, to, n) && OutsideKept(m1, m2, d, to, n)
    ensures OutsideKept(m, m2, d, to, n)
  {
    assert Unfolded(Seal);
    forall x: nat | IsMapped(m, d, x) && !(to <= x < to + n)
      ensures IsMapped(m2, d, x) && UserByte(m2, d, x) == UserByte(m, d, x)
    {
      assert UserByte(m1, d, x) == UserByte(m, d, x);
      assert UserByte(m2, d, x) == UserByte(m1, d, x);
    }
  }

  /** A patch leaves what is stored elsewhere. */
  lemma PatchKeeps(m: seq<Page>, m': seq<Page>, own: Owners, d: nat, x0: nat, bs: seq<Byte>, to: nat,
      strs: seq<seq<Byte>>, i: nat)
    requires i <= |strs| && Patched(m, m', own, d, x0, bs) && AllMapped(m, d, to, TotalSize(strs))
    requires Placed(m, d, to, strs, i)
    requires forall x: nat | x0 <= x < x0 + |bs| :: !InPlace(to, strs, i, x)
    ensures Placed(m', d, to, strs, i)
  {
    assert Unsealed(Seal) && Unfolded(Seal);
    forall x: nat | InPlace(to, strs, i, x)
      ensures UserByte(m', d, x) == UserByte(m, d, x)
    {
      InPlaceMapped(m, d, to, strs, i, x);
    }
    forall j: nat | j < i
      ensures ArgumentPlaced(m', d, to, strs, j)
    {
      PartsInPlace(to, strs, i, j);
      var t := TableAt(to) + 4 * j;
      assert InPlace(to, strs, i, t) && InPlace(to, strs, i, t + 1) && InPlace(to, strs, i, t + 2)
        && InPlace(to, strs, i, t + 3);
      assert ArgumentPlaced(m, d, to, strs, j);
    }
  }

  lemma InPlaceMapped(m: seq<Page>, d: nat, to: nat, strs: seq<seq<Byte>>, i: nat, x: nat)
    requires i <= |strs| && AllMapped(m, d, to, TotalSize(strs)) && InPlace(to, strs, i, x)
    ensures IsMapped(m, d, x)
  {
    if i < |strs| {
      OffsetsGrow(strs, i, |strs|);
    }
  }

  lemma PartsInPlace(to: nat, strs: seq<seq<Byte>>, i: nat, j: nat)
    requires j < i <= |strs|
    ensures forall x: nat | TableAt(to) + 4 * j <= x < TableAt(to) + 4 * j + 4 :: InPlace(to, strs, i, x)
    ensures forall x: nat | StringAt(to, strs, j) <= x <= StringAt(to, strs, j) + |strs[j]| :: InPlace(to, strs, i, x)
  {
    OffsetsGrow(strs, j, i);
    assert Offset(strs, 0) == 0;
  }

  /** Addresses that hold the table entries and strings below `i`. */
  predicate InPlace(to: nat, strs: seq<seq<Byte>>, i: nat, x: nat)
    requires i <= |strs|
  {
    TableAt(to) <= x < TableAt(to) + 4 * i || StringAt(to, strs, 0) <= x < StringAt(to, strs, i)
  }

  /** Writing an aligned word of a user page patches four bytes. */
  lemma PatchWord(m: seq<Page>, own: Owners, kd: nat, d: nat, x0: nat, w: Word, f: nat)
    requires Inv(m, own, kd) && IsDirectory(own, d) && d != kd && x0 % 4 == 0 && IsMapped(m, d, x0)
    requires f == FrameOf(Pte(m, d, x0 / PAGE_SIZE)) && f < |m|
    ensures Patched(m, SetWord(m, f, x0 % PAGE_SIZE / 4, w), own, d, x0, WordBytes(w))
  {
    assert Unfolded(Seal);
    var m2 := SetWord(m, f, x0 % PAGE_SIZE / 4, w);
    assert Mappable(kd, d, x0 / PAGE_SIZE);
    assert own[f] == Data(d, x0 / PAGE_SIZE);
    PatchKeepsTables(m, m2, own, kd, d);
    forall x: nat | IsMapped(m, d, x)
      ensures UserByte(m2, d, x) == if x0 <= x < x0 + 4 then WordBytes(w)[x - x0] else UserByte(m, d, x)
    {
      assert Mappable(kd, d, x / PAGE_SIZE) && IsRoot(own, kd, d);
      assert Pte(m2, d, x / PAGE_SIZE) == Pte(m, d, x / PAGE_SIZE);
      if FrameOf(Pte(m, d, x / PAGE_SIZE)) == f {
        assert own[f] == Data(d, x / PAGE_SIZE);
        WordInPage(x0, x);
      } else {
        WordInPage(x0, x);
      }
    }
  }

  lemma WordInPage(x0: nat, x: nat)
    requires x0 % 4 == 0
    ensures x0 <= x < x0 + 4 <==> x / PAGE_SIZE == x0 / PAGE_SIZE && x % PAGE_SIZE / 4 == x0 % PAGE_SIZE / 4
    ensures x0 <= x < x0 + 4 ==> x % PAGE_SIZE % 4 == x - x0
  {
    assert x == x / PAGE_SIZE * PAGE_SIZE + x % PAGE_SIZE / 4 * 4 + x % PAGE_SIZE % 4;
    assert x0 == x0 / PAGE_SIZE * PAGE_SIZE + x0 % PAGE_SIZE / 4 * 4;
  }

  /** The next string, the next table entry and the header lie outside what is in place. */
  lemma NotInPlace(to: nat, strs: seq<seq<Byte>>, i: nat)
    requires i <= |strs|
    ensures forall x: nat | to <= x < to + HEADER_SIZE :: !InPlace(to, strs, i, x)
    ensures i < |strs| ==>
      forall x: nat | StringAt(to, strs, i) <= x < StringAt(to, strs, i) + |strs[i]| + 1 :: !InPlace(to, strs, i, x)
    ensures i < |strs| ==>
      forall x: nat | TableAt(to) + 4 * i <= x < TableAt(to) + 4 * i + 4 :: !InPlace(to, strs, i, x)
  {
    assert Offset(strs, 0) == 0;
    if i > 0 {
      OffsetsGrow(strs, 0, i);
    }
  }

  lemma WordStored(m: seq<Page>, m': seq<Page>, own: Owners, d: nat, t: nat, w: Word)
    requires Patched(m, m', own, d, t, WordBytes(w)) && AllMapped(m, d, t, 4)
    ensures UserWord(m', d, t) == w
  {
    assert Unfolded(Seal);
    assert IsMapped(m, d, t) && IsMapped(m, d, t + 1) && IsMapped(m, d, t + 2) && IsMapped(m, d, t + 3);
    WordOfBytes(w);
  }

  lemma StringStored(m1: seq<Page>, m2: seq<Page>, m3: seq<Page>, own: Owners, d: nat, p: nat, s: seq<Byte>, t: nat,
      w: Word)
    requires AllMapped(m1, d, p, |s| + 1) && AllMapped(m2, d, p, |s| + 1) && t + 4 <= p
    requires Patched(m1, m2, own, d, p, Terminated(s)) && Patched(m2, m3, own, d, t, WordBytes(w))
    ensures StringOut(m3, d, p, s)
  {
    assert Unfolded(Seal);
    forall x: nat | p <= x <= p + |s|
      ensures UserByte(m3, d, x) == Terminated(s)[x - p]
    {
      assert IsMapped(m1, d, x) && IsMapped(m2, d, x);
      assert UserByte(m2, d, x) == Terminated(s)[x - p];
    }
  }

  /** The next string and the next table entry lie in the area. */
  lemma InArea(m: seq<Page>, d: nat, to: nat, strs: seq<seq<Byte>>, i: nat)
    requires i < |strs| && AllMapped(m, d, to, TotalSize(strs))
    ensures AllMapped(m, d, StringAt(to, strs, i), |strs[i]| + 1) && AllMapped(m, d, TableAt(to) + 4 * i, 4)
    ensures TableAt(to) + 4 * i + 4 <= StringAt(to, strs, i)
    ensures StringAt(to, strs, i) + |strs[i]| + 1 <= to + TotalSize(strs)
  {
    OffsetsGrow(strs, i, |strs|);
  }

  /** One string and its table entry more. */
  lemma PlaceNext(m1: seq<Page>, m2: seq<Page>, m3: seq<Page>, own: Owners, d: nat, to: nat, strs: seq<seq<Byte>>,
      i: nat, i': nat, at: Word, t: nat)
    requires i < |strs| && i' == i + 1 && t == TableAt(to) + 4 * i && AllMapped(m1, d, to, TotalSize(strs))
    requires AllMapped(m2, d, to, TotalSize(strs))
    requires Placed(m1, d, to, strs, i) && at == StringAt(to, strs, i)
    requires Patched(m1, m2, own, d, at, Terminated(strs[i]))
    requires Patched(m2, m3, own, d, t, WordBytes(at))
    ensures Placed(m3, d, to, strs, i')
  {
    assert Unsealed(Seal);
    NotInPlace(to, strs, i);
    InArea(m1, d, to, strs, i);
    InArea(m2, d, to, strs, i);
    PatchKeeps(m1, m2, own, d, at, Terminated(strs[i]), to, strs, i);
    PatchKeeps(m2, m3, own, d, t, WordBytes(at), to, strs, i);
    WordStored(m2, m3, own, d, t, at);
    StringStored(m1, m2, m3, own, d, at, strs[i], t, at);
    PlacedSucc(m3, d, to, strs, i);
  }

  lemma PlacedSucc(m: seq<Page>, d: nat, to: nat, strs: seq<seq<Byte>>, i: nat)
    requires i < |strs| && Placed(m, d, to, strs, i)
    requires ArgumentPlaced(m, d, to, strs, i)
    ensures Placed(m, d, to, strs, i + 1)
  {
  }

  /** The header on top of a finished layout. */
  lemma HeaderLast(m1: seq<Page>, m2: seq<Page>, own: Owners, d: nat, to: nat, strs: seq<seq<Byte>>, header: seq<Byte>)
    requires AllMapped(m1, d, to, TotalSize(strs)) && Placed(m1, d, to, strs, |strs|) && |header| == HEADER_SIZE
    requires Patched(m1, m2, own, d, to, header)
    requires WordOf(header[4], header[5], header[6], header[7]) == |strs|
    requires WordOf(header[8], header[9], header[10], header[11]) == TableAt(to)
    ensures ArgumentsOut(m2, d, to, strs)
  {
    NotInPlace(to, strs, |strs|);
    PatchKeeps(m1, m2, own, d, to, header, to, strs, |strs|);
    HeaderWord(m1, m2, own, d, to, header, TotalSize(strs), 4);
    HeaderWord(m1, m2, own, d, to, header, TotalSize(strs), 8);
    PlacedIsOut(m2, d, to, strs);
  }

  lemma PlacedIsOut(m: seq<Page>, d: nat, to: nat, strs: seq<seq<Byte>>)
    requires Placed(m, d, to, strs, |strs|)
    requires UserWord(m, d, to + 4) == |strs| && UserWord(m, d, to + 8) == TableAt(to)
    ensures ArgumentsOut(m, d, to, strs)
  {
    assert Unsealed(Seal);
    forall i: nat | i < |strs|
      ensures StringOut(m, d, UserWord(m, d, UserWord(m, d, to + 8) + 4 * i), strs[i])
    {
      assert ArgumentPlaced(m, d, to, strs, i);
    }
  }

  lemma HeaderWord(m1: seq<Page>, m2: seq<Page>, own: Owners, d: nat, to: nat, header: seq<Byte>, size: nat, k: nat)
    requires AllMapped(m1, d, to, size) && HEADER_SIZE <= size && |header| == HEADER_SIZE && k + 4 <= HEADER_SIZE
    requires Patched(m1, m2, own, d, to, header)
    ensures UserWord(m2, d, to + k) == WordOf(header[k], header[k + 1], header[k + 2], header[k + 3])
  {
    assert Unfolded(Seal);
    assert IsMapped(m1, d, to + k) && IsMapped(m1, d, to + k + 1) && IsMapped(m1, d, to + k + 2)
      && IsMapped(m1, d, to + k + 3);
  }

  lemma NoTerminator(s: seq<Byte>, k: nat)
    requires 0 !in s && k < |s|
    ensures s[k] != 0
  {
    assert s[k] in s;
  }

  /** kernel_strlen */
  method StrLen(mm: MemoryManager, p: Word, ghost s: seq<Byte>) returns (len: nat)
    requires mm.Valid() && IsDirectory(mm.own, mm.cr3) && StringIn(mm.phys.view, mm.own, mm.cr3, p, s)
    ensures len == |s|
  {
    len := 0;
    assert Readable(mm.phys.view, mm.own, mm.cr3, p);
    var c := ReadActive(mm, p);
    while c != 0
      invariant len <= |s| && c == Terminated(s)[len]
      decreases |s| - len
    {
      len := len + 1;
      assert Readable(mm.phys.view, mm.own, mm.cr3, p + len);
      c := ReadActive(mm, p + len);
    }
    if len < |s| {
      NoTerminator(s, len);
    }
  }

  /** Tables and the caller's own pages are as they were. */
  ghost predicate CallerKept(m: seq<Page>, m': seq<Page>, own: Owners, kd: nat, cur: nat) {
    && |m'| == |m| && kd < |m| && m'[kd] == m[kd]
    && forall f: nat {:trigger m'[f]} | f < |m| && (HoldsTables(own, f) || UserPageOf(own, f, cur)) :: m'[f] == m[f]
  }

  lemma OtherUserPages(m: seq<Page>, m': seq<Page>, own: Owners, kd: nat, cur: nat, d: nat)
    requires TablesOk(m, own, kd) && OnlyUserPages(m, m', own, d) && cur != d
    ensures CallerKept(m, m', own, kd, cur)
  {
  }

  /** Writes elsewhere move neither the mappings of `d` nor the caller's arguments. */
  lemma LayoutKept(m: seq<Page>, m': seq<Page>, own: Owners, kd: nat, cur: nat, d: nat, to: nat, argv: nat,
      strs: seq<seq<Byte>>)
    requires Inv(m, own, kd) && IsDirectory(own, cur) && IsDirectory(own, d) && d != kd && cur != kd
    requires CallerKept(m, m', own, kd, cur) && AllMapped(m, d, to, TotalSize(strs))
    requires ArgumentsIn(m, own, cur, argv, strs)
    ensures AllMapped(m', d, to, TotalSize(strs)) && ArgumentsIn(m', own, cur, argv, strs)
  {
    AreaKept(m, m', own, kd, cur, d, to, TotalSize(strs));
    ReadableKept(m, m', own, kd, cur, argv, 4 * |strs|);
    forall i: nat | i < |strs|
      ensures ArgumentIn(m', own, cur, argv, strs, i)
    {
      ArgumentKept(m, m', own, kd, cur, argv, strs, i);
    }
  }

  lemma AreaKept(m: seq<Page>, m': seq<Page>, own: Owners, kd: nat, cur: nat, d: nat, to: nat, n: nat)
    requires Inv(m, own, kd) && IsDirectory(own, d) && d != kd && CallerKept(m, m', own, kd, cur)
    requires AllMapped(m, d, to, n)
    ensures AllMapped(m', d, to, n)
  {
    OnlyTablesMatter(m, m', own, kd);
    forall x: nat | to <= x < to + n
      ensures IsMapped(m', d, x)
    {
      assert IsMapped(m, d, x) && Mappable(kd, d, x / PAGE_SIZE) && IsRoot(own, kd, d);
    }
  }

  lemma TableKept(m: seq<Page>, m': seq<Page>, own: Owners, kd: nat, cur: nat, d: nat, x: nat)
    requires Inv(m, own, kd) && IsDirectory(own, d) && d != kd && CallerKept(m, m', own, kd, cur) && IsMapped(m, d, x)
    ensures IsMapped(m', d, x)
  {
    AreaKept(m, m', own, kd, cur, d, x, 1);
    assert x <= x < x + 1;
  }

  lemma ArgumentKept(m: seq<Page>, m': seq<Page>, own: Owners, kd: nat, cur: nat, argv: nat, strs: seq<seq<Byte>>,
      i: nat)
    requires Inv(m, own, kd) && IsDirectory(own, cur) && cur != kd && CallerKept(m, m', own, kd, cur)
    requires MEMORY_TASK_BASE <= argv
    requires i < |strs| && AllReadable(m, own, cur, argv, 4 * |strs|) && ArgumentIn(m, own, cur, argv, strs, i)
    ensures ArgumentIn(m', own, cur, argv, strs, i)
  {
    var p := ActiveWord(m, cur, argv + 4 * i);
    PointerReadable(m, own, cur, argv, |strs|, i, argv + 4 * i);
    PointerKept(m, m', own, kd, cur, argv + 4 * i);
    StringKept(m, m', own, kd, cur, p, strs[i]);
  }

  lemma PointerKept(m: seq<Page>, m': seq<Page>, own: Owners, kd: nat, cur: nat, a: nat)
    requires Inv(m, own, kd) && IsDirectory(own, cur) && cur != kd && CallerKept(m, m', own, kd, cur)
    requires MEMORY_TASK_BASE <= a
    requires Readable(m, own, cur, a) && Readable(m, own, cur, a + 1) && Readable(m, own, cur, a + 2)
    requires Readable(m, own, cur, a + 3)
    ensures ActiveWord(m', cur, a) == ActiveWord(m, cur, a)
  {
    CallerByteKept(m, m', own, kd, cur, a);
    CallerByteKept(m, m', own, kd, cur, a + 1);
    CallerByteKept(m, m', own, kd, cur, a + 2);
    CallerByteKept(m, m', own, kd, cur, a + 3);
  }

  lemma CallerByteKept(m: seq<Page>, m': seq<Page>, own: Owners, kd: nat, cur: nat, a: nat)
    requires Inv(m, own, kd) && IsDirectory(own, cur) && cur != kd && CallerKept(m, m', own, kd, cur)
    requires MEMORY_TASK_BASE <= a && Readable(m, own, cur, a)
    ensures ActiveByte(m', cur, a) == ActiveByte(m, cur, a) && Readable(m', own, cur, a)
  {
    assert Unfolded(Seal);
    OnlyTablesMatter(m, m', own, kd);
    assert Mappable(kd, cur, a / PAGE_SIZE) && IsRoot(own, kd, cur);
    assert own[FrameOf(Pte(m, cur, a / PAGE_SIZE))] == Data(cur, a / PAGE_SIZE);
  }

  lemma StringKept(m: seq<Page>, m': seq<Page>, own: Owners, kd: nat, cur: nat, p: nat, s: seq<Byte>)
    requires Inv(m, own, kd) && IsDirectory(own, cur) && cur != kd && CallerKept(m, m', own, kd, cur)
    requires StringIn(m, own, cur, p, s)
    ensures StringIn(m', own, cur, p, s)
  {
    ReadableKept(m, m', own, kd, cur, p, |s| + 1);
  }

  lemma ReadableKept(m: seq<Page>, m': seq<Page>, own: Owners, kd: nat, cur: nat, from: nat, n: nat)
    requires Inv(m, own, kd) && IsDirectory(own, cur) && cur != kd && CallerKept(m, m', own, kd, cur)
    requires MEMORY_TASK_BASE <= from && AllReadable(m, own, cur, from, n)
    ensures AllReadable(m', own, cur, from, n)
    ensures forall a: nat | from <= a < from + n :: ActiveByte(m', cur, a) == ActiveByte(m, cur, a)
  {
    forall a: nat | from <= a < from + n
      ensures Readable(m', own, cur, a) && ActiveByte(m', cur, a) == ActiveByte(m, cur, a)
    {
      assert Readable(m, own, cur, a);
      CallerByteKept(m, m', own, kd, cur, a);
    }
  }

  /** Between the rounds of copy_args: the first `i` arguments are in place. */
  ghost predicate Laying(mm: MemoryManager, m: seq<Page>, d: nat, to: nat, argv: nat, strs: seq<seq<Byte>>, i: nat)
    requires i <= |strs|
    reads mm, mm.phys, mm.phys.pages, mm.alloc, mm.alloc.bitmap, mm.alloc.bitmap.bits
  {
    && mm.Valid() && IsDirectory(mm.own, d) && IsDirectory(mm.own, mm.cr3) && d != mm.cr3
    && AllMapped(mm.phys.view, d, to, TotalSize(strs)) && ArgumentsIn(mm.phys.view, mm.own, mm.cr3, argv, strs)
    && OnlyUserPages(m, mm.phys.view, mm.own, d) && OutsideKept(m, mm.phys.view, d, to, TotalSize(strs))
    && Placed(mm.phys.view, d, to, strs, i)
  }

  method ReadActiveWord(mm: MemoryManager, a: Word) returns (w: Word)
    requires mm.Valid() && IsDirectory(mm.own, mm.cr3) && a + 4 <= 0x1_0000_0000
    requires Readable(mm.phys.view, mm.own, mm.cr3, a) && Readable(mm.phys.view, mm.own, mm.cr3, a + 1)
    requires Readable(mm.phys.view, mm.own, mm.cr3, a + 2) && Readable(mm.phys.view, mm.own, mm.cr3, a + 3)
    ensures w == ActiveWord(mm.phys.view, mm.cr3, a)
  {
    var b0 := ReadActive(mm, a);
    var b1 := ReadActive(mm, a + 1);
    var b2 := ReadActive(mm, a + 2);
    var b3 := ReadActive(mm, a + 3);
    return WordOf(b0, b1, b2, b3);
  }

  /** Copies a string, terminator included, to the next place. */
  method CopyString(mm: MemoryManager, d: nat, from: Word, dest: Word, ghost s: seq<Byte>) returns (len: nat)
    requires mm.Valid() && IsDirectory(mm.own, d) && IsDirectory(mm.own, mm.cr3) && d != mm.cr3
    requires StringIn(mm.phys.view, mm.own, mm.cr3, from, s)
    requires MEMORY_TASK_BASE <= dest && dest + |s| + 1 <= 0x1_0000_0000 && AllMapped(mm.phys.view, d, dest, |s| + 1)
    modifies mm.phys, mm.phys.pages
    ensures mm.Valid() && len == |s| + 1
    ensures Patched(old(mm.phys.view), mm.phys.view, mm.own, d, dest, Terminated(s))
  {
    ghost var m := mm.phys.view;
    len := StrLen(mm, from, s);
    len := len + 1;
    var _, k, done, base := CopyUvmData(mm, dest, d, from, len);
    CopiedToMapped(m, base, mm.phys.view, JobOf(mm, d, dest, from, len), k, done);
    assert ActiveBytes(m, mm.cr3, from, len) == Terminated(s);
  }

  /** Writes the word at physical address `pa`, which is where user address `x` of `d` lies. */
  method WriteUserWord(mm: MemoryManager, d: nat, pa: Word, ghost x: nat, w: Word)
    requires mm.Valid() && IsDirectory(mm.own, d) && x % 4 == 0 && IsMapped(mm.phys.view, d, x)
    requires pa == FrameOf(Pte(mm.phys.view, d, x / PAGE_SIZE)) * PAGE_SIZE + x % PAGE_SIZE
    modifies mm.phys, mm.phys.pages
    ensures mm.Valid() && Patched(old(mm.phys.view), mm.phys.view, mm.own, d, x, WordBytes(w))
  {
    ghost var m, f := mm.phys.view, FrameOf(Pte(mm.phys.view, d, x / PAGE_SIZE));
    Target(m, mm.own, mm.kernelDir, d, x);
    assert FrameOf(pa) == f && pa % PAGE_SIZE == x % PAGE_SIZE;
    PatchWord(m, mm.own, mm.kernelDir, d, x, w, f);
    mm.phys.WriteWord(FrameOf(pa), pa % PAGE_SIZE / 4, w);
    PatchKeepsTables(m, mm.phys.view, mm.own, mm.kernelDir, d);
  }

  /** The physical place of user address `x`, while mappings stay. */
  predicate PlaceOf(m: seq<Page>, d: nat, x: nat, pa: nat) {
    pa == FrameOf(Pte(m, d, x / PAGE_SIZE)) * PAGE_SIZE + x % PAGE_SIZE
  }

  lemma EntryPlace(m: seq<Page>, d: nat, table: nat, n: nat, pa: nat, i: nat)
    requires PlaceOf(m, d, table, pa) && table % PAGE_SIZE + 4 * n <= PAGE_SIZE && i < n
    ensures PlaceOf(m, d, table + 4 * i, pa + 4 * i)
  {
    SamePage(table, 4 * i);
  }

  lemma PlaceKept(m: seq<Page>, m': seq<Page>, own: Owners, kd: nat, d: nat, x: nat, pa: nat)
    requires Inv(m, own, kd) && IsDirectory(own, d) && d != kd && OnlyUserPages(m, m', own, d)
    requires PlaceOf(m, d, x, pa) && IsMapped(m, d, x)
    ensures PlaceOf(m', d, x, pa) && IsMapped(m', d, x)
  {
    PatchKeepsTables(m, m', own, kd, d);
    assert Mappable(kd, d, x / PAGE_SIZE) && IsRoot(own, kd, d);
  }

  /** One round of copy_args: argument `i` goes to `dest`, its address to the table at `tablePa`. */
  method CopyArgument(mm: MemoryManager, d: nat, argv: Word, i: nat, tablePa: Word, dest: Word,
                      ghost m: seq<Page>, ghost to: nat, ghost strs: seq<seq<Byte>>) returns (len: nat)
    requires i < |strs| && to % 4 == 0 && MEMORY_TASK_BASE <= to && to + TotalSize(strs) <= 0x1_0000_0000
    requires Laying(mm, m, d, to, argv, strs, i) && dest == StringAt(to, strs, i)
    requires PlaceOf(mm.phys.view, d, TableAt(to), tablePa) && TableAt(to) % PAGE_SIZE + 4 * |strs| <= PAGE_SIZE
    requires tablePa + 4 * |strs| <= 0x1_0000_0000
    modifies mm.phys, mm.phys.pages
    ensures len == |strs[i]| + 1 && Laying(mm, m, d, to, argv, strs, i + 1)
    ensures PlaceOf(mm.phys.view, d, TableAt(to), tablePa)
  {
    ghost var m1, own, kd, cur := mm.phys.view, mm.own, mm.kernelDir, mm.cr3;
    ghost var t := TableAt(to) + 4 * i;
    StringReady(m1, d, to, strs, i, dest);
    var from := ReadArgument(mm, argv, i, strs);
    len := CopyString(mm, d, from, dest, strs[i]);
    ghost var m2 := mm.phys.view;
    EntryReady(m1, m2, own, kd, d, to, strs, i, tablePa, t);
    WriteUserWord(mm, d, tablePa + 4 * i, t, dest);
    ArgumentLaid(m, m1, m2, mm.phys.view, own, kd, cur, d, to, argv, strs, i, dest, tablePa);
  }

  /** argv[i] */
  method ReadArgument(mm: MemoryManager, argv: Word, i: nat, ghost strs: seq<seq<Byte>>) returns (p: Word)
    requires mm.Valid() && IsDirectory(mm.own, mm.cr3) && i < |strs|
    requires ArgumentsIn(mm.phys.view, mm.own, mm.cr3, argv, strs)
    ensures StringIn(mm.phys.view, mm.own, mm.cr3, p, strs[i])
  {
    var a := argv + 4 * i;
    PointerReadable(mm.phys.view, mm.own, mm.cr3, argv, |strs|, i, a);
    p := ReadActiveWord(mm, a);
    ArgumentString(mm.phys.view, mm.own, mm.cr3, argv, strs, i, p);
  }

  lemma ArgumentString(m: seq<Page>, own: Owners, cur: nat, argv: nat, strs: seq<seq<Byte>>, i: nat, p: nat)
    requires i < |strs| && ArgumentsIn(m, own, cur, argv, strs) && p == ActiveWord(m, cur, argv + 4 * i)
    ensures StringIn(m, own, cur, p, strs[i])
  {
    assert ArgumentIn(m, own, cur, argv, strs, i);
  }

  lemma PointerReadable(m: seq<Page>, own: Owners, cur: nat, argv: nat, n: nat, i: nat, a: nat)
    requires i < n && AllReadable(m, own, cur, argv, 4 * n) && a == argv + 4 * i
    ensures a + 4 <= argv + 4 * n
    ensures Readable(m, own, cur, a) && Readable(m, own, cur, a + 1) && Readable(m, own, cur, a + 2)
    ensures Readable(m, own, cur, a + 3)
  {
  }

  /** The next string fits. */
  lemma StringReady(m: seq<Page>, d: nat, to: nat, strs: seq<seq<Byte>>, i: nat, dest: nat)
    requires i < |strs| && MEMORY_TASK_BASE <= to && to + TotalSize(strs) <= 0x1_0000_0000
    requires AllMapped(m, d, to, TotalSize(strs)) && dest == StringAt(to, strs, i)
    ensures AllMapped(m, d, dest, |strs[i]| + 1) && MEMORY_TASK_BASE <= dest && dest + |strs[i]| + 1 <= 0x1_0000_0000
  {
    InArea(m, d, to, strs, i);
  }

  /** The place of table entry `i`, after a string was copied. */
  lemma EntryReady(m: seq<Page>, m': seq<Page>, own: Owners, kd: nat, d: nat, to: nat, strs: seq<seq<Byte>>, i: nat,
      tablePa: nat, t: nat)
    requires Inv(m, own, kd) && IsDirectory(own, d) && d != kd && OnlyUserPages(m, m', own, d)
    requires i < |strs| && to % 4 == 0 && AllMapped(m, d, to, TotalSize(strs)) && t == TableAt(to) + 4 * i
    requires PlaceOf(m, d, TableAt(to), tablePa) && TableAt(to) % PAGE_SIZE + 4 * |strs| <= PAGE_SIZE
    ensures t % 4 == 0 && IsMapped(m', d, t) && PlaceOf(m', d, t, tablePa + 4 * i)
  {
    InArea(m, d, to, strs, i);
    Aligned(to, i);
    EntryPlace(m, d, TableAt(to), |strs|, tablePa, i);
    assert IsMapped(m, d, t);
    PlaceKept(m, m', own, kd, d, t, tablePa + 4 * i);
  }

  lemma Aligned(to: nat, i: nat)
    requires to % 4 == 0
    ensures (TableAt(to) + 4 * i) % 4 == 0
  {
    var q := to / 4;
    assert to == 4 * q;
    Quarter(q + 3 + i, 0);
  }

  lemma ArgumentLaid(m: seq<Page>, m1: seq<Page>, m2: seq<Page>, m3: seq<Page>, own: Owners, kd: nat, cur: nat, d: nat,
                     to: nat, argv: nat, strs: seq<seq<Byte>>, i: nat, dest: Word, tablePa: nat)
    requires i < |strs| && Inv(m1, own, kd) && Inv(m2, own, kd) && IsDirectory(own, d) && IsDirectory(own, cur)
    requires cur != d && d != kd && cur != kd
    requires AllMapped(m1, d, to, TotalSize(strs)) && ArgumentsIn(m1, own, cur, argv, strs)
    requires OnlyUserPages(m, m1, own, d) && OutsideKept(m, m1, d, to, TotalSize(strs))
    requires Placed(m1, d, to, strs, i) && dest == StringAt(to, strs, i) && PlaceOf(m1, d, TableAt(to), tablePa)
    requires Patched(m1, m2, own, d, dest, Terminated(strs[i]))
    requires Patched(m2, m3, own, d, TableAt(to) + 4 * i, WordBytes(dest))
    ensures AllMapped(m3, d, to, TotalSize(strs)) && ArgumentsIn(m3, own, cur, argv, strs)
    ensures OnlyUserPages(m, m3, own, d) && OutsideKept(m, m3, d, to, TotalSize(strs))
    ensures Placed(m3, d, to, strs, i + 1) && PlaceOf(m3, d, TableAt(to), tablePa)
  {
    ArgumentInside(m, m1, m2, m3, own, kd, d, to, strs, i, dest);
    OtherUserPages(m1, m2, own, kd, cur, d);
    AreaKept(m1, m2, own, kd, cur, d, to, TotalSize(strs));
    PlaceNext(m1, m2, m3, own, d, to, strs, i, i + 1, dest, TableAt(to) + 4 * i);
    assert OnlyUserPages(m1, m3, own, d);
    OtherUserPages(m1, m3, own, kd, cur, d);
    LayoutKept(m1, m3, own, kd, cur, d, to, argv, strs);
    assert IsMapped(m1, d, TableAt(to));
    PlaceKept(m1, m3, own, kd, d, TableAt(to), tablePa);
  }

  lemma ArgumentInside(m: seq<Page>, m1: seq<Page>, m2: seq<Page>, m3: seq<Page>, own: Owners, kd: nat, d: nat,
      to: nat, strs: seq<seq<Byte>>, i: nat, dest: Word)
    requires i < |strs| && Inv(m1, own, kd) && Inv(m2, own, kd) && IsDirectory(own, d) && d != kd
    requires AllMapped(m1, d, to, TotalSize(strs)) && OutsideKept(m, m1, d, to, TotalSize(strs))
    requires dest == StringAt(to, strs, i) && Patched(m1, m2, own, d, dest, Terminated(strs[i]))
    requires Patched(m2, m3, own, d, TableAt(to) + 4 * i, WordBytes(dest))
    ensures OutsideKept(m, m3, d, to, TotalSize(strs))
  {
    InArea(m1, d, to, strs, i);
    var t := TableAt(to) + 4 * i;
    PatchInside(m, m1, m2, own, kd, d, to, TotalSize(strs), dest, Terminated(strs[i]));
    PatchInside(m, m2, m3, own, kd, d, to, TotalSize(strs), t, WordBytes(dest));
  }

  // ----- the header

  /** A word-aligned place for a header in a page of the kernel. */
  predicate KernelFrame(own: Owners, frame: nat) {
    && frame % 4 == 0 && frame < MEMORY_TASK_BASE && frame % PAGE_SIZE + HEADER_SIZE <= PAGE_SIZE
    && FrameOf(frame) in own && own[FrameOf(frame)] == Kernel
  }

  /** The header at kernel address `frame`; its first word, the return address, is left as it is. */
  ghost predicate HeaderAt(m: seq<Page>, frame: Word, argc: nat, table: nat) {
    && Entry(m, FrameOf(frame), frame % PAGE_SIZE / 4 + 1) == argc
    && Entry(m, FrameOf(frame), frame % PAGE_SIZE / 4 + 2) == table
  }

  /** Fills in the local task_args. */
  method BuildHeader(mm: MemoryManager, frame: Word, argc: Word, table: Word)
    requires mm.Valid() && KernelFrame(mm.own, frame)
    modifies mm.phys, mm.phys.pages
    ensures mm.Valid() && HeaderAt(mm.phys.view, frame, argc, table)
    ensures |mm.phys.view| == |old(mm.phys.view)|
    ensures forall f: nat | f < |mm.phys.view| && f != FrameOf(frame) :: mm.phys.view[f] == old(mm.phys.view)[f]
  {
    ghost var m := mm.phys.view;
    var f, w := FrameOf(frame), frame % PAGE_SIZE / 4;
    mm.phys.WriteWord(f, w + 1, argc);
    mm.phys.WriteWord(f, w + 2, table);
    OnlyTablesMatter(m, mm.phys.view, mm.own, mm.kernelDir);
  }

  lemma HeaderBytes(m: seq<Page>, cur: nat, frame: Word, argc: Word, table: Word)
    requires frame % 4 == 0 && frame + HEADER_SIZE <= MEMORY_TASK_BASE && frame % PAGE_SIZE + HEADER_SIZE <= PAGE_SIZE
    requires HeaderAt(m, frame, argc, table)
    ensures var h := ActiveBytes(m, cur, frame, HEADER_SIZE);
      WordOf(h[4], h[5], h[6], h[7]) == argc && WordOf(h[8], h[9], h[10], h[11]) == table
  {
    HeaderByte(m, cur, frame, 1, argc);
    HeaderByte(m, cur, frame, 2, table);
    WordOfBytes(argc);
    WordOfBytes(table);
  }

  lemma HeaderByte(m: seq<Page>, cur: nat, frame: Word, w: nat, value: Word)
    requires frame % 4 == 0 && frame + HEADER_SIZE <= MEMORY_TASK_BASE && frame % PAGE_SIZE + HEADER_SIZE <= PAGE_SIZE
    requires w < 3 && Entry(m, FrameOf(frame), frame % PAGE_SIZE / 4 + w) == value
    ensures forall k: nat | k < 4 :: ActiveByte(m, cur, frame + 4 * w + k) == ByteOf(value, k)
  {
    forall k: nat | k < 4
      ensures ActiveByte(m, cur, frame + 4 * w + k) == ByteOf(value, k)
    {
      ByteOfWord(frame, w, k);
    }
  }

  /** Where byte `k` of the word `w` words after an aligned address lies. */
  lemma ByteOfWord(x: nat, w: nat, k: nat)
    requires x % 4 == 0 && k < 4 && x % PAGE_SIZE + 4 * w + k < PAGE_SIZE
    ensures (x + 4 * w + k) / PAGE_SIZE == x / PAGE_SIZE
    ensures (x + 4 * w + k) % PAGE_SIZE / 4 == x % PAGE_SIZE / 4 + w && (x + 4 * w + k) % PAGE_SIZE % 4 == k
  {
    SamePage(x, 4 * w + k);
    assert x + (4 * w + k) == x + 4 * w + k;
    var q := x % PAGE_SIZE / 4;
    assert x % PAGE_SIZE == 4 * q;
    Quarter(q + w, k);
  }

  lemma Quarter(q: nat, k: nat)
    requires k < 4
    ensures (4 * q + k) / 4 == q && (4 * q + k) % 4 == k
  {
  }

  /** The last step of copy_args: the header goes in front of the finished layout. */
  method CopyHeader(mm: MemoryManager, to: Word, d: nat, frame: Word, ghost m: seq<Page>, ghost argv: nat,
      ghost strs: seq<seq<Byte>>)
    returns (res: int)
    requires Laying(mm, m, d, to, argv, strs, |strs|) && KernelFrame(mm.own, frame) && |strs| < 0x1_0000_0000
    requires HeaderAt(m, frame, |strs|, TableAt(to)) && MEMORY_TASK_BASE <= to && TableAt(to) < 0x1_0000_0000
    requires to + TotalSize(strs) <= 0x1_0000_0000
    modifies mm.phys, mm.phys.pages
    ensures mm.Valid() && res == 0
    ensures ArgumentsOut(mm.phys.view, d, to, strs) && OnlyUserPages(m, mm.phys.view, mm.own, d)
    ensures OutsideKept(m, mm.phys.view, d, to, TotalSize(strs))
  {
    ghost var m1 := mm.phys.view;
    HeaderReadable(m, m1, mm.own, mm.cr3, d, frame, |strs|, TableAt(to));
    FrontMapped(m1, d, to, strs);
    ghost var k, done, base;
    res, k, done, base := CopyUvmData(mm, to, d, frame, HEADER_SIZE);
    CopiedToMapped(m1, base, mm.phys.view, JobOf(mm, d, to, frame, HEADER_SIZE), k, done);
    HeaderBytes(m1, mm.cr3, frame, |strs|, TableAt(to));
    PatchInside(m, m1, mm.phys.view, mm.own, mm.kernelDir, d, to, TotalSize(strs), to,
      ActiveBytes(m1, mm.cr3, frame, HEADER_SIZE));
    HeaderLast(m1, mm.phys.view, mm.own, d, to, strs, ActiveBytes(m1, mm.cr3, frame, HEADER_SIZE));
  }

  lemma FrontMapped(m: seq<Page>, d: nat, to: nat, strs: seq<seq<Byte>>)
    requires AllMapped(m, d, to, TotalSize(strs))
    ensures AllMapped(m, d, to, HEADER_SIZE)
  {
  }

  lemma InFrame(frame: nat, a: nat)
    requires frame <= a < frame + HEADER_SIZE && frame % PAGE_SIZE + HEADER_SIZE <= PAGE_SIZE
    ensures a / PAGE_SIZE == frame / PAGE_SIZE
    ensures frame < MEMORY_TASK_BASE ==> a < MEMORY_TASK_BASE
  {
  }

  lemma HeaderReadable(m: seq<Page>, m1: seq<Page>, own: Owners, cur: nat, d: nat, frame: Word, argc: nat, table: nat)
    requires KernelFrame(own, frame) && OnlyUserPages(m, m1, own, d) && HeaderAt(m, frame, argc, table)
    requires FrameOf(frame) < |m|
    ensures AllReadable(m1, own, cur, frame, HEADER_SIZE) && HeaderAt(m1, frame, argc, table)
    ensures frame + HEADER_SIZE <= MEMORY_TASK_BASE
  {
    forall a: nat | frame <= a < frame + HEADER_SIZE
      ensures Readable(m1, own, cur, a)
    {
      InFrame(frame, a);
    }
    assert m1[FrameOf(frame)] == m[FrameOf(frame)];
  }

  /** copy_args: writes argc, the argument table and the strings from `to` on into directory `d`. The header
      is built in the kernel's own page at `frame` first. */
  method CopyArgs(mm: MemoryManager, to: Word, d: nat, argc: nat, argv: Word, frame: Word, ghost strs: seq<seq<Byte>>)
    returns (res: int)
    requires mm.Valid() && IsDirectory(mm.own, d) && IsDirectory(mm.own, mm.cr3) && d != mm.cr3
    requires |strs| == argc && ArgumentsIn(mm.phys.view, mm.own, mm.cr3, argv, strs)
    requires to % 4 == 0 && MEMORY_TASK_BASE <= to && to + TotalSize(strs) <= 0x1_0000_0000
    requires AllMapped(mm.phys.view, d, to, TotalSize(strs)) && TableAt(to) % PAGE_SIZE + 4 * argc <= PAGE_SIZE
    requires IsMapped(mm.phys.view, d, TableAt(to))
    requires KernelFrame(mm.own, frame)
    modifies mm.phys, mm.phys.pages
    ensures mm.Valid() && res == 0
    ensures ArgumentsOut(mm.phys.view, d, to, strs)
    ensures OutsideKept(old(mm.phys.view), mm.phys.view, d, to, TotalSize(strs))
    ensures |mm.phys.view| == |old(mm.phys.view)|
    ensures forall f: nat | f < |mm.phys.view| && !UserPageOf(mm.own, f, d) && f != FrameOf(frame) ::
      mm.phys.view[f] == old(mm.phys.view)[f]
  {
    ghost var m0 := mm.phys.view;
    BuildHeader(mm, frame, argc, TableAt(to));
    ghost var m := mm.phys.view;
    LayoutKept(m0, m, mm.own, mm.kernelDir, mm.cr3, d, to, argv, strs);
    TableKept(m0, m, mm.own, mm.kernelDir, mm.cr3, d, TableAt(to));
    KernelWriteUnseen(m0, m, mm.own, mm.kernelDir, d, to, TotalSize(strs), FrameOf(frame));
    LayArguments(mm, to, d, argc, argv, m, strs);
    res := CopyHeader(mm, to, d, frame, m, argv, strs);
    OutsideTwice(m0, m, mm.phys.view, d, to, TotalSize(strs));
  }

  /** The loop of copy_args. */
  method LayArguments(mm: MemoryManager, to: Word, d: nat, argc: nat, argv: Word, ghost m: seq<Page>,
      ghost strs: seq<seq<Byte>>)
    requires |strs| == argc && Laying(mm, m, d, to, argv, strs, 0)
    requires to % 4 == 0 && MEMORY_TASK_BASE <= to && to + TotalSize(strs) <= 0x1_0000_0000
    requires TableAt(to) % PAGE_SIZE + 4 * argc <= PAGE_SIZE && IsMapped(mm.phys.view, d, TableAt(to))
    modifies mm.phys, mm.phys.pages
    ensures Laying(mm, m, d, to, argv, strs, argc)
  {
    var tablePa := GetPaddr(mm, d, TableAt(to));
    var dest: nat := TableAt(to) + 4 * argc;
    for i := 0 to argc
      invariant Laying(mm, m, d, to, argv, strs, i) && dest == StringAt(to, strs, i)
      invariant PlaceOf(mm.phys.view, d, TableAt(to), tablePa)
    {
      OffsetsGrow(strs, i, argc);
      var len := CopyArgument(mm, d, argv, i, tablePa, dest, m, to, strs);
      dest := dest + len;
    }
  }
}
