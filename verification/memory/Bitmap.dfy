/** The bitmap behind physical page allocation: one bit a page, eight bits a byte. */
module Bitmaps {

  /** The byte whose only set bit is bit `k`. */
  function Mask(k: nat): bv8
    requires k < 8
  {
    (1 as bv8) << k
  }

  predicate TestBit(b: bv8, k: nat)
    requires k < 8
  {
    b & Mask(k) != 0
  }

  function WithBit(b: bv8, k: nat, bit: bool): bv8
    requires k < 8
  {
    if bit then b | Mask(k) else b & !Mask(k)
  }

  lemma WithBitChangesOneBit(b: bv8, k: nat, bit: bool)
    requires k < 8
    ensures forall j: nat | j < 8 :: TestBit(WithBit(b, k, bit), j) == if j == k then bit else TestBit(b, j)
  {
    forall j: nat | j < 8
      ensures TestBit(WithBit(b, k, bit), j) == if j == k then bit else TestBit(b, j)
    {
    }
  }

  function ByteCount(bitCount: nat): nat {
    (bitCount + 8 - 1) / 8
  }

  /** The bits that a byte buffer holds, lowest bit of each byte first. */
  ghost function BitsOf(bytes: seq<bv8>, n: nat): (bs: seq<bool>)
    requires ByteCount(n) <= |bytes|
    ensures |bs| == n
    ensures forall i | 0 <= i < n :: bs[i] == TestBit(bytes[i / 8], i % 8)
  {
    seq(n, i requires 0 <= i < n => TestBit(bytes[i / 8], i % 8))
  }

  lemma BitsAfterWrite(bytes: seq<bv8>, n: nat, i: nat, bit: bool)
    requires ByteCount(n) <= |bytes| && i < n
    ensures BitsOf(bytes[i / 8 := WithBit(bytes[i / 8], i % 8, bit)], n) == BitsOf(bytes, n)[i := bit]
  {
    WithBitChangesOneBit(bytes[i / 8], i % 8, bit);
  }

  /** `bs` with the positions `index <= k < index + count` set to `bit`; those past the end are ignored. */
  function Filled(bs: seq<bool>, index: nat, count: nat, bit: bool): (r: seq<bool>)
    ensures |r| == |bs|
    ensures forall k | 0 <= k < |bs| :: r[k] == if index <= k < index + count then bit else bs[k]
  {
    seq(|bs|, k requires 0 <= k < |bs| => if index <= k < index + count then bit else bs[k])
  }

  /** The bits that the search compares with `bit` before it accepts position `s`:
      bit `s` itself, and for two or more pages the first `count - 1` of the run. */
  function TestedWidth(count: nat): nat {
    if count <= 1 then 1 else count - 1
  }

  ghost predicate Accepts(bs: seq<bool>, bit: bool, count: nat, s: nat) {
    s + TestedWidth(count) <= |bs| && forall k | s <= k < s + TestedWidth(count) :: bs[k] == bit
  }

  /** `s` is what the search returns: the first accepted position. */
  ghost predicate FirstAccepted(bs: seq<bool>, bit: bool, count: nat, s: nat) {
    Accepts(bs, bit, count, s) && forall s' | 0 <= s' < s :: !Accepts(bs, bit, count, s')
  }

  ghost predicate WholeRunIs(bs: seq<bool>, bit: bool, count: nat, s: nat) {
    s + count <= |bs| && forall k | s <= k < s + count :: bs[k] == bit
  }

  /** The search hands out only free runs exactly when it is asked for a single page: for any longer
      run some bitmap makes it return a range whose last page is in use. */
  lemma SearchIsSoundExactlyForOnePage(count: nat)
    requires 1 <= count
    ensures (forall bs, s :: FirstAccepted(bs, false, count, s) ==> WholeRunIs(bs, false, count, s)) <==> count == 1
  {
    if count >= 2 {
      var bs := seq(count, k => k == count - 1);
      assert bs[count - 1];
      assert FirstAccepted(bs, false, count, 0) && !WholeRunIs(bs, false, count, 0);
    }
  }

  class Bitmap {
    var bits: array<bv8>
    var bitCount: nat

    ghost predicate Valid()
      reads this
    {
      ByteCount(bitCount) <= bits.Length
    }

    ghost function View(): (bs: seq<bool>)
      requires Valid()
      reads this, bits
    {
      BitsOf(bits[..], bitCount)
    }

    constructor Init(buffer: array<bv8>, count: nat, initBit: bool)
      requires ByteCount(count) <= buffer.Length
      modifies buffer
      ensures Valid() && bits == buffer && bitCount == count
      ensures View() == seq(count, _ => initBit)
    {
      bitCount := count;
      bits := buffer;
      new;
      var bytes := ByteCount(count);
      for i := 0 to bytes
        invariant Valid() && bits == buffer && bitCount == count && bytes == ByteCount(count)
        invariant forall k | 0 <= k < i :: bits[k] == if initBit then 0xFF else 0
      {
        bits[i] := if initBit then 0xFF else 0;
      }
      forall i | 0 <= i < count
        ensures View()[i] == initBit
      {
        assert bits[i / 8] == if initBit then 0xFF else 0;
        AllOnesOrZeros(initBit, i % 8);
      }
      assert View() == seq(count, _ => initBit);
    }

    method GetBit(index: nat) returns (b: bool)
      requires Valid() && index < bitCount
      ensures b == View()[index]
    {
      b := TestBit(bits[index / 8], index % 8);
    }

    method SetBit(index: nat, count: nat, bit: bool)
      requires Valid()
      modifies bits
      ensures Valid()
      ensures View() == Filled(old(View()), index, count, bit)
    {
      var i, at := 0, index;
      while i < count && at < bitCount
        invariant i <= count && at == index + i
        invariant Valid() && View() == Filled(old(View()), index, i, bit)
        decreases count - i
      {
        ghost var before, bytes := View(), bits[..];
        bits[at / 8] := WithBit(bits[at / 8], at % 8, bit);
        BitsAfterWrite(bytes, bitCount, at, bit);
        assert bits[..] == bytes[at / 8 := WithBit(bytes[at / 8], at % 8, bit)];
        i, at := i + 1, at + 1;
      }
    }

    /** First-fit search; the range found is always set to ones, whatever `bit` was searched for. */
    method AllocBits(bit: bool, count: nat) returns (index: int)
      requires Valid()
      modifies bits
      ensures Valid() && -1 <= index < bitCount
      ensures index == -1 ==> View() == old(View()) && forall s: nat :: !Accepts(View(), bit, count, s)
      ensures 0 <= index ==> FirstAccepted(old(View()), bit, count, index)
      ensures 0 <= index ==> View() == Filled(old(View()), index, count, true)
    {
      ghost var bs := View();
      var search := 0;
      while search < bitCount
        invariant 0 <= search <= bitCount && View() == bs
        invariant forall s | 0 <= s < search :: !Accepts(bs, bit, count, s)
      {
        var b := GetBit(search);
        if b != bit {
          search := search + 1;
          continue;
        }
        var i, next := CountRun(bit, count, search);
        if i >= count {
          SetBit(search, count, true);
          return search;
        }
        search := next;
      }
      return -1;
    }

    /** The inner loop: how many bits of a run from `start` on it takes for granted, and where the search goes on.
        It looks at the first bit of the run a second time and never at the last one. */
    method CountRun(bit: bool, count: nat, start: nat) returns (i: int, search: int)
      requires Valid() && start < bitCount && View()[start] == bit
      ensures i >= count ==> Accepts(View(), bit, count, start)
      ensures i < count ==>
        start < search <= bitCount && forall s | start <= s < search :: !Accepts(View(), bit, count, s)
    {
      ghost var bs := View();
      var found := true;
      i, search := 1, start;
      while found && i < count && search < bitCount
        invariant 1 <= i && (i <= count || i == 1) && start <= search <= bitCount
        invariant found ==> search == start + i - 1
        invariant found ==> forall k | start <= k < search :: bs[k] == bit
        invariant !found ==> i < count && start < search <= start + i && bs[search - 1] != bit
        decreases count - i, found
      {
        var b := GetBit(search);
        search := search + 1;
        if b == bit {
          i := i + 1;
        } else {
          found := false;
        }
      }
      if i < count {
        RejectedUpTo(bs, bit, count, start, search, found);
      }
    }
  }

  /** No position inside a window that ended early can be accepted, so the search may jump past it. */
  lemma RejectedUpTo(bs: seq<bool>, bit: bool, count: nat, start: nat, search: nat, found: bool)
    requires start < search <= |bs|
    requires if found then search == |bs| && search < start + count - 1
             else search < start + count && bs[search - 1] != bit
    ensures forall s | start <= s < search :: !Accepts(bs, bit, count, s)
  {
  }

  lemma AllOnesOrZeros(bit: bool, k: nat)
    requires k < 8
    ensures TestBit(if bit then 0xFF else 0, k) == bit
  {
  }
}
