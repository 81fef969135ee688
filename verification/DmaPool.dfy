/**
  The restricted DMA pool: a first-fit page allocator over a byte-packed bitmap,
  in the two copies that the firmware carries.
*/
module DmaPool {
  import opened Efi

  // ----- one byte of the bitmap -----

  /** 1U << k */
  function Mask(k: nat): bv8
    requires k < 8
  {
    match k
    case 0 => 0x01
    case 1 => 0x02
    case 2 => 0x04
    case 3 => 0x08
    case 4 => 0x10
    case 5 => 0x20
    case 6 => 0x40
    case 7 => 0x80
  }

  predicate TestMask(b: bv8, k: nat)
    requires k < 8
  {
    b & Mask(k) != 0
  }

  lemma SetMask(b: bv8, j: nat, k: nat)
    requires j < 8 && k < 8
    ensures TestMask(b | Mask(j), k) <==> j == k || TestMask(b, k)
  {
  }

  lemma ClearMask(b: bv8, j: nat, k: nat)
    requires j < 8 && k < 8
    ensures TestMask(b & !Mask(j), k) <==> j != k && TestMask(b, k)
  {
  }

  /** A byte is its eight bits. */
  lemma SameBits(a: bv8, b: bv8)
    requires forall k :: 0 <= k < 8 ==> (TestMask(a, k) <==> TestMask(b, k))
    ensures a == b
  {
    assert TestMask(a, 0) == TestMask(b, 0) && TestMask(a, 1) == TestMask(b, 1);
    assert TestMask(a, 2) == TestMask(b, 2) && TestMask(a, 3) == TestMask(b, 3);
    assert TestMask(a, 4) == TestMask(b, 4) && TestMask(a, 5) == TestMask(b, 5);
    assert TestMask(a, 6) == TestMask(b, 6) && TestMask(a, 7) == TestMask(b, 7);
  }

  // ----- which pages a free request clears -----

  datatype Range = Range(lo: nat, hi: nat) {
    predicate Has(i: nat) {
      lo <= i < hi
    }
  }

  const NO_PAGES := Range(0, 0)

  /** DmaPoolFreePages(): an explicit test for addresses below the pool. UINTN arithmetic wraps. */
  function PagesFreed(base: nat, totalPages: nat, numPages: nat, address: nat): Range {
    if address < base then NO_PAGES
    else
      var start := SizeToPages(address - base);
      var end := (start + numPages) % TWO_TO_64;
      if end > totalPages then NO_PAGES else Range(start, end)
  }

  /** GunyahDmaPoolFreePages(): no such test, the subtraction wraps instead. */
  function PagesFreedByLibrary(base: nat, totalPages: nat, numPages: nat, address: nat): Range {
    if address == 0 then NO_PAGES
    else
      var start := SizeToPages((address - base) % TWO_TO_64);
      var end := (start + numPages) % TWO_TO_64;
      if end > totalPages then NO_PAGES else Range(start, end)
  }

  /** A page-aligned region that does not pass the end of the address space. */
  ghost predicate ValidRegion(base: nat, totalPages: nat) {
    && base > 0 && totalPages > 0
    && base % PAGE_SIZE == 0
    && base + totalPages * PAGE_SIZE <= TWO_TO_64
  }

  /** The pages that an address and a count denote, if all of them are in the pool. No wraparound here. */
  predicate Denoted(base: nat, totalPages: nat, numPages: nat, address: nat, i: nat) {
    && address >= base
    && SizeToPages(address - base) <= i < SizeToPages(address - base) + numPages <= totalPages
  }

  /** A UINTN sum that wraps lies below its first operand. */
  lemma WrappedSum(a: nat, b: nat)
    requires a < TWO_TO_64 && b < TWO_TO_64
    ensures (a + b) % TWO_TO_64 == if a + b < TWO_TO_64 then a + b else a + b - TWO_TO_64
  {
  }

  lemma PagesOfLarge(size: nat, pages: nat)
    requires size >= pages * PAGE_SIZE
    ensures SizeToPages(size) >= pages
  {
  }

  lemma PagesOfWord(size: nat)
    requires size < TWO_TO_64
    ensures SizeToPages(size) < TWO_TO_64
  {
  }

  /** The explicit test: exactly the denoted pages are freed, because a sum that wraps frees none. */
  lemma FreedExactly(base: nat, totalPages: nat, numPages: nat, address: nat)
    requires numPages <= MAX_UINT64 && address <= MAX_UINT64
    requires totalPages < TWO_TO_64
    ensures forall i :: PagesFreed(base, totalPages, numPages, address).Has(i) <==>
                        Denoted(base, totalPages, numPages, address, i)
  {
    if address >= base {
      PagesOfWord(address - base);
      WrappedSum(SizeToPages(address - base), numPages);
    }
  }

  /** The wrapping subtraction: an address below the pool frees no page either. */
  lemma FreedByLibraryExactly(base: nat, totalPages: nat, numPages: nat, address: nat)
    requires ValidRegion(base, totalPages)
    requires numPages <= MAX_UINT64 && address <= MAX_UINT64
    ensures forall i :: PagesFreedByLibrary(base, totalPages, numPages, address).Has(i) <==>
                        Denoted(base, totalPages, numPages, address, i)
  {
    var offset := if address < base then address - base + TWO_TO_64 else address - base;
    assert (address - base) % TWO_TO_64 == offset;
    PagesOfWord(offset);
    WrappedSum(SizeToPages(offset), numPages);
    if address < base {
      PagesOfLarge(offset, totalPages);
    }
  }

  /** The two free functions agree on every page count and every address. */
  lemma FreesAgree(base: nat, totalPages: nat, numPages: nat, address: nat)
    requires ValidRegion(base, totalPages)
    requires numPages <= MAX_UINT64 && address <= MAX_UINT64
    ensures forall i :: PagesFreed(base, totalPages, numPages, address).Has(i) <==>
                        PagesFreedByLibrary(base, totalPages, numPages, address).Has(i)
  {
    FreedExactly(base, totalPages, numPages, address);
    FreedByLibraryExactly(base, totalPages, numPages, address);
  }

  /** A block's own address and size denote that block. */
  lemma FreeOwnBlock(base: nat, totalPages: nat, start: nat, numPages: nat, address: nat)
    requires start + numPages <= totalPages && address == base + start * PAGE_SIZE
    ensures forall i: nat :: Denoted(base, totalPages, numPages, address, i) <==> start <= i < start + numPages
  {
    assert SizeToPages(address - base) == start;
  }

  // ----- the allocator -----

  /** No run of n unused pages ends at or before page `end`. */
  ghost predicate NoRunUpTo(used: set<nat>, end: nat, n: nat) {
    forall s: nat :: s + n <= end ==> !Unused(used, s, n)
  }

  /** Page j is in use, so that no run across it can end here. */
  lemma StillNoRun(used: set<nat>, end: nat, n: nat, j: int)
    requires NoRunUpTo(used, end, n)
    requires n <= end + 1 ==> 0 <= j && end + 1 - n <= j <= end && j in used
    ensures NoRunUpTo(used, end + 1, n)
  {
  }

  /** Pages from `start` on, n of them, are not in use. */
  ghost predicate Unused(used: set<nat>, start: nat, n: nat) {
    forall i :: start <= i < start + n ==> i !in used
  }

  class Pool {
    const base: nat
    const totalPages: nat
    const bitmap: array<bv8>

    ghost predicate Valid()
      reads this
    {
      && ValidRegion(base, totalPages)
      && bitmap.Length == (totalPages + 7) / 8
    }

    /** Page i is allocated. */
    predicate IsSet(i: nat)
      requires i < 8 * bitmap.Length
      reads bitmap
    {
      TestMask(bitmap[i / 8], i % 8)
    }

    ghost predicate IsFree(start: nat, n: nat)
      requires start + n <= 8 * bitmap.Length
      reads bitmap
    {
      forall i :: start <= i < start + n ==> !IsSet(i)
    }

    /** The allocated pages. */
    ghost function Used(): set<nat>
      requires Valid()
      reads this, bitmap
    {
      set i: nat | i < totalPages && IsSet(i)
    }

    /** DmaPoolInit(), given the region that the device tree describes. */
    constructor (base: nat, totalPages: nat)
      requires ValidRegion(base, totalPages)
      ensures Valid() && fresh(bitmap)
      ensures this.base == base && this.totalPages == totalPages
      ensures forall i :: 0 <= i < 8 * bitmap.Length ==> !IsSet(i)
    {
      this.base := base;
      this.totalPages := totalPages;
      bitmap := new bv8[(totalPages + 7) / 8](_ => 0);
    }

    method SetBit(index: nat)
      requires index < 8 * bitmap.Length
      modifies bitmap
      ensures forall i :: 0 <= i < 8 * bitmap.Length ==> (IsSet(i) <==> i == index || old(IsSet(i)))
    {
      ghost var b := bitmap[index / 8];
      bitmap[index / 8] := bitmap[index / 8] | Mask(index % 8);
      forall i | 0 <= i < 8 * bitmap.Length ensures IsSet(i) <==> i == index || old(IsSet(i)) {
        SetMask(b, index % 8, i % 8);
      }
    }

    method ClearBit(index: nat)
      requires index < 8 * bitmap.Length
      modifies bitmap
      ensures forall i :: 0 <= i < 8 * bitmap.Length ==> (IsSet(i) <==> i != index && old(IsSet(i)))
    {
      ghost var b := bitmap[index / 8];
      bitmap[index / 8] := bitmap[index / 8] & !Mask(index % 8);
      forall i | 0 <= i < 8 * bitmap.Length ensures IsSet(i) <==> i != index && old(IsSet(i)) {
        ClearMask(b, index % 8, i % 8);
      }
    }

    /** How many free pages the scan waits for: a request for no pages still needs a free one. */
    static function Need(numPages: nat): nat {
      if numPages == 0 then 1 else numPages
    }

    /** A free run of the bitmap is a run of unused pages. */
    lemma FreeIsUnused(start: nat, n: nat)
      requires Valid() && start + n <= totalPages
      ensures IsFree(start, n) <==> Unused(Used(), start, n)
    {
      var used := Used();
      assert forall i :: start <= i < start + n ==> (i in used <==> IsSet(i));
    }

    /** The lowest run of unused pages among the pages in `used`, found bit by bit. */
    method ScanForRun(numPages: nat, ghost used: set<nat>) returns (found: bool, start: nat)
      requires Valid() && forall i: nat {:trigger IsSet(i)} :: i < totalPages ==> (i in used <==> IsSet(i))
      ensures found <==> exists s: nat :: Unused(used, s, Need(numPages)) && s + Need(numPages) <= totalPages
      ensures found ==>
                && start + Need(numPages) <= totalPages && Unused(used, start, Need(numPages))
                && forall s: nat :: s < start ==> !Unused(used, s, Need(numPages))
    {
      ghost var need := Need(numPages);
      var runStart, runLen := 0, 0;
      var i := 0;
      while i < totalPages
        invariant 0 <= i <= totalPages
        invariant runStart + runLen == i && runLen < need
        invariant Unused(used, runStart, runLen)
        invariant runStart > 0 ==> runStart - 1 in used
        invariant NoRunUpTo(used, i, need)
      {
        var bit := IsSet(i);
        assert bit <==> i in used;
        if bit {
          StillNoRun(used, i, need, i);
          runLen := 0;
          runStart := i + 1;
        } else {
          runLen := runLen + 1;
          if runLen >= numPages {
            assert Unused(used, runStart, need);
            return true, runStart;
          }
          StillNoRun(used, i, need, runStart - 1);
        }
        i := i + 1;
      }
      return false, 0;
    }

    /** BitmapFindFreeRun(): the lowest run, if there is one. */
    method FindFreeRun(numPages: nat) returns (found: bool, start: nat)
      requires Valid()
      ensures found <==> exists s :: 0 <= s && s + Need(numPages) <= totalPages && IsFree(s, Need(numPages))
      ensures found ==>
                && start + Need(numPages) <= totalPages
                && IsFree(start, Need(numPages))
                && forall s :: 0 <= s < start ==> !IsFree(s, Need(numPages))
    {
      ghost var used, need := Used(), Need(numPages);
      forall s: nat | s + need <= totalPages ensures IsFree(s, need) <==> Unused(used, s, need) {
        FreeIsUnused(s, need);
      }
      found, start := ScanForRun(numPages, used);
      if found {
        assert IsFree(start, need);
      }
    }

    lemma FreePageIsRun()
      requires Valid()
      ensures (exists s :: 0 <= s && s + 1 <= totalPages && IsFree(s, 1)) <==> exists i :: 0 <= i < totalPages && !IsSet(i)
    {
      if i :| 0 <= i < totalPages && !IsSet(i) {
        assert IsFree(i, 1);
      }
      if s :| 0 <= s && s + 1 <= totalPages && IsFree(s, 1) {
        assert !IsSet(s);
      }
    }

    /** DmaPoolAllocatePages(). */
    method AllocatePages(numPages: nat) returns (status: Status, address: nat, ghost start: nat)
      requires Valid()
      modifies bitmap
      ensures status == Success || status == OutOfResources
      ensures status == Success <==>
                exists s :: 0 <= s && s + Need(numPages) <= totalPages && old(IsFree(s, Need(numPages)))
      ensures status == Success ==>
                && start + Need(numPages) <= totalPages
                && address == base + start * PAGE_SIZE
                && old(IsFree(start, Need(numPages)))
                && (forall s :: 0 <= s < start ==> !old(IsFree(s, Need(numPages))))
                && forall i :: 0 <= i < 8 * bitmap.Length ==>
                     (IsSet(i) <==> old(IsSet(i)) || start <= i < start + numPages)
      ensures status != Success ==> bitmap[..] == old(bitmap[..])
      // In terms of the request: a run of that length, or, for no pages at all, a free page.
      ensures numPages >= 1 ==>
                (status == Success <==> exists s :: 0 <= s && s + numPages <= totalPages && old(IsFree(s, numPages)))
      ensures numPages >= 1 && status == Success ==>
                && old(IsFree(start, numPages)) && forall s :: 0 <= s < start ==> !old(IsFree(s, numPages))
      ensures numPages == 0 ==> (status == Success <==> exists i :: 0 <= i < totalPages && !old(IsSet(i)))
    {
      address, start := 0, 0;
      assert numPages >= 1 ==> Need(numPages) == numPages;
      assert numPages == 0 ==> Need(numPages) == 1;
      FreePageIsRun();
      var found, startPage := FindFreeRun(numPages);
      assert forall s :: 0 <= s && s + Need(numPages) <= totalPages ==>
                           IsFree(s, Need(numPages)) == old(IsFree(s, Need(numPages)));
      if !found {
        return OutOfResources, address, start;
      }
      start := startPage;
      var i := startPage;
      while i < startPage + numPages
        invariant startPage <= i <= startPage + numPages
        invariant forall k :: 0 <= k < 8 * bitmap.Length ==> (IsSet(k) <==> old(IsSet(k)) || startPage <= k < i)
      {
        SetBit(i);
        i := i + 1;
      }
      return Success, base + startPage * PAGE_SIZE, start;
    }

    method ClearRange(start: nat, end: nat)
      requires end <= 8 * bitmap.Length
      modifies bitmap
      ensures forall i :: 0 <= i < 8 * bitmap.Length ==> (IsSet(i) <==> old(IsSet(i)) && !(start <= i < end))
    {
      var i := start;
      while i < end
        invariant start <= i && (i <= end || i == start)
        invariant forall k :: 0 <= k < 8 * bitmap.Length ==> (IsSet(k) <==> old(IsSet(k)) && !(start <= k < i))
      {
        ClearBit(i);
        i := i + 1;
      }
    }

    /** DmaPoolFreePages(). */
    method FreePages(numPages: nat, address: nat)
      requires Valid()
      requires numPages <= MAX_UINT64 && address <= MAX_UINT64
      modifies bitmap
      ensures forall i :: 0 <= i < 8 * bitmap.Length ==>
                (IsSet(i) <==> old(IsSet(i)) && !Denoted(base, totalPages, numPages, address, i))
    {
      FreedExactly(base, totalPages, numPages, address);
      if address < base {
        return;
      }
      var startPage := SizeToPages(address - base);
      var end := (startPage + numPages) % TWO_TO_64;
      if end > totalPages {
        return;
      }
      ClearRange(startPage, end);
    }

    /** GunyahDmaPoolFreePages() of the virtio-mmio library, on its own bitmap. */
    method LibraryFreePages(numPages: nat, address: nat)
      requires Valid()
      requires numPages <= MAX_UINT64 && address <= MAX_UINT64
      modifies bitmap
      ensures forall i :: 0 <= i < 8 * bitmap.Length ==>
                (IsSet(i) <==> old(IsSet(i)) && !Denoted(base, totalPages, numPages, address, i))
    {
      FreedByLibraryExactly(base, totalPages, numPages, address);
      if address == 0 {
        return;
      }
      var startPage := SizeToPages((address - base) % TWO_TO_64);
      var end := (startPage + numPages) % TWO_TO_64;
      if end > totalPages {
        return;
      }
      ClearRange(startPage, end);
    }

    /** Freeing an allocated block restores every byte of the bitmap. */
    method AllocateThenFree(numPages: nat) returns (status: Status)
      requires Valid() && numPages <= MAX_UINT64
      modifies bitmap
      ensures bitmap[..] == old(bitmap[..])
    {
      var address;
      ghost var start;
      status, address, start := AllocatePages(numPages);
      if status == Success {
        FreeOwnBlock(base, totalPages, start, numPages, address);
        FreePages(numPages, address);
        forall j | 0 <= j < bitmap.Length ensures bitmap[j] == old(bitmap[j]) {
          forall k | 0 <= k < 8 ensures TestMask(bitmap[j], k) <==> TestMask(old(bitmap[j]), k) {
            var i := 8 * j + k;
            assert IsSet(i) <==> old(IsSet(i));
          }
          SameBits(bitmap[j], old(bitmap[j]));
        }
      }
    }
  }
}
