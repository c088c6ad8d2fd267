/** The physical page allocator, kernel/memory/pmm.c: a bitmap over one contiguous pool of frames. */
module PhysicalMemory {
  import opened Words

  const BITMAP_WORDS: nat := 8192

  /** The pmm struct. `warned` is the console: the out-of-frames warning has been printed. */
  datatype Pool = Pool(start: Addr, pageCount: nat, bitmap: seq<Word>, warned: bool) {
    // The scan stops after the last word that is entirely backed by pages.
    function Limit(): nat { pageCount / 32 * 32 }

    /** What pmm_init_struct leaves, as long as the bitmap can describe every page. */
    predicate Valid() {
      && |bitmap| == BITMAP_WORDS
      && pageCount <= 32 * BITMAP_WORDS
      && 0 < start && start % PAGE_SIZE == 0
      && start + pageCount * PAGE_SIZE <= WORDS
    }

    function AddrOf(p: nat): nat { start + PAGE_SIZE * p }

    /** The physical address a has been handed out and not taken back. */
    ghost predicate Owns(a: nat) {
      exists p | 0 <= p < pageCount && p < 32 * |bitmap| :: a == AddrOf(p) && Taken(bitmap, p)
    }

    predicate HasFree()
      requires Valid()
    {
      LowestFree(bitmap, 0, Limit()) < Limit()
    }
  }

  type LivePool = p: Pool | p.Valid() witness Pool(PAGE_SIZE, 0, seq(BITMAP_WORDS, _ => ZERO), false)

  // ---- pmm_init_struct ----

  function FirstPage(kernelEnd: Addr): Addr {
    if PageAlign(kernelEnd) < kernelEnd then U32(PageAlign(kernelEnd) + PAGE_SIZE) else PageAlign(kernelEnd)
  }

  function LastPage(memoryEnd: Addr): Addr {
    var last := PageAlign(memoryEnd);
    if U32(last + PAGE_SIZE) > memoryEnd then U32(last - PAGE_SIZE) else last
  }

  function PoolBytes(kernelEnd: Addr, memoryEnd: Addr): Addr {
    U32(U32(LastPage(memoryEnd) + PAGE_SIZE) - FirstPage(kernelEnd))
  }

  /** Page number k lies entirely in [low, high). */
  predicate PageWithin(k: nat, low: nat, high: nat) {
    low <= k * PAGE_SIZE && k * PAGE_SIZE + PAGE_SIZE <= high
  }

  /** Whole pages between the kernel's end and the end of memory, none left out on either side. */
  ghost predicate IsLargestPool(start: nat, bytes: nat, kernelEnd: Addr, memoryEnd: Addr) {
    && start % PAGE_SIZE == 0 && bytes % PAGE_SIZE == 0
    && kernelEnd <= start && start + bytes <= memoryEnd
    && forall k: nat | PageWithin(k, kernelEnd, memoryEnd) :: PageWithin(k, start, start + bytes)
  }

  function RoundUp(a: Addr): nat { (a + PAGE_SIZE - 1) / PAGE_SIZE }

  lemma FirstPageValue(kernelEnd: Addr)
    ensures FirstPage(kernelEnd) == if kernelEnd <= WORDS - PAGE_SIZE then RoundUp(kernelEnd) * PAGE_SIZE else 0
  {}

  lemma PoolBytesValue(kernelEnd: Addr, memoryEnd: Addr)
    ensures PoolBytes(kernelEnd, memoryEnd)
         == U32((if memoryEnd < WORDS - PAGE_SIZE then PageAlign(memoryEnd) else 0) - FirstPage(kernelEnd))
  {}

  /** The pool is the right one exactly when whole pages do not run out and memory does not end in the last
      page of the address space, where the 32-bit sums wrap. */
  lemma PoolIsLargest(kernelEnd: Addr, memoryEnd: Addr)
    ensures IsLargestPool(FirstPage(kernelEnd), PoolBytes(kernelEnd, memoryEnd), kernelEnd, memoryEnd)
       <==> RoundUp(kernelEnd) <= memoryEnd / PAGE_SIZE && memoryEnd < WORDS - PAGE_SIZE
  {
    FirstPageValue(kernelEnd);
    PoolBytesValue(kernelEnd, memoryEnd);
    var first: nat, bytes: nat := FirstPage(kernelEnd), PoolBytes(kernelEnd, memoryEnd);
    var high: nat := PageAlign(memoryEnd);
    if memoryEnd >= WORDS - PAGE_SIZE {
      if kernelEnd == 0 {
        assert PageWithin(0, kernelEnd, memoryEnd) && !PageWithin(0, first, first + bytes);
      } else if first > 0 {
        assert first + bytes == WORDS;
      }
    } else if RoundUp(kernelEnd) > memoryEnd / PAGE_SIZE {
      assert first > 0 ==> first + bytes == WORDS + high;
    } else {
      assert bytes == high - first;
      forall k: nat | PageWithin(k, kernelEnd, memoryEnd) ensures PageWithin(k, first, first + bytes) {
        assert RoundUp(kernelEnd) <= k;
      }
    }
  }

  // ---- pmm_alloc_page and pmm_free_page on values ----

  /** The pool after pmm_alloc_page and the physical address it returns (0 is NULL). */
  function Alloc(pool: Pool): (r: (Pool, Addr))
    requires pool.Valid()
    ensures r.0.Valid()
  {
    var p := LowestFree(pool.bitmap, 0, pool.Limit());
    if p < pool.Limit() then
      var a := U32(pool.AddrOf(p));
      (pool.(bitmap := Put(pool.bitmap, p, true), warned := pool.warned || a == 0), a)
    else
      (pool.(warned := true), 0)
  }

  // The upper bound pmm_free_page tests against: it multiplies where a sum is meant.
  function WrittenBound(pool: Pool): Addr {
    U32(pool.start * U32(PAGE_SIZE * U32(pool.pageCount - 1)))
  }

  datatype FreeOutcome = Freed(pool: Pool) | NotInPool | OutOfBitmap

  function Free(pool: Pool, page: Addr): FreeOutcome
    requires pool.Valid()
  {
    var a := PageAlign(page);
    if pool.start <= a <= WrittenBound(pool) then
      var p := (a - pool.start) / PAGE_SIZE;
      if p < 32 * BITMAP_WORDS then Freed(pool.(bitmap := Put(pool.bitmap, p, false))) else OutOfBitmap
    else
      NotInPool
  }

  /** Frame bitmap refines a set: allocation returns the lowest page not taken, takes that page and no
      other, and answers NULL exactly when every page scanned is taken. */
  lemma AllocTakesLowest(pool: Pool)
    requires pool.Valid()
    ensures var (pool', a) := Alloc(pool);
            && pool'.Valid() && pool'.start == pool.start && pool'.pageCount == pool.pageCount
            && (a == 0 <==> AllTaken(pool.bitmap, pool.pageCount / 32 * 32))
            && (a == 0 ==> pool'.warned && pool'.bitmap == pool.bitmap)
            && (a != 0 ==> exists p :: && 0 <= p < pool.pageCount && a == pool.AddrOf(p)
                                       && IsLowestFree(pool.bitmap, pool.Limit(), p)
                                       && pool'.bitmap == Put(pool.bitmap, p, true)
                                       && pool'.warned == pool.warned)
  {
    var p := LowestFree(pool.bitmap, 0, pool.Limit());
    if p < pool.Limit() {
      assert U32(pool.AddrOf(p)) == pool.AddrOf(p);
      assert IsLowestFree(pool.bitmap, pool.Limit(), p);
    }
  }

  /** A page handed out was not handed out before, and everything else keeps its owner. */
  lemma AllocIsFresh(pool: Pool)
    requires pool.Valid()
    ensures var (pool', a) := Alloc(pool);
            && (a != 0 ==> a % PAGE_SIZE == 0 && !pool.Owns(a) && pool.start <= a)
            && forall b: nat :: pool'.Owns(b) <==> pool.Owns(b) || (a != 0 && b == a)
  {
    var (pool', a) := Alloc(pool);
    AllocTakesLowest(pool);
    if a != 0 {
      var p := LowestFree(pool.bitmap, 0, pool.Limit());
      forall b: nat
        ensures pool'.Owns(b) <==> pool.Owns(b) || b == a
      {
        if pool.Owns(b) {
          var q :| 0 <= q < pool.pageCount && b == pool.AddrOf(q) && Taken(pool.bitmap, q);
          assert Taken(pool'.bitmap, q);
        }
        if pool'.Owns(b) {
          var q :| 0 <= q < pool.pageCount && b == pool.AddrOf(q) && Taken(pool'.bitmap, q);
          assert q == p || Taken(pool.bitmap, q);
        }
        if b == a {
          assert Taken(pool'.bitmap, p) && a == pool'.AddrOf(p);
        }
      }
    }
  }

  lemma FreedIndex(pool: Pool, p: nat)
    requires pool.Valid() && p < pool.pageCount
    ensures var a := pool.AddrOf(p);
            a < WORDS && PageAlign(a) == a && (a - pool.start) / PAGE_SIZE == p
  {}

  /** Freeing the page just allocated gives the pool back exactly when its address passes the written
      bound; otherwise the kernel panics. */
  lemma FreeUndoesAlloc(pool: Pool)
    requires pool.Valid() && pool.HasFree()
    ensures var (pool', a) := Alloc(pool);
            (Free(pool', a) == Freed(pool) <==> a <= WrittenBound(pool))
            && (Free(pool', a) != Freed(pool) ==> Free(pool', a) == NotInPool)
  {
    var p := LowestFree(pool.bitmap, 0, pool.Limit());
    var (pool', a) := Alloc(pool);
    assert a == pool.AddrOf(p) && pool'.bitmap == Put(pool.bitmap, p, true);
    assert WrittenBound(pool') == WrittenBound(pool);
    FreedIndex(pool, p);
    PutBack(pool.bitmap, p);
  }

  /** Any address of a page frees the page: it is the page's own that is held against the bounds. */
  lemma FreeTakesWholePage(pool: Pool, page: Addr)
    requires pool.Valid()
    ensures Free(pool, page) == Free(pool, page - page % 4096)
    ensures Free(pool, page).Freed? <==>
              && pool.start <= page - page % 4096 <= WrittenBound(pool)
              && (page - page % 4096 - pool.start) / 4096 < 262144
  {
    var low := page - page % 4096;
    assert PageAlign(page) == low;
    AlignedTwice(page / 4096);
  }

  lemma AlignedTwice(q: nat)
    requires q * 4096 < WORDS
    ensures PageAlign(q * 4096) == q * 4096
  {}

  /** What the product amounts to: a multiple of 16 MiB that depends only on the product of the two page
      numbers modulo 256. */
  lemma WrittenBoundValue(pool: Pool)
    requires pool.Valid()
    ensures WrittenBound(pool) == pool.start / PAGE_SIZE * (pool.pageCount - 1) % 256 * 0x100_0000
  {
    var s, c := pool.start / PAGE_SIZE, pool.pageCount - 1;
    assert U32(PAGE_SIZE * U32(c)) == if c >= 0 then PAGE_SIZE * c else WORDS - PAGE_SIZE;
    if c >= 0 {
      ProductOfPages(s, c);
      MultipleModulo(s * c);
    } else {
      ProductOfPages(s, 0x10_0000 - 1);
      MultipleModulo(s * (0x10_0000 - 1));
      MinusOne(s);
    }
  }

  lemma MinusOne(s: nat)
    ensures s * (0x10_0000 - 1) % 256 == s * -1 % 256
  {
    assert s * (0x10_0000 - 1) == 256 * (4096 * s) + s * -1;
    Congruent(4096 * s, s * -1);
  }

  lemma Congruent(q: int, x: int)
    ensures (256 * q + x) % 256 == x % 256
  {}

  lemma ProductOfPages(s: nat, c: nat)
    ensures (s * PAGE_SIZE) * (PAGE_SIZE * c) == s * c * 0x100_0000
  {}

  lemma MultipleModulo(x: nat)
    ensures x * 0x100_0000 % WORDS == x % 256 * 0x100_0000
  {
    assert x == x / 256 * 256 + x % 256;
    assert x * 0x100_0000 == x / 256 * WORDS + x % 256 * 0x100_0000;
  }

  /** A pool that starts at a multiple of 1 MiB can never take a page back. */
  lemma MegabytePoolNeverFrees(pool: Pool, page: Addr)
    requires pool.Valid() && pool.start % 0x10_0000 == 0
    ensures Free(pool, page) == NotInPool
  {
    WrittenBoundValue(pool);
    MultipleTimes(pool.start / 0x10_0000, pool.pageCount - 1);
    assert pool.start / PAGE_SIZE == 256 * (pool.start / 0x10_0000);
  }

  lemma MultipleTimes(s: nat, c: int)
    ensures 256 * s * c % 256 == 0
  {
    assert 256 * s * c == 256 * (s * c);
  }

  // ---- the code ----

  class Pmm {
    var startingAddr: Addr
    var totalPageMemory: nat
    var pageCount: nat
    const bitmap: array<Word>
    var warned: bool

    ghost predicate Valid()
      reads this, bitmap
    {
      State().Valid()
    }

    ghost function State(): Pool
      reads this, bitmap
    {
      Pool(startingAddr, pageCount, bitmap[..], warned)
    }

    /** The zero-initialised static struct, then pmm_init_struct. */
    constructor InitStruct(kernelEnd: Addr, memoryEnd: Addr)
      ensures fresh(bitmap)
      ensures State() == Pool(FirstPage(kernelEnd), PoolBytes(kernelEnd, memoryEnd) / PAGE_SIZE,
                              seq(BITMAP_WORDS, _ => ZERO), false)
      ensures totalPageMemory == PoolBytes(kernelEnd, memoryEnd) && bitmap.Length == 8192
    {
      var firstPageAddr := PageAlign(kernelEnd);
      if firstPageAddr < kernelEnd {
        firstPageAddr := U32(firstPageAddr + PAGE_SIZE);
      }
      startingAddr := firstPageAddr;

      var lastPageAddr := PageAlign(memoryEnd);
      if U32(lastPageAddr + PAGE_SIZE) > memoryEnd {
        lastPageAddr := U32(lastPageAddr - PAGE_SIZE);
      }
      totalPageMemory := U32(U32(lastPageAddr + PAGE_SIZE) - firstPageAddr);
      pageCount := U32(U32(lastPageAddr + PAGE_SIZE) - firstPageAddr) / PAGE_SIZE;
      bitmap := new Word[BITMAP_WORDS](_ => ZERO);
      warned := false;
    }

    method AllocPage() returns (allocPageAddr: Addr)
      requires Valid()
      modifies this`warned, bitmap
      ensures Valid() && (State(), allocPageAddr) == Alloc(old(State()))
    {
      allocPageAddr := 0;
      var pageFound := false;
      var i := 0;
      ghost var was := bitmap[..];
      ghost var lowest := LowestFree(was, 0, pageCount / 32 * 32);
      while i < pageCount / 32 && !pageFound
        invariant 0 <= i <= pageCount / 32 && warned == old(warned)
        invariant !pageFound ==> bitmap[..] == was && allocPageAddr == 0 && 32 * i <= lowest
        invariant pageFound ==> lowest < pageCount / 32 * 32 && bitmap[..] == Put(was, lowest, true)
                                && allocPageAddr == U32(startingAddr + PAGE_SIZE * lowest)
      {
        var pageBitmap := bitmap[i];
        if pageBitmap == ONES {
          assert forall q | 32 * i <= q < 32 * i + 32 :: Taken(was, q);
          i := i + 1;
          continue;
        }
        var j := 0;
        while j < 32 && !pageFound
          invariant 0 <= j <= 32 && warned == old(warned)
          invariant !pageFound ==> bitmap[..] == was && allocPageAddr == 0 && 32 * i + j <= lowest
          invariant pageFound ==> lowest < pageCount / 32 * 32 && bitmap[..] == Put(was, lowest, true)
                                  && allocPageAddr == U32(startingAddr + PAGE_SIZE * lowest)
        {
          assert !pageFound;
          assert Taken(was, 32 * i + j) == pageBitmap[j];
          if !pageBitmap[j] {
            assert lowest == 32 * i + j;
            allocPageAddr := U32(startingAddr + PAGE_SIZE * (32 * i) + PAGE_SIZE * j);
            bitmap[i] := pageBitmap[j := true];
            pageFound := true;
          }
          j := j + 1;
        }
        i := i + 1;
      }
      if allocPageAddr == 0 {
        warned := true;
      }
    }

    method FreePage(page: Addr) returns (outcome: FreeOutcome)
      requires Valid()
      modifies bitmap
      ensures Valid() && outcome == Free(old(State()), page)
      ensures State() == if outcome.Freed? then outcome.pool else old(State())
    {
      var pageToClear := PageAlign(page);
      var lastPageAddr := U32(startingAddr * U32(PAGE_SIZE * U32(pageCount - 1)));
      if startingAddr <= pageToClear && pageToClear <= lastPageAddr {
        var pageIndex := (pageToClear - startingAddr) / PAGE_SIZE;
        var bitmapIndex, bitInBitmap := pageIndex / 32, pageIndex % 32;
        if bitmapIndex >= bitmap.Length {
          return OutOfBitmap;
        }
        bitmap[bitmapIndex] := bitmap[bitmapIndex][bitInBitmap := false];
        outcome := Freed(Pool(startingAddr, pageCount, bitmap[..], warned));
      } else {
        outcome := NotInPool;
      }
    }
  }
}
