/** The kernel heap, kernel/memory/kmalloc.c, working on raw words of memory. */
module KernelHeap {
  import opened Words
  import opened Wrappers
  import opened FreeList
  import opened HeapMemory
  import opened HeapRuns

  /** Every live block has its header in place and shares no byte with the free list or another live block. */
  ghost predicate SeparateIn(m: Memory, h: Heap) {
    && (forall a | a in h.live :: WellSized(h.LiveBlock(a), 8) && Read(m, a) == h.live[a])
    && (forall a | a in h.live :: 0 < a && a + HEADER < WORDS && h.LiveBlock(a).End() <= WORDS)
    && (forall a | a in h.live :: Clear(h.LiveBlock(a), h.free))
    && (forall a, b | a in h.live && b in h.live && a != b :: h.LiveBlock(a).Apart(h.LiveBlock(b)))
  }

  lemma {:induction false} BlockCovered(bs: seq<Block>, k: nat, x: nat)
    requires k < |bs| && bs[k].Has(x)
    ensures Covers(bs, x)
  {
    if k > 0 { BlockCovered(bs[1..], k - 1, x); }
  }

  lemma CutIsCovered(bs: seq<Block>, k: nat, n: nat, x: nat)
    requires k < |bs| && Splits(bs[k], n)
    ensures Cut(bs[k], n).Has(x) || x == bs[k].addr ==> Covers(bs, x)
  {
    if bs[k].Has(x) { BlockCovered(bs, k, x); }
  }

  /** Every word of the block reads as before. */
  ghost predicate SameWords(m: Memory, m': Memory, c: Block) {
    forall x: nat | c.Has(x) :: Read(m', x) == Read(m, x)
  }

  /** No wrapped request is about to store its payload pointer over a live header: that word is where the split
      block ends, and a bare header keeps no room for it. */
  predicate Spares(h: Heap, n: nat) {
    var k := FirstFit(h.free, n);
    k < |h.free| && Splits(h.free[k], n) ==>
      var end := h.free[k].End();
      n > 0 || end !in h.live || h.live[end] == end
  }

  /** A split writes to no word of a block clear of the free list, but perhaps the first. */
  lemma SplitSpares(m: Memory, bs: seq<Block>, k: nat, n: nat, c: Block)
    requires Canonical(bs) && k < |bs| && Splits(bs[k], n) && n % 8 == 0
    requires Clear(c, bs) && c.size > 0
    ensures n > 0 || c.addr != bs[k].End() || Read(m, c.addr) == c.addr ==> SameWords(m, SplitWrites(m, bs[k], n), c)
    ensures Cut(bs[k], n).Apart(c) && Clear(c, SplitAt(bs, k, n))
  {
    var b := Cut(bs[k], n);
    assert c.Has(c.addr);
    CutIsCovered(bs, k, n, c.addr);
    forall x: nat | b.Has(x) ensures !c.Has(x) { CutIsCovered(bs, k, n, x); }
    ApartByBytes(b, c);
    SplitCanonical(bs, k, n);
    BlockCovered(bs, k, bs[k].addr);
  }

  lemma CutInPlace(m: Memory, bs: seq<Block>, k: nat, n: nat)
    requires InMemory(bs) && k < |bs| && Splits(bs[k], n) && n % 8 == 0
    ensures var b := Cut(bs[k], n);
            WellSized(b, 8) && 0 < b.addr && b.End() <= WORDS && Read(SplitWrites(m, bs[k], n), b.addr) == b.size
  {
    InMemoryAt(bs, k);
    CutAligned(bs[k], n);
  }

  lemma CutAligned(b: Block, n: nat)
    requires Splits(b, n) && b.addr % 8 == 0 && b.size % 8 == 0 && n % 8 == 0
    ensures Cut(b, n).addr % 8 == 0
  {}

  /** A split that spares the live headers leaves every word of every live block alone; what it cuts off is live
      too unless its pointer is NULL. */
  lemma SplitSeparate(m: Memory, h: Heap, k: nat, n: nat)
    requires SeparateIn(m, h) && Canonical(h.free) && InMemory(h.free) && Spares(h, n)
    requires k == FirstFit(h.free, n) < |h.free| && Splits(h.free[k], n) && n % 8 == 0
    ensures var m' := SplitWrites(m, h.free[k], n);
            && SeparateIn(m', Cleaved(h, k, n)) && forall a | a in h.live :: SameWords(m, m', h.LiveBlock(a))
  {
    hide SplitWrites, Canonical, InMemory;
    var b := Cut(h.free[k], n);
    var m' := SplitWrites(m, h.free[k], n);
    SplitCanonical(h.free, k, n);
    CutInPlace(m, h.free, k, n);
    forall a | a in h.live
      ensures b.Apart(h.LiveBlock(a)) && Clear(h.LiveBlock(a), SplitAt(h.free, k, n))
      ensures SameWords(m, m', h.LiveBlock(a)) && Read(m', a) == h.live[a]
    {
      SplitSpares(m, h.free, k, n, h.LiveBlock(a));
      assert h.LiveBlock(a).Has(a);
    }
    if b.addr + HEADER < WORDS { LiveGains(h, b, m', SplitAt(h.free, k, n)); }
  }

  /** The heap after the kth block is split. */
  function Cleaved(h: Heap, k: nat, n: nat): Heap
    requires k < |h.free| && Splits(h.free[k], n)
  {
    var b := Cut(h.free[k], n);
    Heap(SplitAt(h.free, k, n), if b.addr + HEADER < WORDS then h.live[b.addr := b.size] else h.live)
  }

  /** A split leaves every live header alone exactly when it spares them. */
  lemma SplitDisturbs(m: Memory, h: Heap, k: nat, n: nat)
    requires SeparateIn(m, h) && Canonical(h.free) && InMemory(h.free)
    requires k == FirstFit(h.free, n) < |h.free| && Splits(h.free[k], n) && n % 8 == 0
    ensures (forall a | a in h.live :: Read(SplitWrites(m, h.free[k], n), a) == h.live[a]) <==> Spares(h, n)
    ensures SeparateIn(SplitWrites(m, h.free[k], n), Cleaved(h, k, n)) <==> Spares(h, n)
  {
    hide Canonical, InMemory;
    var end := h.free[k].End();
    if Spares(h, n) {
      SplitSeparate(m, h, k, n);
      forall a | a in h.live ensures Read(SplitWrites(m, h.free[k], n), a) == h.live[a] {
        assert h.LiveBlock(a).Has(a);
      }
    } else {
      assert Read(SplitWrites(m, h.free[k], n), end) == end;
      assert Cut(h.free[k], n).addr != end;
    }
  }

  /** What a split that serves a request leaves. */
  lemma SplitServes(m: Memory, head: nat, h: Heap, size: Addr)
    requires Path(m, head, h.free, 0) && InMemory(h.free) && Canonical(h.free) && size > 0
    requires var k := FirstFit(h.free, Rounded(size)); k < |h.free| && Splits(h.free[k], Rounded(size))
    ensures var (k, n) := (FirstFit(h.free, Rounded(size)), Rounded(size));
            var (m', h') := (SplitWrites(m, h.free[k], n), Cleaved(h, k, n));
            && h'.free == SplitAt(h.free, k, n) != []
            && Canonical(h'.free) && InMemory(h'.free) && Path(m', head, h'.free, 0)
            && (if Serves(h.free, n) then Step(h, Malloc(size)) == Some(h') else h'.live == h.live)
            && (SeparateIn(m, h) ==> (SeparateIn(m', h') <==> Spares(h, n)))
  {
    hide SplitWrites, SeparateIn, Spares, Canonical, InMemory;
    var (k, n) := (FirstFit(h.free, Rounded(size)), Rounded(size));
    RoundedHolds(size);
    SplitPath(m, head, h.free, k, n);
    SplitCanonical(h.free, k, n);
    if SeparateIn(m, h) { SplitDisturbs(m, h, k, n); }
  }

  lemma LiveGains(h: Heap, b: Block, m': Memory, free': seq<Block>)
    requires forall a | a in h.live :: WellSized(h.LiveBlock(a), 8) && Read(m', a) == h.live[a]
    requires forall a | a in h.live :: 0 < a && a + HEADER < WORDS && h.LiveBlock(a).End() <= WORDS
    requires forall a | a in h.live :: Clear(h.LiveBlock(a), free')
    requires forall a, b | a in h.live && b in h.live && a != b :: h.LiveBlock(a).Apart(h.LiveBlock(b))
    requires forall a | a in h.live :: b.Apart(h.LiveBlock(a))
    requires WellSized(b, 8) && 0 < b.addr && b.addr + HEADER < WORDS && b.End() <= WORDS
    requires Read(m', b.addr) == b.size && Clear(b, free')
    ensures SeparateIn(m', Heap(free', h.live[b.addr := b.size]))
  {
    var h' := Heap(free', h.live[b.addr := b.size]);
    assert forall a | a in h'.live :: h'.LiveBlock(a) == if a == b.addr then b else h.LiveBlock(a);
  }

  lemma FreeSpares(m: Memory, m': Memory, h: Heap, b: Block)
    requires SeparateIn(m, h) && b.addr in h.live && b == h.LiveBlock(b.addr) && Canonical(h.free)
    requires forall a: nat | !Covers(h.free, a) && !b.Has(a) :: Read(m', a) == Read(m, a)
    ensures SeparateIn(m', Heap(Release(h.free, b), h.live - {b.addr}))
  {
    var h' := Heap(Release(h.free, b), h.live - {b.addr});
    ReleaseCanonical(h.free, b);
    forall a | a in h'.live ensures Read(m', a) == h'.live[a] && Clear(h'.LiveBlock(a), h'.free) {
      assert h.LiveBlock(a).Apart(b) && h.LiveBlock(a).Has(a);
      assert Clear(h.LiveBlock(a), h.free);
    }
    assert forall a | a in h'.live :: h'.LiveBlock(a) == h.LiveBlock(a);
  }

  /** A block kfree can be given: in memory, and either clear of the free list or still on it. */
  ghost predicate Freeable(m: Memory, bs: seq<Block>, b: Block) {
    && 0 < b.addr && b.addr % 8 == 0 && HEADER <= b.size && b.size % 8 == 0 && b.End() <= WORDS
    && Read(m, b.addr) == b.size && (Clear(b, bs) || AlreadyFree(bs, b.addr))
  }

  /** The list after kfree's writes. */
  lemma FreeListAfter(m: Memory, head: nat, bs: seq<Block>, b: Block)
    requires Path(m, head, bs, 0) && InMemory(bs) && Canonical(bs) && bs != [] && Freeable(m, bs, b)
    ensures var (m', r) := (FreeWrites(m, bs, b.addr), AfterFree(bs, b));
            && Canonical(r) && InMemory(r) && r != []
            && Path(m', if Neighbours(bs, b.addr).0 == 0 then b.addr else head, r, 0)
  {
    if Clear(b, bs) {
      FreePath(m, head, bs, b);
      ReleaseCanonical(bs, b);
      if Place(bs, b.addr) > 0 { InMemoryAt(bs, Place(bs, b.addr) - 1); }
    } else {
      assert [b][1..] == [];
    }
  }

  /** The live blocks after kfree's writes, every word as before. */
  lemma FreeKeepsSeparate(m: Memory, h: Heap, b: Block)
    requires InMemory(h.free) && Canonical(h.free) && SeparateIn(m, h)
    requires b.addr in h.live && b == h.LiveBlock(b.addr)
    ensures !AlreadyFree(h.free, b.addr)
    ensures SeparateIn(FreeWrites(m, h.free, b.addr), Heap(Release(h.free, b), h.live - {b.addr}))
    ensures forall a | a in h.live && a != b.addr :: SameWords(m, FreeWrites(m, h.free, b.addr), h.LiveBlock(a))
  {
    NotAlreadyFree(m, h.free, b);
    forall a: nat | !Covers(h.free, a) && !b.Has(a)
      ensures Read(FreeWrites(m, h.free, b.addr), a) == Read(m, a)
    {
      FreeWritesFrame(m, h.free, b, a);
    }
    FreeSpares(m, FreeWrites(m, h.free, b.addr), h, b);
    forall a, x: nat | a in h.live && a != b.addr && h.LiveBlock(a).Has(x)
      ensures Read(FreeWrites(m, h.free, b.addr), x) == Read(m, x)
    {
      assert Clear(h.LiveBlock(a), h.free) && h.LiveBlock(a).Apart(b);
    }
  }

  /** FreeTail is what linking and then merging to the right does to block_list_tail. */
  lemma FreeTailSteps(bs: seq<Block>, b: Block, tail: nat)
    requires InMemory(bs)
    ensures Neighbours(bs, b.addr).0 % 8 == 0
    ensures FreeTail(bs, b, tail) % 8 == 0 || b.addr % 8 != 0 || tail % 8 != 0
    ensures var (prev, next) := Neighbours(bs, b.addr);
            var t := if prev != 0 && next == 0 then b.addr else tail;
            FreeTail(bs, b, tail) == if next != 0 && next == b.End() && t == next then b.addr else t
  {
    var k := Place(bs, b.addr);
    if k < |bs| { InMemoryAt(bs, k); }
    if k > 0 { InMemoryAt(bs, k - 1); }
  }

  lemma {:induction false} ListedBlock(m: Memory, p: nat, bs: seq<Block>, k: nat)
    requires Path(m, p, bs, 0) && k < |bs|
    ensures Read(m, bs[k].addr) == bs[k].size && bs[k].addr != 0
    decreases k
  {
    if k > 0 { ListedBlock(m, Read(m, p + LINK), bs[1..], k - 1); }
  }

  // ---- where kmalloc and kfree depart from their intent ----

  /** What kmalloc does for n bytes when some block fits: the pointer it returns, which for a block that cannot be
      split is the word stored in it, and the memory and the list it leaves. */
  function Grant(m: Memory, bs: seq<Block>, n: nat): (nat, Memory, seq<Block>)
    requires FirstFit(bs, n) < |bs|
  {
    var k := FirstFit(bs, n);
    if Splits(bs[k], n) then (Cut(bs[k], n).addr + HEADER, SplitWrites(m, bs[k], n), SplitAt(bs, k, n))
    else (Read(m, bs[k].addr + FREE_MEMORY), m, bs)
  }

  /** What it does when perhaps no block fits: it goes on to fetch a page. */
  function Served(m: Memory, bs: seq<Block>, n: nat): (nat, Memory, seq<Block>) {
    if FirstFit(bs, n) == |bs| then (0, m, bs) else Grant(m, bs, n)
  }

  /** The pointer is past the header of a block whose bytes have been taken out of the list. */
  ghost predicate TakenOut(b: Block, ptr: nat, bs: seq<Block>, bs': seq<Block>) {
    && b.size > 0 && b.addr + HEADER == ptr && Clear(b, bs')
    && forall x: nat :: Covers(bs, x) <==> Covers(bs', x) || b.Has(x)
  }

  /** What kmalloc hands out has left the free list exactly when the first block that fits has 32 bytes more than
      the header and the request. */
  lemma GrantIsOffTheList(m: Memory, bs: seq<Block>, n: nat)
    requires Canonical(bs) && FirstFit(bs, n) < |bs|
    ensures var (ptr, m', bs') := Grant(m, bs, n);
            (exists b: Block :: TakenOut(b, ptr, bs, bs')) <==> bs[FirstFit(bs, n)].size >= n + 40
  {
    var k := FirstFit(bs, n);
    var (ptr, m', bs') := Grant(m, bs, n);
    if Splits(bs[k], n) {
      SplitCanonical(bs, k, n);
      assert TakenOut(Cut(bs[k], n), ptr, bs, bs');
    } else {
      forall b: Block ensures !TakenOut(b, ptr, bs, bs') {
        assert b.size > 0 ==> b.Has(b.addr);
      }
    }
  }

  /** kmalloc in numbers, for every request. With r the only multiple of 8 from size to size + 7, or 0 for the last
      seven sizes, it goes to the first block of at least r + 8 bytes. That block loses its last r + 8 bytes if it has
      at least r + 40, and they are what is handed out; else nothing leaves the list and the pointer is the block's
      third word. */
  lemma GrantInNumbers(m: Memory, bs: seq<Block>, size: Addr, r: nat, k: nat)
    requires Canonical(bs) && size > 0
    requires r % 8 == 0 && if size <= 0xFFFF_FFF8 then size <= r < size + 8 else r == 0
    requires k < |bs| && bs[k].size >= r + 8 && forall i | 0 <= i < k :: bs[i].size < r + 8
    ensures var (ptr, m', bs') := Served(m, bs, Rounded(size));
            var a := bs[k].End() - (r + 8);
            && ((exists b: Block :: TakenOut(b, ptr, bs, bs')) <==> bs[k].size >= r + 40)
            && (if bs[k].size >= r + 40 then
                  && ptr == a + 8 && TakenOut(Block(a, r + 8), ptr, bs, bs')
                  && bs' == bs[k := Block(bs[k].addr, bs[k].size - (r + 8))]
                  && Read(m', a) == r + 8 && Read(m', a + 8) == a + 8
                  && Read(m', bs[k].addr) == bs[k].size - (r + 8)
                else ptr == Read(m, bs[k].addr + 8) && m' == m && bs' == bs)
  {
    hide Canonical, Covers, TakenOut;
    RoundsTo(size, r);
    FirstFitIs(bs, r, k);
    GrantIsOffTheList(m, bs, r);
    assert Served(m, bs, r) == Grant(m, bs, r);
    if bs[k].size >= r + 40 {
      CutTakenOut(bs, k, r);
      SplitWords(m, bs[k], r);
      assert Grant(m, bs, r) == (Cut(bs[k], r).addr + 8, SplitWrites(m, bs[k], r), SplitAt(bs, k, r));
    }
  }

  lemma SplitWords(m: Memory, b: Block, n: nat)
    requires b.size >= n + 40
    ensures Splits(b, n)
    ensures var (m', a) := (SplitWrites(m, b, n), b.End() - (n + 8));
            Read(m', a) == n + 8 && Read(m', a + 8) == a + 8 && Read(m', b.addr) == b.size - (n + 8)
  {}

  lemma CutTakenOut(bs: seq<Block>, k: nat, n: nat)
    requires Canonical(bs) && k < |bs| && bs[k].size >= n + 40
    ensures Splits(bs[k], n) && Cut(bs[k], n) == Block(bs[k].End() - (n + 8), n + 8)
    ensures TakenOut(Cut(bs[k], n), Cut(bs[k], n).addr + 8, bs, SplitAt(bs, k, n))
  {
    SplitCanonical(bs, k, n);
  }

  lemma RoundsTo(size: Addr, r: nat)
    requires size > 0 && r % 8 == 0 && if size <= 0xFFFF_FFF8 then size <= r < size + 8 else r == 0
    ensures Rounded(size) == r
  {}

  /** With no block of r + 8 bytes it does nothing before it fetches a page. */
  lemma NoGrantInNumbers(m: Memory, bs: seq<Block>, size: Addr, r: nat)
    requires size > 0 && r % 8 == 0 && if size <= 0xFFFF_FFF8 then size <= r < size + 8 else r == 0
    requires forall i | 0 <= i < |bs| :: bs[i].size < r + 8
    ensures Served(m, bs, Rounded(size)) == (0, m, bs)
  {
    RoundsTo(size, r);
    assert FirstFit(bs, r) == |bs|;
  }

  lemma FirstFitIs(bs: seq<Block>, n: nat, k: nat)
    requires k < |bs| && bs[k].size >= n + 8 && forall i | 0 <= i < k :: bs[i].size < n + 8
    ensures FirstFit(bs, n) == k
  {
    assert Fits(bs[k], n) && !(FirstFit(bs, n) < k);
  }

  /** An unsplit grant changes nothing, so the next request of that size gets the same pointer; after a split it
      gets another one, unless it is itself unsplit and its stored word was overwritten. */
  lemma GrantedTwice(m: Memory, bs: seq<Block>, n: nat)
    requires Canonical(bs) && FirstFit(bs, n) < |bs|
    ensures var (ptr, m', bs') := Grant(m, bs, n);
            var (k, j) := (FirstFit(bs, n), FirstFit(bs', n));
            && (!Splits(bs[k], n) ==> j < |bs'| && Grant(m', bs', n).0 == ptr)
            && (Splits(bs[k], n) && j < |bs'| && (Splits(bs'[j], n) || StoredIntact(m', bs'[j])) ==>
                  Grant(m', bs', n).0 != ptr)
  {
    hide SplitWrites, Canonical;
    var k := FirstFit(bs, n);
    if Splits(bs[k], n) {
      var (ptr, m', bs') := Grant(m, bs, n);
      SplitCanonical(bs, k, n);
      if FirstFit(bs', n) < |bs'| {
        var j := FirstFit(bs', n);
        var c := if Splits(bs'[j], n) then Cut(bs'[j], n) else bs'[j];
        assert bs'[j].Has(c.addr);
        BlockCovered(bs', j, c.addr);
        assert Cut(bs[k], n).Has(Cut(bs[k], n).addr);
      }
    }
  }

  /** A block's stored word points past its header, as kmalloc_init and kmalloc leave it. */
  predicate StoredIntact(m: Memory, b: Block) { Read(m, b.addr + FREE_MEMORY) == b.addr + HEADER }

  /** kfree does not restore the stored word: it is the first payload word, so a block that is freed and then
      handed out unsplit comes back under whatever pointer its last owner left there. */
  lemma StoredWordIsPayload(m: Memory, bs: seq<Block>, b: Block, n: nat)
    requires InMemory(bs) && Canonical(bs) && Clear(b, bs) && b.addr % 8 == 0 && b.size > HEADER
    ensures var (m', r) := (FreeWrites(m, bs, b.addr), Release(bs, b)); var k := FirstFit(r, n);
            k < |r| && r[k].addr == b.addr && !Splits(r[k], n) ==>
              (Grant(m', r, n).0 == b.addr + HEADER <==> StoredIntact(m, b))
  {
    var word := b.addr + FREE_MEMORY;
    assert b.Has(b.addr) && b.Has(word);
    var i := Place(bs, b.addr);
    if i > 0 {
      ListedIsCovered(bs, i - 1);
      HeaderWordCovered(bs, bs[i - 1].addr + LINK);
    }
    assert Read(FreeWrites(m, bs, b.addr), word) == Read(m, word);
  }

  /** The free list after kfree covers what it did and the freed block. */
  ghost predicate KeepsBytes(bs: seq<Block>, b: Block) {
    forall x: nat :: Covers(AfterFree(bs, b), x) <==> Covers(bs, x) || b.Has(x)
  }

  lemma ListedIsAlreadyFree(bs: seq<Block>, k: nat)
    requires Canonical(bs) && k < |bs|
    ensures AlreadyFree(bs, bs[k].addr) && bs[k].size > 0
    ensures forall x: nat | bs[k].Has(x) :: Covers(bs, x)
  {
    CanonicalAt(bs, k);
    PlaceIndex(bs, bs[k].addr, k);
    if k > 0 {
      AscendingAt(bs, k - 1);
      PlaceIndex(bs, bs[k].addr, k - 1);
    }
    forall x: nat | bs[k].Has(x) ensures Covers(bs, x) { BlockCovered(bs, k, x); }
  }

  /** kfree loses no free bytes exactly when the block is clear of the list, or is all of it. */
  lemma FreeKeepsBytes(bs: seq<Block>, b: Block)
    requires Canonical(bs) && InMemory(bs) && b.size > 0
    requires Clear(b, bs) || exists k :: 0 <= k < |bs| && b == bs[k]
    ensures KeepsBytes(bs, b) <==> Clear(b, bs) || bs == [b]
  {
    if Clear(b, bs) {
      FreeOfClear(bs, b);
    } else {
      var k :| 0 <= k < |bs| && b == bs[k];
      ListedIsAlreadyFree(bs, k);
      assert AfterFree(bs, b) == [b] && [b][1..] == [];
      if KeepsBytes(bs, b) {
        CanonicalUnique([b], bs);
      }
    }
  }

  lemma FreeOfClear(bs: seq<Block>, b: Block)
    requires Canonical(bs) && InMemory(bs) && b.size > 0 && Clear(b, bs)
    ensures KeepsBytes(bs, b)
  {
    assert b.Has(b.addr);
    if Place(bs, b.addr) < |bs| { ListedIsCovered(bs, Place(bs, b.addr)); }
    ReleaseCanonical(bs, b);
  }

  lemma {:induction false} CanonicalAt(bs: seq<Block>, k: nat)
    requires Canonical(bs) && k < |bs|
    ensures bs[k].size > 0
  {
    if k > 0 { CanonicalAt(bs[1..], k - 1); }
  }

  lemma {:induction false} AscendingAt(bs: seq<Block>, k: nat)
    requires Canonical(bs) && k + 1 < |bs|
    ensures bs[k].addr < bs[k + 1].addr
  {
    if k > 0 { AscendingAt(bs[1..], k - 1); }
  }

  /** A page that lies beyond the list without touching it. */
  ghost predicate BeyondList(bs: seq<Block>, tail: nat, page: nat) {
    && 0 < page && page % PAGE_SIZE == 0 && page + PAGE_SIZE <= WORDS
    && tail < page && forall x: nat | Covers(bs, x) :: x + 1 < page
  }

  /** What kmalloc_init writes: the arena's size, no next block, and its stored word. */
  function InitWords(arena: nat): Memory {
    map[arena := ARENA, arena + LINK := 0, arena + FREE_MEMORY := arena + HEADER]
  }

  /** The words of a page that has joined, and the link to it. */
  lemma AppendedWords(m: Memory, tail: nat, page: nat)
    requires page % 8 == 0 && tail % 8 == 0
    ensures var m' := AppendWrites(m, tail, page);
            Read(m', page) == 4096 && Read(m', page + 8) == page + 8 && Read(m', tail + 4) == page
            && (page != tail ==> Read(m', page + 4) == 0)
  {}

  class Kmalloc {
    var memory: Memory
    var blockListHead: nat
    var blockListTail: nat

    // What the words amount to: the free list, and the blocks handed out by splitting.
    ghost var free: seq<Block>
    ghost var live: map<nat, nat>

    ghost function State(): Heap
      reads this
    {
      Heap(free, live)
    }

    /** The linked list in memory is the canonical list `free`. */
    ghost predicate Valid()
      reads this
    {
      && free != [] && Canonical(free) && InMemory(free)
      && Path(memory, blockListHead, free, 0)
      && blockListTail % 8 == 0
    }

    ghost predicate Separate()
      reads this
    {
      SeparateIn(memory, State())
    }

    /** What kfree needs of a pointer: it points past a header that is apart from the free list or on it. */
    ghost predicate Releasable(ptr: nat)
      reads this
    {
      HEADER < ptr && Freeable(memory, free, Block(ptr - HEADER, Read(memory, ptr - HEADER)))
    }

    /** kmalloc_init. */
    constructor (arena: nat)
      requires 0 < arena && arena % PAGE_SIZE == 0 && arena + ARENA <= WORDS
      ensures Valid() && Separate() && State() == Initial(arena) && blockListTail == Last(free)
      ensures memory == InitWords(arena) && blockListHead == arena
      ensures Read(memory, arena) == 4096 && Read(memory, arena + 4) == 0 && Read(memory, arena + 8) == arena + 8
    {
      memory := map[arena := ARENA, arena + LINK := 0, arena + FREE_MEMORY := arena + HEADER];
      blockListHead := arena;
      blockListTail := arena;
      free := [Block(arena, ARENA)];
      live := map[];
      new;
      assert free[1..] == [];
    }

    /** kmalloc_split_block. */
    method SplitBlock(block: nat, allocSize: nat) returns (freeMemory: nat)
      requires Splits(Block(block, Read(memory, block)), allocSize)
      modifies this`memory
      ensures var b := Block(block, old(Read(memory, block)));
              freeMemory == Cut(b, allocSize).addr + HEADER && memory == SplitWrites(old(memory), b, allocSize)
    {
      ghost var size := Read(memory, block);
      var newBlock := block + Read(memory, block) - (allocSize + HEADER);
      memory := memory[newBlock := allocSize + HEADER];
      memory := memory[newBlock + LINK := 0];
      memory := memory[newBlock + FREE_MEMORY := HEADER + newBlock];
      assert Read(memory, block) == size;
      memory := memory[block := Read(memory, block) - Read(memory, newBlock)];
      freeMemory := Read(memory, newBlock + FREE_MEMORY);
    }

    /** kmalloc's walk over the free list: the first block with enough room, 0 for NULL. */
    method FindFit(allocSize: nat) returns (block: nat, ghost i: nat)
      requires Valid()
      ensures i == FirstFit(free, allocSize) && block == After(free, i, 0)
    {
      block, i := blockListHead, 0;
      assert free[0..] == free;
      while block != 0
        invariant i <= |free|
        invariant Path(memory, block, free[i..], 0) && InMemory(free[i..])
        invariant FirstFit(free, allocSize) == i + FirstFit(free[i..], allocSize)
        decreases |free| - i
      {
        assert free[i..] != [] && free[i..][1..] == free[i + 1..];
        var freeMemInBlock := Read(memory, block) - HEADER;
        if allocSize <= freeMemInBlock {
          break;
        }
        block := Read(memory, block + LINK);
        i := i + 1;
      }
    }

    /** The part of kmalloc up to the page request: 0 when no block fits. A block that fits but cannot be split
        is handed out without being unlinked, through its free_memory word. */
    method FitBlock(size: Addr) returns (allocPtr: nat)
      requires Valid() && size > 0
      modifies this`memory, this`free, this`live
      ensures Valid() && (allocPtr, memory, free) == Served(old(memory), old(free), Rounded(size))
      ensures if Serves(old(free), Rounded(size)) then HeapRuns.Step(old(State()), Malloc(size)) == Some(State())
              else live == old(live)
      ensures old(Separate()) ==> (Separate() <==> old(Spares(State(), Rounded(size))))
    {
      hide SplitWrites, SeparateIn, Canonical, InMemory, Path, FirstFit, Cleaved;
      allocPtr := 0;
      var allocSize := Rounded(size);
      RoundedHolds(size);
      var block, i := FindFit(allocSize);
      if block != 0 {
        ListedBlock(memory, blockListHead, free, i);
        var memLeftOver := Read(memory, block) - HEADER - allocSize;
        if memLeftOver >= SMALLEST {
          SplitServes(memory, blockListHead, State(), size);
          ghost var h := Cleaved(State(), i, allocSize);
          allocPtr := SplitBlock(block, allocSize);
          free, live := h.free, h.live;
        } else {
          allocPtr := Read(memory, block + FREE_MEMORY);
        }
      } else if i < |free| {
        InMemoryAt(free, i);
      }
    }

    ghost predicate Beyond(page: nat)
      reads this
    {
      BeyondList(free, blockListTail, page)
    }

    /** The rest of kmalloc, with the page vmm_alloc_page returned: it is linked after block_list_tail, which
        does not move. */
    method AppendPage(page: nat)
      requires Valid()
      modifies this`memory, this`free
      ensures memory == AppendWrites(old(memory), blockListTail, page)
      ensures page % 8 == 0 ==> Read(memory, page) == 4096 && Read(memory, page + 8) == page + 8
      ensures page > 0 && page % 8 == 0 && page != blockListTail && Clear(Block(page, PAGE_SIZE), old(free)) ==>
                Path(memory, blockListHead, AppendAt(old(free), blockListTail, page), 0)
      ensures old(Beyond(page)) ==> Valid() && free == AppendAt(old(free), blockListTail, page)
    {
      if page > 0 && page % 8 == 0 && page != blockListTail && Clear(Block(page, PAGE_SIZE), free) {
        AppendPath(memory, blockListHead, free, blockListTail, page);
      }
      if page % 8 == 0 { AppendedWords(memory, blockListTail, page); }
      if Beyond(page) {
        PageInMemory(page);
        AppendCanonical(free, blockListTail, page);
        free := AppendAt(free, blockListTail, page);
      }
      memory := memory[page := PAGE_SIZE];
      memory := memory[page + FREE_MEMORY := page + HEADER];
      memory := memory[page + LINK := 0];
      memory := memory[blockListTail + LINK := page];
    }

    /** A client writes a word of a block it holds: neither the list nor any other block notices. */
    method StoreWord(a: nat, w: nat, ghost owner: nat)
      requires Valid() && Separate()
      requires owner in live && owner + HEADER <= a < owner + live[owner]
      modifies this`memory
      ensures Valid() && Separate() && memory == old(memory)[a := w]
    {
      assert State().LiveBlock(owner).Has(a);
      forall x | IsHeaderWord(free, x) ensures x != a { HeaderWordCovered(free, x); }
      PathFrame(memory, memory[a := w], blockListHead, free, 0);
      forall c | c in live ensures c != a {
        assert State().LiveBlock(c).Has(c);
      }
      memory := memory[a := w];
    }

    /** kmalloc_coalesce; 0 stands for NULL. */
    method Coalesce(prevBlock: nat, newBlock: nat, nextBlock: nat)
      modifies this`memory, this`blockListTail
      ensures memory == CoalesceWrites(old(memory), prevBlock, newBlock, nextBlock)
      ensures blockListTail == if nextBlock != 0 && nextBlock == newBlock + Read(old(memory), newBlock)
                                     && old(blockListTail) == nextBlock then newBlock else old(blockListTail)
    {
      if nextBlock != 0 {
        if nextBlock == newBlock + Read(memory, newBlock) {
          memory := memory[newBlock + LINK := Read(memory, nextBlock + LINK)];
          memory := memory[newBlock := Read(memory, newBlock) + Read(memory, nextBlock)];
          if blockListTail == nextBlock {
            blockListTail := newBlock;
          }
        }
      }
      if prevBlock != 0 {
        if newBlock == prevBlock + Read(memory, prevBlock) {
          memory := memory[prevBlock + LINK := Read(memory, newBlock + LINK)];
          memory := memory[prevBlock := Read(memory, prevBlock) + Read(memory, newBlock)];
        }
      }
    }

    /** The part of kfree that looks for the blocks on either side, 0 standing for NULL. */
    method FindNeighbours(newBlock: nat) returns (prevBlock: nat, nextBlock: nat)
      requires Valid()
      ensures (prevBlock, nextBlock) == Neighbours(free, newBlock)
    {
      prevBlock, nextBlock := 0, 0;
      PlaceIndex(free, newBlock, 0);
      InMemoryAt(free, 0);
      if newBlock < blockListHead {
        nextBlock := blockListHead;
      } else {
        var block: nat := blockListHead;
        ghost var i: nat := 0;
        assert free[0..] == free;
        while block != 0
          invariant i <= |free| && Path(memory, block, free[i..], 0)
          invariant AlreadyFree(free, newBlock) || i < Place(free, newBlock)
          invariant prevBlock == 0 && nextBlock == 0
          decreases |free| - i
        {
          assert free[i..] != [] && free[i..][1..] == free[i + 1..];
          PlaceIndex(free, newBlock, i);
          if i + 1 < |free| {
            PlaceIndex(free, newBlock, i + 1);
            InMemoryAt(free, i + 1);
          }
          assert Read(memory, block + LINK) == After(free, i + 1, 0);
          if block < newBlock && (Read(memory, block + LINK) > newBlock || Read(memory, block + LINK) == 0) {
            prevBlock := block;
            nextBlock := Read(memory, prevBlock + LINK);
            return;
          }
          block := Read(memory, block + LINK);
          i := i + 1;
        }
      }
    }

    /** The part of kfree that puts the block between its neighbours. */
    method Link(prevBlock: nat, newBlock: nat, nextBlock: nat)
      modifies this`memory, this`blockListHead, this`blockListTail
      ensures memory == LinkWrites(old(memory), prevBlock, newBlock, nextBlock)
      ensures blockListHead == if prevBlock == 0 then newBlock else old(blockListHead)
      ensures blockListTail == if prevBlock != 0 && nextBlock == 0 then newBlock else old(blockListTail)
    {
      if prevBlock == 0 {
        memory := memory[newBlock + LINK := nextBlock];
        blockListHead := newBlock;
      } else if nextBlock == 0 {
        memory := memory[prevBlock + LINK := newBlock];
        memory := memory[newBlock + LINK := 0];
        blockListTail := newBlock;
      } else {
        memory := memory[prevBlock + LINK := newBlock];
        memory := memory[newBlock + LINK := nextBlock];
      }
    }

    /** kfree, for a block that is clear of the free list or, after kmalloc handed it out unsplit, still on it. */
    method Kfree(ptr: nat)
      requires Valid() && (ptr != 0 ==> Releasable(ptr))
      modifies this
      ensures Valid()
      ensures ptr == 0 ==> memory == old(memory) && State() == old(State()) && blockListTail == old(blockListTail)
      ensures ptr != 0 ==>
                var b := Block(ptr - HEADER, old(Read(memory, ptr - HEADER)));
                && State() == Heap(AfterFree(old(free), b), old(live) - {b.addr})
                && memory == FreeWrites(old(memory), old(free), b.addr)
                && blockListTail == FreeTail(old(free), b, old(blockListTail))
      ensures old(Separate()) && (ptr == 0 || ptr - HEADER in old(live)) ==>
                Separate() && HeapRuns.Step(old(State()), Free(ptr)) == Some(State())
    {
      if ptr == 0 {
        return;
      }
      ghost var m, h := memory, State();
      FreeBlock(ptr);
      live := live - {ptr - HEADER};
      if SeparateIn(m, h) && ptr - HEADER in h.live {
        FreeKeepsSeparate(m, h, Block(ptr - HEADER, Read(m, ptr - HEADER)));
      }
    }

    /** kfree after its NULL test. */
    method FreeBlock(ptr: nat)
      requires Valid() && Releasable(ptr)
      modifies this`memory, this`blockListHead, this`blockListTail, this`free
      ensures Valid()
      ensures var b := Block(ptr - HEADER, old(Read(memory, ptr - HEADER)));
              && free == AfterFree(old(free), b)
              && memory == FreeWrites(old(memory), old(free), b.addr)
              && blockListTail == FreeTail(old(free), b, old(blockListTail))
    {
      var newBlock: nat := ptr - HEADER;
      ghost var b := Block(newBlock, Read(memory, newBlock));
      var prevBlock, nextBlock := FindNeighbours(newBlock);
      FreeListAfter(memory, blockListHead, free, b);
      FreeTailSteps(free, b, blockListTail);
      Link(prevBlock, newBlock, nextBlock);
      assert Read(memory, newBlock) == b.size;
      Coalesce(prevBlock, newBlock, nextBlock);
      free := AfterFree(free, b);
    }
  }
}
