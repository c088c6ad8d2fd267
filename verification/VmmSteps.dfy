/** One call of vmm_alloc_page or vmm_free_page keeps the invariant of the virtual page allocator. */
module VmmSteps {
  import opened Words
  import opened Wrappers
  import opened PhysicalMemory
  import opened Paging
  import opened FreeList
  import opened Vmm
  import opened VmmInvariant

  // ---- counting pages ----

  /** How many of the first n pages are taken. */
  function Count(bitmap: seq<Word>, n: nat): (c: nat)
    requires n <= 32 * |bitmap|
    ensures c <= n
  {
    if n == 0 then 0 else Count(bitmap, n - 1) + if Taken(bitmap, n - 1) then 1 else 0
  }

  lemma {:induction false} CountPut(bitmap: seq<Word>, p: nat, bit: bool, n: nat)
    requires n <= 32 * |bitmap| && p < 32 * |bitmap|
    ensures Count(Put(bitmap, p, bit), n) == Count(bitmap, n)
            + if p < n && Taken(bitmap, p) != bit then if bit then 1 else -1 else 0
  {
    if n > 0 { CountPut(bitmap, p, bit, n - 1); }
  }

  /** The count is full exactly when the scan finds nothing. */
  lemma {:induction false} CountFull(bitmap: seq<Word>, n: nat)
    requires n <= 32 * |bitmap|
    ensures Count(bitmap, n) == n <==> AllTaken(bitmap, n)
  {
    if n > 0 {
      CountFull(bitmap, n - 1);
      if AllTaken(bitmap, n) { assert Taken(bitmap, n - 1); }
    }
  }

  /** How many pages of a block are taken. */
  function Pages(bitmap: Bitmap): (c: nat)
    ensures c <= PAGE_TABLE_INDICES
  {
    Count(bitmap, 32 * |bitmap|)
  }

  // ---- the block list ----

  /** No page at or above the mark is taken, and free_pages promises no more than there is. */
  ghost predicate DescOk(d: Desc) {
    && d.highWaterMark <= PAGE_TABLE_INDICES
    && (forall p | d.highWaterMark <= p < PAGE_TABLE_INDICES :: !Taken(d.bitmap, p))
    && d.freePages + Pages(d.bitmap) <= PAGE_TABLE_INDICES
  }

  /** Blocks lie one behind the other, and exactly the last one is below the threshold. */
  ghost predicate BlocksOk(blocks: seq<Desc>) {
    && blocks != []
    && (forall i | 0 <= i < |blocks| :: DescOk(blocks[i]) && blocks[i].firstPage == PageVa(i, 0))
    && (forall i | 0 <= i < |blocks| :: blocks[i].highWaterMark < HIGH_WATER_THRESHOLD <==> i == |blocks| - 1)
  }

  function Marks(blocks: seq<Desc>): (marks: seq<nat>)
    ensures |marks| == |blocks| && forall i | 0 <= i < |blocks| :: marks[i] == blocks[i].highWaterMark
  {
    seq(|blocks|, i requires 0 <= i < |blocks| => blocks[i].highWaterMark)
  }

  /** The descriptors and the directory pointer hold the right virtual addresses. */
  ghost predicate PointersOk(vm: Vm)
    requires |vm.blocks| <= MAX_BLOCKS
  {
    && vm.directory == PageVa(0, vm.cr3)
    && forall i | 0 <= i < |vm.blocks| :: vm.blocks[i].pageTable == TableVa(vm.ram, vm.cr3, i)
  }

  /** Holds between calls, in every reachable state. */
  ghost predicate VmOk(vm: Vm, owners: Owners) {
    && !vm.growing && |vm.blocks| <= MAX_BLOCKS
    && BlocksOk(vm.blocks) && PointersOk(vm)
    && TablesOk(vm.ram, vm.cr3, Marks(vm.blocks), owners)
    && FromPool(vm.pool, owners)
  }

  /** While free_pages is not zero the scan succeeds: the not-found branch is never taken. */
  lemma FreePagesScan(d: Desc)
    requires DescOk(d) && d.freePages > 0
    ensures Scan(d.bitmap) < PAGE_TABLE_INDICES
  {
    CountFull(d.bitmap, 32 * VMM_BITMAP_SIZE);
  }

  /** Taking the lowest page raises the mark by at most one. */
  lemma TakeOk(d: Desc)
    requires DescOk(d) && d.freePages > 0
    ensures var p := Scan(d.bitmap);
            && p < PAGE_TABLE_INDICES && p <= d.highWaterMark
            && DescOk(Take(d, p))
            && Take(d, p).highWaterMark == if p == d.highWaterMark then p + 1 else d.highWaterMark
  {
    FreePagesScan(d);
    var p := Scan(d.bitmap);
    CountPut(d.bitmap, p, true, 32 * VMM_BITMAP_SIZE);
    assert d.highWaterMark < PAGE_TABLE_INDICES ==> !Taken(d.bitmap, d.highWaterMark);
  }

  // ---- frames from the pool ----

  /** The next frame lies above every frame in use. */
  lemma PoolRises(pool: LivePool, owners: Owners)
    requires FromPool(pool, owners) && !Alloc(pool).0.warned
    ensures var f := FrameOf(Alloc(pool).1);
            && Alloc(pool).1 == f * PAGE_SIZE && pool.start / PAGE_SIZE <= f
            && forall g | g in owners :: g < f
    ensures Compact(Alloc(pool).0) && Alloc(pool).0.start == pool.start && !pool.warned
  {
    var (pool', a) := Alloc(pool);
    AllocTakesLowest(pool);
    var p := LowestFree(pool.bitmap, 0, pool.Limit());
    assert a == pool.AddrOf(p);
    forall g | g in owners ensures g * PAGE_SIZE < a {
      assert pool.Owns(g * PAGE_SIZE);
      var q :| && 0 <= q < pool.pageCount && q < 32 * |pool.bitmap|
               && g * PAGE_SIZE == pool.AddrOf(q) && Taken(pool.bitmap, q);
    }
    var low := LowestFree(pool'.bitmap, 0, pool'.Limit());
    assert forall q | 0 <= q <= p :: Taken(pool'.bitmap, q);
    assert low > p;
  }

  lemma PoolStep(pool: LivePool, owners: Owners, o: Owner)
    requires FromPool(pool, owners) && !Alloc(pool).0.warned && Follows(owners, o)
    ensures var f := FrameOf(Alloc(pool).1);
            !pool.warned && f !in owners && FromPool(Alloc(pool).0, owners[f := o])
  {
    AllocIsFresh(pool);
    PoolRises(pool, owners);
  }

  /** The entry paging_map_virtual_page leaves. */
  function MappedEntry(e: Entry, phys: Addr): Entry { Entry(true, true, e.user, e.global, FrameOf(phys)) }

  lemma MapPageAt(ram: Ram, cr3: Frame, pool: LivePool, marks: seq<nat>, owners: Owners, i: nat, k: nat)
    requires TablesOk(ram, cr3, marks, owners) && i < |marks| && k < PAGE_TABLE_INDICES
    ensures TableVa(ram, cr3, i) < WORDS && PageVa(i, k) < WORDS
    ensures IsPresent(ram, cr3, TableVa(ram, cr3, i), PageVa(i, k)) == Some(E(ram, cr3, i, k).present)
    ensures MapPage(ram, cr3, pool, TableVa(ram, cr3, i), PageVa(i, k)) ==
            Some(Mapped(WithEntry(ram, T(ram, cr3, i), k, MappedEntry(E(ram, cr3, i, k), Alloc(pool).1)),
                        Alloc(pool).0, Alloc(pool).1))
  {
    SelfMap(ram, cr3, marks, owners, i);
    PageIndices(i, k);
  }

  // ---- vmm_add_vmm_block ----

  /** The state vmm_add_vmm_block leaves once it has its descriptor. */
  function Added(vm: Vm): Vm
    requires 0 < |vm.blocks| < MAX_BLOCKS
  {
    var n := |vm.blocks|;
    var e := MappedEntry(E(vm.ram, vm.cr3, n - 1, SLOT), Alloc(vm.pool).1);
    Vm(Grown(vm.ram, vm.cr3, n, e), vm.cr3, vm.directory, Alloc(vm.pool).0,
       vm.blocks + [NewDesc(U32(PageVa(n, 0)), U32(PageVa(n - 1, SLOT)))], vm.growing)
  }

  lemma NextAddresses(d: Desc, n: nat)
    requires 0 < n < MAX_BLOCKS && d.firstPage == PageVa(n - 1, 0)
    ensures PageVa(n - 1, SLOT) < WORDS && PageVa(n, 0) < WORDS
    ensures U32(d.firstPage + HIGH_WATER_THRESHOLD * PAGE_SIZE) == PageVa(n - 1, SLOT)
    ensures U32(d.firstPage + PAGE_TABLE_RANGE) == PageVa(n, 0)
  {
    PageIndices(n - 1, SLOT);
    PageIndices(n, 0);
  }

  /** The three accesses of vmm_add_vmm_block: map the slot, enter the directory, clear the new table. */
  lemma ExtendStores(vm: Vm, marks: seq<nat>, owners: Owners)
    requires TablesOk(vm.ram, vm.cr3, marks, owners) && |marks| == |vm.blocks| < MAX_BLOCKS
    requires FrameOf(Alloc(vm.pool).1) !in owners
    ensures var n := |marks|;
            var e := MappedEntry(E(vm.ram, vm.cr3, n - 1, SLOT), Alloc(vm.pool).1);
            var ram1 := WithEntry(vm.ram, T(vm.ram, vm.cr3, n - 1), SLOT, e);
            var ram2 := WithEntry(ram1, vm.cr3, KERNEL_DIR + n, Entry(true, true, false, false, e.frame));
            && TableVa(vm.ram, vm.cr3, n - 1) < WORDS && PageVa(n - 1, SLOT) < WORDS && PageVa(n, 0) < WORDS
            && PageVa(0, vm.cr3) < WORDS
            && MapPage(vm.ram, vm.cr3, vm.pool, TableVa(vm.ram, vm.cr3, n - 1), PageVa(n - 1, SLOT))
               == Some(Mapped(ram1, Alloc(vm.pool).0, Alloc(vm.pool).1))
            && AddPageTable(ram1, vm.cr3, PageVa(0, vm.cr3), Alloc(vm.pool).1, PageVa(n, 0)) == Some(ram2)
            && StoreTable(ram2, vm.cr3, PageVa(n - 1, SLOT), Cleared()) == Some(Grown(vm.ram, vm.cr3, n, e))
  {
    var n := |marks|;
    var e := MappedEntry(E(vm.ram, vm.cr3, n - 1, SLOT), Alloc(vm.pool).1);
    PageIndices(n, 0);
    MapPageAt(vm.ram, vm.cr3, vm.pool, marks, owners, n - 1, SLOT);
    WalkAfterSlot(vm.ram, vm.cr3, marks, owners, e);
  }

  lemma ExtendAdds(vm: Vm, heap: seq<Block>, marks: seq<nat>, owners: Owners, descriptor: Addr)
    requires TablesOk(vm.ram, vm.cr3, marks, owners) && |marks| == |vm.blocks| < MAX_BLOCKS
    requires vm.directory == PageVa(0, vm.cr3) && FrameOf(Alloc(vm.pool).1) !in owners
    requires var d := vm.blocks[|vm.blocks| - 1];
             d.firstPage == PageVa(|vm.blocks| - 1, 0) && d.pageTable == TableVa(vm.ram, vm.cr3, |vm.blocks| - 1)
    ensures Extend(vm, heap, vm.blocks[|vm.blocks| - 1], descriptor) == Done(Result(Added(vm), heap, descriptor))
  {
    NextAddresses(vm.blocks[|vm.blocks| - 1], |vm.blocks|);
    ExtendStores(vm, marks, owners);
  }

  /** After the slot is written the directory is still where it was, and the slot's page is the new table. */
  lemma WalkAfterSlot(ram: Ram, cr3: Frame, marks: seq<nat>, owners: Owners, e: Entry)
    requires TablesOk(ram, cr3, marks, owners) && |marks| < MAX_BLOCKS && e.present && e.frame !in owners
    ensures var n := |marks|;
            var ram1 := WithEntry(ram, T(ram, cr3, n - 1), SLOT, e);
            && PageVa(0, cr3) < WORDS && PageVa(n - 1, SLOT) < WORDS
            && Walk(ram1, cr3, PageVa(0, cr3)) == Some(cr3)
            && var ram2 := WithEntry(ram1, cr3, KERNEL_DIR + n, Entry(true, true, false, false, e.frame));
               Walk(ram2, cr3, PageVa(n - 1, SLOT)) == Some(e.frame)
  {
    var n := |marks|;
    var ram1 := WithEntry(ram, T(ram, cr3, n - 1), SLOT, e);
    var ram2 := WithEntry(ram1, cr3, KERNEL_DIR + n, Entry(true, true, false, false, e.frame));
    EntryLocal(ram, cr3, n, owners, n - 1, SLOT, e);
    TablesDiffer(ram, cr3, n, owners, n - 1, 0);
    PageIndices(0, cr3);
    PageIndices(n - 1, SLOT);
    assert DirEntry(ram, cr3, 0).present && DirEntry(ram, cr3, n - 1).present;
    assert DirEntry(ram1, cr3, 0) == DirEntry(ram, cr3, 0);
    assert E(ram1, cr3, 0, cr3) == E(ram, cr3, 0, cr3);
    assert DirEntry(ram2, cr3, n - 1) == DirEntry(ram, cr3, n - 1);
  }

  // ---- marks and tables in step ----

  lemma MarkHead(ram: Ram, cr3: Frame, marks: seq<nat>, owners: Owners, m: nat)
    requires TablesOk(ram, cr3, marks, owners)
    ensures TablesOk(ram, cr3, marks[0 := m], owners)
  {}

  /** A slot already holds a page table when it is handed out: only the mark moves. */
  lemma MarkSlot(ram: Ram, cr3: Frame, marks: seq<nat>, owners: Owners, i: nat)
    requires TablesOk(ram, cr3, marks, owners) && 0 < i && i + 1 < |marks| && marks[i] == SLOT
    ensures TablesOk(ram, cr3, marks[i := SLOT + 1], owners)
  {}

  /** What looking up page k of block i does: nothing when it is present, else one entry and one frame. */
  lemma TouchAt(vm: Vm, heap: seq<Block>, marks: seq<nat>, owners: Owners, i: nat, k: nat)
    requires TablesOk(vm.ram, vm.cr3, marks, owners) && i < |marks| == |vm.blocks| && k < PAGE_TABLE_INDICES
    requires vm.blocks[i].pageTable == TableVa(vm.ram, vm.cr3, i) && PageVa(i, k) < WORDS
    ensures Touch(vm, heap, i, PageVa(i, k)) == Done(Result(Touched(vm, i, k), heap, PageVa(i, k)))
  {
    MapPageAt(vm.ram, vm.cr3, vm.pool, marks, owners, i, k);
  }

  function Touched(vm: Vm, i: nat, k: nat): Vm
    requires i < MAX_BLOCKS && k < PAGE_TABLE_INDICES
  {
    if E(vm.ram, vm.cr3, i, k).present then vm
    else
      vm.(ram := WithEntry(vm.ram, T(vm.ram, vm.cr3, i), k, MappedEntry(E(vm.ram, vm.cr3, i, k), Alloc(vm.pool).1)),
          pool := Alloc(vm.pool).0)
  }

  /** Marking and mapping page p of block i, the lowest free one: the tables follow the new mark. */
  lemma TouchTables(vm: Vm, heap: seq<Block>, marks: seq<nat>, owners: Owners, i: nat, p: nat) returns (owners': Owners)
    requires TablesOk(vm.ram, vm.cr3, marks, owners) && FromPool(vm.pool, owners)
    requires i < |marks| == |vm.blocks| && p <= marks[i] && p < PAGE_TABLE_INDICES
    requires i + 1 == |marks| ==> p < SLOT
    requires vm.blocks[i].pageTable == TableVa(vm.ram, vm.cr3, i) && PageVa(i, p) < WORDS
    requires Touch(vm, heap, i, PageVa(i, p)).Done? && !Touch(vm, heap, i, PageVa(i, p)).value.vm.pool.warned
    ensures var r := Touch(vm, heap, i, PageVa(i, p)).value;
            var marks' := if p == marks[i] then marks[i := p + 1] else marks;
            && TablesOk(r.vm.ram, vm.cr3, marks', owners') && FromPool(r.vm.pool, owners')
            && (forall j: nat | j < MAX_BLOCKS :: DirEntry(r.vm.ram, vm.cr3, j) == DirEntry(vm.ram, vm.cr3, j))
            && Stable(vm.ram, r.vm.ram, vm.cr3, |marks|)
            && E(r.vm.ram, vm.cr3, i, p).present
            && r.vm == vm.(ram := r.vm.ram, pool := r.vm.pool) && r.addr == PageVa(i, p) && r.heap == heap
            && !vm.pool.warned
  {
    hide Touch, MapPage, IsPresent, Walk, Compact, FromPool;
    owners' := owners;
    TouchAt(vm, heap, marks, owners, i, p);
    if i == 0 {
      assert E(vm.ram, vm.cr3, 0, p).present;
      MarkHead(vm.ram, vm.cr3, marks, owners, p + 1);
    } else if p == marks[i] {
      if p == SLOT {
        MarkSlot(vm.ram, vm.cr3, marks, owners, i);
      } else {
        owners' := FreshTables(vm.ram, vm.cr3, vm.pool, marks, owners, i);
      }
    }
  }

  /** Pages below a later block's mark are mapped, so the page at the mark follows one that is. */
  lemma SlotFollows(ram: Ram, cr3: Frame, marks: seq<nat>, owners: Owners, i: nat, k: nat)
    requires TablesOk(ram, cr3, marks, owners) && i < |marks| && marks[i] <= PAGE_TABLE_INDICES
    requires (k == marks[i] && k != SLOT) || (k == SLOT && marks[i] == SLOT - 1)
    ensures Follows(owners, Slot(i, k))
  {
    if i > 0 && k > 0 {
      var m := marks[i] - 1;
      assert E(ram, cr3, i, m).present && Installed(ram, cr3, |marks|, i, m);
      assert owners[E(ram, cr3, i, m).frame] == Slot(i, m);
    }
  }

  /** The first page above the mark of a later block is mapped to a fresh frame. */
  lemma FreshTables(ram: Ram, cr3: Frame, pool: LivePool, marks: seq<nat>, owners: Owners, i: nat)
    returns (owners': Owners)
    requires TablesOk(ram, cr3, marks, owners) && FromPool(pool, owners) && !Alloc(pool).0.warned
    requires 0 < i < |marks| && marks[i] < PAGE_TABLE_INDICES && marks[i] != SLOT
    ensures var ram' := WithEntry(ram, T(ram, cr3, i), marks[i], MappedEntry(E(ram, cr3, i, marks[i]), Alloc(pool).1));
            && TablesOk(ram', cr3, marks[i := marks[i] + 1], owners') && FromPool(Alloc(pool).0, owners')
            && (forall j: nat | j < MAX_BLOCKS :: DirEntry(ram', cr3, j) == DirEntry(ram, cr3, j))
            && Stable(ram, ram', cr3, |marks|) && E(ram', cr3, i, marks[i]).present && !pool.warned
  {
    var p := marks[i];
    var e := MappedEntry(E(ram, cr3, i, p), Alloc(pool).1);
    SlotFollows(ram, cr3, marks, owners, i, p);
    PoolStep(pool, owners, Slot(i, p));
    MapFresh(ram, cr3, marks, owners, i, p, e);
    owners' := owners[e.frame := Slot(i, p)];
  }

  // ---- vmm_alloc_page ----

  /** The block and page vmm_alloc_page picks. */
  function Pick(blocks: seq<Desc>): (nat, nat)
    requires FindBlock(blocks, 0) < |blocks|
  {
    (FindBlock(blocks, 0), Scan(blocks[FindBlock(blocks, 0)].bitmap))
  }

  lemma PageAtIs(d: Desc, i: nat, p: nat)
    requires i < MAX_BLOCKS && p < PAGE_TABLE_INDICES && d.firstPage == PageVa(i, 0)
    ensures PageVa(i, p) < WORDS && PageAt(d, p) == PageVa(i, p) && PageVa(i, p) != 0
  {
    PageIndices(i, p);
  }

  lemma PickOk(blocks: seq<Desc>)
    requires BlocksOk(blocks) && FindBlock(blocks, 0) < |blocks| <= MAX_BLOCKS
    ensures var (i, p) := Pick(blocks);
            && p < PAGE_TABLE_INDICES && p <= blocks[i].highWaterMark
            && (i + 1 == |blocks| ==> p < SLOT)
            && PageVa(i, p) < WORDS && PageAt(blocks[i], p) == PageVa(i, p) && PageVa(i, p) != 0
  {
    var (i, p) := Pick(blocks);
    assert DescOk(blocks[i]);
    TakeOk(blocks[i]);
    PageAtIs(blocks[i], i, p);
  }

  /** The block added when the page taken is the last below the threshold, if any. */
  function Extra(blocks: seq<Desc>): (extra: seq<Desc>)
    requires FindBlock(blocks, 0) < |blocks|
    ensures |extra| <= 1
  {
    var (i, p) := Pick(blocks);
    if Take(blocks[i], p).highWaterMark == HIGH_WATER_THRESHOLD && i + 1 == |blocks|
    then [NewDesc(U32(PageVa(|blocks|, 0)), U32(PageVa(|blocks| - 1, SLOT)))]
    else []
  }

  /** The block list after the page is taken and, at the threshold, a block is added. */
  function NextBlocks(blocks: seq<Desc>): seq<Desc>
    requires FindBlock(blocks, 0) < |blocks|
  {
    var (i, p) := Pick(blocks);
    blocks[i := Take(blocks[i], p)] + Extra(blocks)
  }

  /** The marks the tables still correspond to then: the page is not mapped yet. */
  function TableMarks(blocks: seq<Desc>): seq<nat>
    requires FindBlock(blocks, 0) < |blocks|
  {
    Marks(blocks) + Marks(Extra(blocks))
  }

  function NextRam(ram: Ram, cr3: Frame, pool: LivePool, blocks: seq<Desc>): Ram
    requires FindBlock(blocks, 0) < |blocks|
  {
    var n := |blocks|;
    if Extra(blocks) == [] || n >= MAX_BLOCKS then ram
    else Grown(ram, cr3, n, MappedEntry(E(ram, cr3, n - 1, SLOT), Alloc(pool).1))
  }

  function NextPool(pool: LivePool, blocks: seq<Desc>): LivePool
    requires FindBlock(blocks, 0) < |blocks|
  {
    if Extra(blocks) == [] then pool else Alloc(pool).0
  }

  /** The state just before the chosen page is looked up. */
  function Middle(vm: Vm): Vm
    requires FindBlock(vm.blocks, 0) < |vm.blocks|
  {
    Vm(NextRam(vm.ram, vm.cr3, vm.pool, vm.blocks), vm.cr3, vm.directory, NextPool(vm.pool, vm.blocks),
       NextBlocks(vm.blocks), vm.growing)
  }

  /** The heap after kmalloc served the descriptor. */
  function DescriptorHeap(heap: seq<Block>): seq<Block> {
    var k := FirstFit(heap, Rounded(DESC_BYTES));
    if k < |heap| && Splits(heap[k], Rounded(DESC_BYTES)) then SplitAt(heap, k, Rounded(DESC_BYTES)) else heap
  }

  function MiddleHeap(vm: Vm, heap: seq<Block>): seq<Block>
    requires FindBlock(vm.blocks, 0) < |vm.blocks|
  {
    if Extra(vm.blocks) == [] then heap else DescriptorHeap(heap)
  }

  /** The descriptor kmalloc handed out, if it did. */
  function DescriptorAddr(heap: seq<Block>): Addr {
    var k := FirstFit(heap, Rounded(DESC_BYTES));
    if k == |heap| then 0
    else if Splits(heap[k], Rounded(DESC_BYTES)) then U32(Cut(heap[k], Rounded(DESC_BYTES)).addr + HEADER)
    else U32(heap[k].addr + HEADER)
  }

  /** An allocation made while a block is being added never hands kmalloc a descriptor. */
  lemma DescriptorOrNothing(vm: Vm, heap: seq<Block>)
    requires vm.growing && KmallocVm(vm, heap, DESC_BYTES).Done? && KmallocVm(vm, heap, DESC_BYTES).value.addr != 0
    ensures KmallocVm(vm, heap, DESC_BYTES).value == Result(vm, DescriptorHeap(heap), DescriptorAddr(heap))
  {}

  lemma TouchWarns(vm: Vm, heap: seq<Block>, i: nat, page: Addr)
    requires Touch(vm, heap, i, page).Done? && !Touch(vm, heap, i, page).value.vm.pool.warned
    ensures !vm.pool.warned && |Touch(vm, heap, i, page).value.vm.blocks| == |vm.blocks|
  {
    AllocTakesLowest(vm.pool);
  }

  /** No warning and no block beyond the address space: the condition under which a call worked as meant. */
  predicate Sound(vm: Vm) { !vm.pool.warned && |vm.blocks| <= MAX_BLOCKS }

  lemma AddBlockIs(vm: Vm, heap: seq<Block>, i: nat)
    requires vm.growing && i < |vm.blocks| && AddBlock(vm, heap, i).Done?
    ensures AddBlock(vm, heap, i) == Extend(vm, DescriptorHeap(heap), vm.blocks[i], DescriptorAddr(heap))
  {
    DescriptorOrNothing(vm, heap);
  }

  lemma ExtendPool(vm: Vm, heap: seq<Block>, d: Desc, descriptor: Addr)
    requires Extend(vm, heap, d, descriptor).Done?
    ensures var r := Extend(vm, heap, d, descriptor).value;
            r.vm.pool == Alloc(vm.pool).0 && |r.vm.blocks| == |vm.blocks| + 1
  {}

  lemma AddBlockAdds(vm: Vm, heap: seq<Block>, marks: seq<nat>, owners: Owners)
    requires TablesOk(vm.ram, vm.cr3, marks, owners) && |marks| == |vm.blocks| <= MAX_BLOCKS && vm.growing
    requires vm.directory == PageVa(0, vm.cr3) && FromPool(vm.pool, owners)
    requires var d := vm.blocks[|vm.blocks| - 1];
             d.firstPage == PageVa(|vm.blocks| - 1, 0) && d.pageTable == TableVa(vm.ram, vm.cr3, |vm.blocks| - 1)
    requires AddBlock(vm, heap, |vm.blocks| - 1).Done? && Sound(AddBlock(vm, heap, |vm.blocks| - 1).value.vm)
    ensures |vm.blocks| < MAX_BLOCKS && !Alloc(vm.pool).0.warned
    ensures var r := AddBlock(vm, heap, |vm.blocks| - 1).value;
            r.vm == Added(vm) && r.heap == DescriptorHeap(heap)
  {
    var i := |vm.blocks| - 1;
    AddBlockIs(vm, heap, i);
    var heap' := DescriptorHeap(heap);
    var d := DescriptorAddr(heap);
    ExtendPool(vm, heap', vm.blocks[i], d);
    PoolRises(vm.pool, owners);
    ExtendAdds(vm, heap', marks, owners, d);
  }

  /** The call made with the flag set and the page taken leads to the middle state. */
  lemma GrowthReachesMiddle(vm: Vm, heap: seq<Block>, owners: Owners, r: Result)
    requires VmOk(vm, owners) && FindBlock(vm.blocks, 0) + 1 == |vm.blocks| && Extra(vm.blocks) != []
    requires AddBlock(WithFlag(WithTaken(vm, |vm.blocks| - 1), true), heap, |vm.blocks| - 1) == Done(r) && Sound(r.vm)
    ensures |NextBlocks(vm.blocks)| <= MAX_BLOCKS && !Alloc(vm.pool).0.warned
    ensures WithFlag(r.vm, false) == Middle(vm) && r.heap == MiddleHeap(vm, heap)
  {
    var i := |vm.blocks| - 1;
    var flagged := WithFlag(WithTaken(vm, i), true);
    AddBlockAdds(flagged, heap, Marks(vm.blocks), owners);
    assert Added(flagged).blocks == NextBlocks(vm.blocks);
  }

  /** The last two steps of vmm_alloc_page, with growth in between when a block is due. */
  lemma AllocUnfold(vm: Vm, heap: seq<Block>)
    requires !vm.growing && AllocPage(vm, heap).Done?
    ensures var i := FindBlock(vm.blocks, 0);
            && i < |vm.blocks|
            && var page := PageAt(vm.blocks[i], Scan(vm.blocks[i].bitmap));
               if Extra(vm.blocks) == [] then
                 AllocPage(vm, heap) == Touch(WithTaken(vm, i), heap, i, page)
               else
                 && i + 1 == |vm.blocks|
                 && var r := AddBlock(WithFlag(WithTaken(vm, i), true), heap, i);
                    r.Done? && AllocPage(vm, heap) == Touch(WithFlag(r.value.vm, false), r.value.heap, i, page)
  {}

  lemma PlainMiddle(vm: Vm)
    requires FindBlock(vm.blocks, 0) < |vm.blocks| && Extra(vm.blocks) == []
    ensures WithTaken(vm, FindBlock(vm.blocks, 0)) == Middle(vm)
  {
    assert WithTaken(vm, FindBlock(vm.blocks, 0)).blocks == NextBlocks(vm.blocks);
  }

  lemma AllocIsTouch(vm: Vm, heap: seq<Block>, owners: Owners)
    requires VmOk(vm, owners) && AllocPage(vm, heap).Done? && Sound(AllocPage(vm, heap).value.vm)
    ensures var i := FindBlock(vm.blocks, 0);
            && i < |vm.blocks|
            && |NextBlocks(vm.blocks)| <= MAX_BLOCKS
            && (Extra(vm.blocks) != [] ==> !Alloc(vm.pool).0.warned)
            && AllocPage(vm, heap) ==
               Touch(Middle(vm), MiddleHeap(vm, heap), i, PageAt(vm.blocks[i], Scan(vm.blocks[i].bitmap)))
  {
    AllocUnfold(vm, heap);
    var i := FindBlock(vm.blocks, 0);
    var page := PageAt(vm.blocks[i], Scan(vm.blocks[i].bitmap));
    if Extra(vm.blocks) == [] {
      PlainMiddle(vm);
    } else {
      var r := AddBlock(WithFlag(WithTaken(vm, i), true), heap, i).value;
      TouchWarns(WithFlag(r.vm, false), r.heap, i, page);
      GrowthReachesMiddle(vm, heap, owners, r);
    }
  }

  lemma NextTables(ram: Ram, cr3: Frame, pool: LivePool, blocks: seq<Desc>, owners: Owners) returns (owners': Owners)
    requires BlocksOk(blocks) && TablesOk(ram, cr3, Marks(blocks), owners) && FromPool(pool, owners)
    requires FindBlock(blocks, 0) < |blocks| && |NextBlocks(blocks)| <= MAX_BLOCKS
    requires Extra(blocks) != [] ==> !Alloc(pool).0.warned
    ensures TablesOk(NextRam(ram, cr3, pool, blocks), cr3, TableMarks(blocks), owners')
    ensures FromPool(NextPool(pool, blocks), owners')
    ensures DirEntry(NextRam(ram, cr3, pool, blocks), cr3, 0) == DirEntry(ram, cr3, 0)
    ensures Stable(ram, NextRam(ram, cr3, pool, blocks), cr3, |blocks|)
  {
    ExtraMarks(blocks);
    if Extra(blocks) == [] {
      owners' := owners;
    } else {
      owners' := GrownTables(ram, cr3, pool, Marks(blocks), owners);
    }
  }

  lemma ExtraMarks(blocks: seq<Desc>)
    requires BlocksOk(blocks) && FindBlock(blocks, 0) < |blocks|
    ensures TableMarks(blocks) == if Extra(blocks) == [] then Marks(blocks) else Marks(blocks) + [0]
    ensures Extra(blocks) != [] ==> Marks(blocks)[|blocks| - 1] == SLOT - 1
  {
    var i := Pick(blocks).0;
    assert DescOk(blocks[i]);
    TakeOk(blocks[i]);
    var (a, b) := (Marks(blocks), Marks(Extra(blocks)));
    assert |b| == |Extra(blocks)|;
    if Extra(blocks) != [] { assert b == [0]; } else { assert a + b == a; }
  }

  lemma GrownTables(ram: Ram, cr3: Frame, pool: LivePool, marks: seq<nat>, owners: Owners) returns (owners': Owners)
    requires TablesOk(ram, cr3, marks, owners) && FromPool(pool, owners) && !Alloc(pool).0.warned
    requires |marks| < MAX_BLOCKS && marks[|marks| - 1] == SLOT - 1
    ensures var n := |marks|;
            var ram' := Grown(ram, cr3, n, MappedEntry(E(ram, cr3, n - 1, SLOT), Alloc(pool).1));
            && TablesOk(ram', cr3, marks + [0], owners') && FromPool(Alloc(pool).0, owners')
            && DirEntry(ram', cr3, 0) == DirEntry(ram, cr3, 0) && Stable(ram, ram', cr3, n)
  {
    var n := |marks|;
    var e := MappedEntry(E(ram, cr3, n - 1, SLOT), Alloc(pool).1);
    SlotFollows(ram, cr3, marks, owners, n - 1, SLOT);
    PoolStep(pool, owners, Slot(n - 1, SLOT));
    AddTable(ram, cr3, marks, owners, e);
    owners' := owners[e.frame := Slot(n - 1, SLOT)];
  }

  lemma CountNone(bitmap: seq<Word>, n: nat)
    requires n <= 32 * |bitmap| && forall p | 0 <= p < n :: !Taken(bitmap, p)
    ensures Count(bitmap, n) == 0
  {}

  lemma NewDescOk(firstPage: Addr, pageTable: Addr)
    ensures DescOk(NewDesc(firstPage, pageTable))
  {
    CountNone(NoPages(), 32 * VMM_BITMAP_SIZE);
  }

  /** BlocksOk, but the last block may just have reached the threshold. */
  ghost predicate NearlyOk(blocks: seq<Desc>) {
    && blocks != []
    && (forall i | 0 <= i < |blocks| :: DescOk(blocks[i]) && blocks[i].firstPage == PageVa(i, 0))
    && (forall i | 0 <= i < |blocks| - 1 :: blocks[i].highWaterMark >= HIGH_WATER_THRESHOLD)
  }

  lemma TakenNearlyOk(blocks: seq<Desc>)
    requires BlocksOk(blocks) && FindBlock(blocks, 0) < |blocks|
    ensures var (i, p) := Pick(blocks);
            NearlyOk(blocks[i := Take(blocks[i], p)])
    ensures var (i, p) := Pick(blocks);
            Take(blocks[i], p).highWaterMark == if p == blocks[i].highWaterMark then p + 1 else blocks[i].highWaterMark
  {
    var (i, p) := Pick(blocks);
    assert DescOk(blocks[i]);
    TakeOk(blocks[i]);
    var taken := blocks[i := Take(blocks[i], p)];
    forall j | 0 <= j < |taken|
      ensures DescOk(taken[j]) && taken[j].firstPage == PageVa(j, 0)
      ensures j < |taken| - 1 ==> taken[j].highWaterMark >= HIGH_WATER_THRESHOLD
    {
      assert DescOk(blocks[j]) && blocks[j].firstPage == PageVa(j, 0);
    }
  }

  lemma GrownBlocksOk(blocks: seq<Desc>)
    requires NearlyOk(blocks) && |blocks| < MAX_BLOCKS
    requires blocks[|blocks| - 1].highWaterMark >= HIGH_WATER_THRESHOLD
    ensures BlocksOk(blocks + [NewDesc(U32(PageVa(|blocks|, 0)), U32(PageVa(|blocks| - 1, SLOT)))])
  {
    var n := |blocks|;
    PageIndices(n, 0);
    NewDescOk(U32(PageVa(n, 0)), U32(PageVa(n - 1, SLOT)));
  }

  lemma MarksStep(blocks: seq<Desc>, i: nat, d: Desc, extra: seq<Desc>)
    requires i < |blocks|
    ensures Marks(blocks[i := d] + extra) == (Marks(blocks) + Marks(extra))[i := d.highWaterMark]
  {}

  /** The block list stays in order, and its marks run one page ahead of the tables. */
  lemma NextBlocksOk(blocks: seq<Desc>)
    requires BlocksOk(blocks) && FindBlock(blocks, 0) < |blocks| && |NextBlocks(blocks)| <= MAX_BLOCKS
    ensures BlocksOk(NextBlocks(blocks))
    ensures var (i, p) := Pick(blocks);
            Marks(NextBlocks(blocks)) ==
            if p == blocks[i].highWaterMark then TableMarks(blocks)[i := p + 1] else TableMarks(blocks)
  {
    TakenNearlyOk(blocks);
    NextInOrder(blocks);
    var (i, p) := Pick(blocks);
    MarksStep(blocks, i, Take(blocks[i], p), Extra(blocks));
    assert TableMarks(blocks)[i] == blocks[i].highWaterMark;
  }

  lemma NextInOrder(blocks: seq<Desc>)
    requires BlocksOk(blocks) && FindBlock(blocks, 0) < |blocks| && |NextBlocks(blocks)| <= MAX_BLOCKS
    ensures BlocksOk(NextBlocks(blocks))
  {
    var (i, p) := Pick(blocks);
    var taken := blocks[i := Take(blocks[i], p)];
    TakenNearlyOk(blocks);
    PickOk(blocks);
    if Extra(blocks) != [] {
      GrownBlocksOk(taken);
    } else {
      assert NextBlocks(blocks) == taken;
      assert blocks[|blocks| - 1].highWaterMark < HIGH_WATER_THRESHOLD;
    }
  }

  /** Table pointers only depend on the first directory entry. */
  lemma NextPointers(vm: Vm, m: Vm)
    requires 0 < |vm.blocks| <= MAX_BLOCKS && PointersOk(vm) && FindBlock(vm.blocks, 0) < |vm.blocks|
    requires m.blocks == NextBlocks(vm.blocks) && |m.blocks| <= MAX_BLOCKS && m.cr3 == vm.cr3
    requires m.directory == vm.directory && DirEntry(m.ram, vm.cr3, 0) == DirEntry(vm.ram, vm.cr3, 0)
    ensures PointersOk(m)
  {
    var n := |vm.blocks|;
    PageIndices(n - 1, SLOT);
    forall j | 0 <= j < |m.blocks|
      ensures m.blocks[j].pageTable == TableVa(m.ram, vm.cr3, j)
    {
      assert j < n ==> vm.blocks[j].pageTable == TableVa(vm.ram, vm.cr3, j);
    }
  }

  lemma PointersStay(vm: Vm, ram: Ram, pool: LivePool)
    requires |vm.blocks| <= MAX_BLOCKS && PointersOk(vm) && DirEntry(ram, vm.cr3, 0) == DirEntry(vm.ram, vm.cr3, 0)
    ensures PointersOk(vm.(ram := ram, pool := pool))
  {
    forall j | 0 <= j < |vm.blocks| ensures TableVa(ram, vm.cr3, j) == TableVa(vm.ram, vm.cr3, j) {}
  }

  /** Page p of block i is taken in the bitmap and about to be mapped. */
  ghost predicate Ready(m: Vm, marks: seq<nat>, owners: Owners, i: nat, p: nat) {
    && !m.growing && |m.blocks| <= MAX_BLOCKS && BlocksOk(m.blocks) && PointersOk(m)
    && TablesOk(m.ram, m.cr3, marks, owners) && FromPool(m.pool, owners)
    && i < |marks| == |m.blocks| && p <= marks[i] && p < PAGE_TABLE_INDICES && (i + 1 == |marks| ==> p < SLOT)
    && Marks(m.blocks) == (if p == marks[i] then marks[i := p + 1] else marks)
    && PageVa(i, p) < WORDS
  }

  lemma MiddleReady(vm: Vm, owners: Owners) returns (owners': Owners)
    requires VmOk(vm, owners) && FindBlock(vm.blocks, 0) < |vm.blocks| && |NextBlocks(vm.blocks)| <= MAX_BLOCKS
    requires Extra(vm.blocks) != [] ==> !Alloc(vm.pool).0.warned
    ensures Ready(Middle(vm), TableMarks(vm.blocks), owners', Pick(vm.blocks).0, Pick(vm.blocks).1)
    ensures Stable(vm.ram, Middle(vm).ram, vm.cr3, |vm.blocks|)
  {
    PickOk(vm.blocks);
    owners' := NextTables(vm.ram, vm.cr3, vm.pool, vm.blocks, owners);
    NextBlocksOk(vm.blocks);
    NextPointers(vm, Middle(vm));
  }

  lemma FinishAlloc(m: Vm, heap: seq<Block>, marks: seq<nat>, owners: Owners, i: nat, p: nat) returns (owners': Owners)
    requires Ready(m, marks, owners, i, p) && Touch(m, heap, i, PageVa(i, p)).Done?
    requires Sound(Touch(m, heap, i, PageVa(i, p)).value.vm)
    ensures VmOk(Touch(m, heap, i, PageVa(i, p)).value.vm, owners') && !m.pool.warned
    ensures var r := Touch(m, heap, i, PageVa(i, p)).value;
            && Stable(m.ram, r.vm.ram, m.cr3, |m.blocks|) && E(r.vm.ram, m.cr3, i, p).present
            && r.vm.blocks == m.blocks && r.vm.cr3 == m.cr3 && r.addr == PageVa(i, p)
  {
    owners' := TouchTables(m, heap, marks, owners, i, p);
    var r := Touch(m, heap, i, PageVa(i, p)).value;
    assert DirEntry(r.vm.ram, m.cr3, 0) == DirEntry(m.ram, m.cr3, 0);
    PointersStay(m, r.vm.ram, r.vm.pool);
  }

  /** Every allocation, with or without growth, keeps the invariant. */
  lemma AllocKeeps(vm: Vm, heap: seq<Block>, owners: Owners) returns (owners': Owners)
    requires VmOk(vm, owners) && AllocPage(vm, heap).Done? && Sound(AllocPage(vm, heap).value.vm)
    ensures VmOk(AllocPage(vm, heap).value.vm, owners')
    ensures Sound(vm) && FindBlock(vm.blocks, 0) < |vm.blocks|
    ensures var (r, (i, p)) := (AllocPage(vm, heap).value, Pick(vm.blocks));
            && i < MAX_BLOCKS && p < PAGE_TABLE_INDICES && r.addr == PageVa(i, p)
            && r.vm.blocks == NextBlocks(vm.blocks) && r.vm.cr3 == vm.cr3
            && E(r.vm.ram, vm.cr3, i, p).present && Stable(vm.ram, r.vm.ram, vm.cr3, |vm.blocks|)
  {
    AllocIsTouch(vm, heap, owners);
    var (i, p) := Pick(vm.blocks);
    var middle := MiddleReady(vm, owners);
    PageAtIs(vm.blocks[i], i, p);
    owners' := FinishAlloc(Middle(vm), MiddleHeap(vm, heap), TableMarks(vm.blocks), middle, i, p);
    if Extra(vm.blocks) != [] { AllocTakesLowest(vm.pool); }
  }
}
